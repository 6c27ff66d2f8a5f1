/** Two small trees walked from end to end: what modify_filenames leaves
    behind when it stops part-way, and when one new name lands on a file
    that is still to be listed. */
module WalkExamples {
  import opened Failures
  import opened RenameRule
  import opened FileTree
  import opened Walker
  import opened WalkProperties

  /** The rule of `--prefix pre_` alone. */
  function PrefixRule(): (r: Rule)
    ensures r.prefix == Some("pre_") && r.suffix.None? && r.extold.None? && r.regex.None?
  {
    Rule(Some("pre_"), None, None, None, None, None)
  }

  /** A file listed before an empty subdirectory is renamed, and then the
      subdirectory raises FileNotFoundError: the walk stops with the rename
      already done. */
  lemma NestedEmptyDirectoryStopsWalk(env: Env)
    requires Allowed("pre_", env)
    ensures WalkDir([], Dir([Entry("a.txt", File(1)), Entry("empty", Dir([]))]), PrefixRule(), env)
            == Walked([Entry("pre_a.txt", File(1)), Entry("empty", Dir([]))], Err(FileNotFoundError(["empty"])))
  {
    var rule := PrefixRule();
    var es := [Entry("a.txt", File(1)), Entry("empty", Dir([]))];
    var dir := Dir(es);
    var renamed := [Entry("pre_a.txt", File(1)), Entry("empty", Dir([]))];
    RenameFirst(env);
    SelfUntouched(es, 0);
    LookupAt(es, 0);
    WalkFromFile([], dir, 0, es, true, rule, env);
    EmptyTurn(env);
  }

  lemma EmptyTurn(env: Env)
    requires DirectoriesUntouched([Entry("a.txt", File(1)), Entry("empty", Dir([]))], 1,
                                  [Entry("pre_a.txt", File(1)), Entry("empty", Dir([]))])
    ensures WalkFrom([], Dir([Entry("a.txt", File(1)), Entry("empty", Dir([]))]), 1,
                     [Entry("pre_a.txt", File(1)), Entry("empty", Dir([]))], false, PrefixRule(), env)
            == Walked([Entry("pre_a.txt", File(1)), Entry("empty", Dir([]))], Err(FileNotFoundError(["empty"])))
  {
    var renamed := [Entry("pre_a.txt", File(1)), Entry("empty", Dir([]))];
    LookupAt(renamed, 1);
    assert [] + ["empty"] == ["empty"];
    EmptyDirectoryRaises(["empty"], Dir([]), PrefixRule(), env);
    WalkFromDir([], Dir([Entry("a.txt", File(1)), Entry("empty", Dir([]))]), 1, renamed, false, PrefixRule(), env);
  }

  lemma RenameFirst(env: Env)
    requires Allowed("pre_", env)
    ensures ModifyFilename([], [Entry("a.txt", File(1)), Entry("empty", Dir([]))], "a.txt", PrefixRule(), env)
            == Ok([Entry("pre_a.txt", File(1)), Entry("empty", Dir([]))])
  {
    var rule := PrefixRule();
    var es := [Entry("a.txt", File(1)), Entry("empty", Dir([]))];
    assert CharactersAllowed(rule, env);
    PrefixOnly("a.txt", "pre_", env);
    assert Transform("a.txt", rule, env) == "pre_a.txt";
    assert NewName("a.txt", rule, env) == Ok("pre_a.txt");
    LookupAt(es, 0);
    assert Lookup(es, "pre_a.txt").None?;
    assert IndexOf(es, "a.txt") == 0;
    assert Rename(es, "a.txt", "pre_a.txt") == es[0 := Entry("pre_a.txt", File(1))];
    assert es[0 := Entry("pre_a.txt", File(1))] == [Entry("pre_a.txt", File(1)), Entry("empty", Dir([]))];
    assert Replace([], es, "a.txt", "pre_a.txt") == Ok([Entry("pre_a.txt", File(1)), Entry("empty", Dir([]))]);
  }

  /** A file renamed onto the name of a file listed after it overwrites that
      file; when the listing reaches that name it finds the moved file there
      and renames it once more. One file's contents are lost. */
  lemma CollisionOverwritesAndRenamesTwice(env: Env)
    requires Allowed("pre_", env)
    ensures WalkDir([], Dir([Entry("a", File(1)), Entry("pre_a", File(2))]), PrefixRule(), env)
            == Walked([Entry("pre_pre_a", File(1))], Ok(false))
  {
    var rule := PrefixRule();
    var es := [Entry("a", File(1)), Entry("pre_a", File(2))];
    var dir := Dir(es);
    var once := [Entry("pre_a", File(1))];
    OverwriteSecond(env);
    SelfUntouched(es, 0);
    LookupAt(es, 0);
    WalkFromFile([], dir, 0, es, true, rule, env);
    RenameMovedAgain(env);
    LookupAt(once, 0);
    WalkFromFile([], dir, 1, once, false, rule, env);
  }

  lemma OverwriteSecond(env: Env)
    requires Allowed("pre_", env)
    ensures ModifyFilename([], [Entry("a", File(1)), Entry("pre_a", File(2))], "a", PrefixRule(), env)
            == Ok([Entry("pre_a", File(1))])
  {
    var rule := PrefixRule();
    var es := [Entry("a", File(1)), Entry("pre_a", File(2))];
    assert CharactersAllowed(rule, env);
    PrefixOnly("a", "pre_", env);
    assert Transform("a", rule, env) == "pre_a";
    assert NewName("a", rule, env) == Ok("pre_a");
    LookupAt(es, 0);
    LookupAt(es, 1);
    assert IndexOf(es, "pre_a") == 1;
    assert Delete(es, 1) == [Entry("a", File(1))];
    assert Relabel([Entry("a", File(1))], "a", "pre_a") == [Entry("pre_a", File(1))];
  }

  lemma RenameMovedAgain(env: Env)
    requires Allowed("pre_", env)
    ensures ModifyFilename([], [Entry("pre_a", File(1))], "pre_a", PrefixRule(), env)
            == Ok([Entry("pre_pre_a", File(1))])
  {
    var rule := PrefixRule();
    var once := [Entry("pre_a", File(1))];
    assert CharactersAllowed(rule, env);
    PrefixOnly("pre_a", "pre_", env);
    assert Transform("pre_a", rule, env) == "pre_pre_a";
    assert NewName("pre_a", rule, env) == Ok("pre_pre_a");
    LookupAt(once, 0);
    assert Lookup(once, "pre_pre_a").None?;
    assert IndexOf(once, "pre_a") == 0;
    assert Rename(once, "pre_a", "pre_pre_a") == [Entry("pre_pre_a", File(1))];
  }
}
