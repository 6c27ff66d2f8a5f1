/** What modify_filenames does to a whole directory tree: when it raises,
    when it succeeds, and what the tree looks like after a walk in which
    no new name collides with another. */
module WalkProperties {
  import opened Failures
  import opened RenameRule
  import opened FileTree
  import opened Walker
  import opened WalkStates

  /** A directory listing is its own state before any of it is walked. */
  lemma SelfUntouched(es: seq<Entry>, k: nat)
    requires UniqueNames(es)
    ensures DirectoriesUntouched(es, k, es)
  {
    forall j | k <= j < |es|
      ensures Lookup(es, es[j].name) == Some(es[j].node)
    {
      LookupAt(es, j);
    }
  }

  /** A directory holding neither a file nor a subdirectory raises
      FileNotFoundError and is left as it was. */
  lemma EmptyDirectoryRaises(path: Path, dir: Node, rule: Rule, env: Env)
    requires dir.Dir? && WellFormed(dir) && !HasFileOrDir(dir.entries)
    ensures WalkDir(path, dir, rule, env) == Walked(dir.entries, Err(FileNotFoundError(path)))
  {
    SelfUntouched(dir.entries, 0);
    EmptyFrom(path, dir, 0, rule, env);
  }

  lemma {:induction false} EmptyFrom(path: Path, dir: Node, k: nat, rule: Rule, env: Env)
    requires dir.Dir? && WellFormed(dir) && k <= |dir.entries| && !HasFileOrDir(dir.entries)
    requires DirectoriesUntouched(dir.entries, k, dir.entries)
    ensures WalkFrom(path, dir, k, dir.entries, true, rule, env) == Walked(dir.entries, Err(FileNotFoundError(path)))
    decreases |dir.entries| - k
  {
    if k < |dir.entries| {
      LookupAt(dir.entries, k);
      SelfUntouched(dir.entries, k + 1);
      EmptyFrom(path, dir, k + 1, rule, env);
    }
  }

  /** A rule that fails validation renames nothing anywhere in the tree: the
      walk raises the validation error at the first file it reaches, or
      FileNotFoundError at a directory it finishes without reaching one. */
  lemma {:induction false} InvalidRuleRenamesNothing(path: Path, dir: Node, rule: Rule, env: Env)
    requires dir.Dir? && WellFormed(dir) && !Valid(rule, env)
    ensures var w := WalkDir(path, dir, rule, env);
            && w.entries == dir.entries
            && w.result.Err?
            && (Validate(rule, env) == Some(w.result.error) || w.result.error.FileNotFoundError?)
    decreases dir, 1
  {
    SelfUntouched(dir.entries, 0);
    InvalidRuleFrom(path, dir, 0, rule, env);
  }

  lemma {:induction false} InvalidRuleFrom(path: Path, dir: Node, k: nat, rule: Rule, env: Env)
    requires dir.Dir? && WellFormed(dir) && k <= |dir.entries| && !Valid(rule, env)
    requires DirectoriesUntouched(dir.entries, k, dir.entries)
    ensures var w := WalkFrom(path, dir, k, dir.entries, true, rule, env);
            && w.entries == dir.entries
            && w.result.Err?
            && (Validate(rule, env) == Some(w.result.error) || w.result.error.FileNotFoundError?)
    decreases dir, 0, |dir.entries| - k
  {
    if k < |dir.entries| {
      var es := dir.entries;
      LookupAt(es, k);
      var node := es[k].node;
      if node.Dir? {
        InvalidRuleRenamesNothing(path + [es[k].name], node, rule, env);
      } else if !node.File? {
        SelfUntouched(es, k + 1);
        InvalidRuleFrom(path, dir, k + 1, rule, env);
      }
    }
  }

  /** Every directory listed before index k still has a directory under its name. */
  predicate DirectoriesHeld(es: seq<Entry>, k: nat, cur: seq<Entry>) {
    forall j :: 0 <= j < k && j < |es| && es[j].node.Dir? ==> IsDir(Lookup(cur, es[j].name))
  }

  /** No walk renames or removes a subdirectory: every listed directory's
      name still holds a directory afterwards, whether the walk returned or
      raised and whatever new names collided. */
  lemma DirectoriesKeepTheirNames(path: Path, dir: Node, rule: Rule, env: Env)
    requires dir.Dir? && WellFormed(dir)
    ensures forall i :: 0 <= i < |dir.entries| && dir.entries[i].node.Dir? ==>
              IsDir(Lookup(WalkDir(path, dir, rule, env).entries, dir.entries[i].name))
  {
    SelfUntouched(dir.entries, 0);
    DirectoriesKeptFrom(path, dir, 0, dir.entries, true, rule, env);
    assert DirectoriesHeld(dir.entries, |dir.entries|, WalkDir(path, dir, rule, env).entries);
  }

  lemma {:induction false} DirectoriesKeptFrom(path: Path, dir: Node, k: nat, cur: seq<Entry>, noFilesFound: bool, rule: Rule, env: Env)
    requires dir.Dir? && WellFormed(dir) && k <= |dir.entries|
    requires UniqueNames(cur) && DirectoriesUntouched(dir.entries, k, cur)
    requires DirectoriesHeld(dir.entries, k, cur)
    ensures DirectoriesHeld(dir.entries, |dir.entries|, WalkFrom(path, dir, k, cur, noFilesFound, rule, env).entries)
    decreases |dir.entries| - k
  {
    var es := dir.entries;
    if k == |es| {
      return;
    }
    var name := es[k].name;
    var item := Lookup(cur, name);
    if IsFile(item) {
      WalkFromFile(path, dir, k, cur, noFilesFound, rule, env);
      var r := ModifyFilename(path, cur, name, rule, env);
      if r.Err? {
        HeldAtEnd(es, k, cur);
      } else {
        HeldAfterRename(dir, k, cur, r.value, Transform(name, rule, env));
        DirectoriesKeptFrom(path, dir, k + 1, r.value, false, rule, env);
      }
    } else if IsDir(item) {
      WalkFromDir(path, dir, k, cur, noFilesFound, rule, env);
      var sub := WalkDir(path + [name], es[k].node, rule, env);
      var next := SetNode(cur, name, Dir(sub.entries));
      HeldAfterSet(dir, k, cur, next);
      if sub.result.Err? {
        HeldAtEnd(es, k + 1, next);
      } else {
        DirectoriesKeptFrom(path, dir, k + 1, next, sub.result.value, rule, env);
      }
    } else {
      WalkFromOther(path, dir, k, cur, noFilesFound, rule, env);
      HeldPastOther(dir, k, cur);
      DirectoriesKeptFrom(path, dir, k + 1, cur, noFilesFound, rule, env);
    }
  }

  /** When the walk stops at index k, the directories not yet reached are
      still where they were. */
  lemma HeldAtEnd(es: seq<Entry>, k: nat, cur: seq<Entry>)
    requires DirectoriesHeld(es, k, cur) && DirectoriesUntouched(es, k, cur)
    ensures DirectoriesHeld(es, |es|, cur)
  {
    forall j | 0 <= j < |es| && es[j].node.Dir?
      ensures IsDir(Lookup(cur, es[j].name))
    {
      if j >= k {
        assert Lookup(cur, es[j].name) == Some(es[j].node);
      }
    }
  }

  /** Renaming the k-th listed file keeps the directories listed before it. */
  lemma HeldAfterRename(dir: Node, k: nat, cur: seq<Entry>, next: seq<Entry>, newName: string)
    requires dir.Dir? && WellFormed(dir) && k < |dir.entries|
    requires DirectoriesHeld(dir.entries, k, cur) && DirectoriesUntouched(dir.entries, k, cur)
    requires IsFile(Lookup(cur, dir.entries[k].name))
    requires newName == dir.entries[k].name || !IsDir(Lookup(cur, newName))
    requires forall m :: m != dir.entries[k].name && m != newName ==> Lookup(next, m) == Lookup(cur, m)
    ensures DirectoriesHeld(dir.entries, k + 1, next)
  {
    var es := dir.entries;
    forall j | 0 <= j < k + 1 && es[j].node.Dir?
      ensures IsDir(Lookup(next, es[j].name))
    {
      assert es[j].name != es[k].name;
    }
  }

  /** Putting back the walked k-th listed directory keeps the directories
      listed before it, and that one. */
  lemma HeldAfterSet(dir: Node, k: nat, cur: seq<Entry>, next: seq<Entry>)
    requires dir.Dir? && WellFormed(dir) && k < |dir.entries|
    requires DirectoriesHeld(dir.entries, k, cur)
    requires IsDir(Lookup(next, dir.entries[k].name))
    requires forall m :: m != dir.entries[k].name ==> Lookup(next, m) == Lookup(cur, m)
    ensures DirectoriesHeld(dir.entries, k + 1, next)
  {
    var es := dir.entries;
    forall j | 0 <= j < k && es[j].node.Dir?
      ensures IsDir(Lookup(next, es[j].name))
    {
      assert es[j].name != es[k].name;
    }
  }

  /** Passing over an entry that no longer holds a file or a directory keeps
      the directories listed before it; a listed directory is never passed over. */
  lemma HeldPastOther(dir: Node, k: nat, cur: seq<Entry>)
    requires dir.Dir? && WellFormed(dir) && k < |dir.entries|
    requires DirectoriesHeld(dir.entries, k, cur) && DirectoriesUntouched(dir.entries, k, cur)
    requires !IsDir(Lookup(cur, dir.entries[k].name))
    ensures DirectoriesHeld(dir.entries, k + 1, cur)
  {
  }

  /** The walk of a directory succeeds only if the rule is valid and no
      directory in the tree is empty. */
  lemma SuccessOnlyIf(path: Path, dir: Node, rule: Rule, env: Env)
    requires dir.Dir? && WellFormed(dir)
    requires WalkDir(path, dir, rule, env).result.Ok?
    ensures Valid(rule, env) && NoEmptyDirs(dir)
  {
    if !Valid(rule, env) {
      InvalidRuleRenamesNothing(path, dir, rule, env);
    }
    SuccessReachesEveryDirectory(path, dir, rule, env);
  }

  lemma {:induction false} SuccessReachesEveryDirectory(path: Path, dir: Node, rule: Rule, env: Env)
    requires dir.Dir? && WellFormed(dir)
    requires WalkDir(path, dir, rule, env).result.Ok?
    ensures NoEmptyDirs(dir)
    decreases dir, 1
  {
    if !HasFileOrDir(dir.entries) {
      EmptyDirectoryRaises(path, dir, rule, env);
    }
    SuccessFrom(path, dir, 0, dir.entries, true, rule, env);
  }

  lemma {:induction false} SuccessFrom(path: Path, dir: Node, k: nat, cur: seq<Entry>, noFilesFound: bool, rule: Rule, env: Env)
    requires dir.Dir? && WellFormed(dir) && k <= |dir.entries|
    requires UniqueNames(cur) && DirectoriesUntouched(dir.entries, k, cur)
    requires WalkFrom(path, dir, k, cur, noFilesFound, rule, env).result.Ok?
    ensures forall j :: k <= j < |dir.entries| ==> NoEmptyDirs(dir.entries[j].node)
    decreases dir, 0, |dir.entries| - k, 1
  {
    if k < |dir.entries| {
      var item := Lookup(cur, dir.entries[k].name);
      if IsFile(item) {
        SuccessAfterFile(path, dir, k, cur, noFilesFound, rule, env);
      } else if IsDir(item) {
        SuccessAfterDir(path, dir, k, cur, noFilesFound, rule, env);
      } else {
        WalkFromOther(path, dir, k, cur, noFilesFound, rule, env);
        SuccessFrom(path, dir, k + 1, cur, noFilesFound, rule, env);
      }
    }
  }

  lemma {:induction false} SuccessAfterFile(path: Path, dir: Node, k: nat, cur: seq<Entry>, noFilesFound: bool, rule: Rule, env: Env)
    requires dir.Dir? && WellFormed(dir) && k < |dir.entries|
    requires UniqueNames(cur) && DirectoriesUntouched(dir.entries, k, cur)
    requires IsFile(Lookup(cur, dir.entries[k].name))
    requires WalkFrom(path, dir, k, cur, noFilesFound, rule, env).result.Ok?
    ensures forall j :: k <= j < |dir.entries| ==> NoEmptyDirs(dir.entries[j].node)
    decreases dir, 0, |dir.entries| - k, 0
  {
    WalkFromFile(path, dir, k, cur, noFilesFound, rule, env);
    var r := ModifyFilename(path, cur, dir.entries[k].name, rule, env);
    SuccessFrom(path, dir, k + 1, r.value, false, rule, env);
  }

  lemma {:induction false} SuccessAfterDir(path: Path, dir: Node, k: nat, cur: seq<Entry>, noFilesFound: bool, rule: Rule, env: Env)
    requires dir.Dir? && WellFormed(dir) && k < |dir.entries|
    requires UniqueNames(cur) && DirectoriesUntouched(dir.entries, k, cur)
    requires IsDir(Lookup(cur, dir.entries[k].name))
    requires WalkFrom(path, dir, k, cur, noFilesFound, rule, env).result.Ok?
    ensures forall j :: k <= j < |dir.entries| ==> NoEmptyDirs(dir.entries[j].node)
    decreases dir, 0, |dir.entries| - k, 0
  {
    var name := dir.entries[k].name;
    WalkFromDir(path, dir, k, cur, noFilesFound, rule, env);
    var sub := WalkDir(path + [name], dir.entries[k].node, rule, env);
    SuccessReachesEveryDirectory(path + [name], dir.entries[k].node, rule, env);
    SuccessFrom(path, dir, k + 1, SetNode(cur, name, Dir(sub.entries)), sub.result.value, rule, env);
  }

  /** Partial states keep names unique, and what is not yet walked is still in place. */
  lemma PartialUntouched(es: seq<Entry>, k: nat, rule: Rule, env: Env)
    requires UniqueNames(es) && CleanEntries(es, rule, env)
    ensures UniqueNames(Partial(es, k, rule, env))
    ensures forall j :: k <= j < |es| ==> Lookup(Partial(es, k, rule, env), es[j].name) == Some(es[j].node)
    ensures DirectoriesUntouched(es, k, Partial(es, k, rule, env))
  {
    var p := Partial(es, k, rule, env);
    forall i, j | 0 <= i < j < |p|
      ensures p[i].name != p[j].name
    {
    }
    forall j | k <= j < |es|
      ensures Lookup(p, es[j].name) == Some(es[j].node)
    {
      LookupAt(p, j);
    }
  }

  /** With a valid rule, no empty directory and no collisions, the walk
      succeeds (returning False) and leaves every file renamed in place. */
  lemma {:induction false} CleanWalkRenamesEveryFile(path: Path, dir: Node, rule: Rule, env: Env)
    requires dir.Dir? && WellFormed(dir) && Valid(rule, env)
    requires NoEmptyDirs(dir) && CleanTree(dir, rule, env)
    ensures WalkDir(path, dir, rule, env) == Walked(Renamed(dir, rule, env).entries, Ok(false))
    decreases dir
  {
    var es := dir.entries;
    forall i | 0 <= i < |es| && es[i].node.Dir?
      ensures WalkDir(path + [es[i].name], es[i].node, rule, env) == Walked(Renamed(es[i].node, rule, env).entries, Ok(false))
    {
      CleanWalkRenamesEveryFile(path + [es[i].name], es[i].node, rule, env);
    }
    assert Partial(es, 0, rule, env) == es;
    PartialUntouched(es, 0, rule, env);
    assert CleanState(path, dir, 0, true, rule, env);
    CleanWalkFrom(path, dir, 0, true, rule, env);
  }

  lemma {:induction false} CleanWalkFrom(path: Path, dir: Node, k: nat, noFilesFound: bool, rule: Rule, env: Env)
    requires CleanState(path, dir, k, noFilesFound, rule, env)
    ensures WalkFrom(path, dir, k, Partial(dir.entries, k, rule, env), noFilesFound, rule, env)
            == Walked(Renamed(dir, rule, env).entries, Ok(false))
    decreases |dir.entries| - k, 1
  {
    if k == |dir.entries| {
      CleanEnd(path, dir, noFilesFound, rule, env);
    } else {
      CleanWalkNext(path, dir, k, noFilesFound, rule, env);
    }
  }

  lemma {:induction false} CleanWalkNext(path: Path, dir: Node, k: nat, noFilesFound: bool, rule: Rule, env: Env)
    requires CleanState(path, dir, k, noFilesFound, rule, env) && k < |dir.entries|
    ensures WalkFrom(path, dir, k, Partial(dir.entries, k, rule, env), noFilesFound, rule, env)
            == Walked(Renamed(dir, rule, env).entries, Ok(false))
    decreases |dir.entries| - k, 0
  {
    CleanStep(path, dir, k, noFilesFound, rule, env);
    CleanWalkFrom(path, dir, k + 1, StillNoFiles(noFilesFound, dir.entries[k].node), rule, env);
  }

  /** Once every listed name is dealt with, the flag is down and the entries are the renamed ones. */
  lemma CleanEnd(path: Path, dir: Node, noFilesFound: bool, rule: Rule, env: Env)
    requires dir.Dir? && CleanState(path, dir, |dir.entries|, noFilesFound, rule, env)
    ensures WalkFrom(path, dir, |dir.entries|, Partial(dir.entries, |dir.entries|, rule, env), noFilesFound, rule, env)
            == Walked(Renamed(dir, rule, env).entries, Ok(false))
  {
    assert Partial(dir.entries, |dir.entries|, rule, env) == Renamed(dir, rule, env).entries;
  }

  /** One turn of the walk of a directory that renames cleanly: the k-th
      listed entry takes its renamed form in place. */
  lemma CleanStep(path: Path, dir: Node, k: nat, noFilesFound: bool, rule: Rule, env: Env)
    requires CleanState(path, dir, k, noFilesFound, rule, env) && k < |dir.entries|
    ensures CleanState(path, dir, k + 1, StillNoFiles(noFilesFound, dir.entries[k].node), rule, env)
    ensures WalkFrom(path, dir, k, Partial(dir.entries, k, rule, env), noFilesFound, rule, env)
            == WalkFrom(path, dir, k + 1, Partial(dir.entries, k + 1, rule, env), StillNoFiles(noFilesFound, dir.entries[k].node), rule, env)
  {
    var es := dir.entries;
    var cur := Partial(es, k, rule, env);
    var node := es[k].node;
    PartialUntouched(es, k + 1, rule, env);
    FlagAfterTurn(es, k, noFilesFound);
    LookupAt(cur, k);
    assert cur[k] == es[k];
    if node.File? {
      WalkFromFile(path, dir, k, cur, noFilesFound, rule, env);
      CleanFileStep(path, es, k, rule, env);
    } else if node.Dir? {
      WalkFromDir(path, dir, k, cur, noFilesFound, rule, env);
      CleanDirStep(es, k, rule, env);
    } else {
      WalkFromOther(path, dir, k, cur, noFilesFound, rule, env);
      SkippedStep(es, k, rule, env);
    }
  }

  /** The flag stays up past the k-th listed entry exactly when that entry is neither a file nor a directory. */
  lemma FlagAfterTurn(es: seq<Entry>, k: nat, noFilesFound: bool)
    requires k < |es| && noFilesFound == !HasFileOrDir(es[..k])
    ensures StillNoFiles(noFilesFound, es[k].node) == !HasFileOrDir(es[..k + 1])
  {
    assert es[..k + 1][k] == es[k];
    if HasFileOrDir(es[..k]) {
      var i :| 0 <= i < k && (es[..k][i].node.File? || es[..k][i].node.Dir?);
      assert es[..k + 1][i] == es[..k][i];
    }
    if HasFileOrDir(es[..k + 1]) {
      var i :| 0 <= i < k + 1 && (es[..k + 1][i].node.File? || es[..k + 1][i].node.Dir?);
      if i < k {
        assert es[..k][i] == es[..k + 1][i];
      }
    }
  }

  /** Renaming the k-th listed file moves it to its new name in place. */
  lemma CleanFileStep(path: Path, es: seq<Entry>, k: nat, rule: Rule, env: Env)
    requires UniqueNames(es) && CleanEntries(es, rule, env) && Valid(rule, env)
    requires k < |es| && es[k].node.File?
    requires UniqueNames(Partial(es, k, rule, env)) && Lookup(Partial(es, k, rule, env), es[k].name).Some?
    ensures ModifyFilename(path, Partial(es, k, rule, env), es[k].name, rule, env) == Ok(Partial(es, k + 1, rule, env))
  {
    var cur := Partial(es, k, rule, env);
    var name := es[k].name;
    if Transform(name, rule, env) == name {
      assert cur[k] == es[k];
      assert Partial(es, k + 1, rule, env) == cur;
    } else {
      CleanFileMoves(es, k, rule, env);
    }
  }

  /** A file whose new name differs moves onto a name no entry holds, and
      stays at its place in the listing. */
  lemma CleanFileMoves(es: seq<Entry>, k: nat, rule: Rule, env: Env)
    requires UniqueNames(es) && CleanEntries(es, rule, env)
    requires k < |es| && es[k].node.File? && Transform(es[k].name, rule, env) != es[k].name
    requires UniqueNames(Partial(es, k, rule, env)) && Lookup(Partial(es, k, rule, env), es[k].name).Some?
    ensures Lookup(Partial(es, k, rule, env), Transform(es[k].name, rule, env)).None?
    ensures Rename(Partial(es, k, rule, env), es[k].name, Transform(es[k].name, rule, env)) == Partial(es, k + 1, rule, env)
  {
    var cur := Partial(es, k, rule, env);
    var name := es[k].name;
    var newName := Transform(name, rule, env);
    assert cur[k] == es[k];
    assert Lookup(cur, newName).None? by {
      forall j | 0 <= j < |cur|
        ensures cur[j].name != newName
      {
        assert NewEntryName(es[k], rule, env) == newName;
      }
    }
    assert IndexOf(cur, name) == k;
    assert Partial(es, k + 1, rule, env) == cur[k := Entry(newName, es[k].node)];
  }

  /** Putting the k-th listed directory back after its walk puts back its renamed tree in place. */
  lemma CleanDirStep(es: seq<Entry>, k: nat, rule: Rule, env: Env)
    requires k < |es| && es[k].node.Dir?
    requires UniqueNames(Partial(es, k, rule, env))
    ensures SetNode(Partial(es, k, rule, env), es[k].name, Dir(Renamed(es[k].node, rule, env).entries))
            == Partial(es, k + 1, rule, env)
  {
    var cur := Partial(es, k, rule, env);
    assert cur[k] == es[k];
    assert IndexOf(cur, es[k].name) == k;
  }

  /** Passing over an entry that is neither a file nor a directory changes nothing. */
  lemma SkippedStep(es: seq<Entry>, k: nat, rule: Rule, env: Env)
    requires k < |es| && !es[k].node.File? && !es[k].node.Dir?
    ensures Partial(es, k + 1, rule, env) == Partial(es, k, rule, env)
  {
    assert RenamedEntry(es[k], rule, env) == es[k];
  }

  /** Renaming moves files and never drops or duplicates one. */
  lemma {:induction false} RenamedKeepsContents(n: Node, rule: Rule, env: Env)
    ensures Contents(Renamed(n, rule, env)) == Contents(n)
    decreases n, 1
  {
    if n.Dir? {
      RenamedEntriesKeepContents(n.entries, rule, env);
    }
  }

  lemma {:induction false} RenamedEntriesKeepContents(es: seq<Entry>, rule: Rule, env: Env)
    ensures ContentsOf(Renamed(Dir(es), rule, env).entries) == ContentsOf(es)
    decreases es, 0
  {
    if es != [] {
      var r := Renamed(Dir(es), rule, env).entries;
      assert r[1..] == Renamed(Dir(es[1..]), rule, env).entries;
      assert r[0] == RenamedEntry(es[0], rule, env);
      RenamedKeepsContents(es[0].node, rule, env);
      RenamedEntriesKeepContents(es[1..], rule, env);
    }
  }

  /** A walk without collisions keeps every file's contents, each exactly once. */
  lemma CleanWalkKeepsContents(path: Path, dir: Node, rule: Rule, env: Env)
    requires dir.Dir? && WellFormed(dir) && Valid(rule, env)
    requires NoEmptyDirs(dir) && CleanTree(dir, rule, env)
    ensures Contents(Dir(WalkDir(path, dir, rule, env).entries)) == Contents(dir)
  {
    CleanWalkRenamesEveryFile(path, dir, rule, env);
    RenamedKeepsContents(dir, rule, env);
  }

  /** With no rule arguments every name is its own new name, so the tree
      renames cleanly onto itself. */
  lemma {:induction false} NoRuleRenamesNothing(n: Node, env: Env)
    requires WellFormed(n)
    ensures Renamed(n, NoRule, env) == n && CleanTree(n, NoRule, env)
    decreases n
  {
    if n.Dir? {
      var es := n.entries;
      forall i | 0 <= i < |es|
        ensures RenamedEntry(es[i], NoRule, env) == es[i] && CleanTree(es[i].node, NoRule, env)
      {
        NoOpRule(es[i].name, NoRule, env);
        NoRuleRenamesNothing(es[i].node, env);
      }
      assert Renamed(n, NoRule, env).entries == es;
    }
  }

  /** With no rule arguments no name anywhere changes, whether the walk
      succeeds or stops at a directory without files. */
  lemma {:induction false} NoRuleKeepsEveryName(path: Path, dir: Node, env: Env)
    requires dir.Dir? && WellFormed(dir)
    ensures var w := WalkDir(path, dir, NoRule, env);
            w.entries == dir.entries && (w.result.Ok? || w.result.error.FileNotFoundError?)
    decreases dir, 1
  {
    SelfUntouched(dir.entries, 0);
    NoRuleFrom(path, dir, 0, true, env);
  }

  lemma {:induction false} NoRuleFrom(path: Path, dir: Node, k: nat, noFilesFound: bool, env: Env)
    requires dir.Dir? && WellFormed(dir) && k <= |dir.entries|
    requires DirectoriesUntouched(dir.entries, k, dir.entries)
    ensures var w := WalkFrom(path, dir, k, dir.entries, noFilesFound, NoRule, env);
            w.entries == dir.entries && (w.result.Ok? || w.result.error.FileNotFoundError?)
    decreases dir, 0, |dir.entries| - k
  {
    var es := dir.entries;
    if k < |es| {
      var name := es[k].name;
      var node := es[k].node;
      LookupAt(es, k);
      SelfUntouched(es, k + 1);
      if node.File? {
        NoOpRule(name, NoRule, env);
        assert ModifyFilename(path, es, name, NoRule, env) == Ok(es);
        WalkFromFile(path, dir, k, es, noFilesFound, NoRule, env);
        NoRuleFrom(path, dir, k + 1, false, env);
      } else if node.Dir? {
        NoRuleKeepsEveryName(path + [name], node, env);
        WalkFromDir(path, dir, k, es, noFilesFound, NoRule, env);
        var sub := WalkDir(path + [name], node, NoRule, env);
        assert SetNode(es, name, Dir(sub.entries)) == es;
        if sub.result.Ok? {
          NoRuleFrom(path, dir, k + 1, sub.result.value, env);
        }
      } else {
        WalkFromOther(path, dir, k, es, noFilesFound, NoRule, env);
        NoRuleFrom(path, dir, k + 1, noFilesFound, env);
      }
    }
  }

  /** modify_filenames with no rule arguments leaves a tree without empty
      directories as it is and returns False. */
  lemma NoRuleLeavesTreeUnchanged(path: Path, dir: Node, env: Env)
    requires dir.Dir? && WellFormed(dir) && NoEmptyDirs(dir)
    ensures WalkDir(path, dir, NoRule, env) == Walked(dir.entries, Ok(false))
  {
    NoOpRule("", NoRule, env);
    NoRuleRenamesNothing(dir, env);
    CleanWalkRenamesEveryFile(path, dir, NoRule, env);
  }

  /** After modify_filenames on a directory, the path names the walked
      directory and every path beside it names what it named before. */
  lemma WalkChangesOnlyBelowPath(fs: Node, path: Path, rule: Rule, env: Env)
    requires fs.Dir? && WellFormed(fs) && IsDir(Resolve(fs, path))
    ensures var after := Graft(fs, path, Dir(WalkDir(path, Resolve(fs, path).value, rule, env).entries));
            && Resolve(after, path) == Some(Dir(WalkDir(path, Resolve(fs, path).value, rule, env).entries))
            && forall other :: !IsPrefix(path, other) && !IsPrefix(other, path) ==> Resolve(after, other) == Resolve(fs, other)
  {
    var node := Dir(WalkDir(path, Resolve(fs, path).value, rule, env).entries);
    ResolveGrafted(fs, path, node);
    forall other | !IsPrefix(path, other) && !IsPrefix(other, path)
      ensures Resolve(Graft(fs, path, node), other) == Resolve(fs, other)
    {
      ResolveElsewhere(fs, path, node, other);
    }
  }
}
