/** modify_filename applied to one file of a directory, and modify_filenames:
    the walk over a directory tree that renames every file it reaches. */
module Walker {
  import opened Failures
  import opened RenameRule
  import opened FileTree

  /** modify_filename on the entry called `name` of the directory at `dir`:
      the rule is checked, the new name computed and the entry replaced onto it. */
  function ModifyFilename(dir: Path, es: seq<Entry>, name: string, rule: Rule, env: Env): (r: Result<seq<Entry>>)
    requires UniqueNames(es) && Lookup(es, name).Some?
    ensures r.Err? <==> !Valid(rule, env) || (Transform(name, rule, env) != name && IsDir(Lookup(es, Transform(name, rule, env))))
    ensures r.Err? && !Valid(rule, env) ==> Validate(rule, env) == Some(r.error)
    ensures r.Err? && Valid(rule, env) ==> r.error == IsADirectoryError(dir + [Transform(name, rule, env)])
    ensures r.Ok? ==> UniqueNames(r.value) && Lookup(r.value, Transform(name, rule, env)) == Lookup(es, name)
    ensures r.Ok? && Transform(name, rule, env) != name ==> Lookup(r.value, name).None?
    ensures r.Ok? ==> forall m :: m != name && m != Transform(name, rule, env) ==> Lookup(r.value, m) == Lookup(es, m)
  {
    match NewName(name, rule, env)
    case Err(e) => Err(e)
    case Ok(newName) => Replace(dir, es, name, newName)
  }

  /** The listing was taken from `orig`; every entry from index k on that was
      a directory, and every such name that holds a directory now, still holds
      the directory it held then. */
  predicate DirectoriesUntouched(orig: seq<Entry>, k: nat, cur: seq<Entry>) {
    forall j :: k <= j < |orig| && (orig[j].node.Dir? || IsDir(Lookup(cur, orig[j].name))) ==>
      Lookup(cur, orig[j].name) == Some(orig[j].node)
  }

  /** The outcome of walking one directory: its entries afterwards, and either
      the value returned or the exception raised. */
  datatype Walked = Walked(entries: seq<Entry>, result: Result<bool>)

  /** modify_filenames on the directory `dir` at `path`, once the root checks have passed. */
  function WalkDir(path: Path, dir: Node, rule: Rule, env: Env): (w: Walked)
    requires dir.Dir? && WellFormed(dir)
    ensures UniqueNames(w.entries)
    ensures w.result.Ok? ==> w.result.value == false
    decreases dir, 1
  {
    WalkFrom(path, dir, 0, dir.entries, true, rule, env)
  }

  /** The loop of modify_filenames from the k-th listed name on, with the
      directory's entries now `cur` and the flag no_files_found. */
  function WalkFrom(path: Path, dir: Node, k: nat, cur: seq<Entry>, noFilesFound: bool, rule: Rule, env: Env): (w: Walked)
    requires dir.Dir? && WellFormed(dir) && k <= |dir.entries|
    requires UniqueNames(cur) && DirectoriesUntouched(dir.entries, k, cur)
    ensures UniqueNames(w.entries)
    ensures w.result.Ok? ==> w.result.value == false
    decreases dir, 0, |dir.entries| - k
  {
    if k == |dir.entries| then
      if noFilesFound then Walked(cur, Err(FileNotFoundError(path))) else Walked(cur, Ok(noFilesFound))
    else
      var name := dir.entries[k].name;
      match Lookup(cur, name)
      case Some(File(_)) =>
        (match ModifyFilename(path, cur, name, rule, env)
         case Err(e) => Walked(cur, Err(e))
         case Ok(next) =>
           UntouchedAfterRename(dir, k, cur, next, Transform(name, rule, env));
           WalkFrom(path, dir, k + 1, next, false, rule, env))
      case Some(Dir(_)) =>
        var child := dir.entries[k].node;
        assert Lookup(cur, name) == Some(child);
        var sub := WalkDir(path + [name], child, rule, env);
        var next := SetNode(cur, name, Dir(sub.entries));
        if sub.result.Err? then Walked(next, sub.result)
        else
          UntouchedAfterSet(dir, k, cur, next);
          WalkFrom(path, dir, k + 1, next, sub.result.value, rule, env)
      case _ => WalkFrom(path, dir, k + 1, cur, noFilesFound, rule, env)
  }

  /** Moving the k-th listed file to a name that does not hold a directory
      leaves the directories listed after it alone. */
  lemma UntouchedAfterRename(dir: Node, k: nat, cur: seq<Entry>, next: seq<Entry>, newName: string)
    requires dir.Dir? && WellFormed(dir) && k < |dir.entries|
    requires DirectoriesUntouched(dir.entries, k, cur)
    requires IsFile(Lookup(cur, dir.entries[k].name))
    requires newName == dir.entries[k].name || !IsDir(Lookup(cur, newName))
    requires Lookup(next, newName) == Lookup(cur, dir.entries[k].name)
    requires forall m :: m != dir.entries[k].name && m != newName ==> Lookup(next, m) == Lookup(cur, m)
    ensures DirectoriesUntouched(dir.entries, k + 1, next)
  {
    var es := dir.entries;
    forall j | k + 1 <= j < |es| && (es[j].node.Dir? || IsDir(Lookup(next, es[j].name)))
      ensures Lookup(next, es[j].name) == Some(es[j].node)
    {
      assert es[j].name != es[k].name;
    }
  }

  /** Replacing the k-th listed directory leaves the directories listed after it alone. */
  lemma UntouchedAfterSet(dir: Node, k: nat, cur: seq<Entry>, next: seq<Entry>)
    requires dir.Dir? && WellFormed(dir) && k < |dir.entries|
    requires DirectoriesUntouched(dir.entries, k, cur)
    requires forall m :: m != dir.entries[k].name ==> Lookup(next, m) == Lookup(cur, m)
    ensures DirectoriesUntouched(dir.entries, k + 1, next)
  {
    var es := dir.entries;
    forall j | k + 1 <= j < |es| && (es[j].node.Dir? || IsDir(Lookup(next, es[j].name)))
      ensures Lookup(next, es[j].name) == Some(es[j].node)
    {
      assert es[j].name != es[k].name;
    }
  }

  /** One turn of the loop on a name that holds a file. */
  lemma WalkFromFile(path: Path, dir: Node, k: nat, cur: seq<Entry>, noFilesFound: bool, rule: Rule, env: Env)
    requires dir.Dir? && WellFormed(dir) && k < |dir.entries|
    requires UniqueNames(cur) && DirectoriesUntouched(dir.entries, k, cur)
    requires IsFile(Lookup(cur, dir.entries[k].name))
    ensures var r := ModifyFilename(path, cur, dir.entries[k].name, rule, env);
            r.Ok? ==> DirectoriesUntouched(dir.entries, k + 1, r.value)
    ensures var r := ModifyFilename(path, cur, dir.entries[k].name, rule, env);
            WalkFrom(path, dir, k, cur, noFilesFound, rule, env) ==
              if r.Err? then Walked(cur, Err(r.error)) else WalkFrom(path, dir, k + 1, r.value, false, rule, env)
  {
    var name := dir.entries[k].name;
    var r := ModifyFilename(path, cur, name, rule, env);
    if r.Ok? {
      UntouchedAfterRename(dir, k, cur, r.value, Transform(name, rule, env));
    }
  }

  /** One turn of the loop on a name that holds a directory. */
  lemma WalkFromDir(path: Path, dir: Node, k: nat, cur: seq<Entry>, noFilesFound: bool, rule: Rule, env: Env)
    requires dir.Dir? && WellFormed(dir) && k < |dir.entries|
    requires UniqueNames(cur) && DirectoriesUntouched(dir.entries, k, cur)
    requires IsDir(Lookup(cur, dir.entries[k].name))
    ensures Lookup(cur, dir.entries[k].name) == Some(dir.entries[k].node)
    ensures var name := dir.entries[k].name;
            var sub := WalkDir(path + [name], dir.entries[k].node, rule, env);
            DirectoriesUntouched(dir.entries, k + 1, SetNode(cur, name, Dir(sub.entries)))
    ensures var name := dir.entries[k].name;
            var sub := WalkDir(path + [name], dir.entries[k].node, rule, env);
            var next := SetNode(cur, name, Dir(sub.entries));
            WalkFrom(path, dir, k, cur, noFilesFound, rule, env) ==
              if sub.result.Err? then Walked(next, sub.result) else WalkFrom(path, dir, k + 1, next, sub.result.value, rule, env)
  {
    var name := dir.entries[k].name;
    var sub := WalkDir(path + [name], dir.entries[k].node, rule, env);
    UntouchedAfterSet(dir, k, cur, SetNode(cur, name, Dir(sub.entries)));
  }

  /** One turn of the loop on a name that holds neither a file nor a directory. */
  lemma WalkFromOther(path: Path, dir: Node, k: nat, cur: seq<Entry>, noFilesFound: bool, rule: Rule, env: Env)
    requires dir.Dir? && WellFormed(dir) && k < |dir.entries|
    requires UniqueNames(cur) && DirectoriesUntouched(dir.entries, k, cur)
    requires !IsFile(Lookup(cur, dir.entries[k].name)) && !IsDir(Lookup(cur, dir.entries[k].name))
    ensures DirectoriesUntouched(dir.entries, k + 1, cur)
    ensures WalkFrom(path, dir, k, cur, noFilesFound, rule, env) == WalkFrom(path, dir, k + 1, cur, noFilesFound, rule, env)
  {
  }

  /** The loop of modify_filenames over a directory: each listed name is
      looked up as it is reached; a file is renamed, a directory walked, and
      anything else skipped; no_files_found is cleared by a file and set to
      what a walked subdirectory returned. */
  method ModifyDirectory(path: Path, dir: Node, rule: Rule, env: Env) returns (entries: seq<Entry>, result: Result<bool>)
    requires dir.Dir? && WellFormed(dir)
    ensures Walked(entries, result) == WalkDir(path, dir, rule, env)
    decreases dir, 1
  {
    entries := dir.entries;
    var noFilesFound := true;
    var k := 0;
    while k < |dir.entries|
      invariant 0 <= k <= |dir.entries|
      invariant UniqueNames(entries) && DirectoriesUntouched(dir.entries, k, entries)
      invariant WalkFrom(path, dir, k, entries, noFilesFound, rule, env) == WalkDir(path, dir, rule, env)
    {
      var stop;
      entries, noFilesFound, stop, result := VisitEntry(path, dir, k, entries, noFilesFound, rule, env);
      if stop {
        return;
      }
      k := k + 1;
    }
    if noFilesFound {
      result := Err(FileNotFoundError(path));
    } else {
      result := Ok(noFilesFound);
    }
  }

  /** One turn of that loop, on the k-th listed name: `stop` is set when the
      turn raised, with the exception in `result`. */
  method VisitEntry(path: Path, dir: Node, k: nat, entries: seq<Entry>, noFilesFound: bool, rule: Rule, env: Env)
    returns (entries': seq<Entry>, noFilesFound': bool, stop: bool, result: Result<bool>)
    requires dir.Dir? && WellFormed(dir) && k < |dir.entries|
    requires UniqueNames(entries) && DirectoriesUntouched(dir.entries, k, entries)
    ensures stop ==> Walked(entries', result) == WalkFrom(path, dir, k, entries, noFilesFound, rule, env)
    ensures !stop ==> UniqueNames(entries') && DirectoriesUntouched(dir.entries, k + 1, entries')
    ensures !stop ==> WalkFrom(path, dir, k + 1, entries', noFilesFound', rule, env) ==
                      WalkFrom(path, dir, k, entries, noFilesFound, rule, env)
    decreases dir, 0
  {
    var name := dir.entries[k].name;
    var item := Lookup(entries, name);
    if IsFile(item) {
      var renamed := ModifyFilename(path, entries, name, rule, env);
      WalkFromFile(path, dir, k, entries, noFilesFound, rule, env);
      if renamed.Err? {
        entries', noFilesFound', stop, result := entries, false, true, Err(renamed.error);
      } else {
        entries', noFilesFound', stop, result := renamed.value, false, false, Ok(false);
      }
    } else if IsDir(item) {
      WalkFromDir(path, dir, k, entries, noFilesFound, rule, env);
      var subEntries, subResult := ModifyDirectory(path + [name], dir.entries[k].node, rule, env);
      entries' := SetNode(entries, name, Dir(subEntries));
      if subResult.Err? {
        noFilesFound', stop, result := noFilesFound, true, subResult;
      } else {
        noFilesFound', stop, result := subResult.value, false, subResult;
      }
    } else {
      WalkFromOther(path, dir, k, entries, noFilesFound, rule, env);
      entries', noFilesFound', stop, result := entries, noFilesFound, false, Ok(noFilesFound);
    }
  }

  /** modify_filenames(path, ...) on the file system whose root directory is
      `fs`: a path naming neither a file nor a directory raises
      NotADirectoryError; a file is passed to modify_filename with no rule
      arguments, which renames it onto itself, and the listing of it that
      follows raises NotADirectoryError; a directory is walked. */
  method ModifyFilenames(fs: Node, path: Path, rule: Rule, env: Env) returns (fs': Node, result: Result<bool>)
    requires fs.Dir? && WellFormed(fs)
    ensures !IsDir(Resolve(fs, path)) ==> fs' == fs && result == Err(NotADirectoryError(path))
    ensures IsDir(Resolve(fs, path)) ==>
              var w := WalkDir(path, Resolve(fs, path).value, rule, env);
              fs' == Graft(fs, path, Dir(w.entries)) && result == w.result
  {
    var target := Resolve(fs, path);
    if IsFile(target) {
      ResolveParent(fs, path);
      var parentPath := path[..|path| - 1];
      var parent := Resolve(fs, parentPath).value;
      var name := path[|path| - 1];
      NoOpRule(name, NoRule, env);
      var renamed := ModifyFilename(parentPath, parent.entries, name, NoRule, env);
      assert renamed == Ok(parent.entries);
      GraftResolved(fs, parentPath);
      fs' := Graft(fs, parentPath, Dir(renamed.value));
      result := Err(NotADirectoryError(path));
    } else if !IsDir(target) {
      fs', result := fs, Err(NotADirectoryError(path));
    } else {
      var entries, walked := ModifyDirectory(path, target.value, rule, env);
      fs', result := Graft(fs, path, Dir(entries)), walked;
    }
  }
}
