/** The shapes of directory trees and walk states that the properties of
    modify_filenames are stated over. */
module WalkStates {
  import opened Failures
  import opened RenameRule
  import opened FileTree
  import opened Walker

  /** A directory some of whose entries is a file or a directory. */
  predicate HasFileOrDir(es: seq<Entry>) {
    exists i :: 0 <= i < |es| && (es[i].node.File? || es[i].node.Dir?)
  }

  /** No directory in the tree, the root included, is without a file and a subdirectory. */
  predicate NoEmptyDirs(n: Node) {
    n.Dir? ==>
      && HasFileOrDir(n.entries)
      && forall i :: 0 <= i < |n.entries| ==> NoEmptyDirs(n.entries[i].node)
  }

  /** The name an entry ends up with: a file is renamed by the rule, anything else keeps its name. */
  function NewEntryName(e: Entry, rule: Rule, env: Env): string {
    if e.node.File? then Transform(e.name, rule, env) else e.name
  }

  /** The tree with every file renamed by the rule, in place, and nothing else changed. */
  function Renamed(n: Node, rule: Rule, env: Env): (r: Node)
    ensures r.Dir? <==> n.Dir?
    ensures n.Dir? ==> |r.entries| == |n.entries|
    decreases n
  {
    match n
    case Dir(es) => Dir(seq(|es|, i requires 0 <= i < |es| => RenamedEntry(es[i], rule, env)))
    case _ => n
  }

  function RenamedEntry(e: Entry, rule: Rule, env: Env): (r: Entry)
    ensures r.name == NewEntryName(e, rule, env)
    decreases e
  {
    if e.node.File? then Entry(Transform(e.name, rule, env), e.node) else Entry(e.name, Renamed(e.node, rule, env))
  }

  /** No new name in a directory meets another entry's new or old name. */
  predicate CleanEntries(es: seq<Entry>, rule: Rule, env: Env) {
    forall i, j :: 0 <= i < |es| && 0 <= j < |es| && i != j ==>
      NewEntryName(es[j], rule, env) != NewEntryName(es[i], rule, env) &&
      NewEntryName(es[j], rule, env) != es[i].name
  }

  /** Every directory of the tree renames without collisions. */
  predicate CleanTree(n: Node, rule: Rule, env: Env) {
    n.Dir? ==>
      && CleanEntries(n.entries, rule, env)
      && forall i :: 0 <= i < |n.entries| ==> CleanTree(n.entries[i].node, rule, env)
  }

  /** The entries once the first k listed names have been dealt with. */
  function Partial(es: seq<Entry>, k: nat, rule: Rule, env: Env): (r: seq<Entry>)
    ensures |r| == |es|
  {
    seq(|es|, i requires 0 <= i < |es| => if i < k then RenamedEntry(es[i], rule, env) else es[i])
  }

  /** Every subdirectory listed in `dir` walks cleanly to its renamed form. */
  predicate SubdirectoriesWalkClean(path: Path, dir: Node, rule: Rule, env: Env)
    requires dir.Dir? && WellFormed(dir)
  {
    forall i :: 0 <= i < |dir.entries| && dir.entries[i].node.Dir? ==>
      WalkDir(path + [dir.entries[i].name], dir.entries[i].node, rule, env)
      == Walked(Renamed(dir.entries[i].node, rule, env).entries, Ok(false))
  }

  /** no_files_found after a turn of the loop over `node`, when nothing raised. */
  function StillNoFiles(noFilesFound: bool, node: Node): bool {
    noFilesFound && !node.File? && !node.Dir?
  }

  /** The state of a clean walk of `dir` after its first k listed names:
      those are renamed in place, the rest untouched, and the flag is up
      exactly when none of them was a file or a directory. */
  predicate CleanState(path: Path, dir: Node, k: nat, noFilesFound: bool, rule: Rule, env: Env) {
    && dir.Dir? && WellFormed(dir) && k <= |dir.entries| && Valid(rule, env)
    && HasFileOrDir(dir.entries) && CleanEntries(dir.entries, rule, env)
    && SubdirectoriesWalkClean(path, dir, rule, env)
    && noFilesFound == !HasFileOrDir(dir.entries[..k])
    && UniqueNames(Partial(dir.entries, k, rule, env))
    && DirectoriesUntouched(dir.entries, k, Partial(dir.entries, k, rule, env))
  }

  /** The contents of every file in the tree, counted with multiplicity. */
  function Contents(n: Node): multiset<nat>
    decreases n
  {
    match n
    case File(c) => multiset{c}
    case Dir(es) => ContentsOf(es)
    case Special => multiset{}
  }

  function ContentsOf(es: seq<Entry>): multiset<nat>
    decreases es
  {
    if es == [] then multiset{} else Contents(es[0].node) + ContentsOf(es[1..])
  }
}
