/** The part of the file system the renamer sees: a tree of named entries,
    looked up by name, and pathlib's Path.replace on a directory's entries. */
module FileTree {
  import opened Failures

  /** What a path names: a regular file (its content stands for its identity),
      a directory, whose entries are in the order the directory listing yields
      them, or something that is neither (a socket, a dangling link). */
  datatype Node = File(content: nat) | Dir(entries: seq<Entry>) | Special

  datatype Entry = Entry(name: string, node: Node)

  predicate IsDir(n: Option<Node>) {
    n.Some? && n.value.Dir?
  }

  predicate IsFile(n: Option<Node>) {
    n.Some? && n.value.File?
  }

  /** Index of the first entry called `name`, or -1. */
  function IndexOf(es: seq<Entry>, name: string): (i: int)
    ensures -1 <= i < |es|
    ensures i >= 0 ==> es[i].name == name
    ensures forall j :: 0 <= j < |es| && (i < 0 || j < i) ==> es[j].name != name
  {
    if es == [] then -1
    else if es[0].name == name then 0
    else
      var k := IndexOf(es[1..], name);
      if k < 0 then -1 else k + 1
  }

  /** What the entry called `name` holds, if there is one. */
  function Lookup(es: seq<Entry>, name: string): (r: Option<Node>)
    ensures r.None? <==> forall j :: 0 <= j < |es| ==> es[j].name != name
    ensures r.Some? ==> exists j :: 0 <= j < |es| && es[j].name == name && es[j].node == r.value
  {
    var i := IndexOf(es, name);
    if i < 0 then None else Some(es[i].node)
  }

  /** No two entries of a directory have the same name. */
  predicate UniqueNames(es: seq<Entry>) {
    forall i, j :: 0 <= i < j < |es| ==> es[i].name != es[j].name
  }

  /** Every directory in the tree has unique names. */
  predicate WellFormed(n: Node) {
    n.Dir? ==>
      && UniqueNames(n.entries)
      && forall i :: 0 <= i < |n.entries| ==> WellFormed(n.entries[i].node)
  }

  /** With unique names, the entry at index i is what its name looks up. */
  lemma LookupAt(es: seq<Entry>, i: int)
    requires UniqueNames(es) && 0 <= i < |es|
    ensures Lookup(es, es[i].name) == Some(es[i].node)
  {
    var k := IndexOf(es, es[i].name);
    assert k == i;
  }

  /** The entries with the node of the entry called `name` replaced. */
  function SetNode(es: seq<Entry>, name: string, node: Node): (r: seq<Entry>)
    ensures |r| == |es| && forall j :: 0 <= j < |es| ==> r[j].name == es[j].name
    ensures Lookup(es, name).Some? ==> Lookup(r, name) == Some(node)
    ensures forall m :: m != name ==> Lookup(r, m) == Lookup(es, m)
    ensures Lookup(es, name) == Some(node) ==> r == es
  {
    var i := IndexOf(es, name);
    if i < 0 then es else es[i := Entry(name, node)]
  }

  /** The entries without the one at index j. */
  function Delete(es: seq<Entry>, j: int): (r: seq<Entry>)
    requires UniqueNames(es) && 0 <= j < |es|
    ensures UniqueNames(r)
    ensures Lookup(r, es[j].name).None?
    ensures forall m :: m != es[j].name ==> Lookup(r, m) == Lookup(es, m)
  {
    var r := es[..j] + es[j + 1..];
    assert forall k :: 0 <= k < |r| ==> r[k] == es[if k < j then k else k + 1];
    forall m | m != es[j].name
      ensures Lookup(r, m) == Lookup(es, m)
    {
      if Lookup(es, m).Some? {
        var k := IndexOf(es, m);
        LookupAt(es, k);
        LookupAt(r, if k < j then k else k - 1);
      }
    }
    r
  }

  /** The entries with the one called `src` called `dst`, a name no entry has. */
  function Relabel(es: seq<Entry>, src: string, dst: string): (r: seq<Entry>)
    requires UniqueNames(es) && Lookup(es, src).Some? && Lookup(es, dst).None?
    ensures UniqueNames(r)
    ensures Lookup(r, dst) == Lookup(es, src)
    ensures Lookup(r, src).None?
    ensures forall m :: m != src && m != dst ==> Lookup(r, m) == Lookup(es, m)
    ensures r == es[IndexOf(es, src) := Entry(dst, Lookup(es, src).value)]
  {
    var i := IndexOf(es, src);
    var r := es[i := Entry(dst, es[i].node)];
    forall m | m != src && m != dst
      ensures Lookup(r, m) == Lookup(es, m)
    {
      if Lookup(es, m).Some? {
        var k := IndexOf(es, m);
        LookupAt(es, k);
        LookupAt(r, k);
      }
    }
    LookupAt(r, i);
    r
  }

  /** The entries with the one called `src` renamed to `dst`, and any other
      entry called `dst` gone. */
  function Rename(es: seq<Entry>, src: string, dst: string): (r: seq<Entry>)
    requires src != dst && UniqueNames(es) && Lookup(es, src).Some?
    ensures UniqueNames(r)
    ensures Lookup(r, dst) == Lookup(es, src)
    ensures Lookup(r, src).None?
    ensures forall m :: m != src && m != dst ==> Lookup(r, m) == Lookup(es, m)
    ensures Lookup(es, dst).None? ==> r == es[IndexOf(es, src) := Entry(dst, Lookup(es, src).value)]
  {
    var j := IndexOf(es, dst);
    var rest := if j < 0 then es else Delete(es, j);
    Relabel(rest, src, dst)
  }

  /** Path.replace(src -> dst) inside the directory at `dir`: nothing happens
      when the names are equal, a directory in the way raises IsADirectoryError,
      and otherwise the entry moves to `dst`, overwriting what was there. */
  function Replace(dir: Path, es: seq<Entry>, src: string, dst: string): (r: Result<seq<Entry>>)
    requires UniqueNames(es) && Lookup(es, src).Some?
    ensures r.Err? <==> src != dst && IsDir(Lookup(es, dst))
    ensures r.Err? ==> r.error == IsADirectoryError(dir + [dst])
    ensures r.Ok? ==> UniqueNames(r.value) && Lookup(r.value, dst) == Lookup(es, src)
    ensures r.Ok? && src != dst ==> Lookup(r.value, src).None?
    ensures r.Ok? ==> forall m :: m != src && m != dst ==> Lookup(r.value, m) == Lookup(es, m)
  {
    if src == dst then Ok(es)
    else if IsDir(Lookup(es, dst)) then Err(IsADirectoryError(dir + [dst]))
    else Ok(Rename(es, src, dst))
  }

  /** The node `path` names, from the root `root`. */
  function Resolve(root: Node, path: Path): (r: Option<Node>)
    ensures WellFormed(root) && r.Some? ==> WellFormed(r.value)
    decreases |path|
  {
    if path == [] then Some(root)
    else if !root.Dir? then None
    else
      match Lookup(root.entries, path[0])
      case None => None
      case Some(child) => Resolve(child, path[1..])
  }

  /** `root` with the node at `path` replaced by `node`. */
  function Graft(root: Node, path: Path, node: Node): Node
    decreases |path|
  {
    if path == [] then node
    else if !root.Dir? then root
    else
      match Lookup(root.entries, path[0])
      case None => root
      case Some(child) => Dir(SetNode(root.entries, path[0], Graft(child, path[1..], node)))
  }

  /** A path that names something below a directory root goes through the
      directory that holds it. */
  lemma {:induction false} ResolveParent(root: Node, path: Path)
    requires root.Dir? && Resolve(root, path).Some? && path != []
    ensures IsDir(Resolve(root, path[..|path| - 1]))
    ensures Lookup(Resolve(root, path[..|path| - 1]).value.entries, path[|path| - 1]) == Resolve(root, path)
  {
    var child := Lookup(root.entries, path[0]).value;
    if |path| > 1 {
      assert path[1..][..|path[1..]| - 1] == path[..|path| - 1][1..];
      ResolveParent(child, path[1..]);
    }
  }

  /** Grafting back what a path names changes nothing. */
  lemma {:induction false} GraftResolved(root: Node, path: Path)
    requires Resolve(root, path).Some?
    ensures Graft(root, path, Resolve(root, path).value) == root
  {
    if path != [] {
      var child := Lookup(root.entries, path[0]).value;
      GraftResolved(child, path[1..]);
    }
  }

  /** After a graft, the path names the grafted node. */
  lemma {:induction false} ResolveGrafted(root: Node, path: Path, node: Node)
    requires Resolve(root, path).Some?
    ensures Resolve(Graft(root, path, node), path) == Some(node)
  {
    if path != [] {
      var child := Lookup(root.entries, path[0]).value;
      ResolveGrafted(child, path[1..], node);
    }
  }

  /** `a` is a prefix of `b`. */
  predicate IsPrefix(a: Path, b: Path) {
    |a| <= |b| && b[..|a|] == a
  }

  /** A graft changes nothing a path beside the grafted one names: one that
      neither leads to it nor goes through it. */
  lemma {:induction false} ResolveElsewhere(root: Node, path: Path, node: Node, other: Path)
    requires Resolve(root, path).Some?
    requires !IsPrefix(path, other) && !IsPrefix(other, path)
    ensures Resolve(Graft(root, path, node), other) == Resolve(root, other)
  {
    var child := Lookup(root.entries, path[0]).value;
    if path[0] == other[0] {
      assert !IsPrefix(path[1..], other[1..]) && !IsPrefix(other[1..], path[1..]);
      ResolveElsewhere(child, path[1..], node, other[1..]);
    }
  }
}
