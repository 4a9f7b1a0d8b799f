/** What a comparison of trees means: applying its three lists to the local tree
    yields the remote one, exactly when every skipped pair of subtrees really was
    equal. */
module MerklePatch {
  import opened Common
  import opened Sorting
  import opened MerkleTree
  import opened MerkleBuilt
  import opened MerkleDiff

  // --- Trees as file systems --------------------------------------------------------------

  /** What is at a path; `view` picks what counts about a file. */
  datatype Entry<T> = Dir | File(view: T)

  ghost function EntryAt<T>(view: Node -> T, n: Option<Node>, path: string): Option<Entry<T>> {
    if n.None? then None else
      match FindNode(n.value, path)
      case None => None
      case Some(m) => Some(if m.isFile then File(view(m)) else Dir)
  }

  ghost predicate SameFiles<T>(view: Node -> T, l: Node, r: Node) {
    forall path :: EntryAt(view, Some(l), path) == EntryAt(view, Some(r), path)
  }

  /** Whether a path is another path or lies below it. */
  predicate Inside(dir: string, path: string) {
    dir == "" || path == dir || dir + "/" <= path
  }

  ghost predicate Grafted(report: Report, path: string) {
    exists item :: item in report && !item.Deleted? && Inside(item.path, path)
  }

  ghost predicate Removed(report: Report, path: string) {
    exists item :: item in report && item.Deleted? && Inside(item.path, path)
  }

  /** What is at a path after replacing the added and modified subtrees of the
      local tree by the remote ones and dropping the deleted subtrees, given what
      the two trees have there. */
  ghost function Patched<T>(report: Report, path: string, local: Option<Entry<T>>,
                            remote: Option<Entry<T>>): Option<Entry<T>>
  {
    if Grafted(report, path) then remote
    else if Removed(report, path) then None
    else local
  }

  // --- Paths ----------------------------------------------------------------------------------

  lemma InsideTransitive(a: string, b: string, c: string)
    requires Inside(a, b) && Inside(b, c) && (a == "" || b != "")
    ensures Inside(a, c)
  {
    if a != "" && a != b && b != c {
      assert a + "/" <= b <= b + "/" <= c;
    }
  }

  lemma ChildInside(parent: string, child: string)
    requires ChildOf(parent, child)
    ensures Inside(parent, child) && child != parent
  {}

  lemma SiblingsApart(parent: string, a: string, b: string, path: string)
    requires ChildOf(parent, a) && ChildOf(parent, b) && Inside(a, path) && Inside(b, path)
    ensures a == b && path != parent && path != ""
  {
    if path != a { BelowChild(parent, a, path); }
    if path != b { BelowChild(parent, b, path); }
  }

  // --- Finding in a well-formed tree ---------------------------------------------------------------

  /** Everything in a well-formed subtree lies inside its path. */
  lemma {:induction false} FoundInside(n: Node, path: string)
    requires WellFormed(n) && FindNode(n, path).Some?
    ensures Inside(n.path, path) && (n.path != "" ==> path != "")
    decreases n
  {
    if n.path != path { FoundAmong(n.path, n.children, path); }
  }

  lemma {:induction false} FoundAmong(parent: string, cs: seq<Node>, path: string)
    requires forall i :: 0 <= i < |cs| ==> ChildOf(parent, cs[i].path) && WellFormed(cs[i])
    requires FindAmong(cs, path).Some?
    ensures Inside(parent, path) && path != ""
    decreases cs
  {
    var k := |cs| - 1;
    if FindAmong(cs[..k], path).Some? {
      FoundAmong(parent, cs[..k], path);
    } else {
      FoundInside(cs[k], path);
      InsideTransitive(parent, cs[k].path, path);
    }
  }

  /** A path inside a child is looked up in that child. */
  lemma FindInChild(n: Node, c: Node, path: string)
    requires WellFormed(n) && c in n.children && Inside(c.path, path)
    ensures FindNode(n, path) == FindNode(c, path)
  {
    var i :| 0 <= i < |n.children| && n.children[i] == c;
    SiblingsApart(n.path, c.path, c.path, path);
    FindAt(n.path, n.children, i, path);
  }

  lemma NotInSibling(parent: string, child: string, sibling: Node, path: string)
    requires ChildOf(parent, child) && Inside(child, path)
    requires ChildOf(parent, sibling.path) && WellFormed(sibling) && sibling.path != child
    ensures FindNode(sibling, path) == None
  {
    if FindNode(sibling, path).Some? {
      FoundInside(sibling, path);
      SiblingsApart(parent, child, sibling.path, path);
    }
  }

  lemma {:induction false} FindAt(parent: string, cs: seq<Node>, i: nat, path: string)
    requires Siblings(parent, cs) && i < |cs| && Inside(cs[i].path, path)
    ensures FindAmong(cs, path) == FindNode(cs[i], path)
  {
    var k := |cs| - 1;
    FrontSiblings(parent, cs);
    if i < k {
      FindAt(parent, cs[..k], i, path);
      NotInSibling(parent, cs[i].path, cs[k], path);
    } else {
      FindNowhere(parent, cs[..k], path, cs[k].path);
    }
  }

  ghost predicate Siblings(parent: string, cs: seq<Node>) {
    DistinctKeys(NodePath, cs) && forall j :: 0 <= j < |cs| ==> ChildOf(parent, cs[j].path) && WellFormed(cs[j])
  }

  lemma FrontSiblings(parent: string, cs: seq<Node>)
    requires Siblings(parent, cs) && cs != []
    ensures Siblings(parent, cs[..|cs| - 1])
    ensures forall j :: 0 <= j < |cs| - 1 ==> cs[j].path != cs[|cs| - 1].path
  {
    KeysBefore(NodePath, cs, |cs| - 1);
    forall j | 0 <= j < |cs| - 1 ensures cs[j].path != cs[|cs| - 1].path { KeyApart(NodePath, cs, j, |cs| - 1); }
  }

  lemma {:induction false} FindNowhere(parent: string, cs: seq<Node>, path: string, other: string)
    requires forall j :: 0 <= j < |cs| ==> ChildOf(parent, cs[j].path) && WellFormed(cs[j]) && cs[j].path != other
    requires ChildOf(parent, other) && Inside(other, path)
    ensures FindAmong(cs, path) == None
  {
    if cs != [] {
      var k := |cs| - 1;
      FindNowhere(parent, cs[..k], path, other);
      if FindNode(cs[k], path).Some? {
        FoundInside(cs[k], path);
        SiblingsApart(parent, other, cs[k].path, path);
      }
    }
  }

  /** A path below no child is only found when it is the node's own. */
  lemma FindOutside(n: Node, path: string)
    requires WellFormed(n) && path != n.path
    requires forall c :: c in n.children ==> !Inside(c.path, path)
    ensures FindNode(n, path) == None
  {
    FindOutsideAll(n.children, path);
  }

  lemma {:induction false} FindOutsideAll(cs: seq<Node>, path: string)
    requires forall j :: 0 <= j < |cs| ==> WellFormed(cs[j]) && !Inside(cs[j].path, path)
    ensures FindAmong(cs, path) == None
  {
    if cs != [] {
      var k := |cs| - 1;
      FindOutsideAll(cs[..k], path);
      if FindNode(cs[k], path).Some? { FoundInside(cs[k], path); }
    }
  }

  // --- Where reported items come from -----------------------------------------------------------------

  lemma {:induction false} SumMembers(cs: seq<Node>, parts: seq<Report>, keys: set<string>, item: Item)
    requires |cs| == |parts| && DistinctKeys(NodePath, cs)
    ensures item in SumOver(cs, parts, keys) <==> exists i :: 0 <= i < |cs| && cs[i].path in keys && item in parts[i]
  {
    if cs != [] {
      var k := |cs| - 1;
      KeysBefore(NodePath, cs, k);
      SumMembers(cs[..k], parts[..k], keys - {cs[k].path}, item);
      forall i | 0 <= i < k
        ensures cs[..k][i] == cs[i] && parts[..k][i] == parts[i] && NodePath(cs[i]) != NodePath(cs[k])
      {
        KeyApart(NodePath, cs, i, k);
      }
    }
  }

  lemma TaggedMembers(tag: string -> Item, paths: seq<string>, item: Item)
    ensures item in Tagged(tag, paths) <==> exists i :: 0 <= i < |paths| && tag(paths[i]) == item
  {
    assert item in Map(tag, paths) <==> item in multiset(Map(tag, paths));
    if item in Map(tag, paths) {
      var i :| 0 <= i < |Map(tag, paths)| && Map(tag, paths)[i] == item;
      assert tag(paths[i]) == item;
    }
    if i :| 0 <= i < |paths| && tag(paths[i]) == item {
      assert Map(tag, paths)[i] == item;
    }
  }

  lemma ListedItems(n: Node, item: Item)
    ensures item in Tagged(ADDED, Paths(n)) <==> item.Added? && FindNode(n, item.path).Some?
    ensures item in Tagged(DELETED, Paths(n)) <==> item.Deleted? && FindNode(n, item.path).Some?
  {
    ListedIffFound(n, item.path);
    TaggedMembers(ADDED, Paths(n), item);
    TaggedMembers(DELETED, Paths(n), item);
    if item.path in Paths(n) {
      var i :| 0 <= i < |Paths(n)| && Paths(n)[i] == item.path;
      assert ADDED(Paths(n)[i]) == Added(item.path) && DELETED(Paths(n)[i]) == Deleted(item.path);
    }
  }

  /** What a pair of directories reports about the child with a given path. */
  ghost function PartAt(l: Node, r: Node, path: string): Report {
    match (LastChild(l.children, path), LastChild(r.children, path))
    case (Some(k), Some(m)) => DiffReport(k, m)
    case (None, Some(m)) => Tagged(ADDED, Paths(m))
    case (Some(k), None) => Tagged(DELETED, Paths(k))
    case (None, None) => multiset{}
  }

  lemma {:induction false} LastChildHere(cs: seq<Node>, i: nat)
    requires DistinctKeys(NodePath, cs) && i < |cs|
    ensures LastChild(cs, cs[i].path) == Some(cs[i])
  {
    var k := |cs| - 1;
    if i < k {
      KeyApart(NodePath, cs, i, k);
      KeysBefore(NodePath, cs, k);
      LastChildHere(cs[..k], i);
    }
  }

  ghost predicate BothDirs(l: Node, r: Node) {
    WellFormed(l) && WellFormed(r) && l.path == r.path && !l.isFile && !r.isFile && l.hash != r.hash
  }

  lemma RemotePartAt(l: Node, r: Node, i: nat)
    requires DistinctKeys(NodePath, r.children) && i < |r.children|
    ensures PartAt(l, r, r.children[i].path) == RemotePart(l, r.children[i])
  {
    LastChildHere(r.children, i);
  }

  lemma PartIsReported(l: Node, r: Node, path: string, item: Item)
    requires BothDirs(l, r) && item in PartAt(l, r, path)
    ensures item in RemoteSum(l, r, PathSet(r.children)) || item in LocalSum(l, r, PathSet(l.children))
  {
    if LastChild(r.children, path).Some? {
      RemotePartIsReported(l, r, path, item);
    } else {
      var j :| 0 <= j < |l.children| && l.children[j] == LastChild(l.children, path).value;
      SumMembers(l.children, LocalParts(l.children, r), PathSet(l.children), item);
      assert item in LocalParts(l.children, r)[j];
    }
  }

  lemma RemotePartIsReported(l: Node, r: Node, path: string, item: Item)
    requires DistinctKeys(NodePath, r.children) && item in PartAt(l, r, path) && LastChild(r.children, path).Some?
    ensures item in RemoteSum(l, r, PathSet(r.children))
  {
    var j :| 0 <= j < |r.children| && r.children[j] == LastChild(r.children, path).value;
    RemotePartAt(l, r, j);
    SumMembers(r.children, RemoteParts(l, r, |r.children|), PathSet(r.children), item);
    assert item in RemoteParts(l, r, |r.children|)[j];
  }

  lemma RemoteItem(l: Node, r: Node, item: Item)
    requires DistinctKeys(NodePath, r.children) && item in RemoteSum(l, r, PathSet(r.children))
    ensures exists path :: item in PartAt(l, r, path)
  {
    var parts := RemoteParts(l, r, |r.children|);
    SumMembers(r.children, parts, PathSet(r.children), item);
    var i :| 0 <= i < |r.children| && item in parts[i];
    RemotePartAt(l, r, i);
    assert item in PartAt(l, r, r.children[i].path);
  }

  lemma LocalItem(l: Node, r: Node, item: Item)
    requires BothDirs(l, r) && item in LocalSum(l, r, PathSet(l.children))
    ensures exists path :: item in PartAt(l, r, path)
  {
    var parts := LocalParts(l.children, r);
    SumMembers(l.children, parts, PathSet(l.children), item);
    var i :| 0 <= i < |l.children| && l.children[i].path in PathSet(l.children) && item in parts[i];
    LastChildHere(l.children, i);
    assert item in PartAt(l, r, l.children[i].path);
  }

  /** A pair of directories reports what its children report. */
  lemma ItemsByChild(l: Node, r: Node, item: Item)
    requires BothDirs(l, r)
    ensures item in DiffReport(l, r) <==> exists path :: item in PartAt(l, r, path)
  {
    var remote, local := RemoteSum(l, r, PathSet(r.children)), LocalSum(l, r, PathSet(l.children));
    assert item in DiffReport(l, r) <==> item in remote || item in local;
    if item in remote { RemoteItem(l, r, item); }
    if item in local { LocalItem(l, r, item); }
    if path :| item in PartAt(l, r, path) { PartIsReported(l, r, path, item); }
  }

  lemma ChildFacts(l: Node, r: Node, path: string)
    requires BothDirs(l, r) && (LastChild(l.children, path).Some? || LastChild(r.children, path).Some?)
    ensures ChildOf(l.path, path)
    ensures LastChild(l.children, path).Some? ==> WellFormed(LastChild(l.children, path).value)
    ensures LastChild(r.children, path).Some? ==> WellFormed(LastChild(r.children, path).value)
  {
    if LastChild(l.children, path).Some? {
      var i :| 0 <= i < |l.children| && l.children[i] == LastChild(l.children, path).value;
    }
    if LastChild(r.children, path).Some? {
      var i :| 0 <= i < |r.children| && r.children[i] == LastChild(r.children, path).value;
    }
  }

  /** Nothing outside the compared node is reported. */
  lemma {:induction false} ReportsInside(l: Node, r: Node, item: Item)
    requires WellFormed(l) && WellFormed(r) && l.path == r.path && item in DiffReport(l, r)
    ensures Inside(l.path, item.path) && (l.path != "" ==> item.path != "")
    decreases r
  {
    if BothDirs(l, r) {
      ItemsByChild(l, r, item);
      var path :| item in PartAt(l, r, path);
      PartInside(l, r, path, item);
      ChildFacts(l, r, path);
      ChildInside(l.path, path);
      InsideTransitive(l.path, path, item.path);
    }
  }

  lemma {:induction false} PartInside(l: Node, r: Node, path: string, item: Item)
    requires BothDirs(l, r) && item in PartAt(l, r, path)
    ensures Inside(path, item.path) && ChildOf(l.path, path) && item.path != ""
    decreases r, 0
  {
    ChildFacts(l, r, path);
    match (LastChild(l.children, path), LastChild(r.children, path))
    case (Some(k), Some(m)) =>
      ReportsInside(k, m, item);
    case (None, Some(m)) =>
      ListedItems(m, item);
      FoundInside(m, item.path);
    case (Some(k), None) =>
      ListedItems(k, item);
      FoundInside(k, item.path);
  }

  /** Inside a child, the report is the child's report. */
  lemma Localize(l: Node, r: Node, child: string, path: string)
    requires BothDirs(l, r) && ChildOf(l.path, child) && Inside(child, path)
    ensures Grafted(DiffReport(l, r), path) == Grafted(PartAt(l, r, child), path)
    ensures Removed(DiffReport(l, r), path) == Removed(PartAt(l, r, child), path)
  {
    forall item: Item | Inside(item.path, path)
      ensures item in DiffReport(l, r) <==> item in PartAt(l, r, child)
    {
      ItemsByChild(l, r, item);
      if item in DiffReport(l, r) {
        var c :| item in PartAt(l, r, c);
        PartInside(l, r, c, item);
        InsideTransitive(c, item.path, path);
        SiblingsApart(l.path, c, child, path);
      }
    }
  }

  // --- Main results -------------------------------------------------------------------------------

  /** Every pair of subtrees skipped because of equal hashes holds the same files. */
  ghost predicate SkipsSame<T>(view: Node -> T, l: Node, r: Node)
    decreases r
  {
    if l.hash == r.hash then SameFiles(view, l, r)
    else if l.isFile || r.isFile then true
    else
      forall i, j :: 0 <= i < |l.children| && 0 <= j < |r.children| && l.children[i].path == r.children[j].path
        ==> SkipsSame(view, l.children[i], r.children[j])
  }

  ghost predicate PatchYields<T>(view: Node -> T, l: Node, r: Node, path: string) {
    Patched(DiffReport(l, r), path, EntryAt(view, Some(l), path), EntryAt(view, Some(r), path))
      == EntryAt(view, Some(r), path)
  }

  lemma CommonChild(l: Node, r: Node, k: Node, m: Node, path: string)
    requires BothDirs(l, r) && k in l.children && m in r.children && k.path == m.path && Inside(k.path, path)
    ensures Grafted(DiffReport(l, r), path) == Grafted(DiffReport(k, m), path)
    ensures Removed(DiffReport(l, r), path) == Removed(DiffReport(k, m), path)
  {
    var i :| 0 <= i < |l.children| && l.children[i] == k;
    var j :| 0 <= j < |r.children| && r.children[j] == m;
    LastChildHere(l.children, i);
    LastChildHere(r.children, j);
    assert PartAt(l, r, k.path) == DiffReport(k, m);
    Localize(l, r, k.path, path);
  }

  /** Below a child directory the patch is the child's patch. */
  lemma PatchBelow<T>(view: Node -> T, l: Node, r: Node, k: Node, m: Node, path: string)
    requires BothDirs(l, r) && k in l.children && m in r.children && k.path == m.path && Inside(k.path, path)
    ensures PatchYields(view, l, r, path) <==> PatchYields(view, k, m, path)
  {
    CommonChild(l, r, k, m, path);
    FindInChild(l, k, path);
    FindInChild(r, m, path);
    PatchedAlike(DiffReport(l, r), DiffReport(k, m), path, EntryAt(view, Some(l), path), EntryAt(view, Some(r), path));
  }

  lemma PatchedAlike<T>(report: Report, part: Report, path: string, local: Option<Entry<T>>, remote: Option<Entry<T>>)
    requires Grafted(report, path) == Grafted(part, path) && Removed(report, path) == Removed(part, path)
    ensures Patched(report, path, local, remote) == Patched(part, path, local, remote)
  {}

  lemma Unreported<T>(report: Report, path: string, local: Option<Entry<T>>, remote: Option<Entry<T>>)
    requires forall item :: item in report ==> !Inside(item.path, path)
    ensures Patched(report, path, local, remote) == local
  {}

  /** A child on one side only is grafted or removed as a whole. */
  lemma PatchOneSided<T>(view: Node -> T, l: Node, r: Node, child: string, path: string)
    requires BothDirs(l, r) && Inside(child, path)
    requires LastChild(l.children, child).Some? != LastChild(r.children, child).Some?
    ensures PatchYields(view, l, r, path)
  {
    ChildFacts(l, r, child);
    Localize(l, r, child, path);
    if LastChild(r.children, child).Some? {
      var m := LastChild(r.children, child).value;
      ListedItems(m, Added(child));
      assert Added(child) in PartAt(l, r, child);
    } else {
      var k := LastChild(l.children, child).value;
      ListedItems(k, Deleted(child));
      assert Deleted(child) in PartAt(l, r, child);
      forall item | item in PartAt(l, r, child) ensures item.Deleted? { ListedItems(k, item); }
      NotFoundHere(r, child, path);
    }
  }

  lemma NotFoundHere(n: Node, child: string, path: string)
    requires WellFormed(n) && ChildOf(n.path, child) && Inside(child, path) && LastChild(n.children, child).None?
    ensures FindNode(n, path) == None
  {
    SiblingsApart(n.path, child, child, path);
    FindNowhere(n.path, n.children, path, child);
  }

  /** Outside all children nothing is reported, and both sides agree. */
  lemma PatchElsewhere<T>(view: Node -> T, l: Node, r: Node, path: string)
    requires BothDirs(l, r)
    requires forall c :: c in l.children || c in r.children ==> !Inside(c.path, path)
    ensures PatchYields(view, l, r, path)
  {
    if path != l.path {
      FindOutside(l, path);
      FindOutside(r, path);
    }
    forall item | item in DiffReport(l, r) ensures !Inside(item.path, path) { ItemElsewhere(l, r, item, path); }
    Unreported(DiffReport(l, r), path, EntryAt(view, Some(l), path), EntryAt(view, Some(r), path));
  }

  lemma ItemElsewhere(l: Node, r: Node, item: Item, path: string)
    requires BothDirs(l, r) && item in DiffReport(l, r)
    requires forall c :: c in l.children || c in r.children ==> !Inside(c.path, path)
    ensures !Inside(item.path, path)
  {
    ItemsByChild(l, r, item);
    var child :| item in PartAt(l, r, child);
    PartInside(l, r, child, item);
    if Inside(item.path, path) { InsideTransitive(child, item.path, path); }
    assert LastChild(l.children, child).Some? || LastChild(r.children, child).Some?;
  }

  /** Main result: the patch yields the remote tree when the skipped subtrees agree. */
  lemma {:induction false} PatchIsExact<T>(view: Node -> T, l: Node, r: Node, path: string)
    requires WellFormed(l) && WellFormed(r) && l.path == r.path && SkipsSame(view, l, r)
    ensures PatchYields(view, l, r, path)
    decreases r
  {
    if l.hash == r.hash {
      assert EntryAt(view, Some(l), path) == EntryAt(view, Some(r), path);
    } else if l.isFile || r.isFile {
      PatchFile(view, l, r, path);
    } else if c :| (c in l.children || c in r.children) && Inside(c.path, path) {
      var k, m := LastChild(l.children, c.path), LastChild(r.children, c.path);
      if k.Some? && m.Some? {
        var i :| 0 <= i < |l.children| && l.children[i] == k.value;
        var j :| 0 <= j < |r.children| && r.children[j] == m.value;
        assert SkipsSame(view, l.children[i], r.children[j]);
        PatchIsExact(view, k.value, m.value, path);
        PatchBelow(view, l, r, k.value, m.value, path);
      } else {
        PatchOneSided(view, l, r, c.path, path);
      }
    } else {
      PatchElsewhere(view, l, r, path);
    }
  }

  lemma PatchFile<T>(view: Node -> T, l: Node, r: Node, path: string)
    requires WellFormed(l) && WellFormed(r) && l.path == r.path && l.hash != r.hash && (l.isFile || r.isFile)
    ensures PatchYields(view, l, r, path)
  {
    if FindNode(l, path).Some? { FoundInside(l, path); }
    if FindNode(r, path).Some? { FoundInside(r, path); }
    var item := if l.isFile && r.isFile then Modified(l.path) else Added(r.path);
    assert item in DiffReport(l, r);
  }

  /** The condition is exact: a patch that yields the remote tree everywhere skips
      only subtrees that agree. */
  lemma {:induction false} PatchNeedsSame<T>(view: Node -> T, l: Node, r: Node)
    requires WellFormed(l) && WellFormed(r) && l.path == r.path
    requires forall path :: PatchYields(view, l, r, path)
    ensures SkipsSame(view, l, r)
    decreases r
  {
    if l.hash == r.hash {
      forall path ensures EntryAt(view, Some(l), path) == EntryAt(view, Some(r), path) {
        assert PatchYields(view, l, r, path);
      }
    } else if !l.isFile && !r.isFile {
      forall i, j | 0 <= i < |l.children| && 0 <= j < |r.children| && l.children[i].path == r.children[j].path
        ensures SkipsSame(view, l.children[i], r.children[j])
      {
        forall path ensures PatchYields(view, l.children[i], r.children[j], path) {
          PatchYieldsBelow(view, l, r, l.children[i], r.children[j], path);
        }
        PatchNeedsSame(view, l.children[i], r.children[j]);
      }
    }
  }

  lemma PatchYieldsBelow<T>(view: Node -> T, l: Node, r: Node, k: Node, m: Node, path: string)
    requires BothDirs(l, r) && k in l.children && m in r.children && k.path == m.path
    requires PatchYields(view, l, r, path)
    ensures PatchYields(view, k, m, path)
  {
    if Inside(k.path, path) {
      PatchBelow(view, l, r, k, m, path);
    } else {
      if FindNode(k, path).Some? { FoundInside(k, path); }
      if FindNode(m, path).Some? { FoundInside(m, path); }
    }
  }

  /** Equal hashes at a shared path mean equal subtrees. */
  ghost predicate Faithful<T>(view: Node -> T, l: Node, r: Node) {
    forall path :: FindNode(l, path).Some? && FindNode(r, path).Some?
      && FindNode(l, path).value.hash == FindNode(r, path).value.hash
      ==> SameFiles(view, FindNode(l, path).value, FindNode(r, path).value)
  }

  lemma {:induction false} FaithfulSkips<T>(view: Node -> T, l: Node, r: Node)
    requires WellFormed(l) && WellFormed(r) && l.path == r.path && Faithful(view, l, r)
    ensures SkipsSame(view, l, r)
    decreases r
  {
    assert FindNode(l, l.path) == Some(l) && FindNode(r, r.path) == Some(r);
    if l.hash != r.hash && !l.isFile && !r.isFile {
      forall i, j | 0 <= i < |l.children| && 0 <= j < |r.children| && l.children[i].path == r.children[j].path
        ensures SkipsSame(view, l.children[i], r.children[j])
      {
        var k, m := l.children[i], r.children[j];
        forall path | FindNode(k, path).Some? && FindNode(m, path).Some?
          ensures FindNode(l, path) == FindNode(k, path) && FindNode(r, path) == FindNode(m, path)
        {
          FoundInside(k, path);
          FindInChild(l, k, path);
          FindInChild(r, m, path);
        }
        FaithfulSkips(view, k, m);
      }
    }
  }

  /** The comparison of two optional trees, patched, is the remote tree. */
  lemma DiffYieldsRemote<T>(view: Node -> T, l: Option<Node>, r: Option<Node>, path: string)
    requires l.Some? ==> WellFormed(l.value)
    requires r.Some? ==> WellFormed(r.value)
    requires l.Some? && r.Some? ==> l.value.path == r.value.path && Faithful(view, l.value, r.value)
    ensures Patched(FullReport(l, r), path, EntryAt(view, l, path), EntryAt(view, r, path)) == EntryAt(view, r, path)
  {
    if l.Some? && r.Some? {
      FaithfulSkips(view, l.value, r.value);
      PatchIsExact(view, l.value, r.value, path);
    } else if r.Some? {
      ListedItems(r.value, Added(r.value.path));
      if FindNode(r.value, path).Some? { FoundInside(r.value, path); }
    } else if l.Some? {
      ListedItems(l.value, Deleted(l.value.path));
      if FindNode(l.value, path).Some? { FoundInside(l.value, path); }
      forall item | item in FullReport(l, r) ensures item.Deleted? { ListedItems(l.value, item); }
    }
  }

  // --- Reports are genuine ------------------------------------------------------------------------

  /** An added path is in the remote tree and new or of another kind; a deleted one
      the reverse; a modified one is a file on both sides with another hash. */
  ghost predicate Genuine(l: Node, r: Node, item: Item) {
    var here, there := FindNode(l, item.path), FindNode(r, item.path);
    match item
    case Added(_) => there.Some? && (here.None? || here.value.isFile != there.value.isFile)
    case Deleted(_) => here.Some? && (there.None? || here.value.isFile != there.value.isFile)
    case Modified(_) =>
      && here.Some? && there.Some? && here.value.isFile && there.value.isFile
      && here.value.hash != there.value.hash
  }

  lemma {:induction false} ReportsGenuine(l: Node, r: Node, item: Item)
    requires WellFormed(l) && WellFormed(r) && l.path == r.path && item in DiffReport(l, r)
    ensures Genuine(l, r, item)
    decreases r
  {
    if BothDirs(l, r) {
      ItemsByChild(l, r, item);
      var path :| item in PartAt(l, r, path);
      PartInside(l, r, path, item);
      ChildFacts(l, r, path);
      match (LastChild(l.children, path), LastChild(r.children, path))
      case (Some(k), Some(m)) =>
        ReportsGenuine(k, m, item);
        FindInChild(l, k, item.path);
        FindInChild(r, m, item.path);
      case (None, Some(m)) =>
        ListedItems(m, item);
        FindInChild(r, m, item.path);
        NotFoundHere(l, path, item.path);
      case (Some(k), None) =>
        ListedItems(k, item);
        FindInChild(l, k, item.path);
        NotFoundHere(r, path, item.path);
    }
  }

  // --- Names are not hashed -------------------------------------------------------------------------

  /** Renaming a file never changes a directory hash, so the comparison of two
      one-file trees reports nothing although no path is shared. */
  lemma RenameUnseen(sha: Digest, f: FileInfo, name: string)
    requires f.isFile && f.path != "" && name != "" && '/' !in f.path && '/' !in name && f.path != name
    ensures AllRelative([f]) && AllRelative([f.(path := name)])
    ensures var l, r := TreeOf(sha, [f]), TreeOf(sha, [f.(path := name)]);
      l.hash == r.hash && DiffReport(l, r) == multiset{} && FindNode(l, name) == None && FindNode(r, name).Some?
  {
    var g := f.(path := name);
    SingleFile(sha, f);
    SingleFile(sha, g);
    OnlyFile(sha, f, name);
    OnlyFile(sha, g, name);
  }

  lemma OnlyFile(sha: Digest, f: FileInfo, name: string)
    requires f.isFile && name != ""
    ensures FindNode(Directory(sha, "", [LeafOf(sha, f)]), name).Some? <==> f.path == name
  {
    var leaf := LeafOf(sha, f);
    assert [leaf][..0] == [];
    assert FindAmong([leaf], name) == FindNode(leaf, name);
    assert FindAmong(leaf.children, name) == None;
  }

  lemma SingleFile(sha: Digest, f: FileInfo)
    requires f.isFile && f.path != "" && '/' !in f.path
    ensures AllRelative([f]) && TreeOf(sha, [f]) == Directory(sha, "", [LeafOf(sha, f)])
    ensures ConcatHashes([LeafOf(sha, f)]) == f.hash
  {
    FirstSeparator(f.path);
    SortOne(ByKey(FilePath), f);
    SingleDirect(DirOf, sha, "", f);
    assert [LeafOf(sha, f)][..0] == [];
    assert ConcatHashes([LeafOf(sha, f)]) == ConcatHashes([]) + f.hash;
  }

  lemma SortOne<T>(le: (T, T) -> bool, x: T)
    ensures Sort(le, [x]) == [x]
  {
    assert [x][..0] == [];
  }

  /** A directory that holds one direct entry. */
  lemma SingleDirect(dirOf: Grouping, sha: Digest, prefix: string, f: FileInfo)
    requires dirOf(prefix, f.path) == None
    ensures Tree(dirOf, sha, prefix, [f]) == Directory(sha, prefix, [LeafOf(sha, f)])
  {
    assert [f][..0] == [];
    assert IsDirect(dirOf, prefix)(f);
    FilterAll(IsDirect(dirOf, prefix), [f]);
    assert Names(dirOf, prefix, [f]) == Names(dirOf, prefix, []) == [];
    assert Sort(StringLe, SubdirNames(dirOf, prefix, [f])) == [];
    assert Leaves(sha, [f]) + [] == [LeafOf(sha, f)];
    SortOne(ByKey(NodePath), LeafOf(sha, f));
  }
}
