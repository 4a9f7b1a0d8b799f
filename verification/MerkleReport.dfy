/** Exactly what a comparison reports. */
module MerkleReport {
  // An item is reported exactly when the two trees differ there in its way and no
  // directory above, or the place itself, was skipped or replaced; each item once.

  import opened Common
  import opened Sorting
  import opened MerkleTree
  import opened MerkleBuilt
  import opened MerkleDiff
  import opened MerklePatch

  /** What is at q hides the path: both trees have it with equal hashes, or above the
      path it is a file in one and a directory in the other. */
  ghost predicate Hides(l: Node, r: Node, q: string, path: string) {
    && Inside(q, path) && FindNode(l, q).Some? && FindNode(r, q).Some?
    && (FindNode(l, q).value.hash == FindNode(r, q).value.hash
        || (q != path && FindNode(l, q).value.isFile != FindNode(r, q).value.isFile))
  }

  ghost predicate Hidden(l: Node, r: Node, path: string) {
    exists q :: Hides(l, r, q, path)
  }

  ghost predicate Comparable(l: Node, r: Node) {
    WellFormed(l) && WellFormed(r) && l.path == r.path
  }

  // --- Where a node is found -----------------------------------------------------------------

  lemma {:induction false} AmongHolding(cs: seq<Node>, path: string) returns (c: Node)
    requires FindAmong(cs, path).Some?
    ensures c in cs && FindNode(c, path) == FindAmong(cs, path)
    decreases cs
  {
    var k := |cs| - 1;
    if FindAmong(cs[..k], path).Some? { c := AmongHolding(cs[..k], path); } else { c := cs[k]; }
  }

  lemma ChildHolding(n: Node, path: string) returns (c: Node)
    requires WellFormed(n) && FindNode(n, path).Some? && path != n.path
    ensures c in n.children && WellFormed(c) && ChildOf(n.path, c.path)
    ensures FindNode(c, path) == FindNode(n, path) && Inside(c.path, path) && path != ""
  {
    c := AmongHolding(n.children, path);
    var i :| 0 <= i < |n.children| && n.children[i] == c;
    FoundInside(c, path);
  }

  /** Above a path inside a child there is only the node itself and that child. */
  lemma AboveInChild(n: Node, child: string, q: string, path: string)
    requires WellFormed(n) && ChildOf(n.path, child) && Inside(child, path)
    requires Inside(q, path) && FindNode(n, q).Some? && q != n.path
    ensures Inside(child, q) && exists c :: c in n.children && c.path == child
  {
    var c := ChildHolding(n, q);
    InsideTransitive(c.path, q, path);
    SiblingsApart(n.path, c.path, child, path);
  }

  lemma FileHasItself(n: Node, q: string)
    requires WellFormed(n) && n.isFile && FindNode(n, q).Some?
    ensures q == n.path
  {}

  // --- Pairs that are not two directories -----------------------------------------------------------

  lemma SkippedIff(l: Node, r: Node, item: Item)
    requires Comparable(l, r) && l.hash == r.hash && Genuine(l, r, item)
    ensures Hidden(l, r, item.path)
  {
    GenuineInside(l, r, item);
    assert Hides(l, r, l.path, item.path);
  }

  lemma GenuineInside(l: Node, r: Node, item: Item)
    requires Comparable(l, r) && Genuine(l, r, item)
    ensures Inside(l.path, item.path)
  {
    if FindNode(l, item.path).Some? { FoundInside(l, item.path); } else { FoundInside(r, item.path); }
  }

  lemma FilesIff(l: Node, r: Node, item: Item)
    requires Comparable(l, r) && l.hash != r.hash && l.isFile && r.isFile
    ensures item in DiffReport(l, r) <==> Genuine(l, r, item) && !Hidden(l, r, item.path)
  {
    if Genuine(l, r, item) {
      assert item.path == l.path;
    }
    if item == Modified(l.path) {
      forall q ensures !Hides(l, r, q, l.path) { if FindNode(l, q).Some? { FileHasItself(l, q); } }
    }
  }

  lemma KindsIff(l: Node, r: Node, item: Item)
    requires Comparable(l, r) && l.hash != r.hash && l.isFile != r.isFile
    ensures item in DiffReport(l, r) <==> Genuine(l, r, item) && !Hidden(l, r, item.path)
  {
    assert item in DiffReport(l, r) <==> item == Deleted(l.path) || item == Added(r.path);
    if item.path == l.path {
      forall q ensures !Hides(l, r, q, l.path) {
        if FindNode(l, q).Some? && FindNode(r, q).Some? {
          if l.isFile { FileHasItself(l, q); } else { FileHasItself(r, q); }
        }
      }
    } else if Genuine(l, r, item) {
      GenuineInside(l, r, item);
      assert Hides(l, r, l.path, item.path);
    }
  }

  // --- Two directories ---------------------------------------------------------------------------------

  /** Inside a common child, being genuine and being hidden are the child's matter. */
  lemma CommonChildIff(l: Node, r: Node, k: Node, m: Node, item: Item)
    requires BothDirs(l, r) && k in l.children && m in r.children && k.path == m.path && Inside(k.path, item.path)
    requires WellFormed(k) && WellFormed(m) && ChildOf(l.path, k.path)
    ensures Genuine(l, r, item) <==> Genuine(k, m, item)
    ensures Hidden(l, r, item.path) <==> Hidden(k, m, item.path)
  {
    var path := item.path;
    FindInChild(l, k, path);
    FindInChild(r, m, path);
    if q :| Hides(l, r, q, path) {
      AboveInChild(l, k.path, q, path);
      FindInChild(l, k, q);
      FindInChild(r, m, q);
      assert Hides(k, m, q, path);
    }
    if q :| Hides(k, m, q, path) {
      FoundInside(k, q);
      FindInChild(l, k, q);
      FindInChild(r, m, q);
      assert Hides(l, r, q, path);
    }
  }

  /** Inside a child of one side only, nothing is hidden. */
  lemma OneSidedNotHidden(l: Node, r: Node, child: string, path: string)
    requires BothDirs(l, r) && ChildOf(l.path, child) && Inside(child, path)
    requires LastChild(l.children, child).None? || LastChild(r.children, child).None?
    ensures !Hidden(l, r, path)
  {
    forall q ensures !Hides(l, r, q, path) {
      if Hides(l, r, q, path) && q != l.path {
        AboveInChild(l, child, q, path);
        AboveInChild(r, child, q, path);
      }
    }
  }

  lemma OneSidedIff(l: Node, r: Node, child: string, item: Item)
    requires BothDirs(l, r) && ChildOf(l.path, child) && Inside(child, item.path)
    requires LastChild(l.children, child).Some? != LastChild(r.children, child).Some?
    ensures item in PartAt(l, r, child) <==> Genuine(l, r, item)
  {
    ChildFacts(l, r, child);
    if LastChild(r.children, child).Some? {
      var m := LastChild(r.children, child).value;
      ListedItems(m, item);
      FindInChild(r, m, item.path);
      NotFoundHere(l, child, item.path);
    } else {
      var k := LastChild(l.children, child).value;
      ListedItems(k, item);
      FindInChild(l, k, item.path);
      NotFoundHere(r, child, item.path);
    }
  }

  /** The child a difference lies in. */
  lemma ChildOfItem(l: Node, r: Node, item: Item) returns (child: string)
    requires BothDirs(l, r) && Genuine(l, r, item)
    ensures ChildOf(l.path, child) && Inside(child, item.path)
    ensures LastChild(l.children, child).Some? || LastChild(r.children, child).Some?
  {
    var c;
    if FindNode(l, item.path).Some? { c := ChildHolding(l, item.path); } else { c := ChildHolding(r, item.path); }
    child := c.path;
  }

  lemma {:induction false} PartIff(l: Node, r: Node, child: string, item: Item)
    requires BothDirs(l, r) && ChildOf(l.path, child) && Inside(child, item.path)
    requires LastChild(l.children, child).Some? || LastChild(r.children, child).Some?
    ensures item in PartAt(l, r, child) <==> Genuine(l, r, item) && !Hidden(l, r, item.path)
    decreases r, 0
  {
    ChildFacts(l, r, child);
    if LastChild(l.children, child).Some? && LastChild(r.children, child).Some? {
      var k, m := LastChild(l.children, child).value, LastChild(r.children, child).value;
      CommonChildIff(l, r, k, m, item);
      ReportIff(k, m, item);
    } else {
      OneSidedNotHidden(l, r, child, item.path);
      OneSidedIff(l, r, child, item);
    }
  }

  /** Main result: the report of two well-formed trees holds an item exactly when the
      difference is genuine and not hidden. */
  lemma {:induction false} ReportIff(l: Node, r: Node, item: Item)
    requires Comparable(l, r)
    ensures item in DiffReport(l, r) <==> Genuine(l, r, item) && !Hidden(l, r, item.path)
    decreases r, 1
  {
    if l.hash == r.hash {
      if Genuine(l, r, item) { SkippedIff(l, r, item); }
    } else if l.isFile && r.isFile {
      FilesIff(l, r, item);
    } else if l.isFile != r.isFile {
      KindsIff(l, r, item);
    } else {
      ItemsByChild(l, r, item);
      if item in DiffReport(l, r) {
        var child :| item in PartAt(l, r, child);
        PartInside(l, r, child, item);
        PartIff(l, r, child, item);
      } else if Genuine(l, r, item) {
        var child := ChildOfItem(l, r, item);
        PartIff(l, r, child, item);
      }
    }
  }

  /** With one tree missing, every path of the other is reported, as new or as gone. */
  lemma MissingTree(n: Node, item: Item)
    ensures item in FullReport(None, Some(n)) <==> item.Added? && FindNode(n, item.path).Some?
    ensures item in FullReport(Some(n), None) <==> item.Deleted? && FindNode(n, item.path).Some?
    ensures item !in FullReport(None, None)
  {
    ListedItems(n, item);
  }

  // --- Each item once ---------------------------------------------------------------------------------

  /** Nothing below a node has its path. */
  lemma NotBelowItself(n: Node)
    requires WellFormed(n)
    ensures FindAmong(n.children, n.path) == None
  {
    if FindAmong(n.children, n.path).Some? {
      var c := AmongHolding(n.children, n.path);
      var i :| 0 <= i < |n.children| && n.children[i] == c;
      FoundInside(c, n.path);
      SiblingsApart(n.path, c.path, c.path, n.path);
    }
  }

  lemma {:induction false} PathsDistinct(n: Node)
    requires WellFormed(n)
    ensures Distinct(Paths(n))
    decreases n, 1
  {
    ChildPathsDistinct(n, n.children);
    NotBelowItself(n);
    AmongIffFound(n.children, n.path);
    DistinctAppend([n.path], PathsOf(n.children));
  }

  lemma {:induction false} ChildPathsDistinct(n: Node, cs: seq<Node>)
    requires WellFormed(n) && cs <= n.children
    ensures Distinct(PathsOf(cs))
    decreases n, 0, |cs|
  {
    if cs != [] {
      var k := |cs| - 1;
      ChildPathsDistinct(n, cs[..k]);
      PathsDistinct(n.children[k]);
      forall x | x in PathsOf(cs[..k]) ensures x !in Paths(cs[k]) { SiblingPathsApart(n, cs[..k], k, x); }
      DistinctAppend(PathsOf(cs[..k]), Paths(cs[k]));
    }
  }

  lemma SiblingPathsApart(n: Node, front: seq<Node>, k: nat, x: string)
    requires WellFormed(n) && k < |n.children| && front == n.children[..k] && x in PathsOf(front)
    ensures x !in Paths(n.children[k])
  {
    AmongIffFound(front, x);
    var c := AmongHolding(front, x);
    var i :| 0 <= i < k && front[i] == c;
    KeyApart(NodePath, n.children, i, k);
    FoundInside(c, x);
    ListedIffFound(n.children[k], x);
    NotInSibling(n.path, c.path, n.children[k], x);
  }

  lemma TaggedOnce(n: Node, item: Item)
    requires WellFormed(n)
    ensures Tagged(ADDED, Paths(n))[item] <= 1 && Tagged(DELETED, Paths(n))[item] <= 1
  {
    PathsDistinct(n);
    var added, deleted := Map(ADDED, Paths(n)), Map(DELETED, Paths(n));
    assert Distinct(added) && Distinct(deleted);
    DistinctCount(added, item);
    DistinctCount(deleted, item);
  }

  /** Only one part holds the item, and once. */
  ghost predicate InOnePart(parts: seq<Report>, item: Item) {
    && (forall i :: 0 <= i < |parts| ==> parts[i][item] <= 1)
    && (forall i, j :: 0 <= i < j < |parts| ==> !(item in parts[i] && item in parts[j]))
  }

  lemma {:induction false} SumOnce(cs: seq<Node>, parts: seq<Report>, keys: set<string>, item: Item)
    requires |cs| == |parts| && DistinctKeys(NodePath, cs) && InOnePart(parts, item)
    ensures SumOver(cs, parts, keys)[item] <= 1
  {
    if cs != [] {
      var k := |cs| - 1;
      KeysBefore(NodePath, cs, k);
      SumOnce(cs[..k], parts[..k], keys - {cs[k].path}, item);
      SumMembers(cs[..k], parts[..k], keys - {cs[k].path}, item);
      forall i | 0 <= i < k ensures !(item in parts[..k][i] && item in parts[k]) {}
    }
  }

  lemma PartsApart(l: Node, r: Node, a: string, b: string, item: Item)
    requires BothDirs(l, r) && item in PartAt(l, r, a) && item in PartAt(l, r, b)
    ensures a == b
  {
    PartInside(l, r, a, item);
    PartInside(l, r, b, item);
    SiblingsApart(l.path, a, b, item.path);
  }

  lemma {:induction false} RemoteOnce(l: Node, r: Node, item: Item)
    requires BothDirs(l, r)
    ensures InOnePart(RemoteParts(l, r, |r.children|), item)
    decreases r, 0
  {
    var parts := RemoteParts(l, r, |r.children|);
    forall i | 0 <= i < |parts| ensures parts[i][item] <= 1 { RemotePartOnce(l, r, i, item); }
    forall i, j | 0 <= i < j < |parts| ensures !(item in parts[i] && item in parts[j]) {
      RemotePartAt(l, r, i);
      RemotePartAt(l, r, j);
      KeyApart(NodePath, r.children, i, j);
      if item in parts[i] && item in parts[j] { PartsApart(l, r, r.children[i].path, r.children[j].path, item); }
    }
  }

  lemma {:induction false} RemotePartOnce(l: Node, r: Node, i: nat, item: Item)
    requires BothDirs(l, r) && i < |r.children|
    ensures RemotePart(l, r.children[i])[item] <= 1
    decreases r.children[i], 2
  {
    var m := r.children[i];
    if LastChild(l.children, m.path).Some? {
      ChildFacts(l, r, m.path);
      ReportOnce(LastChild(l.children, m.path).value, m, item);
    } else {
      TaggedOnce(m, item);
    }
  }

  lemma LocalPartIs(l: Node, r: Node, j: nat)
    requires BothDirs(l, r) && j < |l.children|
    ensures LocalPart(l.children[j], r) == if LastChild(r.children, l.children[j].path).Some? then multiset{}
                                           else PartAt(l, r, l.children[j].path)
  {
    LastChildHere(l.children, j);
  }

  lemma LocalOnce(l: Node, r: Node, item: Item)
    requires BothDirs(l, r)
    ensures InOnePart(LocalParts(l.children, r), item)
  {
    var parts := LocalParts(l.children, r);
    forall i | 0 <= i < |parts| ensures parts[i][item] <= 1 { TaggedOnce(l.children[i], item); }
    forall i, j | 0 <= i < j < |parts| ensures !(item in parts[i] && item in parts[j]) {
      LocalPartIs(l, r, i);
      LocalPartIs(l, r, j);
      KeyApart(NodePath, l.children, i, j);
      if item in parts[i] && item in parts[j] { PartsApart(l, r, l.children[i].path, l.children[j].path, item); }
    }
  }

  /** Nothing is reported from both sides. */
  lemma SidesApart(l: Node, r: Node, item: Item)
    requires BothDirs(l, r)
    ensures item !in RemoteSum(l, r, PathSet(r.children)) || item !in LocalSum(l, r, PathSet(l.children))
  {
    var remote, local := RemoteParts(l, r, |r.children|), LocalParts(l.children, r);
    SumMembers(r.children, remote, PathSet(r.children), item);
    SumMembers(l.children, local, PathSet(l.children), item);
    forall i, j | 0 <= i < |remote| && 0 <= j < |local| ensures !(item in remote[i] && item in local[j]) {
      RemotePartAt(l, r, i);
      LocalPartIs(l, r, j);
      LastChildHere(r.children, i);
      if item in remote[i] && item in local[j] { PartsApart(l, r, r.children[i].path, l.children[j].path, item); }
    }
  }

  /** No item is reported twice. */
  lemma {:induction false} ReportOnce(l: Node, r: Node, item: Item)
    requires Comparable(l, r)
    ensures DiffReport(l, r)[item] <= 1
    decreases r, 1
  {
    if BothDirs(l, r) {
      RemoteOnce(l, r, item);
      LocalOnce(l, r, item);
      SumOnce(r.children, RemoteParts(l, r, |r.children|), PathSet(r.children), item);
      SumOnce(l.children, LocalParts(l.children, r), PathSet(l.children), item);
      SidesApart(l, r, item);
    }
  }
}
