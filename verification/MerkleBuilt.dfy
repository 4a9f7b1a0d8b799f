/** What a built Merkle tree contains: its input entries, their totals, and one
    node per path. */
module MerkleBuilt {
  import opened Common
  import opened Sorting
  import opened MerkleTree

  // --- Leaves --------------------------------------------------------------------------

  /** The childless nodes, in tree order. */
  ghost function LeafList(n: Node): seq<Node>
    decreases n
  {
    if n.children == [] then [n] else LeafLists(n.children)
  }

  ghost function LeafLists(cs: seq<Node>): seq<Node>
    decreases cs
  {
    if cs == [] then [] else LeafLists(cs[..|cs| - 1]) + LeafList(cs[|cs| - 1])
  }

  lemma {:induction false} LeafListsAppend(a: seq<Node>, b: seq<Node>)
    ensures LeafLists(a + b) == LeafLists(a) + LeafLists(b)
  {
    if b == [] {
      assert a + b == a;
    } else {
      assert (a + b)[..|a + b| - 1] == a + b[..|b| - 1];
      LeafListsAppend(a, b[..|b| - 1]);
    }
  }

  lemma {:induction false} LeafListsInsert(le: (Node, Node) -> bool, cs: seq<Node>, x: Node)
    ensures multiset(LeafLists(Insert(le, cs, x))) == multiset(LeafLists(cs)) + multiset(LeafList(x))
  {
    if cs == [] {
      LeafListsAppend([], [x]);
    } else {
      var k := |cs| - 1;
      if le(cs[k], x) {
        LeafListsAppend(cs, [x]);
        assert [x][..0] == [];
      } else {
        LeafListsInsert(le, cs[..k], x);
        var t := Insert(le, cs[..k], x);
        assert (t + [cs[k]])[..|t|] == t;
      }
    }
  }

  lemma {:induction false} LeafListsSort(le: (Node, Node) -> bool, cs: seq<Node>)
    ensures multiset(LeafLists(Sort(le, cs))) == multiset(LeafLists(cs))
  {
    if cs != [] {
      LeafListsSort(le, cs[..|cs| - 1]);
      LeafListsInsert(le, Sort(le, cs[..|cs| - 1]), cs[|cs| - 1]);
    }
  }

  lemma {:induction false} LeafListsOfLeaves(sha: Digest, files: seq<FileInfo>)
    ensures LeafLists(Leaves(sha, files)) == Leaves(sha, files)
  {
    if files != [] {
      var k := |files| - 1;
      LeafListsOfLeaves(sha, files[..k]);
      assert Leaves(sha, files)[..k] == Leaves(sha, files[..k]);
    }
  }

  ghost function LeafBag(sha: Digest, files: seq<FileInfo>): multiset<Node> {
    multiset(Leaves(sha, files))
  }

  lemma LeafBagPermutes(sha: Digest, a: seq<FileInfo>, b: seq<FileInfo>)
    requires multiset(a) == multiset(b)
    ensures LeafBag(sha, a) == LeafBag(sha, b)
  {
    var f := (x: FileInfo) => LeafOf(sha, x);
    MapPermutes(f, a, b);
    assert Map(f, a) == Leaves(sha, a) && Map(f, b) == Leaves(sha, b);
  }

  lemma LeafBagSum(sha: Digest, a: seq<FileInfo>, b: seq<FileInfo>, c: seq<FileInfo>)
    requires multiset(a) == multiset(b) + multiset(c)
    ensures LeafBag(sha, a) == LeafBag(sha, b) + LeafBag(sha, c)
  {
    LeafBagPermutes(sha, a, b + c);
    assert Leaves(sha, b + c) == Leaves(sha, b) + Leaves(sha, c);
  }

  /** Whether a file lies in one of the named directories. */
  function IsCovered(dirOf: Grouping, prefix: string, names: seq<string>): FileInfo -> bool {
    (f: FileInfo) => dirOf(prefix, f.path).Some? && dirOf(prefix, f.path).value in names
  }

  function Covered(dirOf: Grouping, prefix: string, files: seq<FileInfo>, names: seq<string>): seq<FileInfo> {
    Filter(IsCovered(dirOf, prefix, names), files)
  }

  lemma CoveredSnoc(dirOf: Grouping, sha: Digest, prefix: string, files: seq<FileInfo>, names: seq<string>, n: string)
    requires n !in names
    ensures LeafBag(sha, Covered(dirOf, prefix, files, names + [n]))
            == LeafBag(sha, Covered(dirOf, prefix, files, names)) + LeafBag(sha, Group(dirOf, prefix, files, n))
  {
    var all, some := IsCovered(dirOf, prefix, names + [n]), IsCovered(dirOf, prefix, names);
    var last := IsInside(dirOf, prefix, n);
    FilterSplit(all, some, last, files);
    LeafBagSum(sha, Filter(all, files), Filter(some, files), Filter(last, files));
  }

  lemma CoveredAll(dirOf: Grouping, sha: Digest, prefix: string, files: seq<FileInfo>, names: seq<string>)
    requires forall f :: f in files && dirOf(prefix, f.path).Some? ==> dirOf(prefix, f.path).value in names
    ensures LeafBag(sha, files)
      == LeafBag(sha, Directs(dirOf, prefix, files)) + LeafBag(sha, Covered(dirOf, prefix, files, names))
  {
    var all: FileInfo -> bool := f => true;
    var direct, nested := IsDirect(dirOf, prefix), IsCovered(dirOf, prefix, names);
    FilterAll(all, files);
    FilterSplit(all, direct, nested, files);
    LeafBagSum(sha, files, Filter(direct, files), Filter(nested, files));
  }

  lemma DirIsNamed(dirOf: Grouping, prefix: string, files: seq<FileInfo>, f: FileInfo)
    requires f in files && dirOf(prefix, f.path).Some?
    ensures dirOf(prefix, f.path).value in Sort(StringLe, SubdirNames(dirOf, prefix, files))
  {
    var n := dirOf(prefix, f.path).value;
    FilterMembers(IsInside(dirOf, prefix, n), files, f);
    NamesMeaning(dirOf, prefix, files, n);
    SortKeeps(StringLe, SubdirNames(dirOf, prefix, files), n);
  }

  lemma TreeNotEmpty(dirOf: Grouping, sha: Digest, prefix: string, files: seq<FileInfo>)
    requires files != []
    ensures Tree(dirOf, sha, prefix, files).children != []
  {
    var f := files[0];
    if dirOf(prefix, f.path).None? {
      FilterMembers(IsDirect(dirOf, prefix), files, f);
    } else {
      DirIsNamed(dirOf, prefix, files, f);
    }
  }

  /** The leaves are exactly the input entries. */
  lemma {:induction false} TreeLeaves(dirOf: Grouping, sha: Digest, prefix: string, files: seq<FileInfo>)
    requires files != []
    ensures multiset(LeafList(Tree(dirOf, sha, prefix, files))) == LeafBag(sha, files)
    decreases Depth(prefix, files), 1, 0
  {
    var names := Sort(StringLe, SubdirNames(dirOf, prefix, files));
    var directs := Directs(dirOf, prefix, files);
    var subtrees := Subtrees(dirOf, sha, prefix, files, names);
    SortDistinct(StringLe, SubdirNames(dirOf, prefix, files));
    SubtreeLeaves(dirOf, sha, prefix, files, names);
    forall f | f in files && dirOf(prefix, f.path).Some? ensures dirOf(prefix, f.path).value in names {
      DirIsNamed(dirOf, prefix, files, f);
    }
    CoveredAll(dirOf, sha, prefix, files, names);
    TreeNotEmpty(dirOf, sha, prefix, files);
    LeafListsSort(ByKey(NodePath), Leaves(sha, directs) + subtrees);
    LeafListsAppend(Leaves(sha, directs), subtrees);
    LeafListsOfLeaves(sha, directs);
  }

  lemma {:induction false} SubtreeLeaves(dirOf: Grouping, sha: Digest, prefix: string, files: seq<FileInfo>,
                                         names: seq<string>)
    requires Distinct(names)
    requires forall n :: n in names ==> Group(dirOf, prefix, files, n) != []
    ensures multiset(LeafLists(Subtrees(dirOf, sha, prefix, files, names)))
      == LeafBag(sha, Covered(dirOf, prefix, files, names))
    decreases Depth(prefix, files), 0, |names|
  {
    if names == [] {
      FilterNone(IsCovered(dirOf, prefix, names), files);
    } else {
      var k := |names| - 1;
      SubtreeLeaves(dirOf, sha, prefix, files, names[..k]);
      GroupSmaller(dirOf, prefix, files, names[k]);
      TreeLeaves(dirOf, sha, names[k], Group(dirOf, prefix, files, names[k]));
      CoveredSnoc(dirOf, sha, prefix, files, names[..k], names[k]);
      assert names == names[..k] + [names[k]];
      var before := Subtrees(dirOf, sha, prefix, files, names[..k]);
      assert Subtrees(dirOf, sha, prefix, files, names)[..k] == before;
    }
  }

  // --- Totals ------------------------------------------------------------------------------

  /** Every inner node is a directory made from its children. */
  ghost predicate Built(sha: Digest, n: Node)
    decreases n
  {
    n.children == []
    || (n == Directory(sha, n.path, n.children) && forall i :: 0 <= i < |n.children| ==> Built(sha, n.children[i]))
  }

  /** Every inner node carries the total size and the latest change of the leaves
      below it. */
  ghost predicate Summed(n: Node)
    decreases n
  {
    n.children == []
    || (n.size == Wrap(SumSizes(LeafList(n))) && n.modTime == Latest(LeafList(n))
        && forall i :: 0 <= i < |n.children| ==> Summed(n.children[i]))
  }

  lemma {:induction false} SumAppend(a: seq<Node>, b: seq<Node>)
    ensures SumSizes(a + b) == SumSizes(a) + SumSizes(b)
    ensures Latest(a + b) == if Latest(b) > Latest(a) then Latest(b) else Latest(a)
  {
    if b == [] {
      assert a + b == a;
      LatestLeast(a);
    } else {
      assert (a + b)[..|a + b| - 1] == a + b[..|b| - 1];
      SumAppend(a, b[..|b| - 1]);
    }
  }

  lemma {:induction false} LatestLeast(a: seq<Node>)
    ensures Latest(a) >= 0
  {
    if a != [] { LatestLeast(a[..|a| - 1]); }
  }

  lemma {:induction false} BuiltSummed(sha: Digest, n: Node)
    requires Built(sha, n)
    ensures Summed(n)
    ensures n.size == Wrap(SumSizes(LeafList(n)))
    ensures (if n.modTime > 0 then n.modTime else 0) == Latest(LeafList(n))
    decreases n
  {
    if n.children == [] {
      assert LeafList(n)[..0] == [];
    } else {
      forall i | 0 <= i < |n.children| ensures Summed(n.children[i]) { BuiltSummed(sha, n.children[i]); }
      ChildrenSummed(sha, n.children);
      LatestLeast(n.children);
    }
  }

  lemma WrapSums(a: int, b: int, c: int, d: int)
    requires Wrap(a) == Wrap(b) && c == Wrap(d)
    ensures Wrap(a + c) == Wrap(b + d)
  {
    WrapAdds(a, c); WrapAdds(b, c); WrapAdds(d, b);
  }

  /** One child more, and its leaves. */
  lemma SummedStep(front: seq<Node>, frontLeaves: seq<Node>, c: Node, leaves: seq<Node>)
    requires Wrap(SumSizes(front)) == Wrap(SumSizes(frontLeaves)) && Latest(front) == Latest(frontLeaves)
    requires c.size == Wrap(SumSizes(leaves)) && (if c.modTime > 0 then c.modTime else 0) == Latest(leaves)
    ensures Wrap(SumSizes(front + [c])) == Wrap(SumSizes(frontLeaves + leaves))
    ensures Latest(front + [c]) == Latest(frontLeaves + leaves)
  {
    SumAppend(frontLeaves, leaves);
    LatestLeast(front);
    assert (front + [c])[..|front|] == front;
    WrapSums(SumSizes(front), SumSizes(frontLeaves), c.size, SumSizes(leaves));
  }

  lemma {:induction false} ChildrenSummed(sha: Digest, cs: seq<Node>)
    requires forall i :: 0 <= i < |cs| ==> Built(sha, cs[i])
    ensures Wrap(SumSizes(cs)) == Wrap(SumSizes(LeafLists(cs)))
    ensures Latest(cs) == Latest(LeafLists(cs))
    decreases cs
  {
    if cs != [] {
      var k := |cs| - 1;
      var front, c := cs[..k], cs[k];
      assert cs == front + [c];
      ChildrenSummed(sha, front);
      BuiltSummed(sha, c);
      SummedStep(front, LeafLists(front), c, LeafList(c));
    }
  }

  lemma {:induction false} TreeBuilt(dirOf: Grouping, sha: Digest, prefix: string, files: seq<FileInfo>)
    ensures Built(sha, Tree(dirOf, sha, prefix, files))
    decreases Depth(prefix, files), 1, 0
  {
    var names := Sort(StringLe, SubdirNames(dirOf, prefix, files));
    var before := Leaves(sha, Directs(dirOf, prefix, files)) + Subtrees(dirOf, sha, prefix, files, names);
    SubtreesBuilt(dirOf, sha, prefix, files, names);
    var n := Tree(dirOf, sha, prefix, files);
    forall i | 0 <= i < |n.children| ensures Built(sha, n.children[i]) {
      SortKeeps(ByKey(NodePath), before, n.children[i]);
    }
  }

  lemma {:induction false} SubtreesBuilt(dirOf: Grouping, sha: Digest, prefix: string, files: seq<FileInfo>,
                                         names: seq<string>)
    requires forall n :: n in names ==> Group(dirOf, prefix, files, n) != []
    ensures forall c :: c in Subtrees(dirOf, sha, prefix, files, names) ==> Built(sha, c)
    decreases Depth(prefix, files), 0, |names|
  {
    if names != [] {
      var k := |names| - 1;
      SubtreesBuilt(dirOf, sha, prefix, files, names[..k]);
      GroupSmaller(dirOf, prefix, files, names[k]);
      TreeBuilt(dirOf, sha, names[k], Group(dirOf, prefix, files, names[k]));
    }
  }

  // --- One node per path ---------------------------------------------------------------------

  ghost predicate ChildOf(parent: string, path: string) {
    Under(parent, path) && DirOf(parent, path) == None && path != ""
  }

  /** Files have no children; children lie directly below their parent, in strict
      order of their paths. */
  ghost predicate WellFormed(n: Node)
    decreases n
  {
    && (n.isFile ==> n.children == [])
    && DistinctKeys(NodePath, n.children)
    && Sorted(ByKey(NodePath), n.children)
    && forall i :: 0 <= i < |n.children| ==> ChildOf(n.path, n.children[i].path) && WellFormed(n.children[i])
  }

  /** A list of distinct paths none of which is a directory of another. */
  ghost predicate AncestorFree(files: seq<FileInfo>) {
    && DistinctKeys(FilePath, files)
    && (forall f, g :: f in files && g in files ==> !(f.path + "/" <= g.path))
    && (forall f :: f in files ==> f.path != "")
  }

  /** What the groups of an ancestor-free list hold. */
  lemma GroupMembers(prefix: string, files: seq<FileInfo>, n: string, f: FileInfo)
    requires f in Group(DirOf, prefix, files, n)
    ensures f in files && DirOf(prefix, f.path) == Some(n) && n + "/" <= f.path && ChildOf(prefix, n)
  {
    FilterMembers(IsInside(DirOf, prefix, n), files, f);
    NameIsChild(prefix, f.path, n);
  }

  lemma NameIsChild(prefix: string, path: string, n: string)
    requires DirOf(prefix, path) == Some(n)
    ensures n + "/" <= path && ChildOf(prefix, n)
  {
    var relative := Relative(prefix, path);
    var name := relative[..IndexOf(relative, '/')];
    if prefix == "" {
      assert n == name && !("/" <= name);
    } else {
      assert n == prefix + "/" + name;
      assert Relative(prefix, n) == name;
    }
  }

  lemma {:induction false} IndexIs(s: string, c: char, j: nat)
    requires j < |s| && s[j] == c && c !in s[..j]
    ensures IndexOf(s, c) == j
  {
    if j > 0 {
      assert s[0] == s[..j][0];
      assert s[..j] == [s[0]] + s[1..][..j - 1];
      IndexIs(s[1..], c, j - 1);
    }
  }

  /** Below a child, the directory of a path is that child. */
  lemma BelowChild(parent: string, child: string, path: string)
    requires ChildOf(parent, child) && child + "/" <= path
    ensures DirOf(parent, path) == Some(child)
  {
    if parent == "" {
      assert path[..|child|] == child && path[|child|] == '/';
      IndexIs(path, '/', |child|);
    } else {
      var name := child[|parent| + 1..];
      assert child == parent + "/" + name;
      NestedChild(parent, name, path);
    }
  }

  lemma NestedChild(parent: string, name: string, path: string)
    requires parent != "" && '/' !in name && parent + "/" + name + "/" <= path
    ensures DirOf(parent, path) == Some(parent + "/" + name)
  {
    var head := parent + "/";
    var relative := path[|head|..];
    assert head == path[..|head|];
    assert (head + name + "/")[|head|..] == name + "/";
    assert name + "/" == relative[..|name| + 1];
    assert relative[..|name|] == name && relative[|name|] == '/';
    IndexIs(relative, '/', |name|);
  }

  lemma GroupAncestorFree(prefix: string, files: seq<FileInfo>, n: string)
    requires AncestorFree(files)
    ensures AncestorFree(Group(DirOf, prefix, files, n)) && AllUnder(n, Group(DirOf, prefix, files, n))
  {
    var group := Group(DirOf, prefix, files, n);
    FilterDistinct(IsInside(DirOf, prefix, n), FilePath, files);
    forall f | f in group ensures f in files && Under(n, f.path) { GroupMembers(prefix, files, n, f); }
  }

  lemma {:induction false} SubtreePaths(dirOf: Grouping, sha: Digest, prefix: string, files: seq<FileInfo>,
                                        names: seq<string>, i: nat)
    requires i < |names| && forall n :: n in names ==> Group(dirOf, prefix, files, n) != []
    ensures Subtrees(dirOf, sha, prefix, files, names)[i].path == names[i]
  {
    var k := |names| - 1;
    if i < k { SubtreePaths(dirOf, sha, prefix, files, names[..k], i); }
  }

  /** A direct child is not also a directory of nested files. */
  lemma DirectOrDirectory(prefix: string, files: seq<FileInfo>, f: FileInfo, n: string)
    requires AncestorFree(files) && f in files && Group(DirOf, prefix, files, n) != []
    ensures f.path != n
  {
    GroupMembers(prefix, files, n, Group(DirOf, prefix, files, n)[0]);
  }

  ghost predicate Placed(prefix: string, cs: seq<Node>) {
    DistinctKeys(NodePath, cs) && forall c :: c in cs ==> ChildOf(prefix, c.path)
  }

  lemma LeavesPlaced(sha: Digest, prefix: string, files: seq<FileInfo>)
    requires AllUnder(prefix, files) && AncestorFree(files)
    ensures Placed(prefix, Leaves(sha, Directs(DirOf, prefix, files)))
    ensures forall c :: c in Leaves(sha, Directs(DirOf, prefix, files)) ==> exists f :: f in files && f.path == c.path
  {
    var directs := Directs(DirOf, prefix, files);
    FilterDistinct(IsDirect(DirOf, prefix), FilePath, files);
    forall f | f in directs ensures ChildOf(prefix, f.path) { DirectIsChild(prefix, files, f); }
    LeavesLike(sha, prefix, directs);
    forall c | c in Leaves(sha, directs) ensures exists f :: f in files && f.path == c.path {
      var f := LeafFrom(DirOf, sha, prefix, files, c);
    }
  }

  lemma DirectIsChild(prefix: string, files: seq<FileInfo>, f: FileInfo)
    requires AllUnder(prefix, files) && AncestorFree(files) && f in Directs(DirOf, prefix, files)
    ensures ChildOf(prefix, f.path)
  {
    DirectMember(DirOf, prefix, files, f);
    UnderMembers(prefix, files);
  }

  lemma DirectMember(dirOf: Grouping, prefix: string, files: seq<FileInfo>, f: FileInfo)
    requires f in Directs(dirOf, prefix, files)
    ensures f in files && dirOf(prefix, f.path) == None
  {
    FilterMembers(IsDirect(dirOf, prefix), files, f);
  }

  lemma LeafFrom(dirOf: Grouping, sha: Digest, prefix: string, files: seq<FileInfo>, c: Node) returns (f: FileInfo)
    requires c in Leaves(sha, Directs(dirOf, prefix, files))
    ensures f in files && f.path == c.path
  {
    var directs := Directs(dirOf, prefix, files);
    var i :| 0 <= i < |directs| && Leaves(sha, directs)[i] == c;
    f := directs[i];
    FilterMembers(IsDirect(dirOf, prefix), files, f);
  }

  lemma LeavesLike(sha: Digest, prefix: string, directs: seq<FileInfo>)
    requires DistinctKeys(FilePath, directs) && forall f :: f in directs ==> ChildOf(prefix, f.path)
    ensures Placed(prefix, Leaves(sha, directs))
  {
    var leaves := Leaves(sha, directs);
    forall c | c in leaves ensures ChildOf(prefix, c.path) {
      var i :| 0 <= i < |leaves| && leaves[i] == c;
      assert directs[i] in directs;
    }
    forall i, j | 0 <= i < j < |leaves| ensures KeysApart(NodePath, leaves, i, j) { KeyApart(FilePath, directs, i, j); }
  }

  lemma SubtreesPlaced(sha: Digest, prefix: string, files: seq<FileInfo>, names: seq<string>)
    requires Distinct(names) && forall n :: n in names ==> Group(DirOf, prefix, files, n) != []
    ensures Placed(prefix, Subtrees(DirOf, sha, prefix, files, names))
    ensures forall c :: c in Subtrees(DirOf, sha, prefix, files, names) ==> c.path in names
  {
    var subtrees := Subtrees(DirOf, sha, prefix, files, names);
    forall i | 0 <= i < |names| ensures subtrees[i].path == names[i] && ChildOf(prefix, names[i]) {
      SubtreePaths(DirOf, sha, prefix, files, names, i);
      GroupMembers(prefix, files, names[i], Group(DirOf, prefix, files, names[i])[0]);
    }
    forall i, j | 0 <= i < j < |names| ensures KeysApart(NodePath, subtrees, i, j) { assert names[i] != names[j]; }
  }

  lemma PlacedTogether(prefix: string, a: seq<Node>, b: seq<Node>)
    requires Placed(prefix, a) && Placed(prefix, b)
    requires forall c, d :: c in a && d in b ==> c.path != d.path
    ensures Placed(prefix, a + b)
  {
    forall i, j | 0 <= i < j < |a + b| ensures KeysApart(NodePath, a + b, i, j) {
      if j < |a| {
        KeyApart(NodePath, a, i, j);
      } else if i >= |a| {
        KeyApart(NodePath, b, i - |a|, j - |a|);
      } else {
        assert a[i] in a && b[j - |a|] in b;
      }
    }
  }

  /** The children before sorting have distinct paths directly below the parent. */
  lemma ChildrenPlaced(sha: Digest, prefix: string, files: seq<FileInfo>, names: seq<string>)
    requires AllUnder(prefix, files) && AncestorFree(files) && Distinct(names)
    requires forall n :: n in names ==> Group(DirOf, prefix, files, n) != []
    ensures Placed(prefix, Leaves(sha, Directs(DirOf, prefix, files)) + Subtrees(DirOf, sha, prefix, files, names))
  {
    LeavesPlaced(sha, prefix, files);
    SubtreesPlaced(sha, prefix, files, names);
    var leaves, subtrees := Leaves(sha, Directs(DirOf, prefix, files)), Subtrees(DirOf, sha, prefix, files, names);
    forall c, d | c in leaves && d in subtrees ensures c.path != d.path {
      var f :| f in files && f.path == c.path;
      DirectOrDirectory(prefix, files, f, d.path);
    }
    PlacedTogether(prefix, leaves, subtrees);
  }

  /** One node per path: the tree of ancestor-free paths is well formed. */
  lemma {:induction false} TreeWellFormed(sha: Digest, prefix: string, files: seq<FileInfo>)
    requires AllUnder(prefix, files) && AncestorFree(files)
    ensures WellFormed(Tree(DirOf, sha, prefix, files))
    decreases Depth(prefix, files), 1, 0
  {
    var names := Sort(StringLe, SubdirNames(DirOf, prefix, files));
    var before := Leaves(sha, Directs(DirOf, prefix, files)) + Subtrees(DirOf, sha, prefix, files, names);
    SortDistinct(StringLe, SubdirNames(DirOf, prefix, files));
    ChildrenPlaced(sha, prefix, files, names);
    SubtreesWellFormed(sha, prefix, files, names);
    var le := ByKey(NodePath);
    SortDistinctKeys(le, NodePath, before);
    ByKeyTotal(NodePath);
    SortSorts(le, before);
    var n := Tree(DirOf, sha, prefix, files);
    assert n.children == Sort(le, before);
    forall i | 0 <= i < |n.children| ensures ChildOf(prefix, n.children[i].path) && WellFormed(n.children[i]) {
      SortKeeps(le, before, n.children[i]);
    }
  }

  lemma {:induction false} SubtreesWellFormed(sha: Digest, prefix: string, files: seq<FileInfo>, names: seq<string>)
    requires AncestorFree(files)
    requires forall n :: n in names ==> Group(DirOf, prefix, files, n) != []
    ensures forall c :: c in Subtrees(DirOf, sha, prefix, files, names) ==> WellFormed(c)
    decreases Depth(prefix, files), 0, |names|
  {
    if names != [] {
      var k := |names| - 1;
      SubtreesWellFormed(sha, prefix, files, names[..k]);
      GroupSmaller(DirOf, prefix, files, names[k]);
      GroupAncestorFree(prefix, files, names[k]);
      TreeWellFormed(sha, names[k], Group(DirOf, prefix, files, names[k]));
    }
  }

  // --- Two nodes for one path -----------------------------------------------------------------

  lemma {:induction false} SubtreeAt(dirOf: Grouping, sha: Digest, prefix: string, files: seq<FileInfo>,
                                     names: seq<string>, n: string)
    requires n in names && forall n :: n in names ==> Group(dirOf, prefix, files, n) != []
    ensures Tree(dirOf, sha, n, Group(dirOf, prefix, files, n)) in Subtrees(dirOf, sha, prefix, files, names)
  {
    var k := |names| - 1;
    if n != names[k] {
      assert names == names[..k] + [names[k]];
      SubtreeAt(dirOf, sha, prefix, files, names[..k], n);
    }
  }

  /** The subtree of a group is a child. */
  lemma GroupIsChild(dirOf: Grouping, sha: Digest, prefix: string, files: seq<FileInfo>, n: string)
    requires Group(dirOf, prefix, files, n) != []
    ensures Tree(dirOf, sha, n, Group(dirOf, prefix, files, n))
      in Subtrees(dirOf, sha, prefix, files, SortedNames(dirOf, prefix, files))
    ensures Tree(dirOf, sha, n, Group(dirOf, prefix, files, n)) in Tree(dirOf, sha, prefix, files).children
  {
    var f := Group(dirOf, prefix, files, n)[0];
    FilterMembers(IsInside(dirOf, prefix, n), files, f);
    DirIsNamed(dirOf, prefix, files, f);
    SubtreeAt(dirOf, sha, prefix, files, SortedNames(dirOf, prefix, files), n);
    SortKeeps(ByKey(NodePath), ChildrenOf(dirOf, sha, prefix, files),
      Tree(dirOf, sha, n, Group(dirOf, prefix, files, n)));
  }

  function SortedNames(dirOf: Grouping, prefix: string, files: seq<FileInfo>): (r: seq<string>)
    ensures forall n :: n in r ==> Group(dirOf, prefix, files, n) != []
  {
    Sort(StringLe, SubdirNames(dirOf, prefix, files))
  }

  /** The children before sorting. */
  function ChildrenOf(dirOf: Grouping, sha: Digest, prefix: string, files: seq<FileInfo>): seq<Node> {
    Leaves(sha, Directs(dirOf, prefix, files)) + Subtrees(dirOf, sha, prefix, files, SortedNames(dirOf, prefix, files))
  }

  lemma ChildrenAre(dirOf: Grouping, sha: Digest, prefix: string, files: seq<FileInfo>)
    ensures Tree(dirOf, sha, prefix, files).children == Sort(ByKey(NodePath), ChildrenOf(dirOf, sha, prefix, files))
  {}

  lemma ChildrenDistinct(n: Node, before: seq<Node>)
    requires WellFormed(n) && n.children == Sort(ByKey(NodePath), before)
    ensures DistinctKeys(NodePath, before)
  {
    SortPermutes(ByKey(NodePath), before);
    DistinctKeysPermuted(NodePath, n.children, before);
  }

  /** Two children of one path. */
  lemma SamePathSpoils(n: Node, leaves: seq<Node>, subtrees: seq<Node>, c: Node, d: Node)
    requires n.children == Sort(ByKey(NodePath), leaves + subtrees)
    requires c in leaves && d in subtrees && c.path == d.path
    ensures !WellFormed(n)
  {
    var i :| 0 <= i < |leaves| && leaves[i] == c;
    var j :| 0 <= j < |subtrees| && subtrees[j] == d;
    var before := leaves + subtrees;
    assert NodePath(before[i]) == NodePath(before[|leaves| + j]);
    if WellFormed(n) {
      ChildrenDistinct(n, before);
      KeyApart(NodePath, before, i, |leaves| + j);
    }
  }

  /** A leaf and a subtree of one path are two children of one path. */
  lemma TwoForOne(dirOf: Grouping, sha: Digest, prefix: string, files: seq<FileInfo>, f: FileInfo)
    requires f in files && dirOf(prefix, f.path) == None && Group(dirOf, prefix, files, f.path) != []
    ensures !WellFormed(Tree(dirOf, sha, prefix, files))
  {
    var group := Group(dirOf, prefix, files, f.path);
    DirectIsLeaf(dirOf, sha, prefix, files, f);
    GroupIsChild(dirOf, sha, prefix, files, f.path);
    ChildrenAre(dirOf, sha, prefix, files);
    SamePathSpoils(Tree(dirOf, sha, prefix, files), Leaves(sha, Directs(dirOf, prefix, files)),
                   Subtrees(dirOf, sha, prefix, files, SortedNames(dirOf, prefix, files)), LeafOf(sha, f),
                   Tree(dirOf, sha, f.path, group));
  }

  lemma DirectIsLeaf(dirOf: Grouping, sha: Digest, prefix: string, files: seq<FileInfo>, f: FileInfo)
    requires f in files && dirOf(prefix, f.path) == None
    ensures LeafOf(sha, f) in Leaves(sha, Directs(dirOf, prefix, files))
  {
    FilterMembers(IsDirect(dirOf, prefix), files, f);
    var i :| 0 <= i < |Directs(dirOf, prefix, files)| && Directs(dirOf, prefix, files)[i] == f;
    assert Leaves(sha, Directs(dirOf, prefix, files))[i] == LeafOf(sha, f);
  }

  /** The two paths share their directories up to the one where the first is a
      direct child and the second lies inside a directory of that same path. */
  predicate Clash(dirOf: Grouping, prefix: string, a: string, b: string)
    decreases |a| - |prefix|
  {
    match dirOf(prefix, a)
    case None => dirOf(prefix, b) == Some(a)
    case Some(n) =>
      dirOf(prefix, b) == Some(n) && (assert |prefix| < |n| < |a|; Clash(dirOf, n, a, b))
  }

  /** A path and something below it clash. */
  lemma {:induction false} PathsClash(prefix: string, a: string, b: string)
    requires Under(prefix, a) && Under(prefix, b) && a + "/" <= b
    ensures Clash(DirOf, prefix, a, b)
    decreases |a| - |prefix|
  {
    var dir := DirOf(prefix, a);
    if dir == None {
      DirectIsNamed(prefix, a, b);
    } else {
      SameDir(prefix, a, b, dir.value);
      PathsClash(dir.value, a, b);
    }
  }

  lemma DirectIsNamed(prefix: string, child: string, path: string)
    requires Under(prefix, child) && Under(prefix, path) && child + "/" <= path && DirOf(prefix, child) == None
    ensures DirOf(prefix, path) == Some(child)
  {
    if child != "" { BelowChild(prefix, child, path); }
  }

  /** What lies below a path lies in the same directory. */
  lemma SameDir(prefix: string, a: string, b: string, n: string)
    requires DirOf(prefix, a) == Some(n) && a + "/" <= b
    ensures DirOf(prefix, b) == Some(n)
  {
    NameIsChild(prefix, a, n);
    LongerPrefix(n + "/", a, b);
    BelowChild(prefix, n, b);
  }

  lemma LongerPrefix(p: string, a: string, b: string)
    requires p <= a && a + "/" <= b
    ensures p <= b
  {
    assert b[..|a|] == a;
  }

  /** Entries of clashing paths spoil the tree, however deep. */
  lemma {:induction false} ClashSpoils(dirOf: Grouping, sha: Digest, prefix: string, files: seq<FileInfo>,
                                       f: FileInfo, g: FileInfo)
    requires f in files && g in files && Clash(dirOf, prefix, f.path, g.path)
    ensures !WellFormed(Tree(dirOf, sha, prefix, files))
    decreases Depth(prefix, files)
  {
    var dir := dirOf(prefix, f.path);
    if dir == None {
      InGroup(dirOf, prefix, files, g, f.path);
      TwoForOne(dirOf, sha, prefix, files, f);
    } else {
      InGroup(dirOf, prefix, files, f, dir.value);
      InGroup(dirOf, prefix, files, g, dir.value);
      GroupSmaller(dirOf, prefix, files, dir.value);
      ClashSpoils(dirOf, sha, dir.value, Group(dirOf, prefix, files, dir.value), f, g);
      SpoiltBelow(dirOf, sha, prefix, files, dir.value);
    }
  }

  lemma InGroup(dirOf: Grouping, prefix: string, files: seq<FileInfo>, f: FileInfo, n: string)
    requires f in files && dirOf(prefix, f.path) == Some(n)
    ensures f in Group(dirOf, prefix, files, n)
  {
    FilterMembers(IsInside(dirOf, prefix, n), files, f);
  }

  lemma SpoiltBelow(dirOf: Grouping, sha: Digest, prefix: string, files: seq<FileInfo>, n: string)
    requires Group(dirOf, prefix, files, n) != [] && !WellFormed(Tree(dirOf, sha, n, Group(dirOf, prefix, files, n)))
    ensures !WellFormed(Tree(dirOf, sha, prefix, files))
  {
    GroupIsChild(dirOf, sha, prefix, files, n);
    SpoiltChild(Tree(dirOf, sha, prefix, files), Tree(dirOf, sha, n, Group(dirOf, prefix, files, n)));
  }

  lemma SpoiltChild(n: Node, c: Node)
    requires c in n.children && !WellFormed(c)
    ensures !WellFormed(n)
  {}

  lemma UnderMembers(prefix: string, files: seq<FileInfo>)
    requires AllUnder(prefix, files)
    ensures forall f :: f in files ==> Under(prefix, f.path)
  {}

  lemma GroupUnder(prefix: string, files: seq<FileInfo>, n: string)
    ensures AllUnder(n, Group(DirOf, prefix, files, n))
  {
    var group := Group(DirOf, prefix, files, n);
    forall i | 0 <= i < |group| ensures Under(n, group[i].path) { GroupMembers(prefix, files, n, group[i]); }
  }

  /** An empty path spoils the tree as well. */
  lemma EmptySpoils(sha: Digest, files: seq<FileInfo>, f: FileInfo)
    requires f in files && f.path == ""
    ensures !WellFormed(Tree(DirOf, sha, "", files))
  {
    FilterMembers(IsDirect(DirOf, ""), files, f);
    var leaves := Leaves(sha, Directs(DirOf, "", files));
    var i :| 0 <= i < |leaves| && Directs(DirOf, "", files)[i] == f;
    assert leaves[i] in ChildrenOf(DirOf, sha, "", files);
    SortKeeps(ByKey(NodePath), ChildrenOf(DirOf, sha, "", files), leaves[i]);
    assert leaves[i] in Tree(DirOf, sha, "", files).children;
  }

  /** Unless a list of distinct paths is free of ancestors, one is empty or two
      clash. */
  lemma NotFree(files: seq<FileInfo>) returns (f: FileInfo, g: FileInfo)
    requires AllUnder("", files) && DistinctKeys(FilePath, files) && !AncestorFree(files)
    ensures f in files && (f.path == "" || (g in files && Clash(DirOf, "", f.path, g.path)))
  {
    if a, b :| a in files && b in files && a.path + "/" <= b.path {
      f, g := a, b;
      UnderMembers("", files);
      PathsClash("", f.path, g.path);
    } else {
      f :| f in files && f.path == "";
      g := f;
    }
  }

  /** For different relative paths, one node per path exactly when no path is
      empty or a directory of another. */
  lemma WellFormedIff(sha: Digest, files: seq<FileInfo>)
    requires AllUnder("", files) && DistinctKeys(FilePath, files)
    ensures WellFormed(Tree(DirOf, sha, "", files)) <==> AncestorFree(files)
  {
    if AncestorFree(files) {
      TreeWellFormed(sha, "", files);
    } else {
      AncestorSpoils(sha, files);
    }
  }

  lemma AncestorSpoils(sha: Digest, files: seq<FileInfo>)
    requires AllUnder("", files) && DistinctKeys(FilePath, files) && !AncestorFree(files)
    ensures !WellFormed(Tree(DirOf, sha, "", files))
  {
    var f, g := NotFree(files);
    if f.path == "" {
      EmptySpoils(sha, files, f);
    } else {
      ClashSpoils(DirOf, sha, "", files, f, g);
    }
  }

  // --- Main results ----------------------------------------------------------------------------

  /** The built tree is a faithful index of any nonempty list of relative paths:
      its leaves are the entries and its directories carry their totals. */
  lemma BuildFaithful(sha: Digest, files: seq<FileInfo>)
    requires AllRelative(files) && files != []
    ensures multiset(LeafList(TreeOf(sha, files))) == multiset(Leaves(sha, files))
    ensures Summed(TreeOf(sha, files)) && Built(sha, TreeOf(sha, files))
    ensures DistinctKeys(FilePath, files) ==> (WellFormed(TreeOf(sha, files)) <==> AncestorFree(files))
  {
    var le := ByKey(FilePath);
    var sorted := Sort(le, files);
    SortRelative(files);
    TreeLeaves(DirOf, sha, "", sorted);
    SortPermutes(le, files);
    LeafBagPermutes(sha, files, sorted);
    TreeBuilt(DirOf, sha, "", sorted);
    BuiltSummed(sha, Tree(DirOf, sha, "", sorted));
    if DistinctKeys(FilePath, files) {
      SortDistinctKeys(le, FilePath, files);
      SortAncestorFree(files);
      WellFormedIff(sha, sorted);
    }
  }

  lemma SortAncestorFree(files: seq<FileInfo>)
    requires DistinctKeys(FilePath, files)
    ensures AncestorFree(Sort(ByKey(FilePath), files)) <==> AncestorFree(files)
  {
    var sorted := Sort(ByKey(FilePath), files);
    SortDistinctKeys(ByKey(FilePath), FilePath, files);
    forall f ensures f in sorted <==> f in files { SortKeeps(ByKey(FilePath), files, f); }
  }

  /** Any order of the same entries builds the same tree. */
  lemma {:induction false} OrderIrrelevant(sha: Digest, a: seq<FileInfo>, b: seq<FileInfo>)
    requires AllRelative(a) && AllRelative(b)
    requires DistinctKeys(FilePath, a) && multiset(a) == multiset(b)
    ensures TreeOf(sha, a) == TreeOf(sha, b)
  {
    ByKeyTotal(FilePath);
    KeysDistinguish(FilePath, a);
    SortCanonical(ByKey(FilePath), a, b);
  }

  // --- What the leaves say -----------------------------------------------------------------------

  /** A node read as an entry. */
  function AsEntry(n: Node): FileInfo { FileInfo(n.path, n.isFile, n.size, n.modTime, n.hash) }

  function IsFileNode(n: Node): bool { n.isFile }

  function IsFolderNode(n: Node): bool { !n.isFile }

  function IsFile(f: FileInfo): bool { f.isFile }

  function IsFolder(f: FileInfo): bool { !f.isFile }

  /** A folder entry as the tree shows it: without size, under the digest of its path. */
  function FolderEntry(sha: Digest): FileInfo -> FileInfo {
    (f: FileInfo) => FileInfo(f.path, false, 0, f.modTime, sha(f.path))
  }

  function SizeSum(files: seq<FileInfo>): int {
    if files == [] then 0 else SizeSum(files[..|files| - 1]) + files[|files| - 1].size
  }

  /** t is the greatest of 0 and the times of the entries. */
  ghost predicate IsLatestTime(files: seq<FileInfo>, t: int) {
    && t >= 0 && (forall f :: f in files ==> f.modTime <= t)
    && (t == 0 || exists f :: f in files && f.modTime == t)
  }

  lemma LeavesSnoc(sha: Digest, files: seq<FileInfo>)
    requires files != []
    ensures var k := |files| - 1;
      Leaves(sha, files) == Leaves(sha, files[..k]) + [LeafOf(sha, files[k])]
      && Leaves(sha, files)[..k] == Leaves(sha, files[..k])
  {}

  lemma {:induction false} FilesOfLeaves(sha: Digest, files: seq<FileInfo>)
    ensures Map(AsEntry, Filter(IsFileNode, Leaves(sha, files))) == Filter(IsFile, files)
  {
    if files != [] {
      FilesOfLeaves(sha, files[..|files| - 1]);
      LeavesSnoc(sha, files);
    }
  }

  lemma {:induction false} FoldersOfLeaves(sha: Digest, files: seq<FileInfo>)
    ensures Map(AsEntry, Filter(IsFolderNode, Leaves(sha, files))) == Map(FolderEntry(sha), Filter(IsFolder, files))
  {
    if files != [] {
      FoldersOfLeaves(sha, files[..|files| - 1]);
      LeavesSnoc(sha, files);
    }
  }

  lemma {:induction false} SizesOfLeaves(sha: Digest, files: seq<FileInfo>)
    ensures SumSizes(Leaves(sha, files)) == SizeSum(Filter(IsFile, files))
  {
    if files != [] {
      var k := |files| - 1;
      var front, leaves := Filter(IsFile, files[..k]), Leaves(sha, files);
      SizesOfLeaves(sha, files[..k]);
      LeavesSnoc(sha, files);
      FilterSnoc(IsFile, files[..k], files[k]);
      assert files == files[..k] + [files[k]];
      assert SumSizes(leaves) == SumSizes(leaves[..k]) + leaves[k].size;
      assert (front + [files[k]])[..|front|] == front && front + [] == front;
    }
  }

  /** Sums do not depend on the order. */
  lemma {:induction false} SumPermutes(a: seq<Node>, b: seq<Node>)
    requires multiset(a) == multiset(b)
    ensures SumSizes(a) == SumSizes(b)
  {
    if a == [] {
      assert |multiset(b)| == |b|;
    } else {
      var i := PermutedRest(a, b);
      SumPermutes(a[..|a| - 1], b[..i] + b[i + 1..]);
      SumRemove(b, i);
    }
  }

  lemma SumOne(n: Node)
    ensures SumSizes([n]) == n.size
  {
    assert [n][..0] == [];
  }

  lemma Around<T>(s: seq<T>, i: nat)
    requires i < |s|
    ensures s == s[..i] + [s[i]] + s[i + 1..]
  {}

  lemma SumMiddle(before: seq<Node>, n: Node, after: seq<Node>)
    ensures SumSizes(before + [n] + after) == SumSizes(before + after) + n.size
  {
    SumAppend(before + [n], after);
    SumAppend(before, [n]);
    SumAppend(before, after);
    SumOne(n);
  }

  lemma SumRemove(s: seq<Node>, i: nat)
    requires i < |s|
    ensures SumSizes(s) == SumSizes(s[..i] + s[i + 1..]) + s[i].size
  {
    Around(s, i);
    SumMiddle(s[..i], s[i], s[i + 1..]);
  }

  lemma {:induction false} LatestIs(ns: seq<Node>)
    ensures Latest(ns) >= 0 && forall n :: n in ns ==> n.modTime <= Latest(ns)
    ensures Latest(ns) == 0 || exists n :: n in ns && n.modTime == Latest(ns)
  {
    if ns != [] {
      var k := |ns| - 1;
      LatestIs(ns[..k]);
      assert ns == ns[..k] + [ns[k]];
      if Latest(ns) != 0 {
        if ns[k].modTime > Latest(ns[..k]) {
          assert ns[k] in ns;
        } else {
          var n :| n in ns[..k] && n.modTime == Latest(ns[..k]);
          assert n in ns;
        }
      }
    }
  }

  lemma LatestOfEntries(sha: Digest, files: seq<FileInfo>, leaves: seq<Node>)
    requires multiset(leaves) == multiset(Leaves(sha, files))
    ensures IsLatestTime(files, Latest(leaves))
  {
    var all := Leaves(sha, files);
    LatestIs(leaves);
    forall f | f in files ensures f.modTime <= Latest(leaves) {
      var i :| 0 <= i < |files| && files[i] == f;
      assert all[i] in multiset(all);
      assert all[i] in leaves;
    }
    if Latest(leaves) != 0 {
      var n :| n in leaves && n.modTime == Latest(leaves);
      assert n in multiset(leaves);
      var i :| 0 <= i < |all| && all[i] == n;
      assert files[i] in files;
    }
  }

  /** Main result on contents: the leaves that are files are the file entries as they
      are, folder entries appear as folders, and the root carries the wrapped sum of
      the file sizes and the latest time. */
  lemma EntriesKept(sha: Digest, files: seq<FileInfo>)
    requires AllRelative(files) && files != []
    ensures var root := TreeOf(sha, files); var leaves := LeafList(root);
      && multiset(Map(AsEntry, Filter(IsFileNode, leaves))) == multiset(Filter(IsFile, files))
      && multiset(Map(AsEntry, Filter(IsFolderNode, leaves)))
         == multiset(Map(FolderEntry(sha), Filter(IsFolder, files)))
      && root.size == Wrap(SizeSum(Filter(IsFile, files)))
      && IsLatestTime(files, root.modTime)
  {
    var root := TreeOf(sha, files);
    var leaves, all := LeafList(root), Leaves(sha, files);
    BuildFaithful(sha, files);
    RootTotals(sha, files);
    FilesOfLeaves(sha, files);
    FoldersOfLeaves(sha, files);
    SizesOfLeaves(sha, files);
    FilterPermutes(IsFileNode, leaves, all);
    FilterPermutes(IsFolderNode, leaves, all);
    MapPermutes(AsEntry, Filter(IsFileNode, leaves), Filter(IsFileNode, all));
    MapPermutes(AsEntry, Filter(IsFolderNode, leaves), Filter(IsFolderNode, all));
    SumPermutes(leaves, all);
    LatestOfEntries(sha, files, leaves);
  }

  lemma RootTotals(sha: Digest, files: seq<FileInfo>)
    requires AllRelative(files) && files != []
    ensures TreeOf(sha, files).size == Wrap(SumSizes(LeafList(TreeOf(sha, files))))
    ensures TreeOf(sha, files).modTime == Latest(LeafList(TreeOf(sha, files)))
  {
    BuildFaithful(sha, files);
    RootHasChildren(sha, files);
    SummedRoot(TreeOf(sha, files));
  }

  lemma SummedRoot(n: Node)
    requires Summed(n) && n.children != []
    ensures n.size == Wrap(SumSizes(LeafList(n))) && n.modTime == Latest(LeafList(n))
  {}

  lemma RootHasChildren(sha: Digest, files: seq<FileInfo>)
    requires AllRelative(files) && files != []
    ensures TreeOf(sha, files).children != []
  {
    SortRelative(files);
    SortKeeps(ByKey(FilePath), files, files[0]);
    TreeNotEmpty(DirOf, sha, "", Sort(ByKey(FilePath), files));
  }

  // --- Where building does not end -----------------------------------------------------------------

  /** The child directory as the source finds it: by the first separator after
      the prefix, without asking whether the path starts with the prefix. */
  function SourceDir(prefix: string, path: string): Option<string> {
    if prefix != "" && |path| <= |prefix| then None else
      var relative := if prefix == "" then path else path[|prefix| + 1..];
      var idx := IndexOf(relative, '/');
      if idx == -1 then None
      else if prefix == "" then Some(relative[..idx])
      else Some(prefix + "/" + relative[..idx])
  }

  /** It is the builder's own grouping on every path a directory holds. */
  lemma SourceDirIs(prefix: string, path: string)
    requires Under(prefix, path)
    ensures SourceDir(prefix, path) == DirOf(prefix, path)
  {}

  function InSourceDir(prefix: string, name: string): FileInfo -> bool {
    (f: FileInfo) => SourceDir(prefix, f.path) == Some(name)
  }

  function SourceGroup(prefix: string, files: seq<FileInfo>, name: string): seq<FileInfo> {
    Filter(InSourceDir(prefix, name), files)
  }

  /** The recursion of the source ends within n levels: it calls itself on every
      nonempty group. */
  ghost predicate EndsWithin(prefix: string, files: seq<FileInfo>, n: nat)
    decreases n, 1
  {
    n > 0 && forall name :: GroupEnds(prefix, files, name, n)
  }

  ghost predicate GroupEnds(prefix: string, files: seq<FileInfo>, name: string, n: nat)
    requires n > 0
    decreases n, 0
  {
    SourceGroup(prefix, files, name) != [] ==> EndsWithin(name, SourceGroup(prefix, files, name), n - 1)
  }

  lemma {:induction false} SameGroup(prefix: string, files: seq<FileInfo>, name: string)
    requires AllUnder(prefix, files)
    ensures SourceGroup(prefix, files, name) == Group(DirOf, prefix, files, name)
  {
    if files != [] {
      var k := |files| - 1;
      SameGroup(prefix, files[..k], name);
      SourceDirIs(prefix, files[k].path);
    }
  }

  lemma {:induction false} RelativeEnds(prefix: string, files: seq<FileInfo>, n: nat)
    requires AllUnder(prefix, files) && n > Depth(prefix, files)
    ensures EndsWithin(prefix, files, n)
    decreases n, 1
  {
    forall name ensures GroupEnds(prefix, files, name, n) { RelativeGroupEnds(prefix, files, name, n); }
  }

  lemma {:induction false} RelativeGroupEnds(prefix: string, files: seq<FileInfo>, name: string, n: nat)
    requires AllUnder(prefix, files) && n > Depth(prefix, files)
    ensures GroupEnds(prefix, files, name, n)
    decreases n, 0
  {
    SameGroup(prefix, files, name);
    var group := Group(DirOf, prefix, files, name);
    if group != [] {
      GroupNearer(prefix, files, name);
      RelativeEnds(name, group, n - 1);
    }
  }

  lemma GroupNearer(prefix: string, files: seq<FileInfo>, name: string)
    requires Group(DirOf, prefix, files, name) != []
    ensures AllUnder(name, Group(DirOf, prefix, files, name))
    ensures Depth(name, Group(DirOf, prefix, files, name)) < Depth(prefix, files)
  {
    GroupSmaller(DirOf, prefix, files, name);
    GroupUnder(prefix, files, name);
  }

  /** Paths that start with a separator form a root group named "", which is the
      root again: building it regroups exactly the same files under exactly the
      same name, so the recursion repeats its own arguments. */
  lemma AbsolutePathsRecurse(files: seq<FileInfo>)
    ensures var group := SourceGroup("", files, "");
      SourceGroup("", group, "") == group && (group != [] <==> !AllRelative(files))
  {
    var group := SourceGroup("", files, "");
    forall f ensures f in group <==> f in files && "/" <= f.path {
      FilterMembers(InSourceDir("", ""), files, f);
      FirstSeparator(f.path);
    }
    forall f | f in group ensures InSourceDir("", "")(f) { FilterMembers(InSourceDir("", ""), files, f); }
    FilterAll(InSourceDir("", ""), group);
    if group != [] { assert group[0] in files; }
  }

  lemma FirstSeparator(path: string)
    ensures "/" <= path <==> SourceDir("", path) == Some("")
  {
    if path != "" { assert path == [path[0]] + path[1..]; }
  }

  lemma {:induction false} RepeatsForever(group: seq<FileInfo>, n: nat)
    requires group != [] && SourceGroup("", group, "") == group
    ensures !EndsWithin("", group, n)
  {
    if n > 0 {
      RepeatsForever(group, n - 1);
      assert !GroupEnds("", group, "", n);
    }
  }

  /** Main result on termination: the source's recursion ends exactly on lists
      without a path that starts with a separator. */
  lemma BuildEndsIff(files: seq<FileInfo>)
    ensures (exists n: nat :: EndsWithin("", files, n)) <==> AllRelative(files)
  {
    if AllRelative(files) {
      var n: nat := Depth("", files) + 1;
      RelativeEnds("", files, n);
      assert EndsWithin("", files, n);
    } else {
      var group := SourceGroup("", files, "");
      AbsolutePathsRecurse(files);
      forall n: nat ensures !EndsWithin("", files, n) {
        if n > 0 {
          RepeatsForever(group, n - 1);
          assert !GroupEnds("", files, "", n);
        }
      }
    }
  }
}
