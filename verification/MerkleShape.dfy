/** Two trees over the same paths: skipping by hash loses nothing, and what equal
    hashes mean for any two trees. */
module MerkleShape {
  import opened Common
  import opened Sorting
  import opened MerkleTree
  import opened MerkleBuilt
  import opened MerkleDiff
  import opened MerklePatch

  /** Same paths and kinds at the same places. */
  ghost predicate SameShape(l: Node, r: Node)
    decreases l
  {
    && l.path == r.path && l.isFile == r.isFile && |l.children| == |r.children|
    && forall i :: 0 <= i < |l.children| ==> SameShape(l.children[i], r.children[i])
  }

  /** All hashes of a tree have one length. */
  ghost predicate HashLength(n: Node, length: nat)
    decreases n
  {
    |n.hash| == length && forall i :: 0 <= i < |n.children| ==> HashLength(n.children[i], length)
  }

  /** Everything a tree's directories feed to the digest. */
  ghost function Hashed(n: Node): set<string>
    decreases n
  {
    if n.children == [] then {} else {ConcatHashes(n.children)} + HashedBelow(n.children)
  }

  ghost function HashedBelow(cs: seq<Node>): set<string>
    decreases cs
  {
    if cs == [] then {} else HashedBelow(cs[..|cs| - 1]) + Hashed(cs[|cs| - 1])
  }

  ghost predicate CollisionFree(sha: Digest, inputs: set<string>) {
    forall x, y :: x in inputs && y in inputs && sha(x) == sha(y) ==> x == y
  }

  /** Whether some leaf at a path has another hash on the other side. */
  ghost predicate LeafDiffers(l: Node, r: Node, path: string)
    requires SameShape(l, r)
    decreases l
  {
    if l.children == [] then l.path == path && l.hash != r.hash
    else exists i :: 0 <= i < |l.children| && LeafDiffers(l.children[i], r.children[i], path)
  }

  // --- Hashes determine leaves -------------------------------------------------------------

  lemma {:induction false} ConcatDetermines(a: seq<Node>, b: seq<Node>, length: nat)
    requires |a| == |b| && ConcatHashes(a) == ConcatHashes(b)
    requires forall i :: 0 <= i < |a| ==> |a[i].hash| == |b[i].hash| == length
    ensures forall i :: 0 <= i < |a| ==> a[i].hash == b[i].hash
  {
    if a != [] {
      var k := |a| - 1;
      var p, q := ConcatHashes(a[..k]), ConcatHashes(b[..k]);
      ConcatLength(a[..k], b[..k], length);
      assert ConcatHashes(a)[..|p|] == p && ConcatHashes(b)[..|q|] == q;
      assert ConcatHashes(a)[|p|..] == a[k].hash && ConcatHashes(b)[|q|..] == b[k].hash;
      ConcatDetermines(a[..k], b[..k], length);
      forall i | 0 <= i < k ensures a[i].hash == b[i].hash { assert a[..k][i].hash == b[..k][i].hash; }
    }
  }

  lemma {:induction false} ConcatLength(a: seq<Node>, b: seq<Node>, length: nat)
    requires |a| == |b| && forall i :: 0 <= i < |a| ==> |a[i].hash| == |b[i].hash| == length
    ensures |ConcatHashes(a)| == |ConcatHashes(b)|
  {
    if a != [] { ConcatLength(a[..|a| - 1], b[..|b| - 1], length); }
  }

  lemma {:induction false} ConcatCongruent(a: seq<Node>, b: seq<Node>)
    requires |a| == |b| && forall i :: 0 <= i < |a| ==> a[i].hash == b[i].hash
    ensures ConcatHashes(a) == ConcatHashes(b)
  {
    if a != [] { ConcatCongruent(a[..|a| - 1], b[..|b| - 1]); }
  }

  lemma {:induction false} HashedChild(cs: seq<Node>, i: nat)
    requires i < |cs|
    ensures Hashed(cs[i]) <= HashedBelow(cs)
  {
    if i < |cs| - 1 { HashedChild(cs[..|cs| - 1], i); }
  }

  /** The two trees can be compared: one shape, hashes of one length, directories
      hashed from their children without collisions, and childless directories
      hashed alike. */
  ghost predicate Comparable(sha: Digest, l: Node, r: Node, length: nat) {
    && SameShape(l, r) && Built(sha, l) && Built(sha, r)
    && HashLength(l, length) && HashLength(r, length)
    && CollisionFree(sha, Hashed(l) + Hashed(r))
  }

  lemma ComparableChild(sha: Digest, l: Node, r: Node, length: nat, i: nat)
    requires Comparable(sha, l, r, length) && i < |l.children|
    ensures Comparable(sha, l.children[i], r.children[i], length)
  {
    HashedChild(l.children, i);
    HashedChild(r.children, i);
  }

  /** Root hashes agree exactly when all leaf hashes do. */
  lemma {:induction false} RootHashIff(sha: Digest, l: Node, r: Node, length: nat)
    requires Comparable(sha, l, r, length)
    ensures l.hash == r.hash <==> forall path :: !LeafDiffers(l, r, path)
    decreases l
  {
    if l.children == [] {
      assert LeafDiffers(l, r, l.path) <==> l.hash != r.hash;
    } else {
      forall i | 0 <= i < |l.children|
        ensures l.children[i].hash == r.children[i].hash <==>
          forall path :: !LeafDiffers(l.children[i], r.children[i], path)
      {
        ComparableChild(sha, l, r, length, i);
        RootHashIff(sha, l.children[i], r.children[i], length);
      }
      if l.hash == r.hash {
        assert forall i :: 0 <= i < |l.children| ==>
          HashLength(l.children[i], length) && HashLength(r.children[i], length);
        assert ConcatHashes(l.children) in Hashed(l) && ConcatHashes(r.children) in Hashed(r);
        ConcatDetermines(l.children, r.children, length);
      } else {
        if forall i :: 0 <= i < |l.children| ==> l.children[i].hash == r.children[i].hash {
          ConcatCongruent(l.children, r.children);
          assert false;
        }
        var i :| 0 <= i < |l.children| && l.children[i].hash != r.children[i].hash;
        var path :| LeafDiffers(l.children[i], r.children[i], path);
        assert LeafDiffers(l, r, path);
      }
    }
  }

  // --- What equal hashes mean ----------------------------------------------------------------

  /** Equal trees, had the nodes no names. */
  ghost predicate SameUpToNames(l: Node, r: Node)
    decreases l
  {
    && l.hash == r.hash && |l.children| == |r.children|
    && forall i :: 0 <= i < |l.children| ==> SameUpToNames(l.children[i], r.children[i])
  }

  /** No childless node carries the digest of a directory's contents. */
  ghost predicate LeavesApart(sha: Digest, n: Node, inputs: set<string>)
    decreases n
  {
    if n.children == [] then forall x :: x in inputs ==> n.hash != sha(x)
    else forall i :: 0 <= i < |n.children| ==> LeavesApart(sha, n.children[i], inputs)
  }

  /** A tree whose hashes tell as much as hashes can: all of one positive length,
      directories hashed from their children without collisions, and leaves told
      apart from directories. */
  ghost predicate Telling(sha: Digest, n: Node, length: nat, inputs: set<string>) {
    length > 0 && Built(sha, n) && HashLength(n, length) && Hashed(n) <= inputs && LeavesApart(sha, n, inputs)
  }

  lemma TellingChild(sha: Digest, n: Node, length: nat, inputs: set<string>, i: nat)
    requires Telling(sha, n, length, inputs) && i < |n.children|
    ensures Telling(sha, n.children[i], length, inputs)
  {
    HashedChild(n.children, i);
  }

  lemma {:induction false} ConcatSize(cs: seq<Node>, length: nat)
    requires forall i :: 0 <= i < |cs| ==> |cs[i].hash| == length
    ensures |ConcatHashes(cs)| == |cs| * length
  {
    if cs != [] {
      var k := |cs| - 1;
      ConcatSize(cs[..k], length);
      assert |cs| * length == k * length + length;
    }
  }

  /** Directories with equal hashes have equally many children of equal hashes. */
  lemma ChildrenAgree(sha: Digest, l: Node, r: Node, length: nat, inputs: set<string>)
    requires Telling(sha, l, length, inputs) && Telling(sha, r, length, inputs) && CollisionFree(sha, inputs)
    requires l.hash == r.hash && l.children != [] && r.children != []
    ensures |l.children| == |r.children| && forall i :: 0 <= i < |l.children| ==>
      l.children[i].hash == r.children[i].hash
  {
    forall i | 0 <= i < |l.children|
      ensures |l.children[i].hash| == length
    {
      assert HashLength(l.children[i], length);
    }
    forall i | 0 <= i < |r.children|
      ensures |r.children[i].hash| == length
    {
      assert HashLength(r.children[i], length);
    }
    assert ConcatHashes(l.children) in Hashed(l) && ConcatHashes(r.children) in Hashed(r);
    ConcatSize(l.children, length);
    ConcatSize(r.children, length);
    SameCount(|l.children|, |r.children|, length);
    ConcatDetermines(l.children, r.children, length);
  }

  lemma SameCount(a: nat, b: nat, length: nat)
    requires a * length == b * length && length > 0
    ensures a == b
  {}

  /** Without collisions equal hashes mean equal trees up to names: what skipping
      by hash cannot see is names alone. */
  lemma {:induction false} HashesMeanTrees(sha: Digest, l: Node, r: Node, length: nat, inputs: set<string>)
    requires Telling(sha, l, length, inputs) && Telling(sha, r, length, inputs) && CollisionFree(sha, inputs)
    ensures l.hash == r.hash <==> SameUpToNames(l, r)
    decreases l
  {
    if l.children == [] && r.children == [] {
    } else if l.children == [] {
      DirectoryApart(sha, r, l, length, inputs);
    } else if r.children == [] {
      DirectoryApart(sha, l, r, length, inputs);
    } else if l.hash == r.hash {
      ChildrenAgree(sha, l, r, length, inputs);
      forall i | 0 <= i < |l.children| ensures SameUpToNames(l.children[i], r.children[i]) {
        TellingChild(sha, l, length, inputs, i);
        TellingChild(sha, r, length, inputs, i);
        HashesMeanTrees(sha, l.children[i], r.children[i], length, inputs);
      }
    }
  }

  lemma DirectoryApart(sha: Digest, d: Node, leaf: Node, length: nat, inputs: set<string>)
    requires Telling(sha, d, length, inputs) && Telling(sha, leaf, length, inputs)
    requires d.children != [] && leaf.children == []
    ensures d.hash != leaf.hash
  {
    assert ConcatHashes(d.children) in Hashed(d);
  }

  // --- What the comparison reports ------------------------------------------------------------

  /** Childless directories have equal hashes. */
  ghost predicate EmptyDirsAgree(l: Node, r: Node)
    requires SameShape(l, r)
    decreases l
  {
    if l.children == [] then l.isFile || l.hash == r.hash
    else forall i :: 0 <= i < |l.children| ==> EmptyDirsAgree(l.children[i], r.children[i])
  }

  /** The comparison reports exactly the leaves that differ, as modified. */
  lemma {:induction false} ReportsExactly(sha: Digest, l: Node, r: Node, length: nat, item: Item)
    requires Comparable(sha, l, r, length) && WellFormed(l) && WellFormed(r) && EmptyDirsAgree(l, r)
    ensures item in DiffReport(l, r) <==> item.Modified? && LeafDiffers(l, r, item.path)
    decreases l
  {
    RootHashIff(sha, l, r, length);
    if l.hash != r.hash && !l.isFile {
      ItemsByChild(l, r, item);
      forall i | 0 <= i < |l.children|
        ensures item in PartAt(l, r, l.children[i].path) <==>
          item.Modified? && LeafDiffers(l.children[i], r.children[i], item.path)
      {
        ChildReports(sha, l, r, length, i, item);
      }
      if path :| item in PartAt(l, r, path) { PartHasChild(l, r, path, item); }
    }
  }

  lemma {:induction false} ChildReports(sha: Digest, l: Node, r: Node, length: nat, i: nat, item: Item)
    requires Comparable(sha, l, r, length) && WellFormed(l) && WellFormed(r) && EmptyDirsAgree(l, r)
    requires i < |l.children|
    ensures item in PartAt(l, r, l.children[i].path) <==>
      item.Modified? && LeafDiffers(l.children[i], r.children[i], item.path)
    decreases l, 0
  {
    LastChildHere(l.children, i);
    LastChildHere(r.children, i);
    ComparableChild(sha, l, r, length, i);
    ReportsExactly(sha, l.children[i], r.children[i], length, item);
  }

  lemma PartHasChild(l: Node, r: Node, path: string, item: Item)
    requires SameShape(l, r) && item in PartAt(l, r, path)
    ensures exists i :: 0 <= i < |l.children| && l.children[i].path == path
  {
    if LastChild(l.children, path).Some? {
      var i :| 0 <= i < |l.children| && l.children[i] == LastChild(l.children, path).value;
    }
  }

  // --- Trees built over the same paths -----------------------------------------------------------

  predicate SameKind(f: FileInfo, g: FileInfo) { f.path == g.path && f.isFile == g.isFile }

  lemma RelatedSnoc(a: seq<FileInfo>, b: seq<FileInfo>, f: FileInfo, g: FileInfo)
    requires Related(SameKind, a, b) && SameKind(f, g)
    ensures Related(SameKind, a + [f], b + [g])
  {}

  lemma {:induction false} FilterRelated(p: FileInfo -> bool, a: seq<FileInfo>, b: seq<FileInfo>)
    requires Related(SameKind, a, b)
    requires forall f, g :: SameKind(f, g) ==> p(f) == p(g)
    ensures Related(SameKind, Filter(p, a), Filter(p, b))
  {
    if a != [] {
      var k := |a| - 1;
      FilterRelated(p, a[..k], b[..k]);
      assert SameKind(a[k], b[k]);
      if p(a[k]) { RelatedSnoc(Filter(p, a[..k]), Filter(p, b[..k]), a[k], b[k]); }
    }
  }

  lemma {:induction false} NamesSame(dirOf: Grouping, prefix: string, a: seq<FileInfo>, b: seq<FileInfo>)
    requires Related(SameKind, a, b)
    ensures Names(dirOf, prefix, a) == Names(dirOf, prefix, b)
  {
    if a != [] {
      NamesSame(dirOf, prefix, a[..|a| - 1], b[..|b| - 1]);
      assert SameKind(a[|a| - 1], b[|b| - 1]);
    }
  }

  lemma ShapesRespectPaths()
    ensures Respects(SameShape, ByKey(NodePath), ByKey(NodePath))
  {
    forall a, b, c, d | SameShape(a, c) && SameShape(b, d) ensures ByKey(NodePath)(a, b) == ByKey(NodePath)(c, d) {
      assert NodePath(a) == NodePath(c) && NodePath(b) == NodePath(d);
    }
  }

  lemma {:induction false} ShapesSort(a: seq<Node>, b: seq<Node>, a': seq<Node>, b': seq<Node>)
    requires Related(SameShape, a, b) && Related(SameShape, a', b')
    ensures Related(SameShape, Sort(ByKey(NodePath), a + a'), Sort(ByKey(NodePath), b + b'))
  {
    ShapesRespectPaths();
    RelatedAppend(SameShape, a, b, a', b');
    SortRelated(SameShape, ByKey(NodePath), ByKey(NodePath), a + a', b + b');
  }

  lemma RelatedAppend<T>(rel: (T, T) -> bool, a: seq<T>, b: seq<T>, a': seq<T>, b': seq<T>)
    requires Related(rel, a, b) && Related(rel, a', b')
    ensures Related(rel, a + a', b + b')
  {}

  lemma DirectoriesSameShape(sha: Digest, path: string, a: seq<Node>, b: seq<Node>)
    requires Related(SameShape, a, b)
    ensures SameShape(Directory(sha, path, a), Directory(sha, path, b))
  {}

  lemma LeavesRelated(sha: Digest, a: seq<FileInfo>, b: seq<FileInfo>)
    requires Related(SameKind, a, b)
    ensures Related(SameShape, Leaves(sha, a), Leaves(sha, b))
  {
    forall i | 0 <= i < |a| ensures SameShape(Leaves(sha, a)[i], Leaves(sha, b)[i]) {
      assert SameKind(a[i], b[i]);
    }
  }

  lemma NamesGrouped(dirOf: Grouping, prefix: string, a: seq<FileInfo>, b: seq<FileInfo>)
    requires Related(SameKind, a, b)
    ensures var names := Sort(StringLe, SubdirNames(dirOf, prefix, a));
      && names == Sort(StringLe, SubdirNames(dirOf, prefix, b))
      && forall n :: n in names ==> Group(dirOf, prefix, a, n) != [] && Group(dirOf, prefix, b, n) != []
  {
    NamesSame(dirOf, prefix, a, b);
    assert SubdirNames(dirOf, prefix, a) == SubdirNames(dirOf, prefix, b);
  }

  lemma {:induction false} TreesSameShape(dirOf: Grouping, sha: Digest, prefix: string, a: seq<FileInfo>,
                                          b: seq<FileInfo>)
    requires Related(SameKind, a, b)
    ensures SameShape(Tree(dirOf, sha, prefix, a), Tree(dirOf, sha, prefix, b))
    decreases Depth(prefix, a), 1, 0
  {
    var names := Sort(StringLe, SubdirNames(dirOf, prefix, a));
    NamesGrouped(dirOf, prefix, a, b);
    FilterRelated(IsDirect(dirOf, prefix), a, b);
    LeavesRelated(sha, Directs(dirOf, prefix, a), Directs(dirOf, prefix, b));
    SubtreesSameShape(dirOf, sha, prefix, a, b, names);
    var la, lb := Leaves(sha, Directs(dirOf, prefix, a)), Leaves(sha, Directs(dirOf, prefix, b));
    var ta, tb := Subtrees(dirOf, sha, prefix, a, names), Subtrees(dirOf, sha, prefix, b, names);
    ShapesSort(la, lb, ta, tb);
    DirectoriesSameShape(sha, prefix, Sort(ByKey(NodePath), la + ta), Sort(ByKey(NodePath), lb + tb));
    TreeIs(dirOf, sha, prefix, a, names);
    TreeIs(dirOf, sha, prefix, b, names);
  }

  lemma TreeIs(dirOf: Grouping, sha: Digest, prefix: string, files: seq<FileInfo>, names: seq<string>)
    requires names == Sort(StringLe, SubdirNames(dirOf, prefix, files))
    ensures Tree(dirOf, sha, prefix, files) == Directory(sha, prefix,
      Sort(ByKey(NodePath), Leaves(sha, Directs(dirOf, prefix, files)) + Subtrees(dirOf, sha, prefix, files, names)))
  {}

  lemma {:induction false} SubtreesSameShape(dirOf: Grouping, sha: Digest, prefix: string, a: seq<FileInfo>,
                                             b: seq<FileInfo>,
                                             names: seq<string>)
    requires Related(SameKind, a, b)
    requires forall n :: n in names ==> Group(dirOf, prefix, a, n) != [] && Group(dirOf, prefix, b, n) != []
    ensures Related(SameShape, Subtrees(dirOf, sha, prefix, a, names), Subtrees(dirOf, sha, prefix, b, names))
    decreases Depth(prefix, a), 0, |names|
  {
    if names != [] {
      var k := |names| - 1;
      SubtreesSameShape(dirOf, sha, prefix, a, b, names[..k]);
      GroupSmaller(dirOf, prefix, a, names[k]);
      FilterRelated(IsInside(dirOf, prefix, names[k]), a, b);
      TreesSameShape(dirOf, sha, names[k], Group(dirOf, prefix, a, names[k]), Group(dirOf, prefix, b, names[k]));
    }
  }

  // --- Lists over the same paths ----------------------------------------------------------------------

  ghost predicate Lists(files: seq<FileInfo>, path: string, isFile: bool) {
    exists i :: 0 <= i < |files| && files[i].path == path && files[i].isFile == isFile
  }

  /** Two lists over the same paths: only contents may differ. */
  ghost predicate SamePaths(a: seq<FileInfo>, b: seq<FileInfo>) {
    forall path, isFile :: Lists(a, path, isFile) == Lists(b, path, isFile)
  }

  lemma SortLists(files: seq<FileInfo>, path: string, isFile: bool)
    ensures Lists(Sort(ByKey(FilePath), files), path, isFile) == Lists(files, path, isFile)
  {
    var sorted := Sort(ByKey(FilePath), files);
    if i :| 0 <= i < |sorted| && sorted[i].path == path && sorted[i].isFile == isFile {
      SortKeeps(ByKey(FilePath), files, sorted[i]);
    }
    if i :| 0 <= i < |files| && files[i].path == path && files[i].isFile == isFile {
      SortKeeps(ByKey(FilePath), files, files[i]);
    }
  }

  lemma {:induction false} PathsOfSorted(files: seq<FileInfo>)
    requires DistinctKeys(FilePath, files)
    ensures var paths := Map(FilePath, Sort(ByKey(FilePath), files)); Sorted(StringLe, paths) && Distinct(paths)
  {
    ByKeyTotal(FilePath);
    SortSorts(ByKey(FilePath), files);
    SortDistinctKeys(ByKey(FilePath), FilePath, files);
    var sorted := Sort(ByKey(FilePath), files);
    forall i, j | 0 <= i < j < |sorted| ensures StringLe(FilePath(sorted[i]), FilePath(sorted[j])) {
      assert ByKey(FilePath)(sorted[i], sorted[j]);
    }
    forall i, j | 0 <= i < j < |sorted| ensures FilePath(sorted[i]) != FilePath(sorted[j]) {
      KeyApart(FilePath, sorted, i, j);
    }
  }

  lemma MappedPaths(a: seq<FileInfo>, b: seq<FileInfo>, path: string)
    requires SamePaths(a, b) && path in Map(FilePath, a)
    ensures path in Map(FilePath, b)
  {
    var i :| 0 <= i < |a| && Map(FilePath, a)[i] == path;
    assert FilePath(a[i]) == path && Lists(a, path, a[i].isFile);
    var j :| 0 <= j < |b| && b[j].path == path && b[j].isFile == a[i].isFile;
    assert FilePath(b[j]) == path && Map(FilePath, b)[j] == path;
  }

  lemma SamePathLists(a: seq<FileInfo>, b: seq<FileInfo>)
    requires SamePaths(a, b)
    requires Sorted(StringLe, Map(FilePath, a)) && Distinct(Map(FilePath, a))
    requires Sorted(StringLe, Map(FilePath, b)) && Distinct(Map(FilePath, b))
    ensures Map(FilePath, a) == Map(FilePath, b)
  {
    var p, q := Map(FilePath, a), Map(FilePath, b);
    forall path ensures path in p <==> path in q {
      if path in p { MappedPaths(a, b, path); }
      if path in q { MappedPaths(b, a, path); }
    }
    SameSet(p, q);
    StringLeTotal();
    forall x, y | x in p && y in p && StringLe(x, y) && StringLe(y, x) ensures x == y { StringTotal(x, y); }
    SortedUnique(StringLe, p, q);
  }

  lemma KindsAlign(a: seq<FileInfo>, b: seq<FileInfo>, i: nat)
    requires SamePaths(a, b) && Map(FilePath, a) == Map(FilePath, b) && Distinct(Map(FilePath, b)) && i < |a|
    ensures |a| == |b| && SameKind(a[i], b[i])
  {
    assert |a| == |Map(FilePath, a)| == |Map(FilePath, b)| == |b|;
    assert FilePath(a[i]) == Map(FilePath, a)[i] == Map(FilePath, b)[i] == FilePath(b[i]);
    assert Lists(a, a[i].path, a[i].isFile);
    var j :| 0 <= j < |b| && b[j].path == a[i].path && b[j].isFile == a[i].isFile;
    assert FilePath(b[j]) == Map(FilePath, b)[j];
  }

  /** Sorted lists over the same paths line up. */
  lemma {:induction false} SortedAligned(a: seq<FileInfo>, b: seq<FileInfo>)
    requires DistinctKeys(FilePath, a) && DistinctKeys(FilePath, b) && SamePaths(a, b)
    ensures Related(SameKind, Sort(ByKey(FilePath), a), Sort(ByKey(FilePath), b))
  {
    var sa, sb := Sort(ByKey(FilePath), a), Sort(ByKey(FilePath), b);
    forall path, isFile ensures Lists(sa, path, isFile) == Lists(sb, path, isFile) {
      SortLists(a, path, isFile);
      SortLists(b, path, isFile);
    }
    PathsOfSorted(a); PathsOfSorted(b);
    SamePathLists(sa, sb);
    assert |sa| == |Map(FilePath, sa)| == |sb|;
    forall i | 0 <= i < |sa| ensures SameKind(sa[i], sb[i]) { KindsAlign(sa, sb, i); }
  }

  // --- From leaves back to the input ----------------------------------------------------------------

  lemma {:induction false} LeafCount(l: Node, r: Node)
    requires SameShape(l, r)
    ensures |LeafList(l)| == |LeafList(r)|
    decreases l
  {
    if l.children != [] { LeafCounts(l.children, r.children); }
  }

  lemma {:induction false} LeafCounts(a: seq<Node>, b: seq<Node>)
    requires |a| == |b| && forall i :: 0 <= i < |a| ==> SameShape(a[i], b[i])
    ensures |LeafLists(a)| == |LeafLists(b)|
    decreases a
  {
    if a != [] {
      LeafCounts(a[..|a| - 1], b[..|b| - 1]);
      LeafCount(a[|a| - 1], b[|b| - 1]);
    }
  }

  /** Some leaf in the lists differs in its hash, at the same position. */
  ghost predicate ListsDiffer(a: seq<Node>, b: seq<Node>, path: string) {
    exists i :: 0 <= i < |a| && i < |b| && a[i].path == path == b[i].path && a[i].hash != b[i].hash
  }

  lemma ListsDifferAppend(a: seq<Node>, b: seq<Node>, c: seq<Node>, d: seq<Node>, path: string)
    requires |a| == |b| && |c| == |d|
    ensures ListsDiffer(a + c, b + d, path) <==> ListsDiffer(a, b, path) || ListsDiffer(c, d, path)
  {
    if i :| 0 <= i < |a| && a[i].path == path == b[i].path && a[i].hash != b[i].hash {
      assert (a + c)[i] == a[i] && (b + d)[i] == b[i];
    }
    if i :| 0 <= i < |c| && c[i].path == path == d[i].path && c[i].hash != d[i].hash {
      assert (a + c)[|a| + i] == c[i] && (b + d)[|a| + i] == d[i];
    }
    if i :| 0 <= i < |a + c| && (a + c)[i].path == path == (b + d)[i].path && (a + c)[i].hash != (b + d)[i].hash {
      if i >= |a| { assert c[i - |a|] == (a + c)[i] && d[i - |a|] == (b + d)[i]; }
    }
  }

  lemma {:induction false} DiffersIffListed(l: Node, r: Node, path: string)
    requires SameShape(l, r)
    ensures LeafDiffers(l, r, path) <==> ListsDiffer(LeafList(l), LeafList(r), path)
    decreases l
  {
    if l.children == [] {
      assert [l][0] == l && [r][0] == r;
    } else {
      DiffersAmong(l.children, r.children, path);
    }
  }

  lemma {:induction false} DiffersAmong(a: seq<Node>, b: seq<Node>, path: string)
    requires |a| == |b| && forall i :: 0 <= i < |a| ==> SameShape(a[i], b[i])
    ensures (exists i :: 0 <= i < |a| && LeafDiffers(a[i], b[i], path)) <==>
      ListsDiffer(LeafLists(a), LeafLists(b), path)
    decreases a
  {
    if a != [] {
      var k := |a| - 1;
      DiffersAmong(a[..k], b[..k], path);
      DiffersIffListed(a[k], b[k], path);
      LeafCounts(a[..k], b[..k]);
      LeafCount(a[k], b[k]);
      ListsDifferAppend(LeafLists(a[..k]), LeafLists(b[..k]), LeafList(a[k]), LeafList(b[k]), path);
      if i :| 0 <= i < |a| && LeafDiffers(a[i], b[i], path) {
        assert i < k ==> LeafDiffers(a[..k][i], b[..k][i], path);
      }
      if i :| 0 <= i < k && LeafDiffers(a[..k][i], b[..k][i], path) {
        assert LeafDiffers(a[i], b[i], path);
      }
    }
  }

  lemma {:induction false} LeafPathsAlign(l: Node, r: Node)
    requires SameShape(l, r)
    ensures |LeafList(l)| == |LeafList(r)| && forall i :: 0 <= i < |LeafList(l)| ==>
      LeafList(l)[i].path == LeafList(r)[i].path
    decreases l
  {
    if l.children != [] { LeafPathsAmong(l.children, r.children); }
  }

  lemma {:induction false} LeafPathsAmong(a: seq<Node>, b: seq<Node>)
    requires |a| == |b| && forall i :: 0 <= i < |a| ==> SameShape(a[i], b[i])
    ensures |LeafLists(a)| == |LeafLists(b)| && forall i :: 0 <= i < |LeafLists(a)| ==>
      LeafLists(a)[i].path == LeafLists(b)[i].path
    decreases a
  {
    if a != [] {
      LeafPathsAmong(a[..|a| - 1], b[..|b| - 1]);
      LeafPathsAlign(a[|a| - 1], b[|b| - 1]);
    }
  }

  /** What holds of every leaf below a node holds below each child. */
  lemma {:induction false} ChildLeaves(cs: seq<Node>, i: nat, leaf: Node)
    requires i < |cs| && leaf in LeafList(cs[i])
    ensures leaf in LeafLists(cs)
  {
    if i < |cs| - 1 { ChildLeaves(cs[..|cs| - 1], i, leaf); }
  }

  ghost predicate FixedLength(sha: Digest, length: nat) {
    forall s :: |sha(s)| == length
  }

  lemma {:induction false} BuiltLength(sha: Digest, n: Node, length: nat)
    requires Built(sha, n) && FixedLength(sha, length)
    requires forall leaf :: leaf in LeafList(n) ==> |leaf.hash| == length
    ensures HashLength(n, length)
    decreases n
  {
    if n.children == [] {
      assert n in LeafList(n);
    } else {
      forall i | 0 <= i < |n.children| ensures HashLength(n.children[i], length) {
        forall leaf | leaf in LeafList(n.children[i]) ensures leaf in LeafList(n) { ChildLeaves(n.children, i, leaf); }
        BuiltLength(sha, n.children[i], length);
      }
    }
  }

  /** Childless directories are hashed by their paths alone. */
  ghost predicate EmptyDirsByPath(sha: Digest, n: Node) {
    forall leaf :: leaf in LeafList(n) ==> leaf.isFile || leaf.hash == sha(leaf.path)
  }

  lemma {:induction false} EmptyDirsMatch(sha: Digest, l: Node, r: Node)
    requires SameShape(l, r) && EmptyDirsByPath(sha, l) && EmptyDirsByPath(sha, r)
    ensures EmptyDirsAgree(l, r)
    decreases l
  {
    if l.children == [] {
      assert l in LeafList(l) && r in LeafList(r);
    } else {
      forall i | 0 <= i < |l.children| ensures EmptyDirsAgree(l.children[i], r.children[i]) {
        forall leaf | leaf in LeafList(l.children[i]) ensures leaf in LeafList(l) { ChildLeaves(l.children, i, leaf); }
        forall leaf | leaf in LeafList(r.children[i]) ensures leaf in LeafList(r) { ChildLeaves(r.children, i, leaf); }
        EmptyDirsMatch(sha, l.children[i], r.children[i]);
      }
    }
  }

  // --- Main result ------------------------------------------------------------------------------------

  /** A list of paths the builder indexes, with file hashes of one length. */
  ghost predicate Indexable(files: seq<FileInfo>, length: nat) {
    files != [] && AllRelative(files) && AncestorFree(files) && forall f :: f in files && f.isFile ==>
      |f.hash| == length
  }

  lemma LeafIsEntry(sha: Digest, files: seq<FileInfo>, leaf: Node) returns (f: FileInfo)
    requires AllRelative(files) && files != [] && leaf in LeafList(TreeOf(sha, files))
    ensures f in files && leaf == LeafOf(sha, f)
  {
    BuildFaithful(sha, files);
    SameElements(LeafList(TreeOf(sha, files)), Leaves(sha, files), leaf);
    var i :| 0 <= i < |files| && Leaves(sha, files)[i] == leaf;
    f := files[i];
  }

  lemma EntryIsLeaf(sha: Digest, files: seq<FileInfo>, f: FileInfo)
    requires AllRelative(files) && f in files
    ensures LeafOf(sha, f) in LeafList(TreeOf(sha, files))
  {
    BuildFaithful(sha, files);
    var i :| 0 <= i < |files| && files[i] == f;
    assert Leaves(sha, files)[i] == LeafOf(sha, f);
    SameElements(LeafList(TreeOf(sha, files)), Leaves(sha, files), LeafOf(sha, f));
  }

  lemma LeavesDistinct(sha: Digest, files: seq<FileInfo>)
    requires AllRelative(files) && files != [] && DistinctKeys(FilePath, files)
    ensures DistinctKeys(NodePath, LeafList(TreeOf(sha, files)))
  {
    BuildFaithful(sha, files);
    var leaves := Leaves(sha, files);
    forall i, j | 0 <= i < j < |leaves| ensures KeysApart(NodePath, leaves, i, j) { KeyApart(FilePath, files, i, j); }
    DistinctKeysPermuted(NodePath, leaves, LeafList(TreeOf(sha, files)));
  }

  /** Leaves have hashes of one length, childless directories those of their paths. */
  ghost predicate LeavesHashed(sha: Digest, n: Node, length: nat) {
    forall leaf :: leaf in LeafList(n) ==> |leaf.hash| == length && (leaf.isFile || leaf.hash == sha(leaf.path))
  }

  lemma TreeLeavesHashed(sha: Digest, files: seq<FileInfo>, length: nat)
    requires Indexable(files, length) && FixedLength(sha, length)
    ensures LeavesHashed(sha, TreeOf(sha, files), length)
  {
    var n := TreeOf(sha, files);
    forall leaf | leaf in LeafList(n) ensures |leaf.hash| == length && (leaf.isFile || leaf.hash == sha(leaf.path)) {
      var f := LeafIsEntry(sha, files, leaf);
    }
  }

  lemma BuiltSameShape(sha: Digest, a: seq<FileInfo>, b: seq<FileInfo>)
    requires AllRelative(a) && AllRelative(b) && DistinctKeys(FilePath, a) && DistinctKeys(FilePath, b)
      && SamePaths(a, b)
    ensures SameShape(TreeOf(sha, a), TreeOf(sha, b))
  {
    SortedAligned(a, b);
    TreesSameShape(DirOf, sha, "", Sort(ByKey(FilePath), a), Sort(ByKey(FilePath), b));
  }

  lemma HashedComparable(sha: Digest, l: Node, r: Node, length: nat)
    requires SameShape(l, r) && Built(sha, l) && Built(sha, r) && FixedLength(sha, length)
    requires LeavesHashed(sha, l, length) && LeavesHashed(sha, r, length)
    requires CollisionFree(sha, Hashed(l) + Hashed(r))
    ensures Comparable(sha, l, r, length) && EmptyDirsAgree(l, r)
  {
    BuiltLength(sha, l, length); BuiltLength(sha, r, length);
    EmptyDirsMatch(sha, l, r);
  }

  /** Some file at a path has different hashes in the two lists. */
  ghost predicate FileDiffers(a: seq<FileInfo>, b: seq<FileInfo>, path: string) {
    exists f, g :: f in a && g in b && f.path == path == g.path && f.isFile && g.isFile && f.hash != g.hash
  }

  lemma KindsAgree(a: seq<FileInfo>, b: seq<FileInfo>, f: FileInfo, g: FileInfo)
    requires SamePaths(a, b) && DistinctKeys(FilePath, b) && f in a && g in b && f.path == g.path
    ensures f.isFile == g.isFile
  {
    var i :| 0 <= i < |a| && a[i] == f;
    assert Lists(a, f.path, f.isFile);
    var j :| 0 <= j < |b| && b[j].path == f.path && b[j].isFile == f.isFile;
    var k :| 0 <= k < |b| && b[k] == g;
    SameKeyAt(FilePath, b, j, k);
  }

  lemma DiffersIffFile(sha: Digest, a: seq<FileInfo>, b: seq<FileInfo>, length: nat, path: string)
    requires Indexable(a, length) && Indexable(b, length) && SamePaths(a, b)
    requires SameShape(TreeOf(sha, a), TreeOf(sha, b))
    ensures LeafDiffers(TreeOf(sha, a), TreeOf(sha, b), path) <==> FileDiffers(a, b, path)
  {
    var l, r := TreeOf(sha, a), TreeOf(sha, b);
    var p, q := LeafList(l), LeafList(r);
    DiffersIffListed(l, r, path);
    LeafPathsAlign(l, r);
    if i :| 0 <= i < |p| && i < |q| && p[i].path == path == q[i].path && p[i].hash != q[i].hash {
      var f := LeafIsEntry(sha, a, p[i]);
      var g := LeafIsEntry(sha, b, q[i]);
      KindsAgree(a, b, f, g);
      assert FileDiffers(a, b, path);
    }
    if f, g :| f in a && g in b && f.path == path == g.path && f.isFile && g.isFile && f.hash != g.hash {
      FileIsListed(sha, a, b, f, g, p, q);
    }
  }

  lemma FileIsListed(sha: Digest, a: seq<FileInfo>, b: seq<FileInfo>, f: FileInfo, g: FileInfo, p: seq<Node>,
                     q: seq<Node>)
    requires AllRelative(a) && AllRelative(b) && f in a && g in b && DistinctKeys(FilePath, b)
    requires f.path == g.path && f.isFile && g.isFile && f.hash != g.hash
    requires p == LeafList(TreeOf(sha, a)) && q == LeafList(TreeOf(sha, b))
    requires |p| == |q| && forall i :: 0 <= i < |p| ==> p[i].path == q[i].path
    ensures ListsDiffer(p, q, f.path)
  {
    EntryIsLeaf(sha, a, f); EntryIsLeaf(sha, b, g);
    var i :| 0 <= i < |p| && p[i] == LeafOf(sha, f);
    var j :| 0 <= j < |q| && q[j] == LeafOf(sha, g);
    LeavesDistinct(sha, b);
    SameKeyAt(NodePath, q, i, j);
  }

  lemma {:induction false} ReportsFile(sha: Digest, a: seq<FileInfo>, b: seq<FileInfo>, l: Node, r: Node, length: nat,
                                       item: Item)
    requires Comparable(sha, l, r, length) && WellFormed(l) && WellFormed(r) && EmptyDirsAgree(l, r)
    requires LeafDiffers(l, r, item.path) <==> FileDiffers(a, b, item.path)
    ensures item in DiffReport(l, r) <==> item.Modified? && FileDiffers(a, b, item.path)
  {
    ReportsExactly(sha, l, r, length, item);
  }

  lemma AllPaths(a: seq<FileInfo>, b: seq<FileInfo>, l: Node, r: Node)
    requires SameShape(l, r) && forall path :: LeafDiffers(l, r, path) <==> FileDiffers(a, b, path)
    ensures (forall path :: !LeafDiffers(l, r, path)) <==> (forall path :: !FileDiffers(a, b, path))
  {
    if path :| LeafDiffers(l, r, path) { assert FileDiffers(a, b, path); }
    if path :| FileDiffers(a, b, path) { assert LeafDiffers(l, r, path); }
  }

  /** Main result: over one set of paths, with digests of one length that do not
      collide on what the two trees hash, equal roots mean equal files, and the
      comparison reports exactly the files whose hashes differ, as modified. */
  lemma SkippingLosesNothing(sha: Digest, a: seq<FileInfo>, b: seq<FileInfo>, l: Node, r: Node, length: nat)
    requires Indexable(a, length) && Indexable(b, length) && SamePaths(a, b) && FixedLength(sha, length)
    requires l == TreeOf(sha, a) && r == TreeOf(sha, b) && CollisionFree(sha, Hashed(l) + Hashed(r))
    ensures l.hash == r.hash <==> forall path :: !FileDiffers(a, b, path)
    ensures forall item :: item in DiffReport(l, r) <==> item.Modified? && FileDiffers(a, b, item.path)
  {
    BuildFaithful(sha, a); BuildFaithful(sha, b);
    BuiltSameShape(sha, a, b);
    TreeLeavesHashed(sha, a, length); TreeLeavesHashed(sha, b, length);
    HashedComparable(sha, l, r, length);
    forall path ensures LeafDiffers(l, r, path) <==> FileDiffers(a, b, path) {
      DiffersIffFile(sha, a, b, length, path);
    }
    RootHashIff(sha, l, r, length);
    AllPaths(a, b, l, r);
    forall item ensures item in DiffReport(l, r) <==> item.Modified? && FileDiffers(a, b, item.path) {
      ReportsFile(sha, a, b, l, r, length, item);
    }
  }
}
