/** Building a Merkle tree from a list of paths (internal/sync/merkle.go). */
module MerkleTree {
  import opened Common
  import opened Sorting

  type Digest = string -> string

  type Int64 = x: int | -0x8000_0000_0000_0000 <= x < 0x8000_0000_0000_0000

  /** Two's complement wrap-around of 64-bit sums. */
  function Wrap(x: int): Int64 {
    (x + 0x8000_0000_0000_0000) % 0x1_0000_0000_0000_0000 - 0x8000_0000_0000_0000
  }

  datatype FileInfo = FileInfo(path: string, isFile: bool, size: Int64, modTime: Int64, hash: string)

  datatype Node = Node(hash: string, path: string, isFile: bool, size: Int64, modTime: Int64, children: seq<Node>)

  function FilePath(f: FileInfo): string { f.path }

  function NodePath(n: Node): string { n.path }

  // --- Paths -------------------------------------------------------------------------

  function IndexOf(s: string, c: char): (r: int)
    ensures -1 <= r < |s|
    ensures r == -1 <==> c !in s
    ensures r >= 0 ==> s[r] == c && c !in s[..r]
  {
    if s == "" then -1
    else if s[0] == c then 0
    else
      var r := IndexOf(s[1..], c);
      if r == -1 then -1 else
        assert s[..r + 1] == [s[0]] + s[1..][..r];
        r + 1
  }

  /** Whether a node directory holds a path: the root holds every path that does
      not start with a separator. */
  predicate Under(prefix: string, path: string) {
    if prefix == "" then !("/" <= path) else prefix + "/" <= path
  }

  function Relative(prefix: string, path: string): string
    requires Under(prefix, path)
  {
    if prefix == "" then path else path[|prefix| + 1..]
  }

  /** The child directory a path lies in; None for a direct child. */
  function DirOf(prefix: string, path: string): (r: Option<string>)
    ensures r.Some? ==> |prefix| < |r.value| < |path| && Under(r.value, path)
  {
    if !Under(prefix, path) then None else
      var relative := Relative(prefix, path);
      var idx := IndexOf(relative, '/');
      if idx == -1 then None
      else if prefix == "" then Some(relative[..idx])
      else Some(prefix + "/" + relative[..idx])
  }

  /** Each step into a child directory uses up some of the path. */
  ghost predicate Deepens(dirOf: (string, string) -> Option<string>) {
    forall prefix, path :: dirOf(prefix, path).Some? ==> |prefix| < |dirOf(prefix, path).value| < |path|
  }

  /** A way to tell which child directory a path lies in; the builder uses DirOf
      and depends on nothing else about paths. */
  type Grouping = d: (string, string) -> Option<string> | Deepens(d) witness DirOf

  predicate AllUnder(prefix: string, files: seq<FileInfo>) {
    forall i :: 0 <= i < |files| ==> Under(prefix, files[i].path)
  }

  // --- The tree as a function of the sorted list ----------------------------------------

  function IsDirect(dirOf: Grouping, prefix: string): FileInfo -> bool {
    (f: FileInfo) => dirOf(prefix, f.path) == None
  }

  function IsInside(dirOf: Grouping, prefix: string, name: string): FileInfo -> bool {
    (f: FileInfo) => dirOf(prefix, f.path) == Some(name)
  }

  function Directs(dirOf: Grouping, prefix: string, files: seq<FileInfo>): seq<FileInfo> {
    Filter(IsDirect(dirOf, prefix), files)
  }

  function Group(dirOf: Grouping, prefix: string, files: seq<FileInfo>, name: string): seq<FileInfo> {
    Filter(IsInside(dirOf, prefix, name), files)
  }

  /** Names of the child directories, in order of appearance. */
  function Names(dirOf: Grouping, prefix: string, files: seq<FileInfo>): (r: seq<string>)
    ensures Distinct(r)
  {
    if files == [] then [] else
      var before := Names(dirOf, prefix, files[..|files| - 1]);
      var dir := dirOf(prefix, files[|files| - 1].path);
      if dir.None? || dir.value in before then before else before + [dir.value]
  }

  lemma {:induction false} NamesMeaning(dirOf: Grouping, prefix: string, files: seq<FileInfo>, n: string)
    ensures n in Names(dirOf, prefix, files) <==> Group(dirOf, prefix, files, n) != []
  {
    if files != [] { NamesMeaning(dirOf, prefix, files[..|files| - 1], n); }
  }

  function Longest(files: seq<FileInfo>): nat {
    if files == [] then 0 else
      var before := Longest(files[..|files| - 1]);
      var last := |files[|files| - 1].path|;
      if last > before then last else before
  }

  lemma {:induction false} LongestAtLeast(files: seq<FileInfo>, f: FileInfo)
    requires f in files
    ensures |f.path| <= Longest(files)
  {
    var k := |files| - 1;
    if f != files[k] {
      assert files == files[..k] + [files[k]];
      LongestAtLeast(files[..k], f);
    }
  }

  lemma {:induction false} LongestSub(part: seq<FileInfo>, files: seq<FileInfo>)
    requires forall f :: f in part ==> f in files
    ensures Longest(part) <= Longest(files)
  {
    if part != [] {
      LongestSub(part[..|part| - 1], files);
      LongestAtLeast(files, part[|part| - 1]);
    }
  }

  function Depth(prefix: string, files: seq<FileInfo>): nat {
    if Longest(files) > |prefix| then Longest(files) - |prefix| else 0
  }

  lemma GroupSmaller(dirOf: Grouping, prefix: string, files: seq<FileInfo>, name: string)
    requires Group(dirOf, prefix, files, name) != []
    ensures Depth(name, Group(dirOf, prefix, files, name)) < Depth(prefix, files)
  {
    var group := Group(dirOf, prefix, files, name);
    forall f | f in group ensures f in files && dirOf(prefix, f.path) == Some(name) {
      FilterMembers(IsInside(dirOf, prefix, name), files, f);
    }
    LongestSub(group, files);
    LongestAtLeast(group, group[0]);
  }

  function LeafOf(sha: Digest, f: FileInfo): Node {
    if f.isFile then Node(f.hash, f.path, true, f.size, f.modTime, [])
    else Node(sha(f.path), f.path, false, 0, f.modTime, [])
  }

  function Leaves(sha: Digest, files: seq<FileInfo>): (r: seq<Node>)
    ensures |r| == |files|
    ensures forall i :: 0 <= i < |files| ==> r[i] == LeafOf(sha, files[i])
  {
    seq(|files|, i requires 0 <= i < |files| => LeafOf(sha, files[i]))
  }

  function ConcatHashes(children: seq<Node>): string {
    if children == [] then "" else
      ConcatHashes(children[..|children| - 1]) + children[|children| - 1].hash
  }

  /** It is the concatenation of the child hashes. */
  lemma {:induction false} HashesJoined(children: seq<Node>)
    ensures ConcatHashes(children) == Flatten(Map((n: Node) => n.hash, children))
  {
    if children != [] {
      var k := |children| - 1;
      var hashes := Map((n: Node) => n.hash, children);
      HashesJoined(children[..k]);
      assert hashes == Map((n: Node) => n.hash, children[..k]) + [children[k].hash];
      FlattenSnoc(hashes[..k], children[k].hash);
      assert hashes[..k] == Map((n: Node) => n.hash, children[..k]);
    }
  }

  function SumSizes(children: seq<Node>): int {
    if children == [] then 0 else SumSizes(children[..|children| - 1]) + children[|children| - 1].size
  }

  function Latest(children: seq<Node>): Int64 {
    if children == [] then 0 else
      var k := |children| - 1;
      var before := Latest(children[..k]);
      if children[k].modTime > before then children[k].modTime else before
  }

  function Directory(sha: Digest, path: string, children: seq<Node>): Node {
    Node(sha(ConcatHashes(children)), path, false, Wrap(SumSizes(children)), Latest(children), children)
  }

  function Tree(dirOf: Grouping, sha: Digest, prefix: string, files: seq<FileInfo>): Node
    decreases Depth(prefix, files), 1, 0
  {
    var subtrees := Subtrees(dirOf, sha, prefix, files, Sort(StringLe, SubdirNames(dirOf, prefix, files)));
    Directory(sha, prefix, Sort(ByKey(NodePath), Leaves(sha, Directs(dirOf, prefix, files)) + subtrees))
  }

  /** The directory names, in the form the recursion needs. */
  function SubdirNames(dirOf: Grouping, prefix: string, files: seq<FileInfo>): (r: seq<string>)
    ensures forall n :: n in Sort(StringLe, r) ==> Group(dirOf, prefix, files, n) != []
  {
    var names := Names(dirOf, prefix, files);
    assert forall n :: n in Sort(StringLe, names) ==> Group(dirOf, prefix, files, n) != [] by {
      forall n | n in Sort(StringLe, names) ensures Group(dirOf, prefix, files, n) != [] {
        SortKeeps(StringLe, names, n);
        NamesMeaning(dirOf, prefix, files, n);
      }
    }
    names
  }

  function Subtrees(dirOf: Grouping, sha: Digest, prefix: string, files: seq<FileInfo>,
                    names: seq<string>): (r: seq<Node>)
    requires forall n :: n in names ==> Group(dirOf, prefix, files, n) != []
    ensures |r| == |names|
    decreases Depth(prefix, files), 0, |names|
  {
    if names == [] then [] else
      var k := |names| - 1;
      GroupSmaller(dirOf, prefix, files, names[k]);
      Subtrees(dirOf, sha, prefix, files, names[..k])
        + [Tree(dirOf, sha, names[k], Group(dirOf, prefix, files, names[k]))]
  }

  // --- The builder -----------------------------------------------------------------------

  lemma StringLeTotal()
    ensures TotalOrder(StringLe)
  {
    forall a, b ensures StringLe(a, b) || StringLe(b, a) { StringTotal(a, b); }
    forall a, b, c | StringLe(a, b) && StringLe(b, c) ensures StringLe(a, c) { StringTransitive(a, b, c); }
  }

  /** However the map of groups is walked, its sorted keys are the sorted names. */
  lemma NamesCanonical(dirOf: Grouping, prefix: string, files: seq<FileInfo>, names: seq<string>)
    requires Distinct(names)
    requires forall n :: n in names <==> Group(dirOf, prefix, files, n) != []
    ensures Sort(StringLe, names) == Sort(StringLe, SubdirNames(dirOf, prefix, files))
  {
    StringLeTotal();
    forall n ensures n in names <==> n in Names(dirOf, prefix, files) { NamesMeaning(dirOf, prefix, files, n); }
    SameSet(names, Names(dirOf, prefix, files));
    forall x, y | x in names && y in names && StringLe(x, y) && StringLe(y, x) ensures x == y { StringTotal(x, y); }
    SortCanonical(StringLe, names, Names(dirOf, prefix, files));
  }

  /** The groups table holds every nonempty group. */
  ghost predicate Grouped(dirOf: Grouping, groups: map<string, seq<FileInfo>>, prefix: string, files: seq<FileInfo>) {
    forall n :: Holds(groups, n, Group(dirOf, prefix, files, n))
  }

  ghost predicate Holds(groups: map<string, seq<FileInfo>>, n: string, group: seq<FileInfo>) {
    if n in groups then groups[n] == group && group != [] else group == []
  }

  lemma DirectStep(dirOf: Grouping, groups: map<string, seq<FileInfo>>, prefix: string, files: seq<FileInfo>,
                   f: FileInfo)
    requires Grouped(dirOf, groups, prefix, files) && dirOf(prefix, f.path) == None
    ensures Grouped(dirOf, groups, prefix, files + [f])
  {
    forall n ensures Group(dirOf, prefix, files + [f], n) == Group(dirOf, prefix, files, n) {
      FilterSnoc(IsInside(dirOf, prefix, n), files, f);
    }
  }

  lemma NestedStep(dirOf: Grouping, groups: map<string, seq<FileInfo>>, prefix: string, files: seq<FileInfo>,
                   f: FileInfo, d: string)
    requires Grouped(dirOf, groups, prefix, files) && dirOf(prefix, f.path) == Some(d)
    ensures Grouped(dirOf, groups[d := (if d in groups then groups[d] else []) + [f]], prefix, files + [f])
  {
    var after := groups[d := (if d in groups then groups[d] else []) + [f]];
    forall n ensures Holds(after, n, Group(dirOf, prefix, files + [f], n)) {
      var before := Group(dirOf, prefix, files, n);
      assert Holds(groups, n, before);
      FilterSnoc(IsInside(dirOf, prefix, n), files, f);
      assert Group(dirOf, prefix, files + [f], n) == before + if n == d then [f] else [];
    }
  }

  method SplitFiles(dirOf: Grouping, prefix: string, files: seq<FileInfo>)
    returns (directChildren: seq<FileInfo>, groups: map<string, seq<FileInfo>>)
    ensures directChildren == Directs(dirOf, prefix, files)
    ensures Grouped(dirOf, groups, prefix, files)
  {
    directChildren, groups := [], map[];
    for i := 0 to |files|
      invariant directChildren == Directs(dirOf, prefix, files[..i])
      invariant Grouped(dirOf, groups, prefix, files[..i])
    {
      var f := files[i];
      assert files[..i + 1] == files[..i] + [f];
      FilterSnoc(IsDirect(dirOf, prefix), files[..i], f);
      var dir := dirOf(prefix, f.path);
      if dir.None? {
        DirectStep(dirOf, groups, prefix, files[..i], f);
        directChildren := directChildren + [f];
      } else {
        var dirName := dir.value;
        NestedStep(dirOf, groups, prefix, files[..i], f, dirName);
        groups := groups[dirName := (if dirName in groups then groups[dirName] else []) + [f]];
      }
    }
    assert files[..|files|] == files;
  }

  /** The keys of a map in some order. */
  method KeysOf<V>(m: map<string, V>) returns (names: seq<string>)
    ensures Distinct(names) && forall n :: n in names <==> n in m
  {
    names := [];
    var rest := m.Keys;
    while rest != {}
      invariant Distinct(names) && rest <= m.Keys
      invariant forall n :: n in names <==> n in m && n !in rest
    {
      var name :| name in rest;
      names := names + [name];
      rest := rest - {name};
    }
  }

  method ComputeNodeHash(sha: Digest, children: seq<Node>) returns (hash: string)
    ensures hash == sha(ConcatHashes(children))
  {
    var written := "";
    for i := 0 to |children|
      invariant written == ConcatHashes(children[..i])
    {
      assert children[..i + 1][..i] == children[..i];
      written := written + children[i].hash;
    }
    assert children[..|children|] == children;
    hash := sha(written);
  }

  lemma WrapAdds(a: int, b: int)
    ensures Wrap(Wrap(a) + b) == Wrap(a + b)
  {}

  method Totals(children: seq<Node>) returns (size: Int64, modTime: Int64)
    ensures size == Wrap(SumSizes(children)) && modTime == Latest(children)
  {
    size, modTime := 0, 0;
    for i := 0 to |children|
      invariant size == Wrap(SumSizes(children[..i])) && modTime == Latest(children[..i])
    {
      assert children[..i + 1][..i] == children[..i];
      WrapAdds(SumSizes(children[..i]), children[i].size);
      size := Wrap(size + children[i].size);
      if children[i].modTime > modTime { modTime := children[i].modTime; }
    }
    assert children[..|children|] == children;
  }

  method LeafNodes(sha: Digest, files: seq<FileInfo>) returns (leaves: seq<Node>)
    ensures leaves == Leaves(sha, files)
  {
    leaves := [];
    for i := 0 to |files|
      invariant leaves == Leaves(sha, files)[..i]
    {
      leaves := leaves + [LeafOf(sha, files[i])];
    }
  }

  lemma SubtreesSnoc(dirOf: Grouping, sha: Digest, prefix: string, files: seq<FileInfo>, names: seq<string>,
                     name: string)
    requires Group(dirOf, prefix, files, name) != []
    requires forall n :: n in names ==> Group(dirOf, prefix, files, n) != []
    ensures Subtrees(dirOf, sha, prefix, files, names + [name])
            == Subtrees(dirOf, sha, prefix, files, names) + [Tree(dirOf, sha, name, Group(dirOf, prefix, files, name))]
  {
    assert (names + [name])[..|names|] == names;
  }

  /** A node is the tree of a group. */
  ghost predicate IsSubtree(dirOf: Grouping, sha: Digest, prefix: string, files: seq<FileInfo>, name: string,
                            node: Node)
  {
    Group(dirOf, prefix, files, name) != [] && node == Tree(dirOf, sha, name, Group(dirOf, prefix, files, name))
  }

  lemma NextSubtree(dirOf: Grouping, sha: Digest, prefix: string, files: seq<FileInfo>, names: seq<string>,
                    nodes: seq<Node>, name: string, node: Node)
    requires forall n :: n in names ==> Group(dirOf, prefix, files, n) != []
    requires nodes == Subtrees(dirOf, sha, prefix, files, names) && IsSubtree(dirOf, sha, prefix, files, name, node)
    ensures forall n :: n in names + [name] ==> Group(dirOf, prefix, files, n) != []
    ensures nodes + [node] == Subtrees(dirOf, sha, prefix, files, names + [name])
  {
    SubtreesSnoc(dirOf, sha, prefix, files, names, name);
  }

  lemma {:induction false} SubtreesAre(dirOf: Grouping, sha: Digest, prefix: string, files: seq<FileInfo>,
                                       names: seq<string>, nodes: seq<Node>)
    requires |nodes| == |names|
    requires forall i :: 0 <= i < |names| ==> IsSubtree(dirOf, sha, prefix, files, names[i], nodes[i])
    ensures forall n :: n in names ==> Group(dirOf, prefix, files, n) != []
    ensures nodes == Subtrees(dirOf, sha, prefix, files, names)
  {
    if names != [] {
      var k := |names| - 1;
      SubtreesAre(dirOf, sha, prefix, files, names[..k], nodes[..k]);
      assert IsSubtree(dirOf, sha, prefix, files, names[k], nodes[k]);
      NextSubtree(dirOf, sha, prefix, files, names[..k], nodes[..k], names[k], nodes[k]);
      assert names == names[..k] + [names[k]] && nodes == nodes[..k] + [nodes[k]];
    }
  }

  method BuildNode(dirOf: Grouping, sha: Digest, prefix: string, files: seq<FileInfo>) returns (node: Node)
    requires files != []
    ensures node == Tree(dirOf, sha, prefix, files)
    decreases Depth(prefix, files), 1, 0
  {
    // A single file is a leaf of its parent: no group holds its own path.
    var directChildren, groups := SplitFiles(dirOf, prefix, files);
    var leaves := LeafNodes(sha, directChildren);
    var dirNames := KeysOf(groups);
    assert forall n :: Holds(groups, n, Group(dirOf, prefix, files, n));
    NamesCanonical(dirOf, prefix, files, dirNames);
    dirNames := Sort(StringLe, dirNames);
    assert forall n :: n in dirNames ==> Holds(groups, n, Group(dirOf, prefix, files, n));
    var subtrees := BuildGroups(dirOf, sha, prefix, files, groups, dirNames);
    SubtreesAre(dirOf, sha, prefix, files, dirNames, subtrees);
    var children := Sort(ByKey(NodePath), leaves + subtrees);
    var size, modTime := Totals(children);
    var hash := ComputeNodeHash(sha, children);
    node := Node(hash, prefix, false, size, modTime, children);
  }

  method BuildGroups(dirOf: Grouping, sha: Digest, ghost prefix: string, ghost files: seq<FileInfo>,
                     groups: map<string, seq<FileInfo>>, dirNames: seq<string>) returns (subtrees: seq<Node>)
    requires forall n :: n in dirNames ==> n in groups && groups[n] == Group(dirOf, prefix, files, n) != []
    ensures |subtrees| == |dirNames|
    ensures forall i :: 0 <= i < |dirNames| ==> subtrees[i] == Tree(dirOf, sha, dirNames[i], groups[dirNames[i]])
    decreases Depth(prefix, files), 0, 0
  {
    subtrees := [];
    for i := 0 to |dirNames|
      invariant |subtrees| == i
      invariant forall k :: 0 <= k < i ==> subtrees[k] == Tree(dirOf, sha, dirNames[k], groups[dirNames[k]])
    {
      GroupSmaller(dirOf, prefix, files, dirNames[i]);
      var child := BuildNode(dirOf, sha, dirNames[i], groups[dirNames[i]]);
      subtrees := subtrees + [child];
    }
  }

  ghost predicate AllRelative(files: seq<FileInfo>) {
    AllUnder("", files)
  }

  lemma SortRelative(files: seq<FileInfo>)
    requires AllRelative(files)
    ensures AllRelative(Sort(ByKey(FilePath), files))
  {
    var sorted := Sort(ByKey(FilePath), files);
    forall i | 0 <= i < |sorted| ensures Under("", sorted[i].path) {
      SortKeeps(ByKey(FilePath), files, sorted[i]);
    }
  }

  /** The tree of a list of relative paths, in whatever order they come. */
  ghost function TreeOf(sha: Digest, files: seq<FileInfo>): Node
    requires AllRelative(files)
  {
    SortRelative(files);
    Tree(DirOf, sha, "", Sort(ByKey(FilePath), files))
  }

  /** Sorts the caller's list and builds its tree; an empty list has none. */
  method Build(sha: Digest, files: array<FileInfo>) returns (root: Option<Node>)
    requires AllRelative(files[..])
    modifies files
    ensures old(files[..]) == [] ==> root == None && files[..] == []
    ensures old(files[..]) != [] ==> root == Some(TreeOf(sha, old(files[..])))
    ensures old(files[..]) != [] ==> files[..] == Sort(ByKey(FilePath), old(files[..]))
  {
    if files.Length == 0 { return None; }
    SortRelative(files[..]);
    SortInPlace(ByKey(FilePath), files);
    var node := BuildNode(DirOf, sha, "", files[..]);
    root := Some(node);
  }
}
