/** Comparing two Merkle trees. */
module MerkleDiff {
  // internal/sync/merkle.go: the comparison that skips equal hashes against the
  // path-by-path meaning of a patch.

  import opened Common
  import opened Sorting
  import opened MerkleTree
  import opened MerkleBuilt

  // --- Reports ---------------------------------------------------------------------------

  datatype Item = Added(path: string) | Modified(path: string) | Deleted(path: string)

  /** The reported items.  Their order depends on the order in which maps are
      walked, so only their number counts. */
  type Report = multiset<Item>

  const ADDED: string -> Item := p => Added(p)
  const MODIFIED: string -> Item := p => Modified(p)
  const DELETED: string -> Item := p => Deleted(p)

  ghost function Tagged(tag: string -> Item, paths: seq<string>): Report {
    multiset(Map(tag, paths))
  }

  lemma TaggedAppend(tag: string -> Item, a: seq<string>, b: seq<string>)
    ensures Tagged(tag, a + b) == Tagged(tag, a) + Tagged(tag, b)
  {
    assert Map(tag, a + b) == Map(tag, a) + Map(tag, b);
  }

  lemma TaggedOne(tag: string -> Item, path: string)
    ensures Tagged(tag, [path]) == multiset{tag(path)}
  {
    assert Map(tag, [path]) == [tag(path)];
  }

  lemma SumAssociates(a: Report, b: Report, c: Report)
    ensures a + b + c == a + (b + c)
  {}

  class DiffResult {
    var added: seq<string>
    var modified: seq<string>
    var deleted: seq<string>
    ghost var items: Report

    ghost predicate Valid()
      reads this
    {
      items == Tagged(ADDED, added) + Tagged(MODIFIED, modified) + Tagged(DELETED, deleted)
    }

    constructor ()
      ensures Valid() && items == multiset{}
    {
      added, modified, deleted, items := [], [], [], multiset{};
    }

    method Add(paths: seq<string>)
      requires Valid()
      modifies this
      ensures Valid() && items == old(items) + Tagged(ADDED, paths)
    {
      TaggedAppend(ADDED, added, paths);
      added, items := added + paths, items + Tagged(ADDED, paths);
    }

    method Modify(paths: seq<string>)
      requires Valid()
      modifies this
      ensures Valid() && items == old(items) + Tagged(MODIFIED, paths)
    {
      TaggedAppend(MODIFIED, modified, paths);
      modified, items := modified + paths, items + Tagged(MODIFIED, paths);
    }

    method Delete(paths: seq<string>)
      requires Valid()
      modifies this
      ensures Valid() && items == old(items) + Tagged(DELETED, paths)
    {
      TaggedAppend(DELETED, deleted, paths);
      deleted, items := deleted + paths, items + Tagged(DELETED, paths);
    }
  }

  // --- Listing a subtree ---------------------------------------------------------------------

  /** The paths of a subtree, parents first. */
  ghost function Paths(n: Node): seq<string>
    decreases n
  {
    [n.path] + PathsOf(n.children)
  }

  ghost function PathsOf(cs: seq<Node>): seq<string>
    decreases cs
  {
    if cs == [] then [] else PathsOf(cs[..|cs| - 1]) + Paths(cs[|cs| - 1])
  }

  method CollectPaths(node: Node) returns (paths: seq<string>)
    ensures paths == Paths(node)
    decreases node
  {
    paths := [node.path];
    for i := 0 to |node.children|
      invariant paths == [node.path] + PathsOf(node.children[..i])
    {
      assert node.children[..i + 1][..i] == node.children[..i];
      var below := CollectPaths(node.children[i]);
      paths := paths + below;
    }
    assert node.children[..|node.children|] == node.children;
  }

  /** The first node with a path, in preorder. */
  function FindNode(n: Node, path: string): (r: Option<Node>)
    ensures r.Some? ==> r.value.path == path
    decreases n
  {
    if n.path == path then Some(n) else FindAmong(n.children, path)
  }

  function FindAmong(cs: seq<Node>, path: string): (r: Option<Node>)
    ensures r.Some? ==> r.value.path == path
    decreases cs
  {
    if cs == [] then None else
      var before := FindAmong(cs[..|cs| - 1], path);
      if before.Some? then before else FindNode(cs[|cs| - 1], path)
  }

  /** A subtree lists exactly the paths that can be found in it. */
  lemma {:induction false} ListedIffFound(n: Node, path: string)
    ensures path in Paths(n) <==> FindNode(n, path).Some?
    decreases n
  {
    if n.path != path { AmongIffFound(n.children, path); }
  }

  lemma {:induction false} AmongIffFound(cs: seq<Node>, path: string)
    ensures path in PathsOf(cs) <==> FindAmong(cs, path).Some?
    decreases cs
  {
    if cs != [] {
      AmongIffFound(cs[..|cs| - 1], path);
      ListedIffFound(cs[|cs| - 1], path);
    }
  }

  // --- The comparison ---------------------------------------------------------------------------

  /** The child a map by path keeps: the last of several. */
  function LastChild(cs: seq<Node>, path: string): (r: Option<Node>)
    ensures r.Some? ==> r.value in cs && r.value.path == path
    ensures r.None? ==> forall c :: c in cs ==> c.path != path
  {
    if cs == [] then None
    else if cs[|cs| - 1].path == path then Some(cs[|cs| - 1])
    else LastChild(cs[..|cs| - 1], path)
  }

  ghost function PathSet(cs: seq<Node>): set<string> {
    set c | c in cs :: c.path
  }

  /** Adds up the parts of the children whose paths are keys, later children hiding
      earlier ones with the same path. */
  ghost function SumOver(cs: seq<Node>, parts: seq<Report>, keys: set<string>): Report
    requires |cs| == |parts|
  {
    if cs == [] then multiset{} else
      var k := |cs| - 1;
      SumOver(cs[..k], parts[..k], keys - {cs[k].path}) + if cs[k].path in keys then parts[k] else multiset{}
  }

  ghost function DiffReport(l: Node, r: Node): Report
    decreases r, 2
  {
    if l.hash == r.hash then multiset{}
    else if l.isFile && r.isFile then multiset{Modified(l.path)}
    else if l.isFile != r.isFile then multiset{Deleted(l.path)} + multiset{Added(r.path)}
    else RemoteSum(l, r, PathSet(r.children)) + LocalSum(l, r, PathSet(l.children))
  }

  /** What the remote children with the given paths contribute. */
  ghost function RemoteSum(l: Node, r: Node, keys: set<string>): Report
    decreases r, 1
  {
    SumOver(r.children, RemoteParts(l, r, |r.children|), keys)
  }

  ghost function LocalSum(l: Node, r: Node, keys: set<string>): Report {
    SumOver(l.children, LocalParts(l.children, r), keys)
  }

  ghost function RemoteParts(l: Node, r: Node, n: nat): (parts: seq<Report>)
    requires n <= |r.children|
    ensures |parts| == n
    ensures forall i :: 0 <= i < n ==> parts[i] == RemotePart(l, r.children[i])
    decreases r, 0, n
  {
    if n == 0 then [] else RemoteParts(l, r, n - 1) + [RemotePart(l, r.children[n - 1])]
  }

  /** What a remote child contributes, against the local directory. */
  ghost function RemotePart(l: Node, c: Node): Report
    decreases c, 3
  {
    match LastChild(l.children, c.path)
    case None => Tagged(ADDED, Paths(c))
    case Some(k) => DiffReport(k, c)
  }

  ghost function LocalPart(c: Node, r: Node): Report {
    if LastChild(r.children, c.path).Some? then multiset{} else Tagged(DELETED, Paths(c))
  }

  ghost function LocalParts(cs: seq<Node>, r: Node): (parts: seq<Report>)
    ensures |parts| == |cs|
    ensures forall i :: 0 <= i < |cs| ==> parts[i] == LocalPart(cs[i], r)
  {
    seq(|cs|, i requires 0 <= i < |cs| => LocalPart(cs[i], r))
  }

  /** Child i is the one kept for a path, and its part is what the path adds. */
  ghost predicate IsNext(cs: seq<Node>, parts: seq<Report>, keys: set<string>, path: string, i: nat)
    requires |cs| == |parts| && i < |cs|
  {
    && LastChild(cs, path) == Some(cs[i])
    && SumOver(cs, parts, keys + {path}) == SumOver(cs, parts, keys) + parts[i]
  }

  /** Walking the map in any order adds up the same parts. */
  lemma {:induction false} SumNext(cs: seq<Node>, parts: seq<Report>, keys: set<string>, path: string)
    requires |cs| == |parts| && path !in keys && path in PathSet(cs)
    ensures exists i :: 0 <= i < |cs| && IsNext(cs, parts, keys, path, i)
  {
    var k := |cs| - 1;
    if cs[k].path == path {
      assert keys + {path} - {path} == keys == keys - {path};
      assert IsNext(cs, parts, keys, path, k);
    } else {
      SumNext(cs[..k], parts[..k], keys - {cs[k].path}, path);
      assert keys + {path} - {cs[k].path} == keys - {cs[k].path} + {path};
      var i :| 0 <= i < k && IsNext(cs[..k], parts[..k], keys - {cs[k].path}, path, i);
      assert IsNext(cs, parts, keys, path, i);
    }
  }

  lemma {:induction false} SumNone(cs: seq<Node>, parts: seq<Report>)
    requires |cs| == |parts|
    ensures SumOver(cs, parts, {}) == multiset{}
  {
    if cs != [] {
      assert {} - {cs[|cs| - 1].path} == {};
      SumNone(cs[..|cs| - 1], parts[..|cs| - 1]);
    }
  }

  /** The map of children by path. */
  ghost predicate Indexes(m: map<string, Node>, cs: seq<Node>) {
    m.Keys == PathSet(cs) && forall p :: p in m ==> LastChild(cs, p) == Some(m[p])
  }

  method IndexChildren(cs: seq<Node>) returns (m: map<string, Node>)
    ensures Indexes(m, cs)
  {
    m := map[];
    for i := 0 to |cs|
      invariant Indexes(m, cs[..i])
    {
      assert cs[..i + 1][..i] == cs[..i] && cs[..i + 1] == cs[..i] + [cs[i]];
      m := m[cs[i].path := cs[i]];
    }
    assert cs[..|cs|] == cs;
  }

  method DiffNodes(l: Node, r: Node, result: DiffResult)
    requires result.Valid()
    modifies result
    ensures result.Valid() && result.items == old(result.items) + DiffReport(l, r)
    decreases r, 2
  {
    ghost var before := result.items;
    if l.hash == r.hash {
    } else if l.isFile && r.isFile {
      TaggedOne(MODIFIED, l.path);
      result.Modify([l.path]);
    } else if l.isFile != r.isFile {
      TaggedOne(DELETED, l.path);
      TaggedOne(ADDED, r.path);
      SumAssociates(before, multiset{Deleted(l.path)}, multiset{Added(r.path)});
      result.Delete([l.path]);
      result.Add([r.path]);
    } else {
      ghost var remote, local := RemoteSum(l, r, PathSet(r.children)), LocalSum(l, r, PathSet(l.children));
      var localChildren := IndexChildren(l.children);
      var remoteChildren := IndexChildren(r.children);
      DiffRemote(l, r, localChildren, remoteChildren, result);
      DiffLocal(l, r, localChildren, remoteChildren, result);
      SumAssociates(before, remote, local);
    }
  }

  lemma {:induction false} RemoteNext(before: Report, l: Node, r: Node, done: set<string>, path: string, c: Node)
    requires path !in done && LastChild(r.children, path) == Some(c)
    ensures before + RemoteSum(l, r, done + {path}) == before + RemoteSum(l, r, done) + RemotePart(l, c)
  {
    var parts := RemoteParts(l, r, |r.children|);
    SumNext(r.children, parts, done, path);
    var i :| 0 <= i < |r.children| && IsNext(r.children, parts, done, path, i);
    SumAssociates(before, RemoteSum(l, r, done), parts[i]);
  }

  lemma LocalNext(before: Report, l: Node, r: Node, done: set<string>, path: string, c: Node)
    requires path !in done && LastChild(l.children, path) == Some(c)
    ensures before + LocalSum(l, r, done + {path}) == before + LocalSum(l, r, done) + LocalPart(c, r)
  {
    var parts := LocalParts(l.children, r);
    SumNext(l.children, parts, done, path);
    var i :| 0 <= i < |l.children| && IsNext(l.children, parts, done, path, i);
    SumAssociates(before, LocalSum(l, r, done), parts[i]);
  }

  method DiffRemoteChild(ghost l: Node, localChildren: map<string, Node>, remoteChild: Node, result: DiffResult)
    requires Indexes(localChildren, l.children)
    requires result.Valid()
    modifies result
    ensures result.Valid() && result.items == old(result.items) + RemotePart(l, remoteChild)
    decreases remoteChild, 3
  {
    if remoteChild.path in localChildren {
      DiffNodes(localChildren[remoteChild.path], remoteChild, result);
    } else {
      var paths := CollectPaths(remoteChild);
      result.Add(paths);
    }
  }

  /** The first i of a list of paths, as a set. */
  ghost function Seen(order: seq<string>, i: nat): set<string>
    requires i <= |order|
  {
    if i == 0 then {} else Seen(order, i - 1) + {order[i - 1]}
  }

  lemma {:induction false} SeenMembers(order: seq<string>, i: nat, path: string)
    requires i <= |order|
    ensures path in Seen(order, i) <==> path in order[..i]
  {
    if i > 0 {
      SeenMembers(order, i - 1, path);
      assert order[..i] == order[..i - 1] + [order[i - 1]];
    }
  }

  lemma SeenNext(order: seq<string>, i: nat)
    requires i < |order| && Distinct(order)
    ensures order[i] !in Seen(order, i)
  {
    SeenMembers(order, i, order[i]);
  }

  lemma SeenAll(order: seq<string>, keys: set<string>)
    requires forall p :: p in order <==> p in keys
    ensures Seen(order, |order|) == keys
  {
    forall p ensures p in Seen(order, |order|) <==> p in order {
      SeenMembers(order, |order|, p);
      assert order[..|order|] == order;
    }
  }

  lemma RemoteSeen(before: Report, l: Node, r: Node, order: seq<string>, i: nat, c: Node)
    requires i < |order| && Distinct(order) && LastChild(r.children, order[i]) == Some(c)
    ensures before + RemoteSum(l, r, Seen(order, i + 1)) == before + RemoteSum(l, r, Seen(order, i)) + RemotePart(l, c)
  {
    SeenNext(order, i);
    RemoteNext(before, l, r, Seen(order, i), order[i], c);
  }

  lemma LocalSeen(before: Report, l: Node, r: Node, order: seq<string>, i: nat, c: Node)
    requires i < |order| && Distinct(order) && LastChild(l.children, order[i]) == Some(c)
    ensures before + LocalSum(l, r, Seen(order, i + 1)) == before + LocalSum(l, r, Seen(order, i)) + LocalPart(c, r)
  {
    SeenNext(order, i);
    LocalNext(before, l, r, Seen(order, i), order[i], c);
  }

  /** The report after i of the remote keys. */
  ghost predicate RemoteSoFar(items: Report, before: Report, l: Node, r: Node, order: seq<string>, i: nat)
    requires i <= |order|
  {
    items == before + RemoteSum(l, r, Seen(order, i))
  }

  method DiffRemoteAt(ghost before: Report, ghost l: Node, ghost r: Node, localChildren: map<string, Node>,
                      remoteChildren: map<string, Node>, order: seq<string>, i: nat, result: DiffResult)
    requires Indexes(localChildren, l.children) && Indexes(remoteChildren, r.children)
    requires i < |order| && Distinct(order) && order[i] in remoteChildren
    requires result.Valid() && RemoteSoFar(result.items, before, l, r, order, i)
    modifies result
    ensures result.Valid() && RemoteSoFar(result.items, before, l, r, order, i + 1)
    decreases r, 0
  {
    RemoteSeen(before, l, r, order, i, remoteChildren[order[i]]);
    DiffRemoteChild(l, localChildren, remoteChildren[order[i]], result);
  }

  lemma RemoteStarts(before: Report, l: Node, r: Node, order: seq<string>)
    ensures RemoteSoFar(before, before, l, r, order, 0)
  {
    SumNone(r.children, RemoteParts(l, r, |r.children|));
  }

  lemma RemoteEnds(items: Report, before: Report, l: Node, r: Node, order: seq<string>)
    requires RemoteSoFar(items, before, l, r, order, |order|)
    requires forall p :: p in order <==> p in PathSet(r.children)
    ensures items == before + RemoteSum(l, r, PathSet(r.children))
  {
    SeenAll(order, PathSet(r.children));
  }

  method DiffRemote(ghost l: Node, r: Node, localChildren: map<string, Node>, remoteChildren: map<string, Node>,
                    result: DiffResult)
    requires Indexes(localChildren, l.children) && Indexes(remoteChildren, r.children)
    requires result.Valid()
    modifies result
    ensures result.Valid() && result.items == old(result.items) + RemoteSum(l, r, PathSet(r.children))
    decreases r, 1
  {
    ghost var before := result.items;
    var order := MerkleTree.KeysOf(remoteChildren);
    RemoteStarts(before, l, r, order);
    for i := 0 to |order|
      invariant result.Valid() && RemoteSoFar(result.items, before, l, r, order, i)
    {
      DiffRemoteAt(before, l, r, localChildren, remoteChildren, order, i, result);
    }
    RemoteEnds(result.items, before, l, r, order);
  }

  method DiffLocalChild(ghost r: Node, remoteChildren: map<string, Node>, localChild: Node, result: DiffResult)
    requires Indexes(remoteChildren, r.children)
    requires result.Valid()
    modifies result
    ensures result.Valid() && result.items == old(result.items) + LocalPart(localChild, r)
  {
    if localChild.path !in remoteChildren {
      var paths := CollectPaths(localChild);
      result.Delete(paths);
    }
  }

  /** The report after i of the local keys. */
  ghost predicate LocalSoFar(items: Report, before: Report, l: Node, r: Node, order: seq<string>, i: nat)
    requires i <= |order|
  {
    items == before + LocalSum(l, r, Seen(order, i))
  }

  method DiffLocalAt(ghost before: Report, ghost l: Node, ghost r: Node, localChildren: map<string, Node>,
                     remoteChildren: map<string, Node>, order: seq<string>, i: nat, result: DiffResult)
    requires Indexes(localChildren, l.children) && Indexes(remoteChildren, r.children)
    requires i < |order| && Distinct(order) && order[i] in localChildren
    requires result.Valid() && LocalSoFar(result.items, before, l, r, order, i)
    modifies result
    ensures result.Valid() && LocalSoFar(result.items, before, l, r, order, i + 1)
  {
    LocalSeen(before, l, r, order, i, localChildren[order[i]]);
    DiffLocalChild(r, remoteChildren, localChildren[order[i]], result);
  }

  lemma LocalStarts(before: Report, l: Node, r: Node, order: seq<string>)
    ensures LocalSoFar(before, before, l, r, order, 0)
  {
    SumNone(l.children, LocalParts(l.children, r));
  }

  lemma LocalEnds(items: Report, before: Report, l: Node, r: Node, order: seq<string>)
    requires LocalSoFar(items, before, l, r, order, |order|)
    requires forall p :: p in order <==> p in PathSet(l.children)
    ensures items == before + LocalSum(l, r, PathSet(l.children))
  {
    SeenAll(order, PathSet(l.children));
  }

  method DiffLocal(ghost l: Node, ghost r: Node, localChildren: map<string, Node>, remoteChildren: map<string, Node>,
                   result: DiffResult)
    requires Indexes(localChildren, l.children) && Indexes(remoteChildren, r.children)
    requires result.Valid()
    modifies result
    ensures result.Valid() && result.items == old(result.items) + LocalSum(l, r, PathSet(l.children))
  {
    ghost var before := result.items;
    var order := MerkleTree.KeysOf(localChildren);
    LocalStarts(before, l, r, order);
    for i := 0 to |order|
      invariant result.Valid() && LocalSoFar(result.items, before, l, r, order, i)
    {
      DiffLocalAt(before, l, r, localChildren, remoteChildren, order, i, result);
    }
    LocalEnds(result.items, before, l, r, order);
  }

  ghost function FullReport(local: Option<Node>, remote: Option<Node>): Report {
    match (local, remote)
    case (None, None) => multiset{}
    case (None, Some(r)) => Tagged(ADDED, Paths(r))
    case (Some(l), None) => Tagged(DELETED, Paths(l))
    case (Some(l), Some(r)) => DiffReport(l, r)
  }

  method Diff(local: Option<Node>, remote: Option<Node>) returns (result: DiffResult)
    ensures fresh(result) && result.Valid() && result.items == FullReport(local, remote)
  {
    result := new DiffResult();
    if local.None? && remote.None? { return; }
    if local.None? {
      var paths := CollectPaths(remote.value);
      result.Add(paths);
      return;
    }
    if remote.None? {
      var paths := CollectPaths(local.value);
      result.Delete(paths);
      return;
    }
    if local.value.hash == remote.value.hash { return; }
    DiffNodes(local.value, remote.value, result);
  }
}
