/** The walk lists every reachable row once. */
module VfsWalk {
  // ListAllFiles and walkDir of internal/vfs/vfs.go.

  import opened Common
  import opened Sorting
  import opened VfsModel
  import MerkleTree

  const WALK_LIMIT: nat := 10000

  // --- The walk as a function of the table ---------------------------------------------

  /** Levels still possible below a chain: chains are no longer than the table. */
  function Room(t: Table, chain: seq<Row>): nat {
    if |chain| < |t| then |t| - |chain| else 0
  }

  /** The chains of all rows the walk visits below a chain, in order. */
  ghost function Visits(t: Table, user: Id, chain: seq<Row>): seq<seq<Row>>
    decreases Room(t, chain), 2, 0
  {
    VisitsOf(t, user, chain, Listing(t, user, LastId(chain), WALK_LIMIT))
  }

  ghost function VisitsOf(t: Table, user: Id, chain: seq<Row>, entries: seq<Row>): seq<seq<Row>>
    decreases Room(t, chain), 1, |entries|
  {
    if entries == [] then [] else
      var k := |entries| - 1;
      VisitsOf(t, user, chain, entries[..k]) + VisitsFrom(t, user, chain, entries[k])
  }

  /** An entry and, for a folder, everything below it. */
  ghost function VisitsFrom(t: Table, user: Id, chain: seq<Row>, entry: Row): seq<seq<Row>>
    decreases Room(t, chain), 0, 0
  {
    [chain + [entry]] + if entry.kind == FOLDER && Room(t, chain) > 0 then Visits(t, user, chain + [entry]) else []
  }

  lemma ListingContinues(t: Table, user: Id, chain: seq<Row>, limit: nat)
    requires ValidTable(t) && Chain(t, chain)
    ensures forall e :: e in Listing(t, user, LastId(chain), limit) ==> Chain(t, chain + [e])
  {
    assert chain != [] ==> chain[|chain| - 1].id != "" by {
      if chain != [] {
        var i :| 0 <= i < |t| && t[i] == chain[|chain| - 1];
      }
    }
    forall e | e in Listing(t, user, LastId(chain), limit) ensures Chain(t, chain + [e]) {
      ListingMembers(t, user, LastId(chain), limit, e);
      ChainSnoc(t, chain, e);
    }
  }

  /** The path of a chain of rows. */
  ghost function PathOf(chain: seq<Row>): string {
    if chain == [] then "" else PathOf(chain[..|chain| - 1]) + "/" + chain[|chain| - 1].name
  }

  /** What the walk reports for a row at a path. */
  function InfoOf(sha: string -> string, row: Row, path: string): MerkleTree.FileInfo {
    if row.kind == FOLDER then MerkleTree.FileInfo(path, false, 0, row.updated, sha(path))
    else MerkleTree.FileInfo(path, true, row.content.size, row.updated,
                             if row.content.checksum.None? then "" else row.content.checksum.value)
  }

  ghost function ReportOf(sha: string -> string): seq<Row> -> MerkleTree.FileInfo {
    (c: seq<Row>) => if c == [] then MerkleTree.FileInfo("", false, 0, 0, "") else InfoOf(sha, c[|c| - 1], PathOf(c))
  }

  // --- What the walk visits ---------------------------------------------------------------

  /** A chain that goes on from another through untrashed folders of the user. */
  ghost predicate Continues(t: Table, user: Id, chain: seq<Row>, c: seq<Row>) {
    && |chain| < |c| && chain == c[..|chain|] && Chain(t, c)
    && (forall i :: |chain| <= i < |c| ==> c[i].user == user && !c[i].trashed)
    && (forall i :: |chain| <= i < |c| - 1 ==> c[i].kind == FOLDER)
  }

  ghost predicate FitsLimit(t: Table, user: Id, limit: nat) {
    forall parent :: |Filter(ListedIn(user, parent), t)| <= limit
  }

  lemma {:induction false} VisitsContinue(t: Table, user: Id, chain: seq<Row>, c: seq<Row>)
    requires ValidTable(t) && Chain(t, chain) && c in Visits(t, user, chain)
    ensures Continues(t, user, chain, c)
    decreases Room(t, chain), 2, 0
  {
    ChainDistinct(t, chain);
    ListingContinues(t, user, chain, WALK_LIMIT);
    var entries := Listing(t, user, LastId(chain), WALK_LIMIT);
    forall e | e in entries ensures e.user == user && !e.trashed {
      ListingMembers(t, user, LastId(chain), WALK_LIMIT, e);
    }
    VisitsOfContinue(t, user, chain, entries, c);
  }

  lemma {:induction false} VisitsOfContinue(t: Table, user: Id, chain: seq<Row>, entries: seq<Row>, c: seq<Row>)
    requires ValidTable(t) && Chain(t, chain) && |chain| <= |t|
    requires forall e :: e in entries ==> Chain(t, chain + [e]) && e.user == user && !e.trashed
    requires c in VisitsOf(t, user, chain, entries)
    ensures Continues(t, user, chain, c) && c[|chain|] in entries
    decreases Room(t, chain), 1, |entries|
  {
    var k := |entries| - 1;
    if c in VisitsOf(t, user, chain, entries[..k]) {
      VisitsOfContinue(t, user, chain, entries[..k], c);
    } else {
      VisitsFromContinue(t, user, chain, entries[k], c);
    }
  }

  lemma {:induction false} VisitsFromContinue(t: Table, user: Id, chain: seq<Row>, e: Row, c: seq<Row>)
    requires ValidTable(t) && Chain(t, chain) && |chain| <= |t| && Chain(t, chain + [e]) && e.user == user && !e.trashed
    requires c in VisitsFrom(t, user, chain, e)
    ensures Continues(t, user, chain, c) && c[|chain|] == e
    decreases Room(t, chain), 0, 0
  {
    var next := chain + [e];
    assert next[..|chain|] == chain;
    if c != next {
      ChainDistinct(t, next);
      VisitsContinue(t, user, next, c);
      ContinuesLonger(t, user, chain, e, c);
    }
  }

  lemma ContinuesLonger(t: Table, user: Id, chain: seq<Row>, e: Row, c: seq<Row>)
    requires Continues(t, user, chain + [e], c) && e.user == user && !e.trashed && e.kind == FOLDER
    ensures Continues(t, user, chain, c) && c[|chain|] == e
  {
    var next := chain + [e];
    assert c[..|chain|] == c[..|next|][..|chain|];
    assert c[|chain|] == c[..|next|][|chain|];
    forall i | |chain| <= i < |c| - 1 ensures c[i].kind == FOLDER { assert i == |chain| || |next| <= i; }
  }

  /** Nothing reachable is missed while every directory fits one listing. */
  lemma {:induction false} ContinuesVisited(t: Table, user: Id, chain: seq<Row>, c: seq<Row>)
    requires ValidTable(t) && Chain(t, chain) && FitsLimit(t, user, WALK_LIMIT) && Continues(t, user, chain, c)
    ensures c in Visits(t, user, chain)
    decreases Room(t, chain), 2, 0
  {
    ChainDistinct(t, chain);
    ListingContinues(t, user, chain, WALK_LIMIT);
    var e := c[|chain|];
    var entries := Listing(t, user, LastId(chain), WALK_LIMIT);
    ChainPrefix(t, c, |chain|);
    ChainPrefix(t, c, |chain| + 1);
    ListingMembers(t, user, LastId(chain), WALK_LIMIT, e);
    ChainDistinct(t, chain + [e]);
    assert c[..|chain| + 1] == chain + [e];
    if |c| > |chain| + 1 {
      ContinuesVisited(t, user, chain + [e], c);
    } else {
      assert c == chain + [e];
    }
    assert c in VisitsFrom(t, user, chain, e);
    EntryVisited(t, user, chain, entries, e, c);
  }

  lemma {:induction false} EntryVisited(t: Table, user: Id, chain: seq<Row>, entries: seq<Row>, e: Row, c: seq<Row>)
    requires ValidTable(t) && Chain(t, chain) && |chain| <= |t|
    requires forall e :: e in entries ==> Chain(t, chain + [e])
    requires e in entries && c in VisitsFrom(t, user, chain, e)
    ensures c in VisitsOf(t, user, chain, entries)
    decreases Room(t, chain), 1, |entries|
  {
    var k := |entries| - 1;
    if e != entries[k] {
      assert entries == entries[..k] + [entries[k]];
      EntryVisited(t, user, chain, entries[..k], e, c);
    }
  }

  /** Nothing is visited twice. */
  lemma {:induction false} VisitsDistinct(t: Table, user: Id, chain: seq<Row>)
    requires ValidTable(t) && Chain(t, chain)
    ensures Distinct(Visits(t, user, chain))
    decreases Room(t, chain), 2, 0
  {
    ChainDistinct(t, chain);
    ListingContinues(t, user, chain, WALK_LIMIT);
    ListingDistinct(t, user, LastId(chain), WALK_LIMIT);
    var entries := Listing(t, user, LastId(chain), WALK_LIMIT);
    forall e | e in entries ensures e.user == user && !e.trashed {
      ListingMembers(t, user, LastId(chain), WALK_LIMIT, e);
    }
    VisitsOfDistinct(t, user, chain, entries);
  }

  lemma {:induction false} VisitsOfDistinct(t: Table, user: Id, chain: seq<Row>, entries: seq<Row>)
    requires ValidTable(t) && Chain(t, chain) && |chain| <= |t| && DistinctKeys(RowId, entries)
    requires forall e :: e in entries ==> Chain(t, chain + [e]) && e.user == user && !e.trashed
    ensures Distinct(VisitsOf(t, user, chain, entries))
    decreases Room(t, chain), 1, |entries|
  {
    if entries != [] {
      var k := |entries| - 1;
      var e := entries[k];
      KeysBefore(RowId, entries, k);
      VisitsOfDistinct(t, user, chain, entries[..k]);
      VisitsFromDistinct(t, user, chain, e);
      forall c | c in VisitsOf(t, user, chain, entries[..k]) ensures c !in VisitsFrom(t, user, chain, e) {
        VisitsOfContinue(t, user, chain, entries[..k], c);
        var i :| 0 <= i < k && entries[i] == c[|chain|];
        KeyApart(RowId, entries, i, k);
        if c in VisitsFrom(t, user, chain, e) { VisitsFromContinue(t, user, chain, e, c); }
      }
      DistinctAppend(VisitsOf(t, user, chain, entries[..k]), VisitsFrom(t, user, chain, e));
    }
  }

  lemma {:induction false} VisitsFromDistinct(t: Table, user: Id, chain: seq<Row>, e: Row)
    requires ValidTable(t) && Chain(t, chain) && |chain| <= |t| && Chain(t, chain + [e])
    ensures Distinct(VisitsFrom(t, user, chain, e))
    decreases Room(t, chain), 0, 0
  {
    ChainDistinct(t, chain + [e]);
    if e.kind == FOLDER {
      VisitsDistinct(t, user, chain + [e]);
      var below := Visits(t, user, chain + [e]);
      forall c | c in below ensures c != chain + [e] { VisitsContinue(t, user, chain + [e], c); }
      DistinctAppend([chain + [e]], below);
    }
  }

  // --- The walk as code -----------------------------------------------------------------------

  class FileList {
    var items: seq<MerkleTree.FileInfo>

    constructor ()
      ensures items == []
    {
      items := [];
    }

    method Append(info: MerkleTree.FileInfo)
      modifies this
      ensures items == old(items) + [info]
    {
      items := items + [info];
    }
  }

  /** The reports for everything below a chain. */
  ghost function WalkOf(t: Table, user: Id, chain: seq<Row>, sha: string -> string): seq<MerkleTree.FileInfo>
    decreases Room(t, chain), 2, 0
  {
    EntriesWalk(t, user, chain, Listing(t, user, LastId(chain), WALK_LIMIT), sha)
  }

  ghost function EntriesWalk(t: Table, user: Id, chain: seq<Row>, entries: seq<Row>,
                             sha: string -> string): seq<MerkleTree.FileInfo>
    decreases Room(t, chain), 1, |entries|
  {
    if entries == [] then [] else
      var k := |entries| - 1;
      EntriesWalk(t, user, chain, entries[..k], sha) + EntryWalk(t, user, chain, entries[k], sha)
  }

  /** The report of an entry and, for a folder, those of everything below it. */
  ghost function EntryWalk(t: Table, user: Id, chain: seq<Row>, e: Row, sha: string -> string): seq<MerkleTree.FileInfo>
    decreases Room(t, chain), 0, 0
  {
    [InfoOf(sha, e, PathOf(chain) + "/" + e.name)]
    + if e.kind == FOLDER && Room(t, chain) > 0 then WalkOf(t, user, chain + [e], sha) else []
  }

  lemma EntriesWalkNext(t: Table, user: Id, chain: seq<Row>, entries: seq<Row>, i: nat, sha: string -> string,
                        before: seq<MerkleTree.FileInfo>)
    requires i < |entries|
    ensures before + EntriesWalk(t, user, chain, entries[..i + 1], sha)
      == before + EntriesWalk(t, user, chain, entries[..i], sha) + EntryWalk(t, user, chain, entries[i], sha)
  {
    assert entries[..i + 1][..i] == entries[..i];
  }

  lemma MapAppend<A, B>(f: A -> B, a: seq<A>, b: seq<A>)
    ensures Map(f, a + b) == Map(f, a) + Map(f, b)
  {}

  /** The walk reports what it visits, in order. */
  lemma {:induction false} WalkReports(t: Table, user: Id, chain: seq<Row>, sha: string -> string)
    ensures WalkOf(t, user, chain, sha) == Map(ReportOf(sha), Visits(t, user, chain))
    decreases Room(t, chain), 2, 0
  {
    EntriesReport(t, user, chain, Listing(t, user, LastId(chain), WALK_LIMIT), sha);
  }

  lemma {:induction false} EntriesReport(t: Table, user: Id, chain: seq<Row>, entries: seq<Row>, sha: string -> string)
    ensures EntriesWalk(t, user, chain, entries, sha) == Map(ReportOf(sha), VisitsOf(t, user, chain, entries))
    decreases Room(t, chain), 1, |entries|
  {
    if entries != [] {
      var k := |entries| - 1;
      EntriesReport(t, user, chain, entries[..k], sha);
      EntryReports(t, user, chain, entries[k], sha);
      MapAppend(ReportOf(sha), VisitsOf(t, user, chain, entries[..k]), VisitsFrom(t, user, chain, entries[k]));
    }
  }

  lemma {:induction false} EntryReports(t: Table, user: Id, chain: seq<Row>, e: Row, sha: string -> string)
    ensures EntryWalk(t, user, chain, e, sha) == Map(ReportOf(sha), VisitsFrom(t, user, chain, e))
    decreases Room(t, chain), 0, 0
  {
    var next := chain + [e];
    assert next[..|chain|] == chain;
    assert Map(ReportOf(sha), [next]) == [InfoOf(sha, e, PathOf(chain) + "/" + e.name)];
    if e.kind == FOLDER && Room(t, chain) > 0 {
      WalkReports(t, user, next, sha);
      MapAppend(ReportOf(sha), [next], Visits(t, user, next));
    }
  }

  lemma NextDirectory(t: Table, chain: seq<Row>, entry: Row)
    requires ValidTable(t) && Chain(t, chain + [entry])
    ensures Room(t, chain) == Room(t, chain + [entry]) + 1 && LastId(chain + [entry]) == Some(entry.id)
    ensures PathOf(chain + [entry]) == PathOf(chain) + "/" + entry.name
  {
    ChainDistinct(t, chain + [entry]);
    assert (chain + [entry])[..|chain|] == chain;
  }

  /** The walk below a directory: the chain is that of the directory. */
  method WalkDir(t: Table, user: Id, parent: Option<Id>, prefix: string, sha: string -> string, result: FileList,
                 ghost chain: seq<Row>)
    requires ValidTable(t) && Chain(t, chain) && parent == LastId(chain) && prefix == PathOf(chain) + "/"
    modifies result
    ensures result.items == old(result.items) + WalkOf(t, user, chain, sha)
    decreases Room(t, chain), 2
  {
    ListingContinues(t, user, chain, WALK_LIMIT);
    WalkEntries(t, user, Listing(t, user, parent, WALK_LIMIT), prefix, sha, result, chain);
  }

  method WalkEntries(t: Table, user: Id, entries: seq<Row>, prefix: string, sha: string -> string, result: FileList,
                     ghost chain: seq<Row>)
    requires ValidTable(t) && prefix == PathOf(chain) + "/"
    requires forall e :: e in entries ==> Chain(t, chain + [e])
    modifies result
    ensures result.items == old(result.items) + EntriesWalk(t, user, chain, entries, sha)
    decreases Room(t, chain), 1
  {
    for i := 0 to |entries|
      invariant result.items == old(result.items) + EntriesWalk(t, user, chain, entries[..i], sha)
    {
      EntriesWalkNext(t, user, chain, entries, i, sha, old(result.items));
      WalkEntry(t, user, entries[i], prefix, sha, result, chain);
    }
    assert entries[..|entries|] == entries;
  }

  /** One entry: its report, and for a folder the reports below it. */
  method WalkEntry(t: Table, user: Id, entry: Row, prefix: string, sha: string -> string, result: FileList,
                   ghost chain: seq<Row>)
    requires ValidTable(t) && Chain(t, chain + [entry]) && prefix == PathOf(chain) + "/"
    modifies result
    ensures result.items == old(result.items) + EntryWalk(t, user, chain, entry, sha)
    decreases Room(t, chain), 0
  {
    var path := prefix + entry.name;
    NextDirectory(t, chain, entry);
    result.Append(InfoOf(sha, entry, path));
    if entry.kind == FOLDER {
      WalkDir(t, user, Some(entry.id), path + "/", sha, result, chain + [entry]);
    }
  }

  method ListAllFiles(t: Table, user: Id, sha: string -> string) returns (files: seq<MerkleTree.FileInfo>)
    requires ValidTable(t)
    ensures files == WalkOf(t, user, [], sha)
  {
    var result := new FileList();
    WalkDir(t, user, None, "/", sha, result, []);
    files := result.items;
  }
}
