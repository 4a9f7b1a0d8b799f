/** The virtual file tree. */
module VfsModel {
  // internal/vfs/vfs.go, internal/db/files.go: a table of rows linked by parent
  // ids, listed directory by directory.

  import opened Common
  import opened Sorting
  import MerkleTree

  type Id = string

  /** What a row says about its contents. */
  datatype Content = Content(size: MerkleTree.Int64, mime: string, manifest: Option<Id>, checksum: Option<string>,
                             encrypted: bool, key: Bytes)

  datatype Row = Row(id: Id, user: Id, parent: Option<Id>, name: string, kind: string, content: Content,
                     trashed: bool, version: int, updated: MerkleTree.Int64)

  type Table = seq<Row>

  const FOLDER: string := "folder"

  function RowId(row: Row): string { row.id }

  predicate ValidName(name: string) {
    name != "" && name != "." && name != ".." && forall i :: 0 <= i < |name| ==> name[i] != '/' && name[i] >= ' '
  }

  /** Primary key, and one name per folder: rows without a parent are exempt,
      since the database takes missing values as different. */
  ghost predicate ValidTable(t: Table) {
    && DistinctKeys(RowId, t)
    && (forall i {:trigger t[i].id} :: 0 <= i < |t| ==> t[i].id != "" && t[i].parent != Some(""))
    && (forall i, j {:trigger Clash(t[i], t[j])} :: 0 <= i < j < |t| ==> !Clash(t[i], t[j]))
  }

  /** Foreign key: every parent is a row. */
  ghost predicate ParentsExist(t: Table) {
    forall i {:trigger t[i].parent} :: 0 <= i < |t| && t[i].parent.Some? ==> HasId(t, t[i].parent.value)
  }

  predicate Clash(a: Row, b: Row) {
    a.parent.Some? && a.parent == b.parent && a.user == b.user && a.name == b.name
  }

  predicate HasId(t: Table, id: Id) {
    exists i :: 0 <= i < |t| && t[i].id == id
  }

  // --- Queries ---------------------------------------------------------------------------

  /** An empty parent id stands for the root. */
  function Directory(parent: Option<Id>): Option<Id> {
    if parent == Some("") then None else parent
  }

  function ListedIn(user: Id, parent: Option<Id>): Row -> bool {
    (row: Row) => row.user == user && row.parent == Directory(parent) && !row.trashed
  }

  function NamedIn(user: Id, parent: Option<Id>, name: string): Row -> bool {
    (row: Row) => row.user == user && row.parent == Directory(parent) && row.name == name && !row.trashed
  }

  /** Kind descending, so folders before files, then name ascending. */
  predicate RowOrder(a: Row, b: Row) {
    if a.kind == b.kind then StringLe(a.name, b.name) else StringLe(b.kind, a.kind)
  }

  function Limit(rows: seq<Row>, limit: nat): seq<Row> {
    if |rows| <= limit then rows else rows[..limit]
  }

  function Listing(t: Table, user: Id, parent: Option<Id>, limit: nat): seq<Row> {
    Limit(Sort(RowOrder, Filter(ListedIn(user, parent), t)), limit)
  }

  function FindById(t: Table, id: Id): (r: Option<Row>)
    ensures r.Some? ==> r.value in t && r.value.id == id
    ensures r.None? ==> !HasId(t, id)
  {
    if t == [] then None
    else if t[0].id == id then Some(t[0])
    else FindById(t[1..], id)
  }

  function FindNamed(t: Table, user: Id, parent: Option<Id>, name: string): Option<Row> {
    var rows := Filter(NamedIn(user, parent, name), t);
    if rows == [] then None else Some(rows[0])
  }

  lemma SameId(t: Table, a: Row, b: Row)
    requires DistinctKeys(RowId, t) && a in t && b in t && a.id == b.id
    ensures a == b
  {
    var i :| 0 <= i < |t| && t[i] == a;
    var j :| 0 <= j < |t| && t[j] == b;
    SameKeyAt(RowId, t, i, j);
  }

  lemma FindsRow(t: Table, row: Row)
    requires DistinctKeys(RowId, t) && row in t
    ensures FindById(t, row.id) == Some(row)
  {
    var i :| 0 <= i < |t| && t[i] == row;
    assert HasId(t, row.id);
    SameId(t, FindById(t, row.id).value, row);
  }

  /** A listing holds exactly the directory's untrashed rows while they fit. */
  lemma ListingMembers(t: Table, user: Id, parent: Option<Id>, limit: nat, row: Row)
    ensures row in Listing(t, user, parent, limit) ==> row in t && ListedIn(user, parent)(row)
    ensures |Filter(ListedIn(user, parent), t)| <= limit && row in t && ListedIn(user, parent)(row)
      ==> row in Listing(t, user, parent, limit)
  {
    FilterMembers(ListedIn(user, parent), t, row);
    SortKeeps(RowOrder, Filter(ListedIn(user, parent), t), row);
  }

  /** Kinds descend, and among equals names ascend. */
  ghost predicate KindThenName(a: Row, b: Row) {
    Precedes(b.kind, a.kind) && (a.kind == b.kind ==> Precedes(a.name, b.name))
  }

  lemma RowOrderIs(a: Row, b: Row)
    ensures RowOrder(a, b) <==> KindThenName(a, b)
  {
    StringLeIff(b.kind, a.kind); StringLeIff(a.name, b.name);
    StringTotal(a.kind, b.kind);
    StringLeReflexive(a.kind);
  }

  lemma {:induction false} StringLeReflexive(a: string)
    ensures StringLe(a, a)
  {
    if a != "" { StringLeReflexive(a[1..]); }
  }

  lemma RowOrderTotal()
    ensures TotalOrder(RowOrder)
  {
    forall a, b ensures RowOrder(a, b) || RowOrder(b, a) {
      StringTotal(a.kind, b.kind); StringTotal(a.name, b.name);
    }
    forall a, b, c | RowOrder(a, b) && RowOrder(b, c) ensures RowOrder(a, c) { RowOrderTransitive(a, b, c); }
  }

  lemma RowOrderTransitive(a: Row, b: Row, c: Row)
    requires RowOrder(a, b) && RowOrder(b, c)
    ensures RowOrder(a, c)
  {
    if a.kind == b.kind == c.kind {
      StringTransitive(a.name, b.name, c.name);
    } else if a.kind != b.kind && b.kind != c.kind {
      StringTransitive(c.kind, b.kind, a.kind);
      StringTotal(a.kind, b.kind);
    }
  }

  /** A listing is in order, and what it leaves out for the limit comes later. */
  lemma ListingOrder(t: Table, user: Id, parent: Option<Id>, limit: nat)
    ensures var rows := Listing(t, user, parent, limit);
      && (forall i, j :: 0 <= i < j < |rows| ==> KindThenName(rows[i], rows[j]))
      && (forall row, i :: row in t && ListedIn(user, parent)(row) && row !in rows && 0 <= i < |rows| ==>
            KindThenName(rows[i], row))
      && |rows| == (if |Filter(ListedIn(user, parent), t)| <= limit then |Filter(ListedIn(user, parent), t)| else limit)
  {
    var all := Filter(ListedIn(user, parent), t);
    var sorted, rows := Sort(RowOrder, all), Listing(t, user, parent, limit);
    RowOrderTotal();
    SortSorts(RowOrder, all);
    SortPermutes(RowOrder, all);
    assert |multiset(sorted)| == |multiset(all)|;
    forall i, j | 0 <= i < j < |rows| ensures KindThenName(rows[i], rows[j]) {
      assert RowOrder(sorted[i], sorted[j]);
      RowOrderIs(rows[i], rows[j]);
    }
    forall j | 0 <= j < |rows| ensures sorted[j] in rows { assert sorted[j] == rows[j]; }
    forall row, i | row in t && ListedIn(user, parent)(row) && row !in rows && 0 <= i < |rows|
      ensures KindThenName(rows[i], row)
    {
      FilterMembers(ListedIn(user, parent), t, row);
      SortKeeps(RowOrder, all, row);
      var j :| 0 <= j < |sorted| && sorted[j] == row;
      assert RowOrder(sorted[i], sorted[j]);
      RowOrderIs(rows[i], row);
    }
  }

  lemma ListingDistinct(t: Table, user: Id, parent: Option<Id>, limit: nat)
    requires DistinctKeys(RowId, t)
    ensures DistinctKeys(RowId, Listing(t, user, parent, limit))
  {
    FilterDistinct(ListedIn(user, parent), RowId, t);
    var sorted := Sort(RowOrder, Filter(ListedIn(user, parent), t));
    SortDistinctKeys(RowOrder, RowId, Filter(ListedIn(user, parent), t));
    KeysBefore(RowId, sorted, if |sorted| <= limit then |sorted| else limit);
    assert sorted[..|sorted|] == sorted;
  }

  // --- Chains of rows from the root --------------------------------------------------------

  function LastId(chain: seq<Row>): Option<Id> {
    if chain == [] then None else Some(chain[|chain| - 1].id)
  }

  /** Rows of the table, each the parent of the next, starting at the root. */
  ghost predicate Chain(t: Table, chain: seq<Row>) {
    chain == [] ||
    (var k := |chain| - 1;
     Chain(t, chain[..k]) && chain[k] in t && chain[k].parent == LastId(chain[..k]))
  }

  lemma {:induction false} ChainPrefix(t: Table, chain: seq<Row>, n: nat)
    requires Chain(t, chain) && n <= |chain|
    ensures Chain(t, chain[..n])
    ensures n < |chain| ==> chain[n] in t && chain[n].parent == LastId(chain[..n])
  {
    var k := |chain| - 1;
    if n == |chain| {
      assert chain[..n] == chain;
    } else if n < k {
      ChainPrefix(t, chain[..k], n);
      assert chain[..k][..n] == chain[..n];
    }
  }

  lemma ChainSnoc(t: Table, chain: seq<Row>, row: Row)
    requires Chain(t, chain) && row in t && row.parent == LastId(chain)
    ensures Chain(t, chain + [row])
  {
    assert (chain + [row])[..|chain|] == chain;
  }

  /** A row has one chain. */
  lemma {:induction false} ChainUnique(t: Table, a: seq<Row>, b: seq<Row>)
    requires ValidTable(t) && Chain(t, a) && Chain(t, b) && LastId(a) == LastId(b)
    ensures a == b
    decreases |a|
  {
    if a != [] && b != [] {
      var j, k := |a| - 1, |b| - 1;
      SameId(t, a[j], b[k]);
      ChainUnique(t, a[..j], b[..k]);
      assert a == a[..j] + [a[j]] && b == b[..k] + [b[k]];
    }
  }

  /** So no row comes twice, and a chain is no longer than the table. */
  lemma {:induction false} ChainDistinct(t: Table, chain: seq<Row>)
    requires ValidTable(t) && Chain(t, chain)
    ensures Distinct(chain) && |chain| <= |t|
  {
    forall i, j | 0 <= i < j < |chain| ensures chain[i] != chain[j] {
      ChainPrefix(t, chain, i + 1); ChainPrefix(t, chain, j + 1);
      if chain[i] == chain[j] {
        assert LastId(chain[..i + 1]) == LastId(chain[..j + 1]);
        ChainUnique(t, chain[..i + 1], chain[..j + 1]);
        assert false;
      }
    }
    forall x | x in chain ensures x in t {
      var i :| 0 <= i < |chain| && chain[i] == x;
      ChainPrefix(t, chain, i);
    }
    DistinctWithin(chain, t);
  }

  lemma {:induction false} DistinctWithin<T>(a: seq<T>, b: seq<T>)
    requires Distinct(a) && forall x :: x in a ==> x in b
    ensures |a| <= |b|
  {
    if a != [] {
      var x := a[|a| - 1];
      assert x in b;
      var i :| 0 <= i < |b| && b[i] == x;
      var rest := b[..i] + b[i + 1..];
      forall y | y in a[..|a| - 1] ensures y in rest {
        var k :| 0 <= k < |a| - 1 && a[k] == y;
        assert a[k] in b;
        var j :| 0 <= j < |b| && b[j] == y;
        assert j != i;
        assert j < i ==> b[..i][j] == y;
        assert j > i ==> b[i + 1..][j - i - 1] == y;
      }
      DistinctWithin(a[..|a| - 1], rest);
    }
  }
}
