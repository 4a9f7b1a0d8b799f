/** Recursive copy (internal/vfs/vfs.go): the copy shows the same tree as its
    source, and nothing else changes. */
module VfsCopy {
  import opened Common
  import opened Sorting
  import opened VfsModel
  import MerkleTree

  ghost predicate SoundTable(t: Table) { ValidTable(t) && ParentsExist(t) }

  const COPY_LIMIT: nat := 1000

  // --- Trees ---------------------------------------------------------------------------

  /** What a row and everything listed below it look like, ids aside. */
  datatype Tree = Tree(name: string, kind: string, content: Content, version: int, children: seq<Tree>)

  /** A row shows a tree.  Only rows whose subtree is finite, that is free of
      cycles, show any. */
  ghost predicate Shows(t: Table, user: Id, limit: nat, row: Row, tree: Tree)
    decreases tree, 1
  {
    && tree.name == row.name && tree.kind == row.kind && tree.content == row.content && tree.version == row.version
    && if row.kind == FOLDER then ShowsAll(t, user, limit, Listing(t, user, Some(row.id), limit), tree.children)
       else tree.children == []
  }

  ghost predicate ShowsAll(t: Table, user: Id, limit: nat, rows: seq<Row>, trees: seq<Tree>)
    decreases trees, 0
  {
    && |rows| == |trees|
    && forall i {:trigger Shows(t, user, limit, rows[i], trees[i])} :: 0 <= i < |rows| ==>
         Shows(t, user, limit, rows[i], trees[i])
  }

  /** Whether an id is that of a folder: of the row itself or of one listed below. */
  ghost predicate InSubtree(t: Table, user: Id, limit: nat, row: Row, tree: Tree, id: Id)
    decreases tree, 1
  {
    row.kind == FOLDER
    && (row.id == id || InForest(t, user, limit, Listing(t, user, Some(row.id), limit), tree.children, id))
  }

  ghost predicate InForest(t: Table, user: Id, limit: nat, rows: seq<Row>, trees: seq<Tree>, id: Id)
    decreases trees, 0
  {
    |rows| == |trees| && exists i :: 0 <= i < |rows| && InSubtree(t, user, limit, rows[i], trees[i], id)
  }

  /** A row shows at most one tree. */
  lemma {:induction false} ShowsOne(t: Table, user: Id, limit: nat, row: Row, a: Tree, b: Tree)
    requires Shows(t, user, limit, row, a) && Shows(t, user, limit, row, b)
    ensures a == b
    decreases a
  {
    if row.kind == FOLDER {
      var rows := Listing(t, user, Some(row.id), limit);
      forall i | 0 <= i < |rows| ensures a.children[i] == b.children[i] {
        ShowsOne(t, user, limit, rows[i], a.children[i], b.children[i]);
      }
    }
  }

  // --- Appending rows elsewhere changes nothing here ------------------------------------------

  ghost predicate NoneUnder(extra: seq<Row>, id: Id) {
    forall i :: 0 <= i < |extra| ==> extra[i].parent != Some(id)
  }

  lemma ListingFrame(t: Table, extra: seq<Row>, user: Id, limit: nat, id: Id)
    requires id != "" && NoneUnder(extra, id)
    ensures Listing(t + extra, user, Some(id), limit) == Listing(t, user, Some(id), limit)
  {
    var p := ListedIn(user, Some(id));
    FilterAppend(p, t, extra);
    forall x | x in extra ensures !p(x) {}
    FilterNone(p, extra);
    assert Filter(p, t) + [] == Filter(p, t);
  }

  lemma {:induction false} ShowsFrame(t: Table, extra: seq<Row>, user: Id, limit: nat, row: Row, tree: Tree)
    requires SoundTable(t) && row in t && Shows(t, user, limit, row, tree)
    requires forall id :: InSubtree(t, user, limit, row, tree, id) ==> NoneUnder(extra, id)
    ensures Shows(t + extra, user, limit, row, tree)
    ensures forall id :: InSubtree(t + extra, user, limit, row, tree, id) <==> InSubtree(t, user, limit, row, tree, id)
    decreases tree
  {
    if row.kind == FOLDER {
      var rows := Listing(t, user, Some(row.id), limit);
      assert InSubtree(t, user, limit, row, tree, row.id);
      IdNotEmpty(t, row);
      ListingFrame(t, extra, user, limit, row.id);
      forall i | 0 <= i < |rows|
        ensures Shows(t + extra, user, limit, rows[i], tree.children[i])
        ensures forall id :: InSubtree(t + extra, user, limit, rows[i], tree.children[i], id)
                        <==> InSubtree(t, user, limit, rows[i], tree.children[i], id)
      {
        ListingMembers(t, user, Some(row.id), limit, rows[i]);
        forall id | InSubtree(t, user, limit, rows[i], tree.children[i], id) ensures NoneUnder(extra, id) {
          assert InSubtree(t, user, limit, row, tree, id);
        }
        ShowsFrame(t, extra, user, limit, rows[i], tree.children[i]);
      }
      forall id
        ensures InForest(t + extra, user, limit, rows, tree.children, id)
          <==> InForest(t, user, limit, rows, tree.children, id)
      {
        if i :| 0 <= i < |rows| && InSubtree(t, user, limit, rows[i], tree.children[i], id) {
          assert InSubtree(t + extra, user, limit, rows[i], tree.children[i], id);
        }
        if i :| 0 <= i < |rows| && InSubtree(t + extra, user, limit, rows[i], tree.children[i], id) {
          assert InSubtree(t, user, limit, rows[i], tree.children[i], id);
        }
      }
    }
  }

  lemma IdNotEmpty(t: Table, row: Row)
    requires SoundTable(t) && row in t
    ensures row.id != "" && HasId(t, row.id)
  {
    var i :| 0 <= i < |t| && t[i] == row;
  }

  /** A set of ids that holds every child of its members holds whole subtrees. */
  lemma {:induction false} SubtreeWithin(t: Table, user: Id, limit: nat, row: Row, tree: Tree, ids: set<Id>, id: Id)
    requires row.id in ids && forall r :: r in t && r.parent.Some? && r.parent.value in ids ==> r.id in ids
    requires "" !in ids && InSubtree(t, user, limit, row, tree, id)
    ensures id in ids
    decreases tree
  {
    if row.id != id {
      var rows := Listing(t, user, Some(row.id), limit);
      var i :| 0 <= i < |rows| && InSubtree(t, user, limit, rows[i], tree.children[i], id);
      ListingMembers(t, user, Some(row.id), limit, rows[i]);
      SubtreeWithin(t, user, limit, rows[i], tree.children[i], ids, id);
    }
  }

  lemma SubtreeExists(t: Table, user: Id, limit: nat, row: Row, tree: Tree, id: Id)
    requires SoundTable(t) && row in t && InSubtree(t, user, limit, row, tree, id)
    ensures HasId(t, id)
  {
    var ids := set r | r in t :: r.id;
    forall r | r in t ensures r.id != "" { IdNotEmpty(t, r); }
    SubtreeWithin(t, user, limit, row, tree, ids, id);
    var r :| r in t && r.id == id;
    IdNotEmpty(t, r);
  }

  // --- Copying -----------------------------------------------------------------------------

  datatype Outcome = Copied | NotFound | PermissionDenied | InvalidName | AlreadyExists | CreateFailed

  /** Rows hung below a folder that had none: each under it or under another. */
  ghost predicate HungBelow(added: seq<Row>, user: Id, root: Id) {
    && (forall i {:trigger added[i].parent} :: 0 <= i < |added| ==>
          added[i].parent.Some? && added[i].user == user && !added[i].trashed)
    && (forall i {:trigger added[i].parent} :: 0 <= i < |added| ==>
          added[i].parent.value == root || HasId(added, added[i].parent.value))
  }

  function CopyOf(item: Row, id: Id, parent: Option<Id>, name: string, version: int, user: Id,
                  now: MerkleTree.Int64): Row
  {
    Row(id, user, parent, name, item.kind, item.content, false, version, now)
  }

  function LongestId(t: Table): (n: nat)
    ensures forall i :: 0 <= i < |t| ==> |t[i].id| <= n
  {
    if t == [] then 0 else
      var before := LongestId(t[..|t| - 1]);
      var last := |t[|t| - 1].id|;
      if last > before then last else before
  }

  /** An id no row has; the source draws it at random. */
  method GenerateId(t: Table) returns (id: Id)
    ensures id != "" && !HasId(t, id)
  {
    id := seq(LongestId(t) + 1, i => '0');
  }

  predicate CanInsert(t: Table, row: Row) {
    && !HasId(t, row.id)
    && (forall i :: 0 <= i < |t| ==> !Clash(t[i], row))
    && (row.parent.Some? ==> HasId(t, row.parent.value))
  }

  lemma InsertValid(t: Table, row: Row)
    requires SoundTable(t) && CanInsert(t, row) && row.id != "" && row.parent != Some("")
    ensures SoundTable(t + [row])
  {
    forall r | r in t ensures RowId(r) != RowId(row) { var i :| 0 <= i < |t| && t[i] == r; }
    KeysSnoc(RowId, t, row);
    forall i | 0 <= i < |t + [row]| && (t + [row])[i].parent.Some?
      ensures HasId(t + [row], (t + [row])[i].parent.value)
    {
      var p := (t + [row])[i].parent.value;
      assert HasId(t, p);
      var j :| 0 <= j < |t| && t[j].id == p;
      assert (t + [row])[j].id == p;
    }
  }

  /** Everything that holds while the entries of a folder are being copied: the
      first of them have copies that show their trees, the rest still show theirs. */
  ghost predicate Copying(before: Table, t: Table, added: seq<Row>, user: Id, items: seq<Row>, trees: seq<Tree>,
                          copies: seq<Row>, dest: Id) {
    && t == before + added && |items| == |trees|
    && HungBelow(added, user, dest)
    && CopiesHere(t, user, items, copies, dest)
    && CopiesShow(t, added, user, copies, trees)
    && ItemsShow(before, t, user, items, trees, dest)
  }

  /** The destination holds exactly the copies made so far, in order. */
  ghost predicate CopiesHere(t: Table, user: Id, items: seq<Row>, copies: seq<Row>, dest: Id) {
    && |copies| <= |items|
    && Filter(ListedIn(user, Some(dest)), t) == copies
    && (forall r :: r in t && r.parent == Some(dest) ==> r in copies)
    && (forall i :: 0 <= i < |copies| ==> copies[i].name == items[i].name && copies[i].kind == items[i].kind)
  }

  ghost predicate CopiesShow(t: Table, added: seq<Row>, user: Id, copies: seq<Row>, trees: seq<Tree>) {
    |copies| <= |trees|
    && (forall i {:trigger copies[i] in added} :: 0 <= i < |copies| ==> copies[i] in added)
    && (forall i {:trigger Shows(t, user, COPY_LIMIT, copies[i], trees[i])} :: 0 <= i < |copies| ==>
          Shows(t, user, COPY_LIMIT, copies[i], trees[i]))
  }

  ghost predicate ItemsShow(before: Table, t: Table, user: Id, items: seq<Row>, trees: seq<Tree>, dest: Id) {
    |items| == |trees|
    && (forall i {:trigger items[i] in before} :: 0 <= i < |items| ==> items[i] in before)
    && (forall i {:trigger Shows(t, user, COPY_LIMIT, items[i], trees[i])} :: 0 <= i < |items| ==>
          Shows(t, user, COPY_LIMIT, items[i], trees[i]))
    && (forall i {:trigger InSubtree(t, user, COPY_LIMIT, items[i], trees[i], dest)} :: 0 <= i < |items| ==>
          !InSubtree(t, user, COPY_LIMIT, items[i], trees[i], dest))
  }

  /** Rows hung below the destination have only such rows below them. */
  lemma CopiesApart(before: Table, added: seq<Row>, user: Id, row: Row, tree: Tree, dest: Id)
    requires SoundTable(before) && SoundTable(before + added) && HasId(before, dest)
    requires row in added && row.parent.Some?
    ensures !InSubtree(before + added, user, COPY_LIMIT, row, tree, dest)
  {
    var t := before + added;
    var ids := set r | r in added :: r.id;
    forall r | r in t && r.parent.Some? && r.parent.value in ids ensures r.id in ids {
      if r in before { ParentKnown(before, r); FreshIds(before, added, r.parent.value); }
    }
    forall r | r in added ensures r.id != "" { assert r in t; IdNotEmpty(t, r); }
    FreshIds(before, added, dest);
    if InSubtree(t, user, COPY_LIMIT, row, tree, dest) { SubtreeWithin(t, user, COPY_LIMIT, row, tree, ids, dest); }
  }

  lemma ParentKnown(t: Table, row: Row)
    requires SoundTable(t) && row in t && row.parent.Some?
    ensures HasId(t, row.parent.value)
  {
    var i :| 0 <= i < |t| && t[i] == row;
  }

  lemma FreshIds(before: Table, added: seq<Row>, id: Id)
    requires DistinctKeys(RowId, before + added) && HasId(before, id)
    ensures forall r :: r in added ==> r.id != id
  {
    var i :| 0 <= i < |before| && before[i].id == id;
    forall r | r in added ensures r.id != id {
      var j :| 0 <= j < |added| && added[j] == r;
      assert (before + added)[i] == before[i] && (before + added)[|before| + j] == r;
      KeyApart(RowId, before + added, i, |before| + j);
    }
  }

  /** Rows appended for one entry: its copy, and rows hung below the copy. */
  ghost predicate Appended(t: Table, c: Row, more: seq<Row>, user: Id, dest: Id) {
    && c.user == user && !c.trashed && c.parent == Some(dest) && HasId(t, dest)
    && HungBelow(more, user, c.id)
    && SoundTable(t) && SoundTable(t + ([c] + more))
  }

  /** Only the destination gets a child among the rows that were there. */
  lemma AppendedElsewhere(t: Table, c: Row, more: seq<Row>, user: Id, dest: Id, id: Id)
    requires Appended(t, c, more, user, dest) && HasId(t, id) && id != dest
    ensures NoneUnder([c] + more, id)
  {
    FreshIds(t, [c] + more, id);
    assert c in [c] + more;
    forall i | 0 <= i < |more| ensures more[i].parent != Some(id) {
      if more[i].parent.value != c.id {
        var j :| 0 <= j < |more| && more[j].id == more[i].parent.value;
        assert more[j] in [c] + more;
      }
    }
  }

  lemma AppendedHere(t: Table, c: Row, more: seq<Row>, user: Id, dest: Id)
    requires Appended(t, c, more, user, dest) && dest != ""
    ensures Filter(ListedIn(user, Some(dest)), t + ([c] + more)) == Filter(ListedIn(user, Some(dest)), t) + [c]
    ensures forall r :: r in more ==> r.parent != Some(dest)
  {
    var p := ListedIn(user, Some(dest));
    FreshIds(t, [c] + more, dest);
    assert c in [c] + more;
    forall r | r in more ensures r.parent != Some(dest) {
      var i :| 0 <= i < |more| && more[i] == r;
      if r.parent.value != c.id {
        var j :| 0 <= j < |more| && more[j].id == r.parent.value;
        assert more[j] in [c] + more;
      }
    }
    forall r | r in more ensures !p(r) {}
    FilterNone(p, more);
    FilterAppend(p, [c], more);
    FilterAppend(p, t, [c] + more);
    assert [c][..0] == [];
    assert Filter(p, [c]) == Filter(p, []) + [c];
    assert Filter(p, [c]) + [] == [c];
  }

  lemma AppendedShows(t: Table, c: Row, more: seq<Row>, user: Id, dest: Id, row: Row, tree: Tree)
    requires Appended(t, c, more, user, dest) && row in t && Shows(t, user, COPY_LIMIT, row, tree)
    requires !InSubtree(t, user, COPY_LIMIT, row, tree, dest)
    ensures Shows(t + ([c] + more), user, COPY_LIMIT, row, tree)
    ensures !InSubtree(t + ([c] + more), user, COPY_LIMIT, row, tree, dest)
  {
    forall id | InSubtree(t, user, COPY_LIMIT, row, tree, id) ensures NoneUnder([c] + more, id) {
      SubtreeExists(t, user, COPY_LIMIT, row, tree, id);
      AppendedElsewhere(t, c, more, user, dest, id);
    }
    ShowsFrame(t, [c] + more, user, COPY_LIMIT, row, tree);
  }

  lemma HungStep(added: seq<Row>, c: Row, more: seq<Row>, user: Id, dest: Id)
    requires HungBelow(added, user, dest) && HungBelow(more, user, c.id)
    requires c.user == user && !c.trashed && c.parent == Some(dest)
    ensures HungBelow(added + ([c] + more), user, dest)
  {
    var all := added + ([c] + more);
    assert all[|added|] == c;
    forall i | 0 <= i < |all| ensures all[i].parent.Some? && all[i].user == user && !all[i].trashed
      && (all[i].parent.value == dest || HasId(all, all[i].parent.value))
    {
      if i < |added| && added[i].parent.value != dest {
        var j :| 0 <= j < |added| && added[j].id == added[i].parent.value;
        assert all[j] == added[j];
      } else if i > |added| {
        var m := i - |added| - 1;
        assert all[i] == more[m];
        if more[m].parent.value != c.id {
          var j :| 0 <= j < |more| && more[j].id == more[m].parent.value;
          assert all[|added| + 1 + j] == more[j];
        }
      }
    }
  }

  lemma CopiesKept(before: Table, added: seq<Row>, user: Id, copies: seq<Row>, trees: seq<Tree>, dest: Id, c: Row,
                   more: seq<Row>)
    requires CopiesShow(before + added, added, user, copies, trees) && HungBelow(added, user, dest)
    requires SoundTable(before) && HasId(before, dest) && Appended(before + added, c, more, user, dest)
    requires |copies| < |trees| && Shows(before + added + ([c] + more), user, COPY_LIMIT, c, trees[|copies|])
    ensures CopiesShow(before + added + ([c] + more), added + ([c] + more), user, copies + [c], trees)
  {
    forall i | 0 <= i < |copies|
      ensures copies[i] in added && Shows(before + added + ([c] + more), user, COPY_LIMIT, copies[i], trees[i])
    {
      CopiesApart(before, added, user, copies[i], trees[i], dest);
      AppendedShows(before + added, c, more, user, dest, copies[i], trees[i]);
    }
    assert (added + ([c] + more))[|added|] == c;
  }

  lemma ItemsKept(before: Table, t: Table, user: Id, items: seq<Row>, trees: seq<Tree>, dest: Id, c: Row,
                  more: seq<Row>)
    requires ItemsShow(before, t, user, items, trees, dest) && Appended(t, c, more, user, dest)
    requires forall r :: r in before ==> r in t
    ensures ItemsShow(before, t + ([c] + more), user, items, trees, dest)
  {
    forall i | 0 <= i < |items|
      ensures Shows(t + ([c] + more), user, COPY_LIMIT, items[i], trees[i])
      ensures !InSubtree(t + ([c] + more), user, COPY_LIMIT, items[i], trees[i], dest)
    {
      AppendedShows(t, c, more, user, dest, items[i], trees[i]);
    }
  }

  lemma HereStep(t: Table, user: Id, items: seq<Row>, copies: seq<Row>, dest: Id, c: Row, more: seq<Row>)
    requires CopiesHere(t, user, items, copies, dest) && |copies| < |items| && dest != ""
      && Appended(t, c, more, user, dest)
    requires c.name == items[|copies|].name && c.kind == items[|copies|].kind
    ensures CopiesHere(t + ([c] + more), user, items, copies + [c], dest)
  {
    AppendedHere(t, c, more, user, dest);
  }

  /** One more entry copied, with everything below it. */
  lemma CopyStep(before: Table, t: Table, added: seq<Row>, user: Id, items: seq<Row>, trees: seq<Tree>,
                 copies: seq<Row>, dest: Id,
                 c: Row, more: seq<Row>)
    requires Copying(before, t, added, user, items, trees, copies, dest) && |copies| < |items|
    requires SoundTable(before) && HasId(before, dest) && dest != "" && Appended(t, c, more, user, dest)
    requires c.name == items[|copies|].name && c.kind == items[|copies|].kind
    requires Shows(t + ([c] + more), user, COPY_LIMIT, c, trees[|copies|])
    ensures Copying(before, t + ([c] + more), added + ([c] + more), user, items, trees, copies + [c], dest)
  {
    HungStep(added, c, more, user, dest);
    HereStep(t, user, items, copies, dest, c, more);
    CopiesKept(before, added, user, copies, trees, dest, c, more);
    ItemsKept(before, t, user, items, trees, dest, c, more);
    Associate(before, added, [c] + more);
  }

  // --- The entries of a folder ---------------------------------------------------------------

  lemma RowOrderTotal()
    ensures TotalOrder(RowOrder)
  {
    forall a, b ensures RowOrder(a, b) || RowOrder(b, a) {
      StringTotal(a.name, b.name); StringTotal(a.kind, b.kind);
    }
    forall a, b, c | RowOrder(a, b) && RowOrder(b, c) ensures RowOrder(a, c) {
      StringTotal(a.kind, b.kind); StringTotal(b.kind, c.kind); StringTotal(a.kind, c.kind);
      if a.kind == b.kind == c.kind { StringTransitive(a.name, b.name, c.name); }
      else { StringTransitive(c.kind, b.kind, a.kind); }
    }
  }

  lemma ListingSorted(t: Table, user: Id, parent: Option<Id>, limit: nat)
    ensures Sorted(RowOrder, Listing(t, user, parent, limit))
  {
    RowOrderTotal();
    SortSorts(RowOrder, Filter(ListedIn(user, parent), t));
  }

  /** Copies of a listing, in its order, list in that order. */
  lemma CopiesListed(t: Table, user: Id, dest: Id, items: seq<Row>, copies: seq<Row>)
    requires |copies| == |items| <= COPY_LIMIT && Sorted(RowOrder, items)
    requires forall i :: 0 <= i < |items| ==> copies[i].name == items[i].name && copies[i].kind == items[i].kind
    requires Filter(ListedIn(user, Some(dest)), t) == copies
    ensures Listing(t, user, Some(dest), COPY_LIMIT) == copies
  {
    forall i, j | 0 <= i < j < |copies| ensures RowOrder(copies[i], copies[j]) { assert RowOrder(items[i], items[j]); }
    SortFixed(RowOrder, copies);
  }

  /** A folder lists no two rows of one name. */
  lemma ListingNames(t: Table, user: Id, id: Id, limit: nat, i: nat, j: nat)
    requires SoundTable(t) && id != "" && i < j < |Listing(t, user, Some(id), limit)|
    ensures Listing(t, user, Some(id), limit)[i].name != Listing(t, user, Some(id), limit)[j].name
  {
    var rows := Listing(t, user, Some(id), limit);
    ListingDistinct(t, user, Some(id), limit);
    KeyApart(RowId, rows, i, j);
    ListingMembers(t, user, Some(id), limit, rows[i]);
    ListingMembers(t, user, Some(id), limit, rows[j]);
    var k :| 0 <= k < |t| && t[k] == rows[i];
    var m :| 0 <= m < |t| && t[m] == rows[j];
    assert k < m ==> !Clash(t[k], t[m]);
    assert m < k ==> !Clash(t[m], t[k]);
  }

  /** The next copy can be inserted. */
  lemma CopyInserts(t: Table, user: Id, items: seq<Row>, copies: seq<Row>, dest: Id, c: Row)
    requires CopiesHere(t, user, items, copies, dest) && |copies| < |items|
    requires c.user == user && c.parent == Some(dest) && c.name == items[|copies|].name
    requires !HasId(t, c.id) && HasId(t, dest)
    requires forall i, j :: 0 <= i < j < |items| ==> items[i].name != items[j].name
    ensures CanInsert(t, c)
  {
    forall i | 0 <= i < |t| ensures !Clash(t[i], c) {
      if t[i].parent == Some(dest) {
        assert t[i] in t;
        var j :| 0 <= j < |copies| && copies[j] == t[i];
        assert items[j].name != items[|copies|].name;
      }
    }
  }

  // --- Progress through the entries of a folder ---------------------------------------------------

  /** The first i entries have been copied. */
  ghost predicate Progress(before: Table, t: Table, user: Id, items: seq<Row>, trees: seq<Tree>, dest: Id, i: nat) {
    && SoundTable(t)
    && exists added, copies :: |copies| == i && Copying(before, t, added, user, items, trees, copies, dest)
  }

  lemma ProgressStarts(t: Table, user: Id, source: Id, dest: Id, trees: seq<Tree>)
    requires SoundTable(t) && source != "" && dest != "" && NoneUnder(t, dest)
    requires ShowsAll(t, user, COPY_LIMIT, Listing(t, user, Some(source), COPY_LIMIT), trees)
    requires !InForest(t, user, COPY_LIMIT, Listing(t, user, Some(source), COPY_LIMIT), trees, dest)
    ensures Progress(t, t, user, Listing(t, user, Some(source), COPY_LIMIT), trees, dest, 0)
  {
    CopyStarts(t, user, source, dest, trees);
    var none: seq<Row> := [];
    assert |none| == 0;
  }

  /** What the next entry finds: its tree is still there, and the destination
      holds the copies made so far. */
  lemma ProgressHere(before: Table, t: Table, user: Id, items: seq<Row>, trees: seq<Tree>, dest: Id, i: nat)
    returns (copies: seq<Row>)
    requires Progress(before, t, user, items, trees, dest, i) && i < |items| && HasId(before, dest)
    ensures |copies| == i && |trees| == |items| && CopiesHere(t, user, items, copies, dest) && HasId(t, dest)
    ensures items[i] in t && Shows(t, user, COPY_LIMIT, items[i], trees[i])
    ensures !InSubtree(t, user, COPY_LIMIT, items[i], trees[i], dest)
  {
    var added;
    added, copies :| |copies| == i && Copying(before, t, added, user, items, trees, copies, dest);
    StillThere(before, added, dest);
  }

  lemma ProgressNext(before: Table, t: Table, user: Id, items: seq<Row>, trees: seq<Tree>, dest: Id, i: nat,
                     c: Row, more: seq<Row>)
    requires Progress(before, t, user, items, trees, dest, i) && i < |items| == |trees|
    requires SoundTable(before) && HasId(before, dest) && dest != "" && Appended(t, c, more, user, dest)
    requires IsCopy(c, items[i], user, dest) && Shows(t + ([c] + more), user, COPY_LIMIT, c, trees[i])
    ensures Progress(before, t + ([c] + more), user, items, trees, dest, i + 1)
  {
    var added, copies :| |copies| == i && Copying(before, t, added, user, items, trees, copies, dest);
    CopyStep(before, t, added, user, items, trees, copies, dest, c, more);
    assert |copies + [c]| == i + 1;
  }

  lemma ProgressDone(before: Table, t: Table, user: Id, source: Id, items: seq<Row>, trees: seq<Tree>, dest: Id)
    requires Entries(before, user, source, items) && Progress(before, t, user, items, trees, dest, |items|)
    ensures |before| <= |t| && t[..|before|] == before && HungBelow(t[|before|..], user, dest)
    ensures ShowsAll(t, user, COPY_LIMIT, Listing(t, user, Some(dest), COPY_LIMIT), trees)
  {
    var added, copies :| |copies| == |items| && Copying(before, t, added, user, items, trees, copies, dest);
    ListingSorted(before, user, Some(source), COPY_LIMIT);
    CopiesListed(t, user, dest, items, copies);
    assert t[..|before|] == before && t[|before|..] == added;
  }

  // --- The copy as a relation ------------------------------------------------------------------

  /** The row the loop makes of an entry, whatever its id and time. */
  ghost predicate IsCopy(c: Row, item: Row, user: Id, dest: Id) {
    c.id != "" && c == CopyOf(item, c.id, Some(dest), item.name, item.version, user, c.updated)
  }

  /** Copying what `source` lists into `dest`, started on table t, comes to an end
      within n nested calls: with table r, or with a failed insertion. */
  ghost predicate Ends(t: Table, user: Id, source: Id, dest: Id, r: Option<Table>, n: nat)
    decreases n, 1, 0
  {
    var items := Listing(t, user, Some(source), COPY_LIMIT);
    n > 0 && EachEnds(t, user, items, |items|, dest, r, n)
  }

  /** The loop over the first i entries. */
  ghost predicate EachEnds(t: Table, user: Id, items: seq<Row>, i: nat, dest: Id, r: Option<Table>, n: nat)
    requires n > 0 && i <= |items|
    decreases n, 0, 2 * i
  {
    if i == 0 then r == Some(t)
    else (r == None && EachEnds(t, user, items, i - 1, dest, None, n)) || NextEnds(t, user, items, i - 1, dest, r, n)
  }

  /** The loop gets through i entries and then through one more. */
  ghost predicate NextEnds(t: Table, user: Id, items: seq<Row>, i: nat, dest: Id, r: Option<Table>, n: nat)
    requires n > 0 && i < |items|
    decreases n, 0, 2 * i + 1
  {
    exists u, c :: EachEnds(t, user, items, i, dest, Some(u), n) && EntryEnds(u, user, items[i], c, dest, r, n)
  }

  /** One entry: its copy c is inserted, and a folder's contents are copied. */
  ghost predicate EntryEnds(u: Table, user: Id, item: Row, c: Row, dest: Id, r: Option<Table>, n: nat)
    requires n > 0
    decreases n, 0, 0
  {
    && IsCopy(c, item, user, dest) && !HasId(u, c.id)
    && if !CanInsert(u, c) then r == None
       else if item.kind == FOLDER then Ends(u + [c], user, item.id, c.id, r, n - 1)
       else r == Some(u + [c])
  }

  lemma EachNext(t: Table, user: Id, items: seq<Row>, i: nat, u: Table, c: Row, dest: Id, r: Option<Table>, n: nat)
    requires n > 0 && i < |items| && EachEnds(t, user, items, i, dest, Some(u), n)
    requires EntryEnds(u, user, items[i], c, dest, r, n)
    ensures EachEnds(t, user, items, i + 1, dest, r, n)
  {
    assert NextEnds(t, user, items, i, dest, r, n);
  }

  lemma FolderEnds(u: Table, user: Id, item: Row, c: Row, dest: Id, v: Table, n: nat)
    requires n > 0 && item.kind == FOLDER && IsCopy(c, item, user, dest) && CanInsert(u, c)
    requires Ends(u + [c], user, item.id, c.id, Some(v), n - 1)
    ensures EntryEnds(u, user, item, c, dest, Some(v), n)
  {}

  ghost function Height(tree: Tree): nat
    decreases tree, 0
  {
    1 + Heights(tree.children)
  }

  ghost function Heights(trees: seq<Tree>): nat
    decreases trees, 1
  {
    if trees == [] then 0 else
      var before, last := Heights(trees[..|trees| - 1]), Height(trees[|trees| - 1]);
      if last > before then last else before
  }

  lemma {:induction false} HeightWithin(trees: seq<Tree>, i: nat)
    requires i < |trees|
    ensures Height(trees[i]) <= Heights(trees)
  {
    var k := |trees| - 1;
    if i < k {
      HeightWithin(trees[..k], i);
      assert trees[..k][i] == trees[i];
    }
  }

  // --- The code ---------------------------------------------------------------------------------

  class Vfs {
    var rows: Table

    method CreateFile(row: Row) returns (ok: bool)
      modifies this
      ensures ok <==> CanInsert(old(rows), row)
      ensures rows == if ok then old(rows) + [row] else old(rows)
    {
      ok := CanInsert(rows, row);
      if ok { rows := rows + [row]; }
    }

    /** Copies what a folder lists into a folder that has nothing in it; n bounds
        the height of what is copied. */
    method CopyFolderContents(user: Id, source: Id, dest: Id, now: MerkleTree.Int64, ghost trees: seq<Tree>,
                              ghost n: nat)
      returns (ok: bool)
      requires SoundTable(rows) && source != "" && dest != "" && HasId(rows, dest) && NoneUnder(rows, dest)
      requires ShowsAll(rows, user, COPY_LIMIT, Listing(rows, user, Some(source), COPY_LIMIT), trees)
      requires !InForest(rows, user, COPY_LIMIT, Listing(rows, user, Some(source), COPY_LIMIT), trees, dest)
      requires n > Heights(trees)
      modifies this
      ensures ok && SoundTable(rows)
      ensures |old(rows)| <= |rows| && rows[..|old(rows)|] == old(rows)
      ensures HungBelow(rows[|old(rows)|..], user, dest)
      ensures ShowsAll(rows, user, COPY_LIMIT, Listing(rows, user, Some(dest), COPY_LIMIT), trees)
      ensures Ends(old(rows), user, source, dest, Some(rows), n)
      decreases n, 2
    {
      ghost var before := rows;
      var items := Listing(rows, user, Some(source), COPY_LIMIT);
      ProgressStarts(before, user, source, dest, trees);
      for i := 0 to |items|
        invariant Progress(before, rows, user, items, trees, dest, i)
        invariant EachEnds(before, user, items, i, dest, Some(rows), n)
      {
        CopyEntry(before, user, items, trees, source, dest, i, now, n);
      }
      ProgressDone(before, rows, user, source, items, trees, dest);
      ok := true;
    }

    /** One entry of the loop: insert its copy and, for a folder, copy below it. */
    method CopyEntry(ghost before: Table, user: Id, items: seq<Row>, ghost trees: seq<Tree>, ghost source: Id, dest: Id,
                     i: nat, now: MerkleTree.Int64, ghost n: nat)
      requires i < |items| == |trees| && Entries(before, user, source, items) && HasId(before, dest) && dest != ""
      requires Progress(before, rows, user, items, trees, dest, i) && n > Heights(trees)
      requires EachEnds(before, user, items, i, dest, Some(rows), n)
      modifies this
      ensures Progress(before, rows, user, items, trees, dest, i + 1)
      ensures EachEnds(before, user, items, i + 1, dest, Some(rows), n)
      decreases n, 1
    {
      ghost var t := rows;
      ghost var copies := ProgressHere(before, t, user, items, trees, dest, i);
      EntriesApart(before, user, source, items);
      var copyItem := InsertCopy(user, items[i], dest, now, items, copies);
      HeightWithin(trees, i);
      ghost var more := CopyBelow(t, user, dest, items[i], copyItem, now, trees[i], n);
      ProgressNext(before, t, user, items, trees, dest, i, copyItem, more);
      EachNext(before, user, items, i, t, copyItem, dest, Some(rows), n);
    }

    /** Inserts the copy of one entry under a fresh id. */
    method InsertCopy(user: Id, item: Row, dest: Id, now: MerkleTree.Int64, ghost items: seq<Row>,
                      ghost copies: seq<Row>)
      returns (copyItem: Row)
      requires SoundTable(rows) && HasId(rows, dest) && dest != ""
      requires CopiesHere(rows, user, items, copies, dest) && |copies| < |items| && item == items[|copies|]
      requires forall j, k :: 0 <= j < k < |items| ==> items[j].name != items[k].name
      modifies this
      ensures rows == old(rows) + [copyItem] && SoundTable(rows)
      ensures IsCopy(copyItem, item, user, dest) && copyItem.updated == now && CanInsert(old(rows), copyItem)
    {
      var id := GenerateId(rows);
      copyItem := CopyOf(item, id, Some(dest), item.name, item.version, user, now);
      CopyInserts(rows, user, items, copies, dest, copyItem);
      InsertValid(rows, copyItem);
      var created := CreateFile(copyItem);
    }

    /** Fills a copy that was just inserted. */
    method CopyBelow(ghost t: Table, user: Id, ghost dest: Id, item: Row, copyItem: Row, now: MerkleTree.Int64,
                     ghost tree: Tree, ghost n: nat)
      returns (ghost more: seq<Row>)
      requires SoundTable(t) && rows == t + [copyItem] && SoundTable(rows) && HasId(t, dest)
      requires IsCopy(copyItem, item, user, dest) && CanInsert(t, copyItem) && n > Height(tree)
      requires item in t && Shows(t, user, COPY_LIMIT, item, tree) && !InSubtree(t, user, COPY_LIMIT, item, tree, dest)
      modifies this
      ensures rows == t + ([copyItem] + more) && Appended(t, copyItem, more, user, dest)
      ensures Shows(rows, user, COPY_LIMIT, copyItem, tree)
      ensures EntryEnds(t, user, item, copyItem, dest, Some(rows), n)
      decreases n, 0
    {
      if item.kind == FOLDER {
        ghost var before := rows;
        Descends(t, user, item, copyItem, tree, dest);
        var done := CopyFolderContents(user, item.id, copyItem.id, now, tree.children, n - 1);
        more := FolderDone(t, user, item, copyItem, tree, dest, before, rows, n);
      } else {
        more := [];
        FileAlone(t, user, item, copyItem, tree, dest, n);
      }
    }

    /** Copies a file or folder below a parent; an empty parent id is the root, an
        empty name keeps the source's.  The tree is the source's: it has one
        unless parents form a cycle.  The destination must not be a folder of it. */
    method Copy(user: Id, fileId: Id, newParentId: Id, newName: string, now: MerkleTree.Int64, ghost tree: Tree)
      returns (r: Outcome)
      requires SoundTable(rows)
      requires var source := FindById(rows, fileId);
        source.Some? && source.value.user == user ==>
          Shows(rows, user, COPY_LIMIT, source.value, tree)
          && (newParentId != "" ==> !InSubtree(rows, user, COPY_LIMIT, source.value, tree, newParentId))
      modifies this
      ensures r == Expected(old(rows), user, fileId, newParentId, newName)
      ensures r != Copied ==> rows == old(rows)
      ensures r == Copied ==>
        CopiedInto(old(rows), rows, user, FindById(old(rows), fileId).value, Directory(Some(newParentId)),
                   NewName(old(rows), fileId, newName), tree)
    {
      var source := FindById(rows, fileId);
      if source.None? { return NotFound; }
      if source.value.user != user { return PermissionDenied; }
      var name := if newName == "" then source.value.name else newName;
      if !ValidName(name) { return InvalidName; }
      var existing := FindNamed(rows, user, Some(newParentId), name);
      if existing.Some? { return AlreadyExists; }
      var created := CreateCopy(user, source.value, Directory(Some(newParentId)), name, now, tree);
      r := if created then Copied else CreateFailed;
    }

    /** Inserts the copy of a row and fills it. */
    method CreateCopy(user: Id, source: Row, parent: Option<Id>, name: string, now: MerkleTree.Int64, ghost tree: Tree)
      returns (created: bool)
      requires SoundTable(rows) && source in rows && source.user == user && parent != Some("")
      requires Shows(rows, user, COPY_LIMIT, source, tree)
      requires parent.Some? ==> !InSubtree(rows, user, COPY_LIMIT, source, tree, parent.value)
      modifies this
      ensures created <==> !Refused(old(rows), user, parent, name)
      ensures !created ==> rows == old(rows)
      ensures created ==> CopiedInto(old(rows), rows, user, source, parent, name, tree)
    {
      ghost var t := rows;
      var id := GenerateId(rows);
      var copyFile := CopyOf(source, id, parent, name, 1, user, now);
      RefusedIff(t, copyFile);
      created := CreateFile(copyFile);
      if !created { return; }
      InsertValid(t, copyFile);
      FillCopy(t, user, source, copyFile, parent, name, now, tree);
    }

    /** Copies a folder's contents into the copy of it just inserted. */
    method FillCopy(ghost t: Table, user: Id, source: Row, copyFile: Row, ghost parent: Option<Id>, ghost name: string,
                    now: MerkleTree.Int64, ghost tree: Tree)
      requires SoundTable(t) && rows == t + [copyFile] && SoundTable(rows) && source in t
      requires CanInsert(t, copyFile) && copyFile == CopyOf(source, copyFile.id, parent, name, 1, user, now)
      requires Shows(t, user, COPY_LIMIT, source, tree)
      requires parent.Some? ==> !InSubtree(t, user, COPY_LIMIT, source, tree, parent.value)
      modifies this
      ensures CopiedInto(t, rows, user, source, parent, name, tree)
    {
      if source.kind == FOLDER {
        CopyDescends(t, copyFile, user, source, tree);
        var done := CopyFolderContents(user, source.id, copyFile.id, now, tree.children, Heights(tree.children) + 1);
        FolderCopied(t, rows, user, source, copyFile, parent, name, tree);
      } else {
        FileCopied(t, user, source, copyFile, parent, name, tree);
      }
    }
  }

  /** The table after a copy: the old rows as they were, the copy, and the rows
      hung below it; the copy shows the source's tree. */
  ghost predicate CopiedInto(before: Table, after: Table, user: Id, source: Row, parent: Option<Id>, name: string,
                             tree: Tree)
  {
    && SoundTable(after) && |before| < |after| && after[..|before|] == before
    && var copy := after[|before|];
    && copy.user == user && copy.parent == parent && !copy.trashed
    && Shows(after, user, COPY_LIMIT, copy, tree.(name := name, version := 1))
    && HungBelow(after[|before| + 1..], user, copy.id)
  }

  lemma FolderCopied(t: Table, after: Table, user: Id, source: Row, copy: Row, parent: Option<Id>, name: string,
                     tree: Tree)
    requires SoundTable(after) && |after| > |t| && after[..|t| + 1] == t + [copy]
    requires source.kind == FOLDER && Shows(t, user, COPY_LIMIT, source, tree)
    requires copy == CopyOf(source, copy.id, parent, name, 1, user, copy.updated)
    requires ShowsAll(after, user, COPY_LIMIT, Listing(after, user, Some(copy.id), COPY_LIMIT), tree.children)
    requires HungBelow(after[|t| + 1..], user, copy.id)
    ensures CopiedInto(t, after, user, source, parent, name, tree)
  {
    assert after[|t|] == after[..|t| + 1][|t|] == copy;
    assert after[..|t|] == after[..|t| + 1][..|t|] == t;
  }

  lemma FileCopied(t: Table, user: Id, source: Row, copy: Row, parent: Option<Id>, name: string, tree: Tree)
    requires SoundTable(t + [copy]) && source.kind != FOLDER && Shows(t, user, COPY_LIMIT, source, tree)
    requires copy == CopyOf(source, copy.id, parent, name, 1, user, copy.updated)
    ensures CopiedInto(t, t + [copy], user, source, parent, name, tree)
  {
    assert (t + [copy])[|t|] == copy && (t + [copy])[..|t|] == t && (t + [copy])[|t| + 1..] == [];
  }

  lemma RefusedIff(t: Table, row: Row)
    requires !HasId(t, row.id)
    ensures CanInsert(t, row) <==> !Refused(t, row.user, row.parent, row.name)
  {
    if i :| 0 <= i < |t| && t[i].parent == row.parent && t[i].user == row.user && t[i].name == row.name
            && row.parent.Some?
    {
      assert Clash(t[i], row);
    }
  }

  function NewName(t: Table, fileId: Id, newName: string): string {
    if newName == "" && FindById(t, fileId).Some? then FindById(t, fileId).value.name else newName
  }

  /** Whether the database refuses a new row: an unknown parent, or a row of the
      same name in the same folder, in the trash or not. */
  predicate Refused(t: Table, user: Id, parent: Option<Id>, name: string) {
    parent.Some? &&
    (!HasId(t, parent.value)
     || exists i :: 0 <= i < |t| && t[i].parent == parent && t[i].user == user && t[i].name == name)
  }

  function Expected(t: Table, user: Id, fileId: Id, newParentId: Id, newName: string): Outcome {
    var source := FindById(t, fileId);
    var name := NewName(t, fileId, newName);
    if source.None? then NotFound
    else if source.value.user != user then PermissionDenied
    else if !ValidName(name) then InvalidName
    else if FindNamed(t, user, Some(newParentId), name).Some? then AlreadyExists
    else if Refused(t, user, Directory(Some(newParentId)), name) then CreateFailed
    else Copied
  }

  /** A row of this user in this directory with this name. */
  predicate Occupies(row: Row, user: Id, parent: Option<Id>, name: string) {
    row.user == user && row.parent == parent && row.name == name
  }

  predicate BadName(name: string) {
    name in {"", ".", ".."} || exists c :: c in name && (c == '/' || c < ' ')
  }

  /** The outcome for an existing source, by what the table holds: the database also
      refuses a name that only a trashed row of the folder has. */
  lemma CopyOutcomes(t: Table, user: Id, source: Row, newParentId: Id, newName: string)
    requires SoundTable(t) && source in t
    ensures var r := Expected(t, user, source.id, newParentId, newName);
      var name := if newName != "" then newName else source.name;
      var parent := if newParentId != "" then Some(newParentId) else None;
      var mine := source.user == user;
      var taken := exists row :: row in t && Occupies(row, user, parent, name) && !row.trashed;
      var refused := parent.Some? && (!HasId(t, newParentId)
                                      || exists row :: row in t && Occupies(row, user, parent, name));
      && (r.PermissionDenied? <==> !mine)
      && (r.InvalidName? <==> mine && BadName(name))
      && (r.AlreadyExists? <==> mine && !BadName(name) && taken)
      && (r.CreateFailed? <==> mine && !BadName(name) && !taken && refused)
      && (r.Copied? <==> mine && !BadName(name) && !taken && !refused)
  {
    var name := if newName != "" then newName else source.name;
    var parent := Directory(Some(newParentId));
    FindsRow(t, source);
    NameTells(name);
    OccupiedUntrashed(t, user, newParentId, name);
    OccupiedAtAll(t, user, parent, name);
  }

  /** Only a source that is not in the table is not found. */
  lemma CopyUnknown(t: Table, user: Id, fileId: Id, newParentId: Id, newName: string)
    ensures Expected(t, user, fileId, newParentId, newName).NotFound? <==> !HasId(t, fileId)
  {
    if FindById(t, fileId).Some? {
      var i :| 0 <= i < |t| && t[i] == FindById(t, fileId).value;
    }
  }

  lemma NameTells(name: string)
    ensures ValidName(name) <==> !BadName(name)
  {
    if c :| c in name && (c == '/' || c < ' ') { var i :| 0 <= i < |name| && name[i] == c; }
    forall i | 0 <= i < |name| ensures name[i] in name {}
  }

  lemma OccupiedUntrashed(t: Table, user: Id, parent: Id, name: string)
    ensures FindNamed(t, user, Some(parent), name).Some?
            <==> exists row :: row in t && Occupies(row, user, Directory(Some(parent)), name) && !row.trashed
  {
    var p := NamedIn(user, Some(parent), name);
    var rows := Filter(p, t);
    if rows != [] { FilterMembers(p, t, rows[0]); }
    forall row | row in t && Occupies(row, user, Directory(Some(parent)), name) && !row.trashed ensures row in rows {
      FilterMembers(p, t, row);
    }
  }

  lemma OccupiedAtAll(t: Table, user: Id, parent: Option<Id>, name: string)
    ensures (exists row :: row in t && Occupies(row, user, parent, name))
            <==> exists i :: 0 <= i < |t| && t[i].parent == parent && t[i].user == user && t[i].name == name
  {
    if i :| 0 <= i < |t| && t[i].parent == parent && t[i].user == user && t[i].name == name {
      assert t[i] in t && Occupies(t[i], user, parent, name);
    }
  }

  lemma CutAt(t: Table, c: Row, rows: Table)
    requires |rows| > |t| && rows[..|t| + 1] == t + [c]
    ensures rows == t + ([c] + rows[|t| + 1..])
  {
    assert rows == rows[..|t| + 1] + rows[|t| + 1..];
  }

  lemma StillThere(before: Table, added: seq<Row>, id: Id)
    requires HasId(before, id)
    ensures HasId(before + added, id)
  {
    var k :| 0 <= k < |before| && before[k].id == id;
    assert (before + added)[k].id == id;
  }

  lemma CopyStarts(t: Table, user: Id, source: Id, dest: Id, trees: seq<Tree>)
    requires SoundTable(t) && source != "" && dest != "" && NoneUnder(t, dest)
    requires ShowsAll(t, user, COPY_LIMIT, Listing(t, user, Some(source), COPY_LIMIT), trees)
    requires !InForest(t, user, COPY_LIMIT, Listing(t, user, Some(source), COPY_LIMIT), trees, dest)
    ensures Copying(t, t, [], user, Listing(t, user, Some(source), COPY_LIMIT), trees, [], dest)
    ensures |Listing(t, user, Some(source), COPY_LIMIT)| <= COPY_LIMIT
  {
    var items := Listing(t, user, Some(source), COPY_LIMIT);
    assert t + [] == t;
    forall r | r in t ensures r.parent != Some(dest) { var i :| 0 <= i < |t| && t[i] == r; }
    FilterNone(ListedIn(user, Some(dest)), t);
    forall i | 0 <= i < |items| ensures items[i] in t { ListingMembers(t, user, Some(source), COPY_LIMIT, items[i]); }
  }

  /** The entries a folder lists: no two of one name. */
  ghost predicate Entries(t: Table, user: Id, source: Id, items: seq<Row>) {
    SoundTable(t) && source != "" && items == Listing(t, user, Some(source), COPY_LIMIT)
  }

  lemma EntriesApart(t: Table, user: Id, source: Id, items: seq<Row>)
    requires Entries(t, user, source, items)
    ensures forall j, k :: 0 <= j < k < |items| ==> items[j].name != items[k].name
  {
    forall j, k | 0 <= j < k < |items| ensures items[j].name != items[k].name {
      ListingNames(t, user, source, COPY_LIMIT, j, k);
    }
  }

  lemma Descends(u: Table, user: Id, item: Row, c: Row, tree: Tree, dest: Id)
    requires SoundTable(u) && HasId(u, dest) && item in u && item.kind == FOLDER
    requires IsCopy(c, item, user, dest) && CanInsert(u, c) && SoundTable(u + [c])
    requires Shows(u, user, COPY_LIMIT, item, tree) && !InSubtree(u, user, COPY_LIMIT, item, tree, dest)
    ensures item.id != "" && c.id != "" && HasId(u + [c], c.id) && NoneUnder(u + [c], c.id)
    ensures var items := Listing(u + [c], user, Some(item.id), COPY_LIMIT);
      ShowsAll(u + [c], user, COPY_LIMIT, items, tree.children)
      && !InForest(u + [c], user, COPY_LIMIT, items, tree.children, c.id)
  {
    CopyDescends(u, c, user, item, tree);
  }

  lemma FolderDone(u: Table, user: Id, item: Row, c: Row, tree: Tree, dest: Id, before: Table, v: Table, n: nat)
    returns (more: seq<Row>)
    requires SoundTable(u) && HasId(u, dest) && item.kind == FOLDER && n > 0 && before == u + [c]
    requires IsCopy(c, item, user, dest) && CanInsert(u, c) && Shows(u, user, COPY_LIMIT, item, tree)
    requires Ends(before, user, item.id, c.id, Some(v), n - 1)
    requires |before| <= |v| && v[..|before|] == before && SoundTable(v)
    requires HungBelow(v[|before|..], user, c.id)
    requires ShowsAll(v, user, COPY_LIMIT, Listing(v, user, Some(c.id), COPY_LIMIT), tree.children)
    ensures v == u + ([c] + more) && Appended(u, c, more, user, dest) && Shows(v, user, COPY_LIMIT, c, tree)
    ensures EntryEnds(u, user, item, c, dest, Some(v), n)
  {
    more := FolderBelow(u, user, c, v);
    FolderShows(u, user, item, c, tree, v);
    FolderEnds(u, user, item, c, dest, v, n);
  }

  lemma FolderShows(u: Table, user: Id, item: Row, c: Row, tree: Tree, v: Table)
    requires item.kind == FOLDER && Shows(u, user, COPY_LIMIT, item, tree)
    requires c == CopyOf(item, c.id, c.parent, item.name, item.version, user, c.updated)
    requires ShowsAll(v, user, COPY_LIMIT, Listing(v, user, Some(c.id), COPY_LIMIT), tree.children)
    ensures Shows(v, user, COPY_LIMIT, c, tree)
  {}

  lemma FileAlone(u: Table, user: Id, item: Row, c: Row, tree: Tree, dest: Id, n: nat)
    requires SoundTable(u) && HasId(u, dest) && item.kind != FOLDER && n > 0
    requires IsCopy(c, item, user, dest) && CanInsert(u, c) && SoundTable(u + [c])
    requires Shows(u, user, COPY_LIMIT, item, tree)
    ensures Appended(u, c, [], user, dest) && Shows(u + ([c] + []), user, COPY_LIMIT, c, tree)
    ensures EntryEnds(u, user, item, c, dest, Some(u + ([c] + [])), n)
  {
    assert [c] + [] == [c];
  }

  lemma FolderBelow(u: Table, user: Id, c: Row, v: Table) returns (more: seq<Row>)
    requires |u + [c]| <= |v| && v[..|u + [c]|] == u + [c] && HungBelow(v[|u + [c]|..], user, c.id)
    ensures v == u + ([c] + more) && HungBelow(more, user, c.id)
  {
    assert |u + [c]| == |u| + 1;
    more := v[|u| + 1..];
    CutAt(u, c, v);
  }

  /** After inserting the copy of a folder, its contents can be copied. */
  lemma CopyDescends(t: Table, c: Row, user: Id, item: Row, tree: Tree)
    requires SoundTable(t) && SoundTable(t + [c]) && (c.parent.Some? ==> HasId(t, c.parent.value))
    requires item in t && item.kind == FOLDER && Shows(t, user, COPY_LIMIT, item, tree)
    requires c.parent.Some? ==> !InSubtree(t, user, COPY_LIMIT, item, tree, c.parent.value)
    ensures item.id != "" && c.id != "" && HasId(t + [c], c.id) && NoneUnder(t + [c], c.id)
    ensures Shows(t + [c], user, COPY_LIMIT, item, tree)
    ensures !InForest(t + [c], user, COPY_LIMIT, Listing(t + [c], user, Some(item.id), COPY_LIMIT), tree.children, c.id)
  {
    assert (t + [c])[|t|] == c;
    IdNotEmpty(t, item);
    IdNotEmpty(t + [c], c);
    forall id | InSubtree(t, user, COPY_LIMIT, item, tree, id) ensures NoneUnder([c], id) {}
    ShowsFrame(t, [c], user, COPY_LIMIT, item, tree);
    assert c in [c];
    if HasId(t, c.id) { FreshIds(t, [c], c.id); }
    if InSubtree(t, user, COPY_LIMIT, item, tree, c.id) { SubtreeExists(t, user, COPY_LIMIT, item, tree, c.id); }
    assert forall i :: 0 <= i < |t| ==> t[i].parent != Some(c.id);
  }

  /** Below the listing limit nothing is left out of a copy. */
  lemma {:induction false} NothingLeftOut(t: Table, user: Id, row: Row, tree: Tree, limit: nat)
    requires limit >= 1000 && forall parent :: |Filter(ListedIn(user, parent), t)| <= 1000
    ensures Shows(t, user, COPY_LIMIT, row, tree) <==> Shows(t, user, limit, row, tree)
    decreases tree
  {
    if row.kind == FOLDER {
      var rows := Listing(t, user, Some(row.id), limit);
      assert |Filter(ListedIn(user, Some(row.id)), t)| <= COPY_LIMIT;
      assert rows == Listing(t, user, Some(row.id), COPY_LIMIT);
      if |rows| == |tree.children| {
        forall i | 0 <= i < |rows|
          ensures Shows(t, user, COPY_LIMIT, rows[i], tree.children[i]) <==>
            Shows(t, user, limit, rows[i], tree.children[i])
        {
          NothingLeftOut(t, user, rows[i], tree.children[i], limit);
        }
      }
    }
  }
}
