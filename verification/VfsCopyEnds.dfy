/** When a recursive copy ends. */
module VfsCopyEnds {
  // copyFolderContents of internal/vfs/vfs.go as a relation on tables, for any
  // table, source and destination, and for any fresh ids.

  import opened Common
  import opened Sorting
  import opened VfsModel
  import opened VfsCopy

  // --- A copy that ends has not failed ---------------------------------------------------------

  /** What holds after some entries: rows were hung below the destination, which
      holds just the copies of those entries. */
  ghost predicate Filled(t: Table, u: Table, user: Id, items: seq<Row>, copies: seq<Row>, dest: Id) {
    && |t| <= |u| && u[..|t|] == t && SoundTable(u)
    && HungBelow(u[|t|..], user, dest)
    && CopiesHere(u, user, items, copies, dest)
  }

  ghost predicate Start(t: Table, user: Id, items: seq<Row>, dest: Id) {
    && SoundTable(t) && dest != "" && HasId(t, dest) && NoneUnder(t, dest) && |items| <= COPY_LIMIT
    && (forall i, j :: 0 <= i < j < |items| ==> items[i].name != items[j].name)
    && (forall i :: 0 <= i < |items| && items[i].kind == FOLDER ==> items[i].id != "")
  }

  lemma ListingStarts(t: Table, user: Id, source: Id, dest: Id)
    requires SoundTable(t) && source != "" && dest != "" && HasId(t, dest) && NoneUnder(t, dest)
    ensures Start(t, user, Listing(t, user, Some(source), COPY_LIMIT), dest)
  {
    var items := Listing(t, user, Some(source), COPY_LIMIT);
    forall i, j | 0 <= i < j < |items| ensures items[i].name != items[j].name {
      ListingNames(t, user, source, COPY_LIMIT, i, j);
    }
    forall i | 0 <= i < |items| ensures items[i].id != "" {
      ListingMembers(t, user, Some(source), COPY_LIMIT, items[i]);
      IdNotEmpty(t, items[i]);
    }
  }

  lemma NothingFilled(t: Table, user: Id, items: seq<Row>, dest: Id)
    requires Start(t, user, items, dest)
    ensures Filled(t, t, user, items, [], dest)
  {
    assert t[|t|..] == [];
    forall r | r in t ensures r.parent != Some(dest) { var i :| 0 <= i < |t| && t[i] == r; }
    FilterNone(ListedIn(user, Some(dest)), t);
  }

  /** The destination is still there. */
  lemma StillHere(t: Table, u: Table, id: Id)
    requires |t| <= |u| && u[..|t|] == t && HasId(t, id)
    ensures HasId(u, id)
  {
    var i :| 0 <= i < |t| && t[i].id == id;
    assert u[i] == u[..|t|][i];
  }

  /** The next copy can be inserted, and then has nothing below it. */
  lemma NextInserts(t: Table, u: Table, user: Id, items: seq<Row>, copies: seq<Row>, dest: Id, c: Row)
    requires Start(t, user, items, dest) && Filled(t, u, user, items, copies, dest) && |copies| < |items|
    requires IsCopy(c, items[|copies|], user, dest) && !HasId(u, c.id)
    ensures CanInsert(u, c) && SoundTable(u + [c]) && HasId(u + [c], c.id) && NoneUnder(u + [c], c.id)
  {
    StillHere(t, u, dest);
    CopyInserts(u, user, items, copies, dest, c);
    InsertValid(u, c);
    assert (u + [c])[|u|] == c;
    NoneUnderFresh(u, c.id);
    StillHere(u, u + [c], dest);
    assert c.id != dest;
  }

  lemma NoneUnderFresh(u: Table, id: Id)
    requires SoundTable(u) && !HasId(u, id)
    ensures NoneUnder(u, id)
  {
    forall i | 0 <= i < |u| ensures u[i].parent != Some(id) {
      assert u[i].parent.Some? ==> HasId(u, u[i].parent.value);
    }
  }

  /** One more entry filled in: its copy, and rows hung below the copy. */
  lemma FilledNext(t: Table, u: Table, user: Id, items: seq<Row>, copies: seq<Row>, dest: Id, c: Row, v: Table)
    requires Start(t, user, items, dest) && Filled(t, u, user, items, copies, dest) && |copies| < |items|
    requires IsCopy(c, items[|copies|], user, dest) && SoundTable(v)
    requires |u| < |v| && v[..|u| + 1] == u + [c] && HungBelow(v[|u| + 1..], user, c.id)
    ensures Filled(t, v, user, items, copies + [c], dest)
  {
    var added, more := u[|t|..], v[|u| + 1..];
    StillHere(t, u, dest);
    Parts(t, u, c, v);
    assert Appended(u, c, more, user, dest);
    HungStep(added, c, more, user, dest);
    HereStep(u, user, items, copies, dest, c, more);
  }

  lemma Parts(t: Table, u: Table, c: Row, v: Table)
    requires |t| <= |u| < |v| && u[..|t|] == t && v[..|u| + 1] == u + [c]
    ensures v == u + ([c] + v[|u| + 1..])
    ensures v[..|t|] == t && v[|t|..] == u[|t|..] + ([c] + v[|u| + 1..])
  {
    assert v == v[..|u| + 1] + v[|u| + 1..];
    assert v[..|t|] == v[..|u| + 1][..|t|];
    assert u == t + u[|t|..];
  }

  /** Whatever a copy into an empty folder ends with, no insertion failed and all
      new rows hang below that folder. */
  lemma {:induction false} EndsFilled(t: Table, user: Id, source: Id, dest: Id, r: Option<Table>, n: nat)
    requires SoundTable(t) && source != "" && dest != "" && HasId(t, dest) && NoneUnder(t, dest)
    requires Ends(t, user, source, dest, r, n)
    ensures r.Some? && |t| <= |r.value| && r.value[..|t|] == t && SoundTable(r.value)
    ensures HungBelow(r.value[|t|..], user, dest)
    decreases n, 1, 0
  {
    var items := Listing(t, user, Some(source), COPY_LIMIT);
    ListingStarts(t, user, source, dest);
    var copies := EachFilled(t, user, items, |items|, dest, r, n);
  }

  lemma {:induction false} EachFilled(t: Table, user: Id, items: seq<Row>, i: nat, dest: Id, r: Option<Table>, n: nat)
    returns (copies: seq<Row>)
    requires Start(t, user, items, dest) && n > 0 && i <= |items|
    requires EachEnds(t, user, items, i, dest, r, n)
    ensures |copies| == i && r.Some? && Filled(t, r.value, user, items, copies, dest)
    decreases n, 0, i
  {
    if i == 0 {
      copies := [];
      NothingFilled(t, user, items, dest);
    } else {
      if EachEnds(t, user, items, i - 1, dest, None, n) {
        copies := EachFilled(t, user, items, i - 1, dest, None, n);
      }
      assert NextEnds(t, user, items, i - 1, dest, r, n);
      var u, c :| EachEnds(t, user, items, i - 1, dest, Some(u), n) && EntryEnds(u, user, items[i - 1], c, dest, r, n);
      copies := EachFilled(t, user, items, i - 1, dest, Some(u), n);
      EntryFilled(t, u, user, items, copies, dest, c, r, n);
      copies := copies + [c];
    }
  }

  lemma {:induction false} EntryFilled(t: Table, u: Table, user: Id, items: seq<Row>, copies: seq<Row>, dest: Id,
                                       c: Row,
                                       r: Option<Table>, n: nat)
    requires Start(t, user, items, dest) && Filled(t, u, user, items, copies, dest) && |copies| < |items| && n > 0
    requires EntryEnds(u, user, items[|copies|], c, dest, r, n)
    ensures r.Some? && Filled(t, r.value, user, items, copies + [c], dest)
    decreases n, 0, 0
  {
    var item := items[|copies|];
    NextInserts(t, u, user, items, copies, dest, c);
    if item.kind == FOLDER {
      EndsFilled(u + [c], user, item.id, c.id, r, n - 1);
      assert |u + [c]| == |u| + 1;
    } else {
      assert (u + [c])[|u| + 1..] == [] && (u + [c])[..|u| + 1] == u + [c];
    }
    FilledNext(t, u, user, items, copies, dest, c, r.value);
  }

  // --- A copy into its own source never ends ---------------------------------------------------

  /** A chain of untrashed folders, each listed by the one before, from the source
      down to the destination. */
  ghost predicate Inside(t: Table, user: Id, chain: seq<Row>) {
    && |chain| >= 2
    && (forall i :: 0 <= i < |chain| ==> chain[i] in t && chain[i].kind == FOLDER)
    && (forall i :: 0 <= i < |chain| - 1 ==> LinkAt(t, user, chain, i))
  }

  ghost predicate LinkAt(t: Table, user: Id, chain: seq<Row>, i: nat)
    requires i + 1 < |chain|
  {
    Link(t, user, chain[i], chain[i + 1])
  }

  /** A folder lists another, and is not cut off by the limit. */
  ghost predicate Link(t: Table, user: Id, parent: Row, child: Row) {
    && child.user == user && !child.trashed && child.parent == Some(parent.id)
    && |Filter(ListedIn(user, Some(parent.id)), t)| <= COPY_LIMIT
  }

  /** Rows hung below one folder hang below no other that was there. */
  lemma HungElsewhere(t: Table, added: seq<Row>, user: Id, dest: Id, id: Id)
    requires SoundTable(t + added) && HungBelow(added, user, dest) && HasId(t, id) && id != dest
    ensures NoneUnder(added, id)
  {
    FreshIds(t, added, id);
    forall i | 0 <= i < |added| ensures added[i].parent != Some(id) {
      if added[i].parent.value != dest {
        var j :| 0 <= j < |added| && added[j].id == added[i].parent.value;
        assert added[j] in added;
      }
    }
  }

  lemma SameListing(t: Table, extra: seq<Row>, user: Id, id: Id)
    requires id != "" && NoneUnder(extra, id)
    ensures Filter(ListedIn(user, Some(id)), t + extra) == Filter(ListedIn(user, Some(id)), t)
  {
    var p := ListedIn(user, Some(id));
    FilterAppend(p, t, extra);
    forall x | x in extra ensures !p(x) {}
    FilterNone(p, extra);
  }

  /** Links above the destination survive what is hung below it. */
  lemma LinkStays(t: Table, added: seq<Row>, c: Row, user: Id, dest: Id, parent: Row, child: Row)
    requires SoundTable(t) && SoundTable(t + added + [c]) && HungBelow(added, user, dest) && c.parent == Some(dest)
    requires SoundTable(t + added) && parent in t && parent.id != dest && Link(t, user, parent, child)
    ensures Link(t + added + [c], user, parent, child)
  {
    IdNotEmpty(t, parent);
    HungElsewhere(t, added, user, dest, parent.id);
    SameListing(t, added, user, parent.id);
    SameListing(t + added, [c], user, parent.id);
  }

  /** The copy becomes a child of the destination. */
  lemma LinkNew(u: Table, c: Row, user: Id, items: seq<Row>, copies: seq<Row>, dest: Row)
    requires CopiesHere(u, user, items, copies, dest.id) && |copies| < |items| <= COPY_LIMIT
    requires c.user == user && !c.trashed && c.parent == Some(dest.id)
    ensures Link(u + [c], user, dest, c)
  {
    var p := ListedIn(user, Some(dest.id));
    FilterAppend(p, u, [c]);
    assert [c][..0] == [];
    assert |Filter(p, [c])| <= 1;
  }

  /** When the chain's next folder is copied, the copy of it lies inside it. */
  lemma InsideNext(t: Table, u: Table, user: Id, items: seq<Row>, copies: seq<Row>, chain: seq<Row>, c: Row)
    requires SoundTable(t) && Inside(t, user, chain) && NoneUnder(t, chain[|chain| - 1].id)
    requires Start(t, user, items, chain[|chain| - 1].id)
    requires Filled(t, u, user, items, copies, chain[|chain| - 1].id) && |copies| < |items|
    requires IsCopy(c, items[|copies|], user, chain[|chain| - 1].id) && c.kind == FOLDER && SoundTable(u + [c])
    ensures Inside(u + [c], user, chain[1..] + [c])
  {
    var next := chain[1..] + [c];
    forall i | 0 <= i < |next| ensures next[i] in u + [c] && next[i].kind == FOLDER {
      if i < |next| - 1 {
        assert next[i] == chain[i + 1];
        StaysIn(t, u, chain[i + 1]);
      }
    }
    forall i | 0 <= i < |next| - 1 ensures LinkAt(u + [c], user, next, i) {
      assert next[i] == chain[i + 1];
      if i == |next| - 2 {
        LinkNew(u, c, user, items, copies, chain[|chain| - 1]);
      } else {
        assert next[i + 1] == chain[i + 2];
        assert LinkAt(t, user, chain, i + 1);
        LinkNext(t, u, user, chain[|chain| - 1].id, chain[i + 1], chain[i + 2], c);
      }
    }
  }

  lemma StaysIn(t: Table, u: Table, row: Row)
    requires |t| <= |u| && u[..|t|] == t && row in t
    ensures row in u
  {
    assert row in u[..|t|];
  }

  lemma LinkNext(t: Table, u: Table, user: Id, dest: Id, parent: Row, child: Row, c: Row)
    requires SoundTable(t) && NoneUnder(t, dest) && parent in t && child in t && Link(t, user, parent, child)
    requires |t| <= |u| && u[..|t|] == t && SoundTable(u) && HungBelow(u[|t|..], user, dest)
    requires SoundTable(u + [c]) && c.parent == Some(dest)
    ensures Link(u + [c], user, parent, child)
  {
    NotTheParent(t, child, dest);
    assert u == t + u[|t|..];
    LinkStays(t, u[|t|..], c, user, dest, parent, child);
  }

  lemma NotTheParent(t: Table, child: Row, id: Id)
    requires child in t && NoneUnder(t, id)
    ensures child.parent != Some(id)
  {
    var i :| 0 <= i < |t| && t[i] == child;
  }

  /** Main result: copying a folder into a folder below it never ends, neither with
      a table nor with a failure, however many nested calls are made. */
  lemma {:induction false} InsideNeverEnds(t: Table, user: Id, chain: seq<Row>, r: Option<Table>, n: nat)
    requires SoundTable(t) && Inside(t, user, chain) && NoneUnder(t, chain[|chain| - 1].id)
    ensures !Ends(t, user, chain[0].id, chain[|chain| - 1].id, r, n)
    decreases n, 1, 0
  {
    if n > 0 {
      var source, dest, next := chain[0].id, chain[|chain| - 1].id, chain[1];
      var items := Listing(t, user, Some(source), COPY_LIMIT);
      IdNotEmpty(t, chain[0]);
      IdNotEmpty(t, chain[|chain| - 1]);
      ListingStarts(t, user, source, dest);
      assert LinkAt(t, user, chain, 0);
      ListingMembers(t, user, Some(source), COPY_LIMIT, next);
      var j :| 0 <= j < |items| && items[j] == next;
      EachStuck(t, user, items, |items|, chain, j, r, n);
    }
  }

  /** The loop does not get past the chain's next folder. */
  lemma {:induction false} EachStuck(t: Table, user: Id, items: seq<Row>, i: nat, chain: seq<Row>, j: nat,
                                     r: Option<Table>, n: nat)
    requires SoundTable(t) && Inside(t, user, chain) && NoneUnder(t, chain[|chain| - 1].id)
    requires Start(t, user, items, chain[|chain| - 1].id) && n > 0
    requires j < i <= |items| && items[j] == chain[1]
    ensures !EachEnds(t, user, items, i, chain[|chain| - 1].id, r, n)
    decreases n, 0, i
  {
    var dest := chain[|chain| - 1].id;
    if EachEnds(t, user, items, i - 1, dest, None, n) {
      if i - 1 > j {
        EachStuck(t, user, items, i - 1, chain, j, None, n);
      } else {
        var _ := EachFilled(t, user, items, i - 1, dest, None, n);
      }
    }
    if NextEnds(t, user, items, i - 1, dest, r, n) {
      var u, c :| EachEnds(t, user, items, i - 1, dest, Some(u), n) && EntryEnds(u, user, items[i - 1], c, dest, r, n);
      if i - 1 > j {
        EachStuck(t, user, items, i - 1, chain, j, Some(u), n);
      } else {
        var copies := EachFilled(t, user, items, i - 1, dest, Some(u), n);
        EntryStuck(t, u, user, items, copies, chain, c, r, n);
      }
    }
  }

  lemma {:induction false} EntryStuck(t: Table, u: Table, user: Id, items: seq<Row>, copies: seq<Row>, chain: seq<Row>,
                                      c: Row, r: Option<Table>, n: nat)
    requires SoundTable(t) && Inside(t, user, chain) && NoneUnder(t, chain[|chain| - 1].id)
    requires Start(t, user, items, chain[|chain| - 1].id) && n > 0
    requires Filled(t, u, user, items, copies, chain[|chain| - 1].id)
    requires |copies| < |items| && items[|copies|] == chain[1]
    ensures !EntryEnds(u, user, chain[1], c, chain[|chain| - 1].id, r, n)
    decreases n, 0, 0
  {
    var dest := chain[|chain| - 1].id;
    if IsCopy(c, chain[1], user, dest) && !HasId(u, c.id) {
      var next := chain[1..] + [c];
      NextInserts(t, u, user, items, copies, dest, c);
      InsideNext(t, u, user, items, copies, chain, c);
      InsideNeverEnds(u + [c], user, next, r, n - 1);
      assert next[0] == chain[1] && next[|next| - 1] == c;
    }
  }

  // --- A copy of an endless source never ends --------------------------------------------------

  /** An endless descent through untrashed folders. */
  ghost predicate Endless(t: Table, user: Id, path: nat -> Row) {
    forall k: nat :: StepDown(t, user, path, k)
  }

  ghost predicate StepDown(t: Table, user: Id, path: nat -> Row, k: nat) {
    path(k) in t && path(k).kind == FOLDER && Link(t, user, path(k), path(k + 1))
  }

  function Onward(path: nat -> Row): nat -> Row { (k: nat) => path(k + 1) }

  /** The descent is still there after entries were copied. */
  lemma EndlessNext(t: Table, u: Table, user: Id, items: seq<Row>, copies: seq<Row>, dest: Id, path: nat -> Row, c: Row)
    requires SoundTable(t) && Endless(t, user, path) && Start(t, user, items, dest)
    requires Filled(t, u, user, items, copies, dest) && SoundTable(u + [c]) && c.parent == Some(dest)
    ensures Endless(u + [c], user, Onward(path))
  {
    forall k: nat ensures StepDown(u + [c], user, Onward(path), k) {
      OneLevelOn(t, u, user, items, copies, dest, path, c, k);
    }
  }

  lemma OneLevelOn(t: Table, u: Table, user: Id, items: seq<Row>, copies: seq<Row>, dest: Id, path: nat -> Row, c: Row,
                   k: nat)
    requires SoundTable(t) && Endless(t, user, path) && Start(t, user, items, dest)
    requires Filled(t, u, user, items, copies, dest) && SoundTable(u + [c]) && c.parent == Some(dest)
    ensures StepDown(u + [c], user, Onward(path), k)
  {
    assert StepDown(t, user, path, k + 1) && StepDown(t, user, path, k + 2);
    StaysIn(t, u, path(k + 1));
    LinkNext(t, u, user, dest, path(k + 1), path(k + 2), c);
  }

  lemma {:induction false} EndlessNeverEnds(t: Table, user: Id, dest: Id, path: nat -> Row, r: Option<Table>, n: nat)
    requires SoundTable(t) && Endless(t, user, path) && dest != "" && HasId(t, dest) && NoneUnder(t, dest)
    ensures !Ends(t, user, path(0).id, dest, r, n)
    decreases n, 1, 0
  {
    if n > 0 {
      var items := Listing(t, user, Some(path(0).id), COPY_LIMIT);
      assert StepDown(t, user, path, 0) && StepDown(t, user, path, 1);
      IdNotEmpty(t, path(0));
      ListingStarts(t, user, path(0).id, dest);
      ListingMembers(t, user, Some(path(0).id), COPY_LIMIT, path(1));
      var j :| 0 <= j < |items| && items[j] == path(1);
      EachEndless(t, user, items, |items|, dest, path, j, r, n);
    }
  }

  lemma {:induction false} EachEndless(t: Table, user: Id, items: seq<Row>, i: nat, dest: Id, path: nat -> Row, j: nat,
                                       r: Option<Table>, n: nat)
    requires SoundTable(t) && Endless(t, user, path) && Start(t, user, items, dest) && n > 0
    requires j < i <= |items| && items[j] == path(1)
    ensures !EachEnds(t, user, items, i, dest, r, n)
    decreases n, 0, i
  {
    if EachEnds(t, user, items, i - 1, dest, None, n) {
      if i - 1 > j {
        EachEndless(t, user, items, i - 1, dest, path, j, None, n);
      } else {
        var _ := EachFilled(t, user, items, i - 1, dest, None, n);
      }
    }
    if NextEnds(t, user, items, i - 1, dest, r, n) {
      var u, c :| EachEnds(t, user, items, i - 1, dest, Some(u), n) && EntryEnds(u, user, items[i - 1], c, dest, r, n);
      if i - 1 > j {
        EachEndless(t, user, items, i - 1, dest, path, j, Some(u), n);
      } else {
        var copies := EachFilled(t, user, items, i - 1, dest, Some(u), n);
        EntryEndless(t, u, user, items, copies, dest, path, c, r, n);
      }
    }
  }

  lemma {:induction false} EntryEndless(t: Table, u: Table, user: Id, items: seq<Row>, copies: seq<Row>, dest: Id,
                                        path: nat -> Row, c: Row, r: Option<Table>, n: nat)
    requires SoundTable(t) && Endless(t, user, path) && Start(t, user, items, dest) && n > 0
    requires Filled(t, u, user, items, copies, dest) && |copies| < |items| && items[|copies|] == path(1)
    ensures !EntryEnds(u, user, path(1), c, dest, r, n)
    decreases n, 0, 0
  {
    assert StepDown(t, user, path, 1);
    if IsCopy(c, path(1), user, dest) && !HasId(u, c.id) {
      NextInserts(t, u, user, items, copies, dest, c);
      EndlessNext(t, u, user, items, copies, dest, path, c);
      EndlessNeverEnds(u + [c], user, c.id, Onward(path), r, n - 1);
      assert Onward(path)(0) == path(1);
    }
  }

  // --- No tree means an endless descent --------------------------------------------------------

  /** Whether what is listed below a row is finite. */
  ghost predicate HasTree(t: Table, user: Id, row: Row) {
    exists tree :: Shows(t, user, COPY_LIMIT, row, tree)
  }

  ghost function TreeOf(t: Table, user: Id, row: Row): Tree
    requires HasTree(t, user, row)
  {
    var tree :| Shows(t, user, COPY_LIMIT, row, tree);
    tree
  }

  /** A row without a tree is a folder that lists one without a tree. */
  lemma TreelessBelow(t: Table, user: Id, row: Row)
    requires !HasTree(t, user, row)
    ensures row.kind == FOLDER
    ensures exists x :: x in Listing(t, user, Some(row.id), COPY_LIMIT) && !HasTree(t, user, x)
  {
    var rows := Listing(t, user, Some(row.id), COPY_LIMIT);
    if row.kind != FOLDER {
      assert Shows(t, user, COPY_LIMIT, row, Tree(row.name, row.kind, row.content, row.version, []));
    } else if forall x :: x in rows ==> HasTree(t, user, x) {
      var trees := seq(|rows|, i requires 0 <= i < |rows| => TreeOf(t, user, rows[i]));
      assert ShowsAll(t, user, COPY_LIMIT, rows, trees);
      assert Shows(t, user, COPY_LIMIT, row, Tree(row.name, row.kind, row.content, row.version, trees));
    }
  }

  ghost function Downward(t: Table, user: Id, row: Row, k: nat): (r: Row)
    requires !HasTree(t, user, row)
    ensures !HasTree(t, user, r)
  {
    if k == 0 then row else
      var above := Downward(t, user, row, k - 1);
      TreelessBelow(t, user, above);
      var x :| x in Listing(t, user, Some(above.id), COPY_LIMIT) && !HasTree(t, user, x);
      x
  }

  lemma {:induction false} DownwardEndless(t: Table, user: Id, row: Row) returns (path: nat -> Row)
    requires SoundTable(t) && RoomLeft(t, user) && row in t && !HasTree(t, user, row)
    ensures Endless(t, user, path) && path(0) == row
  {
    path := (k: nat) => Downward(t, user, row, k);
    forall k: nat ensures StepDown(t, user, path, k) { DownwardStep(t, user, row, k); }
  }

  lemma {:induction false} DownwardIn(t: Table, user: Id, row: Row, k: nat)
    requires row in t && !HasTree(t, user, row)
    ensures Downward(t, user, row, k) in t
  {
    if k > 0 {
      var above := Downward(t, user, row, k - 1);
      ListedBelow(t, user, row, k - 1);
      ListingMembers(t, user, Some(above.id), COPY_LIMIT, Downward(t, user, row, k));
    }
  }

  lemma ListedLink(t: Table, user: Id, here: Row, below: Row)
    requires SoundTable(t) && RoomLeft(t, user) && here in t && below in Listing(t, user, Some(here.id), COPY_LIMIT)
    ensures Link(t, user, here, below)
  {
    IdNotEmpty(t, here);
    ListingMembers(t, user, Some(here.id), COPY_LIMIT, below);
    assert |Filter(ListedIn(user, Some(here.id)), t)| < COPY_LIMIT;
  }

  lemma DownwardStep(t: Table, user: Id, row: Row, k: nat)
    requires SoundTable(t) && RoomLeft(t, user) && row in t && !HasTree(t, user, row)
    ensures Downward(t, user, row, k) in t && Downward(t, user, row, k).kind == FOLDER
    ensures Link(t, user, Downward(t, user, row, k), Downward(t, user, row, k + 1))
  {
    DownwardIn(t, user, row, k);
    TreelessBelow(t, user, Downward(t, user, row, k));
    ListedBelow(t, user, row, k);
    ListedLink(t, user, Downward(t, user, row, k), Downward(t, user, row, k + 1));
  }

  lemma ListedBelow(t: Table, user: Id, row: Row, k: nat)
    requires !HasTree(t, user, row)
    ensures var here := Downward(t, user, row, k);
      Downward(t, user, row, k + 1) in Listing(t, user, Some(here.id), COPY_LIMIT)
  {
    TreelessBelow(t, user, Downward(t, user, row, k));
  }

  // --- A copy outside its source ends ----------------------------------------------------------

  /** Copying a finite tree into an empty folder outside it ends, within as many
      nested calls as the tree is high. */
  lemma {:induction false} EndsOutside(t: Table, user: Id, source: Id, dest: Id, trees: seq<Tree>, n: nat)
    returns (u: Table)
    requires SoundTable(t) && source != "" && dest != "" && HasId(t, dest) && NoneUnder(t, dest)
    requires ShowsAll(t, user, COPY_LIMIT, Listing(t, user, Some(source), COPY_LIMIT), trees)
    requires !InForest(t, user, COPY_LIMIT, Listing(t, user, Some(source), COPY_LIMIT), trees, dest)
    requires n > Heights(trees)
    ensures Ends(t, user, source, dest, Some(u), n)
    ensures |t| <= |u| && u[..|t|] == t && SoundTable(u) && HungBelow(u[|t|..], user, dest)
    ensures ShowsAll(u, user, COPY_LIMIT, Listing(u, user, Some(dest), COPY_LIMIT), trees)
    decreases n, 4, 0
  {
    var items := Listing(t, user, Some(source), COPY_LIMIT);
    ProgressStarts(t, user, source, dest, trees);
    u := EachOutside(t, user, items, trees, source, dest, |items|, n);
    ProgressDone(t, u, user, source, items, trees, dest);
  }

  /** The first i entries have been copied, and the loop got there. */
  ghost predicate Reached(t: Table, u: Table, user: Id, items: seq<Row>, trees: seq<Tree>, dest: Id, i: nat, n: nat) {
    && n > 0 && i <= |items|
    && Progress(t, u, user, items, trees, dest, i)
    && EachEnds(t, user, items, i, dest, Some(u), n)
  }

  lemma {:induction false} EachOutside(t: Table, user: Id, items: seq<Row>, trees: seq<Tree>, source: Id, dest: Id,
                                       i: nat, n: nat) returns (u: Table)
    requires Entries(t, user, source, items) && HasId(t, dest) && dest != "" && |items| == |trees|
    requires Reached(t, t, user, items, trees, dest, 0, n) && n > Heights(trees) && i <= |items|
    ensures Reached(t, u, user, items, trees, dest, i, n)
    decreases n, 3, i
  {
    if i == 0 { return t; }
    var before := EachOutside(t, user, items, trees, source, dest, i - 1, n);
    u := StepOutside(t, before, user, items, trees, source, dest, i, n);
  }

  lemma {:induction false} StepOutside(t: Table, before: Table, user: Id, items: seq<Row>, trees: seq<Tree>, source: Id,
                                       dest: Id, i: nat, n: nat) returns (u: Table)
    requires Entries(t, user, source, items) && HasId(t, dest) && dest != "" && |items| == |trees|
    requires n > Heights(trees) && 0 < i <= |items|
    requires Reached(t, before, user, items, trees, dest, i - 1, n)
    ensures Reached(t, u, user, items, trees, dest, i, n)
    decreases n, 2, 0
  {
    var k := i - 1;
    HeightWithin(trees, k);
    EntriesApart(t, user, source, items);
    var copies := ProgressHere(t, before, user, items, trees, dest, k);
    var c, more := EntryOutside(before, user, items, copies, trees[k], dest, n);
    u := before + ([c] + more);
    ProgressNext(t, before, user, items, trees, dest, k, c, more);
    EachNext(t, user, items, k, before, c, dest, Some(u), n);
  }

  lemma {:induction false} EntryOutside(u: Table, user: Id, items: seq<Row>, copies: seq<Row>, tree: Tree, dest: Id,
                                        n: nat)
    returns (c: Row, more: seq<Row>)
    requires SoundTable(u) && HasId(u, dest) && dest != "" && CopiesHere(u, user, items, copies, dest)
    requires |copies| < |items| && items[|copies|] in u && n > Height(tree)
    requires forall j, k :: 0 <= j < k < |items| ==> items[j].name != items[k].name
    requires Shows(u, user, COPY_LIMIT, items[|copies|], tree)
    requires !InSubtree(u, user, COPY_LIMIT, items[|copies|], tree, dest)
    ensures IsCopy(c, items[|copies|], user, dest) && Appended(u, c, more, user, dest)
    ensures Shows(u + ([c] + more), user, COPY_LIMIT, c, tree)
    ensures EntryEnds(u, user, items[|copies|], c, dest, Some(u + ([c] + more)), n)
    decreases n, 1, 0
  {
    c := FreshCopy(u, user, items, copies, dest);
    more := CopiedBelow(u, user, items[|copies|], c, tree, dest, n);
  }

  /** Some copy of the next entry that can be inserted. */
  lemma FreshCopy(u: Table, user: Id, items: seq<Row>, copies: seq<Row>, dest: Id) returns (c: Row)
    requires SoundTable(u) && HasId(u, dest) && dest != "" && CopiesHere(u, user, items, copies, dest)
    requires |copies| < |items| && forall j, k :: 0 <= j < k < |items| ==> items[j].name != items[k].name
    ensures IsCopy(c, items[|copies|], user, dest) && CanInsert(u, c) && SoundTable(u + [c])
  {
    var item, id: Id := items[|copies|], seq(LongestId(u) + 1, _ => '0');
    c := CopyOf(item, id, Some(dest), item.name, item.version, user, 0);
    CopyInserts(u, user, items, copies, dest, c);
    InsertValid(u, c);
  }

  lemma {:induction false} CopiedBelow(u: Table, user: Id, item: Row, c: Row, tree: Tree, dest: Id, n: nat)
    returns (more: seq<Row>)
    requires SoundTable(u) && HasId(u, dest) && item in u && n > Height(tree)
    requires IsCopy(c, item, user, dest) && CanInsert(u, c) && SoundTable(u + [c])
    requires Shows(u, user, COPY_LIMIT, item, tree) && !InSubtree(u, user, COPY_LIMIT, item, tree, dest)
    ensures Appended(u, c, more, user, dest) && Shows(u + ([c] + more), user, COPY_LIMIT, c, tree)
    ensures EntryEnds(u, user, item, c, dest, Some(u + ([c] + more)), n)
    decreases n, 0, 0
  {
    if item.kind == FOLDER {
      Descends(u, user, item, c, tree, dest);
      var v := EndsOutside(u + [c], user, item.id, c.id, tree.children, n - 1);
      more := FolderDone(u, user, item, c, tree, dest, u + [c], v, n);
    } else {
      more := [];
      FileAlone(u, user, item, c, tree, dest, n);
    }
  }

  // --- Exactly when ----------------------------------------------------------------------------

  /** Every directory, with one entry more, fits one listing. */
  ghost predicate RoomLeft(t: Table, user: Id) {
    forall id :: |Filter(ListedIn(user, Some(id)), t)| < COPY_LIMIT
  }

  /** The chain of folders from a row down to a folder of its subtree. */
  lemma {:induction false} ChainTo(t: Table, user: Id, row: Row, tree: Tree, id: Id) returns (chain: seq<Row>)
    requires SoundTable(t) && row in t && RoomLeft(t, user) && InSubtree(t, user, COPY_LIMIT, row, tree, id)
    ensures |chain| >= 1 && chain[0] == row && chain[|chain| - 1].id == id
    ensures forall i :: 0 <= i < |chain| ==> chain[i] in t && chain[i].kind == FOLDER
    ensures forall i :: 0 <= i < |chain| - 1 ==> LinkAt(t, user, chain, i)
    decreases tree
  {
    if row.id == id {
      chain := [row];
    } else {
      var rows := Listing(t, user, Some(row.id), COPY_LIMIT);
      var i :| 0 <= i < |rows| && InSubtree(t, user, COPY_LIMIT, rows[i], tree.children[i], id);
      IdNotEmpty(t, row);
      ListingMembers(t, user, Some(row.id), COPY_LIMIT, rows[i]);
      var rest := ChainTo(t, user, rows[i], tree.children[i], id);
      chain := [row] + rest;
      forall k | 0 <= k < |chain| - 1 ensures LinkAt(t, user, chain, k) {
        if k > 0 { assert LinkAt(t, user, rest, k - 1); }
      }
    }
  }

  /** Hanging one row under a folder leaves every link, and makes one. */
  lemma LinkAdded(t: Table, c: Row, user: Id, parent: Row, child: Row)
    requires RoomLeft(t, user) && parent.id != ""
    requires child.user == user && !child.trashed && child.parent == Some(parent.id)
    ensures Link(t + [c], user, parent, child)
  {
    var p := ListedIn(user, Some(parent.id));
    FilterAppend(p, t, [c]);
    assert [c][..0] == [];
    assert |Filter(p, [c])| <= 1;
    assert |Filter(p, t)| < COPY_LIMIT;
  }

  /** A copy hung into its own source is inside it. */
  lemma HungInside(t: Table, user: Id, source: Row, tree: Tree, parent: Id, c: Row)
    returns (chain: seq<Row>)
    requires SoundTable(t) && SoundTable(t + [c]) && RoomLeft(t, user) && source in t
    requires InSubtree(t, user, COPY_LIMIT, source, tree, parent)
    requires c.kind == FOLDER && c.user == user && !c.trashed && c.parent == Some(parent)
    ensures Inside(t + [c], user, chain) && chain[0] == source && chain[|chain| - 1] == c
  {
    var above := ChainTo(t, user, source, tree, parent);
    chain := above + [c];
    forall i | 0 <= i < |chain| ensures chain[i] in t + [c] && chain[i].kind == FOLDER {
      if i < |above| { assert chain[i] == above[i]; }
    }
    forall i | 0 <= i < |chain| - 1 ensures LinkAt(t + [c], user, chain, i) {
      assert chain[i] == above[i];
      IdNotEmpty(t, above[i]);
      if i < |above| - 1 { assert LinkAt(t, user, above, i); }
      LinkAdded(t, c, user, chain[i], chain[i + 1]);
    }
  }

  ghost predicate Terminates(t: Table, user: Id, source: Id, dest: Id) {
    exists r, n :: Ends(t, user, source, dest, r, n)
  }

  /** Whether a row lies outside everything listed below the source, which is
      finite. */
  ghost predicate Outside(t: Table, user: Id, source: Row, parent: Option<Id>) {
    && HasTree(t, user, source)
    && (parent.Some? ==> !InSubtree(t, user, COPY_LIMIT, source, TreeOf(t, user, source), parent.value))
  }

  /** Main result: while every directory fits one listing, copying a folder ends
      exactly when its subtree is finite and the new parent is no folder of it. */
  lemma CopyEndsIff(t: Table, user: Id, source: Row, c: Row)
    requires SoundTable(t) && RoomLeft(t, user) && source in t && source.kind == FOLDER
    requires CanInsert(t, c) && c.id != "" && c.parent != Some("")
    requires c.kind == FOLDER && c.user == user && !c.trashed
    ensures Terminates(t + [c], user, source.id, c.id) <==> Outside(t, user, source, c.parent)
  {
    InsertValid(t, c);
    if !HasTree(t, user, source) {
      forall r, n ensures !Ends(t + [c], user, source.id, c.id, r, n) { TreelessNeverEnds(t, user, source, c, r, n); }
    } else {
      var tree := TreeOf(t, user, source);
      if c.parent.Some? && InSubtree(t, user, COPY_LIMIT, source, tree, c.parent.value) {
        forall r, n ensures !Ends(t + [c], user, source.id, c.id, r, n) { NeverEnds(t, user, source, tree, c, r, n); }
      } else {
        var u, n := DoesEnd(t, user, source, tree, c);
        assert Ends(t + [c], user, source.id, c.id, Some(u), n);
      }
    }
  }

  lemma TreelessNeverEnds(t: Table, user: Id, source: Row, c: Row, r: Option<Table>, n: nat)
    requires SoundTable(t) && SoundTable(t + [c]) && CanInsert(t, c) && c.id != "" && RoomLeft(t, user) && source in t
    requires !HasTree(t, user, source)
    ensures !Ends(t + [c], user, source.id, c.id, r, n)
  {
    var path := DownwardEndless(t, user, source);
    forall k: nat ensures StepDown(t + [c], user, path, k) {
      assert StepDown(t, user, path, k);
      IdNotEmpty(t, path(k));
      LinkAdded(t, c, user, path(k), path(k + 1));
    }
    NoneUnderNew(t, c);
    assert (t + [c])[|t|] == c;
    EndlessNeverEnds(t + [c], user, c.id, path, r, n);
  }

  lemma NeverEnds(t: Table, user: Id, source: Row, tree: Tree, c: Row, r: Option<Table>, n: nat)
    requires SoundTable(t) && SoundTable(t + [c]) && CanInsert(t, c) && RoomLeft(t, user) && source in t
    requires c.kind == FOLDER && c.user == user && !c.trashed && c.parent.Some?
    requires InSubtree(t, user, COPY_LIMIT, source, tree, c.parent.value)
    ensures !Ends(t + [c], user, source.id, c.id, r, n)
  {
    var chain := HungInside(t, user, source, tree, c.parent.value, c);
    NoneUnderNew(t, c);
    InsideNeverEnds(t + [c], user, chain, r, n);
  }

  lemma DoesEnd(t: Table, user: Id, source: Row, tree: Tree, c: Row) returns (u: Table, n: nat)
    requires SoundTable(t) && SoundTable(t + [c]) && CanInsert(t, c) && source in t && source.kind == FOLDER
    requires Shows(t, user, COPY_LIMIT, source, tree)
    requires c.parent.Some? ==> !InSubtree(t, user, COPY_LIMIT, source, tree, c.parent.value)
    ensures Ends(t + [c], user, source.id, c.id, Some(u), n)
  {
    CopyDescends(t, c, user, source, tree);
    n := Heights(tree.children) + 1;
    u := EndsOutside(t + [c], user, source.id, c.id, tree.children, n);
  }

  lemma NoneUnderNew(t: Table, c: Row)
    requires SoundTable(t) && CanInsert(t, c)
    ensures NoneUnder(t + [c], c.id)
  {
    NoneUnderFresh(t, c.id);
    assert c.parent != Some(c.id);
  }
}
