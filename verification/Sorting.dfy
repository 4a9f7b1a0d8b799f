/** Stable sorting, shared by the tree builder and the directory listing: the
    result is a sorted permutation, depends only on the elements when the order
    tells them apart, and is what the loops over an array compute. */
module Sorting {
  import opened Common

  ghost predicate TotalOrder<T(!new)>(le: (T, T) -> bool) {
    && (forall a, b :: le(a, b) || le(b, a))
    && (forall a, b, c :: le(a, b) && le(b, c) ==> le(a, c))
  }

  ghost predicate Sorted<T>(le: (T, T) -> bool, s: seq<T>) {
    forall i, j :: 0 <= i < j < |s| ==> le(s[i], s[j])
  }

  function Insert<T>(le: (T, T) -> bool, s: seq<T>, x: T): (r: seq<T>)
    ensures |r| == |s| + 1
  {
    if s == [] then [x] else
      var k := |s| - 1;
      if le(s[k], x) then s + [x] else Insert(le, s[..k], x) + [s[k]]
  }

  function Sort<T>(le: (T, T) -> bool, s: seq<T>): (r: seq<T>)
    ensures |r| == |s|
  {
    if s == [] then [] else Insert(le, Sort(le, s[..|s| - 1]), s[|s| - 1])
  }

  // --- What sorting does -----------------------------------------------------------

  lemma {:induction false} InsertPermutes<T>(le: (T, T) -> bool, s: seq<T>, x: T)
    ensures multiset(Insert(le, s, x)) == multiset(s) + multiset{x}
  {
    if s != [] {
      var k := |s| - 1;
      assert s == s[..k] + [s[k]];
      if !le(s[k], x) { InsertPermutes(le, s[..k], x); }
    }
  }

  lemma {:induction false} SortPermutes<T>(le: (T, T) -> bool, s: seq<T>)
    ensures multiset(Sort(le, s)) == multiset(s)
  {
    if s != [] {
      var k := |s| - 1;
      assert s == s[..k] + [s[k]];
      SortPermutes(le, s[..k]);
      InsertPermutes(le, Sort(le, s[..k]), s[k]);
    }
  }

  lemma SortKeeps<T>(le: (T, T) -> bool, s: seq<T>, x: T)
    ensures x in Sort(le, s) <==> x in s
  {
    SortPermutes(le, s);
    assert x in multiset(Sort(le, s)) <==> x in multiset(s);
  }

  lemma {:induction false} InsertSorted<T(!new)>(le: (T, T) -> bool, s: seq<T>, x: T)
    requires TotalOrder(le) && Sorted(le, s)
    ensures Sorted(le, Insert(le, s, x))
  {
    if s != [] {
      var k := |s| - 1;
      if le(s[k], x) {
        forall i | 0 <= i <= k ensures le(s[i], x) {
          assert le(s[i], s[k]);
        }
      } else {
        InsertSorted(le, s[..k], x);
        InsertPermutes(le, s[..k], x);
        var t := Insert(le, s[..k], x);
        forall i | 0 <= i < |t| ensures le(t[i], s[k]) {
          assert t[i] in multiset(t);
        }
      }
    }
  }

  lemma {:induction false} SortSorts<T(!new)>(le: (T, T) -> bool, s: seq<T>)
    requires TotalOrder(le)
    ensures Sorted(le, Sort(le, s))
  {
    if s != [] {
      SortSorts(le, s[..|s| - 1]);
      InsertSorted(le, Sort(le, s[..|s| - 1]), s[|s| - 1]);
    }
  }

  /** Elements the order does not tell apart are equal. */
  ghost predicate Distinguishes<T>(le: (T, T) -> bool, s: seq<T>) {
    forall x, y :: x in s && y in s && le(x, y) && le(y, x) ==> x == y
  }

  lemma LastIsGreatest<T(!new)>(le: (T, T) -> bool, s: seq<T>, x: T)
    requires TotalOrder(le) && Sorted(le, s) && x in s
    ensures le(x, s[|s| - 1])
  {
    var i :| 0 <= i < |s| && s[i] == x;
    assert i < |s| - 1 ==> le(s[i], s[|s| - 1]);
  }

  lemma WithoutLast<T>(a: seq<T>)
    requires a != []
    ensures multiset(a[..|a| - 1]) == multiset(a) - multiset{a[|a| - 1]}
  {
    assert a == a[..|a| - 1] + [a[|a| - 1]];
  }

  lemma SameElements<T>(a: seq<T>, b: seq<T>, x: T)
    requires multiset(a) == multiset(b)
    ensures x in a <==> x in b
    ensures |a| == |b|
  {
    assert x in multiset(a) <==> x in multiset(b);
    assert |multiset(a)| == |a| && |multiset(b)| == |b|;
  }

  lemma LastSame<T(!new)>(le: (T, T) -> bool, a: seq<T>, b: seq<T>)
    requires TotalOrder(le) && Sorted(le, a) && Sorted(le, b) && a != []
    requires multiset(a) == multiset(b) && Distinguishes(le, a)
    ensures |a| == |b| && a[|a| - 1] == b[|b| - 1]
  {
    assert |a| == |multiset(a)| == |multiset(b)| == |b|;
    var k := |a| - 1;
    SameElements(a, b, a[k]); SameElements(a, b, b[k]);
    LastIsGreatest(le, a, b[k]); LastIsGreatest(le, b, a[k]);
  }

  lemma FrontsToo<T(!new)>(le: (T, T) -> bool, a: seq<T>, b: seq<T>)
    requires Sorted(le, a) && Sorted(le, b) && a != [] && |a| == |b| && a[|a| - 1] == b[|b| - 1]
    requires multiset(a) == multiset(b) && Distinguishes(le, a)
    ensures var f, g := a[..|a| - 1], b[..|b| - 1];
      Sorted(le, f) && Sorted(le, g) && multiset(f) == multiset(g) && Distinguishes(le, f)
  {
    WithoutLast(a); WithoutLast(b);
    assert forall x :: x in a[..|a| - 1] ==> x in a;
  }

  /** A multiset whose elements the order tells apart has one sorted list. */
  lemma {:induction false} SortedUnique<T(!new)>(le: (T, T) -> bool, a: seq<T>, b: seq<T>)
    requires TotalOrder(le) && Sorted(le, a) && Sorted(le, b)
    requires multiset(a) == multiset(b) && Distinguishes(le, a)
    ensures a == b
  {
    if a == [] {
      assert multiset(b) == multiset{};
      assert |b| == |multiset(b)|;
    } else {
      var k := |a| - 1;
      LastSame(le, a, b);
      FrontsToo(le, a, b);
      SortedUnique(le, a[..k], b[..k]);
      assert a == a[..k] + [a[k]] && b == b[..k] + [b[k]];
    }
  }

  /** Lists with the same elements sort alike. */
  lemma SortCanonical<T(!new)>(le: (T, T) -> bool, a: seq<T>, b: seq<T>)
    requires TotalOrder(le) && multiset(a) == multiset(b) && Distinguishes(le, a)
    ensures Sort(le, a) == Sort(le, b)
  {
    SortSorts(le, a); SortSorts(le, b);
    SortPermutes(le, a); SortPermutes(le, b);
    forall x | x in Sort(le, a) ensures x in a { SortKeeps(le, a, x); }
    SortedUnique(le, Sort(le, a), Sort(le, b));
  }

  lemma {:induction false} SortFixed<T>(le: (T, T) -> bool, s: seq<T>)
    requires Sorted(le, s)
    ensures Sort(le, s) == s
  {
    if s != [] {
      SortFixed(le, s[..|s| - 1]);
      assert s == s[..|s| - 1] + [s[|s| - 1]];
    }
  }

  ghost predicate Distinct<T>(s: seq<T>) {
    forall i, j :: 0 <= i < j < |s| ==> s[i] != s[j]
  }

  lemma DistinctAppend<T>(a: seq<T>, b: seq<T>)
    requires Distinct(a) && Distinct(b) && forall x :: x in a ==> x !in b
    ensures Distinct(a + b)
  {
    forall i, j | 0 <= i < j < |a + b| ensures (a + b)[i] != (a + b)[j] {
      if i < |a| <= j { assert a[i] in a && b[j - |a|] in b; }
    }
  }

  lemma {:induction false} DistinctCount<T>(s: seq<T>, x: T)
    requires Distinct(s)
    ensures multiset(s)[x] == if x in s then 1 else 0
  {
    if s != [] {
      var k := |s| - 1;
      DistinctCount(s[..k], x);
      assert s == s[..k] + [s[k]];
    }
  }

  /** Lists without repetition over the same elements are permutations. */
  lemma SameSet<T>(a: seq<T>, b: seq<T>)
    requires Distinct(a) && Distinct(b) && forall x :: x in a <==> x in b
    ensures multiset(a) == multiset(b)
  {
    forall x ensures multiset(a)[x] == multiset(b)[x] {
      DistinctCount(a, x); DistinctCount(b, x);
    }
  }

  lemma TwiceCounted<T>(s: seq<T>, i: nat, j: nat)
    requires i < j < |s| && s[i] == s[j]
    ensures multiset(s)[s[i]] >= 2
  {
    assert s == s[..j] + s[j..];
    assert s[i] in s[..j] && s[j..][0] == s[j];
    assert s[j] in s[j..];
  }

  lemma DistinctPermuted<T>(s: seq<T>, t: seq<T>)
    requires Distinct(s) && multiset(s) == multiset(t)
    ensures Distinct(t)
  {
    forall i, j | 0 <= i < j < |t| ensures t[i] != t[j] {
      if t[i] == t[j] {
        TwiceCounted(t, i, j);
        DistinctCount(s, t[i]);
        assert false;
      }
    }
  }

  lemma DistinctKeysPermuted<T>(key: T -> string, s: seq<T>, t: seq<T>)
    requires DistinctKeys(key, s) && multiset(s) == multiset(t)
    ensures DistinctKeys(key, t)
  {
    forall i, j | 0 <= i < j < |s| ensures s[i] != s[j] { KeyApart(key, s, i, j); }
    DistinctPermuted(s, t);
    forall i, j | 0 <= i < j < |t| ensures KeysApart(key, t, i, j) {
      SameElements(s, t, t[i]); SameElements(s, t, t[j]);
      var i' :| 0 <= i' < |s| && s[i'] == t[i];
      var j' :| 0 <= j' < |s| && s[j'] == t[j];
      assert t[i] != t[j];
      if i' < j' { KeyApart(key, s, i', j'); } else { KeyApart(key, s, j', i'); }
    }
  }

  lemma SortDistinct<T>(le: (T, T) -> bool, s: seq<T>)
    requires Distinct(s)
    ensures Distinct(Sort(le, s))
  {
    SortPermutes(le, s);
    DistinctPermuted(s, Sort(le, s));
  }

  lemma SortDistinctKeys<T>(le: (T, T) -> bool, key: T -> string, s: seq<T>)
    requires DistinctKeys(key, s)
    ensures DistinctKeys(key, Sort(le, s))
  {
    SortPermutes(le, s);
    DistinctKeysPermuted(key, s, Sort(le, s));
  }

  // --- Sorting related lists ---------------------------------------------------------

  ghost predicate Related<T, U>(rel: (T, U) -> bool, a: seq<T>, b: seq<U>) {
    |a| == |b| && forall i :: 0 <= i < |a| ==> rel(a[i], b[i])
  }

  /** The relation respects the two orders. */
  ghost predicate Respects<T(!new), U(!new)>(rel: (T, U) -> bool, le: (T, T) -> bool, le': (U, U) -> bool) {
    forall a, b, c, d :: rel(a, c) && rel(b, d) ==> (le(a, b) <==> le'(c, d))
  }

  lemma {:induction false} InsertRelated<T(!new), U(!new)>(rel: (T, U) -> bool, le: (T, T) -> bool, le': (U, U) -> bool,
                                                           a: seq<T>, b: seq<U>, x: T, y: U)
    requires Respects(rel, le, le') && Related(rel, a, b) && rel(x, y)
    ensures Related(rel, Insert(le, a, x), Insert(le', b, y))
  {
    if a != [] {
      InsertRelated(rel, le, le', a[..|a| - 1], b[..|b| - 1], x, y);
    }
  }

  lemma {:induction false} SortRelated<T(!new), U(!new)>(rel: (T, U) -> bool, le: (T, T) -> bool, le': (U, U) -> bool,
                                                         a: seq<T>, b: seq<U>)
    requires Respects(rel, le, le') && Related(rel, a, b)
    ensures Related(rel, Sort(le, a), Sort(le', b))
  {
    if a != [] {
      var k := |a| - 1;
      SortRelated(rel, le, le', a[..k], b[..k]);
      InsertRelated(rel, le, le', Sort(le, a[..k]), Sort(le', b[..k]), a[k], b[k]);
    }
  }

  // --- In place ------------------------------------------------------------------------

  method SortInPlace<T>(le: (T, T) -> bool, a: array<T>)
    modifies a
    ensures a[..] == Sort(le, old(a[..]))
  {
    ghost var before := a[..];
    for i := 0 to a.Length
      invariant a[..i] == Sort(le, before[..i]) && a[i..] == before[i..]
    {
      var x := a[i];
      assert before[..i + 1][..i] == before[..i] && before[..i + 1][i] == x by {
        assert x == a[i..][0];
      }
      assert a[i + 1..] == a[i..][1..] == before[i + 1..];
      InsertInPlace(le, a, i);
    }
    assert a[..] == a[..a.Length] && before == before[..a.Length];
  }

  lemma InsertStep<T>(le: (T, T) -> bool, s: seq<T>, x: T, j: nat)
    requires 0 < j <= |s| && !le(s[j - 1], x)
    ensures Insert(le, s[..j], x) + s[j..] == Insert(le, s[..j - 1], x) + s[j - 1..]
  {
    assert s[..j][..j - 1] == s[..j - 1];
    assert [s[j - 1]] + s[j..] == s[j - 1..];
  }

  lemma InsertAtEnd<T>(le: (T, T) -> bool, s: seq<T>, x: T)
    requires s == [] || le(s[|s| - 1], x)
    ensures Insert(le, s, x) == s + [x]
  {}

  /** Elements j to i have moved up by one place. */
  ghost predicate Shifted<T>(was: seq<T>, now: seq<T>, i: nat, j: nat) {
    && |now| == |was| && j <= i < |was|
    && (forall k :: 0 <= k < j ==> now[k] == was[k])
    && (forall k :: j < k <= i ==> now[k] == was[k - 1])
    && (forall k :: i < k < |was| ==> now[k] == was[k])
  }

  lemma ShiftedNext<T>(was: seq<T>, now: seq<T>, i: nat, j: nat)
    requires Shifted(was, now, i, j) && j > 0
    ensures Shifted(was, now[j := now[j - 1]], i, j - 1)
  {}

  lemma ShiftedDone<T>(was: seq<T>, now: seq<T>, i: nat, j: nat, x: T)
    requires Shifted(was, now, i, j)
    ensures now[j := x][..i + 1] == was[..j] + [x] + was[j..i] && now[j := x][i + 1..] == was[i + 1..]
  {}

  /** Element x is on its way down: the places above j have moved up. */
  ghost predicate Inserting<T>(le: (T, T) -> bool, was: seq<T>, now: seq<T>, i: nat, j: nat, x: T) {
    && Shifted(was, now, i, j)
    && Insert(le, was[..i], x) == Insert(le, was[..i][..j], x) + was[..i][j..]
  }

  lemma InsertingStarts<T>(le: (T, T) -> bool, was: seq<T>, i: nat, x: T)
    requires i < |was|
    ensures Inserting(le, was, was, i, i, x)
  {
    var sorted := was[..i];
    assert sorted[..i] == sorted && sorted[i..] == [];
  }

  lemma InsertingNext<T>(le: (T, T) -> bool, was: seq<T>, now: seq<T>, i: nat, j: nat, x: T)
    requires Inserting(le, was, now, i, j, x) && j > 0 && !le(now[j - 1], x)
    ensures Inserting(le, was, now[j := now[j - 1]], i, j - 1, x)
  {
    ShiftedNext(was, now, i, j);
    InsertStep(le, was[..i], x, j);
  }

  lemma InsertingDone<T>(le: (T, T) -> bool, was: seq<T>, now: seq<T>, i: nat, j: nat, x: T)
    requires Inserting(le, was, now, i, j, x) && (j == 0 || le(now[j - 1], x))
    ensures now[j := x][..i + 1] == Insert(le, was[..i], x) && now[j := x][i + 1..] == was[i + 1..]
  {
    var sorted := was[..i];
    ShiftedDone(was, now, i, j, x);
    InsertAtEnd(le, sorted[..j], x);
    assert was[..j] == sorted[..j] && was[j..i] == sorted[j..];
  }

  /** Moves element i down into the sorted part before it. */
  method InsertInPlace<T>(le: (T, T) -> bool, a: array<T>, i: nat)
    requires i < a.Length
    modifies a
    ensures a[..i + 1] == Insert(le, old(a[..i]), old(a[i]))
    ensures a[i + 1..] == old(a[i + 1..])
  {
    ghost var was := a[..];
    var x := a[i];
    var j := i;
    InsertingStarts(le, was, i, x);
    while j > 0 && !le(a[j - 1], x)
      invariant j <= i && Inserting(le, was, a[..], i, j, x)
    {
      InsertingNext(le, was, a[..], i, j, x);
      ghost var now := a[..];
      a[j] := a[j - 1];
      assert a[..] == now[j := now[j - 1]];
      j := j - 1;
    }
    InsertingDone(le, was, a[..], i, j, x);
    ghost var now := a[..];
    a[j] := x;
    assert a[..] == now[j := x];
    assert was[..i] == old(a[..i]) && was[i + 1..] == old(a[i + 1..]);
    assert a[..i + 1] == a[..][..i + 1] && a[i + 1..] == a[..][i + 1..];
  }

  // --- Strings ---------------------------------------------------------------------------

  /** Go's order on strings. */
  predicate StringLe(a: string, b: string) {
    a == "" || (b != "" && (a[0] < b[0] || (a[0] == b[0] && StringLe(a[1..], b[1..]))))
  }

  lemma {:induction false} StringTotal(a: string, b: string)
    ensures StringLe(a, b) || StringLe(b, a)
    ensures StringLe(a, b) && StringLe(b, a) ==> a == b
  {
    if a != "" && b != "" {
      StringTotal(a[1..], b[1..]);
      assert a == [a[0]] + a[1..] && b == [b[0]] + b[1..];
    }
  }

  lemma {:induction false} StringTransitive(a: string, b: string, c: string)
    requires StringLe(a, b) && StringLe(b, c)
    ensures StringLe(a, c)
  {
    if a != "" && a[0] == b[0] == c[0] { StringTransitive(a[1..], b[1..], c[1..]); }
  }

  /** a is a beginning of b, or smaller where they first differ. */
  ghost predicate Precedes(a: string, b: string) {
    a <= b || exists i :: 0 <= i < |a| && i < |b| && SmallerAt(a, b, i)
  }

  predicate SmallerAt(a: string, b: string, i: nat)
    requires i < |a| && i < |b|
  {
    a[..i] == b[..i] && a[i] < b[i]
  }

  /** The order on strings is lexicographic. */
  lemma {:induction false} StringLeIff(a: string, b: string)
    ensures StringLe(a, b) <==> Precedes(a, b)
  {
    if a != "" && b != "" {
      var x, y := a[1..], b[1..];
      assert a == [a[0]] + x && b == [b[0]] + y;
      StringLeIff(x, y);
      if a[0] == b[0] {
        SmallerBelow(a, b);
      } else if a[0] < b[0] {
        assert SmallerAt(a, b, 0);
      } else if i :| 0 <= i < |a| && i < |b| && SmallerAt(a, b, i) {
        SmallerStarts(a, b, i);
      }
    }
  }

  lemma SmallerStarts(a: string, b: string, i: nat)
    requires i < |a| && i < |b| && SmallerAt(a, b, i)
    ensures a[0] <= b[0]
  {
    if i > 0 { assert a[..i][0] == b[..i][0]; }
  }

  lemma SmallerBelow(a: string, b: string)
    requires a != "" && b != "" && a[0] == b[0]
    ensures Precedes(a, b) <==> Precedes(a[1..], b[1..])
  {
    var x, y := a[1..], b[1..];
    assert a == [a[0]] + x && b == [b[0]] + y;
    if i :| 0 <= i < |a| && i < |b| && SmallerAt(a, b, i) {
      assert x[..i - 1] == a[..i][1..] && y[..i - 1] == b[..i][1..];
      assert SmallerAt(x, y, i - 1);
    }
    if i :| 0 <= i < |x| && i < |y| && SmallerAt(x, y, i) {
      assert a[..i + 1] == [a[0]] + x[..i] && b[..i + 1] == [b[0]] + y[..i];
      assert SmallerAt(a, b, i + 1);
    }
  }

  /** Comparing by a string key. */
  function ByKey<T>(key: T -> string): (T, T) -> bool {
    (a, b) => StringLe(key(a), key(b))
  }

  lemma ByKeyTotal<T(!new)>(key: T -> string)
    ensures TotalOrder(ByKey(key))
  {
    var le := ByKey(key);
    forall a, b ensures le(a, b) || le(b, a) { StringTotal(key(a), key(b)); }
    forall a, b, c | le(a, b) && le(b, c) ensures le(a, c) { StringTransitive(key(a), key(b), key(c)); }
  }

  ghost predicate DistinctKeys<T>(key: T -> string, s: seq<T>) {
    forall i, j :: 0 <= i < j < |s| ==> KeysApart(key, s, i, j)
  }

  ghost predicate KeysApart<T>(key: T -> string, s: seq<T>, i: nat, j: nat)
    requires i < |s| && j < |s|
  {
    key(s[i]) != key(s[j])
  }

  /** A key tells the index. */
  lemma SameKeyAt<T>(key: T -> string, s: seq<T>, i: nat, j: nat)
    requires DistinctKeys(key, s) && i < |s| && j < |s| && key(s[i]) == key(s[j])
    ensures i == j
  {
    assert i < j ==> KeysApart(key, s, i, j);
    assert j < i ==> KeysApart(key, s, j, i);
  }

  lemma KeyApart<T>(key: T -> string, s: seq<T>, i: nat, j: nat)
    requires DistinctKeys(key, s) && i < j < |s|
    ensures key(s[i]) != key(s[j])
  {
    assert KeysApart(key, s, i, j);
  }

  lemma KeysBefore<T>(key: T -> string, s: seq<T>, n: nat)
    requires DistinctKeys(key, s) && n <= |s|
    ensures DistinctKeys(key, s[..n])
  {
    forall i, j | 0 <= i < j < n ensures KeysApart(key, s[..n], i, j) { KeyApart(key, s, i, j); }
  }

  lemma KeysSnoc<T>(key: T -> string, s: seq<T>, x: T)
    requires DistinctKeys(key, s) && forall y :: y in s ==> key(y) != key(x)
    ensures DistinctKeys(key, s + [x])
  {
    forall i, j | 0 <= i < j < |s + [x]| ensures KeysApart(key, s + [x], i, j) {
      if j < |s| { KeyApart(key, s, i, j); }
    }
  }

  lemma {:induction false} FilterDistinct<T>(p: T -> bool, key: T -> string, s: seq<T>)
    requires DistinctKeys(key, s)
    ensures DistinctKeys(key, Filter(p, s))
  {
    if s != [] {
      var k := |s| - 1;
      KeysBefore(key, s, k);
      FilterDistinct(p, key, s[..k]);
      forall x | x in Filter(p, s[..k]) ensures key(x) != key(s[k]) {
        FilterMembers(p, s[..k], x);
        var i :| 0 <= i < k && s[i] == x;
        KeyApart(key, s, i, k);
      }
      if p(s[k]) {
        KeysSnoc(key, Filter(p, s[..k]), s[k]);
      } else {
        assert Filter(p, s[..k]) + [] == Filter(p, s[..k]);
      }
    }
  }

  lemma KeysDistinguish<T>(key: T -> string, s: seq<T>)
    requires DistinctKeys(key, s)
    ensures Distinguishes(ByKey(key), s)
  {
    forall x, y | x in s && y in s && ByKey(key)(x, y) && ByKey(key)(y, x) ensures x == y {
      StringTotal(key(x), key(y));
      var i :| 0 <= i < |s| && s[i] == x;
      var j :| 0 <= j < |s| && s[j] == y;
      SameKeyAt(key, s, i, j);
    }
  }
}
