/** Vocabulary shared by all components: optional values, bytes, concatenation of
    pieces, and mapping, filtering and removal on sequences, each with the facts
    that more than one component needs. */
module Common {

  datatype Option<+T> = None | Some(value: T)

  type Byte = b: int | 0 <= b < 256

  type Bytes = seq<Byte>

  /** The concatenation of a list of sequences. */
  function Flatten<T>(parts: seq<seq<T>>): (r: seq<T>)
  {
    if parts == [] then [] else parts[0] + Flatten(parts[1..])
  }

  lemma {:induction false} FlattenAppend<T>(xs: seq<seq<T>>, ys: seq<seq<T>>)
    ensures Flatten(xs + ys) == Flatten(xs) + Flatten(ys)
  {
    if xs == [] {
      assert xs + ys == ys;
    } else {
      FlattenAppend(xs[1..], ys);
      assert (xs + ys)[1..] == xs[1..] + ys;
    }
  }

  lemma FlattenSnoc<T>(xs: seq<seq<T>>, y: seq<T>)
    ensures Flatten(xs + [y]) == Flatten(xs) + y
  {
    FlattenAppend(xs, [y]);
    assert Flatten([y]) == y + Flatten([]);
  }

  lemma Associate<T>(a: seq<T>, b: seq<T>, c: seq<T>)
    ensures a + (b + c) == (a + b) + c
  {}

  /** The image of a sequence, element by element. */
  function Map<A, B>(f: A -> B, xs: seq<A>): (r: seq<B>)
    ensures |r| == |xs|
    ensures forall i :: 0 <= i < |xs| ==> r[i] == f(xs[i])
  {
    seq(|xs|, i requires 0 <= i < |xs| => f(xs[i]))
  }

  /** The elements that satisfy p, in order. */
  function Filter<T>(p: T -> bool, s: seq<T>): seq<T> {
    if s == [] then [] else
      var k := |s| - 1;
      Filter(p, s[..k]) + if p(s[k]) then [s[k]] else []
  }

  lemma {:induction false} FilterMembers<T>(p: T -> bool, s: seq<T>, x: T)
    ensures x in Filter(p, s) <==> x in s && p(x)
  {
    if s != [] {
      FilterMembers(p, s[..|s| - 1], x);
      assert s == s[..|s| - 1] + [s[|s| - 1]];
    }
  }

  lemma FilterSnoc<T>(p: T -> bool, s: seq<T>, x: T)
    ensures Filter(p, s + [x]) == Filter(p, s) + if p(x) then [x] else []
  {
    assert (s + [x])[..|s|] == s;
  }

  /** A filter that is the disjoint union of two others. */
  lemma {:induction false} FilterSplit<T>(p: T -> bool, q: T -> bool, r: T -> bool, s: seq<T>)
    requires forall x :: x in s ==> (p(x) <==> q(x) || r(x)) && !(q(x) && r(x))
    ensures multiset(Filter(p, s)) == multiset(Filter(q, s)) + multiset(Filter(r, s))
  {
    if s != [] { FilterSplit(p, q, r, s[..|s| - 1]); }
  }

  lemma {:induction false} FilterAll<T>(p: T -> bool, s: seq<T>)
    requires forall x :: x in s ==> p(x)
    ensures Filter(p, s) == s
  {
    if s != [] {
      FilterAll(p, s[..|s| - 1]);
      assert s == s[..|s| - 1] + [s[|s| - 1]];
    }
  }

  lemma {:induction false} FilterNone<T>(p: T -> bool, s: seq<T>)
    requires forall x :: x in s ==> !p(x)
    ensures Filter(p, s) == []
  {
    if s != [] { FilterNone(p, s[..|s| - 1]); }
  }

  /** Mapping sees only the multiset of its argument. */
  lemma {:induction false} MapPermutes<A, B>(f: A -> B, a: seq<A>, b: seq<A>)
    requires multiset(a) == multiset(b)
    ensures multiset(Map(f, a)) == multiset(Map(f, b))
  {
    assert |multiset(a)| == |a| && |multiset(b)| == |b|;
    if a != [] {
      var k := |a| - 1;
      assert a[k] in multiset(b);
      var i :| 0 <= i < |b| && b[i] == a[k];
      MapRemove(f, a, k); MapRemove(f, b, i);
      assert multiset(a[..k] + a[k + 1..]) == multiset(a) - multiset{a[k]} == multiset(b[..i] + b[i + 1..]);
      MapPermutes(f, a[..k] + a[k + 1..], b[..i] + b[i + 1..]);
    }
  }

  lemma Remove<A>(s: seq<A>, i: nat)
    requires i < |s|
    ensures multiset(s) == multiset(s[..i] + s[i + 1..]) + multiset{s[i]}
  {
    assert s == s[..i] + [s[i]] + s[i + 1..];
  }

  /** What is left of two permuted lists without one common element. */
  lemma PermutedRest<A>(a: seq<A>, b: seq<A>) returns (i: nat)
    requires multiset(a) == multiset(b) && a != []
    ensures |a| == |b| && i < |b| && b[i] == a[|a| - 1]
    ensures multiset(a[..|a| - 1]) == multiset(b[..i] + b[i + 1..])
  {
    var k := |a| - 1;
    assert |multiset(a)| == |a| && |multiset(b)| == |b|;
    assert a[k] in multiset(b);
    i :| 0 <= i < |b| && b[i] == a[k];
    Remove(b, i);
    assert a == a[..k] + [a[k]];
    assert multiset(a[..k]) == multiset(a) - multiset{a[k]};
  }

  lemma {:induction false} FilterAppend<A>(p: A -> bool, a: seq<A>, b: seq<A>)
    ensures Filter(p, a + b) == Filter(p, a) + Filter(p, b)
  {
    if b == [] {
      assert a + b == a;
    } else {
      assert (a + b)[..|a + b| - 1] == a + b[..|b| - 1];
      FilterAppend(p, a, b[..|b| - 1]);
    }
  }

  lemma FilterRemove<A>(p: A -> bool, s: seq<A>, i: nat)
    requires i < |s|
    ensures multiset(Filter(p, s))
      == multiset(Filter(p, s[..i] + s[i + 1..])) + if p(s[i]) then multiset{s[i]} else multiset{}
  {
    var before, after := s[..i], s[i + 1..];
    assert s == before + ([s[i]] + after);
    FilterAppend(p, before, [s[i]] + after);
    FilterAppend(p, [s[i]], after);
    FilterAppend(p, before, after);
    FilterSnoc(p, [], s[i]);
    assert [] + [s[i]] == [s[i]];
    MiddleOut(Filter(p, before), Filter(p, [s[i]]), Filter(p, after));
  }

  lemma MiddleOut<A>(x: seq<A>, y: seq<A>, z: seq<A>)
    ensures multiset(x + (y + z)) == multiset(x + z) + multiset(y)
  {}

  lemma {:induction false} FilterPermutes<A>(p: A -> bool, a: seq<A>, b: seq<A>)
    requires multiset(a) == multiset(b)
    ensures multiset(Filter(p, a)) == multiset(Filter(p, b))
  {
    if a == [] {
      assert |multiset(b)| == |b|;
    } else {
      var i := PermutedRest(a, b);
      FilterPermutes(p, a[..|a| - 1], b[..i] + b[i + 1..]);
      FilterRemove(p, b, i);
    }
  }

  lemma MapRemove<A, B>(f: A -> B, s: seq<A>, i: nat)
    requires i < |s|
    ensures multiset(s) == multiset(s[..i] + s[i + 1..]) + multiset{s[i]}
    ensures multiset(Map(f, s)) == multiset(Map(f, s[..i] + s[i + 1..])) + multiset{f(s[i])}
  {
    Remove(s, i);
    var image := Map(f, s);
    Remove(image, i);
    assert image[..i] + image[i + 1..] == Map(f, s[..i] + s[i + 1..]);
  }

  /** Two different inputs never have the same digest. */
  ghost predicate Injective<A(!new), B>(f: A -> B) {
    forall x, y :: f(x) == f(y) ==> x == y
  }

  /** An output: whether its k-th write succeeds. */
  type Writer = nat -> bool

  /** How many of n writes go through before the first that fails. */
  function Accepted(w: Writer, n: nat): (m: nat)
    ensures m <= n && (m < n ==> !w(m)) && forall k :: 0 <= k < m ==> w(k)
  {
    if n == 0 then 0 else
      var m := Accepted(w, n - 1);
      if m < n - 1 then m else if w(n - 1) then n else n - 1
  }

  lemma {:induction false} AcceptedIs(w: Writer, n: nat, m: nat)
    requires m <= n && (m < n ==> !w(m)) && forall k :: 0 <= k < m ==> w(k)
    ensures Accepted(w, n) == m
  {
    if n > 0 { AcceptedIs(w, n - 1, if m < n then m else n - 1); }
  }

  lemma Cancel<T>(front: seq<T>, a: seq<T>, b: seq<T>)
    requires front + a == front + b
    ensures a == b
  {
    assert a == (front + a)[|front|..];
    assert b == (front + b)[|front|..];
  }
}
