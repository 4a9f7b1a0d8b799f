/** Splitting text at a separator and joining it again: the two undo each other
    when no part contains the separator, which is what makes slash-separated
    paths readable part by part. */
module Text {

  /** The fields of s between separators; always at least one. */
  function Split(s: string, sep: char): (r: seq<string>)
    ensures |r| >= 1
  {
    if s == "" then [""] else
      var rest := Split(s[1..], sep);
      if s[0] == sep then [""] + rest else [[s[0]] + rest[0]] + rest[1..]
  }

  /** Text without the separator is one field. */
  lemma {:induction false} SplitNone(s: string, sep: char)
    requires sep !in s
    ensures Split(s, sep) == [s]
  {
    if s != "" {
      SplitNone(s[1..], sep);
      assert s == [s[0]] + s[1..];
    }
  }

  /** Text before the first separator is the first field. */
  lemma SplitAt(a: string, sep: char, b: string)
    requires sep !in a
    ensures Split(a + [sep] + b, sep) == [a] + Split(b, sep)
  {
    SplitNone(a, sep);
    SplitAppend(a, sep, b);
  }

  /** Exactly two fields means exactly one separator. */
  lemma {:induction false} SplitTwo(s: string, sep: char)
    requires |Split(s, sep)| == 2
    ensures s == Split(s, sep)[0] + [sep] + Split(s, sep)[1]
  {
    var rest := Split(s[1..], sep);
    assert s == [s[0]] + s[1..];
    if s[0] == sep {
      SplitJoinsOne(s[1..], sep);
    } else {
      SplitTwo(s[1..], sep);
    }
  }

  lemma {:induction false} SplitJoinsOne(s: string, sep: char)
    requires |Split(s, sep)| == 1
    ensures s == Split(s, sep)[0]
  {
    if s != "" { SplitJoinsOne(s[1..], sep); }
  }

  /** No field holds the separator. */
  lemma {:induction false} SplitParts(s: string, sep: char, i: nat)
    requires i < |Split(s, sep)|
    ensures sep !in Split(s, sep)[i]
  {
    if s != "" {
      var rest := Split(s[1..], sep);
      if s[0] == sep {
        if i > 0 { SplitParts(s[1..], sep, i - 1); }
      } else {
        SplitParts(s[1..], sep, i);
      }
    }
  }

  /** The parts with the separator between them. */
  function Join(parts: seq<string>, sep: char): string {
    if parts == [] then ""
    else if |parts| == 1 then parts[0]
    else Join(parts[..|parts| - 1], sep) + [sep] + parts[|parts| - 1]
  }

  /** Splitting undoes joining when no part holds the separator. */
  lemma {:induction false} SplitJoin(parts: seq<string>, sep: char)
    requires parts != [] && forall p :: p in parts ==> sep !in p
    ensures Split(Join(parts, sep), sep) == parts
  {
    var k := |parts| - 1;
    if k == 0 {
      SplitNone(parts[0], sep);
    } else {
      SplitJoin(parts[..k], sep);
      SplitNone(parts[k], sep);
      SplitAppend(Join(parts[..k], sep), sep, parts[k]);
      assert parts == parts[..k] + [parts[k]];
    }
  }

  lemma Regroup(a: seq<string>, b: seq<string>, c: char)
    requires |a| >= 1
    ensures [""] + (a + b) == ([""] + a) + b
    ensures [[c] + (a + b)[0]] + (a + b)[1..] == ([[c] + a[0]] + a[1..]) + b
  {}

  /** A separator between two texts keeps their fields apart. */
  lemma {:induction false} SplitAppend(a: string, sep: char, b: string)
    ensures Split(a + [sep] + b, sep) == Split(a, sep) + Split(b, sep)
  {
    var s := a + [sep] + b;
    if a == "" {
      assert s[1..] == b;
    } else {
      SplitAppend(a[1..], sep, b);
      assert s[1..] == a[1..] + [sep] + b && s[0] == a[0];
      Regroup(Split(a[1..], sep), Split(b, sep), a[0]);
    }
  }
}
