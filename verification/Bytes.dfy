/** Byte strings and the bytewise lexicographic order in which every store keeps its keys. */
module Bytes {

  type byte = b: int | 0 <= b < 256

  type bytes = seq<byte>

  /** Strict lexicographic order; a proper prefix comes first. */
  predicate Less(a: bytes, b: bytes)
    decreases |a|
  {
    b != [] && (a == [] || a[0] < b[0] || (a[0] == b[0] && Less(a[1..], b[1..])))
  }

  predicate AtMost(a: bytes, b: bytes) {
    !Less(b, a)
  }

  /** Neither byte string starts with the other: they differ at some common position. */
  predicate Diverge(a: bytes, b: bytes) {
    !(a <= b) && !(b <= a)
  }

  lemma {:induction false} LessIrreflexive(a: bytes)
    ensures !Less(a, a)
    decreases |a|
  {
    if a != [] {
      LessIrreflexive(a[1..]);
    }
  }

  lemma {:induction false} LessTotal(a: bytes, b: bytes)
    ensures Less(a, b) || a == b || Less(b, a)
    ensures !(Less(a, b) && Less(b, a))
    decreases |a|
  {
    if a != [] && b != [] {
      LessTotal(a[1..], b[1..]);
      if a[1..] == b[1..] && a[0] == b[0] {
        assert a == [a[0]] + a[1..] == b;
      }
    }
  }

  lemma {:induction false} LessTransitive(a: bytes, b: bytes, c: bytes)
    requires Less(a, b) && Less(b, c)
    ensures Less(a, c)
    decreases |a|
  {
    if a != [] && a[0] == b[0] && b[0] == c[0] {
      LessTransitive(a[1..], b[1..], c[1..]);
    }
  }

  lemma AtMostLess(a: bytes, b: bytes, c: bytes)
    requires AtMost(a, b) && Less(b, c)
    ensures Less(a, c)
  {
    LessTotal(a, b);
    if a != b {
      LessTransitive(a, b, c);
    }
  }

  lemma LessAtMost(a: bytes, b: bytes, c: bytes)
    requires Less(a, b) && AtMost(b, c)
    ensures Less(a, c)
  {
    LessTotal(b, c);
    if b != c {
      LessTransitive(a, b, c);
    }
  }

  /** A shared prefix does not influence the comparison. */
  lemma {:induction false} LessUnderPrefix(p: bytes, a: bytes, b: bytes)
    ensures Less(p + a, p + b) <==> Less(a, b)
    decreases |p|
  {
    if p == [] {
      assert p + a == a && p + b == b;
    } else {
      LessUnderPrefix(p[1..], a, b);
      assert (p + a)[1..] == p[1..] + a && (p + b)[1..] == p[1..] + b;
    }
  }

  /** Once two byte strings differ at a common position, what follows is irrelevant. */
  lemma {:induction false} LessDiverged(a: bytes, b: bytes, x: bytes, y: bytes)
    requires Diverge(a, b)
    ensures Less(a + x, b + y) <==> Less(a, b)
    decreases |a|
  {
    assert a != [] && b != [];
    if a[0] == b[0] {
      assert a == [a[0]] + a[1..] && b == [b[0]] + b[1..];
      LessDiverged(a[1..], b[1..], x, y);
      assert (a + x)[1..] == a[1..] + x && (b + y)[1..] == b[1..] + y;
    }
  }

  /** A byte string precedes all its proper extensions. */
  lemma PrefixAtMost(p: bytes, s: bytes)
    requires p <= s
    ensures AtMost(p, s)
    ensures p != s ==> Less(p, s)
  {
    assert s == p + s[|p|..] && p == p + [];
    LessUnderPrefix(p, s[|p|..], []);
    LessUnderPrefix(p, [], s[|p|..]);
  }
}
