/** Byte ranges, and the range of the byte strings that start with a given prefix. */
module Prefixes {
  import opened Bytes

  datatype Bound<+T> = Included(value: T) | Excluded(value: T) | Unbounded

  datatype Range<+T> = Range(start: Bound<T>, end: Bound<T>)

  predicate AboveStart(k: bytes, start: Bound<bytes>) {
    match start
    case Included(v) => AtMost(v, k)
    case Excluded(v) => Less(v, k)
    case Unbounded => true
  }

  predicate BelowEnd(k: bytes, end: Bound<bytes>) {
    match end
    case Included(v) => AtMost(k, v)
    case Excluded(v) => Less(k, v)
    case Unbounded => true
  }

  predicate Contains(r: Range<bytes>, k: bytes) {
    AboveStart(k, r.start) && BelowEnd(k, r.end)
  }

  /** A range that an ordered map accepts: it refuses a start past the end, and one value excluded on both sides. */
  predicate Acceptable(r: Range<bytes>) {
    r.start.Unbounded? || r.end.Unbounded?
    || Less(r.start.value, r.end.value)
    || (r.start.value == r.end.value && !(r.start.Excluded? && r.end.Excluded?))
  }

  predicate AllOnes(b: bytes) {
    forall i | 0 <= i < |b| :: b[i] == 0xff
  }

  /** The end bound of the range of all byte strings starting with `p`. */
  function PrefixEnd(p: bytes): Bound<bytes> {
    if p == [] then Unbounded
    else if p[|p| - 1] != 0xff then Excluded(p[..|p| - 1] + [p[|p| - 1] + 1])
    else PrefixEnd(p[..|p| - 1])
  }

  /** The in-place form: walk back over 0xff bytes, increment the last other byte and cut after it. */
  method ComputePrefixEnd(p: bytes) returns (r: Bound<bytes>)
    ensures r == PrefixEnd(p)
  {
    var b := p;
    var i := |b|;
    assert p[..|p|] == p;
    while i > 0
      invariant 0 <= i <= |b| && b == p
      invariant PrefixEnd(p) == PrefixEnd(p[..i])
    {
      i := i - 1;
      assert p[..i + 1][..i] == p[..i];
      if b[i] != 0xff {
        b := b[i := b[i] + 1];
        b := b[..i + 1];
        assert b == p[..i] + [p[i] + 1];
        return Excluded(b);
      }
    }
    return Unbounded;
  }

  lemma {:induction false} UnboundedIffAllOnes(p: bytes)
    ensures PrefixEnd(p).Unbounded? <==> AllOnes(p)
    ensures !PrefixEnd(p).Included?
  {
    if p != [] {
      UnboundedIffAllOnes(p[..|p| - 1]);
      assert p == p[..|p| - 1] + [p[|p| - 1]];
      assert AllOnes(p) <==> AllOnes(p[..|p| - 1]) && p[|p| - 1] == 0xff;
    }
  }

  lemma {:induction false} OnesAreGreatest(p: bytes, k: bytes)
    requires AllOnes(p)
    ensures AtMost(p, k) <==> p <= k
    decreases |p|
  {
    if p == [] {
      PrefixAtMost(p, k);
    } else if k != [] && k[0] == 0xff {
      OnesAreGreatest(p[1..], k[1..]);
      assert p == [0xff] + p[1..] && k == [0xff] + k[1..];
    }
  }

  /** Everything below the successor of `p` is below `p` or starts with it. */
  lemma {:induction false} BelowSuccessor(p: bytes, k: bytes)
    requires PrefixEnd(p).Excluded?
    ensures Less(k, PrefixEnd(p).value) <==> Less(k, p) || p <= k
  {
    var n := |p| - 1;
    var q := p[..n];
    assert p == q + [p[n]];
    if p[n] != 0xff {
      var u := PrefixEnd(p).value;
      if q <= k {
        var t := k[n..];
        assert k == q + t;
        LessUnderPrefix(q, t, [p[n] + 1]);
        LessUnderPrefix(q, t, [p[n]]);
        assert t != [] ==> (p <= k <==> t[0] == p[n]) by {
          assert |k| > n ==> k[..n + 1] == q + [k[n]];
        }
        assert t != [] && t[0] == p[n] ==> !Less(t, [p[n]]);
      } else if k <= q {
        PrefixAtMost(k, p);
        PrefixAtMost(k, u);
      } else {
        LessDiverged(k, q, [], [p[n] + 1]);
        LessDiverged(k, q, [], [p[n]]);
        assert k + [] == k;
        assert p <= k ==> q <= k;
      }
    } else {
      BelowSuccessor(q, k);
      // Below or inside q: the only q-prefixed strings not below p are the p-prefixed ones.
      if q <= k {
        var t := k[n..];
        assert k == q + t;
        LessUnderPrefix(q, t, [0xff]);
        OnesAreGreatest([0xff], t);
        assert p <= k <==> [0xff] <= t by {
          assert |k| > n ==> k[..n + 1] == q + [k[n]];
        }
        LessTotal(k, p);
      } else {
        PrefixAtMost(q, p);
        if Less(k, q) {
          LessAtMost(k, q, p);
        }
        if Less(k, p) && !Less(k, q) {
          LessBetweenExtensions(q, k, p);
        }
        assert p <= k ==> q <= k;
      }
    }
  }

  /** What lies between a byte string and one of its extensions is itself an extension. */
  lemma {:induction false} LessBetweenExtensions(q: bytes, k: bytes, p: bytes)
    requires q <= p && AtMost(q, k) && Less(k, p)
    ensures q <= k
    decreases |q|
  {
    if q != [] {
      assert k != [];
      LessBetweenExtensions(q[1..], k[1..], p[1..]);
      assert q == [q[0]] + q[1..] && k == [k[0]] + k[1..];
    }
  }

  /** The prefix range is exact: it holds the byte strings that start with the prefix, and nothing else. */
  lemma PrefixRangeExact(p: bytes, k: bytes)
    ensures Contains(Range(Included(p), PrefixEnd(p)), k) <==> p <= k
  {
    UnboundedIffAllOnes(p);
    if p <= k {
      PrefixAtMost(p, k);
    }
    if PrefixEnd(p).Excluded? {
      BelowSuccessor(p, k);
    } else {
      OnesAreGreatest(p, k);
    }
  }

  /** The successor is the least byte string above every string starting with `p`; without one nothing is above. */
  lemma SuccessorLeast(p: bytes, u: bytes)
    ensures (forall t :: Less(p + t, u)) <==> PrefixEnd(p).Excluded? && AtMost(PrefixEnd(p).value, u)
  {
    UnboundedIffAllOnes(p);
    if PrefixEnd(p).Excluded? && AtMost(PrefixEnd(p).value, u) {
      forall t
        ensures Less(p + t, u)
      {
        BelowSuccessor(p, p + t);
        LessAtMost(p + t, PrefixEnd(p).value, u);
      }
    } else if forall t :: Less(p + t, u) {
      assert Less(p + [], u) && p + [] == p;
      assert p <= u by {
        LessTotal(p, u);
        if PrefixEnd(p).Excluded? {
          BelowSuccessor(p, u);
        } else {
          OnesAreGreatest(p, u);
        }
      }
      assert u == p + u[|p|..];
      LessIrreflexive(u);
    }
  }

  /** The successor of a prefix is above it and does not start with it. */
  lemma SuccessorAbove(p: bytes)
    requires PrefixEnd(p).Excluded?
    ensures Less(p, PrefixEnd(p).value) && !(p <= PrefixEnd(p).value)
  {
    BelowSuccessor(p, p);
    BelowSuccessor(p, PrefixEnd(p).value);
    LessIrreflexive(PrefixEnd(p).value);
  }
}
