/** Fixed-width integer encodings: big-endian for unsigned values, sign-flipped big-endian for signed ones. */
module Integers {
  import opened Bytes

  /** The number of values a field of `width` bytes can hold. */
  function Pow256(width: nat): (p: nat)
    ensures p >= 1
  {
    if width == 0 then 1 else 256 * Pow256(width - 1)
  }

  function ToBigEndian(n: nat, width: nat): (b: bytes)
    ensures |b| == width
  {
    if width == 0 then [] else ToBigEndian(n / 256, width - 1) + [n % 256]
  }

  function FromBigEndian(b: bytes): nat {
    if b == [] then 0 else 256 * FromBigEndian(b[..|b| - 1]) + b[|b| - 1]
  }

  /** The magnitude of the sign bit of a `width`-byte integer. */
  function SignBit(width: nat): nat
    requires width >= 1
  {
    128 * Pow256(width - 1)
  }

  /** The `as unsigned` cast: two's complement wrap-around. */
  function AsUnsigned(i: int, width: nat): nat {
    i % Pow256(width)
  }

  /** The `as signed` cast of a `width`-byte unsigned value. */
  function AsSigned(u: nat, width: nat): int
    requires width >= 1
  {
    if u < SignBit(width) then u else u - Pow256(width)
  }

  /** Exclusive or with the sign bit, the most negative value cast to unsigned. */
  function FlipSign(u: nat, width: nat): nat
    requires width >= 1
  {
    if u < SignBit(width) then u + SignBit(width) else u - SignBit(width)
  }

  function EncodeSigned(i: int, width: nat): bytes
    requires width >= 1
  {
    ToBigEndian(FlipSign(AsUnsigned(i, width), width), width)
  }

  function DecodeSigned(b: bytes): int
    requires |b| >= 1
  {
    AsSigned(FlipSign(FromBigEndian(b), |b|), |b|)
  }

  predicate FitsSigned(i: int, width: nat)
    requires width >= 1
  {
    0 - SignBit(width) <= i < SignBit(width)
  }

  lemma {:induction false} BigEndianRoundTrip(n: nat, width: nat)
    requires n < Pow256(width)
    ensures FromBigEndian(ToBigEndian(n, width)) == n
  {
    if width > 0 {
      BigEndianRoundTrip(n / 256, width - 1);
      var b := ToBigEndian(n, width);
      assert b[..|b| - 1] == ToBigEndian(n / 256, width - 1);
    }
  }

  lemma {:induction false} BigEndianCanonical(b: bytes)
    ensures FromBigEndian(b) < Pow256(|b|)
    ensures ToBigEndian(FromBigEndian(b), |b|) == b
    decreases |b|
  {
    if b != [] {
      BigEndianCanonical(b[..|b| - 1]);
      assert b == b[..|b| - 1] + [b[|b| - 1]];
    }
  }

  lemma LessSnoc(a: bytes, b: bytes, x: byte, y: byte)
    requires |a| == |b|
    ensures Less(a + [x], b + [y]) <==> Less(a, b) || (a == b && x < y)
  {
    if a == b {
      LessUnderPrefix(a, [x], [y]);
      LessIrreflexive(a);
      assert Less([x], [y]) <==> x < y by {
        LessIrreflexive([]);
      }
    } else {
      LessDiverged(a, b, [x], [y]);
    }
  }

  /** Big-endian bytes sort like the numbers they encode. */
  lemma {:induction false} BigEndianOrder(m: nat, n: nat, width: nat)
    requires m < Pow256(width) && n < Pow256(width)
    ensures Less(ToBigEndian(m, width), ToBigEndian(n, width)) <==> m < n
    decreases width
  {
    if width > 0 {
      BigEndianOrder(m / 256, n / 256, width - 1);
      BigEndianOrder(n / 256, m / 256, width - 1);
      LessTotal(ToBigEndian(m / 256, width - 1), ToBigEndian(n / 256, width - 1));
      LessSnoc(ToBigEndian(m / 256, width - 1), ToBigEndian(n / 256, width - 1), m % 256, n % 256);
    }
  }

  /** Casting and flipping the sign bit is the same as adding it: the signed range moves to start at zero. */
  lemma FlippedCastIsShift(i: int, width: nat)
    requires width >= 1 && FitsSigned(i, width)
    ensures FlipSign(AsUnsigned(i, width), width) == i + SignBit(width) < Pow256(width)
  {
    var p := Pow256(width);
    assert p == 2 * SignBit(width);
    if i < 0 {
      assert i == (-1) * p + (i + p);
      RemainderUnique(i, p, -1, i + p);
    } else {
      RemainderUnique(i, p, 0, i);
    }
  }

  lemma RemainderUnique(i: int, p: int, q: int, r: int)
    requires p > 0 && 0 <= r < p && i == q * p + r
    ensures i % p == r
  {
    var d := i / p - q;
    assert p * d == r - i % p;
    assert d > 0 ==> p * d >= p;
    assert d < 0 ==> p * d <= -p;
  }

  lemma SignedRoundTrip(i: int, width: nat)
    requires width >= 1 && FitsSigned(i, width)
    ensures DecodeSigned(EncodeSigned(i, width)) == i
  {
    FlippedCastIsShift(i, width);
    BigEndianRoundTrip(i + SignBit(width), width);
  }

  lemma SignedCanonical(b: bytes)
    requires |b| >= 1
    ensures FitsSigned(DecodeSigned(b), |b|)
    ensures EncodeSigned(DecodeSigned(b), |b|) == b
  {
    BigEndianCanonical(b);
    FlippedCastIsShift(DecodeSigned(b), |b|);
  }

  /** Sign-flipped bytes sort like the signed numbers they encode. */
  lemma SignedOrder(i: int, j: int, width: nat)
    requires width >= 1 && FitsSigned(i, width) && FitsSigned(j, width)
    ensures Less(EncodeSigned(i, width), EncodeSigned(j, width)) <==> i < j
  {
    FlippedCastIsShift(i, width);
    FlippedCastIsShift(j, width);
    BigEndianOrder(i + SignBit(width), j + SignBit(width), width);
  }
}
