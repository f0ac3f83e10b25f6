/** Framing of variable-size byte strings and text, so that they stay unambiguous inside composite keys. */
module Framing {
  import opened Bytes

  /** What decoding the front of a byte string gives; `Panic` is the source's refusal of malformed bytes. */
  datatype Decoded<+T> = Ok(value: T, rest: bytes) | Panic

  const TERMINATOR: bytes := [0x00, 0x00]
  const ESCAPED_ZERO: bytes := [0x00, 0xff]
  const STRING_END: byte := 0xff

  /** Escaped body and terminator of a byte string. */
  function Escape(b: bytes): bytes {
    if b == [] then TERMINATOR
    else (if b[0] == 0x00 then ESCAPED_ZERO else [b[0]]) + Escape(b[1..])
  }

  function Prepend(b: byte, d: Decoded<bytes>): Decoded<bytes> {
    match d
    case Ok(v, rest) => Ok([b] + v, rest)
    case Panic => Panic
  }

  function Unescape(b: bytes): Decoded<bytes>
    decreases |b|
  {
    if b == [] then Panic
    else if b[0] != 0x00 then Prepend(b[0], Unescape(b[1..]))
    else if |b| == 1 then Panic
    else if b[1] == 0x00 then Ok([], b[2..])
    else if b[1] == 0xff then Prepend(0x00, Unescape(b[2..]))
    else Panic
  }

  lemma {:induction false} EscapeKeepsOthers(u: bytes, w: bytes)
    requires 0x00 !in u
    ensures Escape(u + w) == u + Escape(w)
  {
    if u == [] {
      assert u + w == w && u + Escape(w) == Escape(w);
    } else {
      EscapeKeepsOthers(u[1..], w);
      assert (u + w)[1..] == u[1..] + w && u == [u[0]] + u[1..];
    }
  }

  /** Bytes up to a zero are kept, a zero becomes 00 ff, and 00 00 ends it all. */
  lemma EscapedForm(u: bytes, v: bytes)
    requires 0x00 !in u
    ensures Escape(u) == u + [0x00, 0x00]
    ensures Escape(u + [0x00] + v) == u + [0x00, 0xff] + Escape(v)
  {
    EscapeKeepsOthers(u, []);
    EscapeKeepsOthers(u, [0x00] + v);
    assert u + [] == u && u + [0x00] + v == u + ([0x00] + v) && ([0x00] + v)[1..] == v;
  }

  lemma {:induction false} UnescapeInverts(v: bytes, t: bytes)
    ensures Unescape(Escape(v) + t) == Ok(v, t)
  {
    if v == [] {
      assert (TERMINATOR + t)[2..] == t;
    } else {
      UnescapeInverts(v[1..], t);
      var unit := if v[0] == 0x00 then ESCAPED_ZERO else [v[0]];
      assert Escape(v) + t == unit + (Escape(v[1..]) + t);
      assert (unit + (Escape(v[1..]) + t))[|unit|..] == Escape(v[1..]) + t;
      assert v == [v[0]] + v[1..];
    }
  }

  lemma {:induction false} UnescapeCanonical(b: bytes)
    requires Unescape(b).Ok?
    ensures b == Escape(Unescape(b).value) + Unescape(b).rest
    decreases |b|
  {
    var Ok(v, rest) := Unescape(b);
    if b[0] != 0x00 {
      UnescapeCanonical(b[1..]);
      assert v[1..] == Unescape(b[1..]).value;
      assert b == [b[0]] + b[1..];
    } else if b[1] == 0x00 {
      assert b == TERMINATOR + b[2..];
    } else {
      UnescapeCanonical(b[2..]);
      assert v[1..] == Unescape(b[2..]).value;
      assert b == ESCAPED_ZERO + b[2..];
    }
  }

  /** Escaping is an order isomorphism, whatever follows the escaped bytes. */
  lemma {:induction false} EscapeOrder(a: bytes, b: bytes, x: bytes, y: bytes)
    ensures Less(Escape(a) + x, Escape(b) + y) <==> Less(a, b) || (a == b && Less(x, y))
    decreases |a|
  {
    var ua := if a == [] then TERMINATOR else if a[0] == 0x00 then ESCAPED_ZERO else [a[0]];
    var ub := if b == [] then TERMINATOR else if b[0] == 0x00 then ESCAPED_ZERO else [b[0]];
    var ra := if a == [] then x else Escape(a[1..]) + x;
    var rb := if b == [] then y else Escape(b[1..]) + y;
    assert Escape(a) + x == ua + ra && Escape(b) + y == ub + rb;
    LessIrreflexive(a);
    if ua == ub {
      LessUnderPrefix(ua, ra, rb);
      if a != [] {
        EscapeOrder(a[1..], b[1..], x, y);
        assert a == [a[0]] + a[1..] && b == [b[0]] + b[1..];
      }
    } else {
      LessDiverged(ua, ub, ra, rb);
      assert ua[0] == ub[0] ==> (Less(ua, ub) <==> Less(ua[1..], ub[1..]));
    }
  }

  /** A tail byte of a multi-byte UTF-8 sequence. */
  predicate Tail(b: byte) {
    0x80 <= b <= 0xbf
  }

  /** Length of the well-formed character at the front, by the grammar in section 4 of RFC 3629; 0 if there is none. */
  function CharLength(b: bytes): (n: nat)
    ensures n <= |b|
  {
    if |b| >= 1 && b[0] <= 0x7f then 1
    else if |b| >= 2 && 0xc2 <= b[0] <= 0xdf && Tail(b[1]) then 2
    else if |b| >= 3 && Tail(b[1]) && Tail(b[2])
            && (0xe0 <= b[0] <= 0xef)
            && (b[0] == 0xe0 ==> b[1] >= 0xa0)
            && (b[0] == 0xed ==> b[1] <= 0x9f) then 3
    else if |b| >= 4 && Tail(b[1]) && Tail(b[2]) && Tail(b[3])
            && (0xf0 <= b[0] <= 0xf4)
            && (b[0] == 0xf0 ==> b[1] >= 0x90)
            && (b[0] == 0xf4 ==> b[1] <= 0x8f) then 4
    else 0
  }

  predicate Utf8(b: bytes)
    decreases |b|
  {
    b == [] || (CharLength(b) > 0 && Utf8(b[CharLength(b)..]))
  }

  /** The Unicode scalar values: code points other than surrogates. */
  predicate Scalar(u: nat) {
    u <= 0xd7ff || 0xe000 <= u <= 0x10ffff
  }

  /** The bits of a scalar value spread over one to four bytes, by section 3 of RFC 3629. */
  function ScalarBytes(u: nat): (b: bytes)
    requires Scalar(u)
  {
    if u <= 0x7f then [u]
    else if u <= 0x7ff then [0xc0 + u / 64, 0x80 + u % 64]
    else if u <= 0xffff then [0xe0 + u / 64 / 64, 0x80 + u / 64 % 64, 0x80 + u % 64]
    else [0xf0 + u / 64 / 64 / 64, 0x80 + u / 64 / 64 % 64, 0x80 + u / 64 % 64, 0x80 + u % 64]
  }

  predicate Scalars(us: seq<nat>) {
    forall i | 0 <= i < |us| :: Scalar(us[i])
  }

  /** The UTF-8 form of a string, given by its scalar values. */
  function StringBytes(us: seq<nat>): bytes
    requires Scalars(us)
  {
    if us == [] then [] else ScalarBytes(us[0]) + StringBytes(us[1..])
  }

  /** The grammar finds a scalar value's bytes at the front, whatever follows. */
  lemma ScalarIsChar(u: nat, t: bytes)
    requires Scalar(u)
    ensures CharLength(ScalarBytes(u) + t) == |ScalarBytes(u)|
  {
  }

  /** The six payload bits of a tail byte, under the bits that come before it. */
  function AddTail(high: nat, b: byte): (u: nat)
    requires Tail(b)
    ensures u / 64 == high && 0x80 + u % 64 == b
  {
    high * 64 + (b as int - 0x80)
  }

  /** What the grammar finds at the front is some scalar value's bytes: no surrogates and no overlong forms. */
  lemma CharIsScalar(b: bytes) returns (u: nat)
    requires CharLength(b) > 0
    ensures Scalar(u) && ScalarBytes(u) == b[..CharLength(b)]
  {
    match CharLength(b)
    case 1 => u := b[0];
    case 2 => u := AddTail(b[0] as int - 0xc0, b[1]);
    case 3 => u := AddTail(AddTail(b[0] as int - 0xe0, b[1]), b[2]);
    case _ => u := AddTail(AddTail(AddTail(b[0] as int - 0xf0, b[1]), b[2]), b[3]);
  }

  lemma {:induction false} StringIsUtf8(us: seq<nat>)
    requires Scalars(us)
    ensures Utf8(StringBytes(us))
  {
    if us != [] {
      var head, tail := ScalarBytes(us[0]), StringBytes(us[1..]);
      ScalarIsChar(us[0], tail);
      StringIsUtf8(us[1..]);
      assert (head + tail)[|head|..] == tail;
    }
  }

  lemma {:induction false} Utf8IsString(b: bytes) returns (us: seq<nat>)
    requires Utf8(b)
    ensures Scalars(us) && StringBytes(us) == b
    decreases |b|
  {
    if b == [] {
      us := [];
    } else {
      var n := CharLength(b);
      var u := CharIsScalar(b);
      var more := Utf8IsString(b[n..]);
      us := [u] + more;
      assert us[1..] == more && b == b[..n] + b[n..];
    }
  }

  /** Well-formed UTF-8, by the grammar, is the UTF-8 form of the strings of scalar values, and nothing else. */
  lemma Utf8ExactlyStrings(b: bytes)
    ensures Utf8(b) <==> exists us :: Scalars(us) && StringBytes(us) == b
  {
    if Utf8(b) {
      var us := Utf8IsString(b);
    } else {
      forall us | Scalars(us)
        ensures StringBytes(us) != b
      {
        StringIsUtf8(us);
      }
    }
  }

  /** The string terminator never occurs in well-formed UTF-8. */
  lemma {:induction false} Utf8HasNoTerminator(b: bytes)
    requires Utf8(b)
    ensures STRING_END !in b
    decreases |b|
  {
    if b != [] {
      var n := CharLength(b);
      Utf8HasNoTerminator(b[n..]);
      assert b == b[..n] + b[n..];
      assert STRING_END !in b[..n];
    }
  }

  /** Position of the first string terminator, or the length if there is none. */
  function TerminatorPosition(b: bytes): (n: nat)
    ensures n <= |b|
    ensures STRING_END !in b[..n]
    ensures n < |b| ==> b[n] == STRING_END
  {
    if b == [] || b[0] == STRING_END then 0
    else
      var n := 1 + TerminatorPosition(b[1..]);
      assert b[..n] == [b[0]] + b[1..][..n - 1];
      n
  }

  function EncodeString(s: bytes): bytes {
    s + [STRING_END]
  }

  function DecodeString(b: bytes): Decoded<bytes> {
    var n := TerminatorPosition(b);
    if n == |b| || !Utf8(b[..n]) then Panic else Ok(b[..n], b[n + 1..])
  }

  lemma DecodeStringInverts(s: bytes, t: bytes)
    requires Utf8(s)
    ensures DecodeString(EncodeString(s) + t) == Ok(s, t)
  {
    Utf8HasNoTerminator(s);
    var b := EncodeString(s) + t;
    var n := TerminatorPosition(b);
    assert b[|s|] == STRING_END && b[..|s|] == s;
    assert forall i | 0 <= i < |s| :: b[i] == s[i];
    assert forall i | 0 <= i < n :: b[i] == b[..n][i];
    assert b[n + 1..] == t;
  }

  /** Every string of scalar values is read back from the front of whatever it is written before. */
  lemma StringRoundTrip(us: seq<nat>, t: bytes)
    requires Scalars(us)
    ensures DecodeString(EncodeString(StringBytes(us)) + t) == Ok(StringBytes(us), t)
  {
    StringIsUtf8(us);
    DecodeStringInverts(StringBytes(us), t);
  }

  lemma DecodeStringCanonical(b: bytes)
    requires DecodeString(b).Ok?
    ensures Utf8(DecodeString(b).value)
    ensures b == EncodeString(DecodeString(b).value) + DecodeString(b).rest
  {
    var n := TerminatorPosition(b);
    assert b == b[..n] + [b[n]] + b[n + 1..];
  }

  /**
   * The order in which encoded strings are kept: the usual order of strings, except that of two strings
   * where one starts with the other, the longer one comes first.
   */
  predicate StringBefore(a: bytes, b: bytes) {
    b < a || (Diverge(a, b) && Less(a, b))
  }

  lemma TerminatorAgainstExtension(p: bytes, s: bytes, x: bytes, y: bytes)
    requires p < s && STRING_END !in s
    ensures Less(EncodeString(s) + y, EncodeString(p) + x)
    ensures !Less(EncodeString(p) + x, EncodeString(s) + y)
  {
    var rest := s[|p|..];
    assert s == p + rest && rest[0] == s[|p|];
    assert EncodeString(s) + y == p + (rest + [STRING_END] + y);
    assert EncodeString(p) + x == p + ([STRING_END] + x);
    LessUnderPrefix(p, rest + [STRING_END] + y, [STRING_END] + x);
    LessTotal(EncodeString(p) + x, EncodeString(s) + y);
  }

  /** Encoded strings sort by `StringBefore`, whatever follows them. */
  lemma EncodeStringOrder(a: bytes, b: bytes, x: bytes, y: bytes)
    requires Utf8(a) && Utf8(b)
    ensures Less(EncodeString(a) + x, EncodeString(b) + y) <==> StringBefore(a, b) || (a == b && Less(x, y))
  {
    Utf8HasNoTerminator(a);
    Utf8HasNoTerminator(b);
    if a == b {
      assert EncodeString(a) + x == (a + [STRING_END]) + x;
      LessUnderPrefix(a + [STRING_END], x, y);
    } else if a <= b {
      TerminatorAgainstExtension(a, b, x, y);
    } else if b <= a {
      TerminatorAgainstExtension(b, a, y, x);
    } else {
      assert EncodeString(a) + x == a + ([STRING_END] + x) && EncodeString(b) + y == b + ([STRING_END] + y);
      LessDiverged(a, b, [STRING_END] + x, [STRING_END] + y);
    }
  }

  /** The stored order of two strings is their natural order exactly when neither is a proper prefix of the other. */
  lemma StringOrderDeparts(a: bytes, b: bytes)
    requires Utf8(a) && Utf8(b)
    ensures (Less(EncodeString(a), EncodeString(b)) <==> Less(a, b)) <==> !(a < b) && !(b < a)
  {
    EncodeStringOrder(a, b, [], []);
    assert EncodeString(a) + [] == EncodeString(a) && EncodeString(b) + [] == EncodeString(b);
    LessTotal(a, b);
    if a <= b {
      PrefixAtMost(a, b);
    } else if b <= a {
      PrefixAtMost(b, a);
    }
  }

  /** The departure at work: "ab" follows "a" as a string, and is stored before it. */
  lemma LongerStringIsStoredFirst()
    ensures Less([0x61], [0x61, 0x62])
    ensures Less(EncodeString([0x61, 0x62]), EncodeString([0x61]))
  {
    assert EncodeString([0x61, 0x62]) == [0x61] + [0x62, 0xff] && EncodeString([0x61]) == [0x61] + [0xff];
    LessUnderPrefix([0x61], [0x62, 0xff], [0xff]);
    LessUnderPrefix([0x61], [], [0x62]);
    assert [0x61] + [] == [0x61] && [0x61] + [0x62] == [0x61, 0x62];
  }
}
