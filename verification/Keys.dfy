/** Typed keys, their ordered byte encoding, and schema-driven decoding. */
module Keys {
  import opened Bytes
  import opened Integers
  import opened Framing

  /** An enum type with an explicit discriminant for each of its variants. */
  datatype EnumType = EnumType(width: nat, discriminants: seq<nat>)

  datatype EnumVariant = EnumVariant(ty: EnumType, index: nat)

  type EnumValue = e: EnumVariant | e.index < |e.ty.discriminants| witness EnumVariant(EnumType(1, [0]), 0)

  datatype Key =
    | UInt(width: nat, n: nat)
    | SInt(width: nat, i: int)
    | Boolean(b: bool)
    | Enum(e: EnumValue)
    | Array(a: bytes)
    | Text(utf8: bytes)
    | Blob(v: bytes)
    | Tuple(parts: seq<Key>)

  /** The type of a key; decoding is driven by it. */
  datatype Schema =
    | UIntS(width: nat)
    | SIntS(width: nat)
    | BooleanS
    | EnumS(ty: EnumType)
    | ArrayS(length: nat)
    | TextS
    | BlobS
    | TupleS(parts: seq<Schema>)

  predicate Distinct<T(==)>(s: seq<T>) {
    forall i, j | 0 <= i < j < |s| :: s[i] != s[j]
  }

  /** Integer types have at least one byte; discriminants are distinct unsigned values of the enum's width. */
  predicate WellFormed(s: Schema) {
    match s
    case UIntS(width) => width >= 1
    case SIntS(width) => width >= 1
    case EnumS(ty) =>
      ty.width >= 1 && Distinct(ty.discriminants)
      && forall d | d in ty.discriminants :: d < Pow256(ty.width)
    case TupleS(parts) => forall i | 0 <= i < |parts| :: WellFormed(parts[i])
    case _ => true
  }

  predicate HasSchema(k: Key, s: Schema)
    decreases k, 1
  {
    match s
    case UIntS(width) => k.UInt? && k.width == width && k.n < Pow256(width)
    case SIntS(width) => k.SInt? && k.width == width && width >= 1 && FitsSigned(k.i, width)
    case BooleanS => k.Boolean?
    case EnumS(ty) => k.Enum? && k.e.ty == ty
    case ArrayS(length) => k.Array? && |k.a| == length
    case TextS => k.Text? && Utf8(k.utf8)
    case BlobS => k.Blob?
    case TupleS(parts) => k.Tuple? && HaveSchemas(k.parts, parts)
  }

  predicate HaveSchemas(ks: seq<Key>, ss: seq<Schema>)
    decreases ks, 0
  {
    |ks| == |ss| && (ks != [] ==> HasSchema(ks[0], ss[0]) && HaveSchemas(ks[1..], ss[1..]))
  }

  /** The ordered byte encoding of a key. */
  function Encode(k: Key): bytes
    decreases k, 1
  {
    match k
    case UInt(width, n) => ToBigEndian(n, width)
    case SInt(width, i) => if width == 0 then [] else EncodeSigned(i, width)
    case Boolean(b) => if b then [1] else [0]
    case Enum(e) => ToBigEndian(e.ty.discriminants[e.index], e.ty.width)
    case Array(a) => a
    case Text(utf8) => EncodeString(utf8)
    case Blob(v) => Escape(v)
    case Tuple(parts) => EncodeAll(parts)
  }

  /** A composite key is the concatenation of its components. */
  function EncodeAll(ks: seq<Key>): bytes
    decreases ks, 0
  {
    if ks == [] then [] else Encode(ks[0]) + EncodeAll(ks[1..])
  }

  /** First position of a discriminant, or the number of discriminants if it is not declared. */
  function FindVariant(discriminants: seq<nat>, d: nat): (i: nat)
    ensures i <= |discriminants|
    ensures i < |discriminants| ==> discriminants[i] == d
    ensures d !in discriminants[..i]
  {
    if discriminants == [] || discriminants[0] == d then 0
    else
      var i := 1 + FindVariant(discriminants[1..], d);
      assert discriminants[..i] == [discriminants[0]] + discriminants[1..][..i - 1];
      i
  }

  /** Decodes a key from the front of `b` and returns the unread bytes. */
  function DecodePart(s: Schema, b: bytes): Decoded<Key>
    decreases s, 1
  {
    match s
    case UIntS(width) =>
      if |b| < width then Panic else Ok(UInt(width, FromBigEndian(b[..width])), b[width..])
    case SIntS(width) =>
      if width == 0 || |b| < width then Panic else Ok(SInt(width, DecodeSigned(b[..width])), b[width..])
    case BooleanS =>
      if b == [] || b[0] > 1 then Panic else Ok(Boolean(b[0] == 1), b[1..])
    case EnumS(ty) =>
      if |b| < ty.width then Panic
      else
        var i := FindVariant(ty.discriminants, FromBigEndian(b[..ty.width]));
        if i == |ty.discriminants| then Panic else Ok(Enum(EnumVariant(ty, i)), b[ty.width..])
    case ArrayS(length) =>
      if |b| < length then Panic else Ok(Array(b[..length]), b[length..])
    case TextS =>
      (match DecodeString(b)
       case Ok(utf8, rest) => Ok(Text(utf8), rest)
       case Panic => Panic)
    case BlobS =>
      (match Unescape(b)
       case Ok(v, rest) => Ok(Blob(v), rest)
       case Panic => Panic)
    case TupleS(parts) =>
      (match DecodeParts(parts, b)
       case Ok(ks, rest) => Ok(Tuple(ks), rest)
       case Panic => Panic)
  }

  function DecodeParts(ss: seq<Schema>, b: bytes): Decoded<seq<Key>>
    decreases ss, 0
  {
    if ss == [] then Ok([], b)
    else
      match DecodePart(ss[0], b)
      case Panic => Panic
      case Ok(k, r) =>
        match DecodeParts(ss[1..], r)
        case Panic => Panic
        case Ok(ks, rest) => Ok([k] + ks, rest)
  }

  /** Decodes a whole byte string; left-over bytes are refused. */
  function Decode(s: Schema, b: bytes): Decoded<Key> {
    match DecodePart(s, b)
    case Ok(k, rest) => if rest == [] then Ok(k, []) else Panic
    case Panic => Panic
  }

  /** Decoding an encoded key followed by anything returns the key and leaves exactly what followed. */
  lemma {:induction false} RoundTrip(s: Schema, k: Key, t: bytes)
    requires WellFormed(s) && HasSchema(k, s)
    ensures DecodePart(s, Encode(k) + t) == Ok(k, t)
    decreases k, 1
  {
    var e := Encode(k);
    assert (e + t)[..|e|] == e && (e + t)[|e|..] == t;
    match k
    case UInt(width, n) => BigEndianRoundTrip(n, width);
    case SInt(width, i) => SignedRoundTrip(i, width);
    case Boolean(b) =>
    case Enum(v) =>
      assert v.ty.discriminants[v.index] in v.ty.discriminants;
      BigEndianRoundTrip(v.ty.discriminants[v.index], v.ty.width);
    case Array(a) =>
    case Text(utf8) => DecodeStringInverts(utf8, t);
    case Blob(v) => UnescapeInverts(v, t);
    case Tuple(parts) => RoundTripAll(s.parts, parts, t);
  }

  lemma {:induction false} RoundTripAll(ss: seq<Schema>, ks: seq<Key>, t: bytes)
    requires forall i | 0 <= i < |ss| :: WellFormed(ss[i])
    requires HaveSchemas(ks, ss)
    ensures DecodeParts(ss, EncodeAll(ks) + t) == Ok(ks, t)
    decreases ks, 0
  {
    if ks == [] {
      assert EncodeAll(ks) + t == t;
    } else {
      RoundTrip(ss[0], ks[0], EncodeAll(ks[1..]) + t);
      RoundTripAll(ss[1..], ks[1..], t);
      assert EncodeAll(ks) + t == Encode(ks[0]) + (EncodeAll(ks[1..]) + t);
      assert ks == [ks[0]] + ks[1..];
    }
  }

  /** `Decode` accepts an encoded key exactly when nothing follows it. */
  lemma DecodeExact(s: Schema, k: Key, t: bytes)
    requires WellFormed(s) && HasSchema(k, s)
    ensures Decode(s, Encode(k) + t) == if t == [] then Ok(k, []) else Panic
  {
    RoundTrip(s, k, t);
  }

  /** Only encodings decode: whatever decodes is the encoding of the decoded key followed by the unread bytes. */
  lemma {:induction false} Canonical(s: Schema, b: bytes)
    requires WellFormed(s) && DecodePart(s, b).Ok?
    ensures HasSchema(DecodePart(s, b).value, s)
    ensures b == Encode(DecodePart(s, b).value) + DecodePart(s, b).rest
    decreases s, 1
  {
    match s
    case UIntS(width) =>
      BigEndianCanonical(b[..width]);
    case SIntS(width) =>
      SignedCanonical(b[..width]);
    case BooleanS =>
    case EnumS(ty) =>
      BigEndianCanonical(b[..ty.width]);
    case ArrayS(length) =>
    case TextS => DecodeStringCanonical(b);
    case BlobS => UnescapeCanonical(b);
    case TupleS(parts) => CanonicalAll(parts, b);
  }

  /** `Decode` accepts exactly the encodings of the schema's keys, and gives the key back with nothing left. */
  lemma DecodeAcceptsEncodings(s: Schema, b: bytes)
    requires WellFormed(s)
    ensures Decode(s, b).Ok? <==> exists k :: HasSchema(k, s) && Encode(k) == b
    ensures Decode(s, b).Ok? ==>
              HasSchema(Decode(s, b).value, s) && Encode(Decode(s, b).value) == b && Decode(s, b).rest == []
  {
    if Decode(s, b).Ok? {
      Canonical(s, b);
      assert Encode(DecodePart(s, b).value) + [] == Encode(DecodePart(s, b).value);
    }
    forall k | HasSchema(k, s) && Encode(k) == b
      ensures Decode(s, b) == Ok(k, [])
    {
      DecodeExact(s, k, []);
      assert b + [] == b;
    }
  }

  lemma {:induction false} CanonicalAll(ss: seq<Schema>, b: bytes)
    requires forall i | 0 <= i < |ss| :: WellFormed(ss[i])
    requires DecodeParts(ss, b).Ok?
    ensures HaveSchemas(DecodeParts(ss, b).value, ss)
    ensures b == EncodeAll(DecodeParts(ss, b).value) + DecodeParts(ss, b).rest
    decreases ss, 0
  {
    if ss != [] {
      Canonical(ss[0], b);
      var r := DecodePart(ss[0], b).rest;
      CanonicalAll(ss[1..], r);
      var ks := DecodeParts(ss, b).value;
      assert ks[1..] == DecodeParts(ss[1..], r).value;
    }
  }

  /** Encodings of one schema are prefix-free, so a concatenation splits in one way only. */
  lemma PrefixFree(s: Schema, a: Key, b: Key, x: bytes, y: bytes)
    requires WellFormed(s) && HasSchema(a, s) && HasSchema(b, s)
    requires Encode(a) + x == Encode(b) + y
    ensures a == b && x == y
  {
    RoundTrip(s, a, x);
    RoundTrip(s, b, y);
  }

  /** Encodings of different keys of one schema differ before either of them ends. */
  lemma DifferentKeysDiverge(s: Schema, a: Key, b: Key)
    requires WellFormed(s) && HasSchema(a, s) && HasSchema(b, s) && a != b
    ensures Diverge(Encode(a), Encode(b))
  {
    if Encode(a) <= Encode(b) {
      PrefixFree(s, a, b, Encode(b)[|Encode(a)|..], []);
    }
    if Encode(b) <= Encode(a) {
      PrefixFree(s, a, b, [], Encode(a)[|Encode(b)|..]);
    }
  }

  /**
   * The order in which keys are kept: numeric, by discriminant, bytewise, and lexicographic on tuples;
   * strings use `StringBefore`.
   */
  predicate Before(a: Key, b: Key)
    decreases a, 1
  {
    match (a, b)
    case (UInt(_, m), UInt(_, n)) => m < n
    case (SInt(_, i), SInt(_, j)) => i < j
    case (Boolean(p), Boolean(q)) => !p && q
    case (Enum(e), Enum(f)) => e.ty.discriminants[e.index] < f.ty.discriminants[f.index]
    case (Array(v), Array(w)) => Less(v, w)
    case (Text(v), Text(w)) => StringBefore(v, w)
    case (Blob(v), Blob(w)) => Less(v, w)
    case (Tuple(ps), Tuple(qs)) => AllBefore(ps, qs)
    case _ => false
  }

  predicate AllBefore(ps: seq<Key>, qs: seq<Key>)
    decreases ps, 0
  {
    ps != [] && qs != [] && (Before(ps[0], qs[0]) || (ps[0] == qs[0] && AllBefore(ps[1..], qs[1..])))
  }

  lemma SameLengthOrder(a: bytes, b: bytes, x: bytes, y: bytes)
    requires |a| == |b|
    ensures Less(a + x, b + y) <==> Less(a, b) || (a == b && Less(x, y))
  {
    LessIrreflexive(a);
    if a == b {
      LessUnderPrefix(a, x, y);
    } else {
      LessDiverged(a, b, x, y);
    }
  }

  /**
   * Bytes sort like keys, and what follows an encoded key only matters when the keys are equal. For tuples
   * this is the lexicographic order of the components, whatever their nesting.
   */
  lemma {:induction false} EncodingOrder(s: Schema, a: Key, b: Key, x: bytes, y: bytes)
    requires WellFormed(s) && HasSchema(a, s) && HasSchema(b, s)
    ensures Less(Encode(a) + x, Encode(b) + y) <==> Before(a, b) || (a == b && Less(x, y))
    decreases a, 1
  {
    match s
    case UIntS(width) =>
      BigEndianOrder(a.n, b.n, width);
      SameLengthOrder(Encode(a), Encode(b), x, y);
      BigEndianRoundTrip(a.n, width);
      BigEndianRoundTrip(b.n, width);
    case SIntS(width) =>
      SignedOrder(a.i, b.i, width);
      SameLengthOrder(Encode(a), Encode(b), x, y);
      SignedRoundTrip(a.i, width);
      SignedRoundTrip(b.i, width);
    case BooleanS =>
      SameLengthOrder(Encode(a), Encode(b), x, y);
      assert forall p: byte, q: byte :: Less([p], [q]) <==> p < q;
    case EnumS(ty) =>
      var m, n := ty.discriminants[a.e.index], ty.discriminants[b.e.index];
      assert m in ty.discriminants && n in ty.discriminants;
      BigEndianOrder(m, n, ty.width);
      SameLengthOrder(Encode(a), Encode(b), x, y);
      BigEndianRoundTrip(m, ty.width);
      BigEndianRoundTrip(n, ty.width);
    case ArrayS(length) =>
      SameLengthOrder(a.a, b.a, x, y);
    case TextS =>
      EncodeStringOrder(a.utf8, b.utf8, x, y);
    case BlobS =>
      EscapeOrder(a.v, b.v, x, y);
    case TupleS(parts) =>
      EncodingOrderAll(parts, a.parts, b.parts, x, y);
  }

  lemma {:induction false} EncodingOrderAll(ss: seq<Schema>, ps: seq<Key>, qs: seq<Key>, x: bytes, y: bytes)
    requires forall i | 0 <= i < |ss| :: WellFormed(ss[i])
    requires HaveSchemas(ps, ss) && HaveSchemas(qs, ss)
    ensures Less(EncodeAll(ps) + x, EncodeAll(qs) + y) <==> AllBefore(ps, qs) || (ps == qs && Less(x, y))
    decreases ps, 0
  {
    hide Encode, Before, HasSchema, Less;
    if ps == [] {
      assert EncodeAll(ps) + x == x && EncodeAll(qs) + y == y;
    } else {
      var p, q, ps', qs' := ps[0], qs[0], ps[1..], qs[1..];
      var u, v := EncodeAll(ps') + x, EncodeAll(qs') + y;
      EncodingOrder(ss[0], p, q, u, v);
      EncodingOrderAll(ss[1..], ps', qs', x, y);
      assert EncodeAll(ps) + x == Encode(p) + u && EncodeAll(qs) + y == Encode(q) + v;
      assert ps == [p] + ps' && qs == [q] + qs';
    }
  }

  /** Keys of one schema are totally and strictly ordered by `Before`. */
  lemma BeforeTotal(s: Schema, a: Key, b: Key)
    requires WellFormed(s) && HasSchema(a, s) && HasSchema(b, s)
    ensures Before(a, b) || a == b || Before(b, a)
    ensures !(Before(a, b) && Before(b, a)) && !Before(a, a)
  {
    EncodingOrder(s, a, b, [], []);
    EncodingOrder(s, b, a, [], []);
    EncodingOrder(s, a, a, [], []);
    LessTotal(Encode(a) + [], Encode(b) + []);
    LessIrreflexive(Encode(a) + []);
    if Encode(a) + [] == Encode(b) + [] {
      PrefixFree(s, a, b, [], []);
    }
  }

  /** The order on encodings alone, without anything following them. */
  lemma EncodedBefore(s: Schema, a: Key, b: Key)
    requires WellFormed(s) && HasSchema(a, s) && HasSchema(b, s)
    ensures Less(Encode(a), Encode(b)) <==> Before(a, b)
    ensures Encode(a) == Encode(b) <==> a == b
  {
    EncodingOrder(s, a, b, [], []);
    assert Encode(a) + [] == Encode(a) && Encode(b) + [] == Encode(b);
    if Encode(a) == Encode(b) {
      PrefixFree(s, a, b, [], []);
    }
  }

  /** Types whose keys encode to no bytes at all: zero-length arrays, and tuples of nothing else. */
  predicate EncodesToNothing(s: Schema) {
    match s
    case ArrayS(length) => length == 0
    case TupleS(parts) => forall i | 0 <= i < |parts| :: EncodesToNothing(parts[i])
    case _ => false
  }

  lemma {:induction false} EmptyEncoding(s: Schema, k: Key)
    requires WellFormed(s) && HasSchema(k, s)
    ensures Encode(k) == [] <==> EncodesToNothing(s)
    decreases k, 1
  {
    match s
    case BlobS => assert Escape(k.v) != [];
    case TupleS(parts) => EmptyEncodingAll(parts, k.parts);
    case _ =>
  }

  lemma {:induction false} EmptyEncodingAll(ss: seq<Schema>, ks: seq<Key>)
    requires forall i | 0 <= i < |ss| :: WellFormed(ss[i])
    requires HaveSchemas(ks, ss)
    ensures EncodeAll(ks) == [] <==> forall i | 0 <= i < |ss| :: EncodesToNothing(ss[i])
    decreases ks, 0
  {
    if ks != [] {
      EmptyEncoding(ss[0], ks[0]);
      EmptyEncodingAll(ss[1..], ks[1..]);
      assert (forall i | 0 <= i < |ss| :: EncodesToNothing(ss[i]))
        <==> EncodesToNothing(ss[0]) && forall i | 0 <= i < |ss[1..]| :: EncodesToNothing(ss[1..][i]) by {
        assert ss == [ss[0]] + ss[1..];
      }
    }
  }

  // Splitting and joining composite keys.

  lemma ConcatAssociative(a: bytes, b: bytes, c: bytes)
    ensures (a + b) + c == a + (b + c)
  {
  }

  lemma EncodeAllStep(k: Key, ks: seq<Key>)
    ensures EncodeAll([k] + ks) == Encode(k) + EncodeAll(ks)
  {
    assert ([k] + ks)[1..] == ks;
  }

  lemma {:induction false} EncodeAllConcat(ps: seq<Key>, qs: seq<Key>)
    ensures EncodeAll(ps + qs) == EncodeAll(ps) + EncodeAll(qs)
  {
    if ps == [] {
      assert ps + qs == qs;
    } else {
      EncodeAllConcat(ps[1..], qs);
      assert ps + qs == [ps[0]] + (ps[1..] + qs);
      EncodeAllStep(ps[0], ps[1..] + qs);
      ConcatAssociative(Encode(ps[0]), EncodeAll(ps[1..]), EncodeAll(qs));
    }
  }

  lemma {:induction false} HaveSchemasConcat(ps: seq<Key>, qs: seq<Key>, ss: seq<Schema>, ts: seq<Schema>)
    requires |ps| == |ss|
    ensures HaveSchemas(ps + qs, ss + ts) <==> HaveSchemas(ps, ss) && HaveSchemas(qs, ts)
  {
    if ps == [] {
      assert ps + qs == qs && ss + ts == ts;
    } else {
      HaveSchemasConcat(ps[1..], qs, ss[1..], ts);
      assert (ps + qs)[1..] == ps[1..] + qs && (ss + ts)[1..] == ss[1..] + ts;
    }
  }
}
