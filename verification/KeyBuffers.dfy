/** The encoding and decoding loops, which grow a buffer byte by byte. */
module KeyBuffers {
  import opened Bytes
  import opened Framing
  import opened Keys

  /** The growable byte buffer that encoders append to. */
  class IVec {
    var data: bytes

    constructor ()
      ensures data == []
    {
      data := [];
    }

    method Push(b: byte)
      modifies this
      ensures data == old(data) + [b]
    {
      data := data + [b];
    }

    method Extend(s: bytes)
      modifies this
      ensures data == old(data) + s
    {
      data := data + s;
    }
  }

  /** Appends the escaped and terminated bytes to the buffer, which keeps what it held. */
  method EncodeUnsizedKeyBytes(v: bytes, out: IVec)
    modifies out
    ensures out.data == old(out.data) + Escape(v)
  {
    for i := 0 to |v|
      invariant out.data + Escape(v[i..]) == old(out.data) + Escape(v)
    {
      assert v[i..][0] == v[i] && v[i..][1..] == v[i + 1..];
      if v[i] == 0x00 {
        out.Extend(ESCAPED_ZERO);
      } else {
        out.Push(v[i]);
      }
    }
    out.Extend(TERMINATOR);
  }

  function PrependAll(v: bytes, d: Decoded<bytes>): Decoded<bytes> {
    match d
    case Ok(w, rest) => Ok(v + w, rest)
    case Panic => Panic
  }

  lemma PrependAllOne(v: bytes, b: byte, d: Decoded<bytes>)
    ensures PrependAll(v, Prepend(b, d)) == PrependAll(v + [b], d)
  {
    if d.Ok? {
      assert v + ([b] + d.value) == v + [b] + d.value;
    }
  }

  /** Scans for the terminator, undoing the escapes on the way. */
  method DecodeUnsizedKeyBytes(b: bytes) returns (r: Decoded<bytes>)
    ensures r == Unescape(b)
  {
    var out: bytes := [];
    var i := 0;
    assert b[0..] == b && (Unescape(b).Ok? ==> [] + Unescape(b).value == Unescape(b).value);
    while i < |b|
      invariant 0 <= i <= |b|
      invariant PrependAll(out, Unescape(b[i..])) == Unescape(b)
    {
      ghost var rest := b[i..];
      assert rest[0] == b[i] && rest[1..] == b[i + 1..];
      if b[i] == 0x00 {
        if i + 1 == |b| {
          return Panic;
        }
        assert rest[1] == b[i + 1] && rest[2..] == b[i + 2..];
        if b[i + 1] == 0x00 {
          assert out + [] == out;
          return Ok(out, b[i + 2..]);
        } else if b[i + 1] == 0xff {
          PrependAllOne(out, 0x00, Unescape(b[i + 2..]));
          out := out + [0x00];
          i := i + 2;
        } else {
          return Panic;
        }
      } else {
        PrependAllOne(out, b[i], Unescape(b[i + 1..]));
        out := out + [b[i]];
        i := i + 1;
      }
    }
    return Panic;
  }

  /** Appends the encoding of any key; composite keys append component after component. */
  method EncodeInto(k: Key, out: IVec)
    modifies out
    ensures out.data == old(out.data) + Encode(k)
    decreases k
  {
    match k {
      case Text(utf8) =>
        out.Extend(utf8);
        out.Push(STRING_END);
      case Blob(v) =>
        EncodeUnsizedKeyBytes(v, out);
      case Tuple(parts) =>
        for i := 0 to |parts|
          invariant out.data == old(out.data) + EncodeAll(parts[..i])
        {
          EncodeInto(parts[i], out);
          assert parts[..i + 1] == parts[..i] + [parts[i]];
          EncodeAllConcat(parts[..i], [parts[i]]);
          assert EncodeAll([parts[i]]) == Encode(parts[i]);
        }
        assert parts[..|parts|] == parts;
      case _ =>
        out.Extend(Encode(k));
    }
  }
}
