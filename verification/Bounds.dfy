/**
 * Compilation of logical key ranges to byte ranges. A unique index stores the encoded key itself; a multi index
 * stores the encoded key followed by the encoded primary key, and its bounds speak of whole key groups.
 */
module Bounds {
  import opened Bytes
  import opened Integers
  import opened Keys
  import opened Prefixes

  datatype Encoder = Exact | Prefix

  function EncodeStart(e: Encoder, b: Bound<Key>): Bound<bytes> {
    match b
    case Included(k) => Included(Encode(k))
    case Excluded(k) => if e.Exact? then Excluded(Encode(k)) else PrefixEnd(Encode(k))
    case Unbounded => Unbounded
  }

  function EncodeEnd(e: Encoder, b: Bound<Key>): Bound<bytes> {
    match b
    case Included(k) => if e.Exact? then Included(Encode(k)) else PrefixEnd(Encode(k))
    case Excluded(k) => Excluded(Encode(k))
    case Unbounded => Unbounded
  }

  function EncodeRange(e: Encoder, r: Range<Key>): Range<bytes> {
    Range(EncodeStart(e, r.start), EncodeEnd(e, r.end))
  }

  /** The range of the composite keys whose leading components are `p`. */
  function EncodePrefix(p: seq<Key>): Range<bytes> {
    Range(Included(EncodeAll(p)), PrefixEnd(EncodeAll(p)))
  }

  /** Rebuilds a complete key bound from a prefix and a bound on the remaining components. */
  function Compose(p: seq<Key>, b: Bound<seq<Key>>): Bound<Key> {
    match b
    case Included(suffix) => Included(Tuple(p + suffix))
    case Excluded(suffix) => Excluded(Tuple(p + suffix))
    case Unbounded => Unbounded
  }

  function EncodePrefixedRange(e: Encoder, p: seq<Key>, r: Range<seq<Key>>): Range<bytes> {
    Range(if r.start.Unbounded? then EncodePrefix(p).start else EncodeStart(e, Compose(p, r.start)),
          if r.end.Unbounded? then EncodePrefix(p).end else EncodeEnd(e, Compose(p, r.end)))
  }

  /** The byte string kept in an index store; `t` stands for the encoded primary key. */
  function Stored(e: Encoder, k: Key, t: bytes): bytes {
    if e.Exact? then Encode(k) else Encode(k) + t
  }

  // What ranges mean, on keys.

  predicate KeyAbove(k: Key, start: Bound<Key>) {
    match start
    case Included(v) => !Before(k, v)
    case Excluded(v) => Before(v, k)
    case Unbounded => true
  }

  predicate KeyBelow(k: Key, end: Bound<Key>) {
    match end
    case Included(v) => !Before(v, k)
    case Excluded(v) => Before(k, v)
    case Unbounded => true
  }

  predicate InRange(k: Key, r: Range<Key>) {
    KeyAbove(k, r.start) && KeyBelow(k, r.end)
  }

  predicate BoundHasSchema(b: Bound<Key>, s: Schema) {
    b.Unbounded? || HasSchema(b.value, s)
  }

  predicate RangeHasSchema(r: Range<Key>, s: Schema) {
    WellFormed(s) && BoundHasSchema(r.start, s) && BoundHasSchema(r.end, s)
  }

  /**
   * The start bounds that are compiled to something else than they say: excluding a key whose encoding is all
   * 0xff bytes leaves the start open, and without a primary key a stored key may be the successor itself.
   */
  predicate StartMisread(e: Encoder, start: Bound<Key>, k: Key, t: bytes) {
    e.Prefix? && start.Excluded?
    && (AllOnes(Encode(start.value)) || (t == [] && PrefixEnd(Encode(start.value)) == Excluded(Encode(k))))
  }

  /** How a stored key compares with a key group and its successor. */
  lemma StoredAgainst(s: Schema, k: Key, v: Key, t: bytes)
    requires WellFormed(s) && HasSchema(k, s) && HasSchema(v, s)
    ensures Less(Encode(k) + t, Encode(v)) <==> Before(k, v)
    ensures Encode(v) <= Encode(k) + t <==> k == v
    ensures PrefixEnd(Encode(v)).Excluded? ==> (Less(Encode(k) + t, PrefixEnd(Encode(v)).value) <==> !Before(v, k))
    ensures AllOnes(Encode(v)) ==> !Before(v, k)
  {
    var stored := Encode(k) + t;
    assert Encode(v) + [] == Encode(v);
    EncodingOrder(s, k, v, t, []);
    BeforeTotal(s, k, v);
    if Encode(v) <= stored {
      assert stored == Encode(v) + stored[|Encode(v)|..];
      PrefixFree(s, v, k, stored[|Encode(v)|..], t);
    }
    if PrefixEnd(Encode(v)).Excluded? {
      BelowSuccessor(Encode(v), stored);
    }
    if AllOnes(Encode(v)) {
      OnesAreGreatest(Encode(v), stored);
    }
  }

  /** The successor of one key group is a stored key only if that key has nothing appended. */
  lemma SuccessorIsStored(s: Schema, k: Key, v: Key, t: bytes)
    requires WellFormed(s) && HasSchema(k, s) && HasSchema(v, s)
    requires PrefixEnd(Encode(v)) == Excluded(Encode(k) + t)
    ensures t == []
  {
    if t != [] {
      var e, c := Encode(v), Encode(k);
      SuccessorInside(e, c, t);
      assert e == c + e[|c|..] && e + [] == e;
      PrefixFree(s, k, v, e[|c|..], []);
      SuccessorAbove(e);
    }
  }

  lemma SuccessorInside(p: bytes, q: bytes, t: bytes)
    requires PrefixEnd(p) == Excluded(q + t) && t != []
    ensures q <= p
  {
    SuccessorDropLast(p);
    var u := q + t;
    assert q == u[..|u| - 1][..|q|];
  }

  lemma {:induction false} SuccessorDropLast(p: bytes)
    requires PrefixEnd(p).Excluded?
    ensures PrefixEnd(p).value != [] && PrefixEnd(p).value[..|PrefixEnd(p).value| - 1] <= p
  {
    if p[|p| - 1] == 0xff {
      SuccessorDropLast(p[..|p| - 1]);
    }
  }

  /** A compiled start bound means what it says exactly when it is not misread. */
  lemma StartMeaning(e: Encoder, s: Schema, start: Bound<Key>, k: Key, t: bytes)
    requires WellFormed(s) && HasSchema(k, s) && BoundHasSchema(start, s)
    ensures (AboveStart(Stored(e, k, t), EncodeStart(e, start)) <==> KeyAbove(k, start))
       <==> !StartMisread(e, start, k, t)
  {
    if !start.Unbounded? {
      var v := start.value;
      StoredAgainst(s, k, v, t);
      EncodedBefore(s, k, v);
      EncodedBefore(s, v, k);
      UnboundedIffAllOnes(Encode(v));
      if e.Prefix? && start.Excluded? && PrefixEnd(Encode(v)).Excluded? {
        LessTotal(Encode(k) + t, PrefixEnd(Encode(v)).value);
        if Encode(k) + t == PrefixEnd(Encode(v)).value {
          SuccessorIsStored(s, k, v, t);
        }
        assert t == [] ==> Encode(k) + t == Encode(k);
      }
    }
  }

  /** A compiled end bound always means what it says. */
  lemma EndMeaning(e: Encoder, s: Schema, end: Bound<Key>, k: Key, t: bytes)
    requires WellFormed(s) && HasSchema(k, s) && BoundHasSchema(end, s)
    ensures BelowEnd(Stored(e, k, t), EncodeEnd(e, end)) <==> KeyBelow(k, end)
  {
    if !end.Unbounded? {
      var v := end.value;
      StoredAgainst(s, k, v, t);
      EncodedBefore(s, k, v);
      EncodedBefore(s, v, k);
      UnboundedIffAllOnes(Encode(v));
    }
  }

  /**
   * A stored key lies in the compiled range iff its logical key lies in the logical range, except exactly for a
   * misread start bound and a key below the end.
   */
  lemma RangeMeaning(e: Encoder, s: Schema, r: Range<Key>, k: Key, t: bytes)
    requires RangeHasSchema(r, s) && HasSchema(k, s)
    ensures (Contains(EncodeRange(e, r), Stored(e, k, t)) <==> InRange(k, r))
       <==> !(StartMisread(e, r.start, k, t) && KeyBelow(k, r.end))
  {
    StartMeaning(e, s, r.start, k, t);
    EndMeaning(e, s, r.end, k, t);
  }

  /** A misread start at work: excluding the greatest one-byte key reads the smallest one. */
  lemma ExcludedMaximumReadsMinimum()
    ensures var r := Range(Excluded(Tuple([UInt(1, 255)])), Unbounded);
            var k := Tuple([UInt(1, 0)]);
            Contains(EncodeRange(Prefix, r), Stored(Prefix, k, [7])) && !InRange(k, r)
  {
    var top := UInt(1, 255);
    var e := ToBigEndian(255, 1);
    assert e == ToBigEndian(255 / 256, 0) + [255 % 256] == [0xff];
    assert Encode(Tuple([top])) == e + EncodeAll([]) == e;
    UnboundedIffAllOnes(e);
    assert !Before(top, UInt(1, 0));
  }

  /** A misread start without a primary key: excluding 1 also leaves out 2, its successor. */
  lemma BareSuccessorIsLeftOut()
    ensures var r := Range(Excluded(Tuple([UInt(1, 1)])), Unbounded);
            var k := Tuple([UInt(1, 2)]);
            InRange(k, r) && !Contains(EncodeRange(Prefix, r), Stored(Prefix, k, []))
  {
    var a, b := ToBigEndian(1, 1), ToBigEndian(2, 1);
    assert a == ToBigEndian(0, 0) + [1] == [1] && b == ToBigEndian(0, 0) + [2] == [2];
    assert Encode(Tuple([UInt(1, 1)])) == a + EncodeAll([]) == a;
    assert Encode(Tuple([UInt(1, 2)])) == b + EncodeAll([]) == b;
    assert PrefixEnd(a) == Excluded(b);
    LessIrreflexive(b);
    assert Before(UInt(1, 1), UInt(1, 2));
  }

  // The same for a prefix with a range on the remaining components. A composite key is given by its leading
  // components, as many as the prefix has, and its remaining ones.

  predicate SuffixAbove(tail: seq<Key>, start: Bound<seq<Key>>) {
    match start
    case Included(v) => !AllBefore(tail, v)
    case Excluded(v) => AllBefore(v, tail)
    case Unbounded => true
  }

  predicate SuffixBelow(tail: seq<Key>, end: Bound<seq<Key>>) {
    match end
    case Included(v) => !AllBefore(v, tail)
    case Excluded(v) => AllBefore(tail, v)
    case Unbounded => true
  }

  /** The leading components equal the prefix and the others lie in the range. */
  predicate InPrefixedRange(lead: seq<Key>, tail: seq<Key>, p: seq<Key>, r: Range<seq<Key>>) {
    lead == p && SuffixAbove(tail, r.start) && SuffixBelow(tail, r.end)
  }

  predicate SuffixBoundHasSchemas(b: Bound<seq<Key>>, ss: seq<Schema>) {
    b.Unbounded? || HaveSchemas(b.value, ss)
  }

  /** A prefix and a suffix range that fit keys with leading schemas `ls` and remaining schemas `ts`. */
  predicate PrefixedRangeFits(p: seq<Key>, r: Range<seq<Key>>, ls: seq<Schema>, ts: seq<Schema>) {
    WellFormed(TupleS(ls)) && WellFormed(TupleS(ts)) && HaveSchemas(p, ls)
    && SuffixBoundHasSchemas(r.start, ts) && SuffixBoundHasSchemas(r.end, ts)
  }

  lemma {:induction false} AllBeforeConcat(a: seq<Key>, b: seq<Key>, p: seq<Key>, q: seq<Key>)
    requires |a| == |p|
    ensures AllBefore(a + b, p + q) <==> AllBefore(a, p) || (a == p && AllBefore(b, q))
  {
    if a == [] {
      assert a + b == b && p + q == q;
    } else {
      AllBeforeConcat(a[1..], b, p[1..], q);
      assert (a + b)[1..] == a[1..] + b && (p + q)[1..] == p[1..] + q;
      assert a == [a[0]] + a[1..] && p == [p[0]] + p[1..];
    }
  }

  /** Leading components against a prefix, with anything after the former. */
  lemma LeadingAgainst(ls: seq<Schema>, lead: seq<Key>, p: seq<Key>, rest: bytes)
    requires WellFormed(TupleS(ls)) && HaveSchemas(lead, ls) && HaveSchemas(p, ls)
    ensures |lead| == |p|
    ensures EncodeAll(p) <= EncodeAll(lead) + rest <==> lead == p
    ensures Less(EncodeAll(lead) + rest, EncodeAll(p)) <==> AllBefore(lead, p)
    ensures AllBefore(lead, p) || lead == p || AllBefore(p, lead)
    ensures !(AllBefore(lead, p) && AllBefore(p, lead)) && !AllBefore(p, p)
  {
    var s := TupleS(ls);
    StoredAgainst(s, Tuple(lead), Tuple(p), rest);
    BeforeTotal(s, Tuple(lead), Tuple(p));
    BeforeTotal(s, Tuple(p), Tuple(p));
  }

  lemma WholeKeyFits(ls: seq<Schema>, ts: seq<Schema>, lead: seq<Key>, tail: seq<Key>)
    requires HaveSchemas(lead, ls) && HaveSchemas(tail, ts)
    requires WellFormed(TupleS(ls)) && WellFormed(TupleS(ts))
    ensures HasSchema(Tuple(lead + tail), TupleS(ls + ts))
    ensures WellFormed(TupleS(ls + ts))
  {
    HaveSchemasConcat(lead, tail, ls, ts);
  }

  lemma ComposeFits(ls: seq<Schema>, ts: seq<Schema>, p: seq<Key>, b: Bound<seq<Key>>)
    requires HaveSchemas(p, ls) && SuffixBoundHasSchemas(b, ts)
    requires WellFormed(TupleS(ls)) && WellFormed(TupleS(ts))
    ensures BoundHasSchema(Compose(p, b), TupleS(ls + ts))
  {
    if !b.Unbounded? {
      WholeKeyFits(ls, ts, p, b.value);
    }
  }

  /** What follows the leading components in the stored byte string. */
  function StoredRest(e: Encoder, tail: seq<Key>, t: bytes): bytes {
    EncodeAll(tail) + (if e.Exact? then [] else t)
  }

  lemma StoredSplit(e: Encoder, lead: seq<Key>, tail: seq<Key>, t: bytes)
    ensures Stored(e, Tuple(lead + tail), t) == EncodeAll(lead) + StoredRest(e, tail, t)
  {
    EncodeAllConcat(lead, tail);
  }

  /** Below the end: before every key with the prefix, or among them and below the end of the suffix range. */
  lemma PrefixedEndMeaning(e: Encoder, ls: seq<Schema>, ts: seq<Schema>, p: seq<Key>, r: Range<seq<Key>>,
                           lead: seq<Key>, tail: seq<Key>, t: bytes)
    requires PrefixedRangeFits(p, r, ls, ts) && HaveSchemas(lead, ls) && HaveSchemas(tail, ts)
    ensures BelowEnd(Stored(e, Tuple(lead + tail), t), EncodePrefixedRange(e, p, r).end)
       <==> AllBefore(lead, p) || (lead == p && SuffixBelow(tail, r.end))
  {
    var rest := StoredRest(e, tail, t);
    LeadingAgainst(ls, lead, p, rest);
    if r.end.Unbounded? {
      StoredSplit(e, lead, tail, t);
      UnboundedIffAllOnes(EncodeAll(p));
      if PrefixEnd(EncodeAll(p)).Excluded? {
        BelowSuccessor(EncodeAll(p), EncodeAll(lead) + rest);
      } else {
        OnesAreGreatest(EncodeAll(p), EncodeAll(lead) + rest);
      }
    } else {
      WholeKeyFits(ls, ts, lead, tail);
      ComposeFits(ls, ts, p, r.end);
      EndMeaning(e, TupleS(ls + ts), Compose(p, r.end), Tuple(lead + tail), t);
      AllBeforeConcat(lead, tail, p, r.end.value);
      AllBeforeConcat(p, r.end.value, lead, tail);
    }
  }

  /** Above the start: after every key with the prefix, or among them and above the start of the suffix range. */
  lemma PrefixedStartMeaning(e: Encoder, ls: seq<Schema>, ts: seq<Schema>, p: seq<Key>, r: Range<seq<Key>>,
                             lead: seq<Key>, tail: seq<Key>, t: bytes)
    requires PrefixedRangeFits(p, r, ls, ts) && HaveSchemas(lead, ls) && HaveSchemas(tail, ts)
    ensures (AboveStart(Stored(e, Tuple(lead + tail), t), EncodePrefixedRange(e, p, r).start)
            <==> AllBefore(p, lead) || (lead == p && SuffixAbove(tail, r.start)))
       <==> !StartMisread(e, Compose(p, r.start), Tuple(lead + tail), t)
  {
    LeadingAgainst(ls, lead, p, StoredRest(e, tail, t));
    if r.start.Unbounded? {
      StoredSplit(e, lead, tail, t);
    } else {
      WholeKeyFits(ls, ts, lead, tail);
      ComposeFits(ls, ts, p, r.start);
      StartMeaning(e, TupleS(ls + ts), Compose(p, r.start), Tuple(lead + tail), t);
      AllBeforeConcat(lead, tail, p, r.start.value);
      AllBeforeConcat(p, r.start.value, lead, tail);
    }
  }

  /**
   * A stored composite key lies in a compiled prefix range iff its leading components are the prefix and the
   * remaining ones lie in the suffix range, except exactly for a misread start bound and a key below the end.
   */
  lemma PrefixedRangeMeaning(e: Encoder, ls: seq<Schema>, ts: seq<Schema>, p: seq<Key>, r: Range<seq<Key>>,
                             lead: seq<Key>, tail: seq<Key>, t: bytes)
    requires PrefixedRangeFits(p, r, ls, ts) && HaveSchemas(lead, ls) && HaveSchemas(tail, ts)
    ensures (Contains(EncodePrefixedRange(e, p, r), Stored(e, Tuple(lead + tail), t))
            <==> InPrefixedRange(lead, tail, p, r))
       <==> !(StartMisread(e, Compose(p, r.start), Tuple(lead + tail), t)
              && (AllBefore(lead, p) || (lead == p && SuffixBelow(tail, r.end))))
  {
    LeadingAgainst(ls, lead, p, []);
    PrefixedStartMeaning(e, ls, ts, p, r, lead, tail, t);
    PrefixedEndMeaning(e, ls, ts, p, r, lead, tail, t);
  }

  // Which compiled ranges an ordered map accepts.

  predicate KeyRangeAcceptable(r: Range<Key>) {
    r.start.Unbounded? || r.end.Unbounded?
    || Before(r.start.value, r.end.value)
    || (r.start.value == r.end.value && !(r.start.Excluded? && r.end.Excluded?))
  }

  lemma ExactAcceptable(s: Schema, r: Range<Key>)
    requires RangeHasSchema(r, s)
    ensures Acceptable(EncodeRange(Exact, r)) <==> KeyRangeAcceptable(r)
  {
    if !r.start.Unbounded? && !r.end.Unbounded? {
      EncodedBefore(s, r.start.value, r.end.value);
    }
  }

  /** The ranges that collapse: they exclude a whole key group and end right where that group ends. */
  predicate Collapses(r: Range<Key>) {
    r.start.Excluded? && !AllOnes(Encode(r.start.value))
    && match r.end
       case Included(v) => v == r.start.value
       case Excluded(v) => PrefixEnd(Encode(r.start.value)) == Excluded(Encode(v))
       case Unbounded => false
  }

  /**
   * An acceptable logical range compiles to an acceptable byte range for a multi index exactly when it does not
   * collapse; a collapsed one excludes the same byte string on both sides.
   */
  lemma PrefixAcceptable(s: Schema, r: Range<Key>)
    requires RangeHasSchema(r, s) && KeyRangeAcceptable(r)
    ensures Acceptable(EncodeRange(Prefix, r)) <==> !Collapses(r)
    ensures Collapses(r) ==>
              var successor := PrefixEnd(Encode(r.start.value));
              EncodeRange(Prefix, r) == Range(successor, successor)
  {
    if !r.start.Unbounded? && !r.end.Unbounded? {
      var a, b := r.start.value, r.end.value;
      UnboundedIffAllOnes(Encode(a));
      UnboundedIffAllOnes(Encode(b));
      BeforeTotal(s, a, b);
      StoredAgainst(s, a, b, []);
      StoredAgainst(s, b, a, []);
      assert Encode(a) + [] == Encode(a) && Encode(b) + [] == Encode(b);
      EncodedBefore(s, a, b);
      if PrefixEnd(Encode(b)).Excluded? {
        SuccessorAbove(Encode(b));
      }
      if r.start.Excluded? && PrefixEnd(Encode(a)).Excluded? {
        var u := PrefixEnd(Encode(a)).value;
        LessTotal(u, Encode(b));
        LessIrreflexive(u);
        if Before(a, b) && PrefixEnd(Encode(b)).Excluded? {
          AtMostLess(u, Encode(b), PrefixEnd(Encode(b)).value);
        }
      }
    }
  }

  /** A range that collapses denotes no key at all. */
  lemma CollapsedIsEmpty(s: Schema, r: Range<Key>, k: Key)
    requires RangeHasSchema(r, s) && HasSchema(k, s) && Collapses(r)
    ensures !InRange(k, r)
  {
    var a, b := r.start.value, r.end.value;
    StoredAgainst(s, k, a, []);
    EncodedBefore(s, k, b);
    assert Encode(k) + [] == Encode(k);
  }

  /**
   * The ranges that an ordered map refuses once they are compiled. Of the ranges written the wrong way round, a multi
   * index lets two kinds pass: those with a misread start, and those from a key group to its direct predecessor.
   */
  predicate RangeRefused(e: Encoder, r: Range<Key>) {
    !r.start.Unbounded? && !r.end.Unbounded?
    && if e.Exact? then !KeyRangeAcceptable(r)
       else if r.start.Excluded? && AllOnes(Encode(r.start.value)) then false
       else if KeyRangeAcceptable(r) then Collapses(r)
       else !(r.start.Included? && r.end.Included? && PrefixEnd(Encode(r.end.value)) == Excluded(Encode(r.start.value)))
  }

  lemma ReversedAcceptable(s: Schema, r: Range<Key>)
    requires RangeHasSchema(r, s) && !KeyRangeAcceptable(r)
    ensures Acceptable(EncodeRange(Prefix, r)) <==> !RangeRefused(Prefix, r)
  {
    hide Encode, Before, HasSchema, Less, PrefixEnd, AllOnes;
    var a, b := r.start.value, r.end.value;
    UnboundedIffAllOnes(Encode(a));
    UnboundedIffAllOnes(Encode(b));
    BeforeTotal(s, a, b);
    EncodedBefore(s, a, b);
    EncodedBefore(s, b, a);
    StoredAgainst(s, a, b, []);
    assert Encode(a) + [] == Encode(a);
    if PrefixEnd(Encode(b)).Excluded? {
      LessTotal(Encode(a), PrefixEnd(Encode(b)).value);
    }
    LessTotal(Encode(a), Encode(b));
    if PrefixEnd(Encode(a)).Excluded? {
      ReversedExcludedStart(Encode(a), Encode(b));
      if Before(b, a) && PrefixEnd(Encode(b)).Excluded? {
        SuccessorsKeepOrder(Encode(a), Encode(b));
      }
    }
  }

  /** The successor of the greater end of a reversed range lies past the lesser one. */
  lemma ReversedExcludedStart(a: bytes, b: bytes)
    requires PrefixEnd(a).Excluded? && AtMost(b, a)
    ensures Less(b, PrefixEnd(a).value) && !Less(PrefixEnd(a).value, b)
  {
    SuccessorAbove(a);
    AtMostLess(b, a, PrefixEnd(a).value);
    LessTotal(b, PrefixEnd(a).value);
  }

  lemma SuccessorsKeepOrder(a: bytes, b: bytes)
    requires PrefixEnd(a).Excluded? && PrefixEnd(b).Excluded? && Less(b, a) && !(b <= a)
    ensures Less(PrefixEnd(b).value, PrefixEnd(a).value)
    ensures !Less(PrefixEnd(a).value, PrefixEnd(b).value) && PrefixEnd(a).value != PrefixEnd(b).value
  {
    BelowSuccessor(b, a);
    LessTotal(a, b);
    LessTotal(a, PrefixEnd(b).value);
    SuccessorAbove(a);
    AtMostLess(PrefixEnd(b).value, a, PrefixEnd(a).value);
    LessTotal(PrefixEnd(b).value, PrefixEnd(a).value);
  }

  /** A compiled range is refused exactly if `RangeRefused` says so, however the range is written. */
  lemma RangeRefusedExactly(e: Encoder, s: Schema, r: Range<Key>)
    requires RangeHasSchema(r, s)
    ensures Acceptable(EncodeRange(e, r)) <==> !RangeRefused(e, r)
  {
    if e.Exact? {
      ExactAcceptable(s, r);
    } else if KeyRangeAcceptable(r) {
      PrefixAcceptable(s, r);
    } else {
      ReversedAcceptable(s, r);
    }
  }

  /** A refused range denotes no key, so the caller asked for nothing. */
  lemma RefusedIsEmpty(e: Encoder, s: Schema, r: Range<Key>, k: Key)
    requires RangeHasSchema(r, s) && HasSchema(k, s) && RangeRefused(e, r)
    ensures !InRange(k, r)
  {
    if KeyRangeAcceptable(r) {
      CollapsedIsEmpty(s, r, k);
    } else {
      var a, b := r.start.value, r.end.value;
      BeforeTotal(s, a, b);
      BeforeTotal(s, a, k);
      BeforeTotal(s, k, b);
      EncodedBefore(s, a, k);
      EncodedBefore(s, k, b);
      EncodedBefore(s, a, b);
      EncodedBefore(s, b, a);
      if Before(a, k) && Before(k, b) {
        LessTransitive(Encode(a), Encode(k), Encode(b));
      }
    }
  }

  /** Excluding two consecutive integers collapses, unless the lower one ends in 0xff. */
  lemma ConsecutiveCollapse(width: nat, n: nat)
    requires width >= 1 && n % 256 != 255
    ensures Collapses(Range(Excluded(Tuple([UInt(width, n)])), Excluded(Tuple([UInt(width, n + 1)]))))
  {
    var a, b := ToBigEndian(n, width), ToBigEndian(n + 1, width);
    assert Encode(Tuple([UInt(width, n)])) == a && Encode(Tuple([UInt(width, n + 1)])) == b by {
      assert EncodeAll([UInt(width, n)]) == a + EncodeAll([]);
      assert EncodeAll([UInt(width, n + 1)]) == b + EncodeAll([]);
    }
    assert (n + 1) / 256 == n / 256 && (n + 1) % 256 == n % 256 + 1;
    assert a[|a| - 1] == n % 256 && a[..|a| - 1] == ToBigEndian(n / 256, width - 1);
    assert b == ToBigEndian(n / 256, width - 1) + [n % 256 + 1];
  }

  /** A suffix range that collapses: as a range of whole keys, or by ending where the prefix itself ends. */
  predicate PrefixedCollapses(p: seq<Key>, r: Range<seq<Key>>) {
    if r.end.Unbounded? then
      r.start.Excluded? && AllOnes(EncodeAll(r.start.value)) && !AllOnes(EncodeAll(p))
    else
      Collapses(Range(Compose(p, r.start), Compose(p, r.end)))
  }

  lemma ComposedEncoding(p: seq<Key>, v: seq<Key>)
    ensures Encode(Tuple(p + v)) == EncodeAll(p) + EncodeAll(v)
    ensures EncodeAll(p) <= Encode(Tuple(p + v))
  {
    EncodeAllConcat(p, v);
  }

  lemma {:induction false} SuccessorUnderOnes(p: bytes, q: bytes)
    ensures AllOnes(q) ==> PrefixEnd(p + q) == PrefixEnd(p)
    ensures !AllOnes(q) ==> PrefixEnd(q).Excluded? && PrefixEnd(p + q) == Excluded(p + PrefixEnd(q).value)
    decreases |q|
  {
    if q == [] {
      assert p + q == p;
    } else {
      var q' := q[..|q| - 1];
      assert (p + q)[..|p + q| - 1] == p + q';
      assert q == q' + [q[|q| - 1]];
      assert AllOnes(q) <==> AllOnes(q') && q[|q| - 1] == 0xff;
      SuccessorUnderOnes(p, q');
      if q[|q| - 1] != 0xff {
        assert p + (q' + [q[|q| - 1] + 1]) == p + q' + [q[|q| - 1] + 1];
      }
    }
  }

  /** The suffix range itself is acceptable. */
  predicate SuffixRangeAcceptable(r: Range<seq<Key>>) {
    r.start.Unbounded? || r.end.Unbounded?
    || AllBefore(r.start.value, r.end.value)
    || (r.start.value == r.end.value && !(r.start.Excluded? && r.end.Excluded?))
  }

  lemma WholeRangeAcceptable(ls: seq<Schema>, p: seq<Key>, r: Range<seq<Key>>)
    requires WellFormed(TupleS(ls)) && HaveSchemas(p, ls)
    ensures KeyRangeAcceptable(Range(Compose(p, r.start), Compose(p, r.end))) <==> SuffixRangeAcceptable(r)
  {
    if !r.start.Unbounded? && !r.end.Unbounded? {
      var a, b := r.start.value, r.end.value;
      AllBeforeConcat(p, a, p, b);
      LeadingAgainst(ls, p, p, []);
      assert p + a == p + b ==> a == b by {
        assert (p + a)[|p|..] == a && (p + b)[|p|..] == b;
      }
    }
  }

  lemma OpenEndAcceptable(e: Encoder, p: seq<Key>, start: Bound<seq<Key>>)
    requires !start.Unbounded?
    ensures Acceptable(EncodePrefixedRange(e, p, Range(start, Unbounded)))
       <==> !(e.Prefix? && PrefixedCollapses(p, Range(start, Unbounded)))
    ensures e.Prefix? && PrefixedCollapses(p, Range(start, Unbounded)) ==>
              var successor := PrefixEnd(EncodeAll(p));
              successor.Excluded? && EncodePrefixedRange(e, p, Range(start, Unbounded)) == Range(successor, successor)
  {
    var ep, ev := EncodeAll(p), EncodeAll(start.value);
    ComposedEncoding(p, start.value);
    UnboundedIffAllOnes(ep);
    if PrefixEnd(ep).Excluded? {
      BelowSuccessor(ep, ep + ev);
      SuccessorUnderOnes(ep, ev);
      if !AllOnes(ev) {
        BelowSuccessor(ep, ep + PrefixEnd(ev).value);
      } else {
        LessIrreflexive(PrefixEnd(ep).value);
      }
    }
  }

  lemma OpenStartAcceptable(e: Encoder, p: seq<Key>, end: Bound<seq<Key>>)
    ensures Acceptable(EncodePrefixedRange(e, p, Range(Unbounded, end)))
  {
    var ep := EncodeAll(p);
    UnboundedIffAllOnes(ep);
    if end.Unbounded? {
      if PrefixEnd(ep).Excluded? {
        SuccessorAbove(ep);
      }
    } else {
      var whole := ep + EncodeAll(end.value);
      ComposedEncoding(p, end.value);
      PrefixAtMost(ep, whole);
      UnboundedIffAllOnes(whole);
      if PrefixEnd(whole).Excluded? {
        SuccessorAbove(whole);
        AtMostLess(ep, whole, PrefixEnd(whole).value);
      }
    }
  }

  /** An acceptable suffix range compiles to an acceptable byte range unless it collapses on a multi index. */
  lemma PrefixedAcceptable(e: Encoder, ls: seq<Schema>, ts: seq<Schema>, p: seq<Key>, r: Range<seq<Key>>)
    requires PrefixedRangeFits(p, r, ls, ts) && SuffixRangeAcceptable(r)
    ensures Acceptable(EncodePrefixedRange(e, p, r)) <==> !(e.Prefix? && PrefixedCollapses(p, r))
    ensures e.Prefix? && PrefixedCollapses(p, r) ==>
              var compiled := EncodePrefixedRange(e, p, r);
              compiled.start.Excluded? && compiled.start == compiled.end
  {
    if r.start.Unbounded? {
      OpenStartAcceptable(e, p, r.end);
    } else if r.end.Unbounded? {
      OpenEndAcceptable(e, p, r.start);
    } else {
      var whole := Range(Compose(p, r.start), Compose(p, r.end));
      ComposeFits(ls, ts, p, r.start);
      ComposeFits(ls, ts, p, r.end);
      WholeRangeAcceptable(ls, p, r);
      WholeKeyFits(ls, ts, p, r.start.value);
      if e.Exact? {
        ExactAcceptable(TupleS(ls + ts), whole);
      } else {
        PrefixAcceptable(TupleS(ls + ts), whole);
        UnboundedIffAllOnes(Encode(whole.start.value));
      }
    }
  }

  /** A prefixed range that collapses denotes no key either. */
  lemma PrefixedCollapsedIsEmpty(ls: seq<Schema>, ts: seq<Schema>, p: seq<Key>, r: Range<seq<Key>>,
                                 lead: seq<Key>, tail: seq<Key>)
    requires PrefixedRangeFits(p, r, ls, ts) && HaveSchemas(lead, ls) && HaveSchemas(tail, ts)
    requires PrefixedCollapses(p, r)
    ensures !InPrefixedRange(lead, tail, p, r)
  {
    if r.end.Unbounded? {
      StoredAgainst(TupleS(ts), Tuple(tail), Tuple(r.start.value), []);
    } else if lead == p {
      ComposeFits(ls, ts, p, r.start);
      ComposeFits(ls, ts, p, r.end);
      WholeKeyFits(ls, ts, lead, tail);
      CollapsedIsEmpty(TupleS(ls + ts), Range(Compose(p, r.start), Compose(p, r.end)), Tuple(lead + tail));
      LeadingAgainst(ls, p, p, []);
      AllBeforeConcat(p, tail, p, r.end.value);
      AllBeforeConcat(p, r.end.value, p, tail);
      AllBeforeConcat(p, r.start.value, p, tail);
    }
  }

  predicate PrefixedRefused(e: Encoder, p: seq<Key>, r: Range<seq<Key>>) {
    !r.start.Unbounded?
    && if r.end.Unbounded? then e.Prefix? && PrefixedCollapses(p, r)
       else RangeRefused(e, Range(Compose(p, r.start), Compose(p, r.end)))
  }

  /** A compiled prefixed range is refused exactly if `PrefixedRefused` says so. */
  lemma PrefixedRefusedExactly(e: Encoder, ls: seq<Schema>, ts: seq<Schema>, p: seq<Key>, r: Range<seq<Key>>)
    requires PrefixedRangeFits(p, r, ls, ts)
    ensures Acceptable(EncodePrefixedRange(e, p, r)) <==> !PrefixedRefused(e, p, r)
  {
    if r.start.Unbounded? {
      OpenStartAcceptable(e, p, r.end);
    } else if r.end.Unbounded? {
      OpenEndAcceptable(e, p, r.start);
    } else {
      ComposeFits(ls, ts, p, r.start);
      ComposeFits(ls, ts, p, r.end);
      WholeKeyFits(ls, ts, p, r.start.value);
      RangeRefusedExactly(e, TupleS(ls + ts), Range(Compose(p, r.start), Compose(p, r.end)));
    }
  }

  lemma PrefixedRefusedIsEmpty(e: Encoder, ls: seq<Schema>, ts: seq<Schema>, p: seq<Key>, r: Range<seq<Key>>,
                               lead: seq<Key>, tail: seq<Key>)
    requires PrefixedRangeFits(p, r, ls, ts) && HaveSchemas(lead, ls) && HaveSchemas(tail, ts)
    requires PrefixedRefused(e, p, r)
    ensures !InPrefixedRange(lead, tail, p, r)
  {
    if r.end.Unbounded? {
      PrefixedCollapsedIsEmpty(ls, ts, p, r, lead, tail);
    } else if lead == p {
      ComposeFits(ls, ts, p, r.start);
      ComposeFits(ls, ts, p, r.end);
      WholeKeyFits(ls, ts, lead, tail);
      RefusedIsEmpty(e, TupleS(ls + ts), Range(Compose(p, r.start), Compose(p, r.end)), Tuple(lead + tail));
      LeadingAgainst(ls, p, p, []);
      AllBeforeConcat(p, tail, p, r.end.value);
      AllBeforeConcat(p, r.end.value, p, tail);
      AllBeforeConcat(p, r.start.value, p, tail);
      AllBeforeConcat(p, tail, p, r.start.value);
    }
  }
}
