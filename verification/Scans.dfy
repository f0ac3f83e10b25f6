/** Scan builders and their compilation to a byte range and a direction. */
module Scans {
  import opened Bytes
  import opened Keys
  import opened Prefixes
  import opened Bounds
  import opened Stores
  import opened Results

  /** Nested builders, as the builder methods stack them; a range is encoded when its builder is made. */
  datatype Scan =
    | Whole
    | Prefixed(prefix: seq<Key>, inner: Scan)
    | Ranged(range: Range<bytes>, inner: Scan)
    | Directed(direction: Direction, inner: Scan)
    | After(cursor: Cursor, inner: Scan)

  datatype Plan = Plan(range: Range<bytes>, direction: Direction)

  const UNBOUNDED: Range<bytes> := Range(Unbounded, Unbounded)

  function Compile(s: Scan): Result<Plan> {
    match s
    case Whole => Ok(Plan(UNBOUNDED, LeftToRight))
    case Prefixed(prefix, inner) =>
      (match Compile(inner)
       case Ok(plan) => Ok(plan.(range := EncodePrefix(prefix)))
       case Err(e) => Err(e))
    case Ranged(range, inner) =>
      (match Compile(inner)
       case Ok(plan) => Ok(plan.(range := range))
       case Err(e) => Err(e))
    case Directed(direction, inner) =>
      (match Compile(inner)
       case Ok(plan) => Ok(plan.(direction := direction))
       case Err(e) => Err(e))
    case After(cursor, inner) =>
      (match Compile(inner)
       case Err(e) => Err(e)
       case Ok(plan) =>
         if cursor.NoCursor? then Ok(plan)
         else if !Contains(plan.range, cursor.key) then Err(CursorOutOfBounds)
         else Ok(plan.(range := WithCursor(plan.range, plan.direction, cursor.key))))
  }

  /** A scan under compilation: each builder overwrites the range or the direction the inner ones left. */
  class CompiledScan {
    var range: Range<bytes>
    var direction: Direction

    constructor ()
      ensures range == UNBOUNDED && direction == LeftToRight
    {
      range, direction := UNBOUNDED, LeftToRight;
    }

    /** Compiles in place; returns the error, if any, in which case the scan is not used any further. */
    method CompileFrom(s: Scan) returns (error: Option<Error>)
      requires range == UNBOUNDED && direction == LeftToRight
      modifies this
      ensures error.None? ==> Compile(s) == Ok(Plan(range, direction))
      ensures error.Some? ==> Compile(s) == Err(error.value)
      decreases s
    {
      if s.Whole? {
        return None;
      }
      error := CompileFrom(s.inner);
      if error.Some? {
        return;
      }
      match s {
        case Prefixed(prefix, _) => range := EncodePrefix(prefix);
        case Ranged(r, _) => range := r;
        case Directed(d, _) => direction := d;
        case After(NoCursor, _) =>
        case After(At(key), _) =>
          if !Contains(range, key) {
            return Some(CursorOutOfBounds);
          }
          if direction.LeftToRight? {
            range := range.(start := Excluded(key));
          } else {
            range := range.(end := Excluded(key));
          }
      }
    }
  }

  /** What a caller selects from an index, before a direction and a cursor. */
  datatype Selection =
    | All
    | ByRange(range: Range<Key>)
    | ByPrefix(prefix: seq<Key>)
    | ByPrefixAndRange(prefix: seq<Key>, suffixes: Range<seq<Key>>)

  datatype Query = Query(selection: Selection, direction: Option<Direction>, cursor: Option<Cursor>)

  function BuildSelection(e: Encoder, sel: Selection): Scan {
    match sel
    case All => Whole
    case ByRange(r) => Ranged(EncodeRange(e, r), Whole)
    case ByPrefix(p) => Prefixed(p, Whole)
    case ByPrefixAndRange(p, r) => Ranged(EncodePrefixedRange(e, p, r), Prefixed(p, Whole))
  }

  /** The chain of builder calls that a query stands for, in the only order the builders allow. */
  function Build(e: Encoder, q: Query): Scan {
    var selected := BuildSelection(e, q.selection);
    var directed := if q.direction.Some? then Directed(q.direction.value, selected) else selected;
    if q.cursor.Some? then After(q.cursor.value, directed) else directed
  }

  /** The byte range of a selection. */
  function SelectedRange(e: Encoder, sel: Selection): Range<bytes> {
    match sel
    case All => UNBOUNDED
    case ByRange(r) => EncodeRange(e, r)
    case ByPrefix(p) => EncodePrefix(p)
    case ByPrefixAndRange(p, r) => EncodePrefixedRange(e, p, r)
  }

  function QueryDirection(q: Query): Direction {
    if q.direction.Some? then q.direction.value else LeftToRight
  }

  function QueryCursor(q: Query): Cursor {
    if q.cursor.Some? then q.cursor.value else NoCursor
  }

  lemma CompileSelection(e: Encoder, sel: Selection)
    ensures Compile(BuildSelection(e, sel)) == Ok(Plan(SelectedRange(e, sel), LeftToRight))
  {
    assert Compile(Whole) == Ok(Plan(UNBOUNDED, LeftToRight));
    match sel
    case All => assert BuildSelection(e, sel) == Whole;
    case ByRange(r) => assert Compile(Ranged(EncodeRange(e, r), Whole)).Ok?;
    case ByPrefix(p) => assert Compile(Prefixed(p, Whole)).Ok?;
    case ByPrefixAndRange(p, r) => assert Compile(Prefixed(p, Whole)).Ok?;
  }

  /** Compilation keeps selection, direction and cursor, and fails exactly on a cursor outside the selection. */
  lemma CompileBuilt(e: Encoder, q: Query)
    ensures Compile(Build(e, q)) ==
            if CursorInside(SelectedRange(e, q.selection), QueryCursor(q))
            then Ok(Plan(From(SelectedRange(e, q.selection), QueryDirection(q), QueryCursor(q)), QueryDirection(q)))
            else Err(CursorOutOfBounds)
  {
    var selected := BuildSelection(e, q.selection);
    CompileSelection(e, q.selection);
    if q.direction.Some? {
      assert Compile(Directed(q.direction.value, selected)).Ok?;
    }
  }

  function Components(k: Key): seq<Key> {
    if k.Tuple? then k.parts else [k]
  }

  /** The logical meaning of a selection. */
  predicate Selects(sel: Selection, k: Key) {
    match sel
    case All => true
    case ByRange(r) => InRange(k, r)
    case ByPrefix(p) => p <= Components(k)
    case ByPrefixAndRange(p, r) =>
      var n := |p|;
      n <= |Components(k)| && InPrefixedRange(Components(k)[..n], Components(k)[n..], p, r)
  }

  /** Selections that type-check against the key of an index; prefixes need a composite key. */
  predicate SelectionFits(sel: Selection, s: Schema) {
    WellFormed(s)
    && match sel
       case All => true
       case ByRange(r) => RangeHasSchema(r, s)
       case ByPrefix(p) => s.TupleS? && |p| <= |s.parts| && HaveSchemas(p, s.parts[..|p|])
       case ByPrefixAndRange(p, r) =>
         s.TupleS? && |p| <= |s.parts| && PrefixedRangeFits(p, r, s.parts[..|p|], s.parts[|p|..])
  }

  /** Stored keys that a selection gets wrong: a misread start bound, and a key below the end. */
  predicate Misread(e: Encoder, sel: Selection, k: Key, t: bytes) {
    match sel
    case All => false
    case ByRange(r) => StartMisread(e, r.start, k, t) && KeyBelow(k, r.end)
    case ByPrefix(p) => false
    case ByPrefixAndRange(p, r) =>
      var n := |p|;
      StartMisread(e, Compose(p, r.start), k, t) && n <= |Components(k)|
      && (AllBefore(Components(k)[..n], p) || (Components(k)[..n] == p && SuffixBelow(Components(k)[n..], r.end)))
  }

  lemma SplitKey(ss: seq<Schema>, parts: seq<Key>, n: nat)
    requires n <= |ss| && HaveSchemas(parts, ss) && WellFormed(TupleS(ss))
    ensures |parts| == |ss| && parts == parts[..n] + parts[n..]
    ensures HaveSchemas(parts[..n], ss[..n]) && HaveSchemas(parts[n..], ss[n..])
    ensures WellFormed(TupleS(ss[..n])) && WellFormed(TupleS(ss[n..]))
  {
    hide HasSchema;
    assert parts == parts[..n] + parts[n..] && ss == ss[..n] + ss[n..];
    HaveSchemasConcat(parts[..n], parts[n..], ss[..n], ss[n..]);
  }

  /** A stored key lies in the byte range of a selection iff the selection selects its key, misread keys aside. */
  lemma SelectionMeaning(e: Encoder, s: Schema, sel: Selection, k: Key, t: bytes)
    requires SelectionFits(sel, s) && HasSchema(k, s)
    ensures (Contains(SelectedRange(e, sel), Stored(e, k, t)) <==> Selects(sel, k)) <==> !Misread(e, sel, k, t)
  {
    match sel
    case All =>
    case ByRange(r) => RangeMeaning(e, s, r, k, t);
    case ByPrefix(p) =>
      SplitKey(s.parts, k.parts, |p|);
      var lead, tail := k.parts[..|p|], k.parts[|p|..];
      StoredSplit(e, lead, tail, t);
      LeadingAgainst(s.parts[..|p|], lead, p, StoredRest(e, tail, t));
      PrefixRangeExact(EncodeAll(p), Stored(e, k, t));
    case ByPrefixAndRange(p, r) =>
      SplitKey(s.parts, k.parts, |p|);
      PrefixedRangeMeaning(e, s.parts[..|p|], s.parts[|p|..], p, r, k.parts[..|p|], k.parts[|p|..], t);
  }

  /** The start bound of a selection, as a bound on whole keys. */
  function SelectionStart(sel: Selection): Bound<Key> {
    match sel
    case ByRange(r) => r.start
    case ByPrefixAndRange(p, r) => Compose(p, r.start)
    case _ => Unbounded
  }

  /** Selections that misread no stored key, provided a multi index has primary keys with a non-empty encoding. */
  predicate Faithful(e: Encoder, sel: Selection) {
    e.Prefix? && SelectionStart(sel).Excluded? ==> !AllOnes(Encode(SelectionStart(sel).value))
  }

  lemma FaithfulIsNeverMisread(e: Encoder, sel: Selection, k: Key, t: bytes)
    requires Faithful(e, sel) && (e.Prefix? ==> t != [])
    ensures !Misread(e, sel, k, t)
  {
  }

  /** Selections that are acceptable as they are written. */
  predicate SelectionAcceptable(sel: Selection) {
    match sel
    case ByRange(r) => KeyRangeAcceptable(r)
    case ByPrefixAndRange(p, r) => SuffixRangeAcceptable(r)
    case _ => true
  }

  predicate SelectionCollapses(e: Encoder, sel: Selection) {
    e.Prefix?
    && match sel
       case ByRange(r) => Collapses(r)
       case ByPrefixAndRange(p, r) => PrefixedCollapses(p, r)
       case _ => false
  }

  /** Selections whose compiled range an ordered map refuses. */
  predicate SelectionRefused(e: Encoder, sel: Selection) {
    match sel
    case ByRange(r) => RangeRefused(e, r)
    case ByPrefixAndRange(p, r) => PrefixedRefused(e, p, r)
    case _ => false
  }

  /** Exactly the refused selections compile to a refused range; of the acceptable ones, those that collapse. */
  lemma SelectionRangeAcceptable(e: Encoder, s: Schema, sel: Selection)
    requires SelectionFits(sel, s)
    ensures Acceptable(SelectedRange(e, sel)) <==> !SelectionRefused(e, sel)
    ensures SelectionAcceptable(sel) ==> (SelectionRefused(e, sel) <==> SelectionCollapses(e, sel))
  {
    match sel
    case All =>
    case ByRange(r) =>
      RangeRefusedExactly(e, s, r);
      if e.Prefix? && KeyRangeAcceptable(r) {
        PrefixAcceptable(s, r);
      }
    case ByPrefix(p) => OpenStartAcceptable(e, p, Unbounded);
    case ByPrefixAndRange(p, r) =>
      PrefixedRefusedExactly(e, s.parts[..|p|], s.parts[|p|..], p, r);
      if SuffixRangeAcceptable(r) {
        PrefixedAcceptable(e, s.parts[..|p|], s.parts[|p|..], p, r);
      }
  }

  /** A refused selection selects nothing. */
  lemma RefusedSelectsNothing(e: Encoder, s: Schema, sel: Selection, k: Key)
    requires SelectionFits(sel, s) && HasSchema(k, s) && SelectionRefused(e, sel)
    ensures !Selects(sel, k)
  {
    match sel
    case ByRange(r) => RefusedIsEmpty(e, s, r, k);
    case ByPrefixAndRange(p, r) =>
      SplitKey(s.parts, k.parts, |p|);
      PrefixedRefusedIsEmpty(e, s.parts[..|p|], s.parts[|p|..], p, r, k.parts[..|p|], k.parts[|p|..]);
  }
}
