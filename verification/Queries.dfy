/** What scans and lookups answer, in terms of the records a collection holds. */
module Queries {
  import opened Bytes
  import opened Keys
  import opened Prefixes
  import Bounds
  import opened Stores
  import opened Scans
  import opened Catalogs
  import opened Transactions
  import opened Results

  /** One item of a scan: a record with the cursor to resume after it, or an error. */
  datatype Yield<R> = Yielded(record: R, cursor: bytes) | Failed(error: Error)

  /** Follows an index entry to its record in the main store. */
  function Follow<R>(cat: Catalog<R>, main: Store, e: Entry): Yield<R> {
    if e.value !in main then Failed(Unexpected)
    else
      match cat.fromBytes(main[e.value])
      case None => Failed(Codec)
      case Some(r) => Yielded(r, e.key)
  }

  /** Decodes an entry of the main store. */
  function DecodeEntry<R>(cat: Catalog<R>, e: Entry): Yield<R> {
    match cat.fromBytes(e.value)
    case None => Failed(Codec)
    case Some(r) => Yielded(r, e.key)
  }

  /** Iterates over an index scan; each step reads the main store of the same snapshot. */
  class IndexIterator<R> {
    var inner: seq<Entry>
    const primary: Store
    const cat: Catalog<R>

    constructor (cat: Catalog<R>, inner: seq<Entry>, primary: Store)
      ensures this.inner == inner && this.primary == primary && this.cat == cat
    {
      this.inner, this.primary, this.cat := inner, primary, cat;
    }

    /** The items still to come. */
    ghost function Remaining(): seq<Yield<R>>
      reads this
    {
      seq(|inner|, i requires 0 <= i < |inner| reads this => Follow(cat, primary, inner[i]))
    }

    method Next() returns (item: Option<Yield<R>>)
      modifies this`inner
      ensures old(Remaining()) == [] ==> item.None? && Remaining() == []
      ensures old(Remaining()) != [] ==> item == Some(old(Remaining())[0]) && Remaining() == old(Remaining())[1..]
    {
      if inner == [] {
        return None;
      }
      var entry := inner[0];
      inner := inner[1..];
      if entry.value !in primary {
        return Some(Failed(Unexpected));
      }
      match cat.fromBytes(primary[entry.value]) {
        case None => item := Some(Failed(Codec));
        case Some(r) => item := Some(Yielded(r, entry.key));
      }
    }
  }

  /** Iterates over a scan by primary key. */
  class CollectionIterator<R> {
    var inner: seq<Entry>
    const cat: Catalog<R>

    constructor (cat: Catalog<R>, inner: seq<Entry>)
      ensures this.inner == inner && this.cat == cat
    {
      this.inner, this.cat := inner, cat;
    }

    ghost function Remaining(): seq<Yield<R>>
      reads this
    {
      seq(|inner|, i requires 0 <= i < |inner| reads this => DecodeEntry(cat, inner[i]))
    }

    method Next() returns (item: Option<Yield<R>>)
      modifies this`inner
      ensures old(Remaining()) == [] ==> item.None? && Remaining() == []
      ensures old(Remaining()) != [] ==> item == Some(old(Remaining())[0]) && Remaining() == old(Remaining())[1..]
    {
      if inner == [] {
        return None;
      }
      var entry := inner[0];
      inner := inner[1..];
      match cat.fromBytes(entry.value) {
        case None => item := Some(Failed(Codec));
        case Some(r) => item := Some(Yielded(r, entry.key));
      }
    }
  }

  /** What opening a scan gives: its items, an error, or the panic of an ordered map that refuses the range. */
  datatype Opened<R> = Items(items: seq<Yield<R>>) | Rejected(error: Error) | Panics

  /** Everything an index scan of a snapshot yields. */
  function IndexYields<R>(cat: Catalog<R>, stores: NamespacedStores, idx: Index<R>, r: Range<bytes>, d: Direction)
    : seq<Yield<R>>
    requires idx.name in stores && MAIN_STORE in stores && Acceptable(r)
  {
    var es := ScanEntries(stores[idx.name], r, d);
    seq(|es|, i requires 0 <= i < |es| => Follow(cat, stores[MAIN_STORE], es[i]))
  }

  /** Everything a scan over primary keys yields. */
  function CollectionYields<R>(cat: Catalog<R>, stores: NamespacedStores, r: Range<bytes>, d: Direction): seq<Yield<R>>
    requires MAIN_STORE in stores && Acceptable(r)
  {
    var es := ScanEntries(stores[MAIN_STORE], r, d);
    seq(|es|, i requires 0 <= i < |es| => DecodeEntry(cat, es[i]))
  }

  /** Compiles a query on an index and opens it on a snapshot. */
  function OpenIndexScan<R>(cat: Catalog<R>, stores: NamespacedStores, idx: Index<R>, q: Query): Opened<R>
    requires idx.name in stores && MAIN_STORE in stores
  {
    match Compile(Build(EncoderOf(idx.kind), q))
    case Err(error) => Rejected(error)
    case Ok(plan) =>
      if Acceptable(plan.range) then Items(IndexYields(cat, stores, idx, plan.range, plan.direction)) else Panics
  }

  /** Compiles a query on primary keys and opens it on a snapshot. */
  function OpenCollectionScan<R>(cat: Catalog<R>, stores: NamespacedStores, q: Query): Opened<R>
    requires MAIN_STORE in stores
  {
    match Compile(Build(Bounds.Exact, q))
    case Err(error) => Rejected(error)
    case Ok(plan) =>
      if Acceptable(plan.range) then Items(CollectionYields(cat, stores, plan.range, plan.direction)) else Panics
  }

  /** A query panics exactly without a cursor and with a refused selection; a cursor inside a range vouches for it. */
  lemma PanicsExactly(e: Bounds.Encoder, s: Schema, q: Query)
    requires SelectionFits(q.selection, s)
    ensures CursorInside(SelectedRange(e, q.selection), QueryCursor(q)) ==>
              (Acceptable(From(SelectedRange(e, q.selection), QueryDirection(q), QueryCursor(q)))
               <==> !(QueryCursor(q).NoCursor? && SelectionRefused(e, q.selection)))
  {
    SelectionRangeAcceptable(e, s, q.selection);
    if QueryCursor(q).At? && Contains(SelectedRange(e, q.selection), QueryCursor(q).key) {
      CursorKeepsAcceptable(SelectedRange(e, q.selection), QueryDirection(q), QueryCursor(q).key);
    }
  }

  /** The cursor of a record in an index. */
  function CursorOf<R>(cat: Catalog<R>, idx: Index<R>, r: R): bytes {
    PhysicalKey(idx, r, cat.key(r))
  }

  /** Index key first, primary key second; unique indexes never need the second. */
  predicate RecordBefore<R>(cat: Catalog<R>, idx: Index<R>, a: R, b: R) {
    Before(idx.key(a), idx.key(b))
    || (idx.kind.Multi? && idx.key(a) == idx.key(b) && Before(cat.key(a), cat.key(b)))
  }

  predicate YieldedBefore<R>(cat: Catalog<R>, idx: Index<R>, d: Direction, a: R, b: R) {
    if d.LeftToRight? then RecordBefore(cat, idx, a, b) else RecordBefore(cat, idx, b, a)
  }

  ghost predicate Holds<R>(cat: Catalog<R>, m: Contents<R>, r: R) {
    cat.key(r) in m && m[cat.key(r)] == r
  }

  /** An entry of an index leads to its record: no scan ends in an error. */
  lemma FollowFinds<R(!new)>(cat: Catalog<R>, stores: NamespacedStores, m: Contents<R>, i: nat, b: bytes)
    requires Lawful(cat) && Represents(cat, stores, m) && i < |cat.indexes| && b in stores[cat.indexes[i].name]
    ensures var y := Follow(cat, stores[MAIN_STORE], Entry(b, stores[cat.indexes[i].name][b]));
            y.Yielded? && y.cursor == b && Holds(cat, m, y.record) && CursorOf(cat, cat.indexes[i], y.record) == b
  {
    var idx := cat.indexes[i];
    var store := stores[idx.name];
    assert IndexAgrees(idx, store, m) && IsEntryOf(idx, m, b);
    var p :| p in m && PhysicalKey(idx, m[p], p) == b;
    assert IndexHolds(idx, store, m[p], p) && RecordFits(cat, m[p], p) && KeyFits(cat, m[p]);
    MainLookup(cat, stores[MAIN_STORE], m, p);
  }

  /** A record sits in an index under its cursor. */
  lemma RecordIsIndexed<R>(cat: Catalog<R>, stores: NamespacedStores, m: Contents<R>, i: nat, r: R)
    requires Represents(cat, stores, m) && i < |cat.indexes| && Holds(cat, m, r)
    ensures CursorOf(cat, cat.indexes[i], r) in stores[cat.indexes[i].name]
  {
    var idx := cat.indexes[i];
    assert IndexAgrees(idx, stores[idx.name], m) && IndexHolds(idx, stores[idx.name], m[cat.key(r)], cat.key(r));
  }

  /**
   * The items a query on an index must have: records of the collection with their own cursors and no error, strictly
   * sorted by index key and primary key, so each once; and exactly those records whose cursor comes after the query's
   * and that the query selects, misread keys aside.
   */
  ghost predicate AnswersQuery<R(!new)>(cat: Catalog<R>, m: Contents<R>, idx: Index<R>, q: Query, out: seq<Yield<R>>) {
    var d := QueryDirection(q);
    var e := EncoderOf(idx.kind);
    && (forall j | 0 <= j < |out| ::
          out[j].Yielded? && Holds(cat, m, out[j].record) && out[j].cursor == CursorOf(cat, idx, out[j].record))
    && (forall j, k | 0 <= j < k < |out| :: YieldedBefore(cat, idx, d, out[j].record, out[k].record))
    && (forall r | Holds(cat, m, r) ::
          Yielded(r, CursorOf(cat, idx, r)) in out
          <==> (Selects(q.selection, idx.key(r)) <==> !Misread(e, q.selection, idx.key(r), Encode(cat.key(r))))
               && ComesAfter(d, QueryCursor(q), CursorOf(cat, idx, r)))
  }

  /**
   * The end-to-end meaning of a query on an index over stores that represent a collection. It is rejected exactly for
   * a cursor outside its selection; it panics exactly without a cursor and with a refused selection, which selects
   * nothing; in all other cases its items answer it.
   */
  lemma IndexScanIsExact<R(!new)>(cat: Catalog<R>, stores: NamespacedStores, m: Contents<R>, i: nat, q: Query)
    requires Lawful(cat) && Represents(cat, stores, m) && i < |cat.indexes|
    requires SelectionFits(q.selection, cat.indexes[i].schema)
    ensures var idx := cat.indexes[i];
            var e, answer := EncoderOf(idx.kind), OpenIndexScan(cat, stores, idx, q);
            if !CursorInside(SelectedRange(e, q.selection), QueryCursor(q)) then
              answer == Rejected(CursorOutOfBounds)
            else if QueryCursor(q).NoCursor? && SelectionRefused(e, q.selection) then
              answer == Panics && forall r | Holds(cat, m, r) :: !Selects(q.selection, idx.key(r))
            else
              answer.Items? && AnswersQuery(cat, m, idx, q, answer.items)
  {
    hide Lawful, Represents, AnswersQuery, IndexYields, Compile, Build, Contains, Acceptable;
    var idx := cat.indexes[i];
    var e := EncoderOf(idx.kind);
    LawfulParts(cat, i);
    CompileBuilt(e, q);
    PanicsExactly(e, idx.schema, q);
    if CursorInside(SelectedRange(e, q.selection), QueryCursor(q)) {
      if QueryCursor(q).NoCursor? && SelectionRefused(e, q.selection) {
        forall r | Holds(cat, m, r)
          ensures !Selects(q.selection, idx.key(r))
        {
          assert IndexKeyFits(idx, r);
          RefusedSelectsNothing(e, idx.schema, q.selection, idx.key(r));
        }
      } else {
        ItemsAnswerQuery(cat, stores, m, i, q);
      }
    }
  }

  lemma LawfulParts<R(!new)>(cat: Catalog<R>, i: nat)
    requires Lawful(cat) && i < |cat.indexes|
    ensures LawfulIndex(cat.indexes[i])
  {
  }

  lemma ItemsAnswerQuery<R(!new)>(cat: Catalog<R>, stores: NamespacedStores, m: Contents<R>, i: nat, q: Query)
    requires Lawful(cat) && Represents(cat, stores, m) && i < |cat.indexes|
    requires SelectionFits(q.selection, cat.indexes[i].schema)
    requires var selected := SelectedRange(EncoderOf(cat.indexes[i].kind), q.selection);
             CursorInside(selected, QueryCursor(q)) && Acceptable(From(selected, QueryDirection(q), QueryCursor(q)))
    ensures var idx, d := cat.indexes[i], QueryDirection(q);
            var range := From(SelectedRange(EncoderOf(idx.kind), q.selection), d, QueryCursor(q));
            AnswersQuery(cat, m, idx, q, IndexYields(cat, stores, idx, range, d))
  {
    var idx, d := cat.indexes[i], QueryDirection(q);
    var e, store := EncoderOf(idx.kind), stores[idx.name];
    var base := SelectedRange(e, q.selection);
    var range := From(base, d, QueryCursor(q));
    var out := IndexYields(cat, stores, idx, range, d);
    ItemsAreRecords(cat, stores, m, i, range, d);
    forall r | Holds(cat, m, r)
      ensures Yielded(r, CursorOf(cat, idx, r)) in out
         <==> (Selects(q.selection, idx.key(r)) <==> !Misread(e, q.selection, idx.key(r), Encode(cat.key(r))))
              && ComesAfter(d, QueryCursor(q), CursorOf(cat, idx, r))
    {
      ScanFinds(cat, stores, m, i, range, d, r);
      FromMeaning(base, d, QueryCursor(q), CursorOf(cat, idx, r));
      CursorIsSelected(cat, idx, q.selection, r);
    }
  }

  /** The items of a scan are records with their cursors, which are the scanned keys, and sorted as records. */
  lemma ItemsAreRecords<R(!new)>(cat: Catalog<R>, stores: NamespacedStores, m: Contents<R>, i: nat, range: Range<bytes>,
                                 d: Direction)
    requires Lawful(cat) && Represents(cat, stores, m) && i < |cat.indexes| && Acceptable(range)
    ensures var idx := cat.indexes[i];
            var keys, out := ScanKeys(stores[idx.name], range, d), IndexYields(cat, stores, idx, range, d);
            && |out| == |keys|
            && (forall j | 0 <= j < |out| ::
                  out[j].Yielded? && Holds(cat, m, out[j].record)
                  && out[j].cursor == keys[j] == CursorOf(cat, idx, out[j].record))
            && (forall j, k | 0 <= j < k < |out| :: YieldedBefore(cat, idx, d, out[j].record, out[k].record))
  {
    var idx := cat.indexes[i];
    var store := stores[idx.name];
    var keys, out := ScanKeys(store, range, d), IndexYields(cat, stores, idx, range, d);
    forall j | 0 <= j < |out|
      ensures out[j].Yielded? && Holds(cat, m, out[j].record)
      ensures out[j].cursor == keys[j] == CursorOf(cat, idx, out[j].record)
    {
      assert keys[j] in KeysIn(store, range);
      FollowFinds(cat, stores, m, i, keys[j]);
    }
    forall j, k | 0 <= j < k < |out|
      ensures YieldedBefore(cat, idx, d, out[j].record, out[k].record)
    {
      assert Precedes(d, keys[j], keys[k]);
      PhysicalOrder(cat, idx, out[j].record, out[k].record);
      PhysicalOrder(cat, idx, out[k].record, out[j].record);
    }
  }

  /** A record is yielded iff its cursor lies in the scanned range. */
  lemma ScanFinds<R(!new)>(cat: Catalog<R>, stores: NamespacedStores, m: Contents<R>, i: nat, range: Range<bytes>,
                           d: Direction, r: R)
    requires Lawful(cat) && Represents(cat, stores, m) && i < |cat.indexes| && Holds(cat, m, r) && Acceptable(range)
    ensures var idx := cat.indexes[i];
            Yielded(r, CursorOf(cat, idx, r)) in IndexYields(cat, stores, idx, range, d)
            <==> Contains(range, CursorOf(cat, idx, r))
  {
    var idx := cat.indexes[i];
    var store, c := stores[idx.name], CursorOf(cat, idx, r);
    var keys := ScanKeys(store, range, d);
    var out := IndexYields(cat, stores, idx, range, d);
    RecordIsIndexed(cat, stores, m, i, r);
    if Contains(range, c) {
      assert c in KeysIn(store, range) && c in keys;
      var j :| 0 <= j < |keys| && keys[j] == c;
      FollowFinds(cat, stores, m, i, c);
      var s := out[j].record;
      SameCursorSameRecord(cat, stores, m, i, r, s);
      assert out[j] == Yielded(r, c);
    }
    if Yielded(r, c) in out {
      var j :| 0 <= j < |out| && out[j] == Yielded(r, c);
      assert keys[j] in KeysIn(store, range);
      FollowFinds(cat, stores, m, i, keys[j]);
    }
  }

  lemma SameCursorSameRecord<R(!new)>(cat: Catalog<R>, stores: NamespacedStores, m: Contents<R>, i: nat, r: R, s: R)
    requires Lawful(cat) && Represents(cat, stores, m) && i < |cat.indexes| && Holds(cat, m, r) && Holds(cat, m, s)
    requires CursorOf(cat, cat.indexes[i], r) == CursorOf(cat, cat.indexes[i], s)
    ensures r == s
  {
    var idx := cat.indexes[i];
    assert IndexAgrees(idx, stores[idx.name], m);
    StoredKeysDiffer(cat, m);
    if cat.key(r) != cat.key(s) {
      OwnKeyNotTaken(idx, stores[idx.name], m, cat.key(r));
      assert Taken(idx, m, cat.key(r), CursorOf(cat, idx, s));
    }
  }

  /** A cursor lies in the byte range of a selection iff the record is selected, misread keys aside. */
  lemma CursorIsSelected<R(!new)>(cat: Catalog<R>, idx: Index<R>, sel: Selection, r: R)
    requires Lawful(cat) && LawfulIndex(idx) && SelectionFits(sel, idx.schema)
    ensures (Contains(SelectedRange(EncoderOf(idx.kind), sel), CursorOf(cat, idx, r)) <==> Selects(sel, idx.key(r)))
       <==> !Misread(EncoderOf(idx.kind), sel, idx.key(r), Encode(cat.key(r)))
  {
    assert IndexKeyFits(idx, r);
    PhysicalIsStored(idx.kind, idx.key(r), cat.key(r));
    SelectionMeaning(EncoderOf(idx.kind), idx.schema, sel, idx.key(r), Encode(cat.key(r)));
  }

  /** The selection fits the `i`-th index and misreads none of its stored keys. */
  predicate ReadsWell<R>(cat: Catalog<R>, i: nat, sel: Selection) {
    i < |cat.indexes| && SelectionFits(sel, cat.indexes[i].schema)
    && Faithful(EncoderOf(cat.indexes[i].kind), sel)
    && (cat.indexes[i].kind.Multi? ==> !EncodesToNothing(cat.keySchema))
  }

  lemma NothingIsMisread<R(!new)>(cat: Catalog<R>, i: nat, sel: Selection, r: R)
    requires Lawful(cat) && ReadsWell(cat, i, sel)
    ensures !Misread(EncoderOf(cat.indexes[i].kind), sel, cat.indexes[i].key(r), Encode(cat.key(r)))
  {
    assert KeyFits(cat, r);
    EmptyEncoding(cat.keySchema, cat.key(r));
    FaithfulIsNeverMisread(EncoderOf(cat.indexes[i].kind), sel, cat.indexes[i].key(r), Encode(cat.key(r)));
  }

  /** Exactly the selected records, sorted; a panic only for a refused selection, which selects nothing. */
  ghost predicate ScansExactly<R(!new)>(cat: Catalog<R>, m: Contents<R>, idx: Index<R>, sel: Selection, d: Direction,
                                        answer: Opened<R>) {
    if SelectionRefused(EncoderOf(idx.kind), sel) then
      answer == Panics && forall r | Holds(cat, m, r) :: !Selects(sel, idx.key(r))
    else
      && answer.Items?
      && var out := answer.items;
      && (forall j | 0 <= j < |out| :: out[j].Yielded? && Holds(cat, m, out[j].record))
      && (forall j, k | 0 <= j < k < |out| :: YieldedBefore(cat, idx, d, out[j].record, out[k].record))
      && (forall r | Holds(cat, m, r) :: Yielded(r, CursorOf(cat, idx, r)) in out <==> Selects(sel, idx.key(r)))
  }

  /** For a faithful selection and, in a multi index, non-empty primary keys: exactly the selected records. */
  lemma FaithfulScanIsExact<R(!new)>(cat: Catalog<R>, stores: NamespacedStores, m: Contents<R>, i: nat, sel: Selection,
                                     d: Direction)
    requires Lawful(cat) && Represents(cat, stores, m) && ReadsWell(cat, i, sel)
    ensures var idx := cat.indexes[i];
            ScansExactly(cat, m, idx, sel, d, OpenIndexScan(cat, stores, idx, Query(sel, Some(d), None)))
  {
    hide Lawful, Represents, Faithful, Misread, Selects, EncodesToNothing, SelectionRefused, OpenIndexScan, Less;
    var q := Query(sel, Some(d), None);
    IndexScanIsExact(cat, stores, m, i, q);
    forall r | Holds(cat, m, r)
      ensures !Misread(EncoderOf(cat.indexes[i].kind), sel, cat.indexes[i].key(r), Encode(cat.key(r)))
    {
      NothingIsMisread(cat, i, sel, r);
    }
  }

  /** Resuming after the cursor computed from a yielded record yields exactly what the scan yields after it. */
  lemma ResumeAfterRecord<R(!new)>(cat: Catalog<R>, stores: NamespacedStores, m: Contents<R>, i: nat,
                                   range: Range<bytes>, d: Direction, j: nat)
    requires Lawful(cat) && Represents(cat, stores, m) && i < |cat.indexes| && Acceptable(range)
    requires j < |IndexYields(cat, stores, cat.indexes[i], range, d)|
    ensures var idx := cat.indexes[i];
            var out := IndexYields(cat, stores, idx, range, d);
            out[j].Yielded?
            && Contains(range, CursorOf(cat, idx, out[j].record))
            && Acceptable(WithCursor(range, d, CursorOf(cat, idx, out[j].record)))
            && IndexYields(cat, stores, idx, WithCursor(range, d, CursorOf(cat, idx, out[j].record)), d) == out[j + 1..]
  {
    var idx := cat.indexes[i];
    var store := stores[idx.name];
    var keys := ScanKeys(store, range, d);
    assert keys[j] in KeysIn(store, range);
    FollowFinds(cat, stores, m, i, keys[j]);
    ResumeYieldsRest(store, range, d, j);
    CursorKeepsAcceptable(range, d, keys[j]);
    YieldsFollowKeys(cat, stores, idx, range, WithCursor(range, d, keys[j]), d, j + 1);
  }

  lemma YieldsFollowKeys<R>(cat: Catalog<R>, stores: NamespacedStores, idx: Index<R>, r: Range<bytes>,
                            left: Range<bytes>, d: Direction, n: nat)
    requires idx.name in stores && MAIN_STORE in stores && Acceptable(r) && Acceptable(left)
    requires n <= |ScanKeys(stores[idx.name], r, d)|
    requires ScanKeys(stores[idx.name], left, d) == ScanKeys(stores[idx.name], r, d)[n..]
    ensures IndexYields(cat, stores, idx, left, d) == IndexYields(cat, stores, idx, r, d)[n..]
  {
    hide ScanKeys, ScanEntries, Follow, Sorted, Lists;
    var es, fs := ScanEntries(stores[idx.name], r, d), ScanEntries(stores[idx.name], left, d);
    assert fs == es[n..] by {
      forall k | 0 <= k < |fs|
        ensures fs[k] == es[n + k]
      {
        assert ScanKeys(stores[idx.name], left, d)[k] == ScanKeys(stores[idx.name], r, d)[n + k];
      }
    }
  }

  ghost predicate RepresentsAll<R>(cat: Catalog<R>, snapshots: seq<NamespacedStores>, contents: seq<Contents<R>>) {
    |snapshots| == |contents| && forall n | 0 <= n < |snapshots| :: Represents(cat, snapshots[n], contents[n])
  }

  /** One index store across snapshots. */
  function StoreIn(snapshots: seq<NamespacedStores>, name: string): (stores: seq<Store>)
    requires forall n | 0 <= n < |snapshots| :: name in snapshots[n]
  {
    seq(|snapshots|, n requires 0 <= n < |snapshots| => snapshots[n][name])
  }

  ghost predicate HoldsThroughout<R>(cat: Catalog<R>, contents: seq<Contents<R>>, r: R) {
    forall n | 0 <= n < |contents| :: Holds(cat, contents[n], r)
  }

  /**
   * Paging through an index while the collection changes: the pages' keys are strictly sorted, so none comes twice,
   * and a record that every snapshot holds is met if its cursor lies in the range.
   */
  lemma PagingMeetsLastingRecords<R(!new)>(cat: Catalog<R>, snapshots: seq<NamespacedStores>,
                                           contents: seq<Contents<R>>, i: nat, r: Range<bytes>, d: Direction,
                                           pages: seq<seq<bytes>>)
    requires RepresentsAll(cat, snapshots, contents) && i < |cat.indexes|
    requires forall n | 0 <= n < |snapshots| :: cat.indexes[i].name in snapshots[n]
    requires Paged(StoreIn(snapshots, cat.indexes[i].name), r, d, NoCursor, pages)
    ensures Sorted(d, Flatten(pages))
    ensures forall record | HoldsThroughout(cat, contents, record) ::
              var c := CursorOf(cat, cat.indexes[i], record);
              Contains(r, c) ==> c in Flatten(pages)
  {
    hide Represents;
    var stores := StoreIn(snapshots, cat.indexes[i].name);
    PagingIsExact(stores, r, d, NoCursor, pages);
    forall record | HoldsThroughout(cat, contents, record)
      ensures InAll(stores, CursorOf(cat, cat.indexes[i], record))
    {
      LastingRecordIsInAll(cat, snapshots, contents, i, record);
    }
  }

  lemma LastingRecordIsInAll<R>(cat: Catalog<R>, snapshots: seq<NamespacedStores>, contents: seq<Contents<R>>, i: nat,
                                record: R)
    requires RepresentsAll(cat, snapshots, contents) && i < |cat.indexes| && HoldsThroughout(cat, contents, record)
    requires forall n | 0 <= n < |snapshots| :: cat.indexes[i].name in snapshots[n]
    ensures InAll(StoreIn(snapshots, cat.indexes[i].name), CursorOf(cat, cat.indexes[i], record))
  {
    hide Represents;
    var stores := StoreIn(snapshots, cat.indexes[i].name);
    forall s | s in stores
      ensures CursorOf(cat, cat.indexes[i], record) in s
    {
      var n :| 0 <= n < |stores| && stores[n] == s;
      RecordIsIndexed(cat, snapshots[n], contents[n], i, record);
    }
  }

  /** The cursor of an item, from which the next page resumes. */
  function ItemCursor<R>(y: Yield<R>): bytes {
    if y.Yielded? then y.cursor else []
  }

  function ItemCursors<R>(page: seq<Yield<R>>): (cs: seq<bytes>)
    ensures |cs| == |page| && forall j | 0 <= j < |page| :: cs[j] == ItemCursor(page[j])
  {
    seq(|page|, j requires 0 <= j < |page| => ItemCursor(page[j]))
  }

  function PageCursors<R>(pages: seq<seq<Yield<R>>>): (cs: seq<seq<bytes>>)
    ensures |cs| == |pages|
  {
    if pages == [] then [] else [ItemCursors(pages[0])] + PageCursors(pages[1..])
  }

  predicate HaveIndex(snapshots: seq<NamespacedStores>, name: string) {
    forall n | 0 <= n < |snapshots| :: name in snapshots[n] && MAIN_STORE in snapshots[n]
  }

  /** Pages of an index scan: each is read from its own snapshot and resumes after the last item of the page before. */
  ghost predicate PagedItems<R>(cat: Catalog<R>, snapshots: seq<NamespacedStores>, idx: Index<R>, r: Range<bytes>,
                                d: Direction, c: Cursor, pages: seq<seq<Yield<R>>>)
    requires HaveIndex(snapshots, idx.name)
    decreases |snapshots|
  {
    snapshots != [] && |pages| == |snapshots| && Acceptable(From(r, d, c))
    && var all := IndexYields(cat, snapshots[0], idx, From(r, d, c), d);
       if |snapshots| == 1 then pages[0] == all
       else
         pages[0] != [] && pages[0] <= all
         && PagedItems(cat, snapshots[1..], idx, r, d, At(ItemCursor(pages[0][|pages[0]| - 1])), pages[1..])
  }

  /** A record that some of the collections holds, under its own cursor. */
  ghost predicate MetItem<R>(cat: Catalog<R>, contents: seq<Contents<R>>, idx: Index<R>, y: Yield<R>) {
    y.Yielded? && y.cursor == CursorOf(cat, idx, y.record)
    && exists n :: 0 <= n < |contents| && Holds(cat, contents[n], y.record)
  }

  lemma PageIsMet<R(!new)>(cat: Catalog<R>, snapshots: seq<NamespacedStores>, contents: seq<Contents<R>>, i: nat,
                           range: Range<bytes>, d: Direction, page: seq<Yield<R>>)
    requires Lawful(cat) && RepresentsAll(cat, snapshots, contents) && snapshots != [] && i < |cat.indexes|
    requires HaveIndex(snapshots, cat.indexes[i].name) && Acceptable(range)
    requires page <= IndexYields(cat, snapshots[0], cat.indexes[i], range, d)
    ensures ItemCursors(page) <= ScanKeys(snapshots[0][cat.indexes[i].name], range, d)
    ensures |page| == |IndexYields(cat, snapshots[0], cat.indexes[i], range, d)| ==>
              ItemCursors(page) == ScanKeys(snapshots[0][cat.indexes[i].name], range, d)
    ensures forall y | y in page :: MetItem(cat, contents, cat.indexes[i], y)
  {
    hide Lawful, Represents, IndexYields;
    ItemsAreRecords(cat, snapshots[0], contents[0], i, range, d);
    var all := IndexYields(cat, snapshots[0], cat.indexes[i], range, d);
    assert forall j | 0 <= j < |page| :: page[j] == all[j];
    assert forall y | y in page :: Holds(cat, contents[0], y.record);
  }

  lemma {:induction false} PagedItemsArePaged<R(!new)>(cat: Catalog<R>, snapshots: seq<NamespacedStores>,
                                                       contents: seq<Contents<R>>, i: nat, r: Range<bytes>,
                                                       d: Direction, c: Cursor, pages: seq<seq<Yield<R>>>)
    requires Lawful(cat) && RepresentsAll(cat, snapshots, contents) && i < |cat.indexes|
    requires HaveIndex(snapshots, cat.indexes[i].name)
    requires PagedItems(cat, snapshots, cat.indexes[i], r, d, c, pages)
    ensures Paged(StoreIn(snapshots, cat.indexes[i].name), r, d, c, PageCursors(pages))
    ensures forall y | y in Flatten(pages) :: MetItem(cat, contents, cat.indexes[i], y)
    ensures ItemCursors(Flatten(pages)) == Flatten(PageCursors(pages))
    decreases |snapshots|
  {
    hide Lawful, Represents, IndexYields, CursorOf, MetItem, ScanKeys, Acceptable, From, Less;
    var idx := cat.indexes[i];
    var page, more, others := pages[0], pages[1..], snapshots[1..];
    PageIsMet(cat, snapshots, contents, i, From(r, d, c), d, page);
    assert PageCursors(pages)[0] == ItemCursors(page) && PageCursors(pages)[1..] == PageCursors(more);
    assert ItemCursors(page + Flatten(more)) == ItemCursors(page) + ItemCursors(Flatten(more));
    if |snapshots| > 1 {
      var last := At(ItemCursor(page[|page| - 1]));
      assert StoreIn(snapshots, idx.name)[1..] == StoreIn(others, idx.name);
      assert RepresentsAll(cat, others, contents[1..]);
      PagedItemsArePaged(cat, others, contents[1..], i, r, d, last, more);
      forall y | y in Flatten(more)
        ensures MetItem(cat, contents, idx, y)
      {
        MetLater(cat, contents, idx, y);
      }
    } else {
      assert more == [];
    }
  }

  lemma MetLater<R>(cat: Catalog<R>, contents: seq<Contents<R>>, idx: Index<R>, y: Yield<R>)
    requires contents != [] && MetItem(cat, contents[1..], idx, y)
    ensures MetItem(cat, contents, idx, y)
  {
    var n :| 0 <= n < |contents[1..]| && Holds(cat, contents[1..][n], y.record);
    assert Holds(cat, contents[n + 1], y.record);
  }

  ghost predicate ExactlyOnce<T(!new)>(y: T, items: seq<T>) {
    exists j :: 0 <= j < |items| && items[j] == y && forall k | 0 <= k < |items| && items[k] == y :: k == j
  }

  /**
   * Paging through a selection while the collection changes, in terms of records: every item is a selected record that
   * some snapshot holds, and a selected record that every snapshot holds is yielded exactly once.
   */
  lemma PagingYieldsSelectedRecords<R(!new)>(cat: Catalog<R>, snapshots: seq<NamespacedStores>,
                                             contents: seq<Contents<R>>, i: nat, sel: Selection, d: Direction,
                                             pages: seq<seq<Yield<R>>>)
    requires Lawful(cat) && RepresentsAll(cat, snapshots, contents) && ReadsWell(cat, i, sel)
    requires HaveIndex(snapshots, cat.indexes[i].name)
    requires PagedItems(cat, snapshots, cat.indexes[i], SelectedRange(EncoderOf(cat.indexes[i].kind), sel), d, NoCursor,
                        pages)
    ensures forall y | y in Flatten(pages) ::
              MetItem(cat, contents, cat.indexes[i], y) && Selects(sel, cat.indexes[i].key(y.record))
    ensures forall record | HoldsThroughout(cat, contents, record) && Selects(sel, cat.indexes[i].key(record)) ::
              ExactlyOnce(Yielded(record, CursorOf(cat, cat.indexes[i], record)), Flatten(pages))
  {
    hide Lawful, Represents, Selects, PagedItems, Paged, Less, CursorOf, Contains, SelectedRange, StoreIn;
    hide SelectionFits, Faithful, PageCursors;
    var idx, items := cat.indexes[i], Flatten(pages);
    var range := SelectedRange(EncoderOf(idx.kind), sel);
    PagedItemsArePaged(cat, snapshots, contents, i, range, d, NoCursor, pages);
    var cursors := ItemCursors(items);
    PagingIsExact(StoreIn(snapshots, idx.name), range, d, NoCursor, PageCursors(pages));
    forall y | y in items
      ensures Selects(sel, idx.key(y.record))
    {
      var j :| 0 <= j < |items| && items[j] == y;
      assert cursors[j] in cursors;
      SelectedIffInside(cat, i, sel, y.record);
    }
    forall record | HoldsThroughout(cat, contents, record) && Selects(sel, idx.key(record))
      ensures ExactlyOnce(Yielded(record, CursorOf(cat, idx, record)), items)
    {
      SelectedIffInside(cat, i, sel, record);
      LastingRecordIsInAll(cat, snapshots, contents, i, record);
      assert CursorOf(cat, idx, record) in cursors;
      MetOnce(cat, snapshots, contents, i, d, items, record);
    }
  }

  /** A lasting record whose cursor is among strictly sorted cursors of met items is the item, and that once. */
  lemma MetOnce<R(!new)>(cat: Catalog<R>, snapshots: seq<NamespacedStores>, contents: seq<Contents<R>>, i: nat,
                         d: Direction, items: seq<Yield<R>>, record: R)
    requires Lawful(cat) && RepresentsAll(cat, snapshots, contents) && i < |cat.indexes|
    requires HoldsThroughout(cat, contents, record)
    requires Sorted(d, ItemCursors(items)) && CursorOf(cat, cat.indexes[i], record) in ItemCursors(items)
    requires forall y | y in items :: MetItem(cat, contents, cat.indexes[i], y)
    ensures ExactlyOnce(Yielded(record, CursorOf(cat, cat.indexes[i], record)), items)
  {
    hide Lawful, Represents, CursorOf, Less, Precedes;
    var c, cursors := CursorOf(cat, cat.indexes[i], record), ItemCursors(items);
    var j :| 0 <= j < |cursors| && cursors[j] == c;
    assert items[j] in items && MetItem(cat, contents, cat.indexes[i], items[j]);
    var n :| 0 <= n < |contents| && Holds(cat, contents[n], items[j].record);
    SameCursorSameRecord(cat, snapshots[n], contents[n], i, record, items[j].record);
    PrecedesTotal(d, c, c);
    assert forall k | 0 <= k < |items| && items[k] == items[j] :: cursors[k] == c;
  }

  lemma SelectedIffInside<R(!new)>(cat: Catalog<R>, i: nat, sel: Selection, r: R)
    requires Lawful(cat) && ReadsWell(cat, i, sel)
    ensures Contains(SelectedRange(EncoderOf(cat.indexes[i].kind), sel), CursorOf(cat, cat.indexes[i], r))
       <==> Selects(sel, cat.indexes[i].key(r))
  {
    LawfulParts(cat, i);
    CursorIsSelected(cat, cat.indexes[i], sel, r);
    NothingIsMisread(cat, i, sel, r);
  }

  // Scans over primary keys, and lookups.

  lemma MainEntryDecodes<R(!new)>(cat: Catalog<R>, main: Store, m: Contents<R>, b: bytes)
    requires Lawful(cat) && ContentsFit(cat, m) && MainAgrees(cat, main, m) && b in main
    ensures var y := DecodeEntry(cat, Entry(b, main[b]));
            y.Yielded? && y.cursor == b && Holds(cat, m, y.record) && Encode(cat.key(y.record)) == b
  {
    assert IsKeyOf(m, b);
    var p :| p in m && Encode(p) == b;
    assert RecordFits(cat, m[p], p) && KeyFits(cat, m[p]);
    MainLookup(cat, main, m, p);
  }

  /** A record is yielded by a scan over primary keys iff its encoded primary key lies in the scanned range. */
  lemma MainScanFinds<R(!new)>(cat: Catalog<R>, stores: NamespacedStores, m: Contents<R>, range: Range<bytes>,
                               d: Direction, r: R)
    requires Lawful(cat) && Represents(cat, stores, m) && Holds(cat, m, r) && Acceptable(range)
    ensures Yielded(r, Encode(cat.key(r))) in CollectionYields(cat, stores, range, d)
       <==> Contains(range, Encode(cat.key(r)))
  {
    var main, b := stores[MAIN_STORE], Encode(cat.key(r));
    var keys, out := ScanKeys(main, range, d), CollectionYields(cat, stores, range, d);
    assert RecordFits(cat, m[cat.key(r)], cat.key(r)) && KeyFits(cat, r);
    MainLookup(cat, main, m, cat.key(r));
    if Contains(range, b) {
      assert b in KeysIn(main, range) && b in keys;
      var j :| 0 <= j < |keys| && keys[j] == b;
      assert out[j] == Yielded(r, b);
    }
    if Yielded(r, b) in out {
      var j :| 0 <= j < |out| && out[j] == Yielded(r, b);
      assert keys[j] in KeysIn(main, range);
      MainEntryDecodes(cat, main, m, keys[j]);
    }
  }

  predicate KeyYieldedBefore<R>(cat: Catalog<R>, d: Direction, a: R, b: R) {
    if d.LeftToRight? then Before(cat.key(a), cat.key(b)) else Before(cat.key(b), cat.key(a))
  }

  /** The items a query on primary keys must have: the selected records after its cursor, sorted by primary key. */
  ghost predicate AnswersKeyQuery<R(!new)>(cat: Catalog<R>, m: Contents<R>, q: Query, out: seq<Yield<R>>) {
    var d := QueryDirection(q);
    && (forall j | 0 <= j < |out| ::
          out[j].Yielded? && Holds(cat, m, out[j].record) && out[j].cursor == Encode(cat.key(out[j].record)))
    && (forall j, k | 0 <= j < k < |out| :: KeyYieldedBefore(cat, d, out[j].record, out[k].record))
    && (forall r | Holds(cat, m, r) ::
          Yielded(r, Encode(cat.key(r))) in out
          <==> Selects(q.selection, cat.key(r)) && ComesAfter(d, QueryCursor(q), Encode(cat.key(r))))
  }

  /**
   * A query on primary keys is rejected exactly for a cursor outside its selection, panics exactly without a cursor
   * and with a refused selection, which selects nothing, and is answered by its items in all other cases.
   */
  lemma CollectionScanIsExact<R(!new)>(cat: Catalog<R>, stores: NamespacedStores, m: Contents<R>, q: Query)
    requires Lawful(cat) && Represents(cat, stores, m) && SelectionFits(q.selection, cat.keySchema)
    ensures var answer := OpenCollectionScan(cat, stores, q);
            if !CursorInside(SelectedRange(Bounds.Exact, q.selection), QueryCursor(q)) then
              answer == Rejected(CursorOutOfBounds)
            else if QueryCursor(q).NoCursor? && SelectionRefused(Bounds.Exact, q.selection) then
              answer == Panics && forall r | Holds(cat, m, r) :: !Selects(q.selection, cat.key(r))
            else
              answer.Items? && AnswersKeyQuery(cat, m, q, answer.items)
  {
    hide Lawful, Represents, AnswersKeyQuery, CollectionYields, Compile, Build, Contains, Acceptable;
    CompileBuilt(Bounds.Exact, q);
    PanicsExactly(Bounds.Exact, cat.keySchema, q);
    if CursorInside(SelectedRange(Bounds.Exact, q.selection), QueryCursor(q)) {
      if QueryCursor(q).NoCursor? && SelectionRefused(Bounds.Exact, q.selection) {
        forall r | Holds(cat, m, r)
          ensures !Selects(q.selection, cat.key(r))
        {
          KeyOfRecordFits(cat, r);
          RefusedSelectsNothing(Bounds.Exact, cat.keySchema, q.selection, cat.key(r));
        }
      } else {
        ItemsAnswerKeyQuery(cat, stores, m, q);
      }
    }
  }

  lemma KeyOfRecordFits<R(!new)>(cat: Catalog<R>, r: R)
    requires Lawful(cat)
    ensures HasSchema(cat.key(r), cat.keySchema)
  {
    assert KeyFits(cat, r);
  }

  lemma ItemsAnswerKeyQuery<R(!new)>(cat: Catalog<R>, stores: NamespacedStores, m: Contents<R>, q: Query)
    requires Lawful(cat) && Represents(cat, stores, m) && SelectionFits(q.selection, cat.keySchema)
    requires CursorInside(SelectedRange(Bounds.Exact, q.selection), QueryCursor(q))
    requires Acceptable(From(SelectedRange(Bounds.Exact, q.selection), QueryDirection(q), QueryCursor(q)))
    ensures var d := QueryDirection(q);
            var range := From(SelectedRange(Bounds.Exact, q.selection), d, QueryCursor(q));
            AnswersKeyQuery(cat, m, q, CollectionYields(cat, stores, range, d))
  {
    var main, d := stores[MAIN_STORE], QueryDirection(q);
    var base := SelectedRange(Bounds.Exact, q.selection);
    var range := From(base, d, QueryCursor(q));
    var keys, out := ScanKeys(main, range, d), CollectionYields(cat, stores, range, d);
    forall j | 0 <= j < |out|
      ensures out[j].Yielded? && Holds(cat, m, out[j].record)
      ensures out[j].cursor == keys[j] == Encode(cat.key(out[j].record))
    {
      assert keys[j] in KeysIn(main, range);
      MainEntryDecodes(cat, main, m, keys[j]);
    }
    forall j, k | 0 <= j < k < |out|
      ensures KeyYieldedBefore(cat, d, out[j].record, out[k].record)
    {
      assert Precedes(d, keys[j], keys[k]);
      KeyOfRecordFits(cat, out[j].record);
      KeyOfRecordFits(cat, out[k].record);
      EncodedBefore(cat.keySchema, cat.key(out[j].record), cat.key(out[k].record));
      EncodedBefore(cat.keySchema, cat.key(out[k].record), cat.key(out[j].record));
    }
    forall r | Holds(cat, m, r)
      ensures Yielded(r, Encode(cat.key(r))) in out
         <==> Selects(q.selection, cat.key(r)) && ComesAfter(d, QueryCursor(q), Encode(cat.key(r)))
    {
      MainScanFinds(cat, stores, m, range, d, r);
      FromMeaning(base, d, QueryCursor(q), Encode(cat.key(r)));
      KeyOfRecordFits(cat, r);
      SelectionMeaning(Bounds.Exact, cat.keySchema, q.selection, cat.key(r), []);
    }
  }

  /** Retrieves a record by primary key; only a record that does not decode is an error. */
  function Get<R>(cat: Catalog<R>, stores: NamespacedStores, pk: Key): (r: Result<Option<R>>)
    requires MAIN_STORE in stores
    ensures r == Ok(None) <==> Encode(pk) !in stores[MAIN_STORE]
    ensures r.Err? <==> Encode(pk) in stores[MAIN_STORE] && cat.fromBytes(stores[MAIN_STORE][Encode(pk)]).None?
    ensures r.Err? ==> r.error == Codec
  {
    if Encode(pk) !in stores[MAIN_STORE] then Ok(None)
    else
      match cat.fromBytes(stores[MAIN_STORE][Encode(pk)])
      case None => Err(Codec)
      case Some(r) => Ok(Some(r))
  }

  lemma GetIsLookup<R(!new)>(cat: Catalog<R>, stores: NamespacedStores, m: Contents<R>, pk: Key)
    requires Lawful(cat) && Represents(cat, stores, m) && HasSchema(pk, cat.keySchema)
    ensures Get(cat, stores, pk) == Ok(Lookup(m, pk))
  {
    MainLookup(cat, stores[MAIN_STORE], m, pk);
  }

  /** Retrieves a record through a unique index; an entry that leads nowhere counts as no record. */
  function GetByIndex<R>(cat: Catalog<R>, stores: NamespacedStores, idx: Index<R>, k: Key): (r: Result<Option<R>>)
    requires MAIN_STORE in stores && idx.name in stores
    ensures var store, main := stores[idx.name], stores[MAIN_STORE];
            && (r == Ok(None) <==> (Encode(k) in store ==> store[Encode(k)] !in main))
            && (r.Err? <==>
                  Encode(k) in store && store[Encode(k)] in main && cat.fromBytes(main[store[Encode(k)]]).None?)
    ensures r.Err? ==> r.error == Codec
  {
    var store, main := stores[idx.name], stores[MAIN_STORE];
    if Encode(k) !in store || store[Encode(k)] !in main then Ok(None)
    else
      match cat.fromBytes(main[store[Encode(k)]])
      case None => Err(Codec)
      case Some(r) => Ok(Some(r))
  }

  /** A unique lookup finds the record with that index key, of which there is at most one, and nothing otherwise. */
  lemma GetByIndexIsExact<R(!new)>(cat: Catalog<R>, stores: NamespacedStores, m: Contents<R>, i: nat, k: Key)
    requires Lawful(cat) && Represents(cat, stores, m) && i < |cat.indexes| && cat.indexes[i].kind.Unique?
    requires HasSchema(k, cat.indexes[i].schema)
    ensures GetByIndex(cat, stores, cat.indexes[i], k).Ok?
    ensures forall r :: GetByIndex(cat, stores, cat.indexes[i], k) == Ok(Some(r))
                        <==> Holds(cat, m, r) && cat.indexes[i].key(r) == k
  {
    var idx := cat.indexes[i];
    var store := stores[idx.name];
    assert LawfulIndex(idx);
    if Encode(k) in store {
      FollowFinds(cat, stores, m, i, Encode(k));
    }
    forall r
      ensures GetByIndex(cat, stores, idx, k) == Ok(Some(r)) <==> Holds(cat, m, r) && idx.key(r) == k
    {
      assert IndexKeyFits(idx, r);
      EncodedBefore(idx.schema, idx.key(r), k);
      if Holds(cat, m, r) && idx.key(r) == k {
        RecordIsIndexed(cat, stores, m, i, r);
        SameCursorSameRecord(cat, stores, m, i, r, GetByIndex(cat, stores, idx, k).value.value);
      }
    }
  }
}
