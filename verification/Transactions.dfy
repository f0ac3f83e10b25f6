/**
 * What a collection operation stages in its transaction, store by store, and its refinement of a plain map from
 * primary keys to records.
 */
module Transactions {
  import opened Bytes
  import opened Keys
  import opened Stores
  import opened Catalogs
  import opened Results

  type NamespacedStores = map<string, Store>

  type Contents<R> = map<Key, R>

  datatype Op<R> = Insert(record: R) | Update(record: R) | Save(record: R) | Remove(pk: Key)

  /** The state of one store after an index step, which may stop with an error half way. */
  datatype IndexTx = IndexTx(store: Store, outcome: Result<()>)

  datatype Tx = Tx(staged: NamespacedStores, outcome: Result<()>)

  /** Moves the entry of a record in one index, unless its physical key stays the same. */
  function UpdateStore<R>(idx: Index<R>, store: Store, pk: Key, prior: Option<R>, record: R): IndexTx {
    var newKey := StoreKey(idx.kind, idx.key(record), pk);
    if prior.Some? && StoreKey(idx.kind, idx.key(prior.value), pk) == newKey then IndexTx(store, Ok(()))
    else
      var cleared := if prior.Some? then store - {PhysicalKey(idx, prior.value, pk)} else store;
      if Encode(newKey) in cleared then IndexTx(cleared, Err(AlreadyExists))
      else IndexTx(cleared[Encode(newKey) := Encode(pk)], Ok(()))
  }

  predicate Prepared<R>(indexes: seq<Index<R>>, stores: NamespacedStores) {
    MAIN_STORE in stores && forall i | 0 <= i < |indexes| :: indexes[i].name in stores
  }

  /** One index step of a transaction. */
  function UpdateIndex<R>(idx: Index<R>, staged: NamespacedStores, pk: Key, prior: Option<R>, record: R): (tx: Tx)
    requires idx.name in staged
    ensures tx.staged.Keys == staged.Keys
  {
    var step := UpdateStore(idx, staged[idx.name], pk, prior, record);
    Tx(staged[idx.name := step.store], step.outcome)
  }

  /** The index steps from the `i`-th index on; the first error stops them. */
  function UpdateFrom<R>(indexes: seq<Index<R>>, i: nat, staged: NamespacedStores, pk: Key, prior: Option<R>, record: R)
    : (tx: Tx)
    requires i <= |indexes| && Prepared(indexes, staged)
    ensures tx.staged.Keys == staged.Keys
    decreases |indexes| - i
  {
    if i == |indexes| then Tx(staged, Ok(()))
    else
      var step := UpdateIndex(indexes[i], staged, pk, prior, record);
      if step.outcome.Err? then step else UpdateFrom(indexes, i + 1, step.staged, pk, prior, record)
  }

  function RemoveIndex<R>(idx: Index<R>, staged: NamespacedStores, pk: Key, record: R): (s: NamespacedStores)
    requires idx.name in staged
    ensures s.Keys == staged.Keys
  {
    staged[idx.name := staged[idx.name] - {PhysicalKey(idx, record, pk)}]
  }

  function RemoveFrom<R>(indexes: seq<Index<R>>, i: nat, staged: NamespacedStores, pk: Key, record: R)
    : (s: NamespacedStores)
    requires i <= |indexes| && Prepared(indexes, staged)
    ensures s.Keys == staged.Keys
    decreases |indexes| - i
  {
    if i == |indexes| then staged
    else RemoveFrom(indexes, i + 1, RemoveIndex(indexes[i], staged, pk, record), pk, record)
  }

  /** The progress of an operation inside its write transaction. */
  datatype Job<R> =
    | Begin(staged: NamespacedStores)
    | Indexing(staged: NamespacedStores, next: nat, prior: Option<R>, record: R)
    | Unindexing(staged: NamespacedStores, next: nat, record: R)
    | Done(staged: NamespacedStores, outcome: Result<()>, commits: bool)

  function Refused<R>(staged: NamespacedStores, e: Error): Job<R> {
    Done(staged, Err(e), false)
  }

  /** Writes a record to the main store, on the way to the indexes. */
  function PutMain<R>(cat: Catalog<R>, staged: NamespacedStores, prior: Option<R>, record: R): Job<R>
    requires MAIN_STORE in staged
  {
    match cat.toBytes(record)
    case None => Refused(staged, Codec)
    case Some(b) =>
      Indexing(staged[MAIN_STORE := staged[MAIN_STORE][Encode(cat.key(record)) := b]], 0, prior, record)
  }

  /** The main-store part of an operation. */
  function StageMain<R>(cat: Catalog<R>, staged: NamespacedStores, op: Op<R>): (job: Job<R>)
    requires MAIN_STORE in staged
    ensures job.staged.Keys == staged.Keys
  {
    var main := staged[MAIN_STORE];
    match op
    case Insert(r) =>
      if Encode(cat.key(r)) in main then Refused(staged, AlreadyExists) else PutMain(cat, staged, None, r)
    case Update(r) =>
      if Encode(cat.key(r)) !in main then Refused(staged, NotFound)
      else
        var prior := cat.fromBytes(main[Encode(cat.key(r))]);
        if prior.None? then Refused(staged, Codec) else PutMain(cat, staged, prior, r)
    case Save(r) =>
      if Encode(cat.key(r)) !in main then PutMain(cat, staged, None, r)
      else
        var prior := cat.fromBytes(main[Encode(cat.key(r))]);
        if prior.None? then Refused(staged, Codec) else PutMain(cat, staged, prior, r)
    case Remove(pk) =>
      if Encode(pk) !in main then Done(staged, Ok(()), false)
      else
        match cat.fromBytes(main[Encode(pk)])
        case None => Refused(staged, Codec)
        case Some(record) => Unindexing(staged[MAIN_STORE := main - {Encode(pk)}], 0, record)
  }

  predicate JobFits<R>(cat: Catalog<R>, job: Job<R>) {
    Prepared(cat.indexes, job.staged)
    && (job.Indexing? || job.Unindexing? ==> job.next <= |cat.indexes|)
  }

  /** One store of the transaction after the other. */
  function JobStep<R>(cat: Catalog<R>, op: Op<R>, job: Job<R>): (after: Job<R>)
    requires JobFits(cat, job) && !job.Done?
    ensures JobFits(cat, after) && !after.Begin? && after.staged.Keys == job.staged.Keys
  {
    match job
    case Begin(staged) => StageMain(cat, staged, op)
    case Indexing(staged, next, prior, record) =>
      if next == |cat.indexes| then Done(staged, Ok(()), true)
      else
        var step := UpdateIndex(cat.indexes[next], staged, cat.key(record), prior, record);
        if step.outcome.Err? then Done(step.staged, step.outcome, false)
        else Indexing(step.staged, next + 1, prior, record)
    case Unindexing(staged, next, record) =>
      if next == |cat.indexes| then Done(staged, Ok(()), true)
      else Unindexing(RemoveIndex(cat.indexes[next], staged, cat.key(record), record), next + 1, record)
  }

  /** How many steps a job has left at most: one for the main store, one for each index, one to finish. */
  function StepsLeft<R>(cat: Catalog<R>, job: Job<R>): nat
    requires JobFits(cat, job)
  {
    match job
    case Begin(_) => |cat.indexes| + 2
    case Indexing(_, next, _, _) => |cat.indexes| - next + 1
    case Unindexing(_, next, _) => |cat.indexes| - next + 1
    case Done(_, _, _) => 0
  }

  lemma JobStepsEnd<R>(cat: Catalog<R>, op: Op<R>, job: Job<R>)
    requires JobFits(cat, job) && !job.Done?
    ensures StepsLeft(cat, JobStep(cat, op, job)) < StepsLeft(cat, job)
  {
  }

  /** Where a job ends when all its remaining steps are taken. */
  function JobResult<R>(cat: Catalog<R>, op: Op<R>, job: Job<R>): (end: Job<R>)
    requires JobFits(cat, job)
    ensures end.Done? && JobFits(cat, end) && end.staged.Keys == job.staged.Keys
  {
    match job
    case Begin(staged) => AfterMain(cat, StageMain(cat, staged, op))
    case _ => AfterMain(cat, job)
  }

  function AfterMain<R>(cat: Catalog<R>, job: Job<R>): (end: Job<R>)
    requires JobFits(cat, job) && !job.Begin?
    ensures end.Done? && JobFits(cat, end) && end.staged.Keys == job.staged.Keys
  {
    match job
    case Indexing(staged, next, prior, record) =>
      var tx := UpdateFrom(cat.indexes, next, staged, cat.key(record), prior, record);
      Done(tx.staged, tx.outcome, tx.outcome.Ok?)
    case Unindexing(staged, next, record) =>
      Done(RemoveFrom(cat.indexes, next, staged, cat.key(record), record), Ok(()), true)
    case Done(_, _, _) => job
  }

  /** A whole operation over the stores it found. */
  function Stage<R>(cat: Catalog<R>, stores: NamespacedStores, op: Op<R>): (end: Job<R>)
    requires Prepared(cat.indexes, stores)
    ensures end.Done? && JobFits(cat, end) && end.staged.Keys == stores.Keys
  {
    JobResult(cat, op, Begin(stores))
  }

  /** Taking one step does not change where the job ends. */
  lemma JobStepKeepsResult<R>(cat: Catalog<R>, op: Op<R>, job: Job<R>)
    requires JobFits(cat, job) && !job.Done?
    ensures JobResult(cat, op, JobStep(cat, op, job)) == JobResult(cat, op, job)
  {
  }

  // The abstract collection.

  function Lookup<R>(m: Contents<R>, pk: Key): Option<R> {
    if pk in m then Some(m[pk]) else None
  }

  /** Another record holds the same key in a unique index. */
  ghost predicate ConflictOn<R>(cat: Catalog<R>, idx: Index<R>, m: Contents<R>, r: R) {
    idx.kind.Unique? && exists p :: p in m && p != cat.key(r) && idx.key(m[p]) == idx.key(r)
  }

  ghost predicate ConflictFrom<R>(cat: Catalog<R>, i: nat, m: Contents<R>, r: R) {
    exists j :: i <= j < |cat.indexes| && ConflictOn(cat, cat.indexes[j], m, r)
  }

  ghost function PutOutcome<R>(cat: Catalog<R>, m: Contents<R>, r: R): Result<()> {
    if cat.toBytes(r).None? then Err(Codec)
    else if ConflictFrom(cat, 0, m, r) then Err(AlreadyExists)
    else Ok(())
  }

  /** When an operation succeeds, and why it fails otherwise. */
  ghost function Outcome<R>(cat: Catalog<R>, m: Contents<R>, op: Op<R>): Result<()> {
    match op
    case Insert(r) => if cat.key(r) in m then Err(AlreadyExists) else PutOutcome(cat, m, r)
    case Update(r) => if cat.key(r) !in m then Err(NotFound) else PutOutcome(cat, m, r)
    case Save(r) => PutOutcome(cat, m, r)
    case Remove(pk) => Ok(())
  }

  /** The contents after an operation; a failed one changes nothing. */
  ghost function Apply<R>(cat: Catalog<R>, m: Contents<R>, op: Op<R>): Contents<R> {
    if Outcome(cat, m, op).Err? then m
    else if op.Remove? then m - {op.pk}
    else m[cat.key(op.record) := op.record]
  }

  // How stores represent contents.

  predicate RecordFits<R>(cat: Catalog<R>, r: R, p: Key) {
    cat.key(r) == p && cat.toBytes(r).Some?
  }

  ghost predicate ContentsFit<R>(cat: Catalog<R>, m: Contents<R>) {
    forall p {:trigger RecordFits(cat, m[p], p)} | p in m :: RecordFits(cat, m[p], p)
  }

  predicate MainHolds<R>(cat: Catalog<R>, main: Store, r: R, p: Key) {
    Encode(p) in main && Some(main[Encode(p)]) == cat.toBytes(r)
  }

  ghost predicate IsKeyOf<R>(m: Contents<R>, b: bytes) {
    exists p :: p in m && Encode(p) == b
  }

  /** The main store maps the encoded primary key of each record to its bytes, and holds nothing else. */
  ghost predicate MainAgrees<R>(cat: Catalog<R>, main: Store, m: Contents<R>) {
    && (forall p {:trigger MainHolds(cat, main, m[p], p)} | p in m :: MainHolds(cat, main, m[p], p))
    && (forall b {:trigger IsKeyOf(m, b)} | b in main :: IsKeyOf(m, b))
  }

  predicate IndexHolds<R>(idx: Index<R>, store: Store, r: R, p: Key) {
    PhysicalKey(idx, r, p) in store && store[PhysicalKey(idx, r, p)] == Encode(p)
  }

  ghost predicate IsEntryOf<R>(idx: Index<R>, m: Contents<R>, b: bytes) {
    exists p :: p in m && PhysicalKey(idx, m[p], p) == b
  }

  /** An index store maps the physical key of each record to its encoded primary key, and holds nothing else. */
  ghost predicate IndexAgrees<R>(idx: Index<R>, store: Store, m: Contents<R>) {
    && (forall p {:trigger IndexHolds(idx, store, m[p], p)} | p in m :: IndexHolds(idx, store, m[p], p))
    && (forall b {:trigger IsEntryOf(idx, m, b)} | b in store :: IsEntryOf(idx, m, b))
  }

  /** The indexes from the `i`-th on agree with the contents. */
  ghost predicate AgreeFrom<R>(indexes: seq<Index<R>>, i: nat, stores: NamespacedStores, m: Contents<R>) {
    Prepared(indexes, stores)
    && forall j {:trigger indexes[j]} | i <= j < |indexes| :: IndexAgrees(indexes[j], stores[indexes[j].name], m)
  }

  ghost predicate Represents<R>(cat: Catalog<R>, stores: NamespacedStores, m: Contents<R>) {
    Prepared(cat.indexes, stores) && ContentsFit(cat, m) && MainAgrees(cat, stores[MAIN_STORE], m)
    && AgreeFrom(cat.indexes, 0, stores, m)
  }

  lemma RepresentsPrepared<R>(cat: Catalog<R>, stores: NamespacedStores, m: Contents<R>)
    requires Represents(cat, stores, m)
    ensures Prepared(cat.indexes, stores)
  {
  }

  /** Primary keys of stored records have distinct encodings. */
  ghost predicate KeysDiffer<R>(m: Contents<R>) {
    forall p, q | p in m && q in m && p != q :: Encode(p) != Encode(q)
  }

  lemma StoredKeysDiffer<R(!new)>(cat: Catalog<R>, m: Contents<R>)
    requires Lawful(cat) && ContentsFit(cat, m)
    ensures KeysDiffer(m)
  {
    forall p, q | p in m && q in m && p != q
      ensures Encode(p) != Encode(q)
    {
      assert RecordFits(cat, m[p], p) && RecordFits(cat, m[q], q);
      assert KeyFits(cat, m[p]) && KeyFits(cat, m[q]);
      EncodedBefore(cat.keySchema, p, q);
    }
  }

  /** A physical key belongs to some record other than the one with primary key `pk`. */
  ghost predicate Taken<R>(idx: Index<R>, m: Contents<R>, pk: Key, k: bytes) {
    exists p :: p in m && p != pk && PhysicalKey(idx, m[p], p) == k
  }

  /** A record's physical key is taken by another record exactly if they conflict on a unique index. */
  lemma TakenIffConflict<R(!new)>(cat: Catalog<R>, idx: Index<R>, m: Contents<R>, r: R)
    requires Lawful(cat) && LawfulIndex(idx) && ContentsFit(cat, m)
    ensures Taken(idx, m, cat.key(r), PhysicalKey(idx, r, cat.key(r))) <==> ConflictOn(cat, idx, m, r)
  {
    forall p | p in m
      ensures PhysicalKey(idx, m[p], p) == PhysicalKey(idx, r, cat.key(r))
         <==> idx.key(m[p]) == idx.key(r) && (idx.kind.Multi? ==> p == cat.key(r))
    {
      assert RecordFits(cat, m[p], p);
      PhysicalInjective(cat, idx, m[p], r);
    }
  }

  /** Removing a record's physical key leaves the index of the other records. */
  lemma ClearedAgrees<R>(idx: Index<R>, store: Store, m: Contents<R>, pk: Key)
    requires IndexAgrees(idx, store, m) && KeysDiffer(m) && pk in m
    ensures IndexAgrees(idx, store - {PhysicalKey(idx, m[pk], pk)}, m - {pk})
  {
    var rest, left := m - {pk}, store - {PhysicalKey(idx, m[pk], pk)};
    assert IndexHolds(idx, store, m[pk], pk);
    forall p | p in rest
      ensures IndexHolds(idx, left, rest[p], p)
    {
      assert IndexHolds(idx, store, m[p], p);
    }
    forall b | b in left
      ensures IsEntryOf(idx, rest, b)
    {
      assert IsEntryOf(idx, m, b);
      var p :| p in m && PhysicalKey(idx, m[p], p) == b;
      assert p in rest;
    }
  }

  /** Adding a record under a free physical key. */
  lemma AddedAgrees<R>(idx: Index<R>, store: Store, m: Contents<R>, pk: Key, record: R)
    requires IndexAgrees(idx, store, m) && pk !in m && PhysicalKey(idx, record, pk) !in store
    ensures IndexAgrees(idx, store[PhysicalKey(idx, record, pk) := Encode(pk)], m[pk := record])
  {
    var more, grown := m[pk := record], store[PhysicalKey(idx, record, pk) := Encode(pk)];
    assert pk in more && more[pk] == record;
    forall p | p in more
      ensures IndexHolds(idx, grown, more[p], p)
    {
      assert p in m ==> IndexHolds(idx, store, m[p], p);
    }
    forall b | b in grown
      ensures IsEntryOf(idx, more, b)
    {
      if b in store {
        assert IsEntryOf(idx, m, b);
        var p :| p in m && PhysicalKey(idx, m[p], p) == b;
        assert p in more && more[p] == m[p];
      }
    }
  }

  /** Replacing a record without changing its physical key. */
  lemma KeptAgrees<R>(idx: Index<R>, store: Store, m: Contents<R>, pk: Key, record: R)
    requires IndexAgrees(idx, store, m) && pk in m
    requires PhysicalKey(idx, m[pk], pk) == PhysicalKey(idx, record, pk)
    ensures IndexAgrees(idx, store, m[pk := record])
  {
    var m' := m[pk := record];
    forall p | p in m'
      ensures IndexHolds(idx, store, m'[p], p)
    {
      assert IndexHolds(idx, store, m[p], p);
    }
    forall b | b in store
      ensures IsEntryOf(idx, m', b)
    {
      assert IsEntryOf(idx, m, b);
      var p :| p in m && PhysicalKey(idx, m[p], p) == b;
      assert p in m';
    }
  }

  /** A record that keeps its physical key shares it with no other record. */
  lemma OwnKeyNotTaken<R>(idx: Index<R>, store: Store, m: Contents<R>, pk: Key)
    requires IndexAgrees(idx, store, m) && KeysDiffer(m) && pk in m
    ensures !Taken(idx, m, pk, PhysicalKey(idx, m[pk], pk))
  {
    assert IndexHolds(idx, store, m[pk], pk);
    forall p | p in m && p != pk
      ensures PhysicalKey(idx, m[p], p) != PhysicalKey(idx, m[pk], pk)
    {
      assert IndexHolds(idx, store, m[p], p);
    }
  }

  lemma FreeIffNotTaken<R>(idx: Index<R>, store: Store, m: Contents<R>, pk: Key, k: bytes)
    requires IndexAgrees(idx, store, m - {pk})
    ensures k in store <==> Taken(idx, m, pk, k)
  {
    var rest := m - {pk};
    if k in store {
      assert IsEntryOf(idx, rest, k);
      var p :| p in rest && PhysicalKey(idx, rest[p], p) == k;
      assert p in m && p != pk;
    }
    if Taken(idx, m, pk, k) {
      var p :| p in m && p != pk && PhysicalKey(idx, m[p], p) == k;
      assert IndexHolds(idx, store, rest[p], p);
    }
  }

  /** One index step succeeds exactly if no other record takes the physical key. */
  lemma UpdateStoreEffect<R>(idx: Index<R>, store: Store, m: Contents<R>, pk: Key, record: R)
    requires IndexAgrees(idx, store, m) && KeysDiffer(m)
    ensures var tx := UpdateStore(idx, store, pk, Lookup(m, pk), record);
            tx.outcome == (if Taken(idx, m, pk, PhysicalKey(idx, record, pk)) then Err(AlreadyExists) else Ok(()))
            && (tx.outcome.Ok? ==> IndexAgrees(idx, tx.store, m[pk := record]))
  {
    var k := PhysicalKey(idx, record, pk);
    if pk in m && StoreKey(idx.kind, idx.key(m[pk]), pk) == StoreKey(idx.kind, idx.key(record), pk) {
      OwnKeyNotTaken(idx, store, m, pk);
      KeptAgrees(idx, store, m, pk, record);
    } else {
      var cleared := if pk in m then store - {PhysicalKey(idx, m[pk], pk)} else store;
      var rest := m - {pk};
      if pk in m {
        ClearedAgrees(idx, store, m, pk);
      } else {
        assert rest == m;
      }
      FreeIffNotTaken(idx, cleared, m, pk, k);
      if k !in cleared {
        AddedAgrees(idx, cleared, rest, pk, record);
        assert rest[pk := record] == m[pk := record];
      }
    }
  }

  /** One index step succeeds exactly without a conflict, and then the index agrees with the new contents. */
  lemma UpdateStoreRefines<R(!new)>(cat: Catalog<R>, idx: Index<R>, store: Store, m: Contents<R>, record: R)
    requires Lawful(cat) && LawfulIndex(idx) && ContentsFit(cat, m) && IndexAgrees(idx, store, m)
    ensures var pk := cat.key(record);
            var tx := UpdateStore(idx, store, pk, Lookup(m, pk), record);
            tx.outcome == (if ConflictOn(cat, idx, m, record) then Err(AlreadyExists) else Ok(()))
            && (tx.outcome.Ok? ==> IndexAgrees(idx, tx.store, m[pk := record]))
  {
    StoredKeysDiffer(cat, m);
    TakenIffConflict(cat, idx, m, record);
    UpdateStoreEffect(idx, store, m, cat.key(record), record);
  }

  /** Only stores of the indexes from the `i`-th on differ. */
  predicate OnlyFrom<R>(indexes: seq<Index<R>>, i: nat, stores: NamespacedStores, after: NamespacedStores) {
    stores.Keys == after.Keys
    && forall name | name in stores && (forall j | i <= j < |indexes| :: name != indexes[j].name) ::
         after[name] == stores[name]
  }

  /** Touching the `i`-th index leaves the following ones as they were. */
  lemma StepLeavesOthers<R>(indexes: seq<Index<R>>, i: nat, staged: NamespacedStores, store: Store, m: Contents<R>)
    requires i < |indexes| && DistinctNames(indexes) && AgreeFrom(indexes, i, staged, m)
    ensures AgreeFrom(indexes, i + 1, staged[indexes[i].name := store], m)
  {
    forall j | i < j < |indexes|
      ensures indexes[j].name != indexes[i].name
    {
      NamesDiffer(indexes, i, j);
    }
  }

  /** The remaining steps leave the `i`-th index as its own step left it. */
  lemma StepThenOthers<R>(indexes: seq<Index<R>>, i: nat, staged: NamespacedStores, store: Store,
                          after: NamespacedStores, m: Contents<R>)
    requires i < |indexes| && DistinctNames(indexes) && Prepared(indexes, staged)
    requires IndexAgrees(indexes[i], store, m)
    requires AgreeFrom(indexes, i + 1, after, m) && OnlyFrom(indexes, i + 1, staged[indexes[i].name := store], after)
    ensures AgreeFrom(indexes, i, after, m) && OnlyFrom(indexes, i, staged, after)
  {
    forall j | i < j < |indexes|
      ensures indexes[j].name != indexes[i].name
    {
      NamesDiffer(indexes, i, j);
    }
    assert after[indexes[i].name] == store;
    forall name | name in staged && (forall j | i <= j < |indexes| :: name != indexes[j].name)
      ensures after[name] == staged[name]
    {
      assert name != indexes[i].name;
    }
  }

  lemma ConflictStep<R>(cat: Catalog<R>, i: nat, m: Contents<R>, r: R)
    requires i < |cat.indexes|
    ensures ConflictFrom(cat, i, m, r) <==> ConflictOn(cat, cat.indexes[i], m, r) || ConflictFrom(cat, i + 1, m, r)
  {
  }

  /** The index steps from the `i`-th on: they fail exactly on a conflict, and bring these indexes up to date. */
  lemma {:induction false} UpdateFromRefines<R(!new)>(cat: Catalog<R>, i: nat, staged: NamespacedStores,
                                                      m: Contents<R>, record: R)
    requires Lawful(cat) && ContentsFit(cat, m) && i <= |cat.indexes| && AgreeFrom(cat.indexes, i, staged, m)
    ensures var pk := cat.key(record);
            var tx := UpdateFrom(cat.indexes, i, staged, pk, Lookup(m, pk), record);
            tx.outcome == (if ConflictFrom(cat, i, m, record) then Err(AlreadyExists) else Ok(()))
            && (tx.outcome.Ok? ==>
                  AgreeFrom(cat.indexes, i, tx.staged, m[pk := record]) && OnlyFrom(cat.indexes, i, staged, tx.staged))
    decreases |cat.indexes| - i
  {
    if i < |cat.indexes| {
      var pk, idx := cat.key(record), cat.indexes[i];
      UpdateStoreRefines(cat, idx, staged[idx.name], m, record);
      ConflictStep(cat, i, m, record);
      var store := UpdateStore(idx, staged[idx.name], pk, Lookup(m, pk), record).store;
      var step := UpdateIndex(idx, staged, pk, Lookup(m, pk), record);
      if step.outcome.Ok? {
        StepLeavesOthers(cat.indexes, i, staged, store, m);
        UpdateFromRefines(cat, i + 1, step.staged, m, record);
        var tx := UpdateFrom(cat.indexes, i + 1, step.staged, pk, Lookup(m, pk), record);
        if tx.outcome.Ok? {
          StepThenOthers(cat.indexes, i, staged, store, tx.staged, m[pk := record]);
        }
      }
    }
  }

  lemma {:induction false} RemoveFromRefines<R>(indexes: seq<Index<R>>, i: nat, staged: NamespacedStores,
                                                m: Contents<R>, pk: Key)
    requires DistinctNames(indexes) && KeysDiffer(m) && i <= |indexes| && pk in m && AgreeFrom(indexes, i, staged, m)
    ensures var after := RemoveFrom(indexes, i, staged, pk, m[pk]);
            AgreeFrom(indexes, i, after, m - {pk}) && OnlyFrom(indexes, i, staged, after)
    decreases |indexes| - i
  {
    if i < |indexes| {
      var idx := indexes[i];
      var step := RemoveIndex(idx, staged, pk, m[pk]);
      ClearedAgrees(idx, staged[idx.name], m, pk);
      StepLeavesOthers(indexes, i, staged, step[idx.name], m);
      RemoveFromRefines(indexes, i + 1, step, m, pk);
      StepThenOthers(indexes, i, staged, step[idx.name], RemoveFrom(indexes, i + 1, step, pk, m[pk]), m - {pk});
    }
  }

  /** What the main store says about a primary key is what the contents say. */
  lemma MainLookup<R(!new)>(cat: Catalog<R>, main: Store, m: Contents<R>, pk: Key)
    requires Lawful(cat) && ContentsFit(cat, m) && MainAgrees(cat, main, m) && HasSchema(pk, cat.keySchema)
    ensures Encode(pk) in main <==> pk in m
    ensures pk in m ==> Some(main[Encode(pk)]) == cat.toBytes(m[pk]) && cat.fromBytes(main[Encode(pk)]) == Some(m[pk])
  {
    if pk in m {
      assert MainHolds(cat, main, m[pk], pk) && CodecRoundTrips(cat, m[pk]);
    }
    if Encode(pk) in main {
      assert IsKeyOf(m, Encode(pk));
      var p :| p in m && Encode(p) == Encode(pk);
      assert RecordFits(cat, m[p], p) && KeyFits(cat, m[p]);
      EncodedBefore(cat.keySchema, p, pk);
    }
  }

  lemma MainAfterPut<R>(cat: Catalog<R>, main: Store, m: Contents<R>, record: R)
    requires MainAgrees(cat, main, m) && cat.toBytes(record).Some? && KeysDiffer(m[cat.key(record) := record])
    ensures MainAgrees(cat, main[Encode(cat.key(record)) := cat.toBytes(record).value], m[cat.key(record) := record])
  {
    var pk := cat.key(record);
    var m', main' := m[pk := record], main[Encode(pk) := cat.toBytes(record).value];
    forall p | p in m'
      ensures MainHolds(cat, main', m'[p], p)
    {
      assert p != pk ==> MainHolds(cat, main, m[p], p) && Encode(p) != Encode(pk);
    }
    forall b | b in main'
      ensures IsKeyOf(m', b)
    {
      if b == Encode(pk) {
        assert pk in m';
      } else {
        assert IsKeyOf(m, b);
        var p :| p in m && Encode(p) == b;
        assert p in m';
      }
    }
  }

  lemma MainAfterRemove<R>(cat: Catalog<R>, main: Store, m: Contents<R>, pk: Key)
    requires MainAgrees(cat, main, m) && KeysDiffer(m) && pk in m
    ensures MainAgrees(cat, main - {Encode(pk)}, m - {pk})
  {
    var rest := m - {pk};
    forall p | p in rest
      ensures MainHolds(cat, main - {Encode(pk)}, rest[p], p)
    {
      assert MainHolds(cat, main, m[p], p) && Encode(p) != Encode(pk);
    }
    forall b | b in main - {Encode(pk)}
      ensures IsKeyOf(rest, b)
    {
      assert IsKeyOf(m, b);
      var p :| p in m && Encode(p) == b;
      assert p in rest;
    }
  }

  lemma ContentsFitAfterPut<R>(cat: Catalog<R>, m: Contents<R>, record: R)
    requires ContentsFit(cat, m) && cat.toBytes(record).Some?
    ensures ContentsFit(cat, m[cat.key(record) := record])
  {
    var m' := m[cat.key(record) := record];
    forall p | p in m'
      ensures RecordFits(cat, m'[p], p)
    {
      assert p in m ==> RecordFits(cat, m[p], p);
    }
  }

  /** A put that got past the main store. */
  lemma PutRefines<R(!new)>(cat: Catalog<R>, stores: NamespacedStores, m: Contents<R>, record: R)
    requires Lawful(cat) && Represents(cat, stores, m)
    ensures var end := AfterMain(cat, PutMain(cat, stores, Lookup(m, cat.key(record)), record));
            end.outcome == PutOutcome(cat, m, record)
            && (end.commits <==> end.outcome.Ok?)
            && (end.commits ==> Represents(cat, end.staged, m[cat.key(record) := record]))
  {
    if cat.toBytes(record).Some? {
      var main := stores[MAIN_STORE];
      ContentsFitAfterPut(cat, m, record);
      StoredKeysDiffer(cat, m[cat.key(record) := record]);
      MainAfterPut(cat, main, m, record);
      var staged := stores[MAIN_STORE := main[Encode(cat.key(record)) := cat.toBytes(record).value]];
      assert AgreeFrom(cat.indexes, 0, staged, m);
      UpdateFromRefines(cat, 0, staged, m, record);
    }
  }

  lemma RemovalRefines<R(!new)>(cat: Catalog<R>, stores: NamespacedStores, m: Contents<R>, pk: Key)
    requires Lawful(cat) && Represents(cat, stores, m) && pk in m
    ensures var staged := stores[MAIN_STORE := stores[MAIN_STORE] - {Encode(pk)}];
            Represents(cat, RemoveFrom(cat.indexes, 0, staged, pk, m[pk]), m - {pk})
  {
    var staged := stores[MAIN_STORE := stores[MAIN_STORE] - {Encode(pk)}];
    StoredKeysDiffer(cat, m);
    MainAfterRemove(cat, stores[MAIN_STORE], m, pk);
    assert AgreeFrom(cat.indexes, 0, staged, m);
    RemoveFromRefines(cat.indexes, 0, staged, m, pk);
    forall p | p in m - {pk}
      ensures RecordFits(cat, (m - {pk})[p], p)
    {
      assert RecordFits(cat, m[p], p);
    }
  }

  /**
   * An operation does what the plain map does: it has the same outcome; if it commits, what it staged represents the
   * map after the operation, and otherwise the map is unchanged.
   */
  ghost predicate OpRefines<R>(cat: Catalog<R>, stores: NamespacedStores, m: Contents<R>, op: Op<R>)
    requires Prepared(cat.indexes, stores)
  {
    var end := Stage(cat, stores, op);
    && end.outcome == Outcome(cat, m, op)
    && (end.commits ==> end.outcome.Ok? && Represents(cat, end.staged, Apply(cat, m, op)))
    && (!end.commits ==> Apply(cat, m, op) == m)
  }

  predicate OpFits<R>(cat: Catalog<R>, op: Op<R>) {
    op.Remove? ==> HasSchema(op.pk, cat.keySchema)
  }

  /** Refinement: over stores that represent some contents, every operation does what the plain map does. */
  lemma StageRefines<R(!new)>(cat: Catalog<R>, stores: NamespacedStores, m: Contents<R>, op: Op<R>)
    requires Lawful(cat) && Represents(cat, stores, m)
    requires OpFits(cat, op)
    ensures OpRefines(cat, stores, m, op)
  {
    hide Less, HasSchema, ConflictFrom, UpdateFrom;
    var main := stores[MAIN_STORE];
    match op
    case Remove(pk) =>
      MainLookup(cat, main, m, pk);
      if pk in m {
        RemovalRefines(cat, stores, m, pk);
        assert RecordFits(cat, m[pk], pk);
      } else {
        assert m - {pk} == m;
      }
    case _ =>
      assert KeyFits(cat, op.record);
      MainLookup(cat, main, m, cat.key(op.record));
      PutRefines(cat, stores, m, op.record);
  }

  /** Stores represent at most one collection contents. */
  lemma RepresentsOne<R(!new)>(cat: Catalog<R>, stores: NamespacedStores, m: Contents<R>, n: Contents<R>)
    requires Lawful(cat) && Represents(cat, stores, m) && Represents(cat, stores, n)
    ensures m == n
  {
    forall p | p in m || p in n
      ensures p in m && p in n && m[p] == n[p]
    {
      var r := if p in m then m[p] else n[p];
      assert RecordFits(cat, r, p) && KeyFits(cat, r);
      MainLookup(cat, stores[MAIN_STORE], m, p);
      MainLookup(cat, stores[MAIN_STORE], n, p);
    }
  }

  /** Freshly prepared stores, all empty, represent the empty collection. */
  lemma EmptyRepresents<R>(cat: Catalog<R>, stores: NamespacedStores)
    requires Prepared(cat.indexes, stores) && forall name | name in stores :: stores[name] == map[]
    ensures Represents(cat, stores, map[])
  {
  }

  // Why index names must differ from the main store's.

  /** Puts of new records only ever add to a store, so a key that is taken stays taken. */
  lemma {:induction false} TakenKeyStopsUpdates<R>(indexes: seq<Index<R>>, j: nat, i: nat, staged: NamespacedStores,
                                                   pk: Key, record: R)
    requires j <= i < |indexes| && Prepared(indexes, staged)
    requires PhysicalKey(indexes[i], record, pk) in staged[indexes[i].name]
    ensures UpdateFrom(indexes, j, staged, pk, None, record).outcome.Err?
    decreases i - j
  {
    var step := UpdateIndex(indexes[j], staged, pk, None, record);
    if j < i && step.outcome.Ok? {
      TakenKeyStopsUpdates(indexes, j + 1, i, step.staged, pk, record);
    }
  }

  /**
   * With an index that has the main store's name, whatever other indexes there are, no insertion into an empty
   * collection can both succeed and leave stores that represent its one record.
   */
  lemma MainStoreNameSpoilsInserts<R>(cat: Catalog<R>, stores: NamespacedStores, i: nat, record: R)
    requires i < |cat.indexes| && cat.indexes[i].name == MAIN_STORE
    requires Prepared(cat.indexes, stores) && stores[MAIN_STORE] == map[] && cat.toBytes(record).Some?
    ensures var end := Stage(cat, stores, Insert(record));
            !(end.outcome.Ok? && Represents(cat, end.staged, map[cat.key(record) := record]))
  {
    var pk, idx := cat.key(record), cat.indexes[i];
    var m := map[pk := record];
    var end := Stage(cat, stores, Insert(record));
    var staged := stores[MAIN_STORE := stores[MAIN_STORE][Encode(pk) := cat.toBytes(record).value]];
    if end.outcome.Ok? && Represents(cat, end.staged, m) {
      assert IndexAgrees(idx, end.staged[MAIN_STORE], m);
      assert IndexHolds(idx, end.staged[MAIN_STORE], m[pk], pk);
      assert IsKeyOf(m, PhysicalKey(idx, record, pk));
      TakenKeyStopsUpdates(cat.indexes, 0, i, staged, pk, record);
    }
  }

  /** Every operation does what the plain map does, over all stores and contents. */
  ghost predicate RefinesPlainMap<R(!new)>(cat: Catalog<R>) {
    forall stores, m, op | Represents(cat, stores, m) && OpFits(cat, op) :: OpRefines(cat, stores, m, op)
  }

  /** Given lawful records, one of which encodes, operations refine the plain map iff no index is named MAIN_STORE. */
  lemma MainStoreNameLaw<R(!new)>(cat: Catalog<R>, record: R)
    requires LawfulRecords(cat) && cat.toBytes(record).Some?
    ensures RefinesPlainMap(cat) <==> AvoidsMainStore(cat)
  {
    if AvoidsMainStore(cat) {
      forall stores, m, op | Represents(cat, stores, m) && OpFits(cat, op)
        ensures OpRefines(cat, stores, m, op)
      {
        StageRefines(cat, stores, m, op);
      }
    } else {
      var i :| 0 <= i < |cat.indexes| && cat.indexes[i].name == MAIN_STORE;
      SomeOperationDiffers(cat, i, record);
    }
  }

  lemma SomeOperationDiffers<R(!new)>(cat: Catalog<R>, i: nat, record: R)
    requires i < |cat.indexes| && cat.indexes[i].name == MAIN_STORE && cat.toBytes(record).Some?
    ensures !RefinesPlainMap(cat)
  {
    hide Stage, Represents, Outcome, Apply;
    var stores: NamespacedStores := map name | name in CatalogStores(cat) :: map[];
    EmptyRepresents(cat, stores);
    MainStoreNameSpoilsInserts(cat, stores, i, record);
    FirstInsertSucceeds(cat, record);
    assert OpFits(cat, Insert(record)) && !OpRefines(cat, stores, map[], Insert(record));
  }

  lemma FirstInsertSucceeds<R>(cat: Catalog<R>, record: R)
    requires cat.toBytes(record).Some?
    ensures Outcome(cat, map[], Insert(record)) == Ok(())
    ensures Apply(cat, map[], Insert(record)) == map[cat.key(record) := record] != map[]
  {
    assert cat.key(record) in map[cat.key(record) := record];
  }

  /** An instance: a unique index of that name whose key is the primary key makes every insert fail. */
  lemma MainStoreNameRefusesInserts<R>(cat: Catalog<R>, stores: NamespacedStores, record: R)
    requires cat.indexes == [Index(MAIN_STORE, Unique, cat.keySchema, cat.key)]
    requires MAIN_STORE in stores && stores[MAIN_STORE] == map[] && cat.toBytes(record).Some?
    ensures WithIndex([], cat.indexes[0]) == Some(cat.indexes)
    ensures Stage(cat, stores, Insert(record)).outcome == Err(AlreadyExists)
  {
    var pk := cat.key(record);
    var staged := stores[MAIN_STORE := map[Encode(pk) := cat.toBytes(record).value]];
    assert staged == stores[MAIN_STORE := stores[MAIN_STORE][Encode(pk) := cat.toBytes(record).value]];
    assert [cat.indexes[0]] + [] == cat.indexes;
    assert UpdateIndex(cat.indexes[0], staged, pk, None, record).outcome == Err(AlreadyExists);
  }
}
