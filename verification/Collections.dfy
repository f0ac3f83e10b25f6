/** Collections: record operations that keep all indexes up to date in one write transaction, lookups and scans. */
module Collections {
  import opened Bytes
  import opened Keys
  import Bounds
  import opened Scans
  import opened Catalogs
  import opened Transactions
  import opened Queries
  import opened Memory
  import opened Results

  /** Brings one index of a transaction up to date with a record that is put. */
  method UpdateOneIndex<R>(tx: WriteHandle, idx: Index<R>, pk: Key, prior: Option<R>, record: R) returns (r: Result<()>)
    requires idx.name in tx.staged
    modifies tx`staged
    ensures Tx(tx.staged, r) == UpdateIndex(idx, old(tx.staged), pk, prior, record)
  {
    var newKey := StoreKey(idx.kind, idx.key(record), pk);
    if prior.Some? {
      var oldKey := StoreKey(idx.kind, idx.key(prior.value), pk);
      if oldKey == newKey {
        assert tx.staged == tx.staged[idx.name := tx.staged[idx.name]];
        return Ok(());
      }
      tx.Remove(idx.name, Encode(oldKey));
    } else {
      assert tx.staged == tx.staged[idx.name := tx.staged[idx.name]];
    }
    var taken := tx.Get(idx.name, Encode(newKey));
    if taken.Some? {
      return Err(AlreadyExists);
    }
    tx.Set(idx.name, Encode(newKey), Encode(pk));
    return Ok(());
  }

  /** The head of the index list first, then its tail, unless the head failed. */
  method UpdateIndexes<R>(tx: WriteHandle, indexes: seq<Index<R>>, i: nat, pk: Key, prior: Option<R>, record: R)
    returns (r: Result<()>)
    requires i <= |indexes| && Prepared(indexes, tx.staged)
    modifies tx`staged
    ensures Tx(tx.staged, r) == UpdateFrom(indexes, i, old(tx.staged), pk, prior, record)
    decreases |indexes| - i
  {
    if i == |indexes| {
      return Ok(());
    }
    r := UpdateOneIndex(tx, indexes[i], pk, prior, record);
    if r.Ok? {
      r := UpdateIndexes(tx, indexes, i + 1, pk, prior, record);
    }
  }

  method RemoveFromIndexes<R>(tx: WriteHandle, indexes: seq<Index<R>>, i: nat, pk: Key, record: R)
    requires i <= |indexes| && Prepared(indexes, tx.staged)
    modifies tx`staged
    ensures tx.staged == RemoveFrom(indexes, i, old(tx.staged), pk, record)
    decreases |indexes| - i
  {
    if i < |indexes| {
      tx.Remove(indexes[i].name, PhysicalKey(indexes[i], record, pk));
      RemoveFromIndexes(tx, indexes, i + 1, pk, record);
    }
  }

  /** Publishing what an operation staged if it commits, and nothing otherwise, is what the plain map does. */
  lemma Settled<R(!new)>(cat: Catalog<R>, before: NamespacedStores, m: Contents<R>, op: Op<R>,
                         after: NamespacedStores, r: Result<()>)
    requires Lawful(cat) && Represents(cat, before, m) && OpFits(cat, op)
    requires var end := Stage(cat, before, op); r == end.outcome && after == if end.commits then end.staged else before
    ensures r == Outcome(cat, m, op) && Represents(cat, after, Apply(cat, m, op)) && (r.Err? ==> after == before)
    ensures after.Keys == before.Keys
  {
    StageRefines(cat, before, m, op);
  }

  class Collection<R(!new)> {
    const name: string
    const db: InMemoryMultiStore
    const cat: Catalog<R>
    /** The records the stores stand for. */
    ghost var contents: Contents<R>

    /** The published stores are those of the catalog and represent the contents, and no writer is at work. */
    ghost predicate Valid()
      reads this, db, if name in db.spaces then {db.spaces[name]} else {}
    {
      && name in db.spaces && !db.spaces[name].open && db.spaces[name].stores.Keys == StoreSet(cat)
      && Lawful(cat) && Represents(cat, db.spaces[name].stores, contents)
    }

    /**
     * Prepares the backend stores: a new namespace starts empty, a prepared one keeps the records it stands for, and
     * all other namespaces stay as they are.
     */
    constructor (name: string, db: InMemoryMultiStore, cat: Catalog<R>, ghost known: Contents<R>)
      requires Lawful(cat) && db.Valid()
      modifies db, if name in db.spaces then {db.spaces[name]} else {}
      ensures this.name == name && this.db == db && this.cat == cat && db.Valid()
      ensures db.spaces.Keys == old(db.spaces.Keys) + {name}
      ensures forall n | n in old(db.spaces) ::
                db.spaces[n] == old(db.spaces[n]) && db.spaces[n].open == old(db.spaces[n].open)
                && (n != name ==> db.spaces[n].stores == old(db.spaces[n].stores))
      ensures name !in old(db.spaces) ==> fresh(db.spaces[name]) && !db.spaces[name].open
      ensures db.spaces[name].stores.Keys == StoreSet(cat)
      ensures forall store | store in StoreSet(cat) ::
                db.spaces[name].stores[store] ==
                if name in old(db.spaces) && store in old(db.spaces[name].stores)
                then old(db.spaces[name].stores)[store] else map[]
      ensures name !in old(db.spaces) ==> Valid() && contents == map[]
      ensures name in old(db.spaces) && !old(db.spaces[name].open)
              && Represents(cat, old(db.spaces[name].stores), known) ==>
                Valid() && contents == known
    {
      hide Lawful, Represents;
      this.name, this.db, this.cat := name, db, cat;
      contents := if name in db.spaces then known else map[];
      new;
      PrepareEmpty(cat);
      if name in db.spaces && Represents(cat, db.spaces[name].stores, known) {
        PrepareAgain(cat, db.spaces[name].stores, known);
      }
      db.Prepare(name, CatalogStores(cat));
    }

    /** Decodes what the main store of a transaction holds under a key. */
    method Prior(tx: WriteHandle, encoded: bytes) returns (r: Result<Option<R>>)
      requires MAIN_STORE in tx.staged
      ensures encoded !in tx.staged[MAIN_STORE] ==> r == Ok(None)
      ensures encoded in tx.staged[MAIN_STORE] ==>
                var decoded := cat.fromBytes(tx.staged[MAIN_STORE][encoded]);
                r == if decoded.None? then Err(Codec) else Ok(decoded)
    {
      var found := tx.Get(MAIN_STORE, encoded);
      if found.None? {
        return Ok(None);
      }
      var decoded := cat.fromBytes(found.value);
      if decoded.None? {
        return Err(Codec);
      }
      return Ok(decoded);
    }

    /** Writes the record and its index entries and commits, or gives everything up. */
    method Put(tx: WriteHandle, prior: Option<R>, record: R) returns (r: Result<()>)
      requires tx.Live() && Prepared(cat.indexes, tx.staged)
      modifies tx, tx.namespace
      ensures var end := AfterMain(cat, PutMain(cat, old(tx.staged), prior, record));
              r == end.outcome && !tx.namespace.open
              && tx.namespace.stores == (if end.commits then end.staged else old(tx.namespace.stores))
    {
      var b := cat.toBytes(record);
      if b.None? {
        tx.Drop();
        return Err(Codec);
      }
      tx.Set(MAIN_STORE, Encode(cat.key(record)), b.value);
      r := UpdateIndexes(tx, cat.indexes, 0, cat.key(record), prior, record);
      if r.Err? {
        tx.Drop();
        return;
      }
      tx.Commit();
    }

    /** Takes the record and its index entries out and commits. */
    method Withdraw(tx: WriteHandle, encoded: bytes, record: R)
      requires tx.Live() && Prepared(cat.indexes, tx.staged)
      modifies tx, tx.namespace
      ensures var staged := old(tx.staged)[MAIN_STORE := old(tx.staged)[MAIN_STORE] - {encoded}];
              !tx.namespace.open && tx.namespace.stores == AfterMain(cat, Unindexing(staged, 0, record)).staged
    {
      tx.Remove(MAIN_STORE, encoded);
      RemoveFromIndexes(tx, cat.indexes, 0, cat.key(record), record);
      tx.Commit();
    }

    /** A new record; an existing primary key or a conflict on a unique index is refused. */
    method Insert(record: R) returns (r: Result<()>)
      requires Valid()
      modifies this`contents, db.spaces[name]
      ensures Valid()
      ensures r == Outcome(cat, old(contents), Op.Insert(record))
      ensures contents == Apply(cat, old(contents), Op.Insert(record))
      ensures r.Err? ==> db.spaces[name].stores == old(db.spaces[name].stores)
    {
      hide Lawful, Represents, Outcome, Apply, StoreSet;
      ghost var before := db.spaces[name].stores;
      RepresentsPrepared(cat, before, contents);
      var tx := db.Write(name);
      var found := tx.Get(MAIN_STORE, Encode(cat.key(record)));
      if found.Some? {
        tx.Drop();
        r := Err(AlreadyExists);
      } else {
        r := Put(tx, None, record);
      }
      Settled(cat, before, contents, Op.Insert(record), db.spaces[name].stores, r);
      contents := Apply(cat, contents, Op.Insert(record));
    }

    /** Replaces an existing record. */
    method Update(record: R) returns (r: Result<()>)
      requires Valid()
      modifies this`contents, db.spaces[name]
      ensures Valid()
      ensures r == Outcome(cat, old(contents), Op.Update(record))
      ensures contents == Apply(cat, old(contents), Op.Update(record))
      ensures r.Err? ==> db.spaces[name].stores == old(db.spaces[name].stores)
    {
      hide Lawful, Represents, Outcome, Apply, StoreSet;
      ghost var before := db.spaces[name].stores;
      RepresentsPrepared(cat, before, contents);
      var tx := db.Write(name);
      var prior := Prior(tx, Encode(cat.key(record)));
      if prior.Err? {
        tx.Drop();
        r := Err(prior.error);
      } else if prior.value.None? {
        tx.Drop();
        r := Err(NotFound);
      } else {
        r := Put(tx, prior.value, record);
      }
      Settled(cat, before, contents, Op.Update(record), db.spaces[name].stores, r);
      contents := Apply(cat, contents, Op.Update(record));
    }

    /** Inserts or replaces. */
    method Save(record: R) returns (r: Result<()>)
      requires Valid()
      modifies this`contents, db.spaces[name]
      ensures Valid()
      ensures r == Outcome(cat, old(contents), Op.Save(record))
      ensures contents == Apply(cat, old(contents), Op.Save(record))
      ensures r.Err? ==> db.spaces[name].stores == old(db.spaces[name].stores)
    {
      hide Lawful, Represents, Outcome, Apply, StoreSet;
      ghost var before := db.spaces[name].stores;
      RepresentsPrepared(cat, before, contents);
      var tx := db.Write(name);
      var prior := Prior(tx, Encode(cat.key(record)));
      if prior.Err? {
        tx.Drop();
        r := Err(prior.error);
      } else {
        r := Put(tx, prior.value, record);
      }
      Settled(cat, before, contents, Op.Save(record), db.spaces[name].stores, r);
      contents := Apply(cat, contents, Op.Save(record));
    }

    /** Removes a record and its index entries; a missing one is no error and nothing is committed. */
    method Remove(pk: Key) returns (r: Result<()>)
      requires Valid() && HasSchema(pk, cat.keySchema)
      modifies this`contents, db.spaces[name]
      ensures Valid()
      ensures r == Outcome(cat, old(contents), Op.Remove(pk))
      ensures contents == Apply(cat, old(contents), Op.Remove(pk))
      ensures r.Err? ==> db.spaces[name].stores == old(db.spaces[name].stores)
    {
      hide Lawful, Represents, Outcome, Apply, StoreSet;
      ghost var before := db.spaces[name].stores;
      RepresentsPrepared(cat, before, contents);
      var tx := db.Write(name);
      var prior := Prior(tx, Encode(pk));
      if prior.Err? {
        tx.Drop();
        r := Err(prior.error);
      } else if prior.value.None? {
        tx.Drop();
        r := Ok(());
      } else {
        Withdraw(tx, Encode(pk), prior.value.value);
        r := Ok(());
      }
      Settled(cat, before, contents, Op.Remove(pk), db.spaces[name].stores, r);
      contents := Apply(cat, contents, Op.Remove(pk));
    }

    method Get(pk: Key) returns (r: Result<Option<R>>)
      requires Valid() && HasSchema(pk, cat.keySchema)
      ensures r == Ok(Lookup(contents, pk))
    {
      var snapshot := db.Read(name);
      GetIsLookup(cat, snapshot, contents, pk);
      r := Queries.Get(cat, snapshot, pk);
    }

    /** Compiles a query on the `i`-th index and opens it on a snapshot of the published stores. */
    method IndexScan(i: nat, q: Query) returns (r: Result<IndexIterator<R>>)
      requires Valid() && i < |cat.indexes| && SelectionFits(q.selection, cat.indexes[i].schema)
      requires !OpenIndexScan(cat, db.spaces[name].stores, cat.indexes[i], q).Panics?
      ensures var answer := OpenIndexScan(cat, db.spaces[name].stores, cat.indexes[i], q);
              if answer.Items? then r.Ok? && fresh(r.value) && r.value.Remaining() == answer.items
              else r == Err(answer.error)
    {
      hide Lawful, Represents;
      var idx := cat.indexes[i];
      var snapshot := db.Read(name);
      RepresentsPrepared(cat, snapshot, contents);
      var e := EncoderOf(idx.kind);
      var scan := new CompiledScan();
      var error := scan.CompileFrom(Build(e, q));
      if error.Some? {
        return Err(error.value);
      }
      var entries := ScanStore(snapshot[idx.name], scan.range, scan.direction);
      var items := new IndexIterator(cat, entries, snapshot[MAIN_STORE]);
      return Ok(items);
    }

    /** Retrieves a record by the key of the `i`-th index, a unique one. */
    method GetByIndex(i: nat, k: Key) returns (r: Result<Option<R>>)
      requires Valid() && i < |cat.indexes| && cat.indexes[i].kind.Unique? && HasSchema(k, cat.indexes[i].schema)
      ensures r.Ok?
      ensures forall record ::
                r.value == Some(record) <==> Holds(cat, contents, record) && cat.indexes[i].key(record) == k
    {
      var snapshot := db.Read(name);
      GetByIndexIsExact(cat, snapshot, contents, i, k);
      r := Queries.GetByIndex(cat, snapshot, cat.indexes[i], k);
    }

    /** Scans the records by primary key; such a scan takes a range, a direction and a cursor, but no prefix. */
    method Scan(q: Query) returns (r: Result<CollectionIterator<R>>)
      requires Valid() && (q.selection.All? || q.selection.ByRange?)
      requires SelectionFits(q.selection, cat.keySchema)
      requires !OpenCollectionScan(cat, db.spaces[name].stores, q).Panics?
      ensures var answer := OpenCollectionScan(cat, db.spaces[name].stores, q);
              if answer.Items? then r.Ok? && fresh(r.value) && r.value.Remaining() == answer.items
              else r == Err(answer.error)
    {
      hide Lawful, Represents;
      var snapshot := db.Read(name);
      RepresentsPrepared(cat, snapshot, contents);
      var scan := new CompiledScan();
      var error := scan.CompileFrom(Build(Bounds.Exact, q));
      if error.Some? {
        return Err(error.value);
      }
      var entries := ScanStore(snapshot[MAIN_STORE], scan.range, scan.direction);
      var items := new CollectionIterator(cat, entries);
      return Ok(items);
    }
  }
}
