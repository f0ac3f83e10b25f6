/** The in-memory backend: namespaces of stores, snapshots, and write transactions behind a single-writer gate. */
module Memory {
  import opened Bytes
  import Prefixes
  import opened Stores
  import Catalogs
  import opened Transactions
  import opened Results

  /** The stores of a namespace after it is prepared for `names`: existing ones are kept, others start empty. */
  function PreparedStores(current: NamespacedStores, names: seq<string>): (s: NamespacedStores)
    ensures forall name :: name in s <==> name in names
    ensures forall name | name in names :: s[name] == if name in current then current[name] else map[]
  {
    map name | name in names :: if name in current then current[name] else map[]
  }

  /** Preparing a namespace again for the same stores changes nothing. */
  lemma PrepareAgain<R>(cat: Catalogs.Catalog<R>, stores: NamespacedStores, m: Contents<R>)
    requires Represents(cat, stores, m)
    ensures Represents(cat, PreparedStores(stores, Catalogs.CatalogStores(cat)), m)
  {
  }

  lemma PrepareEmpty<R>(cat: Catalogs.Catalog<R>)
    ensures Represents(cat, PreparedStores(map[], Catalogs.CatalogStores(cat)), map[])
  {
    EmptyRepresents(cat, PreparedStores(map[], Catalogs.CatalogStores(cat)));
  }

  /** The published stores of a namespace, and its writer gate: `open` is set while a write permit is out. */
  class NamespacedState {
    var stores: NamespacedStores
    var open: bool

    constructor (stores: NamespacedStores)
      ensures this.stores == stores && !open
    {
      this.stores, open := stores, false;
    }
  }

  /** A write transaction: private copies of the stores, and the permit that keeps other writers out. */
  class WriteHandle {
    const namespace: NamespacedState
    var staged: NamespacedStores
    var permit: bool

    /** Takes the free permit, then copies what is published. */
    constructor (namespace: NamespacedState)
      requires !namespace.open
      modifies namespace`open
      ensures this.namespace == namespace && staged == namespace.stores && permit && namespace.open
    {
      this.namespace := namespace;
      staged, permit := namespace.stores, true;
      new;
      namespace.open := true;
    }

    ghost predicate Live()
      reads this, namespace
    {
      permit && namespace.open
    }

    method Get(name: string, key: bytes) returns (value: Option<bytes>)
      requires name in staged
      ensures value == if key in staged[name] then Some(staged[name][key]) else None
    {
      value := if key in staged[name] then Some(staged[name][key]) else None;
    }

    method Set(name: string, key: bytes, value: bytes)
      requires name in staged
      modifies this`staged
      ensures staged == old(staged)[name := old(staged)[name][key := value]]
    {
      staged := staged[name := staged[name][key := value]];
    }

    method Remove(name: string, key: bytes)
      requires name in staged
      modifies this`staged
      ensures staged == old(staged)[name := old(staged)[name] - {key}]
    {
      staged := staged[name := staged[name] - {key}];
    }

    /** Publishes all staged stores at once, while the permit is still held. */
    method Publish()
      requires Live()
      modifies namespace`stores
      ensures namespace.stores == staged && Live()
    {
      namespace.stores := staged;
    }

    /** Publishes, which needs the permit, and only then gives the permit back. */
    method Commit()
      requires Live()
      modifies this`permit, namespace
      ensures namespace.stores == staged && !namespace.open && !permit
    {
      Publish();
      Drop();
    }

    /** Gives the permit back; what was staged and not published is gone. */
    method Drop()
      requires Live()
      modifies this`permit, namespace`open
      ensures !namespace.open && !permit
    {
      permit := false;
      namespace.open := false;
    }
  }

  class InMemoryMultiStore {
    var spaces: map<string, NamespacedState>

    /** Namespaces share nothing. */
    ghost predicate Valid()
      reads this
    {
      forall m, n | m in spaces && n in spaces && m != n :: spaces[m] != spaces[n]
    }

    constructor ()
      ensures spaces == map[] && Valid()
    {
      spaces := map[];
    }

    method Prepare(namespace: string, names: seq<string>)
      modifies this, if namespace in spaces then {spaces[namespace]} else {}
      ensures old(Valid()) ==> Valid()
      ensures namespace in spaces
      ensures namespace in old(spaces) ==>
                spaces == old(spaces) && spaces[namespace].open == old(spaces[namespace].open)
                && spaces[namespace].stores == PreparedStores(old(spaces[namespace].stores), names)
      ensures namespace !in old(spaces) ==>
                fresh(spaces[namespace]) && spaces == old(spaces)[namespace := spaces[namespace]]
                && !spaces[namespace].open && spaces[namespace].stores == PreparedStores(map[], names)
    {
      if namespace in spaces {
        var state: NamespacedState := spaces[namespace];
        state.stores := PreparedStores(state.stores, names);
      } else {
        var state := new NamespacedState(PreparedStores(map[], names));
        spaces := spaces[namespace := state];
      }
    }

    /** A snapshot of what is published; later commits do not change it. */
    method Read(namespace: string) returns (snapshot: NamespacedStores)
      requires namespace in spaces
      ensures snapshot == spaces[namespace].stores
    {
      snapshot := spaces[namespace].stores;
    }

    method Write(namespace: string) returns (tx: WriteHandle)
      requires namespace in spaces && !spaces[namespace].open
      modifies spaces[namespace]
      ensures spaces[namespace].stores == old(spaces[namespace].stores)
      ensures fresh(tx) && tx.namespace == spaces[namespace] && tx.Live() && tx.staged == spaces[namespace].stores
    {
      tx := new WriteHandle(spaces[namespace]);
    }
  }

  /** Collects the entries of a range in scan order; an ordered map accepts acceptable ranges only. */
  method ScanStore(store: Store, r: Prefixes.Range<bytes>, d: Direction) returns (out: seq<Entry>)
    requires Prefixes.Acceptable(r)
    ensures out == ScanEntries(store, r, d)
  {
    out := [];
    var keys := ScanKeys(store, r, d);
    for i := 0 to |keys|
      invariant out == ScanEntries(store, r, d)[..i]
    {
      assert keys[i] in KeysIn(store, r);
      out := out + [Entry(keys[i], store[keys[i]])];
    }
  }
}
