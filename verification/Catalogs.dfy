/** A collection's record type and its registered indexes, with the laws they must obey. */
module Catalogs {
  import opened Bytes
  import opened Keys
  import Bounds
  import Scans
  import opened Results

  datatype Kind = Unique | Multi

  datatype Index<!R> = Index(name: string, kind: Kind, schema: Schema, key: R -> Key)

  /** How records are keyed, serialized and indexed; a codec result of `None` is the codec's error. */
  datatype Catalog<!R> = Catalog(
    keySchema: Schema,
    key: R -> Key,
    toBytes: R -> Option<bytes>,
    fromBytes: bytes -> Option<R>,
    indexes: seq<Index<R>>)

  const MAIN_STORE := "__main"

  function EncoderOf(kind: Kind): Bounds.Encoder {
    if kind.Unique? then Bounds.Exact else Bounds.Prefix
  }

  /** The physical key: a unique index keeps the index key, a multi index appends the primary key to it. */
  function StoreKey(kind: Kind, k: Key, pk: Key): Key {
    if kind.Unique? then k else Tuple(Scans.Components(k) + [pk])
  }

  function PhysicalKey<R>(idx: Index<R>, r: R, pk: Key): bytes {
    Encode(StoreKey(idx.kind, idx.key(r), pk))
  }

  // Registering indexes.

  predicate HasIndex<R>(indexes: seq<Index<R>>, name: string) {
    indexes != [] && (indexes[0].name == name || HasIndex(indexes[1..], name))
  }

  /** Registers one more index in front of the others; a name that is taken is refused. */
  function WithIndex<R>(indexes: seq<Index<R>>, idx: Index<R>): Option<seq<Index<R>>> {
    if HasIndex(indexes, idx.name) then None else Some([idx] + indexes)
  }

  function StoreNames<R>(indexes: seq<Index<R>>): (names: seq<string>)
    ensures |names| == |indexes| && forall i | 0 <= i < |indexes| :: names[i] == indexes[i].name
  {
    if indexes == [] then [] else [indexes[0].name] + StoreNames(indexes[1..])
  }

  /** The stores a collection prepares in its namespace: the main store, one for each index, and no other. */
  function CatalogStores<R>(cat: Catalog<R>): (names: seq<string>)
    ensures MAIN_STORE in names && forall i | 0 <= i < |cat.indexes| :: cat.indexes[i].name in names
    ensures forall name | name in names && name != MAIN_STORE ::
              exists i :: 0 <= i < |cat.indexes| && cat.indexes[i].name == name
  {
    var names := [MAIN_STORE] + StoreNames(cat.indexes);
    assert MAIN_STORE == names[0];
    assert forall i | 0 <= i < |cat.indexes| :: cat.indexes[i].name == names[i + 1];
    names
  }

  /** The names of a collection's stores, as a set. */
  function StoreSet<R>(cat: Catalog<R>): set<string> {
    set name | name in CatalogStores(cat)
  }

  lemma {:induction false} HasIndexIffNamed<R>(indexes: seq<Index<R>>, name: string)
    ensures HasIndex(indexes, name) <==> name in StoreNames(indexes)
  {
    if indexes != [] {
      HasIndexIffNamed(indexes[1..], name);
    }
  }

  predicate DistinctNames<R>(indexes: seq<Index<R>>) {
    Distinct(StoreNames(indexes))
  }

  lemma NamesDiffer<R>(indexes: seq<Index<R>>, i: nat, j: nat)
    requires DistinctNames(indexes) && i < |indexes| && j < |indexes| && i != j
    ensures indexes[i].name != indexes[j].name
  {
    var names := StoreNames(indexes);
    assert names[i] == indexes[i].name && names[j] == indexes[j].name;
  }

  /**
   * An index is accepted exactly when index names stay distinct; the main store's name is not looked at. The accepted
   * index comes in front of the earlier ones, which all stay, in their order.
   */
  lemma WithIndexKeepsNamesDistinct<R>(indexes: seq<Index<R>>, idx: Index<R>)
    requires DistinctNames(indexes)
    ensures WithIndex(indexes, idx).Some? <==> DistinctNames([idx] + indexes)
    ensures WithIndex(indexes, idx).Some? ==>
              var more := WithIndex(indexes, idx).value;
              |more| == |indexes| + 1 && more[0] == idx && forall j | 0 <= j < |indexes| :: more[j + 1] == indexes[j]
  {
    HasIndexIffNamed(indexes, idx.name);
    var names, more := StoreNames(indexes), StoreNames([idx] + indexes);
    assert more == [idx.name] + names;
    if idx.name in names {
      var i :| 0 <= i < |names| && names[i] == idx.name;
      assert more[0] == more[i + 1];
    }
  }

  /** A chain of registrations that starts with no index. */
  function RegisterAll<R>(indexes: seq<Index<R>>): Option<seq<Index<R>>> {
    if indexes == [] then Some([])
    else
      match RegisterAll(indexes[..|indexes| - 1])
      case None => None
      case Some(earlier) => WithIndex(earlier, indexes[|indexes| - 1])
  }

  /** A chain succeeds exactly for distinct names, and registers each index once, the latest first. */
  lemma {:induction false} RegisterAllKeepsAll<R>(indexes: seq<Index<R>>)
    ensures RegisterAll(indexes).Some? <==> DistinctNames(indexes)
    ensures RegisterAll(indexes).Some? ==>
              var all := RegisterAll(indexes).value;
              |all| == |indexes| && forall j | 0 <= j < |all| :: all[j] == indexes[|indexes| - 1 - j]
  {
    hide DistinctNames, WithIndex;
    if indexes == [] {
      NoNames(indexes);
    } else {
      var n := |indexes| - 1;
      RegisterAllKeepsAll(indexes[..n]);
      EarlierNames(indexes, n);
      if RegisterAll(indexes[..n]).Some? {
        var earlier := RegisterAll(indexes[..n]).value;
        ReversedNames(indexes[..n], earlier);
        ReversedNames(indexes, [indexes[n]] + earlier);
        WithIndexKeepsNamesDistinct(earlier, indexes[n]);
        if RegisterAll(indexes).Some? {
          var all := RegisterAll(indexes).value;
          assert all[1..] == earlier && forall j | 0 < j < |all| :: all[j] == all[1..][j - 1];
        }
      }
    }
  }

  lemma NoNames<R>(indexes: seq<Index<R>>)
    requires indexes == []
    ensures DistinctNames(indexes)
  {
  }

  lemma EarlierNames<R>(indexes: seq<Index<R>>, n: nat)
    requires n <= |indexes|
    ensures DistinctNames(indexes) ==> DistinctNames(indexes[..n])
  {
    assert StoreNames(indexes[..n]) == StoreNames(indexes)[..n];
  }

  lemma ReversedNames<R>(indexes: seq<Index<R>>, reversed: seq<Index<R>>)
    requires |reversed| == |indexes| && forall j | 0 <= j < |indexes| :: reversed[j] == indexes[|indexes| - 1 - j]
    ensures DistinctNames(reversed) <==> DistinctNames(indexes)
  {
    var a, b := StoreNames(indexes), StoreNames(reversed);
    assert forall j | 0 <= j < |indexes| :: b[j] == a[|indexes| - 1 - j];
    ReversedDistinct(a, b);
  }

  lemma ReversedDistinct(a: seq<string>, b: seq<string>)
    requires |a| == |b| && forall j | 0 <= j < |a| :: b[j] == a[|a| - 1 - j]
    ensures Distinct(a) <==> Distinct(b)
  {
    var n := |a|;
    if Distinct(a) {
      forall i, j | 0 <= i < j < n
        ensures b[i] != b[j]
      {
        assert a[n - 1 - j] != a[n - 1 - i];
      }
    }
    if Distinct(b) {
      forall i, j | 0 <= i < j < n
        ensures a[i] != a[j]
      {
        assert b[n - 1 - j] == a[j] && b[n - 1 - i] == a[i];
      }
    }
  }

  // The laws.

  predicate KeyFits<R>(cat: Catalog<R>, r: R) {
    HasSchema(cat.key(r), cat.keySchema)
  }

  predicate IndexKeyFits<R>(idx: Index<R>, r: R) {
    HasSchema(idx.key(r), idx.schema)
  }

  predicate CodecRoundTrips<R(==)>(cat: Catalog<R>, r: R) {
    cat.toBytes(r).Some? ==> cat.fromBytes(cat.toBytes(r).value) == Some(r)
  }

  /** Keys have the schema of their index, and a multi index has a composite key of one to three components. */
  ghost predicate LawfulIndex<R(!new)>(idx: Index<R>) {
    WellFormed(idx.schema)
    && (forall r: R :: IndexKeyFits(idx, r))
    && (idx.kind.Multi? ==> idx.schema.TupleS? && 1 <= |idx.schema.parts| <= 3)
  }

  /** What the library assumes of record types and their indexes: stable typed keys, and a codec that round-trips. */
  ghost predicate LawfulRecords<R(!new)>(cat: Catalog<R>) {
    WellFormed(cat.keySchema)
    && (forall r: R :: KeyFits(cat, r))
    && (forall r: R :: CodecRoundTrips(cat, r))
    && (forall i | 0 <= i < |cat.indexes| :: LawfulIndex(cat.indexes[i]))
    && DistinctNames(cat.indexes)
  }

  /** No index has the main store's name, which registering an index does not check. */
  predicate AvoidsMainStore<R>(cat: Catalog<R>) {
    forall i | 0 <= i < |cat.indexes| :: cat.indexes[i].name != MAIN_STORE
  }

  ghost predicate Lawful<R(!new)>(cat: Catalog<R>) {
    LawfulRecords(cat) && AvoidsMainStore(cat)
  }

  /** The physical key of a multi index is the encoded index key with the encoded primary key after it. */
  lemma PhysicalIsStored(kind: Kind, k: Key, pk: Key)
    requires kind.Multi? ==> k.Tuple?
    ensures Encode(StoreKey(kind, k, pk)) == Bounds.Stored(EncoderOf(kind), k, Encode(pk))
  {
    if kind.Multi? {
      EncodeAllConcat(k.parts, [pk]);
      assert EncodeAll([pk]) == Encode(pk) + EncodeAll([]);
      assert Encode(pk) + [] == Encode(pk);
    }
  }

  /** Physical keys are equal exactly for equal index keys and, in a multi index, equal primary keys. */
  lemma PhysicalInjective<R(!new)>(cat: Catalog<R>, idx: Index<R>, r: R, q: R)
    requires Lawful(cat) && LawfulIndex(idx)
    ensures PhysicalKey(idx, r, cat.key(r)) == PhysicalKey(idx, q, cat.key(q))
       <==> idx.key(r) == idx.key(q) && (idx.kind.Multi? ==> cat.key(r) == cat.key(q))
  {
    assert KeyFits(cat, r) && KeyFits(cat, q) && IndexKeyFits(idx, r) && IndexKeyFits(idx, q);
    PhysicalIsStored(idx.kind, idx.key(r), cat.key(r));
    PhysicalIsStored(idx.kind, idx.key(q), cat.key(q));
    var u, v := Encode(cat.key(r)), Encode(cat.key(q));
    if idx.kind.Multi? && Encode(idx.key(r)) + u == Encode(idx.key(q)) + v {
      PrefixFree(idx.schema, idx.key(r), idx.key(q), u, v);
    }
    EncodedBefore(cat.keySchema, cat.key(r), cat.key(q));
    EncodedBefore(idx.schema, idx.key(r), idx.key(q));
  }

  /** Physical keys of a multi index sort by index key first and by primary key second. */
  lemma PhysicalOrder<R(!new)>(cat: Catalog<R>, idx: Index<R>, r: R, q: R)
    requires Lawful(cat) && LawfulIndex(idx)
    ensures Less(PhysicalKey(idx, r, cat.key(r)), PhysicalKey(idx, q, cat.key(q)))
       <==> Before(idx.key(r), idx.key(q))
            || (idx.kind.Multi? && idx.key(r) == idx.key(q) && Before(cat.key(r), cat.key(q)))
  {
    assert KeyFits(cat, r) && KeyFits(cat, q) && IndexKeyFits(idx, r) && IndexKeyFits(idx, q);
    PhysicalIsStored(idx.kind, idx.key(r), cat.key(r));
    PhysicalIsStored(idx.kind, idx.key(q), cat.key(q));
    EncodingOrder(idx.schema, idx.key(r), idx.key(q), Encode(cat.key(r)), Encode(cat.key(q)));
    EncodedBefore(cat.keySchema, cat.key(r), cat.key(q));
    EncodedBefore(idx.schema, idx.key(r), idx.key(q));
  }
}
