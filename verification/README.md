# Collette, modelled and proved in Dafny

Collette keeps typed records in ordered byte-key stores: one main store per collection and one store per index. This
project models its four layers and proves what each promises the one above.

1. **Keys** (`Bytes`, `Integers`, `Framing`, `Keys`, `KeyBuffers`). A key is a datatype value; `Encode` gives its bytes
   and `DecodePart` reads it back, driven by a `Schema`. Encodings round-trip with any tail, are canonical and
   prefix-free, and sort like the keys (`Before`), lexicographically through tuples of any nesting. The encoding and
   decoding loops are methods over a growing buffer, proved against these functions.
2. **Bounds and scans** (`Prefixes`, `Bounds`, `Stores`, `Scans`). Logical ranges and prefixes compile to byte ranges;
   a multi index stores `enc(key) ++ enc(primary key)`, and the compiled range still means the logical one. Scans,
   cursors and paging are proved on the byte stores.
3. **Collections** (`Catalogs`, `Transactions`, `Queries`, `Collections`). An operation stages its changes store by
   store; over stores that represent a map from primary keys to records it behaves exactly as that map does
   (`StageRefines`). Scans and lookups answer exactly in terms of that map. `Collections.Collection` is the imperative
   form, whose ghost `contents` is the map.
4. **Memory backend** (`Memory`, `Mvcc`, `Serializability`, `Schedules`). `Memory` holds the backend's classes. `Mvcc`
   interleaves many clients, one small step at a time: in every run each operation that was requested, and no other,
   takes effect at one moment. `Serializability` proves exactly which runs agree with a sequential run of the plain map,
   and `Schedules` that runs can always be finished.

A record type is a type parameter. A `Catalog` holds its functions (`key`, `toBytes`, `fromBytes`) and its list of
indexes, and `Lawful` states what the library assumes of them: keys have their declared schema, `fromBytes` undoes
`toBytes`, a multi index has a composite key of one to three components, index names differ from each other and from
the main store's name. Rust's `BTreeMap` is a `map`; its range scan is the sorted listing of the keys in the range, and
the panics it raises on ill-formed ranges are the predicate `Acceptable`. Panics of the decoders are the value `Panic`.

## Where the code does less than its documentation

The model follows the code in each case.

- `src/key.rs:3-4` asks for byte order to match the order of the Rust value. For strings it does not: "ab" is stored
  before "a" (`Framing.LongerStringIsStoredFirst`). `Framing.StringOrderDeparts` says exactly when the two orders
  differ, and `Keys.Before` uses the stored one.
- `src/bounds.rs:82` uses the successor of an encoding as a start bound. An encoding of 0xff bytes only has none, and
  the bound becomes unbounded. `Bounds.RangeMeaning` and `Bounds.PrefixedRangeMeaning` are equivalences with this
  exception (`StartMisread`) spelled out; the empty string and the greatest integers are such keys
  (`Bounds.ExcludedMaximumReadsMinimum`). The same bound is right only because a stored key never equals the successor,
  which needs a non-empty primary key encoding; `Keys.EmptyEncoding` says which key types have one, and
  `Bounds.BareSuccessorIsLeftOut` shows what happens without.
- A scan can panic, because an ordered map refuses reversed ranges, and ranges from one excluded value to itself. A
  proper logical range on a multi index can compile to one of the latter. `Bounds.RangeRefusedExactly` and
  `Bounds.PrefixedRefusedExactly` say for any range whatever whether it is refused, and all refused ranges denote
  nothing. A query panics exactly if it has no cursor and its selection is refused (`Queries.PanicsExactly`); the scan
  theorems carry this case.
- `src/backend/memory.rs:135-149` replaces the published stores without taking the writer gate. A commit between its
  read and its write is lost (`Serializability.PreparationLosesCommit`). A run is serializable if and only if each
  preparation ends when the collection is what it was when the preparation started
  (`Serializability.RunsAreSerializableIffHarmless`). It is enough that no commit is published between the two halves of
  a preparation (`Serializability.RunsAreSerializable`), and for that, that preparations start while the gate is free
  (`Serializability.FreeGateSuffices`).
- `src/collection.rs:382-399` refuses duplicate index names but accepts the name of the main store. With
  lawful records, operations then refine the plain map if and only if no index has that name
  (`Transactions.MainStoreNameLaw`); it can make every insert fail (`Transactions.MainStoreNameRefusesInserts`).

## Model

| member | source | states |
|---|---|---|
| Integers.BigEndianOrder | src/macros.rs:20-22 | big-endian bytes of fixed width sort like the numbers |
| Integers.SignedOrder | src/macros.rs:49-52 | the cast and sign flip make signed numbers sort like their bytes |
| Integers.SignedRoundTrip | src/macros.rs:49-58 | decoding undoes the cast and the flip for every value of the width |
| Integers.SignedCanonical | src/macros.rs:54-58 | every byte string of the width is the encoding of the value it decodes to |
| Framing.UnescapeInverts | src/key.rs:128-172 | decoding escaped bytes followed by any tail gives the bytes back and leaves the tail |
| Framing.UnescapeCanonical | src/key.rs:143-172 | whatever decodes is the escaping of the result followed by what is left |
| Framing.EscapedForm | src/key.rs:119-136 | other bytes are kept, a zero byte becomes 00 ff, and 00 00 ends the encoding |
| Framing.EscapeOrder | src/key.rs:128-136 | escaping is an order isomorphism whatever tails follow |
| Framing.Utf8ExactlyStrings | src/key.rs:290-301 | the well-formed byte strings are exactly the concatenated UTF-8 forms, by the bit distribution in section 3 of RFC 3629, of scalar values: all of them, and no surrogates or overlong forms |
| Framing.Utf8HasNoTerminator | src/key.rs:273-274 | well-formed UTF-8 by section 4 of RFC 3629 never contains the end byte 0xff |
| Framing.DecodeStringInverts | src/key.rs:283-301 | string round trip with any tail |
| Framing.StringRoundTrip | src/key.rs:283-301 | every sequence of scalar values round-trips with any tail |
| Framing.DecodeStringCanonical | src/key.rs:290-301 | only terminated well-formed UTF-8 decodes, and to what was encoded |
| Framing.EncodeStringOrder | src/key.rs:283-288 | stored order of strings, whatever follows: the natural one, reversed for proper prefixes |
| Framing.StringOrderDeparts | src/key.rs:3-4 | stored and natural order of two strings agree iff neither is a proper prefix of the other |
| Framing.LongerStringIsStoredFirst | src/key.rs:283-288 | concrete failure: "ab" comes after "a" and is stored before it |
| KeyBuffers.EncodeUnsizedKeyBytes | src/key.rs:128-136 | the loop appends exactly the escaped and terminated bytes to the buffer |
| KeyBuffers.DecodeUnsizedKeyBytes | src/key.rs:143-172 | the loop returns what `Unescape` defines, panics included |
| KeyBuffers.EncodeInto | src/key.rs:362-376 | encoding any key, composite ones component by component, appends exactly its encoding |
| Keys.RoundTrip | src/key.rs:378-382 | for every schema, decoding an encoded key followed by any tail gives the key and leaves the tail |
| Keys.DecodeExact | src/key.rs:101-107 | `decode` accepts an encoded key iff nothing follows it |
| Keys.DecodeAcceptsEncodings | src/key.rs:101-107 | `decode` accepts exactly the encodings of the keys of the schema, and returns the key |
| Keys.Canonical | src/key.rs:378-478 | whatever decodes has the schema and is its own encoding followed by the rest |
| Keys.PrefixFree | src/key.rs:345-479 | a concatenation of an encoded key and a tail splits in one way only |
| Keys.DifferentKeysDiverge | src/key.rs:27-31 | no encoding of a schema starts with another one |
| Keys.EncodingOrder | src/key.rs:40-43 | bytes sort like keys, tuples lexicographically by component, and tails only matter between equal keys |
| Keys.BeforeTotal | src/key.rs:50-54 | the stored order is a strict total order on the keys of a schema |
| Keys.EmptyEncoding | src/key.rs:304-322 | which key types encode to nothing: zero-length arrays and tuples of them |
| Prefixes.ComputePrefixEnd | src/prefix.rs:15-25 | the in-place loop computes the end bound that the lemmas below are about |
| Prefixes.PrefixRangeExact | src/prefix.rs:3-4 | the prefix range holds the byte strings that start with the prefix and no others |
| Prefixes.SuccessorLeast | src/prefix.rs:15-25 | a finite end is the least byte string above all extensions of the prefix; without one nothing is above them |
| Prefixes.UnboundedIffAllOnes | src/prefix.rs:15-25 | there is no finite end iff the prefix has 0xff bytes only |
| Bounds.RangeMeaning | src/bounds.rs:63-94 | a stored key lies in the compiled range iff its key lies in the logical range, except exactly for a misread start |
| Bounds.EndMeaning | src/bounds.rs:87-93 | compiled end bounds always mean what they say, for both encoders and any primary key |
| Bounds.StartMeaning | src/bounds.rs:79-85 | compiled start bounds mean what they say iff they are not misread |
| Bounds.SuccessorIsStored | src/bounds.rs:82 | a stored key equals the successor of a key group only if no primary key is appended |
| Bounds.PrefixedRangeMeaning | src/bounds.rs:25-61 | leading components equal the prefix and the others lie in the suffix range, for every split and both encoders |
| Bounds.ExcludedMaximumReadsMinimum | src/bounds.rs:82 | concrete failure: excluding the greatest key reads the smallest |
| Bounds.BareSuccessorIsLeftOut | src/bounds.rs:82 | concrete failure without a primary key: excluding one key leaves out the next one too |
| Bounds.ExactAcceptable | src/bounds.rs:65-74 | the exact encoder yields acceptable ranges from acceptable ones only, and from all of them |
| Bounds.PrefixAcceptable | src/bounds.rs:78-94 | an acceptable range compiles to an acceptable one iff it does not collapse; a collapsed one excludes one value twice |
| Bounds.PrefixedAcceptable | src/bounds.rs:25-61 | the same for a prefix with a suffix range: acceptable iff it does not collapse, and one value excluded twice if it does |
| Bounds.CollapsedIsEmpty | src/bounds.rs:78-94 | a range that collapses contains no key |
| Bounds.PrefixedCollapsedIsEmpty | src/bounds.rs:25-61 | neither does a prefixed range that collapses |
| Bounds.RangeRefusedExactly | src/bounds.rs:63-94 | for any range, reversed ones included: an ordered map refuses the compiled range iff the range is not acceptable itself or collapses, save where its start becomes unbounded or meets the successor of its included end |
| Bounds.RefusedIsEmpty | src/bounds.rs:63-94 | no key lies in a range whose compiled form is refused |
| Bounds.PrefixedRefusedExactly | src/bounds.rs:25-61 | which prefixed ranges compile to a refused range, for any prefixed range |
| Bounds.PrefixedRefusedIsEmpty | src/bounds.rs:25-61 | no key lies in a refused prefixed range |
| Bounds.ConsecutiveCollapse | src/bounds.rs:78-94 | concrete failure: excluding two consecutive integers on both sides |
| Stores.ScanKeys | src/backend/memory.rs:221-252 | a scan lists exactly the keys in the range, strictly sorted in its direction |
| Stores.SortedUnique | src/store.rs:140-145 | sorting and contents determine a scan |
| Stores.CursorMeaning | src/scan.rs:970-973 | a cursor inside the range leaves exactly the keys that come after it in the direction |
| Stores.CursorKeepsAcceptable | src/scan.rs:966-973 | a range that passes the cursor check is acceptable before and after the cursor is applied |
| Stores.ResumeYieldsRest | src/scan.rs:960-976 | resuming after the i-th key yields exactly the keys after it |
| Stores.PagingIsExact | src/scan.rs:960-976 | paging over changing snapshots: strictly sorted, only keys of the range, and every key present in all snapshots |
| Scans.CompiledScan.CompileFrom | src/scan.rs:692-698 | compiling in place yields the range and direction of `Compile`, or its error |
| Scans.CompileBuilt | src/scan.rs:805-976 | a builder chain compiles to its selection, direction and cursor, and fails iff the cursor lies outside |
| Scans.SelectionMeaning | src/scan.rs:336-371 | the byte range of any selection holds a stored key iff the selection selects it, misread keys aside |
| Scans.SelectionRangeAcceptable | src/scan.rs:351-362 | which selections compile to ranges that an ordered map refuses, for every selection; acceptable ones are refused iff they collapse |
| Scans.RefusedSelectsNothing | src/scan.rs:351-362 | refused selections, reversed or collapsed, select nothing |
| Catalogs.WithIndexKeepsNamesDistinct | src/collection.rs:382-399 | an index is accepted iff the names stay distinct, and then joins the earlier ones, which all stay in their order |
| Catalogs.RegisterAllKeepsAll | src/collection.rs:382-399 | a chain of registrations succeeds iff all names differ, and registers each index exactly once |
| Catalogs.CatalogStores | src/collection.rs:48-51 | a collection prepares the main store, a store for each index, and no other |
| Catalogs.PhysicalIsStored | src/key.rs:495-526 | appending the primary key appends its encoding |
| Catalogs.PhysicalInjective | src/index.rs:214-226 | physical keys are equal iff index keys are and, in a multi index, primary keys are |
| Catalogs.PhysicalOrder | src/index.rs:207-213 | physical keys sort by index key first and primary key second |
| Transactions.UpdateStoreRefines | src/index.rs:163-192 | an index update fails iff another record holds its unique key; else the index is exact for the new contents |
| Transactions.UpdateFromRefines | src/index_registry.rs:73-81 | the recursion over all indexes fails iff some index conflicts; else all remaining indexes are exact |
| Transactions.RemoveFromRefines | src/index_registry.rs:83-90 | removal leaves every index exact for the remaining records |
| Transactions.StageRefines | src/collection.rs:65-194 | every operation has the outcome of the plain map; if it commits, main store and all indexes are exact for the new map |
| Transactions.MainStoreNameLaw | src/collection.rs:382-399 | given the other laws and a record that encodes: every operation refines the plain map iff no index has the main store's name |
| Transactions.MainStoreNameSpoilsInserts | src/collection.rs:65-88 | with an index of that name among any others, no first insertion succeeds with stores that represent its record |
| Transactions.JobStepKeepsResult | src/collection.rs:129-153 | taking the operation one store at a time does not change its result |
| Transactions.JobStepsEnd | src/index_registry.rs:73-90 | an operation takes at most one step for the main store, one for each index and one to finish |
| Transactions.RepresentsOne | src/collection.rs:199-216 | stores stand for one collection only |
| Transactions.MainStoreNameRefusesInserts | src/collection.rs:382-399 | the instance: a unique index of that name on the primary key is accepted, and every first insertion fails |
| Queries.IndexIterator.Next | src/iter.rs:124-143 | yields the next followed entry and advances by one |
| Queries.CollectionIterator.Next | src/iter.rs:178-190 | yields the next decoded entry and advances by one |
| Queries.PanicsExactly | src/backend/memory.rs:227-239 | a query whose cursor is not rejected panics iff it has no cursor and its selection is refused |
| Queries.IndexScanIsExact | src/iter.rs:124-143 | a query on an index is rejected iff its cursor is outside, and panics iff it has no cursor and a refused selection, which selects nothing; all others yield, without errors and strictly sorted by index key and primary key, exactly the selected records after the cursor, misread keys aside |
| Queries.FaithfulScanIsExact | src/scan.rs:153-169 | for a faithful selection and, in a multi index, non-empty primary keys: exactly the selected records, or a panic exactly for a refused selection, which selects nothing |
| Queries.ResumeAfterRecord | src/index.rs:151-157 | the cursor computed from a yielded record resumes the scan right after it |
| Queries.PagingMeetsLastingRecords | src/scan.rs:960-976 | paging over the physical keys of a byte range meets every record in the range that stays, and no key twice |
| Queries.PagingYieldsSelectedRecords | src/scan.rs:960-976 | paging through a changing collection yields selected records only, each held by some snapshot, and each selected record that all snapshots hold exactly once |
| Queries.CollectionScanIsExact | src/iter.rs:178-190 | the same for primary scans: rejections, panics, and otherwise exactly the selected records after the cursor, strictly sorted by primary key |
| Queries.GetIsLookup | src/collection.rs:199-216 | `get` is lookup in the map |
| Queries.GetByIndexIsExact | src/scan.rs:433-467 | a unique lookup returns a record iff it has that index key |
| Memory.WriteHandle.Commit | src/backend/memory.rs:271-281 | leaves exactly the staged stores published and the gate free |
| Memory.InMemoryMultiStore.Prepare | src/backend/memory.rs:127-159 | keeps the named stores that exist and adds the others empty |
| Memory.PrepareAgain | src/backend/memory.rs:135-149 | preparing again for the same indexes keeps the collection |
| Memory.ScanStore | src/backend/memory.rs:221-252 | collects the entries of an acceptable range in scan order |
| Collections.UpdateOneIndex | src/index.rs:163-192 | the in-place index update has the effect of `UpdateIndex`, also when it stops half way |
| Collections.UpdateIndexes | src/index_registry.rs:73-81 | the recursion threads the transaction through all indexes and stops at the first error |
| Collections.Collection.constructor | src/collection.rs:47-58 | a new namespace starts empty, a prepared one keeps its records, its stores and its gate, and all other namespaces stay as they are; the stores are exactly those of the catalog |
| Collections.Collection.Insert | src/collection.rs:65-88 | outcome and contents are those of the plain map; an error leaves the published stores as they were |
| Collections.Collection.Update | src/collection.rs:93-122 | the same, for an existing record |
| Collections.Collection.Save | src/collection.rs:129-153 | the same; succeeds iff the record encodes and no other record holds one of its unique keys |
| Collections.Collection.Remove | src/collection.rs:160-194 | the record and its index entries go; a missing one is no error |
| Collections.Collection.Get | src/collection.rs:199-216 | lookup in the contents |
| Collections.Collection.IndexScan | src/collection.rs:279-293 | compiles and opens a query that does not panic; fails iff the cursor lies outside the selection, else yields what the query on the contents yields |
| Collections.Collection.Scan | src/collection.rs:346-351 | the same on primary keys |
| Collections.Collection.GetByIndex | src/scan.rs:433-467 | unique lookup in the contents |
| Mvcc.GateAlwaysHolds | src/backend/memory.rs:76-105 | in every state of every run, one permit holder at most and the gate set iff there is one; between two moments, finished operations and open read handles stay |
| Mvcc.WritersNeverFallBehind | src/backend/memory.rs:161-185 | in every state of every run, whatever preparations do, a writer's base is what is published |
| Mvcc.RequestsAreAnswered | src/collection.rs:65-194 | in every state of every run, the history holds for each client exactly the operations it requested, in its order, except the one in flight |
| Mvcc.OperationsAreAtomic | src/backend/memory.rs:271-281 | in every run, the moment a client commits or gives up adds one event: its operation, with outcome and result of the whole operation on the stores published right then; nothing else adds events |
| Mvcc.HandlesAreFresh | src/backend/memory.rs:161-167 | opening a read handle adds one handle, on what is published right then; nothing else adds handles |
| Mvcc.PreparationsPutBack | src/backend/memory.rs:135-149 | in every run, a preparation puts back what was published when it started |
| Serializability.FinishIsSequential | src/collection.rs:129-153 | finishing an operation extends the sequential run by exactly that operation and its outcome |
| Serializability.PreparationOutcome | src/backend/memory.rs:135-149 | what a preparation writes represents the history iff the operations finished since it read have changed nothing |
| Serializability.RunsAreSerializableIffHarmless | src/backend/memory.rs:127-185 | a run from the empty collection agrees with one sequential run in all its states (outcomes, published stores, read handles) iff each preparation ends when the collection is what it was when the preparation started |
| Serializability.RunsAreSerializable | src/backend/memory.rs:135-149 | runs in which no commit is published between the halves of a preparation are serializable |
| Serializability.FreeGateSuffices | src/backend/memory.rs:84-105 | preparing while the gate is free is enough for that |
| Mvcc.NeverStuck | src/backend/memory.rs:84-105 | no deadlock in any run: while an operation is unfinished, some client inside one can go on |
| Serializability.PreparationLosesCommit | src/backend/memory.rs:135-149 | wherever a writer is ready to commit, no client waits in `write` and no preparation is pending, a preparation around the commit undoes it, and the stores stand for the history iff the operation changed nothing |
| Serializability.ReadersScanOneMoment | src/store.rs:43-46 | in every harmless run, a handle that is opened at some moment keeps its place, and at all later moments scans through it are exact for the collection as it was at that moment, panics on refused selections included |
| Schedules.EveryRequestCanBeAnswered | src/backend/memory.rs:84-105 | every run can be continued, without new requests, until every client is idle and has an answer to exactly the operations it requested |
| Schedules.EveryScheduleRuns | src/backend/memory.rs:127-185 | every schedule of operations, read handles and preparations has a run, with just these operations in its history and just these handles |

## Left out

- Memory.WriteHandle.Commit: the contract states the final state only. That publishing needs the permit, and precedes
  giving it back, is in the contracts of `Publish` and `Drop`, which it calls, and in the separate steps `Publish` and
  `Release` of `Mvcc`.
- Collections.Collection.IndexScan: requires that the query does not panic, as does `Collections.Collection.Scan`;
  `Queries.IndexScanIsExact` and `Queries.CollectionScanIsExact` cover the panicking queries and say which they are.
- The `redb` backend, and backend errors in general: backend operations of the model succeed, as the memory backend's
  do.
- Waiting on the writer gate: `Memory` requires the gate to be free where the source waits, and `Mvcc` makes acquiring a
  step that is enabled when it is. Lock poisoning and fairness are not modelled.
- Several namespaces in `Mvcc`: they share only the table lock that preparation takes; `Memory` has them all.
- Preparing a namespace with other indexes than before: it drops stores or adds empty ones for existing records.
- Store handles that borrow from a transaction: `Memory.WriteHandle` takes the store's name on each access instead.
- Signed enum discriminants, whose sign bit the source does not flip: `EnumType` has unsigned ones.
- Integer widths are any positive number of bytes and tuples any number of components; the source has 1, 2, 4, 8 and 16
  bytes and one to four components.
- `KeySize`, inline buffers and preallocation: both branches of the tuple encoders emit the same bytes.
- Lifetimes, borrowed key forms, the type-level index list and the proof that a scanned index is registered.
- User-overridden index maintenance, error messages, and items whose serialization does not round-trip.
