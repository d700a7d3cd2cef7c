# Output meta pool and ShortCodec, modelled in Dafny

This project models two parts of the serialisation library.

**The output meta pool.** An encoder uses `OutputMetaPool` as a dictionary of struct signatures. A signature (`OutputMetaPool.Struct`) is the ordered list of field names of a record shape. The pool gives each signature a small numeric id, so the id can be written instead of the names. The pool has two scopes:

- **Context scope.** Its signatures survive `reset()`, up to the capacity given at construction. Ids are odd: `rank*2+1`.
- **Transient scope.** It is wiped at every `reset()`. Ids are even: `rank*2`.

The empty signature has the fixed id 0 in both scopes. Ranks start at 1. A new signature takes the smallest reclaimed rank; when none is reclaimed, it takes the next never-used rank. Each registration stamps the entry with the coarse clock's current tick. `reset()` evicts the least recently touched context signatures down to the capacity and reclaims their ranks. It then empties the transient scope, whose ranks start again at 1.

**ShortCodec.** It converts between `Long` and `Short`, and between `short[]` and `Short[]`. Null values and null arrays pass through unchanged.

Modules:

- `Base` (`base.dfy`): `Option` for Java's nullable values, and `Result` for a value or a thrown exception.
- `ShortCodec` (`short_codec.dfy`):
  - `toShort` and `toLong` are functions on `Option`s of the bounded newtypes `short` and `long`. Narrowing follows section 5.1.3 of the Java Language Specification: it keeps the low 16 bits, read as two's complement.
  - The two `convert` overloads are methods that allocate a new array and fill it in a loop.
  - Each method is proved against the specification functions `Box` and `Unbox`. Those functions carry the round-trip lemmas.
- `Signature` (`signature.dfy`): the `Struct` value, its `equals` (element-wise comparison of the name arrays) and a `hashCode`.
- `SlotTable` (`slot_table.dfy`): one scope as a value.
  - A `Table` holds the map from signature to `Entry(rank, tick)`, the sorted free list of reclaimed ranks, and the next never-used rank.
  - `Register` and `Release` are functions on tables. `Evict` is a ghost function: it releases the oldest entry until the table is at capacity.
  - `Valid` is the table invariant: ranks are distinct, positive and below `next`, and every rank below `next` is either resident or free.
  - `FindOldest` is the loop that picks the eviction victim.
- `MetaPool` (`meta_pool.dfy`): the class `OutputMetaPool`.
  - It has a `capacity` constant, a `clock` field and the two tables `cxt` and `tmp`.
  - Its methods `RegisterCxtStruct`, `RegisterTmpStruct` and `Reset` update those fields in place.
  - Each method is proved to apply exactly the `SlotTable` functions and to keep `Valid()`.
- `PoolScenarios` (`pool_scenarios.dfy`): the pool's test scenarios, replayed call by call.
  - The null and empty cases drive an `OutputMetaPool` object.
  - The longer scenarios are stated on the `SlotTable` functions, which are what the pool's methods apply.

Time is a tick counter. `OutputMetaPool.Tick` advances the pool's clock by one coarse interval. Every registration uses the current tick.

## Model

| member | source | states |
|---|---|---|
| ShortCodec.ToShort | src/main/java/com/github/sisyphsu/nakedata/convertor/codec/lang/ShortCodec.java:19-21 | null maps to null; otherwise the result is the one short congruent to the long modulo 2^16 (JLS 5.1.3 narrowing) |
| ShortCodec.ToLong | src/main/java/com/github/sisyphsu/nakedata/convertor/codec/lang/ShortCodec.java:29-31 | null maps to null; otherwise the long is numerically equal to the short |
| ShortCodec.CongruentShortsAreEqual | src/main/java/com/github/sisyphsu/nakedata/convertor/codec/lang/ShortCodec.java:19-21 | two shorts congruent modulo 2^16 are equal, so narrowing has exactly one possible result |
| ShortCodec.ToShortInRange | src/main/java/com/github/sisyphsu/nakedata/convertor/codec/lang/ShortCodec.java:19-21 | a long already in short range narrows to the same number |
| ShortCodec.ToShortOfToLong | src/main/java/com/github/sisyphsu/nakedata/convertor/codec/lang/ShortCodec.java:19-31 | `toShort(toLong(s)) == s` for every Short, null included |
| ShortCodec.ToLongOfToShort | src/main/java/com/github/sisyphsu/nakedata/convertor/codec/lang/ShortCodec.java:19-31 | `toLong(toShort(l)) == l` if and only if `l` is null or in short range |
| ShortCodec.Box | src/main/java/com/github/sisyphsu/nakedata/convertor/codec/lang/ShortCodec.java:43-47 | boxing keeps the length |
| ShortCodec.BoxAt | src/main/java/com/github/sisyphsu/nakedata/convertor/codec/lang/ShortCodec.java:44-46 | element i of the boxed sequence is the boxed element i |
| ShortCodec.Unbox | src/main/java/com/github/sisyphsu/nakedata/convertor/codec/lang/ShortCodec.java:60-64 | unboxing fails only with NullPointerException, and on success keeps the length; UnboxSpec gives the exact failure condition and the contents |
| ShortCodec.UnboxSpec | src/main/java/com/github/sisyphsu/nakedata/convertor/codec/lang/ShortCodec.java:60-64 | unboxing succeeds if and only if no element is null; a failure is always NullPointerException; on success each element is the unboxed input element |
| ShortCodec.UnboxOfBox | src/main/java/com/github/sisyphsu/nakedata/convertor/codec/lang/ShortCodec.java:39-65 | unboxing a boxed array gives back the original elements |
| ShortCodec.BoxOfUnbox | src/main/java/com/github/sisyphsu/nakedata/convertor/codec/lang/ShortCodec.java:39-65 | boxing the unboxed form of a null-free boxed array gives back that array |
| ShortCodec.ConvertToBoxed | src/main/java/com/github/sisyphsu/nakedata/convertor/codec/lang/ShortCodec.java:39-48 | a null array gives null; otherwise the result is a fresh array whose contents are the boxed input |
| ShortCodec.ConvertToPrimitive | src/main/java/com/github/sisyphsu/nakedata/convertor/codec/lang/ShortCodec.java:56-65 | a null array gives null; a null element throws NullPointerException, and it throws only then; otherwise the result is a fresh array whose contents the unboxing specification gives |
| Signature.NewStruct | src/test/java/com/github/sisyphsu/canoe/transport/OutputStructPoolTest.java:15-26 | a null name array throws NullPointerException; otherwise the Struct holds exactly the given names |
| Signature.Equals | src/test/java/com/github/sisyphsu/canoe/transport/OutputStructPoolTest.java:59-65 | `equals` holds exactly when the other object is a Struct with the same names |
| Signature.NamesEqualIsEquality | src/test/java/com/github/sisyphsu/canoe/transport/OutputStructPoolTest.java:59-62 | element-wise comparison of name arrays holds if and only if the arrays are equal |
| Signature.EqualsIffSameNames | src/test/java/com/github/sisyphsu/canoe/transport/OutputStructPoolTest.java:59-62 | two Structs are `equals` if and only if their name lists are equal |
| Signature.EqualsConsistentWithHashCode | src/test/java/com/github/sisyphsu/canoe/transport/OutputStructPoolTest.java:62-63 | equal Structs have equal hash codes |
| Signature.NotEqualToOtherObject | src/test/java/com/github/sisyphsu/canoe/transport/OutputStructPoolTest.java:65 | a Struct is never equal to an object of another class |
| Signature.OrderSensitive | src/test/java/com/github/sisyphsu/canoe/transport/OutputStructPoolTest.java:59-62 | the same names in another order make an unequal Struct |
| Signature.HashCode | src/test/java/com/github/sisyphsu/canoe/transport/OutputStructPoolTest.java:63 | a function of the names alone; under the assumption that it is `Arrays.hashCode` of the names, a Struct with no names hashes to 1; EqualsConsistentWithHashCode gives agreement with `equals` |
| SlotTable.DecodeOfId | src/test/java/com/github/sisyphsu/canoe/transport/OutputStructPoolTest.java:30-48 | an allocated rank's id is never 0, and its parity gives back the scope and the rank |
| SlotTable.Id | src/test/java/com/github/sisyphsu/canoe/transport/OutputStructPoolTest.java:30-48 | half the id is the rank, and the id is odd exactly in the context scope |
| SlotTable.Empty | src/test/java/com/github/sisyphsu/canoe/transport/OutputStructPoolTest.java:14 | a new scope is valid, holds no signature and hands out rank 1 next |
| SlotTable.Register | src/test/java/com/github/sisyphsu/canoe/transport/OutputStructPoolTest.java:27-48 | no names give id 0 and leave the table as it was; otherwise the signature is resident afterwards, stamped with the current tick, and the id is its rank's id in the scope; RegisterFresh and RegisterResident give the rank and the rest of the table |
| SlotTable.RegisterKeepsValid | src/test/java/com/github/sisyphsu/canoe/transport/OutputStructPoolTest.java:27-48 | registration keeps the table invariant |
| SlotTable.RegisterEmpty | src/test/java/com/github/sisyphsu/canoe/transport/OutputStructPoolTest.java:27-28 | the empty signature gets id 0 in either scope and changes nothing |
| SlotTable.RegisterFresh | src/test/java/com/github/sisyphsu/canoe/transport/OutputStructPoolTest.java:30-34 | a non-resident signature gets the smallest positive rank that is not resident, is stamped with the current tick, and gets an id of its scope's parity; exactly that entry is added |
| SlotTable.RegisterResident | src/test/java/com/github/sisyphsu/canoe/transport/OutputStructPoolTest.java:35-39 | a resident signature keeps its id and rank; the new index is the old one with only that signature's tick moved to now; the free list and the rank counter are unchanged |
| SlotTable.RegisterIdempotent | src/test/java/com/github/sisyphsu/canoe/transport/OutputStructPoolTest.java:35-39 | on any table, registering a signature twice, at any two ticks, returns the same id and leaves the resident count as the first call left it |
| SlotTable.Insert | src/test/java/com/github/sisyphsu/canoe/transport/OutputStructPoolTest.java:100-103 | inserting into the free list adds one element, and the inserted rank is in the result |
| SlotTable.InsertSpec | src/test/java/com/github/sisyphsu/canoe/transport/OutputStructPoolTest.java:100-103 | sorted insertion of a new rank keeps the free list strictly sorted and holds exactly the old ranks plus the new one |
| SlotTable.Release | src/test/java/com/github/sisyphsu/canoe/transport/OutputStructPoolTest.java:100-101 | exactly the released signature leaves the index, every other entry is kept as it was, its rank joins the free list, and the rank counter is unchanged |
| SlotTable.ReleaseKeepsValid | src/test/java/com/github/sisyphsu/canoe/transport/OutputStructPoolTest.java:100-103 | releasing a signature keeps the table invariant, with its rank now free |
| SlotTable.OldestExists | src/test/java/com/github/sisyphsu/canoe/transport/OutputStructPoolTest.java:100 | every non-empty table has a least recently touched entry |
| SlotTable.OldestUnique | src/test/java/com/github/sisyphsu/canoe/transport/OutputStructPoolTest.java:100 | with distinct ranks, the least recently touched entry is unique, because ties on the tick go to the smaller rank |
| SlotTable.Victim | src/test/java/com/github/sisyphsu/canoe/transport/OutputStructPoolTest.java:100 | the eviction victim is the least recently touched entry |
| SlotTable.Evict | src/test/java/com/github/sisyphsu/canoe/transport/OutputStructPoolTest.java:100-101 | the rank counter is kept, exactly min(size, capacity) signatures remain, and each survivor keeps its entry; EvictSpec adds the invariant and the least-recently-used order |
| SlotTable.EvictOldest | src/test/java/com/github/sisyphsu/canoe/transport/OutputStructPoolTest.java:100 | when an entry is the oldest and holds its rank alone, eviction releases it first |
| SlotTable.EvictStep | src/test/java/com/github/sisyphsu/canoe/transport/OutputStructPoolTest.java:100 | on a valid table, releasing the oldest entry keeps the invariant, shrinks the table by one and leaves the final eviction result unchanged |
| SlotTable.EvictSpec | src/test/java/com/github/sisyphsu/canoe/transport/OutputStructPoolTest.java:86-101 | eviction keeps the invariant and the rank counter; at or under capacity it changes nothing; otherwise exactly `capacity` signatures remain with their entries untouched, and every evicted signature was touched no later than every survivor |
| SlotTable.FindOldest | src/test/java/com/github/sisyphsu/canoe/transport/OutputStructPoolTest.java:100 | the loop returns the least recently touched signature of a non-empty map |
| MetaPool.OutputMetaPool.constructor | src/test/java/com/github/sisyphsu/canoe/transport/OutputStructPoolTest.java:14 | a new pool is valid, at tick 0, with two empty scopes and the given capacity |
| MetaPool.OutputMetaPool.Create | src/test/java/com/github/sisyphsu/canoe/transport/OutputStructPoolTest.java:73 | a non-positive capacity is refused with IllegalArgumentException; otherwise a fresh valid pool |
| MetaPool.OutputMetaPool.Tick | src/test/java/com/github/sisyphsu/canoe/transport/OutputStructPoolTest.java:75-110 | the clock advances by exactly one tick |
| MetaPool.OutputMetaPool.RegisterCxtStruct | src/test/java/com/github/sisyphsu/canoe/transport/OutputStructPoolTest.java:21-38 | null throws NullPointerException and leaves the context scope as it was; otherwise the context scope is registered at the current tick, the odd id (or 0) is returned, and the pool stays valid |
| MetaPool.OutputMetaPool.RegisterTmpStruct | src/test/java/com/github/sisyphsu/canoe/transport/OutputStructPoolTest.java:15-20 | the same for the transient scope, with even ids |
| MetaPool.OutputMetaPool.Reset | src/test/java/com/github/sisyphsu/canoe/transport/OutputStructPoolTest.java:52-54 | the context scope becomes its eviction down to capacity; the transient scope becomes empty, restarting at rank 1; the pool stays valid |
| PoolScenarios.NullAndEmptyScenario | src/test/java/com/github/sisyphsu/canoe/transport/OutputStructPoolTest.java:14-31 | on a pool of capacity 16, the two null registrations throw, the two empty ones return 0, and the first context signatures get ids 3 and 5 |
| PoolScenarios.BasicContextScenario | src/test/java/com/github/sisyphsu/canoe/transport/OutputStructPoolTest.java:30-39 | ids 3, 5, 7, 9, 11, then 3, 3, 11 for repeats; five context signatures are resident |
| PoolScenarios.BasicTransientScenario | src/test/java/com/github/sisyphsu/canoe/transport/OutputStructPoolTest.java:42-50 | ids 2, 4, 6, 8, 10, 12, then 2 for the repeat; six transient signatures are resident |
| PoolScenarios.BasicResetScenario | src/test/java/com/github/sisyphsu/canoe/transport/OutputStructPoolTest.java:52-54 | with 5 signatures and capacity 16, reset evicts nothing, so "id.5" keeps id 11; the emptied transient scope gives id 2 |
| PoolScenarios.ExpireFillScenario | src/test/java/com/github/sisyphsu/canoe/transport/OutputStructPoolTest.java:73-97 | one tick apart, ids 3, 5, 7, 9, 11, then 3 for the re-touched "id1", then 13 to 21 |
| PoolScenarios.ExpireFirstResetScenario | src/test/java/com/github/sisyphsu/canoe/transport/OutputStructPoolTest.java:100-101 | a reset with capacity 8 evicts "id2" and "id3", keeps the re-touched "id1", frees ranks 2 and 3 and leaves 8 signatures |
| PoolScenarios.ExpireRefillScenario | src/test/java/com/github/sisyphsu/canoe/transport/OutputStructPoolTest.java:102-109 | "id3" and "id2" get ids 5 and 7 from the freed ranks, smallest first; "id5" keeps 11; with no free rank left, new signatures get 23 and 25 |
| PoolScenarios.ExpireSecondResetScenario | src/test/java/com/github/sisyphsu/canoe/transport/OutputStructPoolTest.java:112-114 | the second reset evicts the four oldest, freeing ranks 1, 4, 6 and 7; "id4" then gets id 3 and "id1" gets id 9 |

## Left out

- Real time is not modelled. The coarse clock, `TimeUtils.INTERVAL` and `Thread.sleep` become the `clock` field and `OutputMetaPool.Tick`. Each `Thread.sleep(10)` of the expiry scenario is read as exactly one tick, and the pool starts at tick 0.
- `OutputMetaPool`'s own source is not part of this model. The pool is modelled from the behaviour its test asserts. The names `cxt` and `tmp` stand for `cxtStructIndex` and `tmpStructIndex`, and a test's `size()` reads are `|cxt.index|` and `|tmp.index|`.
- Eviction order on equal ticks is an assumption. `SlotTable.NoNewer` sends the smaller rank first, because no scenario has two eviction candidates with the same tick.
- The refusal of a non-positive capacity, as IllegalArgumentException in `MetaPool.OutputMetaPool.Create`, is an assumption, because the test only builds pools of capacity 16 and 8.
- Signature.HashCode: the pool's own hash formula is not visible. The model assumes `Arrays.hashCode` over the names, with the `String.hashCode` polynomial and 32-bit wrap-around for each name, so the value 1 for no names is an assumption, not a visible fact. Names are hashed by code point, not by UTF-16 unit, so a name with a character outside the Basic Multilingual Plane hashes differently from Java. What the test asserts, agreement with `equals`, does not depend on either choice.
- The `Struct` constructor's second argument (passed `null` in the test) is not modelled, because its meaning is not visible.
- Ids are unbounded naturals. Java `int` overflow of `rank*2+1` is not modelled, because it needs over a billion resident signatures.
- ShortCodec.ConvertToPrimitive: a failing call returns no array. The partly filled array that Java abandons when unboxing throws is not modelled, because no caller can observe it.
- PoolScenarios: only the null and empty cases drive an `OutputMetaPool` object. The longer scenarios are stated on the `SlotTable` functions that the pool's methods are proved to apply, because chaining dozens of method calls through the class invariant is beyond what the verifier proves in reasonable time.
- The comment on the second reset of the expiry scenario (src/test/java/com/github/sisyphsu/canoe/transport/OutputStructPoolTest.java:112) names only ranks 1 and 4 as released. In the model that reset finds 12 signatures resident with capacity 8, so it evicts four and frees ranks 1, 4, 6 and 7. The ids the test then asserts (3 and 9) are the same either way.
- A name array with a null element, such as `registerCxtStruct("a", null)`, is not modelled: a `Struct` holds a sequence of strings, and the pool's behaviour in that case is not visible.
- Concurrency is not modelled: the pool is used by one encoder at a time.
- Writing ids and field lists to bytes, and the matching decoder, are not part of this model. `SlotTable.DecodeId` only states that ids can be told apart.
- `XTypeFactory` (reflection-based type resolution) is not part of this model, because it is a thin layer over a reflection library that is not visible.
- `Codec` is not part of this model: its methods only throw or delegate to code that is not visible.
- The `TestBenchmark` timing benchmark is not part of this model, because it holds no logic to verify.
