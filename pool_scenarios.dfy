/** The pool's test scenarios, replayed against the model. The first drives an
    OutputMetaPool object as client code; the others state, call by call, the
    ids that the slot-table functions give, which are the ids the pool's
    methods return, since each method is proved to apply exactly these
    functions (Register at the current tick, and Evict then Empty at a reset). */
module PoolScenarios {
  import opened Base
  import opened Signature
  import opened SlotTable
  import opened MetaPool

  /** A null name array throws in both scopes and changes nothing, no names
      give the shared id 0, and the first two context signatures get ids 3
      and 5. */
  method NullAndEmptyScenario() returns (ids: seq<Result<nat>>)
    ensures ids == [
      Failure(NullPointerException), Failure(NullPointerException),
      Success(0), Success(0), Success(3), Success(5)]
  {
    var created := OutputMetaPool.Create(16);
    var pool := created.value;
    var r0 := pool.RegisterTmpStruct(None);
    var r1 := pool.RegisterCxtStruct(None);
    var r2 := pool.RegisterCxtStruct(Some([]));
    var r3 := pool.RegisterTmpStruct(Some([]));
    assert pool.cxt == Empty();
    var r4 := pool.RegisterCxtStruct(Some(["id1", "name"]));
    assert r4 == Success(3);
    var r5 := pool.RegisterCxtStruct(Some(["id.2", "name"]));
    assert r5 == Success(5);
    ids := [r0, r1, r2, r3, r4, r5];
  }

  /** Fresh context signatures count up from rank 1 in odd ids, a repeat
      returns the existing id and adds no entry. */
  lemma BasicContextScenario()
    ensures
      var (c1, i1) := Register(Empty(), Struct(["id1", "name"]), Context, 0);
      var (c2, i2) := Register(c1, Struct(["id.2", "name"]), Context, 0);
      var (c3, i3) := Register(c2, Struct(["id.3", "name"]), Context, 0);
      var (c4, i4) := Register(c3, Struct(["id.4", "name"]), Context, 0);
      var (c5, i5) := Register(c4, Struct(["id.5", "name"]), Context, 0);
      var (c6, i6) := Register(c5, Struct(["id1", "name"]), Context, 0);
      var (c7, i7) := Register(c6, Struct(["id1", "name"]), Context, 0);
      var (c8, i8) := Register(c7, Struct(["id.5", "name"]), Context, 0);
      && [i1, i2, i3, i4, i5, i6, i7, i8] == [3, 5, 7, 9, 11, 3, 3, 11]
      && |c6.index| == 5
      && c8 == BasicContext()
  {
    BasicContextFresh();
    BasicContextRepeat();
  }

  /** Five distinct signatures take ranks 1 to 5. */
  lemma BasicContextFresh()
    ensures
      var (c1, i1) := Register(Empty(), Struct(["id1", "name"]), Context, 0);
      var (c2, i2) := Register(c1, Struct(["id.2", "name"]), Context, 0);
      var (c3, i3) := Register(c2, Struct(["id.3", "name"]), Context, 0);
      var (c4, i4) := Register(c3, Struct(["id.4", "name"]), Context, 0);
      var (c5, i5) := Register(c4, Struct(["id.5", "name"]), Context, 0);
      && [i1, i2, i3, i4, i5] == [3, 5, 7, 9, 11]
      && c5 == BasicContext()
  {
  }

  /** Repeating resident signatures at the same tick changes nothing. */
  lemma BasicContextRepeat()
    ensures
      var (c6, i6) := Register(BasicContext(), Struct(["id1", "name"]), Context, 0);
      var (c7, i7) := Register(c6, Struct(["id1", "name"]), Context, 0);
      var (c8, i8) := Register(c7, Struct(["id.5", "name"]), Context, 0);
      && [i6, i7, i8] == [3, 3, 11]
      && c6 == BasicContext() && c7 == BasicContext() && c8 == BasicContext()
      && |BasicContext().index| == 5
  {
    assert |BasicContext().index| == 5;
  }

  /** The context table the basic scenario leaves behind. */
  function BasicContext(): Table {
    Table(map[
      Struct(["id1", "name"]) := Entry(1, 0), Struct(["id.2", "name"]) := Entry(2, 0),
      Struct(["id.3", "name"]) := Entry(3, 0), Struct(["id.4", "name"]) := Entry(4, 0),
      Struct(["id.5", "name"]) := Entry(5, 0)], [], 6)
  }

  /** Fresh transient signatures count up from rank 1 in even ids, a repeat
      returns the existing id. */
  lemma BasicTransientScenario()
    ensures
      var (t1, j1) := Register(Empty(), Struct(["id1", "name", "desc"]), Transient, 0);
      var (t2, j2) := Register(t1, Struct(["id2", "name", "desc"]), Transient, 0);
      var (t3, j3) := Register(t2, Struct(["id3", "name", "desc"]), Transient, 0);
      var (t4, j4) := Register(t3, Struct(["id4", "name", "desc"]), Transient, 0);
      var (t5, j5) := Register(t4, Struct(["id5", "name", "desc"]), Transient, 0);
      var (t6, j6) := Register(t5, Struct(["id6", "name", "desc"]), Transient, 0);
      var (t7, j7) := Register(t6, Struct(["id1", "name", "desc"]), Transient, 0);
      && [j1, j2, j3, j4, j5, j6, j7] == [2, 4, 6, 8, 10, 12, 2]
      && |t7.index| == 6
  {
    BasicTransientFirstHalf();
    BasicTransientSecondHalf();
  }

  lemma BasicTransientFirstHalf()
    ensures
      var (t1, j1) := Register(Empty(), Struct(["id1", "name", "desc"]), Transient, 0);
      var (t2, j2) := Register(t1, Struct(["id2", "name", "desc"]), Transient, 0);
      var (t3, j3) := Register(t2, Struct(["id3", "name", "desc"]), Transient, 0);
      && [j1, j2, j3] == [2, 4, 6]
      && t3 == BasicTransientHalf()
  {
  }

  lemma BasicTransientSecondHalf()
    ensures
      var (t4, j4) := Register(BasicTransientHalf(), Struct(["id4", "name", "desc"]), Transient, 0);
      var (t5, j5) := Register(t4, Struct(["id5", "name", "desc"]), Transient, 0);
      var (t6, j6) := Register(t5, Struct(["id6", "name", "desc"]), Transient, 0);
      var (t7, j7) := Register(t6, Struct(["id1", "name", "desc"]), Transient, 0);
      && [j4, j5, j6, j7] == [8, 10, 12, 2]
      && |t7.index| == 6
  {
    var t6 := Table(map[
      Struct(["id1", "name", "desc"]) := Entry(1, 0), Struct(["id2", "name", "desc"]) := Entry(2, 0),
      Struct(["id3", "name", "desc"]) := Entry(3, 0), Struct(["id4", "name", "desc"]) := Entry(4, 0),
      Struct(["id5", "name", "desc"]) := Entry(5, 0), Struct(["id6", "name", "desc"]) := Entry(6, 0)], [], 7);
    assert Register(Register(Register(BasicTransientHalf(), Struct(["id4", "name", "desc"]), Transient, 0).0,
      Struct(["id5", "name", "desc"]), Transient, 0).0, Struct(["id6", "name", "desc"]), Transient, 0).0 == t6;
    assert |t6.index| == 6;
  }

  /** The transient table after the first three registrations. */
  function BasicTransientHalf(): Table {
    Table(map[
      Struct(["id1", "name", "desc"]) := Entry(1, 0), Struct(["id2", "name", "desc"]) := Entry(2, 0),
      Struct(["id3", "name", "desc"]) := Entry(3, 0)], [], 4)
  }

  /** A reset with five context signatures and capacity 16 evicts nothing, so
      "id.5" keeps id 11; the transient table is emptied, so the next
      transient signature gets id 2. */
  lemma BasicResetScenario()
    ensures Evict(BasicContext(), 16) == BasicContext()
    ensures Register(Evict(BasicContext(), 16), Struct(["id.5", "name"]), Context, 0).1 == 11
    ensures Register(Empty(), Struct(["id6", "name", "desc"]), Transient, 0).1 == 2
  {
    assert |BasicContext().index| == 5;
  }

  /** A two-field signature of the expiry scenario. */
  function Sig(id: string): Struct {
    Struct([id, "name"])
  }

  /** Eleven registrations one clock tick apart (ticks 1 to 11): ten fresh
      signatures get ranks 1 to 10, and "id1" is touched again at tick 6. */
  lemma ExpireFillScenario()
    ensures
      var (c1, i1) := Register(Empty(), Sig("id1"), Context, 1);
      var (c2, i2) := Register(c1, Sig("id2"), Context, 2);
      var (c3, i3) := Register(c2, Sig("id3"), Context, 3);
      var (c4, i4) := Register(c3, Sig("id4"), Context, 4);
      var (c5, i5) := Register(c4, Sig("id5"), Context, 5);
      var (c6, i6) := Register(c5, Sig("id1"), Context, 6);
      var (c7, i7) := Register(c6, Sig("id6"), Context, 7);
      var (c8, i8) := Register(c7, Sig("id7"), Context, 8);
      var (c9, i9) := Register(c8, Sig("id8"), Context, 9);
      var (c10, i10) := Register(c9, Sig("id9"), Context, 10);
      var (c11, i11) := Register(c10, Sig("id0"), Context, 11);
      && [i1, i2, i3, i4, i5, i6, i7, i8, i9, i10, i11] == [3, 5, 7, 9, 11, 3, 13, 15, 17, 19, 21]
      && c11 == ExpireFilled()
  {
    ExpireFillFirstHalf();
    ExpireFillSecondHalf();
  }

  /** Ticks 1 to 6: five fresh signatures, then "id1" is touched again and
      keeps its rank. */
  lemma ExpireFillFirstHalf()
    ensures
      var (c1, i1) := Register(Empty(), Sig("id1"), Context, 1);
      var (c2, i2) := Register(c1, Sig("id2"), Context, 2);
      var (c3, i3) := Register(c2, Sig("id3"), Context, 3);
      var (c4, i4) := Register(c3, Sig("id4"), Context, 4);
      var (c5, i5) := Register(c4, Sig("id5"), Context, 5);
      var (c6, i6) := Register(c5, Sig("id1"), Context, 6);
      && [i1, i2, i3, i4, i5, i6] == [3, 5, 7, 9, 11, 3]
      && c6 == ExpireHalfFilled()
  {
    var c5 := Register(Register(Register(Register(Register(Empty(),
      Sig("id1"), Context, 1).0, Sig("id2"), Context, 2).0, Sig("id3"), Context, 3).0,
      Sig("id4"), Context, 4).0, Sig("id5"), Context, 5).0;
    assert c5 == Table(map[
      Sig("id1") := Entry(1, 1), Sig("id2") := Entry(2, 2), Sig("id3") := Entry(3, 3),
      Sig("id4") := Entry(4, 4), Sig("id5") := Entry(5, 5)], [], 6);
  }

  /** Ticks 7 to 11: five more fresh signatures take ranks 6 to 10. */
  lemma ExpireFillSecondHalf()
    ensures
      var (c7, i7) := Register(ExpireHalfFilled(), Sig("id6"), Context, 7);
      var (c8, i8) := Register(c7, Sig("id7"), Context, 8);
      var (c9, i9) := Register(c8, Sig("id8"), Context, 9);
      var (c10, i10) := Register(c9, Sig("id9"), Context, 10);
      var (c11, i11) := Register(c10, Sig("id0"), Context, 11);
      && [i7, i8, i9, i10, i11] == [13, 15, 17, 19, 21]
      && c11 == ExpireFilled()
  {
  }

  function ExpireHalfFilled(): Table {
    Table(map[
      Sig("id1") := Entry(1, 6), Sig("id2") := Entry(2, 2), Sig("id3") := Entry(3, 3),
      Sig("id4") := Entry(4, 4), Sig("id5") := Entry(5, 5)], [], 6)
  }

  function ExpireFilled(): Table {
    Table(map[
      Sig("id1") := Entry(1, 6), Sig("id2") := Entry(2, 2), Sig("id3") := Entry(3, 3),
      Sig("id4") := Entry(4, 4), Sig("id5") := Entry(5, 5), Sig("id6") := Entry(6, 7),
      Sig("id7") := Entry(7, 8), Sig("id8") := Entry(8, 9), Sig("id9") := Entry(9, 10),
      Sig("id0") := Entry(10, 11)], [], 11)
  }

  /** The first reset with capacity 8 evicts the two least recently touched
      signatures, "id2" (tick 2) and "id3" (tick 3), and frees their ranks 2
      and 3. */
  lemma ExpireFirstResetScenario()
    ensures Evict(ExpireFilled(), 8) == ExpireAfterFirstReset()
    ensures |ExpireAfterFirstReset().index| == 8
  {
    FirstResetEvicts();
    FirstResetDone();
  }

  lemma FirstResetEvicts()
    ensures Evict(ExpireFilled(), 8) == Evict(ExpireAfterFirstReset(), 8)
  {
    FirstResetVictim1();
    FirstResetRelease1();
    FirstResetVictim2();
    FirstResetRelease2();
  }

  /** Eight signatures remain, so eviction stops. */
  lemma FirstResetDone()
    ensures |ExpireAfterFirstReset().index| == 8
    ensures Evict(ExpireAfterFirstReset(), 8) == ExpireAfterFirstReset()
  {
    assert |ExpireAfterFirstReset().index| == 8;
  }

  /** "id2" (tick 2) is the oldest of the 10 resident signatures and
      holds rank 2 alone, so it is evicted first. */
  lemma FirstResetVictim1()
    ensures Evict(ExpireFilled(), 8) == Evict(Release(ExpireFilled(), Sig("id2")), 8)
  {
    FirstResetSize1();
    FirstResetOldest1();
    EvictOldest(ExpireFilled(), 8, Sig("id2"));
  }

  lemma FirstResetSize1()
    ensures |ExpireFilled().index| == 10
  {
    assert |ExpireFilled().index| == 10;
  }

  lemma FirstResetOldest1()
    ensures IsOldest(ExpireFilled().index, Sig("id2"))
    ensures HoldsRankAlone(ExpireFilled().index, Sig("id2"))
  {
  }

  /** Releasing "id2" frees rank 2. */
  lemma FirstResetRelease1()
    ensures Release(ExpireFilled(), Sig("id2")) == ExpireFilledWithoutId2()
  {
    var t := ExpireFilled();
    assert t.index[Sig("id2")].rank == 2;
    assert t.index - {Sig("id2")} == ExpireFilledWithoutId2().index;
  }

  function ExpireFilledWithoutId2(): Table {
    Table(map[
      Sig("id1") := Entry(1, 6), Sig("id3") := Entry(3, 3), Sig("id4") := Entry(4, 4),
      Sig("id5") := Entry(5, 5), Sig("id6") := Entry(6, 7), Sig("id7") := Entry(7, 8),
      Sig("id8") := Entry(8, 9), Sig("id9") := Entry(9, 10), Sig("id0") := Entry(10, 11)], [2], 11)
  }

  /** "id3" (tick 3) is the oldest of the 9 resident signatures and
      holds rank 3 alone, so it is evicted next. */
  lemma FirstResetVictim2()
    ensures Evict(ExpireFilledWithoutId2(), 8) == Evict(Release(ExpireFilledWithoutId2(), Sig("id3")), 8)
  {
    FirstResetSize2();
    FirstResetOldest2();
    EvictOldest(ExpireFilledWithoutId2(), 8, Sig("id3"));
  }

  lemma FirstResetSize2()
    ensures |ExpireFilledWithoutId2().index| == 9
  {
    assert |ExpireFilledWithoutId2().index| == 9;
  }

  lemma FirstResetOldest2()
    ensures IsOldest(ExpireFilledWithoutId2().index, Sig("id3"))
    ensures HoldsRankAlone(ExpireFilledWithoutId2().index, Sig("id3"))
  {
  }

  /** Releasing "id3" frees rank 3. */
  lemma FirstResetRelease2()
    ensures Release(ExpireFilledWithoutId2(), Sig("id3")) == ExpireAfterFirstReset()
  {
    var t := ExpireFilledWithoutId2();
    assert t.index[Sig("id3")].rank == 3;
    assert t.index - {Sig("id3")} == ExpireAfterFirstReset().index;
  }

  /** The context table after the first reset. */
  function ExpireAfterFirstReset(): Table {
    Table(map[
      Sig("id1") := Entry(1, 6), Sig("id4") := Entry(4, 4), Sig("id5") := Entry(5, 5),
      Sig("id6") := Entry(6, 7), Sig("id7") := Entry(7, 8), Sig("id8") := Entry(8, 9),
      Sig("id9") := Entry(9, 10), Sig("id0") := Entry(10, 11)], [2, 3], 11)
  }

  /** After the first reset the evicted "id3" and "id2" come back with the
      freed ranks 2 and 3, smallest first; resident "id5" keeps id 11; once the
      free list is empty new signatures continue from rank 11. */
  lemma ExpireRefillScenario()
    ensures
      var (c1, i1) := Register(ExpireAfterFirstReset(), Sig("id3"), Context, 12);
      var (c2, i2) := Register(c1, Sig("id2"), Context, 12);
      var (c3, i3) := Register(c2, Sig("id5"), Context, 12);
      var (c4, i4) := Register(c3, Sig("id10"), Context, 13);
      var (c5, i5) := Register(c4, Sig("id11"), Context, 14);
      && [i1, i2, i3, i4, i5] == [5, 7, 11, 23, 25]
      && c5 == ExpireRefilled()
  {
    ExpireRefillFromFree();
    ExpireRefillFromNext();
  }

  /** Tick 12: "id3" and "id2" take the freed ranks 2 and 3, and "id5" is
      touched again. */
  lemma ExpireRefillFromFree()
    ensures
      var (c1, i1) := Register(ExpireAfterFirstReset(), Sig("id3"), Context, 12);
      var (c2, i2) := Register(c1, Sig("id2"), Context, 12);
      var (c3, i3) := Register(c2, Sig("id5"), Context, 12);
      && [i1, i2, i3] == [5, 7, 11]
      && c3 == ExpireRefilledFromFree()
  {
  }

  /** Ticks 13 and 14: with the free list empty, "id10" and "id11" take the
      new ranks 11 and 12. */
  lemma ExpireRefillFromNext()
    ensures
      var (c4, i4) := Register(ExpireRefilledFromFree(), Sig("id10"), Context, 13);
      var (c5, i5) := Register(c4, Sig("id11"), Context, 14);
      && [i4, i5] == [23, 25]
      && c5 == ExpireRefilled()
  {
  }

  function ExpireRefilledFromFree(): Table {
    Table(map[
      Sig("id1") := Entry(1, 6), Sig("id4") := Entry(4, 4), Sig("id5") := Entry(5, 12),
      Sig("id6") := Entry(6, 7), Sig("id7") := Entry(7, 8), Sig("id8") := Entry(8, 9),
      Sig("id9") := Entry(9, 10), Sig("id0") := Entry(10, 11), Sig("id3") := Entry(2, 12),
      Sig("id2") := Entry(3, 12)], [], 11)
  }

  function ExpireRefilled(): Table {
    Table(map[
      Sig("id1") := Entry(1, 6), Sig("id4") := Entry(4, 4), Sig("id5") := Entry(5, 12),
      Sig("id6") := Entry(6, 7), Sig("id7") := Entry(7, 8), Sig("id8") := Entry(8, 9),
      Sig("id9") := Entry(9, 10), Sig("id0") := Entry(10, 11), Sig("id3") := Entry(2, 12),
      Sig("id2") := Entry(3, 12), Sig("id10") := Entry(11, 13), Sig("id11") := Entry(12, 14)], [], 13)
  }

  /** The second reset evicts "id4", "id1", "id6" and "id7" (ticks 4, 6, 7
      and 8), freeing ranks 1, 4, 6 and 7; "id4" then gets rank 1 and "id1"
      rank 4, not their old ranks. */
  lemma ExpireSecondResetScenario()
    ensures
      var c := Evict(ExpireRefilled(), 8);
      var (c1, i1) := Register(c, Sig("id4"), Context, 15);
      var (_, i2) := Register(c1, Sig("id1"), Context, 15);
      && c == ExpireAfterSecondReset()
      && |c.index| == 8
      && c.free == [1, 4, 6, 7]
      && [i1, i2] == [3, 9]
  {
    SecondResetEvicts();
    SecondResetDone();
    SecondResetRefill();
  }

  lemma SecondResetEvicts()
    ensures Evict(ExpireRefilled(), 8) == Evict(ExpireAfterSecondReset(), 8)
  {
    SecondResetVictim1();
    SecondResetRelease1();
    SecondResetVictim2();
    SecondResetRelease2();
    SecondResetVictim3();
    SecondResetRelease3();
    SecondResetVictim4();
    SecondResetRelease4();
  }

  /** Eight signatures remain, so eviction stops. */
  lemma SecondResetDone()
    ensures |ExpireAfterSecondReset().index| == 8
    ensures Evict(ExpireAfterSecondReset(), 8) == ExpireAfterSecondReset()
  {
    assert |ExpireAfterSecondReset().index| == 8;
  }

  /** "id4" and "id1" come back with the two smallest freed ranks. */
  lemma SecondResetRefill()
    ensures
      var (c1, i1) := Register(ExpireAfterSecondReset(), Sig("id4"), Context, 15);
      var (_, i2) := Register(c1, Sig("id1"), Context, 15);
      [i1, i2] == [3, 9]
  {
  }

  /** "id4" (tick 4) is the oldest of the 12 resident signatures and
      holds rank 4 alone, so it is evicted first. */
  lemma SecondResetVictim1()
    ensures Evict(ExpireRefilled(), 8) == Evict(Release(ExpireRefilled(), Sig("id4")), 8)
  {
    SecondResetSize1();
    SecondResetOldest1();
    EvictOldest(ExpireRefilled(), 8, Sig("id4"));
  }

  lemma SecondResetSize1()
    ensures |ExpireRefilled().index| == 12
  {
    assert |ExpireRefilled().index| == 12;
  }

  lemma SecondResetOldest1()
    ensures IsOldest(ExpireRefilled().index, Sig("id4"))
    ensures HoldsRankAlone(ExpireRefilled().index, Sig("id4"))
  {
  }

  /** Releasing "id4" frees rank 4. */
  lemma SecondResetRelease1()
    ensures Release(ExpireRefilled(), Sig("id4")) == ExpireRefilledWithoutId4()
  {
    var t := ExpireRefilled();
    assert t.index[Sig("id4")].rank == 4;
    assert t.index - {Sig("id4")} == ExpireRefilledWithoutId4().index;
  }

  function ExpireRefilledWithoutId4(): Table {
    Table(map[
      Sig("id1") := Entry(1, 6), Sig("id5") := Entry(5, 12), Sig("id6") := Entry(6, 7),
      Sig("id7") := Entry(7, 8), Sig("id8") := Entry(8, 9), Sig("id9") := Entry(9, 10),
      Sig("id0") := Entry(10, 11), Sig("id3") := Entry(2, 12), Sig("id2") := Entry(3, 12),
      Sig("id10") := Entry(11, 13), Sig("id11") := Entry(12, 14)], [4], 13)
  }

  /** "id1" (tick 6) is the oldest of the 11 resident signatures and
      holds rank 1 alone, so it is evicted next. */
  lemma SecondResetVictim2()
    ensures Evict(ExpireRefilledWithoutId4(), 8) == Evict(Release(ExpireRefilledWithoutId4(), Sig("id1")), 8)
  {
    SecondResetSize2();
    SecondResetOldest2();
    EvictOldest(ExpireRefilledWithoutId4(), 8, Sig("id1"));
  }

  lemma SecondResetSize2()
    ensures |ExpireRefilledWithoutId4().index| == 11
  {
    assert |ExpireRefilledWithoutId4().index| == 11;
  }

  lemma SecondResetOldest2()
    ensures IsOldest(ExpireRefilledWithoutId4().index, Sig("id1"))
    ensures HoldsRankAlone(ExpireRefilledWithoutId4().index, Sig("id1"))
  {
  }

  /** Releasing "id1" frees rank 1. */
  lemma SecondResetRelease2()
    ensures Release(ExpireRefilledWithoutId4(), Sig("id1")) == ExpireRefilledWithoutId4Id1()
  {
    var t := ExpireRefilledWithoutId4();
    assert t.index[Sig("id1")].rank == 1;
    assert t.index - {Sig("id1")} == ExpireRefilledWithoutId4Id1().index;
  }

  function ExpireRefilledWithoutId4Id1(): Table {
    Table(map[
      Sig("id5") := Entry(5, 12), Sig("id6") := Entry(6, 7), Sig("id7") := Entry(7, 8),
      Sig("id8") := Entry(8, 9), Sig("id9") := Entry(9, 10), Sig("id0") := Entry(10, 11),
      Sig("id3") := Entry(2, 12), Sig("id2") := Entry(3, 12), Sig("id10") := Entry(11, 13),
      Sig("id11") := Entry(12, 14)], [1, 4], 13)
  }

  /** "id6" (tick 7) is the oldest of the 10 resident signatures and
      holds rank 6 alone, so it is evicted next. */
  lemma SecondResetVictim3()
    ensures Evict(ExpireRefilledWithoutId4Id1(), 8) == Evict(Release(ExpireRefilledWithoutId4Id1(), Sig("id6")), 8)
  {
    SecondResetSize3();
    SecondResetOldest3();
    EvictOldest(ExpireRefilledWithoutId4Id1(), 8, Sig("id6"));
  }

  lemma SecondResetSize3()
    ensures |ExpireRefilledWithoutId4Id1().index| == 10
  {
    assert |ExpireRefilledWithoutId4Id1().index| == 10;
  }

  lemma SecondResetOldest3()
    ensures IsOldest(ExpireRefilledWithoutId4Id1().index, Sig("id6"))
    ensures HoldsRankAlone(ExpireRefilledWithoutId4Id1().index, Sig("id6"))
  {
  }

  /** Releasing "id6" frees rank 6. */
  lemma SecondResetRelease3()
    ensures Release(ExpireRefilledWithoutId4Id1(), Sig("id6")) == ExpireRefilledWithoutId4Id1Id6()
  {
    var t := ExpireRefilledWithoutId4Id1();
    assert t.index[Sig("id6")].rank == 6;
    assert t.index - {Sig("id6")} == ExpireRefilledWithoutId4Id1Id6().index;
  }

  function ExpireRefilledWithoutId4Id1Id6(): Table {
    Table(map[
      Sig("id5") := Entry(5, 12), Sig("id7") := Entry(7, 8), Sig("id8") := Entry(8, 9),
      Sig("id9") := Entry(9, 10), Sig("id0") := Entry(10, 11), Sig("id3") := Entry(2, 12),
      Sig("id2") := Entry(3, 12), Sig("id10") := Entry(11, 13), Sig("id11") := Entry(12, 14)], [1, 4, 6], 13)
  }

  /** "id7" (tick 8) is the oldest of the 9 resident signatures and
      holds rank 7 alone, so it is evicted next. */
  lemma SecondResetVictim4()
    ensures Evict(ExpireRefilledWithoutId4Id1Id6(), 8) == Evict(Release(ExpireRefilledWithoutId4Id1Id6(), Sig("id7")), 8)
  {
    SecondResetSize4();
    SecondResetOldest4();
    EvictOldest(ExpireRefilledWithoutId4Id1Id6(), 8, Sig("id7"));
  }

  lemma SecondResetSize4()
    ensures |ExpireRefilledWithoutId4Id1Id6().index| == 9
  {
    assert |ExpireRefilledWithoutId4Id1Id6().index| == 9;
  }

  lemma SecondResetOldest4()
    ensures IsOldest(ExpireRefilledWithoutId4Id1Id6().index, Sig("id7"))
    ensures HoldsRankAlone(ExpireRefilledWithoutId4Id1Id6().index, Sig("id7"))
  {
  }

  /** Releasing "id7" frees rank 7. */
  lemma SecondResetRelease4()
    ensures Release(ExpireRefilledWithoutId4Id1Id6(), Sig("id7")) == ExpireAfterSecondReset()
  {
    var t := ExpireRefilledWithoutId4Id1Id6();
    assert t.index[Sig("id7")].rank == 7;
    assert t.index - {Sig("id7")} == ExpireAfterSecondReset().index;
  }

  /** The context table after the second reset. */
  function ExpireAfterSecondReset(): Table {
    Table(map[
      Sig("id5") := Entry(5, 12), Sig("id8") := Entry(8, 9), Sig("id9") := Entry(9, 10),
      Sig("id0") := Entry(10, 11), Sig("id3") := Entry(2, 12), Sig("id2") := Entry(3, 12),
      Sig("id10") := Entry(11, 13), Sig("id11") := Entry(12, 14)], [1, 4, 6, 7], 13)
  }
}
