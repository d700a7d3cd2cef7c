/** `OutputMetaPool`: the pair of struct-signature tables an encoder keeps per
    stream (a context scope that survives `reset()` up to a capacity, and a
    transient scope wiped at every `reset()`) plus the coarse clock that
    stamps each registration. */
module MetaPool {
  import opened Base
  import opened Signature
  import opened SlotTable

  class OutputMetaPool {
    /** How many context signatures survive a reset. */
    const capacity: nat
    /** The coarse clock's current tick. */
    var clock: nat
    /** The context scope (`cxtStructIndex` and its rank allocator). */
    var cxt: Table
    /** The transient scope (`tmpStructIndex` and its rank allocator). */
    var tmp: Table

    ghost predicate Valid()
      reads this
    {
      && capacity >= 1
      && SlotTable.Valid(cxt)
      && SlotTable.Valid(tmp)
      && tmp.free == []
    }

    constructor (capacity: nat)
      requires capacity >= 1
      ensures Valid()
      ensures this.capacity == capacity && clock == 0
      ensures cxt == Empty() && tmp == Empty()
    {
      this.capacity := capacity;
      clock := 0;
      cxt := Empty();
      tmp := Empty();
    }

    /** `new OutputMetaPool(limit)`: a non-positive capacity is refused. */
    static method Create(limit: int) returns (r: Result<OutputMetaPool>)
      ensures limit <= 0 ==> r == Failure(IllegalArgumentException)
      ensures limit > 0 ==>
        && r.Success? && fresh(r.value) && r.value.Valid()
        && r.value.capacity == limit && r.value.clock == 0
        && r.value.cxt == Empty() && r.value.tmp == Empty()
    {
      if limit <= 0 {
        return Failure(IllegalArgumentException);
      }
      var pool := new OutputMetaPool(limit);
      r := Success(pool);
    }

    /** The coarse clock moves on by one interval. */
    method Tick()
      modifies this`clock
      ensures clock == old(clock) + 1
    {
      clock := clock + 1;
    }

    /** `registerCxtStruct(names...)`: a null array throws and changes nothing;
        otherwise the context table registers the signature at the current
        tick and its id (odd, or 0 for no names) is returned. */
    method RegisterCxtStruct(names: Option<seq<string>>) returns (r: Result<nat>)
      requires Valid()
      modifies this`cxt
      ensures Valid()
      ensures names.None? ==> r == Failure(NullPointerException) && cxt == old(cxt)
      ensures names.Some? ==>
        && cxt == Register(old(cxt), Struct(names.value), Context, clock).0
        && r == Success(Register(old(cxt), Struct(names.value), Context, clock).1)
    {
      match NewStruct(names)
      case Failure(e) =>
        r := Failure(e);
      case Success(s) =>
        RegisterKeepsValid(cxt, s, Context, clock);
        var (t, id) := Register(cxt, s, Context, clock);
        cxt := t;
        r := Success(id);
    }

    /** `registerTmpStruct(names...)`: as RegisterCxtStruct, on the transient
        table, with even ids. */
    method RegisterTmpStruct(names: Option<seq<string>>) returns (r: Result<nat>)
      requires Valid()
      modifies this`tmp
      ensures Valid()
      ensures names.None? ==> r == Failure(NullPointerException) && tmp == old(tmp)
      ensures names.Some? ==>
        && tmp == Register(old(tmp), Struct(names.value), Transient, clock).0
        && r == Success(Register(old(tmp), Struct(names.value), Transient, clock).1)
    {
      match NewStruct(names)
      case Failure(e) =>
        r := Failure(e);
      case Success(s) =>
        RegisterKeepsValid(tmp, s, Transient, clock);
        var (t, id) := Register(tmp, s, Transient, clock);
        tmp := t;
        r := Success(id);
    }

    /** `reset()`: evicts least recently used context signatures down to the
        capacity, then empties the transient table and restarts its ranks. */
    method Reset()
      requires Valid()
      modifies this`cxt, this`tmp
      ensures Valid()
      ensures cxt == Evict(old(cxt), capacity)
      ensures tmp == Empty()
    {
      while |cxt.index| > capacity
        invariant SlotTable.Valid(cxt)
        invariant Evict(cxt, capacity) == Evict(old(cxt), capacity)
        decreases |cxt.index|
      {
        var v := FindOldest(cxt.index);
        EvictStep(cxt, capacity, v);
        cxt := Release(cxt, v);
      }
      tmp := Empty();
    }
  }
}
