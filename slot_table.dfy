/** The per-scope table of the output meta pool: a content-addressed map from
    struct signatures to ranks, a free list of reclaimed ranks, and the
    least-recently-used eviction that reclaims them. Everything here is a
    value; the pool that owns two of these tables is in module MetaPool. */
module SlotTable {
  import opened Signature

  /** Context-scope ids are odd, transient-scope ids are even. */
  datatype Scope = Context | Transient

  /** A resident signature's rank and the coarse-clock tick of its last
      registration. */
  datatype Entry = Entry(rank: nat, tick: nat)

  /** `index` holds the resident signatures, `free` the reclaimed ranks in
      increasing order, `next` the smallest rank never handed out. */
  datatype Table = Table(index: map<Struct, Entry>, free: seq<nat>, next: nat)

  /** The external id of a rank: `rank*2+1` in the context scope, `rank*2` in
      the transient scope. */
  function Id(scope: Scope, rank: nat): (id: nat)
    ensures id / 2 == rank
    ensures id % 2 == 1 <==> scope == Context
  {
    rank * 2 + (if scope == Context then 1 else 0)
  }

  /** What a decoder reads back from an id. */
  datatype Decoded = EmptyStruct | Slot(scope: Scope, rank: nat)

  function DecodeId(id: nat): Decoded {
    if id == 0 then EmptyStruct
    else Slot(if id % 2 == 1 then Context else Transient, id / 2)
  }

  /** An allocated rank's id never collides with the empty-signature id 0, and
      parity alone gives back the scope and the rank. */
  lemma DecodeOfId(scope: Scope, rank: nat)
    requires rank >= 1
    ensures Id(scope, rank) != 0
    ensures DecodeId(Id(scope, rank)) == Slot(scope, rank)
  {
  }

  /** The table of a fresh scope, and of the transient scope after a reset. */
  function Empty(): (t: Table)
    ensures Valid(t) && t.index == map[] && t.next == 1
  {
    Table(map[], [], 1)
  }

  predicate StrictlySorted(s: seq<nat>) {
    forall i, j :: 0 <= i < j < |s| ==> s[i] < s[j]
  }

  function Ranks(m: map<Struct, Entry>): set<nat> {
    set k | k in m :: m[k].rank
  }

  predicate RanksInjective(m: map<Struct, Entry>) {
    forall k, k' :: k in m && k' in m && m[k].rank == m[k'].rank ==> k == k'
  }

  /** The table invariant: the empty signature is never resident, resident
      ranks are distinct and below `next`, the free list is sorted and holds
      no resident rank, and every rank below `next` is resident or free. */
  ghost predicate Valid(t: Table) {
    && t.next >= 1
    && (forall k :: k in t.index ==> k.names != [] && 1 <= t.index[k].rank < t.next)
    && RanksInjective(t.index)
    && StrictlySorted(t.free)
    && (forall i :: 0 <= i < |t.free| ==> 1 <= t.free[i] < t.next && t.free[i] !in Ranks(t.index))
    && (forall r :: 1 <= r < t.next ==> r in t.free || r in Ranks(t.index))
  }

  /** Registration of one signature at tick `now`: the new table and the id. */
  function Register(t: Table, s: Struct, scope: Scope, now: nat): (r: (Table, nat))
    ensures s.names == [] ==> r == (t, 0)
    ensures s.names != [] ==>
      && s in r.0.index
      && r.0.index[s].tick == now
      && r.1 == Id(scope, r.0.index[s].rank)
  {
    if s.names == [] then (t, 0)
    else if s in t.index then
      var rank := t.index[s].rank;
      (t.(index := t.index[s := Entry(rank, now)]), Id(scope, rank))
    else if t.free != [] then
      (Table(t.index[s := Entry(t.free[0], now)], t.free[1..], t.next), Id(scope, t.free[0]))
    else
      (Table(t.index[s := Entry(t.next, now)], [], t.next + 1), Id(scope, t.next))
  }

  /** Inserting a new key with a new rank adds exactly that rank. */
  lemma RanksOfInsert(m: map<Struct, Entry>, s: Struct, e: Entry)
    requires s !in m
    ensures Ranks(m[s := e]) == Ranks(m) + {e.rank}
  {
    var m' := m[s := e];
    forall q | q in Ranks(m') ensures q in Ranks(m) + {e.rank} {
      var k :| k in m' && m'[k].rank == q;
      if k != s { assert k in m && m[k].rank == q; }
    }
    forall q | q in Ranks(m) ensures q in Ranks(m') {
      var k :| k in m && m[k].rank == q;
      assert k in m' && m'[k].rank == q;
    }
    assert s in m' && m'[s].rank == e.rank;
  }

  /** Refreshing a resident key's tick leaves the ranks alone. */
  lemma RanksOfRefresh(m: map<Struct, Entry>, s: Struct, now: nat)
    requires s in m
    ensures Ranks(m[s := Entry(m[s].rank, now)]) == Ranks(m)
  {
    var m' := m[s := Entry(m[s].rank, now)];
    forall q | q in Ranks(m) ensures q in Ranks(m') {
      var k :| k in m && m[k].rank == q;
      assert k in m' && m'[k].rank == q;
    }
  }

  lemma RegisterFromFreeKeepsValid(t: Table, s: Struct, scope: Scope, now: nat)
    requires Valid(t) && s.names != [] && s !in t.index && t.free != []
    ensures Valid(Register(t, s, scope, now).0)
  {
    var t' := Register(t, s, scope, now).0;
    var r := t.free[0];
    RanksOfInsert(t.index, s, Entry(r, now));
    forall i | 0 <= i < |t'.free|
      ensures 1 <= t'.free[i] < t'.next && t'.free[i] !in Ranks(t'.index)
    {
      assert t'.free[i] == t.free[i + 1];
    }
    forall q | 1 <= q < t'.next
      ensures q in t'.free || q in Ranks(t'.index)
    {
      if q != r && q !in Ranks(t.index) {
        var i :| 0 <= i < |t.free| && t.free[i] == q;
        assert t'.free[i - 1] == q;
      }
    }
  }

  lemma RegisterFromNextKeepsValid(t: Table, s: Struct, scope: Scope, now: nat)
    requires Valid(t) && s.names != [] && s !in t.index && t.free == []
    ensures Valid(Register(t, s, scope, now).0)
  {
    RanksOfInsert(t.index, s, Entry(t.next, now));
  }

  lemma RegisterKeepsValid(t: Table, s: Struct, scope: Scope, now: nat)
    requires Valid(t)
    ensures Valid(Register(t, s, scope, now).0)
  {
    if s.names != [] {
      if s in t.index {
        RanksOfRefresh(t.index, s, now);
      } else if t.free != [] {
        RegisterFromFreeKeepsValid(t, s, scope, now);
      } else {
        RegisterFromNextKeepsValid(t, s, scope, now);
      }
    }
  }

  /** The empty signature always gets id 0 and leaves the table as it was. */
  lemma RegisterEmpty(t: Table, scope: Scope, now: nat)
    ensures Register(t, Struct([]), scope, now) == (t, 0)
  {
  }

  /** A signature that is not resident gets the smallest positive rank that is
      not resident, its id carries the scope in its parity, and the table
      grows by one entry. */
  lemma RegisterFresh(t: Table, s: Struct, scope: Scope, now: nat)
    requires Valid(t) && s.names != [] && s !in t.index
    ensures var (t', id) := Register(t, s, scope, now);
      && s in t'.index
      && id == Id(scope, t'.index[s].rank)
      && t'.index[s].tick == now
      && t'.index[s].rank >= 1
      && t'.index[s].rank !in Ranks(t.index)
      && (forall q :: 1 <= q < t'.index[s].rank ==> q in Ranks(t.index))
      && t'.index == t.index[s := t'.index[s]]
      && |t'.index| == |t.index| + 1
  {
    var (t', id) := Register(t, s, scope, now);
    var r := t'.index[s].rank;
    forall q | 1 <= q < r
      ensures q in Ranks(t.index)
    {
    }
  }

  /** A resident signature keeps its id and rank; only its tick moves. */
  lemma RegisterResident(t: Table, s: Struct, scope: Scope, now: nat)
    requires s.names != [] && s in t.index
    ensures var (t', id) := Register(t, s, scope, now);
      && id == Id(scope, t.index[s].rank)
      && t'.index == t.index[s := Entry(t.index[s].rank, now)]
      && |t'.index| == |t.index|
      && t'.free == t.free && t'.next == t.next
  {
  }

  /** Registering the same signature twice, at any two ticks, returns the same
      id and does not change the number of resident signatures. */
  lemma RegisterIdempotent(t: Table, s: Struct, scope: Scope, now: nat, later: nat)
    ensures var (t1, id1) := Register(t, s, scope, now);
      var (t2, id2) := Register(t1, s, scope, later);
      id2 == id1 && |t2.index| == |t1.index|
  {
    var (t1, id1) := Register(t, s, scope, now);
    if s.names != [] {
      RegisterResident(t1, s, scope, later);
    }
  }

  /** Sorted insertion into the free list. */
  function Insert(s: seq<nat>, x: nat): (r: seq<nat>)
    ensures |r| == |s| + 1
    ensures x in r
  {
    if s == [] || x < s[0] then [x] + s else [s[0]] + Insert(s[1..], x)
  }

  lemma {:induction false} InsertSpec(s: seq<nat>, x: nat)
    requires StrictlySorted(s) && x !in s
    ensures StrictlySorted(Insert(s, x))
    ensures forall y :: y in Insert(s, x) <==> y in s || y == x
  {
    if s != [] && x >= s[0] {
      var tail := s[1..];
      assert StrictlySorted(tail) by {
        forall i, j | 0 <= i < j < |tail| ensures tail[i] < tail[j] {
          assert tail[i] == s[i + 1] && tail[j] == s[j + 1];
        }
      }
      InsertSpec(tail, x);
      var r := Insert(s, x);
      assert r == [s[0]] + Insert(tail, x);
      forall i, j | 0 <= i < j < |r| ensures r[i] < r[j] {
        if i == 0 {
          assert r[j] in Insert(tail, x);
          if r[j] in tail {
            var m :| 0 <= m < |tail| && tail[m] == r[j];
            assert s[m + 1] == r[j];
          }
        }
      }
      forall y ensures y in r <==> y in s || y == x {
        assert y in s <==> y == s[0] || y in tail by {
          assert s == [s[0]] + tail;
        }
      }
    }
  }

  /** Drops a resident signature and returns its rank to the free list. */
  function Release(t: Table, k: Struct): (r: Table)
    requires k in t.index
    ensures |r.index| == |t.index| - 1
    ensures k !in r.index
    ensures forall k' :: k' in r.index <==> k' in t.index && k' != k
    ensures forall k' :: k' in r.index ==> r.index[k'] == t.index[k']
    ensures t.index[k].rank in r.free && r.next == t.next
  {
    Table(t.index - {k}, Insert(t.free, t.index[k].rank), t.next)
  }

  lemma ReleaseKeepsValid(t: Table, k: Struct)
    requires Valid(t) && k in t.index
    ensures Valid(Release(t, k))
  {
    var r := t.index[k].rank;
    var t' := Release(t, k);
    assert r !in t.free;
    InsertSpec(t.free, r);
    assert Ranks(t'.index) == Ranks(t.index) - {r} by {
      forall q | q in Ranks(t.index) && q != r ensures q in Ranks(t'.index) {
        var k' :| k' in t.index && t.index[k'].rank == q;
        assert k' in t'.index;
      }
    }
    forall i | 0 <= i < |t'.free|
      ensures 1 <= t'.free[i] < t'.next && t'.free[i] !in Ranks(t'.index)
    {
      assert t'.free[i] in Insert(t.free, r);
    }
  }

  /** `e` was registered no later than `f`; among equal ticks the smaller
      rank counts as older. */
  predicate NoNewer(e: Entry, f: Entry) {
    e.tick < f.tick || (e.tick == f.tick && e.rank <= f.rank)
  }

  ghost predicate IsOldest(m: map<Struct, Entry>, k: Struct) {
    k in m && forall k' :: k' in m ==> NoNewer(m[k], m[k'])
  }

  /** No other signature of `m` holds the rank of `k`. */
  ghost predicate HoldsRankAlone(m: map<Struct, Entry>, k: Struct)
    requires k in m
  {
    forall k' :: k' in m && m[k'].rank == m[k].rank ==> k' == k
  }

  lemma {:induction false} OldestExists(m: map<Struct, Entry>)
    requires |m| > 0
    ensures exists k :: IsOldest(m, k)
    decreases |m|
  {
    var k :| k in m;
    var rest := m - {k};
    if |rest| == 0 {
      assert rest.Keys == {};
      assert IsOldest(m, k);
    } else {
      OldestExists(rest);
      var o :| IsOldest(rest, o);
      var best := if NoNewer(m[k], m[o]) then k else o;
      forall k' | k' in m ensures NoNewer(m[best], m[k']) {
        if k' != k {
          assert k' in rest && rest[k'] == m[k'];
          assert NoNewer(m[o], m[k']);
        }
      }
      assert IsOldest(m, best);
    }
  }

  /** With distinct ranks there is exactly one oldest entry. */
  lemma OldestUnique(m: map<Struct, Entry>, a: Struct, b: Struct)
    requires RanksInjective(m) && IsOldest(m, a) && IsOldest(m, b)
    ensures a == b
  {
  }

  /** The entry that eviction removes next. */
  ghost function Victim(m: map<Struct, Entry>): (k: Struct)
    requires |m| > 0
    ensures IsOldest(m, k)
  {
    OldestExists(m);
    var k :| IsOldest(m, k);
    k
  }

  /** Context-scope eviction at a reset: least recently used first until at
      most `cap` signatures are resident. */
  ghost function Evict(t: Table, cap: nat): (r: Table)
    ensures r.next == t.next
    ensures |r.index| == if |t.index| <= cap then |t.index| else cap
    ensures forall k :: k in r.index ==> k in t.index && r.index[k] == t.index[k]
    decreases |t.index|
  {
    if |t.index| <= cap then t else Evict(Release(t, Victim(t.index)), cap)
  }

  /** When the oldest entry is known, and no other entry shares its rank,
      eviction removes it first. */
  lemma EvictOldest(t: Table, cap: nat, v: Struct)
    requires |t.index| > cap && IsOldest(t.index, v) && HoldsRankAlone(t.index, v)
    ensures Evict(t, cap) == Evict(Release(t, v), cap)
  {
    var w := Victim(t.index);
    assert NoNewer(t.index[w], t.index[v]) && NoNewer(t.index[v], t.index[w]);
  }

  /** One step of eviction on a valid table: releasing its oldest entry keeps
      the invariant and leaves the final eviction result unchanged. */
  lemma EvictStep(t: Table, cap: nat, v: Struct)
    requires Valid(t) && |t.index| > cap && IsOldest(t.index, v)
    ensures Valid(Release(t, v))
    ensures |Release(t, v).index| == |t.index| - 1
    ensures Evict(t, cap) == Evict(Release(t, v), cap)
  {
    assert HoldsRankAlone(t.index, v);
    EvictOldest(t, cap, v);
    ReleaseKeepsValid(t, v);
  }

  /** Eviction keeps the invariant and the rank counter, leaves exactly
      min(size, cap) signatures resident with their entries untouched, and
      every evicted signature is no newer than every survivor. */
  lemma {:induction false} EvictSpec(t: Table, cap: nat)
    requires Valid(t)
    ensures var e := Evict(t, cap);
      && Valid(e)
      && e.next == t.next
      && (|t.index| <= cap ==> e == t)
      && |e.index| == (if |t.index| <= cap then |t.index| else cap)
      && (forall k :: k in e.index ==> k in t.index && e.index[k] == t.index[k])
      && (forall d, k :: d in t.index && d !in e.index && k in e.index ==>
            NoNewer(t.index[d], t.index[k]))
    decreases |t.index|
  {
    if |t.index| > cap {
      var v := Victim(t.index);
      var t' := Release(t, v);
      ReleaseKeepsValid(t, v);
      EvictSpec(t', cap);
      var e := Evict(t, cap);
      assert e == Evict(t', cap);
      forall d, k | d in t.index && d !in e.index && k in e.index
        ensures NoNewer(t.index[d], t.index[k])
      {
        if d != v {
          assert d in t'.index && t'.index[d] == t.index[d];
        }
      }
    }
  }

  /** Finds the least recently used resident signature. */
  method FindOldest(m: map<Struct, Entry>) returns (v: Struct)
    requires |m| > 0
    ensures IsOldest(m, v)
  {
    var rest := m.Keys;
    assert |rest| > 0;
    v :| v in rest;
    rest := rest - {v};
    while rest != {}
      invariant rest <= m.Keys && v in m
      invariant forall k :: k in m && k !in rest ==> NoNewer(m[v], m[k])
      decreases rest
    {
      var k :| k in rest;
      if !NoNewer(m[v], m[k]) {
        v := k;
      }
      rest := rest - {k};
    }
  }
}
