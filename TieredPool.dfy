/** `TieredMemoryPool<T, N>` of impl/include/impl/tiered_memory_pool.hpp:
    a hot free-list pool plus lazily activated cold free-list pools.
    Each tier is represented by its free stack (see FreeListPool); a pointer
    is `Ptr(tier, slot)`, tier 0 being the hot tier and tier `t >= 1` the
    cold tier `cold_tiers_[t - 1]`. A slot outside `[0, N)`, or a tier that
    does not exist, stands for memory that belongs to no tier. */
module TieredPool {
  import opened Common
  import opened FreeListPool

  /** `Tier`: the `active` flag and, once active, the pool's free stack. */
  datatype Tier = Tier(active: bool, free: seq<nat>)

  datatype Ptr = Ptr(tier: nat, slot: int)

  /** The pool's whole state: hot stack, cold tiers, `alloc_cursor_`. */
  datatype State = State(hot: seq<nat>, cold: seq<Tier>, cursor: nat)

  const Inactive := Tier(false, [])

  /** `Tier::get`: an inactive tier gets a freshly built pool. */
  function Activate(t: Tier, n: nat): (r: Tier)
    ensures r.active
    ensures t.active ==> r == t
    ensures !t.active ==> r.free == FullStack(n)
  {
    if t.active then t else Tier(true, FullStack(n))
  }

  // ---------------------------------------------------------------- sums

  /** The three per-tier quantities summed over the cold tiers. */
  datatype Measure = FreeSlots | ActiveTiers | Remaining(n: nat)

  function Weight(t: Tier, m: Measure): nat
  {
    match m
    case FreeSlots => if t.active then |t.free| else 0
    case ActiveTiers => if t.active then 1 else 0
    case Remaining(n) => if t.active then |t.free| else n
  }

  function SumOver(ts: seq<Tier>, m: Measure): nat
  {
    if ts == [] then 0 else SumOver(ts[..|ts| - 1], m) + Weight(ts[|ts| - 1], m)
  }

  lemma {:induction false} SumOverUpdate(ts: seq<Tier>, i: nat, x: Tier, m: Measure)
    requires i < |ts|
    ensures SumOver(ts[i := x], m) + Weight(ts[i], m) == SumOver(ts, m) + Weight(x, m)
  {
    var us := ts[i := x];
    if i == |ts| - 1 {
      assert us[..|us| - 1] == ts[..|ts| - 1];
    } else {
      assert us[..|us| - 1] == ts[..|ts| - 1][i := x];
      SumOverUpdate(ts[..|ts| - 1], i, x, m);
    }
  }

  lemma {:induction false} SumOverZero(ts: seq<Tier>, m: Measure)
    requires forall i :: 0 <= i < |ts| ==> Weight(ts[i], m) == 0
    ensures SumOver(ts, m) == 0
  {
    if ts != [] {
      assert forall i :: 0 <= i < |ts| - 1 ==> ts[..|ts| - 1][i] == ts[i];
      SumOverZero(ts[..|ts| - 1], m);
    }
  }

  lemma {:induction false} SumOverPointwise(ts: seq<Tier>, us: seq<Tier>, m: Measure)
    requires |ts| == |us|
    requires forall i :: 0 <= i < |ts| ==> Weight(ts[i], m) <= Weight(us[i], m)
    ensures SumOver(ts, m) <= SumOver(us, m)
  {
    if ts != [] {
      var k := |ts| - 1;
      assert forall i :: 0 <= i < k ==> ts[..k][i] == ts[i] && us[..k][i] == us[i];
      SumOverPointwise(ts[..k], us[..k], m);
    }
  }

  lemma {:induction false} SumOverBound(ts: seq<Tier>, m: Measure, w: nat)
    requires forall i :: 0 <= i < |ts| ==> Weight(ts[i], m) <= w
    ensures SumOver(ts, m) <= |ts| * w
  {
    if ts != [] {
      var k := |ts| - 1;
      assert forall i :: 0 <= i < k ==> ts[..k][i] == ts[i];
      SumOverBound(ts[..k], m, w);
      assert |ts| * w == k * w + w;
    }
  }

  lemma {:induction false} SumOverAllInactive(k: nat, n: nat)
    ensures SumOver(seq(k, _ => Inactive), Remaining(n)) == k * n
  {
    if k > 0 {
      var ts := seq(k, _ => Inactive);
      assert ts[..k - 1] == seq(k - 1, _ => Inactive);
      SumOverAllInactive(k - 1, n);
      assert k * n == (k - 1) * n + n;
    }
  }

  // ------------------------------------------------------------- queries

  /** `freeCount`: the hot tier's free slots plus every active cold tier's. */
  function FreeCountOf(st: State): nat
  {
    |st.hot| + SumOver(st.cold, FreeSlots)
  }

  /** `activeTierCount`: the hot tier plus the active cold tiers. */
  function ActiveCountOf(st: State): nat
  {
    1 + SumOver(st.cold, ActiveTiers)
  }

  function InStorage(slot: int, n: nat): bool
  {
    0 <= slot < n
  }

  /** `contains`: the pointer lies in the hot tier's storage or in the
      storage of an active cold tier. */
  function ContainsOf(st: State, n: nat, q: Ptr): (r: bool)
    ensures r ==> InStorage(q.slot, n) && q.tier <= |st.cold|
    ensures q.tier > |st.cold| || !InStorage(q.slot, n) ==> !r
  {
    InStorage(q.slot, n) && (q.tier == 0 || (q.tier <= |st.cold| && st.cold[q.tier - 1].active))
  }

  /** The free stack of tier `t`. */
  function StackOf(st: State, t: nat): seq<nat>
    requires t <= |st.cold|
  {
    if t == 0 then st.hot else st.cold[t - 1].free
  }

  /** The caller returns only pointers this pool handed out and still
      holds: a pointer some tier contains is not in that tier's free stack. */
  ghost predicate NoDoubleFree(st: State, n: nat, p: Option<Ptr>)
  {
    p.Some? && ContainsOf(st, n, p.value) ==> p.value.slot !in StackOf(st, p.value.tier)
  }

  ghost predicate ValidState(st: State, n: nat)
  {
    && WellFormed(st.hot, n)
    && (forall i :: 0 <= i < |st.cold| ==> ValidTier(st.cold[i], n))
    && st.cursor <= |st.cold|
    && (|st.cold| > 0 ==> st.cursor < |st.cold|)
  }

  ghost predicate ValidTier(t: Tier, n: nat)
  {
    if t.active then WellFormed(t.free, n) else t.free == []
  }

  // ---------------------------------------------------------- allocation

  /** The slow path of `allocate`: try cold tiers `i, i+1, ...`, activating
      each one tried; the first that yields a slot becomes the cursor. */
  function ScanCold(cold: seq<Tier>, n: nat, i: nat, cursor: nat): (r: (seq<Tier>, nat, Option<Ptr>))
    decreases |cold| - i
    ensures |r.0| == |cold|
    ensures r.2.None? ==> r.1 == cursor
    ensures r.2.Some? ==> i <= r.1 < |cold| && r.2.value.tier == r.1 + 1
  {
    if i >= |cold| then (cold, cursor, None)
    else
      var t := Activate(cold[i], n);
      var (f, s) := Pop(t.free);
      if s.Some? then
        (cold[i := Tier(true, f)], i, Some(Ptr(i + 1, s.value)))
      else
        ScanCold(cold[i := t], n, i + 1, cursor)
  }

  /** `allocate`: the hot tier first; the cold tiers from the cursor on
      only when the hot tier is empty. */
  function AllocOf(st: State, n: nat): (r: (State, Option<Ptr>))
    ensures |st.hot| > 0 ==> r.1.Some? && r.1.value.tier == 0 && r.0.cold == st.cold && r.0.cursor == st.cursor
    ensures |st.hot| == 0 ==> r.0.hot == st.hot
    ensures r.0.cursor >= st.cursor && |r.0.cold| == |st.cold|
  {
    if |st.hot| > 0 then
      var (h, s) := Pop(st.hot);
      (State(h, st.cold, st.cursor), Some(Ptr(0, s.value)))
    else
      var (c, cur, p) := ScanCold(st.cold, n, st.cursor, st.cursor);
      (State(st.hot, c, cur), p)
  }

  /** Allocation keeps the state valid, never deactivates a tier, never
      moves the cursor back and never touches a cold tier below it; a
      handed-out pointer is contained in the pool and not free. */
  lemma AllocFacts(st: State, n: nat)
    requires ValidState(st, n)
    ensures var (st', p) := AllocOf(st, n);
      && ValidState(st', n)
      && ActiveCountOf(st') >= ActiveCountOf(st)
      && st'.cursor >= st.cursor
      && st'.cold[..st.cursor] == st.cold[..st.cursor]
      && (p.Some? ==> ContainsOf(st', n, p.value) && p.value.slot !in StackOf(st', p.value.tier))
  {
    var (st', p) := AllocOf(st, n);
    PopOutstanding(st.hot, n);
    if |st.hot| == 0 {
      ScanValid(st.cold, n, st.cursor, st.cursor);
      ScanFrame(st.cold, n, st.cursor, st.cursor);
    }
    SumOverPointwise(st.cold, st'.cold, ActiveTiers);
    assert forall j :: 0 <= j < st.cursor ==> st'.cold[j] == st.cold[j];
  }

  /** A scan leaves the tiers below its start alone, never deactivates a
      tier, and on success leaves the tiers after the new cursor alone. */
  lemma {:induction false} ScanFrame(cold: seq<Tier>, n: nat, i: nat, cursor: nat)
    ensures var (c', cur, p) := ScanCold(cold, n, i, cursor);
      && (forall j :: 0 <= j < |cold| && j < i ==> c'[j] == cold[j])
      && (forall j :: 0 <= j < |cold| && cold[j].active ==> c'[j].active)
      && (p.Some? ==> forall j :: cur < j < |cold| ==> c'[j] == cold[j])
    decreases |cold| - i
  {
    if i < |cold| {
      var t := Activate(cold[i], n);
      var (f, s) := Pop(t.free);
      if s.None? {
        ScanFrame(cold[i := t], n, i + 1, cursor);
      }
    }
  }

  /** A scan keeps every tier valid, and the tier a successful scan took
      a slot from no longer lists it. */
  lemma {:induction false} ScanValid(cold: seq<Tier>, n: nat, i: nat, cursor: nat)
    requires forall j :: 0 <= j < |cold| ==> ValidTier(cold[j], n)
    ensures var (c', cur, p) := ScanCold(cold, n, i, cursor);
      && (forall j :: 0 <= j < |c'| ==> ValidTier(c'[j], n))
      && (p.Some? ==> c'[cur].active && p.value.slot !in c'[cur].free && InStorage(p.value.slot, n))
    decreases |cold| - i
  {
    if i < |cold| {
      var t := Activate(cold[i], n);
      ActivatePopValid(cold[i], n);
      var (f, s) := Pop(t.free);
      if s.None? {
        ScanValid(cold[i := t], n, i + 1, cursor);
      }
    }
  }

  /** Activating a valid tier and popping its stack leave valid tiers, and
      the popped slot lies in the storage and is no longer free. */
  lemma ActivatePopValid(t: Tier, n: nat)
    requires ValidTier(t, n)
    ensures ValidTier(Activate(t, n), n) && ValidTier(Tier(true, Pop(Activate(t, n).free).0), n)
    ensures Pop(Activate(t, n).free).1.Some? ==>
      Pop(Activate(t, n).free).1.value !in Pop(Activate(t, n).free).0 && InStorage(Pop(Activate(t, n).free).1.value, n)
  {
    PopOutstanding(Activate(t, n).free, n);
    PopOutstanding(t.free, n);
  }

  /** `n * x` as repeated addition, so that the accounting below stays
      linear. */
  function Times(n: nat, x: nat): nat
  {
    if x == 0 then 0 else Times(n, x - 1) + n
  }

  lemma {:induction false} TimesIsMul(n: nat, x: nat)
    ensures Times(n, x) == n * x
  {
    if x > 0 {
      TimesIsMul(n, x - 1);
      assert n * x == n * (x - 1) + n;
    }
  }

  lemma {:induction false} FreeRemainingTimes(ts: seq<Tier>, n: nat)
    ensures SumOver(ts, FreeSlots) + Times(n, |ts|) == SumOver(ts, Remaining(n)) + Times(n, SumOver(ts, ActiveTiers))
  {
    if ts != [] {
      var k := |ts| - 1;
      FreeRemainingTimes(ts[..k], n);
      var a := SumOver(ts[..k], ActiveTiers);
      assert Times(n, |ts|) == Times(n, k) + n;
      if ts[k].active {
        assert Times(n, a + 1) == Times(n, a) + n;
      }
    }
  }

  /** Per tier, free slots plus `n` for an inactive tier is what remains. */
  lemma FreeRemaining(ts: seq<Tier>, n: nat)
    ensures SumOver(ts, FreeSlots) + n * |ts| == SumOver(ts, Remaining(n)) + n * SumOver(ts, ActiveTiers)
  {
    FreeRemainingTimes(ts, n);
    TimesIsMul(n, |ts|);
    TimesIsMul(n, SumOver(ts, ActiveTiers));
  }

  /** A scan uses up exactly the slot it hands out: activating a tier
      turns its `n` obtainable slots into `n` free ones. */
  lemma {:induction false} ScanRemaining(cold: seq<Tier>, n: nat, i: nat, cursor: nat)
    ensures var (c', _, p) := ScanCold(cold, n, i, cursor);
      SumOver(c', Remaining(n)) + (if p.Some? then 1 else 0) == SumOver(cold, Remaining(n))
    decreases |cold| - i
  {
    if i < |cold| {
      var t := Activate(cold[i], n);
      var (f, s) := Pop(t.free);
      SumOverUpdate(cold, i, t, Remaining(n));
      if s.Some? {
        SumOverUpdate(cold, i, Tier(true, f), Remaining(n));
      } else {
        ScanRemaining(cold[i := t], n, i + 1, cursor);
      }
    }
  }

  /** Slot accounting across an allocation: one slot leaves the free
      stacks, and every tier it activated brings `n` fresh ones. */
  lemma AllocFreeCount(st: State, n: nat)
    ensures var (st', p) := AllocOf(st, n);
      FreeCountOf(st') + (if p.Some? then 1 else 0) + n * ActiveCountOf(st)
      == FreeCountOf(st) + n * ActiveCountOf(st')
  {
    var (st', p) := AllocOf(st, n);
    if |st.hot| == 0 {
      var c, c' := st.cold, st'.cold;
      var a, a' := SumOver(c, ActiveTiers), SumOver(c', ActiveTiers);
      ScanRemaining(c, n, st.cursor, st.cursor);
      FreeRemaining(c, n);
      FreeRemaining(c', n);
      MulAddOne(n, a);
      MulAddOne(n, a');
    }
  }

  lemma MulAddOne(n: nat, a: nat)
    ensures n * (1 + a) == n + n * a
  {
  }

  /** With a non-empty tier size, a null from `allocate` means nothing was
      activated and nothing changed. */
  lemma {:induction false} ScanNullUnchanged(cold: seq<Tier>, n: nat, i: nat, cursor: nat)
    requires n > 0
    requires ScanCold(cold, n, i, cursor).2.None?
    ensures ScanCold(cold, n, i, cursor).0 == cold
    decreases |cold| - i
  {
    if i < |cold| {
      var t := Activate(cold[i], n);
      assert cold[i].active;
      assert cold[i := t] == cold;
      ScanNullUnchanged(cold, n, i + 1, cursor);
    }
  }

  // ------------------------------------------- exact capacity, no frees

  /** The shape of any state reached by allocations alone: every cold tier
      below the cursor is active and empty, every one above it inactive. */
  ghost predicate Packed(st: State)
  {
    && st.cursor <= |st.cold|
    && (|st.cold| > 0 ==> st.cursor < |st.cold|)
    && (forall j :: 0 <= j < st.cursor ==> st.cold[j].active && st.cold[j].free == [])
    && (forall j :: st.cursor < j < |st.cold| ==> st.cold[j] == Inactive)
  }

  /** Slots still obtainable: free slots of active tiers plus `n` per
      inactive tier. */
  function RemainingOf(st: State, n: nat): nat
  {
    |st.hot| + SumOver(st.cold, Remaining(n))
  }

  /** On a packed state, `allocate` succeeds exactly while slots remain,
      and each success uses up one of them. */
  lemma {:induction false} AllocPacked(st: State, n: nat)
    requires n > 0 && Packed(st)
    ensures var (st', p) := AllocOf(st, n);
      && Packed(st')
      && (p.Some? <==> RemainingOf(st, n) > 0)
      && (p.Some? ==> RemainingOf(st', n) + 1 == RemainingOf(st, n))
  {
    if |st.hot| == 0 && st.cursor < |st.cold| {
      if |Activate(st.cold[st.cursor], n).free| > 0 {
        PackedHit(st, n);
      } else {
        PackedNext(st, n);
      }
    } else if |st.hot| == 0 {
      assert st.cold == [];
    }
  }

  /** The cursor tier still has a slot (or is activated now). */
  lemma PackedHit(st: State, n: nat)
    requires n > 0 && Packed(st) && |st.hot| == 0 && st.cursor < |st.cold|
    requires |Activate(st.cold[st.cursor], n).free| > 0
    ensures var (st', p) := AllocOf(st, n);
      && Packed(st')
      && (p.Some? <==> RemainingOf(st, n) > 0)
      && (p.Some? ==> RemainingOf(st', n) + 1 == RemainingOf(st, n))
  {
    var cold, c := st.cold, st.cursor;
    var t := Activate(cold[c], n);
    var (f, s) := Pop(t.free);
    SumOverUpdate(cold, c, Tier(true, f), Remaining(n));
    assert ScanCold(cold, n, c, c) == (cold[c := Tier(true, f)], c, Some(Ptr(c + 1, s.value)));
  }

  /** The cursor tier is used up: the next tier, inactive, is activated,
      or there is none. */
  lemma PackedNext(st: State, n: nat)
    requires n > 0 && Packed(st) && |st.hot| == 0 && st.cursor < |st.cold|
    requires |Activate(st.cold[st.cursor], n).free| == 0
    ensures var (st', p) := AllocOf(st, n);
      && Packed(st')
      && (p.Some? <==> RemainingOf(st, n) > 0)
      && (p.Some? ==> RemainingOf(st', n) + 1 == RemainingOf(st, n))
  {
    var cold, c, m := st.cold, st.cursor, Remaining(n);
    var t := Activate(cold[c], n);
    assert cold[c := t] == cold;
    assert ScanCold(cold, n, c, c) == ScanCold(cold, n, c + 1, c);
    if c + 1 == |cold| {
      SumOverZero(cold, m);
    } else {
      assert cold[c + 1] == Inactive;
      var t1 := Activate(cold[c + 1], n);
      var (f1, s1) := Pop(t1.free);
      assert |t1.free| == n;
      assert ScanCold(cold, n, c + 1, c) == (cold[c + 1 := Tier(true, f1)], c + 1, Some(Ptr(c + 2, s1.value)));
      SumOverUpdate(cold, c + 1, Tier(true, f1), m);
    }
  }

  /** `m` allocations in a row. */
  function AllocMany(st: State, n: nat, m: nat): State
  {
    if m == 0 then st else AllocOf(AllocMany(st, n, m - 1), n).0
  }

  lemma {:induction false} AllocManyPacked(st: State, n: nat, m: nat)
    requires n > 0 && Packed(st) && m <= RemainingOf(st, n)
    ensures Packed(AllocMany(st, n, m))
    ensures RemainingOf(AllocMany(st, n, m), n) + m == RemainingOf(st, n)
  {
    if m > 0 {
      AllocManyPacked(st, n, m - 1);
      AllocPacked(AllocMany(st, n, m - 1), n);
    }
  }

  /** A freshly constructed pool with `k` cold tiers. */
  function Fresh(k: nat, n: nat): State
  {
    State(FullStack(n), seq(k, _ => Inactive), 0)
  }

  /** With no deallocation, the first `(1 + k) * n` allocations all succeed
      and the next one returns null. */
  lemma ExactCapacity(k: nat, n: nat, m: nat)
    requires n > 0 && m <= (1 + k) * n
    ensures AllocOf(AllocMany(Fresh(k, n), n, m), n).1.Some? <==> m < (1 + k) * n
  {
    var st := Fresh(k, n);
    SumOverAllInactive(k, n);
    assert RemainingOf(st, n) == (1 + k) * n;
    AllocManyPacked(st, n, m);
    AllocPacked(AllocMany(st, n, m), n);
  }

  // -------------------------------------------------------- deallocation

  /** `deallocate`: null and foreign pointers are ignored; otherwise the
      slot returns to the free stack of the tier that contains it. */
  function DeallocOf(st: State, n: nat, p: Option<Ptr>): (r: State)
    ensures p.None? || !ContainsOf(st, n, p.value) ==> r == st
  {
    if p.None? || !ContainsOf(st, n, p.value) then st
    else if p.value.tier == 0 then st.(hot := Push(st.hot, p.value.slot))
    else
      var i := p.value.tier - 1;
      st.(cold := st.cold[i := Tier(true, Push(st.cold[i].free, p.value.slot))])
  }

  /** A returned slot raises the free count by one and activates nothing;
      validity survives when the slot was really outstanding. */
  lemma DeallocFacts(st: State, n: nat, p: Option<Ptr>)
    requires ValidState(st, n) && NoDoubleFree(st, n, p)
    ensures var st' := DeallocOf(st, n, p);
      && ValidState(st', n)
      && ActiveCountOf(st') == ActiveCountOf(st)
      && FreeCountOf(st') == FreeCountOf(st) + (if p.Some? && ContainsOf(st, n, p.value) then 1 else 0)
  {
    if p.Some? && ContainsOf(st, n, p.value) {
      var q := p.value;
      assert q.slot in Outstanding(StackOf(st, q.tier), n);
      if q.tier == 0 {
        PushOutstanding(st.hot, n, q.slot);
      } else {
        var i := q.tier - 1;
        PushOutstanding(st.cold[i].free, n, q.slot);
        var x := Tier(true, Push(st.cold[i].free, q.slot));
        SumOverUpdate(st.cold, i, x, FreeSlots);
        SumOverUpdate(st.cold, i, x, ActiveTiers);
      }
    }
  }

  /** Handing a pointer back right after getting it: the free count is
      back where it was, up to the `n` slots of any tier the allocation
      activated. */
  lemma AllocThenFree(st: State, n: nat)
    requires ValidState(st, n)
    ensures var (st1, p) := AllocOf(st, n);
      var st2 := DeallocOf(st1, n, p);
      FreeCountOf(st2) + n * ActiveCountOf(st) == FreeCountOf(st) + n * ActiveCountOf(st2)
  {
    var (st1, p) := AllocOf(st, n);
    AllocFacts(st, n);
    AllocFreeCount(st, n);
    DeallocFacts(st1, n, p);
  }

  /** The free count never exceeds the capacity. */
  lemma FreeWithinCapacity(st: State, n: nat)
    requires ValidState(st, n)
    ensures FreeCountOf(st) <= (1 + |st.cold|) * n
  {
    Accounting(st.hot, n);
    forall i | 0 <= i < |st.cold| ensures Weight(st.cold[i], FreeSlots) <= n {
      if st.cold[i].active { Accounting(st.cold[i].free, n); }
    }
    SumOverBound(st.cold, FreeSlots, n);
    assert (1 + |st.cold|) * n == n + |st.cold| * n;
  }

  // --------------------------------------------------------------- class

  /** The cold-tier loop of `allocate`: from the cursor on, each tier
      tried is activated, and the first whose free stack yields a slot
      becomes the cursor. */
  method ScanTiers(cold: seq<Tier>, n: nat, cursor: nat) returns (c: seq<Tier>, cur: nat, p: Option<Ptr>)
    ensures (c, cur, p) == ScanCold(cold, n, cursor, cursor)
  {
    c := cold;
    var i := cursor;
    while i < |c|
      invariant cursor <= i && |c| == |cold|
      invariant ScanCold(c, n, i, cursor) == ScanCold(cold, n, cursor, cursor)
      decreases |c| - i
    {
      var t := Activate(c[i], n);
      var (f, s) := Pop(t.free);
      if s.Some? {
        return c[i := Tier(true, f)], i, Some(Ptr(i + 1, s.value));
      }
      c := c[i := t];
      i := i + 1;
    }
    return c, cursor, None;
  }

  class TieredMemoryPool {
    const N: nat
    var hot: seq<nat>
    var cold: seq<Tier>
    var cursor: nat

    function St(): State
      reads this
    {
      State(hot, cold, cursor)
    }

    ghost predicate Valid()
      reads this
    {
      N < TWO_32 && ValidState(St(), N)
    }

    /** `TieredMemoryPool(num_cold_tiers)`: a full hot tier, every cold
        tier inactive, the cursor at 0. */
    constructor (n: nat, numColdTiers: nat)
      requires n < TWO_32
      ensures Valid() && N == n && St() == Fresh(numColdTiers, n)
    {
      N := n;
      hot := FullStack(n);
      cold := seq(numColdTiers, _ => Inactive);
      cursor := 0;
      PopOutstanding([], n);
    }

    method Allocate() returns (p: Option<Ptr>)
      requires Valid()
      modifies this
      ensures Valid()
      ensures (St(), p) == AllocOf(old(St()), N)
    {
      ghost var after := AllocOf(St(), N);
      AllocFacts(St(), N);
      if |hot| > 0 {
        var (h, s) := Pop(hot);
        hot := h;
        return Some(Ptr(0, s.value));
      }
      var c, cur, q := ScanTiers(cold, N, cursor);
      cold, cursor := c, cur;
      return q;
    }

    method Deallocate(p: Option<Ptr>)
      requires Valid() && NoDoubleFree(St(), N, p)
      modifies this
      ensures Valid()
      ensures St() == DeallocOf(old(St()), N, p)
    {
      DeallocFacts(St(), N, p);
      if p.None? {
        return;
      }
      var q := p.value;
      if q.tier == 0 && InStorage(q.slot, N) {
        hot := Push(hot, q.slot);
        return;
      }
      var i := 0;
      while i < |cold|
        invariant 0 <= i <= |cold|
        invariant forall j :: 0 <= j < i ==> !(cold[j].active && q.tier == j + 1 && InStorage(q.slot, N))
        decreases |cold| - i
      {
        if cold[i].active && q.tier == i + 1 && InStorage(q.slot, N) {
          cold := cold[i := Tier(true, Push(cold[i].free, q.slot))];
          return;
        }
        i := i + 1;
      }
    }

    method Contains(q: Ptr) returns (b: bool)
      requires Valid()
      ensures b == ContainsOf(St(), N, q)
    {
      if q.tier == 0 && InStorage(q.slot, N) {
        return true;
      }
      var i := 0;
      while i < |cold|
        invariant 0 <= i <= |cold|
        invariant forall j :: 0 <= j < i ==> !(cold[j].active && q.tier == j + 1 && InStorage(q.slot, N))
      {
        if cold[i].active && q.tier == i + 1 && InStorage(q.slot, N) {
          return true;
        }
        i := i + 1;
      }
      return false;
    }

    method FreeCount() returns (c: nat)
      requires Valid()
      ensures c == FreeCountOf(St())
      ensures c <= Capacity()
    {
      FreeWithinCapacity(St(), N);
      c := |hot|;
      var i := 0;
      while i < |cold|
        invariant 0 <= i <= |cold|
        invariant c == |hot| + SumOver(cold[..i], FreeSlots)
      {
        assert cold[..i + 1][..i] == cold[..i];
        if cold[i].active {
          c := c + |cold[i].free|;
        }
        i := i + 1;
      }
      assert cold[..|cold|] == cold;
    }

    function Capacity(): (c: nat)
      reads this
      ensures c == N + |cold| * N
    {
      (1 + |cold|) * N
    }

    method ActiveTierCount() returns (c: nat)
      requires Valid()
      ensures c == ActiveCountOf(St())
      ensures 1 <= c <= 1 + |cold|
    {
      c := 1;
      var i := 0;
      while i < |cold|
        invariant 0 <= i <= |cold|
        invariant c == 1 + SumOver(cold[..i], ActiveTiers)
      {
        assert cold[..i + 1][..i] == cold[..i];
        if cold[i].active {
          c := c + 1;
        }
        i := i + 1;
      }
      assert cold[..|cold|] == cold;
      SumOverBound(cold, ActiveTiers, 1);
    }
  }
}
