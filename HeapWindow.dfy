/** The heap-based `SlidingWindowStats` of impl/src/sliding_window.cpp: the
    same ring of the last 65536 trades as the book's window, with a
    `valid_` flag per slot and an indexed max heap and min heap of the
    valid slots, from whose tops the window's price range is read. */
module HeapWindow {
  import opened Common
  import opened WindowCommon
  import opened HeapOps

  // ------------------------------------------------------------ slots

  /** How far slot `t` lies after `head` around the ring. */
  function Offset(head: nat, t: nat): (d: nat)
    requires head < MAX_TRADES && t < MAX_TRADES
    ensures d < MAX_TRADES && (head + d) % MAX_TRADES == t
  {
    var d := if t >= head then t - head else t + MAX_TRADES - head;
    ModAddSmall(head, d, MAX_TRADES);
    d
  }

  /** No other distance below the ring size leads from `head` to `t`. */
  lemma OffsetUnique(head: nat, t: nat, d: nat)
    requires head < MAX_TRADES && t < MAX_TRADES && d < MAX_TRADES && (head + d) % MAX_TRADES == t
    ensures d == Offset(head, t)
  {
    ModAddSmall(head, d, MAX_TRADES);
  }

  /** Slot `t` holds one of the `count` trades written last before `head`. */
  predicate IsLive(head: nat, count: nat, t: nat)
    requires head < MAX_TRADES && t < MAX_TRADES
  {
    Offset(head, t) >= MAX_TRADES - count
  }

  /** The slots of the live trades are the live slots, one for one. */
  lemma LiveAtPos(head: nat, count: nat, i: nat)
    requires head < MAX_TRADES && i < count <= MAX_TRADES
    ensures IsLive(head, count, Pos(head, count, i))
    ensures Offset(head, Pos(head, count, i)) == MAX_TRADES - count + i
  {
    OffsetUnique(head, Pos(head, count, i), MAX_TRADES - count + i);
  }

  lemma LiveSlot(head: nat, count: nat, t: nat) returns (i: nat)
    requires head < MAX_TRADES && count <= MAX_TRADES && t < MAX_TRADES && IsLive(head, count, t)
    ensures i < count && Pos(head, count, i) == t
  {
    i := Offset(head, t) - (MAX_TRADES - count);
  }

  /** Recording at `head` makes that slot live and keeps the others. */
  lemma LiveAfterRecordSlot(head: nat, count: nat, t: nat)
    requires head < MAX_TRADES && count <= MAX_TRADES && t < MAX_TRADES
    ensures IsLive((head + 1) % MAX_TRADES, if count < MAX_TRADES then count + 1 else count, t)
         == (IsLive(head, count, t) || t == head)
  {
    var h' := (head + 1) % MAX_TRADES;
    var o := Offset(head, t);
    if t == head {
      ModAddFold(head + 1, MAX_TRADES - 1, MAX_TRADES);
      ModMultiple(head, 1, MAX_TRADES);
      OffsetUnique(h', t, MAX_TRADES - 1);
    } else {
      assert o >= 1;
      ModAddFold(head + 1, o - 1, MAX_TRADES);
      OffsetUnique(h', t, o - 1);
    }
  }

  /** Dropping the oldest trade makes its slot, and only it, not live. */
  lemma LiveAfterDropSlot(head: nat, count: nat, t: nat)
    requires head < MAX_TRADES && 0 < count <= MAX_TRADES && t < MAX_TRADES
    ensures IsLive(head, count - 1, t) == (IsLive(head, count, t) && t != Pos(head, count, 0))
  {
    LiveAtPos(head, count, 0);
  }

  /** `valid_[t]` says exactly whether slot `t` is live. */
  ghost predicate FlagsLive(flags: seq<bool>, head: nat, count: nat)
    requires head < MAX_TRADES
  {
    |flags| == MAX_TRADES && forall t :: 0 <= t < MAX_TRADES ==> flags[t] == IsLive(head, count, t)
  }

  lemma FlagsAfterRecord(flags: seq<bool>, head: nat, count: nat)
    requires head < MAX_TRADES && count <= MAX_TRADES && FlagsLive(flags, head, count)
    ensures FlagsLive(flags[head := true], (head + 1) % MAX_TRADES, if count < MAX_TRADES then count + 1 else count)
  {
    var h', c' := (head + 1) % MAX_TRADES, if count < MAX_TRADES then count + 1 else count;
    forall t | 0 <= t < MAX_TRADES
      ensures flags[head := true][t] == IsLive(h', c', t)
    {
      LiveAfterRecordSlot(head, count, t);
    }
  }

  lemma FlagsAfterDrop(flags: seq<bool>, head: nat, count: nat)
    requires head < MAX_TRADES && 0 < count <= MAX_TRADES && FlagsLive(flags, head, count)
    ensures FlagsLive(flags[Pos(head, count, 0) := false], head, count - 1)
  {
    var flags' := flags[Pos(head, count, 0) := false];
    forall t | 0 <= t < MAX_TRADES
      ensures flags'[t] == IsLive(head, count - 1, t)
    {
      LiveAfterDropSlot(head, count, t);
    }
  }

  // ------------------------------------------------------------ heaps

  /** A heap holds exactly the slots flagged valid. */
  ghost predicate HoldsExactly(h: seq<nat>, flags: seq<bool>)
  {
    forall u :: 0 <= u < |flags| ==> (u in h) == flags[u]
  }

  lemma HoldsAfterRemove(h: seq<nat>, h': seq<nat>, pos': seq<nat>, flags: seq<bool>, t: nat, k: nat)
    requires HoldsExactly(h, flags) && t < |flags| && k < |h| && h[k] == t
    requires multiset(h') == multiset(h) - multiset{t}
    requires PosMatches(h', pos') && |h'| <= MAX_TRADES && t < |pos'| && pos'[t] == NONE
    ensures HoldsExactly(h', flags[t := false])
  {
    InHeapIff(h', pos', t);
    forall u | 0 <= u < |flags| && u != t
      ensures (u in h') == flags[u]
    {
      assert (u in h') == (u in multiset(h'));
      assert (u in h) == (u in multiset(h));
    }
  }

  lemma HoldsAfterPush(h: seq<nat>, h': seq<nat>, flags: seq<bool>, t: nat)
    requires HoldsExactly(h, flags) && t < |flags|
    requires multiset(h') == multiset(h) + multiset{t}
    ensures HoldsExactly(h', flags[t := true])
  {
    forall u | 0 <= u < |flags|
      ensures (u in h') == flags[t := true][u]
    {
      assert (u in h') == (u in multiset(h'));
      assert (u in h) == (u in multiset(h));
    }
  }

  /** In a heap that holds exactly the live slots, the top is a live trade
      whose price is the largest (max heap) or smallest (min heap) live
      price, and the heap is empty exactly when the window is. */
  lemma TopExtreme(buf: seq<Trade>, flags: seq<bool>, head: nat, count: nat, h: seq<nat>, pos: seq<nat>, isMax: bool)
    requires |buf| == MAX_TRADES && head < MAX_TRADES && count <= MAX_TRADES && FlagsLive(flags, head, count)
    requires HoldsExactly(h, flags) && PosMatches(h, pos) && |pos| == MAX_TRADES
    requires HeapOrdered(h, Prices(buf), isMax)
    ensures (|h| > 0) == (count > 0)
    ensures |h| > 0 ==> flags[h[0]] && pos[h[0]] == 0
    ensures count > 0 && isMax ==> IsMaxOf(buf[h[0]].price, Prices(LiveOf(buf, head, count)))
    ensures count > 0 && !isMax ==> IsMinOf(buf[h[0]].price, Prices(LiveOf(buf, head, count)))
  {
    var L := Prices(LiveOf(buf, head, count));
    if count > 0 {
      LiveAtPos(head, count, 0);
      assert flags[Pos(head, count, 0)];
    }
    if |h| > 0 {
      assert h[0] in h;
      var i0 := LiveSlot(head, count, h[0]);
      assert L[i0] == buf[h[0]].price;
      forall i | 0 <= i < count
        ensures Above(buf[h[0]].price, L[i], isMax)
      {
        LiveAtPos(head, count, i);
        var s := Pos(head, count, i);
        assert flags[s];
        var j :| 0 <= j < |h| && h[j] == s;
        TopAbove(h, Prices(buf), isMax, j);
      }
    }
  }

  /** The four heap arrays are distinct, so one heap's updates leave the
      other alone. */
  ghost predicate Apart(a: IndexedHeap, b: IndexedHeap)
  {
    a != b && a.heap != b.heap && a.heap != b.pos && a.pos != b.heap && a.pos != b.pos
  }

  /** The eviction loop's bookkeeping on values: the ring `T` with head
      `h0` held the trades `L`; the `j` oldest have left, each outside
      `[lo, hi)`, leaving `c` live and the sums `q`, `a`. */
  ghost predicate Progress(h0: nat, T: seq<Trade>, L: seq<Trade>, j: nat, q0: nat, a0: nat, lo: nat, hi: nat,
                           c: nat, q: nat, a: nat)
  {
    && |T| == MAX_TRADES && h0 < MAX_TRADES && j <= |L| <= MAX_TRADES && c == |L| - j && L == LiveOf(T, h0, |L|)
    && ExpiredOutside(L, lo, hi, 0) == ExpiredOutside(L, lo, hi, j)
    && DroppedSums(L, j, q0, a0, q, a)
  }

  class HeapWindowStats {
    const trades: array<Trade>
    const valid: array<bool>
    const maxHeap: IndexedHeap
    const minHeap: IndexedHeap
    var head: nat
    var count: nat
    var sumQty: nat
    var sumAmount: nat
    var maxPrice: int
    var minPrice: int

    /** Both heaps are in heap order by price and hold exactly the flagged
        slots. */
    ghost predicate HeapsTrack(flags: seq<bool>)
      reads trades, maxHeap, maxHeap.heap, maxHeap.pos, minHeap, minHeap.heap, minHeap.pos
    {
      && trades.Length == MAX_TRADES
      && maxHeap.isMax && !minHeap.isMax && Apart(maxHeap, minHeap)
      && maxHeap.Valid() && minHeap.Valid()
      && HoldsExactly(maxHeap.Contents(), flags) && HoldsExactly(minHeap.Contents(), flags)
      && HeapOrdered(maxHeap.Contents(), Prices(trades[..]), true)
      && HeapOrdered(minHeap.Contents(), Prices(trades[..]), false)
    }

    /** The fields have their C++ widths, a slot is flagged valid exactly
        when it is live, and both heaps hold exactly the valid slots. */
    ghost predicate Valid()
      reads this, trades, valid, maxHeap, maxHeap.heap, maxHeap.pos, minHeap, minHeap.heap, minHeap.pos
    {
      && trades.Length == MAX_TRADES && valid.Length == MAX_TRADES
      && head < MAX_TRADES && count <= MAX_TRADES
      && sumQty < TWO_64 && sumAmount < TWO_64
      && FlagsLive(valid[..], head, count)
      && HeapsTrack(valid[..])
      && maxHeap.size == count && minHeap.size == count
    }

    /** The live trades, oldest first. */
    function Live(): (r: seq<Trade>)
      reads this, trades
      requires trades.Length == MAX_TRADES && count <= MAX_TRADES
      ensures |r| == count
    {
      LiveOf(trades[..], head, count)
    }

    /** The running sums equal the sums over the live trades (mod 2^64). */
    ghost predicate SumsExact()
      reads this, trades
      requires trades.Length == MAX_TRADES && count <= MAX_TRADES
    {
      SumsMatch(Live(), sumQty, sumAmount)
    }

    /** The constructor: no slot valid, every heap position `SIZE_MAX`,
        both heaps empty; the counters, sums and min/max start as in the
        ring variant. */
    constructor ()
      ensures Valid() && SumsExact() && Live() == [] && head == 0 && sumQty == 0 && sumAmount == 0
      ensures maxPrice == INT32_MIN && minPrice == INT32_MAX
      ensures maxHeap.size == 0 && minHeap.size == 0
    {
      trades := new Trade[MAX_TRADES](_ => Trade(0, 0, 0, 0));
      valid := new bool[MAX_TRADES](_ => false);
      maxHeap := new IndexedHeap(true);
      minHeap := new IndexedHeap(false);
      head, count := 0, 0;
      sumQty, sumAmount := 0, 0;
      maxPrice, minPrice := INT32_MIN, INT32_MAX;
    }

    /** The heap tops are the extreme live prices: the cleaning loops of
        `updateMinMaxFromHeaps` find a valid top at position 0 at once. */
    lemma TopsClean()
      requires Valid()
      ensures (maxHeap.size > 0) == (count > 0) && (minHeap.size > 0) == (count > 0)
      ensures maxHeap.size > 0 ==> valid[maxHeap.heap[0]] && maxHeap.pos[maxHeap.heap[0]] == 0
      ensures minHeap.size > 0 ==> valid[minHeap.heap[0]] && minHeap.pos[minHeap.heap[0]] == 0
      ensures count > 0 ==> IsMaxOf(trades[maxHeap.heap[0]].price, Prices(Live()))
      ensures count > 0 ==> IsMinOf(trades[minHeap.heap[0]].price, Prices(Live()))
    {
      TopExtreme(trades[..], valid[..], head, count, maxHeap.heap[..maxHeap.size], maxHeap.pos[..], true);
      TopExtreme(trades[..], valid[..], head, count, minHeap.heap[..minHeap.size], minHeap.pos[..], false);
    }

    /** `removeFromMaxHeap(idx); removeFromMinHeap(idx)` for a valid slot. */
    method Unheap(idx: nat, ghost flags: seq<bool>)
      requires HeapsTrack(flags) && idx < |flags| == MAX_TRADES && flags[idx]
      modifies maxHeap, maxHeap.heap, maxHeap.pos, minHeap, minHeap.heap, minHeap.pos
      ensures HeapsTrack(flags[idx := false])
      ensures maxHeap.pos[idx] == NONE && minHeap.pos[idx] == NONE
      ensures old(maxHeap.pos[idx]) < old(maxHeap.size) && old(minHeap.pos[idx]) < old(minHeap.size)
      ensures maxHeap.Contents() == Removed(old(maxHeap.Contents()), Prices(trades[..]), true, old(maxHeap.pos[idx]))
      ensures minHeap.Contents() == Removed(old(minHeap.Contents()), Prices(trades[..]), false, old(minHeap.pos[idx]))
    {
      ghost var hx, hn := maxHeap.Contents(), minHeap.Contents();
      InHeapIff(hx, maxHeap.pos[..], idx);
      InHeapIff(hn, minHeap.pos[..], idx);
      ghost var kx, kn := maxHeap.pos[idx], minHeap.pos[idx];
      maxHeap.Remove(idx, Prices(trades[..]));
      minHeap.Remove(idx, Prices(trades[..]));
      RemovedContents(hx, Prices(trades[..]), true, kx);
      RemovedContents(hn, Prices(trades[..]), false, kn);
      RemovedOrdered(hx, Prices(trades[..]), true, kx);
      RemovedOrdered(hn, Prices(trades[..]), false, kn);
      HoldsAfterRemove(hx, maxHeap.Contents(), maxHeap.pos[..], flags, idx, kx);
      HoldsAfterRemove(hn, minHeap.Contents(), minHeap.pos[..], flags, idx, kn);
    }

    /** The stores into `timestamps_`, `prices_`, `quantities_` and
        `amounts_` at a slot no heap holds. */
    method Store(idx: nat, t: Trade, ghost flags: seq<bool>)
      requires HeapsTrack(flags) && idx < |flags| == MAX_TRADES && !flags[idx]
      modifies trades
      ensures HeapsTrack(flags) && trades[..] == old(trades[..])[idx := t]
    {
      ghost var P := Prices(trades[..]);
      trades[idx] := t;
      assert Prices(trades[..]) == P[idx := t.price];
      OrderedFrame(maxHeap.Contents(), P, Prices(trades[..]), true);
      OrderedFrame(minHeap.Contents(), P, Prices(trades[..]), false);
    }

    /** `pushToMaxHeap(idx); pushToMinHeap(idx)` for a slot no heap holds. */
    method Enheap(idx: nat, ghost flags: seq<bool>)
      requires HeapsTrack(flags) && idx < |flags| == MAX_TRADES && !flags[idx]
      requires maxHeap.size < MAX_TRADES && minHeap.size < MAX_TRADES
      modifies maxHeap, maxHeap.heap, maxHeap.pos, minHeap, minHeap.heap, minHeap.pos
      ensures HeapsTrack(flags[idx := true])
      ensures maxHeap.Contents() == Pushed(old(maxHeap.Contents()), Prices(trades[..]), true, idx)
      ensures minHeap.Contents() == Pushed(old(minHeap.Contents()), Prices(trades[..]), false, idx)
    {
      ghost var hx, hn := maxHeap.Contents(), minHeap.Contents();
      InHeapIff(hx, maxHeap.pos[..], idx);
      InHeapIff(hn, minHeap.pos[..], idx);
      maxHeap.Push(idx, Prices(trades[..]));
      minHeap.Push(idx, Prices(trades[..]));
      PushedContents(hx, Prices(trades[..]), true, idx);
      PushedContents(hn, Prices(trades[..]), false, idx);
      PushedOrdered(hx, Prices(trades[..]), true, idx);
      PushedOrdered(hn, Prices(trades[..]), false, idx);
      HoldsAfterPush(hx, maxHeap.Contents(), flags, idx);
      HoldsAfterPush(hn, minHeap.Contents(), flags, idx);
    }

    /** A valid slot leaves both heaps and is flagged invalid. */
    method Release(idx: nat)
      requires valid.Length == MAX_TRADES && HeapsTrack(valid[..]) && idx < MAX_TRADES && valid[idx]
      modifies valid, maxHeap, maxHeap.heap, maxHeap.pos, minHeap, minHeap.heap, minHeap.pos
      ensures HeapsTrack(valid[..]) && valid[..] == old(valid[..])[idx := false]
      ensures maxHeap.size == old(maxHeap.size) - 1 && minHeap.size == old(minHeap.size) - 1
    {
      Unheap(idx, valid[..]);
      valid[idx] := false;
    }

    /** A slot no heap holds gets the trade, is flagged valid and joins
        both heaps. */
    method Admit(idx: nat, t: Trade)
      requires valid.Length == MAX_TRADES && HeapsTrack(valid[..]) && idx < MAX_TRADES && !valid[idx]
      requires maxHeap.size < MAX_TRADES && minHeap.size < MAX_TRADES
      modifies trades, valid, maxHeap, maxHeap.heap, maxHeap.pos, minHeap, minHeap.heap, minHeap.pos
      ensures HeapsTrack(valid[..]) && valid[..] == old(valid[..])[idx := true]
      ensures trades[..] == old(trades[..])[idx := t]
      ensures maxHeap.size == old(maxHeap.size) + 1 && minHeap.size == old(minHeap.size) + 1
    {
      Store(idx, t, valid[..]);
      Enheap(idx, valid[..]);
      valid[idx] := true;
    }

    /** The slot at `head_` gets the new trade: a valid trade there (the
        ring is full) leaves both heaps first, then the new one is stored,
        flagged valid and pushed onto both heaps; `head_`, `count_` and the
        sums take their new values. */
    method Replace(idx: nat, t: Trade, h': nat, c': nat, sq: nat, sa: nat)
      requires valid.Length == MAX_TRADES && HeapsTrack(valid[..]) && idx < MAX_TRADES
      requires maxHeap.size == minHeap.size && (valid[idx] || maxHeap.size < MAX_TRADES)
      requires h' < MAX_TRADES && c' <= MAX_TRADES && sq < TWO_64 && sa < TWO_64
      requires FlagsLive(valid[..][idx := true], h', c')
      requires c' == if valid[idx] then maxHeap.size else maxHeap.size + 1
      modifies this`head, this`count, this`sumQty, this`sumAmount
      modifies trades, valid, maxHeap, maxHeap.heap, maxHeap.pos, minHeap, minHeap.heap, minHeap.pos
      ensures Valid() && trades[..] == old(trades[..])[idx := t]
      ensures head == h' && count == c' && sumQty == sq && sumAmount == sa
    {
      if valid[idx] {
        Release(idx);
      }
      Admit(idx, t);
      Advance(h', c', sq, sa);
    }

    /** `recordTrade(timestamp_ns, price, qty)`: the timestamp is cut to
        whole seconds; a valid trade at `head_` (the ring is full) leaves
        both heaps first; the new trade is stored, flagged valid and pushed
        onto both heaps; the sums grow modulo 2^64 and `head_`/`count_`
        advance as in the book's window. The min/max fields are left for
        `updateMinMaxFromHeaps`. */
    method RecordTrade(timestampNs: nat, price: int, qty: nat)
      requires Valid() && timestampNs < TWO_64 && IsInt32(price) && qty < TWO_64
      modifies this`head, this`count, this`sumQty, this`sumAmount, trades, valid
      modifies maxHeap, maxHeap.heap, maxHeap.pos, minHeap, minHeap.heap, minHeap.pos
      ensures Valid()
      ensures Live() == Appended(old(Live()), Trade(timestampNs / 1_000_000_000, price, qty, Amount(price, qty)))
      ensures trades[..] == old(trades[..])[old(head) := Trade(timestampNs / 1_000_000_000, price, qty, Amount(price, qty))]
      ensures head == (old(head) + 1) % MAX_TRADES
      ensures sumQty == U64(old(sumQty) + qty) && sumAmount == U64(old(sumAmount) + Amount(price, qty))
    {
      var amount := Amount(price, qty);
      var t := Trade(timestampNs / 1_000_000_000, price, qty, amount);
      var h', c' := (head + 1) % MAX_TRADES, if count < MAX_TRADES then count + 1 else count;
      var sq, sa := U64(sumQty + qty), U64(sumAmount + amount);
      ghost var T, V := trades[..], valid[..];
      LiveAfterRecord(T, head, count, t);
      FlagsAfterRecord(V, head, count);
      HeadLiveWhenFull(head, count);
      Replace(head, t, h', c', sq, sa);
    }

    /** The field updates closing `recordTrade` and the eviction loop body:
        new `head_`, `count_` and sums that agree with the flags and heaps. */
    method Advance(h': nat, c': nat, sq: nat, sa: nat)
      requires trades.Length == MAX_TRADES && valid.Length == MAX_TRADES
      requires h' < MAX_TRADES && c' <= MAX_TRADES && sq < TWO_64 && sa < TWO_64
      requires FlagsLive(valid[..], h', c') && HeapsTrack(valid[..])
      requires maxHeap.size == c' && minHeap.size == c'
      modifies this`head, this`count, this`sumQty, this`sumAmount
      ensures Valid()
      ensures head == h' && count == c' && sumQty == sq && sumAmount == sa
    {
      head, count, sumQty, sumAmount := h', c', sq, sa;
    }

    /** A valid slot leaves both heaps and is flagged invalid; `head_`,
        `count_` and the sums take their new values. */
    method Discard(idx: nat, h': nat, c': nat, sq: nat, sa: nat)
      requires valid.Length == MAX_TRADES && HeapsTrack(valid[..]) && idx < MAX_TRADES
      requires maxHeap.size == minHeap.size
      requires h' < MAX_TRADES && c' <= MAX_TRADES && sq < TWO_64 && sa < TWO_64
      requires FlagsLive(valid[..][idx := false], h', c')
      requires c' == if valid[idx] then maxHeap.size - 1 else maxHeap.size
      modifies this`head, this`count, this`sumQty, this`sumAmount
      modifies valid, maxHeap, maxHeap.heap, maxHeap.pos, minHeap, minHeap.heap, minHeap.pos
      ensures Valid() && trades[..] == old(trades[..]) && valid[..] == old(valid[..])[idx := false]
      ensures head == h' && count == c' && sumQty == sq && sumAmount == sa
    {
      if valid[idx] {
        Release(idx);
      }
      assert valid[..] == old(valid[..])[idx := false];
      Advance(h', c', sq, sa);
    }

    /** Part way through `evictExpired`: the `j` oldest of the trades `L`
        that were live at the start have left, each outside `[lo, hi)`,
        and their amounts have come off the sums `q0`, `a0`. */
    ghost predicate Evicting(h0: nat, T: seq<Trade>, L: seq<Trade>, j: nat, q0: nat, a0: nat, lo: nat, hi: nat)
      reads this, trades, valid, maxHeap, maxHeap.heap, maxHeap.pos, minHeap, minHeap.heap, minHeap.pos
    {
      && Valid() && head == h0 && trades[..] == T
      && Progress(h0, T, L, j, q0, a0, lo, hi, count, sumQty, sumAmount)
    }

    /** One turn of the eviction loop: the oldest trade stops the loop when
        it lies in `[lo, hi)`, and leaves otherwise. */
    method EvictStep(ghost h0: nat, ghost T: seq<Trade>, ghost L: seq<Trade>, ghost j: nat, ghost q0: nat, ghost a0: nat,
                     lo: nat, hi: nat) returns (stop: bool)
      requires Evicting(h0, T, L, j, q0, a0, lo, hi) && count > 0
      modifies this`head, this`count, this`sumQty, this`sumAmount, valid
      modifies maxHeap, maxHeap.heap, maxHeap.pos, minHeap, minHeap.heap, minHeap.pos
      ensures stop ==> Evicting(h0, T, L, j, q0, a0, lo, hi) && ExpiredOutside(L, lo, hi, 0) == j
      ensures !stop ==> Evicting(h0, T, L, j + 1, q0, a0, lo, hi)
    {
      LiveDropPrefix(T, head, |L|, j);
      var oldest := trades[Pos(head, count, 0)];
      assert oldest == L[j];
      if oldest.timestamp >= lo && oldest.timestamp < hi {
        return true;
      }
      DropOldest(h0, T, L, j, q0, a0, lo, hi);
      return false;
    }

    /** The oldest trade, which lies outside `[lo, hi)`, leaves the window
        and its amount comes off the sums. */
    method DropOldest(ghost h0: nat, ghost T: seq<Trade>, ghost L: seq<Trade>, ghost j: nat, ghost q0: nat, ghost a0: nat,
                      lo: nat, hi: nat)
      requires Evicting(h0, T, L, j, q0, a0, lo, hi) && count > 0
      requires !(lo <= L[j].timestamp < hi)
      modifies this`head, this`count, this`sumQty, this`sumAmount, valid
      modifies maxHeap, maxHeap.heap, maxHeap.pos, minHeap, minHeap.heap, minHeap.pos
      ensures Evicting(h0, T, L, j + 1, q0, a0, lo, hi)
    {
      LiveDropPrefix(T, head, |L|, j);
      var tail := Pos(head, count, 0);
      var oldest := trades[tail];
      assert oldest == L[j];
      assert ExpiredOutside(L, lo, hi, 0) == ExpiredOutside(L, lo, hi, j + 1);
      var sq, sa := U64(sumQty - oldest.qty), U64(sumAmount - oldest.amount);
      SumsDropOne(L, j, oldest, q0, a0, sumQty, sumAmount);
      assert Progress(h0, T, L, j + 1, q0, a0, lo, hi, count - 1, sq, sa);
      LiveAtPos(head, count, 0);
      FlagsAfterDrop(valid[..], head, count);
      Discard(tail, head, count - 1, sq, sa);
    }

    /** `evictExpired`: `currentSeconds` stands for the grid time converted
        to Unix seconds (0 when `mktime` fails). With `cutoff = current -
        600` in uint64_t arithmetic, the oldest trades outside
        `[cutoff, current)` leave, up to the first one inside it. */
    method EvictExpired(currentSeconds: nat)
      requires Valid() && currentSeconds < TWO_64
      modifies this`head, this`count, this`sumQty, this`sumAmount, valid
      modifies maxHeap, maxHeap.heap, maxHeap.pos, minHeap, minHeap.heap, minHeap.pos
      ensures Valid() && head == old(head)
      ensures Live() == old(Live())[ExpiredOutside(old(Live()), U64(currentSeconds - WINDOW_SECONDS), currentSeconds, 0)..]
      ensures DroppedSums(old(Live()), ExpiredOutside(old(Live()), U64(currentSeconds - WINDOW_SECONDS), currentSeconds, 0),
                          old(sumQty), old(sumAmount), sumQty, sumAmount)
    {
      var cutoff := U64(currentSeconds - WINDOW_SECONDS);
      ghost var T, L := trades[..], Live();
      ghost var j := 0;
      while count > 0
        invariant Evicting(old(head), T, L, j, old(sumQty), old(sumAmount), cutoff, currentSeconds)
        decreases count
      {
        var stop := EvictStep(old(head), T, L, j, old(sumQty), old(sumAmount), cutoff, currentSeconds);
        if stop {
          break;
        }
        j := j + 1;
      }
      LiveDropPrefix(T, head, |L|, j);
    }

    /** `updateMinMaxFromHeaps`: the max and min are the prices at the heap
        tops, or INT32_MIN / INT32_MAX for an empty heap; they are the
        largest and smallest live prices. */
    method UpdateMinMaxFromHeaps()
      requires Valid()
      modifies this`maxPrice, this`minPrice
      ensures maxPrice == if maxHeap.size > 0 then trades[maxHeap.heap[0]].price else INT32_MIN
      ensures minPrice == if minHeap.size > 0 then trades[minHeap.heap[0]].price else INT32_MAX
      ensures count == 0 ==> maxPrice == INT32_MIN && minPrice == INT32_MAX
      ensures count > 0 ==> IsMaxOf(maxPrice, Prices(Live())) && IsMinOf(minPrice, Prices(Live()))
    {
      TopsClean();
      if maxHeap.size > 0 {
        maxPrice := trades[maxHeap.heap[0]].price;
      } else {
        maxPrice := INT32_MIN;
      }
      if minHeap.size > 0 {
        minPrice := trades[minHeap.heap[0]].price;
      } else {
        minPrice := INT32_MAX;
      }
    }

    /** `getMedianPrice`: the middle of the live prices by rank ([`MedianOf`]). */
    method GetMedianPrice() returns (m: int)
      requires Valid()
      ensures m == MedianOf(Prices(Live()))
    {
      m := RingMedian(trades, head, count);
    }

    /** `getVWAP`, with the definition the ring variant gives it. */
    function GetVWAP(): (v: nat)
      reads this
      ensures count == 0 || sumQty == 0 ==> v == 0
      ensures count > 0 && sumQty > 0 ==> v * sumQty <= sumAmount < (v + 1) * sumQty
    {
      Vwap(count, sumQty, sumAmount)
    }

    /** `getVWAPLevel`: ask side first, then bid side ([`VwapLevelAskFirst`]). */
    method GetVWAPLevel(book: Option<Ladder>) returns (r: int)
      requires Valid()
      ensures r == VwapLevelAskFirst(GetVWAP(), book)
    {
      r := AskFirstLevel(GetVWAP(), book);
    }
  }

  /** The slot at `head` is live exactly when the ring is full. */
  lemma HeadLiveWhenFull(head: nat, count: nat)
    requires head < MAX_TRADES && count <= MAX_TRADES
    ensures IsLive(head, count, head) <==> count == MAX_TRADES
  {
    OffsetUnique(head, head, 0);
  }
}
