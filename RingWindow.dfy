/** `RingBufferSlidingWindowStats` of impl/include/impl/sliding_window_ring.hpp
    and impl/src/sliding_window_ring.cpp: the ring of the last 65536 trades
    with running sums, and instead of heaps a cached min/max that recording
    only widens and that a scan of the live trades rebuilds once eviction
    has made it invalid. */
module RingWindow {
  import opened Common
  import opened WindowCommon

  // ------------------------------------------------------- min/max scan

  /** Scanning one more price at the end moves the minimum only when that
      price is below it. */
  lemma {:induction false} MinFromAppend(s: seq<int>, p: int, init: int)
    ensures MinFrom(s + [p], init) == if p < MinFrom(s, init) then p else MinFrom(s, init)
  {
    if s != [] {
      assert (s + [p])[1..] == s[1..] + [p];
      MinFromAppend(s[1..], p, if s[0] < init then s[0] else init);
    }
  }

  /** Scanning one more price at the end moves the maximum only when that
      price is above it. */
  lemma {:induction false} MaxFromAppend(s: seq<int>, p: int, init: int)
    ensures MaxFrom(s + [p], init) == if p > MaxFrom(s, init) then p else MaxFrom(s, init)
  {
    if s != [] {
      assert (s + [p])[1..] == s[1..] + [p];
      MaxFromAppend(s[1..], p, if s[0] > init then s[0] else init);
    }
  }

  /** The scan of `rebuildCacheIfNeeded`: from INT32_MAX / INT32_MIN, each
      live price, oldest first, lowers the minimum or raises the maximum. */
  method ScanMinMax(trades: array<Trade>, head: nat, count: nat) returns (lo: int, hi: int)
    requires trades.Length == MAX_TRADES && count <= MAX_TRADES
    ensures lo == MinFrom(Prices(LiveOf(trades[..], head, count)), INT32_MAX)
    ensures hi == MaxFrom(Prices(LiveOf(trades[..], head, count)), INT32_MIN)
  {
    ghost var P := Prices(LiveOf(trades[..], head, count));
    lo, hi := INT32_MAX, INT32_MIN;
    var i := 0;
    while i < count
      invariant i <= count
      invariant MinFrom(P[i..], lo) == MinFrom(P, INT32_MAX)
      invariant MaxFrom(P[i..], hi) == MaxFrom(P, INT32_MIN)
    {
      var price := trades[(head + (MAX_TRADES - count + i)) % MAX_TRADES].price;
      assert price == P[i] && P[i..][1..] == P[i + 1..];
      if price < lo {
        lo := price;
      }
      if price > hi {
        hi := price;
      }
      i := i + 1;
    }
    assert P[count..] == [];
  }

  /** A scan from INT32_MAX / INT32_MIN over int32 prices stays within the
      int32 range and bounds every price. */
  lemma ScanBounds(live: seq<Trade>)
    requires AllWellTyped(live)
    ensures IsInt32(MinFrom(Prices(live), INT32_MAX)) && IsInt32(MaxFrom(Prices(live), INT32_MIN))
    ensures Within(live, MinFrom(Prices(live), INT32_MAX), MaxFrom(Prices(live), INT32_MIN))
  {
    var P := Prices(live);
    var lo, hi := MinFrom(P, INT32_MAX), MaxFrom(P, INT32_MIN);
    if lo in P {
      var i :| 0 <= i < |P| && P[i] == lo;
      assert WellTyped(live[i]);
    }
    if hi in P {
      var i :| 0 <= i < |P| && P[i] == hi;
      assert WellTyped(live[i]);
    }
  }

  /** The scan of a non-empty list of int32 prices finds its true minimum
      and maximum. */
  lemma ScanIsExtremes(live: seq<Trade>)
    requires AllWellTyped(live) && live != []
    ensures IsMinOf(MinFrom(Prices(live), INT32_MAX), Prices(live))
    ensures IsMaxOf(MaxFrom(Prices(live), INT32_MIN), Prices(live))
  {
    var P := Prices(live);
    forall i | 0 <= i < |P|
      ensures IsInt32(P[i])
    {
      assert WellTyped(live[i]);
    }
    ScanFindsExtremes(P, MaxFrom(P, INT32_MIN), MinFrom(P, INT32_MAX));
  }

  /** Over the same non-empty int32 prices, an exact cache holds the same
      minimum and maximum as any other true minimum and maximum, such as the
      heap variant's heap tops: on a trade sequence that evicts nothing and
      never fills the ring the two variants report the same range. */
  lemma RangesAgree(P: seq<int>, lo: int, hi: int, heapLo: int, heapHi: int)
    requires P != [] && forall i :: 0 <= i < |P| ==> IsInt32(P[i])
    requires lo == MinFrom(P, INT32_MAX) && hi == MaxFrom(P, INT32_MIN)
    requires IsMinOf(heapLo, P) && IsMaxOf(heapHi, P)
    ensures hi == heapHi && lo == heapLo
  {
    ScanFindsExtremes(P, heapHi, heapLo);
  }

  /** While the cache is valid, no live price lies outside it. */
  ghost predicate CacheBounds(live: seq<Trade>, valid: bool, lo: int, hi: int)
  {
    valid ==> Within(live, lo, hi)
  }

  /** A valid cache holds what a rebuild would compute. */
  ghost predicate CacheOf(live: seq<Trade>, valid: bool, lo: int, hi: int)
  {
    valid ==> lo == MinFrom(Prices(live), INT32_MAX) && hi == MaxFrom(Prices(live), INT32_MIN)
  }

  /** Recording a trade keeps the live trades well typed and, once the
      cache is widened to the price, inside a valid cache; into a ring that
      is not full it also keeps exact sums exact and an exact cache exact. */
  lemma RecordKeeps(live: seq<Trade>, t: Trade, lo: int, hi: int, valid: bool, q: nat, a: nat)
    requires |live| <= MAX_TRADES && AllWellTyped(live) && WellTyped(t) && CacheBounds(live, valid, lo, hi)
    ensures AllWellTyped(Appended(live, t))
    ensures CacheBounds(Appended(live, t), valid, if t.price < lo then t.price else lo, if t.price > hi then t.price else hi)
    ensures |live| < MAX_TRADES && SumsMatch(live, q, a) ==> SumsMatch(Appended(live, t), U64(q + t.qty), U64(a + t.amount))
    ensures |live| < MAX_TRADES && CacheOf(live, valid, lo, hi) ==>
              CacheOf(Appended(live, t), valid, if t.price < lo then t.price else lo, if t.price > hi then t.price else hi)
  {
    AppendedKeeps(live, t, lo, hi);
    if |live| < MAX_TRADES {
      if SumsMatch(live, q, a) {
        SumsAfterAppend(live, t, q, a);
      }
      CacheAfterAppend(live, t, lo, hi, valid);
    }
  }

  /** Appending to a ring that is not full keeps an exact cache exact,
      once it is widened to the new price. */
  lemma CacheAfterAppend(live: seq<Trade>, t: Trade, lo: int, hi: int, valid: bool)
    requires |live| < MAX_TRADES
    ensures CacheOf(live, valid, lo, hi) ==>
              CacheOf(Appended(live, t), valid, if t.price < lo then t.price else lo, if t.price > hi then t.price else hi)
  {
    assert Prices(Appended(live, t)) == Prices(live) + [t.price];
    MinFromAppend(Prices(live), t.price, INT32_MAX);
    MaxFromAppend(Prices(live), t.price, INT32_MIN);
  }

  class RingWindowStats {
    const trades: array<Trade>
    var head: nat
    var count: nat
    var sumQty: nat
    var sumAmount: nat
    var minPrice: int
    var maxPrice: int
    var cacheValid: bool

    /** The fields have their C++ widths, and while the cache is valid no
        live price lies outside the cached min/max. */
    ghost predicate Valid()
      reads this, trades
    {
      && trades.Length == MAX_TRADES
      && head < MAX_TRADES && count <= MAX_TRADES
      && sumQty < TWO_64 && sumAmount < TWO_64
      && IsInt32(minPrice) && IsInt32(maxPrice)
      && AllWellTyped(Live())
      && CacheBounds(Live(), cacheValid, minPrice, maxPrice)
    }

    /** The live trades, oldest first. */
    function Live(): (r: seq<Trade>)
      reads this`head, this`count, trades
      requires trades.Length == MAX_TRADES && count <= MAX_TRADES
      ensures |r| == count
    {
      LiveOf(trades[..], head, count)
    }

    /** The running sums equal the sums over the live trades (mod 2^64). */
    ghost predicate SumsExact()
      reads this`head, this`count, this`sumQty, this`sumAmount, trades
      requires trades.Length == MAX_TRADES && count <= MAX_TRADES
    {
      SumsMatch(Live(), sumQty, sumAmount)
    }

    /** A valid cache holds what a rebuild would compute. */
    ghost predicate CacheExact()
      reads this`head, this`count, this`minPrice, this`maxPrice, this`cacheValid, trades
      requires trades.Length == MAX_TRADES && count <= MAX_TRADES
    {
      CacheOf(Live(), cacheValid, minPrice, maxPrice)
    }

    /** The constructor: an empty ring, zero sums, a valid cache at
        INT32_MAX / INT32_MIN. */
    constructor ()
      ensures Valid() && SumsExact() && CacheExact()
      ensures Live() == [] && head == 0 && sumQty == 0 && sumAmount == 0
      ensures cacheValid && minPrice == INT32_MAX && maxPrice == INT32_MIN
    {
      trades := new Trade[MAX_TRADES](_ => Trade(0, 0, 0, 0));
      head, count := 0, 0;
      sumQty, sumAmount := 0, 0;
      minPrice, maxPrice := INT32_MAX, INT32_MIN;
      cacheValid := true;
    }

    /** `rebuildCacheIfNeeded`: a valid cache is left alone; an invalid one
        is set to the minimum and maximum of the live prices (INT32_MAX /
        INT32_MIN for an empty window) and marked valid. */
    method RebuildCacheIfNeeded()
      requires Valid()
      modifies this`minPrice, this`maxPrice, this`cacheValid
      ensures Valid() && cacheValid
      ensures old(cacheValid) ==> minPrice == old(minPrice) && maxPrice == old(maxPrice)
      ensures !old(cacheValid) ==> CacheExact()
      ensures old(CacheExact()) ==> CacheExact()
    {
      if cacheValid {
        return;
      }
      ScanBounds(Live());
      minPrice, maxPrice := ScanMinMax(trades, head, count);
      cacheValid := true;
    }

    /** `recordTrade`: the trade, with its timestamp as given and amount
        `price * qty` (uint64_t), goes in at `head_`, overwriting the oldest
        one when the ring is full; the sums grow modulo 2^64 and the cached
        min/max only widen to the price, whether or not the cache is valid. */
    method RecordTrade(timestamp: nat, price: int, qty: nat)
      requires Valid() && timestamp < TWO_64 && IsInt32(price) && qty < TWO_64
      modifies this`head, this`count, this`sumQty, this`sumAmount, this`minPrice, this`maxPrice, trades
      ensures Valid()
      ensures Live() == Appended(old(Live()), Trade(timestamp, price, qty, Amount(price, qty)))
      ensures trades[..] == old(trades[..])[old(head) := Trade(timestamp, price, qty, Amount(price, qty))]
      ensures head == (old(head) + 1) % MAX_TRADES
      ensures sumQty == U64(old(sumQty) + qty) && sumAmount == U64(old(sumAmount) + Amount(price, qty))
      ensures minPrice == if price < old(minPrice) then price else old(minPrice)
      ensures maxPrice == if price > old(maxPrice) then price else old(maxPrice)
      ensures old(SumsExact()) && old(count) < MAX_TRADES ==> SumsExact()
      ensures old(CacheExact()) && old(count) < MAX_TRADES ==> CacheExact()
    {
      var amount := Amount(price, qty);
      var t := Trade(timestamp, price, qty, amount);
      var sq, sa := U64(sumQty + qty), U64(sumAmount + amount);
      var lo := if price < minPrice then price else minPrice;
      var hi := if price > maxPrice then price else maxPrice;
      ghost var before := Live();
      RecordKeeps(before, t, minPrice, maxPrice, cacheValid, sumQty, sumAmount);
      Store(t);
      assert Live() == Appended(before, t);
      sumQty, sumAmount, minPrice, maxPrice := sq, sa, lo, hi;
    }

    /** The ring half of `recordTrade`: the trade goes in at `head_`, `head_`
        advances and `count_` grows until the ring is full. */
    method Store(t: Trade)
      requires trades.Length == MAX_TRADES && head < MAX_TRADES && count <= MAX_TRADES
      modifies this`head, this`count, trades
      ensures head < MAX_TRADES && count <= MAX_TRADES
      ensures Live() == Appended(old(Live()), t)
      ensures trades[..] == old(trades[..])[old(head) := t]
      ensures head == (old(head) + 1) % MAX_TRADES
    {
      ghost var T := trades[..];
      LiveAfterRecord(T, head, count, t);
      trades[head] := t;
      assert trades[..] == T[head := t];
      head, count := (head + 1) % MAX_TRADES, if count < MAX_TRADES then count + 1 else count;
    }

    /** What eviction at `current` seconds leaves of a window that held the
        trades `L` with sums `q0`, `a0` and cached min/max `lo0`, `hi0`:
        with `cutoff = current - 600` in uint64_t arithmetic, the oldest
        trades outside `[cutoff, current)` are gone, up to the first one
        inside it, and off the sums; when more than a quarter of the trades
        left the cache has been rebuilt, and otherwise it is invalid and
        untouched. */
    ghost predicate EvictedFrom(L: seq<Trade>, q0: nat, a0: nat, lo0: int, hi0: int, current: nat)
      reads this, trades
      requires trades.Length == MAX_TRADES && count <= MAX_TRADES
    {
      var k := ExpiredOutside(L, U64(current - WINDOW_SECONDS), current, 0);
      && Live() == L[k..]
      && DroppedSums(L, k, q0, a0, sumQty, sumAmount)
      && (|L| > 0 && 4 * k > |L| ==> cacheValid)
      && (!(|L| > 0 && 4 * k > |L|) ==> !cacheValid && minPrice == lo0 && maxPrice == hi0)
    }

    /** `evictExpired`, after the grid time has been converted: `seconds`
        is what `mktime` gives, `None` when it fails, and then nothing
        changes; otherwise the window is as [`EvictedFrom`] describes, and
        its cache is exact. */
    method EvictExpired(seconds: Option<nat>)
      requires Valid() && (seconds.Some? ==> seconds.value < TWO_64)
      modifies this`count, this`sumQty, this`sumAmount, this`minPrice, this`maxPrice, this`cacheValid
      ensures Valid()
      ensures seconds.None? ==> count == old(count) && sumQty == old(sumQty) && sumAmount == old(sumAmount)
                                && minPrice == old(minPrice) && maxPrice == old(maxPrice) && cacheValid == old(cacheValid)
      ensures seconds.Some? ==> CacheExact()
      ensures seconds.Some? ==> EvictedFrom(old(Live()), old(sumQty), old(sumAmount), old(minPrice), old(maxPrice), seconds.value)
      ensures old(SumsExact()) ==> SumsExact()
      ensures old(CacheExact()) ==> CacheExact()
    {
      if seconds.Some? {
        Evict(seconds.value);
      }
    }

    /** `evictExpired` once `mktime` has given `current` seconds. */
    method Evict(current: nat)
      requires Valid() && current < TWO_64
      modifies this`count, this`sumQty, this`sumAmount, this`minPrice, this`maxPrice, this`cacheValid
      ensures Valid() && CacheExact()
      ensures EvictedFrom(old(Live()), old(sumQty), old(sumAmount), old(minPrice), old(maxPrice), current)
      ensures old(SumsExact()) ==> SumsExact()
    {
      var oldCount := DropExpired(current);
      SettleCache(oldCount);
    }

    /** The eviction loop of `evictExpired` from a valid window: the
        expired prefix leaves, the sums follow, and the window stays valid. */
    method DropExpired(current: nat) returns (oldCount: nat)
      requires Valid() && current < TWO_64
      modifies this`count, this`sumQty, this`sumAmount
      ensures Valid() && oldCount == old(count) && count <= oldCount
      ensures Live() == old(Live())[ExpiredOutside(old(Live()), U64(current - WINDOW_SECONDS), current, 0)..]
      ensures DroppedSums(old(Live()), ExpiredOutside(old(Live()), U64(current - WINDOW_SECONDS), current, 0),
                          old(sumQty), old(sumAmount), sumQty, sumAmount)
      ensures old(SumsExact()) ==> SumsExact()
    {
      var cutoff := U64(current - WINDOW_SECONDS);
      ghost var L := Live();
      ghost var k := ExpiredOutside(L, cutoff, current, 0);
      SuffixKeeps(L, k, minPrice, maxPrice);
      if SumsExact() {
        SumsAfterDrop(L, k, sumQty, sumAmount);
      }
      oldCount := count;
      DropOutside(cutoff, current);
    }

    /** The end of `evictExpired`: the cache is marked invalid, and rebuilt
        at once when more than a quarter (`REBUILD_THRESHOLD`) of the
        `oldCount` trades left; either way it ends exact. */
    method SettleCache(oldCount: nat)
      requires Valid() && count <= oldCount
      modifies this`minPrice, this`maxPrice, this`cacheValid
      ensures Valid() && CacheExact()
      ensures oldCount > 0 && 4 * (oldCount - count) > oldCount ==> cacheValid
      ensures !(oldCount > 0 && 4 * (oldCount - count) > oldCount) ==>
                !cacheValid && minPrice == old(minPrice) && maxPrice == old(maxPrice)
    {
      var evicted := oldCount - count;
      cacheValid := false;
      if oldCount > 0 && 4 * evicted > oldCount {
        RebuildCacheIfNeeded();
      }
    }

    /** The eviction loop of `evictExpired`: drop the oldest trade while it
        lies outside `[lo, hi)`, taking it off the sums. */
    method DropOutside(lo: nat, hi: nat)
      requires trades.Length == MAX_TRADES && head < MAX_TRADES && count <= MAX_TRADES
      requires sumQty < TWO_64 && sumAmount < TWO_64
      modifies this`count, this`sumQty, this`sumAmount
      ensures count <= MAX_TRADES && sumQty < TWO_64 && sumAmount < TWO_64
      ensures Live() == old(Live())[ExpiredOutside(old(Live()), lo, hi, 0)..]
      ensures DroppedSums(old(Live()), ExpiredOutside(old(Live()), lo, hi, 0), old(sumQty), old(sumAmount), sumQty, sumAmount)
    {
      ghost var L := Live();
      ghost var j := 0;
      while count > 0
        invariant j <= |L| && count == |L| - j && Live() == L[j..]
        invariant ExpiredOutside(L, lo, hi, 0) == ExpiredOutside(L, lo, hi, j)
        invariant DroppedSums(L, j, old(sumQty), old(sumAmount), sumQty, sumAmount)
        decreases count
      {
        var t := Oldest();
        assert t == L[j];
        if t.timestamp >= lo && t.timestamp < hi {
          break;
        }
        DropFirst(L, j, old(sumQty), old(sumAmount));
        j := j + 1;
      }
    }

    /** The oldest live trade, at `tail = (head_ - count_) mod 65536`. */
    function Oldest(): (t: Trade)
      reads this`head, this`count, trades
      requires trades.Length == MAX_TRADES && 0 < count <= MAX_TRADES
      ensures t == Live()[0]
    {
      LiveAfterEvict(trades[..], head, count);
      trades[(head + (MAX_TRADES - count)) % MAX_TRADES]
    }

    /** One step of the eviction loop: the oldest live trade leaves and its
        quantity and amount come off the sums (mod 2^64). */
    method DropFirst(ghost L: seq<Trade>, ghost j: nat, ghost q0: nat, ghost a0: nat)
      requires trades.Length == MAX_TRADES && head < MAX_TRADES && 0 < count <= MAX_TRADES
      requires j < |L| && count == |L| - j && Live() == L[j..]
      requires DroppedSums(L, j, q0, a0, sumQty, sumAmount)
      modifies this`count, this`sumQty, this`sumAmount
      ensures count == |L| - (j + 1) && Live() == L[j + 1..]
      ensures sumQty < TWO_64 && sumAmount < TWO_64
      ensures DroppedSums(L, j + 1, q0, a0, sumQty, sumAmount)
    {
      var t := Oldest();
      LiveAfterEvict(trades[..], head, count);
      SumsDropOne(L, j, t, q0, a0, sumQty, sumAmount);
      assert L[j + 1..] == L[j..][1..];
      sumQty, sumAmount := U64(sumQty - t.qty), U64(sumAmount - t.amount);
      count := count - 1;
    }

    /** `getPriceRange`: 0 for an empty window; otherwise the cache is
        rebuilt if invalid and the cached max minus min is returned as an
        int32_t. Every live price lies in the range read, and when the
        cache was exact (as after any successful eviction) it is the true
        range. */
    method GetPriceRange() returns (r: int)
      requires Valid()
      modifies this`minPrice, this`maxPrice, this`cacheValid
      ensures Valid()
      ensures count == 0 ==> r == 0 && minPrice == old(minPrice) && maxPrice == old(maxPrice) && cacheValid == old(cacheValid)
      ensures count > 0 ==> cacheValid && r == ToInt32(maxPrice - minPrice) && Within(Live(), minPrice, maxPrice)
      ensures count > 0 && old(CacheExact()) ==> IsMinOf(minPrice, Prices(Live())) && IsMaxOf(maxPrice, Prices(Live()))
      ensures old(CacheExact()) ==> CacheExact()
    {
      if count == 0 {
        return 0;
      }
      RebuildCacheIfNeeded();
      ScanIsExtremes(Live());
      r := ToInt32(maxPrice - minPrice);
    }

    /** `getTotalVolume`: the running quantity sum. */
    function GetTotalVolume(): (r: nat)
      reads this, trades
      requires Valid()
      ensures r < TWO_64
      ensures SumsExact() ==> r == U64(SumQty(Live()))
    {
      sumQty
    }

    /** `getTotalAmount`: the running amount sum. */
    function GetTotalAmount(): (r: nat)
      reads this, trades
      requires Valid()
      ensures r < TWO_64
      ensures SumsExact() ==> r == U64(SumAmount(Live()))
    {
      sumAmount
    }

    /** `getVWAP`: 0 for an empty window or zero volume, else the integer
        quotient of the sums. */
    function GetVWAP(): (v: nat)
      reads this
      ensures count == 0 || sumQty == 0 ==> v == 0
      ensures count > 0 && sumQty > 0 ==> v * sumQty <= sumAmount < (v + 1) * sumQty
    {
      Vwap(count, sumQty, sumAmount)
    }

    /** `getCount`: the number of live trades, never above 65536. */
    function GetCount(): (r: nat)
      reads this, trades
      requires Valid()
      ensures r == |Live()| && r <= MAX_TRADES
    {
      count
    }

    /** `isCacheValid`: while it answers true every live price lies within
        the cached min/max. */
    function IsCacheValid(): (r: bool)
      reads this, trades
      requires Valid()
      ensures r ==> Within(Live(), minPrice, maxPrice)
    {
      cacheValid
    }

    /** `getMedianPrice`: the middle of the live prices by rank ([`MedianOf`]). */
    method GetMedianPrice() returns (m: int)
      requires Valid()
      ensures m == MedianOf(Prices(Live()))
    {
      m := RingMedian(trades, head, count);
    }

    /** `getVWAPLevel`: ask side first, then bid side ([`VwapLevelAskFirst`]). */
    method GetVWAPLevel(book: Option<Ladder>) returns (r: int)
      requires Valid()
      ensures r == VwapLevelAskFirst(GetVWAP(), book)
    {
      r := AskFirstLevel(GetVWAP(), book);
    }
  }
}
