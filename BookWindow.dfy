/** The `SlidingWindowStats` defined in impl/src/order_book.cpp: a ring of
    the last 65536 trades with running sums and a widening min/max, owned
    by each order book. */
module BookWindow {
  import opened Common
  import opened WindowCommon

  /** What `evictExpired(now)` leaves of a window: the trades after the
      oldest ones stamped at or before `now - 600` (uint64_t). */
  function Evicted(live: seq<Trade>, now: nat): (r: seq<Trade>)
    ensures |r| <= |live|
  {
    live[ExpiredAtOrBefore(live, U64(now - WINDOW_SECONDS), 0)..]
  }

  class SlidingWindowStats {
    const trades: array<Trade>
    var head: nat
    var count: nat
    var sumQty: nat
    var sumAmount: nat
    var minPrice: int
    var maxPrice: int

    /** The fields have their C++ widths, and the min/max never exclude a
        live price: recording only widens them and eviction only shrinks
        the window. */
    ghost predicate Valid()
      reads this, trades
    {
      && trades.Length == MAX_TRADES
      && head < MAX_TRADES && count <= MAX_TRADES
      && sumQty < TWO_64 && sumAmount < TWO_64
      && IsInt32(minPrice) && IsInt32(maxPrice)
      && AllWellTyped(Live())
      && Within(Live(), minPrice, maxPrice)
    }

    /** The live trades, oldest first. */
    function Live(): (r: seq<Trade>)
      reads this`head, this`count, trades
      requires trades.Length == MAX_TRADES && count <= MAX_TRADES
      ensures |r| == count
    {
      LiveOf(trades[..], head, count)
    }

    /** The running sums equal the sums over the live trades (mod 2^64). */
    ghost predicate SumsExact()
      reads this`head, this`count, this`sumQty, this`sumAmount, trades
      requires trades.Length == MAX_TRADES && count <= MAX_TRADES
    {
      SumsMatch(Live(), sumQty, sumAmount)
    }

    /** The default-constructed window: empty, zero sums, min at INT32_MAX
        and max at INT32_MIN. */
    constructor ()
      ensures Valid() && fresh(trades) && SumsExact()
      ensures Live() == [] && head == 0 && sumQty == 0 && sumAmount == 0
      ensures minPrice == INT32_MAX && maxPrice == INT32_MIN
    {
      trades := new Trade[MAX_TRADES](_ => Trade(0, 0, 0, 0));
      head, count := 0, 0;
      sumQty, sumAmount := 0, 0;
      minPrice, maxPrice := INT32_MAX, INT32_MIN;
    }

    /** `recordTrade`: the trade goes in at `head_`, overwriting the oldest
        one when the ring is full; the sums grow modulo 2^64 (an overwritten
        trade is not taken off them) and the min/max widen to the price. */
    method RecordTrade(timestamp: nat, price: int, qty: nat)
      requires Valid() && timestamp < TWO_64 && IsInt32(price) && qty < TWO_64
      modifies this`head, this`count, this`sumQty, this`sumAmount, this`minPrice, this`maxPrice, trades
      ensures Valid()
      ensures Live() == Appended(old(Live()), Trade(timestamp, price, qty, Amount(price, qty)))
      ensures head == (old(head) + 1) % MAX_TRADES
      ensures sumQty == U64(old(sumQty) + qty)
      ensures sumAmount == U64(old(sumAmount) + Amount(price, qty))
      ensures minPrice == if price < old(minPrice) then price else old(minPrice)
      ensures maxPrice == if price > old(maxPrice) then price else old(maxPrice)
      ensures old(SumsExact()) && old(count) < MAX_TRADES ==> SumsExact()
    {
      var amount := Amount(price, qty);
      var t := Trade(timestamp, price, qty, amount);
      ghost var before := Live();
      AppendedKeeps(before, t, minPrice, maxPrice);
      if SumsExact() && count < MAX_TRADES {
        SumsAfterAppend(before, t, sumQty, sumAmount);
      }
      var lo := if price < minPrice then price else minPrice;
      var hi := if price > maxPrice then price else maxPrice;
      Store(t);
      assert Live() == Appended(before, t);
      sumQty, sumAmount := U64(sumQty + qty), U64(sumAmount + amount);
      minPrice, maxPrice := lo, hi;
    }

    /** The ring half of `recordTrade`: the trade goes in at `head_`, `head_`
        advances and `count_` grows until the ring is full. */
    method Store(t: Trade)
      requires trades.Length == MAX_TRADES && head < MAX_TRADES && count <= MAX_TRADES
      modifies this`head, this`count, trades
      ensures head < MAX_TRADES && count <= MAX_TRADES
      ensures Live() == Appended(old(Live()), t)
      ensures head == (old(head) + 1) % MAX_TRADES
    {
      LiveAfterRecord(trades[..], head, count, t);
      trades[head] := t;
      head := (head + 1) % MAX_TRADES;
      if count < MAX_TRADES {
        count := count + 1;
      }
    }

    /** `evictExpired`: with `cutoff = now - 600` in uint64_t arithmetic,
        the oldest trades stamped at or before the cutoff leave, up to the
        first newer one; their amounts come off the sums, and an emptied
        window resets min/max to INT32_MAX / INT32_MIN (otherwise they are
        left as they were, possibly stale). */
    method EvictExpired(now: nat)
      requires Valid() && now < TWO_64
      modifies this`count, this`sumQty, this`sumAmount, this`minPrice, this`maxPrice
      ensures Valid() && head == old(head)
      ensures var k := ExpiredAtOrBefore(old(Live()), U64(now - WINDOW_SECONDS), 0);
        && Live() == old(Live())[k..]
        && sumQty == U64(old(sumQty) - SumQty(old(Live())[..k]))
        && sumAmount == U64(old(sumAmount) - SumAmount(old(Live())[..k]))
      ensures count == 0 ==> minPrice == INT32_MAX && maxPrice == INT32_MIN
      ensures count > 0 ==> minPrice == old(minPrice) && maxPrice == old(maxPrice)
      ensures old(SumsExact()) ==> SumsExact()
    {
      ghost var L := Live();
      ghost var k := ExpiredAtOrBefore(L, U64(now - WINDOW_SECONDS), 0);
      DropAtOrBefore(U64(now - WINDOW_SECONDS));
      SuffixKeeps(L, k, minPrice, maxPrice);
      if count == 0 {
        minPrice, maxPrice := INT32_MAX, INT32_MIN;
      }
      if old(SumsExact()) {
        SumsAfterDrop(L, k, old(sumQty), old(sumAmount));
      }
    }

    /** The eviction loop of `evictExpired`: drop the oldest trade while it
        is stamped at or before `cutoff`, taking it off the sums. */
    method DropAtOrBefore(cutoff: nat)
      requires trades.Length == MAX_TRADES && head < MAX_TRADES && count <= MAX_TRADES
      requires sumQty < TWO_64 && sumAmount < TWO_64
      modifies this`count, this`sumQty, this`sumAmount
      ensures count <= MAX_TRADES && sumQty < TWO_64 && sumAmount < TWO_64
      ensures Live() == old(Live())[ExpiredAtOrBefore(old(Live()), cutoff, 0)..]
      ensures DroppedSums(old(Live()), ExpiredAtOrBefore(old(Live()), cutoff, 0), old(sumQty), old(sumAmount), sumQty, sumAmount)
    {
      ghost var L := Live();
      ghost var j := 0;
      while count > 0
        invariant j <= |L| && count == |L| - j && Live() == L[j..]
        invariant ExpiredAtOrBefore(L, cutoff, 0) == ExpiredAtOrBefore(L, cutoff, j)
        invariant DroppedSums(L, j, old(sumQty), old(sumAmount), sumQty, sumAmount)
        decreases count
      {
        var t := Oldest();
        assert t == L[j];
        if t.timestamp > cutoff {
          break;
        }
        DropFirst(L, j, old(sumQty), old(sumAmount));
        j := j + 1;
      }
    }

    /** The oldest live trade, at `tail = (head_ - count_) mod 65536`. */
    function Oldest(): (t: Trade)
      reads this`head, this`count, trades
      requires trades.Length == MAX_TRADES && 0 < count <= MAX_TRADES
      ensures t == Live()[0]
    {
      LiveAfterEvict(trades[..], head, count);
      trades[(head + (MAX_TRADES - count)) % MAX_TRADES]
    }

    /** One step of the eviction loop: the oldest live trade leaves and its
        quantity and amount come off the sums (mod 2^64). */
    method DropFirst(ghost L: seq<Trade>, ghost j: nat, ghost q0: nat, ghost a0: nat)
      requires trades.Length == MAX_TRADES && head < MAX_TRADES && 0 < count <= MAX_TRADES
      requires j < |L| && count == |L| - j && Live() == L[j..]
      requires DroppedSums(L, j, q0, a0, sumQty, sumAmount)
      modifies this`count, this`sumQty, this`sumAmount
      ensures count == |L| - (j + 1) && Live() == L[j + 1..]
      ensures sumQty < TWO_64 && sumAmount < TWO_64
      ensures DroppedSums(L, j + 1, q0, a0, sumQty, sumAmount)
    {
      var t := Oldest();
      LiveAfterEvict(trades[..], head, count);
      SumsDropOne(L, j, t, q0, a0, sumQty, sumAmount);
      assert L[j + 1..] == L[j..][1..];
      sumQty, sumAmount := U64(sumQty - t.qty), U64(sumAmount - t.amount);
      count := count - 1;
    }

    /** `getMedianPrice`: the middle of the live prices by rank ([`MedianOf`]). */
    method GetMedianPrice() returns (m: int)
      requires Valid()
      ensures m == MedianOf(Prices(Live()))
    {
      m := RingMedian(trades, head, count);
    }

    /** `getVWAP`, with the definition the ring variant gives it. */
    function GetVWAP(): (v: nat)
      reads this
      ensures count == 0 || sumQty == 0 ==> v == 0
      ensures count > 0 && sumQty > 0 ==> v * sumQty <= sumAmount < (v + 1) * sumQty
    {
      Vwap(count, sumQty, sumAmount)
    }

    /** `getVWAPLevel`: bid levels first, then ask levels ([`VwapLevelBidFirst`]). */
    method GetVWAPLevel(book: Option<Ladder>) returns (r: int)
      requires Valid()
      ensures r == VwapLevelBidFirst(GetVWAP(), book)
    {
      var vwap := GetVWAP();
      if vwap == 0 || book.None? {
        return 0;
      }
      var p := ToInt32(vwap);
      var bids, asks := book.value.bids, book.value.asks;
      var i := 0;
      while i < |bids|
        invariant i <= |bids| && FirstBidAtOrBelow(p, bids, 0) == FirstBidAtOrBelow(p, bids, i)
      {
        if p >= bids[i] {
          return i;
        }
        i := i + 1;
      }
      i := 0;
      while i < |asks|
        invariant i <= |asks| && FirstAskAtOrAbove(p, asks, 0) == FirstAskAtOrAbove(p, asks, i)
      {
        if p <= asks[i] {
          return -i;
        }
        i := i + 1;
      }
      return 0;
    }
  }
}
