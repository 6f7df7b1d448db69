/** The pieces the three sliding-window statistics classes share: the ring
    buffer of trades and its live window, the sorted-middle median, the
    volume-weighted average price (VWAP) and the two VWAP-level rules. */
module WindowCommon {
  import opened Common

  const MAX_TRADES: nat := 65536
  const WINDOW_SECONDS: nat := 600

  /** One ring slot: `timestamps_[i]`, `prices_[i]`, `quantities_[i]`, `amounts_[i]`. */
  datatype Trade = Trade(timestamp: nat, price: int, qty: nat, amount: nat)

  /** `static_cast<uint64_t>(price) * qty`, in uint64_t arithmetic. */
  function Amount(price: int, qty: nat): (r: nat)
    ensures r < TWO_64
  {
    U64(U64(price) * qty)
  }

  /** A non-negative price whose product with the quantity fits in 64 bits
      gives the exact product. */
  lemma AmountExact(price: int, qty: nat)
    ensures 0 <= price && price * qty < TWO_64 ==> Amount(price, qty) == price * qty
  {
    if 0 <= price && price * qty < TWO_64 && qty > 0 {
      MulMonotone(qty, price + 1);
      assert price < TWO_64;
    }
  }

  // ------------------------------------------------------------ the ring

  /** Ring index of the `i`-th oldest live trade: `(head + (MAX - count + i)) % MAX`. */
  function Pos(head: nat, count: nat, i: nat): (p: nat)
    requires count <= MAX_TRADES && i < count
    ensures p < MAX_TRADES
  {
    (head + (MAX_TRADES - count + i)) % MAX_TRADES
  }

  /** The live trades, oldest first. */
  function LiveOf(buf: seq<Trade>, head: nat, count: nat): (r: seq<Trade>)
    requires |buf| == MAX_TRADES && count <= MAX_TRADES
    ensures |r| == count
  {
    seq(count, i requires 0 <= i < count => buf[Pos(head, count, i)])
  }

  /** What recording a trade does to the window: it is appended, and when
      the ring is full the oldest trade is overwritten. */
  function Appended(live: seq<Trade>, t: Trade): (r: seq<Trade>)
    requires |live| <= MAX_TRADES
    ensures |r| == if |live| < MAX_TRADES then |live| + 1 else MAX_TRADES
    ensures r[|r| - 1] == t
  {
    if |live| < MAX_TRADES then live + [t] else live[1..] + [t]
  }

  lemma ModAddSmall(a: nat, d: nat, m: nat)
    requires a < m && d < m
    ensures (a + d) % m == if a + d < m then a + d else a + d - m
  {
    if a + d < m { ModUnique(a + d, 0, a + d, m); } else { ModUnique(a + d, 1, a + d - m, m); }
  }

  /** Writing at `head`, advancing `head` and saturating `count` appends
      the trade to the live window. */
  lemma {:induction false} LiveAfterRecord(buf: seq<Trade>, head: nat, count: nat, t: Trade)
    requires |buf| == MAX_TRADES && head < MAX_TRADES && count <= MAX_TRADES
    ensures LiveOf(buf[head := t], (head + 1) % MAX_TRADES, if count < MAX_TRADES then count + 1 else count)
         == Appended(LiveOf(buf, head, count), t)
  {
    var M := MAX_TRADES;
    var buf' := buf[head := t];
    var h' := (head + 1) % M;
    var c' := if count < M then count + 1 else count;
    var old_ := LiveOf(buf, head, count);
    var new_ := LiveOf(buf', h', c');
    var want := Appended(old_, t);
    assert |new_| == |want|;
    forall i | 0 <= i < c' ensures new_[i] == want[i] {
      var shift := if count < M then 0 else 1;
      ModAddFold(head + 1, M - c' + i, M);
      if i == c' - 1 {
        ModMultiple(head, 1, M);
        assert Pos(h', c', i) == head;
      } else {
        var d := M - count + i + shift;
        assert Pos(h', c', i) == (head + d) % M;
        ModAddSmall(head, d, M);
        assert Pos(h', c', i) != head;
        assert Pos(h', c', i) == Pos(head, count, i + shift);
      }
    }
  }

  /** Dropping the oldest trade is decrementing `count`; the oldest trade
      sits at `(head + (MAX - count)) % MAX`. */
  lemma LiveAfterEvict(buf: seq<Trade>, head: nat, count: nat)
    requires |buf| == MAX_TRADES && 0 < count <= MAX_TRADES
    ensures LiveOf(buf, head, count)[0] == buf[(head + (MAX_TRADES - count)) % MAX_TRADES]
    ensures LiveOf(buf, head, count - 1) == LiveOf(buf, head, count)[1..]
  {
    var a, b := LiveOf(buf, head, count - 1), LiveOf(buf, head, count)[1..];
    forall i | 0 <= i < count - 1 ensures a[i] == b[i] {
      assert Pos(head, count - 1, i) == Pos(head, count, i + 1);
    }
  }

  /** Dropping the `j` oldest trades is lowering `count` by `j`; the
      oldest one left sits at `(head + (MAX - (count - j))) % MAX`. */
  lemma LiveDropPrefix(buf: seq<Trade>, head: nat, count: nat, j: nat)
    requires |buf| == MAX_TRADES && j <= count <= MAX_TRADES
    ensures LiveOf(buf, head, count - j) == LiveOf(buf, head, count)[j..]
    ensures j < count ==> LiveOf(buf, head, count)[j] == buf[(head + (MAX_TRADES - (count - j))) % MAX_TRADES]
  {
    var a, b := LiveOf(buf, head, count - j), LiveOf(buf, head, count)[j..];
    forall i | 0 <= i < count - j ensures a[i] == b[i] {
      assert Pos(head, count - j, i) == Pos(head, count, i + j);
    }
  }

  /** A stored trade's fields have their C++ widths and its amount is the
      wrapped product. */
  ghost predicate WellTyped(t: Trade)
  {
    t.timestamp < TWO_64 && IsInt32(t.price) && t.qty < TWO_64 && t.amount == Amount(t.price, t.qty)
  }

  ghost predicate AllWellTyped(live: seq<Trade>)
  {
    forall i :: 0 <= i < |live| ==> WellTyped(live[i])
  }

  /** No live price lies outside `[lo, hi]`. */
  ghost predicate Within(live: seq<Trade>, lo: int, hi: int)
  {
    forall i :: 0 <= i < |live| ==> lo <= live[i].price <= hi
  }

  /** Both hold of every suffix, which is what eviction leaves. */
  lemma SuffixKeeps(live: seq<Trade>, k: nat, lo: int, hi: int)
    requires k <= |live|
    ensures AllWellTyped(live) ==> AllWellTyped(live[k..])
    ensures Within(live, lo, hi) ==> Within(live[k..], lo, hi)
  {
    assert forall i :: 0 <= i < |live| - k ==> live[k..][i] == live[k + i];
  }

  /** Recording keeps both, once the bounds are widened to the new price. */
  lemma AppendedKeeps(live: seq<Trade>, t: Trade, lo: int, hi: int)
    requires |live| <= MAX_TRADES && AllWellTyped(live) && WellTyped(t)
    ensures AllWellTyped(Appended(live, t))
    ensures Within(live, lo, hi) ==> Within(Appended(live, t), if t.price < lo then t.price else lo, if t.price > hi then t.price else hi)
  {
    var r := Appended(live, t);
    var shift := if |live| < MAX_TRADES then 0 else 1;
    assert forall i :: 0 <= i < |r| - 1 ==> r[i] == live[i + shift];
  }

  // ----------------------------------------------------------- sums

  function SumQty(s: seq<Trade>): nat
  {
    if s == [] then 0 else s[0].qty + SumQty(s[1..])
  }

  function SumAmount(s: seq<Trade>): nat
  {
    if s == [] then 0 else s[0].amount + SumAmount(s[1..])
  }

  function Prices(s: seq<Trade>): (r: seq<int>)
    ensures |r| == |s| && forall i :: 0 <= i < |s| ==> r[i] == s[i].price
  {
    seq(|s|, i requires 0 <= i < |s| => s[i].price)
  }

  lemma {:induction false} SumSplit(s: seq<Trade>, k: nat)
    requires k <= |s|
    ensures SumQty(s) == SumQty(s[..k]) + SumQty(s[k..])
    ensures SumAmount(s) == SumAmount(s[..k]) + SumAmount(s[k..])
  {
    if k > 0 {
      SumSplit(s[1..], k - 1);
      assert s[1..][..k - 1] == s[..k][1..];
      assert s[1..][k - 1..] == s[k..];
    }
  }

  lemma SumAppend(s: seq<Trade>, t: Trade)
    ensures SumQty(s + [t]) == SumQty(s) + t.qty
    ensures SumAmount(s + [t]) == SumAmount(s) + t.amount
  {
    SumSplit(s + [t], |s|);
    assert (s + [t])[..|s|] == s;
    assert (s + [t])[|s|..] == [t];
  }

  /** The running sums, kept modulo 2^64, equal the sums over the window. */
  ghost predicate SumsMatch(live: seq<Trade>, sumQty: nat, sumAmount: nat)
  {
    sumQty == U64(SumQty(live)) && sumAmount == U64(SumAmount(live))
  }

  /** Taking the evicted trades' amounts off the running sums keeps them
      equal to the sums over what is left. */
  lemma SumsAfterDrop(live: seq<Trade>, k: nat, sumQty: nat, sumAmount: nat)
    requires k <= |live| && SumsMatch(live, sumQty, sumAmount)
    ensures SumsMatch(live[k..], U64(sumQty - SumQty(live[..k])), U64(sumAmount - SumAmount(live[..k])))
  {
    SumSplit(live, k);
    ModAddFold(SumQty(live), -(SumQty(live[..k]) as int), TWO_64);
    ModAddFold(SumAmount(live), -(SumAmount(live[..k]) as int), TWO_64);
  }

  /** Sums `q`, `a` are `q0`, `a0` with the first `j` trades taken off. */
  ghost predicate DroppedSums(live: seq<Trade>, j: nat, q0: nat, a0: nat, q: nat, a: nat)
    requires j <= |live|
  {
    q == U64(q0 - SumQty(live[..j])) && a == U64(a0 - SumAmount(live[..j]))
  }

  /** Taking one more evicted trade off sums that already lack the first
      `j` of them. */
  lemma SumsDropOne(live: seq<Trade>, j: nat, t: Trade, q0: nat, a0: nat, q: nat, a: nat)
    requires j < |live| && live[j] == t && DroppedSums(live, j, q0, a0, q, a)
    ensures DroppedSums(live, j + 1, q0, a0, U64(q - t.qty), U64(a - t.amount))
  {
    assert live[..j + 1] == live[..j] + [live[j]];
    SumAppend(live[..j], live[j]);
    ModAddFold(q0 - SumQty(live[..j]), -(live[j].qty as int), TWO_64);
    ModAddFold(a0 - SumAmount(live[..j]), -(live[j].amount as int), TWO_64);
  }

  /** Recording into a ring that is not full keeps the sums exact. */
  lemma SumsAfterAppend(live: seq<Trade>, t: Trade, sumQty: nat, sumAmount: nat)
    requires |live| < MAX_TRADES && SumsMatch(live, sumQty, sumAmount)
    ensures SumsMatch(Appended(live, t), U64(sumQty + t.qty), U64(sumAmount + t.amount))
  {
    SumAppend(live, t);
    ModAddFold(SumQty(live), t.qty, TWO_64);
    ModAddFold(SumAmount(live), t.amount, TWO_64);
  }

  // ---------------------------------------------------------- eviction

  /** order_book.cpp's rule: the oldest trades with `timestamp <= cutoff`
      leave; the count of them, from position `i` on. */
  function ExpiredAtOrBefore(live: seq<Trade>, cutoff: nat, i: nat): (k: nat)
    requires i <= |live|
    decreases |live| - i
    ensures i <= k <= |live|
    ensures forall j :: i <= j < k ==> live[j].timestamp <= cutoff
    ensures k < |live| ==> live[k].timestamp > cutoff
  {
    if i == |live| || live[i].timestamp > cutoff then i else ExpiredAtOrBefore(live, cutoff, i + 1)
  }

  predicate InWindow(t: nat, lo: nat, hi: nat)
  {
    lo <= t < hi
  }

  /** The heap and ring variants' rule: the oldest trades outside
      `[lo, hi)` leave, up to the first one inside it. */
  function ExpiredOutside(live: seq<Trade>, lo: nat, hi: nat, i: nat): (k: nat)
    requires i <= |live|
    decreases |live| - i
    ensures i <= k <= |live|
    ensures forall j :: i <= j < k ==> !InWindow(live[j].timestamp, lo, hi)
    ensures k < |live| ==> InWindow(live[k].timestamp, lo, hi)
  {
    if i == |live| || InWindow(live[i].timestamp, lo, hi) then i else ExpiredOutside(live, lo, hi, i + 1)
  }

  // ------------------------------------------------------------ median

  ghost predicate SortedInts(s: seq<int>)
  {
    forall i, j :: 0 <= i < j < |s| ==> s[i] <= s[j]
  }

  /** A value no larger than the head of a sorted sequence can go in front. */
  lemma ConsSorted(a: int, s: seq<int>)
    requires SortedInts(s) && (s == [] || a <= s[0])
    ensures SortedInts([a] + s)
  {
    var r := [a] + s;
    forall i, j | 0 <= i < j < |r| ensures r[i] <= r[j] {
      assert r[j] == s[j - 1];
      if i > 0 {
        assert r[i] == s[i - 1];
      } else {
        assert s[0] <= s[j - 1];
      }
    }
  }

  function InsertInt(x: int, s: seq<int>): (r: seq<int>)
    requires SortedInts(s)
    ensures SortedInts(r) && multiset(r) == multiset(s) + multiset{x} && |r| == |s| + 1
  {
    if s == [] || x <= s[0] then
      ConsSorted(x, s);
      [x] + s
    else
      var tail := InsertInt(x, s[1..]);
      assert s == [s[0]] + s[1..];
      assert s[0] <= tail[0] by {
        assert tail[0] in multiset(tail);
        if tail[0] != x {
          assert tail[0] in multiset(s[1..]);
          var k :| 0 <= k < |s[1..]| && s[1..][k] == tail[0];
          assert s[1..][k] == s[k + 1];
        }
      }
      ConsSorted(s[0], tail);
      [s[0]] + tail
  }

  /** `std::nth_element` is specified by the fully sorted copy. */
  function SortInts(s: seq<int>): (r: seq<int>)
    ensures SortedInts(r) && multiset(r) == multiset(s) && |r| == |s|
  {
    if s == [] then []
    else
      assert s == [s[0]] + s[1..];
      InsertInt(s[0], SortInts(s[1..]))
  }

  /** A sorted arrangement of a multiset is unique, so any selection
      algorithm that leaves rank `k` in place yields `SortInts(s)[k]`. */
  lemma {:induction false} SortedUnique(a: seq<int>, b: seq<int>)
    requires SortedInts(a) && SortedInts(b) && multiset(a) == multiset(b)
    ensures a == b
  {
    if a != [] {
      SortedHeads(a, b);
      assert a == [a[0]] + a[1..];
      assert b == [b[0]] + b[1..];
      assert multiset(a[1..]) == multiset(b[1..]) by {
        assert multiset(a) == multiset{a[0]} + multiset(a[1..]);
        assert multiset(b) == multiset{b[0]} + multiset(b[1..]);
        assert multiset(a[1..]) == multiset(a) - multiset{a[0]};
        assert multiset(b[1..]) == multiset(b) - multiset{b[0]};
      }
      SortedUnique(a[1..], b[1..]);
    }
  }

  /** Two sorted arrangements of one non-empty multiset start alike: each
      head is the other's least element. */
  lemma SortedHeads(a: seq<int>, b: seq<int>)
    requires SortedInts(a) && SortedInts(b) && multiset(a) == multiset(b) && a != []
    ensures b != [] && a[0] == b[0]
  {
    assert a[0] in multiset(b);
    var i :| 0 <= i < |b| && b[i] == a[0];
    assert b[0] in multiset(a);
    var j :| 0 <= j < |a| && a[j] == b[0];
    assert b[0] <= b[i] && a[0] <= a[j];
  }

  /** `getMedianPrice` on the live prices: 0 for none; the middle of the
      sorted prices for an odd count; for an even count the int32 sum of
      the two middle ones, halved with truncation. */
  function MedianOf(prices: seq<int>): (m: int)
    ensures prices == [] ==> m == 0
  {
    if prices == [] then 0
    else
      var s := SortInts(prices);
      var mid := |s| / 2;
      if |s| % 2 == 0 then CDiv(ToInt32(s[mid - 1] + s[mid]), 2) else s[mid]
  }

  /** The median of an odd count is one of the prices, with as many prices
      at or below it as at or above it in every sorted arrangement. */
  lemma MedianOdd(prices: seq<int>, sorted: seq<int>)
    requires |prices| % 2 == 1 && SortedInts(sorted) && multiset(sorted) == multiset(prices)
    ensures |sorted| == |prices|
    ensures MedianOf(prices) == sorted[|prices| / 2] && MedianOf(prices) in multiset(prices)
  {
    assert |sorted| == |multiset(sorted)| == |multiset(prices)| == |prices|;
    SortedUnique(SortInts(prices), sorted);
    assert sorted[|prices| / 2] in multiset(sorted);
  }

  /** The median of an even count lies between the two middle prices when
      their sum fits in 32 bits. */
  lemma MedianEven(prices: seq<int>, sorted: seq<int>)
    requires |prices| > 0 && |prices| % 2 == 0 && SortedInts(sorted) && multiset(sorted) == multiset(prices)
    ensures |sorted| == |prices|
    ensures var n := |prices|;
      MedianOf(prices) == CDiv(ToInt32(sorted[n / 2 - 1] + sorted[n / 2]), 2)
      && (IsInt32(sorted[n / 2 - 1] + sorted[n / 2]) ==> sorted[n / 2 - 1] <= MedianOf(prices) <= sorted[n / 2])
  {
    assert |sorted| == |multiset(sorted)| == |multiset(prices)| == |prices|;
    SortedUnique(SortInts(prices), sorted);
    var n := |prices|;
    CDivHalfBetween(sorted[n / 2 - 1], sorted[n / 2]);
  }

  /** The price copy of `getMedianPrice`: the live prices are read out of
      the ring oldest first and the middle of them by rank is returned. */
  method RingMedian(trades: array<Trade>, head: nat, count: nat) returns (m: int)
    requires trades.Length == MAX_TRADES && count <= MAX_TRADES
    ensures m == MedianOf(Prices(LiveOf(trades[..], head, count)))
  {
    if count == 0 {
      return 0;
    }
    var cache: seq<int> := [];
    var i := 0;
    while i < count
      invariant i <= count && cache == Prices(LiveOf(trades[..], head, count))[..i]
    {
      var idx := (head + (MAX_TRADES - count + i)) % MAX_TRADES;
      cache := cache + [trades[idx].price];
      i := i + 1;
    }
    assert cache == Prices(LiveOf(trades[..], head, count));
    var sorted := SortInts(cache);
    var mid := count / 2;
    if count % 2 == 0 {
      m := CDiv(ToInt32(sorted[mid - 1] + sorted[mid]), 2);
    } else {
      m := sorted[mid];
    }
  }

  // ----------------------------------------------------------- min/max

  /** The largest of `init` and the prices, scanning oldest first. */
  function MaxFrom(s: seq<int>, init: int): (r: int)
    ensures r >= init && forall i :: 0 <= i < |s| ==> s[i] <= r
    ensures r == init || r in s
  {
    if s == [] then init else MaxFrom(s[1..], if s[0] > init then s[0] else init)
  }

  /** The smallest of `init` and the prices, scanning oldest first. */
  function MinFrom(s: seq<int>, init: int): (r: int)
    ensures r <= init && forall i :: 0 <= i < |s| ==> r <= s[i]
    ensures r == init || r in s
  {
    if s == [] then init else MinFrom(s[1..], if s[0] < init then s[0] else init)
  }

  ghost predicate IsMaxOf(m: int, s: seq<int>)
  {
    m in s && forall i :: 0 <= i < |s| ==> s[i] <= m
  }

  ghost predicate IsMinOf(m: int, s: seq<int>)
  {
    m in s && forall i :: 0 <= i < |s| ==> m <= s[i]
  }

  /** Prices that are all int32 have their maximum found by a scan from
      INT32_MIN and their minimum by a scan from INT32_MAX; any other way
      of finding a maximum or minimum gives the same value. */
  lemma ScanFindsExtremes(s: seq<int>, hi: int, lo: int)
    requires s != [] && forall i :: 0 <= i < |s| ==> IsInt32(s[i])
    ensures IsMaxOf(MaxFrom(s, INT32_MIN), s) && IsMinOf(MinFrom(s, INT32_MAX), s)
    ensures IsMaxOf(hi, s) ==> hi == MaxFrom(s, INT32_MIN)
    ensures IsMinOf(lo, s) ==> lo == MinFrom(s, INT32_MAX)
  {
    assert IsInt32(s[0]);
    if IsMaxOf(hi, s) {
      var j :| 0 <= j < |s| && s[j] == hi;
      var r := MaxFrom(s, INT32_MIN);
      assert r == INT32_MIN || r in s;
      if r in s {
        var k :| 0 <= k < |s| && s[k] == r;
      }
    }
    if IsMinOf(lo, s) {
      var j :| 0 <= j < |s| && s[j] == lo;
      var r := MinFrom(s, INT32_MAX);
      if r in s {
        var k :| 0 <= k < |s| && s[k] == r;
      }
    }
  }

  // -------------------------------------------------------------- VWAP

  /** `getVWAP`: 0 for an empty window or zero volume, else the integer
      quotient of the summed amounts by the summed quantities. */
  function Vwap(count: nat, sumQty: nat, sumAmount: nat): (v: nat)
    ensures count == 0 || sumQty == 0 ==> v == 0
    ensures count > 0 && sumQty > 0 ==> v * sumQty <= sumAmount < (v + 1) * sumQty
  {
    if count == 0 || sumQty == 0 then 0 else sumAmount / sumQty
  }

  /** The book's bid prices best first and ask prices best first, as
      `getBidPrice(i)` / `getAskPrice(i)` return them for `i < levels`. */
  datatype Ladder = Ladder(bids: seq<int>, asks: seq<int>)

  /** First bid level `i >= start` with `v >= bids[i]`. */
  function FirstBidAtOrBelow(v: int, bids: seq<int>, start: nat): (r: Option<nat>)
    requires start <= |bids|
    decreases |bids| - start
    ensures r.Some? ==> start <= r.value < |bids| && v >= bids[r.value]
    ensures forall j :: start <= j < |bids| && (r.None? || j < r.value) ==> v < bids[j]
  {
    if start == |bids| then None
    else if v >= bids[start] then Some(start)
    else FirstBidAtOrBelow(v, bids, start + 1)
  }

  /** First ask level `i >= start` with `v <= asks[i]`. */
  function FirstAskAtOrAbove(v: int, asks: seq<int>, start: nat): (r: Option<nat>)
    requires start <= |asks|
    decreases |asks| - start
    ensures r.Some? ==> start <= r.value < |asks| && v <= asks[r.value]
    ensures forall j :: start <= j < |asks| && (r.None? || j < r.value) ==> v > asks[j]
  {
    if start == |asks| then None
    else if v <= asks[start] then Some(start)
    else FirstAskAtOrAbove(v, asks, start + 1)
  }

  /** order_book.cpp's `getVWAPLevel`: 0 for a zero VWAP or no book;
      otherwise the first bid level at or below the VWAP, as `i`, else the
      first ask level at or above it, as `-i`, else 0. */
  function VwapLevelBidFirst(vwap: nat, book: Option<Ladder>): (r: int)
    ensures vwap == 0 || book.None? ==> r == 0
    ensures r > 0 ==> book.Some? && r < |book.value.bids| && ToInt32(vwap) >= book.value.bids[r]
  {
    if vwap == 0 || book.None? then 0
    else
      var p := ToInt32(vwap);
      match FirstBidAtOrBelow(p, book.value.bids, 0)
      case Some(i) => i
      case None =>
        match FirstAskAtOrAbove(p, book.value.asks, 0)
        case Some(i) => -(i as int)
        case None => 0
  }

  /** The heap and ring variants' `getVWAPLevel`: ask side first when the
      VWAP is at or above the best ask (`-i` for the first ask level not
      below it, else 0); then the bid side when it is at or below the best
      bid (`i` for the first bid level not above it); else 0. */
  function VwapLevelAskFirst(vwap: nat, book: Option<Ladder>): (r: int)
    ensures vwap == 0 || book.None? ==> r == 0
    ensures r < 0 ==> book.Some? && -r < |book.value.asks| && ToInt32(vwap) <= book.value.asks[-r]
                      && ToInt32(vwap) >= book.value.asks[0]
    ensures r > 0 ==> book.Some? && r < |book.value.bids| && ToInt32(vwap) >= book.value.bids[r]
                      && ToInt32(vwap) <= book.value.bids[0]
  {
    if vwap == 0 || book.None? then 0
    else
      var p := ToInt32(vwap);
      var bids, asks := book.value.bids, book.value.asks;
      if |asks| > 0 && p >= asks[0] then
        match FirstAskAtOrAbove(p, asks, 0)
        case Some(i) => -(i as int)
        case None => 0
      else if |bids| > 0 && p <= bids[0] then
        match FirstBidAtOrBelow(p, bids, 0)
        case Some(i) => i
        case None => 0
      else 0
  }

  /** The two loops of the heap and ring variants' `getVWAPLevel`. */
  method AskFirstLevel(vwap: nat, book: Option<Ladder>) returns (r: int)
    ensures r == VwapLevelAskFirst(vwap, book)
  {
    if vwap == 0 || book.None? {
      return 0;
    }
    var p := ToInt32(vwap);
    var bids, asks := book.value.bids, book.value.asks;
    if |asks| > 0 && p >= asks[0] {
      var i := 0;
      while i < |asks|
        invariant i <= |asks| && FirstAskAtOrAbove(p, asks, 0) == FirstAskAtOrAbove(p, asks, i)
      {
        if p <= asks[i] {
          return -i;
        }
        i := i + 1;
      }
      return 0;
    }
    if |bids| > 0 && p <= bids[0] {
      var i := 0;
      while i < |bids|
        invariant i <= |bids| && FirstBidAtOrBelow(p, bids, 0) == FirstBidAtOrBelow(p, bids, i)
      {
        if p >= bids[i] {
          return i;
        }
        i := i + 1;
      }
    }
    return 0;
  }
}
