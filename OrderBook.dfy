/** The `OrderBook` class of impl/src/order_book.cpp. Its state is the
    value `Book` of module BookState: the two sides' level rings become
    sequences best first, `order_map_` and `price_level_map_` become maps
    from their slot to what the slot points at. Each method updates the
    fields step by step as the C++ does and is proved to leave exactly the
    state the matching BookState function describes; what those functions
    keep (the invariant, the totals, the BBO) is proved in BookOps,
    BookTotals and BookBBO. */
module OrderBooks {
  import opened Common
  import opened WindowCommon
  import opened BookState
  import opened BookOps
  import opened BookQueries
  import BookWindow

  /** `current` after `k` steps along a ring of `|ls|` levels from its
      head, or none once the walk comes back to the head (or the ring is
      empty): the walk of the level getters. */
  method WalkLevels(ls: seq<Level>, k: nat) returns (cur: Option<nat>)
    ensures k < |ls| ==> cur == Some(k)
    ensures k >= |ls| ==> cur == None
  {
    if ls == [] {
      return None;
    }
    var c := 0;
    var i := 0;
    while i < k
      invariant i <= k && c == i && i < |ls|
    {
      c := (c + 1) % |ls|;
      if c == 0 {
        return None;
      }
      i := i + 1;
    }
    return Some(c);
  }

  /** The walk of `addPriceLevel`: position 0 when the ring is empty or
      the new price beats the head, otherwise one past the last of the
      levels after the head that beat it. */
  method LinkPoint(ls: seq<Level>, price: int, side: Side) returns (k: nat)
    ensures k == InsertionPoint(ls, price, side)
  {
    k := 0;
    if ls != [] && !Better(price, ls[0].price, side) {
      k := 1;
      while k < |ls| && Better(ls[k].price, price, side)
        invariant 1 <= k <= |ls|
        invariant InsertionPoint(ls, price, side) == k + AfterHead(ls[k..], price, side)
      {
        assert ls[k..][1..] == ls[k + 1..];
        k := k + 1;
      }
    }
  }

  /** The walk of `getQtyAhead` as written, along a level's FIFO `q` from
      position `j`: step to `prev`, adding each order's `qty` in uint32_t,
      until the walk is back at `j`; it meets every other order. */
  method WalkAround(q: seq<nat>, orders: map<nat, Order>, j: nat) returns (qty: nat)
    requires j < |q|
    ensures qty == U32(QtySum(q, orders) - QtyOf(q[j], orders))
  {
    qty := 0;
    var m := 1;
    var cur := Prev(j, |q|);
    while cur != j
      invariant 1 <= m <= |q| && cur == Back(j, m, |q|)
      invariant qty == U32(WalkedQty(q, orders, j, m - 1))
      decreases |q| - m
    {
      var w := QtyOf(q[cur], orders);
      assert WalkedQty(q, orders, j, m) == WalkedQty(q, orders, j, m - 1) + w;
      ModAddFold(WalkedQty(q, orders, j, m - 1), w, TWO_32);
      qty := U32(qty + w);
      m := m + 1;
      cur := Prev(cur, |q|);
    }
    assert m == |q|;
    WalkedAll(q, orders, j);
  }

  /** The corrected walk from position `j` to the head of `q`, adding in
      uint32_t the `qty` of every order passed. */
  method WalkToHead(q: seq<nat>, orders: map<nat, Order>, j: nat) returns (qty: nat)
    requires j < |q|
    ensures qty == U32(QtySum(q[..j], orders))
  {
    qty := 0;
    var cur: nat := j;
    while cur != 0
      invariant cur <= j && qty == U32(QtySum(q[cur..j], orders))
    {
      cur := cur - 1;
      assert q[cur..j][1..] == q[cur + 1..j];
      ModAddFold(QtySum(q[cur + 1..j], orders), QtyOf(q[cur], orders), TWO_32);
      qty := U32(qty + QtyOf(q[cur], orders));
    }
    assert q[0..j] == q[..j];
  }

  class OrderBook {
    var bids: seq<Level>
    var asks: seq<Level>
    var orders: map<nat, Order>
    var levelIndex: map<nat, int>
    var bbo: BBO
    var window: BookWindow.SlidingWindowStats

    function State(): Book
      reads this
    {
      Book(bids, asks, orders, levelIndex, bbo)
    }

    /** The book invariant of BookState, and the trade window's own. */
    ghost predicate Valid()
      reads this, window, window.trades
    {
      BookState.Valid(State()) && window.Valid()
    }

    /** The default constructor: empty maps and rings, a zero BBO and a
        default-constructed trade window. */
    constructor ()
      ensures State() == EmptyBook && Valid() && TotalsExact(State()) && BBOCurrent(State())
      ensures fresh(window) && fresh(window.trades) && window.Live() == [] && window.SumsExact()
    {
      bids, asks, orders, levelIndex, bbo := [], [], map[], map[], BBO(0, 0, 0, 0);
      window := new BookWindow.SlidingWindowStats();
      new;
      EmptyValid();
    }

    /** `updateBBOSide`: copy each flagged side's best price and total into
        the cache, zeros for an empty side. */
    method UpdateBBOSide(updateBid: bool, updateAsk: bool)
      modifies this`bbo
      ensures State() == BookState.UpdateBBOSide(old(State()), updateBid, updateAsk)
    {
      if updateBid {
        if bids != [] {
          bbo := bbo.(bidPrice := bids[0].price, bidQty := bids[0].totalQty);
        } else {
          bbo := bbo.(bidPrice := 0, bidQty := 0);
        }
      }
      if updateAsk {
        if asks != [] {
          bbo := bbo.(askPrice := asks[0].price, askQty := asks[0].totalQty);
        } else {
          bbo := bbo.(askPrice := 0, askQty := 0);
        }
      }
    }

    /** `updateBBO`: both sides, after which the cache is current. */
    method UpdateBBO()
      modifies this`bbo
      ensures State() == BookState.UpdateBBOSide(old(State()), true, true)
      ensures BBOCurrent(State())
    {
      UpdateBBOSide(true, true);
    }

    /** `addPriceLevel`: index the level at its hash slot; link it in as the
        new head when the side is empty or it beats the head; otherwise
        walk from the head past the levels that beat it and link it in
        after them. */
    method AddPriceLevel(l: Level)
      modifies this`bids, this`asks, this`levelIndex
      ensures State() == BookState.AddPriceLevel(old(State()), l)
    {
      levelIndex := levelIndex[PriceToIndex(l.price) := l.price];
      var ls := if l.side == Buy then bids else asks;
      var k := LinkPoint(ls, l.price, l.side);
      if l.side == Buy {
        bids := InsertAt(ls, k, l);
      } else {
        asks := InsertAt(ls, k, l);
      }
    }

    /** `removePriceLevel`: clear the level's hash slot and unlink it. */
    method RemovePriceLevel(side: Side, k: nat)
      requires k < |SideLevels(State(), side)|
      modifies this`bids, this`asks, this`levelIndex
      ensures State() == BookState.RemovePriceLevel(old(State()), side, k)
    {
      var ls := if side == Buy then bids else asks;
      levelIndex := levelIndex - {PriceToIndex(ls[k].price)};
      if side == Buy {
        bids := RemoveAt(ls, k);
      } else {
        asks := RemoveAt(ls, k);
      }
    }

    /** The existing-level branch of `addOrder`: link the order in before
        the level's first order, which is the back of its ring, and grow
        the level's total and count. */
    method JoinLevel(price: int, slot: nat, qty: nat)
      modifies this`bids, this`asks
      ensures State() == AppendOrder(old(State()), price, slot, qty)
    {
      var loc := Locate(State(), price);
      if loc.Some? {
        var s, k := loc.value.0, loc.value.1;
        if s == Buy {
          bids := bids[k := Enqueue(bids[k], slot, qty)];
        } else {
          asks := asks[k := Enqueue(asks[k], slot, qty)];
        }
      }
    }

    /** `level->total_qty += delta` on the level found at `price`. */
    method AdjustLevel(price: int, delta: int)
      modifies this`bids, this`asks
      ensures State() == AdjustTotal(old(State()), price, delta)
    {
      var loc := Locate(State(), price);
      if loc.Some? {
        var s, k := loc.value.0, loc.value.1;
        if s == Buy {
          bids := bids[k := Retotal(bids[k], delta)];
        } else {
          asks := asks[k := Retotal(asks[k], delta)];
        }
      }
    }

    /** `addOrder`. */
    method AddOrder(id: nat, price: int, qty: nat, side: Side)
      modifies this`bids, this`asks, this`orders, this`levelIndex, this`bbo
      ensures State() == BookState.AddOrder(old(State()), id, price, qty, side)
      ensures old(BookState.Valid(State())) && id < TWO_64 && IsInt32(price) && qty < TWO_32 && CollisionFree(old(State()), price)
        ==> BookState.Valid(State())
    {
      ghost var b := State();
      var slot := OrderSlot(id);
      if slot in orders {
        return;
      }
      PlaceOrder(id, price, qty, side);
      if BookState.Valid(b) && id < TWO_64 && IsInt32(price) && qty < TWO_32 && CollisionFree(b, price) {
        AddOrderValid(b, id, price, qty, side);
      }
    }

    /** `addOrder` past the slot check: store the order, flag the BBO
        side, then give the order a new level (undoing the store when the
        level pool is full) or append it to the level at its price. */
    method PlaceOrder(id: nat, price: int, qty: nat, side: Side)
      requires OrderSlot(id) !in State().orders
      modifies this`bids, this`asks, this`orders, this`levelIndex, this`bbo
      ensures State() == BookState.AddOrder(old(State()), id, price, qty, side)
    {
      var slot := OrderSlot(id);
      orders := orders[slot := Order(id, price, qty, side)];
      var updateBid := side == Buy && (bids == [] || price >= bids[0].price);
      var updateAsk := side == Sell && (asks == [] || price <= asks[0].price);
      if !FindPriceLevel(State(), price) {
        if |bids| + |asks| >= MAX_PRICE_LEVELS {
          // The level pool is full: give the order back.
          orders := orders - {slot};
          assert orders == old(orders);
          return;
        }
        AddPriceLevel(Level(price, side, [slot], U32(qty), 1));
      } else {
        JoinLevel(price, slot, qty);
      }
      UpdateBBOSide(updateBid, updateAsk);
    }

    /** `deleteOrder`. */
    method DeleteOrder(id: nat, side: Side)
      modifies this`bids, this`asks, this`orders, this`levelIndex, this`bbo
      ensures State() == BookState.DeleteOrder(old(State()), id, side)
      ensures old(BookState.Valid(State())) ==> BookState.Valid(State())
    {
      ghost var b := State();
      var slot := OrderSlot(id);
      if !(slot in orders && orders[slot].id == id) {
        return;
      }
      var o := orders[slot];
      if !FindPriceLevel(State(), o.price) {
        return;
      }
      var updateBid := side == Buy && bids != [] && bids[0].price == o.price;
      var updateAsk := !updateBid && side == Sell && asks != [] && asks[0].price == o.price;
      var loc := Locate(State(), o.price);
      if loc.Some? {
        LeaveLevel(loc.value.0, loc.value.1, slot, o.qty);
      }
      orders := orders - {slot};
      UpdateBBOSide(updateBid, updateAsk);
      if BookState.Valid(b) {
        DeleteOrderValid(b, id, side);
      }
    }

    /** The level part of `deleteOrder`: a level whose only order this is
        is removed, otherwise the order is unlinked from its FIFO and the
        level's total and count go down. */
    method LeaveLevel(s: Side, k: nat, slot: nat, qty: nat)
      requires k < |SideLevels(State(), s)|
      modifies this`bids, this`asks, this`levelIndex
      ensures State() ==
        if |SideLevels(old(State()), s)[k].queue| == 1 then BookState.RemovePriceLevel(old(State()), s, k)
        else WithSide(old(State()), s, SideLevels(old(State()), s)[k := Unlink(SideLevels(old(State()), s)[k], slot, qty)])
    {
      var l := if s == Buy then bids[k] else asks[k];
      if |l.queue| == 1 {
        RemovePriceLevel(s, k);
      } else if s == Buy {
        bids := bids[k := Unlink(l, slot, qty)];
      } else {
        asks := asks[k := Unlink(l, slot, qty)];
      }
    }

    /** `modifyOrder`. */
    method ModifyOrder(id: nat, price: int, qty: nat, side: Side)
      modifies this`bids, this`asks, this`orders, this`levelIndex, this`bbo
      ensures State() == BookState.ModifyOrder(old(State()), id, price, qty, side)
      ensures old(BookState.Valid(State())) && IsInt32(price) && qty < TWO_32 && CollisionFree(old(State()), price)
        ==> BookState.Valid(State())
    {
      ghost var b := State();
      var slot := OrderSlot(id);
      if !(slot in orders && orders[slot].id == id) {
        return;
      }
      if orders[slot].price != price {
        MoveOrder(id, price, qty, side);
      } else {
        Requantify(id, price, qty, side);
      }
      if BookState.Valid(b) && IsInt32(price) && qty < TWO_32 && CollisionFree(b, price) {
        ModifyOrderValid(b, id, price, qty, side);
      }
    }

    /** `modifyOrder` to a new price: delete, add again, refresh the
        caller's side when the old or the new price touches its best. */
    method MoveOrder(id: nat, price: int, qty: nat, side: Side)
      requires Found(State(), id) && State().orders[OrderSlot(id)].price != price
      modifies this`bids, this`asks, this`orders, this`levelIndex, this`bbo
      ensures State() == BookState.ModifyOrder(old(State()), id, price, qty, side)
    {
      var o := orders[OrderSlot(id)];
      var updateBid := side == Buy && bids != [] && (o.price == bids[0].price || price >= bids[0].price);
      var updateAsk := side == Sell && asks != [] && (o.price == asks[0].price || price <= asks[0].price);
      DeleteOrder(id, side);
      AddOrder(id, price, qty, side);
      UpdateBBOSide(updateBid, updateAsk);
    }

    /** `modifyOrder` at the same price: overwrite `qty` and move the
        level's total by the int32_t difference. */
    method Requantify(id: nat, price: int, qty: nat, side: Side)
      requires Found(State(), id) && State().orders[OrderSlot(id)].price == price
      modifies this`bids, this`asks, this`orders, this`bbo
      ensures State() == BookState.ModifyOrder(old(State()), id, price, qty, side)
    {
      var slot := OrderSlot(id);
      var o := orders[slot];
      if FindPriceLevel(State(), price) {
        var diff := ToInt32(ToInt32(qty) - ToInt32(o.qty));
        orders := orders[slot := o.(qty := qty)];
        var updateBid := side == Buy && bids != [] && bids[0].price == price;
        var updateAsk := !updateBid && side == Sell && asks != [] && asks[0].price == price;
        AdjustLevel(price, diff);
        UpdateBBOSide(updateBid, updateAsk);
      }
    }

    /** `processTrade` (the six-argument definition; the trade id is not
        used). A found order's trade is recorded in the window and expired
        trades evicted before the book is touched. */
    method ProcessTrade(id: nat, tradeId: nat, price: int, qty: nat, side: Side, timestamp: nat)
      requires window.Valid() && IsInt32(price) && qty < TWO_64 && timestamp < TWO_64
      modifies this`bids, this`asks, this`orders, this`levelIndex, this`bbo, window, window.trades
      ensures State() == BookState.ProcessTrade(old(State()), id, price, qty, side)
      ensures old(BookState.Valid(State())) ==> BookState.Valid(State())
      ensures window == old(window) && window.trades == old(window.trades) && window.Valid()
      ensures !Found(old(State()), id) ==> unchanged(window, window.trades)
      ensures Found(old(State()), id) ==>
        window.Live() == BookWindow.Evicted(Appended(old(window.Live()), Trade(timestamp, price, qty, Amount(price, qty))), timestamp)
    {
      var slot := OrderSlot(id);
      if !(slot in orders && orders[slot].id == id) {
        return;
      }
      Record(timestamp, price, qty);
      Fill(id, price, qty, side);
    }

    /** The window part of `processTrade`: record the trade, then evict
        what the new timestamp expires. */
    method Record(timestamp: nat, price: int, qty: nat)
      requires window.Valid() && IsInt32(price) && qty < TWO_64 && timestamp < TWO_64
      modifies window, window.trades
      ensures window.trades == old(window.trades) && window.Valid()
      ensures window.Live() == BookWindow.Evicted(Appended(old(window.Live()), Trade(timestamp, price, qty, Amount(price, qty))), timestamp)
    {
      window.RecordTrade(timestamp, price, qty);
      window.EvictExpired(timestamp);
    }

    /** The book part of `processTrade` for a found order. */
    method Fill(id: nat, price: int, qty: nat, side: Side)
      requires Found(State(), id)
      modifies this`bids, this`asks, this`orders, this`levelIndex, this`bbo
      ensures State() == BookState.ProcessTrade(old(State()), id, price, qty, side)
      ensures old(BookState.Valid(State())) ==> BookState.Valid(State())
    {
      ghost var b := State();
      var slot := OrderSlot(id);
      var updateBid := side == Buy && bids != [] && bids[0].price == price;
      var updateAsk := !updateBid && side == Sell && asks != [] && asks[0].price == price;
      var o := orders[slot];
      if o.qty <= qty {
        DeleteOrder(id, side);
      } else {
        Reduce(slot, price, qty);
      }
      UpdateBBOSide(updateBid, updateAsk);
      if BookState.Valid(b) {
        ProcessTradeValid(b, id, price, qty, side);
      }
    }

    /** The partial fill of `processTrade`: lower the order's `qty` and,
        when a level sits at the trade price, that level's total. */
    method Reduce(slot: nat, price: int, qty: nat)
      requires slot in orders && qty < orders[slot].qty
      modifies this`bids, this`asks, this`orders
      ensures State() ==
        if FindPriceLevel(old(State()), price)
        then AdjustTotal(SetQty(old(State()), slot, old(orders[slot].qty) - qty), price, Minus(qty))
        else SetQty(old(State()), slot, old(orders[slot].qty) - qty)
    {
      var o := orders[slot];
      orders := orders[slot := o.(qty := o.qty - qty)];
      if FindPriceLevel(State(), price) {
        AdjustLevel(price, Minus(qty));
      }
    }

    /** `clear`: empty the order map and the level hash table, unlink the
        levels of each side head first until none is left, start a new
        trade window and refresh the BBO. */
    method Clear()
      modifies this
      ensures State() == EmptyBook && Valid() && TotalsExact(State()) && BBOCurrent(State())
      ensures fresh(window) && fresh(window.trades) && window.Live() == [] && window.SumsExact()
    {
      orders := map[];
      levelIndex := map[];
      while bids != []
        modifies this`bids
        decreases |bids|
      {
        bids := bids[1..];
      }
      while asks != []
        modifies this`asks
        decreases |asks|
      {
        asks := asks[1..];
      }
      window := new BookWindow.SlidingWindowStats();
      UpdateBBO();
      EmptyValid();
    }

    /** `getBidLevels` / `getAskLevels`: count the ring from its head until
        the next level is the head again. */
    method GetLevels(side: Side) returns (n: nat)
      ensures n == |SideLevels(State(), side)|
    {
      var ls := if side == Buy then bids else asks;
      n := 0;
      if ls == [] {
        return;
      }
      var cur := 0;
      while true
        invariant cur < |ls| && n == cur
        decreases |ls| - cur
      {
        n := n + 1;
        if (cur + 1) % |ls| == 0 {
          break;
        }
        cur := cur + 1;
      }
    }

    /** `getBidPrice` / `getAskPrice`: the `k`-th best level's price, 0
        past the last level. */
    method GetPrice(side: Side, k: nat) returns (p: int)
      ensures p == LevelPrice(SideLevels(State(), side), k)
    {
      var ls := if side == Buy then bids else asks;
      var cur := WalkLevels(ls, k);
      p := if cur.Some? then ls[cur.value].price else 0;
    }

    /** `getBidQty` / `getAskQty`: the `k`-th best level's total, 0 past
        the last level. */
    method GetQty(side: Side, k: nat) returns (q: nat)
      ensures q == LevelQty(SideLevels(State(), side), k)
    {
      var ls := if side == Buy then bids else asks;
      var cur := WalkLevels(ls, k);
      q := if cur.Some? then ls[cur.value].totalQty else 0;
    }

    /** `getOrderRank` as written: from the order, step to `prev` and count
        until the walk is back at the order. */
    method GetOrderRankAsWritten(id: nat) returns (rank: nat)
      ensures rank == WrittenRank(State(), id)
    {
      var pos := Position(State(), id);
      if pos.None? {
        return 0;
      }
      var n, j := |pos.value.0.queue|, pos.value.1;
      rank := 1;
      var cur := Prev(j, n);
      while cur != j
        invariant 1 <= rank <= n && cur == Back(j, rank, n)
        decreases n - rank
      {
        rank := rank + 1;
        cur := Prev(cur, n);
      }
    }

    /** `getQtyAhead` as written: the same walk, adding each order's `qty`
        in uint32_t. */
    method GetQtyAheadAsWritten(id: nat) returns (qty: nat)
      ensures qty == WrittenQtyAhead(State(), id)
    {
      var pos := Position(State(), id);
      if pos.None? {
        return 0;
      }
      qty := WalkAround(pos.value.0.queue, orders, pos.value.1);
    }

    /** The rank the declaration promises: step to `prev` from the order
        until the level's first order, counting from 1. */
    method GetOrderRank(id: nat) returns (rank: nat)
      ensures rank == Rank(State(), id)
    {
      var pos := Position(State(), id);
      if pos.None? {
        return 0;
      }
      var j := pos.value.1;
      rank := 1;
      var cur: nat := j;
      while cur != 0
        invariant cur <= j && rank == j - cur + 1
      {
        rank := rank + 1;
        cur := cur - 1;
      }
    }

    /** The quantity ahead the declaration promises: the same walk, adding
        the `qty` of each order passed on the way to the first. */
    method GetQtyAhead(id: nat) returns (qty: nat)
      ensures qty == QtyAhead(State(), id)
    {
      var pos := Position(State(), id);
      if pos.None? {
        return 0;
      }
      qty := WalkToHead(pos.value.0.queue, orders, pos.value.1);
    }
  }
}
