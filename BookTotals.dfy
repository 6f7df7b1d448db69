/** The cached level totals of impl/src/order_book.cpp: every operation
    updates `total_qty` incrementally in uint32_t arithmetic, and the
    result stays the exact queued quantity modulo 2^32 (the contract of
    `PriceLevel::updateQty`), except after a partial fill at a price other
    than the order's own. */
module BookTotals {
  import opened Common
  import opened BookState
  import opened BookLemmas
  import opened BookOps

  /** No level but `except` queues `slot`. */
  ghost predicate Avoid(ls: seq<Level>, slot: nat, except: Option<nat>)
  {
    forall i :: 0 <= i < |ls| && Some(i) != except ==> slot !in ls[i].queue
  }

  /** The two maps give every order but `slot` the same quantity. */
  ghost predicate SameQtyBut(orders: map<nat, Order>, orders': map<nat, Order>, slot: nat)
  {
    forall s :: s != slot ==> QtyOf(s, orders) == QtyOf(s, orders')
  }

  lemma TotalsKept(ls: seq<Level>, orders: map<nat, Order>, orders': map<nat, Order>, slot: nat, except: Option<nat>)
    requires TotalsOn(ls, orders) && Avoid(ls, slot, except) && SameQtyBut(orders, orders', slot)
    ensures forall i :: 0 <= i < |ls| && Some(i) != except ==> LevelTotal(ls[i], orders')
  {
    forall i | 0 <= i < |ls| && Some(i) != except ensures LevelTotal(ls[i], orders') {
      QtySumFrame(ls[i].queue, orders, orders');
    }
  }

  /** A slot that is not live is queued nowhere. */
  lemma NewSlotAvoids(ls: seq<Level>, orders: map<nat, Order>, slot: nat)
    requires AllHold(ls, orders) && slot !in orders
    ensures Avoid(ls, slot, None)
  {
    forall i | 0 <= i < |ls| ensures slot !in ls[i].queue {
      forall j | 0 <= j < |ls[i].queue| ensures ls[i].queue[j] != slot {
        assert LevelHolds(ls[i], orders);
      }
    }
  }

  /** A live order is queued only at the level of its price. */
  lemma SlotOnlyAt(b: Book, slot: nat, s: Side, k: nat)
    requires Valid(b) && slot in b.orders && Locate(b, b.orders[slot].price) == Some((s, k))
    ensures Avoid(SideLevels(b, s), slot, Some(k)) && Avoid(SideLevels(b, Opposite(s)), slot, None)
  {
    var ls, os := SideLevels(b, s), SideLevels(b, Opposite(s));
    PartsOf(b, s);
    OthersPriced(ls, os, s, b.orders, b.levelIndex, k);
    forall i | 0 <= i < |ls| && i != k ensures slot !in ls[i].queue {
      forall j | 0 <= j < |ls[i].queue| ensures ls[i].queue[j] != slot {
        assert LevelHolds(ls[i], b.orders);
      }
    }
    forall i | 0 <= i < |os| ensures slot !in os[i].queue {
      forall j | 0 <= j < |os[i].queue| ensures os[i].queue[j] != slot {
        assert LevelHolds(os[i], b.orders);
      }
    }
  }

  // ------------------------------------------------------- level steps

  /** A new level's total is its one order's quantity. */
  lemma NewLevelTotal(slot: nat, o: Order, orders: map<nat, Order>)
    ensures LevelTotal(Level(o.price, o.side, [slot], U32(o.qty), 1), orders[slot := o])
  {
    assert [slot][1..] == [];
  }

  /** `total_qty += qty` on append. */
  lemma EnqueueTotal(l: Level, orders: map<nat, Order>, slot: nat, o: Order)
    requires LevelTotal(l, orders) && slot !in l.queue && slot !in orders
    ensures LevelTotal(Enqueue(l, slot, o.qty), orders[slot := o])
  {
    var orders' := orders[slot := o];
    QtySumFrame(l.queue, orders, orders');
    QtySumConcat(l.queue, [slot], orders');
    assert [slot][1..] == [];
    U32Shift(QtySum(l.queue, orders), o.qty, o.qty);
  }

  /** A slot queued once is gone once its position is removed. */
  lemma RemovedOnce(q: seq<nat>, i: nat, slot: nat)
    requires i < |q| && q[i] == slot && multiset(q)[slot] == 1
    ensures slot !in RemoveAt(q, i)
  {
    assert q == q[..i] + [slot] + q[i + 1..];
    assert RemoveAt(q, i) == q[..i] + q[i + 1..];
    assert multiset(q) == multiset(RemoveAt(q, i)) + multiset{slot};
  }

  /** `total_qty -= qty` on unlink. */
  lemma UnlinkTotal(l: Level, orders: map<nat, Order>, slot: nat)
    requires LevelTotal(l, orders) && slot in orders && multiset(l.queue)[slot] == 1
    ensures LevelTotal(Unlink(l, slot, orders[slot].qty), orders - {slot})
  {
    var i := SlotIndex(l.queue, slot).value;
    var q: int := orders[slot].qty;
    QtySumRemove(l.queue, i, orders);
    RemovedOnce(l.queue, i, slot);
    QtySumFrame(RemoveAt(l.queue, i), orders, orders - {slot});
    U32Shift(QtySum(l.queue, orders), 0 - q, 0 - q);
  }

  /** A quantity overwritten in place, with the level total moved by any
      delta congruent to the change. */
  lemma RetotalTotal(l: Level, orders: map<nat, Order>, slot: nat, q: nat, delta: int)
    requires LevelTotal(l, orders) && slot in orders && multiset(l.queue)[slot] == 1
    requires (delta - (q - orders[slot].qty)) % TWO_32 == 0
    ensures LevelTotal(Retotal(l, delta), orders[slot := orders[slot].(qty := q)])
  {
    QtySumSet(l.queue, orders, slot, orders[slot].(qty := q));
    U32Shift(QtySum(l.queue, orders), delta, q - orders[slot].qty);
  }

  /** The totals seen from one side, as `ValidOn` sees the invariant. */
  lemma TotalsOnSides(b: Book, side: Side)
    ensures TotalsExact(b) <==> TotalsOn(SideLevels(b, side), b.orders) && TotalsOn(SideLevels(b, Opposite(side)), b.orders)
  {
  }

  // ---------------------------------------------------------- addOrder

  lemma NewLevelTotalsParts(ls: seq<Level>, os: seq<Level>, side: Side, orders: map<nat, Order>, slot: nat, o: Order)
    requires AllHold(ls, orders) && AllHold(os, orders) && TotalsOn(ls, orders) && TotalsOn(os, orders)
    requires slot !in orders && o.side == side
    ensures TotalsOn(InsertAt(ls, InsertionPoint(ls, o.price, side), Level(o.price, side, [slot], U32(o.qty), 1)), orders[slot := o])
    ensures TotalsOn(os, orders[slot := o])
  {
    var orders' := orders[slot := o];
    var l := Level(o.price, side, [slot], U32(o.qty), 1);
    NewSlotAvoids(ls, orders, slot);
    NewSlotAvoids(os, orders, slot);
    TotalsKept(ls, orders, orders', slot, None);
    TotalsKept(os, orders, orders', slot, None);
    NewLevelTotal(slot, o, orders);
    var k := InsertionPoint(ls, o.price, side);
    var r := InsertAt(ls, k, l);
    forall i | 0 <= i < |r| ensures LevelTotal(r[i], orders') {
      if i < k { assert r[i] == ls[i]; } else if i > k { assert r[i] == ls[i - 1]; }
    }
  }

  lemma AppendTotalsParts(ls: seq<Level>, os: seq<Level>, orders: map<nat, Order>, k: nat, slot: nat, o: Order)
    requires AllHold(ls, orders) && AllHold(os, orders) && TotalsOn(ls, orders) && TotalsOn(os, orders)
    requires slot !in orders && k < |ls|
    ensures TotalsOn(ls[k := Enqueue(ls[k], slot, o.qty)], orders[slot := o])
    ensures TotalsOn(os, orders[slot := o])
  {
    var orders' := orders[slot := o];
    NewSlotAvoids(ls, orders, slot);
    NewSlotAvoids(os, orders, slot);
    TotalsKept(ls, orders, orders', slot, None);
    TotalsKept(os, orders, orders', slot, None);
    EnqueueTotal(ls[k], orders, slot, o);
  }

  /** `addOrder` keeps every level total exact. */
  lemma AddOrderTotals(b: Book, id: nat, price: int, qty: nat, side: Side)
    requires Valid(b) && TotalsExact(b)
    ensures TotalsExact(AddOrder(b, id, price, qty, side))
  {
    if OrderSlot(id) !in b.orders {
      FoundIsLevel(b, price);
      if !FindPriceLevel(b, price) {
        NewLevelTotals(b, id, price, qty, side);
      } else {
        AppendTotals(b, id, price, qty, side);
      }
    }
  }

  /** `addOrder` at a new price: the new level's total is the order's. */
  lemma NewLevelTotals(b: Book, id: nat, price: int, qty: nat, side: Side)
    requires Valid(b) && TotalsExact(b) && OrderSlot(id) !in b.orders && !FindPriceLevel(b, price)
    ensures TotalsExact(AddOrder(b, id, price, qty, side))
  {
    var slot, o := OrderSlot(id), Order(id, price, qty, side);
    var r := AddPriceLevel(b.(orders := b.orders[slot := o]), Level(price, side, [slot], U32(qty), 1));
    TotalsOnSides(b, side);
    NewLevelTotalsParts(SideLevels(b, side), SideLevels(b, Opposite(side)), side, b.orders, slot, o);
    TotalsOnSides(r, side);
  }

  /** `addOrder` at an existing price: that level's total grows by `qty`. */
  lemma AppendTotals(b: Book, id: nat, price: int, qty: nat, side: Side)
    requires Valid(b) && TotalsExact(b) && OrderSlot(id) !in b.orders && FindPriceLevel(b, price)
    ensures TotalsExact(AddOrder(b, id, price, qty, side))
  {
    var slot, o := OrderSlot(id), Order(id, price, qty, side);
    var b1 := b.(orders := b.orders[slot := o]);
    var s, k := AppendShape(b, b1.orders, price, slot, qty);
    TotalsOnSides(b, s);
    AppendTotalsParts(SideLevels(b, s), SideLevels(b, Opposite(s)), b.orders, k, slot, o);
    TotalsOnSides(AppendOrder(b1, price, slot, qty), s);
  }

  /** The totals only look at the sides and the order map. */
  lemma TotalsTransfer(a: Book, r: Book)
    requires TotalsExact(a) && r.bids == a.bids && r.asks == a.asks && r.orders == a.orders
    ensures TotalsExact(r)
  {
  }

  // ------------------------------------------------------- deleteOrder

  lemma DeleteTotalsParts(ls: seq<Level>, os: seq<Level>, orders: map<nat, Order>, k: nat, slot: nat)
    requires TotalsOn(ls, orders) && TotalsOn(os, orders) && k < |ls| && slot in orders
    requires Avoid(ls, slot, Some(k)) && Avoid(os, slot, None) && multiset(ls[k].queue)[slot] == 1
    ensures TotalsOn(if |ls[k].queue| == 1 then RemoveAt(ls, k) else ls[k := Unlink(ls[k], slot, orders[slot].qty)], orders - {slot})
    ensures TotalsOn(os, orders - {slot})
  {
    var orders' := orders - {slot};
    TotalsKept(ls, orders, orders', slot, Some(k));
    TotalsKept(os, orders, orders', slot, None);
    if |ls[k].queue| != 1 {
      UnlinkTotal(ls[k], orders, slot);
    }
  }

  /** `deleteOrder` keeps every level total exact. */
  lemma DeleteOrderTotals(b: Book, id: nat, side: Side)
    requires Valid(b) && TotalsExact(b)
    ensures TotalsExact(DeleteOrder(b, id, side))
  {
    var slot := OrderSlot(id);
    if Found(b, id) {
      var s, k := OrderQueued(b, slot);
      FoundIsLevel(b, b.orders[slot].price);
      DeleteShape(b, id, side, s, k);
      SlotOnlyAt(b, slot, s, k);
      TotalsOnSides(b, s);
      DeleteTotalsParts(SideLevels(b, s), SideLevels(b, Opposite(s)), b.orders, k, slot);
      TotalsOnSides(DeleteOrder(b, id, side), s);
    }
  }

  // --------------------------------------- modifyOrder and processTrade

  /** One order's quantity overwritten and its level's total moved by a
      delta congruent to the change. */
  lemma RetotalTotalsParts(ls: seq<Level>, os: seq<Level>, orders: map<nat, Order>, k: nat, slot: nat, q: nat, delta: int)
    requires TotalsOn(ls, orders) && TotalsOn(os, orders) && k < |ls| && slot in orders
    requires Avoid(ls, slot, Some(k)) && Avoid(os, slot, None) && multiset(ls[k].queue)[slot] == 1
    requires (delta - (q - orders[slot].qty)) % TWO_32 == 0
    ensures TotalsOn(ls[k := Retotal(ls[k], delta)], orders[slot := orders[slot].(qty := q)])
    ensures TotalsOn(os, orders[slot := orders[slot].(qty := q)])
  {
    var orders' := orders[slot := orders[slot].(qty := q)];
    TotalsKept(ls, orders, orders', slot, Some(k));
    TotalsKept(os, orders, orders', slot, None);
    RetotalTotal(ls[k], orders, slot, q, delta);
  }

  /** Overwriting a live order's quantity and moving the total of its own
      level by a congruent delta keeps every total exact. */
  lemma RequantTotals(b: Book, slot: nat, price: int, q: nat, delta: int)
    requires Valid(b) && TotalsExact(b) && slot in b.orders && b.orders[slot].price == price
    requires (delta - (q - b.orders[slot].qty)) % TWO_32 == 0
    ensures TotalsExact(AdjustTotal(SetQty(b, slot, q), price, delta))
  {
    var s, k := RequantFacts(b, slot);
    RequantParts(b, slot, price, q, delta, s, k);
  }

  /** Where a live order sits: the one level of its price, and no other. */
  lemma RequantFacts(b: Book, slot: nat) returns (s: Side, k: nat)
    requires Valid(b) && slot in b.orders
    ensures Locate(b, b.orders[slot].price) == Some((s, k))
    ensures multiset(SideLevels(b, s)[k].queue)[slot] == 1
    ensures Avoid(SideLevels(b, s), slot, Some(k)) && Avoid(SideLevels(b, Opposite(s)), slot, None)
  {
    s, k := OrderQueued(b, slot);
    SlotOnlyAt(b, slot, s, k);
  }

  lemma RequantParts(b: Book, slot: nat, price: int, q: nat, delta: int, s: Side, k: nat)
    requires TotalsExact(b) && slot in b.orders && b.orders[slot].price == price && Locate(b, price) == Some((s, k))
    requires multiset(SideLevels(b, s)[k].queue)[slot] == 1
    requires Avoid(SideLevels(b, s), slot, Some(k)) && Avoid(SideLevels(b, Opposite(s)), slot, None)
    requires (delta - (q - b.orders[slot].qty)) % TWO_32 == 0
    ensures TotalsExact(AdjustTotal(SetQty(b, slot, q), price, delta))
  {
    assert Locate(SetQty(b, slot, q), price) == Locate(b, price);
    AdjustShape(SetQty(b, slot, q), price, delta, s, k);
    TotalsOnSides(b, s);
    RetotalTotalsParts(SideLevels(b, s), SideLevels(b, Opposite(s)), b.orders, k, slot, q, delta);
    TotalsOnSides(AdjustTotal(SetQty(b, slot, q), price, delta), s);
  }

  lemma ModifyMovesTotals(b: Book, id: nat, price: int, qty: nat, side: Side)
    requires Valid(b) && TotalsExact(b) && IsInt32(price) && qty < TWO_32 && CollisionFree(b, price)
    requires Found(b, id) && b.orders[OrderSlot(id)].price != price
    ensures TotalsExact(ModifyOrder(b, id, price, qty, side))
  {
    var d := DeleteOrder(b, id, side);
    DeleteOrderValid(b, id, side);
    DeleteOrderTotals(b, id, side);
    AddOrderTotals(d, id, price, qty, side);
    TotalsTransfer(AddOrder(d, id, price, qty, side), ModifyOrder(b, id, price, qty, side));
  }

  lemma ModifyInPlaceTotals(b: Book, id: nat, price: int, qty: nat, side: Side)
    requires Valid(b) && TotalsExact(b) && qty < TWO_32
    requires Found(b, id) && b.orders[OrderSlot(id)].price == price && FindPriceLevel(b, price)
    ensures TotalsExact(ModifyOrder(b, id, price, qty, side))
  {
    ToInt32Diff(qty, b.orders[OrderSlot(id)].qty);
    RequantTotals(b, OrderSlot(id), price, qty, ToInt32(ToInt32(qty) - ToInt32(b.orders[OrderSlot(id)].qty)));
    ModifyInPlaceShape(b, id, price, qty, side);
    TotalsTransfer(AdjustTotal(SetQty(b, OrderSlot(id), qty), price, ToInt32(ToInt32(qty) - ToInt32(b.orders[OrderSlot(id)].qty))),
                   ModifyOrder(b, id, price, qty, side));
  }

  /** `modifyOrder` keeps every level total exact: in place through the
      int32_t difference, at a new price through delete and add. */
  lemma ModifyOrderTotals(b: Book, id: nat, price: int, qty: nat, side: Side)
    requires Valid(b) && TotalsExact(b) && IsInt32(price) && qty < TWO_32 && CollisionFree(b, price)
    ensures TotalsExact(ModifyOrder(b, id, price, qty, side))
  {
    var slot := OrderSlot(id);
    if Found(b, id) {
      if b.orders[slot].price != price {
        ModifyMovesTotals(b, id, price, qty, side);
      } else if FindPriceLevel(b, price) {
        ModifyInPlaceTotals(b, id, price, qty, side);
      }
    }
  }

  lemma PartialFillTotals(b: Book, id: nat, price: int, qty: nat, side: Side)
    requires Valid(b) && TotalsExact(b)
    requires Found(b, id) && qty < b.orders[OrderSlot(id)].qty && price == b.orders[OrderSlot(id)].price
    ensures TotalsExact(ProcessTrade(b, id, price, qty, side))
  {
    FoundIsLevel(b, price);
    RequantTotals(b, OrderSlot(id), price, b.orders[OrderSlot(id)].qty - qty, Minus(qty));
    PartialFillShape(b, id, price, qty, side);
    TotalsTransfer(AdjustTotal(SetQty(b, OrderSlot(id), b.orders[OrderSlot(id)].qty - qty), price, Minus(qty)),
                   ProcessTrade(b, id, price, qty, side));
  }

  /** The book part of `processTrade` keeps every level total exact when
      a partial fill happens at the order's own price; at another price
      it takes the trade off the wrong level. */
  lemma ProcessTradeTotals(b: Book, id: nat, price: int, qty: nat, side: Side)
    requires Valid(b) && TotalsExact(b)
    requires Found(b, id) && qty < b.orders[OrderSlot(id)].qty ==> price == b.orders[OrderSlot(id)].price
    ensures TotalsExact(ProcessTrade(b, id, price, qty, side))
  {
    var slot := OrderSlot(id);
    if Found(b, id) {
      if b.orders[slot].qty <= qty {
        DeleteOrderTotals(b, id, side);
        TotalsTransfer(DeleteOrder(b, id, side), ProcessTrade(b, id, price, qty, side));
      } else {
        PartialFillTotals(b, id, price, qty, side);
      }
    }
  }
}
