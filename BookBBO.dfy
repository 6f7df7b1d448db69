/** The cached best bid and offer of impl/src/order_book.cpp: every
    operation refreshes the side named by its caller, so the cache stays
    equal to the list heads when that side is the side of the levels the
    operation touches. */
module BookBBO {
  import opened Common
  import opened BookState
  import opened BookLemmas
  import opened BookOps

  /** The level at this price, if there is one, is on `side`: the
      condition under which refreshing only the caller's side suffices. */
  ghost predicate OnSide(b: Book, price: int, side: Side)
  {
    Locate(b, price).Some? ==> Locate(b, price).value.0 == side
  }

  /** `updateBBOSide` refreshes the flagged sides; a side that is not
      flagged stays current when its head did not change. */
  lemma Refresh(b: Book, m: Book, ub: bool, ua: bool)
    requires BBOCurrent(b) && m.bbo == b.bbo
    requires !ub ==> HeadPrice(m.bids) == HeadPrice(b.bids) && HeadQty(m.bids) == HeadQty(b.bids)
    requires !ua ==> HeadPrice(m.asks) == HeadPrice(b.asks) && HeadQty(m.asks) == HeadQty(b.asks)
    ensures BBOCurrent(UpdateBBOSide(m, ub, ua))
  {
  }

  /** A level linked in behind the head leaves the head in place. */
  lemma InsertHead(ls: seq<Level>, l: Level, side: Side)
    ensures var r := InsertAt(ls, InsertionPoint(ls, l.price, side), l);
      && (ls == [] || Better(l.price, ls[0].price, side) ==> HeadPrice(r) == l.price && HeadQty(r) == l.totalQty)
      && (ls != [] && !Better(l.price, ls[0].price, side) ==> HeadPrice(r) == HeadPrice(ls) && HeadQty(r) == HeadQty(ls))
  {
  }

  /** Rewriting or removing a level other than the head leaves the head. */
  lemma OtherHead(ls: seq<Level>, k: nat, l: Level)
    requires 0 < k < |ls|
    ensures HeadPrice(ls[k := l]) == HeadPrice(ls) && HeadQty(ls[k := l]) == HeadQty(ls)
    ensures HeadPrice(RemoveAt(ls, k)) == HeadPrice(ls) && HeadQty(RemoveAt(ls, k)) == HeadQty(ls)
  {
  }

  lemma AddNewLevelBBO(b: Book, id: nat, price: int, qty: nat, side: Side)
    requires BBOCurrent(b) && OrderSlot(id) !in b.orders && !FindPriceLevel(b, price)
    ensures BBOCurrent(AddOrder(b, id, price, qty, side))
  {
    var slot := OrderSlot(id);
    var l := Level(price, side, [slot], U32(qty), 1);
    var b1 := b.(orders := b.orders[slot := Order(id, price, qty, side)]);
    var m := AddPriceLevel(b1, l);
    var ls := SideLevels(b, side);
    InsertHead(ls, l, side);
    var ub := side == Buy && (b.bids == [] || price >= b.bids[0].price);
    var ua := side == Sell && (b.asks == [] || price <= b.asks[0].price);
    Refresh(b, m, ub, ua);
  }

  lemma AppendBBO(b: Book, id: nat, price: int, qty: nat, side: Side)
    requires BBOCurrent(b) && OrderSlot(id) !in b.orders && FindPriceLevel(b, price)
    requires Locate(b, price).Some? && Locate(b, price).value.0 == side
    ensures BBOCurrent(AddOrder(b, id, price, qty, side))
  {
    var slot := OrderSlot(id);
    var b1 := b.(orders := b.orders[slot := Order(id, price, qty, side)]);
    var s, k := AppendShape(b, b1.orders, price, slot, qty);
    var ls := SideLevels(b, side);
    if k > 0 { OtherHead(ls, k, Enqueue(ls[k], slot, qty)); }
    var ub := side == Buy && (b.bids == [] || price >= b.bids[0].price);
    var ua := side == Sell && (b.asks == [] || price <= b.asks[0].price);
    Refresh(b, AppendOrder(b1, price, slot, qty), ub, ua);
  }

  /** `addOrder` keeps the BBO equal to the heads when the order's price
      has no level or has one on the caller's side. */
  lemma AddOrderBBO(b: Book, id: nat, price: int, qty: nat, side: Side)
    requires Valid(b) && BBOCurrent(b)
    requires OnSide(b, price, side)
    ensures BBOCurrent(AddOrder(b, id, price, qty, side))
  {
    if OrderSlot(id) !in b.orders {
      FoundIsLevel(b, price);
      if !FindPriceLevel(b, price) {
        AddNewLevelBBO(b, id, price, qty, side);
      } else {
        AppendBBO(b, id, price, qty, side);
      }
    }
  }

  lemma DeleteAtBBO(b: Book, id: nat, side: Side, k: nat)
    requires BBOCurrent(b) && Found(b, id) && FindPriceLevel(b, b.orders[OrderSlot(id)].price)
    requires Locate(b, b.orders[OrderSlot(id)].price) == Some((side, k))
    ensures BBOCurrent(DeleteOrder(b, id, side))
  {
    var slot := OrderSlot(id);
    var o := b.orders[slot];
    var ls := SideLevels(b, side);
    var m := if |ls[k].queue| == 1 then RemovePriceLevel(b, side, k) else WithSide(b, side, ls[k := Unlink(ls[k], slot, o.qty)]);
    if k > 0 { OtherHead(ls, k, Unlink(ls[k], slot, o.qty)); }
    var ub := side == Buy && b.bids != [] && b.bids[0].price == o.price;
    var ua := !ub && side == Sell && b.asks != [] && b.asks[0].price == o.price;
    Refresh(b, m.(orders := m.orders - {slot}), ub, ua);
  }

  /** `deleteOrder` keeps the BBO equal to the heads when the order's
      level is on the caller's side. */
  lemma DeleteOrderBBO(b: Book, id: nat, side: Side)
    requires Valid(b) && BBOCurrent(b)
    requires Found(b, id) ==> OnSide(b, b.orders[OrderSlot(id)].price, side)
    ensures BBOCurrent(DeleteOrder(b, id, side))
  {
    var slot := OrderSlot(id);
    if Found(b, id) {
      var s, k := OrderQueued(b, slot);
      FoundIsLevel(b, b.orders[slot].price);
      DeleteAtBBO(b, id, side, k);
    }
  }

  lemma ModifyInPlaceBBO(b: Book, id: nat, price: int, qty: nat, side: Side, k: nat)
    requires BBOCurrent(b) && Found(b, id) && b.orders[OrderSlot(id)].price == price && FindPriceLevel(b, price)
    requires Locate(b, price) == Some((side, k))
    ensures BBOCurrent(ModifyOrder(b, id, price, qty, side))
  {
    var slot := OrderSlot(id);
    var b1 := SetQty(b, slot, qty);
    var delta := ToInt32(ToInt32(qty) - ToInt32(b.orders[slot].qty));
    assert Locate(b1, price) == Locate(b, price);
    AdjustShape(b1, price, delta, side, k);
    var ls := SideLevels(b, side);
    if k > 0 { OtherHead(ls, k, Retotal(ls[k], delta)); }
    var ub := side == Buy && b.bids != [] && b.bids[0].price == price;
    var ua := !ub && side == Sell && b.asks != [] && b.asks[0].price == price;
    Refresh(b, AdjustTotal(b1, price, delta), ub, ua);
  }

  /** Deleting an order hides prices but never moves one to the other side. */
  lemma DeleteKeepsSides(b: Book, id: nat, side: Side, price: int)
    requires Valid(b) && OnSide(b, price, side)
    ensures OnSide(DeleteOrder(b, id, side), price, side)
  {
    var d := DeleteOrder(b, id, side);
    var slot := OrderSlot(id);
    if Found(b, id) && Locate(d, price).Some? {
      var s, k := OrderQueued(b, slot);
      FoundIsLevel(b, b.orders[slot].price);
      DeleteShape(b, id, side, s, k);
      var ls := SideLevels(b, s);
      if |ls[k].queue| == 1 {
        PriceSetRemove(ls, k, s);
      } else {
        PriceSetUpdate(ls, k, Unlink(ls[k], slot, b.orders[slot].qty));
      }
      var (s', k') := Locate(d, price).value;
      assert price in PriceSet(SideLevels(d, s'));
      assert price in PriceSet(SideLevels(b, s'));
      var (s'', k'') := Locate(b, price).value;
      assert price in PriceSet(SideLevels(b, s''));
    }
  }

  lemma ModifyMovesBBO(b: Book, id: nat, price: int, qty: nat, side: Side)
    requires Valid(b) && BBOCurrent(b) && IsInt32(price) && qty < TWO_32 && CollisionFree(b, price)
    requires Found(b, id) && b.orders[OrderSlot(id)].price != price
    requires OnSide(b, b.orders[OrderSlot(id)].price, side) && OnSide(b, price, side)
    ensures BBOCurrent(ModifyOrder(b, id, price, qty, side))
  {
    var d := DeleteOrder(b, id, side);
    DeleteOrderValid(b, id, side);
    DeleteOrderBBO(b, id, side);
    DeleteKeepsSides(b, id, side, price);
    AddOrderBBO(d, id, price, qty, side);
    var a := AddOrder(d, id, price, qty, side);
    var ub := side == Buy && b.bids != [] && (b.orders[OrderSlot(id)].price == b.bids[0].price || price >= b.bids[0].price);
    var ua := side == Sell && b.asks != [] && (b.orders[OrderSlot(id)].price == b.asks[0].price || price <= b.asks[0].price);
    Refresh(a, a, ub, ua);
  }

  /** `modifyOrder` keeps the BBO equal to the heads when the old and the
      new price have no level or one on the caller's side. */
  lemma ModifyOrderBBO(b: Book, id: nat, price: int, qty: nat, side: Side)
    requires Valid(b) && BBOCurrent(b) && IsInt32(price) && qty < TWO_32 && CollisionFree(b, price)
    requires Found(b, id) ==> OnSide(b, b.orders[OrderSlot(id)].price, side) && OnSide(b, price, side)
    ensures BBOCurrent(ModifyOrder(b, id, price, qty, side))
  {
    if Found(b, id) {
      if b.orders[OrderSlot(id)].price != price {
        ModifyMovesBBO(b, id, price, qty, side);
      } else {
        FoundIsLevel(b, price);
        if FindPriceLevel(b, price) {
          ModifyInPlaceBBO(b, id, price, qty, side, Locate(b, price).value.1);
        }
      }
    }
  }

  lemma PartialFillBBO(b: Book, id: nat, price: int, qty: nat, side: Side)
    requires Valid(b) && BBOCurrent(b) && Found(b, id) && qty < b.orders[OrderSlot(id)].qty
    requires OnSide(b, price, side)
    ensures BBOCurrent(ProcessTrade(b, id, price, qty, side))
  {
    var slot := OrderSlot(id);
    var b' := SetQty(b, slot, b.orders[slot].qty - qty);
    var ub := side == Buy && b.bids != [] && b.bids[0].price == price;
    var ua := !ub && side == Sell && b.asks != [] && b.asks[0].price == price;
    FoundIsLevel(b, price);
    assert Locate(b', price) == Locate(b, price);
    if FindPriceLevel(b', price) {
      var k := Locate(b, price).value.1;
      AdjustShape(b', price, Minus(qty), side, k);
      var ls := SideLevels(b, side);
      if k > 0 { OtherHead(ls, k, Retotal(ls[k], Minus(qty))); }
      Refresh(b, AdjustTotal(b', price, Minus(qty)), ub, ua);
    } else {
      Refresh(b, b', ub, ua);
    }
  }

  /** The book part of `processTrade` keeps the BBO equal to the heads
      when the order's level and the level at the trade price, if any,
      are on the caller's side. */
  lemma ProcessTradeBBO(b: Book, id: nat, price: int, qty: nat, side: Side)
    requires Valid(b) && BBOCurrent(b)
    requires Found(b, id) ==> OnSide(b, b.orders[OrderSlot(id)].price, side) && OnSide(b, price, side)
    ensures BBOCurrent(ProcessTrade(b, id, price, qty, side))
  {
    if Found(b, id) {
      if b.orders[OrderSlot(id)].qty <= qty {
        DeleteOrderBBO(b, id, side);
        var d := DeleteOrder(b, id, side);
        var ub := side == Buy && b.bids != [] && b.bids[0].price == price;
        var ua := !ub && side == Sell && b.asks != [] && b.asks[0].price == price;
        Refresh(d, d, ub, ua);
      } else {
        PartialFillBBO(b, id, price, qty, side);
      }
    }
  }
}
