/** What each book operation does, seen through the level at a price:
    which level it creates, grows, shrinks, retotals or removes, and that
    every level at any other price stays as it was. */
module BookEffects {
  import opened Common
  import opened BookState
  import opened BookLemmas
  import opened BookOps

  /** The level holding this price, on whichever side it is. */
  function LevelAt(b: Book, p: int): (r: Option<Level>)
    ensures r.Some? ==> r.value.price == p
    ensures r.None? <==> p !in PriceSet(b.bids) && p !in PriceSet(b.asks)
  {
    match Locate(b, p)
    case None => None
    case Some((s, k)) => Some(SideLevels(b, s)[k])
  }

  /** Every level at a price other than `price` is the same in `r` as in `b`. */
  ghost predicate LevelsKept(b: Book, r: Book, price: int)
  {
    forall p :: p != price ==> LevelAt(r, p) == LevelAt(b, p)
  }

  /** The level at a price once an order joins it: a fresh level of one
      order on the caller's side, or the old level with the order at the
      back of its queue, `qty` more on its total (modulo 2^32) and one more
      on its count. */
  function LevelWith(prior: Option<Level>, slot: nat, price: int, qty: nat, side: Side): Level
  {
    match prior
    case None => Level(price, side, [slot], U32(qty), 1)
    case Some(l) => l.(queue := l.queue + [slot], totalQty := U32(l.totalQty + qty), orderCount := l.orderCount + 1)
  }

  /** The level at a price once its order in `slot` leaves: none when it
      was the only one, otherwise the queue without it (the others keep
      their order), `qty` less on the total (modulo 2^32) and one less on
      the count. */
  ghost function LevelWithout(l: Level, slot: nat, qty: nat): Option<Level>
    requires slot in l.queue && l.orderCount >= 1
  {
    if |l.queue| == 1 then None
    else
      var i :| 0 <= i < |l.queue| && l.queue[i] == slot;
      Some(l.(queue := l.queue[..i] + l.queue[i + 1..], totalQty := U32(l.totalQty - qty), orderCount := l.orderCount - 1))
  }

  ghost predicate DistinctOn(ls: seq<Level>)
  {
    forall i, j :: 0 <= i < |ls| && 0 <= j < |ls| && ls[i].price == ls[j].price ==> i == j
  }

  /** No price is held by two levels. */
  ghost predicate Distinct(b: Book)
  {
    DistinctOn(b.bids) && DistinctOn(b.asks) && PriceSet(b.bids) !! PriceSet(b.asks)
  }

  lemma ValidDistinct(b: Book)
    requires Valid(b)
    ensures Distinct(b)
  {
    forall i, j | 0 <= i < |b.bids| && 0 <= j < |b.bids| && b.bids[i].price == b.bids[j].price ensures i == j {
      OrderedDistinct(b.bids, Buy, i, j);
    }
    forall i, j | 0 <= i < |b.asks| && 0 <= j < |b.asks| && b.asks[i].price == b.asks[j].price ensures i == j {
      OrderedDistinct(b.asks, Sell, i, j);
    }
  }

  /** With distinct prices, a level is what `LevelAt` finds at its price. */
  lemma LevelAtIndex(b: Book, s: Side, i: nat)
    requires Distinct(b) && i < |SideLevels(b, s)|
    ensures LevelAt(b, SideLevels(b, s)[i].price) == Some(SideLevels(b, s)[i])
  {
    var p := SideLevels(b, s)[i].price;
    assert p in PriceSet(SideLevels(b, s));
    var loc := Locate(b, p).value;
    if s == Buy {
      assert p !in PriceSet(b.asks);
    } else {
      assert p !in PriceSet(b.bids);
    }
    assert loc.0 == s;
  }

  /** A side that keeps every level not at `price`, and gains none. */
  ghost predicate KeptBut(ls: seq<Level>, ls': seq<Level>, price: int)
  {
    && (forall i :: 0 <= i < |ls'| && ls'[i].price != price ==> ls'[i] in ls)
    && (forall i :: 0 <= i < |ls| && ls[i].price != price ==> ls[i] in ls')
  }

  lemma LevelsFrame(b: Book, r: Book, price: int)
    requires Distinct(b) && Distinct(r)
    requires KeptBut(b.bids, r.bids, price) && KeptBut(b.asks, r.asks, price)
    ensures LevelsKept(b, r, price)
  {
    forall p | p != price ensures LevelAt(r, p) == LevelAt(b, p) {
      if LevelAt(r, p).Some? {
        var (s, k) := Locate(r, p).value;
        assert SideLevels(r, s)[k] in SideLevels(b, s);
        var j :| 0 <= j < |SideLevels(b, s)| && SideLevels(b, s)[j] == SideLevels(r, s)[k];
        LevelAtIndex(b, s, j);
      }
      if LevelAt(b, p).Some? {
        var (s, k) := Locate(b, p).value;
        assert SideLevels(b, s)[k] in SideLevels(r, s);
        var j :| 0 <= j < |SideLevels(r, s)| && SideLevels(r, s)[j] == SideLevels(b, s)[k];
        LevelAtIndex(r, s, j);
      }
    }
  }

  lemma KeptInsert(ls: seq<Level>, k: nat, l: Level)
    requires k <= |ls|
    ensures KeptBut(ls, InsertAt(ls, k, l), l.price)
  {
    var r := InsertAt(ls, k, l);
    forall i | 0 <= i < |r| && r[i].price != l.price ensures r[i] in ls {
      if i < k { assert r[i] == ls[i]; } else { assert r[i] == ls[i - 1]; }
    }
    forall i | 0 <= i < |ls| && ls[i].price != l.price ensures ls[i] in r {
      if i < k { assert r[i] == ls[i]; } else { assert r[i + 1] == ls[i]; }
    }
  }

  lemma KeptUpdate(ls: seq<Level>, k: nat, l: Level)
    requires k < |ls| && l.price == ls[k].price
    ensures KeptBut(ls, ls[k := l], ls[k].price)
  {
    var r := ls[k := l];
    forall i | 0 <= i < |r| && r[i].price != ls[k].price ensures r[i] in ls {
      assert i != k && r[i] == ls[i];
    }
    forall i | 0 <= i < |ls| && ls[i].price != ls[k].price ensures ls[i] in r {
      assert i != k && r[i] == ls[i];
    }
  }

  lemma KeptRemove(ls: seq<Level>, k: nat)
    requires k < |ls|
    ensures KeptBut(ls, RemoveAt(ls, k), ls[k].price)
  {
    var r := RemoveAt(ls, k);
    forall i | 0 <= i < |r| && r[i].price != ls[k].price ensures r[i] in ls {
      if i < k { assert r[i] == ls[i]; } else { assert r[i] == ls[i + 1]; }
    }
    forall i | 0 <= i < |ls| && ls[i].price != ls[k].price ensures ls[i] in r {
      if i < k { assert r[i] == ls[i]; } else { assert r[i - 1] == ls[i]; }
    }
  }

  lemma KeptSame(ls: seq<Level>, price: int)
    ensures KeptBut(ls, ls, price)
  {
  }

  /** Rebuilding one side, the other side untouched, keeps the other prices' levels. */
  lemma SideFrame(b: Book, r: Book, s: Side, price: int)
    requires Distinct(b) && Distinct(r)
    requires KeptBut(SideLevels(b, s), SideLevels(r, s), price)
    requires SideLevels(r, Opposite(s)) == SideLevels(b, Opposite(s))
    ensures LevelsKept(b, r, price)
  {
    KeptSame(SideLevels(b, Opposite(s)), price);
    LevelsFrame(b, r, price);
  }

  // --------------------------------------------------------- addOrder

  /** What `addOrder` builds when the price has no level yet. */
  lemma NewLevelShape(b: Book, id: nat, price: int, qty: nat, side: Side)
    requires OrderSlot(id) !in b.orders && !FindPriceLevel(b, price) && !LevelPoolFull(b)
    ensures var r := AddOrder(b, id, price, qty, side);
      && r.orders == b.orders[OrderSlot(id) := Order(id, price, qty, side)]
      && SideLevels(r, side) == InsertAt(SideLevels(b, side), InsertionPoint(SideLevels(b, side), price, side),
                                         Level(price, side, [OrderSlot(id)], U32(qty), 1))
      && SideLevels(r, Opposite(side)) == SideLevels(b, Opposite(side))
  {
  }

  /** What `addOrder` builds when the price has a level, on side `s` at `k`. */
  lemma JoinShape(b: Book, id: nat, price: int, qty: nat, side: Side, s: Side, k: nat)
    requires OrderSlot(id) !in b.orders && FindPriceLevel(b, price) && Locate(b, price) == Some((s, k))
    ensures var r := AddOrder(b, id, price, qty, side);
      && r.orders == b.orders[OrderSlot(id) := Order(id, price, qty, side)]
      && SideLevels(r, s) == SideLevels(b, s)[k := Enqueue(SideLevels(b, s)[k], OrderSlot(id), qty)]
      && SideLevels(r, Opposite(s)) == SideLevels(b, Opposite(s))
  {
    var b1 := b.(orders := b.orders[OrderSlot(id) := Order(id, price, qty, side)]);
    assert Locate(b1, price) == Locate(b, price);
  }

  lemma AddDistinct(b: Book, id: nat, price: int, qty: nat, side: Side)
    requires Valid(b) && id < TWO_64 && IsInt32(price) && qty < TWO_32 && CollisionFree(b, price)
    ensures Distinct(b) && Distinct(AddOrder(b, id, price, qty, side))
    ensures FindPriceLevel(b, price) <==> LevelAt(b, price).Some?
  {
    AddOrderValid(b, id, price, qty, side);
    ValidDistinct(b);
    ValidDistinct(AddOrder(b, id, price, qty, side));
    FoundIsLevel(b, price);
  }

  lemma AddNewEffect(b: Book, id: nat, price: int, qty: nat, side: Side)
    requires Distinct(b) && Distinct(AddOrder(b, id, price, qty, side))
    requires OrderSlot(id) !in b.orders && !FindPriceLevel(b, price) && !LevelPoolFull(b)
    ensures var r := AddOrder(b, id, price, qty, side);
      LevelsKept(b, r, price) && LevelAt(r, price) == Some(Level(price, side, [OrderSlot(id)], U32(qty), 1))
  {
    var r := AddOrder(b, id, price, qty, side);
    NewLevelShape(b, id, price, qty, side);
    var ls := SideLevels(b, side);
    var l := Level(price, side, [OrderSlot(id)], U32(qty), 1);
    KeptInsert(ls, InsertionPoint(ls, price, side), l);
    SideFrame(b, r, side, price);
    LevelAtIndex(r, side, InsertionPoint(ls, price, side));
  }

  lemma JoinEffect(b: Book, id: nat, price: int, qty: nat, side: Side)
    requires Distinct(b) && Distinct(AddOrder(b, id, price, qty, side))
    requires OrderSlot(id) !in b.orders && FindPriceLevel(b, price) && LevelAt(b, price).Some?
    ensures var r := AddOrder(b, id, price, qty, side);
      LevelsKept(b, r, price) && LevelAt(r, price) == Some(Enqueue(LevelAt(b, price).value, OrderSlot(id), qty))
  {
    var r := AddOrder(b, id, price, qty, side);
    var (s, k) := Locate(b, price).value;
    JoinShape(b, id, price, qty, side, s, k);
    KeptUpdate(SideLevels(b, s), k, Enqueue(SideLevels(b, s)[k], OrderSlot(id), qty));
    SideFrame(b, r, s, price);
    LevelAtIndex(r, s, k);
  }

  /** `addOrder`: an occupied slot changes nothing, and neither does a
      new price when the level pool is full. Otherwise the order is
      stored at its slot; at a new price it gets a level of its own, with
      its `qty` as total and a count of one, on the caller's side; at a
      known price it joins the back of that level's queue, the total
      growing by `qty` modulo 2^32 and the count by one. No other price's
      level changes. */
  lemma AddOrderEffect(b: Book, id: nat, price: int, qty: nat, side: Side)
    requires Valid(b) && id < TWO_64 && IsInt32(price) && qty < TWO_32 && CollisionFree(b, price)
    ensures var r := AddOrder(b, id, price, qty, side);
      var slot := OrderSlot(id);
      && (slot in b.orders || LevelRefused(b, price) ==> r == b)
      && (slot !in b.orders && !LevelRefused(b, price) ==>
            && r.orders == b.orders[slot := Order(id, price, qty, side)]
            && LevelsKept(b, r, price)
            && LevelAt(r, price) == Some(LevelWith(LevelAt(b, price), slot, price, qty, side)))
  {
    if OrderSlot(id) !in b.orders && !LevelRefused(b, price) {
      AddDistinct(b, id, price, qty, side);
      if !FindPriceLevel(b, price) {
        NewLevelShape(b, id, price, qty, side);
        AddNewEffect(b, id, price, qty, side);
      } else {
        var s, k := AppendShape(b, b.orders[OrderSlot(id) := Order(id, price, qty, side)], price, OrderSlot(id), qty);
        JoinShape(b, id, price, qty, side, s, k);
        JoinEffect(b, id, price, qty, side);
      }
    }
  }

  // ------------------------------------------------------ deleteOrder

  /** A slot at two positions is counted twice. */
  lemma OnceIndex(q: seq<nat>, i: nat, j: nat)
    requires i < |q| && j < |q| && q[i] == q[j]
    ensures i != j ==> multiset(q)[q[i]] >= 2
  {
    if i < j {
      assert q == q[..j] + [q[j]] + q[j + 1..];
      assert q[i] in q[..j];
    } else if j < i {
      assert q == q[..i] + [q[i]] + q[i + 1..];
      assert q[j] in q[..i];
    }
  }

  /** `Unlink` on a level of two or more is `LevelWithout`. */
  lemma UnlinkIsWithout(l: Level, slot: nat, qty: nat)
    requires multiset(l.queue)[slot] == 1 && |l.queue| >= 2 && l.orderCount == |l.queue| <= MAX_ORDERS
    ensures slot in l.queue && LevelWithout(l, slot, qty) == Some(Unlink(l, slot, qty))
  {
    var j := SlotIndex(l.queue, slot).value;
    forall i | 0 <= i < |l.queue| && l.queue[i] == slot ensures i == j {
      OnceIndex(l.queue, i, j);
    }
  }

  /** What the invariant says about a live order's level. */
  lemma DeleteFacts(b: Book, id: nat, side: Side) returns (s: Side, k: nat)
    requires Valid(b) && Found(b, id)
    ensures FindPriceLevel(b, b.orders[OrderSlot(id)].price)
    ensures Locate(b, b.orders[OrderSlot(id)].price) == Some((s, k))
    ensures multiset(SideLevels(b, s)[k].queue)[OrderSlot(id)] == 1
    ensures SideLevels(b, s)[k].orderCount == |SideLevels(b, s)[k].queue| <= MAX_ORDERS
    ensures SideLevels(b, s)[k].totalQty < TWO_32
    ensures Distinct(b) && Distinct(DeleteOrder(b, id, side))
  {
    s, k := OrderQueued(b, OrderSlot(id));
    FoundIsLevel(b, b.orders[OrderSlot(id)].price);
    PartsOf(b, s);
    QueueBound(SideLevels(b, s), SideLevels(b, Opposite(s)), s, b.orders, b.levelIndex, k);
    DeleteOrderValid(b, id, side);
    ValidDistinct(b);
    ValidDistinct(DeleteOrder(b, id, side));
  }

  lemma RemoveEffect(b: Book, id: nat, side: Side, s: Side, k: nat)
    requires Distinct(b) && Distinct(DeleteOrder(b, id, side))
    requires Found(b, id) && FindPriceLevel(b, b.orders[OrderSlot(id)].price)
    requires Locate(b, b.orders[OrderSlot(id)].price) == Some((s, k)) && |SideLevels(b, s)[k].queue| == 1
    ensures var r := DeleteOrder(b, id, side);
      LevelsKept(b, r, b.orders[OrderSlot(id)].price) && LevelAt(r, b.orders[OrderSlot(id)].price).None?
  {
    var r := DeleteOrder(b, id, side);
    var price := b.orders[OrderSlot(id)].price;
    var ls := SideLevels(b, s);
    DeleteShape(b, id, side, s, k);
    KeptRemove(ls, k);
    SideFrame(b, r, s, price);
    forall i | 0 <= i < |SideLevels(r, s)| ensures SideLevels(r, s)[i].price != price {
      if i < k { assert SideLevels(r, s)[i] == ls[i]; } else { assert SideLevels(r, s)[i] == ls[i + 1]; }
    }
    assert price in PriceSet(ls);
  }

  lemma UnlinkEffect(b: Book, id: nat, side: Side, s: Side, k: nat)
    requires Distinct(b) && Distinct(DeleteOrder(b, id, side))
    requires Found(b, id) && FindPriceLevel(b, b.orders[OrderSlot(id)].price)
    requires Locate(b, b.orders[OrderSlot(id)].price) == Some((s, k)) && |SideLevels(b, s)[k].queue| != 1
    ensures var r := DeleteOrder(b, id, side);
      && LevelsKept(b, r, b.orders[OrderSlot(id)].price)
      && LevelAt(r, b.orders[OrderSlot(id)].price) == Some(Unlink(SideLevels(b, s)[k], OrderSlot(id), b.orders[OrderSlot(id)].qty))
  {
    var r := DeleteOrder(b, id, side);
    var ls := SideLevels(b, s);
    DeleteShape(b, id, side, s, k);
    KeptUpdate(ls, k, Unlink(ls[k], OrderSlot(id), b.orders[OrderSlot(id)].qty));
    SideFrame(b, r, s, b.orders[OrderSlot(id)].price);
    LevelAtIndex(r, s, k);
  }

  /** `deleteOrder`: an id not stored at its slot changes nothing.
      Otherwise the order leaves the map, and its level loses it (or goes,
      when it was the only order); no other price's level changes. */
  lemma DeleteOrderEffect(b: Book, id: nat, side: Side)
    requires Valid(b)
    ensures var r := DeleteOrder(b, id, side);
      && (!Found(b, id) ==> r == b)
      && (Found(b, id) ==>
            var o := b.orders[OrderSlot(id)];
            && r.orders == b.orders - {OrderSlot(id)}
            && LevelsKept(b, r, o.price)
            && LevelAt(b, o.price).Some? && OrderSlot(id) in LevelAt(b, o.price).value.queue
            && LevelAt(b, o.price).value.orderCount >= 1
            && LevelAt(r, o.price) == LevelWithout(LevelAt(b, o.price).value, OrderSlot(id), o.qty))
  {
    if Found(b, id) {
      var s, k := DeleteFacts(b, id, side);
      DeleteShape(b, id, side, s, k);
      LevelAtIndex(b, s, k);
      if |SideLevels(b, s)[k].queue| == 1 {
        RemoveEffect(b, id, side, s, k);
      } else {
        UnlinkEffect(b, id, side, s, k);
        UnlinkIsWithout(SideLevels(b, s)[k], OrderSlot(id), b.orders[OrderSlot(id)].qty);
      }
    }
  }

  /** Only the sides decide which level a price finds. */
  lemma LevelAtSides(a: Book, r: Book)
    requires r.bids == a.bids && r.asks == a.asks
    ensures forall p :: LevelAt(r, p) == LevelAt(a, p)
  {
    forall p ensures LevelAt(r, p) == LevelAt(a, p) {
      assert Locate(r, p) == Locate(a, p);
    }
  }

  // ------------------------------------------------------ modifyOrder

  /** A book whose one level at (`s`, `k`) was retotalled, all else kept. */
  lemma RetotalEffect(b: Book, r: Book, price: int, delta: int, s: Side, k: nat)
    requires Distinct(b) && Distinct(r) && Locate(b, price) == Some((s, k))
    requires SideLevels(r, s) == SideLevels(b, s)[k := Retotal(SideLevels(b, s)[k], delta)]
    requires SideLevels(r, Opposite(s)) == SideLevels(b, Opposite(s))
    ensures LevelsKept(b, r, price) && LevelAt(r, price) == Some(Retotal(SideLevels(b, s)[k], delta))
  {
    KeptUpdate(SideLevels(b, s), k, Retotal(SideLevels(b, s)[k], delta));
    SideFrame(b, r, s, price);
    LevelAtIndex(r, s, k);
  }

  lemma InPlaceFacts(b: Book, id: nat, price: int, qty: nat, side: Side) returns (s: Side, k: nat)
    requires Valid(b) && qty < TWO_32 && Found(b, id) && b.orders[OrderSlot(id)].price == price
    ensures FindPriceLevel(b, price) && Locate(b, price) == Some((s, k))
    ensures SideLevels(b, s)[k].totalQty < TWO_32
    ensures Distinct(b) && Distinct(ModifyOrder(b, id, price, qty, side))
  {
    s, k := OrderQueued(b, OrderSlot(id));
    FoundIsLevel(b, price);
    assert LevelHolds(SideLevels(b, s)[k], b.orders);
    ModifyInPlaceValid(b, id, price, qty, side);
    ValidDistinct(b);
    ValidDistinct(ModifyOrder(b, id, price, qty, side));
  }

  lemma InPlaceEffect(b: Book, id: nat, price: int, qty: nat, side: Side, s: Side, k: nat)
    requires Distinct(b) && Distinct(ModifyOrder(b, id, price, qty, side))
    requires Found(b, id) && b.orders[OrderSlot(id)].price == price && FindPriceLevel(b, price)
    requires Locate(b, price) == Some((s, k))
    ensures LevelsKept(b, ModifyOrder(b, id, price, qty, side), price)
    ensures LevelAt(ModifyOrder(b, id, price, qty, side), price)
         == Some(Retotal(SideLevels(b, s)[k], ToInt32(ToInt32(qty) - ToInt32(b.orders[OrderSlot(id)].qty))))
  {
    ModifyInPlaceShape(b, id, price, qty, side);
    assert Locate(SetQty(b, OrderSlot(id), qty), price) == Locate(b, price);
    AdjustShape(SetQty(b, OrderSlot(id), qty), price, ToInt32(ToInt32(qty) - ToInt32(b.orders[OrderSlot(id)].qty)), s, k);
    RetotalEffect(b, ModifyOrder(b, id, price, qty, side), price, ToInt32(ToInt32(qty) - ToInt32(b.orders[OrderSlot(id)].qty)), s, k);
  }

  /** In uint32_t, adding the int32_t difference is subtracting the old
      quantity and adding the new. */
  lemma DiffTotal(t: nat, oq: nat, q: nat)
    requires t < TWO_32
    ensures U32(t + ToInt32(ToInt32(q) - ToInt32(oq))) == U32(t - oq + q)
  {
    ToInt32Diff(q, oq);
    U32Shift(t, ToInt32(ToInt32(q) - ToInt32(oq)), q - oq);
  }

  lemma InPlaceOrders(b: Book, id: nat, price: int, qty: nat, side: Side)
    requires Found(b, id) && b.orders[OrderSlot(id)].price == price && FindPriceLevel(b, price)
    ensures ModifyOrder(b, id, price, qty, side).orders == b.orders[OrderSlot(id) := b.orders[OrderSlot(id)].(qty := qty)]
  {
    ModifyInPlaceShape(b, id, price, qty, side);
  }

  /** `modifyOrder` at the order's own price: the order keeps its place in
      its queue and takes the new `qty`; its level's total becomes
      old total - old qty + new qty (modulo 2^32), whatever the int32_t
      difference wrapped to; no other price's level changes. */
  lemma ModifyInPlaceEffect(b: Book, id: nat, price: int, qty: nat, side: Side)
    requires Valid(b) && qty < TWO_32 && Found(b, id) && b.orders[OrderSlot(id)].price == price
    ensures ModifyOrder(b, id, price, qty, side).orders == b.orders[OrderSlot(id) := b.orders[OrderSlot(id)].(qty := qty)]
    ensures LevelsKept(b, ModifyOrder(b, id, price, qty, side), price)
    ensures LevelAt(b, price).Some?
    ensures LevelAt(ModifyOrder(b, id, price, qty, side), price)
         == Some(LevelAt(b, price).value.(totalQty := U32(LevelAt(b, price).value.totalQty - b.orders[OrderSlot(id)].qty + qty)))
  {
    var s, k := InPlaceFacts(b, id, price, qty, side);
    InPlaceOrders(b, id, price, qty, side);
    InPlaceLevel(b, id, price, qty, side, s, k);
  }

  lemma InPlaceLevel(b: Book, id: nat, price: int, qty: nat, side: Side, s: Side, k: nat)
    requires Distinct(b) && Distinct(ModifyOrder(b, id, price, qty, side))
    requires Found(b, id) && b.orders[OrderSlot(id)].price == price && FindPriceLevel(b, price)
    requires Locate(b, price) == Some((s, k)) && SideLevels(b, s)[k].totalQty < TWO_32
    ensures LevelsKept(b, ModifyOrder(b, id, price, qty, side), price)
    ensures LevelAt(b, price).Some?
    ensures LevelAt(ModifyOrder(b, id, price, qty, side), price)
         == Some(LevelAt(b, price).value.(totalQty := U32(LevelAt(b, price).value.totalQty - b.orders[OrderSlot(id)].qty + qty)))
  {
    InPlaceEffect(b, id, price, qty, side, s, k);
    InPlaceResult(b, ModifyOrder(b, id, price, qty, side), price, s, k, b.orders[OrderSlot(id)].qty, qty);
  }

  /** The level at `price` after the in-place modify, read back in terms of
      the level before it. */
  lemma InPlaceResult(b: Book, r: Book, price: int, s: Side, k: nat, oq: nat, qty: nat)
    requires Distinct(b) && Locate(b, price) == Some((s, k)) && SideLevels(b, s)[k].totalQty < TWO_32
    requires LevelAt(r, price) == Some(Retotal(SideLevels(b, s)[k], ToInt32(ToInt32(qty) - ToInt32(oq))))
    ensures LevelAt(b, price).Some?
    ensures LevelAt(r, price) == Some(LevelAt(b, price).value.(totalQty := U32(LevelAt(b, price).value.totalQty - oq + qty)))
  {
    LevelAtIndex(b, s, k);
    RetotalDiff(SideLevels(b, s)[k], oq, qty);
  }

  /** A level's total moved by the int32_t difference is its total with the
      old quantity taken off and the new one added (modulo 2^32). */
  lemma RetotalDiff(l: Level, oq: nat, q: nat)
    requires l.totalQty < TWO_32
    ensures Retotal(l, ToInt32(ToInt32(q) - ToInt32(oq))) == l.(totalQty := U32(l.totalQty - oq + q))
  {
    DiffTotal(l.totalQty, oq, q);
  }

  lemma MoveFacts(b: Book, id: nat, price: int, qty: nat, side: Side)
    requires Valid(b) && IsInt32(price) && qty < TWO_32 && CollisionFree(b, price) && Found(b, id)
    ensures Valid(DeleteOrder(b, id, side)) && CollisionFree(DeleteOrder(b, id, side), price)
    ensures id < TWO_64 && OrderSlot(id) !in DeleteOrder(b, id, side).orders
    ensures OrderSlot(id) in b.orders[OrderSlot(id) := Order(id, price, qty, side)]
  {
    DeleteOrderValid(b, id, side);
    DeleteShrinksIndex(b, id, side, price);
    DeleteOrderEffect(b, id, side);
    assert OrderWellTyped(OrderSlot(id), b.orders[OrderSlot(id)]);
  }

  /** The two steps of a move, each through its own effect lemma. */
  lemma MoveSteps(b: Book, id: nat, price: int, qty: nat, side: Side)
    requires Valid(b) && IsInt32(price) && qty < TWO_32 && CollisionFree(b, price) && Found(b, id)
    ensures DeleteOrder(b, id, side).orders == b.orders - {OrderSlot(id)}
    ensures LevelsKept(b, DeleteOrder(b, id, side), b.orders[OrderSlot(id)].price)
    ensures LevelAt(b, b.orders[OrderSlot(id)].price).Some?
    ensures OrderSlot(id) in LevelAt(b, b.orders[OrderSlot(id)].price).value.queue
    ensures LevelAt(b, b.orders[OrderSlot(id)].price).value.orderCount >= 1
    ensures LevelAt(DeleteOrder(b, id, side), b.orders[OrderSlot(id)].price)
         == LevelWithout(LevelAt(b, b.orders[OrderSlot(id)].price).value, OrderSlot(id), b.orders[OrderSlot(id)].qty)
    ensures LevelRefused(DeleteOrder(b, id, side), price) ==>
              AddOrder(DeleteOrder(b, id, side), id, price, qty, side) == DeleteOrder(b, id, side)
              && LevelAt(DeleteOrder(b, id, side), price).None?
    ensures !LevelRefused(DeleteOrder(b, id, side), price) ==>
              AddOrder(DeleteOrder(b, id, side), id, price, qty, side).orders
                == DeleteOrder(b, id, side).orders[OrderSlot(id) := Order(id, price, qty, side)]
    ensures !LevelRefused(DeleteOrder(b, id, side), price) ==>
              LevelsKept(DeleteOrder(b, id, side), AddOrder(DeleteOrder(b, id, side), id, price, qty, side), price)
    ensures !LevelRefused(DeleteOrder(b, id, side), price) ==>
              LevelAt(AddOrder(DeleteOrder(b, id, side), id, price, qty, side), price)
                == Some(LevelWith(LevelAt(DeleteOrder(b, id, side), price), OrderSlot(id), price, qty, side))
  {
    MoveFacts(b, id, price, qty, side);
    DeleteOrderEffect(b, id, side);
    AddOrderEffect(DeleteOrder(b, id, side), id, price, qty, side);
    FoundIsLevel(DeleteOrder(b, id, side), price);
  }

  /** Chaining a removal at `op` with an addition at `price`. */
  lemma ComposeMove(b: Book, d: Book, a: Book, r: Book, slot: nat, op: int, oq: nat, price: int, qty: nat, side: Side, o: Order)
    requires op != price
    requires d.orders == b.orders - {slot} && a.orders == d.orders[slot := o] && r.orders == a.orders
    requires LevelsKept(b, d, op) && LevelAt(b, op).Some? && slot in LevelAt(b, op).value.queue
    requires LevelAt(b, op).value.orderCount >= 1
    requires LevelAt(d, op) == LevelWithout(LevelAt(b, op).value, slot, oq)
    requires LevelsKept(d, a, price) && LevelAt(a, price) == Some(LevelWith(LevelAt(d, price), slot, price, qty, side))
    requires r.bids == a.bids && r.asks == a.asks
    ensures forall p :: p != price && p != op ==> LevelAt(r, p) == LevelAt(b, p)
    ensures LevelAt(r, op) == LevelWithout(LevelAt(b, op).value, slot, oq)
    ensures LevelAt(r, price) == Some(LevelWith(LevelAt(b, price), slot, price, qty, side))
    ensures r.orders == b.orders[slot := o]
  {
    LevelAtSides(a, r);
    assert (b.orders - {slot})[slot := o] == b.orders[slot := o];
  }

  /** A removal at `op` whose addition at `price` was refused: only the
      removal shows, and `price` still has no level. */
  lemma ComposeRefused(b: Book, d: Book, r: Book, op: int, price: int)
    requires op != price && LevelsKept(b, d, op) && LevelAt(d, price).None?
    requires r.bids == d.bids && r.asks == d.asks
    ensures forall p :: p != op ==> LevelAt(r, p) == LevelAt(b, p)
    ensures LevelAt(r, op) == LevelAt(d, op)
    ensures LevelAt(r, price).None?
  {
    LevelAtSides(d, r);
  }

  /** `modifyOrder` to a new price: the old price's level loses the order
      as `deleteOrder` takes it, and the order, with its new price and
      `qty`, joins the new price's level at the back of the queue (or a
      fresh level) as `addOrder` puts it; no other price's level changes.
      When the new price needs a level and the level pool is full once
      the order has left, the order is gone from the book. */
  lemma ModifyMovesEffect(b: Book, id: nat, price: int, qty: nat, side: Side)
    requires Valid(b) && IsInt32(price) && qty < TWO_32 && CollisionFree(b, price)
    requires Found(b, id) && b.orders[OrderSlot(id)].price != price
    ensures !LevelRefused(DeleteOrder(b, id, side), price) ==>
              ModifyOrder(b, id, price, qty, side).orders == b.orders[OrderSlot(id) := Order(id, price, qty, side)]
    ensures LevelRefused(DeleteOrder(b, id, side), price) ==>
              ModifyOrder(b, id, price, qty, side).orders == b.orders - {OrderSlot(id)}
    ensures forall p :: p != price && p != b.orders[OrderSlot(id)].price ==> LevelAt(ModifyOrder(b, id, price, qty, side), p) == LevelAt(b, p)
    ensures LevelAt(b, b.orders[OrderSlot(id)].price).Some?
    ensures OrderSlot(id) in LevelAt(b, b.orders[OrderSlot(id)].price).value.queue
    ensures LevelAt(b, b.orders[OrderSlot(id)].price).value.orderCount >= 1
    ensures LevelAt(ModifyOrder(b, id, price, qty, side), b.orders[OrderSlot(id)].price)
         == LevelWithout(LevelAt(b, b.orders[OrderSlot(id)].price).value, OrderSlot(id), b.orders[OrderSlot(id)].qty)
    ensures !LevelRefused(DeleteOrder(b, id, side), price) ==>
              LevelAt(ModifyOrder(b, id, price, qty, side), price)
                == Some(LevelWith(LevelAt(b, price), OrderSlot(id), price, qty, side))
    ensures LevelRefused(DeleteOrder(b, id, side), price) ==> LevelAt(ModifyOrder(b, id, price, qty, side), price).None?
  {
    MoveSteps(b, id, price, qty, side);
    if LevelRefused(DeleteOrder(b, id, side), price) {
      ComposeRefused(b, DeleteOrder(b, id, side), ModifyOrder(b, id, price, qty, side),
                     b.orders[OrderSlot(id)].price, price);
    } else {
      ComposeMove(b, DeleteOrder(b, id, side), AddOrder(DeleteOrder(b, id, side), id, price, qty, side),
                  ModifyOrder(b, id, price, qty, side), OrderSlot(id), b.orders[OrderSlot(id)].price,
                  b.orders[OrderSlot(id)].qty, price, qty, side, Order(id, price, qty, side));
    }
  }

  // ----------------------------------------------------- processTrade

  lemma FillFacts(b: Book, id: nat, price: int, qty: nat, side: Side)
    requires Valid(b) && Found(b, id) && qty < b.orders[OrderSlot(id)].qty
    ensures Distinct(b) && Distinct(ProcessTrade(b, id, price, qty, side))
    ensures FindPriceLevel(b, price) <==> Locate(b, price).Some?
  {
    ProcessTradeValid(b, id, price, qty, side);
    ValidDistinct(b);
    ValidDistinct(ProcessTrade(b, id, price, qty, side));
    FoundIsLevel(b, price);
  }

  lemma FillAtLevel(b: Book, id: nat, price: int, qty: nat, side: Side, s: Side, k: nat)
    requires Distinct(b) && Distinct(ProcessTrade(b, id, price, qty, side))
    requires Found(b, id) && qty < b.orders[OrderSlot(id)].qty && FindPriceLevel(b, price) && Locate(b, price) == Some((s, k))
    ensures LevelsKept(b, ProcessTrade(b, id, price, qty, side), price)
    ensures LevelAt(ProcessTrade(b, id, price, qty, side), price) == Some(Retotal(SideLevels(b, s)[k], Minus(qty)))
    ensures ProcessTrade(b, id, price, qty, side).orders == SetQty(b, OrderSlot(id), b.orders[OrderSlot(id)].qty - qty).orders
  {
    PartialFillShape(b, id, price, qty, side);
    assert FindPriceLevel(SetQty(b, OrderSlot(id), b.orders[OrderSlot(id)].qty - qty), price);
    assert Locate(SetQty(b, OrderSlot(id), b.orders[OrderSlot(id)].qty - qty), price) == Locate(b, price);
    AdjustShape(SetQty(b, OrderSlot(id), b.orders[OrderSlot(id)].qty - qty), price, Minus(qty), s, k);
    RetotalEffect(b, ProcessTrade(b, id, price, qty, side), price, Minus(qty), s, k);
  }

  /** Facts about `a` carried over to a book with the same sides and map. */
  lemma DeleteTransport(b: Book, a: Book, r: Book, slot: nat, op: int, oq: nat)
    requires r.bids == a.bids && r.asks == a.asks && r.orders == a.orders
    requires a.orders == b.orders - {slot} && LevelsKept(b, a, op)
    requires LevelAt(b, op).Some? && slot in LevelAt(b, op).value.queue && LevelAt(b, op).value.orderCount >= 1
    requires LevelAt(a, op) == LevelWithout(LevelAt(b, op).value, slot, oq)
    ensures r.orders == b.orders - {slot} && LevelsKept(b, r, op)
    ensures LevelAt(r, op) == LevelWithout(LevelAt(b, op).value, slot, oq)
  {
    LevelAtSides(a, r);
  }

  /** A trade of at least the order's `qty` acts on the levels and the map as `deleteOrder`. */
  lemma FullFillEffect(b: Book, id: nat, price: int, qty: nat, side: Side)
    requires Valid(b) && Found(b, id) && b.orders[OrderSlot(id)].qty <= qty
    ensures ProcessTrade(b, id, price, qty, side).orders == b.orders - {OrderSlot(id)}
    ensures LevelsKept(b, ProcessTrade(b, id, price, qty, side), b.orders[OrderSlot(id)].price)
    ensures LevelAt(b, b.orders[OrderSlot(id)].price).Some?
    ensures OrderSlot(id) in LevelAt(b, b.orders[OrderSlot(id)].price).value.queue
    ensures LevelAt(b, b.orders[OrderSlot(id)].price).value.orderCount >= 1
    ensures LevelAt(ProcessTrade(b, id, price, qty, side), b.orders[OrderSlot(id)].price)
         == LevelWithout(LevelAt(b, b.orders[OrderSlot(id)].price).value, OrderSlot(id), b.orders[OrderSlot(id)].qty)
  {
    DeleteOrderEffect(b, id, side);
    DeleteTransport(b, DeleteOrder(b, id, side), ProcessTrade(b, id, price, qty, side), OrderSlot(id),
                    b.orders[OrderSlot(id)].price, b.orders[OrderSlot(id)].qty);
  }

  lemma PartialResult(b: Book, id: nat, price: int, qty: nat, side: Side)
    requires Distinct(b) && Distinct(ProcessTrade(b, id, price, qty, side))
    requires FindPriceLevel(b, price) <==> Locate(b, price).Some?
    requires Found(b, id) && qty < b.orders[OrderSlot(id)].qty
    ensures ProcessTrade(b, id, price, qty, side).orders
         == b.orders[OrderSlot(id) := b.orders[OrderSlot(id)].(qty := b.orders[OrderSlot(id)].qty - qty)]
    ensures LevelsKept(b, ProcessTrade(b, id, price, qty, side), price)
    ensures LevelAt(b, price).None? ==> LevelAt(ProcessTrade(b, id, price, qty, side), price).None?
    ensures LevelAt(b, price).Some? ==>
      LevelAt(ProcessTrade(b, id, price, qty, side), price) == Some(LevelAt(b, price).value.(totalQty := U32(LevelAt(b, price).value.totalQty - qty)))
  {
    PartialFillShape(b, id, price, qty, side);
    if FindPriceLevel(b, price) {
      var (s, k) := Locate(b, price).value;
      FillAtLevel(b, id, price, qty, side, s, k);
      LevelAtIndex(b, s, k);
    } else {
      LevelAtSides(b, ProcessTrade(b, id, price, qty, side));
    }
  }

  /** A smaller trade lowers the order's `qty` and the total of the level
      at the trade price. */
  lemma PartialFillEffect(b: Book, id: nat, price: int, qty: nat, side: Side)
    requires Valid(b) && Found(b, id) && qty < b.orders[OrderSlot(id)].qty
    ensures ProcessTrade(b, id, price, qty, side).orders
         == b.orders[OrderSlot(id) := b.orders[OrderSlot(id)].(qty := b.orders[OrderSlot(id)].qty - qty)]
    ensures LevelsKept(b, ProcessTrade(b, id, price, qty, side), price)
    ensures LevelAt(b, price).None? ==> LevelAt(ProcessTrade(b, id, price, qty, side), price).None?
    ensures LevelAt(b, price).Some? ==>
      LevelAt(ProcessTrade(b, id, price, qty, side), price) == Some(LevelAt(b, price).value.(totalQty := U32(LevelAt(b, price).value.totalQty - qty)))
  {
    FillFacts(b, id, price, qty, side);
    PartialResult(b, id, price, qty, side);
  }

  /** The book part of `processTrade`: an unknown id changes nothing (and
      no trade is recorded); otherwise [`FullFillEffect`] or [`PartialFillEffect`]. */
  lemma ProcessTradeUnknown(b: Book, id: nat, price: int, qty: nat, side: Side)
    requires !Found(b, id)
    ensures ProcessTrade(b, id, price, qty, side) == b
  {
  }
}
