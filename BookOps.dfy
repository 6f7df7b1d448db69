/** The book operations keep the book's invariant: side-generic facts
    about inserting, rewriting and removing one level, then one lemma per
    operation of impl/src/order_book.cpp. */
module BookOps {
  import opened Common
  import opened BookState
  import opened BookLemmas

  /** A newly constructed book (no orders, no levels, all-zero BBO) is
      valid, its totals are exact and its BBO is current. */
  lemma EmptyValid()
    ensures Valid(EmptyBook) && TotalsExact(EmptyBook) && BBOCurrent(EmptyBook)
  {
    assert Queued(EmptyBook) == multiset{};
    assert EmptyBook.orders.Keys == {};
  }

  /** The invariant on its parts: a side, its opposite, the order map
      and the level hash table. */
  ghost predicate PartsValid(ls: seq<Level>, os: seq<Level>, side: Side, orders: map<nat, Order>, li: map<nat, int>)
  {
    && SideValid(ls, side, orders) && SideValid(os, Opposite(side), orders)
    && PriceSet(ls) !! PriceSet(os)
    && multiset(Flatten(ls)) + multiset(Flatten(os)) == multiset(orders.Keys)
    && OrdersTyped(orders)
    && IndexExact(li, PriceSet(ls) + PriceSet(os))
  }

  /** The invariant seen from one side: `side` and its opposite in place
      of bids and asks. */
  lemma ValidOn(b: Book, side: Side)
    ensures Valid(b) <==> PartsValid(SideLevels(b, side), SideLevels(b, Opposite(side)), side, b.orders, b.levelIndex)
  {
    if side == Sell {
      assert PriceSet(b.asks) + PriceSet(b.bids) == PriceSet(b.bids) + PriceSet(b.asks);
    }
  }

  lemma PartsOf(b: Book, side: Side)
    requires Valid(b)
    ensures PartsValid(SideLevels(b, side), SideLevels(b, Opposite(side)), side, b.orders, b.levelIndex)
  {
    ValidOn(b, side);
  }

  lemma FromParts(r: Book, side: Side, ls: seq<Level>, os: seq<Level>, orders: map<nat, Order>, li: map<nat, int>)
    requires SideLevels(r, side) == ls && SideLevels(r, Opposite(side)) == os && r.orders == orders && r.levelIndex == li
    requires PartsValid(ls, os, side, orders, li)
    ensures Valid(r)
  {
    ValidOn(r, side);
  }

  /** The invariant does not look at the cached BBO. */
  lemma ValidIgnoresBBO(b: Book, r: Book)
    requires r.bids == b.bids && r.asks == b.asks && r.orders == b.orders && r.levelIndex == b.levelIndex
    ensures Valid(r) <==> Valid(b)
  {
  }

  // ------------------------------------------------- one side, one level

  lemma SideInsert(ls: seq<Level>, l: Level, side: Side, orders: map<nat, Order>)
    requires SideValid(ls, side, orders) && l.side == side && LevelHolds(l, orders) && l.price !in PriceSet(ls)
    ensures var r := InsertAt(ls, InsertionPoint(ls, l.price, side), l);
      && SideValid(r, side, orders)
      && PriceSet(r) == PriceSet(ls) + {l.price}
      && multiset(Flatten(r)) == multiset(Flatten(ls)) + multiset(l.queue)
  {
    var k := InsertionPoint(ls, l.price, side);
    var r := InsertAt(ls, k, l);
    OrderedInsert(ls, l, side);
    PriceSetInsert(ls, k, l);
    FlattenInsert(ls, k, l);
    forall j | 0 <= j < |r| ensures r[j].side == side && LevelHolds(r[j], orders) {
      if j < k { assert r[j] == ls[j]; } else if j > k { assert r[j] == ls[j - 1]; }
    }
  }

  lemma SideReplace(ls: seq<Level>, k: nat, l: Level, side: Side, orders: map<nat, Order>)
    requires Ordered(ls, side) && SidesAre(ls, side) && k < |ls|
    requires l.price == ls[k].price && l.side == side && LevelHolds(l, orders)
    requires forall i :: 0 <= i < |ls| && i != k ==> LevelHolds(ls[i], orders)
    ensures SideValid(ls[k := l], side, orders)
    ensures PriceSet(ls[k := l]) == PriceSet(ls)
    ensures multiset(Flatten(ls[k := l])) + multiset(ls[k].queue) == multiset(Flatten(ls)) + multiset(l.queue)
  {
    var r := ls[k := l];
    PriceSetUpdate(ls, k, l);
    FlattenUpdate(ls, k, l);
    forall i, j | 0 <= i < j < |r| ensures Better(r[i].price, r[j].price, side) {
      assert r[i].price == ls[i].price && r[j].price == ls[j].price;
    }
    forall j | 0 <= j < |r| ensures r[j].side == side && LevelHolds(r[j], orders) {
      if j != k { assert r[j] == ls[j]; }
    }
  }

  lemma SideRemove(ls: seq<Level>, k: nat, side: Side, orders: map<nat, Order>)
    requires Ordered(ls, side) && SidesAre(ls, side) && k < |ls|
    requires forall i :: 0 <= i < |ls| && i != k ==> LevelHolds(ls[i], orders)
    ensures SideValid(RemoveAt(ls, k), side, orders)
    ensures PriceSet(RemoveAt(ls, k)) == PriceSet(ls) - {ls[k].price}
    ensures multiset(Flatten(ls)) == multiset(Flatten(RemoveAt(ls, k))) + multiset(ls[k].queue)
  {
    var r := RemoveAt(ls, k);
    OrderedRemove(ls, k, side);
    PriceSetRemove(ls, k, side);
    FlattenRemove(ls, k);
    forall j | 0 <= j < |r| ensures r[j].side == side && LevelHolds(r[j], orders) {
      if j < k { assert r[j] == ls[j]; } else { assert r[j] == ls[j + 1]; }
    }
  }

  // ------------------------------------------------------ level index

  lemma IndexInsert(li: map<nat, int>, prices: set<int>, p: int)
    requires IndexExact(li, prices) && p !in prices && PriceToIndex(p) !in li
    ensures IndexExact(li[PriceToIndex(p) := p], prices + {p})
  {
  }

  lemma IndexRemove(li: map<nat, int>, prices: set<int>, p: int)
    requires IndexExact(li, prices) && p in prices
    ensures IndexExact(li - {PriceToIndex(p)}, prices - {p})
  {
  }

  // ----------------------------------------------------------- addOrder

  /** A new level for a new order, linked into the order's side. */
  lemma NewLevelParts(ls: seq<Level>, os: seq<Level>, orders: map<nat, Order>, li: map<nat, int>, slot: nat, o: Order)
    requires PartsValid(ls, os, o.side, orders, li) && slot !in orders && OrderWellTyped(slot, o)
    requires o.price !in PriceSet(ls) + PriceSet(os) && PriceToIndex(o.price) !in li
    ensures var l := Level(o.price, o.side, [slot], U32(o.qty), 1);
      PartsValid(InsertAt(ls, InsertionPoint(ls, o.price, o.side), l), os, o.side, orders[slot := o], li[PriceToIndex(o.price) := o.price])
  {
    var orders' := orders[slot := o];
    var l := Level(o.price, o.side, [slot], U32(o.qty), 1);
    AllHoldFrame(ls, orders, orders');
    AllHoldFrame(os, orders, orders');
    assert LevelHolds(l, orders') by { assert l.queue[0] == slot; }
    SideInsert(ls, l, o.side, orders');
    IndexInsert(li, PriceSet(ls) + PriceSet(os), o.price);
    KeysAdd(orders, slot, o);
    assert multiset(l.queue) == multiset{slot};
    Grow(multiset(Flatten(ls)), multiset(Flatten(os)), multiset(orders.Keys), multiset{slot});
    var ins := InsertAt(ls, InsertionPoint(ls, l.price, o.side), l);
    assert PriceSet(ins) + PriceSet(os) == PriceSet(ls) + PriceSet(os) + {o.price};
  }

  lemma AddNewLevelValid(b: Book, slot: nat, o: Order)
    requires Valid(b) && slot !in b.orders && OrderWellTyped(slot, o)
    requires o.price !in PriceSet(b.bids) + PriceSet(b.asks) && PriceToIndex(o.price) !in b.levelIndex
    ensures Valid(AddPriceLevel(b.(orders := b.orders[slot := o]), Level(o.price, o.side, [slot], U32(o.qty), 1)))
  {
    var side := o.side;
    var r := AddPriceLevel(b.(orders := b.orders[slot := o]), Level(o.price, o.side, [slot], U32(o.qty), 1));
    ValidOn(b, side);
    NewLevelParts(SideLevels(b, side), SideLevels(b, Opposite(side)), b.orders, b.levelIndex, slot, o);
    ValidOn(r, side);
  }

  /** A level with a new order at its back still holds and queues one
      more slot. */
  lemma AppendHolds(l: Level, orders: map<nat, Order>, slot: nat, o: Order)
    requires LevelHolds(l, orders) && slot !in orders && o.price == l.price
    ensures LevelHolds(Enqueue(l, slot, o.qty), orders[slot := o])
    ensures multiset(Enqueue(l, slot, o.qty).queue) == multiset(l.queue) + multiset{slot}
  {
    var l' := Enqueue(l, slot, o.qty);
    forall j | 0 <= j < |l'.queue| ensures l'.queue[j] in orders[slot := o] && orders[slot := o][l'.queue[j]].price == l'.price {
      if j < |l.queue| { assert l'.queue[j] == l.queue[j]; }
    }
  }

  /** Rewriting level `k` of `side` (same price) together with the order
      map keeps the invariant, when every level holds against the new map
      and the rewritten queue gains exactly the slots the map gains. */
  lemma ReplaceParts(ls: seq<Level>, os: seq<Level>, side: Side, orders: map<nat, Order>, orders': map<nat, Order>,
                     li: map<nat, int>, k: nat, l': Level)
    requires PartsValid(ls, os, side, orders, li) && k < |ls|
    requires l'.price == ls[k].price && l'.side == side && LevelHolds(l', orders')
    requires forall i :: 0 <= i < |ls| && i != k ==> LevelHolds(ls[i], orders')
    requires AllHold(os, orders') && OrdersTyped(orders')
    requires multiset(l'.queue) + multiset(orders.Keys) == multiset(ls[k].queue) + multiset(orders'.Keys)
    ensures PartsValid(ls[k := l'], os, side, orders', li)
  {
    SideReplace(ls, k, l', side, orders');
    Rebalance(multiset(Flatten(ls[k := l'])), multiset(Flatten(ls)), multiset(Flatten(os)), multiset(ls[k].queue), multiset(l'.queue),
              multiset(orders.Keys), multiset(orders'.Keys));
  }

  /** A new order at the back of an existing level. */
  lemma AppendParts(ls: seq<Level>, os: seq<Level>, side: Side, orders: map<nat, Order>, li: map<nat, int>, k: nat, slot: nat, o: Order)
    requires PartsValid(ls, os, side, orders, li) && slot !in orders && OrderWellTyped(slot, o)
    requires k < |ls| && ls[k].price == o.price
    ensures PartsValid(ls[k := Enqueue(ls[k], slot, o.qty)], os, side, orders[slot := o], li)
  {
    var orders' := orders[slot := o];
    var l := ls[k];
    var l' := Enqueue(l, slot, o.qty);
    AppendHolds(l, orders, slot, o);
    AllHoldFrame(ls, orders, orders');
    AllHoldFrame(os, orders, orders');
    KeysAdd(orders, slot, o);
    Shift(multiset(l.queue), multiset(orders.Keys), multiset{slot});
    ReplaceParts(ls, os, side, orders, orders', li, k, l');
  }

  /** What `AppendOrder` builds, field by field, when the price has a
      level. */
  lemma AppendShape(b: Book, orders': map<nat, Order>, price: int, slot: nat, qty: nat) returns (side: Side, k: nat)
    requires Locate(b, price).Some?
    ensures Locate(b, price) == Some((side, k)) && k < |SideLevels(b, side)|
    ensures var r := AppendOrder(b.(orders := orders'), price, slot, qty);
      && SideLevels(r, side) == SideLevels(b, side)[k := Enqueue(SideLevels(b, side)[k], slot, qty)]
      && SideLevels(r, Opposite(side)) == SideLevels(b, Opposite(side))
      && r.orders == orders' && r.levelIndex == b.levelIndex && r.bbo == b.bbo
  {
    side, k := Locate(b, price).value.0, Locate(b, price).value.1;
    assert Locate(b.(orders := orders'), price) == Locate(b, price);
  }

  /** ... whichever side that level is on. */
  lemma AppendValid(b: Book, slot: nat, o: Order)
    requires Valid(b) && slot !in b.orders && OrderWellTyped(slot, o) && Locate(b, o.price).Some?
    ensures Valid(AppendOrder(b.(orders := b.orders[slot := o]), o.price, slot, o.qty))
  {
    var side, k := AppendShape(b, b.orders[slot := o], o.price, slot, o.qty);
    var ls, os := SideLevels(b, side), SideLevels(b, Opposite(side));
    PartsOf(b, side);
    AppendParts(ls, os, side, b.orders, b.levelIndex, k, slot, o);
    FromParts(AppendOrder(b.(orders := b.orders[slot := o]), o.price, slot, o.qty), side,
              ls[k := Enqueue(ls[k], slot, o.qty)], os, b.orders[slot := o], b.levelIndex);
  }

  /** `addOrder` keeps the invariant, for inputs of the C++ widths and a
      price whose level hash slot is free or its own. */
  lemma AddOrderValid(b: Book, id: nat, price: int, qty: nat, side: Side)
    requires Valid(b) && id < TWO_64 && IsInt32(price) && qty < TWO_32 && CollisionFree(b, price)
    ensures Valid(AddOrder(b, id, price, qty, side))
  {
    var slot := OrderSlot(id);
    if slot !in b.orders && !LevelRefused(b, price) {
      var o := Order(id, price, qty, side);
      var b1 := b.(orders := b.orders[slot := o]);
      var b2 := if !FindPriceLevel(b, price) then AddPriceLevel(b1, Level(price, side, [slot], U32(qty), 1))
                else AppendOrder(b1, price, slot, qty);
      FoundIsLevel(b, price);
      if !FindPriceLevel(b, price) {
        AddNewLevelValid(b, slot, o);
      } else {
        AppendValid(b, slot, o);
      }
      ValidIgnoresBBO(b2, AddOrder(b, id, price, qty, side));
    }
  }

  // -------------------------------------------------------- deleteOrder

  /** A level queues no more orders than there are order slots. */
  lemma QueueBound(ls: seq<Level>, os: seq<Level>, side: Side, orders: map<nat, Order>, li: map<nat, int>, k: nat)
    requires PartsValid(ls, os, side, orders, li) && k < |ls|
    ensures |ls[k].queue| <= MAX_ORDERS
  {
    QueueInFlatten(ls, k);
    SubCard(multiset(ls[k].queue), multiset(Flatten(ls)));
    assert |multiset(Flatten(ls))| <= |multiset(orders.Keys)|;
    BoundedCard(orders.Keys, MAX_ORDERS);
  }

  /** Within one side, and across the two, levels of another index have
      another price. */
  lemma OthersPriced(ls: seq<Level>, os: seq<Level>, side: Side, orders: map<nat, Order>, li: map<nat, int>, k: nat)
    requires PartsValid(ls, os, side, orders, li) && k < |ls|
    ensures forall i :: 0 <= i < |ls| && i != k ==> ls[i].price != ls[k].price
    ensures forall i :: 0 <= i < |os| ==> os[i].price != ls[k].price
  {
    forall i | 0 <= i < |ls| && i != k ensures ls[i].price != ls[k].price {
      if ls[i].price == ls[k].price { OrderedDistinct(ls, side, i, k); }
    }
    assert ls[k].price in PriceSet(ls);
    forall i | 0 <= i < |os| ensures os[i].price != ls[k].price {
      assert os[i].price in PriceSet(os);
    }
  }

  /** Unlinking a once-queued order from a level of two or more. */
  lemma UnlinkHolds(l: Level, orders: map<nat, Order>, slot: nat)
    requires LevelHolds(l, orders) && slot in orders && multiset(l.queue)[slot] == 1 && 2 <= |l.queue| <= MAX_ORDERS
    ensures LevelHolds(Unlink(l, slot, orders[slot].qty), orders - {slot})
    ensures multiset(Unlink(l, slot, orders[slot].qty).queue) + multiset{slot} == multiset(l.queue)
  {
    var i := SlotIndex(l.queue, slot).value;
    var q' := RemoveAt(l.queue, i);
    assert l.queue == l.queue[..i] + [slot] + l.queue[i + 1..];
    assert q' == l.queue[..i] + l.queue[i + 1..];
    assert multiset(l.queue) == multiset(q') + multiset{slot};
    assert slot !in q';
    forall j | 0 <= j < |q'| ensures q'[j] in orders - {slot} && orders[q'[j]].price == l.price {
      var j' := if j < i then j else j + 1;
      assert q'[j] == l.queue[j'];
      assert q'[j] in q';
    }
  }

  lemma UnlinkParts(ls: seq<Level>, os: seq<Level>, side: Side, orders: map<nat, Order>, li: map<nat, int>, k: nat, slot: nat)
    requires PartsValid(ls, os, side, orders, li) && k < |ls| && slot in orders
    requires orders[slot].price == ls[k].price && multiset(ls[k].queue)[slot] == 1 && |ls[k].queue| >= 2
    ensures PartsValid(ls[k := Unlink(ls[k], slot, orders[slot].qty)], os, side, orders - {slot}, li)
  {
    var orders' := orders - {slot};
    var l' := Unlink(ls[k], slot, orders[slot].qty);
    QueueBound(ls, os, side, orders, li, k);
    UnlinkHolds(ls[k], orders, slot);
    OthersPriced(ls, os, side, orders, li, k);
    AllHoldWithout(ls, orders, slot, Some(k));
    AllHoldWithout(os, orders, slot, None);
    KeysRemove(orders, slot);
    Shift(multiset(l'.queue), multiset(orders'.Keys), multiset{slot});
    ReplaceParts(ls, os, side, orders, orders', li, k, l');
  }

  /** Removing the level whose only order is deleted. */
  lemma RemoveParts(ls: seq<Level>, os: seq<Level>, side: Side, orders: map<nat, Order>, li: map<nat, int>, k: nat, slot: nat)
    requires PartsValid(ls, os, side, orders, li) && k < |ls| && slot in orders && ls[k].queue == [slot]
    ensures PartsValid(RemoveAt(ls, k), os, side, orders - {slot}, li - {PriceToIndex(ls[k].price)})
  {
    var orders' := orders - {slot};
    var p := ls[k].price;
    assert LevelHolds(ls[k], orders) && ls[k].queue[0] == slot;
    OthersPriced(ls, os, side, orders, li, k);
    AllHoldWithout(ls, orders, slot, Some(k));
    AllHoldWithout(os, orders, slot, None);
    SideRemove(ls, k, side, orders');
    IndexRemove(li, PriceSet(ls) + PriceSet(os), p);
    assert PriceSet(RemoveAt(ls, k)) + PriceSet(os) == (PriceSet(ls) + PriceSet(os)) - {p};
    KeysRemove(orders, slot);
    assert multiset(ls[k].queue) == multiset{slot};
    Shrink(multiset(Flatten(RemoveAt(ls, k))) , multiset(Flatten(os)), multiset(orders'.Keys), multiset{slot});
  }

  lemma SingleQueue(q: seq<nat>, slot: nat)
    requires |q| == 1 && multiset(q)[slot] == 1
    ensures q == [slot]
  {
    assert q == [q[0]];
  }

  /** What `deleteOrder` does to the sides, the map and the hash table
      when the order is found at level `k` of side `s`. */
  lemma DeleteShape(b: Book, id: nat, side: Side, s: Side, k: nat)
    requires Found(b, id) && FindPriceLevel(b, b.orders[OrderSlot(id)].price)
    requires Locate(b, b.orders[OrderSlot(id)].price) == Some((s, k))
    ensures var r := DeleteOrder(b, id, side);
      var slot := OrderSlot(id);
      var ls := SideLevels(b, s);
      && r.orders == b.orders - {slot}
      && SideLevels(r, Opposite(s)) == SideLevels(b, Opposite(s))
      && (|ls[k].queue| == 1 ==> SideLevels(r, s) == RemoveAt(ls, k) && r.levelIndex == b.levelIndex - {PriceToIndex(ls[k].price)})
      && (|ls[k].queue| != 1 ==> SideLevels(r, s) == ls[k := Unlink(ls[k], slot, b.orders[slot].qty)] && r.levelIndex == b.levelIndex)
  {
  }

  /** `deleteOrder` keeps the invariant, whatever the id and side. */
  lemma DeleteOrderValid(b: Book, id: nat, side: Side)
    requires Valid(b)
    ensures Valid(DeleteOrder(b, id, side))
  {
    var slot := OrderSlot(id);
    if Found(b, id) {
      var o := b.orders[slot];
      var s, k := OrderQueued(b, slot);
      FoundIsLevel(b, o.price);
      DeleteShape(b, id, side, s, k);
      var ls, os := SideLevels(b, s), SideLevels(b, Opposite(s));
      PartsOf(b, s);
      var r := DeleteOrder(b, id, side);
      if |ls[k].queue| == 1 {
        SingleQueue(ls[k].queue, slot);
        RemoveParts(ls, os, s, b.orders, b.levelIndex, k, slot);
        FromParts(r, s, RemoveAt(ls, k), os, b.orders - {slot}, b.levelIndex - {PriceToIndex(ls[k].price)});
      } else {
        UnlinkParts(ls, os, s, b.orders, b.levelIndex, k, slot);
        FromParts(r, s, ls[k := Unlink(ls[k], slot, o.qty)], os, b.orders - {slot}, b.levelIndex);
      }
    }
  }

  /** Only the `deleteOrder` path can free a hash slot; none is filled. */
  lemma DeleteShrinksIndex(b: Book, id: nat, side: Side, price: int)
    requires Valid(b) && CollisionFree(b, price)
    ensures CollisionFree(DeleteOrder(b, id, side), price)
  {
    var slot := OrderSlot(id);
    if Found(b, id) {
      var s, k := OrderQueued(b, slot);
      FoundIsLevel(b, b.orders[slot].price);
      DeleteShape(b, id, side, s, k);
    }
  }

  // ------------------------------------------- modifyOrder, processTrade

  /** `AdjustTotal` rewrites one level's total and nothing else. */
  lemma AdjustShape(b: Book, price: int, delta: int, s: Side, k: nat)
    requires Locate(b, price) == Some((s, k))
    ensures var r := AdjustTotal(b, price, delta);
      && SideLevels(r, s) == SideLevels(b, s)[k := Retotal(SideLevels(b, s)[k], delta)]
      && SideLevels(r, Opposite(s)) == SideLevels(b, Opposite(s))
      && r.orders == b.orders && r.levelIndex == b.levelIndex && r.bbo == b.bbo
  {
  }

  /** Overwriting one order's `qty` (a uint32_t) keeps the invariant:
      neither its slot nor its price moves. */
  lemma SetQtyValid(b: Book, slot: nat, q: nat)
    requires Valid(b) && slot in b.orders && q < TWO_32
    ensures Valid(SetQty(b, slot, q))
  {
    var orders' := b.orders[slot := b.orders[slot].(qty := q)];
    assert orders'.Keys == b.orders.Keys;
    AllHoldFrame(b.bids, b.orders, orders');
    AllHoldFrame(b.asks, b.orders, orders');
  }

  /** Moving the total of the level at any price, if there is one, keeps
      the invariant: the invariant only bounds totals to 32 bits. */
  lemma AdjustTotalValid(b: Book, price: int, delta: int)
    requires Valid(b)
    ensures Valid(AdjustTotal(b, price, delta))
  {
    if Locate(b, price).Some? {
      var (s, k) := Locate(b, price).value;
      var ls, os := SideLevels(b, s), SideLevels(b, Opposite(s));
      PartsOf(b, s);
      ReplaceParts(ls, os, s, b.orders, b.orders, b.levelIndex, k, Retotal(ls[k], delta));
      FromParts(AdjustTotal(b, price, delta), s, ls[k := Retotal(ls[k], delta)], os, b.orders, b.levelIndex);
    }
  }

  /** A new price: the order is deleted and added again. */
  lemma ModifyMovesValid(b: Book, id: nat, price: int, qty: nat, side: Side)
    requires Valid(b) && IsInt32(price) && qty < TWO_32 && CollisionFree(b, price)
    requires Found(b, id) && b.orders[OrderSlot(id)].price != price
    ensures Valid(ModifyOrder(b, id, price, qty, side))
  {
    var d := DeleteOrder(b, id, side);
    DeleteOrderValid(b, id, side);
    DeleteShrinksIndex(b, id, side, price);
    AddOrderValid(d, id, price, qty, side);
    ValidIgnoresBBO(AddOrder(d, id, price, qty, side), ModifyOrder(b, id, price, qty, side));
  }

  /** A book differing only in its cached BBO is valid as well. */
  lemma ValidTransfer(a: Book, r: Book)
    requires Valid(a)
    requires r.bids == a.bids && r.asks == a.asks && r.orders == a.orders && r.levelIndex == a.levelIndex
    ensures Valid(r)
  {
    ValidIgnoresBBO(a, r);
  }

  /** The same price: `qty` overwritten in place and the total moved. */
  lemma ModifyInPlaceShape(b: Book, id: nat, price: int, qty: nat, side: Side)
    requires Found(b, id) && b.orders[OrderSlot(id)].price == price && FindPriceLevel(b, price)
    ensures var a := AdjustTotal(SetQty(b, OrderSlot(id), qty), price, ToInt32(ToInt32(qty) - ToInt32(b.orders[OrderSlot(id)].qty)));
      var r := ModifyOrder(b, id, price, qty, side);
      r.bids == a.bids && r.asks == a.asks && r.orders == a.orders && r.levelIndex == a.levelIndex
  {
  }

  lemma ModifyInPlaceValid(b: Book, id: nat, price: int, qty: nat, side: Side)
    requires Valid(b) && qty < TWO_32
    requires Found(b, id) && b.orders[OrderSlot(id)].price == price && FindPriceLevel(b, price)
    ensures Valid(ModifyOrder(b, id, price, qty, side))
  {
    SetQtyValid(b, OrderSlot(id), qty);
    AdjustTotalValid(SetQty(b, OrderSlot(id), qty), price, ToInt32(ToInt32(qty) - ToInt32(b.orders[OrderSlot(id)].qty)));
    ModifyInPlaceShape(b, id, price, qty, side);
    ValidTransfer(AdjustTotal(SetQty(b, OrderSlot(id), qty), price, ToInt32(ToInt32(qty) - ToInt32(b.orders[OrderSlot(id)].qty))),
                  ModifyOrder(b, id, price, qty, side));
  }

  /** `modifyOrder` keeps the invariant, for a new price and quantity of
      the C++ widths whose level hash slot is free or its own. */
  lemma ModifyOrderValid(b: Book, id: nat, price: int, qty: nat, side: Side)
    requires Valid(b) && IsInt32(price) && qty < TWO_32 && CollisionFree(b, price)
    ensures Valid(ModifyOrder(b, id, price, qty, side))
  {
    if Found(b, id) {
      if b.orders[OrderSlot(id)].price != price {
        ModifyMovesValid(b, id, price, qty, side);
      } else if FindPriceLevel(b, price) {
        ModifyInPlaceValid(b, id, price, qty, side);
      }
    }
  }

  /** A trade smaller than the order: `qty` lowered, and the total of the
      level at the trade price, if any, lowered by the trade. */
  lemma PartialFillShape(b: Book, id: nat, price: int, qty: nat, side: Side)
    requires Found(b, id) && qty < b.orders[OrderSlot(id)].qty
    ensures var b' := SetQty(b, OrderSlot(id), b.orders[OrderSlot(id)].qty - qty);
      var r := ProcessTrade(b, id, price, qty, side);
      FindPriceLevel(b', price) ==>
        var a := AdjustTotal(b', price, Minus(qty));
        r.bids == a.bids && r.asks == a.asks && r.orders == a.orders && r.levelIndex == a.levelIndex
    ensures var b' := SetQty(b, OrderSlot(id), b.orders[OrderSlot(id)].qty - qty);
      var r := ProcessTrade(b, id, price, qty, side);
      !FindPriceLevel(b', price) ==>
        r.bids == b'.bids && r.asks == b'.asks && r.orders == b'.orders && r.levelIndex == b'.levelIndex
  {
  }

  lemma PartialFillAdjusted(b: Book, id: nat, price: int, qty: nat, side: Side)
    requires Found(b, id) && qty < b.orders[OrderSlot(id)].qty
    requires FindPriceLevel(SetQty(b, OrderSlot(id), b.orders[OrderSlot(id)].qty - qty), price)
    requires Valid(AdjustTotal(SetQty(b, OrderSlot(id), b.orders[OrderSlot(id)].qty - qty), price, Minus(qty)))
    ensures Valid(ProcessTrade(b, id, price, qty, side))
  {
    PartialFillShape(b, id, price, qty, side);
    ValidTransfer(AdjustTotal(SetQty(b, OrderSlot(id), b.orders[OrderSlot(id)].qty - qty), price, Minus(qty)),
                  ProcessTrade(b, id, price, qty, side));
  }

  lemma PartialFillUnadjusted(b: Book, id: nat, price: int, qty: nat, side: Side)
    requires Found(b, id) && qty < b.orders[OrderSlot(id)].qty
    requires !FindPriceLevel(SetQty(b, OrderSlot(id), b.orders[OrderSlot(id)].qty - qty), price)
    requires Valid(SetQty(b, OrderSlot(id), b.orders[OrderSlot(id)].qty - qty))
    ensures Valid(ProcessTrade(b, id, price, qty, side))
  {
    PartialFillShape(b, id, price, qty, side);
    ValidTransfer(SetQty(b, OrderSlot(id), b.orders[OrderSlot(id)].qty - qty), ProcessTrade(b, id, price, qty, side));
  }

  lemma PartialFillFrom(b: Book, id: nat, price: int, qty: nat, side: Side)
    requires Found(b, id) && qty < b.orders[OrderSlot(id)].qty
    requires Valid(SetQty(b, OrderSlot(id), b.orders[OrderSlot(id)].qty - qty))
    ensures Valid(ProcessTrade(b, id, price, qty, side))
  {
    if FindPriceLevel(SetQty(b, OrderSlot(id), b.orders[OrderSlot(id)].qty - qty), price) {
      AdjustTotalValid(SetQty(b, OrderSlot(id), b.orders[OrderSlot(id)].qty - qty), price, Minus(qty));
      PartialFillAdjusted(b, id, price, qty, side);
    } else {
      PartialFillUnadjusted(b, id, price, qty, side);
    }
  }

  lemma PartialFillValid(b: Book, id: nat, price: int, qty: nat, side: Side)
    requires Valid(b) && Found(b, id) && qty < b.orders[OrderSlot(id)].qty
    ensures Valid(ProcessTrade(b, id, price, qty, side))
  {
    SetQtyValid(b, OrderSlot(id), b.orders[OrderSlot(id)].qty - qty);
    PartialFillFrom(b, id, price, qty, side);
  }

  /** The book part of `processTrade` keeps the invariant, whatever the
      trade's price and quantity. */
  lemma ProcessTradeValid(b: Book, id: nat, price: int, qty: nat, side: Side)
    requires Valid(b)
    ensures Valid(ProcessTrade(b, id, price, qty, side))
  {
    if Found(b, id) {
      if b.orders[OrderSlot(id)].qty <= qty {
        DeleteOrderValid(b, id, side);
        ValidIgnoresBBO(DeleteOrder(b, id, side), ProcessTrade(b, id, price, qty, side));
      } else {
        PartialFillValid(b, id, price, qty, side);
      }
    }
  }
}
