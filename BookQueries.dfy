/** The per-order queries of impl/src/order_book.cpp: where an order
    stands in its level's FIFO, what `getOrderRank` and `getQtyAhead`
    compute by walking the level's ring of orders, and what they were
    meant to compute. */
module BookQueries {
  import opened Common
  import opened BookState
  import opened BookLemmas
  import opened BookOps
  import opened BookEffects

  /** The level holding a found order and the order's position in the
      level's queue, reached as the source reaches them: the id's slot,
      the level at the order's price, the slot's place in that level. */
  function Position(b: Book, id: nat): (r: Option<(Level, nat)>)
    ensures r.Some? ==> Found(b, id)
    ensures r.Some? ==> r.value.1 < |r.value.0.queue| && r.value.0.queue[r.value.1] == OrderSlot(id)
    ensures r.Some? ==> LevelAt(b, b.orders[OrderSlot(id)].price) == Some(r.value.0)
  {
    if !Found(b, id) then None
    else match LevelAt(b, b.orders[OrderSlot(id)].price)
      case None => None
      case Some(l) =>
        match SlotIndex(l.queue, OrderSlot(id))
        case None => None
        case Some(j) => Some((l, j))
  }

  /** Under the book invariant exactly the found orders have a position,
      and it is the only place their slot is queued. */
  lemma PositionOfFound(b: Book, id: nat)
    requires Valid(b)
    ensures Position(b, id).Some? <==> Found(b, id)
    ensures Position(b, id).Some? ==> multiset(Position(b, id).value.0.queue)[OrderSlot(id)] == 1
  {
    if Found(b, id) {
      var s, k := OrderQueued(b, OrderSlot(id));
      assert OrderSlot(id) in multiset(SideLevels(b, s)[k].queue);
    }
  }

  // ------------------------------------------------------- the ring

  /** The ring's `prev` link over queue positions `0 .. n-1`. */
  function Prev(i: nat, n: nat): (r: nat)
    requires i < n
    ensures r < n
  {
    if i == 0 then n - 1 else i - 1
  }

  /** The position reached from `j` after `m` `prev` steps round a ring
      of `n`. */
  function Back(j: nat, m: nat, n: nat): (r: nat)
    requires j < n && m <= n
    ensures r < n
  {
    if m <= j then j - m else j + n - m
  }

  /** The quantity of the `m` orders met walking `prev` from position `j`. */
  function WalkedQty(q: seq<nat>, orders: map<nat, Order>, j: nat, m: nat): nat
    requires j < |q| && m <= |q|
  {
    if m == 0 then 0 else WalkedQty(q, orders, j, m - 1) + QtyOf(q[Back(j, m, |q|)], orders)
  }

  /** Up to the head, the walk meets the orders ahead of `j`. */
  lemma {:induction false} WalkedAhead(q: seq<nat>, orders: map<nat, Order>, j: nat, m: nat)
    requires j < |q| && m <= j
    ensures WalkedQty(q, orders, j, m) == QtySum(q[j - m..j], orders)
  {
    if m > 0 {
      WalkedAhead(q, orders, j, m - 1);
      assert q[j - m..j][1..] == q[j - m + 1..j];
    }
  }

  /** Past the head it wraps round to the back of the queue. */
  lemma {:induction false} WalkedWrapped(q: seq<nat>, orders: map<nat, Order>, j: nat, t: nat)
    requires j + t < |q|
    ensures WalkedQty(q, orders, j, j + t) == QtySum(q[..j], orders) + QtySum(q[|q| - t..], orders)
  {
    if t == 0 {
      WalkedAhead(q, orders, j, j);
      assert q[j - j..j] == q[..j];
      assert q[|q| - t..] == [];
    } else {
      WalkedWrapped(q, orders, j, t - 1);
      var s := q[|q| - t..];
      assert s[0] == q[|q| - t] && s[1..] == q[|q| - t + 1..];
      assert QtySum(s, orders) == QtyOf(q[|q| - t], orders) + QtySum(q[|q| - t + 1..], orders);
      assert Back(j, j + t, |q|) == |q| - t;
    }
  }

  /** A queue's quantity splits round one position. */
  lemma QtySumAround(q: seq<nat>, orders: map<nat, Order>, j: nat)
    requires j < |q|
    ensures QtySum(q, orders) == QtySum(q[..j], orders) + QtyOf(q[j], orders) + QtySum(q[j + 1..], orders)
  {
    assert q[..j] + q[j..] == q;
    QtySumConcat(q[..j], q[j..], orders);
    assert q[j..][1..] == q[j + 1..];
  }

  /** A walk that comes back to its start has met every other order once. */
  lemma WalkedAll(q: seq<nat>, orders: map<nat, Order>, j: nat)
    requires j < |q|
    ensures WalkedQty(q, orders, j, |q| - 1) + QtyOf(q[j], orders) == QtySum(q, orders)
  {
    WalkedWrapped(q, orders, j, |q| - 1 - j);
    assert |q| - (|q| - 1 - j) == j + 1;
    QtySumAround(q, orders, j);
  }

  // ------------------------------------------------------ the queries

  /** `getOrderRank` as written: walking `prev` from the order until it is
      back at the order goes round the whole ring, so the count is the
      number of orders at its level. 0 for an unknown id. */
  function WrittenRank(b: Book, id: nat): nat
  {
    match Position(b, id)
    case None => 0
    case Some((l, j)) => |l.queue|
  }

  /** `getQtyAhead` as written: every other order of the level, summed in
      uint32_t. 0 for an unknown id. */
  function WrittenQtyAhead(b: Book, id: nat): nat
  {
    match Position(b, id)
    case None => 0
    case Some((l, j)) => U32(QtySum(l.queue, b.orders) - QtyOf(OrderSlot(id), b.orders))
  }

  /** The rank the header promises ("1-based rank"): one more than the
      number of orders ahead of this one in its level's FIFO. */
  function Rank(b: Book, id: nat): nat
  {
    match Position(b, id)
    case None => 0
    case Some((l, j)) => j + 1
  }

  /** The quantity ahead in the queue: the orders in front of this one. */
  function QtyAhead(b: Book, id: nat): nat
  {
    match Position(b, id)
    case None => 0
    case Some((l, j)) => U32(QtySum(l.queue[..j], b.orders))
  }

  /** The written rank agrees with the promised one exactly for the order
      at the back of its level; every other order is ranked too far back. */
  lemma RankAsWritten(b: Book, id: nat)
    ensures Rank(b, id) <= WrittenRank(b, id)
    ensures Rank(b, id) == WrittenRank(b, id) <==>
      (Position(b, id).Some? ==> Position(b, id).value.1 == |Position(b, id).value.0.queue| - 1)
  { }

  /** The written quantity ahead adds in the orders behind this one. */
  lemma QtyAheadAsWritten(b: Book, id: nat, l: Level, j: nat)
    requires Position(b, id) == Some((l, j))
    ensures WrittenQtyAhead(b, id) == U32(QtySum(l.queue[..j], b.orders) + QtySum(l.queue[j + 1..], b.orders))
  {
    QtySumAround(l.queue, b.orders, j);
  }

  /** Under the invariant every order queued with a found one is live. */
  lemma PositionHeld(b: Book, id: nat, l: Level, j: nat)
    requires Valid(b) && Position(b, id) == Some((l, j))
    ensures forall i :: 0 <= i < |l.queue| ==> l.queue[i] in b.orders
  {
    var s, k := Locate(b, b.orders[OrderSlot(id)].price).value.0, Locate(b, b.orders[OrderSlot(id)].price).value.1;
    assert LevelHolds(SideLevels(b, s)[k], b.orders);
  }

  /** A new order joins behind the orders already queued: adding an order
      leaves every live order's rank and quantity ahead as they were. */
  lemma RankKeptByAdd(b: Book, id: nat, id': nat, price: int, qty: nat, side: Side)
    requires Valid(b) && Found(b, id)
    requires id' < TWO_64 && IsInt32(price) && qty < TWO_32 && CollisionFree(b, price)
    ensures Rank(AddOrder(b, id', price, qty, side), id) == Rank(b, id)
    ensures QtyAhead(AddOrder(b, id', price, qty, side), id) == QtyAhead(b, id)
  {
    AddOrderEffect(b, id', price, qty, side);
    PositionOfFound(b, id);
    if OrderSlot(id') !in b.orders && !LevelRefused(b, price) {
      PositionHeld(b, id, Position(b, id).value.0, Position(b, id).value.1);
      PositionKept(b, AddOrder(b, id', price, qty, side), id, OrderSlot(id'), Order(id', price, qty, side),
                   Position(b, id).value.0, Position(b, id).value.1, price, qty, side);
    }
  }

  /** The book-generic step: an order joining at the back of the level
      at `price`, every other level kept, every other order kept. */
  lemma PositionKept(b: Book, r: Book, id: nat, s': nat, o': Order, l: Level, j: nat, price: int, qty: nat, side: Side)
    requires Position(b, id) == Some((l, j)) && s' !in b.orders
    requires forall i :: 0 <= i < |l.queue| ==> l.queue[i] in b.orders
    requires r.orders == b.orders[s' := o']
    requires LevelsKept(b, r, price)
    requires LevelAt(r, price) == Some(LevelWith(LevelAt(b, price), s', price, qty, side))
    ensures Rank(r, id) == Rank(b, id) && QtyAhead(r, id) == QtyAhead(b, id)
  {
    var slot := OrderSlot(id);
    assert slot != s';
    assert Found(r, id) && r.orders[slot] == b.orders[slot];
    if b.orders[slot].price == price {
      SlotIndexAppend(l.queue, slot, s');
      assert (l.queue + [s'])[..j] == l.queue[..j];
      assert Position(r, id) == Some((LevelWith(LevelAt(b, price), s', price, qty, side), j));
    } else {
      assert LevelAt(r, b.orders[slot].price) == LevelAt(b, b.orders[slot].price);
      assert Position(r, id) == Some((l, j));
    }
    QtyAheadFrame(l.queue[..j], b.orders, s', o');
  }

  lemma SlotIndexAppend(q: seq<nat>, s: nat, t: nat)
    requires s in q
    ensures SlotIndex(q + [t], s) == SlotIndex(q, s)
  {
    if q[0] != s {
      assert (q + [t])[1..] == q[1..] + [t];
      SlotIndexAppend(q[1..], s, t);
    }
  }

  /** Orders ahead keep their quantities when an order joins elsewhere. */
  lemma QtyAheadFrame(q: seq<nat>, orders: map<nat, Order>, fresh': nat, o: Order)
    requires forall i :: 0 <= i < |q| ==> q[i] in orders
    requires fresh' !in orders
    ensures QtySum(q, orders[fresh' := o]) == QtySum(q, orders)
  {
    QtySumFrame(q, orders, orders[fresh' := o]);
  }

  // ------------------------------------------------ a counterexample

  /** Two buy orders at 100: id 1 (qty 5) first, then id 2 (qty 7). */
  const TwoOrders: Book := Book([Level(100, Buy, [1, 2], 12, 2)], [],
    map[1 := Order(1, 100, 5, Buy), 2 := Order(2, 100, 7, Buy)], map[100 := 100], BBO(100, 12, 0, 0))

  /** That book is what adding the two orders to an empty book gives. */
  lemma TwoOrdersReached()
    ensures AddOrder(AddOrder(EmptyBook, 1, 100, 5, Buy), 2, 100, 7, Buy) == TwoOrders
    ensures Valid(TwoOrders)
  {
    var one := Book([Level(100, Buy, [1], 5, 1)], [], map[1 := Order(1, 100, 5, Buy)], map[100 := 100], BBO(100, 5, 0, 0));
    assert PriceToIndex(100) == 100;
    assert AddOrder(EmptyBook, 1, 100, 5, Buy) == one;
    var joined := one.(orders := one.orders[2 := Order(2, 100, 7, Buy)]);
    assert FindPriceLevel(one, 100);
    assert Locate(joined, 100) == Some((Buy, 0));
    assert Enqueue(Level(100, Buy, [1], 5, 1), 2, 7) == Level(100, Buy, [1, 2], 12, 2);
    assert AppendOrder(joined, 100, 2, 7) == TwoOrders.(bbo := one.bbo);
    assert AddOrder(one, 2, 100, 7, Buy) == TwoOrders;
    EmptyValid();
    AddOrderValid(EmptyBook, 1, 100, 5, Buy);
    AddOrderValid(one, 2, 100, 7, Buy);
  }

  /** In that book the first order of the queue is ranked 2 with 7 ahead,
      where it should be ranked 1 with nothing ahead. */
  lemma WrittenRankWrong()
    ensures WrittenRank(TwoOrders, 1) == 2 && Rank(TwoOrders, 1) == 1
    ensures WrittenQtyAhead(TwoOrders, 1) == 7 && QtyAhead(TwoOrders, 1) == 0
  {
    assert Locate(TwoOrders, 100) == Some((Buy, 0));
    assert SlotIndex([1, 2], 1) == Some(0);
    assert Position(TwoOrders, 1) == Some((Level(100, Buy, [1, 2], 12, 2), 0));
    assert QtySum([1, 2], TwoOrders.orders) == 12;
  }
}
