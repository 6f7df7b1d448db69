/** The order book of impl/src/order_book.cpp as a value, and the
    specification of each of its operations as a function on that value.

    The intrusive rings are sequences: a side's levels best first (the
    ring starting at `bids_` / `asks_`), a level's orders in FIFO order
    (the ring starting at `first_order`). An order or a level is named by
    its slot in `order_map_` (`order_id % 65536`) or by its price; the
    two hash tables are maps from slot to entry, an absent key being
    `nullptr`. */
module BookState {
  import opened Common

  const MAX_ORDERS: nat := 65536
  const MAX_PRICE_LEVELS: nat := 2048

  datatype Order = Order(id: nat, price: int, qty: nat, side: Side)

  /** A `PriceLevel`: its price, the side it was created for, its FIFO
      queue of order slots, and the cached `total_qty` (uint32_t) and
      `order_count`. */
  datatype Level = Level(price: int, side: Side, queue: seq<nat>, totalQty: nat, orderCount: nat)

  /** `BBO`: every field defaults to 0. */
  datatype BBO = BBO(bidPrice: int, bidQty: nat, askPrice: int, askQty: nat)

  datatype Book = Book(bids: seq<Level>, asks: seq<Level>, orders: map<nat, Order>, levelIndex: map<nat, int>, bbo: BBO)

  const EmptyBook := Book([], [], map[], map[], BBO(0, 0, 0, 0))

  function OrderSlot(id: nat): (s: nat)
    ensures s < MAX_ORDERS
  {
    id % MAX_ORDERS
  }

  /** `priceToIndex`: `uint32_t(abs(price)) % 2048`. The absolute value of
      INT32_MIN does not fit in int32_t; as a uint32_t it is 2^31, which is
      what the mathematical absolute value gives here. */
  function PriceToIndex(price: int): (i: nat)
    ensures i < MAX_PRICE_LEVELS
  {
    U32(if price < 0 then -price else price) % MAX_PRICE_LEVELS
  }

  function Opposite(side: Side): Side
  {
    if side == Buy then Sell else Buy
  }

  /** `p` sorts ahead of `q` on `side`: higher bids, lower asks. */
  predicate Better(p: int, q: int, side: Side)
  {
    if side == Buy then p > q else p < q
  }

  function SideLevels(b: Book, side: Side): seq<Level>
  {
    if side == Buy then b.bids else b.asks
  }

  function WithSide(b: Book, side: Side, ls: seq<Level>): (r: Book)
    ensures SideLevels(r, side) == ls && SideLevels(r, Opposite(side)) == SideLevels(b, Opposite(side))
    ensures r.orders == b.orders && r.levelIndex == b.levelIndex && r.bbo == b.bbo
  {
    if side == Buy then b.(bids := ls) else b.(asks := ls)
  }

  // ------------------------------------------------------ level lookup

  ghost function PriceSet(ls: seq<Level>): set<int>
  {
    set i | 0 <= i < |ls| :: ls[i].price
  }

  /** Position of the first level with this price. */
  function IndexOf(ls: seq<Level>, price: int): (r: Option<nat>)
    ensures r.Some? ==> r.value < |ls| && ls[r.value].price == price
    ensures r.Some? ==> forall j :: 0 <= j < r.value ==> ls[j].price != price
    ensures r.None? <==> price !in PriceSet(ls)
  {
    if ls == [] then None
    else if ls[0].price == price then Some(0)
    else
      match IndexOf(ls[1..], price)
      case None =>
        assert PriceSet(ls) == {ls[0].price} + PriceSet(ls[1..]) by {
          forall p | p in PriceSet(ls) ensures p in {ls[0].price} + PriceSet(ls[1..]) {
            var i :| 0 <= i < |ls| && ls[i].price == p;
            if i > 0 { assert ls[1..][i - 1].price == p; }
          }
        }
        None
      case Some(i) =>
        assert ls[1..][i].price == price;
        Some(i + 1)
  }

  /** Dereferencing a level pointer: the side whose ring holds the level
      with this price, and its position there. */
  function Locate(b: Book, price: int): (r: Option<(Side, nat)>)
    ensures r.Some? ==> r.value.1 < |SideLevels(b, r.value.0)| && SideLevels(b, r.value.0)[r.value.1].price == price
    ensures r.None? <==> price !in PriceSet(b.bids) && price !in PriceSet(b.asks)
  {
    match IndexOf(b.bids, price)
    case Some(i) => Some((Buy, i))
    case None =>
      match IndexOf(b.asks, price)
      case Some(i) => Some((Sell, i))
      case None => None
  }

  /** `findPriceLevel`: the level pointer at the price's hash slot, when
      that level has this price. */
  predicate FindPriceLevel(b: Book, price: int)
  {
    PriceToIndex(price) in b.levelIndex && b.levelIndex[PriceToIndex(price)] == price
  }

  /** No level of another price occupies this price's hash slot. */
  predicate CollisionFree(b: Book, price: int)
  {
    PriceToIndex(price) !in b.levelIndex || b.levelIndex[PriceToIndex(price)] == price
  }

  // ---------------------------------------------------------- invariant

  ghost predicate Ordered(ls: seq<Level>, side: Side)
  {
    forall i, j :: 0 <= i < j < |ls| ==> Better(ls[i].price, ls[j].price, side)
  }

  ghost predicate SidesAre(ls: seq<Level>, side: Side)
  {
    forall i :: 0 <= i < |ls| ==> ls[i].side == side
  }

  /** A level is non-empty, counts its orders, and every order it queues
      is live and carries the level's price. */
  ghost predicate LevelHolds(l: Level, orders: map<nat, Order>)
  {
    && |l.queue| > 0
    && l.orderCount == |l.queue|
    && IsInt32(l.price) && l.totalQty < TWO_32
    && forall k :: 0 <= k < |l.queue| ==> l.queue[k] in orders && orders[l.queue[k]].price == l.price
  }

  ghost predicate AllHold(ls: seq<Level>, orders: map<nat, Order>)
  {
    forall i :: 0 <= i < |ls| ==> LevelHolds(ls[i], orders)
  }

  /** The order slots queued on a side, level after level. */
  function Flatten(ls: seq<Level>): seq<nat>
  {
    if ls == [] then [] else ls[0].queue + Flatten(ls[1..])
  }

  ghost function Queued(b: Book): multiset<nat>
  {
    multiset(Flatten(b.bids)) + multiset(Flatten(b.asks))
  }

  /** The order map holds an order at its id's slot, with C++ widths. */
  ghost predicate OrderWellTyped(s: nat, o: Order)
  {
    OrderSlot(o.id) == s && o.id < TWO_64 && IsInt32(o.price) && o.qty < TWO_32
  }

  /** A side is sorted best first, carries its own side tag and has only
      well-formed levels. */
  ghost predicate SideValid(ls: seq<Level>, side: Side, orders: map<nat, Order>)
  {
    Ordered(ls, side) && SidesAre(ls, side) && AllHold(ls, orders)
  }

  ghost predicate OrdersTyped(orders: map<nat, Order>)
  {
    forall s :: s in orders ==> OrderWellTyped(s, orders[s])
  }

  /** The level hash table holds exactly the given prices, each at its
      own slot. */
  ghost predicate IndexExact(levelIndex: map<nat, int>, prices: set<int>)
  {
    && (forall i :: i in levelIndex ==> PriceToIndex(levelIndex[i]) == i && levelIndex[i] in prices)
    && (forall p :: p in prices ==> PriceToIndex(p) in levelIndex && levelIndex[PriceToIndex(p)] == p)
  }

  /** The book's invariant: both sides valid, no price on both sides,
      every live order queued exactly once, and the level hash table
      holding exactly the live levels. */
  ghost predicate Valid(b: Book)
  {
    && SideValid(b.bids, Buy, b.orders) && SideValid(b.asks, Sell, b.orders)
    && PriceSet(b.bids) !! PriceSet(b.asks)
    && Queued(b) == multiset(b.orders.Keys)
    && OrdersTyped(b.orders)
    && IndexExact(b.levelIndex, PriceSet(b.bids) + PriceSet(b.asks))
  }

  function QtyOf(s: nat, orders: map<nat, Order>): nat
  {
    if s in orders then orders[s].qty else 0
  }

  /** The exact quantity queued: the sum of the queued orders' `qty`. */
  function QtySum(q: seq<nat>, orders: map<nat, Order>): nat
  {
    if q == [] then 0 else QtyOf(q[0], orders) + QtySum(q[1..], orders)
  }

  /** A level's cached `total_qty` is its queued quantity modulo 2^32. */
  ghost predicate LevelTotal(l: Level, orders: map<nat, Order>)
  {
    l.totalQty == U32(QtySum(l.queue, orders))
  }

  ghost predicate TotalsOn(ls: seq<Level>, orders: map<nat, Order>)
  {
    forall i :: 0 <= i < |ls| ==> LevelTotal(ls[i], orders)
  }

  ghost predicate TotalsExact(b: Book)
  {
    TotalsOn(b.bids, b.orders) && TotalsOn(b.asks, b.orders)
  }

  /** What `updateBBO` caches for a side: its best level's price and
      total, or zeros when the side is empty. */
  function HeadPrice(ls: seq<Level>): int
  {
    if ls == [] then 0 else ls[0].price
  }

  function HeadQty(ls: seq<Level>): nat
  {
    if ls == [] then 0 else ls[0].totalQty
  }

  ghost predicate BBOCurrent(b: Book)
  {
    b.bbo == BBO(HeadPrice(b.bids), HeadQty(b.bids), HeadPrice(b.asks), HeadQty(b.asks))
  }

  // --------------------------------------------------- the operations

  /** `updateBBOSide`: refresh the flagged sides from the current best levels. */
  function UpdateBBOSide(b: Book, updateBid: bool, updateAsk: bool): (r: Book)
    ensures r.bids == b.bids && r.asks == b.asks && r.orders == b.orders && r.levelIndex == b.levelIndex
    ensures updateBid ==> r.bbo.bidPrice == HeadPrice(b.bids) && r.bbo.bidQty == HeadQty(b.bids)
    ensures !updateBid ==> r.bbo.bidPrice == b.bbo.bidPrice && r.bbo.bidQty == b.bbo.bidQty
    ensures updateAsk ==> r.bbo.askPrice == HeadPrice(b.asks) && r.bbo.askQty == HeadQty(b.asks)
    ensures !updateAsk ==> r.bbo.askPrice == b.bbo.askPrice && r.bbo.askQty == b.bbo.askQty
  {
    var bid := if updateBid then b.bbo.(bidPrice := HeadPrice(b.bids), bidQty := HeadQty(b.bids)) else b.bbo;
    var both := if updateAsk then bid.(askPrice := HeadPrice(b.asks), askQty := HeadQty(b.asks)) else bid;
    b.(bbo := both)
  }

  /** Where `addPriceLevel` links a new level: before the head when it is
      better than the head, otherwise after the run of levels following
      the head that are better than it. */
  function InsertionPoint(ls: seq<Level>, price: int, side: Side): (k: nat)
    ensures k <= |ls|
  {
    if ls == [] || Better(price, ls[0].price, side) then 0 else 1 + AfterHead(ls[1..], price, side)
  }

  function AfterHead(rest: seq<Level>, price: int, side: Side): (k: nat)
    ensures k <= |rest|
    ensures forall j :: 0 <= j < k ==> Better(rest[j].price, price, side)
    ensures k < |rest| ==> !Better(rest[k].price, price, side)
  {
    if rest == [] || !Better(rest[0].price, price, side) then 0 else 1 + AfterHead(rest[1..], price, side)
  }

  function InsertAt(ls: seq<Level>, k: nat, l: Level): (r: seq<Level>)
    requires k <= |ls|
    ensures |r| == |ls| + 1 && r[k] == l
    ensures forall j :: 0 <= j < k ==> r[j] == ls[j]
    ensures forall j :: k < j < |r| ==> r[j] == ls[j - 1]
  {
    ls[..k] + [l] + ls[k..]
  }

  function RemoveAt<T>(s: seq<T>, k: nat): (r: seq<T>)
    requires k < |s|
    ensures |r| == |s| - 1
    ensures forall j :: 0 <= j < k ==> r[j] == s[j]
    ensures forall j :: k <= j < |r| ==> r[j] == s[j + 1]
  {
    s[..k] + s[k + 1..]
  }

  /** `addPriceLevel`: index the level at its hash slot and link it into
      its side's ring. */
  function AddPriceLevel(b: Book, l: Level): Book
  {
    var ls := SideLevels(b, l.side);
    var r := WithSide(b, l.side, InsertAt(ls, InsertionPoint(ls, l.price, l.side), l));
    r.(levelIndex := b.levelIndex[PriceToIndex(l.price) := l.price])
  }

  /** `removePriceLevel`: clear its hash slot and unlink it. */
  function RemovePriceLevel(b: Book, side: Side, k: nat): Book
    requires k < |SideLevels(b, side)|
  {
    var ls := SideLevels(b, side);
    var r := WithSide(b, side, RemoveAt(ls, k));
    r.(levelIndex := b.levelIndex - {PriceToIndex(ls[k].price)})
  }

  /** An order joining the back of a level: the total grows by its `qty`
      (uint32_t) and the count by one. */
  function Enqueue(l: Level, slot: nat, qty: nat): Level
  {
    l.(queue := l.queue + [slot], totalQty := U32(l.totalQty + qty), orderCount := l.orderCount + 1)
  }

  /** Rewrite the level with this price: append an order, or adjust the
      total. Unknown prices are left alone. */
  function AppendOrder(b: Book, price: int, slot: nat, qty: nat): Book
  {
    match Locate(b, price)
    case None => b
    case Some((side, k)) => WithSide(b, side, SideLevels(b, side)[k := Enqueue(SideLevels(b, side)[k], slot, qty)])
  }

  /** A level's total moved by `delta`, in uint32_t arithmetic. */
  function Retotal(l: Level, delta: int): Level
  {
    l.(totalQty := U32(l.totalQty + delta))
  }

  /** A quantity taken off a total, as the delta `AdjustTotal` adds. */
  function Minus(q: nat): int
  {
    0 - q as int
  }

  function AdjustTotal(b: Book, price: int, delta: int): Book
  {
    match Locate(b, price)
    case None => b
    case Some((side, k)) => WithSide(b, side, SideLevels(b, side)[k := Retotal(SideLevels(b, side)[k], delta)])
  }

  /** Position of an order slot in a queue, when it is queued. */
  function SlotIndex(q: seq<nat>, s: nat): (r: Option<nat>)
    ensures r.Some? ==> r.value < |q| && q[r.value] == s
    ensures r.None? <==> s !in q
  {
    if q == [] then None
    else if q[0] == s then Some(0)
    else match SlotIndex(q[1..], s)
      case None => None
      case Some(i) => Some(i + 1)
  }

  /** Unlinking an order from a level of two or more: the neighbours are
      joined, the total drops by its `qty` (uint32_t) and the count by one. */
  function Unlink(l: Level, slot: nat, qty: nat): Level
  {
    match SlotIndex(l.queue, slot)
    case None => l
    case Some(i) => l.(queue := RemoveAt(l.queue, i), totalQty := U32(l.totalQty - qty), orderCount := U64(l.orderCount - 1))
  }

  /** One order's `qty` overwritten; its slot, price and place stay. */
  function SetQty(b: Book, slot: nat, qty: nat): Book
    requires slot in b.orders
  {
    b.(orders := b.orders[slot := b.orders[slot].(qty := qty)])
  }

  /** `order_map_[id % 65536]` holds the order with this id. */
  predicate Found(b: Book, id: nat)
  {
    OrderSlot(id) in b.orders && b.orders[OrderSlot(id)].id == id
  }

  /** The level pool (`MemoryPool<PriceLevel, 2048>`) has no free slot:
      each live level holds one, and `removePriceLevel` gives it back. */
  predicate LevelPoolFull(b: Book)
  {
    |b.bids| + |b.asks| >= MAX_PRICE_LEVELS
  }

  /** `addOrder` cannot get a level for `price`: there is none at that
      price and the level pool is full. */
  predicate LevelRefused(b: Book, price: int)
  {
    !FindPriceLevel(b, price) && LevelPoolFull(b)
  }

  /** `addOrder`. An occupied slot rejects the order; otherwise it is
      stored, the BBO side is flagged when the side is empty or the price
      is at or better than its best, and the order either gets a new level
      (tagged with the caller's side) or joins the back of the level at
      its price, whichever side that level is on. When a new level is
      needed and the level pool is full, the order is given back and its
      map slot cleared again, so the book is as it was. */
  function AddOrder(b: Book, id: nat, price: int, qty: nat, side: Side): Book
  {
    var slot := OrderSlot(id);
    if slot in b.orders then b
    else if LevelRefused(b, price) then b
    else
      var b1 := b.(orders := b.orders[slot := Order(id, price, qty, side)]);
      var updateBid := side == Buy && (b.bids == [] || price >= b.bids[0].price);
      var updateAsk := side == Sell && (b.asks == [] || price <= b.asks[0].price);
      var b2 := if !FindPriceLevel(b, price) then AddPriceLevel(b1, Level(price, side, [slot], U32(qty), 1))
                else AppendOrder(b1, price, slot, qty);
      UpdateBBOSide(b2, updateBid, updateAsk)
  }

  /** `deleteOrder`. An unknown id changes nothing; otherwise the order
      leaves its level (the level goes when it was its only order) and the
      map, and the caller's side is refreshed when its best price is the
      order's price. */
  function DeleteOrder(b: Book, id: nat, side: Side): Book
  {
    var slot := OrderSlot(id);
    if !Found(b, id) then b
    else
      var o := b.orders[slot];
      if !FindPriceLevel(b, o.price) then b
      else
        var updateBid := side == Buy && b.bids != [] && b.bids[0].price == o.price;
        var updateAsk := !updateBid && side == Sell && b.asks != [] && b.asks[0].price == o.price;
        var b1 := match Locate(b, o.price)
          case None => b
          case Some((s, k)) =>
            var l := SideLevels(b, s)[k];
            if |l.queue| == 1 then RemovePriceLevel(b, s, k)
            else WithSide(b, s, SideLevels(b, s)[k := Unlink(l, slot, o.qty)]);
        UpdateBBOSide(b1.(orders := b1.orders - {slot}), updateBid, updateAsk)
  }

  /** `modifyOrder`. An unknown id changes nothing. A new price deletes
      the order and adds it again (to the back of the new level's queue),
      flagging the caller's side when the old or new price touches its
      best. The same price overwrites `qty` in place, keeping the order's
      queue position, and moves the level total by the difference, computed
      as int32_t and added as uint32_t. */
  function ModifyOrder(b: Book, id: nat, price: int, qty: nat, side: Side): Book
  {
    var slot := OrderSlot(id);
    if !Found(b, id) then b
    else
      var o := b.orders[slot];
      if o.price != price then
        var updateBid := side == Buy && b.bids != [] && (o.price == b.bids[0].price || price >= b.bids[0].price);
        var updateAsk := side == Sell && b.asks != [] && (o.price == b.asks[0].price || price <= b.asks[0].price);
        UpdateBBOSide(AddOrder(DeleteOrder(b, id, side), id, price, qty, side), updateBid, updateAsk)
      else if !FindPriceLevel(b, price) then b
      else
        var updateBid := side == Buy && b.bids != [] && b.bids[0].price == price;
        var updateAsk := !updateBid && side == Sell && b.asks != [] && b.asks[0].price == price;
        UpdateBBOSide(AdjustTotal(SetQty(b, slot, qty), price, ToInt32(ToInt32(qty) - ToInt32(o.qty))), updateBid, updateAsk)
  }

  /** The book part of `processTrade`. An unknown id changes nothing. A
      trade of at least the order's `qty` deletes the order; a smaller one
      lowers its `qty` and takes the trade quantity off the level at the
      TRADE price, if there is one. The caller's side is refreshed when its
      best price is the trade price. */
  function ProcessTrade(b: Book, id: nat, price: int, qty: nat, side: Side): Book
  {
    var slot := OrderSlot(id);
    if !Found(b, id) then b
    else
      var o := b.orders[slot];
      var updateBid := side == Buy && b.bids != [] && b.bids[0].price == price;
      var updateAsk := !updateBid && side == Sell && b.asks != [] && b.asks[0].price == price;
      var b1 :=
        if o.qty <= qty then DeleteOrder(b, id, side)
        else
          var b' := SetQty(b, slot, o.qty - qty);
          if FindPriceLevel(b', price) then AdjustTotal(b', price, Minus(qty)) else b';
      UpdateBBOSide(b1, updateBid, updateAsk)
  }

  /** The `getBidPrice` / `getAskPrice` / `getBidQty` / `getAskQty` values:
      the `k`-th best level's price or total, or 0 past the last level. */
  function LevelPrice(ls: seq<Level>, k: nat): int
  {
    if k < |ls| then ls[k].price else 0
  }

  function LevelQty(ls: seq<Level>, k: nat): nat
  {
    if k < |ls| then ls[k].totalQty else 0
  }

  /** `getSpread`: ask minus bid when both cached prices are positive, else 0. */
  function Spread(bbo: BBO): (r: int)
    requires IsInt32(bbo.bidPrice) && IsInt32(bbo.askPrice)
    ensures bbo.bidPrice > 0 && bbo.askPrice > 0 ==> r == bbo.askPrice - bbo.bidPrice
    ensures !(bbo.bidPrice > 0 && bbo.askPrice > 0) ==> r == 0
  {
    if bbo.bidPrice > 0 && bbo.askPrice > 0 then ToInt32(bbo.askPrice - bbo.bidPrice) else 0
  }
}
