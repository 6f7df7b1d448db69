/** Facts about the book value that the operation lemmas are built from:
    how the queued slots, the price sets, the side ordering and the level
    well-formedness react to inserting, removing and rewriting a level. */
module BookLemmas {
  import opened Common
  import opened BookState

  lemma {:induction false} FlattenConcat(a: seq<Level>, b: seq<Level>)
    ensures Flatten(a + b) == Flatten(a) + Flatten(b)
  {
    if |a| == 0 {
      assert a + b == b;
    } else {
      var ab := a + b;
      assert ab[0] == a[0] && ab[1..] == a[1..] + b;
      FlattenConcat(a[1..], b);
      calc {
        Flatten(ab);
        ab[0].queue + Flatten(ab[1..]);
        a[0].queue + (Flatten(a[1..]) + Flatten(b));
        { SeqAssoc(a[0].queue, Flatten(a[1..]), Flatten(b)); }
        (a[0].queue + Flatten(a[1..])) + Flatten(b);
      }
    }
  }

  lemma SeqAssoc(x: seq<nat>, y: seq<nat>, z: seq<nat>)
    ensures x + (y + z) == (x + y) + z
  {
  }

  lemma FlattenCut(ls: seq<Level>, k: nat)
    requires k <= |ls|
    ensures Flatten(ls) == Flatten(ls[..k]) + Flatten(ls[k..])
  {
    assert ls == ls[..k] + ls[k..];
    FlattenConcat(ls[..k], ls[k..]);
  }

  lemma FlattenSplit(ls: seq<Level>, k: nat)
    requires k < |ls|
    ensures Flatten(ls) == Flatten(ls[..k]) + ls[k].queue + Flatten(ls[k + 1..])
  {
    FlattenCut(ls, k);
    assert ls[k..][1..] == ls[k + 1..];
    assert ls[k..][0] == ls[k];
    assert Flatten(ls[k..]) == ls[k].queue + Flatten(ls[k + 1..]);
  }

  /** Inserting a level adds its queue to the side's queued slots. */
  lemma FlattenInsert(ls: seq<Level>, k: nat, l: Level)
    requires k <= |ls|
    ensures multiset(Flatten(InsertAt(ls, k, l))) == multiset(Flatten(ls)) + multiset(l.queue)
  {
    FlattenConcat(ls[..k] + [l], ls[k..]);
    FlattenConcat(ls[..k], [l]);
    assert Flatten([l]) == l.queue by { assert [l][1..] == []; }
    FlattenCut(ls, k);
  }

  /** Removing a level takes its queue off the side's queued slots. */
  lemma FlattenRemove(ls: seq<Level>, k: nat)
    requires k < |ls|
    ensures multiset(Flatten(ls)) == multiset(Flatten(RemoveAt(ls, k))) + multiset(ls[k].queue)
  {
    FlattenSplit(ls, k);
    FlattenConcat(ls[..k], ls[k + 1..]);
  }

  /** Rewriting a level swaps its queue in the side's queued slots. */
  lemma FlattenUpdate(ls: seq<Level>, k: nat, l: Level)
    requires k < |ls|
    ensures multiset(Flatten(ls[k := l])) + multiset(ls[k].queue) == multiset(Flatten(ls)) + multiset(l.queue)
  {
    FlattenSplit(ls, k);
    FlattenSplit(ls[k := l], k);
    assert ls[k := l][..k] == ls[..k];
    assert ls[k := l][k + 1..] == ls[k + 1..];
  }

  lemma PriceSetInsert(ls: seq<Level>, k: nat, l: Level)
    requires k <= |ls|
    ensures PriceSet(InsertAt(ls, k, l)) == PriceSet(ls) + {l.price}
  {
    var r := InsertAt(ls, k, l);
    forall p | p in PriceSet(r) ensures p in PriceSet(ls) + {l.price} {
      var i :| 0 <= i < |r| && r[i].price == p;
      if i < k { assert ls[i].price == p; } else if i > k { assert ls[i - 1].price == p; }
    }
    forall p | p in PriceSet(ls) ensures p in PriceSet(r) {
      var i :| 0 <= i < |ls| && ls[i].price == p;
      if i < k { assert r[i].price == p; } else { assert r[i + 1].price == p; }
    }
    assert r[k].price == l.price;
  }

  lemma PriceSetRemove(ls: seq<Level>, k: nat, side: Side)
    requires k < |ls| && Ordered(ls, side)
    ensures PriceSet(RemoveAt(ls, k)) == PriceSet(ls) - {ls[k].price}
  {
    var r := RemoveAt(ls, k);
    forall p | p in PriceSet(r) ensures p in PriceSet(ls) - {ls[k].price} {
      var i :| 0 <= i < |r| && r[i].price == p;
      if i < k { assert ls[i].price == p; } else { assert ls[i + 1].price == p; }
    }
    forall p | p in PriceSet(ls) - {ls[k].price} ensures p in PriceSet(r) {
      var i :| 0 <= i < |ls| && ls[i].price == p;
      if i < k { assert r[i].price == p; } else { assert r[i - 1].price == p; }
    }
  }

  lemma PriceSetUpdate(ls: seq<Level>, k: nat, l: Level)
    requires k < |ls| && l.price == ls[k].price
    ensures PriceSet(ls[k := l]) == PriceSet(ls)
  {
    var r := ls[k := l];
    forall p | p in PriceSet(ls) ensures p in PriceSet(r) {
      var i :| 0 <= i < |ls| && ls[i].price == p;
      assert r[i].price == p;
    }
    forall p | p in PriceSet(r) ensures p in PriceSet(ls) {
      var i :| 0 <= i < |r| && r[i].price == p;
      assert ls[i].price == p;
    }
  }

  /** Within a sorted side two levels share a price only when they are
      the same level. */
  lemma OrderedDistinct(ls: seq<Level>, side: Side, i: nat, j: nat)
    requires Ordered(ls, side) && i < |ls| && j < |ls| && ls[i].price == ls[j].price
    ensures i == j
  {
  }

  /** `addPriceLevel` keeps a side sorted: the levels before the insertion
      point are better than the new one and those after it worse. */
  lemma OrderedInsert(ls: seq<Level>, l: Level, side: Side)
    requires Ordered(ls, side) && l.price !in PriceSet(ls)
    ensures Ordered(InsertAt(ls, InsertionPoint(ls, l.price, side), l), side)
  {
    var k := InsertionPoint(ls, l.price, side);
    var r := InsertAt(ls, k, l);
    if k > 0 {
      assert ls[0].price in PriceSet(ls);
      assert Better(ls[0].price, l.price, side);
      forall j | 1 <= j < k ensures Better(ls[j].price, l.price, side) {
        assert ls[1..][j - 1] == ls[j];
      }
    }
    if k < |ls| {
      assert ls[k].price in PriceSet(ls);
      if k > 0 { assert ls[1..][k - 1] == ls[k]; }
      assert Better(l.price, ls[k].price, side);
      forall j | k <= j < |ls| ensures Better(l.price, ls[j].price, side) {
        if j > k { assert Better(ls[k].price, ls[j].price, side); }
      }
    }
    forall i, j | 0 <= i < j < |r| ensures Better(r[i].price, r[j].price, side) {
      if j < k { } else if i < k && j == k {
      } else if i < k { assert Better(ls[i].price, ls[j - 1].price, side); }
      else if i == k { } else { assert Better(ls[i - 1].price, ls[j - 1].price, side); }
    }
  }

  lemma OrderedRemove(ls: seq<Level>, k: nat, side: Side)
    requires k < |ls| && Ordered(ls, side)
    ensures Ordered(RemoveAt(ls, k), side)
  {
    var r := RemoveAt(ls, k);
    forall i, j | 0 <= i < j < |r| ensures Better(r[i].price, r[j].price, side) {
      var i', j' := if i < k then i else i + 1, if j < k then j else j + 1;
      assert r[i] == ls[i'] && r[j] == ls[j'];
    }
  }

  /** A level keeps holding when the order map changes only in ways that
      do not touch the orders it queues (other than their `qty`). */
  lemma HoldsFrame(l: Level, orders: map<nat, Order>, orders': map<nat, Order>)
    requires LevelHolds(l, orders)
    requires forall s :: s in orders && s in l.queue ==> s in orders' && orders'[s].price == orders[s].price
    ensures LevelHolds(l, orders')
  {
    forall k | 0 <= k < |l.queue| ensures l.queue[k] in orders' && orders'[l.queue[k]].price == l.price {
      assert l.queue[k] in l.queue;
    }
  }

  lemma AllHoldFrame(ls: seq<Level>, orders: map<nat, Order>, orders': map<nat, Order>)
    requires AllHold(ls, orders)
    requires forall s :: s in orders ==> s in orders' && orders'[s].price == orders[s].price
    ensures AllHold(ls, orders')
  {
    forall i | 0 <= i < |ls| ensures LevelHolds(ls[i], orders') {
      HoldsFrame(ls[i], orders, orders');
    }
  }

  /** Removing one order keeps every level that does not queue it. Such
      are all levels whose price differs from the order's. */
  lemma AllHoldWithout(ls: seq<Level>, orders: map<nat, Order>, slot: nat, except: Option<nat>)
    requires slot in orders
    requires forall i :: 0 <= i < |ls| && Some(i) != except ==> LevelHolds(ls[i], orders)
    requires forall i :: 0 <= i < |ls| && Some(i) != except ==> ls[i].price != orders[slot].price
    ensures forall i :: 0 <= i < |ls| && Some(i) != except ==> LevelHolds(ls[i], orders - {slot})
  {
    forall i | 0 <= i < |ls| && Some(i) != except ensures LevelHolds(ls[i], orders - {slot}) {
      forall s | s in orders && s in ls[i].queue ensures s in orders - {slot} && (orders - {slot})[s].price == orders[s].price {
        var k :| 0 <= k < |ls[i].queue| && ls[i].queue[k] == s;
        assert orders[s].price == ls[i].price;
      }
      HoldsFrame(ls[i], orders, orders - {slot});
    }
  }

  // ---------------------------------------------------------- sums

  lemma {:induction false} QtySumConcat(a: seq<nat>, b: seq<nat>, orders: map<nat, Order>)
    ensures QtySum(a + b, orders) == QtySum(a, orders) + QtySum(b, orders)
  {
    if a == [] {
      assert a + b == b;
    } else {
      QtySumConcat(a[1..], b, orders);
      assert (a + b)[1..] == a[1..] + b;
      assert (a + b)[0] == a[0];
    }
  }

  /** The sum only depends on the queued orders' quantities. */
  lemma {:induction false} QtySumFrame(q: seq<nat>, orders: map<nat, Order>, orders': map<nat, Order>)
    requires forall s :: s in q ==> QtyOf(s, orders) == QtyOf(s, orders')
    ensures QtySum(q, orders) == QtySum(q, orders')
  {
    if q != [] {
      assert q[0] in q;
      QtySumFrame(q[1..], orders, orders');
    }
  }

  /** Dropping the order at position `i` takes its quantity off the sum. */
  lemma QtySumRemove(q: seq<nat>, i: nat, orders: map<nat, Order>)
    requires i < |q|
    ensures QtySum(RemoveAt(q, i), orders) + QtyOf(q[i], orders) == QtySum(q, orders)
  {
    assert q == q[..i] + ([q[i]] + q[i + 1..]);
    QtySumConcat(q[..i], [q[i]] + q[i + 1..], orders);
    QtySumConcat([q[i]], q[i + 1..], orders);
    QtySumConcat(q[..i], q[i + 1..], orders);
    assert ([q[i]] + q[i + 1..])[1..] == q[i + 1..];
  }

  /** Changing the quantity of an order queued exactly once moves the sum
      by the change. */
  lemma {:induction false} QtySumSet(q: seq<nat>, orders: map<nat, Order>, s: nat, o: Order)
    requires s in orders && multiset(q)[s] == 1
    ensures QtySum(q, orders[s := o]) + orders[s].qty == QtySum(q, orders) + o.qty
  {
    assert q == [q[0]] + q[1..];
    assert multiset(q) == multiset{q[0]} + multiset(q[1..]);
    if q[0] == s {
      assert s !in q[1..];
      QtySumFrame(q[1..], orders, orders[s := o]);
    } else {
      QtySumSet(q[1..], orders, s, o);
    }
  }

  /** A level's queue is a part of the book's queued slots. */
  lemma QueueInFlatten(ls: seq<Level>, k: nat)
    requires k < |ls|
    ensures multiset(ls[k].queue) <= multiset(Flatten(ls))
  {
    FlattenSplit(ls, k);
  }

  /** Every queued slot sits in some level's queue. */
  lemma {:induction false} OwnerOf(ls: seq<Level>, s: nat) returns (i: nat)
    requires s in Flatten(ls)
    ensures i < |ls| && s in ls[i].queue
  {
    if s in ls[0].queue {
      i := 0;
    } else {
      var j := OwnerOf(ls[1..], s);
      i := j + 1;
    }
  }

  /** Under the invariant a found price is a level price, and a level
      price is found. */
  lemma FoundIsLevel(b: Book, p: int)
    requires Valid(b)
    ensures FindPriceLevel(b, p) <==> Locate(b, p).Some?
  {
    if FindPriceLevel(b, p) {
      assert b.levelIndex[PriceToIndex(p)] in PriceSet(b.bids) + PriceSet(b.asks);
    }
  }

  /** Under the invariant a live order is queued, once, in the level at
      its price; that level is where `Locate` finds it. */
  lemma OrderQueued(b: Book, s: nat) returns (side: Side, k: nat)
    requires Valid(b) && s in b.orders
    ensures Locate(b, b.orders[s].price) == Some((side, k))
    ensures multiset(SideLevels(b, side)[k].queue)[s] == 1
  {
    assert s in b.orders.Keys;
    assert Queued(b)[s] == 1;
    var bid := s in Flatten(b.bids);
    var ls := if bid then b.bids else b.asks;
    side := if bid then Buy else Sell;
    assert ls == SideLevels(b, side);
    assert s in Flatten(ls);
    var i := OwnerOf(ls, s);
    var j :| 0 <= j < |ls[i].queue| && ls[i].queue[j] == s;
    assert LevelHolds(ls[i], b.orders);
    var p := b.orders[s].price;
    assert ls[i].price == p;
    assert p in PriceSet(ls);
    QueueInFlatten(ls, i);
    var loc := Locate(b, p);
    assert loc.Some?;
    if side == Buy {
      assert p !in PriceSet(b.asks);
      assert loc.value.0 == Buy;
      OrderedDistinct(b.bids, Buy, i, loc.value.1);
    } else {
      assert p !in PriceSet(b.bids);
      assert loc.value.0 == Sell;
      OrderedDistinct(b.asks, Sell, i, loc.value.1);
    }
    k := i;
    assert multiset(ls[i].queue)[s] >= 1;
    assert multiset(ls[i].queue)[s] <= multiset(Flatten(ls))[s] <= Queued(b)[s];
  }

  // ------------------------------------------------------ structure

  /** The multiset of a set with one more element. */
  lemma KeysAdd(m: map<nat, Order>, s: nat, o: Order)
    requires s !in m
    ensures multiset(m[s := o].Keys) == multiset(m.Keys) + multiset{s}
  {
    assert m[s := o].Keys == m.Keys + {s};
  }

  lemma KeysRemove(m: map<nat, Order>, s: nat)
    requires s in m
    ensures multiset((m - {s}).Keys) + multiset{s} == multiset(m.Keys)
  {
    assert m.Keys == (m - {s}).Keys + {s};
  }

  /** Multiset sums cancel. */
  lemma Cancel(x: multiset<nat>, y: multiset<nat>, a: multiset<nat>)
    requires x + a == y + a
    ensures x == y
  {
    forall e ensures x[e] == y[e] {
      assert (x + a)[e] == (y + a)[e];
    }
  }

  /** The bookkeeping step of rewriting one level: if the side's slots
      change as the level's queue does, and the map's keys change as the
      queue does, the side's and the other side's slots still make up the
      keys. */
  lemma Rebalance(now: multiset<nat>, stale: multiset<nat>, other: multiset<nat>, q: multiset<nat>, q': multiset<nat>,
                  keys: multiset<nat>, keys': multiset<nat>)
    requires now + q == stale + q' && stale + other == keys && q' + keys == q + keys'
    ensures now + other == keys'
  {
    forall e ensures (now + other)[e] == keys'[e] {
      assert (now + q)[e] == (stale + q')[e];
      assert (stale + other)[e] == keys[e];
      assert (q' + keys)[e] == (q + keys')[e];
    }
  }

  /** Adding the same slots to a queue and to the keys, or taking them
      off both, balances. */
  lemma Shift(q: multiset<nat>, keys: multiset<nat>, d: multiset<nat>)
    ensures (q + d) + keys == q + (keys + d)
  {
    forall e ensures ((q + d) + keys)[e] == (q + (keys + d))[e] { }
  }

  /** Adding the same slots to one part and to the whole keeps the sum. */
  lemma Grow(x: multiset<nat>, y: multiset<nat>, keys: multiset<nat>, d: multiset<nat>)
    requires x + y == keys
    ensures (x + d) + y == keys + d
  {
    forall e ensures ((x + d) + y)[e] == (keys + d)[e] {
      assert (x + y)[e] == keys[e];
    }
  }

  /** A set of naturals below `n` has at most `n` members. */
  lemma {:induction false} BoundedCard(s: set<nat>, n: nat)
    requires forall x :: x in s ==> x < n
    ensures |s| <= n
  {
    if n == 0 {
      assert s == {};
    } else {
      BoundedCard(s - {n - 1}, n - 1);
      if n - 1 in s {
        assert s == (s - {n - 1}) + {n - 1};
      } else {
        assert s == s - {n - 1};
      }
    }
  }

  /** A sub-multiset is no larger. */
  lemma SubCard(a: multiset<nat>, b: multiset<nat>)
    requires a <= b
    ensures |a| <= |b|
  {
    assert b == a + (b - a);
  }

  /** Taking the same slots off one part and off the whole keeps the sum. */
  lemma Shrink(x: multiset<nat>, y: multiset<nat>, keys: multiset<nat>, d: multiset<nat>)
    requires (x + d) + y == keys + d
    ensures x + y == keys
  {
    forall e ensures (x + y)[e] == keys[e] {
      assert ((x + d) + y)[e] == (keys + d)[e];
    }
  }
}
