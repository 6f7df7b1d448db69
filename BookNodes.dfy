/** The intrusive node structs of impl/include/impl/order_book.hpp: an
    `Order` links to its neighbours at the same price through `prev` and
    `next`, and a `PriceLevel` holds the first order of its ring and the
    cached total and count of that ring. These nodes are kept as objects
    here because their constructors and `updateQty` work on the pointers
    themselves; the book's operations are modelled on values in BookState. */
module BookNodes {
  import opened Common

  class OrderNode {
    var id: nat
    var price: int
    var qty: nat
    var side: Side
    var prev: OrderNode?
    var next: OrderNode?

    /** `Order(id, p, q, s)`: the fields as given and a ring of one. */
    constructor (id: nat, price: int, qty: nat, side: Side)
      ensures this.id == id && this.price == price && this.qty == qty && this.side == side
      ensures prev == this && next == this
    {
      this.id, this.price, this.qty, this.side := id, price, qty, side;
      new;
      prev, next := this, this;
    }
  }

  /** `ring` lists the orders met following `next` from `first`, each
      once, the last one leading back to `first`. */
  ghost predicate IsRing(first: OrderNode, ring: seq<OrderNode>)
    reads ring
  {
    && |ring| > 0
    && ring[0] == first
    && (forall i, j :: 0 <= i < j < |ring| ==> ring[i] != ring[j])
    && (forall i :: 0 <= i < |ring| - 1 ==> ring[i].next == ring[i + 1])
    && ring[|ring| - 1].next == first
  }

  /** The sum of the `qty` fields of the orders of a ring. */
  ghost function RingQty(ring: seq<OrderNode>): nat
    reads ring
  {
    if ring == [] then 0 else RingQty(ring[..|ring| - 1]) + ring[|ring| - 1].qty
  }

  /** A ring of one order is the order's own `next`. */
  lemma SingleRing(o: OrderNode)
    requires o.next == o
    ensures IsRing(o, [o]) && RingQty([o]) == o.qty
  {
    assert [o][..0] == [];
  }

  class LevelNode {
    var price: int
    var side: Side
    var totalQty: nat
    var orderCount: nat
    var firstOrder: OrderNode?
    var prev: LevelNode?
    var next: LevelNode?

    /** `PriceLevel(p, s, order)`: a ring of one level whose total and
        count come from `updateQty` over the order ring starting at
        `order`, which `ring` lists. */
    constructor (price: int, side: Side, order: OrderNode?, ghost ring: seq<OrderNode>)
      requires order != null ==> IsRing(order, ring)
      ensures this.price == price && this.side == side && firstOrder == order
      ensures order == null ==> totalQty == 0 && orderCount == 0
      ensures order != null ==> totalQty == U32(RingQty(ring)) && orderCount == |ring|
      ensures prev == this && next == this
    {
      this.price, this.side, firstOrder := price, side, order;
      new;
      UpdateQty(ring);
      prev, next := this, this;
    }

    /** `updateQty`: walk the order ring once from `firstOrder`, adding
        each `qty` to the uint32_t total and counting the orders; both
        are 0 for a level without orders. */
    method UpdateQty(ghost ring: seq<OrderNode>)
      requires firstOrder != null ==> IsRing(firstOrder, ring)
      modifies this`totalQty, this`orderCount
      ensures firstOrder == null ==> totalQty == 0 && orderCount == 0
      ensures firstOrder != null ==> totalQty == U32(RingQty(ring)) && orderCount == |ring|
    {
      totalQty, orderCount := 0, 0;
      if firstOrder == null {
        return;
      }
      var cur: OrderNode? := firstOrder;
      ghost var k := 0;
      while true
        invariant k < |ring| && cur == ring[k]
        invariant totalQty == U32(RingQty(ring[..k])) && orderCount == k
        decreases |ring| - k
      {
        assert ring[..k + 1][..k] == ring[..k];
        ModAddFold(RingQty(ring[..k]), cur.qty, TWO_32);
        totalQty := U32(totalQty + cur.qty);
        orderCount := orderCount + 1;
        cur := cur.next;
        k := k + 1;
        if k < |ring| {
          assert cur == ring[k] && ring[k] != ring[0];
        }
        if cur == firstOrder {
          assert k == |ring|;
          assert ring[..k] == ring;
          return;
        }
      }
    }
  }
}
