/** `PriceLevelTree` (impl/include/impl/price_level_tree.hpp): the B+ tree
    the order book keeps per side, mapping an int32 price to the id of its
    price level. The node pointers of the source are the `Node` value held
    in `root`; the leaf chain is `Chain()`, the sequence of its leaves; the
    leaf pool's `allocatedCount()` is `leafNodes`, which sees one leaf per
    leaf of the tree because the pool frees nothing before `clear`. */
module PriceLevelTree {
  import opened Common
  import opened TreeNodes
  import opened TreeInsert
  import opened TreeMinKey
  import opened TreeErase
  import opened TreeBuild
  import opened TreeChain

  /** `findLeaf`: descend from `n` through the child `upperBound` picks. */
  method FindLeaf(n: Node, p: int) returns (leaf: seq<Entry>)
    requires Shaped(n)
    ensures leaf == RouteLeaf(n, p)
  {
    var cur := n;
    while cur.Internal?
      invariant Shaped(cur) && RouteLeaf(cur, p) == RouteLeaf(n, p)
      decreases cur
    {
      var idx := UpperBound(cur.keys, p);
      cur := cur.children[idx];
    }
    leaf := cur.entries;
  }

  /** The `maybeRebuild` test on the pool size, the tree size and the
      erases since the last rebuild. */
  predicate RebuildDue(auto: bool, leaves: nat, size: nat, erases: nat)
  {
    auto && leaves >= 8 && size * 3 < leaves * LEAF_MAX && erases > leaves * LEAF_MAX / 2
  }

  /** The pairs of the tree in price order: along the leaf chain. */
  function ContentsOf(root: Option<Node>): seq<Entry>
  {
    if root.None? then [] else Entries(root.value)
  }

  /** The leaf chain from `leftmost_` to `rightmost_`. */
  function ChainOf(root: Option<Node>): seq<seq<Entry>>
  {
    if root.None? then [] else Leaves(root.value)
  }

  /** A well-formed tree, `size_` counting its pairs and the leaf pool
      counting its leaves. */
  ghost predicate Inv(root: Option<Node>, size: nat, leafNodes: nat)
  {
    && (root.None? ==> leafNodes == 0)
    && (root.Some? ==> WF(root.value, None, None) && Shaped(root.value) && leafNodes == |Leaves(root.value)|)
    && size == |ContentsOf(root)|
  }

  /** The root after inserting a new pair below a well-formed root: the
      grown tree is well formed, holds the pairs in order with the new one
      in place, has one more leaf exactly when the routed leaf was full,
      and, when the pair lands first in its leaf, the separator update
      changes neither its shape nor its pairs. */
  lemma InsertFacts(r: Node, e: Entry, g: Node)
    requires WF(r, None, None) && !HasKey(Entries(r), e.price) && Shaped(r)
    requires g == Grow(InsertRec(r, e))
    ensures WF(g, None, None) && Shaped(g)
    ensures Entries(g) == InsertSorted(Entries(r), e) && |Entries(g)| == |Entries(r)| + 1
    ensures |RouteLeaf(r, e.price)| <= LEAF_MAX
    ensures |Leaves(g)| == |Leaves(r)| + if |RouteLeaf(r, e.price)| == LEAF_MAX then 1 else 0
    ensures InsertedPos(RouteLeaf(r, e.price), e) == 0 ==>
      && WF(SetMin(g, e.price), None, None) && Shaped(SetMin(g, e.price))
      && Entries(SetMin(g, e.price)) == Entries(g) && Leaves(SetMin(g, e.price)) == Leaves(g)
  {
    var p := e.price;
    InsertTop(r, e);
    WFShaped(g, None, None);
    var leaf := RouteLeaf(r, p);
    RouteSeparates(r, None, None, p);
    EntriesWF(r, None, None);
    InsertSortedFacts(Entries(r), e, None, None);
    if InsertedPos(leaf, e) == 0 {
      RouteFinds(r, None, None, p);
      InsertRoute(r, None, None, e);
      GrowRoute(InsertRec(r, e), p);
      InsertedPosSpec(leaf, e);
      SetMinSpec(g, None, None, p);
    }
  }

  /** The part of `insert` after the duplicate check, on the tree below the
      root: `insertIntoLeaf` into the leaf `findLeaf` picked, `splitLeaf`
      (and `insertIntoParent`, `splitInternal` up the path) when it
      overflows, and `updateMinKeyAfterInsert` when the pair lands first in
      its leaf. */
  method InsertBelow(r: Node, e: Entry, leaf: seq<Entry>) returns (g: Node)
    requires WF(r, None, None) && Shaped(r) && !HasKey(Entries(r), e.price)
    requires leaf == RouteLeaf(r, e.price)
    ensures WF(g, None, None) && Shaped(g)
    ensures Entries(g) == InsertSorted(Entries(r), e) && |Entries(g)| == |Entries(r)| + 1
    ensures |Leaves(g)| == |Leaves(r)| + (if |leaf| < LEAF_MAX then 0 else 1)
  {
    InsertFacts(r, e, Grow(InsertRec(r, e)));
    g := Grow(InsertRec(r, e));
    if InsertedPos(leaf, e) == 0 {
      g := SetMin(g, e.price);
    }
  }

  /** `insert` on the tree's state: the root, `size_` and the leaf count.
      The pair goes in exactly when its price is new; then the pairs gain it
      in price order and the leaf count grows by one exactly when a leaf
      split (the routed leaf was full, or there was no root yet). */
  method InsertInto(root: Option<Node>, size: nat, leafNodes: nat, e: Entry)
    returns (ok: bool, root': Option<Node>, size': nat, leaves': nat)
    requires Inv(root, size, leafNodes)
    ensures Inv(root', size', leaves')
    ensures ok <==> !HasKey(ContentsOf(root), e.price)
    ensures ok ==> ContentsOf(root') == InsertSorted(ContentsOf(root), e) && size' == size + 1
    ensures ok ==> leaves' == leafNodes + (if root.Some? && |RouteLeaf(root.value, e.price)| < LEAF_MAX then 0 else 1)
    ensures !ok ==> root' == root && size' == size && leaves' == leafNodes
  {
    if root.None? {
      assert !HasKey(ContentsOf(root), e.price);
      return true, Some(Leaf([e])), 1, 1;
    }
    var r := root.value;
    var leaf := FindLeaf(r, e.price);
    RouteFinds(r, None, None, e.price);
    var pos := LowerBound(leaf, e.price);
    if pos < |leaf| && leaf[pos].price == e.price {
      return false, root, size, leafNodes;
    }
    var grown := InsertBelow(r, e, leaf);
    ok, root', size' := true, Some(grown), size + 1;
    leaves' := leafNodes + if |leaf| < LEAF_MAX then 0 else 1;
  }

  /** `erase` on the tree's state: the pair goes exactly when its price
      is present, from the leaf `findLeaf` picks; the leaf count is
      untouched because no node is freed or merged. */
  method EraseFrom(root: Option<Node>, size: nat, leafNodes: nat, p: int)
    returns (ok: bool, root': Option<Node>, size': nat)
    requires Inv(root, size, leafNodes)
    ensures Inv(root', size', leafNodes)
    ensures ok <==> HasKey(ContentsOf(root), p)
    ensures ContentsOf(root') == RemoveKey(ContentsOf(root), p)
    ensures ok ==> size' == size - 1
    ensures !ok ==> root' == root && size' == size
  {
    if root.None? {
      return false, root, size;
    }
    var r := root.value;
    var leaf := FindLeaf(r, p);
    RouteFinds(r, None, None, p);
    var pos := LowerBound(leaf, p);
    if pos >= |leaf| || leaf[pos].price != p {
      return false, root, size;
    }
    EraseTop(r, p);
    WFShaped(EraseRec(r, p), None, None);
    EntriesWF(r, None, None);
    RemoveKeyFacts(Entries(r), p, None, None);
    ok, root' := true, Some(EraseRec(r, p));
    // The erased pair was counted, so `size_ > 0` guards nothing here.
    size' := size - 1;
  }

  class PriceLevelTree {
    var root: Option<Node>
    var size: nat
    var insertsSinceRebuild: nat
    var erasesSinceRebuild: nat
    var autoRebuild: bool
    var leafNodes: nat

    function Contents(): seq<Entry>
      reads this
    {
      ContentsOf(root)
    }

    function Chain(): seq<seq<Entry>>
      reads this
    {
      ChainOf(root)
    }

    ghost predicate Valid()
      reads this
    {
      Inv(root, size, leafNodes)
    }

    /** The tree's pairs in strictly increasing price order and along the
        chain. */
    lemma ContentsFacts()
      requires Valid()
      ensures Increasing(Contents()) && Flatten(Chain()) == Contents()
    {
      if root.Some? {
        EntriesWF(root.value, None, None);
        ChainIsEntries(root.value);
      }
    }

    constructor ()
      ensures Valid() && Contents() == []
      ensures root.None? && size == 0 && insertsSinceRebuild == 0 && erasesSinceRebuild == 0
      ensures autoRebuild && leafNodes == 0
    {
      root := None;
      size := 0;
      insertsSinceRebuild := 0;
      erasesSinceRebuild := 0;
      autoRebuild := true;
      leafNodes := 0;
    }

    /** `clear`: drop every node and reset the counters. */
    method Clear()
      modifies this
      ensures Valid() && Contents() == []
      ensures root.None? && size == 0 && insertsSinceRebuild == 0 && erasesSinceRebuild == 0
      ensures leafNodes == 0 && autoRebuild == old(autoRebuild)
    {
      root := None;
      size := 0;
      insertsSinceRebuild := 0;
      erasesSinceRebuild := 0;
      leafNodes := 0;
    }

    /** `size`: the number of pairs held. */
    function Size(): (n: nat)
      reads this
      requires Valid()
      ensures n == |Contents()|
    {
      size
    }

    method SetAutoRebuild(enabled: bool)
      modifies this
      requires Valid()
      ensures Valid() && autoRebuild == enabled
      ensures root == old(root) && size == old(size) && leafNodes == old(leafNodes)
      ensures insertsSinceRebuild == old(insertsSinceRebuild) && erasesSinceRebuild == old(erasesSinceRebuild)
    {
      autoRebuild := enabled;
    }

    /** `find`: whether some pair has the price, and its level if so. */
    method Find(price: int) returns (found: bool, level: nat)
      requires Valid()
      ensures found <==> HasKey(Contents(), price)
      ensures found ==> Entry(price, level) in Contents()
    {
      found, level := false, 0;
      if root.None? {
        return;
      }
      var leaf := FindLeaf(root.value, price);
      RouteFinds(root.value, None, None, price);
      var k := LowerBound(leaf, price);
      if k < |leaf| && leaf[k].price == price {
        found, level := true, leaf[k].level;
      }
    }

    /** `insert`: add the pair unless its price is present. A new pair goes
        into the leaf `findLeaf` picks, which splits when it overflows;
        when it lands first in its leaf the separator above is updated. */
    method Insert(price: int, level: nat) returns (ok: bool)
      modifies this
      requires Valid()
      ensures Valid()
      ensures ok <==> !HasKey(old(Contents()), price)
      ensures ok ==> Contents() == InsertSorted(old(Contents()), Entry(price, level))
      ensures ok ==> size == old(size) + 1 && insertsSinceRebuild == old(insertsSinceRebuild) + 1
      ensures ok ==> leafNodes == old(leafNodes) + (if old(root).Some? && |RouteLeaf(old(root).value, price)| < LEAF_MAX then 0 else 1)
      ensures erasesSinceRebuild == old(erasesSinceRebuild) && autoRebuild == old(autoRebuild)
      ensures !ok ==> root == old(root) && size == old(size) && leafNodes == old(leafNodes)
      ensures !ok ==> insertsSinceRebuild == old(insertsSinceRebuild)
    {
      var r2, s2, l2;
      ok, r2, s2, l2 := InsertInto(root, size, leafNodes, Entry(price, level));
      root, size, leafNodes := r2, s2, l2;
      if ok {
        insertsSinceRebuild := insertsSinceRebuild + 1;
      }
    }

    /** `erase`: remove the pair with the price if there is one, then let
        `maybeRebuild` repack the leaves when erases have thinned them. */
    method Erase(price: int) returns (ok: bool)
      modifies this
      requires Valid()
      ensures Valid() && autoRebuild == old(autoRebuild)
      ensures ok <==> HasKey(old(Contents()), price)
      ensures Contents() == RemoveKey(old(Contents()), price)
      ensures ok ==> size == old(size) - 1
      ensures ok && RebuildDue(old(autoRebuild), old(leafNodes), size, old(erasesSinceRebuild) + 1) ==>
        Chain() == Chunks(Contents()) && leafNodes == Ceil(size, LEAF_MAX) && insertsSinceRebuild == 0 && erasesSinceRebuild == 0
      ensures ok && !RebuildDue(old(autoRebuild), old(leafNodes), size, old(erasesSinceRebuild) + 1) ==>
        leafNodes == old(leafNodes) && insertsSinceRebuild == old(insertsSinceRebuild) && erasesSinceRebuild == old(erasesSinceRebuild) + 1
      ensures !ok ==> root == old(root) && size == old(size) && leafNodes == old(leafNodes)
      ensures !ok ==> insertsSinceRebuild == old(insertsSinceRebuild) && erasesSinceRebuild == old(erasesSinceRebuild)
    {
      var r2, s2;
      ok, r2, s2 := EraseFrom(root, size, leafNodes, price);
      if !ok {
        return;
      }
      root, size, erasesSinceRebuild := r2, s2, erasesSinceRebuild + 1;
      MaybeRebuild();
    }

    /** `rebuild`: collect the pairs along the chain and pack them into
        full leaves (`buildFromSorted`); an empty tree is cleared. The
        pairs are unchanged, the chain becomes the 40-pair chunks of them,
        and both counters restart. */
    method Rebuild()
      modifies this
      requires Valid()
      ensures Valid() && Contents() == old(Contents()) && autoRebuild == old(autoRebuild)
      ensures Chain() == Chunks(Contents()) && leafNodes == Ceil(size, LEAF_MAX)
      ensures insertsSinceRebuild == 0 && erasesSinceRebuild == 0
    {
      if size == 0 {
        Clear();
        return;
      }
      ContentsFacts();
      var keys := CollectChain(Chain());
      Clear();
      var r := BuildFromSorted(keys);
      WFShaped(r, None, None);
      root, size, leafNodes := Some(r), |keys|, Ceil(|keys|, LEAF_MAX);
    }

    /** `maybeRebuild`: rebuild when auto-rebuild is on, at least 8 leaves
        are allocated, the pairs fill under a third of them and more than
        half their capacity has been erased since the last rebuild. */
    method MaybeRebuild()
      modifies this
      requires Valid()
      ensures Valid() && Contents() == old(Contents()) && autoRebuild == old(autoRebuild)
      ensures RebuildDue(old(autoRebuild), old(leafNodes), old(size), old(erasesSinceRebuild)) ==>
        Chain() == Chunks(Contents()) && leafNodes == Ceil(size, LEAF_MAX) && insertsSinceRebuild == 0 && erasesSinceRebuild == 0
      ensures !RebuildDue(old(autoRebuild), old(leafNodes), old(size), old(erasesSinceRebuild)) ==>
        root == old(root) && size == old(size) && leafNodes == old(leafNodes)
        && insertsSinceRebuild == old(insertsSinceRebuild) && erasesSinceRebuild == old(erasesSinceRebuild)
    {
      if RebuildDue(autoRebuild, leafNodes, size, erasesSinceRebuild) {
        Rebuild();
      }
    }

    /** `min`: the pair with the least price, if any. */
    method Min() returns (r: Option<Entry>)
      requires Valid()
      ensures r.None? <==> Contents() == []
      ensures r.Some? ==> r.value in Contents() && forall e :: e in Contents() ==> r.value.price <= e.price
    {
      ContentsFacts();
      r := FirstOfChain(Chain());
      if r.Some? {
        IncreasingFirst(Contents());
      }
    }

    /** `max`: the pair with the greatest price, if any. */
    method Max() returns (r: Option<Entry>)
      requires Valid()
      ensures r.None? <==> Contents() == []
      ensures r.Some? ==> r.value in Contents() && forall e :: e in Contents() ==> e.price <= r.value.price
    {
      ContentsFacts();
      r := LastOfChain(Chain());
      if r.Some? {
        IncreasingLast(Contents());
      }
    }

    /** `nthFromMin`: the pair with `n` smaller prices below it. */
    method NthFromMin(n: nat) returns (r: Option<Entry>)
      requires Valid()
      ensures r == if n < |Contents()| then Some(Contents()[n]) else None
    {
      ContentsFacts();
      r := NthOfChain(Chain(), n);
    }

    /** `nthFromMax`: the pair with `n` greater prices above it. */
    method NthFromMax(n: nat) returns (r: Option<Entry>)
      requires Valid()
      ensures r == if n < |Contents()| then Some(Contents()[|Contents()| - 1 - n]) else None
    {
      ContentsFacts();
      r := NthFromEndOfChain(Chain(), n);
    }

    /** `forEachFromMin`: the pairs the callback receives, best (lowest)
        price first, at most `k` of them. */
    method ForEachFromMin(k: nat) returns (visited: seq<Entry>)
      requires Valid()
      ensures |visited| == if k < |Contents()| then k else |Contents()|
      ensures visited == Contents()[..|visited|]
    {
      ContentsFacts();
      visited := PrefixOfChain(Chain(), k);
    }

    /** `forEachFromMax`: the pairs the callback receives, highest price
        first, at most `k` of them. */
    method ForEachFromMax(k: nat) returns (visited: seq<Entry>)
      requires Valid()
      ensures |visited| == if k < |Contents()| then k else |Contents()|
      ensures forall t :: 0 <= t < |visited| ==> visited[t] == Contents()[|Contents()| - 1 - t]
    {
      ContentsFacts();
      visited := SuffixOfChain(Chain(), k);
    }
  }

  /** In a strictly increasing run the first pair has the least price and
      the last the greatest. */
  lemma IncreasingFirst(es: seq<Entry>)
    requires Increasing(es) && es != []
    ensures forall e :: e in es ==> es[0].price <= e.price
  {
    forall e | e in es
      ensures es[0].price <= e.price
    {
      var i :| 0 <= i < |es| && es[i] == e;
      if i > 0 {
        assert es[0].price < es[i].price;
      }
    }
  }

  lemma IncreasingLast(es: seq<Entry>)
    requires Increasing(es) && es != []
    ensures forall e :: e in es ==> e.price <= es[|es| - 1].price
  {
    forall e | e in es
      ensures e.price <= es[|es| - 1].price
    {
      var i :| 0 <= i < |es| && es[i] == e;
      if i < |es| - 1 {
        assert es[i].price < es[|es| - 1].price;
      }
    }
  }
}
