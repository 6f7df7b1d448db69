/** `updateMinKeyAfterInsert` (impl/include/impl/price_level_tree.hpp): when a
    price lands first in its leaf, the walk climbs from the leaf while the
    node is its parent's child 0 and, at the first parent where it is not,
    sets the separator to its left to the new price. Seen from the root:
    along the route of the price, the lowest node whose route index is
    not 0 gets key `index - 1` replaced. */
module TreeMinKey {
  import opened Common
  import opened TreeNodes
  import opened TreeInsert

  /** From `n` down, the route of `p` always takes child 0. */
  predicate LeftPath(n: Node, p: int)
    requires Shaped(n)
    decreases n
  {
    match n
    case Leaf(_) => true
    case Internal(ks, cs) => UpperBound(ks, p) == 0 && LeftPath(cs[0], p)
  }

  /** The separator update: nothing when the whole route takes child 0. */
  function SetMin(n: Node, p: int): Node
    requires Shaped(n)
    decreases n
  {
    match n
    case Leaf(_) => n
    case Internal(ks, cs) =>
      var i := UpperBound(ks, p);
      if i > 0 && LeftPath(cs[i], p) then Internal(ks[i - 1 := p], cs)
      else Internal(ks, cs[i := SetMin(cs[i], p)])
  }

  /** A subtree whose route of `p` takes child 0 throughout and ends at a
      leaf starting with `p` stays well formed when its lower bound is
      raised to `p`. */
  lemma {:induction false} RaiseLow(c: Node, a: Option<int>, h: Option<int>, p: int)
    requires WF(c, a, h) && Shaped(c) && LeftPath(c, p)
    requires RouteLeaf(c, p) != [] && RouteLeaf(c, p)[0].price == p
    ensures WF(c, Some(p), h)
    decreases c
  {
    match c
    case Leaf(es) =>
      forall x | 0 <= x < |es|
        ensures AtLeast(es[x].price, Some(p))
      {
        if x > 0 {
          assert es[0].price < es[x].price;
        }
      }
    case Internal(ks, cs) =>
      RaiseLow(cs[0], a, ChildHi(ks, h, 0), p);
      forall x | 0 <= x < |ks|
        ensures Above(ks[x], Some(p))
      {
        if x > 0 {
          assert ks[0] < ks[x];
        }
      }
      forall j | 0 <= j < |cs|
        ensures WF(cs[j], ChildLo(ks, Some(p), j), ChildHi(ks, h, j))
      {
        if j > 0 {
          assert ChildLo(ks, Some(p), j) == ChildLo(ks, a, j);
        }
      }
  }

  /** Replacing separator `i - 1` by a price routed to child `i`, whose
      subtree's route of that price takes child 0 to a leaf starting with
      it, keeps the node well formed. */
  lemma SetKeyWF(ks: seq<int>, cs: seq<Node>, lo: Option<int>, hi: Option<int>, i: nat, p: int)
    requires WF(Internal(ks, cs), lo, hi) && Shaped(Internal(ks, cs))
    requires 0 < i == UpperBound(ks, p) && Below(p, hi)
    requires LeftPath(cs[i], p) && RouteLeaf(cs[i], p) != [] && RouteLeaf(cs[i], p)[0].price == p
    ensures WF(Internal(ks[i - 1 := p], cs), lo, hi)
  {
    var ks2 := ks[i - 1 := p];
    SetKeyOrdered(ks, i, p);
    assert Above(p, lo) by {
      assert Above(ks[i - 1], lo);
    }
    RaiseLow(cs[i], ChildLo(ks, lo, i), ChildHi(ks, hi, i), p);
    Widen(cs[i - 1], ChildLo(ks, lo, i - 1), ChildHi(ks, hi, i - 1), ChildLo(ks, lo, i - 1), Some(p));
    forall j | 0 <= j < |cs|
      ensures WF(cs[j], ChildLo(ks2, lo, j), ChildHi(ks2, hi, j))
    {
      if j == i - 1 {
        assert ChildLo(ks2, lo, j) == ChildLo(ks, lo, j) && ChildHi(ks2, hi, j) == Some(p);
      } else if j == i {
        assert ChildLo(ks2, lo, j) == Some(p) && ChildHi(ks2, hi, j) == ChildHi(ks, hi, j);
      } else {
        assert ChildLo(ks2, lo, j) == ChildLo(ks, lo, j) && ChildHi(ks2, hi, j) == ChildHi(ks, hi, j);
      }
    }
  }

  lemma SetKeyOrdered(ks: seq<int>, i: nat, p: int)
    requires KeysIncreasing(ks) && 0 < i == UpperBound(ks, p)
    ensures KeysIncreasing(ks[i - 1 := p])
  {
    var ks2 := ks[i - 1 := p];
    forall a, b | 0 <= a < b < |ks2|
      ensures ks2[a] < ks2[b]
    {
      if b == i - 1 {
        assert ks[a] < ks[i - 1];
      } else if a == i - 1 {
        assert ks[i] <= ks[b];
      }
    }
  }

  /** The separator update keeps a tree well formed and changes no pair
      and no leaf, provided the price starts the leaf it routes to. */
  lemma {:induction false} SetMinSpec(n: Node, lo: Option<int>, hi: Option<int>, p: int)
    requires WF(n, lo, hi) && Shaped(n) && RouteLeaf(n, p) != [] && RouteLeaf(n, p)[0].price == p
    ensures Shaped(SetMin(n, p)) && WF(SetMin(n, p), lo, hi)
    ensures Entries(SetMin(n, p)) == Entries(n) && Leaves(SetMin(n, p)) == Leaves(n)
    decreases n
  {
    if n.Internal? {
      var ks, cs := n.keys, n.children;
      var i := UpperBound(ks, p);
      if i > 0 && LeftPath(cs[i], p) {
        RouteSeparates(n, lo, hi, p);
        SetKeyWF(ks, cs, lo, hi, i, p);
        WFShaped(SetMin(n, p), lo, hi);
      } else {
        SetMinSpec(cs[i], ChildLo(ks, lo, i), ChildHi(ks, hi, i), p);
        DescendKeeps(ks, cs, lo, hi, i, SetMin(cs[i], p));
      }
    }
  }

  /** Replacing child `i` by a subtree well formed for the same range,
      with the same pairs and leaves, keeps the node and its chain. */
  lemma DescendKeeps(ks: seq<int>, cs: seq<Node>, lo: Option<int>, hi: Option<int>, i: nat, c: Node)
    requires WF(Internal(ks, cs), lo, hi) && i < |cs|
    requires WF(c, ChildLo(ks, lo, i), ChildHi(ks, hi, i))
    requires Entries(c) == Entries(cs[i]) && Leaves(c) == Leaves(cs[i])
    ensures WF(Internal(ks, cs[i := c]), lo, hi) && Shaped(Internal(ks, cs[i := c]))
    ensures EntriesOf(cs[i := c]) == EntriesOf(cs) && LeavesOf(cs[i := c]) == LeavesOf(cs)
  {
    var cs2 := cs[i := c];
    forall j | 0 <= j < |cs2|
      ensures WF(cs2[j], ChildLo(ks, lo, j), ChildHi(ks, hi, j))
    {
      if j != i {
        assert cs2[j] == cs[j];
      }
    }
    WFShaped(Internal(ks, cs2), lo, hi);
    EntriesAround(cs, i);
    EntriesAround(cs2, i);
    assert cs2[..i] == cs[..i] && cs2[i + 1..] == cs[i + 1..];
  }

  // ------------------------------------------- when the walk is started

  /** `inserted_pos` of `insert`: the new pair's position in the leaf that
      holds it after a possible split. */
  function InsertedPos(leaf: seq<Entry>, e: Entry): nat
  {
    var pos := LowerBound(leaf, e.price);
    var l := InsertSorted(leaf, e);
    if |l| > LEAF_MAX && e.price >= l[|l| / 2].price then LowerBound(l[|l| / 2..], e.price) else pos
  }

  /** `inserted_pos` is where the new pair sits in the leaf that holds it. */
  lemma InsertedPosSpec(leaf: seq<Entry>, e: Entry)
    requires Increasing(leaf) && !HasKey(leaf, e.price) && |leaf| <= LEAF_MAX
    ensures InsertedPos(leaf, e) < |LeafAfter(leaf, e)| && LeafAfter(leaf, e)[InsertedPos(leaf, e)] == e
  {
    var p := e.price;
    var pos := LowerBound(leaf, p);
    var l := InsertSorted(leaf, e);
    InsertSortedFacts(leaf, e, None, None);
    assert l[pos] == e;
    if |l| > LEAF_MAX {
      var split := |l| / 2;
      if p >= l[split].price {
        assert pos >= split;
        var right := l[split..];
        forall j | 0 <= j < pos - split
          ensures right[j].price < p
        {
          assert right[j] == l[split + j] && l[split + j].price < l[pos].price;
        }
        assert right[pos - split] == e;
        LowerBoundIs(right, p, pos - split);
      } else {
        assert pos < split;
        assert l[..split][pos] == e;
      }
    }
  }
}
