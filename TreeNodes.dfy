/** The nodes of the `PriceLevelTree` of impl/include/impl/price_level_tree.hpp,
    a B+ tree from int32 prices to level ids. A leaf holds up to 40 sorted
    (price, level) pairs; an internal node holds up to 40 separator keys and
    one more child than keys. The leaf chain of the source (`next`/`prev`
    between leaves, `leftmost_`/`rightmost_`) is the in-order sequence of
    leaves, [`Leaves`], and the tree's contents are the pairs met along it,
    [`Entries`]. */
module TreeNodes {
  import opened Common

  const LEAF_MAX: nat := 40
  const INTERNAL_MAX: nat := 40

  /** One key/value slot of a leaf: `keys[i]` and `values[i]`. */
  datatype Entry = Entry(price: int, level: nat)

  datatype Node = Leaf(entries: seq<Entry>) | Internal(keys: seq<int>, children: seq<Node>)

  // ------------------------------------------------------- leaf chain

  /** The pairs of a subtree, leaf by leaf from the leftmost. */
  function Entries(n: Node): seq<Entry>
    decreases n, 1
  {
    match n
    case Leaf(es) => es
    case Internal(_, cs) => EntriesOf(cs)
  }

  function EntriesOf(cs: seq<Node>): seq<Entry>
    decreases cs, 0
  {
    if cs == [] then [] else EntriesOf(cs[..|cs| - 1]) + Entries(cs[|cs| - 1])
  }

  /** The leaves of a subtree from left to right: the leaf chain. */
  function Leaves(n: Node): seq<seq<Entry>>
    decreases n, 1
  {
    match n
    case Leaf(es) => [es]
    case Internal(_, cs) => LeavesOf(cs)
  }

  function LeavesOf(cs: seq<Node>): seq<seq<Entry>>
    decreases cs, 0
  {
    if cs == [] then [] else LeavesOf(cs[..|cs| - 1]) + Leaves(cs[|cs| - 1])
  }

  function Flatten(ls: seq<seq<Entry>>): seq<Entry>
  {
    if ls == [] then [] else Flatten(ls[..|ls| - 1]) + ls[|ls| - 1]
  }

  lemma {:induction false} EntriesOfCat(a: seq<Node>, b: seq<Node>)
    ensures EntriesOf(a + b) == EntriesOf(a) + EntriesOf(b)
    ensures LeavesOf(a + b) == LeavesOf(a) + LeavesOf(b)
    decreases |b|
  {
    if b == [] {
      assert a + b == a;
    } else {
      var c, init, last := a + b, b[..|b| - 1], b[|b| - 1];
      assert c[..|c| - 1] == a + init && c[|c| - 1] == last;
      EntriesOfCat(a, init);
      calc {
        EntriesOf(c);
        EntriesOf(a + init) + Entries(last);
        (EntriesOf(a) + EntriesOf(init)) + Entries(last);
        EntriesOf(a) + (EntriesOf(init) + Entries(last));
        EntriesOf(a) + EntriesOf(b);
      }
      calc {
        LeavesOf(c);
        LeavesOf(a + init) + Leaves(last);
        (LeavesOf(a) + LeavesOf(init)) + Leaves(last);
        LeavesOf(a) + (LeavesOf(init) + Leaves(last));
        LeavesOf(a) + LeavesOf(b);
      }
    }
  }

  lemma {:induction false} FlattenCat(a: seq<seq<Entry>>, b: seq<seq<Entry>>)
    ensures Flatten(a + b) == Flatten(a) + Flatten(b)
    decreases |b|
  {
    if b == [] {
      assert a + b == a;
    } else {
      var c, init, last := a + b, b[..|b| - 1], b[|b| - 1];
      assert c[..|c| - 1] == a + init && c[|c| - 1] == last;
      FlattenCat(a, init);
      calc {
        Flatten(c);
        Flatten(a + init) + last;
        (Flatten(a) + Flatten(init)) + last;
        Flatten(a) + (Flatten(init) + last);
        Flatten(a) + Flatten(b);
      }
    }
  }

  lemma SeqAround<T>(s: seq<T>, i: nat)
    requires i < |s|
    ensures s == (s[..i] + [s[i]]) + s[i + 1..]
  {
  }

  lemma Regroup<T>(a: seq<T>, b: seq<T>, c: seq<T>, d: seq<T>, e: seq<T>)
    ensures a + (b + c + d) + e == (a + b) + c + (d + e)
  {
  }

  lemma EntriesOfOne(c: Node)
    ensures EntriesOf([c]) == Entries(c) && LeavesOf([c]) == Leaves(c)
  {
    assert [c][..0] == [];
  }

  /** Child `i` splits the children's pairs into before, its own and after. */
  lemma EntriesAround(cs: seq<Node>, i: nat)
    requires i < |cs|
    ensures EntriesOf(cs) == EntriesOf(cs[..i]) + Entries(cs[i]) + EntriesOf(cs[i + 1..])
    ensures LeavesOf(cs) == LeavesOf(cs[..i]) + Leaves(cs[i]) + LeavesOf(cs[i + 1..])
  {
    var a, c, b := cs[..i], cs[i], cs[i + 1..];
    SeqAround(cs, i);
    EntriesOfCat(a + [c], b);
    EntriesOfCat(a, [c]);
    EntriesOfOne(c);
  }

  /** Reading the leaf chain pair by pair gives the tree's pairs. */
  lemma {:induction false} ChainIsEntries(n: Node)
    ensures Flatten(Leaves(n)) == Entries(n)
    decreases n, 1
  {
    match n
    case Leaf(es) =>
      assert [es][..0] == [];
    case Internal(_, cs) =>
      ChainIsEntriesOf(cs);
  }

  lemma {:induction false} ChainIsEntriesOf(cs: seq<Node>)
    ensures Flatten(LeavesOf(cs)) == EntriesOf(cs)
    decreases cs, 0
  {
    if cs != [] {
      ChainIsEntriesOf(cs[..|cs| - 1]);
      ChainIsEntries(cs[|cs| - 1]);
      FlattenCat(LeavesOf(cs[..|cs| - 1]), Leaves(cs[|cs| - 1]));
    }
  }

  // ----------------------------------------------------------- bounds

  predicate AtLeast(k: int, lo: Option<int>) { lo.None? || lo.value <= k }
  predicate Above(k: int, lo: Option<int>) { lo.None? || lo.value < k }
  predicate Below(k: int, hi: Option<int>) { hi.None? || k < hi.value }

  /** Every pair's price lies in `[lo, hi)`. */
  ghost predicate AllIn(es: seq<Entry>, lo: Option<int>, hi: Option<int>)
  {
    forall i :: 0 <= i < |es| ==> AtLeast(es[i].price, lo) && Below(es[i].price, hi)
  }

  ghost predicate Increasing(es: seq<Entry>)
  {
    forall i, j :: 0 <= i < j < |es| ==> es[i].price < es[j].price
  }

  ghost predicate KeysIncreasing(ks: seq<int>)
  {
    forall i, j :: 0 <= i < j < |ks| ==> ks[i] < ks[j]
  }

  /** The bounds of child `i`: separator `i - 1` below, separator `i`
      above, the node's own bounds at the ends. */
  function ChildLo(ks: seq<int>, lo: Option<int>, i: nat): Option<int>
    requires i <= |ks|
  {
    if i == 0 then lo else Some(ks[i - 1])
  }

  function ChildHi(ks: seq<int>, hi: Option<int>, i: nat): Option<int>
    requires i <= |ks|
  {
    if i == |ks| then hi else Some(ks[i])
  }

  /** A well-formed subtree for prices in `[lo, hi)`: a leaf holds at most
      40 pairs in strictly increasing price order, all in range; an
      internal node holds at most 40 strictly increasing separators inside
      `(lo, hi)` and one child more, child `i` well formed for the prices
      from separator `i - 1` up to separator `i`. */
  ghost predicate WF(n: Node, lo: Option<int>, hi: Option<int>)
    decreases n
  {
    match n
    case Leaf(es) => |es| <= LEAF_MAX && Increasing(es) && AllIn(es, lo, hi)
    case Internal(ks, cs) =>
      && |cs| == |ks| + 1 && |ks| <= INTERNAL_MAX
      && KeysIncreasing(ks)
      && (forall i :: 0 <= i < |ks| ==> Above(ks[i], lo) && Below(ks[i], hi))
      && (forall i :: 0 <= i < |cs| ==> WF(cs[i], ChildLo(ks, lo, i), ChildHi(ks, hi, i)))
  }

  /** Every internal node has one child more than it has keys. */
  ghost predicate Shaped(n: Node)
    decreases n
  {
    match n
    case Leaf(_) => true
    case Internal(ks, cs) => |cs| == |ks| + 1 && forall i :: 0 <= i < |cs| ==> Shaped(cs[i])
  }

  lemma {:induction false} WFShaped(n: Node, lo: Option<int>, hi: Option<int>)
    requires WF(n, lo, hi)
    ensures Shaped(n)
    decreases n
  {
    if n.Internal? {
      forall i | 0 <= i < |n.children|
        ensures Shaped(n.children[i])
      {
        WFShaped(n.children[i], ChildLo(n.keys, lo, i), ChildHi(n.keys, hi, i));
      }
    }
  }

  /** `lo2` is no tighter a lower bound than `lo`, `hi2` no tighter an
      upper bound than `hi`. */
  predicate LooserLo(lo2: Option<int>, lo: Option<int>) { lo2.None? || (lo.Some? && lo2.value <= lo.value) }
  predicate LooserHi(hi2: Option<int>, hi: Option<int>) { hi2.None? || (hi.Some? && hi.value <= hi2.value) }

  /** A subtree well formed for a range is well formed for any wider one. */
  lemma {:induction false} Widen(n: Node, lo: Option<int>, hi: Option<int>, lo2: Option<int>, hi2: Option<int>)
    requires WF(n, lo, hi) && LooserLo(lo2, lo) && LooserHi(hi2, hi)
    ensures WF(n, lo2, hi2)
    decreases n
  {
    if n.Internal? {
      var ks, cs := n.keys, n.children;
      forall i | 0 <= i < |cs|
        ensures WF(cs[i], ChildLo(ks, lo2, i), ChildHi(ks, hi2, i))
      {
        Widen(cs[i], ChildLo(ks, lo, i), ChildHi(ks, hi, i), ChildLo(ks, lo2, i), ChildHi(ks, hi2, i));
      }
    }
  }

  /** The pairs of a well-formed subtree are in range and strictly
      increasing along the leaf chain. */
  lemma {:induction false} EntriesWF(n: Node, lo: Option<int>, hi: Option<int>)
    requires WF(n, lo, hi)
    ensures AllIn(Entries(n), lo, hi) && Increasing(Entries(n))
    decreases n
  {
    if n.Internal? {
      var ks, cs := n.keys, n.children;
      forall i | 0 <= i < |cs|
        ensures AllIn(Entries(cs[i]), ChildLo(ks, lo, i), ChildHi(ks, hi, i)) && Increasing(Entries(cs[i]))
      {
        EntriesWF(cs[i], ChildLo(ks, lo, i), ChildHi(ks, hi, i));
      }
      ChildrenPrefix(ks, cs, lo, hi, |cs|);
      assert cs[..|cs|] == cs;
    }
  }

  /** The first `j` children of a well-formed node hold strictly
      increasing pairs, from `lo` up to the upper bound of child `j - 1`. */
  lemma {:induction false} ChildrenPrefix(ks: seq<int>, cs: seq<Node>, lo: Option<int>, hi: Option<int>, j: nat)
    requires |cs| == |ks| + 1 && KeysIncreasing(ks)
    requires forall i :: 0 <= i < |ks| ==> Above(ks[i], lo) && Below(ks[i], hi)
    requires forall i :: 0 <= i < |cs| ==> AllIn(Entries(cs[i]), ChildLo(ks, lo, i), ChildHi(ks, hi, i)) && Increasing(Entries(cs[i]))
    requires 1 <= j <= |cs|
    ensures Increasing(EntriesOf(cs[..j])) && AllIn(EntriesOf(cs[..j]), lo, ChildHi(ks, hi, j - 1))
  {
    var e := Entries(cs[j - 1]);
    assert cs[..j][..j - 1] == cs[..j - 1];
    if j == 1 {
      assert EntriesOf(cs[..1]) == EntriesOf([]) + e;
    } else {
      ChildrenPrefix(ks, cs, lo, hi, j - 1);
      var a := EntriesOf(cs[..j - 1]);
      assert EntriesOf(cs[..j]) == a + e;
      var k := ks[j - 2];
      assert forall x :: 0 <= x < |a| ==> a[x].price < k;
      assert forall y :: 0 <= y < |e| ==> k <= e[y].price;
      forall y | 0 <= y < |e|
        ensures AtLeast(e[y].price, lo) && Below(e[y].price, ChildHi(ks, hi, j - 1))
      {
      }
      forall x | 0 <= x < |a|
        ensures Below(a[x].price, ChildHi(ks, hi, j - 1))
      {
        if j - 1 < |ks| {
          assert ks[j - 2] < ks[j - 1];
        }
      }
    }
  }

  // ---------------------------------------------------------- searches

  /** `std::upper_bound` over an internal node's keys: the first key above
      `p`, which is the index of the child to descend into. */
  function UpperBound(ks: seq<int>, p: int): (i: nat)
    ensures i <= |ks| && (forall j :: 0 <= j < i ==> ks[j] <= p) && (i < |ks| ==> p < ks[i])
  {
    if ks == [] || p < ks[0] then 0 else 1 + UpperBound(ks[1..], p)
  }

  /** `std::lower_bound` over a leaf's keys: the first pair not below `p`. */
  function LowerBound(es: seq<Entry>, p: int): (i: nat)
    ensures i <= |es| && (forall j :: 0 <= j < i ==> es[j].price < p) && (i < |es| ==> p <= es[i].price)
  {
    if es == [] || p <= es[0].price then 0 else 1 + LowerBound(es[1..], p)
  }

  /** Some pair has price `p`. */
  ghost predicate HasKey(es: seq<Entry>, p: int)
  {
    exists i :: 0 <= i < |es| && es[i].price == p
  }

  /** `findLeaf`: descend from the root through the child `upperBound`
      picks, down to a leaf. */
  function RouteLeaf(n: Node, p: int): (leaf: seq<Entry>)
    requires Shaped(n)
    decreases n
  {
    match n
    case Leaf(es) => es
    case Internal(ks, cs) => RouteLeaf(cs[UpperBound(ks, p)], p)
  }

  /** The pairs along the chain before and after the leaf `p` is routed to. */
  ghost function Before(n: Node, p: int): seq<Entry>
    requires Shaped(n)
    decreases n
  {
    match n
    case Leaf(_) => []
    case Internal(ks, cs) =>
      var i := UpperBound(ks, p);
      EntriesOf(cs[..i]) + Before(cs[i], p)
  }

  ghost function After(n: Node, p: int): seq<Entry>
    requires Shaped(n)
    decreases n
  {
    match n
    case Leaf(_) => []
    case Internal(ks, cs) =>
      var i := UpperBound(ks, p);
      After(cs[i], p) + EntriesOf(cs[i + 1..])
  }

  /** The routed leaf sits in the chain between the pairs before and after it. */
  lemma {:induction false} RouteAround(n: Node, p: int)
    requires Shaped(n)
    ensures Entries(n) == Before(n, p) + RouteLeaf(n, p) + After(n, p)
    decreases n
  {
    if n.Internal? {
      var ks, cs := n.keys, n.children;
      var i := UpperBound(ks, p);
      RouteAround(cs[i], p);
      EntriesAround(cs, i);
    }
  }

  /** In a well-formed subtree every pair before the routed leaf is below
      `p` and every pair after it is above `p`; the routed leaf itself is a
      well-formed leaf of the subtree's range. */
  lemma {:induction false} RouteSeparates(n: Node, lo: Option<int>, hi: Option<int>, p: int)
    requires WF(n, lo, hi)
    ensures Shaped(n)
    ensures forall x :: 0 <= x < |Before(n, p)| ==> Before(n, p)[x].price < p
    ensures forall y :: 0 <= y < |After(n, p)| ==> p < After(n, p)[y].price
    ensures WF(Leaf(RouteLeaf(n, p)), lo, hi)
    decreases n
  {
    WFShaped(n, lo, hi);
    if n.Internal? {
      var ks, cs := n.keys, n.children;
      var i := UpperBound(ks, p);
      RouteSeparates(cs[i], ChildLo(ks, lo, i), ChildHi(ks, hi, i), p);
      Widen(Leaf(RouteLeaf(cs[i], p)), ChildLo(ks, lo, i), ChildHi(ks, hi, i), lo, hi);
      forall j | 0 <= j < |cs|
        ensures AllIn(Entries(cs[j]), ChildLo(ks, lo, j), ChildHi(ks, hi, j)) && Increasing(Entries(cs[j]))
      {
        EntriesWF(cs[j], ChildLo(ks, lo, j), ChildHi(ks, hi, j));
      }
      if i > 0 {
        ChildrenPrefix(ks, cs, lo, hi, i);
      }
      assert forall x :: 0 <= x < |EntriesOf(cs[..i])| ==> EntriesOf(cs[..i])[x].price < p;
      BelowCat(EntriesOf(cs[..i]), Before(cs[i], p), p);
      SuffixAbove(ks, cs, lo, hi, i + 1);
      AboveCat(After(cs[i], p), EntriesOf(cs[i + 1..]), p);
    }
  }

  lemma BelowCat(a: seq<Entry>, b: seq<Entry>, p: int)
    requires forall x :: 0 <= x < |a| ==> a[x].price < p
    requires forall x :: 0 <= x < |b| ==> b[x].price < p
    ensures forall x :: 0 <= x < |a + b| ==> (a + b)[x].price < p
  {
  }

  lemma AboveCat(a: seq<Entry>, b: seq<Entry>, p: int)
    requires forall x :: 0 <= x < |a| ==> p < a[x].price
    requires forall x :: 0 <= x < |b| ==> p < b[x].price
    ensures forall x :: 0 <= x < |a + b| ==> p < (a + b)[x].price
  {
  }

  /** The children from `j` on hold only prices from separator `j - 1` up. */
  lemma {:induction false} SuffixAbove(ks: seq<int>, cs: seq<Node>, lo: Option<int>, hi: Option<int>, j: nat)
    requires |cs| == |ks| + 1 && KeysIncreasing(ks)
    requires forall i :: 0 <= i < |cs| ==> AllIn(Entries(cs[i]), ChildLo(ks, lo, i), ChildHi(ks, hi, i))
    requires 1 <= j <= |cs|
    ensures forall y :: 0 <= y < |EntriesOf(cs[j..])| ==> ks[j - 1] <= EntriesOf(cs[j..])[y].price
    decreases |cs| - j
  {
    if j < |cs| {
      SuffixAbove(ks, cs, lo, hi, j + 1);
      assert cs[j..] == [cs[j]] + cs[j + 1..];
      EntriesOfCat([cs[j]], cs[j + 1..]);
      assert [cs[j]][..0] == [];
      var e := Entries(cs[j]);
      assert forall y :: 0 <= y < |e| ==> ks[j - 1] <= e[y].price;
      if j + 1 < |cs| {
        assert ks[j - 1] < ks[j];
      }
    } else {
      assert cs[j..] == [];
    }
  }

  /** A sorted run between pairs below `p` and pairs above `p` holds `p`
      exactly when the whole does, at its `lower_bound`. */
  lemma KeyBetween(A: seq<Entry>, L: seq<Entry>, C: seq<Entry>, p: int)
    requires forall x :: 0 <= x < |A| ==> A[x].price < p
    requires forall y :: 0 <= y < |C| ==> p < C[y].price
    requires Increasing(L)
    ensures HasKey(A + L + C, p) <==> HasKey(L, p)
    ensures var k := LowerBound(L, p); HasKey(L, p) <==> k < |L| && L[k].price == p
    ensures var k := LowerBound(L, p); k < |L| ==> L[k] in A + L + C
  {
    var k := LowerBound(L, p);
    if HasKey(A + L + C, p) {
      var x :| 0 <= x < |A + L + C| && (A + L + C)[x].price == p;
      assert |A| <= x < |A| + |L|;
      assert L[x - |A|].price == p;
    }
    if HasKey(L, p) {
      var x :| 0 <= x < |L| && L[x].price == p;
      assert (A + L + C)[|A| + x] == L[x];
      assert x == k;
    }
    if k < |L| {
      assert (A + L + C)[|A| + k] == L[k];
    }
  }

  /** The routed leaf holds `p` exactly when the subtree does, and it is
      where `lower_bound` in that leaf finds it. */
  lemma RouteFinds(n: Node, lo: Option<int>, hi: Option<int>, p: int)
    requires WF(n, lo, hi)
    ensures Shaped(n)
    ensures HasKey(Entries(n), p) <==> HasKey(RouteLeaf(n, p), p)
    ensures var leaf := RouteLeaf(n, p); var k := LowerBound(leaf, p);
      HasKey(leaf, p) <==> k < |leaf| && leaf[k].price == p
    ensures var leaf := RouteLeaf(n, p); var k := LowerBound(leaf, p);
      k < |leaf| ==> leaf[k] in Entries(n)
  {
    RouteSeparates(n, lo, hi, p);
    RouteAround(n, p);
    KeyBetween(Before(n, p), RouteLeaf(n, p), After(n, p), p);
  }
}
