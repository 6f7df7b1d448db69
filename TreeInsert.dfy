/** `PriceLevelTree::insert` below the root (impl/include/impl/price_level_tree.hpp):
    the pair goes into the leaf `findLeaf` picks, at its `lower_bound`; a
    leaf that reaches 41 pairs splits into 20 and 21 and hands the first
    price of the right half to its parent; a parent that reaches 41 keys
    splits around its middle key and hands that key up; a split root
    gets a new root of one key. */
module TreeInsert {
  import opened Common
  import opened TreeNodes

  /** `insertIntoLeaf` at the `lower_bound` of the new price; as a map from
      the chain's pairs, the sorted insert. */
  function InsertSorted(es: seq<Entry>, e: Entry): seq<Entry>
  {
    var k := LowerBound(es, e.price);
    es[..k] + [e] + es[k..]
  }

  /** Inserting a new price keeps the run strictly increasing and in
      range, and adds exactly that price. */
  lemma InsertSortedFacts(es: seq<Entry>, e: Entry, lo: Option<int>, hi: Option<int>)
    requires Increasing(es) && AllIn(es, lo, hi) && !HasKey(es, e.price)
    requires AtLeast(e.price, lo) && Below(e.price, hi)
    ensures Increasing(InsertSorted(es, e)) && AllIn(InsertSorted(es, e), lo, hi)
    ensures |InsertSorted(es, e)| == |es| + 1
  {
    var k := LowerBound(es, e.price);
    var r := InsertSorted(es, e);
    assert |r| == |es| + 1;
    if k < |es| {
      assert es[k].price != e.price;
    }
    forall i | 0 <= i < |r|
      ensures r[i] == if i < k then es[i] else if i == k then e else es[i - 1]
    {
    }
    forall i, j | 0 <= i < j < |r|
      ensures r[i].price < r[j].price
    {
      if i == k && j - 1 > k {
        assert es[k].price < es[j - 1].price;
      }
    }
    forall i | 0 <= i < |r|
      ensures AtLeast(r[i].price, lo) && Below(r[i].price, hi)
    {
    }
  }

  /** The keys of an insert: exactly the old ones and the new one. */
  lemma InsertSortedKeys(es: seq<Entry>, e: Entry, q: int)
    ensures HasKey(InsertSorted(es, e), q) <==> q == e.price || HasKey(es, q)
    ensures e in InsertSorted(es, e)
  {
    var k := LowerBound(es, e.price);
    var r := InsertSorted(es, e);
    assert r[k] == e;
    if HasKey(es, q) {
      var x :| 0 <= x < |es| && es[x].price == q;
      if x < k {
        assert r[x] == es[x];
      } else {
        assert r[x + 1] == es[x];
      }
    }
    if HasKey(r, q) {
      var x :| 0 <= x < |r| && r[x].price == q;
      if x < k {
        assert r[x] == es[x];
      } else if k < x {
        assert r[x] == es[x - 1];
      }
    }
  }

  /** `lower_bound` is the first index not below `p`, wherever it is met. */
  lemma LowerBoundIs(s: seq<Entry>, p: int, m: nat)
    requires m <= |s| && (forall j :: 0 <= j < m ==> s[j].price < p) && (m < |s| ==> p <= s[m].price)
    ensures LowerBound(s, p) == m
  {
  }

  /** Inserting into a run between smaller and larger pairs inserts into
      the whole. */
  lemma InsertInside(A: seq<Entry>, X: seq<Entry>, C: seq<Entry>, e: Entry)
    requires forall x :: 0 <= x < |A| ==> A[x].price < e.price
    requires forall y :: 0 <= y < |C| ==> e.price < C[y].price
    ensures InsertSorted(A + X + C, e) == A + InsertSorted(X, e) + C
  {
    var s := A + X + C;
    var k := LowerBound(X, e.price);
    var m := |A| + k;
    forall j | 0 <= j < m
      ensures s[j].price < e.price
    {
      if j >= |A| {
        assert s[j] == X[j - |A|];
      }
    }
    if m < |s| {
      if k < |X| {
        assert s[m] == X[k];
      } else {
        assert s[m] == C[0];
      }
    }
    LowerBoundIs(s, e.price, m);
    assert s[..m] == A + X[..k];
    assert s[m..] == X[k..] + C;
  }

  // ----------------------------------------------------------- splits

  /** What inserting below a node hands back to its parent: the node
      itself, or two halves and the key between them. */
  datatype Ins = Fits(node: Node) | Split(left: Node, sep: int, right: Node)

  function InsEntries(r: Ins): seq<Entry>
  {
    match r
    case Fits(n) => Entries(n)
    case Split(l, _, rt) => Entries(l) + Entries(rt)
  }

  function InsLeafCount(r: Ins): nat
  {
    match r
    case Fits(n) => |Leaves(n)|
    case Split(l, _, rt) => |Leaves(l)| + |Leaves(rt)|
  }

  /** The result is well formed for `[lo, hi)`: one node, or halves split
      at a key strictly inside the range. */
  ghost predicate InsWF(r: Ins, lo: Option<int>, hi: Option<int>)
  {
    match r
    case Fits(n) => WF(n, lo, hi)
    case Split(l, k, rt) => Above(k, lo) && Below(k, hi) && WF(l, lo, Some(k)) && WF(rt, Some(k), hi)
  }

  /** `splitLeaf`: the first `total / 2` pairs stay, the rest move to the
      new right leaf, whose first price is the separator. */
  function SplitLeaf(es: seq<Entry>): (r: Ins)
    requires |es| >= 2
    ensures r.Split? && r.left.Leaf? && r.right.Leaf?
    ensures r.left.entries + r.right.entries == es
    ensures |r.left.entries| == |es| / 2 && r.sep == r.right.entries[0].price
  {
    var split := |es| / 2;
    assert es[..split] + es[split..] == es;
    Split(Leaf(es[..split]), es[split].price, Leaf(es[split..]))
  }

  /** `splitInternal`: with `mid = count / 2`, key `mid` is promoted, the
      keys and children before it stay, the rest move to the new node. */
  function SplitInternal(ks: seq<int>, cs: seq<Node>): (r: Ins)
    requires |cs| == |ks| + 1 && |ks| >= 1
    ensures r.Split? && r.left.Internal? && r.right.Internal?
    ensures r.left.keys + [r.sep] + r.right.keys == ks && r.left.children + r.right.children == cs
    ensures |r.left.keys| == |ks| / 2 && |r.left.children| == |r.left.keys| + 1
  {
    var mid := |ks| / 2;
    assert ks[..mid] + [ks[mid]] + ks[mid + 1..] == ks;
    assert cs[..mid + 1] + cs[mid + 1..] == cs;
    Split(Internal(ks[..mid], cs[..mid + 1]), ks[mid], Internal(ks[mid + 1..], cs[mid + 1..]))
  }

  /** A node that has grown past its capacity splits; any other stays. */
  function Settle(n: Node): Ins
  {
    match n
    case Leaf(es) => if |es| > LEAF_MAX then SplitLeaf(es) else Fits(n)
    case Internal(ks, cs) =>
      if |ks| > INTERNAL_MAX && |cs| == |ks| + 1 then SplitInternal(ks, cs) else Fits(n)
  }

  /** `insertIntoParent` at the child the insert went through: a child that
      fits replaces the old one; a split child's separator goes in at that
      child's index and its right half just after it. */
  function Reattach(ks: seq<int>, cs: seq<Node>, i: nat, r: Ins): Node
    requires i < |cs| && i <= |ks|
  {
    match r
    case Fits(c) => Internal(ks, cs[i := c])
    case Split(l, k, rt) => Internal(ks[..i] + [k] + ks[i..], cs[..i] + [l, rt] + cs[i + 1..])
  }

  /** Insert `e` below `n` along the route of its price. */
  function InsertRec(n: Node, e: Entry): Ins
    requires Shaped(n)
    decreases n
  {
    match n
    case Leaf(es) => Settle(Leaf(InsertSorted(es, e)))
    case Internal(ks, cs) =>
      var i := UpperBound(ks, e.price);
      Settle(Reattach(ks, cs, i, InsertRec(cs[i], e)))
  }

  /** A split root becomes the two children of a new root of one key. */
  function Grow(r: Ins): Node
  {
    match r
    case Fits(n) => n
    case Split(l, k, rt) => Internal([k], [l, rt])
  }

  // ------------------------------------------------------ bookkeeping

  /** Splitting moves pairs, never changes them; a leaf split adds the
      one new leaf. */
  lemma SettleKeeps(n: Node)
    ensures InsEntries(Settle(n)) == Entries(n)
    ensures InsLeafCount(Settle(n)) == |Leaves(n)| + if n.Leaf? && |n.entries| > LEAF_MAX then 1 else 0
  {
    match n
    case Leaf(es) =>
    case Internal(ks, cs) =>
      if |ks| > INTERNAL_MAX && |cs| == |ks| + 1 {
        var mid := |ks| / 2;
        assert cs == cs[..mid + 1] + cs[mid + 1..];
        EntriesOfCat(cs[..mid + 1], cs[mid + 1..]);
      }
  }

  /** Reattaching replaces the child's pairs and leaves by the result's. */
  lemma ReattachKeeps(ks: seq<int>, cs: seq<Node>, i: nat, r: Ins)
    requires i < |cs| && i <= |ks|
    ensures Entries(Reattach(ks, cs, i, r)) == EntriesOf(cs[..i]) + InsEntries(r) + EntriesOf(cs[i + 1..])
    ensures |Leaves(Reattach(ks, cs, i, r))| == |LeavesOf(cs[..i])| + InsLeafCount(r) + |LeavesOf(cs[i + 1..])|
  {
    match r
    case Fits(c) =>
      var cs2 := cs[i := c];
      EntriesAround(cs2, i);
      assert cs2[..i] == cs[..i] && cs2[i + 1..] == cs[i + 1..];
    case Split(l, k, rt) =>
      var cs2 := cs[..i] + [l, rt] + cs[i + 1..];
      assert cs2 == cs[..i] + ([l] + [rt]) + cs[i + 1..];
      EntriesOfCat(cs[..i] + ([l] + [rt]), cs[i + 1..]);
      EntriesOfCat(cs[..i], [l] + [rt]);
      EntriesOfCat([l], [rt]);
      EntriesOfOne(l);
      EntriesOfOne(rt);
  }

  // ------------------------------------------------------ well-formedness

  /** Well formed except that the node itself may hold one item more than
      its capacity: the state between an insert and its split. */
  ghost predicate Fat(n: Node, lo: Option<int>, hi: Option<int>)
  {
    match n
    case Leaf(es) => |es| <= LEAF_MAX + 1 && Increasing(es) && AllIn(es, lo, hi)
    case Internal(ks, cs) =>
      && |cs| == |ks| + 1 && |ks| <= INTERNAL_MAX + 1
      && KeysIncreasing(ks)
      && (forall i :: 0 <= i < |ks| ==> Above(ks[i], lo) && Below(ks[i], hi))
      && (forall i :: 0 <= i < |cs| ==> WF(cs[i], ChildLo(ks, lo, i), ChildHi(ks, hi, i)))
  }

  /** A leaf of 41 pairs splits into two well-formed leaves around the
      first price of the right one. */
  lemma SplitLeafWF(es: seq<Entry>, lo: Option<int>, hi: Option<int>)
    requires |es| == LEAF_MAX + 1 && Increasing(es) && AllIn(es, lo, hi)
    ensures InsWF(SplitLeaf(es), lo, hi)
  {
    var split := |es| / 2;
    var k := es[split].price;
    assert es[0].price < k;
    var left, right := es[..split], es[split..];
    assert forall x :: 0 <= x < |left| ==> left[x] == es[x];
    assert forall y :: 0 <= y < |right| ==> right[y] == es[split + y];
    assert AllIn(left, lo, Some(k));
    assert AllIn(right, Some(k), hi) by {
      forall y | 0 <= y < |right|
        ensures AtLeast(right[y].price, Some(k))
      {
        if y > 0 {
          assert es[split].price < es[split + y].price;
        }
      }
    }
  }

  /** An internal node of 41 keys splits into two well-formed nodes around
      its middle key. */
  lemma SplitInternalWF(ks: seq<int>, cs: seq<Node>, lo: Option<int>, hi: Option<int>)
    requires Fat(Internal(ks, cs), lo, hi) && |ks| == INTERNAL_MAX + 1
    ensures InsWF(SplitInternal(ks, cs), lo, hi)
  {
    var mid := |ks| / 2;
    var r := SplitInternal(ks, cs);
    SliceWF(ks, cs, lo, hi, 0, mid);
    SliceWF(ks, cs, lo, hi, mid + 1, |ks|);
    assert r.left == Internal(ks[0..mid], cs[0..mid + 1]);
    assert r.right == Internal(ks[mid + 1..|ks|], cs[mid + 1..|ks| + 1]);
    assert r.sep == ks[mid] && Above(ks[mid], lo) && Below(ks[mid], hi);
  }

  /** Keys `a .. b-1` of a node and the children between them form a
      well-formed node for the range those children span. */
  lemma SliceWF(ks: seq<int>, cs: seq<Node>, lo: Option<int>, hi: Option<int>, a: nat, b: nat)
    requires Fat(Internal(ks, cs), lo, hi) && a <= b <= |ks| && b - a <= INTERNAL_MAX
    ensures WF(Internal(ks[a..b], cs[a..b + 1]), ChildLo(ks, lo, a), ChildHi(ks, hi, b))
  {
    var sk, sc := ks[a..b], cs[a..b + 1];
    var lo2, hi2 := ChildLo(ks, lo, a), ChildHi(ks, hi, b);
    forall j | 0 <= j < |sc|
      ensures WF(sc[j], ChildLo(sk, lo2, j), ChildHi(sk, hi2, j))
    {
      assert sc[j] == cs[a + j];
      assert ChildLo(sk, lo2, j) == ChildLo(ks, lo, a + j);
      assert ChildHi(sk, hi2, j) == ChildHi(ks, hi, a + j);
    }
    forall x | 0 <= x < |sk|
      ensures Above(sk[x], lo2) && Below(sk[x], hi2)
    {
      assert sk[x] == ks[a + x];
      if a > 0 {
        assert ks[a - 1] < ks[a + x];
      }
      if b < |ks| {
        assert ks[a + x] < ks[b];
      }
    }
  }

  /** A node grown by at most one item settles into a well-formed result. */
  lemma SettleWF(n: Node, lo: Option<int>, hi: Option<int>)
    requires Fat(n, lo, hi)
    ensures InsWF(Settle(n), lo, hi)
  {
    match n
    case Leaf(es) =>
      if |es| > LEAF_MAX {
        SplitLeafWF(es, lo, hi);
      }
    case Internal(ks, cs) =>
      if |ks| > INTERNAL_MAX {
        SplitInternalWF(ks, cs, lo, hi);
      }
  }

  /** Reattaching a well-formed result for child `i`'s range leaves the
      parent well formed but for its own capacity. */
  lemma ReattachWF(ks: seq<int>, cs: seq<Node>, lo: Option<int>, hi: Option<int>, i: nat, r: Ins)
    requires WF(Internal(ks, cs), lo, hi) && i <= |ks|
    requires InsWF(r, ChildLo(ks, lo, i), ChildHi(ks, hi, i))
    ensures Fat(Reattach(ks, cs, i, r), lo, hi)
  {
    match r
    case Fits(c) =>
      var cs2 := cs[i := c];
      forall j | 0 <= j < |cs2|
        ensures WF(cs2[j], ChildLo(ks, lo, j), ChildHi(ks, hi, j))
      {
        if j != i {
          assert cs2[j] == cs[j];
        }
      }
    case Split(l, k, rt) =>
      ReattachSplitWF(ks, cs, lo, hi, i, l, k, rt);
  }

  lemma ReattachSplitWF(ks: seq<int>, cs: seq<Node>, lo: Option<int>, hi: Option<int>, i: nat,
                        l: Node, k: int, rt: Node)
    requires WF(Internal(ks, cs), lo, hi) && i <= |ks|
    requires InsWF(Split(l, k, rt), ChildLo(ks, lo, i), ChildHi(ks, hi, i))
    ensures Fat(Reattach(ks, cs, i, Split(l, k, rt)), lo, hi)
  {
    KeysInsertWF(ks, lo, hi, i, k);
    ChildrenInsertWF(ks, cs, lo, hi, i, l, k, rt);
  }

  /** A key strictly between the bounds of child `i` goes in at index `i`
      without breaking the order or the node's range. */
  lemma KeysInsertWF(ks: seq<int>, lo: Option<int>, hi: Option<int>, i: nat, k: int)
    requires KeysIncreasing(ks) && (forall x :: 0 <= x < |ks| ==> Above(ks[x], lo) && Below(ks[x], hi))
    requires i <= |ks| && Above(k, ChildLo(ks, lo, i)) && Below(k, ChildHi(ks, hi, i))
    ensures var ks2 := ks[..i] + [k] + ks[i..];
      KeysIncreasing(ks2) && forall x :: 0 <= x < |ks2| ==> Above(ks2[x], lo) && Below(ks2[x], hi)
  {
    KeysInsertOrdered(ks, i, k);
    assert Above(k, lo) && Below(k, hi) by {
      if i > 0 {
        assert Above(ks[i - 1], lo);
      }
      if i < |ks| {
        assert Below(ks[i], hi);
      }
    }
    var ks2 := ks[..i] + [k] + ks[i..];
    assert forall j :: 0 <= j < i ==> ks2[j] == ks[j];
    assert forall j :: i < j < |ks2| ==> ks2[j] == ks[j - 1];
  }

  lemma KeysInsertOrdered(ks: seq<int>, i: nat, k: int)
    requires KeysIncreasing(ks) && i <= |ks|
    requires (i > 0 ==> ks[i - 1] < k) && (i < |ks| ==> k < ks[i])
    ensures KeysIncreasing(ks[..i] + [k] + ks[i..])
  {
    var ks2 := ks[..i] + [k] + ks[i..];
    assert forall j :: 0 <= j < i ==> ks2[j] == ks[j];
    assert ks2[i] == k;
    assert forall j :: i < j < |ks2| ==> ks2[j] == ks[j - 1];
    forall a, b | 0 <= a < b < |ks2|
      ensures ks2[a] < ks2[b]
    {
      if b < i || a > i {
      } else if a == i {
        if b > i + 1 {
          assert ks[i] < ks[b - 1];
        }
      } else if b == i {
        if a < i - 1 {
          assert ks[a] < ks[i - 1];
        }
      } else {
        assert ks[a] < ks[b - 1];
      }
    }
  }

  /** The two halves of a split child take its place, each with the part
      of its range on its side of the new key. */
  lemma ChildrenInsertWF(ks: seq<int>, cs: seq<Node>, lo: Option<int>, hi: Option<int>, i: nat,
                         l: Node, k: int, rt: Node)
    requires |cs| == |ks| + 1 && i <= |ks|
    requires forall j :: 0 <= j < |cs| ==> WF(cs[j], ChildLo(ks, lo, j), ChildHi(ks, hi, j))
    requires WF(l, ChildLo(ks, lo, i), Some(k)) && WF(rt, Some(k), ChildHi(ks, hi, i))
    ensures var ks2, cs2 := ks[..i] + [k] + ks[i..], cs[..i] + [l, rt] + cs[i + 1..];
      forall j :: 0 <= j < |cs2| ==> WF(cs2[j], ChildLo(ks2, lo, j), ChildHi(ks2, hi, j))
  {
    var ks2 := ks[..i] + [k] + ks[i..];
    var cs2 := cs[..i] + [l, rt] + cs[i + 1..];
    forall j | 0 <= j < |cs2|
      ensures WF(cs2[j], ChildLo(ks2, lo, j), ChildHi(ks2, hi, j))
    {
      if j < i {
        assert cs2[j] == cs[j] && ks2[j] == ks[j];
        assert ChildLo(ks2, lo, j) == ChildLo(ks, lo, j);
      } else if j == i {
        assert cs2[j] == l && ks2[i] == k;
      } else if j == i + 1 {
        assert cs2[j] == rt && ks2[i] == k;
        assert ChildHi(ks2, hi, j) == ChildHi(ks, hi, i);
      } else {
        assert cs2[j] == cs[j - 1] && ks2[j - 1] == ks[j - 2];
        assert ChildLo(ks2, lo, j) == ChildLo(ks, lo, j - 1) && ChildHi(ks2, hi, j) == ChildHi(ks, hi, j - 1);
      }
    }
  }

  // ------------------------------------------------------------ insert

  lemma HasKeyInside(A: seq<Entry>, X: seq<Entry>, C: seq<Entry>, p: int)
    requires HasKey(X, p)
    ensures HasKey(A + X + C, p)
  {
    var x :| 0 <= x < |X| && X[x].price == p;
    assert (A + X + C)[|A| + x] == X[x];
  }

  /** Inserting a new price in range below a well-formed subtree gives a
      well-formed result whose chain is the old one with the pair
      inserted into the routed leaf, and one leaf more exactly when that
      leaf was full. */
  lemma {:induction false} InsertRecSpec(n: Node, lo: Option<int>, hi: Option<int>, e: Entry)
    requires WF(n, lo, hi) && AtLeast(e.price, lo) && Below(e.price, hi) && !HasKey(Entries(n), e.price)
    ensures Shaped(n)
    ensures InsWF(InsertRec(n, e), lo, hi)
    ensures InsEntries(InsertRec(n, e)) == Before(n, e.price) + InsertSorted(RouteLeaf(n, e.price), e) + After(n, e.price)
    ensures InsLeafCount(InsertRec(n, e)) == |Leaves(n)| + if |RouteLeaf(n, e.price)| == LEAF_MAX then 1 else 0
    decreases n
  {
    WFShaped(n, lo, hi);
    match n
    case Leaf(es) =>
      InsertSortedFacts(es, e, lo, hi);
      SettleWF(Leaf(InsertSorted(es, e)), lo, hi);
      SettleKeeps(Leaf(InsertSorted(es, e)));
    case Internal(ks, cs) =>
      var i := UpperBound(ks, e.price);
      EntriesAround(cs, i);
      if HasKey(Entries(cs[i]), e.price) {
        HasKeyInside(EntriesOf(cs[..i]), Entries(cs[i]), EntriesOf(cs[i + 1..]), e.price);
      }
      InsertRecSpec(cs[i], ChildLo(ks, lo, i), ChildHi(ks, hi, i), e);
      InsertStep(ks, cs, lo, hi, e, InsertRec(cs[i], e));
  }

  /** One level of the insert: reattaching and settling the child's
      result keeps the level's part of `InsertRecSpec`. */
  lemma InsertStep(ks: seq<int>, cs: seq<Node>, lo: Option<int>, hi: Option<int>, e: Entry, r: Ins)
    requires WF(Internal(ks, cs), lo, hi) && Shaped(Internal(ks, cs))
    requires var i := UpperBound(ks, e.price);
      && InsWF(r, ChildLo(ks, lo, i), ChildHi(ks, hi, i))
      && InsEntries(r) == Before(cs[i], e.price) + InsertSorted(RouteLeaf(cs[i], e.price), e) + After(cs[i], e.price)
      && InsLeafCount(r) == |Leaves(cs[i])| + if |RouteLeaf(cs[i], e.price)| == LEAF_MAX then 1 else 0
    ensures var i := UpperBound(ks, e.price); var s := Settle(Reattach(ks, cs, i, r));
      && InsWF(s, lo, hi)
      && InsEntries(s) == Before(Internal(ks, cs), e.price) + InsertSorted(RouteLeaf(cs[i], e.price), e) + After(Internal(ks, cs), e.price)
      && InsLeafCount(s) == |Leaves(Internal(ks, cs))| + if |RouteLeaf(cs[i], e.price)| == LEAF_MAX then 1 else 0
  {
    var p := e.price;
    var i := UpperBound(ks, p);
    StepWF(ks, cs, lo, hi, i, r);
    StepKeeps(ks, cs, i, r);
    var A, B, L, D, C := EntriesOf(cs[..i]), Before(cs[i], p), InsertSorted(RouteLeaf(cs[i], p), e), After(cs[i], p), EntriesOf(cs[i + 1..]);
    assert Before(Internal(ks, cs), p) == A + B;
    assert After(Internal(ks, cs), p) == D + C;
    assert InsEntries(Settle(Reattach(ks, cs, i, r))) == A + (B + L + D) + C;
    Regroup(A, B, L, D, C);
  }

  lemma StepWF(ks: seq<int>, cs: seq<Node>, lo: Option<int>, hi: Option<int>, i: nat, r: Ins)
    requires WF(Internal(ks, cs), lo, hi) && i <= |ks|
    requires InsWF(r, ChildLo(ks, lo, i), ChildHi(ks, hi, i))
    ensures InsWF(Settle(Reattach(ks, cs, i, r)), lo, hi)
  {
    ReattachWF(ks, cs, lo, hi, i, r);
    SettleWF(Reattach(ks, cs, i, r), lo, hi);
  }

  lemma StepKeeps(ks: seq<int>, cs: seq<Node>, i: nat, r: Ins)
    requires i < |cs| && i <= |ks|
    ensures var s := Settle(Reattach(ks, cs, i, r));
      && InsEntries(s) == EntriesOf(cs[..i]) + InsEntries(r) + EntriesOf(cs[i + 1..])
      && InsLeafCount(s) == |LeavesOf(cs)| - |Leaves(cs[i])| + InsLeafCount(r)
  {
    EntriesAround(cs, i);
    ReattachKeeps(ks, cs, i, r);
    SettleKeeps(Reattach(ks, cs, i, r));
  }

  /** A split root's new root is well formed and keeps the chain. */
  lemma GrowSpec(r: Ins)
    requires InsWF(r, None, None)
    ensures WF(Grow(r), None, None)
    ensures Entries(Grow(r)) == InsEntries(r) && |Leaves(Grow(r))| == InsLeafCount(r)
  {
    if r.Split? {
      EntriesOfCat([r.left], [r.right]);
      EntriesOfOne(r.left);
      EntriesOfOne(r.right);
      assert [r.left] + [r.right] == [r.left, r.right];
    }
  }

  /** The insert below the root, as a whole: the tree stays well formed,
      its pairs are the old ones with `e` inserted in order, and it has
      one leaf more exactly when the routed leaf was full. */
  lemma InsertTop(root: Node, e: Entry)
    requires WF(root, None, None) && !HasKey(Entries(root), e.price)
    ensures Shaped(root)
    ensures WF(Grow(InsertRec(root, e)), None, None)
    ensures Entries(Grow(InsertRec(root, e))) == InsertSorted(Entries(root), e)
    ensures |Leaves(Grow(InsertRec(root, e)))| == |Leaves(root)| + if |RouteLeaf(root, e.price)| == LEAF_MAX then 1 else 0
  {
    InsertRecSpec(root, None, None, e);
    GrowSpec(InsertRec(root, e));
    RouteSeparates(root, None, None, e.price);
    RouteAround(root, e.price);
    InsertInside(Before(root, e.price), RouteLeaf(root, e.price), After(root, e.price), e);
  }

  // ----------------------------------------------- where the pair lands

  /** The leaf that holds the new pair after `insert`: the grown leaf, or
      after a split the half on the new price's side of the separator. */
  function LeafAfter(leaf: seq<Entry>, e: Entry): seq<Entry>
  {
    var l := InsertSorted(leaf, e);
    if |l| > LEAF_MAX then
      if e.price >= l[|l| / 2].price then l[|l| / 2..] else l[..|l| / 2]
    else l
  }

  ghost predicate InsShaped(r: Ins)
  {
    match r
    case Fits(n) => Shaped(n)
    case Split(l, _, rt) => Shaped(l) && Shaped(rt)
  }

  /** The leaf `findLeaf` reaches in an insert's result. */
  ghost function InsRoute(r: Ins, p: int): seq<Entry>
    requires InsShaped(r)
  {
    match r
    case Fits(n) => RouteLeaf(n, p)
    case Split(l, k, rt) => if p < k then RouteLeaf(l, p) else RouteLeaf(rt, p)
  }

  lemma InsWFShaped(r: Ins, lo: Option<int>, hi: Option<int>)
    requires InsWF(r, lo, hi)
    ensures InsShaped(r)
  {
    match r
    case Fits(n) => WFShaped(n, lo, hi);
    case Split(l, k, rt) => WFShaped(l, lo, Some(k)); WFShaped(rt, Some(k), hi);
  }

  /** After an insert the route of the new price leads to the leaf that
      received it. */
  lemma {:induction false} InsertRoute(n: Node, lo: Option<int>, hi: Option<int>, e: Entry)
    requires WF(n, lo, hi) && AtLeast(e.price, lo) && Below(e.price, hi) && !HasKey(Entries(n), e.price)
    ensures Shaped(n) && InsShaped(InsertRec(n, e))
    ensures InsRoute(InsertRec(n, e), e.price) == LeafAfter(RouteLeaf(n, e.price), e)
    decreases n
  {
    InsertRecSpec(n, lo, hi, e);
    InsWFShaped(InsertRec(n, e), lo, hi);
    if n.Internal? {
      var ks, cs, p := n.keys, n.children, e.price;
      var i := UpperBound(ks, p);
      EntriesAround(cs, i);
      if HasKey(Entries(cs[i]), p) {
        HasKeyInside(EntriesOf(cs[..i]), Entries(cs[i]), EntriesOf(cs[i + 1..]), p);
      }
      InsertRoute(cs[i], ChildLo(ks, lo, i), ChildHi(ks, hi, i), e);
      InsertRecSpec(cs[i], ChildLo(ks, lo, i), ChildHi(ks, hi, i), e);
      InsertRouteStep(ks, cs, lo, hi, i, InsertRec(cs[i], e), p);
    }
  }

  lemma InsertRouteStep(ks: seq<int>, cs: seq<Node>, lo: Option<int>, hi: Option<int>, i: nat, r: Ins, p: int)
    requires WF(Internal(ks, cs), lo, hi) && i == UpperBound(ks, p)
    requires InsWF(r, ChildLo(ks, lo, i), ChildHi(ks, hi, i)) && InsShaped(r)
    ensures Shaped(Reattach(ks, cs, i, r)) && InsShaped(Settle(Reattach(ks, cs, i, r)))
    ensures InsRoute(Settle(Reattach(ks, cs, i, r)), p) == InsRoute(r, p)
  {
    WFShaped(Internal(ks, cs), lo, hi);
    ReattachWF(ks, cs, lo, hi, i, r);
    ReattachRoute(ks, cs, i, r, p);
    SettleRoute(Reattach(ks, cs, i, r), lo, hi, p);
  }

  /** Reattaching routes the price the insert went through to where the
      child's result routes it. */
  lemma ReattachRoute(ks: seq<int>, cs: seq<Node>, i: nat, r: Ins, p: int)
    requires |cs| == |ks| + 1 && i == UpperBound(ks, p) && InsShaped(r)
    requires forall j :: 0 <= j < |cs| ==> Shaped(cs[j])
    requires r.Split? ==> (i > 0 ==> ks[i - 1] < r.sep) && (i < |ks| ==> r.sep < ks[i])
    ensures Shaped(Reattach(ks, cs, i, r))
    ensures RouteLeaf(Reattach(ks, cs, i, r), p) == InsRoute(r, p)
  {
    match r
    case Fits(c) =>
    case Split(l, k, rt) =>
      var ks2 := ks[..i] + [k] + ks[i..];
      var cs2 := cs[..i] + [l, rt] + cs[i + 1..];
      SplitChildrenShaped(cs, i, l, rt);
      var u := if p < k then i else i + 1;
      SplitUpperBound(ks, p, i, k);
      assert cs2[u] == if p < k then l else rt;
  }

  lemma SplitChildrenShaped(cs: seq<Node>, i: nat, l: Node, rt: Node)
    requires i < |cs| && (forall j :: 0 <= j < |cs| ==> Shaped(cs[j])) && Shaped(l) && Shaped(rt)
    ensures var cs2 := cs[..i] + [l, rt] + cs[i + 1..]; forall j :: 0 <= j < |cs2| ==> Shaped(cs2[j])
  {
    var cs2 := cs[..i] + [l, rt] + cs[i + 1..];
    forall j | 0 <= j < |cs2|
      ensures Shaped(cs2[j])
    {
      if j < i {
        assert cs2[j] == cs[j];
      } else if j > i + 1 {
        assert cs2[j] == cs[j - 1];
      }
    }
  }

  /** With the separator `k` put in at index `i`, `upper_bound` of a price
      routed to `i` lands on the half of `k`'s side. */
  lemma SplitUpperBound(ks: seq<int>, p: int, i: nat, k: int)
    requires i == UpperBound(ks, p)
    requires (i > 0 ==> ks[i - 1] < k) && (i < |ks| ==> k < ks[i])
    ensures UpperBound(ks[..i] + [k] + ks[i..], p) == if p < k then i else i + 1
  {
    var ks2 := ks[..i] + [k] + ks[i..];
    assert forall j :: 0 <= j < i ==> ks2[j] == ks[j];
    assert ks2[i] == k;
    assert forall j :: i < j < |ks2| ==> ks2[j] == ks[j - 1];
    if p < k {
      UpperBoundIs(ks2, p, i);
    } else {
      UpperBoundIs(ks2, p, i + 1);
    }
  }

  /** `upper_bound` is the first key above `p`, wherever it is met. */
  lemma UpperBoundIs(ks: seq<int>, p: int, m: nat)
    requires m <= |ks| && (forall j :: 0 <= j < m ==> ks[j] <= p) && (m < |ks| ==> p < ks[m])
    ensures UpperBound(ks, p) == m
  {
  }

  /** Splitting an internal node keeps every price's route. */
  lemma SettleRoute(m: Node, lo: Option<int>, hi: Option<int>, p: int)
    requires m.Internal? && Fat(m, lo, hi)
    ensures Shaped(m) && InsShaped(Settle(m))
    ensures InsRoute(Settle(m), p) == RouteLeaf(m, p)
  {
    FatShaped(m, lo, hi);
    if |m.keys| > INTERNAL_MAX {
      SplitRoute(m.keys, m.children, p);
    }
  }

  lemma FatShaped(m: Node, lo: Option<int>, hi: Option<int>)
    requires Fat(m, lo, hi)
    ensures Shaped(m)
  {
    if m.Internal? {
      forall j | 0 <= j < |m.children|
        ensures Shaped(m.children[j])
      {
        WFShaped(m.children[j], ChildLo(m.keys, lo, j), ChildHi(m.keys, hi, j));
      }
    }
  }

  lemma SplitRoute(ks: seq<int>, cs: seq<Node>, p: int)
    requires |cs| == |ks| + 1 && |ks| >= 1 && KeysIncreasing(ks) && Shaped(Internal(ks, cs))
    ensures InsShaped(SplitInternal(ks, cs))
    ensures InsRoute(SplitInternal(ks, cs), p) == RouteLeaf(Internal(ks, cs), p)
  {
    var mid := |ks| / 2;
    var u := UpperBound(ks, p);
    var r := SplitInternal(ks, cs);
    assert r.left == Internal(ks[..mid], cs[..mid + 1]);
    assert r.right == Internal(ks[mid + 1..], cs[mid + 1..]);
    assert Shaped(r.left) by {
      var lc := cs[..mid + 1];
      assert forall j :: 0 <= j < |lc| ==> lc[j] == cs[j];
    }
    assert Shaped(r.right) by {
      var rc := cs[mid + 1..];
      assert forall j :: 0 <= j < |rc| ==> rc[j] == cs[mid + 1 + j];
    }
    if p < ks[mid] {
      UpperBoundIs(ks[..mid], p, u);
      assert cs[..mid + 1][u] == cs[u];
    } else {
      if mid + 1 < |ks| {
        assert ks[mid] < ks[mid + 1];
      }
      UpperBoundIs(ks[mid + 1..], p, u - mid - 1);
      assert cs[mid + 1..][u - mid - 1] == cs[u];
    }
  }

  /** A new root routes each price to the half its separator sends it to. */
  lemma GrowRoute(r: Ins, p: int)
    requires InsShaped(r)
    ensures Shaped(Grow(r)) && RouteLeaf(Grow(r), p) == InsRoute(r, p)
  {
  }
}
