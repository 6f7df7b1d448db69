/** `PriceLevelTree::buildFromSorted` and `firstKey`
    (impl/include/impl/price_level_tree.hpp): sorted pairs are cut into
    leaves of 40 (the last one shorter), then each level is grouped into
    internal nodes of up to 41 children, the key before child `i` being
    the first price below it, until one node is left. */
module TreeBuild {
  import opened Common
  import opened TreeNodes

  const CHILD_PER_NODE: nat := INTERNAL_MAX + 1

  /** Every leaf of the subtree holds a pair. */
  ghost predicate NoEmptyLeaf(n: Node)
    decreases n
  {
    match n
    case Leaf(es) => es != []
    case Internal(_, cs) => forall i :: 0 <= i < |cs| ==> NoEmptyLeaf(cs[i])
  }

  /** The first and the last price of a subtree (0 when it has none). */
  ghost function Lowest(n: Node): int
  {
    if Entries(n) == [] then 0 else Entries(n)[0].price
  }

  ghost function Highest(n: Node): int
  {
    if Entries(n) == [] then 0 else Entries(n)[|Entries(n)| - 1].price
  }

  /** A subtree as `buildFromSorted` makes it: well formed for exactly the
      prices from its first to its last, with no empty leaf. */
  ghost predicate Built(n: Node)
  {
    && Entries(n) != [] && NoEmptyLeaf(n) && Shaped(n)
    && WF(n, Some(Lowest(n)), Some(Highest(n) + 1))
  }

  /** Every price of a node lies below every price of the nodes after it. */
  ghost predicate Separated(level: seq<Node>)
  {
    forall i, j :: 0 <= i < j < |level| ==> Highest(level[i]) < Lowest(level[j])
  }

  /** The leaf `firstKey` descends to through child 0. */
  function LeftLeaf(n: Node): seq<Entry>
    requires Shaped(n)
    decreases n
  {
    match n
    case Leaf(es) => es
    case Internal(_, cs) => LeftLeaf(cs[0])
  }

  /** Without empty leaves, the subtree's first pair is in its leftmost leaf. */
  lemma {:induction false} LeftLeafFirst(n: Node)
    requires Shaped(n) && NoEmptyLeaf(n)
    ensures LeftLeaf(n) != [] && Entries(n) != [] && Entries(n)[0] == LeftLeaf(n)[0]
    decreases n
  {
    if n.Internal? {
      var cs := n.children;
      LeftLeafFirst(cs[0]);
      EntriesAround(cs, 0);
      assert cs[..0] == [];
    }
  }

  /** `firstKey`: follow child 0 down to a leaf and read its first key. */
  method FirstKey(n: Node) returns (k: int)
    requires Shaped(n) && NoEmptyLeaf(n)
    ensures Entries(n) != [] && k == Entries(n)[0].price
  {
    LeftLeafFirst(n);
    var cur := n;
    while cur.Internal?
      invariant Shaped(cur) && LeftLeaf(cur) == LeftLeaf(n)
      decreases cur
    {
      cur := cur.children[0];
    }
    k := cur.entries[0].price;
  }

  // ------------------------------------------------------------ leaves

  function Ceil(n: nat, d: nat): nat
    requires d > 0
  {
    (n + d - 1) / d
  }

  /** The leaf loop of `buildFromSorted`: one leaf per 40 pairs, in order. */
  method BuildLeaves(es: seq<Entry>) returns (nodes: seq<Node>)
    requires Increasing(es)
    ensures |nodes| == Ceil(|es|, LEAF_MAX)
    ensures EntriesOf(nodes) == es && LeavesOf(nodes) == Chunks(es)
    ensures forall j :: 0 <= j < |nodes| ==> Built(nodes[j])
    ensures Separated(nodes)
  {
    nodes := [];
    var idx := 0;
    while idx < |es|
      invariant idx <= |es| && |nodes| == Ceil(idx, LEAF_MAX)
      invariant idx < |es| ==> idx == |nodes| * LEAF_MAX
      invariant EntriesOf(nodes) == es[..idx] && LeavesOf(nodes) == Chunks(es[..idx])
      invariant forall j :: 0 <= j < |nodes| ==> Built(nodes[j])
      invariant Separated(nodes)
      invariant forall j, x :: 0 <= j < |nodes| && idx <= x < |es| ==> Highest(nodes[j]) < es[x].price
    {
      var count := if |es| - idx < LEAF_MAX then |es| - idx else LEAF_MAX;
      var leaf := es[idx..idx + count];
      var nodes2, idx2 := nodes + [Leaf(leaf)], idx + count;
      LeafStep(es, idx, count, nodes, nodes2, idx2);
      nodes, idx := nodes2, idx2;
    }
    assert es[..idx] == es;
  }

  /** The next leaf lies above the leaves so far and below the pairs after it. */
  lemma LeafSeparated(es: seq<Entry>, idx: nat, count: nat, nodes: seq<Node>)
    requires Increasing(es) && 0 < count && idx + count <= |es|
    requires Separated(nodes)
    requires forall j, x :: 0 <= j < |nodes| && idx <= x < |es| ==> Highest(nodes[j]) < es[x].price
    ensures Separated(nodes + [Leaf(es[idx..idx + count])])
    ensures var n2 := nodes + [Leaf(es[idx..idx + count])];
      forall j, x :: 0 <= j < |n2| && idx + count <= x < |es| ==> Highest(n2[j]) < es[x].price
  {
    var leaf := Leaf(es[idx..idx + count]);
    assert Lowest(leaf) == es[idx].price && Highest(leaf) == es[idx + count - 1].price;
    var n2 := nodes + [leaf];
    forall i, j | 0 <= i < j < |n2|
      ensures Highest(n2[i]) < Lowest(n2[j])
    {
      if j == |nodes| {
        assert n2[i] == nodes[i] && n2[j] == leaf;
      } else {
        assert n2[i] == nodes[i] && n2[j] == nodes[j];
      }
    }
  }

  /** One pass of the loop of `BuildLeaves` keeps its invariant. */
  lemma LeafStep(es: seq<Entry>, idx: nat, count: nat, nodes: seq<Node>, nodes2: seq<Node>, idx2: nat)
    requires Increasing(es) && idx < |es|
    requires count == if |es| - idx < LEAF_MAX then |es| - idx else LEAF_MAX
    requires idx == |nodes| * LEAF_MAX
    requires EntriesOf(nodes) == es[..idx] && LeavesOf(nodes) == Chunks(es[..idx])
    requires forall j :: 0 <= j < |nodes| ==> Built(nodes[j])
    requires Separated(nodes)
    requires forall j, x :: 0 <= j < |nodes| && idx <= x < |es| ==> Highest(nodes[j]) < es[x].price
    requires nodes2 == nodes + [Leaf(es[idx..idx + count])] && idx2 == idx + count
    ensures idx2 <= |es| && |nodes2| == Ceil(idx2, LEAF_MAX)
    ensures idx2 < |es| ==> idx2 == |nodes2| * LEAF_MAX
    ensures EntriesOf(nodes2) == es[..idx2] && LeavesOf(nodes2) == Chunks(es[..idx2])
    ensures forall j :: 0 <= j < |nodes2| ==> Built(nodes2[j])
    ensures Separated(nodes2)
    ensures forall j, x :: 0 <= j < |nodes2| && idx2 <= x < |es| ==> Highest(nodes2[j]) < es[x].price
  {
    var leaf := es[idx..idx + count];
    LeafBuilt(es, idx, count);
    ChunkStep(es, idx, count, nodes, leaf);
    LeafSeparated(es, idx, count, nodes);
    AppendBuilt(nodes, Leaf(leaf), nodes2);
    CeilStep(|nodes|, count, LEAF_MAX);
  }

  /** The leaves of sorted pairs cut every 40. */
  function Chunks(es: seq<Entry>): seq<seq<Entry>>
    decreases |es|
  {
    if |es| <= LEAF_MAX then (if es == [] then [] else [es])
    else [es[..LEAF_MAX]] + Chunks(es[LEAF_MAX..])
  }

  lemma LeafBuilt(es: seq<Entry>, idx: nat, count: nat)
    requires Increasing(es) && 0 < count <= LEAF_MAX && idx + count <= |es|
    ensures Built(Leaf(es[idx..idx + count]))
  {
    var leaf := es[idx..idx + count];
    assert forall x :: 0 <= x < |leaf| ==> leaf[x] == es[idx + x];
    assert Lowest(Leaf(leaf)) == leaf[0].price && Highest(Leaf(leaf)) == leaf[|leaf| - 1].price;
    forall x | 0 <= x < |leaf|
      ensures AtLeast(leaf[x].price, Some(leaf[0].price)) && Below(leaf[x].price, Some(leaf[|leaf| - 1].price + 1))
    {
      if 0 < x {
        assert es[idx].price < es[idx + x].price;
      }
      if x < |leaf| - 1 {
        assert es[idx + x].price < es[idx + |leaf| - 1].price;
      }
    }
  }

  /** One more chunk extends the pairs and the leaves by the next run. */
  lemma ChunkStep(es: seq<Entry>, idx: nat, count: nat, nodes: seq<Node>, leaf: seq<Entry>)
    requires idx + count <= |es| && 0 < count <= LEAF_MAX && leaf == es[idx..idx + count]
    requires count == LEAF_MAX || idx + count == |es|
    requires idx == |nodes| * LEAF_MAX
    requires EntriesOf(nodes) == es[..idx] && LeavesOf(nodes) == Chunks(es[..idx])
    ensures EntriesOf(nodes + [Leaf(leaf)]) == es[..idx + count]
    ensures LeavesOf(nodes + [Leaf(leaf)]) == Chunks(es[..idx + count])
    ensures |nodes| + 1 == Ceil(idx + count, LEAF_MAX)
  {
    EntriesOfCat(nodes, [Leaf(leaf)]);
    EntriesOfOne(Leaf(leaf));
    assert es[..idx + count] == es[..idx] + leaf;
    ChunksAppend(es[..idx], leaf, |nodes|);
  }

  /** Appending a run of at most 40 to whole chunks adds it as a chunk. */
  lemma {:induction false} ChunksAppend(a: seq<Entry>, b: seq<Entry>, m: nat)
    requires |a| == m * LEAF_MAX && 0 < |b| <= LEAF_MAX
    ensures Chunks(a + b) == Chunks(a) + [b]
    decreases m
  {
    if m == 0 {
      assert a + b == b;
    } else {
      assert (a + b)[..LEAF_MAX] == a[..LEAF_MAX];
      assert (a + b)[LEAF_MAX..] == a[LEAF_MAX..] + b;
      ChunksAppend(a[LEAF_MAX..], b, m - 1);
      if m == 1 {
        assert a[LEAF_MAX..] == [];
        assert a[..LEAF_MAX] == a;
      }
    }
  }

  // ------------------------------------------------------------ levels

  /** A built subtree's first price is at most its last. */
  lemma BuiltSpan(n: Node)
    requires Built(n)
    ensures Lowest(n) <= Highest(n)
  {
    EntriesWF(n, Some(Lowest(n)), Some(Highest(n) + 1));
  }

  /** One internal node over consecutive built subtrees, the key before
      child `i` being child `i`'s first price, is built, and spans from its
      first child's first price to its last child's last. */
  lemma GroupBuilt(ks: seq<int>, g: seq<Node>)
    requires 1 <= |g| <= CHILD_PER_NODE && |ks| == |g| - 1
    requires forall i :: 0 <= i < |g| ==> Built(g[i])
    requires Separated(g)
    requires forall i :: 0 <= i < |ks| ==> ks[i] == Lowest(g[i + 1])
    ensures Built(Internal(ks, g))
    ensures Lowest(Internal(ks, g)) == Lowest(g[0]) && Highest(Internal(ks, g)) == Highest(g[|g| - 1])
  {
    var n := Internal(ks, g);
    forall i | 0 <= i < |g|
      ensures Lowest(g[i]) <= Highest(g[i])
    {
      BuiltSpan(g[i]);
    }
    GroupEnds(ks, g);
    GroupWF(ks, g);
    assert NoEmptyLeaf(n) && Shaped(n);
  }

  lemma GroupEnds(ks: seq<int>, g: seq<Node>)
    requires 1 <= |g| && forall i :: 0 <= i < |g| ==> Entries(g[i]) != []
    ensures Entries(Internal(ks, g)) != []
    ensures Lowest(Internal(ks, g)) == Lowest(g[0]) && Highest(Internal(ks, g)) == Highest(g[|g| - 1])
  {
    var last := |g| - 1;
    EntriesAround(g, 0);
    assert g[..0] == [];
    assert EntriesOf(g) == EntriesOf(g[..last]) + Entries(g[last]);
  }

  lemma GroupWF(ks: seq<int>, g: seq<Node>)
    requires 1 <= |g| <= CHILD_PER_NODE && |ks| == |g| - 1
    requires forall i :: 0 <= i < |g| ==> WF(g[i], Some(Lowest(g[i])), Some(Highest(g[i]) + 1))
    requires forall i :: 0 <= i < |g| ==> Lowest(g[i]) <= Highest(g[i])
    requires Separated(g)
    requires forall i :: 0 <= i < |ks| ==> ks[i] == Lowest(g[i + 1])
    ensures WF(Internal(ks, g), Some(Lowest(g[0])), Some(Highest(g[|g| - 1]) + 1))
  {
    var last := |g| - 1;
    var lo, hi := Some(Lowest(g[0])), Some(Highest(g[last]) + 1);
    forall a, b | 0 <= a < b < |ks|
      ensures ks[a] < ks[b]
    {
      assert Lowest(g[a + 1]) <= Highest(g[a + 1]) < Lowest(g[b + 1]);
    }
    forall i | 0 <= i < |ks|
      ensures Above(ks[i], lo) && Below(ks[i], hi)
    {
      assert Highest(g[0]) < Lowest(g[i + 1]) <= Highest(g[i + 1]);
      if i + 1 < last {
        assert Highest(g[i + 1]) < Lowest(g[last]);
      }
    }
    forall i | 0 <= i < |g|
      ensures WF(g[i], ChildLo(ks, lo, i), ChildHi(ks, hi, i))
    {
      if i < |ks| {
        assert Highest(g[i]) < Lowest(g[i + 1]);
      }
      Widen(g[i], Some(Lowest(g[i])), Some(Highest(g[i]) + 1), ChildLo(ks, lo, i), ChildHi(ks, hi, i));
    }
  }

  /** The inner loop of `buildFromSorted`: the children of one internal
      node and the key before each child but the first. */
  method GroupKeys(level: seq<Node>, start: nat, count: nat) returns (ks: seq<int>, g: seq<Node>)
    requires 0 < count && start + count <= |level|
    requires forall j :: 0 <= j < |level| ==> Built(level[j])
    ensures g == level[start..start + count] && |ks| == count - 1
    ensures forall i :: 0 <= i < |ks| ==> ks[i] == Lowest(g[i + 1])
  {
    ks, g := [], [];
    for i := 0 to count
      invariant g == level[start..start + i]
      invariant |ks| == if i == 0 then 0 else i - 1
      invariant forall t :: 0 <= t < |ks| ==> ks[t] == Lowest(level[start + t + 1])
    {
      var child := level[start + i];
      g := g + [child];
      if i > 0 {
        var k := FirstKey(child);
        ks := ks + [k];
      }
    }
  }

  /** One pass of the level loop of `buildFromSorted`: consecutive runs of
      up to 41 nodes become the children of one internal node each. */
  method BuildLevel(level: seq<Node>) returns (next: seq<Node>)
    requires |level| >= 1
    requires forall j :: 0 <= j < |level| ==> Built(level[j])
    requires Separated(level)
    ensures |next| == Ceil(|level|, CHILD_PER_NODE)
    ensures EntriesOf(next) == EntriesOf(level) && LeavesOf(next) == LeavesOf(level)
    ensures forall j :: 0 <= j < |next| ==> Built(next[j])
    ensures Separated(next)
  {
    next := [];
    var ci := 0;
    while ci < |level|
      invariant ci <= |level| && |next| == Ceil(ci, CHILD_PER_NODE)
      invariant ci < |level| ==> ci == |next| * CHILD_PER_NODE
      invariant EntriesOf(next) == EntriesOf(level[..ci]) && LeavesOf(next) == LeavesOf(level[..ci])
      invariant forall j :: 0 <= j < |next| ==> Built(next[j])
      invariant Separated(next)
      invariant forall j, x :: 0 <= j < |next| && ci <= x < |level| ==> Highest(next[j]) < Lowest(level[x])
    {
      var count := if |level| - ci < CHILD_PER_NODE then |level| - ci else CHILD_PER_NODE;
      var ks, g := GroupKeys(level, ci, count);
      var next2, c2 := next + [Internal(ks, g)], ci + count;
      LevelStep(level, ci, count, next, ks, g, next2, c2);
      next, ci := next2, c2;
    }
    assert level[..ci] == level;
  }

  /** One pass of the outer loop of `BuildLevel` keeps its invariant. */
  lemma LevelStep(level: seq<Node>, ci: nat, count: nat, next: seq<Node>, ks: seq<int>, g: seq<Node>, next2: seq<Node>, c2: nat)
    requires 0 < count <= CHILD_PER_NODE && ci + count <= |level|
    requires count == CHILD_PER_NODE || ci + count == |level|
    requires forall j :: 0 <= j < |level| ==> Built(level[j])
    requires Separated(level)
    requires g == level[ci..ci + count] && |ks| == count - 1
    requires forall i :: 0 <= i < |ks| ==> ks[i] == Lowest(g[i + 1])
    requires ci == |next| * CHILD_PER_NODE
    requires EntriesOf(next) == EntriesOf(level[..ci]) && LeavesOf(next) == LeavesOf(level[..ci])
    requires forall j :: 0 <= j < |next| ==> Built(next[j])
    requires Separated(next)
    requires forall j, x :: 0 <= j < |next| && ci <= x < |level| ==> Highest(next[j]) < Lowest(level[x])
    requires next2 == next + [Internal(ks, g)] && c2 == ci + count
    ensures |next2| == Ceil(c2, CHILD_PER_NODE)
    ensures c2 < |level| ==> c2 == |next2| * CHILD_PER_NODE
    ensures EntriesOf(next2) == EntriesOf(level[..c2]) && LeavesOf(next2) == LeavesOf(level[..c2])
    ensures forall j :: 0 <= j < |next2| ==> Built(next2[j])
    ensures Separated(next2)
    ensures forall j, x :: 0 <= j < |next2| && c2 <= x < |level| ==> Highest(next2[j]) < Lowest(level[x])
  {
    var n := Internal(ks, g);
    GroupOf(level, ci, count, ks, g);
    GroupCount(|next|, count, |level|, c2);
    assert |next2| == |next| + 1;
    GroupEntries(level, ci, count, next, n, next2);
    assert level[..c2] == level[..ci + count];
    GroupSeparated(level, ci, count, next, n, next2);
    AppendBuilt(next, n, next2);
  }

  /** The count of nodes after one more group. */
  lemma GroupCount(m: nat, count: nat, total: nat, c2: nat)
    requires 0 < count <= CHILD_PER_NODE && c2 == m * CHILD_PER_NODE + count && c2 <= total
    requires count == CHILD_PER_NODE || c2 == total
    ensures m + 1 == Ceil(c2, CHILD_PER_NODE)
    ensures c2 < total ==> c2 == (m + 1) * CHILD_PER_NODE
  {
    CeilStep(m, count, CHILD_PER_NODE);
  }

  lemma AppendBuilt(next: seq<Node>, n: Node, n2: seq<Node>)
    requires (forall j :: 0 <= j < |next| ==> Built(next[j])) && Built(n) && n2 == next + [n]
    ensures forall j :: 0 <= j < |n2| ==> Built(n2[j])
  {
    forall j | 0 <= j < |n2|
      ensures Built(n2[j])
    {
      if j < |next| {
        assert n2[j] == next[j];
      }
    }
  }

  /** The node over the run of `count` nodes from `ci` is built and spans
      the run's prices. */
  lemma GroupOf(level: seq<Node>, ci: nat, count: nat, ks: seq<int>, g: seq<Node>)
    requires 0 < count <= CHILD_PER_NODE && ci + count <= |level|
    requires forall j :: 0 <= j < |level| ==> Built(level[j])
    requires Separated(level)
    requires g == level[ci..ci + count] && |ks| == count - 1
    requires forall i :: 0 <= i < |ks| ==> ks[i] == Lowest(g[i + 1])
    ensures Built(Internal(ks, g))
    ensures Lowest(Internal(ks, g)) == Lowest(level[ci]) && Highest(Internal(ks, g)) == Highest(level[ci + count - 1])
  {
    assert g[0] == level[ci] && g[|g| - 1] == level[ci + count - 1];
    GroupSlice(level, ci, count);
    SliceBuilt(level, ci, count, g);
    GroupBuilt(ks, g);
  }

  lemma SliceBuilt(level: seq<Node>, ci: nat, count: nat, g: seq<Node>)
    requires ci + count <= |level| && g == level[ci..ci + count]
    requires forall j :: 0 <= j < |level| ==> Built(level[j])
    ensures forall i :: 0 <= i < |g| ==> Built(g[i])
  {
    forall i | 0 <= i < |g|
      ensures Built(g[i])
    {
      assert g[i] == level[ci + i];
    }
  }

  /** A run of consecutive nodes keeps their separation. */
  lemma GroupSlice(level: seq<Node>, start: nat, count: nat)
    requires start + count <= |level| && Separated(level)
    ensures Separated(level[start..start + count])
  {
    var g := level[start..start + count];
    assert forall i :: 0 <= i < |g| ==> g[i] == level[start + i];
  }

  /** Appending the node over the next run extends the level's pairs and
      leaves by the run's. */
  lemma GroupEntries(level: seq<Node>, ci: nat, count: nat, next: seq<Node>, n: Node, n2: seq<Node>)
    requires ci + count <= |level|
    requires n.Internal? && n.children == level[ci..ci + count] && n2 == next + [n]
    requires EntriesOf(next) == EntriesOf(level[..ci]) && LeavesOf(next) == LeavesOf(level[..ci])
    ensures EntriesOf(n2) == EntriesOf(level[..ci + count]) && LeavesOf(n2) == LeavesOf(level[..ci + count])
  {
    EntriesOfCat(next, [n]);
    EntriesOfOne(n);
    assert level[..ci + count] == level[..ci] + level[ci..ci + count];
    EntriesOfCat(level[..ci], level[ci..ci + count]);
  }

  /** Appending the node over the next run keeps the level separated, and
      below the nodes after the run. */
  lemma GroupSeparated(level: seq<Node>, ci: nat, count: nat, next: seq<Node>, n: Node, n2: seq<Node>)
    requires 0 < count && ci + count <= |level| && n2 == next + [n]
    requires Separated(level) && Separated(next)
    requires Lowest(n) == Lowest(level[ci]) && Highest(n) == Highest(level[ci + count - 1])
    requires forall j, x :: 0 <= j < |next| && ci <= x < |level| ==> Highest(next[j]) < Lowest(level[x])
    ensures Separated(n2)
    ensures forall j, x :: 0 <= j < |n2| && ci + count <= x < |level| ==> Highest(n2[j]) < Lowest(level[x])
  {
    forall i, j | 0 <= i < j < |n2|
      ensures Highest(n2[i]) < Lowest(n2[j])
    {
      if j == |next| {
        assert n2[i] == next[i] && n2[j] == n;
      } else {
        assert n2[i] == next[i] && n2[j] == next[j];
      }
    }
    forall j, x | 0 <= j < |n2| && ci + count <= x < |level|
      ensures Highest(n2[j]) < Lowest(level[x])
    {
      if j == |next| {
        assert n2[j] == n;
      } else {
        assert n2[j] == next[j];
      }
    }
  }

  /** One more run after `m` full groups of `d` makes `m + 1` groups. */
  lemma CeilStep(m: nat, c: nat, d: nat)
    requires 0 < c <= d
    ensures Ceil(m * d + c, d) == m + 1 && (m + 1) * d == m * d + d
  {
    var y := m * d + c + d - 1;
    assert y == (m + 1) * d + (c - 1);
    ModUnique(y, m + 1, c - 1, d);
    var q := y / d;
    assert y == q * d + y % d;
    assert (q - (m + 1)) * d == q * d - (m + 1) * d == 0;
    MulZero(q - (m + 1), d);
  }

  lemma MulZero(a: int, d: int)
    requires d > 0 && a * d == 0
    ensures a == 0
  {
    if a > 0 {
      MulMonotone(a, d);
    } else if a < 0 {
      assert (-a) * d == -(a * d);
      MulMonotone(-a, d);
    }
  }

  lemma CeilShrinks(n: nat)
    requires n > 1
    ensures Ceil(n, CHILD_PER_NODE) < n
  {
  }

  /** `buildFromSorted` on a non-empty sorted run: the root of a well
      formed tree whose pairs are the run, cut into leaves of 40. */
  method BuildFromSorted(es: seq<Entry>) returns (root: Node)
    requires Increasing(es) && es != []
    ensures WF(root, None, None)
    ensures Entries(root) == es && Leaves(root) == Chunks(es)
    ensures |Leaves(root)| == Ceil(|es|, LEAF_MAX)
  {
    var level := BuildLeaves(es);
    ChunksCount(es);
    while |level| > 1
      invariant |level| >= 1
      invariant forall j :: 0 <= j < |level| ==> Built(level[j])
      invariant Separated(level)
      invariant EntriesOf(level) == es && LeavesOf(level) == Chunks(es)
      decreases |level|
    {
      CeilShrinks(|level|);
      level := BuildLevel(level);
    }
    root := level[0];
    BuiltRoot(level, root);
  }

  /** The one node left of a built level is a well formed tree. */
  lemma BuiltRoot(level: seq<Node>, root: Node)
    requires level == [root] && Built(root)
    ensures WF(root, None, None)
    ensures Entries(root) == EntriesOf(level) && Leaves(root) == LeavesOf(level)
  {
    EntriesOfOne(root);
    Widen(root, Some(Lowest(root)), Some(Highest(root) + 1), None, None);
  }

  /** Sorted pairs cut every 40 make as many leaves as `buildFromSorted`
      reserves. */
  lemma {:induction false} ChunksCount(es: seq<Entry>)
    ensures |Chunks(es)| == Ceil(|es|, LEAF_MAX)
    decreases |es|
  {
    if |es| > LEAF_MAX {
      ChunksCount(es[LEAF_MAX..]);
    }
  }
}
