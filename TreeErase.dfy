/** `PriceLevelTree::erase` below the root (impl/include/impl/price_level_tree.hpp):
    the pair is removed from the leaf `findLeaf` picks with `removeFromLeaf`;
    nodes are never merged or rebalanced and separators are not changed,
    so a leaf may be left empty. */
module TreeErase {
  import opened Common
  import opened TreeNodes

  /** `removeFromLeaf`: shift the pairs after `pos` down by one. */
  function RemoveFromLeaf(es: seq<Entry>, pos: nat): (r: seq<Entry>)
    requires pos < |es|
    ensures |r| == |es| - 1
    ensures forall j :: 0 <= j < pos ==> r[j] == es[j]
    ensures forall j :: pos <= j < |r| ==> r[j] == es[j + 1]
  {
    es[..pos] + es[pos + 1..]
  }

  /** The abstract erase: drop the pair with price `p` if there is one at
      its `lower_bound`. */
  function RemoveKey(es: seq<Entry>, p: int): seq<Entry>
  {
    var k := LowerBound(es, p);
    if k < |es| && es[k].price == p then RemoveFromLeaf(es, k) else es
  }

  /** Removing keeps a run strictly increasing and in range, and takes out
      exactly the price removed. */
  lemma RemoveKeyFacts(es: seq<Entry>, p: int, lo: Option<int>, hi: Option<int>)
    requires Increasing(es) && AllIn(es, lo, hi)
    ensures Increasing(RemoveKey(es, p)) && AllIn(RemoveKey(es, p), lo, hi)
    ensures |RemoveKey(es, p)| == if HasKey(es, p) then |es| - 1 else |es|
    ensures forall q :: HasKey(RemoveKey(es, p), q) <==> q != p && HasKey(es, q)
  {
    var k := LowerBound(es, p);
    var r := RemoveKey(es, p);
    if k < |es| && es[k].price == p {
      RemoveKeeps(es, k, lo, hi);
    }
    if HasKey(es, p) {
      var x :| 0 <= x < |es| && es[x].price == p;
      assert x == k;
    }
    forall q
      ensures HasKey(r, q) <==> q != p && HasKey(es, q)
    {
      RemoveKeyKeys(es, p, q);
    }
  }

  /** Dropping one pair keeps a run strictly increasing and in range. */
  lemma RemoveKeeps(es: seq<Entry>, pos: nat, lo: Option<int>, hi: Option<int>)
    requires pos < |es| && Increasing(es) && AllIn(es, lo, hi)
    ensures Increasing(RemoveFromLeaf(es, pos)) && AllIn(RemoveFromLeaf(es, pos), lo, hi)
  {
    var r := RemoveFromLeaf(es, pos);
    forall i, j | 0 <= i < j < |r|
      ensures r[i].price < r[j].price
    {
      var i', j' := if i < pos then i else i + 1, if j < pos then j else j + 1;
      assert r[i] == es[i'] && r[j] == es[j'];
    }
    forall i | 0 <= i < |r|
      ensures AtLeast(r[i].price, lo) && Below(r[i].price, hi)
    {
      assert r[i] == es[if i < pos then i else i + 1];
    }
  }

  lemma RemoveKeyKeys(es: seq<Entry>, p: int, q: int)
    requires Increasing(es)
    ensures HasKey(RemoveKey(es, p), q) <==> q != p && HasKey(es, q)
  {
    var k := LowerBound(es, p);
    var r := RemoveKey(es, p);
    if HasKey(r, q) {
      var x :| 0 <= x < |r| && r[x].price == q;
      if k < |es| && es[k].price == p {
        if x < k {
          assert r[x] == es[x] && es[x].price < p;
        } else {
          assert r[x] == es[x + 1] && es[k].price < es[x + 1].price;
        }
      }
    }
    if q != p && HasKey(es, q) {
      var x :| 0 <= x < |es| && es[x].price == q;
      if k < |es| && es[k].price == p {
        if x < k {
          assert r[x] == es[x];
        } else {
          assert x != k;
          assert r[x - 1] == es[x];
        }
      }
    }
  }

  /** Removing from a run between smaller and larger pairs removes from the
      whole. */
  lemma RemoveInside(A: seq<Entry>, X: seq<Entry>, C: seq<Entry>, p: int)
    requires forall x :: 0 <= x < |A| ==> A[x].price < p
    requires forall y :: 0 <= y < |C| ==> p < C[y].price
    ensures RemoveKey(A + X + C, p) == A + RemoveKey(X, p) + C
  {
    var s := A + X + C;
    var k := LowerBound(X, p);
    var m := |A| + k;
    forall j | 0 <= j < m
      ensures s[j].price < p
    {
      if j >= |A| {
        assert s[j] == X[j - |A|];
      }
    }
    if m < |s| {
      if k < |X| {
        assert s[m] == X[k];
      } else {
        assert s[m] == C[0];
      }
    }
    assert LowerBound(s, p) == m;
    if k < |X| && X[k].price == p {
      assert s[..m] == A + X[..k];
      assert s[m + 1..] == X[k + 1..] + C;
    } else if m < |s| {
      assert s[m].price != p;
    }
  }

  /** Erase below `n` along the route of `p`. */
  function EraseRec(n: Node, p: int): Node
    requires Shaped(n)
    decreases n
  {
    match n
    case Leaf(es) => Leaf(RemoveKey(es, p))
    case Internal(ks, cs) =>
      var i := UpperBound(ks, p);
      Internal(ks, cs[i := EraseRec(cs[i], p)])
  }

  /** Erasing keeps a subtree well formed and its leaves, and changes its
      chain only in the routed leaf. */
  lemma {:induction false} EraseRecSpec(n: Node, lo: Option<int>, hi: Option<int>, p: int)
    requires WF(n, lo, hi)
    ensures Shaped(n) && WF(EraseRec(n, p), lo, hi)
    ensures Entries(EraseRec(n, p)) == Before(n, p) + RemoveKey(RouteLeaf(n, p), p) + After(n, p)
    ensures |Leaves(EraseRec(n, p))| == |Leaves(n)|
    decreases n
  {
    WFShaped(n, lo, hi);
    match n
    case Leaf(es) =>
      RemoveKeyFacts(es, p, lo, hi);
    case Internal(ks, cs) =>
      var i := UpperBound(ks, p);
      EraseRecSpec(cs[i], ChildLo(ks, lo, i), ChildHi(ks, hi, i), p);
      EraseStep(ks, cs, lo, hi, i, EraseRec(cs[i], p));
      EntriesAround(cs, i);
      var A, B, L, D, C := EntriesOf(cs[..i]), Before(cs[i], p), RemoveKey(RouteLeaf(cs[i], p), p), After(cs[i], p), EntriesOf(cs[i + 1..]);
      assert Entries(EraseRec(n, p)) == A + (B + L + D) + C;
      Regroup(A, B, L, D, C);
  }

  lemma EraseStep(ks: seq<int>, cs: seq<Node>, lo: Option<int>, hi: Option<int>, i: nat, c: Node)
    requires WF(Internal(ks, cs), lo, hi) && i < |cs|
    requires WF(c, ChildLo(ks, lo, i), ChildHi(ks, hi, i))
    ensures WF(Internal(ks, cs[i := c]), lo, hi)
    ensures EntriesOf(cs[i := c]) == EntriesOf(cs[..i]) + Entries(c) + EntriesOf(cs[i + 1..])
    ensures |LeavesOf(cs[i := c])| == |LeavesOf(cs)| - |Leaves(cs[i])| + |Leaves(c)|
  {
    var cs2 := cs[i := c];
    forall j | 0 <= j < |cs2|
      ensures WF(cs2[j], ChildLo(ks, lo, j), ChildHi(ks, hi, j))
    {
      if j != i {
        assert cs2[j] == cs[j];
      }
    }
    EntriesAround(cs, i);
    EntriesAround(cs2, i);
    assert cs2[..i] == cs[..i] && cs2[i + 1..] == cs[i + 1..];
  }

  /** The erase below the root, as a whole: the tree stays well formed
      with as many leaves, and its pairs lose exactly the one with price
      `p`. */
  lemma EraseTop(root: Node, p: int)
    requires WF(root, None, None)
    ensures Shaped(root) && WF(EraseRec(root, p), None, None)
    ensures Entries(EraseRec(root, p)) == RemoveKey(Entries(root), p)
    ensures |Leaves(EraseRec(root, p))| == |Leaves(root)|
  {
    EraseRecSpec(root, None, None, p);
    RouteSeparates(root, None, None, p);
    RouteAround(root, p);
    RemoveInside(Before(root, p), RouteLeaf(root, p), After(root, p), p);
  }
}
