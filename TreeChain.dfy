/** The walks along the leaf chain of `PriceLevelTree`
    (impl/include/impl/price_level_tree.hpp): `nextNonEmpty` and
    `prevNonEmpty` skip the leaves an erase has emptied. The chain is the
    sequence of leaves from `leftmost_` to `rightmost_`; following `next`
    is moving one place right in it, `prev` one place left. */
module TreeChain {
  import opened Common
  import opened TreeNodes

  /** `nextNonEmpty`: from leaf `i` rightwards, the first leaf holding a
      pair, or `|chain|` (a null pointer) when there is none. */
  method NextNonEmpty(chain: seq<seq<Entry>>, i: nat) returns (j: nat)
    requires i <= |chain|
    ensures i <= j <= |chain|
    ensures forall k :: i <= k < j ==> chain[k] == []
    ensures j < |chain| ==> chain[j] != []
  {
    j := i;
    while j < |chain| && chain[j] == []
      invariant i <= j <= |chain|
      invariant forall k :: i <= k < j ==> chain[k] == []
    {
      j := j + 1;
    }
  }

  /** `prevNonEmpty`: from leaf `i` leftwards, the first leaf holding a
      pair, or -1 (a null pointer) when there is none. */
  method PrevNonEmpty(chain: seq<seq<Entry>>, i: int) returns (j: int)
    requires -1 <= i < |chain|
    ensures -1 <= j <= i
    ensures forall k :: j < k <= i ==> chain[k] == []
    ensures j >= 0 ==> chain[j] != []
  {
    j := i;
    while j >= 0 && chain[j] == []
      invariant -1 <= j <= i
      invariant forall k :: j < k <= i ==> chain[k] == []
    {
      j := j - 1;
    }
  }

  // ------------------------------------------------- flattening lemmas

  lemma FlattenOne(l: seq<Entry>)
    ensures Flatten([l]) == l
  {
    assert [l][..0] == [];
  }

  lemma FlattenSnoc(ls: seq<seq<Entry>>, j: nat)
    requires j < |ls|
    ensures Flatten(ls[..j + 1]) == Flatten(ls[..j]) + ls[j]
  {
    assert ls[..j + 1][..j] == ls[..j];
  }

  /** The pairs of a chain are those before leaf `j`, then leaf `j`'s, then
      those after it. */
  lemma FlattenAround(ls: seq<seq<Entry>>, j: nat)
    requires j < |ls|
    ensures Flatten(ls) == Flatten(ls[..j]) + ls[j] + Flatten(ls[j + 1..])
  {
    assert ls == ls[..j + 1] + ls[j + 1..];
    FlattenCat(ls[..j + 1], ls[j + 1..]);
    FlattenSnoc(ls, j);
  }

  /** A run of empty leaves contributes no pair. */
  lemma {:induction false} FlattenEmpty(ls: seq<seq<Entry>>)
    requires forall k :: 0 <= k < |ls| ==> ls[k] == []
    ensures Flatten(ls) == []
    decreases |ls|
  {
    if ls != [] {
      FlattenEmpty(ls[..|ls| - 1]);
    }
  }

  /** Skipping empty leaves from `i` to `j` skips no pair. */
  lemma SkipEmpty(ls: seq<seq<Entry>>, i: nat, j: nat)
    requires i <= j <= |ls| && forall k :: i <= k < j ==> ls[k] == []
    ensures Flatten(ls[..j]) == Flatten(ls[..i])
    ensures Flatten(ls[i..]) == Flatten(ls[j..])
  {
    var mid := ls[i..j];
    assert forall k :: 0 <= k < |mid| ==> mid[k] == ls[i + k];
    FlattenEmpty(mid);
    assert ls[..j] == ls[..i] + mid;
    FlattenCat(ls[..i], mid);
    assert ls[i..] == mid + ls[j..];
    FlattenCat(mid, ls[j..]);
  }

  /** Every pair of the chain is in some leaf, and the pairs of one leaf are
      pairs of the chain. */
  lemma FlattenHas(ls: seq<seq<Entry>>, j: nat, x: nat)
    requires j < |ls| && x < |ls[j]|
    ensures |Flatten(ls[..j])| + x < |Flatten(ls)|
    ensures Flatten(ls)[|Flatten(ls[..j])| + x] == ls[j][x]
  {
    FlattenAround(ls, j);
  }

  /** The pairs from leaf `j` on are leaf `j`'s, then those after it. */
  lemma FlattenCons(ls: seq<seq<Entry>>, j: nat)
    requires j < |ls|
    ensures Flatten(ls[j..]) == ls[j] + Flatten(ls[j + 1..])
  {
    var t := ls[j..];
    assert t[1..] == ls[j + 1..] && t[..1] == [ls[j]] && t == t[..1] + t[1..];
    FlattenCat(t[..1], t[1..]);
    FlattenOne(ls[j]);
  }

  /** Counting `n` from the end is counting `m` from the end of leaf `j`
      once the `n - m` pairs after it are skipped. */
  lemma FromEndAt(ls: seq<seq<Entry>>, j: nat, m: nat, n: nat)
    requires j < |ls| && m < |ls[j]| && n == |Flatten(ls[j + 1..])| + m
    ensures n < |Flatten(ls)|
    ensures Flatten(ls)[|Flatten(ls)| - 1 - n] == ls[j][|ls[j]| - 1 - m]
  {
    FlattenHas(ls, j, |ls[j]| - 1 - m);
    FlattenAround(ls, j);
  }

  /** The whole chain, as a prefix and as a suffix of itself. */
  lemma FlattenWhole(ls: seq<seq<Entry>>)
    ensures Flatten(ls[..|ls|]) == Flatten(ls) && Flatten(ls[0..]) == Flatten(ls)
  {
    assert ls[..|ls|] == ls && ls[0..] == ls;
  }

  /** One step of a rightward walk: past leaf `j` and the empty leaves up
      to `j2`. */
  lemma NextStep(ls: seq<seq<Entry>>, j: nat, j2: nat)
    requires j < j2 <= |ls| && forall k :: j + 1 <= k < j2 ==> ls[k] == []
    ensures Flatten(ls[..j2]) == Flatten(ls[..j]) + ls[j]
  {
    FlattenSnoc(ls, j);
    SkipEmpty(ls, j + 1, j2);
  }

  /** One step of a leftward walk: past leaf `j` and the empty leaves down
      to `j2`. */
  lemma PrevStep(ls: seq<seq<Entry>>, j: nat, j2: int)
    requires -1 <= j2 < j < |ls| && forall k :: j2 < k < j ==> ls[k] == []
    ensures Flatten(ls[j2 + 1..]) == ls[j] + Flatten(ls[j + 1..])
  {
    FlattenCons(ls, j);
    SkipEmpty(ls, j2 + 1, j);
  }

  // ------------------------------------------------------- chain walks

  /** `min`: the first pair of the first non-empty leaf. */
  method FirstOfChain(chain: seq<seq<Entry>>) returns (r: Option<Entry>)
    ensures r == if Flatten(chain) == [] then None else Some(Flatten(chain)[0])
  {
    var j := NextNonEmpty(chain, 0);
    SkipEmpty(chain, 0, j);
    assert chain[..0] == [] && chain[0..] == chain;
    if j == |chain| {
      assert chain[j..] == [];
      r := None;
    } else {
      FlattenHas(chain, j, 0);
      r := Some(chain[j][0]);
    }
  }

  /** `max`: the last pair of the last non-empty leaf. */
  method LastOfChain(chain: seq<seq<Entry>>) returns (r: Option<Entry>)
    ensures r == if Flatten(chain) == [] then None else Some(Flatten(chain)[|Flatten(chain)| - 1])
  {
    var j := PrevNonEmpty(chain, |chain| - 1);
    SkipEmpty(chain, j + 1, |chain|);
    assert chain[..|chain|] == chain;
    if j < 0 {
      assert chain[..0] == [];
      r := None;
    } else {
      FlattenSnoc(chain, j);
      r := Some(chain[j][|chain[j]| - 1]);
    }
  }

  /** `nthFromMin`: skip whole leaves while `n` reaches past them. */
  method NthOfChain(chain: seq<seq<Entry>>, n: nat) returns (r: Option<Entry>)
    ensures r == if n < |Flatten(chain)| then Some(Flatten(chain)[n]) else None
  {
    var j := NextNonEmpty(chain, 0);
    SkipEmpty(chain, 0, j);
    assert chain[..0] == [];
    var m: nat := n;
    while j < |chain|
      invariant 0 <= j <= |chain|
      invariant n == |Flatten(chain[..j])| + m
      decreases |chain| - j
    {
      if m < |chain[j]| {
        FlattenHas(chain, j, m);
        return Some(chain[j][m]);
      }
      m := m - |chain[j]|;
      var j2 := NextNonEmpty(chain, j + 1);
      NextStep(chain, j, j2);
      j := j2;
    }
    assert chain[..j] == chain;
    r := None;
  }

  /** `nthFromMax`: the same walk leftwards, counting from each leaf's
      last pair. */
  method NthFromEndOfChain(chain: seq<seq<Entry>>, n: nat) returns (r: Option<Entry>)
    ensures r == if n < |Flatten(chain)| then Some(Flatten(chain)[|Flatten(chain)| - 1 - n]) else None
  {
    var j := PrevNonEmpty(chain, |chain| - 1);
    SkipEmpty(chain, j + 1, |chain|);
    assert chain[|chain|..] == [];
    var m: nat := n;
    while j >= 0 && m >= |chain[j]|
      invariant -1 <= j < |chain|
      invariant n == |Flatten(chain[j + 1..])| + m
      decreases j
    {
      m := m - |chain[j]|;
      var j2 := PrevNonEmpty(chain, j - 1);
      PrevStep(chain, j, j2);
      j := j2;
    }
    if j >= 0 {
      FromEndAt(chain, j, m, n);
      r := Some(chain[j][|chain[j]| - 1 - m]);
    } else {
      r := None;
    }
  }

  /** `forEachFromMin`: the pairs handed to the callback, in the order it
      sees them, stopping after `k`. */
  method PrefixOfChain(chain: seq<seq<Entry>>, k: nat) returns (visited: seq<Entry>)
    ensures |visited| == if k < |Flatten(chain)| then k else |Flatten(chain)|
    ensures visited == Flatten(chain)[..|visited|]
  {
    ghost var all := Flatten(chain);
    var j := NextNonEmpty(chain, 0);
    SkipEmpty(chain, 0, j);
    assert chain[..0] == [];
    var remaining := k;
    visited := [];
    while j < |chain| && remaining > 0
      invariant 0 <= j <= |chain|
      invariant |visited| + remaining == k
      invariant |visited| <= |all|
      invariant forall t :: 0 <= t < |visited| ==> visited[t] == all[t]
      invariant remaining > 0 ==> |visited| == |Flatten(chain[..j])|
      decreases |chain| - j
    {
      var leaf := chain[j];
      FlattenAround(chain, j);
      var i := 0;
      while i < |leaf| && remaining > 0
        invariant 0 <= i <= |leaf|
        invariant |visited| + remaining == k
        invariant |visited| == |Flatten(chain[..j])| + i
        invariant forall t :: 0 <= t < |visited| ==> visited[t] == all[t]
      {
        FlattenHas(chain, j, i);
        visited := visited + [leaf[i]];
        remaining := remaining - 1;
        i := i + 1;
      }
      var j2 := NextNonEmpty(chain, j + 1);
      NextStep(chain, j, j2);
      j := j2;
    }
    if remaining > 0 {
      FlattenWhole(chain);
    }
    assert visited == all[..|visited|];
  }

  /** `forEachFromMax`: the pairs from the largest price down, stopping
      after `k`. */
  method SuffixOfChain(chain: seq<seq<Entry>>, k: nat) returns (visited: seq<Entry>)
    ensures |visited| == if k < |Flatten(chain)| then k else |Flatten(chain)|
    ensures forall t :: 0 <= t < |visited| ==> visited[t] == Flatten(chain)[|Flatten(chain)| - 1 - t]
  {
    ghost var all := Flatten(chain);
    var j := PrevNonEmpty(chain, |chain| - 1);
    SkipEmpty(chain, j + 1, |chain|);
    assert chain[|chain|..] == [];
    var remaining := k;
    visited := [];
    while j >= 0 && remaining > 0
      invariant -1 <= j < |chain|
      invariant |visited| + remaining == k && |visited| <= |all|
      invariant forall t :: 0 <= t < |visited| ==> visited[t] == all[|all| - 1 - t]
      invariant remaining > 0 ==> |visited| == |Flatten(chain[j + 1..])|
      decreases j
    {
      var leaf := chain[j];
      FlattenAround(chain, j);
      var i := |leaf| - 1;
      while i >= 0 && remaining > 0
        invariant -1 <= i < |leaf|
        invariant |visited| + remaining == k
        invariant |visited| == |Flatten(chain[j + 1..])| + (|leaf| - 1 - i)
        invariant forall t :: 0 <= t < |visited| ==> visited[t] == all[|all| - 1 - t]
      {
        FlattenHas(chain, j, i);
        visited := visited + [leaf[i]];
        remaining := remaining - 1;
        i := i - 1;
      }
      var j2 := PrevNonEmpty(chain, j - 1);
      PrevStep(chain, j, j2);
      j := j2;
    }
    if remaining > 0 {
      assert chain[j + 1..] == chain;
      assert |visited| == |all|;
    } else {
      assert |visited| == k;
    }
  }

  /** The collection loop of `rebuild`: every pair along the chain, leaf
      by leaf, in order. */
  method CollectChain(chain: seq<seq<Entry>>) returns (keys: seq<Entry>)
    ensures keys == Flatten(chain)
  {
    var j := NextNonEmpty(chain, 0);
    SkipEmpty(chain, 0, j);
    assert chain[..0] == [];
    keys := [];
    while j < |chain|
      invariant 0 <= j <= |chain| && keys == Flatten(chain[..j])
      decreases |chain| - j
    {
      var leaf := chain[j];
      var i := 0;
      while i < |leaf|
        invariant 0 <= i <= |leaf| && keys == Flatten(chain[..j]) + leaf[..i]
      {
        assert leaf[..i + 1] == leaf[..i] + [leaf[i]];
        keys := keys + [leaf[i]];
        i := i + 1;
      }
      assert leaf[..i] == leaf;
      var j2 := NextNonEmpty(chain, j + 1);
      NextStep(chain, j, j2);
      j := j2;
    }
    FlattenWhole(chain);
  }
}
