/** The indexed binary heaps of impl/src/sliding_window.cpp: `max_heap_` /
    `min_heap_` list ring indices of trades, ordered by the trade's price,
    and `max_heap_pos_` / `min_heap_pos_` map each ring index to its place
    in the heap, `SIZE_MAX` when it is not there. One class serves both
    heaps; `isMax` chooses the order (`>=` for the max heap, `<=` for the
    min heap). The sift loops are specified by recursive functions on the
    heap's contents, and what the heap promises (order, contents) is
    proved about those functions. */
module HeapOps {
  import opened Common
  import opened WindowCommon

  /** `SIZE_MAX`, the "not in the heap" position. */
  const NONE: nat := 0xFFFF_FFFF_FFFF_FFFF

  /** `a` may sit above `b`: `a >= b` in the max heap, `a <= b` in the min heap. */
  predicate Above(a: int, b: int, isMax: bool)
  {
    if isMax then a >= b else a <= b
  }

  function Parent(i: nat): nat
    requires i > 0
  {
    (i - 1) / 2
  }

  /** `prices_[t]`; every index the heaps hold is a ring index, so the
      default for one past the table is never read. */
  function Key(prices: seq<int>, t: nat): int
  {
    if t < |prices| then prices[t] else 0
  }

  /** Heap order: no entry is above its parent. */
  ghost predicate HeapOrdered(h: seq<nat>, prices: seq<int>, isMax: bool)
  {
    forall k :: 0 < k < |h| ==> Above(Key(prices, h[Parent(k)]), Key(prices, h[k]), isMax)
  }

  /** `std::swap(h[i], h[j])`. */
  function Swap(h: seq<nat>, i: nat, j: nat): (r: seq<nat>)
    requires i < |h| && j < |h|
    ensures |r| == |h| && r[i] == h[j] && r[j] == h[i]
    ensures forall k :: 0 <= k < |h| && k != i && k != j ==> r[k] == h[k]
  {
    h[i := h[j]][j := h[i]]
  }

  lemma SwapContents(h: seq<nat>, i: nat, j: nat)
    requires i < |h| && j < |h|
    ensures multiset(Swap(h, i, j)) == multiset(h)
  {
  }

  /** The bubble-up loop of `pushTo*Heap`, from position `i`. */
  function SiftUp(h: seq<nat>, prices: seq<int>, isMax: bool, i: nat): (r: seq<nat>)
    requires i < |h|
    decreases i
    ensures |r| == |h|
  {
    if i == 0 || Above(Key(prices, h[Parent(i)]), Key(prices, h[i]), isMax) then h
    else SiftUp(Swap(h, Parent(i), i), prices, isMax, Parent(i))
  }

  /** One step of the sift-down loop of `removeFrom*Heap`: the left child
      replaces `i` when strictly above it, then the right child replaces
      that choice when strictly above it. */
  function Larger(h: seq<nat>, prices: seq<int>, isMax: bool, i: nat): (g: nat)
    requires i < |h|
    ensures g < |h| && (g == i || g == 2 * i + 1 || g == 2 * i + 2)
    ensures Above(Key(prices, h[g]), Key(prices, h[i]), isMax)
    ensures 2 * i + 1 < |h| ==> Above(Key(prices, h[g]), Key(prices, h[2 * i + 1]), isMax)
    ensures 2 * i + 2 < |h| ==> Above(Key(prices, h[g]), Key(prices, h[2 * i + 2]), isMax)
  {
    var l := 2 * i + 1;
    var g := if l < |h| && !Above(Key(prices, h[i]), Key(prices, h[l]), isMax) then l else i;
    if l + 1 < |h| && !Above(Key(prices, h[g]), Key(prices, h[l + 1]), isMax) then l + 1 else g
  }

  /** The sift-down loop of `removeFrom*Heap`, from position `i`. */
  function SiftDown(h: seq<nat>, prices: seq<int>, isMax: bool, i: nat): (r: seq<nat>)
    requires i < |h|
    decreases |h| - i
    ensures |r| == |h|
  {
    var g := Larger(h, prices, isMax, i);
    if g == i then h else SiftDown(Swap(h, i, g), prices, isMax, g)
  }

  /** `pushTo*Heap(t)`: append `t`, then bubble it up. */
  function Pushed(h: seq<nat>, prices: seq<int>, isMax: bool, t: nat): (r: seq<nat>)
    ensures |r| == |h| + 1
  {
    SiftUp(h + [t], prices, isMax, |h|)
  }

  /** The last entry moved into position `k` and the heap one shorter. */
  function Refilled(h: seq<nat>, k: nat): (r: seq<nat>)
    requires k < |h| - 1
    ensures |r| == |h| - 1 && r[k] == h[|h| - 1]
    ensures forall j :: 0 <= j < |r| && j != k ==> r[j] == h[j]
  {
    h[..|h| - 1][k := h[|h| - 1]]
  }

  /** `removeFrom*Heap` as written, for the entry at position `k`: the
      last entry fills the hole and is only sifted down. */
  function RemovedAsWritten(h: seq<nat>, prices: seq<int>, isMax: bool, k: nat): (r: seq<nat>)
    requires k < |h|
  {
    if k == |h| - 1 then h[..k] else SiftDown(Refilled(h, k), prices, isMax, k)
  }

  /** The removal a heap needs: the last entry fills the hole and is
      sifted up when it is above its new parent, down otherwise. */
  function Removed(h: seq<nat>, prices: seq<int>, isMax: bool, k: nat): (r: seq<nat>)
    requires k < |h|
    ensures |r| == |h| - 1
  {
    if k == |h| - 1 then h[..k]
    else
      var f := Refilled(h, k);
      if k > 0 && !Above(Key(prices, f[Parent(k)]), Key(prices, f[k]), isMax) then SiftUp(f, prices, isMax, k)
      else SiftDown(f, prices, isMax, k)
  }

  // ------------------------------------------------------------ contents

  /** The sift loops only swap, so the heap holds the same entries. */
  lemma {:induction false} SiftUpContents(h: seq<nat>, prices: seq<int>, isMax: bool, i: nat)
    requires i < |h|
    decreases i
    ensures multiset(SiftUp(h, prices, isMax, i)) == multiset(h)
  {
    if !(i == 0 || Above(Key(prices, h[Parent(i)]), Key(prices, h[i]), isMax)) {
      SwapContents(h, Parent(i), i);
      SiftUpContents(Swap(h, Parent(i), i), prices, isMax, Parent(i));
    }
  }

  lemma {:induction false} SiftDownContents(h: seq<nat>, prices: seq<int>, isMax: bool, i: nat)
    requires i < |h|
    decreases |h| - i
    ensures multiset(SiftDown(h, prices, isMax, i)) == multiset(h)
  {
    var g := Larger(h, prices, isMax, i);
    if g != i {
      SwapContents(h, i, g);
      SiftDownContents(Swap(h, i, g), prices, isMax, g);
    }
  }

  /** `pushTo*Heap(t)` adds exactly `t`. */
  lemma PushedContents(h: seq<nat>, prices: seq<int>, isMax: bool, t: nat)
    ensures multiset(Pushed(h, prices, isMax, t)) == multiset(h) + multiset{t}
  {
    SiftUpContents(h + [t], prices, isMax, |h|);
  }

  lemma RefilledContents(h: seq<nat>, k: nat)
    requires k < |h| - 1
    ensures multiset(Refilled(h, k)) == multiset(h) - multiset{h[k]}
  {
    var n := |h|;
    assert h == h[..n - 1] + [h[n - 1]];
    var a := h[..n - 1];
    assert a == a[..k] + [a[k]] + a[k + 1..];
    assert Refilled(h, k) == a[..k] + [h[n - 1]] + a[k + 1..];
  }

  /** Both removals take out exactly the entry at position `k`. */
  lemma RemovedContents(h: seq<nat>, prices: seq<int>, isMax: bool, k: nat)
    requires k < |h|
    ensures multiset(Removed(h, prices, isMax, k)) == multiset(h) - multiset{h[k]}
  {
    if k == |h| - 1 {
      assert h == h[..k] + [h[k]];
    } else {
      var f := Refilled(h, k);
      RefilledContents(h, k);
      if k > 0 && !Above(Key(prices, f[Parent(k)]), Key(prices, f[k]), isMax) {
        SiftUpContents(f, prices, isMax, k);
      } else {
        SiftDownContents(f, prices, isMax, k);
      }
    }
  }

  lemma RemovedAsWrittenContents(h: seq<nat>, prices: seq<int>, isMax: bool, k: nat)
    requires k < |h|
    ensures multiset(RemovedAsWritten(h, prices, isMax, k)) == multiset(h) - multiset{h[k]}
  {
    if k == |h| - 1 {
      assert h == h[..k] + [h[k]];
    } else {
      RefilledContents(h, k);
      SiftDownContents(Refilled(h, k), prices, isMax, k);
    }
  }

  // --------------------------------------------------------------- order

  /** Heap order except between `i` and its parent, and `i`'s parent may
      sit above `i`'s children: what bubbling up from `i` needs. */
  ghost predicate UpReady(h: seq<nat>, prices: seq<int>, isMax: bool, i: nat)
    requires i < |h|
  {
    && (forall k :: 0 < k < |h| && k != i ==> Above(Key(prices, h[Parent(k)]), Key(prices, h[k]), isMax))
    && (i > 0 && 2 * i + 1 < |h| ==> Above(Key(prices, h[Parent(i)]), Key(prices, h[2 * i + 1]), isMax))
    && (i > 0 && 2 * i + 2 < |h| ==> Above(Key(prices, h[Parent(i)]), Key(prices, h[2 * i + 2]), isMax))
  }

  /** Heap order except between `i` and its children, and `i`'s parent may
      sit above `i`'s children: what sifting down from `i` needs. */
  ghost predicate DownReady(h: seq<nat>, prices: seq<int>, isMax: bool, i: nat)
    requires i < |h|
  {
    && (forall k :: 0 < k < |h| && Parent(k) != i ==> Above(Key(prices, h[Parent(k)]), Key(prices, h[k]), isMax))
    && (i > 0 && 2 * i + 1 < |h| ==> Above(Key(prices, h[Parent(i)]), Key(prices, h[2 * i + 1]), isMax))
    && (i > 0 && 2 * i + 2 < |h| ==> Above(Key(prices, h[Parent(i)]), Key(prices, h[2 * i + 2]), isMax))
  }

  lemma {:induction false} SiftUpOrders(h: seq<nat>, prices: seq<int>, isMax: bool, i: nat)
    requires i < |h| && UpReady(h, prices, isMax, i)
    decreases i
    ensures HeapOrdered(SiftUp(h, prices, isMax, i), prices, isMax)
  {
    if i == 0 || Above(Key(prices, h[Parent(i)]), Key(prices, h[i]), isMax) {
      assert HeapOrdered(h, prices, isMax);
    } else {
      var p := Parent(i);
      var s := Swap(h, p, i);
      forall k | 0 < k < |s| && k != p
        ensures Above(Key(prices, s[Parent(k)]), Key(prices, s[k]), isMax)
      {
        if k == i {
        } else if Parent(k) == p {
          assert Above(Key(prices, h[p]), Key(prices, h[k]), isMax);
        } else if Parent(k) == i {
          assert k == 2 * i + 1 || k == 2 * i + 2;
        } else {
          assert s[k] == h[k] && s[Parent(k)] == h[Parent(k)];
        }
      }
      if p > 0 {
        assert Above(Key(prices, h[Parent(p)]), Key(prices, h[p]), isMax);
        if 2 * p + 1 < |s| {
          assert Parent(2 * p + 1) == p;
          assert Above(Key(prices, h[p]), Key(prices, h[2 * p + 1]), isMax) || 2 * p + 1 == i;
        }
        if 2 * p + 2 < |s| {
          assert Parent(2 * p + 2) == p;
          assert Above(Key(prices, h[p]), Key(prices, h[2 * p + 2]), isMax) || 2 * p + 2 == i;
        }
      }
      SiftUpOrders(s, prices, isMax, p);
    }
  }

  lemma {:induction false} SiftDownOrders(h: seq<nat>, prices: seq<int>, isMax: bool, i: nat)
    requires i < |h| && DownReady(h, prices, isMax, i)
    decreases |h| - i
    ensures HeapOrdered(SiftDown(h, prices, isMax, i), prices, isMax)
  {
    var g := Larger(h, prices, isMax, i);
    if g == i {
      forall k | 0 < k < |h|
        ensures Above(Key(prices, h[Parent(k)]), Key(prices, h[k]), isMax)
      {
        if Parent(k) == i {
          assert k == 2 * i + 1 || k == 2 * i + 2;
        }
      }
    } else {
      var s := Swap(h, i, g);
      forall k | 0 < k < |s| && Parent(k) != g
        ensures Above(Key(prices, s[Parent(k)]), Key(prices, s[k]), isMax)
      {
        if k == g {
        } else if Parent(k) == i {
          assert k == 2 * i + 1 || k == 2 * i + 2;
        } else if k == i {
          assert Above(Key(prices, h[Parent(i)]), Key(prices, h[g]), isMax);
        } else {
          assert s[k] == h[k] && s[Parent(k)] == h[Parent(k)];
        }
      }
      if 2 * g + 1 < |s| {
        assert Parent(2 * g + 1) == g;
        assert Above(Key(prices, h[g]), Key(prices, h[2 * g + 1]), isMax);
      }
      if 2 * g + 2 < |s| {
        assert Parent(2 * g + 2) == g;
        assert Above(Key(prices, h[g]), Key(prices, h[2 * g + 2]), isMax);
      }
      SiftDownOrders(s, prices, isMax, g);
    }
  }

  /** `pushTo*Heap` keeps heap order. */
  lemma PushedOrdered(h: seq<nat>, prices: seq<int>, isMax: bool, t: nat)
    requires HeapOrdered(h, prices, isMax)
    ensures HeapOrdered(Pushed(h, prices, isMax, t), prices, isMax)
  {
    var e := h + [t];
    assert forall k :: 0 < k < |h| ==> e[k] == h[k] && e[Parent(k)] == h[Parent(k)];
    SiftUpOrders(e, prices, isMax, |h|);
  }

  /** The removal that sifts both ways keeps heap order. */
  lemma RemovedOrdered(h: seq<nat>, prices: seq<int>, isMax: bool, k: nat)
    requires k < |h| && HeapOrdered(h, prices, isMax)
    ensures HeapOrdered(Removed(h, prices, isMax, k), prices, isMax)
  {
    if k < |h| - 1 {
      var f := Refilled(h, k);
      if k > 0 && !Above(Key(prices, f[Parent(k)]), Key(prices, f[k]), isMax) {
        forall j | 0 < j < |f| && j != k
          ensures Above(Key(prices, f[Parent(j)]), Key(prices, f[j]), isMax)
        {
          if Parent(j) == k {
            assert Above(Key(prices, h[k]), Key(prices, h[j]), isMax);
          } else {
            assert f[j] == h[j] && f[Parent(j)] == h[Parent(j)];
          }
        }
        assert Above(Key(prices, h[Parent(k)]), Key(prices, h[k]), isMax);
        if 2 * k + 1 < |f| {
          assert Parent(2 * k + 1) == k;
          assert Above(Key(prices, h[k]), Key(prices, h[2 * k + 1]), isMax);
        }
        if 2 * k + 2 < |f| {
          assert Parent(2 * k + 2) == k;
          assert Above(Key(prices, h[k]), Key(prices, h[2 * k + 2]), isMax);
        }
        SiftUpOrders(f, prices, isMax, k);
      } else {
        forall j | 0 < j < |f| && Parent(j) != k
          ensures Above(Key(prices, f[Parent(j)]), Key(prices, f[j]), isMax)
        {
          if j != k {
            assert f[j] == h[j] && f[Parent(j)] == h[Parent(j)];
          }
        }
        if k > 0 {
          assert Above(Key(prices, h[Parent(k)]), Key(prices, h[k]), isMax);
          if 2 * k + 1 < |f| {
            assert Parent(2 * k + 1) == k;
          assert Above(Key(prices, h[k]), Key(prices, h[2 * k + 1]), isMax);
          }
          if 2 * k + 2 < |f| {
            assert Parent(2 * k + 2) == k;
          assert Above(Key(prices, h[k]), Key(prices, h[2 * k + 2]), isMax);
          }
        }
        SiftDownOrders(f, prices, isMax, k);
      }
    }
  }

  /** In an ordered heap the top is above every entry. */
  lemma {:induction false} TopAbove(h: seq<nat>, prices: seq<int>, isMax: bool, i: nat)
    requires i < |h| && HeapOrdered(h, prices, isMax)
    decreases i
    ensures Above(Key(prices, h[0]), Key(prices, h[i]), isMax)
  {
    if i > 0 {
      TopAbove(h, prices, isMax, Parent(i));
    }
  }

  /** Prices of entries that are not in the heap do not matter to it. */
  lemma OrderedFrame(h: seq<nat>, prices: seq<int>, prices': seq<int>, isMax: bool)
    requires forall i :: 0 <= i < |h| ==> Key(prices, h[i]) == Key(prices', h[i])
    ensures HeapOrdered(h, prices, isMax) == HeapOrdered(h, prices', isMax)
  {
  }

  // -------------------------------------------------------- positions

  /** `*_heap_pos_` agrees with the heap: every entry's position is
      recorded, and every recorded position holds that entry. */
  ghost predicate PosMatches(h: seq<nat>, pos: seq<nat>)
  {
    && (forall i :: 0 <= i < |h| ==> h[i] < |pos| && pos[h[i]] == i)
    && (forall t :: 0 <= t < |pos| && pos[t] != NONE ==> pos[t] < |h| && h[pos[t]] == t)
  }

  /** A ring index is in the heap exactly when its position is recorded. */
  lemma InHeapIff(h: seq<nat>, pos: seq<nat>, t: nat)
    requires PosMatches(h, pos) && |h| <= MAX_TRADES && t < |pos|
    ensures pos[t] != NONE <==> t in h
  {
    forall i | 0 <= i < |h| && h[i] == t
      ensures pos[t] != NONE
    {
    }
  }

  lemma PosAfterSwap(h: seq<nat>, pos: seq<nat>, i: nat, j: nat)
    requires PosMatches(h, pos) && i < |h| && j < |h| && i != j
    ensures h[i] != h[j]
    ensures PosMatches(Swap(h, i, j), pos[h[j] := i][h[i] := j])
  {
    assert pos[h[i]] == i && pos[h[j]] == j;
  }

  lemma PosAfterAppend(h: seq<nat>, pos: seq<nat>, t: nat)
    requires PosMatches(h, pos) && t < |pos| && pos[t] == NONE && |h| < NONE
    ensures PosMatches(h + [t], pos[t := |h|])
  {
    forall i | 0 <= i < |h|
      ensures h[i] != t
    {
      assert pos[h[i]] == i;
    }
  }

  /** Rearranging the entries keeps an absent index absent. */
  lemma StillAbsent(h: seq<nat>, pos: seq<nat>, h': seq<nat>, pos': seq<nat>, t: nat)
    requires PosMatches(h, pos) && PosMatches(h', pos') && |h| <= MAX_TRADES && |h'| <= MAX_TRADES
    requires t < |pos| && t < |pos'| && pos[t] == NONE && multiset(h') == multiset(h)
    ensures pos'[t] == NONE
  {
    InHeapIff(h, pos, t);
    InHeapIff(h', pos', t);
    assert t !in multiset(h);
  }

  lemma PosAfterRefill(h: seq<nat>, pos: seq<nat>, k: nat)
    requires PosMatches(h, pos) && k < |h| - 1
    ensures PosMatches(Refilled(h, k), pos[h[k] := NONE][h[|h| - 1] := k])
  {
    var n := |h|;
    assert pos[h[k]] == k && pos[h[n - 1]] == n - 1;
    var r := Refilled(h, k);
    var p := pos[h[k] := NONE][h[n - 1] := k];
    forall t | 0 <= t < |p| && p[t] != NONE
      ensures p[t] < |r| && r[p[t]] == t
    {
      if t != h[n - 1] {
        assert t != h[k] && pos[t] != NONE && pos[t] != n - 1 && pos[t] != k;
      }
    }
  }

  lemma PosAfterDropLast(h: seq<nat>, pos: seq<nat>)
    requires PosMatches(h, pos) && |h| > 0
    ensures PosMatches(h[..|h| - 1], pos[h[|h| - 1] := NONE])
  {
    var n := |h|;
    assert pos[h[n - 1]] == n - 1;
    forall t | 0 <= t < |pos| && pos[h[n - 1] := NONE][t] != NONE
      ensures pos[t] < n - 1
    {
      assert t != h[n - 1];
    }
  }

  /** `max_heap_` / `max_heap_pos_` / `max_heap_size_` (or the `min_`
      ones): the entries are `heap[..size]`. */
  class IndexedHeap {
    const isMax: bool
    const heap: array<nat>
    const pos: array<nat>
    var size: nat

    ghost predicate Valid()
      reads this, heap, pos
    {
      && heap != pos && heap.Length == MAX_TRADES && pos.Length == MAX_TRADES && size <= MAX_TRADES
      && PosMatches(heap[..size], pos[..])
    }

    function Contents(): seq<nat>
      reads this, heap
      requires size <= heap.Length
    {
      heap[..size]
    }

    /** The constructor's part: an empty heap, every position `SIZE_MAX`. */
    constructor (isMax: bool)
      ensures this.isMax == isMax && Valid() && size == 0 && fresh(heap) && fresh(pos)
      ensures forall t :: 0 <= t < MAX_TRADES ==> pos[t] == NONE
    {
      this.isMax := isMax;
      heap := new nat[MAX_TRADES](_ => 0);
      pos := new nat[MAX_TRADES](_ => NONE);
      size := 0;
    }

    /** `std::swap(heap[i], heap[j])` and both positions rewritten. */
    method SwapAt(i: nat, j: nat)
      requires Valid() && i < size && j < size && i != j
      modifies heap, pos
      ensures Valid() && Contents() == Swap(old(Contents()), i, j)
    {
      ghost var h: seq<nat>, p: seq<nat> := heap[..size], pos[..];
      PosAfterSwap(h, p, i, j);
      heap[i], heap[j] := heap[j], heap[i];
      pos[heap[i]] := i;
      pos[heap[j]] := j;
      assert heap[..size] == Swap(h, i, j);
      assert pos[..] == p[h[j] := i][h[i] := j];
    }

    /** The bubble-up loop: swap with the parent while above it. */
    method SiftUpFrom(i: nat, prices: seq<int>)
      requires Valid() && i < size
      modifies heap, pos
      ensures Valid() && Contents() == SiftUp(old(Contents()), prices, isMax, i)
    {
      var cur: nat := i;
      while cur > 0
        invariant cur < size && Valid()
        invariant SiftUp(Contents(), prices, isMax, cur) == SiftUp(old(Contents()), prices, isMax, i)
      {
        var parent: nat := (cur - 1) / 2;
        if Above(Key(prices, heap[parent]), Key(prices, heap[cur]), isMax) {
          break;
        }
        SwapAt(parent, cur);
        cur := parent;
      }
    }

    /** The sift-down loop: swap with the larger (max heap) or smaller
        (min heap) child while it is strictly beyond the entry. */
    method SiftDownFrom(i: nat, prices: seq<int>)
      requires Valid() && i < size
      modifies heap, pos
      ensures Valid() && Contents() == SiftDown(old(Contents()), prices, isMax, i)
    {
      var cur := i;
      while true
        invariant cur < size && Valid()
        invariant SiftDown(Contents(), prices, isMax, cur) == SiftDown(old(Contents()), prices, isMax, i)
        decreases size - cur
      {
        var left, right, largest := 2 * cur + 1, 2 * cur + 2, cur;
        ghost var c := heap[..size];
        assert c[cur] == heap[cur];
        assert left < size ==> c[left] == heap[left];
        assert right < size ==> c[right] == heap[right];
        if left < size && !Above(Key(prices, heap[largest]), Key(prices, heap[left]), isMax) {
          largest := left;
        }
        if right < size && !Above(Key(prices, heap[largest]), Key(prices, heap[right]), isMax) {
          largest := right;
        }
        assert largest == Larger(c, prices, isMax, cur);
        if largest == cur {
          break;
        }
        SwapAt(cur, largest);
        cur := largest;
      }
    }

    /** `pushTo*Heap(t)`: store `t` at the end, record its position, grow
        the heap and bubble `t` up. */
    method Push(t: nat, prices: seq<int>)
      requires Valid() && t < MAX_TRADES && pos[t] == NONE && size < MAX_TRADES
      modifies this`size, heap, pos
      ensures Valid() && Contents() == Pushed(old(Contents()), prices, isMax, t)
    {
      ghost var h: seq<nat>, p: seq<nat> := heap[..size], pos[..];
      PosAfterAppend(h, p, t);
      var i := size;
      heap[i] := t;
      pos[t] := i;
      size := size + 1;
      assert heap[..size] == h + [t];
      assert pos[..] == p[t := i];
      SiftUpFrom(i, prices);
    }

    /** The common start of both removals: clear `t`'s position; the last
        entry fills the hole (or the heap just shrinks when `t` is last).
        Returns the hole, or `NONE` when `t` is not in the heap. */
    method Unplace(t: nat) returns (k: nat)
      requires Valid() && t < MAX_TRADES
      modifies this`size, heap, pos
      ensures Valid() && pos[t] == NONE && k == old(pos[t])
      ensures k == NONE ==> Contents() == old(Contents())
      ensures k != NONE && k == old(size) - 1 ==> Contents() == old(Contents())[..k]
      ensures k != NONE && k < old(size) - 1 ==> k < size && Contents() == Refilled(old(Contents()), k)
    {
      k := pos[t];
      if k == NONE || k >= size {
        return;
      }
      ghost var h: seq<nat>, p: seq<nat> := heap[..size], pos[..];
      pos[t] := NONE;
      if k == size - 1 {
        size := size - 1;
        PosAfterDropLast(h, p);
        assert pos[..] == p[h[|h| - 1] := NONE];
        return;
      }
      PosAfterRefill(h, p, k);
      var last := heap[size - 1];
      heap[k] := last;
      pos[last] := k;
      size := size - 1;
      assert heap[..size] == Refilled(h, k);
      assert pos[..] == p[h[k] := NONE][h[|h| - 1] := k];
    }

    /** `removeFrom*Heap(t)` as written: nothing when `t` is not in the
        heap; otherwise the last entry fills `t`'s place and is sifted
        down only. */
    method RemoveAsWritten(t: nat, prices: seq<int>)
      requires Valid() && t < MAX_TRADES
      modifies this`size, heap, pos
      ensures Valid() && pos[t] == NONE
      ensures old(pos[t]) == NONE ==> Contents() == old(Contents())
      ensures old(pos[t]) != NONE ==> Contents() == RemovedAsWritten(old(Contents()), prices, isMax, old(pos[t]))
    {
      var k := Unplace(t);
      if k != NONE && k < size {
        ghost var h, p := Contents(), pos[..];
        SiftDownFrom(k, prices);
        SiftDownContents(h, prices, isMax, k);
        StillAbsent(h, p, heap[..size], pos[..], t);
      }
    }

    /** The removal that keeps heap order: as written, but the filler is
        sifted up instead when it is above its new parent. */
    method Remove(t: nat, prices: seq<int>)
      requires Valid() && t < MAX_TRADES
      modifies this`size, heap, pos
      ensures Valid() && pos[t] == NONE
      ensures old(pos[t]) == NONE ==> Contents() == old(Contents())
      ensures old(pos[t]) != NONE ==> Contents() == Removed(old(Contents()), prices, isMax, old(pos[t]))
    {
      var k := Unplace(t);
      if k != NONE && k < size {
        ghost var h, p := Contents(), pos[..];
        if k > 0 && !Above(Key(prices, heap[(k - 1) / 2]), Key(prices, heap[k]), isMax) {
          SiftUpFrom(k, prices);
          SiftUpContents(h, prices, isMax, k);
        } else {
          SiftDownFrom(k, prices);
          SiftDownContents(h, prices, isMax, k);
        }
        StillAbsent(h, p, heap[..size], pos[..], t);
      }
    }
  }

  // ------------------------------------------------------- as written

  /** Seven trades at prices 1, 3, 3, 2, 1, 1, 3, pushed in order onto
      the max heap. */
  const SevenPrices: seq<int> := [1, 3, 3, 2, 1, 1, 3]

  lemma SevenPushed()
    ensures Pushed(Pushed(Pushed(Pushed(Pushed(Pushed(Pushed([], SevenPrices, true, 0), SevenPrices, true, 1),
              SevenPrices, true, 2), SevenPrices, true, 3), SevenPrices, true, 4), SevenPrices, true, 5),
              SevenPrices, true, 6)
            == [1, 3, 2, 0, 4, 5, 6]
  {
    PushedOne();
    PushedTwo();
    PushedThree();
    PushedFour();
  }

  lemma PushedOne()
    ensures Pushed([], SevenPrices, true, 0) == [0]
  {
    assert [] + [0] == [0];
  }

  lemma PushedTwo()
    ensures Pushed([0], SevenPrices, true, 1) == [1, 0]
    ensures Pushed([1, 0], SevenPrices, true, 2) == [1, 0, 2]
  {
    var P := SevenPrices;
    assert Key(P, 0) == 1 && Key(P, 1) == 3 && Key(P, 2) == 3 && Parent(1) == 0 && Parent(2) == 0;
    assert [0] + [1] == [0, 1];
    assert Swap([0, 1], 0, 1) == [1, 0];
    assert SiftUp([0, 1], P, true, 1) == SiftUp([1, 0], P, true, 0);
    assert [1, 0] + [2] == [1, 0, 2];
  }

  lemma PushedThree()
    ensures Pushed([1, 0, 2], SevenPrices, true, 3) == [1, 3, 2, 0]
  {
    var P := SevenPrices;
    assert Key(P, 0) == 1 && Key(P, 1) == 3 && Key(P, 3) == 2 && Parent(3) == 1 && Parent(1) == 0;
    assert [1, 0, 2] + [3] == [1, 0, 2, 3];
    assert Swap([1, 0, 2, 3], 1, 3) == [1, 3, 2, 0];
    assert SiftUp([1, 0, 2, 3], P, true, 3) == SiftUp([1, 3, 2, 0], P, true, 1);
    assert SiftUp([1, 3, 2, 0], P, true, 1) == [1, 3, 2, 0];
  }

  lemma PushedFour()
    ensures Pushed([1, 3, 2, 0], SevenPrices, true, 4) == [1, 3, 2, 0, 4]
    ensures Pushed([1, 3, 2, 0, 4], SevenPrices, true, 5) == [1, 3, 2, 0, 4, 5]
    ensures Pushed([1, 3, 2, 0, 4, 5], SevenPrices, true, 6) == [1, 3, 2, 0, 4, 5, 6]
  {
    var P := SevenPrices;
    assert Key(P, 2) == 3 && Key(P, 3) == 2;
    assert Key(P, 4) == 1 && Key(P, 5) == 1 && Key(P, 6) == 3;
    assert Parent(4) == 1 && Parent(5) == 2 && Parent(6) == 2;
    assert [1, 3, 2, 0] + [4] == [1, 3, 2, 0, 4];
    assert [1, 3, 2, 0, 4] + [5] == [1, 3, 2, 0, 4, 5];
    assert [1, 3, 2, 0, 4, 5] + [6] == [1, 3, 2, 0, 4, 5, 6];
  }

  /** The three oldest of those trades evicted with the as-written
      removal (they sit at positions 3, 0 and 0 in turn): the price-2
      trade 3 ends on top while the price-3 trade 6 is still in the heap,
      so `max_price_` would read 2 with a 3 in the window. */
  lemma WrittenRemovalLosesMax()
    ensures RemovedAsWritten(RemovedAsWritten(RemovedAsWritten([1, 3, 2, 0, 4, 5, 6], SevenPrices, true, 3),
              SevenPrices, true, 0), SevenPrices, true, 0)
            == [3, 6, 5, 4]
    ensures Key(SevenPrices, 3) == 2 && Key(SevenPrices, 6) == 3 && !HeapOrdered([3, 6, 5, 4], SevenPrices, true)
  {
    EvictedOne();
    EvictedTwo();
    EvictedThree();
    assert Parent(1) == 0;
  }

  lemma EvictedOne()
    ensures RemovedAsWritten([1, 3, 2, 0, 4, 5, 6], SevenPrices, true, 3) == [1, 3, 2, 6, 4, 5]
  {
    assert Refilled([1, 3, 2, 0, 4, 5, 6], 3) == [1, 3, 2, 6, 4, 5];
    assert Larger([1, 3, 2, 6, 4, 5], SevenPrices, true, 3) == 3;
  }

  lemma EvictedTwo()
    ensures RemovedAsWritten([1, 3, 2, 6, 4, 5], SevenPrices, true, 0) == [2, 3, 5, 6, 4]
  {
    var P := SevenPrices;
    assert Key(P, 2) == 3 && Key(P, 3) == 2 && Key(P, 5) == 1;
    assert Refilled([1, 3, 2, 6, 4, 5], 0) == [5, 3, 2, 6, 4];
    assert Larger([5, 3, 2, 6, 4], P, true, 0) == 2;
    assert Swap([5, 3, 2, 6, 4], 0, 2) == [2, 3, 5, 6, 4];
    assert Larger([2, 3, 5, 6, 4], P, true, 2) == 2;
    assert SiftDown([5, 3, 2, 6, 4], P, true, 0) == SiftDown([2, 3, 5, 6, 4], P, true, 2);
  }

  lemma EvictedThree()
    ensures RemovedAsWritten([2, 3, 5, 6, 4], SevenPrices, true, 0) == [3, 6, 5, 4]
  {
    var P := SevenPrices;
    assert Key(P, 3) == 2 && Key(P, 4) == 1 && Key(P, 5) == 1 && Key(P, 6) == 3;
    assert Refilled([2, 3, 5, 6, 4], 0) == [4, 3, 5, 6];
    assert Larger([4, 3, 5, 6], P, true, 0) == 1;
    assert Swap([4, 3, 5, 6], 0, 1) == [3, 4, 5, 6];
    assert Larger([3, 4, 5, 6], P, true, 1) == 3;
    assert Swap([3, 4, 5, 6], 1, 3) == [3, 6, 5, 4];
    assert Larger([3, 6, 5, 4], P, true, 3) == 3;
    assert SiftDown([4, 3, 5, 6], P, true, 0) == SiftDown([3, 4, 5, 6], P, true, 1);
    assert SiftDown([3, 4, 5, 6], P, true, 1) == SiftDown([3, 6, 5, 4], P, true, 3);
  }
}
