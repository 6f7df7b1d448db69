/** The free-list `MemoryPool<T, N>` of impl/include/impl/memory_pool.hpp.
    The pool's state is its free stack `free_[0 .. free_count_)`; a pointer is
    its offset from `&storage_[0]`. The stack functions below specify the
    class and are reused, as values, by the tiered pool. */
module FreeListPool {
  import opened Common

  /** `free_[i] = i` for every slot: the stack of a freshly built pool. */
  function FullStack(n: nat): (s: seq<nat>)
    ensures |s| == n
    ensures forall i :: 0 <= i < n ==> s[i] == i
  {
    seq(n, i => i)
  }

  /** The stack invariant: distinct slot indices below `n`. */
  ghost predicate WellFormed(s: seq<nat>, n: nat)
  {
    && (forall i :: 0 <= i < |s| ==> s[i] < n)
    && (forall i, j :: 0 <= i < j < |s| ==> s[i] != s[j])
  }

  /** The slot indices `0 .. n-1`. */
  ghost function Below(n: nat): (r: set<nat>)
    ensures forall i: nat :: i in r <==> i < n
  {
    if n == 0 then {} else Below(n - 1) + {n - 1}
  }

  /** The slots handed out and not yet returned. */
  ghost function Outstanding(s: seq<nat>, n: nat): set<nat>
  {
    Below(n) - Elems(s)
  }

  ghost function Elems(s: seq<nat>): set<nat>
  {
    set i | i in s
  }

  /** `allocate`: null on an empty stack, otherwise the top of the stack. */
  function Pop(s: seq<nat>): (r: (seq<nat>, Option<nat>))
    ensures r.1.None? <==> |s| == 0
    ensures r.1.None? ==> r.0 == s
    ensures r.1.Some? ==> r.0 + [r.1.value] == s
  {
    if |s| == 0 then (s, None) else (s[..|s| - 1], Some(s[|s| - 1]))
  }

  /** `deallocate`: the slot index goes on top of the stack. */
  function Push(s: seq<nat>, slot: nat): (r: seq<nat>)
    ensures |r| == |s| + 1 && r[|s|] == slot && r[..|s|] == s
  {
    s + [slot]
  }

  /** The free list is LIFO: allocating right after freeing `p` returns `p`
      and restores the earlier stack. */
  lemma PopAfterPush(s: seq<nat>, p: nat)
    ensures Pop(Push(s, p)) == (s, Some(p))
  {
    assert (s + [p])[..|s|] == s;
  }

  /** Slot accounting: free slots and outstanding slots partition `[0, n)`. */
  lemma {:induction false} Accounting(s: seq<nat>, n: nat)
    requires WellFormed(s, n)
    ensures |s| + |Outstanding(s, n)| == n
  {
    assert Elems(s) <= Below(n);
    DistinctCard(s);
    BelowCard(n);
    assert |Below(n) - Elems(s)| == |Below(n)| - |Elems(s)|;
  }

  /** A stack with distinct entries has as many members as entries. */
  lemma {:induction false} DistinctCard(s: seq<nat>)
    requires forall i, j :: 0 <= i < j < |s| ==> s[i] != s[j]
    ensures |Elems(s)| == |s|
  {
    if s != [] {
      var t := s[..|s| - 1];
      var x := s[|s| - 1];
      DistinctCard(t);
      assert s == t + [x];
      assert Elems(s) == Elems(t) + {x};
      assert x !in Elems(t);
    }
  }

  lemma {:induction false} BelowCard(n: nat)
    ensures |Below(n)| == n
  {
    if n > 0 {
      BelowCard(n - 1);
      assert n - 1 !in Below(n - 1);
    }
  }

  /** Returning an outstanding slot keeps the stack well formed, and there
      is room for it: the stack is not full. */
  lemma PushOutstanding(s: seq<nat>, n: nat, p: nat)
    requires WellFormed(s, n) && p in Outstanding(s, n)
    ensures WellFormed(Push(s, p), n)
    ensures |s| < n
  {
    Accounting(s, n);
  }

  /** Allocating keeps the stack well formed and hands out a slot that is
      outstanding afterwards; the fresh stack is well formed. */
  lemma PopOutstanding(s: seq<nat>, n: nat)
    requires WellFormed(s, n)
    ensures WellFormed(Pop(s).0, n)
    ensures Pop(s).1.Some? ==> Pop(s).1.value in Outstanding(Pop(s).0, n)
    ensures WellFormed(FullStack(n), n) && Outstanding(FullStack(n), n) == {}
  {
    if |s| > 0 {
      var t := s[..|s| - 1];
      assert forall i :: 0 <= i < |t| ==> t[i] == s[i];
      assert s[|s| - 1] !in t;
    }
    forall i: nat | i < n ensures i in FullStack(n) {
      assert FullStack(n)[i] == i;
    }
  }

  class FreeListPool {
    const N: nat
    var free: array<nat>
    var freeCount: nat

    ghost predicate Valid()
      reads this, free
    {
      && N < TWO_32
      && free.Length == N
      && freeCount <= N
      && WellFormed(free[..freeCount], N)
    }

    /** The free stack `free_[0 .. free_count_)`. */
    function Stack(): (s: seq<nat>)
      reads this, free
      requires freeCount <= free.Length
      ensures |s| == freeCount
    {
      free[..freeCount]
    }

    /** `MemoryPool()`: every index `0 .. N-1` is free. */
    constructor (n: nat)
      requires n < TWO_32
      ensures Valid() && fresh(free) && N == n
      ensures Stack() == FullStack(n) && Outstanding(Stack(), N) == {}
    {
      N := n;
      freeCount := n;
      free := new nat[n](i => i);
      new;
      assert free[..] == FullStack(n);
      PopOutstanding([], n);
    }

    /** `allocate`: null exactly when no slot is free; otherwise the slot
        `free_[free_count_ - 1]`, with the count one lower. */
    method Allocate() returns (slot: Option<nat>)
      requires Valid()
      modifies this
      ensures Valid() && free == old(free) && unchanged(free)
      ensures (Stack(), slot) == Pop(old(Stack()))
      ensures slot.None? <==> old(freeCount) == 0
      ensures slot.Some? ==> freeCount == old(freeCount) - 1 && slot.value == old(free[freeCount - 1])
      ensures slot.Some? ==> Contains(slot.value) && slot.value in Outstanding(Stack(), N)
    {
      PopOutstanding(free[..freeCount], N);
      if freeCount == 0 {
        return None;
      }
      freeCount := freeCount - 1;
      var idx := free[freeCount];
      assert free[..freeCount] == old(free[..freeCount])[..freeCount];
      slot := Some(idx);
    }

    /** `deallocate`: pushes the slot index and raises the count by one.
        The caller must hand back a slot of this pool that is outstanding
        (no double free, no foreign pointer), as the free list assumes. */
    method Deallocate(offset: int)
      requires Valid()
      requires 0 <= offset < N && offset in Outstanding(Stack(), N)
      modifies this, free
      ensures Valid() && free == old(free)
      ensures Stack() == Push(old(Stack()), offset)
      ensures freeCount == old(freeCount) + 1
    {
      PushOutstanding(free[..freeCount], N, offset);
      free[freeCount] := offset;
      freeCount := freeCount + 1;
      assert free[..freeCount] == old(free[..freeCount]) + [offset];
    }

    /** `contains`: the pointer lies inside the storage, that is, it is
        one of the slots the constructor puts on the free stack. */
    predicate Contains(offset: int): (r: bool)
      reads this
      ensures r <==> offset in FullStack(N)
    {
      assert 0 <= offset < N ==> FullStack(N)[offset] == offset;
      0 <= offset < N
    }

    /** `freeCount`. */
    function FreeCount(): (c: nat)
      reads this, free
      requires Valid()
      ensures c == |Stack()| && c + |Outstanding(Stack(), N)| == N
    {
      Accounting(free[..freeCount], N);
      freeCount
    }
  }
}
