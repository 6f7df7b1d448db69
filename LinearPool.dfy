/** The linear-scan `MemoryPool<T, N>` of impl/include/impl/order_book.hpp.
    Storage is not modelled: a pointer is its offset from `&storage_[0]`,
    so slot `i` is the object `storage_[i]` and any other offset is foreign. */
module LinearPool {
  import opened Common

  /** Number of `true` flags in `s`: the slots currently handed out. */
  function CountUsed(s: seq<bool>): (c: nat)
    ensures c <= |s|
  {
    if s == [] then 0 else CountUsed(s[..|s| - 1]) + (if s[|s| - 1] then 1 else 0)
  }

  /** Every flag is set exactly when the count reaches the length. */
  lemma {:induction false} CountUsedFull(s: seq<bool>)
    ensures CountUsed(s) == |s| <==> forall i :: 0 <= i < |s| ==> s[i]
  {
    if s != [] {
      CountUsedFull(s[..|s| - 1]);
      assert forall i :: 0 <= i < |s| - 1 ==> s[..|s| - 1][i] == s[i];
    }
  }

  /** Setting one clear flag raises the count by one. */
  lemma {:induction false} CountUsedSet(s: seq<bool>, i: nat)
    requires i < |s| && !s[i]
    ensures CountUsed(s[i := true]) == CountUsed(s) + 1
  {
    var t := s[i := true];
    if i == |s| - 1 {
      assert t[..|t| - 1] == s[..|s| - 1];
    } else {
      assert t[..|t| - 1] == s[..|s| - 1][i := true];
      CountUsedSet(s[..|s| - 1], i);
    }
  }

  /** Clearing one set flag lowers the count by one. */
  lemma {:induction false} CountUsedClear(s: seq<bool>, i: nat)
    requires i < |s| && s[i]
    ensures CountUsed(s[i := false]) + 1 == CountUsed(s)
  {
    var t := s[i := false];
    if i == |s| - 1 {
      assert t[..|t| - 1] == s[..|s| - 1];
    } else {
      assert t[..|t| - 1] == s[..|s| - 1][i := false];
      CountUsedClear(s[..|s| - 1], i);
    }
  }

  /** Slot `i` is visited strictly before slot `stop` by a circular scan
      that begins at `start`. */
  predicate CircularlyBefore(start: nat, stop: nat, i: nat)
  {
    if start <= stop then start <= i < stop else start <= i || i < stop
  }

  /** Advancing a cursor modulo `n` either steps by one or wraps to 0. */
  lemma StepMod(x: nat, n: nat)
    requires x < n
    ensures (x + 1) % n == if x + 1 == n then 0 else x + 1
  {
    if x + 1 == n { ModUnique(x + 1, 1, 0, n); } else { ModUnique(x + 1, 0, x + 1, n); }
  }

  class LinearScanPool {
    const N: nat
    var used: array<bool>
    var nextFree: nat

    ghost predicate Valid()
      reads this
    {
      0 < N < TWO_32 && used.Length == N && nextFree < N
    }

    /** `MemoryPool()`: every slot free, the cursor at slot 0. */
    constructor (n: nat)
      requires 0 < n < TWO_32
      ensures Valid() && fresh(used)
      ensures N == n && nextFree == 0
      ensures forall i :: 0 <= i < N ==> !used[i]
    {
      N := n;
      used := new bool[n](_ => false);
      nextFree := 0;
    }

    /** `allocate`: starting at `next_free_`, scan the slots circularly for
        the first free one, claim it and move the cursor one past it. A
        full pool yields null and leaves the cursor where it started. */
    method Allocate() returns (slot: Option<nat>)
      requires Valid()
      modifies this`nextFree, used
      ensures Valid()
      ensures slot.None? <==> forall i :: 0 <= i < N ==> old(used[i])
      ensures slot.None? ==> nextFree == old(nextFree) && used[..] == old(used[..])
      ensures slot.Some? ==>
        && Contains(slot.value)
        && !old(used[slot.value])
        && (forall i :: 0 <= i < N && CircularlyBefore(old(nextFree), slot.value, i) ==> old(used[i]))
        && used[..] == old(used[..])[slot.value := true]
        && nextFree == (slot.value + 1) % N
      ensures slot.Some? ==> CountUsed(used[..]) == CountUsed(old(used[..])) + 1
    {
      var start := nextFree;
      ghost var k := 0;
      while true
        invariant nextFree < N
        invariant k == if nextFree >= start then nextFree - start else nextFree + N - start
        invariant forall i :: 0 <= i < N && CircularlyBefore(start, nextFree, i) ==> used[i]
        invariant used[..] == old(used[..])
        decreases N - k
      {
        if !used[nextFree] {
          used[nextFree] := true;
          slot := Some(nextFree);
          CountUsedSet(old(used[..]), nextFree);
          nextFree := (nextFree + 1) % N;
          return;
        }
        StepMod(nextFree, N);
        nextFree := (nextFree + 1) % N;
        if nextFree == start {
          break;
        }
        k := k + 1;
      }
      slot := None;
    }

    /** `deallocate`: the offset `obj - &storage_[0]` is converted to an
        unsigned index, so only an offset inside the storage clears a flag
        (a pointer difference is a signed 64-bit value). */
    method Deallocate(offset: int)
      requires Valid() && IsInt64(offset)
      modifies used
      ensures Valid()
      ensures Contains(offset) ==> used[..] == old(used[..])[offset := false]
      ensures !Contains(offset) ==> used[..] == old(used[..])
      ensures Contains(offset) && old(used[offset]) ==> CountUsed(used[..]) + 1 == CountUsed(old(used[..]))
    {
      var index := U64(offset);
      if index < N {
        assert index == offset;
        if used[index] {
          CountUsedClear(used[..], index);
        }
        used[index] := false;
      }
    }

    /** `contains`: the pointer lies in `[&storage_[0], &storage_[0] + N)`.
        For any signed 64-bit offset this is exactly the unsigned-index
        test `index < N` by which `deallocate` decides to clear a flag. */
    predicate Contains(offset: int): (r: bool)
      reads this
      ensures IsInt64(offset) && N < TWO_32 ==> (r <==> U64(offset) < N)
    {
      0 <= offset < N
    }
  }
}
