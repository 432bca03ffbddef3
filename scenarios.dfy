/** Client programs that drive the buffers as the unit tests in
    RingBufferTests/RingBufferTests.cs and
    RingBufferTests/GrowingRingBufferTests.cs do, with the outcomes those
    tests expect proved for every input of the tested shape. */
module Scenarios {
  import opened Outcomes
  import opened Fifo
  import opened RingBuffers
  import opened GrowingRingBuffers

  /** The last `n` elements of `s`, or all of `s` when it is shorter: what
      an overflowing buffer of capacity `n` keeps. */
  function Newest<T>(s: seq<T>, n: nat): seq<T>
  {
    if |s| <= n then s else s[|s| - n..]
  }

  /** Appending to a window of the newest `n` elements either grows it or,
      once it holds `n`, drops its oldest element. */
  lemma {:induction false} NewestStep<T>(s: seq<T>, x: T, n: nat)
    requires 0 < n
    ensures |Newest(s, n)| <= n
    ensures Newest(s + [x], n) ==
              if |Newest(s, n)| < n then Newest(s, n) + [x] else Newest(s, n)[1..] + [x]
  {
    var t := s + [x];
    if |s| >= n {
      assert |Newest(s, n)| == n;
      if |s| == n {
        assert Newest(s, n) == s;
        assert Newest(t, n) == t[1..];
        assert t[1..] == s[1..] + [x];
      } else {
        assert Newest(s, n) == s[|s| - n..];
        assert Newest(t, n) == t[|t| - n..];
        assert t[|t| - n..] == s[|s| - n..][1..] + [x];
      }
    }
  }

  /** A fresh buffer of capacity `capacity` holding `xs`, filled with `Add`;
      `sizes[i]` is the `Size` seen right after the `i`-th `Add`. */
  method Filled<T(==)>(xs: seq<T>, capacity: int, overflow: bool) returns (b: RingBuffer<T>, sizes: seq<int>)
    requires |xs| <= capacity && 0 < capacity
    ensures b.Valid() && fresh(b.Repr)
    ensures b.Contents == xs && b.Capacity() == capacity && b.allowOverflow == overflow
    ensures |sizes| == |xs| && forall i :: 0 <= i < |xs| ==> sizes[i] == i + 1
  {
    b := new RingBuffer<T>.Init(capacity, overflow);
    sizes := [];
    for i := 0 to |xs|
      invariant b.Valid() && fresh(b.Repr)
      invariant b.Contents == xs[..i] && b.buffer.Length == capacity
      invariant b.allowOverflow == overflow
      invariant |sizes| == i && forall m :: 0 <= m < i ==> sizes[m] == m + 1
    {
      var r := b.Add(xs[i]);
      var size := b.Size();
      sizes := sizes + [size];
      assert xs[..i + 1] == xs[..i] + [xs[i]];
    }
    assert xs[..|xs|] == xs;
  }

  /** Gets every element of a buffer, oldest first; `sizes[i]` is the
      `Size` seen right after the `i`-th `Get`. */
  method Drained<T(==)>(b: RingBuffer<T>) returns (ys: seq<T>, sizes: seq<int>)
    requires b.Valid()
    modifies b.Repr
    ensures b.Valid() && b.Repr == old(b.Repr) && b.buffer == old(b.buffer)
    ensures ys == old(b.Contents) && b.Contents == []
    ensures |sizes| == |ys| && forall i :: 0 <= i < |ys| ==> sizes[i] == |ys| - i - 1
  {
    ys := [];
    sizes := [];
    ghost var all := b.Contents;
    var n := b.Size();
    for i := 0 to n
      invariant b.Valid() && b.Repr == old(b.Repr) && b.buffer == old(b.buffer)
      invariant b.Contents == all[i..] && ys == all[..i]
      invariant |sizes| == i && forall m :: 0 <= m < i ==> sizes[m] == n - m - 1
    {
      var r := b.Get();
      ys := ys + [r.value];
      var size := b.Size();
      sizes := sizes + [size];
      assert all[..i + 1] == all[..i] + [all[i]];
    }
    assert all[..n] == all;
  }

  /** PutIncrementsSize, GetDecrementsSize, RetrievedInCorrectOrder,
      CanIterateForeach: a buffer of capacity `|xs|` filled with `xs` has
      size `i + 1` after the `i`-th `Add`, enumerates `xs`, gives back `xs`
      in order and has size `|xs| - i - 1` after the `i`-th `Get`. */
  method PutAllThenGetAll<T(==)>(xs: seq<T>) returns (snapshot: seq<T>, ys: seq<T>, putSizes: seq<int>, getSizes: seq<int>)
    requires 0 < |xs|
    ensures snapshot == xs && ys == xs
    ensures |putSizes| == |xs| && forall i :: 0 <= i < |xs| ==> putSizes[i] == i + 1
    ensures |getSizes| == |xs| && forall i :: 0 <= i < |xs| ==> getSizes[i] == |xs| - i - 1
  {
    var b;
    b, putSizes := Filled(xs, |xs|, false);
    snapshot := b.GetEnumerator();
    ys, getSizes := Drained(b);
  }

  /** With overflow on, a buffer keeps the newest `capacity` elements of
      everything put into it, oldest first. */
  method OverflowKeepsNewest<T(==)>(xs: seq<T>, capacity: int) returns (ys: seq<T>)
    requires 0 < capacity
    ensures ys == Newest(xs, capacity)
  {
    var b := new RingBuffer<T>.Init(capacity, true);
    for i := 0 to |xs|
      invariant b.Valid() && fresh(b.Repr) && b.allowOverflow
      invariant b.buffer.Length == capacity
      invariant b.Contents == Newest(xs[..i], capacity)
    {
      NewestStep(xs[..i], xs[i], capacity);
      var r := b.Put(xs[i]);
      assert xs[..i + 1] == xs[..i] + [xs[i]];
    }
    assert xs[..|xs|] == xs;
    var sizes;
    ys, sizes := Drained(b);
  }

  /** Without overflow, a put into a full buffer is refused and the buffer
      still gives back exactly what it held. */
  method PutBeyondCapacityIsRejected<T(==)>(xs: seq<T>, extra: T) returns (r: Outcome, ys: seq<T>)
    requires 0 < |xs|
    ensures r == Fail(BufferFull) && ys == xs
  {
    var b, _ := Filled(xs, |xs|, false);
    r := b.Put(extra);
    var sizes;
    ys, sizes := Drained(b);
  }

  /** ThrowsError_GetEmpty: `Get` on a new default buffer fails. */
  method GetOnEmptyFails() returns (r: Result<int>)
    ensures r == Failure(BufferEmpty)
  {
    var b := RingBuffer<int>.CreateDefault();
    r := b.Get();
  }

  /** A constructor argument of zero or less is refused. */
  method NonPositiveCapacityIsRejected(capacity: int) returns (plain: bool, growing: bool)
    requires capacity <= 0
    ensures !plain && !growing
  {
    var r := RingBuffer<int>.CreateWithCapacity(capacity);
    var g := GrowingRingBuffer<int>.Create(capacity);
    plain := r.Success?;
    growing := g.Success?;
  }

  /** The first `n` naturals, in order. */
  function Upto(n: nat): (s: seq<int>)
    ensures |s| == n && forall j :: 0 <= j < n ==> s[j] == j
  {
    seq(n, j => j)
  }

  /** ContainsReturnsCorrectly: with the known value 1 absent the answer is
      false; once 0..n-1 and then 1 have been added it is true. */
  method ContainsAfterAdds(n: nat) returns (before: bool, after: bool)
    ensures !before && after
  {
    var b := new RingBuffer<int>.Init(n + 2, false);
    var r := b.Add(0);
    before := b.Contains(1);
    var i := 0;
    while i < n
      invariant 0 <= i <= n
      invariant b.Valid() && fresh(b.Repr) && b.buffer.Length == n + 2
      invariant |b.Contents| == i + 1
    {
      r := b.Add(i);
      i := i + 1;
    }
    r := b.Add(1);
    after := b.Contains(1);
  }

  /** ClearAsExpected: after `Clear` the count is 0 and the capacity stays. */
  method ClearEmpties<T(==)>(xs: seq<T>) returns (count: int, capacity: int)
    requires 0 < |xs|
    ensures count == 0 && capacity == |xs|
  {
    var b, _ := Filled(xs, |xs|, false);
    b.Clear();
    count := b.Count();
    capacity := b.Capacity();
  }

  /** CopyToTest: 0..n-1 copied from index 1 into an array of n + 1 zeros
      leaves position 0 alone and puts `i - 1` at position `i`. */
  method CopyFromIndexOne(n: nat) returns (copied: seq<int>)
    requires 0 < n
    ensures |copied| == n + 1 && copied[0] == 0
    ensures forall i :: 1 <= i <= n ==> copied[i] == i - 1
  {
    var b, _ := Filled(Upto(n), n, false);
    var dest := new int[n + 1](_ => 0);
    var r := b.CopyTo(dest, 1);
    forall i | 1 <= i <= n
      ensures dest[i] == i - 1
    {
      assert dest[1 + (i - 1)] == Upto(n)[i - 1];
    }
    copied := dest[..];
  }

  /** ItemIsRemoved: removing 0 from a buffer holding 0..n-1 succeeds,
      leaves no 0 behind and lowers the count by one. */
  method RemoveFirstItem(n: nat) returns (removed: bool, stillThere: bool, countBefore: int, countAfter: int)
    requires 0 < n
    ensures removed && !stillThere && countAfter == countBefore - 1
  {
    var b, _ := Filled(Upto(n), n, false);
    countBefore := b.Count();
    RemoveFirstAt(Upto(n), 0, 0);
    removed := b.Remove(0);
    stillThere := b.Contains(0);
    countAfter := b.Count();
  }

  /** A fresh growing buffer of start capacity `k` filled with `xs` through
      the growing `Put`: its capacity is the least whole number of start
      capacities that holds `xs`. */
  method FilledGrowing<T(==)>(xs: seq<T>, k: int) returns (g: GrowingRingBuffer<T>)
    requires 0 < k
    ensures g.Valid() && fresh(g.Repr)
    ensures g.ring.Contents == xs && g.originalCapacity == k
    ensures g.ring.Capacity() == k * (g.expansions + 1)
    ensures g.expansions == 0 || k * g.expansions < |xs|
  {
    g := new GrowingRingBuffer<T>.Init(k);
    for i := 0 to |xs|
      invariant g.Valid() && fresh(g.Repr)
      invariant g.ring.Contents == xs[..i] && g.originalCapacity == k
      invariant g.expansions == 0 || k * g.expansions < i
    {
      g.Put(xs[i]);
      assert xs[..i + 1] == xs[..i] + [xs[i]];
    }
    assert xs[..|xs|] == xs;
  }

  /** Put_MaintainsCorrectOrder, MultipleExpansions_WorkCorrectly,
      Enumeration_WorksAfterExpansion: a growing buffer never refuses a put,
      keeps FIFO order across every growth, and ends with a capacity that
      is a multiple of the start capacity, large enough, and less than one
      start capacity beyond what it holds. */
  method GrowingFifo<T(==)>(xs: seq<T>, k: int) returns (snapshot: seq<T>, ys: seq<T>, capacity: int)
    requires 0 < k
    ensures snapshot == xs && ys == xs
    ensures capacity % k == 0 && |xs| <= capacity
    ensures capacity == k || capacity - k < |xs|
  {
    var g := FilledGrowing(xs, k);
    g.CapacityIsMultiple();
    capacity := g.ring.Capacity();
    assert capacity - k == k * g.expansions;
    snapshot := g.ring.GetEnumerator();
    var sizes;
    ys, sizes := Drained(g.ring);
  }

  /** MultipleExpansions_WorkCorrectly: from start capacity 2, ten puts end
      at capacity 10 and come back as 0..9. */
  method TenPutsFromTwo() returns (ys: seq<int>, capacity: int)
    ensures ys == Upto(10) && capacity == 10
  {
    var snapshot;
    snapshot, ys, capacity := GrowingFifo(Upto(10), 2);
  }

  /** Put_ExpandsCapacityWhenFull and Put_ExpandsByOriginalCapacityIncrement:
      the capacity steps 3, 6, 6, 9 as puts 3, 4, 6 and 7 land. */
  method GrowsByStartCapacity() returns (c3: int, c4: int, c6: int, c7: int, size: int)
    ensures c3 == 3 && c4 == 6 && c6 == 6 && c7 == 9 && size == 7
  {
    var g := new GrowingRingBuffer<int>.Init(3);
    g.Put(0);
    g.Put(1);
    g.Put(2);
    c3 := g.ring.Capacity();
    g.Put(3);
    c4 := g.ring.Capacity();
    g.Put(4);
    g.Put(5);
    c6 := g.ring.Capacity();
    g.Put(6);
    c7 := g.ring.Capacity();
    size := g.ring.Size();
  }

  /** Add_CallsBasePutMethodButDoesNotExpand: `Add` on a full growing buffer
      is refused and the capacity stays 2, while `Put` grows it to 4. */
  method AddDoesNotGrow() returns (r: Outcome, addCapacity: int, putCapacity: int, putSize: int)
    ensures r == Fail(BufferFull) && addCapacity == 2
    ensures putCapacity == 4 && putSize == 3
  {
    var g := new GrowingRingBuffer<int>.Init(2);
    r := g.Add(1);
    r := g.Add(2);
    r := g.Add(3);
    addCapacity := g.ring.Capacity();
    var h := new GrowingRingBuffer<int>.Init(2);
    h.Put(1);
    h.Put(2);
    h.Put(3);
    putCapacity := h.ring.Capacity();
    putSize := h.ring.Size();
  }

  /** Clear_ResetsAfterExpansion: five puts from capacity 2 reach capacity
      6; `Clear` empties the buffer and keeps capacity 6. */
  method ClearKeepsGrownCapacity() returns (sizeBefore: int, capacityBefore: int, sizeAfter: int, capacityAfter: int)
    ensures sizeBefore == 5 && capacityBefore == 6 && sizeAfter == 0 && capacityAfter == 6
  {
    var g := FilledGrowing(Upto(5), 2);
    sizeBefore := g.ring.Size();
    capacityBefore := g.ring.Capacity();
    g.Clear();
    sizeAfter := g.ring.Size();
    capacityAfter := g.ring.Capacity();
  }

  /** Contains_WorksAfterExpansion: after growth every value put is found
      and 5 and -1 are not. */
  method ContainsAfterGrowth() returns (found: seq<bool>, five: bool, minusOne: bool)
    ensures |found| == 5 && (forall i :: 0 <= i < 5 ==> found[i]) && !five && !minusOne
  {
    var g := FilledGrowing(Upto(5), 2);
    found := [];
    for i := 0 to 5
      modifies {}
      invariant |found| == i && forall j :: 0 <= j < i ==> found[j]
    {
      assert Upto(5)[i] == i;
      var f := g.ring.Contains(i);
      found := found + [f];
    }
    five := g.ring.Contains(5);
    minusOne := g.ring.Contains(-1);
  }

  /** CopyTo_WorksAfterExpansion: after growth the window copies in order
      into an array from index 2. */
  method CopyToAfterGrowth() returns (copied: seq<int>)
    ensures |copied| == 10 && forall i :: 2 <= i < 7 ==> copied[i] == i - 2
  {
    var g := FilledGrowing(Upto(5), 2);
    var dest := new int[10](_ => 0);
    var r := g.ring.CopyTo(dest, 2);
    forall i | 2 <= i < 7
      ensures dest[i] == i - 2
    {
      assert dest[2 + (i - 2)] == Upto(5)[i - 2];
    }
    copied := dest[..];
  }

  /** Remove_WorksAfterExpansion: after growth, removing 2 succeeds, the size
      drops to 4 and 2 is gone; removing 10 fails. */
  method RemoveAfterGrowth() returns (removed: bool, size: int, stillThere: bool, removedAbsent: bool)
    ensures removed && size == 4 && !stillThere && !removedAbsent
  {
    var g := FilledGrowing(Upto(5), 2);
    RemoveFirstAt(Upto(5), 2, 2);
    removed := g.Remove(2);
    size := g.ring.Size();
    assert g.ring.Contents == [0, 1, 3, 4];
    stillThere := g.ring.Contains(2);
    removedAbsent := g.Remove(10);
  }
}
