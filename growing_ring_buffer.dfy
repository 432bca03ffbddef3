/** The growing variant of RingBuffer/GrowingRingBuffer.cs: a ring buffer
    with overflow off whose `Put` replaces a full backing array by one
    `originalCapacity` slots longer, unrolled from slot 0, instead of
    throwing. C# inheritance becomes composition: `ring` is the base-class
    part, whose fields this class updates in place. */
module GrowingRingBuffers {
  import opened Outcomes
  import opened Fifo
  import opened RingLayout
  import opened RingBuffers

  /** A positive multiple of a positive number is at least that number. */
  lemma MulSign(k: int, d: int)
    requires 0 < k
    ensures d > 0 ==> k * d >= k
    ensures d < 0 ==> k * d <= -k
  {
  }

  /** A whole number of start capacities leaves no remainder. */
  lemma MulMod(k: int, n: nat)
    requires 0 < k
    ensures (k * n) % k == 0
  {
    var q := (k * n) / k;
    var r := (k * n) % k;
    assert k * n == k * q + r;
    assert k * (n - q) == k * n - k * q;
    MulSign(k, n - q);
  }

  class GrowingRingBuffer<T(==)> {
    const ring: RingBuffer<T>
    const originalCapacity: int

    /** How many times the backing array has grown. */
    ghost var expansions: nat
    /** The objects this buffer owns: itself and everything `ring` owns. */
    ghost var Repr: set<object>

    /** `ring` is a valid buffer with overflow off, and every growth has
        added exactly one start capacity. */
    ghost predicate Valid()
      reads this, Repr
      ensures Valid() ==> this in Repr && ring in Repr
    {
      && this in Repr && ring in Repr
      && Repr == {this} + ring.Repr
      && this !in ring.Repr
      && ring.Valid()
      && !ring.allowOverflow
      && 0 < originalCapacity
      && ring.buffer.Length == originalCapacity * (expansions + 1)
    }

    /** The capacity is always a positive multiple of the start capacity. */
    lemma CapacityIsMultiple()
      requires Valid()
      ensures ring.Capacity() % originalCapacity == 0
      ensures originalCapacity <= ring.Capacity()
    {
      MulMod(originalCapacity, expansions + 1);
      MulSign(originalCapacity, expansions);
    }

    /** `GrowingRingBuffer(startCapacity)` once the argument check has passed. */
    constructor Init(startCapacity: int)
      requires startCapacity > 0
      ensures Valid() && fresh(Repr)
      ensures ring.Contents == [] && ring.Capacity() == startCapacity
      ensures originalCapacity == startCapacity && expansions == 0
      ensures ring.head == 0 && ring.tail == 0
    {
      ring := new RingBuffer<T>.Init(startCapacity, false);
      originalCapacity := startCapacity;
      expansions := 0;
      new;
      Repr := {this} + ring.Repr;
    }

    /** The constructor `GrowingRingBuffer(startCapacity)`: the base
        constructor throws first on a non-positive capacity. */
    static method Create(startCapacity: int) returns (r: Result<GrowingRingBuffer<T>>)
      ensures r.Failure? <==> startCapacity <= 0
      ensures r.Failure? ==> r.error == CapacityOutOfRange
      ensures r.Success? ==>
                && r.value.Valid() && fresh(r.value.Repr)
                && r.value.ring.Contents == [] && r.value.ring.Capacity() == startCapacity
                && r.value.originalCapacity == startCapacity
                && r.value.ring.head == 0 && r.value.ring.tail == 0
    {
      // The base constructor runs first and throws on this argument, so the
      // growing constructor's own check of it is never reached.
      if startCapacity <= 0 {
        return Failure(CapacityOutOfRange);
      }
      var b := new GrowingRingBuffer<T>.Init(startCapacity);
      return Success(b);
    }

    /** The constructor `GrowingRingBuffer()`: start capacity 4. */
    static method CreateDefault() returns (b: GrowingRingBuffer<T>)
      ensures b.Valid() && fresh(b.Repr)
      ensures b.ring.Contents == [] && b.ring.Capacity() == 4 && b.originalCapacity == 4
      ensures b.ring.head == 0 && b.ring.tail == 0
    {
      b := new GrowingRingBuffer<T>.Init(4);
    }

    /** Appends an element, never failing: a full buffer first grows by
        `originalCapacity` slots. */
    method Put(item: T)
      requires Valid()
      modifies Repr
      ensures Valid() && fresh(Repr - old(Repr))
      ensures ring.Contents == old(ring.Contents) + [item]
      ensures old(ring.size) < old(ring.buffer.Length) ==>
                && ring.buffer == old(ring.buffer) && ring.head == old(ring.head)
                && expansions == old(expansions)
      ensures old(ring.size) == old(ring.buffer.Length) ==>
                && fresh(ring.buffer) && expansions == old(expansions) + 1
                && ring.buffer.Length == old(ring.buffer.Length) + originalCapacity
                && ring.head == 0
                && ring.tail == (old(ring.size) + 1) % ring.buffer.Length
    {
      var currentTail, currentHead, currentSize := ring.tail, ring.head, ring.size;
      var isFull := currentTail == currentHead && currentSize != 0;
      ring.FullTestIsAtCapacity();
      if isFull {
        ExpandAndAdd(item);
      } else {
        ring.AddToBuffer(item, currentTail);
      }
    }

    /** Re-checks fullness, grows a full buffer, then appends with the base
        `Put`, which now has room. */
    method ExpandAndAdd(item: T)
      requires Valid()
      modifies Repr
      ensures Valid() && fresh(Repr - old(Repr))
      ensures ring.Contents == old(ring.Contents) + [item]
      ensures old(ring.size) < old(ring.buffer.Length) ==>
                && ring.buffer == old(ring.buffer) && ring.head == old(ring.head)
                && expansions == old(expansions)
      ensures old(ring.size) == old(ring.buffer.Length) ==>
                && fresh(ring.buffer) && expansions == old(expansions) + 1
                && ring.buffer.Length == old(ring.buffer.Length) + originalCapacity
                && ring.head == 0
                && ring.tail == (old(ring.size) + 1) % ring.buffer.Length
    {
      var currentTail, currentHead, currentSize := ring.tail, ring.head, ring.size;
      var stillFull := currentTail == currentHead && currentSize != 0;
      ring.FullTestIsAtCapacity();
      if stillFull {
        Expand();
      }
      var r := ring.Put(item);
      assert r == Pass;
    }

    /** The growth step of ExpandAndAdd: copies the window, oldest first, to
        the start of an array `originalCapacity` slots longer, clears the old
        array and installs the new one with `head` at 0. */
    method Expand()
      requires Valid() && ring.size == ring.buffer.Length
      modifies Repr
      ensures Valid() && fresh(Repr - old(Repr))
      ensures ring.Contents == old(ring.Contents) && expansions == old(expansions) + 1
      ensures fresh(ring.buffer)
      ensures ring.buffer.Length == old(ring.buffer.Length) + originalCapacity
      ensures ring.head == 0 && ring.tail == old(ring.size)
      ensures var oldBuffer := old(ring.buffer);
              forall j :: 0 <= j < oldBuffer.Length ==> oldBuffer[j] == None
    {
      var currentHead, currentSize := ring.head, ring.size;
      var oldBuffer := ring.buffer;
      var newCapacity := oldBuffer.Length + originalCapacity;
      var newBuffer := Unrolled(newCapacity);

      // Clear the old array.
      for i := 0 to oldBuffer.Length
        modifies oldBuffer
        invariant forall j :: 0 <= j < i ==> oldBuffer[j] == None
      {
        oldBuffer[i] := None;
      }

      LaidFromStart(newBuffer[..], ring.Contents);
      ModWrap(currentSize, newCapacity);
      assert newCapacity == originalCapacity * (expansions + 2);
      ring.buffer := newBuffer;
      ring.head := 0;
      ring.tail := currentSize;
      ring.Repr := {ring, newBuffer};
      Repr := {this} + ring.Repr;
      expansions := expansions + 1;
    }

    /** The copy loop of ExpandAndAdd: a new array of `newCapacity` slots
        holding the window, oldest first, from slot 0 on, every later slot
        cleared. */
    method Unrolled(newCapacity: int) returns (newBuffer: array<Option<T>>)
      requires Valid() && ring.size <= newCapacity
      ensures fresh(newBuffer) && newBuffer.Length == newCapacity
      ensures forall m :: 0 <= m < ring.size ==> newBuffer[m] == Some(ring.Contents[m])
      ensures forall m :: 0 <= m < ring.size ==>
                newBuffer[m] == ring.buffer[(ring.head + m) % ring.buffer.Length]
      ensures forall m :: ring.size <= m < newCapacity ==> newBuffer[m] == None
    {
      var currentHead, currentSize := ring.head, ring.size;
      newBuffer := new Option<T>[newCapacity](_ => None);
      for i := 0 to currentSize
        invariant forall m :: 0 <= m < i ==> newBuffer[m] == Some(ring.Contents[m])
        invariant forall m :: 0 <= m < i ==>
                    newBuffer[m] == ring.buffer[(currentHead + m) % ring.buffer.Length]
        invariant forall m :: i <= m < newCapacity ==> newBuffer[m] == None
      {
        var sourceIndex := (currentHead + i) % ring.buffer.Length;
        ring.WindowSlot(i);
        newBuffer[i] := ring.buffer[sourceIndex];
      }
    }

    /** `ICollection<T>.Add`, which binds to the base `Put`: on a full
        buffer it throws instead of growing. */
    method Add(item: T) returns (r: Outcome)
      requires Valid()
      modifies Repr
      ensures Valid() && Repr == old(Repr) && ring.buffer == old(ring.buffer)
      ensures expansions == old(expansions)
      ensures old(ring.size) < ring.buffer.Length ==>
                && r == Pass
                && ring.Contents == old(ring.Contents) + [item]
                && ring.buffer[old(ring.tail)] == Some(item)
                && ring.head == old(ring.head)
                && ring.tail == (old(ring.tail) + 1) % ring.buffer.Length
      ensures old(ring.size) == ring.buffer.Length ==>
                r == Fail(BufferFull) && unchanged(ring) && unchanged(ring.buffer)
    {
      r := ring.Add(item);
    }

    /** The inherited `Get`; the capacity stays. */
    method Get() returns (r: Result<T>)
      requires Valid()
      modifies Repr
      ensures Valid() && Repr == old(Repr) && ring.buffer == old(ring.buffer)
      ensures expansions == old(expansions)
      ensures old(ring.size) == 0 ==>
                r == Failure(BufferEmpty) && unchanged(ring) && unchanged(ring.buffer)
      ensures old(ring.size) != 0 ==>
                && r == Success(old(ring.Contents)[0])
                && ring.Contents == old(ring.Contents)[1..]
                && ring.buffer[old(ring.head)] == None
                && ring.head == (old(ring.head) + 1) % ring.buffer.Length
                && ring.tail == old(ring.tail)
    {
      r := ring.Get();
    }

    /** The inherited `Clear`: empties the buffer but keeps the grown capacity. */
    method Clear()
      requires Valid()
      modifies Repr
      ensures Valid() && Repr == old(Repr) && ring.buffer == old(ring.buffer)
      ensures expansions == old(expansions)
      ensures ring.Contents == [] && ring.head == 0 && ring.tail == 0
    {
      ring.Clear();
    }

    /** The inherited `Remove`. */
    method Remove(item: T) returns (removed: bool)
      requires Valid()
      modifies Repr
      ensures Valid() && Repr == old(Repr) && ring.buffer == old(ring.buffer)
      ensures expansions == old(expansions)
      ensures removed <==> item in old(ring.Contents)
      ensures ring.Contents == RemoveFirst(old(ring.Contents), item)
      ensures !removed ==> unchanged(ring) && unchanged(ring.buffer)
      ensures removed ==>
                && ring.head == old(ring.head)
                && ring.tail == (old(ring.tail) - 1 + ring.buffer.Length) % ring.buffer.Length
    {
      removed := ring.Remove(item);
    }
  }
}
