/** The fixed-capacity circular buffer of RingBuffer/RingBuffer.cs: an array
    of slots, the cursors `head` and `tail` and the counter `size`, updated in
    place. The ghost field `Contents` is the logical FIFO window, oldest
    element first; `Valid()` ties it to the array. */
module RingBuffers {
  import opened Outcomes
  import opened Fifo
  import opened RingLayout

  class RingBuffer<T(==)> {
    var head: int
    var tail: int
    var size: int
    var buffer: array<Option<T>>
    const allowOverflow: bool

    /** The live elements in FIFO order. */
    ghost var Contents: seq<T>
    /** The objects this buffer owns. */
    ghost var Repr: set<object>

    /** The representation invariant: `0 <= size <= Capacity`, both cursors
        in range, `tail == (head + size) % Capacity`, the window slots hold
        `Contents` in order and every other slot is cleared. */
    ghost predicate Valid()
      reads this, Repr
      ensures Valid() ==> this in Repr && buffer in Repr
    {
      && Repr == {this, buffer}
      && 0 < buffer.Length
      && 0 <= size <= buffer.Length
      && 0 <= tail < buffer.Length
      && tail == (head + size) % buffer.Length
      && |Contents| == size
      && Laid(buffer[..], Contents, head)
    }

    /** `(capacity, overflow)` once the argument check has passed. */
    constructor Init(capacity: int, overflow: bool)
      requires capacity > 0
      ensures Valid() && fresh(Repr)
      ensures Contents == [] && buffer.Length == capacity && allowOverflow == overflow
      ensures head == 0 && tail == 0 && size == 0
      ensures forall j :: 0 <= j < buffer.Length ==> buffer[j] == None
    {
      buffer := new Option<T>[capacity](_ => None);
      allowOverflow := overflow;
      head, tail, size := 0, 0, 0;
      Contents := [];
      Repr := {this, buffer};
      new;
      LaidCleared(buffer[..], 0);
    }

    /** The constructor `RingBuffer(capacity, overflow)`: throws on a
        non-positive capacity, else an empty buffer of that capacity. */
    static method Create(capacity: int, overflow: bool) returns (r: Result<RingBuffer<T>>)
      ensures r.Failure? <==> capacity <= 0
      ensures r.Failure? ==> r.error == CapacityOutOfRange
      ensures r.Success? ==>
                && r.value.Valid() && fresh(r.value.Repr)
                && r.value.Contents == [] && r.value.Capacity() == capacity
                && r.value.allowOverflow == overflow
                && r.value.head == 0 && r.value.tail == 0
    {
      if capacity <= 0 {
        return Failure(CapacityOutOfRange);
      }
      var b := new RingBuffer<T>.Init(capacity, overflow);
      return Success(b);
    }

    /** The constructor `RingBuffer(capacity)`: overflow is off. */
    static method CreateWithCapacity(capacity: int) returns (r: Result<RingBuffer<T>>)
      ensures r.Failure? <==> capacity <= 0
      ensures r.Failure? ==> r.error == CapacityOutOfRange
      ensures r.Success? ==>
                && r.value.Valid() && fresh(r.value.Repr)
                && r.value.Contents == [] && r.value.Capacity() == capacity
                && !r.value.allowOverflow
                && r.value.head == 0 && r.value.tail == 0
    {
      r := Create(capacity, false);
    }

    /** The constructor `RingBuffer()`: capacity 4, overflow off. */
    static method CreateDefault() returns (b: RingBuffer<T>)
      ensures b.Valid() && fresh(b.Repr)
      ensures b.Contents == [] && b.Capacity() == 4 && !b.allowOverflow
      ensures b.head == 0 && b.tail == 0
    {
      b := new RingBuffer<T>.Init(4, false);
    }

    /** The length of the backing array. */
    function Capacity(): (c: int)
      reads this, Repr
      requires Valid()
      ensures 0 < c && |Contents| <= c
    {
      buffer.Length
    }

    /** The number of live elements. */
    function Size(): (n: int)
      reads this, Repr
      requires Valid()
      ensures n == |Contents| && 0 <= n <= Capacity()
    {
      size
    }

    /** `ICollection<T>.Count`, the same number as `Size`. */
    function Count(): (n: int)
      reads this, Repr
      requires Valid()
      ensures n == |Contents|
    {
      Size()
    }

    /** The code's fullness test `tail == head && size != 0` holds exactly
        when the buffer holds `Capacity` elements. */
    lemma FullTestIsAtCapacity()
      requires Valid()
      ensures 0 <= head < buffer.Length
      ensures (tail == head && size != 0) <==> size == buffer.Length
    {
      ModWrap(head + size, buffer.Length);
    }

    /** The slot the scans read at step `i` holds the `i`-th oldest element. */
    lemma WindowSlot(i: int)
      requires Valid() && 0 <= i < size
      ensures 0 <= (head + i) % buffer.Length < buffer.Length
      ensures buffer[(head + i) % buffer.Length] == Some(Contents[i])
    {
      LaidAt(buffer[..], Contents, head, i);
    }

    /** Removes and returns the oldest element; throws on an empty buffer. */
    method Get() returns (r: Result<T>)
      requires Valid()
      modifies Repr
      ensures Valid() && Repr == old(Repr) && buffer == old(buffer)
      ensures old(size) == 0 ==> r == Failure(BufferEmpty) && unchanged(this) && unchanged(buffer)
      ensures old(size) != 0 ==>
                && r == Success(old(Contents)[0])
                && Contents == old(Contents)[1..]
                && buffer[old(head)] == None
                && head == (old(head) + 1) % buffer.Length
                && tail == old(tail)
    {
      if size == 0 {
        return Failure(BufferEmpty);
      }
      var currentHead := head;
      ghost var before := buffer[..];
      LaidPop(before, Contents, currentHead);
      var item := buffer[currentHead];
      buffer[currentHead] := None;
      assert buffer[..] == before[currentHead := None];
      var newHead := (currentHead + 1) % buffer.Length;
      ModWrap(currentHead + 1, buffer.Length);
      ModWrap(currentHead + size, buffer.Length);
      ModWrap(newHead + (size - 1), buffer.Length);
      head := newHead;
      size := size - 1;
      Contents := Contents[1..];
      return Success(item.value);
    }

    /** Appends an element; on a full buffer throws, or evicts the oldest
        element when overflow is allowed. */
    method Put(item: T) returns (r: Outcome)
      requires Valid()
      modifies Repr
      ensures Valid() && Repr == old(Repr) && buffer == old(buffer)
      ensures old(size) < buffer.Length ==>
                && r == Pass
                && Contents == old(Contents) + [item]
                && buffer[old(tail)] == Some(item)
                && head == old(head) && tail == (old(tail) + 1) % buffer.Length
      ensures old(size) == buffer.Length && allowOverflow ==>
                && r == Pass
                && Contents == old(Contents)[1..] + [item]
                && buffer[old(tail)] == Some(item)
                && head == (old(head) + 1) % buffer.Length
                && tail == (old(tail) + 1) % buffer.Length
      ensures old(size) == buffer.Length && !allowOverflow ==>
                r == Fail(BufferFull) && unchanged(this) && unchanged(buffer)
    {
      var currentTail, currentHead, currentSize := tail, head, size;
      var isFull := currentTail == currentHead && currentSize != 0;
      FullTestIsAtCapacity();
      if isFull {
        if allowOverflow {
          AddToBufferWithOverflow(item, currentTail, currentHead);
          r := Pass;
        } else {
          r := Fail(BufferFull);
        }
      } else {
        AddToBuffer(item, currentTail);
        r := Pass;
      }
    }

    /** Writes at `tail` of a buffer that has room and advances `tail`. */
    method AddToBuffer(toAdd: T, currentTail: int)
      requires Valid() && currentTail == tail && size < buffer.Length
      modifies Repr
      ensures Valid() && Repr == old(Repr) && buffer == old(buffer)
      ensures Contents == old(Contents) + [toAdd]
      ensures buffer[old(tail)] == Some(toAdd)
      ensures head == old(head) && tail == (old(tail) + 1) % buffer.Length
    {
      ghost var before := buffer[..];
      LaidAppend(before, Contents, head, toAdd);
      ModWrap(head + size, buffer.Length);
      ModWrap(head + (size + 1), buffer.Length);
      ModWrap(currentTail + 1, buffer.Length);
      buffer[currentTail] := Some(toAdd);
      assert buffer[..] == before[currentTail := Some(toAdd)];
      tail := (currentTail + 1) % buffer.Length;
      size := size + 1;
      Contents := Contents + [toAdd];
    }

    /** On a full buffer: clears the oldest slot, advances `head`, writes at
        `tail` (the same slot) and advances `tail`; `size` stays. */
    method AddToBufferWithOverflow(toAdd: T, currentTail: int, currentHead: int)
      requires Valid() && currentTail == tail && currentHead == head
      requires size == buffer.Length
      modifies Repr
      ensures Valid() && Repr == old(Repr) && buffer == old(buffer)
      ensures Contents == old(Contents)[1..] + [toAdd]
      ensures buffer[old(tail)] == Some(toAdd)
      ensures head == (old(head) + 1) % buffer.Length
      ensures tail == (old(tail) + 1) % buffer.Length
    {
      FullTestIsAtCapacity();
      ghost var before := buffer[..];
      LaidOverwrite(before, Contents, currentHead, toAdd);
      ModWrap(currentHead + 1, buffer.Length);
      var newHead := (currentHead + 1) % buffer.Length;
      ModWrap(newHead + size, buffer.Length);
      buffer[currentHead] := None;
      head := newHead;
      buffer[currentTail] := Some(toAdd);
      assert buffer[..] == before[currentHead := Some(toAdd)];
      tail := (currentTail + 1) % buffer.Length;
      Contents := Contents[1..] + [toAdd];
    }

    /** `ICollection<T>.Add`, which calls this class's `Put`. */
    method Add(item: T) returns (r: Outcome)
      requires Valid()
      modifies Repr
      ensures Valid() && Repr == old(Repr) && buffer == old(buffer)
      ensures old(size) < buffer.Length ==>
                && r == Pass
                && Contents == old(Contents) + [item]
                && buffer[old(tail)] == Some(item)
                && head == old(head)
                && tail == (old(tail) + 1) % buffer.Length
      ensures old(size) == buffer.Length && allowOverflow ==>
                && r == Pass
                && Contents == old(Contents)[1..] + [item]
                && buffer[old(tail)] == Some(item)
                && head == (old(head) + 1) % buffer.Length
                && tail == (old(tail) + 1) % buffer.Length
      ensures old(size) == buffer.Length && !allowOverflow ==>
                r == Fail(BufferFull) && unchanged(this) && unchanged(buffer)
    {
      r := Put(item);
    }

    /** Resets every slot and both cursors; the capacity stays. */
    method Clear()
      requires Valid()
      modifies Repr
      ensures Valid() && Repr == old(Repr) && buffer == old(buffer)
      ensures Contents == [] && head == 0 && tail == 0 && size == 0
      ensures forall j :: 0 <= j < buffer.Length ==> buffer[j] == None
    {
      for i := 0 to buffer.Length
        modifies buffer
        invariant forall j :: 0 <= j < i ==> buffer[j] == None
      {
        buffer[i] := None;
      }
      LaidCleared(buffer[..], 0);
      head := 0;
      tail := 0;
      size := 0;
      Contents := [];
    }

    /** Scans the window `[head, head + size)` modulo the capacity. */
    method Contains(item: T) returns (found: bool)
      requires Valid()
      ensures found <==> item in Contents
    {
      var currentHead, currentSize := head, size;
      for i := 0 to currentSize
        invariant forall m :: 0 <= m < i ==> Contents[m] != item
      {
        var index := (currentHead + i) % buffer.Length;
        WindowSlot(i);
        if buffer[index] == Some(item) {
          return true;
        }
      }
      return false;
    }

    /** The snapshot `GetEnumerator` takes: the window in FIFO order. */
    method GetEnumerator() returns (snapshot: seq<T>)
      requires Valid()
      ensures snapshot == Contents
    {
      snapshot := [];
      var currentHead, currentSize := head, size;
      for i := 0 to currentSize
        invariant snapshot == Contents[..i]
      {
        var index := (currentHead + i) % buffer.Length;
        WindowSlot(i);
        snapshot := snapshot + [buffer[index].value];
      }
    }

    /** Copies the window, oldest first, to `dest` from `arrayIndex` on;
        throws, writing nothing, when `dest` is null, the index negative or
        the room too small. */
    method CopyTo(dest: array?<T>, arrayIndex: int) returns (r: Outcome)
      requires Valid()
      requires dest !in Repr
      modifies dest
      ensures Valid()
      ensures dest == null ==> r == Fail(ArrayNull)
      ensures dest != null && arrayIndex < 0 ==> r == Fail(ArrayIndexOutOfRange)
      ensures dest != null && 0 <= arrayIndex && dest.Length - arrayIndex < size ==>
                r == Fail(ArrayTooSmall)
      ensures r.Pass? <==> dest != null && 0 <= arrayIndex && size <= dest.Length - arrayIndex
      ensures r.Fail? ==> dest == null || dest[..] == old(dest[..])
      ensures r.Pass? ==>
                && dest != null && 0 <= arrayIndex && arrayIndex + size <= dest.Length
                && (forall j :: 0 <= j < size ==> dest[arrayIndex + j] == Contents[j])
                && (forall j :: 0 <= j < dest.Length && !(arrayIndex <= j < arrayIndex + size) ==>
                      dest[j] == old(dest[j]))
    {
      if dest == null {
        return Fail(ArrayNull);
      }
      if arrayIndex < 0 {
        return Fail(ArrayIndexOutOfRange);
      }
      var currentHead, currentSize := head, size;
      if dest.Length - arrayIndex < currentSize {
        return Fail(ArrayTooSmall);
      }
      for i := 0 to currentSize
        invariant forall j :: 0 <= j < i ==> dest[arrayIndex + j] == Contents[j]
        invariant forall j :: 0 <= j < dest.Length && !(arrayIndex <= j < arrayIndex + i) ==>
                    dest[j] == old(dest[j])
      {
        var index := (currentHead + i) % buffer.Length;
        WindowSlot(i);
        dest[arrayIndex + i] := buffer[index].value;
      }
      return Pass;
    }

    /** Deletes the first occurrence of `item` in FIFO order by moving every
        later element one slot back, then clears the freed last slot and
        steps `tail` back; returns whether `item` was found. */
    method Remove(item: T) returns (removed: bool)
      requires Valid()
      modifies Repr
      ensures Valid() && Repr == old(Repr) && buffer == old(buffer)
      ensures removed <==> item in old(Contents)
      ensures Contents == RemoveFirst(old(Contents), item)
      ensures !removed ==> unchanged(this) && unchanged(buffer)
      ensures removed ==>
                && head == old(head)
                && tail == (old(tail) - 1 + buffer.Length) % buffer.Length
    {
      var removeIndex;
      ghost var k;
      removeIndex, k := FindSlot(item);
      if removeIndex == -1 {
        RemoveFirstAbsent(Contents, item);
        return false;
      }
      RemoveFirstAt(Contents, item, k);
      ShiftOut(removeIndex, k);
      return true;
    }

    /** Remove's search: the slot of the first occurrence of `item` in FIFO
        order, or -1 when it does not occur. */
    method FindSlot(item: T) returns (removeIndex: int, ghost k: int)
      requires Valid()
      ensures removeIndex == -1 <==> item !in Contents
      ensures removeIndex != -1 ==>
                && 0 <= k < |Contents| && Contents[k] == item
                && (forall m :: 0 <= m < k ==> Contents[m] != item)
                && removeIndex == (head + k) % buffer.Length
    {
      var currentHead, currentSize := head, size;
      k := 0;
      removeIndex := -1;
      var i := 0;
      while i < currentSize
        invariant 0 <= i <= currentSize
        invariant removeIndex == -1
        invariant forall m :: 0 <= m < i ==> Contents[m] != item
      {
        var index := (currentHead + i) % buffer.Length;
        WindowSlot(i);
        if buffer[index] == Some(item) {
          removeIndex := index;
          k := i;
          return;
        }
        i := i + 1;
      }
    }

    /** Remove's second half: the element at window position `k`, in slot
        `removeIndex`, is shifted out; the freed last slot is cleared and
        `tail` steps back. */
    method ShiftOut(removeIndex: int, ghost k: int)
      requires Valid()
      requires 0 <= k < |Contents| && removeIndex == (head + k) % buffer.Length
      modifies Repr
      ensures Valid() && Repr == old(Repr) && buffer == old(buffer)
      ensures Contents == old(Contents)[..k] + old(Contents)[k + 1..]
      ensures head == old(head)
      ensures tail == (old(tail) - 1 + buffer.Length) % buffer.Length
    {
      ghost var orig := buffer[..];
      ShiftBack(removeIndex, k);
      var currentHead, currentSize := head, size;
      ghost var c := buffer.Length;

      // The slot before `tail` is the last of the window: free it.
      StepBack(currentHead, currentSize, tail, c);
      var lastIndex := (tail - 1 + buffer.Length) % buffer.Length;
      ghost var shifted := buffer[..];
      ShiftDone(shifted, orig, Contents, currentHead, k, lastIndex);
      buffer[lastIndex] := None;
      assert buffer[..] == shifted[lastIndex := None];
      tail := (tail - 1 + buffer.Length) % buffer.Length;
      size := size - 1;
      Contents := Contents[..k] + Contents[k + 1..];
    }

    /** Remove's shift loop: from window position `k` on, every slot takes
        the element of the slot after it; the last window slot keeps its
        element until it is cleared. */
    method ShiftBack(removeIndex: int, ghost k: int)
      requires Valid()
      requires 0 <= k < |Contents| && removeIndex == (head + k) % buffer.Length
      modifies buffer
      ensures ShiftedUpTo(buffer[..], old(buffer[..]), Contents, head, k, size - 1)
    {
      var currentHead, currentSize := head, size;
      ghost var c := buffer.Length;
      SlotOffset(currentHead, k, c);
      ghost var orig := buffer[..];
      var itemsToMove := currentSize - 1;
      var foundGap := false;
      for i := 0 to itemsToMove
        invariant foundGap <==> k < i
        invariant ShiftedUpTo(buffer[..], orig, Contents, currentHead, k, i)
      {
        var currentIndex := (currentHead + i) % buffer.Length;
        var nextIndex := (currentHead + i + 1) % buffer.Length;
        SlotOffset(currentHead, i, c);
        ghost var before := buffer[..];
        if currentIndex == removeIndex {
          foundGap := true;
        }
        if foundGap {
          buffer[currentIndex] := buffer[nextIndex];
        }
        ShiftStep(before, buffer[..], orig, Contents, currentHead, k, i);
      }
    }
  }
}
