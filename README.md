# RingBuffer.NET in Dafny

A verified model of the sequential behaviour of RingBuffer.NET's two buffer
classes:

- `RingBuffer<T>` (RingBuffer/RingBuffer.cs) is a fixed-capacity circular
  FIFO buffer. It keeps an array of slots, the cursors `head` and `tail` and
  the counter `size`, and updates them in place. `Put` appends. On a full
  buffer it either throws or evicts the oldest element, as `allowOverflow`
  says. `Get` removes the oldest element. `Remove` deletes the first match
  and shifts the later elements back to close the gap. `Clear`, `Contains`,
  `CopyTo` and the snapshot enumerator complete the collection interface.
- `GrowingRingBuffer<T>` (RingBuffer/GrowingRingBuffer.cs) hides `Put` with
  a version that never fails. A full buffer first gets a new array
  `originalCapacity` slots longer, with the live window copied to its start.

Each class is a Dafny `class` with the source's fields, updated in place. A
ghost sequence `Contents` holds the logical FIFO window, oldest first, and
`Valid()` ties it to the array. Slot `(head + i) % Capacity` holds
`Contents[i]` for `i < size`, and every other slot is cleared. The
invariant also keeps `0 <= size <= Capacity`, both cursors in range and
`tail == (head + size) % Capacity`. Every method is proved against
`Contents`: what it returns, the new window, and the new cursors.

Files:

- `outcomes.dfy`: error kinds, `Option` slots and result types. A thrown
  exception becomes a `Fail`/`Failure` value.
- `fifo.dfy`: `RemoveFirst`, the reference definition of `Remove` on the
  logical window, with its lemmas.
- `ring_layout.dfy`: the slot arithmetic on plain sequences. It covers how
  the window lies in the array, and how each in-place write (append, pop,
  overwrite, shift, clear) moves it.
- `ring_buffer.dfy`: class `RingBuffer`.
- `growing_ring_buffer.dfy`: class `GrowingRingBuffer`. It holds its
  base-class part as a `RingBuffer` in the field `ring` and updates that
  part's fields in place, as the C# subclass does through its protected
  fields.
- `scenarios.dfy`: client methods that replay the unit tests in
  RingBufferTests/. Each test's expected outcome is proved for every input
  of the tested shape.

Two results answer questions the code raises:

- `Remove` steps `tail` back by one slot after shifting. This is correct
  wherever the match lies in the window: the remaining elements keep their
  FIFO order (`RingBuffers.RingBuffer.Remove`, `RingLayout.ShiftDone`).
- `GrowingRingBuffer`'s constructor checks `startCapacity <= 0`, but that
  check is never reached. The base constructor throws first, with the same
  exception kind. `GrowingRingBuffers.GrowingRingBuffer.Create` models that
  order.

## Model

| member | source | states |
|---|---|---|
| Fifo.RemoveFirst | RingBuffer/RingBuffer.cs:283-326 | deleting the first occurrence of `x` shortens the window by one exactly when `x` occurs, and adds no element |
| Fifo.RemoveFirstAt | RingBuffer/RingBuffer.cs:285-314 | when the first match is at position `k`, the result is the elements before `k` followed by those after it, in order |
| Fifo.RemoveFirstAbsent | RingBuffer/RingBuffer.cs:295-296 | removing an absent element leaves the window unchanged |
| Fifo.RemoveFirstMultiset | RingBuffer/RingBuffer.cs:277-326 | the result holds the same elements as the input, minus exactly one copy of `x` |
| RingLayout.SlotOffset | RingBuffer/RingBuffer.cs:210-212 | the scan index `(head + i) % Capacity` is in range and is the slot at logical position `i` |
| RingLayout.StepBack | RingBuffer/RingBuffer.cs:317-320 | for a non-empty window, `(tail - 1 + Capacity) % Capacity` is the slot of the last element, at logical position `size - 1` |
| RingLayout.LaidAt | RingBuffer/RingBuffer.cs:172-178 | in a laid-out buffer, slot `(head + i) % Capacity` holds the `i`-th oldest element |
| RingLayout.LaidCleared | RingBuffer/RingBuffer.cs:227-238 | an array whose slots are all cleared lays out the empty window |
| RingLayout.LaidAppend | RingBuffer/RingBuffer.cs:113-125 | writing the item at `tail` of a buffer with room appends it to the window |
| RingLayout.LaidPop | RingBuffer/RingBuffer.cs:67-75 | the slot at `head` holds the oldest element; clearing it and advancing `head` drops that element from the window |
| RingLayout.LaidOverwrite | RingBuffer/RingBuffer.cs:127-146 | on a full buffer, writing at `tail` (equal to `head`) and advancing `head` evicts the oldest element and appends the new one |
| RingLayout.LaidFromStart | RingBuffer/GrowingRingBuffer.cs:78-95 | an array with the window copied to slots `0..size-1` and every later slot empty lays out the window from `head = 0` |
| RingLayout.ShiftStep | RingBuffer/RingBuffer.cs:302-314 | one round of the shift loop, which copies the next slot once the gap has been reached, keeps the shift invariant |
| RingLayout.ShiftDone | RingBuffer/RingBuffer.cs:316-318 | after the shift loop, clearing the last window slot lays out the window without element `k`, the rest in order |
| RingBuffers.RingBuffer.Init | RingBuffer/RingBuffer.cs:154-161 | a new buffer is empty, with `head = tail = size = 0`, every slot cleared and the given capacity and overflow flag |
| RingBuffers.RingBuffer.Create | RingBuffer/RingBuffer.cs:154-161 | fails with the out-of-range error exactly when `capacity <= 0`; otherwise gives an empty valid buffer with that capacity and overflow flag, and `head = tail = 0` |
| RingBuffers.RingBuffer.CreateWithCapacity | RingBuffer/RingBuffer.cs:152 | as `Create`, with overflow off: fails exactly when `capacity <= 0`, otherwise an empty buffer with `head = tail = 0` |
| RingBuffers.RingBuffer.CreateDefault | RingBuffer/RingBuffer.cs:150 | an empty buffer of capacity 4 with overflow off and `head = tail = 0` |
| RingBuffers.RingBuffer.Capacity | RingBuffer/RingBuffer.cs:48 | the capacity is positive and at least the number of elements held |
| RingBuffers.RingBuffer.Size | RingBuffer/RingBuffer.cs:53 | the size is the length of the logical window, between 0 and the capacity |
| RingBuffers.RingBuffer.Count | RingBuffer/RingBuffer.cs:191 | `Count` is the length of the logical window |
| RingBuffers.RingBuffer.FullTestIsAtCapacity | RingBuffer/RingBuffer.cs:94 | the test `tail == head && size != 0` holds exactly when `size == Capacity` |
| RingBuffers.RingBuffer.WindowSlot | RingBuffer/RingBuffer.cs:172-175 | the slot a scan reads at step `i` holds `Contents[i]` |
| RingBuffers.RingBuffer.Get | RingBuffer/RingBuffer.cs:60-80 | on an empty buffer, fails with nothing changed; otherwise returns the oldest element, drops it from the window, clears its slot, advances `head` modulo the capacity, keeps `tail` |
| RingBuffers.RingBuffer.Put | RingBuffer/RingBuffer.cs:87-111 | with room: appends the item at `tail`, advances `tail`, keeps `head`. Full with overflow: evicts the oldest element, appends, advances both cursors. Full without overflow: fails with nothing changed |
| RingBuffers.RingBuffer.AddToBuffer | RingBuffer/RingBuffer.cs:113-125 | writes the item at `tail`, advances `tail` modulo the capacity and appends it to the window |
| RingBuffers.RingBuffer.AddToBufferWithOverflow | RingBuffer/RingBuffer.cs:127-146 | on a full buffer, the window becomes `Contents[1..] + [item]`, the size stays and both cursors advance modulo the capacity |
| RingBuffers.RingBuffer.Add | RingBuffer/RingBuffer.cs:194 | behaves as `Put`: with room writes the item at `tail`, advances `tail` and keeps `head`; full with overflow evicts the oldest element and advances both cursors; full without overflow fails with nothing changed |
| RingBuffers.RingBuffer.Clear | RingBuffer/RingBuffer.cs:227-240 | every slot is cleared, both cursors and the size return to 0, the window is empty, the capacity stays |
| RingBuffers.RingBuffer.Contains | RingBuffer/RingBuffer.cs:204-221 | true exactly when the item occurs in the logical window |
| RingBuffers.RingBuffer.GetEnumerator | RingBuffer/RingBuffer.cs:165-183 | the snapshot is the logical window, oldest first |
| RingBuffers.RingBuffer.CopyTo | RingBuffer/RingBuffer.cs:250-266 | fails on a null array, a negative index or too little room, writing nothing; otherwise succeeds, puts `Contents[j]` at `arrayIndex + j` and leaves every other position alone |
| RingBuffers.RingBuffer.Remove | RingBuffer/RingBuffer.cs:277-326 | returns whether the item occurs; the window becomes `RemoveFirst` of the old one; an absent item changes nothing; on success `head` stays and `tail` steps back one slot |
| RingBuffers.RingBuffer.FindSlot | RingBuffer/RingBuffer.cs:283-296 | the search gives -1 exactly when the item is absent, else the slot of its first occurrence in FIFO order |
| RingBuffers.RingBuffer.ShiftOut | RingBuffer/RingBuffer.cs:298-325 | after the shift, the window is the old one without position `k`, `head` stays, `tail` steps back one slot and the invariant holds |
| RingBuffers.RingBuffer.ShiftBack | RingBuffer/RingBuffer.cs:298-314 | from position `k` on, each window slot takes the element of the next one; every other slot is unchanged |
| GrowingRingBuffers.GrowingRingBuffer.CapacityIsMultiple | RingBuffer/GrowingRingBuffer.cs:75 | the capacity is always a positive multiple of the start capacity, and at least the start capacity |
| GrowingRingBuffers.GrowingRingBuffer.Init | RingBuffer/GrowingRingBuffer.cs:109-118 | an empty buffer whose capacity and `originalCapacity` equal the argument, with overflow off and `head = tail = 0` |
| GrowingRingBuffers.GrowingRingBuffer.Create | RingBuffer/GrowingRingBuffer.cs:109-118 | fails with the out-of-range error exactly when `startCapacity <= 0`; otherwise gives an empty buffer of that capacity with `head = tail = 0` |
| GrowingRingBuffers.GrowingRingBuffer.CreateDefault | RingBuffer/GrowingRingBuffer.cs:107 | an empty growing buffer of start capacity 4 with `head = tail = 0` |
| GrowingRingBuffers.GrowingRingBuffer.Put | RingBuffer/GrowingRingBuffer.cs:43-60 | never fails; the window becomes `Contents + [item]`. With room, the array and `head` stay. When full, a fresh array exactly `originalCapacity` slots longer is installed, with `head = 0` and `tail = (size + 1) % Capacity` |
| GrowingRingBuffers.GrowingRingBuffer.ExpandAndAdd | RingBuffer/GrowingRingBuffer.cs:62-103 | re-checks fullness, grows a full buffer by exactly `originalCapacity`, then appends through the base `Put`, which succeeds |
| GrowingRingBuffers.GrowingRingBuffer.Expand | RingBuffer/GrowingRingBuffer.cs:72-98 | the window is unchanged, the new array is fresh and `originalCapacity` longer, `head = 0`, `tail = size`, and every slot of the old array is cleared |
| GrowingRingBuffers.GrowingRingBuffer.Unrolled | RingBuffer/GrowingRingBuffer.cs:75-83 | the new array holds `oldBuffer[(head + i) % oldLength]`, that is `Contents[i]`, at index `i` for `i < size`, and is empty after |
| GrowingRingBuffers.GrowingRingBuffer.Add | RingBuffer/RingBuffer.cs:194 | binds to the base `Put`: with room writes the item at `tail`, advances `tail` and keeps `head`; on a full buffer fails with nothing changed and does not grow |
| GrowingRingBuffers.GrowingRingBuffer.Get | RingBuffer/RingBuffer.cs:60-80 | the inherited `Get` on grown storage: on an empty buffer fails with nothing changed; otherwise returns the oldest element, drops it, clears its slot, advances `head` and keeps `tail`; the capacity stays |
| GrowingRingBuffers.GrowingRingBuffer.Clear | RingBuffer/RingBuffer.cs:227-240 | the inherited `Clear` empties the window and keeps the grown capacity |
| GrowingRingBuffers.GrowingRingBuffer.Remove | RingBuffer/RingBuffer.cs:277-326 | the inherited `Remove` on grown storage: true exactly when the item occurs, deletes its first occurrence in order; an absent item changes nothing, otherwise `head` stays and `tail` steps back; the capacity stays |
| Scenarios.NewestStep | RingBuffer/RingBuffer.cs:127-146 | appending to the newest-`n` window grows it until it holds `n`, then drops its oldest element |
| Scenarios.PutAllThenGetAll | RingBufferTests/RingBufferTests.cs:38-92 | a buffer filled to capacity with `xs` has size `i + 1` after the `i`-th `Add`, enumerates `xs`, gives back `xs` in order and has size `n - i - 1` after the `i`-th `Get`, for `n` elements |
| Scenarios.OverflowKeepsNewest | RingBuffer/RingBuffer.cs:96-101 | with overflow on, a buffer keeps exactly the newest `capacity` elements put into it, in order |
| Scenarios.PutBeyondCapacityIsRejected | RingBuffer/RingBuffer.cs:102-105 | without overflow, a put into a full buffer fails and the contents come back intact |
| Scenarios.GetOnEmptyFails | RingBufferTests/RingBufferTests.cs:99-103 | `Get` on a new default buffer fails with the empty-buffer error |
| Scenarios.NonPositiveCapacityIsRejected | RingBuffer/RingBuffer.cs:156-157 | both constructors refuse a capacity of zero or less |
| Scenarios.ContainsAfterAdds | RingBufferTests/RingBufferTests.cs:126-137 | the known value 1 is absent before it is added and found after |
| Scenarios.ClearEmpties | RingBufferTests/RingBufferTests.cs:144-150 | after `Clear` the count is 0 and the capacity stays |
| Scenarios.CopyFromIndexOne | RingBufferTests/RingBufferTests.cs:156-167 | copying 0..n-1 from index 1 leaves position 0 alone and puts `i - 1` at position `i` |
| Scenarios.RemoveFirstItem | RingBufferTests/RingBufferTests.cs:174-183 | removing 0 from 0..n-1 succeeds, leaves no 0 behind and lowers the count by one |
| Scenarios.GrowingFifo | RingBufferTests/GrowingRingBufferTests.cs:92-107 | the growing buffer never refuses, keeps FIFO order across growths, and ends with the least multiple of the start capacity that holds everything |
| Scenarios.TenPutsFromTwo | RingBufferTests/GrowingRingBufferTests.cs:132-150 | from start capacity 2, ten puts give capacity 10 and come back as 0..9 |
| Scenarios.GrowsByStartCapacity | RingBufferTests/GrowingRingBufferTests.cs:64-89 | from start capacity 3 the capacity steps 3, 6, 6, 9 |
| Scenarios.AddDoesNotGrow | RingBufferTests/GrowingRingBufferTests.cs:110-129 | `Add` on a full growing buffer fails at capacity 2, while `Put` grows it to 4 |
| Scenarios.ClearKeepsGrownCapacity | RingBufferTests/GrowingRingBufferTests.cs:174-191 | five puts from 2 reach capacity 6; `Clear` empties the buffer and keeps capacity 6 |
| Scenarios.ContainsAfterGrowth | RingBufferTests/GrowingRingBufferTests.cs:194-212 | after growth, 0..4 are found and 5 and -1 are not |
| Scenarios.CopyToAfterGrowth | RingBufferTests/GrowingRingBufferTests.cs:215-233 | after growth, the window copies in order from index 2 |
| Scenarios.RemoveAfterGrowth | RingBufferTests/GrowingRingBufferTests.cs:236-251 | after growth, removing 2 succeeds, the size drops to 4 and 2 is gone; removing 10 fails |

## Left out

- Concurrency: `volatile` fields, `Thread.MemoryBarrier`, `Interlocked.Increment`/`Decrement` and `lock (expandLock)`. They only order memory between threads. The model is sequential, so every operation runs to completion before the next one starts. The multi-threaded tests in RingBufferTests/ThreadSafetyTests.cs are not modelled.
- GrowingRingBuffers.GrowingRingBuffer.ExpandAndAdd: the double-check is kept as written. Sequentially it always finds the buffer full when `Put` calls it. The race it guards against is not modelled.
- Slot contents: a cleared slot is `None`, in place of C#'s `default`. A stored element equal to `default(T)`, for example `0` in a `RingBuffer<int>`, is therefore still told apart from a cleared slot. This makes no difference, because the code reads only slots inside the window.
- Equality: `EqualityComparer<T>.Default` becomes Dafny `==` on the element type.
- RingBuffers.RingBuffer.GetEnumerator: the filter `item != null || typeof(T).IsValueType` depends on reflection and is not modelled. The snapshot is the whole window, as it is for value types and non-null elements. Lazy enumeration of the snapshot list is not modelled either.
- RingBuffers.RingBuffer.CopyTo: requires the destination array not to be the buffer's own backing array. The verifier cannot tell an `array<T>` from the `array<Option<T>>` for a generic `T`. In C#, callers cannot reach the protected `buffer` anyway.
- Integer width: every sum is an unbounded integer here. The index sums `head + i` and `tail - 1 + Capacity` reach `2 * Capacity - 2`, so in C# they overflow Int32 once the capacity exceeds 2^30. The growth sum `buffer.Length + originalCapacity` reaches `2 * Capacity` before the first growth, so it overflows once the capacity reaches 2^30. The model does not capture these overflows.
- GrowingRingBuffers.GrowingRingBuffer.Put: never fails in the model. In C#, a growth whose new capacity overflows Int32 makes the array allocation throw OverflowException, and an allocation beyond available memory throws OutOfMemoryException; neither is modelled, because the model's integers are unbounded and its allocation cannot fail.
- .NET interface plumbing: `ICollection.CopyTo(Array, int)` with its runtime cast, `SyncRoot`, `IsSynchronized`, `IsReadOnly`, `AllowOverflow`, and the non-generic enumerator adapters.
- Inheritance: `GrowingRingBuffer` reaches the base-class state through its field `ring`. The inherited read-only members (`Contains`, `CopyTo`, `GetEnumerator`, `Capacity`, `Size`, `Count`) are called on `ring` directly.
- The benchmark program in RingBufferBenchmarks/Program.cs has no logic of its own.
