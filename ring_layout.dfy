/** The slot arithmetic of RingBuffer/RingBuffer.cs, on values: where the
    logical window of a ring buffer lies in its backing array, and how each
    in-place update of the array moves that window. */
module RingLayout {
  import opened Outcomes

  /** The remainder of a number below twice the modulus, without division. */
  lemma ModWrap(k: int, c: int)
    requires 0 < c && 0 <= k < 2 * c
    ensures k % c == if k < c then k else k - c
  {
    if k >= c {
      assert k == c * 1 + (k - c);
    }
  }

  /** How many steps forward from `head`, modulo `c`, slot `j` lies: its
      position in logical order. */
  function OffsetFrom(head: int, j: int, c: int): (off: int)
    requires 0 <= head < c && 0 <= j < c
    ensures 0 <= off < c
  {
    if j >= head then j - head else j + c - head
  }

  /** The slot the code computes as `(head + i) % c` is the one at logical
      position `i`; distinct positions below `c` are distinct slots. */
  lemma SlotOffset(head: int, i: int, c: int)
    requires 0 <= head < c && 0 <= i < c
    ensures 0 <= (head + i) % c < c
    ensures OffsetFrom(head, (head + i) % c, c) == i
  {
    ModWrap(head + i, c);
  }

  /** The slot just before `tail`, computed as `(tail - 1 + c) % c`, is the
      last one of a non-empty window. */
  lemma StepBack(head: int, size: int, tail: int, c: int)
    requires 0 <= head < c && 0 < size <= c && tail == (head + size) % c
    ensures 0 <= (tail - 1 + c) % c < c
    ensures (tail - 1 + c) % c == (head + (size - 1)) % c
    ensures OffsetFrom(head, (tail - 1 + c) % c, c) == size - 1
  {
    ModWrap(head + size, c);
    ModWrap(tail - 1 + c, c);
    SlotOffset(head, size - 1, c);
  }

  /** The slot layout of a valid buffer: the window starting at `head`
      holds `contents` in order and every other slot is cleared. */
  ghost predicate Laid<T>(buf: seq<Option<T>>, contents: seq<T>, head: int)
  {
    && 0 <= head < |buf|
    && |contents| <= |buf|
    && forall j :: 0 <= j < |buf| ==> LaidSlot(buf, contents, head, j)
  }

  /** Slot `j` holds the element at its logical position, or is cleared
      when that position is past the window. */
  ghost predicate LaidSlot<T>(buf: seq<Option<T>>, contents: seq<T>, head: int, j: int)
    requires 0 <= head < |buf| && 0 <= j < |buf|
  {
    buf[j] == (if OffsetFrom(head, j, |buf|) < |contents|
               then Some(contents[OffsetFrom(head, j, |buf|)])
               else None)
  }

  /** The slot a scan reads at step `i` holds the `i`-th oldest element. */
  lemma LaidAt<T>(buf: seq<Option<T>>, contents: seq<T>, head: int, i: int)
    requires Laid(buf, contents, head) && 0 <= i < |contents|
    ensures 0 <= (head + i) % |buf| < |buf|
    ensures buf[(head + i) % |buf|] == Some(contents[i])
  {
    SlotOffset(head, i, |buf|);
    assert LaidSlot(buf, contents, head, (head + i) % |buf|);
  }

  /** An array whose slots are all cleared lays out the empty window, from
      any starting slot. */
  lemma LaidCleared<T>(buf: seq<Option<T>>, head: int)
    requires 0 <= head < |buf|
    requires forall j :: 0 <= j < |buf| ==> buf[j] == None
    ensures Laid(buf, [], head)
  {
  }

  /** Writing `x` into the first free slot after the window of a buffer that
      has room appends `x` to the window. */
  lemma {:induction false} LaidAppend<T>(buf: seq<Option<T>>, contents: seq<T>, head: int, x: T)
    requires Laid(buf, contents, head) && |contents| < |buf|
    ensures 0 <= (head + |contents|) % |buf| < |buf|
    ensures Laid(buf[(head + |contents|) % |buf| := Some(x)], contents + [x], head)
  {
    var c := |buf|;
    var t := (head + |contents|) % c;
    SlotOffset(head, |contents|, c);
    var after := buf[t := Some(x)];
    var longer := contents + [x];
    forall j | 0 <= j < c
      ensures LaidSlot(after, longer, head, j)
    {
      if j != t {
        assert LaidSlot(buf, contents, head, j);
        assert after[j] == buf[j];
      }
    }
  }

  /** Clearing the slot at `head` of a non-empty buffer and stepping `head`
      forward drops the oldest element from the window. */
  lemma {:induction false} LaidPop<T>(buf: seq<Option<T>>, contents: seq<T>, head: int)
    requires Laid(buf, contents, head) && 0 < |contents|
    ensures buf[head] == Some(contents[0])
    ensures Laid(buf[head := None], contents[1..], (head + 1) % |buf|)
  {
    var c := |buf|;
    ModWrap(head, c);
    LaidAt(buf, contents, head, 0);
    ModWrap(head + 1, c);
    var next := (head + 1) % c;
    var after := buf[head := None];
    var shorter := contents[1..];
    forall j | 0 <= j < c
      ensures LaidSlot(after, shorter, next, j)
    {
      if j != head {
        assert LaidSlot(buf, contents, head, j);
        assert OffsetFrom(next, j, c) == OffsetFrom(head, j, c) - 1;
        assert after[j] == buf[j];
      }
    }
  }

  /** On a full buffer `tail` equals `head`: writing `x` there and stepping
      `head` forward evicts the oldest element and appends `x`. */
  lemma {:induction false} LaidOverwrite<T>(buf: seq<Option<T>>, contents: seq<T>, head: int, x: T)
    requires Laid(buf, contents, head) && |contents| == |buf|
    ensures Laid(buf[head := Some(x)], contents[1..] + [x], (head + 1) % |buf|)
  {
    var c := |buf|;
    ModWrap(head + 1, c);
    var next := (head + 1) % c;
    var after := buf[head := Some(x)];
    var rotated := contents[1..] + [x];
    forall j | 0 <= j < c
      ensures LaidSlot(after, rotated, next, j)
    {
      if j != head {
        assert LaidSlot(buf, contents, head, j);
        assert OffsetFrom(next, j, c) == OffsetFrom(head, j, c) - 1;
        assert after[j] == buf[j];
      } else {
        assert OffsetFrom(next, j, c) == c - 1;
      }
    }
  }

  /** A fresh array holding the window at its start, in order, with every
      later slot cleared, lays out that window from slot 0. */
  lemma LaidFromStart<T>(buf: seq<Option<T>>, contents: seq<T>)
    requires |contents| <= |buf| && 0 < |buf|
    requires forall m :: 0 <= m < |contents| ==> buf[m] == Some(contents[m])
    requires forall m :: |contents| <= m < |buf| ==> buf[m] == None
    ensures Laid(buf, contents, 0)
  {
  }

  /** Remove's shift loop after `i` rounds: the window positions `k` to
      `i - 1` hold the element one position later, every other slot is as
      it was in `orig`. */
  ghost predicate ShiftedUpTo<T>(buf: seq<Option<T>>, orig: seq<Option<T>>, contents: seq<T>,
                                 head: int, k: int, i: int)
  {
    && 0 <= head < |buf| == |orig|
    && i < |contents|
    && forall j :: 0 <= j < |buf| ==> ShiftedSlot(buf, orig, contents, head, k, i, j)
  }

  /** Slot `j` after `i` rounds of the shift loop. */
  ghost predicate ShiftedSlot<T>(buf: seq<Option<T>>, orig: seq<Option<T>>, contents: seq<T>,
                                 head: int, k: int, i: int, j: int)
    requires 0 <= head < |buf| == |orig| && i < |contents| && 0 <= j < |buf|
  {
    buf[j] == (if k <= OffsetFrom(head, j, |buf|) < i
               then Some(contents[OffsetFrom(head, j, |buf|) + 1])
               else orig[j])
  }

  /** One round of the shift loop, which copies the slot after `current`
      into `current` once the gap has been reached, keeps its invariant. */
  lemma {:induction false} ShiftStep<T>(before: seq<Option<T>>, after: seq<Option<T>>, orig: seq<Option<T>>,
                                        contents: seq<T>, head: int, k: int, i: int)
    requires Laid(orig, contents, head) && 0 <= k && 0 <= i && i + 1 < |contents|
    requires ShiftedUpTo(before, orig, contents, head, k, i)
    requires after == if k <= i
                      then before[(head + i) % |before| := before[(head + i + 1) % |before|]]
                      else before
    ensures ShiftedUpTo(after, orig, contents, head, k, i + 1)
  {
    var c := |before|;
    SlotOffset(head, i, c);
    SlotOffset(head, i + 1, c);
    var current := (head + i) % c;
    var next := (head + i + 1) % c;
    assert ShiftedSlot(before, orig, contents, head, k, i, next);
    assert LaidSlot(orig, contents, head, next);
    var rounds := i + 1;
    forall j | 0 <= j < c
      ensures ShiftedSlot(after, orig, contents, head, k, rounds, j)
    {
      assert ShiftedSlot(before, orig, contents, head, k, i, j);
      if j != current {
        assert after[j] == before[j];
      }
    }
  }

  /** When the shift loop ends, clearing the last window slot lays out the
      window without its element `k`, the others in their order. */
  lemma {:induction false} ShiftDone<T>(buf: seq<Option<T>>, orig: seq<Option<T>>, contents: seq<T>,
                                        head: int, k: int, last: int)
    requires Laid(orig, contents, head) && 0 <= k < |contents|
    requires ShiftedUpTo(buf, orig, contents, head, k, |contents| - 1)
    requires 0 <= last < |buf| && OffsetFrom(head, last, |buf|) == |contents| - 1
    ensures Laid(buf[last := None], contents[..k] + contents[k + 1..], head)
  {
    var c := |buf|;
    var rest := contents[..k] + contents[k + 1..];
    var after := buf[last := None];
    forall j | 0 <= j < c
      ensures LaidSlot(after, rest, head, j)
    {
      var off := OffsetFrom(head, j, c);
      assert ShiftedSlot(buf, orig, contents, head, k, |contents| - 1, j);
      assert LaidSlot(orig, contents, head, j);
      if j == last {
      } else if off < k {
        assert rest[off] == contents[off];
      } else if off < |contents| - 1 {
        assert rest[off] == contents[off + 1];
      }
    }
  }
}
