/** Specification functions on the logical FIFO window of a ring buffer,
    independent of any array layout. */
module Fifo {

  /** The window `s` after deleting the first occurrence of `x` in FIFO
      order; `s` itself when `x` does not occur. */
  function RemoveFirst<T(==)>(s: seq<T>, x: T): (r: seq<T>)
    ensures x in s ==> |r| == |s| - 1
    ensures x !in s ==> |r| == |s|
    ensures forall y :: y in r ==> y in s
  {
    if s == [] then []
    else if s[0] == x then s[1..]
    else [s[0]] + RemoveFirst(s[1..], x)
  }

  /** Deleting the first occurrence, found at index k, leaves the elements
      before and after it in their order. */
  lemma {:induction false} RemoveFirstAt<T>(s: seq<T>, x: T, k: int)
    requires 0 <= k < |s| && s[k] == x
    requires forall m :: 0 <= m < k ==> s[m] != x
    ensures RemoveFirst(s, x) == s[..k] + s[k + 1..]
  {
    if k > 0 {
      RemoveFirstAt(s[1..], x, k - 1);
      assert s[1..][..k - 1] == s[1..k];
      assert s[1..][k..] == s[k + 1..];
      assert [s[0]] + s[1..k] == s[..k];
    }
  }

  /** Deleting an element that is absent changes nothing. */
  lemma {:induction false} RemoveFirstAbsent<T>(s: seq<T>, x: T)
    requires x !in s
    ensures RemoveFirst(s, x) == s
  {
    if s != [] {
      assert s[0] != x;
      RemoveFirstAbsent(s[1..], x);
      assert [s[0]] + s[1..] == s;
    }
  }

  /** The result is the input with exactly one copy of `x` taken out. */
  lemma {:induction false} RemoveFirstMultiset<T>(s: seq<T>, x: T)
    ensures multiset(RemoveFirst(s, x)) == multiset(s) - multiset{x}
  {
    if s != [] {
      assert s == [s[0]] + s[1..];
      if s[0] != x {
        RemoveFirstMultiset(s[1..], x);
      }
    }
  }
}
