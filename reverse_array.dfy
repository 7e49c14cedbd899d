/**
 * `Array.prototype.customReverse`: a polyfill of `Array.prototype.reverse`
 * that swaps elements in place from both ends towards the middle and returns
 * the array it was called on.
 */
module ReverseArray {
  import opened Sequences

  /**
   * The two-pointer swap loop. `a` plays the part of `this`; the returned
   * reference is `a` itself, and `swaps` counts the iterations of the loop.
   */
  method CustomReverse<T>(a: array<T>) returns (r: array<T>, ghost swaps: nat)
    modifies a
    ensures r == a
    ensures a[..] == Reversed(old(a[..]))
    ensures swaps == a.Length / 2
  {
    ghost var before := a[..];
    var left := 0;
    var right := a.Length - 1;
    swaps := 0;
    while left < right
      invariant left + right == a.Length - 1
      invariant 0 <= left <= a.Length / 2
      invariant swaps == left
      invariant forall k :: 0 <= k < left ==> a[k] == before[a.Length - 1 - k] && a[a.Length - 1 - k] == before[k]
      invariant forall k :: left <= k <= right ==> a[k] == before[k]
    {
      Swap(a, left, right);
      left := left + 1;
      right := right - 1;
      swaps := swaps + 1;
    }
    MeetInTheMiddle(before, a[..], left);
    r := a;
  }

  /** One iteration's exchange through `temp`: only positions `i` and `j` change. */
  method Swap<T>(a: array<T>, i: int, j: int)
    requires 0 <= i < a.Length && 0 <= j < a.Length
    modifies a
    ensures a[..] == old(a[..])[i := old(a[j])][j := old(a[i])]
  {
    var temp := a[i];
    a[i] := a[j];
    a[j] := temp;
  }

  /**
   * When the two pointers have met, the mirrored outer parts and the untouched
   * middle together make up the whole reversal.
   */
  lemma MeetInTheMiddle<T>(before: seq<T>, after: seq<T>, left: int)
    requires |after| == |before|
    requires 0 <= left <= |before| / 2 && 2 * left >= |before| - 1
    requires forall k :: 0 <= k < left ==> after[k] == before[|before| - 1 - k] && after[|before| - 1 - k] == before[k]
    requires forall k :: left <= k <= |before| - 1 - left ==> after[k] == before[k]
    ensures after == Reversed(before)
  {
    var n := |before|;
    forall k | 0 <= k < n
      ensures after[k] == before[n - 1 - k]
    {
      if n - 1 - left < k {
        var m := n - 1 - k;
        assert 0 <= m < left;
      }
    }
    ReversedFromMirror(before, after);
  }
}
