/**
 * Python list slicing `s[start:end]` (step 1), as the cell selector uses it:
 * negative bounds count from the end, bounds out of range are clamped, and a
 * start at or after the end gives an empty list rather than an error.
 */
module Slice {
  import opened Wrappers

  function Min(a: int, b: int): int {
    if a <= b then a else b
  }

  /**
   * One bound of a slice over a list of length n, as slice.indices adjusts it:
   * add n to a negative bound, then clamp to [0, n].
   */
  function NormIndex(i: int, n: nat): (r: nat)
    ensures r <= n
    ensures i >= 0 ==> r == Min(i, n)
    ensures i < 0 ==> r == n - Min(-i, n)
  {
    if i < 0 then
      if i + n < 0 then 0 else i + n
    else if i >= n then n
    else i
  }

  /** The start of a slice; a missing start (None) is the beginning. */
  function SliceStart(start: Option<int>, n: nat): (r: nat)
    ensures r <= n
    ensures start.None? ==> r == 0
    ensures start.Some? && start.value >= 0 ==> r == Min(start.value, n)
    ensures start.Some? && start.value < 0 ==> r == n - Min(-start.value, n)
  {
    match start
    case None => 0
    case Some(i) => NormIndex(i, n)
  }

  /** The stop of a slice; a missing stop (None) is the end. */
  function SliceStop(end: Option<int>, n: nat): (r: nat)
    ensures r <= n
    ensures end.None? ==> r == n
    ensures end.Some? && end.value >= 0 ==> r == Min(end.value, n)
    ensures end.Some? && end.value < 0 ==> r == n - Min(-end.value, n)
  {
    match end
    case None => n
    case Some(i) => NormIndex(i, n)
  }

  /** `s[start:end]`. */
  function PySlice<T>(s: seq<T>, start: Option<int>, end: Option<int>): (r: seq<T>)
    ensures var lo, hi := SliceStart(start, |s|), SliceStop(end, |s|);
      |r| == if lo < hi then hi - lo else 0
    ensures forall k :: 0 <= k < |r| ==> r[k] == s[SliceStart(start, |s|) + k]
  {
    var lo, hi := SliceStart(start, |s|), SliceStop(end, |s|);
    if lo < hi then s[lo..hi] else []
  }

  /** Python's `range(lo, hi)`. */
  function IndexRange(lo: int, hi: int): seq<int>
    decreases hi - lo
  {
    if lo >= hi then [] else [lo] + IndexRange(lo + 1, hi)
  }

  lemma {:induction false} IndexRangeAt(lo: int, hi: int)
    ensures |IndexRange(lo, hi)| == if lo < hi then hi - lo else 0
    ensures forall k :: 0 <= k < |IndexRange(lo, hi)| ==> IndexRange(lo, hi)[k] == lo + k
    decreases hi - lo
  {
    if lo < hi {
      IndexRangeAt(lo + 1, hi);
    }
  }

  /** The elements of `s` at the positions `idx`, in that order. */
  function Pick<T>(s: seq<T>, idx: seq<int>): seq<T>
    requires forall k :: 0 <= k < |idx| ==> 0 <= idx[k] < |s|
  {
    if idx == [] then [] else [s[idx[0]]] + Pick(s, idx[1..])
  }

  /**
   * The slice is the list of the elements at `range(*slice(start, end).indices(len(s)))`,
   * the reference meaning of slicing.
   */
  lemma {:induction false} SliceIsPick<T>(s: seq<T>, start: Option<int>, end: Option<int>)
    ensures var idx := IndexRange(SliceStart(start, |s|), SliceStop(end, |s|));
      (forall k :: 0 <= k < |idx| ==> 0 <= idx[k] < |s|) && PySlice(s, start, end) == Pick(s, idx)
  {
    var lo, hi := SliceStart(start, |s|), SliceStop(end, |s|);
    IndexRangeAt(lo, hi);
    PickRange(s, lo, hi);
  }

  lemma {:induction false} PickRange<T>(s: seq<T>, lo: nat, hi: nat)
    requires hi <= |s|
    ensures (forall k :: 0 <= k < |IndexRange(lo, hi)| ==> 0 <= IndexRange(lo, hi)[k] < |s|)
    ensures Pick(s, IndexRange(lo, hi)) == if lo < hi then s[lo..hi] else []
    decreases hi - lo
  {
    IndexRangeAt(lo, hi);
    if lo < hi {
      PickRange(s, lo + 1, hi);
      assert IndexRange(lo, hi)[1..] == IndexRange(lo + 1, hi);
      assert s[lo..hi] == [s[lo]] + s[lo + 1..hi];
    }
  }

  /** `s[0:]` and `s[:]` are the whole list. */
  lemma SliceWhole<T>(s: seq<T>)
    ensures PySlice(s, Some(0), None) == s
    ensures PySlice(s, None, None) == s
  {
  }

  /** `s[-k:]` is the last k elements, or all of them when there are fewer. */
  lemma SliceLast<T>(s: seq<T>, k: nat)
    requires k > 0
    ensures PySlice(s, Some(-(k as int)), None) == s[|s| - Min(k, |s|)..]
  {
    var lo := |s| - Min(k, |s|);
    assert SliceStart(Some(-(k as int)), |s|) == lo;
    assert SliceStop(None, |s|) == |s|;
    assert s[lo..] == s[lo..|s|];
  }

  /** A start at or after the stop selects nothing: `s[i:i]`, and `s[3:1]`. */
  lemma SliceCrossed<T>(s: seq<T>, i: int, j: int)
    requires NormIndex(i, |s|) >= NormIndex(j, |s|)
    ensures PySlice(s, Some(i), Some(j)) == []
  {
  }

  /** A negative bound in range means the same as the bound counted from the front. */
  lemma SliceFromEnd<T>(s: seq<T>, i: int, end: Option<int>)
    requires -|s| <= i < 0
    ensures PySlice(s, Some(i), end) == PySlice(s, Some(i + |s|), end)
  {
  }
}
