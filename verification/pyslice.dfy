/** Python's list slicing `s[start:end]` with a step of one, including its
    treatment of negative and out-of-range bounds. Pagination is built on it,
    so a page number of zero or below behaves as Python makes it behave. */
module PySlice {
  import opened Basics

  /** How Python adjusts one slice bound for a list of length `n`: a negative
      bound counts from the end, and the result is clamped into `[0, n]`. */
  function Normalize(i: int, n: nat): (r: nat)
    ensures r <= n
    ensures 0 <= i ==> r == Min(i, n)
    ensures i < 0 ==> r == Max(0, n + i)
  {
    if i < 0 then
      if i + n < 0 then 0 else i + n
    else if i > n then n
    else i
  }

  /** `s[start:end]`: the elements from the adjusted start up to the adjusted
      end, or nothing when the adjusted start is not before the adjusted end. */
  function Slice<T>(s: seq<T>, start: int, end: int): (r: seq<T>)
    ensures |r| <= |s|
    ensures |r| == Max(0, Normalize(end, |s|) - Normalize(start, |s|))
    ensures forall k :: 0 <= k < |r| ==> r[k] == s[Normalize(start, |s|) + k]
  {
    var lo := Normalize(start, |s|);
    var hi := Normalize(end, |s|);
    if lo < hi then s[lo..hi] else []
  }

  /** With non-negative bounds a Python slice is the ordinary sub-sequence
      between the bounds, each cut off at the end of the list; with both
      bounds negative it is the same, counted from the end of the list. */
  lemma SliceBounds<T>(s: seq<T>, start: int, end: int)
    ensures 0 <= start <= end ==> Slice(s, start, end) == s[Min(start, |s|)..Min(end, |s|)]
    ensures start <= end < 0 ==> Slice(s, start, end) == s[Max(0, |s| + start)..Max(0, |s| + end)]
  {
  }
}
