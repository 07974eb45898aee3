/**
 * The two `Array.prototype` methods the memo store is built from:
 * `filter`, which keeps the elements a predicate accepts in their order, and
 * `slice(start, end)`, with its rules for negative and out-of-range bounds.
 */
module JsArray {

  function Filter<T>(s: seq<T>, p: T -> bool): (r: seq<T>)
    ensures |r| <= |s|
    ensures forall i :: 0 <= i < |r| ==> r[i] in s && p(r[i])
    ensures forall i :: 0 <= i < |s| && p(s[i]) ==> s[i] in r
    decreases |s|
  {
    if s == [] then []
    else (if p(s[0]) then [s[0]] else []) + Filter(s[1..], p)
  }

  /** Filtering a concatenation filters each part in place: the relative order is kept. */
  lemma {:induction false} FilterConcat<T>(s: seq<T>, t: seq<T>, p: T -> bool)
    ensures Filter(s + t, p) == Filter(s, p) + Filter(t, p)
    decreases |s|
  {
    if s != [] {
      var head := if p(s[0]) then [s[0]] else [];
      assert (s + t)[0] == s[0] && (s + t)[1..] == s[1..] + t;
      FilterConcat(s[1..], t, p);
      var rest, tail := Filter(s[1..], p), Filter(t, p);
      assert Filter(s + t, p) == head + (rest + tail);
      assert Filter(s, p) == head + rest;
      assert head + (rest + tail) == (head + rest) + tail;
    } else {
      assert s + t == t;
    }
  }

  /** A filter that rejects nothing returns its input. */
  lemma {:induction false} FilterKeepsAll<T>(s: seq<T>, p: T -> bool)
    requires forall i :: 0 <= i < |s| ==> p(s[i])
    ensures Filter(s, p) == s
    decreases |s|
  {
    if s != [] {
      FilterKeepsAll(s[1..], p);
    }
  }

  /** Filtering twice by the same predicate is filtering once. */
  lemma FilterIdempotent<T>(s: seq<T>, p: T -> bool)
    ensures Filter(Filter(s, p), p) == Filter(s, p)
  {
    FilterKeepsAll(Filter(s, p), p);
  }

  /** The index `slice` starts or stops at, for a relative bound `rel` on a sequence of length `len`. */
  function SliceBound(rel: int, len: nat): (k: nat)
    ensures k <= len
  {
    if rel < 0 then (if len + rel < 0 then 0 else len + rel)
    else if rel < len then rel
    else len
  }

  /** `s.slice(start, end)`: a negative bound counts from the end; an empty range gives []. */
  function Slice<T>(s: seq<T>, start: int, end: int): (r: seq<T>)
    ensures |r| <= |s|
    ensures var from, to := SliceBound(start, |s|), SliceBound(end, |s|);
            |r| == if from < to then to - from else 0
    ensures var from := SliceBound(start, |s|);
            forall i :: 0 <= i < |r| ==> from + i < |s| && r[i] == s[from + i]
  {
    var from, to := SliceBound(start, |s|), SliceBound(end, |s|);
    if from < to then s[from..to] else []
  }

  /** For non-negative bounds a slice is the ordinary subsequence, cut at the end of s. */
  lemma SliceNonNegative<T>(s: seq<T>, start: int, end: int)
    requires 0 <= start <= end
    ensures start >= |s| ==> Slice(s, start, end) == []
    ensures start < |s| && end <= |s| ==> Slice(s, start, end) == s[start..end]
    ensures start < |s| && end > |s| ==> Slice(s, start, end) == s[start..]
  {
  }
}
