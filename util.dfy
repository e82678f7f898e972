/** Small shared definitions: an optional value and Python's non-negative slice s[:n]. */
module Util {

  datatype Option<+T> = None | Some(value: T)

  function Min(a: int, b: int): int
  {
    if a <= b then a else b
  }

  /** Python's s[:n] for n >= 0: the first min(n, |s|) elements. */
  function Take<T>(s: seq<T>, n: nat): (r: seq<T>)
    ensures |r| == Min(n, |s|)
    ensures r == s[..|r|]
  {
    if n <= |s| then s[..n] else s
  }

  /** Python's s[lo:hi] for 0 <= lo: both bounds are clamped to the length. */
  function Slice<T>(s: seq<T>, lo: nat, hi: nat): (r: seq<T>)
    ensures |r| == if Min(hi, |s|) <= Min(lo, |s|) then 0 else Min(hi, |s|) - Min(lo, |s|)
  {
    var a := Min(lo, |s|);
    var b := Min(hi, |s|);
    if b <= a then [] else s[a..b]
  }

  /** The middle part of a concatenation, sliced out by its bounds. */
  lemma SliceMiddle<T>(a: seq<T>, b: seq<T>, c: seq<T>)
    ensures Slice(a + (b + c), |a|, |a| + |b|) == b
  {
    assert (a + (b + c))[|a|..|a| + |b|] == b;
  }

  /** Position of the first occurrence of x in s (Python's list.index). */
  function FirstIndex<T(==)>(s: seq<T>, x: T): (i: nat)
    requires x in s
    ensures i < |s| && s[i] == x
    ensures forall j :: 0 <= j < i ==> s[j] != x
  {
    if s[0] == x then 0 else 1 + FirstIndex(s[1..], x)
  }

  lemma FirstIndexAppend<T>(s: seq<T>, t: seq<T>, x: T)
    requires x in s
    ensures x in s + t && FirstIndex(s + t, x) == FirstIndex(s, x)
  {
    var i := FirstIndex(s, x);
    assert (s + t)[i] == x;
    var k := FirstIndex(s + t, x);
    assert k <= i;
    assert s[k] == x;
  }
}
