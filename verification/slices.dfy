/**
 Python's indexing and slicing rules, written out so that the navigation code's
 `text[:-k]`, `text[k:]` and `matches[-n]` mean exactly what they mean in Python:
 negative indexes count from the end, slice bounds are clamped to the sequence,
 and an out-of-range list index raises IndexError (modelled as `None`).
 */
module Slices {
  import opened Wrappers

  function Min(a: int, b: int): int { if a <= b then a else b }
  function Max(a: int, b: int): int { if a <= b then b else a }

  /** The position a slice bound `i` denotes in a sequence of length `n`. */
  function Bound(i: int, n: nat): (r: nat)
    ensures r <= n
  {
    if i < 0 then (if n + i < 0 then 0 else n + i)
    else if i > n then n
    else i
  }

  /** `s[:j]` */
  function Prefix<T>(s: seq<T>, j: int): (r: seq<T>)
    ensures |r| <= |s| && r == s[..|r|]
    ensures 0 <= j ==> |r| == Min(j, |s|)
    ensures j < 0 ==> |r| == Max(0, |s| + j)
  {
    s[..Bound(j, |s|)]
  }

  /** `s[i:]` */
  function Suffix<T>(s: seq<T>, i: int): (r: seq<T>)
    ensures |r| <= |s| && r == s[|s| - |r|..]
    ensures 0 <= i ==> |r| == Max(0, |s| - i)
    ensures i < 0 ==> |r| == Min(-i, |s|)
  {
    s[Bound(i, |s|)..]
  }

  /** `xs[i]` on a Python list, with `None` for the IndexError. */
  function ListIndex<T>(xs: seq<T>, i: int): (r: Option<T>)
    ensures r.Some? <==> -|xs| <= i < |xs|
    ensures 0 <= i < |xs| ==> r == Some(xs[i])
    ensures -|xs| <= i < 0 ==> r == Some(xs[|xs| + i])
  {
    if 0 <= i < |xs| then Some(xs[i])
    else if -|xs| <= i < 0 then Some(xs[|xs| + i])
    else None
  }

  /**
   `s[:-k]` for a count `k`: it keeps all but the last `k` elements, and it is
   EMPTY both when `k` exceeds the length and when `k` is zero, since `-0` is `0`.
   */
  lemma DropLast<T>(s: seq<T>, k: int)
    requires 0 <= k
    ensures k == 0 ==> Prefix(s, -k) == []
    ensures 0 < k <= |s| ==> Prefix(s, -k) == s[..|s| - k]
    ensures |s| < k ==> Prefix(s, -k) == []
  {
  }

  /** Slicing a suffix is slicing the whole sequence at shifted bounds. */
  lemma SliceOfSuffix<T>(s: seq<T>, d: int, a: int, b: int)
    requires 0 <= d <= |s|
    requires 0 <= a <= b <= |s| - d
    ensures s[d..][a..b] == s[d + a..d + b]
  {
  }

  /** `s[k:]` for a count `k`: all but the first `k` elements, empty once `k` reaches the length. */
  lemma DropFirst<T>(s: seq<T>, k: int)
    requires 0 <= k
    ensures k <= |s| ==> Suffix(s, k) == s[k..]
    ensures |s| < k ==> Suffix(s, k) == []
  {
  }

}
