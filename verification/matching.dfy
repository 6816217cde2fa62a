/**
 Occurrence selection: `match_forward` and `match_backwards` pick the Nth
 match of a pattern counted outward from the cursor.

 The regular-expression engine itself is not modelled. A `Matcher` is any
 function from a string to the ranges `finditer` would report for it: in
 left-to-right order, non-overlapping, and inside the string.
 */
module Matching {
  import opened Wrappers
  import opened Slices

  /** A half-open range `[start, end)` of offsets, as `match.start()` / `match.end()`. */
  datatype Span = Span(start: int, end: int) {
    /** The same range moved `d` offsets to the right. */
    function Shift(d: int): Span { Span(start + d, end + d) }
  }

  predicate Within(m: Span, n: int) { 0 <= m.start <= m.end <= n }

  /** What `finditer` promises about the matches it yields for a string of length `n`. */
  predicate WellFormed(ms: seq<Span>, n: int) {
    && (forall i :: 0 <= i < |ms| ==> Within(ms[i], n))
    && (forall i :: 0 < i < |ms| ==> ms[i - 1].end <= ms[i].start)
  }

  type Matcher = f: string -> seq<Span> | forall s :: WellFormed(f(s), |s|)
    witness (s: string) => []

  /** `list(regex.finditer(s))` */
  function Find(p: Matcher, s: string): (ms: seq<Span>)
    ensures WellFormed(ms, |s|)
  {
    p(s)
  }

  /** Matches that are well formed are ordered as a whole, not only neighbour by neighbour. */
  lemma {:induction false} Ordered(ms: seq<Span>, n: int, i: int, j: int)
    requires WellFormed(ms, n)
    requires 0 <= i < j < |ms|
    ensures ms[i].end <= ms[j].start
    decreases j - i
  {
    if j > i + 1 {
      Ordered(ms, n, i, j - 1);
      assert Within(ms[j - 1], n);
    }
  }

  /** `next(itertools.islice(ms, skip, None))`, with `None` for StopIteration. */
  function Islice(ms: seq<Span>, skip: nat): (r: Option<Span>)
    ensures r.Some? <==> skip < |ms|
    ensures r.Some? ==> r.value == ms[skip]
  {
    if |ms| == 0 then None
    else if skip == 0 then Some(ms[0])
    else Islice(ms[1..], skip - 1)
  }

  /** `match_forward`: the `n`-th match from the left, or `None` when there are fewer than `n`. */
  function MatchForward(p: Matcher, n: int, s: string): (r: Option<Span>)
    requires n >= 1
    ensures r.Some? <==> n <= |Find(p, s)|
    ensures r.Some? ==> r.value == Find(p, s)[n - 1] && Within(r.value, |s|)
  {
    Islice(Find(p, s), n - 1)
  }

  /**
   `match_backwards`: `list(finditer)[-n]`. For `n >= 1` this is the `n`-th match
   from the right; Python's negative indexing also gives a meaning to `n <= 0`
   (with `n == 0` the FIRST match, since `[-0]` is `[0]`).
   */
  function MatchBackwards(p: Matcher, n: int, s: string): (r: Option<Span>)
    ensures 1 <= n ==> (r.Some? <==> n <= |Find(p, s)|)
    ensures 1 <= n && r.Some? ==> r.value == Find(p, s)[|Find(p, s)| - n]
    ensures n == 0 ==> (r.Some? <==> |Find(p, s)| > 0)
    ensures n == 0 && r.Some? ==> r.value == Find(p, s)[0]
    ensures r.Some? ==> Within(r.value, |s|)
  {
    ListIndex(Find(p, s), -n)
  }

  /** The matches in the order they are met when scanning leftwards from the end. */
  function Reverse<T>(xs: seq<T>): (r: seq<T>)
    ensures |r| == |xs|
    ensures forall i :: 0 <= i < |xs| ==> r[i] == xs[|xs| - 1 - i]
  {
    if |xs| == 0 then [] else Reverse(xs[1..]) + [xs[0]]
  }

  /**
   Counting backwards from the end of the window is counting forwards in the
   right-to-left order: `match_backwards` is `match_forward` on the reversed
   match list.
   */
  lemma BackwardsIsForwardReversed(p: Matcher, n: int, s: string)
    requires n >= 1
    ensures MatchBackwards(p, n, s) == Islice(Reverse(Find(p, s)), n - 1)
  {
  }

  /**
   The `n - 1` matches `match_forward` skips all lie between the window start
   (the cursor) and the match it returns.
   */
  lemma ForwardSkipsNearer(p: Matcher, n: int, s: string)
    requires n >= 1
    requires MatchForward(p, n, s).Some?
    ensures forall j :: 0 <= j < n - 1 ==> Find(p, s)[j].end <= MatchForward(p, n, s).value.start
  {
    var ms := Find(p, s);
    forall j | 0 <= j < n - 1
      ensures ms[j].end <= ms[n - 1].start
    {
      Ordered(ms, |s|, j, n - 1);
    }
  }

  /**
   The `n - 1` matches `match_backwards` skips all lie between the match it
   returns and the window end (the cursor).
   */
  lemma BackwardsSkipsNearer(p: Matcher, n: int, s: string)
    requires n >= 1
    requires MatchBackwards(p, n, s).Some?
    ensures forall j :: |Find(p, s)| - n < j < |Find(p, s)| ==>
      MatchBackwards(p, n, s).value.end <= Find(p, s)[j].start
  {
    var ms := Find(p, s);
    forall j | |ms| - n < j < |ms|
      ensures ms[|ms| - n].end <= ms[j].start
    {
      Ordered(ms, |s|, |ms| - n, j);
    }
  }

}
