/**
 Two concrete matchers, enough to state the navigation's behaviour on
 concrete windows: an escaped literal (`re.escape(s)`, compared exactly, without
 the IGNORECASE flag) and the `word` class `\w+` over ASCII word characters.
 */
module Patterns {
  import opened Matching

  /** Non-overlapping occurrences of a non-empty `needle` in `s`, scanning from `i`. */
  function LiteralFrom(needle: string, s: string, i: nat): (ms: seq<Span>)
    requires 0 < |needle|
    requires i <= |s|
    ensures WellFormed(ms, |s|)
    ensures |ms| > 0 ==> i <= ms[0].start
    ensures forall k :: 0 <= k < |ms| ==> s[ms[k].start..ms[k].end] == needle
    decreases |s| - i
  {
    if i + |needle| > |s| then []
    else if s[i..i + |needle|] == needle then [Span(i, i + |needle|)] + LiteralFrom(needle, s, i + |needle|)
    else LiteralFrom(needle, s, i + 1)
  }

  /** Positions that cannot begin the needle contribute no occurrence. */
  lemma {:induction false} LiteralFromSkips(needle: string, s: string, i: nat, j: nat)
    requires 0 < |needle|
    requires i <= j <= |s|
    requires forall k :: i <= k < j ==> s[k] != needle[0]
    ensures LiteralFrom(needle, s, i) == LiteralFrom(needle, s, j)
    decreases j - i
  {
    if i < j {
      if i + |needle| <= |s| {
        assert s[i..i + |needle|][0] == s[i];
      }
      LiteralFromSkips(needle, s, i + 1, j);
    }
  }

  /** An empty literal matches at every position, as Python's `finditer` reports it. */
  function LiteralMatches(needle: string, s: string): (ms: seq<Span>)
    ensures WellFormed(ms, |s|)
    ensures forall k :: 0 <= k < |ms| ==> s[ms[k].start..ms[k].end] == needle
  {
    if |needle| == 0 then seq(|s| + 1, k => Span(k, k)) else LiteralFrom(needle, s, 0)
  }

  function Literal(needle: string): Matcher {
    s => LiteralMatches(needle, s)
  }

  predicate IsWordChar(c: char) {
    'a' <= c <= 'z' || 'A' <= c <= 'Z' || '0' <= c <= '9' || c == '_'
  }

  /** The end of the run of word characters that starts at `i`. */
  function RunEnd(s: string, i: nat): (j: nat)
    requires i <= |s|
    ensures i <= j <= |s|
    ensures forall k :: i <= k < j ==> IsWordChar(s[k])
    ensures j < |s| ==> !IsWordChar(s[j])
    decreases |s| - i
  {
    if i < |s| && IsWordChar(s[i]) then RunEnd(s, i + 1) else i
  }

  /** The maximal runs of word characters in `s` from `i` on. */
  function WordsFrom(s: string, i: nat): (ms: seq<Span>)
    requires i <= |s|
    ensures WellFormed(ms, |s|)
    ensures |ms| > 0 ==> i <= ms[0].start
    ensures forall k :: 0 <= k < |ms| ==> ms[k].start < ms[k].end
    decreases |s| - i
  {
    if i == |s| then []
    else if IsWordChar(s[i]) then
      var j := RunEnd(s, i);
      [Span(i, j)] + WordsFrom(s, j)
    else WordsFrom(s, i + 1)
  }

  function Word(): Matcher {
    s => WordsFrom(s, 0)
  }

}
