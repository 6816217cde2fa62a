# Relative text navigation, modelled in Dafny

This project models the search-and-act engine of the voice-driven text
navigation plugin (`plugin/text_navigation/text_navigation.py`). A request
names an action (GO, EXTEND, SELECT, DELETE, CUT, COPY), a direction (UP,
DOWN, LEFT, RIGHT), an anchor (BEFORE, AFTER, DEFAULT), a target pattern
and an occurrence number. The plugin reads the window of text between the
cursor and the search limit and finds the Nth match counted outward from the
cursor. It then moves, extends or selects relative to that match.

The model is purely functional:

- **Matching**: the regular-expression engine is abstract. A `Matcher` is any
  function from a string to the match ranges `finditer` would report. Those
  ranges are in left-to-right order, non-overlapping (`m[i].end <= m[i+1].start`)
  and inside the string. `MatchForward` and `MatchBackwards` pick the Nth of
  them the way `match_forward` (`itertools.islice`) and `match_backwards`
  (`list(...)[-n]`) do.
- **Slices**: Python's slice and list-index rules, written out. For example,
  `text[:-0]` is the empty string, and out-of-range bounds are clamped.
- **Editing**: the host editor is a selection `(anchor, caret)` in window
  offsets plus a log of delete/cut/copy operations. `left`/`right` collapse a
  selection to its left/right edge, or move one offset when there is none.
  `extend_left`/`extend_right` move the caret only. The plugin's effects become a
  plan of counted step loops (`Move(prim, count)`, run `max(0, count)` times,
  like `for j in range(0, count)`) and edit operations (`Act(kind)`). `Exec`
  runs a plan.
- **Actions**: anchor resolution (`handle_select`'s second search), the plans
  of `select`, `handle_move` and `handle_extend`, and the routing of
  `handle_navigation_action`.
- **Navigation**: the selection guard and the direction dispatch. This covers
  `navigation`, `navigate_left` and `navigate_right`. The window is an input,
  together with the length `L` of the selection present when the request began.
  When the window lies after the cursor (RIGHT, DOWN), offset 0 is the left edge
  of that prior selection, so the prior selection is `[0, L)`. When it lies
  before the cursor (UP, LEFT), offset `|text|` is its right edge, so the prior
  selection is `[|text| - L, |text|)`.
- **Patterns** and **WorkedExamples**: a concrete literal matcher and the
  `word` class `\w+`, used to state the behaviour on concrete windows.
  Examples: selecting the second "cat" to the left in "cat sat on the cat"
  gives `[0, 3)`; BEFORE/AFTER around "(bar)" in "foo (bar) baz" give "foo" and
  "baz".

Behaviour kept exactly as the code has it:

- The direction is one of the four constructors of `Direction`. The code
  decides the direction in two ways: `navigation` sends UP and LEFT backward,
  while `select`, `handle_move` and `handle_extend` treat every direction
  except RIGHT and DOWN as backward. For these four values the two rules agree.
- When a search fails, the same offsets are selected again, but the caret ends
  on the edge away from the cursor (the right edge for RIGHT/DOWN, the left edge
  for UP/LEFT). It does not go back to whichever edge it was on before.
- BEFORE searches `text[:-(length - start)]`, not `text[:start]`. When the
  primary match starts exactly at the window end, this is `text[:-0]`, the empty
  string. The result then falls back to `(0, start)`: the whole window
  (`WorkedExamples.BeforeAtWindowEndSearchesNothing`). This only happens for a
  primary pattern that can match the empty string at the window end.
- The step loops run zero times for a negative count.
  `Navigation.StepCountsNonNegative` shows that no count is negative when the
  prior selection fits in the window.

## Model

| member | source | states |
|---|---|---|
| Slices.Prefix | plugin/text_navigation/text_navigation.py:261-263 | `s[:j]` is a prefix of `s`: its length is `min(j, len)` for `j >= 0`, and `max(0, len + j)` for negative `j` |
| Slices.DropLast | plugin/text_navigation/text_navigation.py:363-364 | `s[:-k]` is all but the last `k` characters. It is empty when `k` is 0 and when `k` exceeds the length |
| Slices.Suffix | plugin/text_navigation/text_navigation.py:298 | `s[i:]` is a suffix of `s` of length `max(0, len - i)` for `i >= 0` |
| Slices.DropFirst | plugin/text_navigation/text_navigation.py:373 | `s[k:]` drops the first `k` characters, and is empty once `k` passes the length |
| Slices.SliceOfSuffix | plugin/text_navigation/text_navigation.py:305-306 | a slice of `s[d:]` is the slice of `s` at bounds shifted by `d` |
| Slices.ListIndex | plugin/text_navigation/text_navigation.py:412-415 | `xs[i]` exists exactly when `-len <= i < len`, and is `xs[i]` for `i >= 0` and `xs[len + i]` for negative `i`; otherwise the IndexError becomes `None` |
| Matching.Find | plugin/text_navigation/text_navigation.py:412 | the matches `finditer` yields are in order, non-overlapping and inside the searched string |
| Matching.Ordered | plugin/text_navigation/text_navigation.py:412 | matches that are ordered neighbour by neighbour are ordered pairwise: an earlier match ends before a later one starts |
| Matching.Islice | plugin/text_navigation/text_navigation.py:420-422 | `next(islice(ms, skip, None))` is `ms[skip]` when it exists, else StopIteration (`None`) |
| Matching.MatchForward | plugin/text_navigation/text_navigation.py:418-425 | for n >= 1 it finds a match exactly when there are at least n, and then it is the n-th from the left; it lies inside the string |
| Matching.MatchBackwards | plugin/text_navigation/text_navigation.py:410-415 | for n >= 1 it finds a match exactly when there are at least n, and then it is the n-th from the right (n = 1: the last match). For n = 0 Python's `[-0]` gives the first match |
| Matching.Reverse | plugin/text_navigation/text_navigation.py:412 | the matches in right-to-left order: element i of the reversal is element len-1-i |
| Matching.BackwardsIsForwardReversed | plugin/text_navigation/text_navigation.py:410-425 | counting back from the window end is counting forward through the reversed match list |
| Matching.ForwardSkipsNearer | plugin/text_navigation/text_navigation.py:418-425 | every match skipped by `match_forward` lies between the cursor and the match returned |
| Matching.BackwardsSkipsNearer | plugin/text_navigation/text_navigation.py:410-415 | every match skipped by `match_backwards` lies between the match returned and the cursor |
| Editing.Repeat | plugin/text_navigation/text_navigation.py:215-232 | a step loop moves exactly `max(0, count)` offsets. Extending moves only the caret. Stepping right or left first collapses a selection to that edge and then walks the rest of the count |
| Editing.ExecAppend | plugin/text_navigation/text_navigation.py:235-241 | issuing two command sequences one after the other is issuing their concatenation |
| Editing.NonNegativeAppend | plugin/text_navigation/text_navigation.py:340-344 | appending plans without negative loop counts gives no negative count |
| Actions.SelectSteps | plugin/text_navigation/text_navigation.py:235-241 | for `0 <= start <= end <= length`, `select` gives every step loop a non-negative count in both directions |
| Actions.SelectStepsSelect | plugin/text_navigation/text_navigation.py:235-241 | from the window's near edge, `select` leaves exactly `[start, end)` selected, with the caret on the side away from the cursor, and nothing logged |
| Actions.HandleMove | plugin/text_navigation/text_navigation.py:384-394 | for a range inside the window, GO uses no negative count |
| Actions.MoveLandsOnTarget | plugin/text_navigation/text_navigation.py:384-394 | GO ends with no selection on the target: after the cursor the match end (the start under BEFORE); before it the match start (the end under AFTER) |
| Actions.HandleExtend | plugin/text_navigation/text_navigation.py:397-407 | for a range inside the window, EXTEND uses no negative count |
| Actions.ExtendReachesTarget | plugin/text_navigation/text_navigation.py:397-407 | EXTEND keeps the anchor at the near edge and moves the caret to the same target GO uses: the selection is `[0, target)` after the cursor and `[target, length)` before it |
| Actions.ResolveAnchor | plugin/text_navigation/text_navigation.py:359-381 | DEFAULT keeps the match. For a range inside the window the result stays inside it: BEFORE's result ends by the match start, AFTER's starts at or after the match end |
| Actions.BeforeAnchor | plugin/text_navigation/text_navigation.py:362-371 | BEFORE is the last class match in `text[:start]`, or `(0, start)` when there is none. When `start == length` the searched text is empty |
| Actions.AfterAnchor | plugin/text_navigation/text_navigation.py:372-380 | AFTER is the first class match in `text[end:]` shifted by `end` (covering the matched characters), or `(end, length)` when there is none |
| Actions.HandleSelect | plugin/text_navigation/text_navigation.py:359-381 | for a range inside the window, `handle_select` uses no negative count |
| Actions.HandleNavigationAction | plugin/text_navigation/text_navigation.py:319-356 | for a range inside the window, no action's plan has a negative count |
| Actions.SelectionActionsSelect | plugin/text_navigation/text_navigation.py:336-354 | SELECT, DELETE, CUT and COPY leave exactly the anchor-resolved range selected, and that range lies inside the window. The three compound actions log their single operation against that range |
| Actions.CompoundIsSelectThenAct | plugin/text_navigation/text_navigation.py:340-354 | DELETE, CUT and COPY issue exactly SELECT's commands followed by one delete/cut/copy |
| Navigation.SearchLeft | plugin/text_navigation/text_navigation.py:255-272 | `navigate_left` searches only the unselected text (`text[:-L]` for `L > 0`, all of `text` for `L = 0`). It finds the n-th match from the right exactly when there are n, with no offset shift. The range ends at or before the length of the unselected text: `len - L` when `L <= len`, and 0 otherwise |
| Navigation.SearchRight | plugin/text_navigation/text_navigation.py:293-306 | `navigate_right` searches `text[L:]` and finds the n-th match from the left exactly when there are n, shifted by `L`. The range starts at or after `L` and ends inside the window when `L <= len` |
| Navigation.SearchRightText | plugin/text_navigation/text_navigation.py:298-306 | the window characters of the shifted range are the ones the pattern matched in `text[L:]` |
| Navigation.CollapseToEdge | plugin/text_navigation/text_navigation.py:255-257 | the guard's single `right()` (before the cursor) or `left()` (after it) collapses the prior selection onto the window's near edge |
| Navigation.NavigateLeft | plugin/text_navigation/text_navigation.py:244-282 | `navigate_left` collapses the prior selection with one `right()` when `L > 0`. With fewer than n matches in the unselected text (`text[:-L]` for `L > 0`, all of `text` for `L = 0`) it only extends left by `L`. Otherwise it dispatches the action on the n-th match from the right, at unshifted window offsets |
| Navigation.NavigateRight | plugin/text_navigation/text_navigation.py:285-316 | `navigate_right` collapses the prior selection with one `left()` when `L > 0`. With fewer than n matches in `text[L:]` it only extends right by `L`. Otherwise it dispatches the action on the n-th match from the left, moved `L` offsets right |
| Navigation.Navigate | plugin/text_navigation/text_navigation.py:125-150 | `navigation` substitutes the caller-supplied `\w+` matcher `word` for DEFAULT and sends UP/LEFT to the backward search and RIGHT/DOWN to the forward one. Every request is the guard's collapse in that direction, followed either by the restoring extension by `L` (no match) or by its action on the found range |
| Navigation.StepCountsNonNegative | plugin/text_navigation/text_navigation.py:125-150 | when the prior selection fits in a window after the cursor, and always for a window before it, no step loop of a request gets a negative count |
| Navigation.CollapseAndRestore | plugin/text_navigation/text_navigation.py:266-269 | collapsing the prior selection and extending by `L` selects the same offsets again, with the caret on the edge away from the cursor |
| Navigation.LocatedInWindow | plugin/text_navigation/text_navigation.py:305-306 | a found range lies inside the window whenever the prior selection does |
| Navigation.FoundPlan | plugin/text_navigation/text_navigation.py:274-282 | after a match is found, the action's commands run from the near edge, with the caret collapsed and nothing logged |
| Navigation.FailedSearchRestoresSelection | plugin/text_navigation/text_navigation.py:285-304 | when the unselected text has fewer than n matches, no action is dispatched and the same `L` offsets are selected again. The caret ends on the edge away from the cursor |
| Navigation.GoLandsOnTarget | plugin/text_navigation/text_navigation.py:384-394 | GO ends with no selection on the target offset of the found range, inside the unselected text: at or after `L` going forward; going backward, at most the length of the unselected text (`text[:-L]` for `L > 0`, all of `text` for `L = 0`): `len - L` when `L <= len`, and 0 otherwise |
| Navigation.ExtendKeepsPriorSelection | plugin/text_navigation/text_navigation.py:397-407 | EXTEND selects `[0, target)` with `target >= L` going forward, and `[target, len)` going backward, with `target` at most the length of the unselected text (`text[:-L]` for `L > 0`, all of `text` for `L = 0`): `len - L` when `L <= len`, and 0 otherwise. When `L <= len`, it therefore still contains the previously selected characters |
| Navigation.SelectionActionsSelectResolvedRange | plugin/text_navigation/text_navigation.py:336-381 | after a found match, SELECT leaves exactly the anchor-resolved range selected, inside the window. DELETE, CUT and COPY make the same selection and log one operation against it |
| Patterns.LiteralFrom | plugin/text_navigation/text_navigation.py:97 | an escaped literal's matches are well formed, and every one of them spells the literal |
| Patterns.LiteralFromSkips | plugin/text_navigation/text_navigation.py:97 | positions that cannot begin the literal contribute no match |
| Patterns.LiteralMatches | plugin/text_navigation/text_navigation.py:97 | a literal's matches, including the empty literal's match at every position, are well formed and spell the literal |
| Patterns.RunEnd | plugin/text_navigation/text_navigation.py:36 | a run of word characters extends to the first non-word character |
| Patterns.WordsFrom | plugin/text_navigation/text_navigation.py:36 | `\w+` yields non-empty, well-formed matches |
| WorkedExamples.CatMatches | plugin/text_navigation/text_navigation.py:412 | "cat sat on the cat" has the literal "cat" at `[0, 3)` and `[15, 18)` |
| WorkedExamples.SecondCatToTheLeft | plugin/text_navigation/text_navigation.py:244-282 | SELECT LEFT, occurrence 2 of "cat" in "cat sat on the cat", selects `[0, 3)` |
| WorkedExamples.SecondOfTwoToTheLeft | plugin/text_navigation/text_navigation.py:244-282 | the same request, with the cursor at the end of a window of any length whose only two "cat" matches are `[0, 3)` and `[15, 18)`, selects `[0, 3)` |
| WorkedExamples.WordsBeforeParens | plugin/text_navigation/text_navigation.py:36 | `\w+` finds exactly "foo" in "foo " |
| WorkedExamples.WordsAfterParens | plugin/text_navigation/text_navigation.py:36 | `\w+` finds exactly "baz" in " baz" |
| WorkedExamples.BeforeParens | plugin/text_navigation/text_navigation.py:362-371 | BEFORE "(bar)" in "foo (bar) baz" resolves to "foo" |
| WorkedExamples.AfterParens | plugin/text_navigation/text_navigation.py:372-380 | AFTER "(bar)" in "foo (bar) baz" resolves to "baz" |
| WorkedExamples.CatInTheMiddle | plugin/text_navigation/text_navigation.py:421 | "the cat is" has the literal "cat" only at `[4, 7)` |
| WorkedExamples.GoRightPastCat | plugin/text_navigation/text_navigation.py:384-389 | GO RIGHT to "cat" at `[4, 7)` of a 10-character window moves the caret 7 offsets right |
| WorkedExamples.CatAfterHello | plugin/text_navigation/text_navigation.py:421 | "hellocat" has the literal "cat" only at `[5, 8)` |
| WorkedExamples.ExtendDownOverSelection | plugin/text_navigation/text_navigation.py:397-402 | EXTEND DOWN with 3 characters selected and "cat" 5 past them grows the selection to 3 + 8 characters |
| WorkedExamples.NoCat | plugin/text_navigation/text_navigation.py:421 | a string without the letter "c" has no match of the case-sensitive literal "cat" |
| WorkedExamples.RestoreWithoutCat | plugin/text_navigation/text_navigation.py:293-304 | in any 6-character window with neither "c" nor "C" after a 3-character selection, so that no "cat" in any letter case follows it, a CUT RIGHT for "cat" puts that selection back and cuts nothing |
| WorkedExamples.FailedSearchPutsSelectionBack | plugin/text_navigation/text_navigation.py:293-304 | in "abcdog" with "abc" selected (caret on the left), a failed CUT RIGHT reselects "abc" with the caret on the right |
| WorkedExamples.WordsOfFooBar | plugin/text_navigation/text_navigation.py:36 | `\w+` finds "foo" and "bar" in "foo bar" |
| WorkedExamples.BeforeAtWindowEndSearchesNothing | plugin/text_navigation/text_navigation.py:362-368 | BEFORE on a match starting at the end of "foo bar" searches the empty string and falls back to the whole window, not to "bar" |

## Left out

- Talon registration (`Module`, `Context`, lists, the `text_navigation_max_line_search` setting, lines 4-49) is configuration. Only the `word` pattern (line 36) appears, as the default class.
- The `navigation_target` capture and the `navigation_by_string`, `navigation_by_word` and `navigation_by_name` wrappers (lines 52-124, 152-168) are left out. They build regular expressions with `re.compile`/`re.escape` and look up homophones in another module. The homophone substitution replaces words taken from an unordered set, so its result depends on iteration order.
- The regular-expression engine is left out. Patterns are abstract `Matcher` values that yield well-formed match lists. `Patterns.Literal` compares exactly, without the IGNORECASE flag, and `Patterns.Word` knows only ASCII word characters.
- Window extraction (`get_text_left/right/up/down`, lines 171-208) is editor I/O, so the window text is an input. The editor's line-start and line-end semantics, and the restoring of the cursor after the read, are not modelled. The model assumes the read leaves the caret on the window's near edge. `Navigation.FailedSearchRestoresSelection` depends on that assumption. When the read selects nothing (an empty window at a line end or start), the code's closing bare `left()` or `right()` moves the caret one offset instead, and the restore then starts one offset off.
- `get_current_selection_size` (lines 211-212) is not modelled; the prior selection length `L` is an input.
- `actions.sleep(0.2)` (line 332) is a timing workaround, and the `print` calls are debugging output.
- The buffer and clipboard effects of `edit.delete/cut/copy` are not modelled. Each is only logged, with the selection it applied to.
- The editor stopping at the buffer's start or end is not modelled: window offsets are unbounded integers.
- Matching.MatchForward: requires `n >= 1`. With 0 or less, `itertools.islice` raises ValueError, and that exception path is not modelled.
- Navigation.Navigate: requires `n >= 1`, because a search after the cursor goes through `match_forward`, and `itertools.islice` raises ValueError for a negative start.
- Navigation.NavigateRight: requires `n >= 1`, for the same `itertools.islice` ValueError.
- Navigation.SelectionActionsSelectResolvedRange: for RIGHT/DOWN it assumes the prior selection fits in the window (`L <= len(text)`). Otherwise `text[L:]` is empty and the anchor fallback `(end, length)` can run backwards, so the selection it produces is not stated.
- Navigation.StepCountsNonNegative: for RIGHT/DOWN it assumes `L <= len(text)`, for the same reason.
- Direction strings other than `up`, `down`, `left` and `right` are not modelled, and neither are action or anchor strings outside their lists.
