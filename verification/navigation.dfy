/**
 The selection guard and the direction dispatch: `navigation`,
 `navigate_left` and `navigate_right`.

 A request carries the window the editor returned for its direction (the
 text between the cursor and the search limit) and the length `L` of the
 selection that existed when the request began. Window offsets put that prior
 selection at `[0, L)` when the window lies after the cursor and at
 `[|text| - L, |text|)` when it lies before it: the code collapses the
 selection to its left (resp. right) edge before reading the window, and the
 window starts (resp. ends) there.
 */
module Navigation {
  import opened Wrappers
  import opened Slices
  import opened Matching
  import opened Editing
  import opened Requests
  import opened Actions

  /** The `navigation_target_name` argument: `"DEFAULT"`, or the class pattern to use. */
  datatype TargetClass = DefaultClass | Named(pattern: Matcher)

  /** `"DEFAULT"` stands for the word class `\w+`, given here as `word`. */
  function ClassOf(target: TargetClass, word: Matcher): Matcher {
    match target
    case DefaultClass => word
    case Named(m) => m
  }

  /** The window without the prior selection, when the window lies before the cursor. */
  function UnselectedBefore(text: string, L: nat): string {
    if L <= |text| then text[..|text| - L] else []
  }

  /** The window without the prior selection, when the window lies after the cursor. */
  function UnselectedAfter(text: string, L: nat): string {
    if L <= |text| then text[L..] else []
  }

  function Unselected(dir: Direction, text: string, L: nat): string {
    if IsForward(dir) then UnselectedAfter(text, L) else UnselectedBefore(text, L)
  }

  /** The collapse of a non-empty prior selection before the window is read. */
  function Collapse(p: Prim, L: nat): Plan {
    if L > 0 then [Move(p, 1)] else []
  }

  /**
   The search of `navigate_left`: the `n`-th match from the right in
   `text[:-L]` (all of `text` when `L` is 0). Its offsets need no shift, and a
   found range lies in the unselected part of the window.
   */
  function SearchLeft(p: Matcher, n: int, text: string, L: nat): (r: Option<Span>)
    ensures r.Some? ==> Within(r.value, |UnselectedBefore(text, L)|)
    ensures 1 <= n ==> (r.Some? <==> n <= |Find(p, UnselectedBefore(text, L))|)
    ensures 1 <= n && r.Some? ==>
      r.value == Find(p, UnselectedBefore(text, L))[|Find(p, UnselectedBefore(text, L))| - n]
  {
    var subtext := if L <= 0 then text else Prefix(text, -(L as int));
    DropLast(text, L);
    assert subtext == UnselectedBefore(text, L);
    MatchBackwards(p, n, subtext)
  }

  /**
   The search of `navigate_right`: the `n`-th match from the left in `text[L:]`,
   shifted by `L` back into window offsets. A found range starts at or after
   `L`, and ends inside the window whenever the prior selection fits in it.
   */
  function SearchRight(p: Matcher, n: int, text: string, L: nat): (r: Option<Span>)
    requires n >= 1
    ensures r.Some? <==> n <= |Find(p, UnselectedAfter(text, L))|
    ensures r.Some? ==> r.value == Find(p, UnselectedAfter(text, L))[n - 1].Shift(L)
    ensures r.Some? ==> L <= r.value.start <= r.value.end <= Max(|text|, L)
    ensures r.Some? && L <= |text| ==> r.value.end <= |text|
  {
    var subText := Suffix(text, L);
    DropFirst(text, L);
    assert subText == UnselectedAfter(text, L);
    match MatchForward(p, n, subText)
    case None => None
    case Some(m) => Some(m.Shift(L))
  }

  /**
   The shift by `L` is the right one: the window characters of the range
   `navigate_right` found are the ones the pattern matched in `text[L:]`.
   */
  lemma SearchRightText(p: Matcher, n: int, text: string, L: nat)
    requires n >= 1
    requires L <= |text|
    requires SearchRight(p, n, text, L).Some?
    ensures var r := SearchRight(p, n, text, L).value;
      var m := Find(p, text[L..])[n - 1];
      text[r.start..r.end] == text[L..][m.start..m.end]
  {
    var u := text[L..];
    assert UnselectedAfter(text, L) == u;
    var m := Find(p, u)[n - 1];
    assert Within(m, |u|);
    ShiftedSlice(text, L, m, SearchRight(p, n, text, L).value);
  }

  /** A range of `text[L:]`, moved `L` offsets right, covers the same characters of `text`. */
  lemma ShiftedSlice(text: string, L: nat, m: Span, r: Span)
    requires L <= |text| && Within(m, |text| - L) && r == m.Shift(L)
    ensures text[r.start..r.end] == text[L..][m.start..m.end]
  {
    SliceOfSuffix(text, L, m.start, m.end);
  }

  /** The search the request's direction runs. */
  function Locate(dir: Direction, p: Matcher, n: int, text: string, L: nat): Option<Span>
    requires n >= 1
  {
    if dir == Up || dir == Left then SearchLeft(p, n, text, L) else SearchRight(p, n, text, L)
  }

  /**
   `navigate_left`: collapse the prior selection to its right edge, search the
   unselected text, and either act on the match or, when there is none,
   extend left by `L` to put the selection back. The match acted on is the
   `n`-th from the right in the unselected text, at the same offsets in the
   window.
   */
  function NavigateLeft(action: NavigationAction, cls: Matcher, anchor: AnchorMode, p: Matcher, n: int,
                        dir: Direction, text: string, L: nat): (r: Plan)
    ensures 1 <= n && |Find(p, UnselectedBefore(text, L))| < n ==>
      r == Collapse(StepRight, L) + [Move(ExtendLeft, L)]
    ensures var ms := Find(p, UnselectedBefore(text, L));
      1 <= n <= |ms| ==>
      var m := ms[|ms| - n];
      r == Collapse(StepRight, L) + HandleNavigationAction(action, cls, anchor, dir, text, m.start, m.end)
  {
    match SearchLeft(p, n, text, L)
    case None => Collapse(StepRight, L) + [Move(ExtendLeft, L)]
    case Some(m) => Collapse(StepRight, L) + HandleNavigationAction(action, cls, anchor, dir, text, m.start, m.end)
  }

  /**
   `navigate_right`: collapse the prior selection to its left edge, search the
   unselected text, and either act on the match or, when there is none,
   extend right by `L` to put the selection back. The match acted on is the
   `n`-th from the left in the unselected text, moved `L` offsets right into
   the window.
   */
  function NavigateRight(action: NavigationAction, cls: Matcher, anchor: AnchorMode, p: Matcher, n: int,
                         dir: Direction, text: string, L: nat): (r: Plan)
    requires n >= 1
    ensures |Find(p, UnselectedAfter(text, L))| < n ==>
      r == Collapse(StepLeft, L) + [Move(ExtendRight, L)]
    ensures var ms := Find(p, UnselectedAfter(text, L));
      n <= |ms| ==>
      var m := ms[n - 1].Shift(L);
      r == Collapse(StepLeft, L) + HandleNavigationAction(action, cls, anchor, dir, text, m.start, m.end)
  {
    match SearchRight(p, n, text, L)
    case None => Collapse(StepLeft, L) + [Move(ExtendRight, L)]
    case Some(m) => Collapse(StepLeft, L) + HandleNavigationAction(action, cls, anchor, dir, text, m.start, m.end)
  }

  /**
   `navigation`: pick the class pattern, then search before the cursor for UP
   and LEFT and after it for RIGHT and DOWN. The caller supplies the `\w+`
   matcher that DEFAULT stands for as `word` (`Patterns.Word()` is one). Every request issues the guard's
   collapse, then either the restoring extension by `L` or the commands of its
   action on the found range.
   */
  function Navigate(action: NavigationAction, dir: Direction, target: TargetClass, anchor: AnchorMode,
                      p: Matcher, n: int, text: string, L: nat, word: Matcher): (r: Plan)
    requires n >= 1
    ensures r == Collapse(if IsForward(dir) then StepLeft else StepRight, L)
                 + (match Locate(dir, p, n, text, L)
                    case None => [Move(if IsForward(dir) then ExtendRight else ExtendLeft, L)]
                    case Some(m) => HandleNavigationAction(action, ClassOf(target, word), anchor, dir, text, m.start, m.end))
  {
    var cls := ClassOf(target, word);
    if dir == Up || dir == Left then
      assert !IsForward(dir);
      NavigateLeft(action, cls, anchor, p, n, dir, text, L)
    else
      assert IsForward(dir);
      NavigateRight(action, cls, anchor, p, n, dir, text, L)
  }

  /**
   When the prior selection fits in a window after the cursor (and always for
   one before it) no step loop of a request is given a negative count.
   */
  lemma StepCountsNonNegative(action: NavigationAction, dir: Direction, target: TargetClass, anchor: AnchorMode,
                              p: Matcher, n: int, text: string, L: nat, word: Matcher)
    requires n >= 1
    requires IsForward(dir) ==> L <= |text|
    ensures NonNegative(Navigate(action, dir, target, anchor, p, n, text, L, word))
  {
    var cls := ClassOf(target, word);
    var guard := Collapse(if IsForward(dir) then StepLeft else StepRight, L);
    assert NonNegative(guard);
    match Locate(dir, p, n, text, L)
    case None =>
      NonNegativeAppend(guard, [Move(if IsForward(dir) then ExtendRight else ExtendLeft, L)]);
    case Some(m) =>
      LocatedInWindow(dir, p, n, text, L);
      NonNegativeAppend(guard, HandleNavigationAction(action, cls, anchor, dir, text, m.start, m.end));
  }

  /** The selection of length `L` a request starts from, in window offsets. */
  predicate PriorSelection(dir: Direction, text: string, L: nat, e: Editor) {
    if IsForward(dir) then e.Selects(0, L) else e.Selects(|text| - L, |text|)
  }

  /** The guard's single step leaves the caret, collapsed, on the edge the window was read from. */
  lemma CollapseToEdge(dir: Direction, text: string, L: nat, e: Editor)
    requires PriorSelection(dir, text, L, e)
    ensures AtNearEdge(Exec(e, Collapse(if IsForward(dir) then StepLeft else StepRight, L)), dir, |text|)
    ensures Exec(e, Collapse(if IsForward(dir) then StepLeft else StepRight, L)).log == e.log
  {
    var prim := if IsForward(dir) then StepLeft else StepRight;
    if L > 0 {
      ExecOne(e, Move(prim, 1));
    }
  }

  /** A found range lies in the window whenever the prior selection does. */
  lemma LocatedInWindow(dir: Direction, p: Matcher, n: int, text: string, L: nat)
    requires n >= 1
    requires Locate(dir, p, n, text, L).Some?
    requires IsForward(dir) ==> L <= |text|
    ensures Within(Locate(dir, p, n, text, L).value, |text|)
  {
  }

  /** The guard's collapse followed by the extension by `L` gives the prior selection back. */
  lemma CollapseAndRestore(dir: Direction, text: string, L: nat, e: Editor)
    requires PriorSelection(dir, text, L, e)
    ensures var r := Exec(Exec(e, Collapse(if IsForward(dir) then StepLeft else StepRight, L)),
                          [Move(if IsForward(dir) then ExtendRight else ExtendLeft, L)]);
      && PriorSelection(dir, text, L, r)
      && r.caret == (if IsForward(dir) then L else |text| - L)
      && r.log == e.log
  {
    var near := Exec(e, Collapse(if IsForward(dir) then StepLeft else StepRight, L));
    CollapseToEdge(dir, text, L, e);
    ExecOne(near, Move(if IsForward(dir) then ExtendRight else ExtendLeft, L));
  }

  /** The steps of a found match run after the guard, from the near edge. */
  lemma FoundPlan(action: NavigationAction, dir: Direction, target: TargetClass, anchor: AnchorMode,
                  p: Matcher, n: int, text: string, L: nat, word: Matcher, e: Editor)
    requires n >= 1
    requires Locate(dir, p, n, text, L).Some?
    requires PriorSelection(dir, text, L, e)
    ensures var m := Locate(dir, p, n, text, L).value;
      var near := Exec(e, Collapse(if IsForward(dir) then StepLeft else StepRight, L));
      && AtNearEdge(near, dir, |text|)
      && near.log == e.log
      && Exec(e, Navigate(action, dir, target, anchor, p, n, text, L, word))
         == Exec(near, HandleNavigationAction(action, ClassOf(target, word), anchor, dir, text, m.start, m.end))
  {
    var m := Locate(dir, p, n, text, L).value;
    var guard := Collapse(if IsForward(dir) then StepLeft else StepRight, L);
    CollapseToEdge(dir, text, L, e);
    ExecAppend(e, guard, HandleNavigationAction(action, ClassOf(target, word), anchor, dir, text, m.start, m.end));
  }

  /**
   A search that finds nothing dispatches no action and leaves the same
   offsets selected as before the request; the caret ends on the selection's
   far edge from the cursor, whichever edge it was on before.
   */
  lemma FailedSearchRestoresSelection(action: NavigationAction, dir: Direction, target: TargetClass,
                                      anchor: AnchorMode, p: Matcher, n: int, text: string, L: nat,
                                      word: Matcher, e: Editor)
    requires n >= 1
    requires n > |Find(p, Unselected(dir, text, L))|
    requires PriorSelection(dir, text, L, e)
    ensures var r := Exec(e, Navigate(action, dir, target, anchor, p, n, text, L, word));
      && PriorSelection(dir, text, L, r)
      && r.caret == (if IsForward(dir) then L else |text| - L)
      && r.log == e.log
  {
    var guard := Collapse(if IsForward(dir) then StepLeft else StepRight, L);
    var restore := [Move(if IsForward(dir) then ExtendRight else ExtendLeft, L)];
    assert Locate(dir, p, n, text, L).None?;
    ExecAppend(e, guard, restore);
    CollapseAndRestore(dir, text, L, e);
  }

  /** GO ends with no selection, on `Target` of the found range, inside the unselected text. */
  lemma GoLandsOnTarget(dir: Direction, target: TargetClass, anchor: AnchorMode, p: Matcher, n: int,
                        text: string, L: nat, word: Matcher, e: Editor)
    requires n >= 1
    requires n <= |Find(p, Unselected(dir, text, L))|
    requires PriorSelection(dir, text, L, e)
    ensures var m := Locate(dir, p, n, text, L).value;
      var r := Exec(e, Navigate(Go, dir, target, anchor, p, n, text, L, word));
      && r.Collapsed()
      && r.caret == Target(dir, anchor, m.start, m.end)
      && (if IsForward(dir) then L <= r.caret else r.caret <= |UnselectedBefore(text, L)|)
      && r.log == e.log
  {
    var m := Locate(dir, p, n, text, L).value;
    FoundPlan(Go, dir, target, anchor, p, n, text, L, word, e);
    var near := Exec(e, Collapse(if IsForward(dir) then StepLeft else StepRight, L));
    MoveLandsOnTarget(dir, anchor, m.start, m.end, |text|, near);
  }

  /**
   EXTEND grows the selection from the edge the prior selection was
   collapsed from to the same `Target` GO would reach, so it still contains
   the `L` characters that were selected before.
   */
  lemma ExtendKeepsPriorSelection(dir: Direction, target: TargetClass, anchor: AnchorMode, p: Matcher, n: int,
                                  text: string, L: nat, word: Matcher, e: Editor)
    requires n >= 1
    requires n <= |Find(p, Unselected(dir, text, L))|
    requires PriorSelection(dir, text, L, e)
    ensures var m := Locate(dir, p, n, text, L).value;
      var t := Target(dir, anchor, m.start, m.end);
      var r := Exec(e, Navigate(Extend, dir, target, anchor, p, n, text, L, word));
      && (if IsForward(dir) then r.Selects(0, t) && L <= t
          else r.Selects(t, |text|) && t <= |UnselectedBefore(text, L)|)
      && r.log == e.log
  {
    var m := Locate(dir, p, n, text, L).value;
    FoundPlan(Extend, dir, target, anchor, p, n, text, L, word, e);
    var near := Exec(e, Collapse(if IsForward(dir) then StepLeft else StepRight, L));
    ExtendReachesTarget(dir, anchor, m.start, m.end, |text|, near);
  }

  /**
   SELECT leaves exactly the anchor-resolved range selected; DELETE, CUT and
   COPY make the same selection and then log their one operation against it.
   */
  lemma SelectionActionsSelectResolvedRange(action: NavigationAction, dir: Direction, target: TargetClass,
                                            anchor: AnchorMode, p: Matcher, n: int, text: string, L: nat,
                                            word: Matcher, e: Editor)
    requires action == Select || action == Delete || action == Cut || action == Copy
    requires n >= 1
    requires n <= |Find(p, Unselected(dir, text, L))|
    requires IsForward(dir) ==> L <= |text|
    requires PriorSelection(dir, text, L, e)
    ensures var m := Locate(dir, p, n, text, L).value;
      var a := ResolveAnchor(ClassOf(target, word), anchor, text, m.start, m.end);
      var r := Exec(e, Navigate(action, dir, target, anchor, p, n, text, L, word));
      && Within(a, |text|)
      && r.Selects(a.start, a.end)
      && r.log == e.log + (if action == Select then [] else [Acted(EditOf(action), a.start, a.end)])
  {
    var m := Locate(dir, p, n, text, L).value;
    var near := Exec(e, Collapse(if IsForward(dir) then StepLeft else StepRight, L));
    FoundPlan(action, dir, target, anchor, p, n, text, L, word, e);
    LocatedInWindow(dir, p, n, text, L);
    SelectionActionsSelect(action, ClassOf(target, word), anchor, dir, text, m.start, m.end, near);
  }

}
