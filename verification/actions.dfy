/**
 From a located range to editor commands: anchor resolution (`handle_select`),
 the step plans of `select`, `handle_move` and `handle_extend`, and the
 routing of `handle_navigation_action`.

 Every plan here is issued with the caret collapsed at the window's near edge:
 offset 0 when the window lies after the cursor, offset `|text|` when it lies
 before it.
 */
module Actions {
  import opened Wrappers
  import opened Slices
  import opened Matching
  import opened Editing
  import opened Requests

  /** Where the caret stands when a plan starts. */
  function NearEdge(dir: Direction, length: int): int {
    if IsForward(dir) then 0 else length
  }

  predicate AtNearEdge(e: Editor, dir: Direction, length: int) {
    e.Collapsed() && e.caret == NearEdge(dir, length)
  }

  /**
   The offset GO moves to and EXTEND extends to: the match's far side from
   the cursor, unless the anchor names the near side.
   */
  function Target(dir: Direction, anchor: AnchorMode, start: int, end: int): int {
    if IsForward(dir) then (if anchor == Before then start else end)
    else (if anchor == After then end else start)
  }

  /** `select`: walk to the near edge of `[start, end)`, then extend across it. */
  function SelectSteps(dir: Direction, start: int, end: int, length: int): (plan: Plan)
    ensures 0 <= start <= end <= length ==> NonNegative(plan)
  {
    if IsForward(dir) then [Move(StepRight, start), Move(ExtendRight, end - start)]
    else [Move(StepLeft, length - end), Move(ExtendLeft, end - start)]
  }

  /**
   From the near edge, the plan of `select` leaves exactly `[start, end)`
   selected, with the caret on the far side of the range from where it began.
   */
  lemma SelectStepsSelect(dir: Direction, start: int, end: int, length: int, e: Editor)
    requires 0 <= start <= end <= length
    requires AtNearEdge(e, dir, length)
    ensures Exec(e, SelectSteps(dir, start, end, length)).Selects(start, end)
    ensures Exec(e, SelectSteps(dir, start, end, length)).caret == (if IsForward(dir) then end else start)
    ensures Exec(e, SelectSteps(dir, start, end, length)).log == e.log
  {
    var plan := SelectSteps(dir, start, end, length);
    ExecTwo(e, plan[0], plan[1]);
  }

  /** `handle_move` */
  function HandleMove(dir: Direction, anchor: AnchorMode, start: int, end: int, length: int): (plan: Plan)
    ensures 0 <= start <= end <= length ==> NonNegative(plan)
  {
    if IsForward(dir) then [Move(StepRight, if anchor == Before then start else end)]
    else [Move(StepLeft, if anchor == After then length - end else length - start)]
  }

  /**
   GO ends with no selection and the caret on `Target`. After the cursor the
   range may run past the window end; before it, it must lie inside the window.
   */
  lemma MoveLandsOnTarget(dir: Direction, anchor: AnchorMode, start: int, end: int, length: int, e: Editor)
    requires 0 <= start <= end
    requires !IsForward(dir) ==> end <= length
    requires AtNearEdge(e, dir, length)
    ensures Exec(e, HandleMove(dir, anchor, start, end, length)).Collapsed()
    ensures Exec(e, HandleMove(dir, anchor, start, end, length)).caret == Target(dir, anchor, start, end)
    ensures Exec(e, HandleMove(dir, anchor, start, end, length)).log == e.log
  {
    ExecOne(e, HandleMove(dir, anchor, start, end, length)[0]);
  }

  /** `handle_extend` */
  function HandleExtend(anchor: AnchorMode, dir: Direction, start: int, end: int, length: int): (plan: Plan)
    ensures 0 <= start <= end <= length ==> NonNegative(plan)
  {
    if IsForward(dir) then [Move(ExtendRight, if anchor == Before then start else end)]
    else [Move(ExtendLeft, if anchor == After then length - end else length - start)]
  }

  /**
   EXTEND keeps the near edge as the anchor and moves the caret to the same
   `Target` GO would reach, so the selection runs from the near edge to it.
   */
  lemma ExtendReachesTarget(dir: Direction, anchor: AnchorMode, start: int, end: int, length: int, e: Editor)
    requires 0 <= start <= end
    requires !IsForward(dir) ==> end <= length
    requires AtNearEdge(e, dir, length)
    ensures var r := Exec(e, HandleExtend(anchor, dir, start, end, length));
      && r.anchor == NearEdge(dir, length)
      && r.caret == Target(dir, anchor, start, end)
      && (if IsForward(dir) then r.Selects(0, Target(dir, anchor, start, end))
          else r.Selects(Target(dir, anchor, start, end), length))
      && r.log == e.log
  {
    ExecOne(e, HandleExtend(anchor, dir, start, end, length)[0]);
  }

  /**
   The anchor step of `handle_select`. BEFORE searches `text[:-(length - start)]`
   for the last class match, falling back to `(0, start)`; AFTER searches
   `text[end:]` for the first one, shifted back by `end`, falling back to
   `(end, length)`. For a range inside the window the result stays inside it,
   BEFORE's result ends by the primary match's start and AFTER's begins at or
   after its end.
   */
  function ResolveAnchor(cls: Matcher, anchor: AnchorMode, text: string, start: int, end: int): (r: Span)
    ensures anchor == Default ==> r == Span(start, end)
    ensures 0 <= start <= end <= |text| ==> Within(r, |text|)
    ensures 0 <= start <= end <= |text| && anchor == Before ==> r.end <= start
    ensures 0 <= start <= end <= |text| && anchor == After ==> end <= r.start
  {
    match anchor
    case Before =>
      var selectLeft := |text| - start;
      var textLeft := Prefix(text, -selectLeft);
      (match MatchBackwards(cls, 1, textLeft)
       case None => Span(0, start)
       case Some(m) => m)
    case After =>
      var textRight := Suffix(text, end);
      (match MatchForward(cls, 1, textRight)
       case None => Span(end, |text|)
       case Some(m) => m.Shift(end))
    case Default => Span(start, end)
  }

  /**
   BEFORE picks the last class match in the text before the primary match, or
   everything from the window start up to it. Because the code cuts the text
   with `text[:-(length - start)]`, a primary match that starts AT the window
   end leaves the empty string to search, not the whole window.
   */
  lemma BeforeAnchor(cls: Matcher, text: string, start: int, end: int)
    requires 0 <= start <= end <= |text|
    ensures var searched := if start < |text| then text[..start] else [];
      var ms := Find(cls, searched);
      var r := ResolveAnchor(cls, Before, text, start, end);
      && (|ms| == 0 ==> r == Span(0, start))
      && (|ms| > 0 ==> r == ms[|ms| - 1])
  {
    DropLast(text, |text| - start);
  }

  /**
   AFTER picks the first class match in the text after the primary match, in
   window offsets, or everything from the match end to the window end; the
   selected characters are those the class matched.
   */
  lemma AfterAnchor(cls: Matcher, text: string, start: int, end: int)
    requires 0 <= start <= end <= |text|
    ensures |Find(cls, text[end..])| == 0 ==> ResolveAnchor(cls, After, text, start, end) == Span(end, |text|)
    ensures |Find(cls, text[end..])| > 0 ==>
      ResolveAnchor(cls, After, text, start, end) == Find(cls, text[end..])[0].Shift(end)
    ensures |Find(cls, text[end..])| > 0 ==>
      var r := ResolveAnchor(cls, After, text, start, end);
      var m := Find(cls, text[end..])[0];
      text[r.start..r.end] == text[end..][m.start..m.end]
  {
    var rest := text[end..];
    DropFirst(text, end);
    assert ResolveAnchor(cls, After, text, start, end)
        == (match MatchForward(cls, 1, rest) case None => Span(end, |text|) case Some(m) => m.Shift(end));
    var ms := Find(cls, rest);
    if |ms| > 0 {
      var m := ms[0];
      assert MatchForward(cls, 1, rest) == Some(m);
      assert ResolveAnchor(cls, After, text, start, end) == m.Shift(end);
      assert Within(m, |rest|);
      SliceOfSuffix(text, end, m.start, m.end);
    }
  }

  /** `handle_select`: resolve the anchor, then `select` the resulting range. */
  function HandleSelect(cls: Matcher, anchor: AnchorMode, dir: Direction, text: string, start: int, end: int): (plan: Plan)
    ensures 0 <= start <= end <= |text| ==> NonNegative(plan)
  {
    var r := ResolveAnchor(cls, anchor, text, start, end);
    SelectSteps(dir, r.start, r.end, |text|)
  }

  /** `handle_navigation_action`: route the located range to the action's handler. */
  function HandleNavigationAction(action: NavigationAction, cls: Matcher, anchor: AnchorMode, dir: Direction,
                                  text: string, start: int, end: int): (plan: Plan)
    ensures 0 <= start <= end <= |text| ==> NonNegative(plan)
  {
    match action
    case Go => HandleMove(dir, anchor, start, end, |text|)
    case Select => HandleSelect(cls, anchor, dir, text, start, end)
    case Delete => HandleSelect(cls, anchor, dir, text, start, end) + [Act(EditDelete)]
    case Cut => HandleSelect(cls, anchor, dir, text, start, end) + [Act(EditCut)]
    case Copy => HandleSelect(cls, anchor, dir, text, start, end) + [Act(EditCopy)]
    case Extend => HandleExtend(anchor, dir, start, end, |text|)
  }

  /**
   From the near edge, SELECT leaves exactly the anchor-resolved range
   selected; DELETE, CUT and COPY make the same selection and then log their
   one operation against it.
   */
  lemma SelectionActionsSelect(action: NavigationAction, cls: Matcher, anchor: AnchorMode, dir: Direction,
                               text: string, start: int, end: int, e: Editor)
    requires action == Select || action == Delete || action == Cut || action == Copy
    requires 0 <= start <= end <= |text|
    requires AtNearEdge(e, dir, |text|)
    ensures var a := ResolveAnchor(cls, anchor, text, start, end);
      var r := Exec(e, HandleNavigationAction(action, cls, anchor, dir, text, start, end));
      && Within(a, |text|)
      && r.Selects(a.start, a.end)
      && r.log == e.log + (if action == Select then [] else [Acted(EditOf(action), a.start, a.end)])
  {
    var a := ResolveAnchor(cls, anchor, text, start, end);
    var sel := HandleSelect(cls, anchor, dir, text, start, end);
    SelectStepsSelect(dir, a.start, a.end, |text|, e);
    if action != Select {
      var act := Act(EditOf(action));
      CompoundIsSelectThenAct(action, cls, anchor, dir, text, start, end);
      ExecAppend(e, sel, [act]);
      ExecOne(Exec(e, sel), act);
    }
  }

  /**
   DELETE, CUT and COPY issue exactly SELECT's commands followed by their one
   edit operation.
   */
  lemma CompoundIsSelectThenAct(action: NavigationAction, cls: Matcher, anchor: AnchorMode, dir: Direction,
                                text: string, start: int, end: int)
    requires action == Delete || action == Cut || action == Copy
    ensures HandleNavigationAction(action, cls, anchor, dir, text, start, end)
         == HandleNavigationAction(Select, cls, anchor, dir, text, start, end) + [Act(EditOf(action))]
  {
  }

}
