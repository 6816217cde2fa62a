/**
 The host editor as the navigation code drives it: a selection given by an
 anchor and a caret, moved by the primitive steps `edit.left/right` and
 `edit.extend_left/right`, plus a log of the delete/cut/copy operations issued
 against the selection of the moment.

 Positions are window offsets and unbounded: the buffer around the window is
 not modelled, so neither is the editor stopping at the buffer's ends.
 */
module Editing {
  import opened Slices

  datatype Prim = StepLeft | StepRight | ExtendLeft | ExtendRight

  /** `edit.delete()`, `edit.cut()`, `edit.copy()`; their effect on buffer and clipboard is not modelled. */
  datatype EditKind = EditDelete | EditCut | EditCopy

  /** One call into the editor: a counted loop of one primitive, or one edit operation. */
  datatype Command = Move(prim: Prim, count: int) | Act(kind: EditKind)

  type Plan = seq<Command>

  /** An edit operation together with the selection it applied to. */
  datatype Acted = Acted(kind: EditKind, lo: int, hi: int)

  datatype Editor = Editor(anchor: int, caret: int, log: seq<Acted>) {
    function Lo(): int { Min(anchor, caret) }
    function Hi(): int { Max(anchor, caret) }
    predicate Collapsed() { anchor == caret }
    /** The selected offsets are exactly `[lo, hi)`, whichever end the caret is on. */
    predicate Selects(lo: int, hi: int) { Lo() == lo && Hi() == hi }
  }

  /**
   One primitive step. `left`/`right` with a selection collapse it to its left
   or right edge; without one they move the caret one offset. The extend steps
   move the caret only.
   */
  function Step(e: Editor, p: Prim): (r: Editor)
    ensures r.log == e.log
  {
    match p
    case StepLeft => if e.Collapsed() then Editor(e.caret - 1, e.caret - 1, e.log) else Editor(e.Lo(), e.Lo(), e.log)
    case StepRight => if e.Collapsed() then Editor(e.caret + 1, e.caret + 1, e.log) else Editor(e.Hi(), e.Hi(), e.log)
    case ExtendLeft => e.(caret := e.caret - 1)
    case ExtendRight => e.(caret := e.caret + 1)
  }

  /**
   The step loops `go_left`, `go_right`, `extend_left`, `extend_right`:
   `for j in range(0, count)`, so a count of zero or less takes no step.
   */
  function Repeat(e: Editor, p: Prim, count: int): (r: Editor)
    ensures r.log == e.log
    ensures count <= 0 ==> r == e
    ensures p == ExtendRight ==> r.anchor == e.anchor && r.caret == e.caret + Max(0, count)
    ensures p == ExtendLeft ==> r.anchor == e.anchor && r.caret == e.caret - Max(0, count)
    ensures p == StepRight && count > 0 ==>
      r.Collapsed() && r.caret == (if e.Collapsed() then e.caret + count else e.Hi() + count - 1)
    ensures p == StepLeft && count > 0 ==>
      r.Collapsed() && r.caret == (if e.Collapsed() then e.caret - count else e.Lo() - count + 1)
    decreases count
  {
    if count <= 0 then e else Repeat(Step(e, p), p, count - 1)
  }

  /** One command; an edit operation records the selection it acts on and leaves it in place. */
  function Perform(e: Editor, c: Command): (r: Editor)
    ensures c.Move? ==> r == Repeat(e, c.prim, c.count)
    ensures c.Act? ==> r.anchor == e.anchor && r.caret == e.caret && r.log == e.log + [Acted(c.kind, e.Lo(), e.Hi())]
  {
    match c
    case Move(p, k) => Repeat(e, p, k)
    case Act(kind) => e.(log := e.log + [Acted(kind, e.Lo(), e.Hi())])
  }

  /** The commands of a plan, in order. */
  function Exec(e: Editor, plan: Plan): Editor
    decreases |plan|
  {
    if |plan| == 0 then e else Exec(Perform(e, plan[0]), plan[1..])
  }

  /** Every counted loop of the plan runs a non-negative number of times as written. */
  predicate NonNegative(plan: Plan) {
    forall i :: 0 <= i < |plan| && plan[i].Move? ==> plan[i].count >= 0
  }

  lemma NonNegativeAppend(a: Plan, b: Plan)
    requires NonNegative(a) && NonNegative(b)
    ensures NonNegative(a + b)
  {
    forall i | 0 <= i < |a + b| && (a + b)[i].Move?
      ensures (a + b)[i].count >= 0
    {
      if i >= |a| {
        assert (a + b)[i] == b[i - |a|];
      }
    }
  }

  /** Running two plans one after the other is running their concatenation. */
  lemma {:induction false} ExecAppend(e: Editor, a: Plan, b: Plan)
    ensures Exec(e, a + b) == Exec(Exec(e, a), b)
    decreases |a|
  {
    if |a| == 0 {
      assert a + b == b;
    } else {
      assert (a + b)[0] == a[0];
      assert (a + b)[1..] == a[1..] + b;
      ExecAppend(Perform(e, a[0]), a[1..], b);
    }
  }

  lemma ExecOne(e: Editor, c: Command)
    ensures Exec(e, [c]) == Perform(e, c)
  {
  }

  lemma ExecTwo(e: Editor, c: Command, d: Command)
    ensures Exec(e, [c, d]) == Perform(Perform(e, c), d)
  {
    assert [c, d][1..] == [d];
    assert Exec(e, [c, d]) == Exec(Perform(e, c), [d]);
    ExecOne(Perform(e, c), d);
  }

}
