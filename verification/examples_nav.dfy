/** Worked requests on concrete windows. */
module WorkedExamples {
  import opened Wrappers
  import opened Matching
  import opened Editing
  import opened Requests
  import opened Actions
  import opened Navigation
  import opened Patterns

  lemma CatMatches(t: string)
    requires t == "cat sat on the cat"
    ensures Find(Literal("cat"), t) == [Span(0, 3), Span(15, 18)]
  {
    assert t[15..18] == "cat";
    assert LiteralFrom("cat", t, 18) == [];
    assert LiteralFrom("cat", t, 15) == [Span(15, 18)];
    assert forall k :: 3 <= k < 15 ==> t[k] != 'c';
    LiteralFromSkips("cat", t, 3, 15);
    assert t[0..3] == "cat";
    assert LiteralFrom("cat", t, 0) == [Span(0, 3)] + LiteralFrom("cat", t, 3);
    assert LiteralMatches("cat", t) == [Span(0, 3), Span(15, 18)];
  }

  /**
   SELECT, LEFT, occurrence 2 of "cat" in "cat sat on the cat", no prior
   selection: counting back from the cursor at the window end, the second
   "cat" is the first one, so `[0, 3)` ends up selected.
   */
  lemma SecondCatToTheLeft(t: string, e: Editor)
    requires t == "cat sat on the cat"
    requires e.Selects(18, 18)
    ensures Exec(e, Navigate(Select, Left, DefaultClass, Default, Literal("cat"), 2, t, 0, Word())).Selects(0, 3)
  {
    CatMatches(t);
    SecondOfTwoToTheLeft(t, e);
  }

  /**
   The same request on any window, of any length, whose only two "cat"s are at
   `[0, 3)` and `[15, 18)`, with the cursor at the window end.
   */
  lemma SecondOfTwoToTheLeft(t: string, e: Editor)
    requires Find(Literal("cat"), t) == [Span(0, 3), Span(15, 18)]
    requires e.Selects(|t|, |t|)
    ensures Exec(e, Navigate(Select, Left, DefaultClass, Default, Literal("cat"), 2, t, 0, Word())).Selects(0, 3)
  {
    assert UnselectedBefore(t, 0) == t;
    assert SearchLeft(Literal("cat"), 2, t, 0) == Some(Span(0, 3));
    assert Locate(Left, Literal("cat"), 2, t, 0) == Some(Span(0, 3));
    assert ResolveAnchor(Word(), Default, t, 0, 3) == Span(0, 3);
    assert PriorSelection(Left, t, 0, e);
    SelectionActionsSelectResolvedRange(Select, Left, DefaultClass, Default, Literal("cat"), 2, t, 0, Word(), e);
  }

  /** The word class on "foo ": one word, "foo". */
  lemma WordsBeforeParens(t: string)
    requires t == "foo "
    ensures Find(Word(), t) == [Span(0, 3)]
  {
    assert RunEnd(t, 3) == 3;
    assert RunEnd(t, 0) == 3;
    assert WordsFrom(t, 4) == [];
    assert WordsFrom(t, 3) == [];
    assert WordsFrom(t, 0) == [Span(0, 3)] + WordsFrom(t, 3);
  }

  /** The word class on " baz": one word, "baz", at `[1, 4)`. */
  lemma WordsAfterParens(t: string)
    requires t == " baz"
    ensures Find(Word(), t) == [Span(1, 4)]
  {
    assert RunEnd(t, 1) == 4;
    assert WordsFrom(t, 4) == [];
    assert WordsFrom(t, 1) == [Span(1, 4)] + WordsFrom(t, 4);
    assert WordsFrom(t, 0) == WordsFrom(t, 1);
  }

  /** In "foo (bar) baz", with the primary match on "(bar)" at `[4, 9)`, BEFORE with the word class resolves to "foo". */
  lemma BeforeParens(t: string)
    requires t == "foo (bar) baz"
    ensures ResolveAnchor(Word(), Before, t, 4, 9) == Span(0, 3) && t[0..3] == "foo"
  {
    assert t[0..3] == "foo";
    var prefix := t[..4];
    assert prefix == "foo ";
    WordsBeforeParens(prefix);
    BeforeAnchor(Word(), t, 4, 9);
  }

  /** In "foo (bar) baz", with the primary match on "(bar)" at `[4, 9)`, AFTER with the word class resolves to "baz". */
  lemma AfterParens(t: string)
    requires t == "foo (bar) baz"
    ensures ResolveAnchor(Word(), After, t, 4, 9) == Span(10, 13) && t[10..13] == "baz"
  {
    assert t[10..13] == "baz";
    var rest := t[9..];
    assert rest == " baz";
    WordsAfterParens(rest);
    AfterAnchor(Word(), t, 4, 9);
  }

  lemma CatInTheMiddle(t: string)
    requires t == "the cat is"
    ensures Find(Literal("cat"), t) == [Span(4, 7)]
  {
    assert t[4..7] == "cat";
    assert forall k :: 0 <= k < 4 ==> t[k] != 'c';
    LiteralFromSkips("cat", t, 0, 4);
    assert LiteralFrom("cat", t, 7) == [];
    assert LiteralFrom("cat", t, 4) == [Span(4, 7)] + LiteralFrom("cat", t, 7);
  }

  /** GO, RIGHT, "cat" found at `[4, 7)` of a 10-character window: the caret moves 7 to the right. */
  lemma GoRightPastCat(t: string, e: Editor)
    requires t == "the cat is"
    requires e.Selects(0, 0)
    ensures var r := Exec(e, Navigate(Go, Right, DefaultClass, Default, Literal("cat"), 1, t, 0, Word()));
      r.Collapsed() && r.caret == 7
  {
    CatInTheMiddle(t);
    assert UnselectedAfter(t, 0) == t;
    assert Locate(Right, Literal("cat"), 1, t, 0) == Some(Span(4, 7));
    assert PriorSelection(Right, t, 0, e);
    GoLandsOnTarget(Right, DefaultClass, Default, Literal("cat"), 1, t, 0, Word(), e);
  }

  lemma CatAfterHello(u: string)
    requires u == "hellocat"
    ensures Find(Literal("cat"), u) == [Span(5, 8)]
  {
    assert u[5..8] == "cat";
    assert forall k :: 0 <= k < 5 ==> u[k] != 'c';
    LiteralFromSkips("cat", u, 0, 5);
    assert LiteralFrom("cat", u, 8) == [];
    assert LiteralFrom("cat", u, 5) == [Span(5, 8)] + LiteralFrom("cat", u, 8);
  }

  /**
   EXTEND, DOWN, with "xyz" already selected: "cat" is found 5 characters
   past the selection, at window `[8, 11)`, and the selection grows to
   `[0, 11)`, i.e. 3 + 8 characters, instead of being replaced.
   */
  lemma ExtendDownOverSelection(t: string, e: Editor)
    requires t == "xyzhellocat"
    requires e.Selects(0, 3)
    ensures Exec(e, Navigate(Extend, Down, DefaultClass, Default, Literal("cat"), 1, t, 3, Word())).Selects(0, 11)
  {
    var u := UnselectedAfter(t, 3);
    assert u == "hellocat";
    CatAfterHello(u);
    assert Locate(Down, Literal("cat"), 1, t, 3) == Some(Span(8, 11));
    assert PriorSelection(Down, t, 3, e);
    ExtendKeepsPriorSelection(Down, DefaultClass, Default, Literal("cat"), 1, t, 3, Word(), e);
  }

  /**
   A failed search puts "abc" back: the selection `[0, 3)`, made with the caret
   on its left edge, is selected again with the caret on its right edge.
   */
  lemma FailedSearchPutsSelectionBack(t: string)
    requires t == "abcdog"
    ensures Exec(Editor(3, 0, []), Navigate(Cut, Right, DefaultClass, Default, Literal("cat"), 1, t, 3, Word()))
         == Editor(0, 3, [])
  {
    assert forall k :: 3 <= k < 6 ==> t[k] != 'c' && t[k] != 'C';
    RestoreWithoutCat(t);
  }

  /** No "c" means no match of the case-sensitive literal "cat". */
  lemma NoCat(u: string)
    requires forall k :: 0 <= k < |u| ==> u[k] != 'c'
    ensures Find(Literal("cat"), u) == []
  {
    LiteralFromSkips("cat", u, 0, |u|);
  }

  /**
   The same request on any 6-character window with no "c" or "C" after its
   first 3 characters, so that no "cat" follows the selection in any letter case.
   */
  lemma RestoreWithoutCat(t: string)
    requires |t| == 6
    requires forall k :: 3 <= k < 6 ==> t[k] != 'c' && t[k] != 'C'
    ensures Exec(Editor(3, 0, []), Navigate(Cut, Right, DefaultClass, Default, Literal("cat"), 1, t, 3, Word()))
         == Editor(0, 3, [])
  {
    assert UnselectedAfter(t, 3) == t[3..];
    NoCat(t[3..]);
    assert PriorSelection(Right, t, 3, Editor(3, 0, []));
    FailedSearchRestoresSelection(Cut, Right, DefaultClass, Default, Literal("cat"), 1, t, 3, Word(), Editor(3, 0, []));
  }

  /** The word class on "foo bar": "foo" and "bar". */
  lemma WordsOfFooBar(t: string)
    requires t == "foo bar"
    ensures Find(Word(), t) == [Span(0, 3), Span(4, 7)]
  {
    assert RunEnd(t, 7) == 7;
    assert RunEnd(t, 4) == 7;
    assert WordsFrom(t, 7) == [];
    assert WordsFrom(t, 4) == [Span(4, 7)] + WordsFrom(t, 7);
    assert RunEnd(t, 3) == 3;
    assert RunEnd(t, 0) == 3;
    assert WordsFrom(t, 3) == WordsFrom(t, 4);
    assert WordsFrom(t, 0) == [Span(0, 3)] + WordsFrom(t, 3);
  }

  /**
   BEFORE when the primary match starts at the window end: in "foo bar" the
   word before offset 7 is "bar" at `[4, 7)`, but the code searches
   `text[:-0]`, the empty string, finds no word, and falls back to the whole
   window `[0, 7)`.
   */
  lemma BeforeAtWindowEndSearchesNothing(t: string)
    requires t == "foo bar"
    ensures Find(Word(), t)[|Find(Word(), t)| - 1] == Span(4, 7)
    ensures ResolveAnchor(Word(), Before, t, 7, 7) == Span(0, 7)
  {
    WordsOfFooBar(t);
    BeforeAnchor(Word(), t, 7, 7);
    assert WordsFrom([], 0) == [];
  }
}
