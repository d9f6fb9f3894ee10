/**
 * Three places where the text-input engine (components/script/textinput.rs)
 * breaks its own selection invariant, the `Ordered` part of `Valid` that
 * `assert_ok_selection` checks only in debug builds. Each is modelled here as
 * written, with a concrete state that shows the discrepancy next to the
 * corrected definition that the rest of the model uses.
 */
module Findings {
  import opened Wrappers
  import opened Unicode
  import opened Labels
  import opened LineText
  import opened TextPoints
  import opened EditorState
  import opened Splicing
  import opened Movement

  // ---------------------------------------------------------- constrain_to

  /**
   * `constrain_to` as written: the line is clamped to the last line, then
   * the index to that line's length, also for a point that was past the
   * last line.
   */
  function ConstrainToAsWritten(p: TextPoint, lines: seq<Line>): (q: TextPoint)
    requires |lines| > 0
    ensures InBounds(lines, q)
    ensures q.line == Min(p.line, |lines| - 1)
    ensures p.line < |lines| ==> q == ConstrainTo(p, lines)
  {
    var line := Min(p.line, |lines| - 1);
    TextPoint(line, Min(p.index, LineLen(lines, line)))
  }

  /** `set_content` as written, constraining the points with `ConstrainToAsWritten`. */
  function SetContentAsWritten(e: Editor, content: Secure<string>): (r: Editor)
    ensures r.lines == ContentLines(content, e.multiline)
    ensures Shaped(r) && Bounded(r)
  {
    var ls := ContentLines(content, e.multiline);
    e.(lines := ls,
       wasLastChangeBySetContent := true,
       editPoint := ConstrainToAsWritten(e.editPoint, ls),
       selectionOrigin := if e.selectionOrigin.Some? then Some(ConstrainToAsWritten(e.selectionOrigin.value, ls)) else None)
  }

  /**
   * A forward selection from the end of "abc" to the start of "d", then the
   * content set to "abc": the edit point, on the line that went away, lands
   * at the start of the remaining line while the origin stays at its end, so
   * the forward selection runs backwards. The corrected `set_content` keeps
   * the selection ordered.
   */
  lemma SetContentAsWrittenInvertsSelection()
    ensures var e := Editor([Public("abc"), Public("d")], TextPoint(1, 0), Some(TextPoint(0, 3)),
                            ForwardSelection, true, None, None, false);
      Valid(e)
      && SetContentAsWritten(e, Public("abc")).editPoint == TextPoint(0, 0)
      && SetContentAsWritten(e, Public("abc")).selectionOrigin == Some(TextPoint(0, 3))
      && !Ordered(SetContentAsWritten(e, Public("abc")))
      && Valid(SetContentOn(e, Public("abc")))
  {
    var e := Editor([Public("abc"), Public("d")], TextPoint(1, 0), Some(TextPoint(0, 3)),
                    ForwardSelection, true, None, None, false);
    SingleLineContent();
    SetContentValid(e, Public("abc"));
  }

  /**
   * The same content change with nothing selected and the caret at the start
   * of "d": the engine puts the caret at the start of "abc", the corrected
   * `set_content` at its end, where the removed line's text used to follow.
   */
  lemma SetContentAsWrittenMovesCaret()
    ensures var e := Editor([Public("abc"), Public("d")], TextPoint(1, 0), None, Undirected, true, None, None, false);
      Valid(e)
      && SetContentAsWritten(e, Public("abc")).editPoint == TextPoint(0, 0)
      && SetContentOn(e, Public("abc")).editPoint == TextPoint(0, 3)
  {
    SingleLineContent();
  }

  /** "abc" as the content of a multi-line input is the one line "abc", three bytes long. */
  lemma SingleLineContent()
    ensures ContentLines(Public("abc"), true) == [Public("abc")]
    ensures ByteLen("abc") == 3
  {
    ByteLenAscii("abc");
    assert ReplaceCrLf("abc") == "abc" by {
      assert ReplaceCrLf("c") == "c";
      assert ReplaceCrLf("bc") == "bc";
    }
    assert Split("abc", {'\n', '\r'}) == ["abc"] by {
      assert Split("c", {'\n', '\r'}) == ["c"];
      assert Split("bc", {'\n', '\r'}) == ["bc"];
    }
  }

  // ---------------------------------------- perform_horizontal_adjustment

  /**
   * The engine's step over a line break: `adjust_vertical` by one line,
   * which moves the selection origin onto the edit point when the edit
   * point reaches or passes it, then the index set to the line's end or start.
   */
  function CrossLineAsWritten(e: Editor, direction: Direction, select: Selection): (r: Editor)
    requires Shaped(e) && Bounded(e) && OnBoundary(e.lines, e.editPoint)
    requires direction == Backward ==> e.editPoint.line > 0
    requires direction == Forward ==> e.editPoint.line + 1 < |e.lines|
    ensures r.lines == e.lines && r.multiline == e.multiline
    ensures Shaped(r) && Bounded(r) && OnBoundary(r.lines, r.editPoint)
    ensures r.editPoint == CrossPoint(e.lines, e.editPoint, direction)
    ensures OnBoundaries(e) ==> OnBoundaries(r)
  {
    var adjust := if direction == Backward then -1 else 1;
    AdjustVerticalBounded(e, adjust, select);
    var e1 := AdjustVerticalOn(e, adjust, select);
    var l := e.editPoint.line + adjust;
    EndIsBoundary(e.lines[l].payload);
    e1.(editPoint := TextPoint(l, if direction == Backward then LineLen(e.lines, l) else 0))
  }

  /** A vertical move inside the lines keeps the edit point and the origin in bounds. */
  lemma AdjustVerticalBounded(e: Editor, adjust: int, select: Selection)
    requires Shaped(e) && Bounded(e) && OnBoundary(e.lines, e.editPoint)
    requires adjust == -1 || adjust == 1
    requires adjust == -1 ==> e.editPoint.line > 0
    requires adjust == 1 ==> e.editPoint.line + 1 < |e.lines|
    ensures VerticalInside(e, adjust)
    ensures Bounded(AdjustVerticalOn(e, adjust, select))
    ensures AdjustVerticalOn(e, adjust, select).lines == e.lines
    ensures AdjustVerticalOn(e, adjust, select).editPoint.line == e.editPoint.line + adjust
    ensures OnBoundaries(e) ==> OnBoundaries(AdjustVerticalOn(e, adjust, select))
  {
    var e1 := if select == Selected then AnchorSelection(e) else ClearSelectionOn(e);
    assert Bounded(e1);
    var target := e.editPoint.line + adjust;
    var col := CharsBefore(e.lines[e.editPoint.line].payload, e.editPoint.index);
    var q := TextPoint(target, LenOfFirstNChars(e.lines[target].payload, col));
    assert OnBoundary(e.lines, q);
    assert AdjustVerticalOn(e, adjust, select) == CollapseOrigin(e1.(editPoint := q));
  }

  /** `adjust_horizontal` as written, over `PerformHorizontalAdjustmentAsWritten`. */
  function AdjustHorizontalAsWritten(e: Editor, adjust: nat, direction: Direction, select: Selection): (r: Editor)
    requires Shaped(e) && Bounded(e) && OnBoundary(e.lines, e.editPoint)
    ensures r.lines == e.lines
    decreases adjust, 1
  {
    var r := AdjustSelectionForHorizontalChange(e, direction, select);
    if r.1 then r.0 else PerformHorizontalAdjustmentAsWritten(r.0, adjust, direction, select)
  }

  /** `perform_horizontal_adjustment` as written: the crossing step is `CrossLineAsWritten`. */
  function PerformHorizontalAdjustmentAsWritten(e: Editor, adjust: nat, direction: Direction, select: Selection): (r: Editor)
    requires Shaped(e) && Bounded(e) && OnBoundary(e.lines, e.editPoint)
    ensures r.lines == e.lines
    decreases adjust, 0
  {
    var moved :=
      if Crosses(e, adjust, direction) then
        AdjustHorizontalAsWritten(CrossLineAsWritten(e, direction, select),
                                  adjust - CrossedBytes(e.lines, e.editPoint, direction), direction, select)
      else
        e.(editPoint := StayPoint(e.lines, e.editPoint, adjust, direction));
    UpdateSelectionDirection(moved)
  }

  /**
   * Shift+Left at the start of the second line of "ab\ncd": the engine
   * selects "ab" (origin (0, 0), edit point (0, 2), forward) instead of the
   * line break it passed over; the corrected move keeps the origin at (1, 0)
   * and selects backwards from it.
   */
  lemma HorizontalCrossingMovesOrigin()
    ensures var e := Editor([Public("ab"), Public("cd")], TextPoint(1, 0), None, Undirected, true, None, None, false);
      Valid(e) && OnBoundaries(e)
      && AdjustHorizontalAsWritten(e, 1, Backward, Selected).editPoint == TextPoint(0, 2)
      && AdjustHorizontalAsWritten(e, 1, Backward, Selected).selectionOrigin == Some(TextPoint(0, 0))
      && AdjustHorizontalAsWritten(e, 1, Backward, Selected).selectionDirection == ForwardSelection
      && AdjustHorizontalOn(e, 1, Backward, Selected).editPoint == TextPoint(0, 2)
      && AdjustHorizontalOn(e, 1, Backward, Selected).selectionOrigin == Some(TextPoint(1, 0))
      && AdjustHorizontalOn(e, 1, Backward, Selected).selectionDirection == BackwardSelection
  {
    var e := Editor([Public("ab"), Public("cd")], TextPoint(1, 0), None, Undirected, true, None, None, false);
    assert ByteLen("ab") == 2 by { ByteLenAscii("ab"); }
    assert ByteLen("cd") == 2 by { ByteLenAscii("cd"); }
    var a := AnchorSelection(e);
    assert a.selectionOrigin == Some(TextPoint(1, 0));
    assert LenOfFirstNChars("ab", 0) == 0;
    var v := AdjustVerticalOn(a, -1, Selected);
    assert v.editPoint == TextPoint(0, 0) && v.selectionOrigin == Some(TextPoint(0, 0));
    var w1 := CrossLineAsWritten(a, Backward, Selected);
    assert w1.editPoint == TextPoint(0, 2) && w1.selectionOrigin == Some(TextPoint(0, 0));
    var c1 := CrossLineOn(a, Backward, Selected);
    assert c1.editPoint == TextPoint(0, 2) && c1.selectionOrigin == Some(TextPoint(1, 0));
  }

  /**
   * `adjust_horizontal_by_one` as written, selecting, from a state without a
   * selection: the result is a valid selection with both ends on character
   * boundaries, and when the step stays on its line it is the corrected step.
   * Crossing a line break the step moves exactly one byte, so it ends on the
   * adjacent line's near end.
   */
  lemma ByOneAsWritten(e: Editor, direction: Direction)
    requires Valid(e) && OnBoundaries(e)
    ensures var r := AdjustHorizontalAsWritten(e, ByOneAdjust(e.lines, e.editPoint, direction), direction, Selected);
      Valid(r) && OnBoundaries(r) && r.selectionOrigin.Some?
    ensures !Crosses(e, ByOneAdjust(e.lines, e.editPoint, direction), direction) ==>
      AdjustHorizontalAsWritten(e, ByOneAdjust(e.lines, e.editPoint, direction), direction, Selected)
        == AdjustHorizontalByOneOn(e, direction, Selected)
    ensures Crosses(e, ByOneAdjust(e.lines, e.editPoint, direction), direction) ==>
      AdjustHorizontalAsWritten(e, ByOneAdjust(e.lines, e.editPoint, direction), direction, Selected).editPoint
        == CrossPoint(e.lines, e.editPoint, direction)
  {
    var adjust := ByOneAdjust(e.lines, e.editPoint, direction);
    var a := AnchorSelection(e);
    assert AdjustHorizontalAsWritten(e, adjust, direction, Selected)
        == PerformHorizontalAdjustmentAsWritten(a, adjust, direction, Selected);
    if Crosses(e, adjust, direction) {
      OneByteCrossing(e.lines, e.editPoint, direction);
      ByOneCrossingAsWritten(a, direction);
    } else {
      assert PerformHorizontalAdjustmentAsWritten(a, adjust, direction, Selected)
          == PerformHorizontalAdjustmentOn(a, adjust, direction, Selected);
      AdjustHorizontalByOneMoves(e, direction, Selected);
    }
  }

  /** The crossing step of one byte from an anchored selection: over the break and no further. */
  lemma ByOneCrossingAsWritten(a: Editor, direction: Direction)
    requires Shaped(a) && Bounded(a) && OnBoundaries(a) && a.selectionOrigin.Some?
    requires Crosses(a, 1, direction)
    ensures var r := PerformHorizontalAdjustmentAsWritten(a, 1, direction, Selected);
      Valid(r) && OnBoundaries(r) && r.selectionOrigin.Some? && r.editPoint == CrossPoint(a.lines, a.editPoint, direction)
  {
    var c := CrossLineAsWritten(a, direction, Selected);
    assert CrossedBytes(a.lines, a.editPoint, direction) == 1;
    assert c.selectionOrigin.Some? by {
      assert AnchorSelection(a) == a;
    }
    var d := UpdateSelectionDirection(c);
    assert AdjustHorizontalAsWritten(c, 0, direction, Selected) == d by {
      assert AnchorSelection(c) == c;
      assert !Crosses(c, 0, direction);
      assert c.(editPoint := StayPoint(c.lines, c.editPoint, 0, direction)) == c;
    }
    assert PerformHorizontalAdjustmentAsWritten(a, 1, direction, Selected) == UpdateSelectionDirection(d);
  }

  /** A step of one character that crosses a line break starts at the line's edge and uses up exactly the break. */
  lemma OneByteCrossing(lines: seq<Line>, p: TextPoint, direction: Direction)
    requires OnBoundary(lines, p)
    ensures CrossesAt(lines, p, ByOneAdjust(lines, p, direction), direction) ==>
      ByOneAdjust(lines, p, direction) == CrossedBytes(lines, p, direction) == 1
  {
    var x := lines[p.line].payload;
    if direction == Backward {
      if p.index > 0 {
        PrevBoundary(x, p.index);
        var before := SliceTo(x, p.index);
        assert before[|before| - 1] == x[CharsBefore(x, p.index) - 1];
      } else {
        SliceEnds(x);
      }
    } else {
      var after := SliceFrom(x, p.index);
      if after != "" {
        assert ByteLen(after) == Utf8Len(after[0]) + ByteLen(after[1..]);
      }
    }
  }

  /**
   * `delete_char` as written: with nothing selected it selects the neighbouring
   * character with the engine's own `adjust_horizontal_by_one`, then removes the
   * selection. It agrees with the corrected `delete_char` unless the step
   * crosses a line break.
   */
  function DeleteCharAsWritten(e: Editor, direction: Direction): (r: Editor)
    requires Valid(e) && OnBoundaries(e)
    ensures Valid(r) && OnBoundaries(r)
    ensures (e.selectionOrigin.Some? && e.selectionOrigin != Some(e.editPoint))
            || !Crosses(e, ByOneAdjust(e.lines, e.editPoint, direction), direction) ==>
      r == DeleteCharOn(e, direction)
  {
    if e.selectionOrigin.None? || e.selectionOrigin == Some(e.editPoint) then
      ByOneAsWritten(e, direction);
      var e1 := AdjustHorizontalAsWritten(e, ByOneAdjust(e.lines, e.editPoint, direction), direction, Selected);
      RemoveSelection(e1);
      ReplaceSelectionOn(e1, Public(""))
    else
      RemoveSelection(e);
      ReplaceSelectionOn(e, Public(""))
  }

  /**
   * Backspace at the start of the second line of "ab\ncd": the engine's step
   * back selects "ab" instead of the line break, so the first line's text is
   * removed and "\ncd" is left; the corrected `delete_char` joins the lines
   * into "abcd".
   */
  lemma BackspaceAtLineStartAsWritten()
    ensures var e := Editor([Public("ab"), Public("cd")], TextPoint(1, 0), None, Undirected, true, None, None, false);
      Valid(e) && OnBoundaries(e)
      && Text(DeleteCharAsWritten(e, Backward).lines) == "\ncd"
      && Text(DeleteCharOn(e, Backward).lines) == "abcd"
  {
    var e := Editor([Public("ab"), Public("cd")], TextPoint(1, 0), None, Undirected, true, None, None, false);
    BackspaceExampleSteps(e);
    BackspaceAsWrittenText(e);
    ExampleTexts(e.lines);
    BackspaceCorrectedText(e);
  }

  /** The as-written half of `BackspaceAtLineStartAsWritten`; a separate lemma only to split the proof cost. */
  lemma BackspaceAsWrittenText(e: Editor)
    requires e == Editor([Public("ab"), Public("cd")], TextPoint(1, 0), None, Undirected, true, None, None, false)
    requires Valid(e) && OnBoundaries(e) && ByOneAdjust(e.lines, e.editPoint, Backward) == 1
    requires AdjustHorizontalAsWritten(e, 1, Backward, Selected).editPoint == TextPoint(0, 2)
    requires AdjustHorizontalAsWritten(e, 1, Backward, Selected).selectionOrigin == Some(TextPoint(0, 0))
    requires AdjustHorizontalAsWritten(e, 1, Backward, Selected).selectionDirection == ForwardSelection
    ensures Text(DeleteCharAsWritten(e, Backward).lines) == "\ncd"
  {
    ExampleTexts(e.lines);
    var e1 := AdjustHorizontalAsWritten(e, 1, Backward, Selected);
    assert DeleteCharAsWritten(e, Backward) == ReplaceSelectionOn(e1, Public(""));
    assert SelectionStart(e1) == TextPoint(0, 0) && SelectionEnd(e1) == TextPoint(0, 2);
    RemoveSelection(e1);
  }

  lemma BackspaceCorrectedText(e: Editor)
    requires Valid(e) && OnBoundaries(e) && e.selectionOrigin.None? && e.editPoint != TextPoint(0, 0)
    requires TextBefore(e.lines, e.editPoint) == "ab\n" && TextAfter(e.lines, e.editPoint) == "cd"
    ensures Text(DeleteCharOn(e, Backward).lines) == "abcd"
  {
    DeleteCharRemoves(e, Backward);
    assert "ab\n"[..2] == "ab";
  }

  /** The text on either side of the points the Backspace example uses. */
  lemma ExampleTexts(lines: seq<Line>)
    requires lines == [Public("ab"), Public("cd")]
    ensures OnBoundary(lines, TextPoint(0, 0)) && OnBoundary(lines, TextPoint(0, 2)) && OnBoundary(lines, TextPoint(1, 0))
    ensures TextBefore(lines, TextPoint(0, 0)) == "" && TextAfter(lines, TextPoint(0, 2)) == "\ncd"
    ensures TextBefore(lines, TextPoint(1, 0)) == "ab\n" && TextAfter(lines, TextPoint(1, 0)) == "cd"
  {
    assert ByteLen("ab") == 2 by { ByteLenAscii("ab"); }
    SliceEnds("ab");
    SliceEnds("cd");
    assert Payloads(lines) == ["ab", "cd"];
    assert TextBefore(lines, TextPoint(0, 0)) == Join([""]);
    assert TextAfter(lines, TextPoint(0, 2)) == Join(["", "cd"]);
    assert TextBefore(lines, TextPoint(1, 0)) == Join(["ab", ""]);
    assert TextAfter(lines, TextPoint(1, 0)) == Join(["cd"]);
  }

  /** The concrete facts behind `BackspaceAtLineStartAsWritten`; a separate lemma only to split the proof cost. */
  lemma BackspaceExampleSteps(e: Editor)
    requires e == Editor([Public("ab"), Public("cd")], TextPoint(1, 0), None, Undirected, true, None, None, false)
    ensures Valid(e) && OnBoundaries(e) && ByOneAdjust(e.lines, e.editPoint, Backward) == 1
    ensures AdjustHorizontalAsWritten(e, 1, Backward, Selected).editPoint == TextPoint(0, 2)
    ensures AdjustHorizontalAsWritten(e, 1, Backward, Selected).selectionOrigin == Some(TextPoint(0, 0))
    ensures AdjustHorizontalAsWritten(e, 1, Backward, Selected).selectionDirection == ForwardSelection
  {
    HorizontalCrossingMovesOrigin();
    SliceEnds("cd");
  }

  // ------------------------------------------ adjust_horizontal_to_limit

  /** `adjust_horizontal_to_limit` as written: the edit point moves, the direction is left as it was. */
  function AdjustHorizontalToLimitAsWritten(e: Editor, direction: Direction, select: Selection): (r: Editor)
    requires |e.lines| > 0
    ensures select == NotSelected ==> r == AdjustHorizontalToLimitOn(e, direction, select)
  {
    var r := AdjustSelectionForHorizontalChange(e, direction, select);
    if r.1 then r.0
    else r.0.(editPoint := if direction == Backward then TextPoint(0, 0) else EndPoint(e.lines))
  }

  /**
   * Shift+Cmd+ArrowUp on macOS, i.e. `adjust_horizontal_to_limit(Backward,
   * Selected)`, at the end of "ab" with nothing selected: the selection is
   * anchored at (0, 2) and the edit point goes to (0, 0), but the direction
   * stays undirected, which is read as forward, so the selection start comes
   * after its end. The corrected move makes it a backward selection.
   */
  lemma ToLimitAsWrittenInvertsSelection()
    ensures var e := Editor([Public("ab")], TextPoint(0, 2), None, Undirected, false, None, None, false);
      Valid(e)
      && !Ordered(AdjustHorizontalToLimitAsWritten(e, Backward, Selected))
      && SelectionStart(AdjustHorizontalToLimitAsWritten(e, Backward, Selected)) == TextPoint(0, 2)
      && SelectionEnd(AdjustHorizontalToLimitAsWritten(e, Backward, Selected)) == TextPoint(0, 0)
      && Valid(AdjustHorizontalToLimitOn(e, Backward, Selected))
      && AdjustHorizontalToLimitOn(e, Backward, Selected).selectionDirection == BackwardSelection
  {
    assert ByteLen("ab") == 2 by { ByteLenAscii("ab"); }
  }
}
