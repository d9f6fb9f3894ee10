/**
 * Caret movement in the text-input engine (components/script/textinput.rs):
 * `adjust_vertical`, `adjust_horizontal`, `perform_horizontal_adjustment`,
 * `adjust_horizontal_by_one`, `adjust_horizontal_to_line_end`,
 * `adjust_horizontal_to_limit`, and `delete_char`, which selects the
 * character next to the edit point before removing the selection.
 * Grapheme clusters are approximated by code points.
 */
module Movement {
  import opened Wrappers
  import opened Unicode
  import opened Labels
  import opened LineText
  import opened TextPoints
  import opened EditorState
  import opened Splicing


  /** A move that is not extending the selection, while there is one, only collapses it. */
  predicate Cancels(e: Editor, select: Selection)
  {
    select == NotSelected && e.selectionOrigin.Some?
  }

  /**
   * `adjust_selection_for_horizontal_change`: a selecting move anchors the
   * selection at the edit point; a non-selecting move with a selection
   * collapses it to its start or end and cancels the move.
   */
  function AdjustSelectionForHorizontalChange(e: Editor, direction: Direction, select: Selection): (r: (Editor, bool))
    ensures r.1 == Cancels(e, select)
    ensures r.0.lines == e.lines
    ensures !r.1 ==> r.0.editPoint == e.editPoint && (r.0.selectionOrigin.Some? <==> select == Selected)
    ensures !r.1 ==> r.0.selectionOrigin == if select == Selected then Some(OriginOrEditPoint(e)) else None
    ensures r.1 ==> r.0.selectionOrigin.None?
    ensures r.1 ==> r.0.editPoint == if direction == Backward then SelectionStart(e) else SelectionEnd(e)
  {
    if select == Selected then
      (AnchorSelection(e), false)
    else if e.selectionOrigin.Some? then
      (ClearSelectionOn(e.(editPoint := if direction == Backward then SelectionStart(e) else SelectionEnd(e))), true)
    else
      (e, false)
  }

  /** Leave the origin where it is unless the edit point passed it, in which case it joins the edit point. */
  function CollapseOrigin(e: Editor): Editor
  {
    match e.selectionOrigin
    case Some(o) =>
      if (e.selectionDirection != BackwardSelection && Le(e.editPoint, o))
         || (e.selectionDirection == BackwardSelection && Le(o, e.editPoint))
      then e.(selectionOrigin := Some(e.editPoint))
      else e
    case None => e
  }

  /** The vertical move stays inside the lines and needs the column of the edit point. */
  predicate VerticalInside(e: Editor, adjust: int)
  {
    e.multiline && 0 <= e.editPoint.line + adjust < |e.lines|
  }

  /**
   * `adjust_vertical`: move the edit point `adjust` lines, keeping its column
   * in code points where the target line is long enough; above the first line
   * it goes to the very start and below the last to the very end.
   */
  function AdjustVerticalOn(e: Editor, adjust: int, select: Selection): (r: Editor)
    requires InBounds(e.lines, e.editPoint)
    requires VerticalInside(e, adjust) ==> IsCharBoundary(e.lines[e.editPoint.line].payload, e.editPoint.index)
    ensures r == e.(editPoint := r.editPoint, selectionOrigin := r.selectionOrigin,
                    selectionDirection := r.selectionDirection)
    ensures InBounds(r.lines, r.editPoint)
    ensures VerticalInside(e, adjust) ==> r.editPoint.line == e.editPoint.line + adjust
  {
    if !e.multiline then e
    else
      var e1 := if select == Selected then AnchorSelection(e) else ClearSelectionOn(e);
      var target := e1.editPoint.line + adjust;
      if target < 0 then
        var e2 := e1.(editPoint := TextPoint(0, 0));
        if e2.selectionOrigin.Some? && e2.selectionDirection != BackwardSelection then
          e2.(selectionOrigin := Some(TextPoint(0, 0)))
        else e2
      else if target >= |e.lines| then
        var e2 := e1.(editPoint := EndPoint(e.lines));
        if e2.selectionOrigin.Some? && e2.selectionDirection == BackwardSelection then
          e2.(selectionOrigin := Some(e2.editPoint))
        else e2
      else
        var col := CharsBefore(e.lines[e.editPoint.line].payload, e.editPoint.index);
        CollapseOrigin(e1.(editPoint := TextPoint(target, LenOfFirstNChars(e.lines[target].payload, col))))
  }

  /** A move of `adjust` bytes from `p` crosses into the previous or next line. */
  predicate CrossesAt(lines: seq<Line>, p: TextPoint, adjust: nat, direction: Direction)
    requires InBounds(lines, p)
  {
    match direction
    case Backward => adjust > p.index && p.line > 0
    case Forward => adjust > LineLen(lines, p.line) - p.index && |lines| > p.line + 1
  }

  /** The edit point's move crosses into the previous or next line. */
  predicate Crosses(e: Editor, adjust: nat, direction: Direction)
    requires InBounds(e.lines, e.editPoint)
  {
    CrossesAt(e.lines, e.editPoint, adjust, direction)
  }

  /** Where the step over a line break lands: the end of the previous line or the start of the next. */
  function CrossPoint(lines: seq<Line>, p: TextPoint, direction: Direction): (q: TextPoint)
    requires InBounds(lines, p)
    requires direction == Backward ==> p.line > 0
    requires direction == Forward ==> p.line + 1 < |lines|
    ensures InBounds(lines, q)
  {
    match direction
    case Backward => TextPoint(p.line - 1, LineLen(lines, p.line - 1))
    case Forward => TextPoint(p.line + 1, 0)
  }

  predicate EditPointOnBoundary(e: Editor)
    requires InBounds(e.lines, e.editPoint)
  {
    IsCharBoundary(e.lines[e.editPoint.line].payload, e.editPoint.index)
  }

  /** `adjust_horizontal`: collapse or anchor the selection, then move by `adjust` bytes. */
  function AdjustHorizontalOn(e: Editor, adjust: nat, direction: Direction, select: Selection): Editor
    requires Shaped(e) && Bounded(e)
    decreases adjust, 1
  {
    var r := AdjustSelectionForHorizontalChange(e, direction, select);
    if r.1 then r.0 else PerformHorizontalAdjustmentOn(r.0, adjust, direction, select)
  }

  /**
   * The step of a horizontal move over a line break: the edit point goes to
   * the end of the previous line or the start of the next. The selection
   * origin is kept; a move that is not selecting clears the direction, as
   * the engine's `adjust_vertical` does (`CrossLineIsVerticalStep`).
   */
  function CrossLineOn(e: Editor, direction: Direction, select: Selection): (r: Editor)
    requires Shaped(e) && Bounded(e)
    requires direction == Backward ==> e.editPoint.line > 0
    requires direction == Forward ==> e.editPoint.line + 1 < |e.lines|
    ensures r.lines == e.lines && r.selectionOrigin == e.selectionOrigin && r.multiline == e.multiline
    ensures Shaped(r) && Bounded(r)
  {
    e.(editPoint := CrossPoint(e.lines, e.editPoint, direction),
       selectionDirection := if select == Selected then e.selectionDirection else Undirected)
  }

  /**
   * The crossing step is the engine's: `adjust_vertical` by one line, then
   * the index set to the line's end or start, the origin being the one from
   * before the vertical move.
   */
  lemma CrossLineIsVerticalStep(e: Editor, direction: Direction, select: Selection)
    requires Shaped(e) && Bounded(e) && EditPointOnBoundary(e)
    requires direction == Backward ==> e.editPoint.line > 0
    requires direction == Forward ==> e.editPoint.line + 1 < |e.lines|
    ensures var e1 := AdjustVerticalOn(e, if direction == Backward then -1 else 1, select);
      CrossLineOn(e, direction, select)
        == e1.(editPoint := TextPoint(e1.editPoint.line, if direction == Backward then LineLen(e1.lines, e1.editPoint.line) else 0),
               selectionOrigin := e.selectionOrigin)
  {
  }

  /**
   * `perform_horizontal_adjustment`: move the edit point `adjust` bytes within
   * its line; a move past the line's start or end continues on the adjacent
   * line, the line break counting as one byte. The selection origin is kept
   * while crossing (the engine lets `adjust_vertical` move it; see
   * `Findings.PerformHorizontalAdjustmentAsWritten`). The direction is
   * updated at the end.
   */
  function PerformHorizontalAdjustmentOn(e: Editor, adjust: nat, direction: Direction, select: Selection): Editor
    requires Shaped(e) && Bounded(e)
    decreases adjust, 0
  {
    var moved :=
      if Crosses(e, adjust, direction) then
        AdjustHorizontalOn(CrossLineOn(e, direction, select), adjust - CrossedBytes(e.lines, e.editPoint, direction),
                           direction, select)
      else
        e.(editPoint := StayPoint(e.lines, e.editPoint, adjust, direction));
    UpdateSelectionDirection(moved)
  }

  /** The bytes a move over a line break uses up: the rest of the line, and one for the break. */
  function CrossedBytes(lines: seq<Line>, p: TextPoint, direction: Direction): (n: nat)
    requires InBounds(lines, p)
    ensures n >= 1
  {
    match direction
    case Backward => p.index + 1
    case Forward => LineLen(lines, p.line) - p.index + 1
  }

  /** Where a move that stays on its line ends: `adjust` bytes along, clamped to the line. */
  function StayPoint(lines: seq<Line>, p: TextPoint, adjust: nat, direction: Direction): (q: TextPoint)
    requires InBounds(lines, p)
    ensures q.line == p.line && InBounds(lines, q)
  {
    match direction
    case Backward => TextPoint(p.line, SaturatingSub(p.index, adjust))
    case Forward => TextPoint(p.line, Min(LineLen(lines, p.line), p.index + adjust))
  }

  /** The byte length of the grapheme next to the edit point, approximated by a code point; 1 at a line end. */
  function ByOneAdjust(lines: seq<Line>, p: TextPoint, direction: Direction): nat
    requires OnBoundary(lines, p)
  {
    match direction
    case Forward =>
      var after := SliceFrom(lines[p.line].payload, p.index);
      if after == "" then 1 else Utf8Len(after[0])
    case Backward =>
      var before := SliceTo(lines[p.line].payload, p.index);
      if before == "" then 1 else Utf8Len(before[|before| - 1])
  }

  /** `adjust_horizontal_by_one`. */
  function AdjustHorizontalByOneOn(e: Editor, direction: Direction, select: Selection): Editor
    requires Shaped(e) && Bounded(e)
    requires !Cancels(e, select) ==> OnBoundary(e.lines, e.editPoint)
  {
    var r := AdjustSelectionForHorizontalChange(e, direction, select);
    if r.1 then r.0
    else PerformHorizontalAdjustmentOn(r.0, ByOneAdjust(r.0.lines, r.0.editPoint, direction), direction, select)
  }

  /** `adjust_horizontal_to_line_end`: move by the bytes between the edit point and its line's start or end. */
  function AdjustHorizontalToLineEndOn(e: Editor, direction: Direction, select: Selection): Editor
    requires Shaped(e) && Bounded(e)
    requires !Cancels(e, select) ==> OnBoundary(e.lines, e.editPoint)
  {
    var r := AdjustSelectionForHorizontalChange(e, direction, select);
    if r.1 then r.0
    else PerformHorizontalAdjustmentOn(r.0, LineEndShift(e.lines, e.editPoint, direction), direction, select)
  }

  /** The bytes between `p` and the start or the end of its line. */
  function LineEndShift(lines: seq<Line>, p: TextPoint, direction: Direction): (n: nat)
    requires OnBoundary(lines, p)
    ensures n == if direction == Backward then p.index else LineLen(lines, p.line) - p.index
  {
    match direction
    case Backward => ByteLen(SliceTo(lines[p.line].payload, p.index))
    case Forward => ByteLen(SliceFrom(lines[p.line].payload, p.index))
  }

  /**
   * `adjust_horizontal_to_limit`: move to the very start or very end; a
   * selecting move then updates the direction (the engine does not; see
   * `Findings.AdjustHorizontalToLimitAsWritten`).
   */
  function AdjustHorizontalToLimitOn(e: Editor, direction: Direction, select: Selection): Editor
    requires |e.lines| > 0
  {
    var r := AdjustSelectionForHorizontalChange(e, direction, select);
    if r.1 then r.0
    else
      var moved := r.0.(editPoint := if direction == Backward then TextPoint(0, 0) else EndPoint(e.lines));
      if select == Selected then UpdateSelectionDirection(moved) else moved
  }

  /** `clear_selection_to_limit`. */
  function ClearSelectionToLimitOn(e: Editor, direction: Direction): Editor
    requires |e.lines| > 0
  {
    AdjustHorizontalToLimitOn(ClearSelectionOn(e), direction, NotSelected)
  }

  /** `delete_char`: select the character next to the edit point unless text is selected, then remove the selection. */
  function DeleteCharOn(e: Editor, direction: Direction): Editor
    requires Valid(e) && OnBoundaries(e)
  {
    if e.selectionOrigin.None? || e.selectionOrigin == Some(e.editPoint) then
      var e1 := AdjustHorizontalByOneOn(e, direction, Selected);
      AdjustHorizontalByOneMoves(e, direction, Selected);
      ReplaceSelectionOn(e1, Public(""))
    else
      ReplaceSelectionOn(e, Public(""))
  }



  // ----------------------------------------------------- properties of moves

  /** The byte offset a horizontal move aims at, clamped to the start and the end of the content. */
  function HorizontalTarget(lines: seq<Line>, p: TextPoint, adjust: nat, direction: Direction): nat
    requires |lines| > 0
  {
    match direction
    case Backward => SaturatingSub(TextPointToOffset(lines, p), adjust)
    case Forward => Min(TextPointToOffset(lines, p) + adjust, LenUtf8(lines))
  }

  /**
   * A horizontal move of `adjust` bytes, line breaks counting as one byte,
   * puts the edit point at the target offset and changes nothing else but
   * the direction.
   */
  lemma {:induction false} PerformHorizontalAdjustmentMoves(e: Editor, adjust: nat, direction: Direction, select: Selection)
    requires Shaped(e) && Bounded(e)
    requires e.selectionOrigin.Some? <==> select == Selected
    ensures PerformHorizontalAdjustmentOn(e, adjust, direction, select)
         == UpdateSelectionDirection(e.(editPoint := PointAtOffset(e.lines, HorizontalTarget(e.lines, e.editPoint, adjust, direction))))
    decreases adjust, 3
  {
    if Crosses(e, adjust, direction) {
      CrossingMoves(e, adjust, direction, select);
    } else {
      StayingMoves(e, adjust, direction, select);
    }
  }

  /** A move that crosses a line break: one step to the adjacent line's near end, then the rest. */
  lemma {:induction false} CrossingMoves(e: Editor, adjust: nat, direction: Direction, select: Selection)
    requires Shaped(e) && Bounded(e) && Crosses(e, adjust, direction)
    requires e.selectionOrigin.Some? <==> select == Selected
    ensures PerformHorizontalAdjustmentOn(e, adjust, direction, select)
         == UpdateSelectionDirection(e.(editPoint := PointAtOffset(e.lines, HorizontalTarget(e.lines, e.editPoint, adjust, direction))))
    decreases adjust, 2
  {
    var e2 := CrossLineOn(e, direction, select);
    var rest := PerformHorizontalAdjustmentOn(e2, adjust - CrossedBytes(e.lines, e.editPoint, direction), direction, select);
    var x := PointAtOffset(e.lines, HorizontalTarget(e.lines, e.editPoint, adjust, direction));
    CrossingUnfold(e, adjust, direction, select);
    CrossedRestMoves(e, adjust, direction, select, e2, rest);
    RedirectAfterMove(e, e2, PerformHorizontalAdjustmentOn(e, adjust, direction, select), rest, x);
  }

  /** A crossing move is the step over the line break followed by the rest of the move; a separate step only to split the proof cost. */
  lemma CrossingUnfold(e: Editor, adjust: nat, direction: Direction, select: Selection)
    requires Shaped(e) && Bounded(e) && Crosses(e, adjust, direction)
    requires e.selectionOrigin.Some? <==> select == Selected
    ensures PerformHorizontalAdjustmentOn(e, adjust, direction, select)
         == UpdateSelectionDirection(PerformHorizontalAdjustmentOn(CrossLineOn(e, direction, select),
                                       adjust - CrossedBytes(e.lines, e.editPoint, direction), direction, select))
  {
    var e2 := CrossLineOn(e, direction, select);
    var adjust' := adjust - CrossedBytes(e.lines, e.editPoint, direction);
    assert AdjustHorizontalOn(e2, adjust', direction, select) == PerformHorizontalAdjustmentOn(e2, adjust', direction, select);
  }

  /** After the step over the line break, the rest of the move reaches the same target. */
  lemma {:induction false} CrossedRestMoves(e: Editor, adjust: nat, direction: Direction, select: Selection,
                                            e2: Editor, rest: Editor)
    requires Shaped(e) && Bounded(e) && Crosses(e, adjust, direction)
    requires e.selectionOrigin.Some? <==> select == Selected
    requires e2 == CrossLineOn(e, direction, select)
    requires rest == PerformHorizontalAdjustmentOn(e2, adjust - CrossedBytes(e.lines, e.editPoint, direction), direction, select)
    ensures rest == UpdateSelectionDirection(e2.(editPoint := PointAtOffset(e.lines, HorizontalTarget(e.lines, e.editPoint, adjust, direction))))
    decreases adjust, 1
  {
    var adjust' := adjust - CrossedBytes(e.lines, e.editPoint, direction);
    var t := HorizontalTarget(e.lines, e.editPoint, adjust, direction);
    assert HorizontalTarget(e2.lines, e2.editPoint, adjust', direction) == t by {
      CrossingTarget(e.lines, e.editPoint, adjust, direction);
    }
    RetargetedMoves(e2, e.lines, adjust', direction, select, t, rest);
  }

  /** The recursive step of `PerformHorizontalAdjustmentMoves`, with the lines, the target offset and the result named. */
  lemma {:induction false} RetargetedMoves(e: Editor, lines: seq<Line>, adjust: nat, direction: Direction, select: Selection,
                                           t: nat, r: Editor)
    requires Shaped(e) && Bounded(e) && e.lines == lines
    requires e.selectionOrigin.Some? <==> select == Selected
    requires HorizontalTarget(e.lines, e.editPoint, adjust, direction) == t
    requires r == PerformHorizontalAdjustmentOn(e, adjust, direction, select)
    ensures r == UpdateSelectionDirection(e.(editPoint := PointAtOffset(lines, t)))
    decreases adjust, 4
  {
    PerformHorizontalAdjustmentMoves(e, adjust, direction, select);
  }

  /** Updating the direction twice, or after a state that differs only in its direction, gives the same state; a separate step only to split the proof cost. */
  lemma RedirectAfterMove(e: Editor, e2: Editor, whole: Editor, rest: Editor, x: TextPoint)
    requires e2 == e.(editPoint := e2.editPoint, selectionDirection := e2.selectionDirection)
    requires rest == UpdateSelectionDirection(e2.(editPoint := x)) && whole == UpdateSelectionDirection(rest)
    ensures whole == UpdateSelectionDirection(e.(editPoint := x))
  {
    assert e2.(editPoint := x) == e.(editPoint := x, selectionDirection := e2.selectionDirection);
  }

  /** Stepping over the line break consumes one byte of the move. */
  lemma CrossingTarget(lines: seq<Line>, p: TextPoint, adjust: nat, direction: Direction)
    requires |lines| > 0 && InBounds(lines, p) && CrossesAt(lines, p, adjust, direction)
    ensures HorizontalTarget(lines, CrossPoint(lines, p, direction), adjust - CrossedBytes(lines, p, direction), direction)
         == HorizontalTarget(lines, p, adjust, direction)
  {
    OffsetOnLine(lines, p.line, p.index);
    if direction == Backward {
      OffsetNextLine(lines, p.line - 1);
    } else {
      OffsetNextLine(lines, p.line);
      OffsetOnLine(lines, p.line, LineLen(lines, p.line));
    }
  }

  /** A move that stays on its line: the index moves and is clamped to the line. */
  lemma StayingMoves(e: Editor, adjust: nat, direction: Direction, select: Selection)
    requires Shaped(e) && Bounded(e) && !Crosses(e, adjust, direction)
    ensures PerformHorizontalAdjustmentOn(e, adjust, direction, select)
         == UpdateSelectionDirection(e.(editPoint := PointAtOffset(e.lines, HorizontalTarget(e.lines, e.editPoint, adjust, direction))))
  {
    var q := StayPoint(e.lines, e.editPoint, adjust, direction);
    var whole := PerformHorizontalAdjustmentOn(e, adjust, direction, select);
    assert whole == UpdateSelectionDirection(e.(editPoint := q));
    if direction == Backward {
      StayingTargetBackward(e.lines, e.editPoint, adjust, q);
    } else {
      StayingTargetForward(e.lines, e.editPoint, adjust, q);
    }
    assert PointAtOffset(e.lines, HorizontalTarget(e.lines, e.editPoint, adjust, direction)) == q;
  }

  lemma StayingTargetBackward(lines: seq<Line>, p: TextPoint, adjust: nat, q: TextPoint)
    requires |lines| > 0 && InBounds(lines, p)
    requires !(adjust > p.index && p.line > 0) && q == TextPoint(p.line, SaturatingSub(p.index, adjust))
    ensures PointAtOffset(lines, HorizontalTarget(lines, p, adjust, Backward)) == q
  {
    OffsetOnLine(lines, p.line, p.index);
    OffsetOnLine(lines, p.line, q.index);
    assert HorizontalTarget(lines, p, adjust, Backward) == TextPointToOffset(lines, q);
    PointAtOffsetInverse(lines, q);
  }

  lemma StayingTargetForward(lines: seq<Line>, p: TextPoint, adjust: nat, q: TextPoint)
    requires |lines| > 0 && InBounds(lines, p)
    requires !(adjust > LineLen(lines, p.line) - p.index && |lines| > p.line + 1)
    requires q == TextPoint(p.line, Min(LineLen(lines, p.line), p.index + adjust))
    ensures PointAtOffset(lines, HorizontalTarget(lines, p, adjust, Forward)) == q
  {
    OffsetOnLine(lines, p.line, p.index);
    OffsetOnLine(lines, p.line, q.index);
    OffsetAtMostLength(lines, q);
    if adjust > LineLen(lines, p.line) - p.index {
      assert q == EndPoint(lines);
      OffsetOfEnd(lines);
    } else {
      OffsetAtMostLength(lines, TextPoint(p.line, p.index + adjust));
    }
    assert HorizontalTarget(lines, p, adjust, Forward) == TextPointToOffset(lines, q);
    PointAtOffsetInverse(lines, q);
  }



  /** The point one character before or after `p`; it stays at the start or the end of the content. */
  function Neighbour(lines: seq<Line>, p: TextPoint, direction: Direction): (q: TextPoint)
    requires OnBoundary(lines, p)
    ensures OnBoundary(lines, q)
  {
    match direction
    case Backward =>
      if p == TextPoint(0, 0) then p
      else
        StepBack(lines, p);
        PointBefore(lines, p)
    case Forward =>
      if BeforeEnd(lines, p) then
        StepForward(lines, p);
        PointAfter(lines, p)
      else p
  }

  /** The origin a move that is not cancelled leaves: anchored for a selecting move, none otherwise. */
  function MovedOrigin(e: Editor, select: Selection): Option<TextPoint>
  {
    if select == Selected then Some(OriginOrEditPoint(e)) else None
  }

  /** `adjust_horizontal_by_one` moves the edit point over exactly one character (a line break counts as one). */
  lemma AdjustHorizontalByOneMoves(e: Editor, direction: Direction, select: Selection)
    requires Shaped(e) && OnBoundaries(e) && !Cancels(e, select)
    ensures AdjustHorizontalByOneOn(e, direction, select)
         == UpdateSelectionDirection(e.(editPoint := Neighbour(e.lines, e.editPoint, direction),
                                        selectionOrigin := MovedOrigin(e, select)))
    ensures Valid(AdjustHorizontalByOneOn(e, direction, select))
    ensures OnBoundaries(AdjustHorizontalByOneOn(e, direction, select))
  {
    var r0 := e.(selectionOrigin := MovedOrigin(e, select));
    assert AdjustSelectionForHorizontalChange(e, direction, select).0 == r0;
    var adjust := ByOneAdjust(e.lines, e.editPoint, direction);
    assert AdjustHorizontalByOneOn(e, direction, select) == PerformHorizontalAdjustmentOn(r0, adjust, direction, select);
    PerformHorizontalAdjustmentMoves(r0, adjust, direction, select);
    if direction == Backward {
      ByOneTargetBackward(e.lines, e.editPoint);
    } else {
      ByOneTargetForward(e.lines, e.editPoint);
    }
    var q := Neighbour(e.lines, e.editPoint, direction);
    assert OnBoundaries(r0.(editPoint := q));
  }

  /** Moving back by the length of the character before the edit point reaches the point before it. */
  lemma ByOneTargetBackward(lines: seq<Line>, p: TextPoint)
    requires |lines| > 0 && OnBoundary(lines, p)
    ensures PointAtOffset(lines, HorizontalTarget(lines, p, ByOneAdjust(lines, p, Backward), Backward))
         == Neighbour(lines, p, Backward)
  {
    var q := Neighbour(lines, p, Backward);
    if p == TextPoint(0, 0) {
      assert TextPointToOffset(lines, p) == 0;
    } else {
      StepBack(lines, p);
      ByOneAdjustBackward(lines, p);
    }
    OffsetAtMostLength(lines, q);
    PointAtOffsetInverse(lines, q);
  }

  /** Away from the start, the backward step is the length of the character before the point. */
  lemma ByOneAdjustBackward(lines: seq<Line>, p: TextPoint)
    requires OnBoundary(lines, p) && p != TextPoint(0, 0)
    ensures ByOneAdjust(lines, p, Backward) == Utf8Len(CharBefore(lines, p))
  {
    var x := lines[p.line].payload;
    if p.index > 0 {
      var before := SliceTo(x, p.index);
      PrevBoundary(x, p.index);
      assert before[|before| - 1] == CharBefore(lines, p);
    } else {
      SliceEnds(x);
    }
  }

  /** Moving forward by the length of the character after the edit point reaches the point after it. */
  lemma ByOneTargetForward(lines: seq<Line>, p: TextPoint)
    requires |lines| > 0 && OnBoundary(lines, p)
    ensures PointAtOffset(lines, HorizontalTarget(lines, p, ByOneAdjust(lines, p, Forward), Forward))
         == Neighbour(lines, p, Forward)
  {
    var x := lines[p.line].payload;
    var after := SliceFrom(x, p.index);
    var q := Neighbour(lines, p, Forward);
    if BeforeEnd(lines, p) {
      StepForward(lines, p);
      if p.index < LineLen(lines, p.line) {
        assert after != "";
        assert after[0] == CharAfter(lines, p);
      } else {
        assert after == "";
      }
      assert ByOneAdjust(lines, p, Forward) == Utf8Len(CharAfter(lines, p));
      OffsetAtMostLength(lines, q);
    } else {
      assert after == "";
      assert p == EndPoint(lines);
      OffsetOfEnd(lines);
    }
    PointAtOffsetInverse(lines, q);
  }

  /** `adjust_horizontal_to_line_end` moves the edit point to the start or the end of its line. */
  lemma AdjustHorizontalToLineEndMoves(e: Editor, direction: Direction, select: Selection)
    requires Shaped(e) && OnBoundaries(e) && !Cancels(e, select)
    ensures AdjustHorizontalToLineEndOn(e, direction, select)
         == UpdateSelectionDirection(e.(editPoint := TextPoint(e.editPoint.line,
                                                               if direction == Backward then 0
                                                               else LineLen(e.lines, e.editPoint.line)),
                                        selectionOrigin := MovedOrigin(e, select)))
    ensures Valid(AdjustHorizontalToLineEndOn(e, direction, select))
    ensures OnBoundaries(AdjustHorizontalToLineEndOn(e, direction, select))
  {
    var r0 := e.(selectionOrigin := MovedOrigin(e, select));
    assert AdjustSelectionForHorizontalChange(e, direction, select).0 == r0;
    var p := e.editPoint;
    var q := TextPoint(p.line, if direction == Backward then 0 else LineLen(e.lines, p.line));
    var shift := LineEndShift(e.lines, p, direction);
    var whole := AdjustHorizontalToLineEndOn(e, direction, select);
    assert whole == PerformHorizontalAdjustmentOn(r0, shift, direction, select);
    LineEndTarget(e.lines, p, direction);
    RetargetedMoves(r0, e.lines, shift, direction, select, HorizontalTarget(e.lines, p, shift, direction), whole);
    EndIsBoundary(e.lines[p.line].payload);
    assert OnBoundaries(r0.(editPoint := q));
  }

  /** The move by `LineEndShift` aims at the start or the end of the edit point's line. */
  lemma LineEndTarget(lines: seq<Line>, p: TextPoint, direction: Direction)
    requires |lines| > 0 && OnBoundary(lines, p)
    ensures PointAtOffset(lines, HorizontalTarget(lines, p, LineEndShift(lines, p, direction), direction))
         == TextPoint(p.line, if direction == Backward then 0 else LineLen(lines, p.line))
  {
    var q := TextPoint(p.line, if direction == Backward then 0 else LineLen(lines, p.line));
    OffsetOnLine(lines, p.line, p.index);
    OffsetOnLine(lines, p.line, q.index);
    OffsetAtMostLength(lines, q);
    assert HorizontalTarget(lines, p, LineEndShift(lines, p, direction), direction) == TextPointToOffset(lines, q);
    PointAtOffsetInverse(lines, q);
  }

  /** `adjust_horizontal_to_limit` (with the direction update) keeps the state valid and reaches the limit. */
  lemma AdjustHorizontalToLimitMoves(e: Editor, direction: Direction, select: Selection)
    requires Valid(e) && OnBoundaries(e)
    ensures Valid(AdjustHorizontalToLimitOn(e, direction, select))
    ensures OnBoundaries(AdjustHorizontalToLimitOn(e, direction, select))
    ensures !Cancels(e, select) ==>
      AdjustHorizontalToLimitOn(e, direction, select).editPoint
        == (if direction == Backward then TextPoint(0, 0) else EndPoint(e.lines))
      && AdjustHorizontalToLimitOn(e, direction, select).selectionOrigin == MovedOrigin(e, select)
  {
    OffsetAtMostLength(e.lines, TextPoint(0, 0));
  }

  /** A move that is cancelled leaves the edit point at one end of the old selection and nothing selected. */
  lemma CancelledMoveCollapses(e: Editor, direction: Direction)
    requires Valid(e) && OnBoundaries(e) && e.selectionOrigin.Some?
    ensures AdjustHorizontalByOneOn(e, direction, NotSelected)
         == ClearSelectionOn(e.(editPoint := if direction == Backward then SelectionStart(e) else SelectionEnd(e)))
    ensures Valid(AdjustHorizontalByOneOn(e, direction, NotSelected))
    ensures OnBoundaries(AdjustHorizontalByOneOn(e, direction, NotSelected))
  {
  }

  /**
   * `adjust_vertical`: nothing in a single-line control; above the first line
   * the edit point goes to the very start, below the last to the very end,
   * and otherwise it keeps its column in code points as far as the target
   * line allows. The state stays valid.
   */
  lemma AdjustVerticalMoves(e: Editor, adjust: int, select: Selection)
    requires Valid(e) && OnBoundaries(e)
    ensures Valid(AdjustVerticalOn(e, adjust, select)) && OnBoundaries(AdjustVerticalOn(e, adjust, select))
    ensures !e.multiline ==> AdjustVerticalOn(e, adjust, select) == e
    ensures e.multiline && e.editPoint.line + adjust < 0 ==> AdjustVerticalOn(e, adjust, select).editPoint == TextPoint(0, 0)
    ensures e.multiline && e.editPoint.line + adjust >= |e.lines| ==>
      AdjustVerticalOn(e, adjust, select).editPoint == EndPoint(e.lines)
    ensures VerticalInside(e, adjust) ==>
      AdjustVerticalOn(e, adjust, select).editPoint.line == e.editPoint.line + adjust
      && CharsBefore(e.lines[e.editPoint.line + adjust].payload, AdjustVerticalOn(e, adjust, select).editPoint.index)
        == Min(CharsBefore(e.lines[e.editPoint.line].payload, e.editPoint.index),
               |e.lines[e.editPoint.line + adjust].payload|)
    ensures e.multiline ==> (AdjustVerticalOn(e, adjust, select).selectionOrigin.Some? <==> select == Selected)
  {
    if e.multiline {
      var e1 := if select == Selected then AnchorSelection(e) else ClearSelectionOn(e);
      assert Valid(e1) && OnBoundaries(e1);
      var target := e.editPoint.line + adjust;
      if target < 0 {
        SliceEnds(e.lines[0].payload);
      } else if target >= |e.lines| {
        if e1.selectionOrigin.Some? {
          OffsetAtMostLength(e.lines, e1.selectionOrigin.value);
        }
      } else {
        AdjustVerticalInside(e, e1, adjust);
      }
    }
  }

  /** The vertical move that stays inside the lines keeps the column and leaves a valid state. */
  lemma AdjustVerticalInside(e: Editor, e1: Editor, adjust: int)
    requires Valid(e1) && OnBoundaries(e1) && e1.lines == e.lines && e1.editPoint == e.editPoint
    requires VerticalInside(e, adjust)
    ensures var col := CharsBefore(e.lines[e.editPoint.line].payload, e.editPoint.index);
      var r := CollapseOrigin(e1.(editPoint := TextPoint(e.editPoint.line + adjust,
                                                         LenOfFirstNChars(e.lines[e.editPoint.line + adjust].payload, col))));
      Valid(r) && OnBoundaries(r) && r.selectionOrigin.Some? == e1.selectionOrigin.Some?
      && CharsBefore(e.lines[e.editPoint.line + adjust].payload, r.editPoint.index)
        == Min(col, |e.lines[e.editPoint.line + adjust].payload|)
  {
    var target := e.editPoint.line + adjust;
    var col := CharsBefore(e.lines[e.editPoint.line].payload, e.editPoint.index);
    var q := TextPoint(target, LenOfFirstNChars(e.lines[target].payload, col));
    assert OnBoundary(e.lines, q);
  }

  /**
   * `delete_char` removes the selected text; with nothing selected it removes
   * the character (or line break) just before the edit point when deleting
   * backwards and just after it when deleting forwards, and at the start or
   * the end of the content it leaves the text as it was.
   */
  lemma DeleteCharRemoves(e: Editor, direction: Direction)
    requires Valid(e) && OnBoundaries(e)
    ensures Valid(DeleteCharOn(e, direction)) && OnBoundaries(DeleteCharOn(e, direction))
    ensures e.selectionOrigin.Some? && e.selectionOrigin != Some(e.editPoint) ==>
      Text(DeleteCharOn(e, direction).lines) == TextBefore(e.lines, SelectionStart(e)) + TextAfter(e.lines, SelectionEnd(e))
    ensures (e.selectionOrigin.None? || e.selectionOrigin == Some(e.editPoint)) && direction == Backward
            && e.editPoint != TextPoint(0, 0) ==>
      var before := TextBefore(e.lines, e.editPoint);
      |before| > 0 && before[|before| - 1] == CharBefore(e.lines, e.editPoint)
      && Text(DeleteCharOn(e, direction).lines) == before[..|before| - 1] + TextAfter(e.lines, e.editPoint)
    ensures (e.selectionOrigin.None? || e.selectionOrigin == Some(e.editPoint)) && direction == Forward
            && BeforeEnd(e.lines, e.editPoint) ==>
      var after := TextAfter(e.lines, e.editPoint);
      |after| > 0 && after[0] == CharAfter(e.lines, e.editPoint)
      && Text(DeleteCharOn(e, direction).lines) == TextBefore(e.lines, e.editPoint) + after[1..]
    ensures (e.selectionOrigin.None? || e.selectionOrigin == Some(e.editPoint))
            && (if direction == Backward then e.editPoint == TextPoint(0, 0) else !BeforeEnd(e.lines, e.editPoint)) ==>
      Text(DeleteCharOn(e, direction).lines) == Text(e.lines)
  {
    var p := e.editPoint;
    if e.selectionOrigin.None? || e.selectionOrigin == Some(p) {
      var t := DeleteNeighbour(e, direction);
      if Neighbour(e.lines, p, direction) == p {
        TextAround(e.lines, p);
      } else if direction == Backward {
        DeleteBefore(e.lines, p, t);
      } else {
        DeleteAfter(e.lines, p, t);
      }
    } else {
      assert DeleteCharOn(e, direction) == ReplaceSelectionOn(e, Public(""));
      RemoveSelection(e);
    }
  }

  /** Replacing a selection by nothing removes the selected text and keeps the invariant. */
  lemma RemoveSelection(e: Editor)
    requires Valid(e) && OnBoundaries(e) && e.selectionOrigin.Some?
    ensures Valid(ReplaceSelectionOn(e, Public(""))) && OnBoundaries(ReplaceSelectionOn(e, Public("")))
    ensures Text(ReplaceSelectionOn(e, Public("")).lines)
         == TextBefore(e.lines, SelectionStart(e)) + TextAfter(e.lines, SelectionEnd(e))
  {
    ReplaceSelectionValid(e, Public(""));
    ReplaceSelectionSplices(e, Public(""));
    var before, after := TextBefore(e.lines, SelectionStart(e)), TextAfter(e.lines, SelectionEnd(e));
    assert Inserted(e, "") == "";
    assert before + "" == before;
  }

  /** With nothing selected, `delete_char` removes the text between the edit point and its neighbour. */
  lemma DeleteNeighbour(e: Editor, direction: Direction) returns (t: string)
    requires Valid(e) && OnBoundaries(e)
    requires e.selectionOrigin.None? || e.selectionOrigin == Some(e.editPoint)
    ensures Valid(DeleteCharOn(e, direction)) && OnBoundaries(DeleteCharOn(e, direction))
    ensures t == Text(DeleteCharOn(e, direction).lines)
    ensures t == if direction == Backward
                 then TextBefore(e.lines, Neighbour(e.lines, e.editPoint, direction)) + TextAfter(e.lines, e.editPoint)
                 else TextBefore(e.lines, e.editPoint) + TextAfter(e.lines, Neighbour(e.lines, e.editPoint, direction))
  {
    var p := e.editPoint;
    AdjustHorizontalByOneMoves(e, direction, Selected);
    var e1 := AdjustHorizontalByOneOn(e, direction, Selected);
    var q := Neighbour(e.lines, p, direction);
    assert e1.lines == e.lines && e1.editPoint == q && e1.selectionOrigin == Some(p);
    assert DeleteCharOn(e, direction) == ReplaceSelectionOn(e1, Public(""));
    RemoveSelection(e1);
    t := Text(DeleteCharOn(e, direction).lines);
    NeighbourBounds(e1, p, direction);
  }

  /** A selection from `p` to its neighbour starts at the earlier of the two and ends at the later. */
  lemma NeighbourBounds(e: Editor, p: TextPoint, direction: Direction)
    requires Ordered(e) && OnBoundary(e.lines, p)
    requires e.selectionOrigin == Some(p) && e.editPoint == Neighbour(e.lines, p, direction)
    ensures SelectionStart(e) == if direction == Backward then e.editPoint else p
    ensures SelectionEnd(e) == if direction == Backward then p else e.editPoint
  {
    SelectionBoundsOrdered(e);
    if e.editPoint != p {
      if direction == Backward {
        StepBack(e.lines, p);
      } else {
        StepForward(e.lines, p);
      }
    }
  }

  /** Removing the text between the point before `p` and `p` drops the last character before `p`. */
  lemma DeleteBefore(lines: seq<Line>, p: TextPoint, t: string)
    requires OnBoundary(lines, p) && p != TextPoint(0, 0)
    requires t == TextBefore(lines, Neighbour(lines, p, Backward)) + TextAfter(lines, p)
    ensures var before := TextBefore(lines, p);
      |before| > 0 && before[|before| - 1] == CharBefore(lines, p)
      && t == before[..|before| - 1] + TextAfter(lines, p)
  {
    StepBack(lines, p);
    var before := TextBefore(lines, p);
    assert before[..|before| - 1] == TextBefore(lines, PointBefore(lines, p));
  }

  /** Removing the text between `p` and the point after it drops the first character after `p`. */
  lemma DeleteAfter(lines: seq<Line>, p: TextPoint, t: string)
    requires OnBoundary(lines, p) && BeforeEnd(lines, p)
    requires t == TextBefore(lines, p) + TextAfter(lines, Neighbour(lines, p, Forward))
    ensures var after := TextAfter(lines, p);
      |after| > 0 && after[0] == CharAfter(lines, p)
      && t == TextBefore(lines, p) + after[1..]
  {
    StepForward(lines, p);
    var after := TextAfter(lines, p);
    assert after[1..] == TextAfter(lines, PointAfter(lines, p));
  }
}
