/**
 * The state of the text-input engine (`TextInput` in
 * components/script/textinput.rs) as a value, with its invariant, the
 * selection queries and the operations on content and selection. Editing
 * (splicing.dfy) and caret movement (movement.dfy) are defined on the same
 * value; the class in textinput.dfy performs the steps in place and is
 * proved to reach these states.
 */
module EditorState {
  import opened Wrappers
  import opened Unicode
  import opened Labels
  import opened LineText
  import opened TextPoints

  /** Whether a movement extends the selection (the Shift key). */
  datatype Selection = Selected | NotSelected

  /** `SelectionDirection`; its variant `None` is called `Undirected` here. */
  datatype SelectionDirection = ForwardSelection | BackwardSelection | Undirected

  /** The direction of a movement or of a deletion. */
  datatype Direction = Forward | Backward

  /** What the owner of the control is asked to do after a key press. */
  datatype KeyReaction = TriggerDefaultAction | DispatchInput | RedrawSelection | Nothing

  /** `usize::MAX` on a 64-bit target: the insertion allowance when there is no maxlength. */
  const UsizeMax: nat := 0xFFFF_FFFF_FFFF_FFFF

  datatype Editor = Editor(
    lines: seq<Line>,
    editPoint: TextPoint,
    selectionOrigin: Option<TextPoint>,
    selectionDirection: SelectionDirection,
    multiline: bool,
    maxLength: Option<nat>,
    minLength: Option<nat>,
    wasLastChangeBySetContent: bool)

  /** There is always a line, and a single-line control has exactly one. */
  predicate Shaped(e: Editor)
  {
    |e.lines| > 0 && (!e.multiline ==> |e.lines| == 1)
  }

  /** The edit point and the selection origin are positions of the content. */
  predicate Bounded(e: Editor)
  {
    InBounds(e.lines, e.editPoint)
    && (e.selectionOrigin.Some? ==> InBounds(e.lines, e.selectionOrigin.value))
  }

  /** The direction agrees with the order of origin and edit point. */
  predicate Ordered(e: Editor)
  {
    e.selectionOrigin.Some? ==>
      if e.selectionDirection == BackwardSelection then Le(e.editPoint, e.selectionOrigin.value)
      else Le(e.selectionOrigin.value, e.editPoint)
  }

  /** What `assert_ok_selection` checks, together with the non-empty line vector. */
  predicate Valid(e: Editor)
  {
    Shaped(e) && Bounded(e) && Ordered(e)
  }

  /** Both points fall on character boundaries, so the engine can slice there. */
  predicate OnBoundaries(e: Editor)
  {
    OnBoundary(e.lines, e.editPoint)
    && (e.selectionOrigin.Some? ==> OnBoundary(e.lines, e.selectionOrigin.value))
  }

  function OriginOrEditPoint(e: Editor): TextPoint
  {
    if e.selectionOrigin.Some? then e.selectionOrigin.value else e.editPoint
  }

  /** `selection_start`: the edit point for a backward selection, otherwise the origin. */
  function SelectionStart(e: Editor): (p: TextPoint)
    ensures p == e.editPoint || e.selectionOrigin == Some(p)
  {
    if e.selectionDirection == BackwardSelection then e.editPoint else OriginOrEditPoint(e)
  }

  /** `selection_end`: the origin for a backward selection, otherwise the edit point. */
  function SelectionEnd(e: Editor): (p: TextPoint)
    ensures p == e.editPoint || e.selectionOrigin == Some(p)
  {
    if e.selectionDirection == BackwardSelection then OriginOrEditPoint(e) else e.editPoint
  }

  /** The selection bounds are ordered whatever the direction, and span origin and edit point. */
  lemma SelectionBoundsOrdered(e: Editor)
    requires Ordered(e)
    ensures Le(SelectionStart(e), SelectionEnd(e))
    ensures {SelectionStart(e), SelectionEnd(e)} == {e.editPoint, OriginOrEditPoint(e)}
  {
  }

  /** `clear_selection`. */
  function ClearSelectionOn(e: Editor): (r: Editor)
    ensures r.selectionOrigin.None? && r.selectionDirection == Undirected
    ensures r.lines == e.lines && r.editPoint == e.editPoint
  {
    e.(selectionOrigin := None, selectionDirection := Undirected)
  }

  /** `update_selection_direction`: backward exactly when the edit point is before the origin. */
  function UpdateSelectionDirection(e: Editor): (r: Editor)
    ensures r == e.(selectionDirection := r.selectionDirection)
    ensures r.selectionDirection == BackwardSelection
        <==> e.selectionOrigin.Some? && Lt(e.editPoint, e.selectionOrigin.value)
    ensures Bounded(e) ==> Ordered(r)
  {
    e.(selectionDirection :=
         if e.selectionOrigin.Some? && Lt(e.editPoint, e.selectionOrigin.value) then BackwardSelection
         else ForwardSelection)
  }

  // ---------------------------------------------------------------- content

  /**
   * `constrain_to`, as `set_content` needs it: a point on an existing line
   * keeps its line and is clamped to the line's length; a point past the last
   * line goes to the end of the content (the engine instead keeps its index
   * on the last line; see `Findings.ConstrainToAsWritten`).
   */
  function ConstrainTo(p: TextPoint, lines: seq<Line>): (q: TextPoint)
    requires |lines| > 0
    ensures InBounds(lines, q)
    ensures InBounds(lines, p) ==> q == p
    ensures q.line == Min(p.line, |lines| - 1)
  {
    if p.line < |lines| then TextPoint(p.line, Min(p.index, LineLen(lines, p.line)))
    else EndPoint(lines)
  }

  /** Constraining keeps the order of points, so it keeps a selection's direction right. */
  lemma ConstrainToMonotone(p: TextPoint, q: TextPoint, lines: seq<Line>)
    requires |lines| > 0 && Le(p, q)
    ensures Le(ConstrainTo(p, lines), ConstrainTo(q, lines))
  {
    if p.line < |lines| <= q.line {
      OffsetAtMostLength(lines, ConstrainTo(p, lines));
    }
  }

  /**
   * The lines `set_content` stores: in a multiline control "\r\n" becomes
   * "\n" and the text is split at every '\n' and '\r'; a single-line control
   * stores the content as its one line. Every line carries the content's labels.
   */
  function ContentLines(content: Secure<string>, multiline: bool): (r: seq<Line>)
    ensures |r| > 0 && (!multiline ==> |r| == 1)
    ensures forall i :: 0 <= i < |r| ==>
      r[i].secrecy == content.secrecy && r[i].integrity == content.integrity
  {
    if multiline then
      var pieces := Split(ReplaceCrLf(content.payload), {'\n', '\r'});
      seq(|pieces|, i requires 0 <= i < |pieces| => Secure(pieces[i], content.secrecy, content.integrity))
    else [content]
  }

  /** Reading back stored content gives the content with its line breaks normalised. */
  lemma SetThenGetContent(content: Secure<string>, multiline: bool)
    ensures Text(ContentLines(content, multiline))
         == if multiline then NormalizeNewlines(content.payload) else content.payload
  {
    if multiline {
      var pieces := Split(ReplaceCrLf(content.payload), {'\n', '\r'});
      assert Payloads(ContentLines(content, multiline)) == pieces;
      JoinSplit(ReplaceCrLf(content.payload), {'\n', '\r'});
      CrLfThenSplitNormalizes(content.payload);
    } else {
      assert Payloads([content]) == [content.payload];
    }
  }

  /** `set_content`: store the content, then constrain the edit point and the origin to it. */
  function SetContentOn(e: Editor, content: Secure<string>): Editor
  {
    var ls := ContentLines(content, e.multiline);
    e.(lines := ls,
       wasLastChangeBySetContent := true,
       editPoint := ConstrainTo(e.editPoint, ls),
       selectionOrigin := if e.selectionOrigin.Some? then Some(ConstrainTo(e.selectionOrigin.value, ls)) else None)
  }

  /** `set_content` leaves the points in bounds and keeps a correctly ordered selection ordered. */
  lemma SetContentValid(e: Editor, content: Secure<string>)
    ensures Shaped(SetContentOn(e, content)) && Bounded(SetContentOn(e, content))
    ensures Ordered(e) ==> Valid(SetContentOn(e, content))
    ensures SetContentOn(e, content).wasLastChangeBySetContent
  {
    var ls := ContentLines(content, e.multiline);
    if e.selectionOrigin.Some? {
      var o := e.selectionOrigin.value;
      if e.selectionDirection == BackwardSelection {
        if Le(e.editPoint, o) { ConstrainToMonotone(e.editPoint, o, ls); }
      } else {
        if Le(o, e.editPoint) { ConstrainToMonotone(o, e.editPoint, ls); }
      }
    }
  }

  /** `is_empty`: at most one line, and no text on it. */
  function IsEmpty(lines: seq<Line>): (r: bool)
    ensures r <==> Text(lines) == ""
  {
    if |lines| >= 2 then
      assert lines == [lines[0]] + lines[1..];
      JoinCons(lines[0].payload, Payloads(lines)[1..]);
      assert Payloads(lines) == [lines[0].payload] + Payloads(lines)[1..];
      false
    else
      |lines| == 0 || lines[0].payload == ""
  }

  // -------------------------------------------------------------- selection

  /** The selected text: from the selection start to the selection end. */
  function SelectionTextOf(e: Editor): string
    requires Ordered(e) && OnBoundaries(e)
  {
    if e.selectionOrigin.None? then ""
    else
      SelectionBoundsOrdered(e);
      SelectedText(e.lines, SelectionStart(e), SelectionEnd(e))
  }

  /** The content is the text before the selection, the selection and the text after it. */
  lemma SelectionSplitsText(e: Editor)
    requires Ordered(e) && OnBoundaries(e) && e.selectionOrigin.Some?
    ensures Text(e.lines)
         == TextBefore(e.lines, SelectionStart(e)) + SelectionTextOf(e) + TextAfter(e.lines, SelectionEnd(e))
  {
    SelectionBoundsOrdered(e);
    SelectionAround(e.lines, SelectionStart(e), SelectionEnd(e));
  }

  /**
   * The secrecy the engine gives the selected text: the start line's, and the
   * end line's when the selection spans lines. The lines in between are folded
   * under the start line's label, so their own secrecy is not included.
   */
  function SelectionSecrecy(e: Editor): set<Tag>
    requires Bounded(e)
  {
    if e.selectionOrigin.None? then {}
    else
      var s := SelectionStart(e);
      var t := SelectionEnd(e);
      if s.line == t.line then e.lines[s.line].secrecy
      else e.lines[s.line].secrecy + e.lines[t.line].secrecy
  }

  /** `select_all`: origin at the very start, edit point at the very end, forward. */
  function SelectAllOn(e: Editor): Editor
    requires |e.lines| > 0
  {
    e.(selectionOrigin := Some(TextPoint(0, 0)),
       editPoint := EndPoint(e.lines),
       selectionDirection := ForwardSelection)
  }

  /** After `select_all` the state is valid and the whole content is selected. */
  lemma SelectAllSelectsEverything(e: Editor)
    requires Shaped(e)
    ensures Valid(SelectAllOn(e)) && OnBoundaries(SelectAllOn(e))
    ensures SelectionTextOf(SelectAllOn(e)) == Text(e.lines)
  {
    var r := SelectAllOn(e);
    TextBeforeStartAfterEnd(e.lines);
    OffsetAtMostLength(e.lines, TextPoint(0, 0));
    SelectionSplitsText(r);
  }

  /**
   * `set_selection_range`: clamp both byte offsets to the content length and
   * the start to the end, then place origin and edit point by direction.
   */
  function SetSelectionRangeOn(e: Editor, start: nat, end: nat, direction: SelectionDirection): Editor
    requires |e.lines| > 0
  {
    var textEnd := LenUtf8(e.lines);
    var end' := Min(end, textEnd);
    var start' := Min(start, end');
    var e1 := e.(selectionDirection := direction);
    if direction == BackwardSelection then
      e1.(selectionOrigin := Some(PointAtOffset(e.lines, end')), editPoint := PointAtOffset(e.lines, start'))
    else
      e1.(selectionOrigin := Some(PointAtOffset(e.lines, start')), editPoint := PointAtOffset(e.lines, end'))
  }

  /** The new selection is valid and spans exactly the clamped offsets. */
  lemma SetSelectionRangeSpans(e: Editor, start: nat, end: nat, direction: SelectionDirection)
    requires Shaped(e)
    ensures Valid(SetSelectionRangeOn(e, start, end, direction))
    ensures TextPointToOffset(e.lines, SelectionStart(SetSelectionRangeOn(e, start, end, direction)))
         == Min(start, Min(end, LenUtf8(e.lines)))
    ensures TextPointToOffset(e.lines, SelectionEnd(SetSelectionRangeOn(e, start, end, direction)))
         == Min(end, LenUtf8(e.lines))
    ensures SetSelectionRangeOn(e, start, end, direction).selectionDirection == direction
  {
    var end' := Min(end, LenUtf8(e.lines));
    var start' := Min(start, end');
    var p := PointAtOffset(e.lines, start');
    var q := PointAtOffset(e.lines, end');
    OffsetOrder(e.lines, p, q);
  }

  /** Place the selection origin at the edit point when there is none, as the insertions do. */
  function AnchorSelection(e: Editor): (r: Editor)
    ensures r == e.(selectionOrigin := r.selectionOrigin)
    ensures r.selectionOrigin == Some(OriginOrEditPoint(e))
  {
    if e.selectionOrigin.None? then e.(selectionOrigin := Some(e.editPoint)) else e
  }

  /** `selection_utf16_len`: the UTF-16 length of the selected text. */
  function SelectionUtf16Len(e: Editor): nat
    requires Ordered(e) && OnBoundaries(e)
  {
    CodeUnits(SelectionTextOf(e))
  }
}
