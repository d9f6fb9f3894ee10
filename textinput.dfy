/**
 * The text-input engine itself (`TextInput` in components/script/textinput.rs):
 * an object whose methods change its lines, edit point and selection in
 * place. Every method is proved to reach the state that the value-level
 * definition of the same operation (editor_state.dfy, splicing.dfy,
 * movement.dfy) gives for the state before it, and the loops over the lines
 * are proved to compute the measures and conversions defined in textpoints.dfy.
 */
module TextInputEngine {
  import opened Wrappers
  import opened Unicode
  import opened Labels
  import opened LineText
  import opened TextPoints
  import opened EditorState
  import opened Splicing
  import opened Movement

  /** The slices of a fold, concatenated. */
  function Flatten(slices: seq<Line>): string
  {
    if |slices| == 0 then "" else Flatten(slices[..|slices| - 1]) + slices[|slices| - 1].payload
  }

  /** The union of the slices' secrecy labels. */
  function SecrecyOf(slices: seq<Line>): set<Tag>
  {
    if |slices| == 0 then {} else SecrecyOf(slices[..|slices| - 1]) + slices[|slices| - 1].secrecy
  }

  lemma FlattenSnoc(slices: seq<Line>, x: Line)
    ensures Flatten(slices + [x]) == Flatten(slices) + x.payload
    ensures SecrecyOf(slices + [x]) == SecrecyOf(slices) + x.secrecy
  {
    assert (slices + [x])[..|slices|] == slices;
  }

  /** One slice more of a fold's prefix. */
  lemma FlattenPrefixStep(slices: seq<Line>, k: nat)
    requires k < |slices|
    ensures Flatten(slices[..k + 1]) == Flatten(slices[..k]) + slices[k].payload
    ensures SecrecyOf(slices[..k + 1]) == SecrecyOf(slices[..k]) + slices[k].secrecy
    ensures CodeUnits(Flatten(slices[..k + 1])) == CodeUnits(Flatten(slices[..k])) + CodeUnits(slices[k].payload)
  {
    assert slices[..k + 1] == slices[..k] + [slices[k]];
    FlattenSnoc(slices[..k], slices[k]);
    CodeUnitsConcat(Flatten(slices[..k]), slices[k].payload);
  }

  /** A "\n" slice and then `x` added to a fold. */
  lemma PushSeparated(slices: seq<Line>, x: Line)
    ensures Flatten(slices + [Public("\n")] + [x]) == Flatten(slices) + "\n" + x.payload
    ensures SecrecyOf(slices + [Public("\n")] + [x]) == SecrecyOf(slices) + x.secrecy
  {
    FlattenSnoc(slices, Public("\n"));
    FlattenSnoc(slices + [Public("\n")], x);
  }

  /**
   * The callback of `get_selection_text` over all slices: each pushed onto an
   * empty public string, whose secrecy grows by union and integrity shrinks
   * by intersection.
   */
  method PushSlices(slices: seq<Line>) returns (acc: Secure<string>)
    ensures acc == Secure(Flatten(slices), SecrecyOf(slices), {})
  {
    acc := Public("");
    for k := 0 to |slices|
      invariant acc == Secure(Flatten(slices[..k]), SecrecyOf(slices[..k]), {})
    {
      FlattenPrefixStep(slices, k);
      acc := Secure(acc.payload + slices[k].payload, acc.secrecy + slices[k].secrecy,
                    acc.integrity * slices[k].integrity);
    }
    assert slices[..|slices|] == slices;
  }

  /** The callback of `selection_utf16_len` over all slices: their UTF-16 code units, summed. */
  method SumCodeUnits(slices: seq<Line>) returns (n: nat)
    ensures n == CodeUnits(Flatten(slices))
  {
    n := 0;
    for k := 0 to |slices|
      invariant n == CodeUnits(Flatten(slices[..k]))
    {
      FlattenPrefixStep(slices, k);
      n := n + CodeUnits(slices[k].payload);
    }
    assert slices[..|slices|] == slices;
  }

  class TextInput {
    var lines: seq<Line>
    var editPoint: TextPoint
    var selectionOrigin: Option<TextPoint>
    var selectionDirection: SelectionDirection
    var multiline: bool
    var maxLength: Option<nat>
    var minLength: Option<nat>
    var wasLastChangeBySetContent: bool

    /** The fields as an `Editor` value. */
    function State(): Editor
      reads this
    {
      Editor(lines, editPoint, selectionOrigin, selectionDirection, multiline, maxLength, minLength,
             wasLastChangeBySetContent)
    }

    /**
     * `new`: no lines, the edit point at the start, no selection, then the
     * initial value stored with `set_content` under empty labels.
     */
    constructor (multiline: bool, initial: string, maxLength: Option<nat>, minLength: Option<nat>,
                 direction: SelectionDirection)
      ensures State() == SetContentOn(Editor([], TextPoint(0, 0), None, direction, multiline, maxLength, minLength, true),
                                      Public(initial))
      ensures EditorState.Valid(State()) && OnBoundaries(State())
      ensures editPoint == TextPoint(0, 0) && selectionOrigin.None?
    {
      this.lines := [];
      this.editPoint := TextPoint(0, 0);
      this.selectionOrigin := None;
      this.multiline := multiline;
      this.maxLength := maxLength;
      this.minLength := minLength;
      this.selectionDirection := direction;
      this.wasLastChangeBySetContent := true;
      new;
      SetContent(Public(initial));
      SliceEnds(lines[0].payload);
    }

    // ------------------------------------------------------------- content

    /** `set_content`. */
    method SetContent(content: Secure<string>)
      modifies this
      ensures State() == SetContentOn(old(State()), content)
      ensures Shaped(State()) && Bounded(State())
      ensures Ordered(old(State())) ==> EditorState.Valid(State())
    {
      SetContentValid(State(), content);
      lines := ContentLines(content, multiline);
      wasLastChangeBySetContent := true;
      editPoint := ConstrainTo(editPoint, lines);
      if selectionOrigin.Some? {
        selectionOrigin := Some(ConstrainTo(selectionOrigin.value, lines));
      }
    }

    /**
     * `get_content`: the lines joined with '\n', labelled with the first
     * line's labels (the other lines' labels are not joined in).
     */
    method GetContent() returns (r: Secure<string>)
      ensures r.payload == Text(lines)
      ensures |lines| > 0 ==> r.secrecy == lines[0].secrecy && r.integrity == lines[0].integrity
      ensures |lines| == 0 ==> r == Public("")
    {
      if |lines| == 0 {
        return Public("");
      }
      var ps := Payloads(lines);
      var content := "";
      for i := 0 to |lines|
        invariant content == Join(ps[..i]) + (if 0 < i < |lines| then "\n" else "")
      {
        JoinSnoc(ps[..i], ps[i]);
        assert ps[..i + 1] == ps[..i] + [ps[i]];
        content := content + lines[i].payload;
        if i < |lines| - 1 {
          content := content + "\n";
        }
      }
      assert ps[..|lines|] == ps;
      r := Secure(content, lines[0].secrecy, lines[0].integrity);
    }

    // ------------------------------------------------------------ measures

    /** `len_utf8`: the content's length in bytes. */
    method LenUtf8() returns (n: nat)
      ensures n == TextPoints.LenUtf8(lines)
    {
      var ps := Payloads(lines);
      var m := 0;
      for i := 0 to |lines|
        invariant m == LinesBytes(ps[..i])
      {
        LinesBytesStep(ps, i);
        m := m + ByteLen(lines[i].payload) + 1;
      }
      assert ps[..|lines|] == ps;
      n := SaturatingSub(m, 1);
    }

    /** `utf16_len`: the content's length in UTF-16 code units. */
    method Utf16Len() returns (n: nat)
      ensures n == TextPoints.Utf16Len(lines)
    {
      var ps := Payloads(lines);
      var m := 0;
      for i := 0 to |lines|
        invariant m == LinesUnits(ps[..i])
      {
        assert ps[..i + 1] == ps[..i] + [ps[i]];
        LinesUnitsConcat(ps[..i], [ps[i]]);
        assert [ps[i]][1..] == [];
        m := m + (CodeUnits(lines[i].payload) + 1);
      }
      assert ps[..|lines|] == ps;
      n := SaturatingSub(m, 1);
    }

    /** `char_count`: the content's length in code points; it subtracts the last separator without saturating. */
    method CharCount() returns (n: nat)
      requires |lines| > 0
      ensures n == TextPoints.CharCount(lines)
    {
      var ps := Payloads(lines);
      var m := 0;
      for i := 0 to |lines|
        invariant m == LinesChars(ps[..i])
      {
        assert ps[..i + 1] == ps[..i] + [ps[i]];
        LinesCharsConcat(ps[..i], [ps[i]]);
        assert [ps[i]][1..] == [];
        m := m + |lines[i].payload| + 1;
      }
      assert ps[..|lines|] == ps;
      n := m - 1;
    }

    // --------------------------------------------------------- conversions

    /** `text_point_to_offset`: (byte length + 1) summed over the lines before the point, plus its index. */
    method TextPointToOffset(p: TextPoint) returns (r: nat)
      ensures r == TextPoints.TextPointToOffset(lines, p)
    {
      var ps := Payloads(lines);
      var acc := 0;
      for i := 0 to |lines|
        invariant acc == LinesBytes(ps[..Min(i, p.line)])
      {
        if i < p.line {
          LinesBytesStep(ps, i);
          acc := acc + ByteLen(lines[i].payload) + 1;
        }
      }
      r := acc + p.index;
    }

    /**
     * `offset_to_text_point`: walk the lines but the last, stepping to the
     * next line while the offset lies beyond the current line's end.
     */
    method OffsetToTextPoint(abs: nat) returns (p: TextPoint)
      requires |lines| > 0
      ensures p == PointAtOffset(lines, abs)
    {
      var ps := Payloads(lines);
      var index: nat := abs;
      var line := 0;
      var last := |lines| - 1;
      var acc := 0;
      for i := 0 to |lines|
        invariant line <= Min(i, last)
        invariant acc == LinesBytes(ps[..Min(i, last)])
        invariant LinesBytes(ps[..line]) + index == abs
        invariant line < Min(i, last) ==> index <= LineLen(lines, line) && abs < acc
      {
        if i != last {
          var lineEnd := ByteLen(lines[i].payload);
          var newAcc := acc + lineEnd + 1;
          LinesBytesStep(ps, i);
          if abs >= newAcc && index > lineEnd {
            index := SaturatingSub(index, lineEnd + 1);
            line := line + 1;
          }
          acc := newAcc;
        }
      }
      p := TextPoint(line, index);
      PointAtOffsetUnique(lines, p);
    }

    // ----------------------------------------------------------- selection

    /**
     * `fold_selection_slices`, returning the slices it passes to its callback:
     * on one line, the selected part of it; otherwise the rest of the start
     * line, then a public "\n" and each whole line in between (labelled with
     * the start line's labels), then a public "\n" and the start of the end line.
     */
    method SelectionSlices() returns (slices: seq<Line>)
      requires Ordered(State()) && OnBoundaries(State())
      ensures Flatten(slices) == SelectionTextOf(State())
      ensures SecrecyOf(slices) == SelectionSecrecy(State())
    {
      slices := [];
      if selectionOrigin.None? {
        return;
      }
      SelectionBoundsOrdered(State());
      var s := SelectionStart(State());
      var t := SelectionEnd(State());
      if s.line == t.line {
        slices := LineSlice(s, t);
      } else {
        slices := SpanningSlices(s, t);
      }
    }

    /** The one slice of a selection from `s` to `t` on the same line. */
    method LineSlice(s: TextPoint, t: TextPoint) returns (slices: seq<Line>)
      requires OnBoundary(lines, s) && OnBoundary(lines, t) && s.line == t.line && s.index <= t.index
      ensures Flatten(slices) == SelectedText(lines, s, t)
      ensures SecrecyOf(slices) == lines[s.line].secrecy
    {
      var x := lines[s.line].payload;
      CharsBeforeMono(x, s.index, t.index);
      slices := [Secure(x[CharsBefore(x, s.index)..CharsBefore(x, t.index)], lines[s.line].secrecy,
                        lines[s.line].integrity)];
      FlattenSnoc([], slices[0]);
      assert [] + slices == slices;
    }

    /** The slices of a selection from `s` to `t` on a later line. */
    method SpanningSlices(s: TextPoint, t: TextPoint) returns (slices: seq<Line>)
      requires OnBoundary(lines, s) && OnBoundary(lines, t) && s.line < t.line
      ensures Flatten(slices) == SelectedText(lines, s, t)
      ensures SecrecyOf(slices) == lines[s.line].secrecy + lines[t.line].secrecy
    {
      var first := lines[s.line];
      var head := SliceFrom(first.payload, s.index);
      slices := [Secure(head, first.secrecy, first.integrity)];
      ghost var ps := Payloads(lines);
      ghost var joined := [head];
      assert Flatten(slices) == head by { FlattenSnoc([], slices[0]); assert [] + slices == slices; }
      for l := s.line + 1 to t.line
        invariant joined == [head] + ps[s.line + 1..l]
        invariant Flatten(slices) == Join(joined)
        invariant SecrecyOf(slices) == first.secrecy
      {
        PushSeparated(slices, Secure(lines[l].payload, first.secrecy, first.integrity));
        slices := slices + [Public("\n")] + [Secure(lines[l].payload, first.secrecy, first.integrity)];
        JoinSnoc(joined, ps[l]);
        joined := joined + [ps[l]];
      }
      var last := lines[t.line];
      var tail := SliceTo(last.payload, t.index);
      PushSeparated(slices, Secure(tail, last.secrecy, last.integrity));
      slices := slices + [Public("\n")] + [Secure(tail, last.secrecy, last.integrity)];
      JoinSnoc(joined, tail);
    }

    /**
     * `get_selection_text`: the slices pushed onto an empty public string,
     * its secrecy the union and its integrity the intersection of theirs;
     * `None` when the result is empty.
     */
    method GetSelectionText() returns (r: Option<Secure<string>>)
      requires Ordered(State()) && OnBoundaries(State())
      ensures r.None? <==> SelectionTextOf(State()) == ""
      ensures r.Some? ==> r.value == Secure(SelectionTextOf(State()), SelectionSecrecy(State()), {})
    {
      var slices := SelectionSlices();
      var acc := PushSlices(slices);
      if acc.payload == "" {
        r := None;
      } else {
        r := Some(acc);
      }
    }

    /** `selection_utf16_len`: the UTF-16 code units of the slices, summed. */
    method SelectionUtf16Len() returns (n: nat)
      requires Ordered(State()) && OnBoundaries(State())
      ensures n == CodeUnits(SelectionTextOf(State()))
    {
      var slices := SelectionSlices();
      n := SumCodeUnits(slices);
    }

    /** `clear_selection`. */
    method ClearSelection()
      modifies this
      ensures State() == ClearSelectionOn(old(State()))
    {
      selectionOrigin := None;
      selectionDirection := Undirected;
    }

    /** `update_selection_direction`. */
    method UpdateSelectionDirection()
      modifies this
      ensures State() == EditorState.UpdateSelectionDirection(old(State()))
    {
      selectionDirection :=
        if selectionOrigin.Some? && Lt(editPoint, selectionOrigin.value) then BackwardSelection
        else ForwardSelection;
    }

    /** `select_all`. */
    method SelectAll()
      requires Shaped(State())
      modifies this
      ensures State() == SelectAllOn(old(State()))
      ensures EditorState.Valid(State()) && OnBoundaries(State())
      ensures SelectionTextOf(State()) == Text(lines)
    {
      SelectAllSelectsEverything(State());
      selectionOrigin := Some(TextPoint(0, 0));
      var lastLine := |lines| - 1;
      editPoint := TextPoint(lastLine, ByteLen(lines[lastLine].payload));
      selectionDirection := ForwardSelection;
    }

    /** `set_selection_range`: byte offsets into the content, clamped, placed by direction. */
    method SetSelectionRange(start: nat, end: nat, direction: SelectionDirection)
      requires |lines| > 0
      modifies this
      ensures State() == SetSelectionRangeOn(old(State()), start, end, direction)
    {
      var start, end := start, end;
      var content := GetContent();
      var textEnd := ByteLen(content.payload);
      if end > textEnd {
        end := textEnd;
      }
      if start > end {
        start := end;
      }
      selectionDirection := direction;
      match direction {
        case Undirected =>
          var o := OffsetToTextPoint(start);
          var q := OffsetToTextPoint(end);
          selectionOrigin := Some(o);
          editPoint := q;
        case ForwardSelection =>
          var o := OffsetToTextPoint(start);
          var q := OffsetToTextPoint(end);
          selectionOrigin := Some(o);
          editPoint := q;
        case BackwardSelection =>
          var o := OffsetToTextPoint(end);
          var q := OffsetToTextPoint(start);
          selectionOrigin := Some(o);
          editPoint := q;
      }
    }

    // ------------------------------------------------------------- editing

    /**
     * `replace_selection`: cut the inserted text to the maxlength allowance,
     * split it into lines, and splice them in place of the selected text;
     * the edit point goes to the end of the inserted text and the selection
     * is cleared.
     */
    method ReplaceSelection(insert: Secure<string>)
      requires Ordered(State()) && OnBoundaries(State())
      modifies this
      ensures State() == ReplaceSelectionOn(old(State()), insert)
      ensures EditorState.Valid(old(State())) ==> EditorState.Valid(State()) && OnBoundaries(State())
    {
      if EditorState.Valid(State()) {
        ReplaceSelectionValid(State(), insert);
      }
      if selectionOrigin.Some? {
        ReplaceSelected(insert);
      }
    }

    /** `replace_selection` once a selection is known to be there. */
    method ReplaceSelected(insert: Secure<string>)
      requires Ordered(State()) && OnBoundaries(State()) && selectionOrigin.Some?
      modifies this
      ensures State() == ReplaceSelectionOn(old(State()), insert)
    {
      var toInsert := InsertedPart(insert.payload);
      SelectionBoundsOrdered(State());
      var s, t := SelectionStart(State()), SelectionEnd(State());
      var newLines, newEditPoint := BuildNewLines(s, t, toInsert, insert);
      editPoint, lines, wasLastChangeBySetContent := newEditPoint, newLines, false;
      selectionOrigin, selectionDirection := None, Undirected;
    }

    /** The part of `insert` that `replace_selection` inserts: as many characters as the allowance takes. */
    method InsertedPart(insert: string) returns (toInsert: string)
      requires Ordered(State()) && OnBoundaries(State())
      ensures toInsert == Inserted(State(), insert)
    {
      var allowed := AllowedToInsertCount();
      var lastCharIndex := LenOfFirstNCodeUnits(insert, allowed);
      toInsert := SliceTo(insert, lastCharIndex);
    }

    /** How many UTF-16 code units `replace_selection` may insert: what maxlength leaves once the selection is gone. */
    method AllowedToInsertCount() returns (allowed: nat)
      requires Ordered(State()) && OnBoundaries(State())
      ensures allowed == AllowedToInsert(State())
    {
      if maxLength.Some? {
        var total := Utf16Len();
        var selected := SelectionUtf16Len();
        allowed := SaturatingSub(maxLength.value, SaturatingSub(total, selected));
      } else {
        allowed := UsizeMax;
      }
    }

    /**
     * The block of `replace_selection` that builds the new lines: the
     * inserted text split at '\n' (in a multiline control), its first line
     * prefixed by the text before `s` and its last followed by the text
     * after `t`, between the lines before `s` and after `t`.
     */
    method BuildNewLines(s: TextPoint, t: TextPoint, toInsert: string, insert: Secure<string>)
      returns (newLines: seq<Line>, newEditPoint: TextPoint)
      requires OnBoundary(lines, s) && OnBoundary(lines, t) && Le(s, t)
      ensures newLines == SplicedContent(lines, s, t, Fragments(toInsert, multiline), insert)
      ensures newEditPoint == SplicedPoint(lines, s, t, Fragments(toInsert, multiline), insert)
    {
      var frags := Fragments(toInsert, multiline);
      var insertLines := PopPushAll(FragmentLines(frags, insert));
      var pre, suf := SliceTo(lines[s.line].payload, s.index), SliceFrom(lines[t.line].payload, t.index);
      insertLines := insertLines[0 := FirstLine(lines[s.line], pre, insertLines[0])];
      var k := |insertLines| - 1;
      newEditPoint := TextPoint(s.line + k, ByteLen(insertLines[k].payload));
      insertLines := insertLines[k := LastLine(insertLines[k], suf, lines[t.line])];
      assert insertLines == SpliceLines(lines[s.line], pre, frags, insert, suf, lines[t.line]).lines;
      newLines := lines[..s.line] + insertLines + lines[t.line + 1..];
    }

    /** `insert_secret_string`: anchor the selection at the edit point when there is none, then replace it. */
    method InsertSecretString(s: Secure<string>)
      requires Ordered(State()) && OnBoundaries(State())
      modifies this
      ensures State() == InsertSecretStringOn(old(State()), s)
      ensures EditorState.Valid(old(State())) ==> EditorState.Valid(State()) && OnBoundaries(State())
    {
      if selectionOrigin.None? {
        selectionOrigin := Some(editPoint);
      }
      ReplaceSelection(s);
    }

    /** `insert_string`: public text. */
    method InsertString(s: string)
      requires Ordered(State()) && OnBoundaries(State())
      modifies this
      ensures State() == InsertStringOn(old(State()), s)
      ensures EditorState.Valid(old(State())) ==> EditorState.Valid(State()) && OnBoundaries(State())
    {
      InsertSecretString(Public(s));
    }

    /** `insert_char`. */
    method InsertChar(c: char)
      requires Ordered(State()) && OnBoundaries(State())
      modifies this
      ensures State() == InsertCharOn(old(State()), c)
      ensures EditorState.Valid(old(State())) ==> EditorState.Valid(State()) && OnBoundaries(State())
    {
      InsertString([c]);
    }

    /** `handle_return`. */
    method HandleReturn() returns (reaction: KeyReaction)
      requires Ordered(State()) && OnBoundaries(State())
      modifies this
      ensures (State(), reaction) == HandleReturnOn(old(State()))
    {
      if !multiline {
        return TriggerDefaultAction;
      }
      InsertChar('\n');
      return DispatchInput;
    }

    /** `delete_char`: select the neighbouring character unless text is selected, then remove the selection. */
    method DeleteChar(direction: Direction)
      requires EditorState.Valid(State()) && OnBoundaries(State())
      modifies this
      ensures State() == DeleteCharOn(old(State()), direction)
      ensures EditorState.Valid(State()) && OnBoundaries(State())
    {
      if selectionOrigin.None? || selectionOrigin == Some(editPoint) {
        AdjustHorizontalByOneMoves(State(), direction, Selected);
        AdjustHorizontalByOne(direction, Selected);
      }
      ReplaceSelection(Public(""));
    }

    // ------------------------------------------------------------ movement

    /** `adjust_vertical`. */
    method AdjustVertical(adjust: int, select: Selection)
      requires InBounds(lines, editPoint)
      requires VerticalInside(State(), adjust) ==> IsCharBoundary(lines[editPoint.line].payload, editPoint.index)
      modifies this
      ensures State() == AdjustVerticalOn(old(State()), adjust, select)
    {
      if !multiline {
        return;
      }
      if select == Selected {
        if selectionOrigin.None? {
          selectionOrigin := Some(editPoint);
        }
      } else {
        ClearSelection();
      }
      var target := editPoint.line + adjust;
      if target < 0 {
        editPoint := TextPoint(0, 0);
        if selectionOrigin.Some? && selectionDirection != BackwardSelection {
          selectionOrigin := Some(TextPoint(0, 0));
        }
        return;
      } else if target >= |lines| {
        var lastLine := |lines| - 1;
        editPoint := TextPoint(lastLine, ByteLen(lines[lastLine].payload));
        if selectionOrigin.Some? && selectionDirection == BackwardSelection {
          selectionOrigin := Some(editPoint);
        }
        return;
      }
      var col := CharsBefore(lines[editPoint.line].payload, editPoint.index);
      editPoint := TextPoint(target, LenOfFirstNChars(lines[target].payload, col));
      if selectionOrigin.Some? {
        var origin := selectionOrigin.value;
        if (selectionDirection != BackwardSelection && Le(editPoint, origin))
           || (selectionDirection == BackwardSelection && Le(origin, editPoint)) {
          selectionOrigin := Some(editPoint);
        }
      }
    }

    /** `adjust_selection_for_horizontal_change`; the result says whether the move is cancelled. */
    method AdjustSelectionForHorizontalChange(direction: Direction, select: Selection) returns (cancel: bool)
      modifies this
      ensures (State(), cancel) == Movement.AdjustSelectionForHorizontalChange(old(State()), direction, select)
    {
      if select == Selected {
        if selectionOrigin.None? {
          selectionOrigin := Some(editPoint);
        }
      } else if selectionOrigin.Some? {
        editPoint := if direction == Backward then SelectionStart(State()) else SelectionEnd(State());
        ClearSelection();
        return true;
      }
      return false;
    }

    /** `adjust_horizontal`. */
    method AdjustHorizontal(adjust: nat, direction: Direction, select: Selection)
      requires Shaped(State()) && Bounded(State())
      requires !Cancels(State(), select) && Crosses(State(), adjust, direction) ==> EditPointOnBoundary(State())
      modifies this
      ensures State() == AdjustHorizontalOn(old(State()), adjust, direction, select)
      decreases adjust, 1
    {
      var cancel := AdjustSelectionForHorizontalChange(direction, select);
      if cancel {
        return;
      }
      PerformHorizontalAdjustment(adjust, direction, select);
    }

    /**
     * `perform_horizontal_adjustment`: move the edit point `adjust` bytes,
     * continuing on the adjacent line when the move passes the line's start
     * or end, then update the direction.
     */
    method PerformHorizontalAdjustment(adjust: nat, direction: Direction, select: Selection)
      requires Shaped(State()) && Bounded(State())
      requires Crosses(State(), adjust, direction) ==> EditPointOnBoundary(State())
      modifies this
      ensures State() == PerformHorizontalAdjustmentOn(old(State()), adjust, direction, select)
      decreases adjust, 0
    {
      match direction {
        case Backward =>
          var remaining := editPoint.index;
          if adjust > remaining && editPoint.line > 0 {
            CrossLine(direction, select);
            AdjustHorizontal(SaturatingSub(adjust, remaining + 1), direction, select);
          } else {
            editPoint := TextPoint(editPoint.line, SaturatingSub(remaining, adjust));
          }
        case Forward =>
          var remaining := SaturatingSub(ByteLen(lines[editPoint.line].payload), editPoint.index);
          if adjust > remaining && |lines| > editPoint.line + 1 {
            CrossLine(direction, select);
            AdjustHorizontal(SaturatingSub(adjust, remaining + 1), direction, select);
          } else {
            editPoint := TextPoint(editPoint.line, Min(ByteLen(lines[editPoint.line].payload), editPoint.index + adjust));
          }
      }
      UpdateSelectionDirection();
    }

    /**
     * The step of `perform_horizontal_adjustment` over a line break:
     * `adjust_vertical` by one line, then the index set to the line's end
     * or start. The selection origin is put back after the vertical move,
     * which may otherwise move it (see `Findings.PerformHorizontalAdjustmentAsWritten`).
     */
    method CrossLine(direction: Direction, select: Selection)
      requires Shaped(State()) && Bounded(State()) && EditPointOnBoundary(State())
      requires direction == Backward ==> editPoint.line > 0
      requires direction == Forward ==> editPoint.line + 1 < |lines|
      modifies this
      ensures State() == CrossLineOn(old(State()), direction, select)
      ensures EditPointOnBoundary(State())
    {
      CrossLineIsVerticalStep(State(), direction, select);
      var origin := selectionOrigin;
      AdjustVertical(if direction == Backward then -1 else 1, select);
      selectionOrigin := origin;
      if direction == Backward {
        editPoint := TextPoint(editPoint.line, ByteLen(lines[editPoint.line].payload));
        EndIsBoundary(lines[editPoint.line].payload);
      } else {
        editPoint := TextPoint(editPoint.line, 0);
      }
    }

    /** `adjust_horizontal_by_one`: move over the code point next to the edit point, or over a line break. */
    method AdjustHorizontalByOne(direction: Direction, select: Selection)
      requires Shaped(State()) && Bounded(State())
      requires !Cancels(State(), select) ==> OnBoundary(lines, editPoint)
      modifies this
      ensures State() == AdjustHorizontalByOneOn(old(State()), direction, select)
    {
      var cancel := AdjustSelectionForHorizontalChange(direction, select);
      if cancel {
        return;
      }
      var current := lines[editPoint.line].payload;
      var adjust: nat;
      match direction {
        case Forward =>
          var after := SliceFrom(current, editPoint.index);
          adjust := if after == "" then 1 else Utf8Len(after[0]);
        case Backward =>
          var before := SliceTo(current, editPoint.index);
          adjust := if before == "" then 1 else Utf8Len(before[|before| - 1]);
      }
      PerformHorizontalAdjustment(adjust, direction, select);
    }

    /** `adjust_horizontal_to_line_end`. */
    method AdjustHorizontalToLineEnd(direction: Direction, select: Selection)
      requires Shaped(State()) && Bounded(State())
      requires !Cancels(State(), select) ==> OnBoundary(lines, editPoint)
      modifies this
      ensures State() == AdjustHorizontalToLineEndOn(old(State()), direction, select)
    {
      var cancel := AdjustSelectionForHorizontalChange(direction, select);
      if cancel {
        return;
      }
      var current := lines[editPoint.line].payload;
      var shift := match direction
        case Backward => ByteLen(SliceTo(current, editPoint.index))
        case Forward => ByteLen(SliceFrom(current, editPoint.index));
      PerformHorizontalAdjustment(shift, direction, select);
    }

    /**
     * `adjust_horizontal_to_limit`, with the direction updated after a
     * selecting move (see `Findings.AdjustHorizontalToLimitAsWritten`).
     */
    method AdjustHorizontalToLimit(direction: Direction, select: Selection)
      requires |lines| > 0
      modifies this
      ensures State() == AdjustHorizontalToLimitOn(old(State()), direction, select)
    {
      var cancel := AdjustSelectionForHorizontalChange(direction, select);
      if cancel {
        return;
      }
      match direction {
        case Backward =>
          editPoint := TextPoint(0, 0);
        case Forward =>
          var lastLine := |lines| - 1;
          editPoint := TextPoint(lastLine, ByteLen(lines[lastLine].payload));
      }
      if select == Selected {
        UpdateSelectionDirection();
      }
    }

    /** `clear_selection_to_limit`. */
    method ClearSelectionToLimit(direction: Direction)
      requires |lines| > 0
      modifies this
      ensures State() == ClearSelectionToLimitOn(old(State()), direction)
    {
      ClearSelection();
      AdjustHorizontalToLimit(direction, NotSelected);
    }
  }

  /**
   * The loop in `replace_selection` that pops the split lines off the back of
   * one vector and inserts each at the front of another: the lines come out
   * in their original order.
   */
  method PopPushAll(initial: seq<Line>) returns (returned: seq<Line>)
    ensures returned == initial
  {
    var rest := initial;
    returned := [];
    for i := 0 to |initial|
      invariant |rest| + i == |initial|
      invariant rest + returned == initial
    {
      returned := [rest[|rest| - 1]] + returned;
      rest := rest[..|rest| - 1];
    }
    assert rest == [];
  }
}
