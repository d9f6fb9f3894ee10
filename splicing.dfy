/**
 * `replace_selection` and the insertions and deletion built on it
 * (components/script/textinput.rs): the maxlength allowance, the splitting
 * of the inserted text into lines, the splice of those lines into the
 * content, and how the labels of the lines involved are combined.
 */
module Splicing {
  import opened Wrappers
  import opened Unicode
  import opened Labels
  import opened LineText
  import opened TextPoints
  import opened EditorState

  /**
   * How many UTF-16 code units may be inserted: what maxlength leaves once
   * the selection is gone, or `usize::MAX` without a maxlength.
   */
  function AllowedToInsert(e: Editor): nat
    requires Ordered(e) && OnBoundaries(e)
  {
    match e.maxLength
    case Some(m) => SaturatingSub(m, SaturatingSub(TextPoints.Utf16Len(e.lines), SelectionUtf16Len(e)))
    case None => UsizeMax
  }

  /**
   * The part of `insert` that goes in: its longest prefix of whole
   * characters whose UTF-16 length is within the allowance.
   */
  function Inserted(e: Editor, insert: string): (r: string)
    requires Ordered(e) && OnBoundaries(e)
    ensures r <= insert && CodeUnits(r) <= AllowedToInsert(e)
    ensures |r| < |insert| ==> CodeUnits(insert[..|r| + 1]) > AllowedToInsert(e)
  {
    insert[..FitCount(insert, AllowedToInsert(e))]
  }

  /** The inserted text's pieces: split at '\n' in a multiline control, whole otherwise. */
  function Fragments(s: string, multiline: bool): (r: seq<string>)
    ensures |r| > 0 && (!multiline ==> |r| == 1)
    ensures Join(r) == s
  {
    if multiline then
      JoinSplitNewline(s);
      Split(s, {'\n'})
    else [s]
  }

  /** One line per fragment, each with the inserted text's labels. */
  function FragmentLines(frags: seq<string>, insert: Secure<string>): (r: seq<Line>)
    ensures Payloads(r) == frags
    ensures forall i :: 0 <= i < |r| ==> r[i].secrecy == insert.secrecy && r[i].integrity == insert.integrity
  {
    var r := seq(|frags|, i requires 0 <= i < |frags| => Secure(frags[i], insert.secrecy, insert.integrity));
    assert Payloads(r) == frags;
    r
  }

  /** The line that replaces the first fragment: the start line's prefix, then the fragment. */
  function FirstLine(startLine: Line, prefix: string, frag: Line): Line
  {
    Secure(prefix + frag.payload, startLine.secrecy + frag.secrecy, startLine.integrity * frag.integrity)
  }

  /** The last fragment, followed by the end line's suffix. */
  function LastLine(frag: Line, suffix: string, endLine: Line): Line
  {
    Secure(frag.payload + suffix, frag.secrecy + endLine.secrecy, frag.integrity * endLine.integrity)
  }

  /** The texts of the lines that replace the selected ones. */
  function Glued(pre: string, frags: seq<string>, suf: string): seq<string>
    requires |frags| > 0
  {
    if |frags| == 1 then [pre + frags[0] + suf]
    else [pre + frags[0]] + frags[1..|frags| - 1] + [frags[|frags| - 1] + suf]
  }

  /** The text of the last replacing line up to where the inserted text ends. */
  function LastFragment(pre: string, frags: seq<string>): string
    requires |frags| > 0
  {
    if |frags| == 1 then pre + frags[0] else frags[|frags| - 1]
  }

  /** The replacing lines and the byte index, in the last of them, where the inserted text ends. */
  datatype Splice = Splice(lines: seq<Line>, editIndex: nat)

  /**
   * The lines that replace the selected ones: the fragment lines, the first
   * prefixed by the start line's text before the selection and joined with
   * its labels, then the edit index taken at the end of the last fragment,
   * then the last followed by the end line's text after the selection and
   * joined with that line's labels.
   */
  function SpliceLines(startLine: Line, pre: string, frags: seq<string>, insert: Secure<string>,
                       suf: string, endLine: Line): (r: Splice)
    requires |frags| > 0
    ensures |r.lines| == |frags| && Payloads(r.lines) == Glued(pre, frags, suf)
    ensures r.editIndex == ByteLen(LastFragment(pre, frags))
    ensures |frags| > 1 ==>
      r.lines[0].secrecy == startLine.secrecy + insert.secrecy
      && r.lines[0].integrity == startLine.integrity * insert.integrity
      && r.lines[|frags| - 1].secrecy == insert.secrecy + endLine.secrecy
      && r.lines[|frags| - 1].integrity == insert.integrity * endLine.integrity
    ensures |frags| == 1 ==>
      r.lines[0].secrecy == startLine.secrecy + insert.secrecy + endLine.secrecy
      && r.lines[0].integrity == startLine.integrity * insert.integrity * endLine.integrity
    ensures forall i :: 0 < i < |frags| - 1 ==>
      r.lines[i].secrecy == insert.secrecy && r.lines[i].integrity == insert.integrity
  {
    var k := |frags| - 1;
    var ins0 := FragmentLines(frags, insert);
    var ins1 := ins0[0 := FirstLine(startLine, pre, ins0[0])];
    var editIndex := ByteLen(ins1[k].payload);
    var ins2 := ins1[k := LastLine(ins1[k], suf, endLine)];
    assert Payloads(ins2) == Glued(pre, frags, suf) by {
      assert forall i :: 0 <= i < |frags| ==> Payloads(ins2)[i] == Glued(pre, frags, suf)[i];
    }
    Splice(ins2, editIndex)
  }

  /** Up to the end of the last fragment, the replacing lines read as the prefix followed by the fragments. */
  lemma GluedText(a: seq<string>, pre: string, frags: seq<string>, suf: string)
    requires |frags| > 0
    ensures |Glued(pre, frags, suf)| == |frags|
    ensures Glued(pre, frags, suf)[|frags| - 1] == LastFragment(pre, frags) + suf
    ensures Join(a + Glued(pre, frags, suf)[..|frags| - 1] + [LastFragment(pre, frags)])
         == Join(a + [pre]) + Join(frags)
  {
    var k := |frags| - 1;
    var g := Glued(pre, frags, suf);
    if k == 0 {
      assert a + g[..k] + [pre + frags[0]] == a + [pre + frags[0]] + [];
      JoinAround(a, pre, frags[0], []);
      assert [frags[0]] + [] == frags;
    } else {
      assert a + g[..k] + [frags[k]] == a + [pre + frags[0]] + frags[1..];
      JoinAround(a, pre, frags[0], frags[1..]);
      assert [frags[0]] + frags[1..] == frags;
    }
  }

  /** The spliced texts, read around the end of the inserted text. */
  lemma GluedAround(qs: seq<string>, a: seq<string>, pre: string, frags: seq<string>, suf: string, b: seq<string>)
    requires |frags| > 0 && qs == a + Glued(pre, frags, suf) + b
    ensures |qs| == |a| + |frags| + |b|
    ensures qs[|a| + |frags| - 1] == LastFragment(pre, frags) + suf
    ensures Join(qs[..|a| + |frags| - 1] + [LastFragment(pre, frags)]) == Join(a + [pre]) + Join(frags)
    ensures qs[|a| + |frags|..] == b
  {
    var g := Glued(pre, frags, suf);
    var k := |frags| - 1;
    GluedText(a, pre, frags, suf);
    assert |g| == |frags|;
    assert qs[..|a| + k] == a + g[..k];
    assert qs[|a| + k] == g[k];
    assert qs[|a| + |frags|..] == b;
  }

  /** The lines of a content with the lines from `s.line` to `t.line` replaced by `middle`. */
  function Spliced(lines: seq<Line>, s: TextPoint, t: TextPoint, middle: seq<Line>): seq<Line>
    requires s.line <= t.line < |lines|
  {
    lines[..s.line] + middle + lines[t.line + 1..]
  }

  lemma SplicedPayloads(lines: seq<Line>, s: TextPoint, t: TextPoint, middle: seq<Line>)
    requires s.line <= t.line < |lines|
    ensures Payloads(Spliced(lines, s, t, middle))
         == Payloads(lines)[..s.line] + Payloads(middle) + Payloads(lines)[t.line + 1..]
  {
    PayloadsConcat(lines[..s.line] + middle, lines[t.line + 1..]);
    PayloadsConcat(lines[..s.line], middle);
    PayloadsSlice(lines, 0, s.line);
    PayloadsSlice(lines, t.line + 1, |lines|);
  }

  /** The new lines: the lines from `s.line` to `t.line` replaced by the spliced ones. */
  function SplicedContent(lines: seq<Line>, s: TextPoint, t: TextPoint, frags: seq<string>, insert: Secure<string>): seq<Line>
    requires OnBoundary(lines, s) && OnBoundary(lines, t) && Le(s, t) && |frags| > 0
  {
    Spliced(lines, s, t, SpliceLines(lines[s.line], SliceTo(lines[s.line].payload, s.index), frags, insert,
                                     SliceFrom(lines[t.line].payload, t.index), lines[t.line]).lines)
  }

  /** The new edit point: on the last spliced line, where the inserted text ends. */
  function SplicedPoint(lines: seq<Line>, s: TextPoint, t: TextPoint, frags: seq<string>, insert: Secure<string>): TextPoint
    requires OnBoundary(lines, s) && OnBoundary(lines, t) && Le(s, t) && |frags| > 0
  {
    TextPoint(s.line + |frags| - 1,
              SpliceLines(lines[s.line], SliceTo(lines[s.line].payload, s.index), frags, insert,
                          SliceFrom(lines[t.line].payload, t.index), lines[t.line]).editIndex)
  }

  /**
   * The splice on lines: after it, the text before the new edit point is the
   * text before `s` followed by the fragments, and the text after it is the
   * text after `t`.
   */
  lemma SpliceTexts(lines: seq<Line>, s: TextPoint, t: TextPoint, frags: seq<string>, insert: Secure<string>)
    requires OnBoundary(lines, s) && OnBoundary(lines, t) && Le(s, t) && |frags| > 0
    ensures OnBoundary(SplicedContent(lines, s, t, frags, insert), SplicedPoint(lines, s, t, frags, insert))
    ensures TextBefore(SplicedContent(lines, s, t, frags, insert), SplicedPoint(lines, s, t, frags, insert))
         == TextBefore(lines, s) + Join(frags)
    ensures TextAfter(SplicedContent(lines, s, t, frags, insert), SplicedPoint(lines, s, t, frags, insert))
         == TextAfter(lines, t)
  {
    var pre := SliceTo(lines[s.line].payload, s.index);
    var suf := SliceFrom(lines[t.line].payload, t.index);
    var sp := SpliceLines(lines[s.line], pre, frags, insert, suf, lines[t.line]);
    SplicedPayloads(lines, s, t, sp.lines);
    SpliceRead(lines, s, t, SplicedContent(lines, s, t, frags, insert), SplicedPoint(lines, s, t, frags, insert),
               pre, frags, suf);
  }

  /** `SpliceTexts` for any content whose lines read as the glued texts between the kept ones. */
  lemma SpliceRead(lines: seq<Line>, s: TextPoint, t: TextPoint, nl: seq<Line>, q: TextPoint,
                   pre: string, frags: seq<string>, suf: string)
    requires OnBoundary(lines, s) && OnBoundary(lines, t) && Le(s, t) && |frags| > 0
    requires pre == SliceTo(lines[s.line].payload, s.index) && suf == SliceFrom(lines[t.line].payload, t.index)
    requires Payloads(nl) == Payloads(lines)[..s.line] + Glued(pre, frags, suf) + Payloads(lines)[t.line + 1..]
    requires q == TextPoint(s.line + |frags| - 1, ByteLen(LastFragment(pre, frags)))
    ensures OnBoundary(nl, q)
    ensures TextBefore(nl, q) == TextBefore(lines, s) + Join(frags)
    ensures TextAfter(nl, q) == TextAfter(lines, t)
  {
    TextBeforeAt(lines, s, pre);
    TextAfterAt(lines, t, suf);
    var ps := Payloads(lines);
    SpliceReadGlued(Payloads(nl), nl, q, ps[..s.line], pre, frags, suf, ps[t.line + 1..]);
  }

  lemma TextBeforeAt(lines: seq<Line>, s: TextPoint, pre: string)
    requires OnBoundary(lines, s) && pre == SliceTo(lines[s.line].payload, s.index)
    ensures TextBefore(lines, s) == Join(Payloads(lines)[..s.line] + [pre])
  {
  }

  lemma TextAfterAt(lines: seq<Line>, t: TextPoint, suf: string)
    requires OnBoundary(lines, t) && suf == SliceFrom(lines[t.line].payload, t.index)
    ensures TextAfter(lines, t) == Join([suf] + Payloads(lines)[t.line + 1..])
  {
  }

  lemma SpliceReadGlued(qs: seq<string>, nl: seq<Line>, q: TextPoint, a: seq<string>, pre: string,
                        frags: seq<string>, suf: string, b: seq<string>)
    requires |frags| > 0 && qs == Payloads(nl) && qs == a + Glued(pre, frags, suf) + b
    requires q == TextPoint(|a| + |frags| - 1, ByteLen(LastFragment(pre, frags)))
    ensures OnBoundary(nl, q)
    ensures TextBefore(nl, q) == Join(a + [pre]) + Join(frags)
    ensures TextAfter(nl, q) == Join([suf] + b)
  {
    GluedAround(qs, a, pre, frags, suf, b);
    assert qs[..q.line] + [LastFragment(pre, frags)] == qs[..|a| + |frags| - 1] + [LastFragment(pre, frags)];
    SpliceReadAt(nl, q, a, pre, frags, suf, b);
  }

  lemma SpliceReadAt(nl: seq<Line>, q: TextPoint, a: seq<string>, pre: string, frags: seq<string>, suf: string,
                     b: seq<string>)
    requires |frags| > 0 && q.line == |a| + |frags| - 1 && q.line < |nl| && q.index == ByteLen(LastFragment(pre, frags))
    requires Payloads(nl)[q.line] == LastFragment(pre, frags) + suf
    requires Join(Payloads(nl)[..q.line] + [LastFragment(pre, frags)]) == Join(a + [pre]) + Join(frags)
    requires Payloads(nl)[q.line + 1..] == b
    ensures OnBoundary(nl, q)
    ensures TextBefore(nl, q) == Join(a + [pre]) + Join(frags)
    ensures TextAfter(nl, q) == Join([suf] + b)
  {
    ReadAtJoint(nl, q, LastFragment(pre, frags), suf);
  }

  /** Reading a content around a point that sits between `x` and `suf` on its line. */
  lemma ReadAtJoint(nl: seq<Line>, q: TextPoint, x: string, suf: string)
    requires q.line < |nl| && Payloads(nl)[q.line] == x + suf && q.index == ByteLen(x)
    ensures OnBoundary(nl, q)
    ensures TextBefore(nl, q) == Join(Payloads(nl)[..q.line] + [x])
    ensures TextAfter(nl, q) == Join([suf] + Payloads(nl)[q.line + 1..])
  {
    SliceAtJoint(x, suf);
    ByteLenConcat(x, suf);
  }

  /**
   * `replace_selection`: without a selection nothing happens. Otherwise the
   * inserted text is cut to the maxlength allowance, split into fragments and
   * spliced in place of the selected lines; the edit point goes to the end of
   * the inserted text, the selection is cleared and the change is marked as
   * not coming from `set_content`.
   */
  function ReplaceSelectionOn(e: Editor, insert: Secure<string>): Editor
    requires Ordered(e) && OnBoundaries(e)
  {
    if e.selectionOrigin.None? then e
    else
      var s := SelectionStart(e);
      var t := SelectionEnd(e);
      var frags := Fragments(Inserted(e, insert.payload), e.multiline);
      SelectionBoundsOrdered(e);
      e.(lines := SplicedContent(e.lines, s, t, frags, insert),
         editPoint := SplicedPoint(e.lines, s, t, frags, insert),
         wasLastChangeBySetContent := false,
         selectionOrigin := None,
         selectionDirection := Undirected)
  }

  /**
   * After `replace_selection` the text before the edit point is the text
   * before the old selection followed by the inserted text, and the text
   * after it is the text after the old selection.
   */
  lemma ReplaceSelectionSplices(e: Editor, insert: Secure<string>)
    requires Ordered(e) && OnBoundaries(e) && e.selectionOrigin.Some?
    ensures OnBoundary(ReplaceSelectionOn(e, insert).lines, ReplaceSelectionOn(e, insert).editPoint)
    ensures TextBefore(ReplaceSelectionOn(e, insert).lines, ReplaceSelectionOn(e, insert).editPoint)
         == TextBefore(e.lines, SelectionStart(e)) + Inserted(e, insert.payload)
    ensures TextAfter(ReplaceSelectionOn(e, insert).lines, ReplaceSelectionOn(e, insert).editPoint)
         == TextAfter(e.lines, SelectionEnd(e))
    ensures Text(ReplaceSelectionOn(e, insert).lines)
         == TextBefore(e.lines, SelectionStart(e)) + Inserted(e, insert.payload) + TextAfter(e.lines, SelectionEnd(e))
  {
    SelectionBoundsOrdered(e);
    var r := ReplaceSelectionOn(e, insert);
    SpliceTexts(e.lines, SelectionStart(e), SelectionEnd(e), Fragments(Inserted(e, insert.payload), e.multiline), insert);
    TextAround(r.lines, r.editPoint);
  }

  /**
   * Labels only join: every rebuilt line carries at least the secrecy and at
   * most the integrity of the inserted text, the first also of the start line
   * and the last also of the end line; the lines around are kept as they were.
   */
  lemma ReplaceSelectionLabels(e: Editor, insert: Secure<string>)
    requires Ordered(e) && OnBoundaries(e) && e.selectionOrigin.Some?
    ensures SelectionStart(e).line <= ReplaceSelectionOn(e, insert).editPoint.line < |ReplaceSelectionOn(e, insert).lines|
    ensures ReplaceSelectionOn(e, insert).lines[..SelectionStart(e).line] == e.lines[..SelectionStart(e).line]
    ensures ReplaceSelectionOn(e, insert).lines[ReplaceSelectionOn(e, insert).editPoint.line + 1..]
         == e.lines[SelectionEnd(e).line + 1..]
    ensures forall i :: SelectionStart(e).line <= i <= ReplaceSelectionOn(e, insert).editPoint.line ==>
      insert.secrecy <= ReplaceSelectionOn(e, insert).lines[i].secrecy
      && ReplaceSelectionOn(e, insert).lines[i].integrity <= insert.integrity
    ensures e.lines[SelectionStart(e).line].secrecy <= ReplaceSelectionOn(e, insert).lines[SelectionStart(e).line].secrecy
    ensures ReplaceSelectionOn(e, insert).lines[SelectionStart(e).line].integrity <= e.lines[SelectionStart(e).line].integrity
    ensures e.lines[SelectionEnd(e).line].secrecy
         <= ReplaceSelectionOn(e, insert).lines[ReplaceSelectionOn(e, insert).editPoint.line].secrecy
    ensures ReplaceSelectionOn(e, insert).lines[ReplaceSelectionOn(e, insert).editPoint.line].integrity
         <= e.lines[SelectionEnd(e).line].integrity
  {
    SelectionBoundsOrdered(e);
    var s := SelectionStart(e);
    var t := SelectionEnd(e);
    var frags := Fragments(Inserted(e, insert.payload), e.multiline);
    var sp := SpliceLines(e.lines[s.line], SliceTo(e.lines[s.line].payload, s.index), frags, insert,
                          SliceFrom(e.lines[t.line].payload, t.index), e.lines[t.line]);
    var r := ReplaceSelectionOn(e, insert);
    assert r.lines == Spliced(e.lines, s, t, sp.lines) && r.editPoint.line == s.line + |frags| - 1;
    SplicedLines(e.lines, s, t, sp.lines);
    SpliceLinesLabels(e.lines[s.line], SliceTo(e.lines[s.line].payload, s.index), frags, insert,
                      SliceFrom(e.lines[t.line].payload, t.index), e.lines[t.line]);
    forall i | s.line <= i <= r.editPoint.line
      ensures insert.secrecy <= r.lines[i].secrecy && r.lines[i].integrity <= insert.integrity
    {
      assert r.lines[i] == sp.lines[i - s.line];
    }
    assert r.lines[s.line] == sp.lines[0];
    assert r.lines[r.editPoint.line] == sp.lines[|frags| - 1];
  }

  /** The spliced lines: the lines before and after are kept, and `middle` sits in between. */
  lemma SplicedLines(lines: seq<Line>, s: TextPoint, t: TextPoint, middle: seq<Line>)
    requires s.line <= t.line < |lines|
    ensures |Spliced(lines, s, t, middle)| == s.line + |middle| + (|lines| - t.line - 1)
    ensures Spliced(lines, s, t, middle)[..s.line] == lines[..s.line]
    ensures Spliced(lines, s, t, middle)[s.line + |middle|..] == lines[t.line + 1..]
    ensures forall i :: 0 <= i < |middle| ==> Spliced(lines, s, t, middle)[s.line + i] == middle[i]
  {
    var r := Spliced(lines, s, t, middle);
    assert r[..s.line] == lines[..s.line];
    assert r[s.line + |middle|..] == lines[t.line + 1..];
  }

  /** Every spliced line joins the inserted labels; the first joins the start line's, the last the end line's. */
  lemma SpliceLinesLabels(startLine: Line, pre: string, frags: seq<string>, insert: Secure<string>,
                          suf: string, endLine: Line)
    requires |frags| > 0
    ensures forall i :: 0 <= i < |frags| ==>
      insert.secrecy <= SpliceLines(startLine, pre, frags, insert, suf, endLine).lines[i].secrecy
      && SpliceLines(startLine, pre, frags, insert, suf, endLine).lines[i].integrity <= insert.integrity
    ensures startLine.secrecy <= SpliceLines(startLine, pre, frags, insert, suf, endLine).lines[0].secrecy
    ensures SpliceLines(startLine, pre, frags, insert, suf, endLine).lines[0].integrity <= startLine.integrity
    ensures endLine.secrecy <= SpliceLines(startLine, pre, frags, insert, suf, endLine).lines[|frags| - 1].secrecy
    ensures SpliceLines(startLine, pre, frags, insert, suf, endLine).lines[|frags| - 1].integrity <= endLine.integrity
  {
  }

  /**
   * The maxlength rule: the new UTF-16 length is the old one less the
   * selection plus the inserted text, so it stays within maxlength when the
   * content without the selection did; an over-long content takes nothing.
   */
  lemma ReplaceSelectionRespectsMaxLength(e: Editor, insert: Secure<string>)
    requires Shaped(e) && Ordered(e) && OnBoundaries(e) && e.selectionOrigin.Some?
    ensures TextPoints.Utf16Len(ReplaceSelectionOn(e, insert).lines) + SelectionUtf16Len(e)
         == TextPoints.Utf16Len(e.lines) + CodeUnits(Inserted(e, insert.payload))
    ensures e.maxLength.Some? && TextPoints.Utf16Len(e.lines) - SelectionUtf16Len(e) <= e.maxLength.value
        ==> TextPoints.Utf16Len(ReplaceSelectionOn(e, insert).lines) <= e.maxLength.value
    ensures e.maxLength.Some? && TextPoints.Utf16Len(e.lines) - SelectionUtf16Len(e) > e.maxLength.value
        ==> Inserted(e, insert.payload) == ""
  {
    var r := ReplaceSelectionOn(e, insert);
    var ins := Inserted(e, insert.payload);
    ReplaceSelectionSplices(e, insert);
    SelectionSplitsText(e);
    assert |r.lines| > 0;
    SpliceLength(TextBefore(e.lines, SelectionStart(e)), SelectionTextOf(e), TextAfter(e.lines, SelectionEnd(e)),
                 ins, Text(e.lines), Text(r.lines));
    if e.maxLength.Some? {
      Allowance(TextPoints.Utf16Len(e.lines), SelectionUtf16Len(e), CodeUnits(ins),
                TextPoints.Utf16Len(r.lines), e.maxLength.value);
      if CodeUnits(ins) == 0 {
        assert |ins| == 0;
      }
    }
  }

  /** Replacing `sel` by `ins` between the same texts changes the UTF-16 length by the difference. */
  lemma SpliceLength(before: string, sel: string, after: string, ins: string, oldText: string, newText: string)
    requires oldText == before + sel + after && newText == before + ins + after
    ensures CodeUnits(newText) + CodeUnits(sel) == CodeUnits(oldText) + CodeUnits(ins)
  {
    var x, y := before + ins, before + sel;
    CodeUnitsConcat(before, ins);
    CodeUnitsConcat(x, after);
    CodeUnitsConcat(before, sel);
    CodeUnitsConcat(y, after);
    assert CodeUnits(newText) == CodeUnits(before) + CodeUnits(ins) + CodeUnits(after);
    assert CodeUnits(oldText) == CodeUnits(before) + CodeUnits(sel) + CodeUnits(after);
  }

  /** The allowance arithmetic: what fits keeps the length within `m`, and nothing fits once it is exceeded. */
  lemma Allowance(oldLen: nat, sel: nat, ins: nat, newLen: nat, m: nat)
    requires newLen + sel == oldLen + ins && ins <= SaturatingSub(m, SaturatingSub(oldLen, sel))
    ensures oldLen - sel <= m ==> newLen <= m
    ensures oldLen - sel > m ==> ins == 0
  {
  }

  /** `replace_selection` keeps the state valid; without a selection it changes nothing. */
  lemma ReplaceSelectionValid(e: Editor, insert: Secure<string>)
    requires Valid(e) && OnBoundaries(e)
    ensures Valid(ReplaceSelectionOn(e, insert)) && OnBoundaries(ReplaceSelectionOn(e, insert))
    ensures e.selectionOrigin.None? ==> ReplaceSelectionOn(e, insert) == e
    ensures e.selectionOrigin.Some? ==>
      ReplaceSelectionOn(e, insert).selectionOrigin.None?
      && ReplaceSelectionOn(e, insert).selectionDirection == Undirected
      && !ReplaceSelectionOn(e, insert).wasLastChangeBySetContent
  {
    if e.selectionOrigin.Some? {
      ReplaceSelectionSplices(e, insert);
      ReplaceSelectionLabels(e, insert);
    }
  }

  /** `insert_secret_string`: replace the selection, or insert at the edit point, with labelled text. */
  function InsertSecretStringOn(e: Editor, s: Secure<string>): Editor
    requires Ordered(e) && OnBoundaries(e)
  {
    ReplaceSelectionOn(AnchorSelection(e), s)
  }

  /** `insert_string`: as `insert_secret_string`, with public text. */
  function InsertStringOn(e: Editor, s: string): Editor
    requires Ordered(e) && OnBoundaries(e)
  {
    InsertSecretStringOn(e, Public(s))
  }

  /** `insert_char`. */
  function InsertCharOn(e: Editor, c: char): Editor
    requires Ordered(e) && OnBoundaries(e)
  {
    InsertStringOn(e, [c])
  }

  /**
   * The insertions put the text in at the selection, or at the edit point
   * when nothing is selected, and leave the edit point just after it.
   */
  lemma InsertSecretStringSplices(e: Editor, s: Secure<string>)
    requires Valid(e) && OnBoundaries(e)
    ensures Valid(InsertSecretStringOn(e, s)) && OnBoundaries(InsertSecretStringOn(e, s))
    ensures e.selectionOrigin.None? ==>
      TextBefore(InsertSecretStringOn(e, s).lines, InsertSecretStringOn(e, s).editPoint)
        == TextBefore(e.lines, e.editPoint) + Inserted(AnchorSelection(e), s.payload)
      && TextAfter(InsertSecretStringOn(e, s).lines, InsertSecretStringOn(e, s).editPoint)
        == TextAfter(e.lines, e.editPoint)
    ensures Text(InsertSecretStringOn(e, s).lines)
         == TextBefore(e.lines, SelectionStart(e)) + Inserted(AnchorSelection(e), s.payload)
          + TextAfter(e.lines, SelectionEnd(e))
  {
    var a := AnchorSelection(e);
    assert SelectionStart(a) == SelectionStart(e) && SelectionEnd(a) == SelectionEnd(e);
    ReplaceSelectionValid(a, s);
    ReplaceSelectionSplices(a, s);
  }

  /** `handle_return`: a line break in a multiline control; the default action otherwise. */
  function HandleReturnOn(e: Editor): (Editor, KeyReaction)
    requires Ordered(e) && OnBoundaries(e)
  {
    if !e.multiline then (e, TriggerDefaultAction)
    else (InsertCharOn(e, '\n'), DispatchInput)
  }

  /**
   * Return in a multiline control replaces the selection by a line break,
   * unless maxlength leaves no room for it; a single-line control is left
   * unchanged and the default action (form submission) is triggered.
   */
  lemma HandleReturnBreaksLine(e: Editor)
    requires Valid(e) && OnBoundaries(e)
    ensures !e.multiline ==> HandleReturnOn(e) == (e, TriggerDefaultAction)
    ensures e.multiline ==>
      HandleReturnOn(e).1 == DispatchInput
      && Valid(HandleReturnOn(e).0) && OnBoundaries(HandleReturnOn(e).0)
      && Text(HandleReturnOn(e).0.lines)
         == TextBefore(e.lines, SelectionStart(e))
            + (if AllowedToInsert(AnchorSelection(e)) >= 1 then "\n" else "")
            + TextAfter(e.lines, SelectionEnd(e))
  {
    if e.multiline {
      InsertSecretStringSplices(e, Public("\n"));
      var ins := Inserted(AnchorSelection(e), "\n");
      assert CodeUnits("\n") == 1;
      if AllowedToInsert(AnchorSelection(e)) >= 1 {
        assert ins == "\n";
      } else {
        assert ins == "";
      }
    }
  }
}
