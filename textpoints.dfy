/**
 * Positions in the text-input engine's lines (components/script/textinput.rs):
 * a `TextPoint` is a line number and a byte index into that line. This module
 * relates points to byte offsets into the joined content (`text_point_to_offset`,
 * `offset_to_text_point`) and to the text before and after them.
 */
module TextPoints {
  import opened Unicode
  import opened Labels
  import opened LineText

  /** One line of the content with its labels. */
  type Line = Secure<string>

  datatype TextPoint = TextPoint(line: nat, index: nat)

  /** The derived ordering of `TextPoint`: by line, then by byte index. */
  predicate Le(p: TextPoint, q: TextPoint)
  {
    p.line < q.line || (p.line == q.line && p.index <= q.index)
  }

  predicate Lt(p: TextPoint, q: TextPoint)
  {
    p.line < q.line || (p.line == q.line && p.index < q.index)
  }

  function Payloads(lines: seq<Line>): (r: seq<string>)
    ensures |r| == |lines|
    ensures forall i :: 0 <= i < |lines| ==> r[i] == lines[i].payload
  {
    seq(|lines|, i requires 0 <= i < |lines| => lines[i].payload)
  }

  lemma PayloadsConcat(a: seq<Line>, b: seq<Line>)
    ensures Payloads(a + b) == Payloads(a) + Payloads(b)
  {
    assert Payloads(a + b) == Payloads(a) + Payloads(b);
  }

  lemma PayloadsSlice(lines: seq<Line>, i: nat, j: nat)
    requires i <= j <= |lines|
    ensures Payloads(lines[i..j]) == Payloads(lines)[i..j]
    ensures Payloads(lines[i..]) == Payloads(lines)[i..]
    ensures Payloads(lines[..j]) == Payloads(lines)[..j]
  {
  }

  /** The content: the lines joined by '\n'. */
  function Text(lines: seq<Line>): string
  {
    Join(Payloads(lines))
  }

  /** The byte length of line `i`. */
  function LineLen(lines: seq<Line>, i: nat): nat
    requires i < |lines|
  {
    ByteLen(lines[i].payload)
  }

  /** The position exists: the line exists and the index is at most its length. */
  predicate InBounds(lines: seq<Line>, p: TextPoint)
  {
    p.line < |lines| && p.index <= LineLen(lines, p.line)
  }

  /** In bounds, and the index is a character boundary of its line. */
  predicate OnBoundary(lines: seq<Line>, p: TextPoint)
  {
    InBounds(lines, p) && IsCharBoundary(lines[p.line].payload, p.index)
  }

  /** The end of the last line. */
  function EndPoint(lines: seq<Line>): (p: TextPoint)
    requires |lines| > 0
    ensures OnBoundary(lines, p)
  {
    EndIsBoundary(lines[|lines| - 1].payload);
    TextPoint(|lines| - 1, LineLen(lines, |lines| - 1))
  }

  /** `len_utf8`: the sum over lines of (byte length + 1), less the one separator that is not there. */
  function LenUtf8(lines: seq<Line>): (n: nat)
    ensures |lines| > 0 ==> n == ByteLen(Text(lines))
  {
    if |lines| > 0 then
      JoinMeasures(Payloads(lines));
      SaturatingSub(LinesBytes(Payloads(lines)), 1)
    else 0
  }

  /** `utf16_len`: the content's length in UTF-16 code units. */
  function Utf16Len(lines: seq<Line>): (n: nat)
    ensures |lines| > 0 ==> n == CodeUnits(Text(lines))
  {
    if |lines| > 0 then
      JoinMeasures(Payloads(lines));
      SaturatingSub(LinesUnits(Payloads(lines)), 1)
    else 0
  }

  /** `char_count`: the content's length in code points; the source subtracts without saturating. */
  function CharCount(lines: seq<Line>): (n: nat)
    requires |lines| > 0
    ensures n == |Text(lines)|
  {
    JoinMeasures(Payloads(lines));
    LinesChars(Payloads(lines)) - 1
  }

  /**
   * `text_point_to_offset`: the byte offset of `p` in the content, the sum of
   * (byte length + 1) over the lines before `p.line`, plus `p.index`.
   */
  function TextPointToOffset(lines: seq<Line>, p: TextPoint): nat
  {
    LinesBytes(Payloads(lines)[..Min(p.line, |lines|)]) + p.index
  }

  /** The content before a point on a character boundary. */
  function TextBefore(lines: seq<Line>, p: TextPoint): string
    requires OnBoundary(lines, p)
  {
    Join(Payloads(lines)[..p.line] + [SliceTo(lines[p.line].payload, p.index)])
  }

  /** The content after a point on a character boundary. */
  function TextAfter(lines: seq<Line>, p: TextPoint): string
    requires OnBoundary(lines, p)
  {
    Join([SliceFrom(lines[p.line].payload, p.index)] + Payloads(lines)[p.line + 1..])
  }

  lemma LinesBytesStep(ls: seq<string>, k: nat)
    requires k < |ls|
    ensures LinesBytes(ls[..k + 1]) == LinesBytes(ls[..k]) + ByteLen(ls[k]) + 1
  {
    assert ls[..k + 1] == ls[..k] + [ls[k]];
    LinesBytesConcat(ls[..k], [ls[k]]);
    assert [ls[k]][1..] == [];
  }

  lemma {:induction false} LinesBytesPrefixMono(ls: seq<string>, i: nat, j: nat)
    requires i <= j <= |ls|
    ensures LinesBytes(ls[..i]) <= LinesBytes(ls[..j])
    decreases j - i
  {
    if i < j {
      LinesBytesStep(ls, i);
      LinesBytesPrefixMono(ls, i + 1, j);
    }
  }

  /** A point splits the content into the text before it and the text after it. */
  lemma TextAround(lines: seq<Line>, p: TextPoint)
    requires OnBoundary(lines, p)
    ensures Text(lines) == TextBefore(lines, p) + TextAfter(lines, p)
  {
    var ps := Payloads(lines);
    var x := SliceTo(lines[p.line].payload, p.index);
    var y := SliceFrom(lines[p.line].payload, p.index);
    SliceSplit(lines[p.line].payload, p.index);
    assert ps == ps[..p.line] + [x + y] + ps[p.line + 1..];
    JoinAround(ps[..p.line], x, y, ps[p.line + 1..]);
  }

  /** The offset of a point is the number of bytes of content before it. */
  lemma OffsetIsBytesBefore(lines: seq<Line>, p: TextPoint)
    requires OnBoundary(lines, p)
    ensures TextPointToOffset(lines, p) == ByteLen(TextBefore(lines, p))
  {
    var ps := Payloads(lines);
    var x := SliceTo(lines[p.line].payload, p.index);
    JoinSnoc(ps[..p.line], x);
    if p.line > 0 {
      JoinMeasures(ps[..p.line]);
      ByteLenConcat(Join(ps[..p.line]) + "\n", x);
      ByteLenConcat(Join(ps[..p.line]), "\n");
    }
  }

  /** The offset of the first point of line `k + 1` is one more than the end of line `k`. */
  lemma OffsetNextLine(lines: seq<Line>, k: nat)
    requires k + 1 < |lines|
    ensures TextPointToOffset(lines, TextPoint(k + 1, 0)) == TextPointToOffset(lines, TextPoint(k, LineLen(lines, k))) + 1
  {
    LinesBytesStep(Payloads(lines), k);
  }

  /** The end of the last line has the content's length as its offset. */
  lemma OffsetOfEnd(lines: seq<Line>)
    requires |lines| > 0
    ensures TextPointToOffset(lines, EndPoint(lines)) == LenUtf8(lines)
  {
    var ps := Payloads(lines);
    LinesBytesStep(ps, |lines| - 1);
    assert ps[..|lines|] == ps;
  }

  /** Offsets order in-bounds points exactly as the derived ordering does. */
  lemma OffsetOrder(lines: seq<Line>, p: TextPoint, q: TextPoint)
    requires InBounds(lines, p) && InBounds(lines, q)
    ensures Le(p, q) <==> TextPointToOffset(lines, p) <= TextPointToOffset(lines, q)
    ensures Lt(p, q) <==> TextPointToOffset(lines, p) < TextPointToOffset(lines, q)
  {
    var ps := Payloads(lines);
    if p.line < q.line {
      LinesBytesStep(ps, p.line);
      LinesBytesPrefixMono(ps, p.line + 1, q.line);
    } else if q.line < p.line {
      LinesBytesStep(ps, q.line);
      LinesBytesPrefixMono(ps, q.line + 1, p.line);
    }
  }

  /** Two in-bounds points with the same offset are the same point. */
  lemma OffsetInjective(lines: seq<Line>, p: TextPoint, q: TextPoint)
    requires InBounds(lines, p) && InBounds(lines, q)
    requires TextPointToOffset(lines, p) == TextPointToOffset(lines, q)
    ensures p == q
  {
    OffsetOrder(lines, p, q);
    OffsetOrder(lines, q, p);
  }

  /** Every in-bounds point is at or before the end of the content. */
  lemma OffsetAtMostLength(lines: seq<Line>, p: TextPoint)
    requires InBounds(lines, p)
    ensures Le(p, EndPoint(lines))
    ensures TextPointToOffset(lines, p) <= LenUtf8(lines)
  {
    OffsetOrder(lines, p, EndPoint(lines));
    OffsetOfEnd(lines);
  }

  lemma OffsetTail(lines: seq<Line>, q: TextPoint)
    requires |lines| > 1
    ensures TextPointToOffset(lines, TextPoint(q.line + 1, q.index))
         == LineLen(lines, 0) + 1 + TextPointToOffset(lines[1..], q)
  {
    var ps := Payloads(lines);
    var k := Min(q.line + 1, |lines|);
    PayloadsSlice(lines, 1, |lines|);
    assert ps[..k][1..] == ps[1..][..k - 1];
  }

  /**
   * The point at byte offset `abs` of the content: the first line whose end
   * is at or after `abs`, or the last line. It is the independent counterpart
   * of the engine's `offset_to_text_point`.
   */
  function PointAtOffset(lines: seq<Line>, abs: nat): (p: TextPoint)
    requires |lines| > 0
    ensures p.line < |lines| && TextPointToOffset(lines, p) == abs
    ensures abs <= LenUtf8(lines) <==> InBounds(lines, p)
    ensures p.line < |lines| - 1 ==> p.index <= LineLen(lines, p.line)
    decreases |lines|
  {
    if |lines| == 1 || abs <= LineLen(lines, 0) then
      assert Payloads(lines)[..0] == [];
      assert |lines| == 1 ==> Payloads(lines)[1..] == [];
      TextPoint(0, abs)
    else
      var q := PointAtOffset(lines[1..], abs - LineLen(lines, 0) - 1);
      OffsetTail(lines, q);
      PayloadsSlice(lines, 1, |lines|);
      assert Payloads(lines) == [lines[0].payload] + Payloads(lines)[1..];
      TextPoint(q.line + 1, q.index)
  }

  /** `PointAtOffset` undoes `TextPointToOffset` on in-bounds points. */
  lemma PointAtOffsetInverse(lines: seq<Line>, p: TextPoint)
    requires InBounds(lines, p)
    ensures PointAtOffset(lines, TextPointToOffset(lines, p)) == p
  {
    OffsetAtMostLength(lines, p);
    OffsetInjective(lines, p, PointAtOffset(lines, TextPointToOffset(lines, p)));
  }

  lemma OffsetOnLine(lines: seq<Line>, l: nat, i: nat)
    requires l < |lines|
    ensures TextPointToOffset(lines, TextPoint(l, i)) == TextPointToOffset(lines, TextPoint(l, 0)) + i
  {
  }

  /**
   * A point on some line that stays within its line unless it is on the last
   * line is the one `PointAtOffset` finds for its offset.
   */
  lemma PointAtOffsetUnique(lines: seq<Line>, p: TextPoint)
    requires p.line < |lines|
    requires p.line < |lines| - 1 ==> p.index <= LineLen(lines, p.line)
    ensures PointAtOffset(lines, TextPointToOffset(lines, p)) == p
  {
    var abs := TextPointToOffset(lines, p);
    var q := PointAtOffset(lines, abs);
    var last := |lines| - 1;
    OffsetOfEnd(lines);
    OffsetOnLine(lines, last, LineLen(lines, last));
    if abs <= LenUtf8(lines) {
      if p.line == last {
        OffsetOnLine(lines, last, p.index);
      }
      assert InBounds(lines, p);
      OffsetInjective(lines, p, q);
    } else {
      assert !InBounds(lines, q);
      if p.line < last {
        OffsetAtMostLength(lines, p);
      }
      OffsetOnLine(lines, last, p.index);
      OffsetOnLine(lines, last, q.index);
    }
  }

  /** Nothing comes before the first point and nothing after the end point. */
  lemma TextBeforeStartAfterEnd(lines: seq<Line>)
    requires |lines| > 0
    ensures OnBoundary(lines, TextPoint(0, 0)) && TextBefore(lines, TextPoint(0, 0)) == ""
    ensures TextAfter(lines, EndPoint(lines)) == ""
  {
    SliceEnds(lines[0].payload);
    SliceEnds(lines[|lines| - 1].payload);
    assert Payloads(lines)[..0] + [""] == [""];
    assert [""] + Payloads(lines)[|lines|..] == [""];
  }

  /**
   * The text between two points on character boundaries, `s` at or before
   * `t`: the rest of `s`'s line, the whole lines in between and the start of
   * `t`'s line, joined by '\n'.
   */
  function SelectedText(lines: seq<Line>, s: TextPoint, t: TextPoint): string
    requires OnBoundary(lines, s) && OnBoundary(lines, t) && Le(s, t)
  {
    if s.line == t.line then
      var x := lines[s.line].payload;
      CharsBeforeMono(x, s.index, t.index);
      x[CharsBefore(x, s.index)..CharsBefore(x, t.index)]
    else
      Join([SliceFrom(lines[s.line].payload, s.index)] + Payloads(lines)[s.line + 1..t.line]
        + [SliceTo(lines[t.line].payload, t.index)])
  }

  /** Splitting one line twice: `x` is `u + v + w`. */
  lemma JoinAroundTwice(a: seq<string>, u: string, v: string, w: string, b: seq<string>)
    ensures Join(a + [u + v + w] + b) == Join(a + [u]) + v + Join([w] + b)
  {
    assert u + v + w == u + (v + w);
    JoinAround(a, u, v + w, b);
    assert [v + w] + b == [] + [v + w] + b;
    JoinAround([], v, w, b);
    assert [] + [v] == [v];
  }

  /** Splitting two lines: the first is `u + v`, the last `y + z`. */
  lemma JoinAroundSpan(a: seq<string>, u: string, v: string, m: seq<string>, y: string, z: string, b: seq<string>)
    ensures Join(a + [u + v] + m + [y + z] + b) == Join(a + [u]) + Join([v] + m + [y]) + Join([z] + b)
  {
    assert a + [u + v] + m + [y + z] + b == a + [u + v] + (m + [y + z] + b);
    JoinAround(a, u, v, m + [y + z] + b);
    assert [v] + (m + [y + z] + b) == ([v] + m) + [y + z] + b;
    JoinAround([v] + m, y, z, b);
  }

  lemma PrefixSnoc(ps: seq<string>, l: nat)
    requires l < |ps|
    ensures ps[..l + 1] == ps[..l] + [ps[l]]
  {
  }

  lemma SuffixCons(ps: seq<string>, l: nat)
    requires l < |ps|
    ensures ps[l..] == [ps[l]] + ps[l + 1..]
  {
  }

  lemma SplitAtOne(ps: seq<string>, l: nat, x: string)
    requires l < |ps| && ps[l] == x
    ensures ps == ps[..l] + [x] + ps[l + 1..]
  {
  }

  lemma SplitAtTwo(ps: seq<string>, l: nat, r: nat, x: string, y: string)
    requires l < r < |ps| && ps[l] == x && ps[r] == y
    ensures ps == ps[..l] + [x] + ps[l + 1..r] + [y] + ps[r + 1..]
  {
  }

  lemma SelectionAroundOneLine(lines: seq<Line>, s: TextPoint, t: TextPoint)
    requires OnBoundary(lines, s) && OnBoundary(lines, t) && s.line == t.line && s.index <= t.index
    ensures Text(lines) == TextBefore(lines, s) + SelectedText(lines, s, t) + TextAfter(lines, t)
  {
    var ps := Payloads(lines);
    var x := lines[s.line].payload;
    CharsBeforeMono(x, s.index, t.index);
    var i := CharsBefore(x, s.index);
    var j := CharsBefore(x, t.index);
    assert x == x[..i] + x[i..j] + x[j..];
    SplitAtOne(ps, s.line, x[..i] + x[i..j] + x[j..]);
    JoinAroundTwice(ps[..s.line], x[..i], x[i..j], x[j..], ps[t.line + 1..]);
    assert SliceTo(x, s.index) == x[..i];
    assert SliceFrom(x, t.index) == x[j..];
  }

  lemma SelectionAroundLines(lines: seq<Line>, s: TextPoint, t: TextPoint)
    requires OnBoundary(lines, s) && OnBoundary(lines, t) && s.line < t.line
    ensures Text(lines) == TextBefore(lines, s) + SelectedText(lines, s, t) + TextAfter(lines, t)
  {
    var ps := Payloads(lines);
    var u := SliceTo(lines[s.line].payload, s.index);
    var v := SliceFrom(lines[s.line].payload, s.index);
    var y := SliceTo(lines[t.line].payload, t.index);
    var z := SliceFrom(lines[t.line].payload, t.index);
    SliceSplit(lines[s.line].payload, s.index);
    SliceSplit(lines[t.line].payload, t.index);
    SplitAtTwo(ps, s.line, t.line, u + v, y + z);
    JoinAroundSpan(ps[..s.line], u, v, ps[s.line + 1..t.line], y, z, ps[t.line + 1..]);
  }

  /** The content is the text before `s`, the selected text, and the text after `t`. */
  lemma SelectionAround(lines: seq<Line>, s: TextPoint, t: TextPoint)
    requires OnBoundary(lines, s) && OnBoundary(lines, t) && Le(s, t)
    ensures Text(lines) == TextBefore(lines, s) + SelectedText(lines, s, t) + TextAfter(lines, t)
  {
    if s.line == t.line {
      SelectionAroundOneLine(lines, s, t);
    } else {
      SelectionAroundLines(lines, s, t);
    }
  }

  /** The character just before a point that is not the very first: '\n' at a line start. */
  function CharBefore(lines: seq<Line>, p: TextPoint): (c: char)
    requires OnBoundary(lines, p) && p != TextPoint(0, 0)
    ensures p.index > 0 ==> Utf8Len(c) <= p.index
  {
    if p.index == 0 then '\n'
    else
      var x := lines[p.line].payload;
      PrevBoundary(x, p.index);
      x[CharsBefore(x, p.index) - 1]
  }

  /** The point one character before `p`. */
  function PointBefore(lines: seq<Line>, p: TextPoint): TextPoint
    requires OnBoundary(lines, p) && p != TextPoint(0, 0)
  {
    if p.index == 0 then TextPoint(p.line - 1, LineLen(lines, p.line - 1))
    else TextPoint(p.line, p.index - Utf8Len(CharBefore(lines, p)))
  }

  /** Stepping back over a line break. */
  lemma StepBackOverBreak(lines: seq<Line>, p: TextPoint)
    requires OnBoundary(lines, p) && p.index == 0 && p.line > 0
    ensures OnBoundary(lines, PointBefore(lines, p))
    ensures TextBefore(lines, PointBefore(lines, p)) + "\n" == TextBefore(lines, p)
    ensures TextAfter(lines, PointBefore(lines, p)) == "\n" + TextAfter(lines, p)
    ensures TextPointToOffset(lines, PointBefore(lines, p)) + 1 == TextPointToOffset(lines, p)
  {
    var ps := Payloads(lines);
    var w := lines[p.line - 1].payload;
    SliceEnds(w);
    SliceEnds(lines[p.line].payload);
    OffsetNextLine(lines, p.line - 1);
    BreakBefore(ps, p.line);
    BreakAfter(ps, p.line);
  }

  /** The lines before line `l`, and those with an empty line after them. */
  lemma BreakBefore(ps: seq<string>, l: nat)
    requires 0 < l < |ps|
    ensures Join(ps[..l - 1] + [ps[l - 1]]) + "\n" == Join(ps[..l] + [""])
  {
    PrefixSnoc(ps, l - 1);
    JoinSnoc(ps[..l], "");
  }

  /** An empty line before the lines from `l` on, and those lines. */
  lemma BreakAfter(ps: seq<string>, l: nat)
    requires 0 < l < |ps|
    ensures Join([""] + ps[l..]) == "\n" + Join([ps[l]] + ps[l + 1..])
  {
    SuffixCons(ps, l);
    JoinCons("", ps[l..]);
  }

  /** Appending a character to the last line appends it to the joined text. */
  lemma JoinSnocChar(a: seq<string>, u: string, c: char)
    ensures Join(a + [u + [c]]) == Join(a + [u]) + [c]
  {
    JoinAround(a, u, [c], []);
    assert a + [u + [c]] + [] == a + [u + [c]];
    assert Join([[c]] + []) == [c];
  }

  /** Within one string: the `k`-th character moves between the slices at the two boundaries around it. */
  lemma PrevCharSplit(x: string, k: nat)
    requires 0 < k <= |x|
    ensures IsCharBoundary(x, ByteLen(x[..k])) && IsCharBoundary(x, ByteLen(x[..k - 1]))
    ensures ByteLen(x[..k - 1]) + Utf8Len(x[k - 1]) == ByteLen(x[..k])
    ensures SliceTo(x, ByteLen(x[..k - 1])) + [x[k - 1]] == SliceTo(x, ByteLen(x[..k]))
    ensures SliceFrom(x, ByteLen(x[..k - 1])) == [x[k - 1]] + SliceFrom(x, ByteLen(x[..k]))
  {
    ByteLenStep(x, k - 1);
    SlicesAtPrefix(x, k - 1);
    SlicesAtPrefix(x, k);
    PrefixSnocChar(x, k);
  }

  lemma PrefixSnocChar(x: string, k: nat)
    requires 0 < k <= |x|
    ensures x[..k - 1] + [x[k - 1]] == x[..k]
    ensures x[k - 1..] == [x[k - 1]] + x[k..]
  {
  }

  /** Stepping back over a character inside a line. */
  lemma StepBackInLine(lines: seq<Line>, p: TextPoint)
    requires OnBoundary(lines, p) && p.index > 0
    ensures OnBoundary(lines, PointBefore(lines, p))
    ensures TextBefore(lines, PointBefore(lines, p)) + [CharBefore(lines, p)] == TextBefore(lines, p)
    ensures TextAfter(lines, PointBefore(lines, p)) == [CharBefore(lines, p)] + TextAfter(lines, p)
    ensures TextPointToOffset(lines, PointBefore(lines, p)) + Utf8Len(CharBefore(lines, p)) == TextPointToOffset(lines, p)
  {
    var x := lines[p.line].payload;
    var k := CharsBefore(x, p.index);
    PrevCharSplit(x, k);
    var c := x[k - 1];
    var b := ByteLen(x[..k - 1]);
    assert CharBefore(lines, p) == c;
    assert PointBefore(lines, p) == TextPoint(p.line, b);
    var ps := Payloads(lines);
    JoinSnocChar(ps[..p.line], SliceTo(x, b), c);
    JoinPrependChar(c, SliceFrom(x, p.index), ps[p.line + 1..]);
  }

  /** Stepping back over one character moves it from the text before the point to the text after. */
  lemma StepBack(lines: seq<Line>, p: TextPoint)
    requires OnBoundary(lines, p) && p != TextPoint(0, 0)
    ensures OnBoundary(lines, PointBefore(lines, p))
    ensures TextBefore(lines, PointBefore(lines, p)) + [CharBefore(lines, p)] == TextBefore(lines, p)
    ensures TextAfter(lines, PointBefore(lines, p)) == [CharBefore(lines, p)] + TextAfter(lines, p)
    ensures TextPointToOffset(lines, PointBefore(lines, p)) + Utf8Len(CharBefore(lines, p)) == TextPointToOffset(lines, p)
  {
    if p.index == 0 {
      StepBackOverBreak(lines, p);
    } else {
      StepBackInLine(lines, p);
    }
  }

  /** The point is not the end of the content. */
  predicate BeforeEnd(lines: seq<Line>, p: TextPoint)
  {
    InBounds(lines, p) && (p.index < LineLen(lines, p.line) || p.line + 1 < |lines|)
  }

  /** The character just after a point that is not the end: '\n' at a line end. */
  function CharAfter(lines: seq<Line>, p: TextPoint): char
    requires OnBoundary(lines, p) && BeforeEnd(lines, p)
  {
    if p.index == LineLen(lines, p.line) then '\n'
    else
      var x := lines[p.line].payload;
      NextBoundary(x, p.index);
      x[CharsBefore(x, p.index)]
  }

  /** The point one character after `p`. */
  function PointAfter(lines: seq<Line>, p: TextPoint): TextPoint
    requires OnBoundary(lines, p) && BeforeEnd(lines, p)
  {
    if p.index == LineLen(lines, p.line) then TextPoint(p.line + 1, 0)
    else TextPoint(p.line, p.index + Utf8Len(CharAfter(lines, p)))
  }

  lemma PointAfterBoundary(lines: seq<Line>, p: TextPoint)
    requires OnBoundary(lines, p) && BeforeEnd(lines, p)
    ensures OnBoundary(lines, PointAfter(lines, p)) && PointAfter(lines, p) != TextPoint(0, 0)
    ensures PointBefore(lines, PointAfter(lines, p)) == p
    ensures CharBefore(lines, PointAfter(lines, p)) == CharAfter(lines, p)
  {
    var x := lines[p.line].payload;
    if p.index == LineLen(lines, p.line) {
      SliceEnds(lines[p.line + 1].payload);
    } else {
      NextBoundary(x, p.index);
      var k := CharsBefore(x, p.index);
      var b := p.index + Utf8Len(x[k]);
      ByteLenStep(x, k);
      assert b == ByteLen(x[..k + 1]);
      PrefixBoundary(x, k + 1);
      assert CharAfter(lines, p) == x[k];
      assert PointAfter(lines, p) == TextPoint(p.line, b);
      assert CharsBefore(x, b) == k + 1;
    }
  }

  /** Stepping forward over one character moves it from the text after the point to the text before. */
  lemma StepForward(lines: seq<Line>, p: TextPoint)
    requires OnBoundary(lines, p) && BeforeEnd(lines, p)
    ensures OnBoundary(lines, PointAfter(lines, p))
    ensures TextBefore(lines, PointAfter(lines, p)) == TextBefore(lines, p) + [CharAfter(lines, p)]
    ensures TextAfter(lines, p) == [CharAfter(lines, p)] + TextAfter(lines, PointAfter(lines, p))
    ensures TextPointToOffset(lines, p) + Utf8Len(CharAfter(lines, p)) == TextPointToOffset(lines, PointAfter(lines, p))
  {
    PointAfterBoundary(lines, p);
    StepBack(lines, PointAfter(lines, p));
  }
}
