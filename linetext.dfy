/**
 * Text as a sequence of lines: joining with '\n', splitting at separator
 * characters, and the line-break normalisation of a textarea's value.
 */
module LineText {
  import opened Unicode

  /** The lines joined with '\n' between consecutive lines. */
  function Join(ls: seq<string>): string
  {
    if |ls| == 0 then "" else if |ls| == 1 then ls[0] else ls[0] + "\n" + Join(ls[1..])
  }

  lemma {:induction false} JoinConcat(a: seq<string>, b: seq<string>)
    requires |a| > 0 && |b| > 0
    ensures Join(a + b) == Join(a) + "\n" + Join(b)
  {
    if |a| == 1 {
      assert (a + b)[1..] == b;
    } else {
      assert (a + b)[1..] == a[1..] + b;
      JoinConcat(a[1..], b);
    }
  }

  /** Joining one line more at the end. */
  lemma JoinSnoc(a: seq<string>, x: string)
    ensures Join(a + [x]) == if a == [] then x else Join(a) + "\n" + x
  {
    if a == [] {
      assert a + [x] == [x];
    } else {
      JoinConcat(a, [x]);
    }
  }

  /** Joining one line more at the front; a separate step only to split the proof cost. */
  lemma JoinCons(x: string, b: seq<string>)
    ensures Join([x] + b) == if b == [] then x else x + "\n" + Join(b)
  {
    if b == [] {
      assert [x] + b == [x];
    } else {
      JoinConcat([x], b);
    }
  }

  /** A character that starts the first line starts the joined text; a separate step only to split the proof cost. */
  lemma JoinPrependChar(c: char, x: string, b: seq<string>)
    ensures Join([[c] + x] + b) == [c] + Join([x] + b)
  {
    JoinCons([c] + x, b);
    JoinCons(x, b);
  }

  /**
   * `str::split` with a predicate matching the characters of `seps`: the
   * pieces between separators, in order; there is always at least one.
   */
  function Split(s: string, seps: set<char>): (r: seq<string>)
    ensures |r| >= 1
    ensures forall i, j :: 0 <= i < |r| && 0 <= j < |r[i]| ==> r[i][j] !in seps
    decreases |s|
  {
    if s == [] then [""]
    else
      var rest := Split(s[1..], seps);
      if s[0] in seps then [""] + rest
      else
        var r := [[s[0]] + rest[0]] + rest[1..];
        assert forall j :: 1 <= j < |r[0]| ==> r[0][j] == rest[0][j - 1];
        r
  }

  /** `s` with every character of `seps` replaced by '\n'. */
  function SepsToNewline(s: string, seps: set<char>): (r: string)
    ensures |r| == |s|
    decreases |s|
  {
    if s == [] then "" else [if s[0] in seps then '\n' else s[0]] + SepsToNewline(s[1..], seps)
  }

  /** Joining the pieces puts a '\n' where each separator was. */
  lemma {:induction false} JoinSplit(s: string, seps: set<char>)
    ensures Join(Split(s, seps)) == SepsToNewline(s, seps)
    decreases |s|
  {
    if s != [] {
      var rest := Split(s[1..], seps);
      JoinSplit(s[1..], seps);
      if s[0] in seps {
        JoinCons("", rest);
      } else {
        assert rest == [rest[0]] + rest[1..];
        JoinPrependChar(s[0], rest[0], rest[1..]);
      }
    }
  }

  /** Splitting on '\n' alone and joining again gives the text back. */
  lemma {:induction false} JoinSplitNewline(s: string)
    ensures Join(Split(s, {'\n'})) == s
    decreases |s|
  {
    JoinSplit(s, {'\n'});
    NewlineIsFixed(s);
  }

  lemma {:induction false} NewlineIsFixed(s: string)
    ensures SepsToNewline(s, {'\n'}) == s
    decreases |s|
  {
    if s != [] {
      NewlineIsFixed(s[1..]);
      assert s == [s[0]] + s[1..];
    }
  }

  /** `str::replace(s, "\r\n", "\n")`: each CR LF pair, scanning left to right, becomes one LF. */
  function ReplaceCrLf(s: string): (r: string)
    ensures |r| <= |s|
    decreases |s|
  {
    if |s| >= 2 && s[0] == '\r' && s[1] == '\n' then "\n" + ReplaceCrLf(s[2..])
    else if s == [] then ""
    else [s[0]] + ReplaceCrLf(s[1..])
  }

  /**
   * The textarea line-break normalisation of the HTML Living Standard: every
   * CR LF pair becomes one LF, then every remaining CR becomes an LF.
   */
  function NormalizeNewlines(s: string): (r: string)
    ensures forall i :: 0 <= i < |r| ==> r[i] != '\r'
    decreases |s|
  {
    if s == [] then ""
    else if s[0] == '\r' && |s| >= 2 && s[1] == '\n' then "\n" + NormalizeNewlines(s[2..])
    else if s[0] == '\r' then "\n" + NormalizeNewlines(s[1..])
    else [s[0]] + NormalizeNewlines(s[1..])
  }

  /** Replacing CR LF and then treating CR and LF alike as line breaks is the HTML normalisation. */
  lemma {:induction false} CrLfThenSplitNormalizes(s: string)
    ensures SepsToNewline(ReplaceCrLf(s), {'\n', '\r'}) == NormalizeNewlines(s)
    decreases |s|
  {
    if |s| >= 2 && s[0] == '\r' && s[1] == '\n' {
      CrLfThenSplitNormalizes(s[2..]);
      assert ("\n" + ReplaceCrLf(s[2..]))[1..] == ReplaceCrLf(s[2..]);
    } else if s != [] {
      CrLfThenSplitNormalizes(s[1..]);
      assert ([s[0]] + ReplaceCrLf(s[1..]))[1..] == ReplaceCrLf(s[1..]);
    }
  }

  /** Bytes of all lines, counting one separator byte after each. */
  function LinesBytes(ls: seq<string>): nat
  {
    if ls == [] then 0 else ByteLen(ls[0]) + 1 + LinesBytes(ls[1..])
  }

  /** UTF-16 code units of all lines, counting one separator unit after each. */
  function LinesUnits(ls: seq<string>): nat
  {
    if ls == [] then 0 else CodeUnits(ls[0]) + 1 + LinesUnits(ls[1..])
  }

  /** Characters of all lines, counting one separator after each. */
  function LinesChars(ls: seq<string>): nat
  {
    if ls == [] then 0 else |ls[0]| + 1 + LinesChars(ls[1..])
  }

  lemma {:induction false} LinesBytesConcat(a: seq<string>, b: seq<string>)
    ensures LinesBytes(a + b) == LinesBytes(a) + LinesBytes(b)
  {
    if a == [] {
      assert a + b == b;
    } else {
      assert (a + b)[1..] == a[1..] + b;
      LinesBytesConcat(a[1..], b);
    }
  }

  lemma {:induction false} LinesUnitsConcat(a: seq<string>, b: seq<string>)
    ensures LinesUnits(a + b) == LinesUnits(a) + LinesUnits(b)
  {
    if a == [] {
      assert a + b == b;
    } else {
      assert (a + b)[1..] == a[1..] + b;
      LinesUnitsConcat(a[1..], b);
    }
  }

  lemma {:induction false} LinesCharsConcat(a: seq<string>, b: seq<string>)
    ensures LinesChars(a + b) == LinesChars(a) + LinesChars(b)
  {
    if a == [] {
      assert a + b == b;
    } else {
      assert (a + b)[1..] == a[1..] + b;
      LinesCharsConcat(a[1..], b);
    }
  }

  /** The joined text has one byte fewer than the lines with a separator after each. */
  lemma {:induction false} JoinMeasures(ls: seq<string>)
    requires |ls| > 0
    ensures ByteLen(Join(ls)) + 1 == LinesBytes(ls)
    ensures CodeUnits(Join(ls)) + 1 == LinesUnits(ls)
    ensures |Join(ls)| + 1 == LinesChars(ls)
  {
    if |ls| > 1 {
      JoinMeasures(ls[1..]);
      ByteLenConcat(ls[0] + "\n", Join(ls[1..]));
      ByteLenConcat(ls[0], "\n");
      CodeUnitsConcat(ls[0] + "\n", Join(ls[1..]));
      CodeUnitsConcat(ls[0], "\n");
    }
  }

  /** Cutting one line in two splits the joined text in two at the same place. */
  lemma JoinAround(a: seq<string>, x: string, y: string, b: seq<string>)
    ensures Join(a + [x + y] + b) == Join(a + [x]) + Join([y] + b)
  {
    JoinFirstSplit(x, y, b);
    assert a + [x + y] + b == a + ([x + y] + b);
    if a != [] {
      JoinConcat(a, [x + y] + b);
      JoinSnoc(a, x);
      assert Join(a) + "\n" + (x + Join([y] + b)) == Join(a) + "\n" + x + Join([y] + b);
    } else {
      assert a + ([x + y] + b) == [x + y] + b && a + [x] == [x];
    }
  }

  /** Splitting the first line: its first part comes off the front of the joined text; a separate step only to split the proof cost. */
  lemma JoinFirstSplit(x: string, y: string, b: seq<string>)
    ensures Join([x + y] + b) == x + Join([y] + b)
  {
    JoinCons(y, b);
    JoinCons(x + y, b);
    if b != [] {
      assert x + y + "\n" + Join(b) == x + (y + "\n" + Join(b));
    }
  }
}
