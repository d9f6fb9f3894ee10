/**
 * The byte and string validators of components/script/dom/bindings/str.rs
 * (tokens, time strings, simple colours, lower-casing a byte string) and the
 * two operations that edit a `DOMString` in place.
 */
module DomStr {
  import opened Wrappers
  import opened Unicode

  /** An octet, as Rust's `u8`. */
  type Byte = x: int | 0 <= x < 256

  // ---------------------------------------------------------------- is_token

  /** The match inside `is_token`: whether `x` may appear in a token. */
  predicate IsTokenByte(x: Byte)
  {
    if x <= 31 || x == 127 then false
    else if x in {40, 41, 60, 62, 64, 44, 59, 58, 92, 34, 47, 91, 93, 63, 61, 123, 125, 32} then false
    else if x > 127 then false
    else true
  }

  /** `Iterator::all` over `IsTokenByte`. */
  predicate AllTokenBytes(s: seq<Byte>)
    decreases |s|
  {
    s == [] || (IsTokenByte(s[0]) && AllTokenBytes(s[1..]))
  }

  /** `is_token`: a token has at least one byte, and every byte is a token byte. */
  function IsToken(s: seq<Byte>): (r: bool)
    ensures r ==> |s| > 0
  {
    if |s| == 0 then false else AllTokenBytes(s)
  }

  /** The control characters of section 2.2 of RFC 2616: octets 0 to 31 and DEL. */
  predicate IsCtl(x: Byte) { x <= 31 || x == 127 }

  /** The separators of section 2.2 of RFC 2616. */
  const Separators: set<char> :=
    {'(', ')', '<', '>', '@', ',', ';', ':', '\\', '"', '/', '[', ']', '?', '=', '{', '}', ' ', '\t'}

  /** A token character of section 2.2 of RFC 2616: any CHAR (0 to 127) except CTLs or separators. */
  predicate IsRfcTokenChar(x: Byte)
  {
    x <= 127 && !IsCtl(x) && (x as char) !in Separators
  }

  /** The byte test of `is_token` is exactly the RFC's token character. */
  lemma TokenByteIsRfcTokenChar(x: Byte)
    ensures IsTokenByte(x) <==> IsRfcTokenChar(x)
  {
    if 32 < x < 127 {
      assert ((x as char) in Separators) <==> x in {40, 41, 60, 62, 64, 44, 59, 58, 92, 34, 47, 91, 93, 63, 61, 123, 125};
    }
  }

  /** `is_token` holds exactly for the non-empty sequences of RFC token characters. */
  lemma {:induction false} IsTokenIff(s: seq<Byte>)
    ensures IsToken(s) <==> |s| > 0 && forall i :: 0 <= i < |s| ==> IsRfcTokenChar(s[i])
  {
    AllTokenBytesIff(s);
  }

  lemma {:induction false} AllTokenBytesIff(s: seq<Byte>)
    ensures AllTokenBytes(s) <==> forall i :: 0 <= i < |s| ==> IsRfcTokenChar(s[i])
    decreases |s|
  {
    if s != [] {
      AllTokenBytesIff(s[1..]);
      TokenByteIsRfcTokenChar(s[0]);
      assert forall i :: 1 <= i < |s| ==> s[i] == s[1..][i - 1];
    }
  }

  // ----------------------------------------------------------------- digits

  predicate IsAsciiDigit(c: char) { '0' <= c <= '9' }

  /** A hexadecimal digit, either case. */
  predicate IsHexChar(c: char)
  {
    IsAsciiDigit(c) || 'a' <= c <= 'f' || 'A' <= c <= 'F'
  }

  /** `char::to_digit`: the value of `c` as a digit in base `radix`, if it is one. */
  function ToDigit(c: char, radix: nat): (r: Option<nat>)
    requires 2 <= radix <= 36
    ensures r.Some? ==> r.value < radix
    ensures radix <= 10 ==> (r.Some? <==> '0' <= c && (c as int) < ('0' as int) + radix)
    ensures radix == 16 ==> (r.Some? <==> IsHexChar(c))
  {
    var d: Option<nat> :=
      if '0' <= c <= '9' then Some(c as int - '0' as int)
      else if 'a' <= c <= 'z' then Some(c as int - 'a' as int + 10)
      else if 'A' <= c <= 'Z' then Some(c as int - 'A' as int + 10)
      else None;
    if d.Some? && d.value < radix then d else None
  }

  /** `char::is_digit`. */
  predicate IsDigit(c: char, radix: nat)
    requires 2 <= radix <= 36
  {
    ToDigit(c, radix).Some?
  }

  // ---------------------------------------------------- is_valid_time_string

  /** The states of the time-string automaton. */
  datatype TimeParserState =
    | HourHigh | HourLow09 | HourLow03 | MinuteColon | MinuteHigh | MinuteLow
    | SecondColon | SecondHigh | SecondLow | MilliStop | MilliHigh | MilliMiddle | MilliLow
    | Done | Error

  /** `next_time_parser_state`: on to `next` when the character fits, otherwise to `Error`. */
  function NextTimeParserState(valid: bool, next: TimeParserState): TimeParserState
  {
    if valid then next else Error
  }

  /** The closure folded over the characters in `is_valid_time_string`. */
  function TimeStep(state: TimeParserState, c: char): TimeParserState
  {
    match state
    case HourHigh => if c == '0' || c == '1' then HourLow09 else if c == '2' then HourLow03 else Error
    case HourLow09 => NextTimeParserState(IsDigit(c, 10), MinuteColon)
    case HourLow03 => NextTimeParserState(IsDigit(c, 4), MinuteColon)
    case MinuteColon => NextTimeParserState(c == ':', MinuteHigh)
    case MinuteHigh => NextTimeParserState(IsDigit(c, 6), MinuteLow)
    case MinuteLow => NextTimeParserState(IsDigit(c, 10), SecondColon)
    case SecondColon => NextTimeParserState(c == ':', SecondHigh)
    case SecondHigh => NextTimeParserState(IsDigit(c, 6), SecondLow)
    case SecondLow => NextTimeParserState(IsDigit(c, 10), MilliStop)
    case MilliStop => NextTimeParserState(c == '.', MilliHigh)
    case MilliHigh => NextTimeParserState(IsDigit(c, 10), MilliMiddle)
    case MilliMiddle => NextTimeParserState(IsDigit(c, 10), MilliLow)
    case MilliLow => NextTimeParserState(IsDigit(c, 10), Done)
    case _ => Error
  }

  /** `Iterator::fold` of `TimeStep` over the characters of `s`, from `state`. */
  function TimeFold(state: TimeParserState, s: string): TimeParserState
    decreases |s|
  {
    if s == [] then state else TimeFold(TimeStep(state, s[0]), s[1..])
  }

  /** The states in which a time string may end. */
  predicate IsAcceptingTimeState(state: TimeParserState)
  {
    state.Done? || state.SecondColon? || state.MilliStop? || state.MilliMiddle? || state.MilliLow?
  }

  /** `is_valid_time_string`. */
  predicate IsValidTimeString(s: string)
  {
    IsAcceptingTimeState(TimeFold(HourHigh, s))
  }

  /** Hours of a valid time string: 00 to 23. */
  predicate IsValidHour(high: char, low: char)
  {
    ((high == '0' || high == '1') && IsAsciiDigit(low)) || (high == '2' && '0' <= low <= '3')
  }

  /**
   * A valid time string of the HTML standard: "hh:mm", then optionally ":ss",
   * itself optionally followed by "." and one to three digits.
   */
  predicate IsTimeSyntax(s: string)
  {
    |s| >= 5 && IsValidHour(s[0], s[1]) && s[2] == ':' && '0' <= s[3] <= '5' && IsAsciiDigit(s[4])
    && (|s| == 5
        || (|s| >= 8 && s[5] == ':' && '0' <= s[6] <= '5' && IsAsciiDigit(s[7])
            && (|s| == 8
                || (10 <= |s| <= 12 && s[8] == '.' && forall i :: 9 <= i < |s| ==> IsAsciiDigit(s[i])))))
  }

  /** Whether character `i` of `s` is one a valid time string may have at position `i`. */
  predicate FitsTimeAt(s: string, i: nat)
    requires i < |s|
  {
    if i == 0 then '0' <= s[0] <= '2'
    else if i == 1 then (if s[0] == '2' then '0' <= s[1] <= '3' else IsAsciiDigit(s[1]))
    else if i == 2 || i == 5 then s[i] == ':'
    else if i == 3 || i == 6 then '0' <= s[i] <= '5'
    else if i == 8 then s[i] == '.'
    else i < 12 && IsAsciiDigit(s[i])
  }

  /** `s` can still be extended to a valid time string. */
  predicate IsTimePrefix(s: string)
  {
    forall i :: 0 <= i < |s| ==> FitsTimeAt(s, i)
  }

  /** The automaton's state after reading a prefix of a valid time string. */
  function TimeStateAfter(s: string): TimeParserState
    requires |s| <= 12
  {
    if |s| == 0 then HourHigh
    else if |s| == 1 then (if s[0] == '2' then HourLow03 else HourLow09)
    else [MinuteColon, MinuteHigh, MinuteLow, SecondColon, SecondHigh, SecondLow,
          MilliStop, MilliHigh, MilliMiddle, MilliLow, Done][|s| - 2]
  }

  /** Folding over `p + [c]` is one more step after folding over `p`. */
  lemma {:induction false} TimeFoldSnoc(state: TimeParserState, p: string, c: char)
    ensures TimeFold(state, p + [c]) == TimeStep(TimeFold(state, p), c)
    decreases |p|
  {
    if p != [] {
      assert (p + [c])[1..] == p[1..] + [c];
      TimeFoldSnoc(TimeStep(state, p[0]), p[1..], c);
    }
  }

  /** A prefix of a time prefix is one. */
  lemma TimePrefixShrinks(s: string, p: string)
    requires |p| <= |s| && p == s[..|p|]
    ensures IsTimePrefix(s) ==> IsTimePrefix(p)
  {
    if IsTimePrefix(s) && |p| > 0 {
      forall i | 0 <= i < |p|
        ensures FitsTimeAt(p, i)
      {
        assert FitsTimeAt(s, i);
      }
    }
  }

  /**
   * The automaton tracks the syntax: on a time prefix it is in the state
   * for that length, and it is in `Error` as soon as a character does not fit.
   */
  lemma {:induction false} TimeFoldTracks(s: string)
    ensures IsTimePrefix(s) ==> |s| <= 12
    ensures TimeFold(HourHigh, s) == if IsTimePrefix(s) then TimeStateAfter(s) else Error
    decreases |s|
  {
    if |s| > 12 && IsTimePrefix(s) {
      assert FitsTimeAt(s, 12);
    }
    if s != [] {
      var p, c := s[..|s| - 1], s[|s| - 1];
      assert s == p + [c];
      TimeFoldSnoc(HourHigh, p, c);
      TimeFoldTracks(p);
      TimePrefixShrinks(s, p);
      if IsTimePrefix(p) {
        assert forall i :: 0 <= i < |p| ==> FitsTimeAt(p, i) == FitsTimeAt(s, i);
        assert IsTimePrefix(s) <==> FitsTimeAt(s, |p|);
        if |p| == 1 {
          assert p[0] == s[0];
        }
      }
    }
  }

  /** `is_valid_time_string` accepts exactly the valid time strings of the HTML standard. */
  lemma IsValidTimeStringIff(s: string)
    ensures IsValidTimeString(s) <==> IsTimeSyntax(s)
  {
    TimeFoldTracks(s);
    if IsTimeSyntax(s) {
      forall i | 0 <= i < |s|
        ensures FitsTimeAt(s, i)
      {
      }
    }
    if IsValidTimeString(s) {
      assert IsTimePrefix(s);
      assert |s| == 5 || |s| == 8 || 10 <= |s| <= 12;
      assert FitsTimeAt(s, 0) && FitsTimeAt(s, 1) && FitsTimeAt(s, 2) && FitsTimeAt(s, 3) && FitsTimeAt(s, 4);
      if |s| >= 8 {
        assert FitsTimeAt(s, 5) && FitsTimeAt(s, 6) && FitsTimeAt(s, 7);
      }
      if |s| >= 10 {
        assert FitsTimeAt(s, 8);
        forall i | 9 <= i < |s|
          ensures IsAsciiDigit(s[i])
        {
          assert FitsTimeAt(s, i);
        }
      }
    }
  }

  // ------------------------------------------- is_valid_simple_color_string

  /** `Iterator::all` over `is_digit(16)`. */
  predicate AllHexDigits(s: string)
    decreases |s|
  {
    s == [] || (IsDigit(s[0], 16) && AllHexDigits(s[1..]))
  }

  /** `is_valid_simple_color_string`: seven bytes, the first character '#', the rest hex digits. */
  predicate IsValidSimpleColorString(s: string)
  {
    if ByteLen(s) == 7 && |s| > 0 && s[0] == '#' then AllHexDigits(s[1..]) else false
  }

  lemma {:induction false} AllHexDigitsIff(s: string)
    ensures AllHexDigits(s) <==> forall i :: 0 <= i < |s| ==> IsHexChar(s[i])
    decreases |s|
  {
    if s != [] {
      AllHexDigitsIff(s[1..]);
      assert forall i :: 1 <= i < |s| ==> s[i] == s[1..][i - 1];
    }
  }

  /** A simple colour is '#' followed by exactly six hexadecimal digits. */
  lemma IsValidSimpleColorStringIff(s: string)
    ensures IsValidSimpleColorString(s) <==>
      |s| == 7 && s[0] == '#' && forall i :: 1 <= i < 7 ==> IsHexChar(s[i])
  {
    if |s| > 0 {
      AllHexDigitsIff(s[1..]);
      if s[0] == '#' && forall i :: 1 <= i < |s| ==> IsHexChar(s[i]) {
        assert forall i :: 0 <= i < |s| ==> (s[i] as int) < 0x80;
        ByteLenAscii(s);
      }
    }
  }

  // ------------------------------------------------------ ByteString::to_lower

  /** 'A' to 'Z'. */
  predicate IsAsciiUpper(b: Byte) { 65 <= b <= 90 }

  /** `u8::to_ascii_lowercase`. */
  function AsciiLower(b: Byte): Byte
  {
    if IsAsciiUpper(b) then b + 32 else b
  }

  /** `ByteString::to_lower`: every ASCII capital letter replaced by its small letter. */
  function ToLower(bs: seq<Byte>): (r: seq<Byte>)
    ensures |r| == |bs|
    ensures forall i :: 0 <= i < |r| ==> !IsAsciiUpper(r[i])
    ensures forall i :: 0 <= i < |r| ==> (r[i] == bs[i] <==> !IsAsciiUpper(bs[i]))
  {
    seq(|bs|, i requires 0 <= i < |bs| => AsciiLower(bs[i]))
  }

  /** Two bytes equal up to ASCII case. */
  predicate SameIgnoringAsciiCase(a: Byte, b: Byte)
  {
    a == b || (IsAsciiUpper(a) && b == a + 32) || (IsAsciiUpper(b) && a == b + 32)
  }

  /** Lower-casing twice changes nothing more. */
  lemma ToLowerIdempotent(bs: seq<Byte>)
    ensures ToLower(ToLower(bs)) == ToLower(bs)
  {
  }

  /** Two byte strings lower-case to the same bytes exactly when they are equal up to ASCII case. */
  lemma ToLowerEqualIff(a: seq<Byte>, b: seq<Byte>)
    ensures ToLower(a) == ToLower(b) <==>
      |a| == |b| && forall i :: 0 <= i < |a| ==> SameIgnoringAsciiCase(a[i], b[i])
  {
    if |a| == |b| && forall i :: 0 <= i < |a| ==> SameIgnoringAsciiCase(a[i], b[i]) {
      assert forall i :: 0 <= i < |a| ==> ToLower(a)[i] == ToLower(b)[i];
    }
    if ToLower(a) == ToLower(b) {
      forall i | 0 <= i < |a|
        ensures SameIgnoringAsciiCase(a[i], b[i])
      {
        assert AsciiLower(a[i]) == AsciiLower(b[i]);
      }
    }
  }

  // --------------------------------------------------------- strip_newlines

  predicate IsNewline(c: char) { c == '\r' || c == '\n' }

  /** `s` with every '\r' and '\n' dropped, the other characters kept in order. */
  function WithoutNewlines(s: string): (r: string)
    ensures |r| <= |s|
    ensures forall i :: 0 <= i < |r| ==> !IsNewline(r[i])
    decreases |s|
  {
    if s == [] then ""
    else (if IsNewline(s[0]) then "" else [s[0]]) + WithoutNewlines(s[1..])
  }

  /** Stripping newlines works piece by piece. */
  lemma {:induction false} WithoutNewlinesConcat(a: string, b: string)
    ensures WithoutNewlines(a + b) == WithoutNewlines(a) + WithoutNewlines(b)
    decreases |a|
  {
    if a != [] {
      assert (a + b)[0] == a[0];
      assert (a + b)[1..] == a[1..] + b;
      WithoutNewlinesConcat(a[1..], b);
      var head := if IsNewline(a[0]) then "" else [a[0]];
      assert WithoutNewlines(a + b) == head + (WithoutNewlines(a[1..]) + WithoutNewlines(b));
    } else {
      assert a + b == b;
    }
  }

  /** A string without newlines is left as it is. */
  lemma {:induction false} WithoutNewlinesKeeps(s: string)
    requires forall i :: 0 <= i < |s| ==> !IsNewline(s[i])
    ensures WithoutNewlines(s) == s
    decreases |s|
  {
    if s != [] {
      WithoutNewlinesKeeps(s[1..]);
    }
  }

  // ------------------------------------ strip_leading_and_trailing_ascii_whitespace

  /** `char::is_ascii_whitespace`: space, tab, line feed, form feed, carriage return. */
  predicate IsAsciiWhitespace(c: char)
  {
    c == ' ' || c == '\t' || c == '\n' || c == '\r' || c as int == 0x0C
  }

  /** The length `trim_end_matches(is_ascii_whitespace)` leaves. */
  function TrimEndLen(s: string): (n: nat)
    ensures n <= |s|
    ensures forall k :: n <= k < |s| ==> IsAsciiWhitespace(s[k])
    ensures n == 0 || !IsAsciiWhitespace(s[n - 1])
    decreases |s|
  {
    if s == [] || !IsAsciiWhitespace(s[|s| - 1]) then |s| else TrimEndLen(s[..|s| - 1])
  }

  /** The index `find(|c| !c.is_ascii_whitespace())` returns, or `|s|` when there is none. */
  function LeadingWhitespaceLen(s: string): (n: nat)
    ensures n <= |s|
    ensures forall k :: 0 <= k < n ==> IsAsciiWhitespace(s[k])
    ensures n == |s| || !IsAsciiWhitespace(s[n])
    decreases |s|
  {
    if s == [] || !IsAsciiWhitespace(s[0]) then 0 else 1 + LeadingWhitespaceLen(s[1..])
  }

  /** The string `strip_leading_and_trailing_ascii_whitespace` leaves: truncated, then its head cut. */
  function Trimmed(s: string): (r: string)
    ensures r == [] || (!IsAsciiWhitespace(r[0]) && !IsAsciiWhitespace(r[|r| - 1]))
  {
    var t := s[..TrimEndLen(s)];
    t[LeadingWhitespaceLen(t)..]
  }

  /**
   * The trimmed string is the part of `s` between its leading and its
   * trailing whitespace: any `s[i..j]` with only ASCII whitespace around it
   * and none at either end (or empty, when `s` is all whitespace) is it.
   */
  lemma TrimmedIsCore(s: string, i: nat, j: nat)
    requires i <= j <= |s|
    requires forall k :: 0 <= k < i ==> IsAsciiWhitespace(s[k])
    requires forall k :: j <= k < |s| ==> IsAsciiWhitespace(s[k])
    requires i < j ==> !IsAsciiWhitespace(s[i]) && !IsAsciiWhitespace(s[j - 1])
    ensures Trimmed(s) == s[i..j]
  {
    var n := TrimEndLen(s);
    if i < j {
      assert n == j;
      var t := s[..n];
      assert forall k :: 0 <= k < i ==> t[k] == s[k];
      assert LeadingWhitespaceLen(t) == i;
    } else {
      assert n == 0;
    }
  }

  /** Trimming a trimmed string changes nothing. */
  lemma TrimmedIdempotent(s: string)
    ensures Trimmed(Trimmed(s)) == Trimmed(s)
  {
    var r := Trimmed(s);
    TrimmedIsCore(r, 0, |r|);
  }

  /** A `DOMString`: a string the script engine edits in place. */
  class DOMString {
    var s: string

    constructor(s: string)
      ensures this.s == s
    {
      this.s := s;
    }

    /** `strip_newlines`: `String::retain` of the characters that are not '\r' or '\n'. */
    method StripNewlines()
      modifies this
      ensures s == WithoutNewlines(old(s))
    {
      var kept := "";
      var i := 0;
      while i < |s|
        invariant 0 <= i <= |s|
        invariant s == old(s)
        invariant kept == WithoutNewlines(s[..i])
      {
        assert s[..i + 1] == s[..i] + [s[i]];
        WithoutNewlinesConcat(s[..i], [s[i]]);
        if !IsNewline(s[i]) {
          kept := kept + [s[i]];
        }
        i := i + 1;
      }
      assert s[..i] == s;
      s := kept;
    }

    /**
     * `strip_leading_and_trailing_ascii_whitespace`: truncate to the length
     * without the trailing whitespace, then remove the range up to the first
     * character that is not whitespace.
     */
    method StripLeadingAndTrailingAsciiWhitespace()
      modifies this
      ensures s == Trimmed(old(s))
    {
      if |s| == 0 {
        return;
      }
      var end := |s|;
      while end > 0 && IsAsciiWhitespace(s[end - 1])
        invariant 0 <= end <= |s|
        invariant forall k :: end <= k < |s| ==> IsAsciiWhitespace(s[k])
        decreases end
      {
        end := end - 1;
      }
      assert end == TrimEndLen(s);
      s := s[..end];
      if |s| == 0 {
        return;
      }
      var first := 0;
      while IsAsciiWhitespace(s[first])
        invariant 0 <= first < |s|
        invariant forall k :: 0 <= k < first ==> IsAsciiWhitespace(s[k])
        decreases |s| - first
      {
        first := first + 1;
      }
      assert first == LeadingWhitespaceLen(s);
      s := s[first..];
    }
  }
}
