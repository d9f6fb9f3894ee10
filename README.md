# servo-ifc text input and DOM string validators, in Dafny

This project models two parts of Servo's information-flow-control fork.

**The text-input editing engine.** This is `TextInput` in components/script/textinput.rs. Its state is:
- a non-empty sequence of labelled lines, with no trailing `'\n'`;
- an edit point (line, byte index);
- an optional selection origin and a selection direction;
- the `multiline` flag and the `maxlength`/`minlength` limits;
- the flag `was_last_change_by_set_content`.

It is modelled twice, once as a value and once as an object:
- **As a value.** Each operation is a function from one `Editor` value to the next, proved to keep the invariant that `assert_ok_selection` checks:
  - the control is shaped (at least one line, and exactly one when single-line);
  - the points are in bounds and on character boundaries;
  - the selection direction agrees with the order of origin and edit point.

  The files are editor_state.dfy, splicing.dfy and movement.dfy.
- **As an object.** The class `TextInputEngine.TextInput` (textinput.dfy) updates its fields in place. Each method is proved to reach exactly the state the value-level function gives. The engine's loops are methods with loop invariants:
  - `len_of_first_n_code_units`;
  - the byte, code-unit and character counts;
  - `text_point_to_offset` and `offset_to_text_point`;
  - the line reversal in `replace_selection`;
  - the fold over the selected slices.

Characters are Unicode scalar values. Each has its UTF-8 byte length (section 3 of RFC 3629) and UTF-16 code-unit length (section 2.1 of RFC 2781). Byte offsets are `nat` and must fall on character boundaries; the source's slicing panics otherwise.

Labels are sets of tags. Secrecy joins by union and integrity by intersection. Label bookkeeping follows the code:
- `get_content` labels the joined text with the first line's labels only;
- `fold_selection_slices` passes the lines between the selection's first and last lines under the first line's labels.

**The string validators of components/script/dom/bindings/str.rs.** These are module `DomStr` (domstr.dfy) and module `DomDates` (dates.dfy):
- `is_token` (section 2.2 of RFC 2616);
- the 15-state time-string automaton;
- the month and date component parsers, with Rust's `str::parse` for `i32`/`u32` written out;
- `max_day_in_month` and `is_leap_year`, with Rust's truncating `%`;
- the simple-colour check and `ByteString::to_lower`;
- `DOMString`'s two in-place methods, `strip_newlines` and `strip_leading_and_trailing_ascii_whitespace`, as a small class.

The token, time and colour validators are proved equal to an independent reference definition of the syntax they accept. The month and date parsers are modelled twice. As written, each field goes to Rust's `str::parse`, which also accepts a leading '+' (see "Findings"). Corrected, each field is ASCII digits only, and the corrected parsers are the ones proved equal to the reference definition. The reference definitions come from the HTML Living Standard: times in section 2.3.5.4, months in section 2.3.5.1, dates in section 2.3.5.2, and simple colours in section 2.3.6.

## Model

| member | source | states |
|---|---|---|
| Unicode.Utf8Len | components/script/textinput.rs:107-116 | a character takes 1 to 4 UTF-8 bytes, and 1 exactly when it is ASCII |
| Unicode.ByteLenConcat | components/script/textinput.rs:1441-1452 | byte length adds up over concatenation |
| Unicode.CodeUnitsConcat | components/script/textinput.rs:1455-1468 | UTF-16 length adds up over concatenation |
| Unicode.CharsBefore | components/script/textinput.rs:300-317 | a boundary byte offset is the byte length of exactly the characters before it |
| Unicode.SliceTo | components/script/textinput.rs:547-567 | `&s[..b]` on a boundary is a prefix of `s` with `b` bytes |
| Unicode.SliceFrom | components/script/textinput.rs:547-567 | `&s[b..]` on a boundary has the remaining bytes |
| Unicode.LenOfFirstNChars | components/script/textinput.rs:300-317 | the byte length of the first `n` characters (all of them when fewer), and it lands on the boundary after them |
| Unicode.FitCount | components/script/textinput.rs:320-353 | the longest prefix whose UTF-16 length is within `n`: the next character would exceed it |
| Unicode.FitCountUnique | components/script/textinput.rs:320-353 | that prefix is the only one with this property |
| Unicode.LenOfFirstNCodeUnits | components/script/textinput.rs:320-353 | the loop returns the byte length of that prefix, on a character boundary |
| Unicode.SaturatingSub | components/script/textinput.rs:135-153 | `a - b` when `a > b`, otherwise 0; never more than `a` |
| Unicode.NextBoundary | components/script/textinput.rs:878-921 | the byte offset after the next character is a boundary, and the slices move that character across |
| Unicode.PrevBoundary | components/script/textinput.rs:878-921 | likewise for the character before a boundary |
| LineText.JoinSplit | components/script/textinput.rs:1517-1547 | joining the pieces of a split with '\n' gives the text with every separator turned into '\n' |
| LineText.Split | components/script/textinput.rs:1517-1547 | a split yields at least one piece, and no piece holds a separator |
| LineText.CrLfThenSplitNormalizes | components/script/textinput.rs:1518-1522 | replacing "\r\n" by '\n' and then splitting on '\n' or '\r' is the newline normalisation (every CR LF pair and lone CR become LF) |
| LineText.JoinMeasures | components/script/textinput.rs:1441-1479 | the joined text has one byte, one code unit and one character fewer than the lines' lengths plus one each |
| TextPoints.LenUtf8 | components/script/textinput.rs:1441-1452 | `len_utf8` is the byte length of the joined content |
| TextPoints.Utf16Len | components/script/textinput.rs:1455-1468 | `utf16_len` is the UTF-16 length of the joined content |
| TextPoints.CharCount | components/script/textinput.rs:1471-1479 | `char_count` is the number of characters of the joined content |
| TextPoints.OffsetIsBytesBefore | components/script/textinput.rs:1550-1562 | the offset of a point is the byte length of the content before it |
| TextPoints.OffsetOrder | components/script/textinput.rs:1550-1562 | offsets order in-bounds points exactly as `TextPoint`'s derived ordering does, both directions |
| TextPoints.OffsetInjective | components/script/textinput.rs:1550-1562 | distinct in-bounds points have distinct offsets |
| TextPoints.PointAtOffset | components/script/textinput.rs:1565-1590 | the point found for an offset has that offset, and it is in bounds exactly when the offset is within the content |
| TextPoints.PointAtOffsetInverse | components/script/textinput.rs:1565-1590 | `offset_to_text_point` inverts `text_point_to_offset` on in-bounds points |
| TextPoints.SelectionAround | components/script/textinput.rs:596-646 | the content is the text before `s`, the text selected between `s` and `t`, and the text after `t` |
| TextPoints.StepBack | components/script/textinput.rs:878-921 | stepping back over one character (or line break) moves it from the text before the point to the text after, and the offset drops by its byte length |
| TextPoints.StepForward | components/script/textinput.rs:878-921 | stepping forward moves the next character (or line break) to the text before the point, and the offset grows by its byte length |
| EditorState.SelectionStart | components/script/textinput.rs:453-460 | the start is either the edit point or the selection origin |
| EditorState.SelectionEnd | components/script/textinput.rs:469-474 | the end is either the edit point or the selection origin |
| EditorState.SelectionBoundsOrdered | components/script/textinput.rs:489-491 | under the invariant, the selection start is at or before its end whatever the direction, and the two are the origin and the edit point |
| EditorState.ClearSelectionOn | components/script/textinput.rs:1035-1038 | no origin and no direction; the lines and the edit point are kept |
| EditorState.UpdateSelectionDirection | components/script/textinput.rs:950-959 | backward exactly when the edit point is before the origin; the result is ordered |
| EditorState.ConstrainTo | components/script/textinput.rs:209-219 | corrected (Findings row 1): the clamped point is in bounds, an in-bounds point is unchanged, and the line is clamped to the last line; a point past the last line goes to that line's end |
| EditorState.ConstrainToMonotone | components/script/textinput.rs:209-219 | clamping keeps the order of two points, so a clamped selection stays ordered |
| EditorState.ContentLines | components/script/textinput.rs:1517-1535 | at least one line, exactly one when single-line, each with the content's labels |
| EditorState.SetThenGetContent | components/script/textinput.rs:1482-1547 | reading the content back after `set_content` gives the newline-normalised input when multiline, and the input itself otherwise |
| EditorState.SetContentValid | components/script/textinput.rs:1517-1547 | corrected (Findings row 1): `set_content` keeps the invariant and records that the change came from it |
| EditorState.IsEmpty | components/script/textinput.rs:1431-1438 | `is_empty` holds exactly when the content is the empty string |
| EditorState.SelectionSplitsText | components/script/textinput.rs:547-567 | the content is the text before the selection start, the selected text and the text after the selection end |
| EditorState.SelectAllSelectsEverything | components/script/textinput.rs:1018-1032 | after `select_all` the state is valid and the selected text is the whole content |
| EditorState.SetSelectionRangeSpans | components/script/textinput.rs:1592-1621 | the selection runs from offset min(start, end, length) to min(end, length) in the requested direction, and the state is valid |
| EditorState.AnchorSelection | components/script/textinput.rs:441-444 | a missing origin is set to the edit point; nothing else changes |
| Splicing.Inserted | components/script/textinput.rs:653-668 | the inserted text is the longest prefix of whole characters within the UTF-16 allowance |
| Splicing.Fragments | components/script/textinput.rs:682-699 | the inserted text split on '\n' when multiline, whole otherwise; joined back it is the inserted text |
| Splicing.SpliceLines | components/script/textinput.rs:721-771 | the rebuilt lines glue the prefix, fragments and suffix; the first line joins the start line's labels and the last line the end line's |
| Splicing.ReplaceSelectionSplices | components/script/textinput.rs:648-777 | after `replace_selection` the content is the text before the old selection, the inserted text and the text after it, and the edit point sits right after the inserted text |
| Splicing.ReplaceSelectionLabels | components/script/textinput.rs:721-771 | every rebuilt line carries at least the inserted secrecy and at most its integrity; the first and last also join the start and end lines' labels; the other lines are kept |
| Splicing.ReplaceSelectionRespectsMaxLength | components/script/textinput.rs:653-668 | the UTF-16 length changes by the inserted length minus the selection's; it stays within maxlength when the rest of the content did, and nothing is inserted when the rest already exceeds it |
| Splicing.ReplaceSelectionValid | components/script/textinput.rs:648-777 | `replace_selection` keeps the invariant, clears the selection, and is a no-op without a selection |
| Splicing.InsertSecretStringSplices | components/script/textinput.rs:424-450 | inserting at a bare edit point puts the text right before it; in general the content becomes before-selection, inserted text, after-selection |
| Splicing.HandleReturnBreaksLine | components/script/textinput.rs:1008-1015 | single-line: nothing changes and the default action is triggered; multiline: input is dispatched, the invariant holds, and the selection is replaced by '\n' when maxlength leaves room for one code unit, by nothing otherwise |
| Movement.AdjustSelectionForHorizontalChange | components/script/textinput.rs:924-947 | a non-selecting move with a selection is cancelled and collapses to the start (backward) or end (forward); otherwise the origin is anchored or dropped |
| Movement.AdjustVerticalOn | components/script/textinput.rs:791-858 | only the edit point, origin and direction change, and the edit point stays in bounds; a move inside the lines lands on the target line |
| Movement.AdjustVerticalMoves | components/script/textinput.rs:791-858 | no-op when single-line; above the first line to (0,0); below the last to the end; otherwise the column in characters is kept, capped by the target line; the invariant holds |
| Movement.CrossLineIsVerticalStep | components/script/textinput.rs:962-1005 | the corrected line crossing is the engine's `adjust_vertical` by one line and the move to that line's end or start, with the origin kept |
| Movement.PerformHorizontalAdjustmentMoves | components/script/textinput.rs:962-1005 | a horizontal move of `adjust` bytes lands on the point at the target offset (each line break counting one byte), clamped to the content; the direction is then updated |
| Movement.AdjustHorizontalByOneMoves | components/script/textinput.rs:878-921 | one step moves the edit point to the neighbouring character or line break, with the origin anchored or dropped; the invariant holds. Over a line break this is the corrected crossing, which keeps the origin (Findings row 2) |
| Movement.CancelledMoveCollapses | components/script/textinput.rs:878-947 | a non-selecting step with a selection collapses it to its start or end |
| Movement.AdjustHorizontalToLineEndMoves | components/script/textinput.rs:1174-1198 | the edit point goes to the start or end of its line; the invariant holds |
| Movement.AdjustHorizontalToLimitMoves | components/script/textinput.rs:1200-1221 | the edit point goes to (0,0) or to the end of the content; the invariant holds |
| Movement.RemoveSelection | components/script/textinput.rs:648-777 | replacing a selection by the empty string removes exactly the selected text and keeps the invariant |
| Movement.DeleteCharRemoves | components/script/textinput.rs:413-421 | corrected (Findings row 2): `delete_char` keeps the invariant and removes the selection when there is one; otherwise it drops the last character (or line break) before the edit point going backwards and the first one after it going forwards, and at the start or end of the content the text is unchanged |
| Findings.ConstrainToAsWritten | components/script/textinput.rs:209-219 | `constrain_to` as written agrees with the corrected clamp on points within the lines |
| Findings.SetContentAsWrittenInvertsSelection | components/script/textinput.rs:209-219 | a valid state that `set_content` as written turns into a forward selection running backwards |
| Findings.HorizontalCrossingMovesOrigin | components/script/textinput.rs:962-1005 | Shift+Left across a line start, as written, selects the previous line instead of the line break |
| Findings.AdjustHorizontalToLimitAsWritten | components/script/textinput.rs:1200-1221 | as written, it agrees with the corrected move when not selecting |
| Findings.ToLimitAsWrittenInvertsSelection | components/script/textinput.rs:1200-1221 | Shift+Cmd+ArrowUp on macOS (`adjust_horizontal_to_limit(Backward, Selected)`) as written leaves an undirected selection whose start is after its end |
| Findings.SetContentAsWrittenMovesCaret | components/script/textinput.rs:209-219 | with no selection and the caret on the line that goes away, `set_content` as written puts it at (0,0), the corrected one at (0,3) |
| Findings.CrossLineAsWritten | components/script/textinput.rs:970-989 | the engine's step over a line break lands at the adjacent line's near end and keeps both points in bounds and on boundaries |
| Findings.ByOneAsWritten | components/script/textinput.rs:878-921 | as written, a selecting one-character step leaves a valid selection on boundaries; it is the corrected step unless it crosses a line break, and then it ends at the adjacent line's near end |
| Findings.DeleteCharAsWritten | components/script/textinput.rs:413-421 | `delete_char` as written keeps the invariant, and agrees with the corrected one unless its step crosses a line break |
| Findings.BackspaceAtLineStartAsWritten | components/script/textinput.rs:1333-1335 | Backspace at the start of the second line of "ab\ncd": as written "\ncd" is left, corrected "abcd" |
| TextInputEngine.TextInput.constructor | components/script/textinput.rs:357-379 | a new control holds `set_content` of the initial value under empty labels, with the edit point at the start and no selection |
| TextInputEngine.TextInput.SetContent | components/script/textinput.rs:1517-1547 | the fields become those of the corrected value-level `set_content` (Findings row 1), which also moves a caret on a removed line to the end of the last line: shaped and in bounds, and valid when the old selection was ordered |
| TextInputEngine.TextInput.GetContent | components/script/textinput.rs:1482-1507 | the lines joined with '\n', labelled with the first line's labels (empty labels when there are no lines) |
| TextInputEngine.TextInput.LenUtf8 | components/script/textinput.rs:1441-1452 | the loop computes the content's byte length |
| TextInputEngine.TextInput.Utf16Len | components/script/textinput.rs:1455-1468 | the loop computes the content's UTF-16 length |
| TextInputEngine.TextInput.CharCount | components/script/textinput.rs:1471-1479 | the loop computes the content's character count |
| TextInputEngine.TextInput.TextPointToOffset | components/script/textinput.rs:1550-1562 | the loop computes the point's offset: the earlier lines' bytes plus one per break, plus the index |
| TextInputEngine.TextInput.OffsetToTextPoint | components/script/textinput.rs:1565-1590 | the fold finds the point at the offset |
| TextInputEngine.TextInput.SelectionSlices | components/script/textinput.rs:596-646 | the slices concatenate to the selected text, and their secrecy is the start line's, joined with the end line's when they differ |
| TextInputEngine.TextInput.SpanningSlices | components/script/textinput.rs:612-645 | over several lines: the start line's rest, then '\n' and each middle line under the start line's labels, then '\n' and the end line's start |
| TextInputEngine.PushSlices | components/script/textinput.rs:548-558 | pushing the slices onto an empty public string gives their concatenation, with the union of their secrecy and empty integrity |
| TextInputEngine.SumCodeUnits | components/script/textinput.rs:570-588 | summing the slices' UTF-16 lengths gives the UTF-16 length of their concatenation |
| TextInputEngine.TextInput.GetSelectionText | components/script/textinput.rs:547-567 | `None` exactly when the selected text is empty, otherwise the selected text with the selection's secrecy |
| TextInputEngine.TextInput.SelectionUtf16Len | components/script/textinput.rs:570-593 | the UTF-16 length of the selected text |
| TextInputEngine.TextInput.ClearSelection | components/script/textinput.rs:1035-1038 | the fields become those of the value-level clear: no origin, no direction, the lines and the edit point kept |
| TextInputEngine.TextInput.UpdateSelectionDirection | components/script/textinput.rs:950-959 | the fields become those of the value-level update: backward exactly when the edit point is before the origin, which leaves the selection ordered |
| TextInputEngine.TextInput.SelectAll | components/script/textinput.rs:1018-1032 | the fields become those of the value-level `select_all`; the state is valid and the selected text is the whole content |
| TextInputEngine.TextInput.SetSelectionRange | components/script/textinput.rs:1592-1621 | the fields become those of the value-level `set_selection_range`, computed through `get_content` and `offset_to_text_point`; its span is stated by `EditorState.SetSelectionRangeSpans` |
| TextInputEngine.TextInput.ReplaceSelection | components/script/textinput.rs:648-777 | the fields become those of the value-level `replace_selection` (its text, labels and length bound are stated by the `Splicing` lemmas); a valid state stays valid |
| TextInputEngine.TextInput.AllowedToInsertCount | components/script/textinput.rs:653-660 | the UTF-16 allowance: maxlength less the content outside the selection, saturating; `usize::MAX` without maxlength |
| TextInputEngine.TextInput.InsertedPart | components/script/textinput.rs:661-668 | the inserted text cut by `len_of_first_n_code_units` is the longest prefix within the allowance |
| TextInputEngine.TextInput.BuildNewLines | components/script/textinput.rs:676-772 | the loop builds the lines and the edit point of the value-level splice, whose text and labels the `Splicing` lemmas state |
| TextInputEngine.PopPushAll | components/script/textinput.rs:701-717 | popping each line off the back and inserting it at the front keeps the lines in their order |
| TextInputEngine.TextInput.InsertSecretString | components/script/textinput.rs:441-450 | the fields become those of the value-level `insert_secret_string`; a valid state stays valid |
| TextInputEngine.TextInput.InsertString | components/script/textinput.rs:429-438 | the fields become those of the value-level `insert_string`, with public labels; a valid state stays valid |
| TextInputEngine.TextInput.InsertChar | components/script/textinput.rs:424-426 | the fields become those of the value-level `insert_char`; a valid state stays valid |
| TextInputEngine.TextInput.HandleReturn | components/script/textinput.rs:1008-1015 | the fields and the reaction are those of the value-level `handle_return`, whose effect `Splicing.HandleReturnBreaksLine` states |
| TextInputEngine.TextInput.DeleteChar | components/script/textinput.rs:413-421 | the fields become those of the corrected value-level `delete_char` (Findings row 2), whose effect `Movement.DeleteCharRemoves` states; a valid state stays valid |
| TextInputEngine.TextInput.AdjustVertical | components/script/textinput.rs:791-858 | the fields become those of the value-level `adjust_vertical`, whose moves `Movement.AdjustVerticalMoves` states |
| TextInputEngine.TextInput.AdjustSelectionForHorizontalChange | components/script/textinput.rs:924-947 | the fields and the cancel flag are those of the value-level function: cancelled exactly when not selecting with a selection, which collapses it |
| TextInputEngine.TextInput.AdjustHorizontal | components/script/textinput.rs:863-875 | the fields become those of the value-level `adjust_horizontal`, with the corrected line crossing (Findings row 2) |
| TextInputEngine.TextInput.PerformHorizontalAdjustment | components/script/textinput.rs:962-1005 | the fields become those of the corrected `perform_horizontal_adjustment`, whose target `Movement.PerformHorizontalAdjustmentMoves` states |
| TextInputEngine.TextInput.CrossLine | components/script/textinput.rs:970-989 | the fields become those of the corrected line crossing; the edit point stays on a character boundary |
| TextInputEngine.TextInput.AdjustHorizontalByOne | components/script/textinput.rs:878-921 | the fields become those of the value-level `adjust_horizontal_by_one` with the corrected line crossing (Findings row 2), whose step `Movement.AdjustHorizontalByOneMoves` states |
| TextInputEngine.TextInput.AdjustHorizontalToLineEnd | components/script/textinput.rs:1174-1198 | the fields become those of the value-level `adjust_horizontal_to_line_end`, stated by `Movement.AdjustHorizontalToLineEndMoves` |
| TextInputEngine.TextInput.AdjustHorizontalToLimit | components/script/textinput.rs:1200-1221 | the fields become those of the corrected `adjust_horizontal_to_limit`, stated by `Movement.AdjustHorizontalToLimitMoves` |
| TextInputEngine.TextInput.ClearSelectionToLimit | components/script/textinput.rs:1041-1044 | the fields become those of the value-level `clear_selection_to_limit`: `Movement.AdjustHorizontalToLimitMoves` on the cleared state |
| DomStr.IsToken | components/script/dom/bindings/str.rs:153-167 | a token is never empty |
| DomStr.TokenByteIsRfcTokenChar | components/script/dom/bindings/str.rs:153-167 | a byte is accepted exactly when it is an ASCII character that is neither a control nor an RFC 2616 separator |
| DomStr.IsTokenIff | components/script/dom/bindings/str.rs:153-167 | `is_token` holds exactly for non-empty byte strings of RFC 2616 token characters |
| DomStr.ToDigit | components/script/dom/bindings/str.rs:343-364 | `char::to_digit`: defined exactly for the digits of the radix, with a value below it; hex digits for radix 16 |
| DomStr.TimeFoldTracks | components/script/dom/bindings/str.rs:211-380 | after any input the automaton is in the state that the longest matching prefix of the time syntax predicts, or in `Error` |
| DomStr.IsValidTimeStringIff | components/script/dom/bindings/str.rs:334-380 | accepted exactly: hours `[01][0-9]` or `2[0-3]`, ':', minutes `[0-5][0-9]`, optionally ':' seconds `[0-5][0-9]`, optionally '.' and 1 to 3 digits |
| DomStr.IsValidSimpleColorStringIff | components/script/dom/bindings/str.rs:619-629 | accepted exactly: '#' followed by six hex digits |
| DomStr.ToLower | components/script/dom/bindings/str.rs:61-63 | the same length, no ASCII upper-case byte left, and a byte is kept exactly when it is not upper-case |
| DomStr.ToLowerIdempotent | components/script/dom/bindings/str.rs:61-63 | lowering twice is lowering once |
| DomStr.ToLowerEqualIff | components/script/dom/bindings/str.rs:61-63 | two byte strings lower to the same bytes exactly when they are equal ignoring ASCII case |
| DomStr.WithoutNewlines | components/script/dom/bindings/str.rs:307-309 | no '\r' or '\n' is left, and the result is no longer than the input |
| DomStr.WithoutNewlinesConcat | components/script/dom/bindings/str.rs:307-309 | removing newlines distributes over concatenation |
| DomStr.WithoutNewlinesKeeps | components/script/dom/bindings/str.rs:307-309 | a string without newlines is kept as it is |
| DomStr.Trimmed | components/script/dom/bindings/str.rs:314-329 | the result is empty or starts and ends with non-whitespace |
| DomStr.TrimmedIsCore | components/script/dom/bindings/str.rs:314-329 | any substring with only whitespace around it and non-whitespace at both ends is the trimmed string (it is the maximal one) |
| DomStr.TrimmedIdempotent | components/script/dom/bindings/str.rs:314-329 | trimming twice is trimming once |
| DomStr.DOMString.StripNewlines | components/script/dom/bindings/str.rs:307-309 | the loop leaves the string without its newlines |
| DomStr.DOMString.StripLeadingAndTrailingAsciiWhitespace | components/script/dom/bindings/str.rs:314-329 | the two loops leave the trimmed string |
| DomDates.ParseInt | components/script/dom/bindings/str.rs:767-774 | `str::parse::<i32>`/`<u32>`: a result is in the type's range; ASCII digits, optionally after '+' (or '-' for `i32`), read as their value, or fail when that overflows; '-' for `u32`, a bare sign and anything else fail |
| DomDates.ParseIntDecimal | components/script/dom/bindings/str.rs:767-774 | the decimal form of a number in range parses back to it |
| DomDates.IsLeapYearGregorian | components/script/dom/bindings/str.rs:886-888 | with Rust's remainder, `is_leap_year` is the Gregorian rule for every year, negative ones included |
| DomDates.LeapYearsRepeat | components/script/dom/bindings/str.rs:886-888 | the leap-year pattern repeats every 400 years |
| DomDates.MaxDayInMonth | components/script/dom/bindings/str.rs:859-872 | defined exactly for months 1 to 12, between 28 and 31 days, and February has 29 days exactly in leap years |
| DomDates.YearLength | components/script/dom/bindings/str.rs:859-888 | the twelve months make 366 days in a leap year and 365 otherwise |
| DomDates.SplitDashRejoins | components/script/dom/bindings/str.rs:762-765 | the pieces of a split on '-' joined with '-' give the input back |
| DomDates.ParseMonthComponentAsWritten | components/script/dom/bindings/str.rs:760-780 | as written: the first '-' piece has at least four bytes and the second exactly two, and `str::parse` reads them as the year (non-zero, within `i32`) and the month (1 to 12); wherever the digits-only parser accepts, it gives the same result |
| DomDates.ParseMonthComponentIff | components/script/dom/bindings/str.rs:760-780 | the corrected parser accepts exactly when the first two '-' pieces are a year of at least four digits (non-zero, within `i32`) and a two-digit month 1 to 12, and returns their values |
| DomDates.ParseDateComponentAsWritten | components/script/dom/bindings/str.rs:784-803 | as written: an accepted date has an accepted month component, and its third '-' piece has exactly two bytes that `str::parse` reads as a day from 1 to that month's last day; wherever the digits-only parser accepts, it gives the same result |
| DomDates.ParseDateComponentIff | components/script/dom/bindings/str.rs:784-803 | the corrected parser accepts exactly when the first three '-' pieces are such a year and month and a two-digit day from 1 to the month's last day, and returns their values |
| DomDates.ParseMonthStringSound | components/script/dom/bindings/str.rs:434-444 | corrected (Findings row 4): an accepted month string is year '-' month with valid fields, and the result is their value |
| DomDates.ParseMonthStringComplete | components/script/dom/bindings/str.rs:434-444 | corrected (Findings row 4): every year '-' month with valid fields is accepted |
| DomDates.IsValidMonthStringIff | components/script/dom/bindings/str.rs:425-430 | corrected (Findings row 4): valid exactly when the string is year '-' month with valid fields (no third field) |
| DomDates.ParseDateStringSound | components/script/dom/bindings/str.rs:395-405 | corrected (Findings row 4): an accepted date string is year '-' month '-' day with valid fields, and the result is their value |
| DomDates.ParseDateStringComplete | components/script/dom/bindings/str.rs:395-405 | corrected (Findings row 4): every year '-' month '-' day with valid fields is accepted |
| DomDates.IsValidDateStringIff | components/script/dom/bindings/str.rs:386-391 | corrected (Findings row 4): valid exactly when the string is year '-' month '-' day with valid fields (no fourth field) |
| DomDates.MonthStringRoundTrip | components/script/dom/bindings/str.rs:434-444 | a year from 1000 up and a month written in decimal, two-digit month, parse back to themselves |
| DomDates.DateStringRoundTrip | components/script/dom/bindings/str.rs:395-405 | likewise for a year, month and valid day |
| DomDates.MonthFieldSignAccepted | components/script/dom/bindings/str.rs:773-774 | as written "2000-+1" is January 2000; the corrected parser rejects it |
| DomDates.DayFieldSignAccepted | components/script/dom/bindings/str.rs:789-791 | as written "2000-01-+5" is 5 January 2000; the corrected parser rejects it |
| DomDates.ParseMonthStringAsWritten | components/script/dom/bindings/str.rs:434-444 | as written: an accepted month string has exactly two '-' pieces and the component's value; wherever the corrected parser accepts, it gives the same result |
| DomDates.ParseDateStringAsWritten | components/script/dom/bindings/str.rs:395-405 | as written: an accepted date string has exactly three '-' pieces and the component's value; wherever the corrected parser accepts, it gives the same result |
| DomDates.YearFieldSignAccepted | components/script/dom/bindings/str.rs:760-780 | as written "+999-01" is January of year 999, the sign counting towards the year's four bytes; the corrected parser rejects it |
| DomDates.StringSignsAccepted | components/script/dom/bindings/str.rs:386-444 | as written "2000-+1" is a valid month string and "2000-01-+5" a valid date string (5 January 2000); the corrected validators reject both |

## Left out

- `adjust_horizontal_by_word`, `handle_keydown`, `handle_keydown_aux` and `handle_compositionend`: word segmentation and shortcut matching live in crates that are not part of this model, and so do clipboard and composition events.
- `set_edit_point_index`: it counts grapheme clusters, whose segmentation is not part of this model.
- Grapheme clusters are approximated by code points in `adjust_horizontal_by_one`. Its forward step takes the next character after the edit point.
- `single_line_content`, `current_line_length`, `selection_state`, the offset forms of the selection bounds, and the getters and setters: they only read or copy fields.
- `assert_ok_selection`: it is a debug-build check. Its condition is the `Valid` invariant, which the model proves instead of checking.
- Integer widths: `usize` and `u32` counts are unbounded `nat`s. Without maxlength the allowance is the constant `usize::MAX`. Overflow of the counts is not modelled.
- The information-flow macros, declassification blocks and label types: labels are only the tag sets they compute, and a declassified read is a plain read.
- The validators are module-level functions on strings, not `&self` methods of `DOMString`. The class `DomStr.DOMString` holds only the two methods that change the string.
- `DomStr.DOMString.StripLeadingAndTrailingAsciiWhitespace` works on character indices where the source uses byte offsets. The two agree because every removed character is ASCII.
- `parse_time_component`, `parse_time_string`, the floating-point number functions, week strings, local date-time strings and `is_valid_email_address_string`: they rely on `f64`, `format!`, chrono or a regex.
- components/script/dom/keyboardevent.rs, components/keyboard_wrapper/lib.rs and tests/html/ifc-test-server.py: DOM plumbing, a marker trait and a test server are not part of this model.

## Findings

| source | as written | input that shows it | evidently intended | confidence | as-written member | corrected member |
|---|---|---|---|---|---|---|
| components/script/textinput.rs:209-219 | `constrain_to` clamps a point past the last line to that line but keeps its index (capped by the line's length), so `set_content` can leave the edit point before the origin of a forward selection | lines "abc" and "d", forward selection from (0,3) to (1,0), then `set_content("abc")`: the edit point becomes (0,0) and the origin stays (0,3); with nothing selected and the caret at (1,0), the caret goes to (0,0) | a point past the last line goes to the end of the last line, so clamping keeps the selection ordered; this also puts an unselected caret at (0,3) rather than (0,0) | not executed | Findings.ConstrainToAsWritten, Findings.SetContentAsWrittenInvertsSelection, Findings.SetContentAsWrittenMovesCaret | EditorState.ConstrainTo, EditorState.ConstrainToMonotone, EditorState.SetContentValid, TextInputEngine.TextInput.SetContent |
| components/script/textinput.rs:962-1005, 413-421 | a selecting horizontal move that crosses a line break calls `adjust_vertical`, whose origin collapse moves the selection origin | "ab\ncd" with the edit point at (1,0), Shift+Left: the selection becomes (0,0) to (0,2), forward, instead of the line break; Backspace there with nothing selected (`delete_char` selects by the same step) leaves "\ncd" instead of "abcd" | the origin stays where the selection began, so the line break is selected backwards and Backspace joins the lines | not executed | Findings.PerformHorizontalAdjustmentAsWritten, Findings.HorizontalCrossingMovesOrigin, Findings.DeleteCharAsWritten, Findings.BackspaceAtLineStartAsWritten | Movement.CrossLineOn, Movement.CrossLineIsVerticalStep, Movement.PerformHorizontalAdjustmentMoves, Movement.AdjustHorizontalByOneMoves, Movement.DeleteCharRemoves, TextInputEngine.TextInput.AdjustHorizontal, TextInputEngine.TextInput.AdjustHorizontalByOne, TextInputEngine.TextInput.DeleteChar |
| components/script/textinput.rs:1200-1221 | `adjust_horizontal_to_limit` moves the edit point but never updates the selection direction | "ab" with the edit point at (0,2) and no selection, Shift+Cmd+ArrowUp on macOS, i.e. `adjust_horizontal_to_limit(Backward, Selected)`: the origin is (0,2), the edit point (0,0), and the direction stays undirected (read as forward) | the direction is updated after the move, as in the other horizontal moves | not executed | Findings.AdjustHorizontalToLimitAsWritten, Findings.ToLimitAsWrittenInvertsSelection | Movement.AdjustHorizontalToLimitMoves |
| components/script/dom/bindings/str.rs:767-774, 789-791 | the year, month and day fields go straight to `str::parse`, which accepts a leading '+', so a sign passes the length check and counts towards the year's four bytes | "2000-+1" is accepted as January 2000, "2000-01-+5" as 5 January 2000, and "+999-01" as January of year 999 | each field is ASCII digits only (section 2.3.5.1 of the HTML Living Standard) | not executed | DomDates.ParseMonthComponentAsWritten, DomDates.ParseDateComponentAsWritten, DomDates.ParseMonthStringAsWritten, DomDates.ParseDateStringAsWritten, DomDates.MonthFieldSignAccepted, DomDates.DayFieldSignAccepted, DomDates.YearFieldSignAccepted, DomDates.StringSignsAccepted | DomDates.ParseMonthComponent, DomDates.ParseMonthComponentIff, DomDates.ParseDateComponentIff, DomDates.ParseMonthStringSound, DomDates.ParseDateStringSound, DomDates.IsValidMonthStringIff, DomDates.IsValidDateStringIff |
