# TabSanity in Dafny

A model of the `TabSanity` class of the VS Code extension *TabSanity*. The
class makes space-indented text behave as if each indentation level were a
single character. Moving the caret left or right inside leading spaces jumps
to the next tab stop (a multiple of the editor's `tabSize`). Backspace and
delete remove a whole indentation level. Home toggles between the first
non-whitespace column and column 0.

The model works on an immutable document snapshot: a non-empty `seq<string>`
of lines, a list of selections and the editor's `tabSize` option. The option
`'auto'` reads as 4 (`TextModel.TabSizeOf`).

Files and modules:

- `js_arithmetic.dfy` (`JsArithmetic`) defines JavaScript's truncating `%`.
  Dafny's `%` is Euclidean, and the snap arithmetic applies `%` to negative
  operands. It also has uniqueness facts about Dafny's division.
- `text_model.dfy` (`TextModel`) holds positions, ranges and selections with
  the host's ordering. It also has the host services the class reads:
  - `firstNonWhitespaceCharacterIndex`;
  - the clamping `getText`;
  - `peekLeft`/`peekRight`;
  - the `^ +$` test.
- `tab_stops.dfy` (`TabStops`) holds the two calculators
  `findNextLeftPosition`/`findNextRightPosition` exactly as written, with
  their helper predicates, `findPreviousTabStop`/`findNextTabStop`, and what
  they are proved to compute.
- `findings.dfy` (`Findings`) holds the two places where the tab-stop
  arithmetic misses the stop it aims for, the corrected calculators, and
  lemmas that both show each discrepancy and pin down where the two versions
  agree.
- `commands.dfy` (`Commands`) holds the commands, first per selection as
  functions. Then comes the class `TabSanity`, whose `selections` field the
  cursor commands replace through `AssignSelections`. Its `DeleteLeft` and
  `DeleteRight` loops collect the range each selection deletes. The commands
  step with the calculators exactly as the source writes them.
- `fixture.dfy` (`Fixture`) holds the test suite's expected caret stops,
  proved for repeated commands on a fixture text.

## Model

| member | source | states |
|---|---|---|
| JsArithmetic.JsRem | src/TabSanity.ts:93 | JavaScript `%` for a positive divisor: the result has the dividend's sign, its magnitude is below the divisor, and it is congruent to the dividend |
| JsArithmetic.JsRemOfNonNegative | src/TabSanity.ts:68 | on a non-negative column, as in `extraSpaces`, JavaScript's remainder is Dafny's |
| JsArithmetic.JsRemDiffersOnNegative | src/TabSanity.ts:209 | counterexample: on a negative dividend the two remainders differ (-2 vs 2 modulo 4) |
| TextModel.RangeBetween | src/TabSanity.ts:242 | `new Range(a, b)` holds the two positions, ordered start before end |
| TextModel.Selection.Start | src/TabSanity.ts:30-32 | a selection's start is its anchor or active end, whichever is not after the other |
| TextModel.Selection.End | src/TabSanity.ts:149-151 | a selection's end is its anchor or active end, whichever is not before the other |
| TextModel.Selection.AsRange | src/TabSanity.ts:236-237 | a selection as a range runs from the selection's start to its end, is ordered, and is empty exactly when the selection is |
| TextModel.FirstNonWhitespace | test/Mocks.ts:338-345 | the first non-whitespace offset: every earlier character is a space or tab, the one there is not, and the line's length when there is none |
| TextModel.FirstNonWhitespaceAt | test/Mocks.ts:338-345 | uniqueness: any offset with that description is the first non-whitespace offset |
| TextModel.GetText | src/TabSanity.ts:99-102 | `getText` on one line orders the two offsets either way round and clamps them to the line; the text is the clamped span from the smaller offset |
| TextModel.PeekLeft | src/TabSanity.ts:98-103 | the `chars` characters just left of the position |
| TextModel.PeekRight | src/TabSanity.ts:194-199 | up to `chars` characters from the position, fewer when the line ends first, each the line's character at that offset |
| TextModel.AllSpaces | src/TabSanity.ts:11 | definition: the pattern `ALL_SPACES`, `^ +$`: a non-empty string of spaces only |
| TextModel.TabSizeOf | src/TabSanity.ts:23-26 | definition: the `tabSize` getter's reading of the option: `'auto'` is 4, a number is itself |
| TabStops.FindFirstNonWhitespace | src/TabSanity.ts:105-113 | on the given line, the column is the first non-whitespace column plus the offset when that is not negative, and 0 otherwise |
| TabStops.EndOfPreviousLine | src/TabSanity.ts:81-87 | the end of the previous line |
| TabStops.StartOfNextLine | src/TabSanity.ts:186-192 | column 0 of the next line |
| TabStops.IsBeginningOfLine | src/TabSanity.ts:73-75 | definition: the column is 0 |
| TabStops.IsFirstLine | src/TabSanity.ts:77-79 | definition: the line is 0 |
| TabStops.IsEndOfLine | src/TabSanity.ts:178-180 | definition: the column is the line's length |
| TabStops.IsLastLine | src/TabSanity.ts:182-184 | definition: the line is the document's last |
| TabStops.IsOnATabStop | src/TabSanity.ts:63-65 | definition: the column's JavaScript remainder by the tab size is 0 |
| TabStops.IsWithinLeadingWhitespace | src/TabSanity.ts:59-61 | definition: the position is before the first non-whitespace column of its line |
| TabStops.IsWithinAlignmentRange | src/TabSanity.ts:67-71 | definition: the text read rightward from the column to the next multiple of the tab size is not a non-empty run of spaces |
| TabStops.FindPreviousTabStop | src/TabSanity.ts:89-96 | definition: one tab size back, then forward by `(tabSize - column) % tabSize` with JavaScript `%` when the tab size exceeds 1 |
| TabStops.FindNextTabStop | src/TabSanity.ts:201-212 | definition: one tab size forward, capped at the line's end, otherwise moved by `(tabSize - column) % tabSize` with JavaScript `%` when the tab size exceeds 1 |
| TabStops.StepsLeftByOne | src/TabSanity.ts:45-52 | definition: the five single-step conditions of `findNextLeftPosition`, tested on the column before the caret |
| TabStops.StepsRightByOne | src/TabSanity.ts:164-171 | definition: the five single-step conditions of `findNextRightPosition`, tested on the column after the caret |
| TabStops.PreviousTabStopValue | src/TabSanity.ts:89-96 | the value `findPreviousTabStop` computes with JavaScript `%`: c - c % T when c % T != 0 and c <= 2T, otherwise c - c % T - T. That is the nearest stop below c when c <= 2T or c is itself a stop, and one tab size lower otherwise; it is always a tab stop in [0, c) |
| TabStops.NextTabStopValue | src/TabSanity.ts:201-212 | the value `findNextTabStop` computes: the line's end when a full tab size does not fit, otherwise the smallest tab stop above the column, at most a tab size away |
| TabStops.NoStopBeforeNext | src/TabSanity.ts:209 | no multiple of the tab size lies strictly between the column and the stop `findNextTabStop` rounds to |
| TabStops.NextLeftPosition | src/TabSanity.ts:37-57 | `findNextLeftPosition`: the result is valid and never after the caret; it equals the caret exactly at the document's start; column 0 wraps to the end of the previous line; otherwise it stays on the line |
| TabStops.NextRightPosition | src/TabSanity.ts:156-176 | `findNextRightPosition`: the result is valid and never before the caret; it equals the caret exactly at the document's end; a line's end wraps to the next line's column 0; otherwise it stays on the line |
| TabStops.LeftSingleStepExactly | src/TabSanity.ts:45-54 | away from column 0, the left result is one column left if and only if one of the five single-step conditions holds |
| TabStops.RightSingleStepExactly | src/TabSanity.ts:164-173 | away from the line's end, the right result is one column right if and only if one of the five single-step conditions holds |
| TabStops.SmallTabSizeNeverSnaps | src/TabSanity.ts:47 | with a tab size of at most 1, every move inside a line is one column |
| TabStops.LeftSnap | src/TabSanity.ts:45-56 | a left snap needs a tab size of at least 2; it stays on the line; it lands on column c - c % T when c % T != 0 and c <= 2T, and on c - c % T - T otherwise; that is a tab stop in [0, c) before the first non-whitespace column; it skips only whitespace; and the rightward run from the one-step column to the next stop is all spaces |
| TabStops.RightSnap | src/TabSanity.ts:164-175 | a right snap moves more than one column. When a full tab size would pass the line's end it goes to the line's end. Otherwise it goes to the smallest tab stop above the caret, skipping only spaces and never passing the first non-whitespace column |
| TabStops.ContentRoundTrip | src/TabSanity.ts:50 | past the leading whitespace, a left step then a right step (or the reverse) returns to the same position |
| TabStops.IndentUnitRoundTrip | src/TabSanity.ts:37-57 | across one indentation unit of spaces ending on a tab stop, left from its end snaps to its start, and right from its start snaps back |
| Findings.IntendedPreviousTabStopIsNearest | src/TabSanity.ts:89-96 | the intended previous stop is the nearest tab stop strictly left of the column, at most a tab size away |
| Findings.PreviousTabStopOvershoot | src/TabSanity.ts:93 | the as-written stop equals the intended one if and only if the column is at most twice the tab size or is itself a stop; otherwise it is a full tab size lower |
| Findings.LeftSnapOvershootExample | src/TabSanity.ts:89-96 | on 12 spaces then `x` with tab size 4, left from column 10 snaps to column 4 as written, and to column 8 when corrected |
| Findings.NextLeftPositionCorrected | src/TabSanity.ts:37-57 | the corrected left calculator keeps the boundary behaviour: valid, never after the caret, and unchanged exactly at the document's start |
| Findings.CorrectedLeftSnapIsNearestStop | src/TabSanity.ts:56 | a corrected left snap lands on the nearest tab stop left of the caret, at most a tab size back, skipping only whitespace |
| Findings.CorrectedLeftSingleStepExactly | src/TabSanity.ts:45-54 | away from column 0, the corrected left result is one column left if and only if the source's single-step condition holds |
| Findings.LeftCalculatorsAgree | src/TabSanity.ts:37-57 | the as-written and corrected left calculators agree if and only if the caret is at column 0, takes a single step, is within twice the tab size, or is on a stop |
| Findings.NextTabStopPastStop | src/TabSanity.ts:206-210 | the as-written next stop differs from the intended one exactly when a full tab size passes the line's end while a tab stop still lies before it; it is never smaller |
| Findings.NextRightPositionCorrected | src/TabSanity.ts:156-176 | the corrected right calculator keeps the boundary behaviour: valid, never before the caret, and unchanged exactly at the document's end |
| Findings.CorrectedRightSnapSkipsOnlySpaces | src/TabSanity.ts:201-212 | a corrected right snap goes to the smallest tab stop above the caret or the line's end, at most a tab size on, skipping only spaces, so it never passes the first non-whitespace column |
| Findings.CorrectedRightSingleStepExactly | src/TabSanity.ts:164-173 | away from the line's end, the corrected right result is one column right if and only if the source's single-step condition holds |
| Findings.RightCalculatorsAgree | src/TabSanity.ts:156-176 | the two right calculators agree if and only if the caret is at the line's end, takes a single step, has a full tab size before the line's end, or has no stop before the line's end |
| Findings.RightSnapSkipsContentExample | src/TabSanity.ts:206-207 | on `"    x"` with tab size 4, right from column 2 jumps to column 5, over the `x`, as written; corrected, it stops at column 4 |
| Findings.DeleteRightSkipsContentExample | src/TabSanity.ts:254-266 | on `"    x"` with tab size 4, `deleteRight` from column 2 leaves `"  "`, removing the `x`; with the intended stop it would leave `"  x"` |
| Findings.CorrectedIndentUnitRoundTrip | src/TabSanity.ts:89-96 | the indentation-unit round trip also holds for the corrected calculators |
| Commands.MoveLeft | src/TabSanity.ts:28-35 | `cursorLeft` on one selection: a caret, at the selection's start when non-empty, or at `findNextLeftPosition`'s result (as written) for a caret |
| Commands.MoveRight | src/TabSanity.ts:147-154 | `cursorRight` on one selection: a caret, at the selection's end when non-empty, or at `findNextRightPosition`'s result (as written) for a caret |
| Commands.ExtendLeft | src/TabSanity.ts:128-135 | `cursorLeftSelect`: the anchor is kept and the active end moves to `findNextLeftPosition`'s result (as written) |
| Commands.ExtendRight | src/TabSanity.ts:214-221 | `cursorRightSelect`: the anchor is kept and the active end moves to `findNextRightPosition`'s result (as written) |
| Commands.FallbackToStartOfLine | src/TabSanity.ts:122-126 | column 0 of the start's line when the start is already at the proposed start, and the proposed start otherwise |
| Commands.HomeSelect | src/TabSanity.ts:137-145 | `cursorHomeSelect`: the anchor is kept; the active end is on the start's line at column 0 or at the indentation. It is at 0 if and only if the start is already at the indentation or there is none |
| Commands.EndSelect | src/TabSanity.ts:223-231 | `cursorEndSelect`: the anchor is kept and the active end is at the end of the end's line |
| Commands.DeleteLeftRange | src/TabSanity.ts:233-246 | the range `deleteLeft` removes: a non-empty selection's own range, or [`findNextLeftPosition`'s result, caret) for a caret. It is empty if and only if the caret is at the document's start |
| Commands.DeleteRightRange | src/TabSanity.ts:254-266 | the range `deleteRight` removes: a non-empty selection's own range, or [caret, `findNextRightPosition`'s result) for a caret. It is empty if and only if the caret is at the document's end |
| Commands.DeleteRange | src/TabSanity.ts:248-252 | one `edit.delete`: the lines before the range are kept, its two end lines are joined around the gap, and the later lines shift up |
| Commands.DeleteMatchesMove | src/TabSanity.ts:240-242 | from a caret, the deleted span is exactly the span the corresponding move crosses |
| Commands.DeleteEmptyRangeKeepsText | src/TabSanity.ts:262-263 | deleting an empty range leaves the document unchanged |
| Commands.DeleteLeftOnLine | src/TabSanity.ts:233-246 | backspace inside a line: only that line changes, it loses exactly the characters between `findNextLeftPosition`'s column and the caret, and when more than one goes they are all whitespace |
| Commands.DeleteRightOnLine | src/TabSanity.ts:254-266 | delete before a line's end: only that line changes, it loses exactly the characters between the caret and `findNextRightPosition`'s column, and when a snap moves more than one column with a full tab size fitting on the line they are all spaces |
| Commands.DeleteLeftIndentExample | src/TabSanity.ts:240-242 | backspace at column 4 of `"    foo"` with tab size 4 leaves `"foo"` |
| Commands.ExtendRoundTrip | src/TabSanity.ts:128-135 | inside a line's content, extending left then right (or right then left) restores the selection |
| Commands.EndSelectIdempotent | src/TabSanity.ts:223-231 | repeating `cursorEndSelect` changes nothing more |
| Commands.HomeSelectAlternates | src/TabSanity.ts:137-145 | on a one-line selection anchored at or after the indentation, repeated home alternates the active end between the indentation and column 0 |
| Commands.TabSanity.AssignSelections | src/TabSanity.ts:115-120 | the editor's selections become the given list, which is returned |
| Commands.TabSanity.TabSize | src/TabSanity.ts:23-26 | definition: the `tabSize` getter, the editor option read through `TabSizeOf` |
| Commands.TabSanity.CursorLeft | src/TabSanity.ts:28-35 | every selection is replaced by `MoveLeft` of it; the document and options are unchanged; the new list is returned |
| Commands.TabSanity.CursorRight | src/TabSanity.ts:147-154 | every selection is replaced by `MoveRight` of it; the document and options are unchanged; the new list is returned |
| Commands.TabSanity.CursorLeftSelect | src/TabSanity.ts:128-135 | every selection is replaced by `ExtendLeft` of it |
| Commands.TabSanity.CursorRightSelect | src/TabSanity.ts:214-221 | every selection is replaced by `ExtendRight` of it |
| Commands.TabSanity.CursorHomeSelect | src/TabSanity.ts:137-145 | every selection is replaced by `HomeSelect` of it |
| Commands.TabSanity.CursorEndSelect | src/TabSanity.ts:223-231 | every selection is replaced by `EndSelect` of it |
| Commands.TabSanity.DeleteLeft | src/TabSanity.ts:233-246 | one range per selection, in order, each `DeleteLeftRange` of that selection |
| Commands.TabSanity.DeleteRight | src/TabSanity.ts:254-266 | one range per selection, in order, each `DeleteRightRange` of that selection |
| Fixture.WalkRight | test/TabSanity.test.ts:52-58 | definition: the caret positions after each of `n` presses of `cursorRight`; there are `n`, all valid |
| Fixture.WalkLeft | test/TabSanity.test.ts:101-110 | definition: the caret positions after each of `n` presses of `cursorLeft`; there are `n`, all valid |
| Fixture.WalkRightSelect | test/TabSanity.test.ts:72-81 | definition: the selections after each of `n` presses of `cursorRightSelect`; there are `n`, all valid |
| Fixture.WalkLeftSelect | test/TabSanity.test.ts:124-136 | definition: the selections after each of `n` presses of `cursorLeftSelect`; there are `n`, all valid |
| Fixture.WalkRightFollows | test/TabSanity.test.ts:50-67 | when `findNextRightPosition` of each position is the next one, `cursorRight` from the first visits the rest in order |
| Fixture.WalkLeftFollows | test/TabSanity.test.ts:99-119 | when `findNextLeftPosition` of each position is the previous one, `cursorLeft` from the last visits the rest in reverse |
| Fixture.RightSelectFollowsRight | test/TabSanity.test.ts:80-94 | repeated `cursorRightSelect` keeps the first anchor, and its active end follows repeated `cursorRight` |
| Fixture.LeftSelectFollowsLeft | test/TabSanity.test.ts:135-149 | repeated `cursorLeftSelect` keeps the first anchor, and its active end follows repeated `cursorLeft` |
| Fixture.WalkRightSelectFollows | test/TabSanity.test.ts:69-97 | extending right from a caret at the first position reaches each later one in turn, anchor fixed |
| Fixture.WalkLeftSelectFollows | test/TabSanity.test.ts:121-152 | extending left from a caret at the last position reaches each earlier one in turn, anchor fixed |
| Fixture.RightStepInContent | src/TabSanity.ts:169 | once the one-step column reaches the content, `findNextRightPosition` moves one column |
| Fixture.LeftStepInContent | src/TabSanity.ts:50 | once the one-step column is in the content, `findNextLeftPosition` moves one column |
| Fixture.FixtureStopsAreExpected | test/TabSanity.test.ts:44-48 | the expected-stops table, read in document order, is the 33 positions of `FixtureStops` |
| Fixture.FixtureStopsChain | test/TabSanity.test.ts:44-48 | every expected stop is valid, and `findNextRightPosition`/`findNextLeftPosition` as written step between consecutive stops in both directions |
| Fixture.FixtureCorrectedChain | test/TabSanity.test.ts:44-48 | the corrected calculators also step between consecutive expected stops in both directions |
| Fixture.FixtureCursorRight | test/TabSanity.test.ts:50-67 | 32 presses of `cursorRight`, stepping with the calculators as written, from (0, 0) visit every expected stop after the first, in order |
| Fixture.FixtureCursorLeft | test/TabSanity.test.ts:99-119 | 32 presses of `cursorLeft`, stepping with the calculators as written, from (2, 21) visit the expected stops in reverse, down to (0, 0) |
| Fixture.FixtureCursorRightSelect | test/TabSanity.test.ts:69-97 | 32 presses of `cursorRightSelect`, stepping with the calculators as written, from (0, 0) keep the anchor at (0, 0), and the active end visits the expected stops |
| Fixture.FixtureCursorLeftSelect | test/TabSanity.test.ts:121-152 | 32 presses of `cursorLeftSelect`, stepping with the calculators as written, from (2, 21) keep the anchor at (2, 21), and the active end visits the stops in reverse |

## Left out

- `revealRange` and the `editor.selections` setter are left out. Besides the display, the host's setter normalises the list: it merges selections that overlap or coincide. For example, carets at (0,1) and (0,2) of `"    foo"` with tab size 4 both move to (0,0) under `cursorLeft`. `AssignSelections` only replaces the `selections` field, so the model keeps both carets, as the array the source returns does.
- `src/extension.ts` only registers commands with the host. It registers only the six cursor commands, not `deleteLeft`/`deleteRight`.
- The `editor`, `doc` and `tabSize` getters read the active editor; the class's fields stand in for them.
- DeleteLeft: the source awaits each `edit.delete` in turn, so later selections are handled after earlier edits have landed. The model computes every range against one snapshot and does not change `lines`. `DeleteRange` gives the effect of one edit on its own. The final `revealRange` is left out as display.
- DeleteRight: computes its ranges against one snapshot, as `DeleteLeft` does.
- The `if (deleteStartPosition)` / `if (deleteEndPosition)` guards always pass, since a position object is never falsy. The model therefore always emits a range. At the document's edges that range is empty, which `DeleteEmptyRangeKeepsText` shows is harmless.
- JsRem: the model covers only a positive divisor. Every call site is guarded by `tabSize <= 1 || …` or `spaces > 1`, so the remainder is never taken by 0 or a negative tab size.
- Selections and positions are required to lie inside the document. The host's `Position` rejects negative values, and the editor keeps its selections in range.
- The test mocks (`test/Mocks.ts`, `test/MockTextDocument.ts`, `test/MockTextLine.ts`) and `test/testUtils.ts` are not modelled. The host's own behaviour is modelled instead: `getText` clamps a range, and `firstNonWhitespaceCharacterIndex` is the line length on a whitespace-only line (a mock returns `null` there). Whitespace is the space and the tab: the model narrows JavaScript's `\s` to these two, so indentation made of other whitespace characters (no-break space, vertical tab, form feed and other Unicode spaces) counts as content in the model but as whitespace in the host.
- The test fixture file `test/fixtures/spaces` is not part of this model. `Fixture.FixtureLines` is a text consistent with the expected stops: `"    foo  "`, `"  bar    "`, `"        return value;"`.
- The test reads `.character` from the array that `cursorRight()`/`cursorLeft()` return. The fixture lemmas state the stops as the active position of the resulting caret.
- Columns count Unicode scalar values, since a Dafny `string` holds those. The host counts UTF-16 code units, so a character outside the Basic Multilingual Plane is one column in the model and two in the source, and the source's one-column step can stop between the two halves of a surrogate pair.
- Vertical caret snapping, delegating to native movement when tabs are literal, and a toggling smart end do not occur in `src/TabSanity.ts`, so they are not modelled.

In these places the model follows the code:

- The alignment test always reads rightward from the one-step column, in both directions.
- A right snap that would pass the first non-whitespace column is not turned back into a single step. See the second finding.
- A tab size below 1 is not otherwise normalised. It simply makes every move a single step (`TabStops.SmallTabSizeNeverSnaps`).
- Home reads the line of the selection's start.
- End reads the line of the selection's end.

## Findings

| source | as written | input that shows it | evidently intended | confidence | as-written member | corrected member |
|---|---|---|---|---|---|---|
| src/TabSanity.ts:93 | `findPreviousTabStop` subtracts a tab size and adds `(tabSize - x) % tabSize`; JavaScript's `%` of the negative `tabSize - x` is negative | 12 spaces then `x`, tab size 4, caret at column 10: the left snap lands on column 4 | the nearest tab stop to the left, column 8 | not executed | Findings.LeftSnapOvershootExample | Findings.CorrectedLeftSnapIsNearestStop |
| src/TabSanity.ts:206-207 | `findNextTabStop` caps at the line's end before rounding to a stop, so the cap applies whenever a full tab size passes the end | `"    x"`, tab size 4, caret at column 2: the right snap lands on column 5, past the `x`, and `deleteRight` there removes the `x` (`Findings.DeleteRightSkipsContentExample`) | the next tab stop, column 4, capped at the line's end only when the stop itself is past it | not executed | Findings.RightSnapSkipsContentExample | Findings.CorrectedRightSnapSkipsOnlySpaces |

The as-written calculators are `TabStops.NextLeftPosition` and `TabStops.NextRightPosition`, and every command in `Commands` uses them, so the commands behave as the source does, overshoot included. The corrected ones are `Findings.NextLeftPositionCorrected` and `Findings.NextRightPositionCorrected`, with the intended properties proved about them.

`Findings.LeftCalculatorsAgree` and `Findings.RightCalculatorsAgree` state exactly where the two versions agree: everywhere except these two kinds of snap. `Fixture.FixtureCorrectedChain` shows the test's expected stops hold for the corrected calculators as well.
