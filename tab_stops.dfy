/**
 * The tab-stop calculator of TabSanity: from a caret position and a document
 * snapshot, the next caret position one logical step to the left or right.
 * A step is one column, a jump to a tab stop (a multiple of the tab size)
 * inside the leading whitespace, or a wrap to the neighbouring line.
 */
module TabStops {
  import opened TextModel
  import opened JsArithmetic

  // ---------------------------------------------------------------------------
  // Predicates on positions

  predicate IsBeginningOfLine(pos: Position) {
    pos.character == 0
  }

  predicate IsFirstLine(pos: Position) {
    pos.line == 0
  }

  predicate IsEndOfLine(lines: Lines, pos: Position)
    requires pos.line < |lines|
  {
    pos.character == |lines[pos.line]|
  }

  predicate IsLastLine(lines: Lines, pos: Position) {
    pos.line == |lines| - 1
  }

  /** The column is a multiple of the tab size (JavaScript `!(c % tabSize)`). */
  predicate IsOnATabStop(pos: Position, tabSize: int)
    requires tabSize > 0
  {
    JsRem(pos.character, tabSize) == 0
  }

  /**
   * `findFirstNonWhitespace(lineNumber, offset)`: the first non-whitespace
   * column shifted by `offset`, never below column 0. Every call site in the
   * class passes no offset, which reads as 0.
   */
  function FindFirstNonWhitespace(lines: Lines, lineNumber: nat, offset: int): (p: Position)
    requires lineNumber < |lines|
    ensures p.line == lineNumber
    ensures offset == 0 ==> p.character == FirstNonWhitespace(lines[lineNumber])
    ensures offset < 0 ==> p.character <= FirstNonWhitespace(lines[lineNumber])
    ensures FirstNonWhitespace(lines[lineNumber]) + offset >= 0 ==>
              p.character == FirstNonWhitespace(lines[lineNumber]) + offset
    ensures FirstNonWhitespace(lines[lineNumber]) + offset < 0 ==> p.character == 0
  {
    var character := FirstNonWhitespace(lines[lineNumber]) + offset;
    Position(lineNumber, if character < 0 then 0 else character)
  }

  /** The position is strictly before its line's first non-whitespace character. */
  predicate IsWithinLeadingWhitespace(lines: Lines, pos: Position)
    requires pos.line < |lines|
  {
    pos.IsBefore(FindFirstNonWhitespace(lines, pos.line, 0))
  }

  /**
   * The text read rightward from the position up to the next multiple of the
   * tab size is NOT a non-empty run of spaces. In both directions the class
   * applies it to the one-step column and it always reads to the right.
   */
  predicate IsWithinAlignmentRange(lines: Lines, pos: Position, tabSize: int)
    requires ValidPosition(lines, pos) && tabSize > 0
  {
    var extraSpaces := JsRem(pos.character, tabSize);
    var nextTabStop := tabSize - extraSpaces;
    !AllSpaces(PeekRight(lines, pos, nextTabStop))
  }

  function EndOfPreviousLine(lines: Lines, pos: Position): (p: Position)
    requires 0 < pos.line < |lines|
    ensures ValidPosition(lines, p) && p.line == pos.line - 1 && IsEndOfLine(lines, p)
  {
    Position(pos.line - 1, |lines[pos.line - 1]|)
  }

  function StartOfNextLine(lines: Lines, pos: Position): (p: Position)
    requires pos.line + 1 < |lines|
    ensures ValidPosition(lines, p) && p.line == pos.line + 1 && IsBeginningOfLine(p)
  {
    Position(pos.line + 1, 0)
  }

  // ---------------------------------------------------------------------------
  // Tab-stop columns, with JavaScript's truncating remainder

  /**
   * The column `findPreviousTabStop` computes: one tab size back, then moved
   * forward by `(tabSize - column) % tabSize` in JavaScript arithmetic.
   */
  function FindPreviousTabStop(character: nat, tabSize: int): int {
    var spaces := tabSize;
    var previousTabStop := character - spaces;
    if spaces > 1 then previousTabStop + JsRem(tabSize - previousTabStop, tabSize)
    else previousTabStop
  }

  /**
   * The column `findNextTabStop` computes: one tab size forward; if that is
   * past the line's end the line's end, otherwise moved by
   * `(tabSize - column) % tabSize` in JavaScript arithmetic.
   */
  function FindNextTabStop(character: nat, lineLength: nat, tabSize: int): int {
    var spaces := tabSize;
    var nextTabStop := character + spaces;
    if nextTabStop > lineLength then lineLength
    else if spaces > 1 then nextTabStop + JsRem(tabSize - nextTabStop, tabSize)
    else nextTabStop
  }

  /**
   * What `findPreviousTabStop` evaluates to. Up to twice the tab size it is
   * the nearest tab stop left of the column; beyond that, when the column is
   * not itself a stop, it is one stop further left, because the JavaScript
   * remainder of the negative `tabSize - column` is negative.
   */
  lemma PreviousTabStopValue(c: nat, tabSize: int)
    requires tabSize >= 2 && c >= 1
    ensures FindPreviousTabStop(c, tabSize)
            == if c % tabSize != 0 && c <= 2 * tabSize then c - c % tabSize
               else c - c % tabSize - tabSize
    ensures 0 <= FindPreviousTabStop(c, tabSize) < c
    ensures FindPreviousTabStop(c, tabSize) % tabSize == 0
  {
    var t := tabSize;
    var q, s := c / t, c % t;
    NonNegativeQuotient(c, t);
    if 2 * t - c >= 0 {
      if s == 0 {
        DivModUnique(2 * t - c, t, 2 - q, 0);
      } else {
        DivModUnique(2 * t - c, t, 1 - q, t - s);
      }
    } else {
      DivModUnique(c - 2 * t, t, q - 2, s);
    }
    if s != 0 && c <= 2 * t {
      DivModUnique(c - s, t, q, 0);
    } else {
      DivModUnique(c - s - t, t, q - 1, 0);
    }
  }

  /**
   * What `findNextTabStop` evaluates to: the smallest tab stop greater than
   * the column when a full tab size still fits on the line, and the end of
   * the line otherwise, whichever stop lies before that end.
   */
  lemma NextTabStopValue(c: nat, lineLength: nat, tabSize: int)
    requires tabSize >= 2
    ensures FindNextTabStop(c, lineLength, tabSize)
            == if c + tabSize > lineLength then lineLength else c - c % tabSize + tabSize
    ensures c + tabSize <= lineLength ==> c < FindNextTabStop(c, lineLength, tabSize) <= c + tabSize
    ensures c + tabSize <= lineLength ==> FindNextTabStop(c, lineLength, tabSize) % tabSize == 0
  {
    var t := tabSize;
    NonNegativeQuotient(c, t);
    if c + t <= lineLength {
      DivModUnique(c - c % t + t, t, c / t + 1, 0);
    }
  }

  /** c - c % t + t is the smallest multiple of t greater than c. */
  lemma NoStopBeforeNext(c: nat, t: int, m: int)
    requires t >= 2 && c < m < c - c % t + t
    ensures m % t != 0
  {
    NonNegativeQuotient(c, t);
    DivModUnique(m, t, c / t, m - (c - c % t));
  }

  /** When the column after c is not a tab stop, the stop above c lies beyond c + 1. */
  lemma StepBeforeStop(c: nat, t: int)
    requires t >= 2 && (c + 1) % t != 0
    ensures (c + 1) % t == c % t + 1
    ensures (c - c % t + t) % t == 0
    ensures c + 1 < c - c % t + t <= c + t
  {
    NonNegativeQuotient(c, t);
    var q, s := c / t, c % t;
    if s + 1 == t {
      DivModUnique(c + 1, t, q + 1, 0);
      assert false;
    }
    DivModUnique(c + 1, t, q, s + 1);
    DivModUnique(c - s + t, t, q + 1, 0);
  }

  // ---------------------------------------------------------------------------
  // The two calculators

  /** The condition under which `findNextLeftPosition` takes a single step (caret not at column 0). */
  predicate StepsLeftByOne(lines: Lines, tabSize: int, pos: Position)
    requires ValidPosition(lines, pos) && pos.character > 0
  {
    var previousPosition := Position(pos.line, pos.character - 1);
    tabSize <= 1
    || IsOnATabStop(previousPosition, tabSize)
    || PeekLeft(lines, pos, 1) == [TAB]
    || !IsWithinLeadingWhitespace(lines, previousPosition)
    || IsWithinAlignmentRange(lines, previousPosition, tabSize)
  }

  /** The condition under which `findNextRightPosition` takes a single step (caret not at line end). */
  predicate StepsRightByOne(lines: Lines, tabSize: int, pos: Position)
    requires ValidPosition(lines, pos) && pos.character < |lines[pos.line]|
  {
    var nextPosition := Position(pos.line, pos.character + 1);
    tabSize <= 1
    || IsOnATabStop(nextPosition, tabSize)
    || PeekRight(lines, pos, 1) == [TAB]
    || !IsWithinLeadingWhitespace(lines, nextPosition)
    || IsWithinAlignmentRange(lines, nextPosition, tabSize)
  }

  /**
   * `findNextLeftPosition`: the caret position one logical step to the left.
   * It never moves right, stays put only at the document's start, and stays
   * on its line except when wrapping at column 0.
   */
  function NextLeftPosition(lines: Lines, tabSize: int, pos: Position): (r: Position)
    requires ValidDocument(lines) && ValidPosition(lines, pos)
    ensures ValidPosition(lines, r)
    ensures r.IsBeforeOrEqual(pos)
    ensures r == pos <==> pos == Position(0, 0)
    ensures pos.character == 0 && pos.line > 0 ==> r == Position(pos.line - 1, |lines[pos.line - 1]|)
    ensures pos.character > 0 ==> r.line == pos.line
  {
    if IsBeginningOfLine(pos) then
      if IsFirstLine(pos) then pos else EndOfPreviousLine(lines, pos)
    else if StepsLeftByOne(lines, tabSize, pos) then
      Position(pos.line, pos.character - 1)
    else
      PreviousTabStopValue(pos.character, tabSize);
      Position(pos.line, FindPreviousTabStop(pos.character, tabSize))
  }

  /**
   * `findNextRightPosition`: the caret position one logical step to the right.
   * It never moves left, stays put only at the document's end, and stays on
   * its line except when wrapping at the line's end.
   */
  function NextRightPosition(lines: Lines, tabSize: int, pos: Position): (r: Position)
    requires ValidDocument(lines) && ValidPosition(lines, pos)
    ensures ValidPosition(lines, r)
    ensures pos.IsBeforeOrEqual(r)
    ensures r == pos <==> pos == Position(|lines| - 1, |lines[|lines| - 1]|)
    ensures pos.character == |lines[pos.line]| && pos.line + 1 < |lines| ==> r == Position(pos.line + 1, 0)
    ensures pos.character < |lines[pos.line]| ==> r.line == pos.line
  {
    if IsEndOfLine(lines, pos) then
      if IsLastLine(lines, pos) then pos else StartOfNextLine(lines, pos)
    else if StepsRightByOne(lines, tabSize, pos) then
      Position(pos.line, pos.character + 1)
    else
      NextTabStopValue(pos.character, |lines[pos.line]|, tabSize);
      Position(pos.line, FindNextTabStop(pos.character, |lines[pos.line]|, tabSize))
  }

  // ---------------------------------------------------------------------------
  // Properties of the calculators

  /**
   * Away from column 0, the left calculator moves exactly one column iff one
   * of the single-step conditions holds: a snap never lands on the one-step
   * column.
   */
  lemma LeftSingleStepExactly(lines: Lines, tabSize: int, pos: Position)
    requires ValidDocument(lines) && ValidPosition(lines, pos) && pos.character > 0
    ensures NextLeftPosition(lines, tabSize, pos) == Position(pos.line, pos.character - 1)
            <==> StepsLeftByOne(lines, tabSize, pos)
  {
    if !StepsLeftByOne(lines, tabSize, pos) {
      var c := pos.character;
      PreviousTabStopValue(c, tabSize);
      JsRemOfNonNegative(c - 1, tabSize);
      // c - 1 is not a tab stop, while the snap target is one
      assert FindPreviousTabStop(c, tabSize) % tabSize == 0;
      assert (c - 1) % tabSize != 0;
    }
  }

  /** Away from the line's end, the right calculator moves exactly one column iff a single-step condition holds. */
  lemma RightSingleStepExactly(lines: Lines, tabSize: int, pos: Position)
    requires ValidDocument(lines) && ValidPosition(lines, pos) && pos.character < |lines[pos.line]|
    ensures NextRightPosition(lines, tabSize, pos) == Position(pos.line, pos.character + 1)
            <==> StepsRightByOne(lines, tabSize, pos)
  {
    if !StepsRightByOne(lines, tabSize, pos) {
      var c, len := pos.character, |lines[pos.line]|;
      NextTabStopValue(c, len, tabSize);
      JsRemOfNonNegative(c + 1, tabSize);
      if c + tabSize <= len {
        assert FindNextTabStop(c, len, tabSize) % tabSize == 0;
      } else {
        // the one-step column is before the first non-whitespace column, so before the end
        assert c + 1 < FirstNonWhitespace(lines[pos.line]) <= len;
      }
    }
  }

  /** With a tab size of 1 or less nothing snaps: every move inside a line is one column. */
  lemma SmallTabSizeNeverSnaps(lines: Lines, tabSize: int, pos: Position)
    requires ValidDocument(lines) && ValidPosition(lines, pos) && tabSize <= 1
    ensures pos.character > 0 ==> NextLeftPosition(lines, tabSize, pos) == Position(pos.line, pos.character - 1)
    ensures pos.character < |lines[pos.line]| ==> NextRightPosition(lines, tabSize, pos) == Position(pos.line, pos.character + 1)
  {
  }

  /**
   * A left snap lands on a tab stop strictly left of the caret and inside the
   * leading whitespace, so it skips only whitespace. What permits it is a run
   * of spaces read rightward from the one-step column to the next tab stop,
   * which reaches to the right of the caret.
   */
  lemma LeftSnap(lines: Lines, tabSize: int, pos: Position)
    requires ValidDocument(lines) && ValidPosition(lines, pos) && pos.character > 0
    requires !StepsLeftByOne(lines, tabSize, pos)
    ensures var r := NextLeftPosition(lines, tabSize, pos);
            var text := lines[pos.line];
            var c := pos.character;
            && tabSize >= 2
            && r.line == pos.line
            && 0 <= r.character < pos.character
            && r.character % tabSize == 0
            && r.character == (if c % tabSize != 0 && c <= 2 * tabSize then c - c % tabSize
                               else c - c % tabSize - tabSize)
            && r.character < FirstNonWhitespace(text)
            && (forall i :: r.character <= i < pos.character ==> IsWhitespace(text[i]))
            && text[pos.character - 1] == ' '
            && (forall i :: pos.character - 1 <= i < |text| && i < pos.character - 1 + tabSize - (pos.character - 1) % tabSize
                  ==> text[i] == ' ')
  {
    var c := pos.character;
    PreviousTabStopValue(c, tabSize);
    JsRemOfNonNegative(c - 1, tabSize);
    var text := lines[pos.line];
    var run := PeekRight(lines, Position(pos.line, c - 1), tabSize - (c - 1) % tabSize);
    forall i | c - 1 <= i < |text| && i < c - 1 + tabSize - (c - 1) % tabSize
      ensures text[i] == ' '
    {
      assert run[i - (c - 1)] == text[i];
    }
  }

  /**
   * A right snap goes to `findNextTabStop`'s column. When a full tab size
   * fits before the line's end, that is the smallest tab stop greater than
   * the caret, and every character skipped is a space, so it stops at or
   * before the first non-whitespace column. Otherwise it is the line's end.
   */
  lemma RightSnap(lines: Lines, tabSize: int, pos: Position)
    requires ValidDocument(lines) && ValidPosition(lines, pos) && pos.character < |lines[pos.line]|
    requires !StepsRightByOne(lines, tabSize, pos)
    ensures var r := NextRightPosition(lines, tabSize, pos);
            var text := lines[pos.line];
            var c := pos.character;
            && tabSize >= 2
            && r.line == pos.line
            && c + 1 < r.character
            && (c + tabSize > |text| ==> r.character == |text|)
            && (c + tabSize <= |text| ==>
                  && r.character == c - c % tabSize + tabSize
                  && r.character <= c + tabSize
                  && r.character % tabSize == 0
                  && (forall m :: c < m < r.character ==> m % tabSize != 0)
                  && (forall i :: c <= i < r.character ==> text[i] == ' ')
                  && r.character <= FirstNonWhitespace(text))
  {
    var c, text := pos.character, lines[pos.line];
    var t := tabSize;
    NextTabStopValue(c, |text|, t);
    JsRemOfNonNegative(c + 1, t);
    NonNegativeQuotient(c, t);
    var fnw := FirstNonWhitespace(text);
    assert c + 1 < fnw;
    if c + t <= |text| {
      var r := c - c % t + t;
      forall m | c < m < r ensures m % t != 0 {
        NoStopBeforeNext(c, t, m);
      }
      // the one-step column is not a stop, so the run read from it ends at r
      DivModUnique(c + 1, t, c / t, c % t + 1);
      assert (c + 1) % t == c % t + 1;
      var run := PeekRight(lines, Position(pos.line, c + 1), t - (c + 1) % t);
      assert c + 1 + |run| == r;
      forall i | c <= i < r ensures text[i] == ' ' {
        if i > c {
          assert run[i - (c + 1)] == text[i];
        }
      }
    }
  }

  /**
   * Inside a line's content, one step left and one step right undo each
   * other: no snapping happens once the caret is past the leading whitespace.
   */
  lemma ContentRoundTrip(lines: Lines, tabSize: int, pos: Position)
    requires ValidDocument(lines) && ValidPosition(lines, pos)
    ensures FirstNonWhitespace(lines[pos.line]) < pos.character ==>
              NextRightPosition(lines, tabSize, NextLeftPosition(lines, tabSize, pos)) == pos
    ensures FirstNonWhitespace(lines[pos.line]) <= pos.character < |lines[pos.line]| ==>
              NextLeftPosition(lines, tabSize, NextRightPosition(lines, tabSize, pos)) == pos
  {
  }

  /**
   * Across one indentation unit made of spaces, ending on a tab stop no later
   * than the first non-whitespace column, a left move from its end snaps to
   * its start and a right move from its start snaps back to its end.
   */
  lemma IndentUnitRoundTrip(lines: Lines, tabSize: int, line: nat, stop: nat)
    requires ValidDocument(lines) && line < |lines|
    requires tabSize >= 2 && tabSize <= stop <= FirstNonWhitespace(lines[line]) && stop % tabSize == 0
    requires forall i :: stop - tabSize <= i < stop ==> lines[line][i] == ' '
    ensures NextLeftPosition(lines, tabSize, Position(line, stop)) == Position(line, stop - tabSize)
    ensures NextRightPosition(lines, tabSize, Position(line, stop - tabSize)) == Position(line, stop)
  {
    var t, text := tabSize, lines[line];
    var pos, start := Position(line, stop), Position(line, stop - t);
    // left from the stop: the one-step column sits just before a stop
    DivModUnique(stop - 1, t, stop / t - 1, t - 1);
    JsRemOfNonNegative(stop - 1, t);
    assert PeekRight(lines, Position(line, stop - 1), 1) == [text[stop - 1]];
    assert !StepsLeftByOne(lines, t, pos);
    PreviousTabStopValue(stop, t);
    // right from the previous stop: the run up to the stop is all spaces
    DivModUnique(stop - t + 1, t, stop / t - 1, 1);
    JsRemOfNonNegative(stop - t + 1, t);
    var run := PeekRight(lines, Position(line, stop - t + 1), t - 1);
    assert forall i :: 0 <= i < |run| ==> run[i] == text[stop - t + 1 + i];
    assert AllSpaces(run);
    assert !StepsRightByOne(lines, t, start);
    NextTabStopValue(stop - t, |text|, t);
    DivModUnique(stop - t, t, stop / t - 1, 0);
  }
}
