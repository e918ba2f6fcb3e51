/**
 * Two places where `findPreviousTabStop` and `findNextTabStop` compute a
 * column other than the tab stop they evidently aim for, each shown on a
 * concrete line, together with the corrected stops and calculators and the
 * properties proved about them.
 */
module Findings {
  import opened TextModel
  import opened JsArithmetic
  import opened TabStops
  import opened Commands

  // ---------------------------------------------------------------------------
  // Left: the snap from beyond twice the tab size overshoots by one stop

  /** The stop a left snap aims for: the largest multiple of the tab size strictly left of the column. */
  function IntendedPreviousTabStop(c: nat, tabSize: int): int
    requires c >= 1 && tabSize >= 1
  {
    (c - 1) - (c - 1) % tabSize
  }

  lemma IntendedPreviousTabStopIsNearest(c: nat, tabSize: int)
    requires c >= 1 && tabSize >= 2
    ensures var r := IntendedPreviousTabStop(c, tabSize);
            && 0 <= r < c
            && c - r <= tabSize
            && r % tabSize == 0
            && (forall m :: r < m < c ==> m % tabSize != 0)
  {
    var t, r := tabSize, IntendedPreviousTabStop(c, tabSize);
    NonNegativeQuotient(c - 1, t);
    DivModUnique(r, t, (c - 1) / t, 0);
    forall m | r < m < c ensures m % t != 0 {
      DivModUnique(m, t, (c - 1) / t, m - r);
    }
  }

  /**
   * The as-written stop equals the intended one exactly when the column is at
   * most twice the tab size or is itself a stop; otherwise it is one full tab
   * size further left.
   */
  lemma PreviousTabStopOvershoot(c: nat, tabSize: int)
    requires c >= 1 && tabSize >= 2
    ensures FindPreviousTabStop(c, tabSize) == IntendedPreviousTabStop(c, tabSize)
            <==> (c <= 2 * tabSize || c % tabSize == 0)
    ensures !(c <= 2 * tabSize || c % tabSize == 0) ==>
              FindPreviousTabStop(c, tabSize) == IntendedPreviousTabStop(c, tabSize) - tabSize
  {
    var t := tabSize;
    PreviousTabStopValue(c, t);
    NonNegativeQuotient(c, t);
    if c % t == 0 {
      DivModUnique(c - 1, t, c / t - 1, t - 1);
    } else {
      DivModUnique(c - 1, t, c / t, c % t - 1);
    }
  }

  /** `findNextLeftPosition` with the intended previous stop. */
  function NextLeftPositionCorrected(lines: Lines, tabSize: int, pos: Position): (r: Position)
    requires ValidDocument(lines) && ValidPosition(lines, pos)
    ensures ValidPosition(lines, r)
    ensures r.IsBeforeOrEqual(pos)
    ensures r == pos <==> pos == Position(0, 0)
  {
    if IsBeginningOfLine(pos) then
      if IsFirstLine(pos) then pos else EndOfPreviousLine(lines, pos)
    else if StepsLeftByOne(lines, tabSize, pos) then
      Position(pos.line, pos.character - 1)
    else
      IntendedPreviousTabStopIsNearest(pos.character, tabSize);
      Position(pos.line, IntendedPreviousTabStop(pos.character, tabSize))
  }

  /**
   * With the intended stop a left snap lands on the nearest tab stop left of
   * the caret: it moves at most one tab size and skips only leading whitespace.
   */
  lemma CorrectedLeftSnapIsNearestStop(lines: Lines, tabSize: int, pos: Position)
    requires ValidDocument(lines) && ValidPosition(lines, pos) && pos.character > 0
    requires !StepsLeftByOne(lines, tabSize, pos)
    ensures var r := NextLeftPositionCorrected(lines, tabSize, pos);
            && r.line == pos.line
            && r.character < pos.character <= r.character + tabSize
            && r.character % tabSize == 0
            && (forall m :: r.character < m < pos.character ==> m % tabSize != 0)
            && (forall i :: r.character <= i < pos.character ==> IsWhitespace(lines[pos.line][i]))
  {
    IntendedPreviousTabStopIsNearest(pos.character, tabSize);
  }

  /**
   * The two left calculators agree exactly when the caret is at column 0,
   * takes a single step, is within twice the tab size, or sits on a tab stop.
   */
  lemma LeftCalculatorsAgree(lines: Lines, tabSize: int, pos: Position)
    requires ValidDocument(lines) && ValidPosition(lines, pos)
    ensures NextLeftPosition(lines, tabSize, pos) == NextLeftPositionCorrected(lines, tabSize, pos)
            <==> (pos.character == 0 || StepsLeftByOne(lines, tabSize, pos)
                  || pos.character <= 2 * tabSize || pos.character % tabSize == 0)
  {
    if pos.character > 0 && !StepsLeftByOne(lines, tabSize, pos) {
      PreviousTabStopOvershoot(pos.character, tabSize);
    }
  }

  /** Away from column 0, the corrected left calculator moves one column exactly when the source's single-step condition holds. */
  lemma CorrectedLeftSingleStepExactly(lines: Lines, tabSize: int, pos: Position)
    requires ValidDocument(lines) && ValidPosition(lines, pos) && pos.character > 0
    ensures NextLeftPositionCorrected(lines, tabSize, pos) == Position(pos.line, pos.character - 1)
            <==> StepsLeftByOne(lines, tabSize, pos)
  {
    if !StepsLeftByOne(lines, tabSize, pos) {
      var c := pos.character;
      IntendedPreviousTabStopIsNearest(c, tabSize);
      JsRemOfNonNegative(c - 1, tabSize);
      // the one-step column is not a tab stop, while the snap target is one
      assert !IsOnATabStop(Position(pos.line, c - 1), tabSize);
    }
  }

  /** Twelve spaces of indentation then content; tab size 4. */
  const TwelveSpaceLine: Lines := ["            x"]

  /** From column 10 of the line above, the left snap lands on column 4 instead of column 8. */
  lemma LeftSnapOvershootExample()
    ensures NextLeftPosition(TwelveSpaceLine, 4, Position(0, 10)) == Position(0, 4)
    ensures NextLeftPositionCorrected(TwelveSpaceLine, 4, Position(0, 10)) == Position(0, 8)
  {
    var lines, pos, previous := TwelveSpaceLine, Position(0, 10), Position(0, 9);
    FirstNonWhitespaceAt(lines[0], 12);
    JsRemOfNonNegative(9, 4);
    assert !IsOnATabStop(previous, 4);
    assert PeekLeft(lines, pos, 1) == " ";
    assert IsWithinLeadingWhitespace(lines, previous);
    assert PeekRight(lines, previous, 3) == "   ";
    assert !IsWithinAlignmentRange(lines, previous, 4);
    assert !StepsLeftByOne(lines, 4, pos);
  }

  // ---------------------------------------------------------------------------
  // Right: the cap is applied before rounding, so a snap can run past content

  /** The stop a right snap aims for: the smallest multiple of the tab size above the column, capped at the line's end. */
  function IntendedNextTabStop(c: nat, lineLength: nat, tabSize: int): int
    requires tabSize >= 1
  {
    var stop := c - c % tabSize + tabSize;
    if stop > lineLength then lineLength else stop
  }

  /**
   * The as-written stop equals the intended one unless a full tab size would
   * run past the line's end while the next tab stop is still before it; then
   * the as-written stop is the line's end.
   */
  lemma NextTabStopPastStop(c: nat, lineLength: nat, tabSize: int)
    requires tabSize >= 2
    ensures FindNextTabStop(c, lineLength, tabSize) == IntendedNextTabStop(c, lineLength, tabSize)
            <==> !(c + tabSize > lineLength && c - c % tabSize + tabSize < lineLength)
    ensures FindNextTabStop(c, lineLength, tabSize) >= IntendedNextTabStop(c, lineLength, tabSize)
  {
    NextTabStopValue(c, lineLength, tabSize);
    NonNegativeQuotient(c, tabSize);
  }

  /** `findNextRightPosition` with the intended next stop. */
  function NextRightPositionCorrected(lines: Lines, tabSize: int, pos: Position): (r: Position)
    requires ValidDocument(lines) && ValidPosition(lines, pos)
    ensures ValidPosition(lines, r)
    ensures pos.IsBeforeOrEqual(r)
    ensures r == pos <==> pos == Position(|lines| - 1, |lines[|lines| - 1]|)
  {
    if IsEndOfLine(lines, pos) then
      if IsLastLine(lines, pos) then pos else StartOfNextLine(lines, pos)
    else if StepsRightByOne(lines, tabSize, pos) then
      Position(pos.line, pos.character + 1)
    else
      NonNegativeQuotient(pos.character, tabSize);
      Position(pos.line, IntendedNextTabStop(pos.character, |lines[pos.line]|, tabSize))
  }

  /**
   * With the intended stop a right snap goes to the smallest tab stop above
   * the caret, or the line's end if that comes first, and skips only spaces,
   * so it never passes the first non-whitespace column.
   */
  lemma CorrectedRightSnapSkipsOnlySpaces(lines: Lines, tabSize: int, pos: Position)
    requires ValidDocument(lines) && ValidPosition(lines, pos) && pos.character < |lines[pos.line]|
    requires !StepsRightByOne(lines, tabSize, pos)
    ensures var r := NextRightPositionCorrected(lines, tabSize, pos);
            var c := pos.character;
            && r.line == pos.line
            && c + 1 < r.character <= c + tabSize
            && (r.character % tabSize == 0 || r.character == |lines[pos.line]|)
            && (forall m :: c < m < r.character ==> m % tabSize != 0)
            && (forall i :: c <= i < r.character ==> lines[pos.line][i] == ' ')
            && r.character <= FirstNonWhitespace(lines[pos.line])
  {
    var c, text, t := pos.character, lines[pos.line], tabSize;
    var r := IntendedNextTabStop(c, |text|, t);
    var step := Position(pos.line, c + 1);
    NonNegativeQuotient(c, t);
    JsRemOfNonNegative(c + 1, t);
    assert t >= 2 && (c + 1) % t != 0;
    assert c + 1 < FirstNonWhitespace(text);
    assert NextRightPositionCorrected(lines, t, pos) == Position(pos.line, r);
    StepBeforeStop(c, t);
    forall m | c < m < r ensures m % t != 0 {
      NoStopBeforeNext(c, t, m);
    }
    var run := PeekRight(lines, step, t - (c + 1) % t);
    assert AllSpaces(run);
    assert c + 1 + |run| == r;
    forall i | c <= i < r ensures text[i] == ' ' {
      if i > c {
        assert run[i - (c + 1)] == text[i];
      }
    }
    assert r <= c + t;
    assert r % t == 0 || r == |text|;
  }

  /**
   * The two right calculators agree exactly when the caret is at the line's
   * end, takes a single step, has a full tab size before the line's end, or
   * has no tab stop between it and the line's end.
   */
  lemma RightCalculatorsAgree(lines: Lines, tabSize: int, pos: Position)
    requires ValidDocument(lines) && ValidPosition(lines, pos)
    ensures var c, len := pos.character, |lines[pos.line]|;
            NextRightPosition(lines, tabSize, pos) == NextRightPositionCorrected(lines, tabSize, pos)
            <==> (c == len || StepsRightByOne(lines, tabSize, pos)
                  || c + tabSize <= len || c - c % tabSize + tabSize >= len)
  {
    if pos.character < |lines[pos.line]| && !StepsRightByOne(lines, tabSize, pos) {
      NextTabStopPastStop(pos.character, |lines[pos.line]|, tabSize);
    }
  }

  /** Away from the line's end, the corrected right calculator moves one column exactly when the source's single-step condition holds. */
  lemma CorrectedRightSingleStepExactly(lines: Lines, tabSize: int, pos: Position)
    requires ValidDocument(lines) && ValidPosition(lines, pos) && pos.character < |lines[pos.line]|
    ensures NextRightPositionCorrected(lines, tabSize, pos) == Position(pos.line, pos.character + 1)
            <==> StepsRightByOne(lines, tabSize, pos)
  {
    if !StepsRightByOne(lines, tabSize, pos) {
      CorrectedRightSnapSkipsOnlySpaces(lines, tabSize, pos);
    }
  }

  /** Four spaces of indentation then one character; tab size 4. */
  const ShortIndentedLine: Lines := ["    x"]

  /** From column 2 of the line above, the right snap jumps over the `x` to column 5 instead of stopping at 4. */
  lemma RightSnapSkipsContentExample()
    ensures NextRightPosition(ShortIndentedLine, 4, Position(0, 2)) == Position(0, 5)
    ensures !IsWhitespace(ShortIndentedLine[0][4])
    ensures NextRightPositionCorrected(ShortIndentedLine, 4, Position(0, 2)) == Position(0, 4)
  {
    var lines, pos := ShortIndentedLine, Position(0, 2);
    FirstNonWhitespaceAt(lines[0], 4);
    assert PeekRight(lines, Position(0, 3), 1) == " ";
    assert !StepsRightByOne(lines, 4, pos);
  }

  /**
   * So `deleteRight` from column 2 of the line above removes the `x` along with
   * two spaces, where the intended stop would remove the two spaces only.
   */
  lemma DeleteRightSkipsContentExample()
    ensures DeleteRange(ShortIndentedLine, DeleteRightRange(ShortIndentedLine, 4, Selection(Position(0, 2), Position(0, 2)))) == ["  "]
    ensures DeleteRange(ShortIndentedLine, Range(Position(0, 2), NextRightPositionCorrected(ShortIndentedLine, 4, Position(0, 2)))) == ["  x"]
  {
    var lines := ShortIndentedLine;
    RightSnapSkipsContentExample();
    var r := DeleteRightRange(lines, 4, Selection(Position(0, 2), Position(0, 2)));
    assert r == Range(Position(0, 2), Position(0, 5));
    assert lines[0][..2] + lines[0][5..] == "  ";
    assert lines[0][..2] + lines[0][4..] == "  x";
  }

  // ---------------------------------------------------------------------------
  // The corrected calculators on whole indentation units

  /**
   * Across one indentation unit made of spaces, ending on a tab stop no later
   * than the first non-whitespace column, the corrected calculators snap from
   * its end to its start and back, as the as-written ones do.
   */
  lemma CorrectedIndentUnitRoundTrip(lines: Lines, tabSize: int, line: nat, stop: nat)
    requires ValidDocument(lines) && line < |lines|
    requires tabSize >= 2 && tabSize <= stop <= FirstNonWhitespace(lines[line]) && stop % tabSize == 0
    requires forall i :: stop - tabSize <= i < stop ==> lines[line][i] == ' '
    ensures NextLeftPositionCorrected(lines, tabSize, Position(line, stop)) == Position(line, stop - tabSize)
    ensures NextRightPositionCorrected(lines, tabSize, Position(line, stop - tabSize)) == Position(line, stop)
  {
    IndentUnitRoundTrip(lines, tabSize, line, stop);
    LeftCalculatorsAgree(lines, tabSize, Position(line, stop));
    RightCalculatorsAgree(lines, tabSize, Position(line, stop - tabSize));
  }
}
