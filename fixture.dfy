/**
 * The caret stops the test suite expects on its space-indented fixture with
 * tab size 4: repeated `cursorRight` from the document's start, repeated
 * `cursorLeft` from its end, and their selecting variants. The walks use the
 * per-selection commands, which step with the calculators as the source
 * writes them; `FixtureCorrectedChain` shows that the corrected calculators
 * take the same steps on this fixture.
 */
module Fixture {
  import opened TextModel
  import opened TabStops
  import opened Commands
  import opened Findings

  /**
   * A fixture text consistent with the expected stops: an indented word with
   * trailing spaces, a half-indented word, and a line indented twice.
   */
  const FixtureLines: Lines := ["    foo  ", "  bar    ", "        return value;"]

  const FixtureTabSize: int := 4

  /** The expected caret columns, one row per line, as the test lists them. */
  const ExpectedStops: seq<seq<nat>> := [
    [0, 4, 5, 6, 7, 8, 9],
    [0, 1, 2, 3, 4, 5, 6, 7, 8, 9],
    [0, 4, 8, 9, 10, 11, 12, 13, 14, 15, 16, 17, 18, 19, 20, 21]
  ]

  /** The rows of columns as positions in document order, the first row on line `line`. */
  function StopPositions(rows: seq<seq<nat>>, line: nat): (ps: seq<Position>)
    decreases |rows|
  {
    if rows == [] then []
    else seq(|rows[0]|, j requires 0 <= j < |rows[0]| => Position(line, rows[0][j])) + StopPositions(rows[1..], line + 1)
  }

  function Caret(p: Position): Selection {
    Selection(p, p)
  }

  function Reverse<T>(s: seq<T>): (r: seq<T>)
    ensures |r| == |s|
    ensures forall k :: 0 <= k < |s| ==> r[k] == s[|s| - 1 - k]
  {
    if s == [] then [] else Reverse(s[1..]) + [s[0]]
  }

  // ---------------------------------------------------------------------------
  // Repeated commands

  /** The active positions after each of `n` successive `cursorRight` commands. */
  function WalkRight(lines: Lines, tabSize: int, sel: Selection, n: nat): (ps: seq<Position>)
    requires ValidDocument(lines) && ValidSelection(lines, sel)
    ensures |ps| == n
    ensures forall k :: 0 <= k < n ==> ValidPosition(lines, ps[k])
    decreases n
  {
    if n == 0 then []
    else
      var next := MoveRight(lines, tabSize, sel);
      [next.active] + WalkRight(lines, tabSize, next, n - 1)
  }

  /** The active positions after each of `n` successive `cursorLeft` commands. */
  function WalkLeft(lines: Lines, tabSize: int, sel: Selection, n: nat): (ps: seq<Position>)
    requires ValidDocument(lines) && ValidSelection(lines, sel)
    ensures |ps| == n
    ensures forall k :: 0 <= k < n ==> ValidPosition(lines, ps[k])
    decreases n
  {
    if n == 0 then []
    else
      var next := MoveLeft(lines, tabSize, sel);
      [next.active] + WalkLeft(lines, tabSize, next, n - 1)
  }

  /** The selections after each of `n` successive `cursorRightSelect` commands. */
  function WalkRightSelect(lines: Lines, tabSize: int, sel: Selection, n: nat): (ss: seq<Selection>)
    requires ValidDocument(lines) && ValidSelection(lines, sel)
    ensures |ss| == n
    ensures forall k :: 0 <= k < n ==> ValidSelection(lines, ss[k])
    decreases n
  {
    if n == 0 then []
    else
      var next := ExtendRight(lines, tabSize, sel);
      [next] + WalkRightSelect(lines, tabSize, next, n - 1)
  }

  /** The selections after each of `n` successive `cursorLeftSelect` commands. */
  function WalkLeftSelect(lines: Lines, tabSize: int, sel: Selection, n: nat): (ss: seq<Selection>)
    requires ValidDocument(lines) && ValidSelection(lines, sel)
    ensures |ss| == n
    ensures forall k :: 0 <= k < n ==> ValidSelection(lines, ss[k])
    decreases n
  {
    if n == 0 then []
    else
      var next := ExtendLeft(lines, tabSize, sel);
      [next] + WalkLeftSelect(lines, tabSize, next, n - 1)
  }

  /** When each position's right step is the next one, `cursorRight` from a caret at the first visits the rest in order. */
  lemma {:induction false} WalkRightFollows(lines: Lines, tabSize: int, ps: seq<Position>)
    requires ValidDocument(lines) && |ps| >= 1
    requires forall k :: 0 <= k < |ps| ==> ValidPosition(lines, ps[k])
    requires forall k :: 0 <= k < |ps| - 1 ==> NextRightPosition(lines, tabSize, ps[k]) == ps[k + 1]
    ensures WalkRight(lines, tabSize, Caret(ps[0]), |ps| - 1) == ps[1..]
  {
    if |ps| > 1 {
      WalkRightFollows(lines, tabSize, ps[1..]);
    }
  }

  /** When each position's left step is the previous one, `cursorLeft` from a caret at the last visits the rest in reverse. */
  lemma {:induction false} WalkLeftFollows(lines: Lines, tabSize: int, ps: seq<Position>)
    requires ValidDocument(lines) && |ps| >= 1
    requires forall k :: 0 <= k < |ps| ==> ValidPosition(lines, ps[k])
    requires forall k :: 0 <= k < |ps| - 1 ==> NextLeftPosition(lines, tabSize, ps[k + 1]) == ps[k]
    ensures WalkLeft(lines, tabSize, Caret(ps[|ps| - 1]), |ps| - 1) == Reverse(ps[..|ps| - 1])
  {
    if |ps| > 1 {
      var init := ps[..|ps| - 1];
      WalkLeftFollows(lines, tabSize, init);
      assert init[..|init| - 1] == ps[..|ps| - 2];
      assert Reverse(init) == [init[|init| - 1]] + Reverse(init[..|init| - 1]);
    }
  }

  /** Successive `cursorRightSelect` keeps the first anchor and moves the active end as `cursorRight` moves a caret. */
  lemma {:induction false} RightSelectFollowsRight(lines: Lines, tabSize: int, sel: Selection, n: nat)
    requires ValidDocument(lines) && ValidSelection(lines, sel)
    ensures var ss, ps := WalkRightSelect(lines, tabSize, sel, n), WalkRight(lines, tabSize, Caret(sel.active), n);
            forall k :: 0 <= k < n ==> ss[k] == Selection(sel.anchor, ps[k])
    decreases n
  {
    if n > 0 {
      var next := ExtendRight(lines, tabSize, sel);
      assert MoveRight(lines, tabSize, Caret(sel.active)) == Caret(next.active);
      RightSelectFollowsRight(lines, tabSize, next, n - 1);
      assert WalkRight(lines, tabSize, Caret(sel.active), n)
          == [next.active] + WalkRight(lines, tabSize, Caret(next.active), n - 1);
    }
  }

  /** Successive `cursorLeftSelect` keeps the first anchor and moves the active end as `cursorLeft` moves a caret. */
  lemma {:induction false} LeftSelectFollowsLeft(lines: Lines, tabSize: int, sel: Selection, n: nat)
    requires ValidDocument(lines) && ValidSelection(lines, sel)
    ensures var ss, ps := WalkLeftSelect(lines, tabSize, sel, n), WalkLeft(lines, tabSize, Caret(sel.active), n);
            forall k :: 0 <= k < n ==> ss[k] == Selection(sel.anchor, ps[k])
    decreases n
  {
    if n > 0 {
      var next := ExtendLeft(lines, tabSize, sel);
      assert MoveLeft(lines, tabSize, Caret(sel.active)) == Caret(next.active);
      LeftSelectFollowsLeft(lines, tabSize, next, n - 1);
      assert WalkLeft(lines, tabSize, Caret(sel.active), n)
          == [next.active] + WalkLeft(lines, tabSize, Caret(next.active), n - 1);
    }
  }

  /** `cursorRightSelect` from a caret at the first position extends to each later one in turn, keeping the anchor. */
  lemma WalkRightSelectFollows(lines: Lines, tabSize: int, ps: seq<Position>)
    requires ValidDocument(lines) && |ps| >= 1
    requires forall k :: 0 <= k < |ps| ==> ValidPosition(lines, ps[k])
    requires forall k :: 0 <= k < |ps| - 1 ==> NextRightPosition(lines, tabSize, ps[k]) == ps[k + 1]
    ensures var ss := WalkRightSelect(lines, tabSize, Caret(ps[0]), |ps| - 1);
            forall k :: 0 <= k < |ps| - 1 ==> ss[k] == Selection(ps[0], ps[k + 1])
  {
    WalkRightFollows(lines, tabSize, ps);
    RightSelectFollowsRight(lines, tabSize, Caret(ps[0]), |ps| - 1);
  }

  /** `cursorLeftSelect` from a caret at the last position extends to each earlier one in turn, keeping the anchor. */
  lemma WalkLeftSelectFollows(lines: Lines, tabSize: int, ps: seq<Position>)
    requires ValidDocument(lines) && |ps| >= 1
    requires forall k :: 0 <= k < |ps| ==> ValidPosition(lines, ps[k])
    requires forall k :: 0 <= k < |ps| - 1 ==> NextLeftPosition(lines, tabSize, ps[k + 1]) == ps[k]
    ensures var n := |ps| - 1;
            var ss := WalkLeftSelect(lines, tabSize, Caret(ps[n]), n);
            forall k :: 0 <= k < n ==> ss[k] == Selection(ps[n], Reverse(ps[..n])[k])
  {
    var n := |ps| - 1;
    WalkLeftFollows(lines, tabSize, ps);
    LeftSelectFollowsLeft(lines, tabSize, Caret(ps[n]), n);
  }

  // ---------------------------------------------------------------------------
  // Single steps past the indentation

  /** Once the one-step column reaches the first non-whitespace column, a step right is one column. */
  lemma RightStepInContent(lines: Lines, tabSize: int, pos: Position)
    requires ValidDocument(lines) && ValidPosition(lines, pos)
    requires FirstNonWhitespace(lines[pos.line]) <= pos.character + 1 && pos.character < |lines[pos.line]|
    ensures NextRightPosition(lines, tabSize, pos) == Position(pos.line, pos.character + 1)
  {
  }

  /** Once the one-step column is at or past the first non-whitespace column, a step left is one column. */
  lemma LeftStepInContent(lines: Lines, tabSize: int, pos: Position)
    requires ValidDocument(lines) && ValidPosition(lines, pos)
    requires 0 < pos.character && FirstNonWhitespace(lines[pos.line]) <= pos.character - 1
    ensures NextLeftPosition(lines, tabSize, pos) == Position(pos.line, pos.character - 1)
  {
  }

  // ---------------------------------------------------------------------------
  // The fixture

  /** The `k`-th expected stop in document order. */
  function FixtureStop(k: nat): Position {
    if k == 0 then Position(0, 0)
    else if k <= 6 then Position(0, k + 3)
    else if k <= 16 then Position(1, k - 7)
    else if k <= 18 then Position(2, 4 * (k - 17))
    else Position(2, k - 11)
  }

  const FixtureStops: seq<Position> := seq(33, (k: nat) => FixtureStop(k))

  lemma FixtureStopsAreExpected()
    ensures StopPositions(ExpectedStops, 0) == FixtureStops
    ensures |FixtureStops| == 33
  {
  }

  lemma FixtureIndentation()
    ensures FirstNonWhitespace(FixtureLines[0]) == 4
    ensures FirstNonWhitespace(FixtureLines[1]) == 2
    ensures FirstNonWhitespace(FixtureLines[2]) == 8
  {
    FirstNonWhitespaceAt(FixtureLines[0], 4);
    FirstNonWhitespaceAt(FixtureLines[1], 2);
    FirstNonWhitespaceAt(FixtureLines[2], 8);
  }

  /** One step right from `p` reaches `q`, and one step left from `q` returns to `p`. */
  predicate StepPair(p: Position, q: Position) {
    && ValidPosition(FixtureLines, p) && ValidPosition(FixtureLines, q)
    && NextRightPosition(FixtureLines, FixtureTabSize, p) == q
    && NextLeftPosition(FixtureLines, FixtureTabSize, q) == p
  }

  /** Past the indentation every column is a stop in both directions. */
  lemma FixtureLineContentStep(line: nat, c: nat)
    requires line < |FixtureLines| && FirstNonWhitespace(FixtureLines[line]) <= c < |FixtureLines[line]|
    ensures StepPair(Position(line, c), Position(line, c + 1))
  {
    RightStepInContent(FixtureLines, FixtureTabSize, Position(line, c));
    LeftStepInContent(FixtureLines, FixtureTabSize, Position(line, c + 1));
  }

  /** The first line's indentation is one unit, the third line's two; each snaps in both directions. */
  lemma FixtureIndentStep(line: nat, stop: nat)
    requires (line == 0 && stop == 4) || (line == 2 && (stop == 4 || stop == 8))
    ensures StepPair(Position(line, stop - 4), Position(line, stop))
  {
    FixtureIndentation();
    FixtureIndentIsSpaces(line, stop);
    IndentUnitRoundTrip(FixtureLines, FixtureTabSize, line, stop);
  }

  lemma FixtureIndentIsSpaces(line: nat, stop: nat)
    requires (line == 0 && stop == 4) || (line == 2 && (stop == 4 || stop == 8))
    ensures forall i :: stop - 4 <= i < stop ==> FixtureLines[line][i] == ' '
  {
    var text := FixtureLines[line];
    var indent := if line == 0 then 4 else 8;
    assert text[..indent] == if line == 0 then "    " else "        ";
    forall i | stop - 4 <= i < stop ensures text[i] == ' ' {
      assert text[i] == text[..indent][i];
    }
  }

  /** A line's end and the next line's start are one step apart. */
  lemma FixtureWrapStep(line: nat)
    requires line < 2
    ensures StepPair(Position(line, 9), Position(line + 1, 0))
  {
  }

  /** Two spaces of indentation are less than a tab size, so they are walked one column at a time. */
  lemma FixtureShortIndentFirstStep()
    ensures StepPair(Position(1, 0), Position(1, 1))
  {
    var lines, t := FixtureLines, FixtureTabSize;
    FixtureIndentation();
    // the run read from column 1 up to the stop at 4 is " ba", not all spaces
    assert PeekRight(lines, Position(1, 1), 3) == " ba";
    assert StepsRightByOne(lines, t, Position(1, 0));
    assert StepsLeftByOne(lines, t, Position(1, 1));
  }

  lemma FixtureShortIndentSecondStep()
    ensures StepPair(Position(1, 1), Position(1, 2))
  {
    var lines, t := FixtureLines, FixtureTabSize;
    FixtureIndentation();
    assert PeekRight(lines, Position(1, 1), 3) == " ba";
    RightStepInContent(lines, t, Position(1, 1));
    assert StepsLeftByOne(lines, t, Position(1, 2));
  }

  /** Consecutive expected stops are one step apart in both directions. */
  lemma FixtureSteps(k: nat)
    requires k < 32
    ensures StepPair(FixtureStop(k), FixtureStop(k + 1))
  {
    if k == 0 {
      FixtureIndentStep(0, 4);
    } else if k == 17 || k == 18 {
      FixtureIndentStep(2, 4 * (k - 16));
    } else if k == 6 || k == 16 {
      FixtureWrapStep(if k == 6 then 0 else 1);
    } else if k == 7 {
      FixtureShortIndentFirstStep();
    } else if k == 8 {
      FixtureShortIndentSecondStep();
    } else {
      FixtureContentSteps(k);
    }
  }

  lemma FixtureContentSteps(k: nat)
    requires k < 32 && k !in {0, 6, 7, 8, 16, 17, 18}
    ensures StepPair(FixtureStop(k), FixtureStop(k + 1))
  {
    FixtureIndentation();
    if k < 6 {
      FixtureLineContentStep(0, k + 3);
    } else if k < 16 {
      FixtureLineContentStep(1, k - 7);
    } else {
      FixtureLineContentStep(2, k - 11);
    }
  }

  /**
   * On the fixture the corrected calculators take the same steps as the ones
   * the source writes: every snap is within twice the tab size and has a full
   * tab size before the line's end, and every other move is a single step or
   * a wrap.
   */
  lemma FixtureCorrectedStep(k: nat)
    requires k < 32
    ensures var p, q := FixtureStop(k), FixtureStop(k + 1);
            && NextRightPositionCorrected(FixtureLines, FixtureTabSize, p) == q
            && NextLeftPositionCorrected(FixtureLines, FixtureTabSize, q) == p
  {
    var lines, t := FixtureLines, FixtureTabSize;
    var p, q := FixtureStop(k), FixtureStop(k + 1);
    FixtureSteps(k);
    RightCalculatorsAgree(lines, t, p);
    LeftCalculatorsAgree(lines, t, q);
    if k !in {0, 6, 16, 17, 18} {
      // a single step in both directions
      RightSingleStepExactly(lines, t, p);
      LeftSingleStepExactly(lines, t, q);
    }
  }

  /** Every expected stop is a valid position, and consecutive ones are one step apart in both directions. */
  lemma FixtureStopsChain()
    ensures forall k :: 0 <= k < |FixtureStops| ==> ValidPosition(FixtureLines, FixtureStops[k])
    ensures forall k :: 0 <= k < |FixtureStops| - 1 ==>
              NextRightPosition(FixtureLines, FixtureTabSize, FixtureStops[k]) == FixtureStops[k + 1]
    ensures forall k :: 0 <= k < |FixtureStops| - 1 ==>
              NextLeftPosition(FixtureLines, FixtureTabSize, FixtureStops[k + 1]) == FixtureStops[k]
  {
    forall k | 0 <= k < |FixtureStops| - 1 ensures StepPair(FixtureStops[k], FixtureStops[k + 1]) {
      FixtureSteps(k);
    }
  }

  /** `cursorRight` repeated from the document's start visits every expected stop after the first, in order. */
  lemma FixtureCursorRight()
    ensures WalkRight(FixtureLines, FixtureTabSize, Caret(Position(0, 0)), 32) == FixtureStops[1..]
  {
    FixtureStopsChain();
    WalkRightFollows(FixtureLines, FixtureTabSize, FixtureStops);
  }

  /** `cursorLeft` repeated from the document's end visits the expected stops in reverse, down to the document's start. */
  lemma FixtureCursorLeft()
    ensures WalkLeft(FixtureLines, FixtureTabSize, Caret(Position(2, 21)), 32) == Reverse(FixtureStops[..32])
  {
    FixtureStopsChain();
    WalkLeftFollows(FixtureLines, FixtureTabSize, FixtureStops);
  }

  /** `cursorRightSelect` repeated from the document's start keeps the first anchor and its active end visits the expected stops. */
  lemma FixtureCursorRightSelect()
    ensures var ss := WalkRightSelect(FixtureLines, FixtureTabSize, Caret(Position(0, 0)), 32);
            forall k :: 0 <= k < 32 ==> ss[k] == Selection(Position(0, 0), FixtureStops[k + 1])
  {
    FixtureStopsChain();
    WalkRightSelectFollows(FixtureLines, FixtureTabSize, FixtureStops);
  }

  /** `cursorLeftSelect` repeated from the document's end keeps the first anchor and its active end visits the stops in reverse. */
  lemma FixtureCursorLeftSelect()
    ensures var ss := WalkLeftSelect(FixtureLines, FixtureTabSize, Caret(Position(2, 21)), 32);
            forall k :: 0 <= k < 32 ==> ss[k] == Selection(Position(2, 21), Reverse(FixtureStops[..32])[k])
  {
    FixtureStopsChain();
    WalkLeftSelectFollows(FixtureLines, FixtureTabSize, FixtureStops);
  }

  /** The test's expectations hold for the corrected calculators too: consecutive stops are one corrected step apart. */
  lemma FixtureCorrectedChain()
    ensures forall k :: 0 <= k < |FixtureStops| - 1 ==>
              && NextRightPositionCorrected(FixtureLines, FixtureTabSize, FixtureStops[k]) == FixtureStops[k + 1]
              && NextLeftPositionCorrected(FixtureLines, FixtureTabSize, FixtureStops[k + 1]) == FixtureStops[k]
  {
    forall k | 0 <= k < |FixtureStops| - 1
      ensures NextRightPositionCorrected(FixtureLines, FixtureTabSize, FixtureStops[k]) == FixtureStops[k + 1]
      ensures NextLeftPositionCorrected(FixtureLines, FixtureTabSize, FixtureStops[k + 1]) == FixtureStops[k]
    {
      FixtureCorrectedStep(k);
    }
  }
}
