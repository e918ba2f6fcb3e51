/**
 * The editor commands of TabSanity: move and extend left/right, two-stage
 * home, end, and delete left/right. Each command is first given per selection
 * as a function; the class `TabSanity` holds the document snapshot and the
 * editor's selections and applies a command to every selection. The commands
 * step with `findNextLeftPosition` and `findNextRightPosition` exactly as the
 * source writes them.
 */
module Commands {
  import opened TextModel
  import opened TabStops

  // ---------------------------------------------------------------------------
  // The commands on one selection

  /** `cursorLeft` on one selection: a selection collapses to its start, a caret takes one step left. */
  function MoveLeft(lines: Lines, tabSize: int, sel: Selection): (r: Selection)
    requires ValidDocument(lines) && ValidSelection(lines, sel)
    ensures ValidSelection(lines, r) && r.IsEmpty()
    ensures r.active.IsBeforeOrEqual(sel.Start())
    ensures !sel.IsEmpty() ==> r.active == sel.Start()
    ensures sel.IsEmpty() ==> r.active == NextLeftPosition(lines, tabSize, sel.active)
  {
    var start := if sel.IsEmpty() then NextLeftPosition(lines, tabSize, sel.Start()) else sel.Start();
    Selection(start, start)
  }

  /** `cursorRight` on one selection: a selection collapses to its end, a caret takes one step right. */
  function MoveRight(lines: Lines, tabSize: int, sel: Selection): (r: Selection)
    requires ValidDocument(lines) && ValidSelection(lines, sel)
    ensures ValidSelection(lines, r) && r.IsEmpty()
    ensures sel.End().IsBeforeOrEqual(r.active)
    ensures !sel.IsEmpty() ==> r.active == sel.End()
    ensures sel.IsEmpty() ==> r.active == NextRightPosition(lines, tabSize, sel.active)
  {
    var end := if sel.IsEmpty() then NextRightPosition(lines, tabSize, sel.End()) else sel.End();
    Selection(end, end)
  }

  /** `cursorLeftSelect` on one selection: the anchor stays, the active end takes one step left. */
  function ExtendLeft(lines: Lines, tabSize: int, sel: Selection): (r: Selection)
    requires ValidDocument(lines) && ValidSelection(lines, sel)
    ensures ValidSelection(lines, r)
    ensures r.anchor == sel.anchor
    ensures r.active.IsBeforeOrEqual(sel.active)
    ensures r.active == NextLeftPosition(lines, tabSize, sel.active)
  {
    Selection(sel.anchor, NextLeftPosition(lines, tabSize, sel.active))
  }

  /** `cursorRightSelect` on one selection: the anchor stays, the active end takes one step right. */
  function ExtendRight(lines: Lines, tabSize: int, sel: Selection): (r: Selection)
    requires ValidDocument(lines) && ValidSelection(lines, sel)
    ensures ValidSelection(lines, r)
    ensures r.anchor == sel.anchor
    ensures sel.active.IsBeforeOrEqual(r.active)
    ensures r.active == NextRightPosition(lines, tabSize, sel.active)
  {
    Selection(sel.anchor, NextRightPosition(lines, tabSize, sel.active))
  }

  /** `fallbackToStartOfLine`: column 0 when the caret is already on the proposed start. */
  function FallbackToStartOfLine(start: Position, newStart: Position): (p: Position)
    ensures p == newStart || p == Position(start.line, 0)
    ensures start == newStart ==> p.character == 0
    ensures start != newStart ==> p == newStart
  {
    if start == newStart then Position(start.line, 0) else newStart
  }

  /**
   * `cursorHomeSelect` on one selection: the anchor stays; the active end goes
   * to the first non-whitespace column of the line holding the selection's
   * start, or to column 0 when the start is already there.
   */
  function HomeSelect(lines: Lines, sel: Selection): (r: Selection)
    requires ValidDocument(lines) && ValidSelection(lines, sel)
    ensures ValidSelection(lines, r)
    ensures r.anchor == sel.anchor
    ensures r.active.line == sel.Start().line
    ensures var indent := FirstNonWhitespace(lines[sel.Start().line]);
            && (r.active.character == 0 || r.active.character == indent)
            && (r.active.character == 0 <==> sel.Start().character == indent || indent == 0)
  {
    var newStart := FindFirstNonWhitespace(lines, sel.Start().line, 0);
    Selection(sel.anchor, FallbackToStartOfLine(sel.Start(), newStart))
  }

  /**
   * `cursorEndSelect` on one selection: the anchor stays; the active end goes
   * to the end of the line holding the selection's end.
   */
  function EndSelect(lines: Lines, sel: Selection): (r: Selection)
    requires ValidDocument(lines) && ValidSelection(lines, sel)
    ensures ValidSelection(lines, r)
    ensures r.anchor == sel.anchor
    ensures r.active.line == sel.End().line && IsEndOfLine(lines, r.active)
  {
    var endLine := lines[sel.End().line];
    Selection(sel.anchor, Position(sel.End().line, |endLine|))
  }

  /**
   * The range `deleteLeft` removes for one selection: a selection's own range,
   * or for a caret the span from the left calculator's result to the caret,
   * which is empty only at the document's start.
   */
  function DeleteLeftRange(lines: Lines, tabSize: int, sel: Selection): (r: Range)
    requires ValidDocument(lines) && ValidSelection(lines, sel)
    ensures ValidRange(lines, r)
    ensures !sel.IsEmpty() ==> r == sel.AsRange()
    ensures sel.IsEmpty() ==> r.end == sel.active && r.start == NextLeftPosition(lines, tabSize, sel.active)
    ensures r.IsEmpty() <==> sel.IsEmpty() && sel.active == Position(0, 0)
  {
    var start := sel.Start();
    if !sel.IsEmpty() then sel.AsRange()
    else
      var deleteStartPosition := NextLeftPosition(lines, tabSize, start);
      RangeBetween(deleteStartPosition, start)
  }

  /**
   * The range `deleteRight` removes for one selection: a selection's own
   * range, or for a caret the span from the caret to the right calculator's
   * result, which is empty only at the document's end.
   */
  function DeleteRightRange(lines: Lines, tabSize: int, sel: Selection): (r: Range)
    requires ValidDocument(lines) && ValidSelection(lines, sel)
    ensures ValidRange(lines, r)
    ensures !sel.IsEmpty() ==> r == sel.AsRange()
    ensures sel.IsEmpty() ==> r.start == sel.active && r.end == NextRightPosition(lines, tabSize, sel.active)
    ensures r.IsEmpty() <==> sel.IsEmpty() && sel.active == Position(|lines| - 1, |lines[|lines| - 1]|)
  {
    var end := sel.End();
    if !sel.IsEmpty() then sel.AsRange()
    else
      var deleteEndPosition := NextRightPosition(lines, tabSize, end);
      RangeBetween(end, deleteEndPosition)
  }

  /** What one `edit.delete(range)` does to the document: the range's text is removed and its two lines are joined. */
  function DeleteRange(lines: Lines, r: Range): (result: Lines)
    requires ValidRange(lines, r)
    ensures ValidDocument(lines) ==> ValidDocument(result)
    ensures |result| == |lines| - (r.end.line - r.start.line)
    ensures forall i :: 0 <= i < r.start.line ==> result[i] == lines[i]
    ensures result[r.start.line] == lines[r.start.line][..r.start.character] + lines[r.end.line][r.end.character..]
    ensures forall i :: r.start.line < i < |result| ==> result[i] == lines[i + (r.end.line - r.start.line)]
  {
    var joined := lines[r.start.line][..r.start.character] + lines[r.end.line][r.end.character..];
    lines[..r.start.line] + [joined] + lines[r.end.line + 1..]
  }

  // ---------------------------------------------------------------------------
  // Properties of the commands

  /** Deleting from a caret removes exactly the span the corresponding move crosses. */
  lemma DeleteMatchesMove(lines: Lines, tabSize: int, sel: Selection)
    requires ValidDocument(lines) && ValidSelection(lines, sel) && sel.IsEmpty()
    ensures DeleteLeftRange(lines, tabSize, sel) == Range(MoveLeft(lines, tabSize, sel).active, sel.active)
    ensures DeleteRightRange(lines, tabSize, sel) == Range(sel.active, MoveRight(lines, tabSize, sel).active)
  {
  }

  /** An empty range leaves the document as it was, so deleting at the document's edges is a no-op. */
  lemma {:induction false} DeleteEmptyRangeKeepsText(lines: Lines, r: Range)
    requires ValidRange(lines, r) && r.IsEmpty()
    ensures DeleteRange(lines, r) == lines
  {
    var result := DeleteRange(lines, r);
    assert lines[r.start.line] == lines[r.start.line][..r.start.character] + lines[r.start.line][r.start.character..];
    assert |result| == |lines|;
    forall i | 0 <= i < |lines| ensures result[i] == lines[i] {
    }
  }

  /**
   * Backspace from a caret inside a line removes the characters between the
   * left calculator's column and the caret and nothing else; when that is
   * more than one character, all of them are whitespace.
   */
  lemma DeleteLeftOnLine(lines: Lines, tabSize: int, sel: Selection)
    requires ValidDocument(lines) && ValidSelection(lines, sel) && sel.IsEmpty() && sel.active.character > 0
    ensures var pos := sel.active;
            var target := NextLeftPosition(lines, tabSize, pos).character;
            var result := DeleteRange(lines, DeleteLeftRange(lines, tabSize, sel));
            var text := lines[pos.line];
            && |result| == |lines|
            && (forall i :: 0 <= i < |lines| && i != pos.line ==> result[i] == lines[i])
            && result[pos.line] == text[..target] + text[pos.character..]
            && |result[pos.line]| == |text| - (pos.character - target)
            && (target < pos.character - 1 ==> forall i :: target <= i < pos.character ==> IsWhitespace(text[i]))
  {
    var pos := sel.active;
    if !StepsLeftByOne(lines, tabSize, pos) {
      LeftSnap(lines, tabSize, pos);
    }
  }

  /**
   * Delete from a caret before a line's end removes the characters between
   * the caret and the right calculator's column and nothing else; when a
   * snap moves by more than one column and a full tab size fits on the line,
   * all of them are spaces.
   */
  lemma DeleteRightOnLine(lines: Lines, tabSize: int, sel: Selection)
    requires ValidDocument(lines) && ValidSelection(lines, sel) && sel.IsEmpty()
    requires sel.active.character < |lines[sel.active.line]|
    ensures var pos := sel.active;
            var target := NextRightPosition(lines, tabSize, pos).character;
            var result := DeleteRange(lines, DeleteRightRange(lines, tabSize, sel));
            var text := lines[pos.line];
            && |result| == |lines|
            && (forall i :: 0 <= i < |lines| && i != pos.line ==> result[i] == lines[i])
            && result[pos.line] == text[..pos.character] + text[target..]
            && |result[pos.line]| == |text| - (target - pos.character)
            && (pos.character + 1 < target && pos.character + tabSize <= |text| ==>
                  forall i :: pos.character <= i < target ==> text[i] == ' ')
  {
    var pos := sel.active;
    if !StepsRightByOne(lines, tabSize, pos) {
      RightSnap(lines, tabSize, pos);
    }
  }

  /** An indented line: four spaces, then content. */
  const IndentedFoo: Lines := ["    foo"]

  /** Backspace at column 4 of the line above with tab size 4 removes the whole indent, leaving "foo". */
  lemma DeleteLeftIndentExample()
    ensures DeleteRange(IndentedFoo, DeleteLeftRange(IndentedFoo, 4, Selection(Position(0, 4), Position(0, 4)))) == ["foo"]
  {
    var lines, pos := IndentedFoo, Position(0, 4);
    FirstNonWhitespaceAt(lines[0], 4);
    assert PeekRight(lines, Position(0, 3), 1) == " ";
    assert !StepsLeftByOne(lines, 4, pos);
    PreviousTabStopValue(4, 4);
    assert NextLeftPosition(lines, 4, pos) == Position(0, 0);
    var r := DeleteLeftRange(lines, 4, Selection(pos, pos));
    assert r == Range(Position(0, 0), pos);
    var result := DeleteRange(lines, r);
    assert lines[0][..0] + lines[0][4..] == "foo";
    assert |result| == 1 && result[0] == "foo";
    assert result == ["foo"];
  }

  /**
   * Inside a line's content, extending one step left and then one step right
   * returns the same selection, and so does the opposite order.
   */
  lemma ExtendRoundTrip(lines: Lines, tabSize: int, sel: Selection)
    requires ValidDocument(lines) && ValidSelection(lines, sel)
    ensures var text := lines[sel.active.line];
            FirstNonWhitespace(text) < sel.active.character ==>
              ExtendRight(lines, tabSize, ExtendLeft(lines, tabSize, sel)) == sel
    ensures var text := lines[sel.active.line];
            FirstNonWhitespace(text) <= sel.active.character < |text| ==>
              ExtendLeft(lines, tabSize, ExtendRight(lines, tabSize, sel)) == sel
  {
  }

  /** Repeating `cursorEndSelect` changes nothing: the new active end is already at the end of the selection's end line. */
  lemma EndSelectIdempotent(lines: Lines, sel: Selection)
    requires ValidDocument(lines) && ValidSelection(lines, sel)
    ensures EndSelect(lines, EndSelect(lines, sel)) == EndSelect(lines, sel)
  {
    var once := EndSelect(lines, sel);
    assert sel.End().IsBeforeOrEqual(once.active);
    assert sel.anchor.IsBeforeOrEqual(once.active);
  }

  /**
   * The two stages of home: on a one-line selection anchored at or after a
   * line's indentation, repeated `cursorHomeSelect` alternates the active end
   * between the first non-whitespace column and column 0.
   */
  lemma HomeSelectAlternates(lines: Lines, sel: Selection)
    requires ValidDocument(lines) && ValidSelection(lines, sel)
    requires sel.anchor.line == sel.active.line
    requires 0 < FirstNonWhitespace(lines[sel.anchor.line]) <= sel.anchor.character
    ensures var once := HomeSelect(lines, sel);
            var twice := HomeSelect(lines, once);
            var indent := FirstNonWhitespace(lines[sel.anchor.line]);
            && {once.active.character, twice.active.character} == {0, indent}
            && once.active.line == twice.active.line == sel.anchor.line
            && HomeSelect(lines, twice) == once
  {
  }

  // ---------------------------------------------------------------------------
  // The class: the editor's state and the commands over all selections

  /**
   * TabSanity bound to one editor: the document snapshot, the editor's
   * selections and its `tabSize` option. Commands replace `selections` and
   * return the new list, as `assignSelections` does.
   */
  class TabSanity {
    var lines: Lines
    var selections: seq<Selection>
    var tabSizeOption: TabSizeOption

    ghost predicate Valid()
      reads this
    {
      ValidDocument(lines) && forall i :: 0 <= i < |selections| ==> ValidSelection(lines, selections[i])
    }

    /** The `tabSize` getter. */
    function TabSize(): int
      reads this
    {
      TabSizeOf(tabSizeOption)
    }

    constructor (lines: Lines, selections: seq<Selection>, tabSizeOption: TabSizeOption)
      requires ValidDocument(lines)
      requires forall i :: 0 <= i < |selections| ==> ValidSelection(lines, selections[i])
      ensures Valid()
      ensures this.lines == lines && this.selections == selections && this.tabSizeOption == tabSizeOption
    {
      this.lines := lines;
      this.selections := selections;
      this.tabSizeOption := tabSizeOption;
    }

    /** `assignSelections`: the editor's selections become the given ones, which are returned. */
    method AssignSelections(newSelections: seq<Selection>) returns (result: seq<Selection>)
      requires ValidDocument(lines)
      requires forall i :: 0 <= i < |newSelections| ==> ValidSelection(lines, newSelections[i])
      modifies this`selections
      ensures Valid()
      ensures selections == newSelections && result == newSelections
    {
      selections := newSelections;
      result := selections;
    }

    method CursorLeft() returns (result: seq<Selection>)
      requires Valid()
      modifies this`selections
      ensures Valid() && lines == old(lines) && tabSizeOption == old(tabSizeOption)
      ensures selections == result && |result| == |old(selections)|
      ensures forall i :: 0 <= i < |result| ==> result[i] == MoveLeft(lines, TabSize(), old(selections)[i])
    {
      var doc, sels, t := lines, selections, TabSize();
      var updated := seq(|sels|, i requires 0 <= i < |sels| => MoveLeft(doc, t, sels[i]));
      result := AssignSelections(updated);
    }

    method CursorRight() returns (result: seq<Selection>)
      requires Valid()
      modifies this`selections
      ensures Valid() && lines == old(lines) && tabSizeOption == old(tabSizeOption)
      ensures selections == result && |result| == |old(selections)|
      ensures forall i :: 0 <= i < |result| ==> result[i] == MoveRight(lines, TabSize(), old(selections)[i])
    {
      var doc, sels, t := lines, selections, TabSize();
      var updated := seq(|sels|, i requires 0 <= i < |sels| => MoveRight(doc, t, sels[i]));
      result := AssignSelections(updated);
    }

    method CursorLeftSelect() returns (result: seq<Selection>)
      requires Valid()
      modifies this`selections
      ensures Valid() && lines == old(lines) && tabSizeOption == old(tabSizeOption)
      ensures selections == result && |result| == |old(selections)|
      ensures forall i :: 0 <= i < |result| ==> result[i] == ExtendLeft(lines, TabSize(), old(selections)[i])
    {
      var doc, sels, t := lines, selections, TabSize();
      var updated := seq(|sels|, i requires 0 <= i < |sels| => ExtendLeft(doc, t, sels[i]));
      result := AssignSelections(updated);
    }

    method CursorRightSelect() returns (result: seq<Selection>)
      requires Valid()
      modifies this`selections
      ensures Valid() && lines == old(lines) && tabSizeOption == old(tabSizeOption)
      ensures selections == result && |result| == |old(selections)|
      ensures forall i :: 0 <= i < |result| ==> result[i] == ExtendRight(lines, TabSize(), old(selections)[i])
    {
      var doc, sels, t := lines, selections, TabSize();
      var updated := seq(|sels|, i requires 0 <= i < |sels| => ExtendRight(doc, t, sels[i]));
      result := AssignSelections(updated);
    }

    method CursorHomeSelect() returns (result: seq<Selection>)
      requires Valid()
      modifies this`selections
      ensures Valid() && lines == old(lines) && tabSizeOption == old(tabSizeOption)
      ensures selections == result && |result| == |old(selections)|
      ensures forall i :: 0 <= i < |result| ==> result[i] == HomeSelect(lines, old(selections)[i])
    {
      var doc, sels := lines, selections;
      var updated := seq(|sels|, i requires 0 <= i < |sels| => HomeSelect(doc, sels[i]));
      result := AssignSelections(updated);
    }

    method CursorEndSelect() returns (result: seq<Selection>)
      requires Valid()
      modifies this`selections
      ensures Valid() && lines == old(lines) && tabSizeOption == old(tabSizeOption)
      ensures selections == result && |result| == |old(selections)|
      ensures forall i :: 0 <= i < |result| ==> result[i] == EndSelect(lines, old(selections)[i])
    {
      var doc, sels := lines, selections;
      var updated := seq(|sels|, i requires 0 <= i < |sels| => EndSelect(doc, sels[i]));
      result := AssignSelections(updated);
    }

    /**
     * `deleteLeft`: for each selection in turn, the range its edit deletes,
     * all computed against the current snapshot.
     */
    method DeleteLeft() returns (edits: seq<Range>)
      requires Valid()
      ensures |edits| == |selections|
      ensures forall i :: 0 <= i < |edits| ==> edits[i] == DeleteLeftRange(lines, TabSize(), selections[i])
    {
      var t := TabSize();
      edits := [];
      for k := 0 to |selections|
        invariant |edits| == k
        invariant forall i :: 0 <= i < k ==> edits[i] == DeleteLeftRange(lines, t, selections[i])
      {
        var selection := selections[k];
        var start := selection.Start();
        if !selection.IsEmpty() {
          edits := edits + [selection.AsRange()];
          continue;
        }
        var deleteStartPosition := NextLeftPosition(lines, t, start);
        edits := edits + [RangeBetween(deleteStartPosition, start)];
      }
    }

    /**
     * `deleteRight`: for each selection in turn, the range its edit deletes,
     * all computed against the current snapshot.
     */
    method DeleteRight() returns (edits: seq<Range>)
      requires Valid()
      ensures |edits| == |selections|
      ensures forall i :: 0 <= i < |edits| ==> edits[i] == DeleteRightRange(lines, TabSize(), selections[i])
    {
      var t := TabSize();
      edits := [];
      for k := 0 to |selections|
        invariant |edits| == k
        invariant forall i :: 0 <= i < k ==> edits[i] == DeleteRightRange(lines, t, selections[i])
      {
        var selection := selections[k];
        var end := selection.End();
        if !selection.IsEmpty() {
          edits := edits + [selection.AsRange()];
          continue;
        }
        var deleteEndPosition := NextRightPosition(lines, t, end);
        edits := edits + [RangeBetween(end, deleteEndPosition)];
      }
    }
  }
}
