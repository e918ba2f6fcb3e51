/**
 * The read-only view of an editor document that the tab-stop logic works on:
 * positions, ranges, selections, the per-line first-non-whitespace offset and
 * the clamped text lookup the host editor provides.
 */
module TextModel {

  /** A document snapshot: its lines, without line separators. */
  type Lines = seq<string>

  const TAB: char := '\t'

  /** A caret position: zero-based line and character offset. */
  datatype Position = Position(line: nat, character: nat) {
    /** The host's total order on positions: by line, then by character. */
    predicate IsBefore(other: Position) {
      line < other.line || (line == other.line && character < other.character)
    }

    predicate IsBeforeOrEqual(other: Position) {
      IsBefore(other) || this == other
    }
  }

  /** A range whose start is never after its end. */
  datatype Range = Range(start: Position, end: Position) {
    predicate IsEmpty() { start == end }
  }

  /** The host's `new Range(a, b)`: the two positions, put in order. */
  function RangeBetween(a: Position, b: Position): (r: Range)
    ensures r.start.IsBeforeOrEqual(r.end)
    ensures (r.start == a && r.end == b) || (r.start == b && r.end == a)
  {
    if b.IsBefore(a) then Range(b, a) else Range(a, b)
  }

  /** A selection: the anchor stays put, the active end is the caret. */
  datatype Selection = Selection(anchor: Position, active: Position) {
    function Start(): (p: Position)
      ensures p.IsBeforeOrEqual(anchor) && p.IsBeforeOrEqual(active)
      ensures p == anchor || p == active
    {
      if active.IsBefore(anchor) then active else anchor
    }

    function End(): (p: Position)
      ensures anchor.IsBeforeOrEqual(p) && active.IsBeforeOrEqual(p)
      ensures p == anchor || p == active
    {
      if active.IsBefore(anchor) then anchor else active
    }

    predicate IsEmpty() { anchor == active }

    /** A selection seen as the range it covers. */
    function AsRange(): (r: Range)
      ensures r.start.IsBeforeOrEqual(r.end)
      ensures r.start == Start() && r.end == End()
      ensures r.IsEmpty() <==> IsEmpty()
    {
      Range(Start(), End())
    }
  }

  /** The document always has at least one line. */
  predicate ValidDocument(lines: Lines) {
    |lines| >= 1
  }

  /** The position names an existing line and a column no further than its end. */
  predicate ValidPosition(lines: Lines, p: Position) {
    p.line < |lines| && p.character <= |lines[p.line]|
  }

  predicate ValidSelection(lines: Lines, s: Selection) {
    ValidPosition(lines, s.anchor) && ValidPosition(lines, s.active)
  }

  predicate ValidRange(lines: Lines, r: Range) {
    ValidPosition(lines, r.start) && ValidPosition(lines, r.end) && r.start.IsBeforeOrEqual(r.end)
  }

  /** The characters the host treats as indentation. */
  predicate IsWhitespace(ch: char) {
    ch == ' ' || ch == TAB
  }

  /**
   * The line's `firstNonWhitespaceCharacterIndex`: the first offset holding a
   * non-whitespace character, or the line's length when there is none.
   */
  function FirstNonWhitespace(text: string): (k: nat)
    ensures k <= |text|
    ensures forall i :: 0 <= i < k ==> IsWhitespace(text[i])
    ensures k < |text| ==> !IsWhitespace(text[k])
  {
    if |text| == 0 || !IsWhitespace(text[0]) then 0 else 1 + FirstNonWhitespace(text[1..])
  }

  /** The first non-whitespace offset is the only offset with that description. */
  lemma {:induction false} FirstNonWhitespaceAt(text: string, k: nat)
    requires k <= |text|
    requires forall i :: 0 <= i < k ==> IsWhitespace(text[i])
    requires k < |text| ==> !IsWhitespace(text[k])
    ensures FirstNonWhitespace(text) == k
  {
    if k > 0 {
      FirstNonWhitespaceAt(text[1..], k - 1);
    }
  }

  /**
   * The host's `getText` on a range within one line: the two offsets are put
   * in order and each is clamped to the line's length.
   */
  function GetText(text: string, from: nat, to: nat): (s: string)
    ensures from <= to ==> |s| == (if to <= |text| then to else |text|) - (if from <= |text| then from else |text|)
    ensures from <= to ==> forall i :: 0 <= i < |s| ==> s[i] == text[from + i]
    ensures to < from ==> |s| == (if from <= |text| then from else |text|) - (if to <= |text| then to else |text|)
    ensures to < from ==> forall i :: 0 <= i < |s| ==> s[i] == text[to + i]
  {
    var lo := if from <= to then from else to;
    var hi := if from <= to then to else from;
    var a := if lo <= |text| then lo else |text|;
    var b := if hi <= |text| then hi else |text|;
    text[a..b]
  }

  /** `peekLeft(position, chars)`: the `chars` characters just left of the position. */
  function PeekLeft(lines: Lines, pos: Position, chars: nat): (s: string)
    requires ValidPosition(lines, pos)
    requires chars <= pos.character
    ensures s == lines[pos.line][pos.character - chars..pos.character]
  {
    GetText(lines[pos.line], pos.character - chars, pos.character)
  }

  /**
   * `peekRight(position, chars)`: up to `chars` characters starting at the
   * position, fewer when the line ends first.
   */
  function PeekRight(lines: Lines, pos: Position, chars: nat): (s: string)
    requires ValidPosition(lines, pos)
    ensures |s| == if pos.character + chars <= |lines[pos.line]| then chars else |lines[pos.line]| - pos.character
    ensures forall i :: 0 <= i < |s| ==> s[i] == lines[pos.line][pos.character + i]
  {
    GetText(lines[pos.line], pos.character, pos.character + chars)
  }

  /** The regular expression `^ +$`: one or more spaces and nothing else. */
  predicate AllSpaces(s: string) {
    |s| > 0 && forall i :: 0 <= i < |s| ==> s[i] == ' '
  }

  /** The editor option `tabSize`: a number, or the string 'auto'. */
  datatype TabSizeOption = Auto | Fixed(size: int)

  /** The class's `tabSize` getter: 'auto' reads as 4. */
  function TabSizeOf(option: TabSizeOption): int {
    match option
    case Auto => 4
    case Fixed(n) => n
  }
}
