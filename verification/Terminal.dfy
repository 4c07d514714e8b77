/**
The simple terminal that the graphics console's OutputString has to behave like: it takes one
character at a time, has no drawing cursor, and knows nothing of batches or of recursion.
*/
module Terminal {
  import opened Screen

  type Char16 = c: nat | 0 < c < 0x10000 witness 32

  const CHAR_BACKSPACE: Char16 := 8
  const CHAR_LINEFEED: Char16 := 10
  const CHAR_CARRIAGE_RETURN: Char16 := 13
  const CHAR_SPACE: Char16 := 32
  const NARROW_CHAR: Char16 := 0xFFF0
  const WIDE_CHAR: Char16 := 0xFFF1

  const SPACE_STRING: seq<Char16> := [NARROW_CHAR, CHAR_SPACE]
  const CRLF_STRING: seq<Char16> := [CHAR_CARRIAGE_RETURN, CHAR_LINEFEED]

  // The sixteen colours as 32-bit pixels (blue is the low byte).
  const COLORS: seq<bv32> := [
    0x000000, 0x000098, 0x009800, 0x009898, 0x980000, 0x980098, 0x989800, 0x989898,
    0x303030, 0x0000FF, 0x00FF00, 0x00FFFF, 0xFF0000, 0xFF00FF, 0xFFFF00, 0xFFFFFF]

  // Bits 0..3, bits 4..6 and the wide bit (0x80) of the attribute word.
  datatype Attribute = Attribute(foreground: nat, background: nat, wide: bool) {
    predicate Valid() {
      foreground < 16 && background < 8
    }
    function ForegroundColor(): bv32 requires Valid() { COLORS[foreground] }
    function BackgroundColor(): bv32 requires Valid() { COLORS[background] }
  }

  // One text mode: its size, and whether the margin right of it is a whole cell wide.
  datatype ModeData = ModeData(columns: nat, rows: nat, margin: bool) {
    predicate Usable() {
      columns >= 2 && rows >= 1
    }
    function Width(): nat {
      columns + if margin then 1 else 0
    }
  }

  datatype State = State(
    font: Font, mode: ModeData, text: Grid, row: nat, col: nat, attr: Attribute, visible: bool)
  {
    // col may equal the number of columns only between two driver calls.
    ghost predicate Valid() {
      && mode.Usable()
      && row < mode.rows
      && col <= mode.columns
      && attr.Valid()
      && Rectangle(text, mode.rows, mode.Width())
    }

    ghost predicate InRange() {
      Valid() && col < mode.columns
    }

    // What the display shows: the text, with the cursor glyph XORed in when it is visible.
    ghost function Display(): Grid
      requires Valid()
    {
      if visible then XorAt(text, row, col, attr.ForegroundColor()) else text
    }

    // The same terminal with the displayed pixels taken for its text.
    ghost function Shown(): State
      requires Valid()
    {
      this.(text := Display())
    }
  }

  // Everything but the text and the cursor position is as before.
  ghost predicate SameSettings(t: State, u: State) {
    t.font == u.font && t.mode == u.mode && t.attr == u.attr && t.visible == u.visible
  }

  predicate Printable(c: Char16) {
    && c != CHAR_BACKSPACE && c != CHAR_LINEFEED && c != CHAR_CARRIAGE_RETURN
    && c != WIDE_CHAR && c != NARROW_CHAR
  }

  function CellWidth(a: Attribute): nat {
    if a.wide then 2 else 1
  }

  // The cells that n characters occupy.
  function Span(n: nat, a: Attribute): nat {
    if a.wide then 2 * n else n
  }

  // The cells of a character.
  function Cells(font: Font, c: Char16, a: Attribute): (r: seq<Block>)
    requires a.Valid()
    ensures |r| == CellWidth(a)
  {
    var fg, bg := a.ForegroundColor(), a.BackgroundColor();
    if a.wide then [font.render(c, fg, bg, 0), font.render(c, fg, bg, 1)]
    else [font.render(c, fg, bg, 0)]
  }

  function Splice(line: seq<Block>, col: nat, blocks: seq<Block>): (r: seq<Block>)
    requires col + |blocks| <= |line|
    ensures |r| == |line|
  {
    line[..col] + blocks + line[col + |blocks|..]
  }

  ghost function PutBlocks(t: State, blocks: seq<Block>): (r: State)
    requires t.Valid() && t.col + |blocks| <= t.mode.columns
    ensures SameSettings(t, r) && r.Valid()
  {
    t.(text := t.text[t.row := Splice(t.text[t.row], t.col, blocks)], col := t.col + |blocks|)
  }

  function ScrolledLine(g: Grid, m: ModeData, background: bv32, r: nat): (line: seq<Block>)
    requires Rectangle(g, m.rows, m.Width()) && r < m.rows
    ensures |line| == m.Width()
  {
    (if r + 1 < m.rows then g[r + 1][..m.columns] else seq(m.columns, _ => Solid(background)))
    + g[r][m.columns..]
  }

  // The text window moved up one line, a blank line at its bottom; the margin stays.
  function Scroll(g: Grid, m: ModeData, background: bv32): (r: Grid)
    requires Rectangle(g, m.rows, m.Width())
    ensures Rectangle(r, m.rows, m.Width())
  {
    seq(m.rows, r requires 0 <= r < m.rows => ScrolledLine(g, m, background, r))
  }

  ghost function LineFeed(t: State): (r: State)
    requires t.Valid()
    ensures SameSettings(t, r) && r.Valid() && r.col == t.col
  {
    if t.row == t.mode.rows - 1
    then t.(text := Scroll(t.text, t.mode, t.attr.BackgroundColor()))
    else t.(row := t.row + 1)
  }

  ghost function NewLine(t: State): (r: State)
    requires t.Valid()
    ensures SameSettings(t, r) && r.InRange() && r.col == 0
  {
    LineFeed(t.(col := 0))
  }

  ghost function WrapAtEnd(t: State): (r: State)
    requires t.Valid()
    ensures SameSettings(t, r) && r.InRange()
  {
    if t.col == t.mode.columns then NewLine(t) else t
  }

  ghost function Blank(t: State): seq<Block>
    requires t.Valid()
  {
    Cells(t.font, CHAR_SPACE, t.attr.(wide := false))
  }

  // A wide character that does not fit leaves a blank cell behind and goes to the next line.
  ghost function MakeRoom(t: State): (r: State)
    requires t.InRange()
    ensures SameSettings(t, r) && r.InRange() && r.col + CellWidth(r.attr) <= r.mode.columns
  {
    if t.col + CellWidth(t.attr) > t.mode.columns then NewLine(PutBlocks(t, Blank(t))) else t
  }

  ghost function PutChar(t: State, c: Char16): (r: State)
    requires t.InRange()
    ensures SameSettings(t, r) && r.InRange()
  {
    var u := MakeRoom(t);
    WrapAtEnd(PutBlocks(u, Cells(u.font, c, u.attr)))
  }

  // The cursor moves one cell back, over a row boundary if need be, and blanks that cell.
  ghost function Backspace(t: State): (r: State)
    requires t.InRange()
    ensures SameSettings(t, r) && r.InRange()
  {
    if t.col > 0 then
      PutBlocks(t.(col := t.col - 1), Blank(t)).(col := t.col - 1)
    else if t.row > 0 then
      var u := t.(row := t.row - 1, col := t.mode.columns - 1);
      PutBlocks(u, Blank(t)).(col := t.mode.columns - 1)
    else t
  }

  // The cell before the cursor.
  ghost function Previous(t: State): (r: State)
    requires t.InRange() && (t.col > 0 || t.row > 0)
    ensures SameSettings(t, r) && r.InRange()
  {
    if t.col > 0 then t.(col := t.col - 1) else t.(row := t.row - 1, col := t.mode.columns - 1)
  }

  // Blanking the cell before the cursor moves the cursor to where it was, wrapping if need be.
  lemma BlankPrevious(t: State)
    requires t.InRange()
    ensures t.col == t.row == 0 ==> Backspace(t) == t
    ensures t.col > 0 || t.row > 0 ==>
      var u := WrapAtEnd(PutBlocks(Previous(t), Blank(Previous(t))));
      u.row == t.row && u.col == t.col && Backspace(t) == Previous(u)
  {
  }

  ghost function Step(t: State, c: Char16): (r: State)
    requires t.Valid() && (t.col < t.mode.columns || c == CHAR_CARRIAGE_RETURN)
    ensures r.InRange() && r.mode == t.mode
  {
    if c == CHAR_BACKSPACE then Backspace(t)
    else if c == CHAR_LINEFEED then LineFeed(t)
    else if c == CHAR_CARRIAGE_RETURN then t.(col := 0)
    else if c == WIDE_CHAR then t.(attr := t.attr.(wide := true))
    else if c == NARROW_CHAR then t.(attr := t.attr.(wide := false))
    else PutChar(t, c)
  }

  // The terminal after the characters of s from i on.
  ghost function Run(t: State, s: seq<Char16>, i: nat): (r: State)
    requires i <= |s| && t.Valid()
    requires t.col < t.mode.columns || (i < |s| && s[i] == CHAR_CARRIAGE_RETURN)
    ensures r.InRange() && r.mode == t.mode
    decreases |s| - i
  {
    if i == |s| then t else Run(Step(t, s[i]), s, i + 1)
  }

  // One OutputString call: the attribute is as before when it returns.
  ghost function Output(t: State, s: seq<Char16>): (r: State)
    requires t.Valid() && (t.col < t.mode.columns || (s != [] && s[0] == CHAR_CARRIAGE_RETURN))
    ensures r.InRange() && r.mode == t.mode
  {
    Run(t, s, 0).(attr := t.attr)
  }

  lemma RunStep(t: State, s: seq<Char16>, i: nat)
    requires t.Valid() && i < |s| && (t.col < t.mode.columns || s[i] == CHAR_CARRIAGE_RETURN)
    ensures Run(t, s, i) == Run(Step(t, s[i]), s, i + 1)
    ensures SameSettings(Step(t, s[i]), t.(attr := t.attr.(wide := Step(t, s[i]).attr.wide)))
    ensures s[i] == NARROW_CHAR ==> !Step(t, s[i]).attr.wide
  {
  }

  // ----- batches

  // The cells of s[i..j], side by side.
  function RunBlocks(font: Font, s: seq<Char16>, i: nat, j: nat, a: Attribute): (r: seq<Block>)
    requires i <= j <= |s| && a.Valid()
    ensures |r| == Span(j - i, a)
    decreases j - i
  {
    if i == j then [] else Cells(font, s[i], a) + RunBlocks(font, s, i + 1, j, a)
  }

  lemma SpliceSplice(line: seq<Block>, col: nat, a: seq<Block>, b: seq<Block>)
    requires col + |a| + |b| <= |line|
    ensures Splice(Splice(line, col, a), col + |a|, b) == Splice(line, col, a + b)
  {
  }

  lemma PutPut(t: State, a: seq<Block>, b: seq<Block>)
    requires t.Valid() && t.col + |a| + |b| <= t.mode.columns
    ensures PutBlocks(PutBlocks(t, a), b) == PutBlocks(t, a + b)
  {
    SpliceSplice(t.text[t.row], t.col, a, b);
  }

  // A run of printable characters that fits on the line may be drawn in one go.
  lemma {:induction false} RunOfPrintables(t: State, s: seq<Char16>, i: nat, j: nat)
    requires t.InRange() && i < j <= |s|
    requires forall k :: i <= k < j ==> Printable(s[k])
    requires t.col + Span(j - i, t.attr) <= t.mode.columns
    ensures Run(t, s, i) == Run(WrapAtEnd(PutBlocks(t, RunBlocks(t.font, s, i, j, t.attr))), s, j)
    decreases j - i
  {
    hide Cells, Splice, LineFeed, NewLine;
    var first := Cells(t.font, s[i], t.attr);
    var rest := RunBlocks(t.font, s, i + 1, j, t.attr);
    if i + 1 == j {
      assert first + rest == first;
    } else {
      var u := PutBlocks(t, first);
      assert Step(t, s[i]) == u;
      RunOfPrintables(u, s, i + 1, j);
      PutPut(t, first, rest);
    }
  }

  // ----- the strings that OutputString passes to itself

  lemma OutputCrLf(t: State)
    requires t.Valid()
    ensures Output(t, CRLF_STRING) == NewLine(t)
  {
    var u := Step(t, CHAR_CARRIAGE_RETURN);
    assert Run(u, CRLF_STRING, 1) == Run(Step(u, CHAR_LINEFEED), CRLF_STRING, 2);
  }

  lemma OutputSpace(t: State)
    requires t.InRange()
    ensures Output(t, SPACE_STRING) == WrapAtEnd(PutBlocks(t, Blank(t)))
  {
    var u := Step(t, NARROW_CHAR);
    assert Run(u, SPACE_STRING, 1) == Run(Step(u, CHAR_SPACE), SPACE_STRING, 2);
  }

  // Drawing over the cell that holds the cursor glyph removes the cursor glyph.
  lemma PutOverCursor(t: State, blocks: seq<Block>)
    requires t.InRange() && |blocks| > 0 && t.col + |blocks| <= t.mode.columns
    ensures PutBlocks(t.Shown(), blocks) == PutBlocks(t, blocks)
  {
    if t.visible {
      var line := t.text[t.row];
      var marked := XorCell(line, t.col, t.attr.ForegroundColor());
      assert Splice(marked, t.col, blocks) == Splice(line, t.col, blocks);
    }
  }

  // One batch, s[i..j], drawn at the cursor, over the cursor glyph if that is still shown.
  lemma DrawnRun(t: State, shown: bool, s: seq<Char16>, i: nat, j: nat) returns (drawn: State)
    requires t.InRange() && i <= j <= |s| && (shown ==> i < j)
    requires forall k :: i <= k < j ==> Printable(s[k])
    requires t.col + Span(j - i, t.attr) <= t.mode.columns
    ensures drawn == PutBlocks(t, RunBlocks(t.font, s, i, j, t.attr))
    ensures PutBlocks(if shown then t.Shown() else t, RunBlocks(t.font, s, i, j, t.attr)) == drawn
    ensures Run(t, s, i) == Run(WrapAtEnd(drawn), s, j)
  {
    var blocks := RunBlocks(t.font, s, i, j, t.attr);
    drawn := PutBlocks(t, blocks);
    if i == j {
      assert Splice(t.text[t.row], t.col, []) == t.text[t.row];
      assert drawn == t == WrapAtEnd(t);
    } else {
      RunOfPrintables(t, s, i, j);
      PutOverCursor(t, blocks);
    }
  }

  // A character that needs room first is the same character after the room was made.
  lemma StepAfterMakeRoom(t: State, s: seq<Char16>, i: nat)
    requires t.InRange() && i < |s| && Printable(s[i])
    ensures Run(MakeRoom(t), s, i) == Run(t, s, i)
  {
    assert MakeRoom(MakeRoom(t)) == MakeRoom(t);
  }

  lemma ShownTwice(t: State)
    requires t.Valid()
    ensures t.Shown().Shown() == t
  {
    XorAtTwice(t.text, t.row, t.col, t.attr.ForegroundColor());
  }

  // ----- what the terminal guarantees to its callers

  // No string draws in the margin right of the text window.
  lemma {:induction false} MarginUntouched(t: State, s: seq<Char16>, i: nat)
    requires t.InRange() && i <= |s|
    ensures SameMargin(t, Run(t, s, i))
    decreases |s| - i
  {
    if i < |s| {
      StepKeepsMargin(t, s[i]);
      MarginUntouched(Step(t, s[i]), s, i + 1);
    }
  }

  ghost predicate SameMargin(t: State, u: State)
    requires t.Valid() && u.Valid() && t.mode == u.mode
  {
    forall r :: 0 <= r < t.mode.rows ==> t.text[r][t.mode.columns..] == u.text[r][t.mode.columns..]
  }

  lemma SameMarginTwice(t: State, u: State, v: State)
    requires t.Valid() && u.Valid() && v.Valid() && t.mode == u.mode == v.mode
    requires SameMargin(t, u) && SameMargin(u, v)
    ensures SameMargin(t, v)
  {
  }

  lemma SameTextSameMargin(t: State, u: State)
    requires t.Valid() && u.Valid() && t.mode == u.mode && t.text == u.text
    ensures SameMargin(t, u)
  {
  }

  lemma StepKeepsMargin(t: State, c: Char16)
    requires t.InRange()
    ensures Step(t, c).mode == t.mode && SameMargin(t, Step(t, c))
  {
    hide PutChar, Backspace, LineFeed, SameMargin;
    if c == CHAR_BACKSPACE {
      BackspaceKeepsMargin(t);
    } else if c == CHAR_LINEFEED {
      LineFeedKeepsMargin(t);
    } else if Printable(c) {
      PutCharKeepsMargin(t, c);
    } else {
      SameTextSameMargin(t, Step(t, c));
    }
  }

  lemma BackspaceKeepsMargin(t: State)
    requires t.InRange()
    ensures SameMargin(t, Backspace(t))
  {
    hide PutBlocks, Cells, SameMargin;
    if t.col > 0 || t.row > 0 {
      var u := Previous(t);
      var v := PutBlocks(u, Blank(t));
      PutKeepsMargin(u, Blank(t));
      SameTextSameMargin(t, u);
      SameTextSameMargin(v, Backspace(t));
      SameMarginTwice(t, u, v);
      SameMarginTwice(t, v, Backspace(t));
    } else {
      SameTextSameMargin(t, t);
    }
  }

  lemma PutCharKeepsMargin(t: State, c: Char16)
    requires t.InRange()
    ensures SameMargin(t, PutChar(t, c))
  {
    hide PutBlocks, NewLine, Cells, SameMargin, MakeRoom, WrapAtEnd;
    var u := MakeRoom(t);
    MakeRoomKeepsMargin(t);
    var v := PutBlocks(u, Cells(u.font, c, u.attr));
    PutKeepsMargin(u, Cells(u.font, c, u.attr));
    WrapKeepsMargin(v);
    SameMarginTwice(t, u, v);
    SameMarginTwice(t, v, WrapAtEnd(v));
  }

  lemma MakeRoomKeepsMargin(t: State)
    requires t.InRange()
    ensures SameMargin(t, MakeRoom(t))
  {
    hide PutBlocks, NewLine, Cells, SameMargin;
    if t.col + CellWidth(t.attr) > t.mode.columns {
      var u := PutBlocks(t, Blank(t));
      PutKeepsMargin(t, Blank(t));
      NewLineKeepsMargin(u);
      SameMarginTwice(t, u, NewLine(u));
    } else {
      SameTextSameMargin(t, t);
    }
  }

  lemma WrapKeepsMargin(t: State)
    requires t.Valid()
    ensures SameMargin(t, WrapAtEnd(t))
  {
    hide NewLine, SameMargin;
    NewLineKeepsMargin(t);
    SameTextSameMargin(t, t);
  }

  lemma LineFeedKeepsMargin(t: State)
    requires t.Valid()
    ensures SameMargin(t, LineFeed(t))
  {
  }

  lemma PutKeepsMargin(t: State, blocks: seq<Block>)
    requires t.Valid() && t.col + |blocks| <= t.mode.columns
    ensures SameMargin(t, PutBlocks(t, blocks))
  {
  }

  lemma NewLineKeepsMargin(t: State)
    requires t.Valid()
    ensures SameMargin(t, NewLine(t))
  {
    hide LineFeed, SameMargin;
    var u := t.(col := 0);
    SameTextSameMargin(t, u);
    LineFeedKeepsMargin(u);
    SameMarginTwice(t, u, NewLine(t));
  }

  // Unless the character was the last cell of the last row, a backspace takes it back: the cursor
  // is where it was and the cell is blank.
  lemma BackspaceTakesBack(t: State, c: Char16)
    requires t.InRange() && Printable(c) && !t.attr.wide
    requires t.row < t.mode.rows - 1 || t.col < t.mode.columns - 1
    ensures Backspace(PutChar(t, c)) == PutBlocks(t, Blank(t)).(col := t.col)
  {
    hide Cells, Splice, Scroll;
    SpliceOver(t.text[t.row], t.col, Cells(t.font, c, t.attr), Blank(t));
  }

  lemma SpliceOver(line: seq<Block>, col: nat, a: seq<Block>, b: seq<Block>)
    requires |a| == |b| && col + |a| <= |line|
    ensures Splice(Splice(line, col, a), col, b) == Splice(line, col, b)
  {
  }

  lemma {:induction false} RunConcat(t: State, a: seq<Char16>, b: seq<Char16>, i: nat)
    requires t.InRange() && i <= |a| + |b|
    ensures Run(t, a + b, i) ==
      if i <= |a| then Run(Run(t, a, i), b, 0) else Run(t, b, i - |a|)
    decreases |a| + |b| - i
  {
    hide Step;
    if i < |a| {
      RunConcat(Step(t, a[i]), a, b, i + 1);
    } else if i < |a| + |b| {
      RunConcat(Step(t, b[i - |a|]), a, b, i + 1);
    }
  }

  // One call may be split in two wherever the width in force is the one the call began with.
  lemma OutputSplit(t: State, a: seq<Char16>, b: seq<Char16>)
    requires t.InRange() && Run(t, a, 0).attr == t.attr
    ensures Output(t, a + b) == Output(Output(t, a), b)
  {
    RunConcat(t, a, b, 0);
  }

  // ----- the other services

  ghost function Clear(t: State, color: bv32): (r: State)
    requires t.Valid()
    ensures r.InRange()
  {
    t.(text := seq(t.mode.rows, _ => seq(t.mode.Width(), _ => Solid(color))), row := 0, col := 0)
  }

  ghost function Blackened(font: Font, m: ModeData, attr: Attribute, visible: bool): (r: State)
    requires m.Usable() && attr.Valid()
    ensures r.InRange()
  {
    State(font, m, seq(m.rows, _ => seq(m.Width(), _ => Solid(COLORS[0]))), 0, 0, attr, visible)
  }

  function Decode(attribute: nat): (a: Attribute)
    requires attribute <= 0x7F
    ensures a.Valid()
  {
    Attribute(attribute % 16, attribute / 16, false)
  }

  datatype Call =
    | OutputString(s: seq<Char16>)
    | SetAttribute(attribute: nat)
    | SetCursorPosition(column: nat, row: nat)
    | ClearScreen
    | EnableCursor(visible: bool)
    | SetMode(modeNumber: nat)

  // A terminal with its table of modes, and whether SetMode was called before.
  datatype Console = Console(modes: seq<ModeData>, mode: nat, modeWasSet: bool, terminal: State) {
    ghost predicate Valid() {
      && terminal.InRange()
      && mode < |modes| && terminal.mode == modes[mode]
      && forall m :: 0 <= m < |modes| ==> modes[m].Usable() || modes[m].columns == modes[m].rows == 0
    }

    ghost function Do(call: Call): (r: Console)
      requires Valid()
      ensures r.Valid()
    {
      match call
      case OutputString(s) => this.(terminal := Output(terminal, s))
      case SetAttribute(a) => if a <= 0x7F then this.(terminal := terminal.(attr := Decode(a))) else this
      case SetCursorPosition(c, r) =>
        if c < terminal.mode.columns && r < terminal.mode.rows
        then this.(terminal := terminal.(row := r, col := c)) else this
      case ClearScreen => this.(terminal := Clear(terminal, terminal.attr.BackgroundColor()))
      case EnableCursor(v) => this.(terminal := terminal.(visible := v))
      case SetMode(n) =>
        if n >= |modes| || modes[n].columns == 0 then this
        else if modeWasSet && n == mode then
          this.(terminal := Clear(terminal, terminal.attr.BackgroundColor()))
        else
          Console(modes, n, true, Blackened(terminal.font, modes[n], terminal.attr, terminal.visible))
    }

    ghost function DoAll(calls: seq<Call>): (r: Console)
      requires Valid()
      ensures r.Valid()
      decreases |calls|
    {
      if calls == [] then this else DoAll(calls[..|calls| - 1]).Do(calls[|calls| - 1])
    }
  }
}
