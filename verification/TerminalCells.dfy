/**
What the terminal does, cell by cell: which glyph, in which colours, appears where, and what stays. Glyphs
are those of the font, with the colours of the attribute.
*/
module TerminalCells {
  import opened Screen
  import opened Terminal

  // The two texts agree but for the cells from lo to hi of one row.
  ghost predicate SameBut(t: State, u: State, row: nat, lo: nat, hi: nat)
    requires t.Valid() && u.Valid()
  {
    && t.mode == u.mode && t.font == u.font && t.attr == u.attr && t.visible == u.visible
    && forall r, x :: 0 <= r < t.mode.rows && 0 <= x < t.mode.Width() && !(r == row && lo <= x < hi) ==>
                        u.text[r][x] == t.text[r][x]
  }

  lemma OneCharacter(t: State, c: Char16)
    requires t.InRange()
    ensures Output(t, [c]) == Step(t, c).(attr := t.attr)
  {
    assert Run(t, [c], 0) == Run(Step(t, c), [c], 1);
  }

  lemma SplicedCell(line: seq<Block>, col: nat, blocks: seq<Block>, x: nat)
    requires col + |blocks| <= |line| && x < |line|
    ensures Splice(line, col, blocks)[x] == if col <= x < col + |blocks| then blocks[x - col] else line[x]
  {
  }

  lemma PutCell(t: State, blocks: seq<Block>, r: nat, x: nat)
    requires t.Valid() && t.col + |blocks| <= t.mode.columns && r < t.mode.rows && x < t.mode.Width()
    ensures PutBlocks(t, blocks).text[r][x] ==
            if r == t.row && t.col <= x < t.col + |blocks| then blocks[x - t.col] else t.text[r][x]
  {
    hide Splice;
    if r == t.row {
      SplicedCell(t.text[t.row], t.col, blocks, x);
    }
  }

  lemma PutSameBut(t: State, blocks: seq<Block>)
    requires t.Valid() && t.col + |blocks| <= t.mode.columns
    ensures SameBut(t, PutBlocks(t, blocks), t.row, t.col, t.col + |blocks|)
    ensures forall k :: 0 <= k < |blocks| ==> PutBlocks(t, blocks).text[t.row][t.col + k] == blocks[k]
  {
    hide Splice;
    forall r, x | 0 <= r < t.mode.rows && 0 <= x < t.mode.Width()
      ensures PutBlocks(t, blocks).text[r][x] ==
              if r == t.row && t.col <= x < t.col + |blocks| then blocks[x - t.col] else t.text[r][x]
    {
      PutCell(t, blocks, r, x);
    }
    forall k | 0 <= k < |blocks|
      ensures PutBlocks(t, blocks).text[t.row][t.col + k] == blocks[k]
    {
      PutCell(t, blocks, t.row, t.col + k);
    }
  }

  /** A string does what its first character does and then what the rest does; a width character changes
      the width for the rest, and the width is as before at the end. */
  lemma FirstCharacter(t: State, c: Char16, s: seq<Char16>)
    requires t.InRange()
    ensures Output(t, []) == t
    ensures c != WIDE_CHAR && c != NARROW_CHAR ==> Output(t, [c] + s) == Output(Output(t, [c]), s)
    ensures c == WIDE_CHAR || c == NARROW_CHAR ==>
              Output(t, [c] + s) == Output(t.(attr := t.attr.(wide := c == WIDE_CHAR)), s).(attr := t.attr)
  {
    OneCharacter(t, c);
    RunConcat(t, [c], s, 0);
    assert Run(t, [c], 0) == Run(Step(t, c), [c], 1);
  }

  // ----- printable characters

  /** Every character but these five is drawn. */
  lemma ControlCharacters(c: Char16)
    ensures Printable(c) <==> c !in [8, 10, 13, 0xFFF0, 0xFFF1]
  {
  }

  /** A narrow character before the last column. */
  lemma NarrowCharacter(t: State, c: Char16)
    requires t.InRange() && Printable(c) && !t.attr.wide && t.col + 1 < t.mode.columns
    ensures
      var u := Output(t, [c]);
      && u.row == t.row && u.col == t.col + 1 && SameBut(t, u, t.row, t.col, t.col + 1)
      && u.text[t.row][t.col] == t.font.render(c, COLORS[t.attr.foreground], COLORS[t.attr.background], 0)
  {
    hide PutBlocks, SameBut;
    OneCharacter(t, c);
    var cells := Cells(t.font, c, t.attr);
    PutSameBut(t, cells);
    PutMoves(t, cells);
    assert PutBlocks(t, cells).text[t.row][t.col + 0] == cells[0];
  }

  lemma PutMoves(t: State, blocks: seq<Block>)
    requires t.Valid() && t.col + |blocks| <= t.mode.columns
    ensures PutBlocks(t, blocks).row == t.row && PutBlocks(t, blocks).col == t.col + |blocks|
  {
  }

  /** A wide character with room to spare: its two halves, side by side. */
  lemma WideCharacter(t: State, c: Char16)
    requires t.InRange() && Printable(c) && t.attr.wide && t.col + 2 < t.mode.columns
    ensures
      var u := Output(t, [c]);
      && u.row == t.row && u.col == t.col + 2 && SameBut(t, u, t.row, t.col, t.col + 2)
      && u.text[t.row][t.col] == t.font.render(c, COLORS[t.attr.foreground], COLORS[t.attr.background], 0)
      && u.text[t.row][t.col + 1] == t.font.render(c, COLORS[t.attr.foreground], COLORS[t.attr.background], 1)
  {
    hide PutBlocks, SameBut;
    OneCharacter(t, c);
    var cells := Cells(t.font, c, t.attr);
    PutSameBut(t, cells);
    PutMoves(t, cells);
    assert PutBlocks(t, cells).text[t.row][t.col + 0] == cells[0];
    assert PutBlocks(t, cells).text[t.row][t.col + 1] == cells[1];
  }

  /** A character that ends the line, before the last row: the cursor goes to the next line. */
  lemma LastOfLine(t: State, c: Char16)
    requires t.InRange() && Printable(c) && t.row + 1 < t.mode.rows
    requires t.col + (if t.attr.wide then 2 else 1) == t.mode.columns
    ensures
      var u := Output(t, [c]);
      && u.row == t.row + 1 && u.col == 0 && SameBut(t, u, t.row, t.col, t.mode.columns)
      && forall x :: t.col <= x < t.mode.columns ==>
                       u.text[t.row][x] == t.font.render(c, COLORS[t.attr.foreground], COLORS[t.attr.background], x - t.col)
  {
    hide PutBlocks, SameBut, NewLine;
    var cells := Cells(t.font, c, t.attr);
    PutEndsLine(t, cells);
    OneCharacter(t, c);
  }

  lemma PutEndsLine(t: State, blocks: seq<Block>)
    requires t.Valid() && t.row + 1 < t.mode.rows && t.col + |blocks| == t.mode.columns
    ensures
      var u := NewLine(PutBlocks(t, blocks));
      && PutBlocks(t, blocks).col == t.mode.columns
      && u.Valid() && u.row == t.row + 1 && u.col == 0 && u.attr == t.attr
      && SameBut(t, u, t.row, t.col, t.mode.columns)
      && forall x :: t.col <= x < t.mode.columns ==> u.text[t.row][x] == blocks[x - t.col]
  {
    hide PutBlocks, SameBut, Splice;
    PutSameBut(t, blocks);
    PutMoves(t, blocks);
    NextLineKeepsText(t, PutBlocks(t, blocks), t.row, t.col, t.mode.columns);
    forall x | t.col <= x < t.mode.columns
      ensures PutBlocks(t, blocks).text[t.row][x] == blocks[x - t.col]
    {
      assert PutBlocks(t, blocks).text[t.row][t.col + (x - t.col)] == blocks[x - t.col];
    }
  }

  lemma NextLineKeepsText(t: State, u: State, row: nat, lo: nat, hi: nat)
    requires t.Valid() && u.Valid() && u.row + 1 < u.mode.rows && SameBut(t, u, row, lo, hi)
    ensures NewLine(u) == u.(row := u.row + 1, col := 0)
    ensures SameBut(t, NewLine(u), row, lo, hi)
  {
  }

  /** A character that ends the last line: the text moves up one row, and the character with it. */
  lemma LastOfScreen(t: State, c: Char16)
    requires t.InRange() && Printable(c) && t.row + 1 == t.mode.rows
    requires t.col + (if t.attr.wide then 2 else 1) == t.mode.columns
    ensures
      var u := Output(t, [c]);
      && u.row == t.row && u.col == 0
      && forall r, x :: 0 <= r < t.mode.rows && 0 <= x < t.mode.columns ==>
           u.text[r][x] ==
             (if r + 1 == t.mode.rows then Solid(COLORS[t.attr.background])
              else if r + 1 == t.row && t.col <= x then
                t.font.render(c, COLORS[t.attr.foreground], COLORS[t.attr.background], x - t.col)
              else t.text[r + 1][x])
  {
    hide PutBlocks, Splice, Scroll;
    OneCharacter(t, c);
    var cells := Cells(t.font, c, t.attr);
    var v := PutBlocks(t, cells);
    PutMoves(t, cells);
    forall r, x | 0 <= r < t.mode.rows && 0 <= x < t.mode.columns
      ensures NewLine(v).text[r][x] ==
              (if r + 1 == t.mode.rows then Solid(COLORS[t.attr.background])
               else if r + 1 == t.row && t.col <= x then cells[x - t.col] else t.text[r + 1][x])
    {
      ScrolledCell(v.text, v.mode, v.attr.BackgroundColor(), r, x);
      if r + 1 < t.mode.rows {
        PutCell(t, cells, r + 1, x);
      }
    }
  }

  lemma ScrolledCell(g: Grid, m: ModeData, background: bv32, r: nat, x: nat)
    requires Rectangle(g, m.rows, m.Width()) && r < m.rows && x < m.columns
    ensures Scroll(g, m, background)[r][x] == if r + 1 == m.rows then Solid(background) else g[r + 1][x]
  {
  }

  /** A wide character at the last column: a narrow blank takes the column, and the character follows on
      the next line. */
  lemma WideAtLastColumn(t: State, c: Char16)
    requires t.InRange() && Printable(c) && t.attr.wide && t.col + 1 == t.mode.columns
    ensures Output(t, SPACE_STRING).InRange() && Output(t, [c]) == Output(Output(t, SPACE_STRING), [c])
  {
    hide PutBlocks, NewLine, Cells;
    OneCharacter(t, c);
    OutputSpace(t);
    PutMoves(t, Blank(t));
    var u := Output(t, SPACE_STRING);
    OneCharacter(u, c);
    assert MakeRoom(t) == u == MakeRoom(u);
  }

  /** The blank of a backspace or of a wide character at the end of a line is a narrow space. */
  lemma SpaceIsNarrow(t: State)
    requires t.InRange()
    ensures Output(t, SPACE_STRING) == Output(t.(attr := t.attr.(wide := false)), [CHAR_SPACE]).(attr := t.attr)
  {
    var n := t.(attr := t.attr.(wide := false));
    assert Step(t, NARROW_CHAR) == n;
    assert Run(n, SPACE_STRING, 1) == Run(Step(n, CHAR_SPACE), SPACE_STRING, 2);
    OneCharacter(n, CHAR_SPACE);
  }

  // ----- control characters

  /** A line feed on the last row: every row of the text moves up, the last becomes background. */
  lemma LineFeedScrolls(t: State)
    requires t.InRange() && t.row + 1 == t.mode.rows
    ensures
      var u := Output(t, [CHAR_LINEFEED]);
      && u.row == t.row && u.col == t.col && u.attr == t.attr
      && (forall r, x :: 0 <= r < t.mode.rows && 0 <= x < t.mode.columns ==>
            u.text[r][x] == if r + 1 == t.mode.rows then Solid(COLORS[t.attr.background]) else t.text[r + 1][x])
      && (forall r, x :: 0 <= r < t.mode.rows && t.mode.columns <= x < t.mode.Width() ==>
            u.text[r][x] == t.text[r][x])
  {
    OneCharacter(t, CHAR_LINEFEED);
    forall r, x | 0 <= r < t.mode.rows && 0 <= x < t.mode.columns
      ensures LineFeed(t).text[r][x] ==
              if r + 1 == t.mode.rows then Solid(COLORS[t.attr.background]) else t.text[r + 1][x]
    {
      ScrolledCell(t.text, t.mode, t.attr.BackgroundColor(), r, x);
    }
  }

  /** Line feed before the last row and carriage return move the cursor and nothing else. */
  lemma CursorOnly(t: State)
    requires t.InRange()
    ensures t.row + 1 < t.mode.rows ==> Output(t, [CHAR_LINEFEED]) == t.(row := t.row + 1)
    ensures Output(t, [CHAR_CARRIAGE_RETURN]) == t.(col := 0)
  {
    OneCharacter(t, CHAR_LINEFEED);
    OneCharacter(t, CHAR_CARRIAGE_RETURN);
  }

  /** A backspace: the cell before the cursor, over a row boundary too, becomes a narrow space, and the
      cursor stands on it; at the first cell nothing happens. */
  lemma BackspaceCell(t: State)
    requires t.InRange()
    ensures t.row == 0 && t.col == 0 ==> Output(t, [CHAR_BACKSPACE]) == t
    ensures t.row > 0 || t.col > 0 ==>
      var u := Output(t, [CHAR_BACKSPACE]);
      && u.row == (if t.col > 0 then t.row else t.row - 1)
      && u.col == (if t.col > 0 then t.col - 1 else t.mode.columns - 1)
      && SameBut(t, u, u.row, u.col, u.col + 1)
      && u.text[u.row][u.col] == t.font.render(32, COLORS[t.attr.foreground], COLORS[t.attr.background], 0)
  {
    hide PutBlocks, SameBut;
    OneCharacter(t, CHAR_BACKSPACE);
    if t.row > 0 || t.col > 0 {
      var before := if t.col > 0 then t.(col := t.col - 1) else t.(row := t.row - 1, col := t.mode.columns - 1);
      PutSameBut(before, Blank(t));
      PutMoves(before, Blank(t));
      assert PutBlocks(before, Blank(t)).text[before.row][before.col + 0] == Blank(t)[0];
      OtherCursorSameBut(before, PutBlocks(before, Blank(t)), t, before.col);
    }
  }

  lemma OtherCursorSameBut(before: State, put: State, t: State, col: nat)
    requires before.Valid() && put.Valid() && t.Valid() && SameBut(before, put, before.row, col, col + 1)
    requires col < put.mode.columns
    requires t == before.(row := t.row, col := t.col)
    ensures SameBut(t, put.(col := col), before.row, col, col + 1)
  {
  }

  // ----- the attribute and the other services

  /** The low four bits of the attribute are the colour of the characters, the next three that of the
      background. */
  lemma AttributeColours(console: Console, a: bv8, c: Char16)
    requires console.Valid() && a <= 0x7F && Printable(c)
    requires console.terminal.col + 1 < console.terminal.mode.columns
    ensures (a & 0xF) as nat < 16 && (a >> 4) as nat < 8
    ensures
      var t := console.terminal;
      var u := console.Do(SetAttribute(a as nat)).Do(OutputString([c])).terminal;
      u.text[t.row][t.col] == t.font.render(c, COLORS[(a & 0xF) as nat], COLORS[(a >> 4) as nat], 0)
  {
    AttributeBits(a);
    hide COLORS, Step, Run, Output;
    ColoursOf(console, a as nat, c);
  }

  lemma ColoursOf(console: Console, n: nat, c: Char16)
    requires console.Valid() && n <= 0x7F && Printable(c)
    requires console.terminal.col + 1 < console.terminal.mode.columns
    ensures
      var t := console.terminal;
      var u := console.Do(SetAttribute(n)).Do(OutputString([c])).terminal;
      u.text[t.row][t.col] == t.font.render(c, COLORS[n % 16], COLORS[n / 16], 0)
  {
    hide Output;
    NarrowCharacter(console.Do(SetAttribute(n)).terminal, c);
  }

  lemma AttributeBits(a: bv8)
    requires a <= 0x7F
    ensures (a & 0xF) as nat == a as nat % 16 && (a >> 4) as nat == a as nat / 16
  {
  }

  // A colour made of blue, green and red at one level.
  function Mixed(level: bv32, blue: bool, green: bool, red: bool): bv32 {
    (if blue then level else 0) | (if green then level * 0x100 else 0) | (if red then level * 0x10000 else 0)
  }

  /** The colours: bit 0 of a colour is blue, bit 1 green, bit 2 red. */
  lemma DarkColours(i: nat)
    requires i < 8
    ensures COLORS[i] == Mixed(0x98, i % 2 == 1, i / 2 % 2 == 1, i / 4 % 2 == 1)
  {
  }

  lemma BrightColours(i: nat)
    requires i < 8
    ensures COLORS[8 + i] == if i == 0 then 0x303030 else Mixed(0xFF, i % 2 == 1, i / 2 % 2 == 1, i / 4 % 2 == 1)
  {
  }

  lemma SolidPixel(color: bv32, y: nat, x: nat)
    requires y < GLYPH_HEIGHT && x < GLYPH_WIDTH
    ensures Solid(color)[y][x] == color
  {
  }

  /** Clearing the screen paints every cell, the margin included, in the background colour. */
  lemma ClearedScreen(console: Console)
    requires console.Valid()
    ensures
      var t, u := console.terminal, console.Do(ClearScreen).terminal;
      && u.row == u.col == 0 && u.attr == t.attr && u.visible == t.visible && u.mode == t.mode
      && forall r, x :: 0 <= r < t.mode.rows && 0 <= x < t.mode.Width() ==>
           u.text[r][x] == Solid(COLORS[t.attr.background])
  {
  }

  /** Another mode: the display is black, has the size of that mode, and the cursor is at the first cell. */
  lemma OtherMode(console: Console, n: nat)
    requires console.Valid() && n < |console.modes| && console.modes[n].columns > 0
    requires !console.modeWasSet || n != console.mode
    ensures
      var t, u := console.terminal, console.Do(SetMode(n)).terminal;
      && u.mode == console.modes[n] && u.row == u.col == 0 && u.attr == t.attr && u.visible == t.visible
      && |u.text| == u.mode.rows
      && forall r, x :: 0 <= r < u.mode.rows && 0 <= x < u.mode.Width() ==>
           x < |u.text[r]| && u.text[r][x] == Solid(0)
  {
  }

  /** Moving, showing and hiding the cursor leave the text as it is. */
  lemma CursorServices(console: Console, column: nat, row: nat, visible: bool)
    requires console.Valid()
    ensures
      var t := console.terminal;
      && console.Do(EnableCursor(visible)).terminal == t.(visible := visible)
      && (column < t.mode.columns && row < t.mode.rows ==>
            console.Do(SetCursorPosition(column, row)).terminal == t.(row := row, col := column))
      && (!(column < t.mode.columns && row < t.mode.rows) ==>
            console.Do(SetCursorPosition(column, row)) == console)
  {
  }

  lemma DisplayedCell(t: State, r: nat, x: nat)
    requires t.InRange() && r < t.mode.rows && x < t.mode.Width()
    ensures t.Display()[r][x] ==
            if t.visible && r == t.row && x == t.col then XorBlock(t.text[r][x], COLORS[t.attr.foreground])
            else t.text[r][x]
  {
    hide XorBlock;
  }

  /** What the display shows: the text, and, with the cursor visible, the three lowest lines of the cell
      under it with the colour of the characters XORed in. */
  lemma DisplayedPixel(t: State, r: nat, x: nat, py: nat, px: nat)
    requires t.InRange() && r < t.mode.rows && x < t.mode.Width() && py < GLYPH_HEIGHT && px < GLYPH_WIDTH
    ensures t.Display()[r][x][py][px] ==
            (if t.visible && r == t.row && x == t.col && py >= 16
             then t.text[r][x][py][px] ^ COLORS[t.attr.foreground] else t.text[r][x][py][px])
  {
    hide XorBlock, XorAt, State.Display;
    DisplayedCell(t, r, x);
    CursorPixels(t.text[r][x], COLORS[t.attr.foreground], py, px);
  }

  lemma CursorPixels(b: Block, color: bv32, y: nat, x: nat)
    requires y < GLYPH_HEIGHT && x < GLYPH_WIDTH
    ensures XorBlock(b, color)[y][x] == if y >= 16 then b[y][x] ^ color else b[y][x]
  {
    var k := GLYPH_WIDTH - 1 - x;
    if y >= 16 {
      assert CURSOR_GLYPH[y] == 0xFF;
      AllBitsSet(k);
    } else {
      assert CURSOR_GLYPH[y] == 0;
      NoBitSet(k);
    }
  }

  lemma AllBitsSet(k: nat)
    requires k < 8
    ensures BitSet(0xFF, k)
  {
    assert BitSet(0xFF, 0) && BitSet(0x7F, 0) && BitSet(0x3F, 0) && BitSet(0x1F, 0);
    assert BitSet(0xF, 0) && BitSet(7, 0) && BitSet(3, 0) && BitSet(1, 0);
    assert BitSet(3, 1) && BitSet(7, 2) && BitSet(0xF, 3);
    assert BitSet(0x1F, 4) by { assert BitSet(0xF, 3); }
    assert BitSet(7, 1) && BitSet(0xF, 2) && BitSet(0x1F, 3) && BitSet(0x3F, 4) && BitSet(0x7F, 5) && BitSet(0xFF, 6);
    assert BitSet(0xF, 1) && BitSet(0x1F, 2) && BitSet(0x3F, 3) && BitSet(0x7F, 4) && BitSet(0xFF, 5);
    assert BitSet(0x1F, 1) && BitSet(0x3F, 2) && BitSet(0x7F, 3) && BitSet(0xFF, 4);
    assert BitSet(0x3F, 1) && BitSet(0x7F, 2) && BitSet(0xFF, 3);
    assert BitSet(0x7F, 1) && BitSet(0xFF, 2) && BitSet(0xFF, 1);
    assert BitSet(0x3F, 5) && BitSet(0x7F, 6) && BitSet(0xFF, 7);
  }

  lemma {:induction false} NoBitSet(k: nat)
    ensures !BitSet(0, k)
  {
    if k > 0 {
      NoBitSet(k - 1);
    }
  }
}
