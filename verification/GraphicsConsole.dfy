/**
The graphics console driver: OutputString with its run batching and its calls to itself, the
XOR cursor, and the mode-changing services.
*/
module GraphicsConsole {
  import opened Screen
  import opened Terminal

  datatype Status = Success | Unsupported | OutOfResources | DeviceError

  // The depth of OutputString's calls to itself: anything, then a space, then CR LF.
  function CallRank(s: seq<Char16>): nat {
    if s == CRLF_STRING then 0 else if s == SPACE_STRING then 1 else 2
  }

  // The mode chosen at the start: the first of the configured size, or, with none configured, one with
  // which no mode is larger in both directions; -1 when there is none.
  ghost predicate IsPrefer(modes: seq<ModeData>, column: nat, row: nat, p: int) {
    if column != 0 && row != 0 then
      if exists m :: 0 <= m < |modes| && modes[m].columns == column && modes[m].rows == row
      then 0 <= p < |modes| && modes[p].columns == column && modes[p].rows == row
           && forall m :: 0 <= m < p ==> !(modes[m].columns == column && modes[m].rows == row)
      else p == -1
    else if exists m :: 0 <= m < |modes| && modes[m].columns > 0 && modes[m].rows > 0
    then 0 <= p < |modes| && modes[p].columns > 0 && modes[p].rows > 0
         && forall m :: 0 <= m < |modes| ==> !(modes[m].columns > modes[p].columns && modes[m].rows > modes[p].rows)
    else p == -1
  }

  method PreferMode(modes: seq<ModeData>, column: nat, row: nat) returns (preferMode: int)
    ensures IsPrefer(modes, column, row, preferMode)
  {
    preferMode := -1;
    var columns, rows := 0, 0;
    var index := 0;
    while index < |modes|
      invariant 0 <= index <= |modes| && -1 <= preferMode < index
      invariant column != 0 && row != 0 ==>
        preferMode == -1 && forall m :: 0 <= m < index ==> !(modes[m].columns == column && modes[m].rows == row)
      invariant column == 0 || row == 0 ==>
        && (if preferMode == -1 then columns == rows == 0
            else columns == modes[preferMode].columns > 0 && rows == modes[preferMode].rows > 0)
        && forall m :: 0 <= m < index ==> !(modes[m].columns > columns && modes[m].rows > rows)
    {
      if column != 0 && row != 0 {
        if modes[index].columns == column && modes[index].rows == row {
          preferMode := index;
          break;
        }
      } else if modes[index].columns > columns && modes[index].rows > rows {
        columns, rows := modes[index].columns, modes[index].rows;
        preferMode := index;
      }
      index := index + 1;
    }
  }

  class GraphicsConsole {
    const font: Font
    const modeData: seq<ModeData>
    var mode: int
    var cursorColumn: int
    var cursorRow: int
    var cursorVisible: bool
    var attribute: Attribute
    var hasLineBuffer: bool
    // What the frame buffer holds, cell by cell.
    var video: Grid

    ghost predicate Valid()
      reads this
    {
      && (forall m :: 0 <= m < |modeData| ==> modeData[m].Usable() || modeData[m].columns == modeData[m].rows == 0)
      && attribute.Valid()
      && -1 <= mode < |modeData|
      && (mode == -1 ==> !cursorVisible)
      && (mode != -1 ==> modeData[mode].Usable() && 0 <= cursorRow && 0 <= cursorColumn && Plain().Valid())
    }

    // The frame buffer taken for text.
    ghost function Plain(): State
      requires 0 <= mode < |modeData| && 0 <= cursorRow && 0 <= cursorColumn
      reads this
    {
      State(font, modeData[mode], video, cursorRow, cursorColumn, attribute, cursorVisible)
    }

    // The terminal behind the display: the frame buffer with the cursor glyph taken out.
    ghost function Abs(): State
      requires Valid() && mode != -1
      reads this
    {
      Plain().Shown()
    }

    /** The console when the driver has started: a mode is chosen but not set, the cursor is hidden, and
        what the display shows is what was there. */
    constructor (font: Font, modeData: seq<ModeData>, column: nat, row: nat, video: Grid)
      requires forall m :: 0 <= m < |modeData| ==> modeData[m].Usable() || modeData[m].columns == modeData[m].rows == 0
      requires forall m :: 0 <= m < |modeData| && IsPrefer(modeData, column, row, m) ==>
        Rectangle(video, modeData[m].rows, modeData[m].Width())
      ensures Valid() && this.modeData == modeData && IsPrefer(modeData, column, row, mode)
      ensures !cursorVisible && !hasLineBuffer
      ensures mode != -1 ==>
        Abs() == State(font, modeData[mode], video, 0, 0, Attribute(7, 0, false), false) && Abs().InRange()
    {
      this.font, this.modeData, this.video := font, modeData, video;
      cursorColumn, cursorRow, cursorVisible, hasLineBuffer := 0, 0, false, false;
      attribute := Attribute(7, 0, false);
      mode := -1;
      new;
      mode := PreferMode(modeData, column, row);
    }

    method ReadCell(buffer: array2<bv32>)
      requires buffer.Length0 == GLYPH_HEIGHT && buffer.Length1 == GLYPH_WIDTH
      requires Valid() && mode != -1 && cursorColumn < |video[cursorRow]|
      modifies buffer
      ensures forall y, x :: 0 <= y < GLYPH_HEIGHT && 0 <= x < GLYPH_WIDTH ==>
        buffer[y, x] == video[cursorRow][cursorColumn][y][x]
    {
      var cell: Block := video[cursorRow][cursorColumn];
      forall y, x | 0 <= y < GLYPH_HEIGHT && 0 <= x < GLYPH_WIDTH {
        buffer[y, x] := cell[y][x];
      }
    }

    method WriteCell(buffer: array2<bv32>, ghost cell: Block)
      requires buffer.Length0 == GLYPH_HEIGHT && buffer.Length1 == GLYPH_WIDTH
      requires forall y, x :: 0 <= y < GLYPH_HEIGHT && 0 <= x < GLYPH_WIDTH ==> buffer[y, x] == cell[y][x]
      requires Valid() && mode != -1 && cursorColumn < |video[cursorRow]|
      modifies this`video
      ensures video == old(video)[cursorRow := SetCell(old(video)[cursorRow], cursorColumn, cell)]
    {
      var block: Block := seq(GLYPH_HEIGHT, y requires 0 <= y < GLYPH_HEIGHT reads buffer =>
        seq(GLYPH_WIDTH, x requires 0 <= x < GLYPH_WIDTH reads buffer => buffer[y, x]));
      forall y | 0 <= y < GLYPH_HEIGHT
        ensures block[y] == cell[y]
      {
        assert forall x :: 0 <= x < GLYPH_WIDTH ==> block[y][x] == cell[y][x];
      }
      assert block == cell;
      video := video[cursorRow := SetCell(video[cursorRow], cursorColumn, block)];
    }

    method XorCursorGlyph(buffer: array2<bv32>, color: bv32, ghost cell: Block)
      requires buffer.Length0 == GLYPH_HEIGHT && buffer.Length1 == GLYPH_WIDTH
      requires forall y, x :: 0 <= y < GLYPH_HEIGHT && 0 <= x < GLYPH_WIDTH ==> buffer[y, x] == cell[y][x]
      modifies buffer
      ensures forall y, x :: 0 <= y < GLYPH_HEIGHT && 0 <= x < GLYPH_WIDTH ==>
        buffer[y, x] == XorPixel(cell[y][x], y, x, color)
    {
      for posY := 0 to GLYPH_HEIGHT
        invariant forall y, x :: 0 <= y < GLYPH_HEIGHT && 0 <= x < GLYPH_WIDTH ==>
          buffer[y, x] == if y < posY then XorPixel(cell[y][x], y, x, color) else cell[y][x]
      {
        for posX := 0 to GLYPH_WIDTH
          invariant forall y, x :: 0 <= y < GLYPH_HEIGHT && 0 <= x < GLYPH_WIDTH ==>
            buffer[y, x] == if y < posY || (y == posY && x >= GLYPH_WIDTH - posX)
              then XorPixel(cell[y][x], y, x, color) else cell[y][x]
        {
          if CursorBit(posY, posX) {
            buffer[posY, GLYPH_WIDTH - posX - 1] := buffer[posY, GLYPH_WIDTH - posX - 1] ^ color;
          }
        }
      }
    }

    // Shows the cursor if it is hidden and hides it if it is shown.
    method FlushCursor()
      requires Valid()
      modifies this`video
      ensures Valid()
      ensures mode == -1 ==> video == old(video)
      ensures mode != -1 ==> Plain() == old(Abs()) && Abs() == old(Plain())
    {
      if !cursorVisible {
        return;
      }
      ghost var before := Plain();
      var bltChar := new bv32[GLYPH_HEIGHT, GLYPH_WIDTH];
      var onScreen := cursorColumn < |video[cursorRow]|;
      if onScreen {
        ReadCell(bltChar);
        ghost var cell: Block := video[cursorRow][cursorColumn];
        XorCursorGlyph(bltChar, attribute.ForegroundColor(), cell);
        WriteCell(bltChar, XorBlock(cell, attribute.ForegroundColor()));
      }
      assert Plain() == before.Shown();
      ShownTwice(before);
    }

    // The font service: the characters appear at the cursor, each on one cell or on two.
    method DrawUnicodeWeightAtCursorN(s: seq<Char16>, i: nat, j: nat)
      requires Valid() && mode != -1
      requires i <= j <= |s|
      requires cursorColumn + |RunBlocks(font, s, i, j, attribute)| <= modeData[mode].columns
      modifies this`video
      ensures Valid()
      ensures Plain() == PutBlocks(old(Plain()), RunBlocks(font, s, i, j, attribute)).(col := old(cursorColumn))
    {
      var line: seq<Block> := Splice(video[cursorRow], cursorColumn, RunBlocks(font, s, i, j, attribute));
      video := video[cursorRow := line];
    }

    method ScrollUp()
      requires Valid() && mode != -1
      modifies this`video
      ensures Valid()
      ensures Plain() == old(Plain()).(text := Scroll(old(video), modeData[mode], attribute.BackgroundColor()))
    {
      var m := modeData[mode];
      var g, background := video, attribute.BackgroundColor();
      // Video to video: rows 1.. of the text window to rows 0..
      var moved: Grid := seq(m.rows, r requires 0 <= r < m.rows && Rectangle(g, m.rows, m.Width()) =>
        if r + 1 < m.rows then g[r + 1][..m.columns] + g[r][m.columns..] else g[r]);
      // Video fill: the last row of the text window
      var last := m.rows - 1;
      var blank: seq<Block> := seq(m.columns, _ => Solid(background));
      video := moved[last := blank + moved[last][m.columns..]];
      forall r | 0 <= r < m.rows
        ensures video[r] == ScrolledLine(g, m, background, r)
      {
      }
      assert video == Scroll(g, m, background);
    }

    /** Writes a string: ends as the simple terminal does, with the cursor glyph shown once, at
        the new cursor cell, if the cursor is visible. */
    method OutputString(s: seq<Char16>) returns (status: Status)
      requires Valid()
      requires mode != -1 ==> cursorColumn < modeData[mode].columns || s == CRLF_STRING
      modifies this`video, this`cursorColumn, this`cursorRow, this`attribute
      ensures Valid()
      ensures status == if mode == -1 then Unsupported else Success
      ensures mode == -1 ==> unchanged(this)
      ensures mode != -1 ==> Abs() == old(Output(Abs(), s)) && Abs().InRange()
      decreases CallRank(s), 3
    {
      if mode == -1 {
        return Unsupported;
      }
      ghost var start := Abs();
      FlushCursor();
      var originAttribute := attribute;
      var i := 0;
      ghost var now, shown := start, false;
      while i < |s|
        invariant Midway(s, i, now, shown)
        invariant Run(now, s, i) == Run(start, s, 0)
        invariant now.attr == originAttribute.(wide := now.attr.wide)
        decreases |s| - i, if cursorColumn != 0 then 1 else 0
      {
        i, now, shown := OutputStep(s, i, now, shown);
      }
      attribute := originAttribute;
      FlushCursor();
      return Success;
    }

    // Between two rounds of OutputString's loop: the display is that of terminal now with the
    // cursor hidden, or shown when a wide character at column 0 is about to be drawn over it.
    ghost predicate Midway(s: seq<Char16>, i: nat, now: State, shown: bool)
      reads this
    {
      && Valid() && mode != -1 && now.Valid() && i <= |s|
      && (now.col < now.mode.columns || (s == CRLF_STRING && i == 0))
      && Plain() == (if shown then now.Shown() else now)
      && (shown ==> now.col == 0 && now.attr.wide && i < |s| && Printable(s[i]))
      && (s == SPACE_STRING && i > 0 ==> !now.attr.wide)
    }

    // One round of OutputString's loop.
    method OutputStep(s: seq<Char16>, i: nat, ghost now: State, ghost shown: bool)
      returns (j: nat, ghost next: State, ghost nextShown: bool)
      requires Midway(s, i, now, shown) && i < |s|
      modifies this`video, this`cursorColumn, this`cursorRow, this`attribute
      ensures Midway(s, j, next, nextShown)
      ensures next.attr == now.attr.(wide := next.attr.wide)
      ensures j > i || (j == i && now.col != 0 && next.col == 0)
      ensures Run(now, s, i) == Run(next, s, j)
      decreases CallRank(s), 2
    {
      hide Run;
      if !Printable(s[i]) {
        if s[i] == CHAR_BACKSPACE {
          BackspaceOne(s);
        } else {
          ControlChar(s[i]);
        }
        RunStep(now, s, i);
        j, next, nextShown := i + 1, Plain(), false;
      } else {
        j, next, nextShown := PrintRun(s, i, now, shown);
      }
    }

    // The branches of OutputString for line feed, carriage return and the two width characters.
    method ControlChar(c: Char16)
      requires Valid() && mode != -1
      requires !Printable(c) && c != CHAR_BACKSPACE
      requires cursorColumn < modeData[mode].columns || c == CHAR_CARRIAGE_RETURN
      modifies this`video, this`cursorColumn, this`cursorRow, this`attribute
      ensures Valid() && Plain() == Step(old(Plain()), c)
    {
      if c == CHAR_LINEFEED {
        if cursorRow == modeData[mode].rows - 1 {
          ScrollUp();
        } else {
          cursorRow := cursorRow + 1;
        }
      } else if c == CHAR_CARRIAGE_RETURN {
        cursorColumn := 0;
      } else if c == WIDE_CHAR {
        attribute := attribute.(wide := true);
      } else {
        attribute := attribute.(wide := false);
      }
    }

    // The backspace branch of OutputString, the cursor being hidden.
    method BackspaceOne(s: seq<Char16>)
      requires Valid() && mode != -1 && Plain().InRange()
      requires CallRank(s) == 2
      modifies this`video, this`cursorColumn, this`cursorRow, this`attribute
      ensures Valid() && Plain() == Backspace(old(Plain()))
      decreases CallRank(s), 1
    {
      hide PutBlocks, WrapAtEnd, Backspace, Blank;
      BlankPrevious(Plain());
      if cursorColumn == 0 && cursorRow > 0 {
        cursorRow := cursorRow - 1;
        cursorColumn := modeData[mode].columns - 1;
        BlankCell(s);
        cursorRow := cursorRow - 1;
        cursorColumn := modeData[mode].columns - 1;
      } else if cursorColumn > 0 {
        cursorColumn := cursorColumn - 1;
        BlankCell(s);
        cursorColumn := cursorColumn - 1;
      }
    }

    // The space string, called and returning with the cursor hidden.
    method BlankCell(ghost caller: seq<Char16>)
      requires Valid() && mode != -1 && Plain().InRange()
      requires CallRank(caller) == 2
      modifies this`video, this`cursorColumn, this`cursorRow, this`attribute
      ensures Valid() && Plain() == WrapAtEnd(PutBlocks(old(Plain()), Blank(old(Plain()))))
      decreases CallRank(caller), 0, 1
    {
      PrintSpace(caller);
      FlushCursor();
    }

    // OutputString of the space string, called with the cursor hidden, returning with it shown.
    method PrintSpace(ghost caller: seq<Char16>)
      requires Valid() && mode != -1 && Plain().InRange()
      requires CallRank(caller) == 2
      modifies this`video, this`cursorColumn, this`cursorRow, this`attribute
      ensures Valid() && Abs() == WrapAtEnd(PutBlocks(old(Plain()), Blank(old(Plain()))))
      ensures Plain() == Abs().Shown()
      decreases CallRank(caller), 0, 0
    {
      ghost var t := Plain();
      var _ := OutputString(SPACE_STRING);
      OutputSpace(t.Shown());
      PutOverCursor(t, Blank(t));
      ShownTwice(Plain());
    }

    // How many characters of s from i on are drawn at once, and by how much the cursor moves.
    method MeasureRun(s: seq<Char16>, i: nat) returns (count: nat, index: nat)
      requires Valid() && mode != -1 && Plain().InRange()
      requires i < |s| && Printable(s[i])
      ensures i + count <= |s| && forall k :: i <= k < i + count ==> Printable(s[k])
      ensures cursorColumn + Span(count, attribute) <= modeData[mode].columns
      ensures
        || (count > 0 && index == Span(count, attribute))
        || (attribute.wide && index == 2 * count + 2 && cursorColumn + 2 * count == modeData[mode].columns - 1
            && i + count < |s| && Printable(s[i + count]))
    {
      count, index := 0, 0;
      while cursorColumn + index < modeData[mode].columns
        invariant i + count <= |s| && forall k :: i <= k < i + count ==> Printable(s[k])
        invariant index == Span(count, attribute)
        invariant cursorColumn + index <= modeData[mode].columns
        decreases modeData[mode].columns - index
      {
        if i + count == |s| || !Printable(s[i + count]) {
          break;
        }
        if attribute.wide {
          index := index + 1;
          if cursorColumn + index + 1 > modeData[mode].columns {
            index := index + 1;
            break;
          }
        }
        count, index := count + 1, index + 1;
      }
    }

    // Draws the batch; the cursor itself moves afterwards, by index.
    method DrawBatch(s: seq<Char16>, i: nat, ghost now: State, ghost shown: bool)
      returns (j: nat, index: nat, ghost drawn: State)
      requires Midway(s, i, now, shown) && now.InRange()
      requires i < |s| && Printable(s[i])
      modifies this`video
      ensures Valid() && drawn.Valid() && Plain() == drawn.(col := now.col)
      ensures drawn.attr == now.attr && drawn.mode == now.mode && i <= j <= |s|
      ensures Run(now, s, i) == Run(WrapAtEnd(drawn), s, j)
      ensures
        || (j > i && drawn.col == now.col + index)
        || (now.attr.wide && drawn.col + 2 == now.col + index && drawn.col == now.mode.columns - 1
            && (j == i ==> now.col == drawn.col) && j < |s| && Printable(s[j]))
    {
      hide Run;
      var count;
      count, index := MeasureRun(s, i);
      j := i + count;
      drawn := DrawnRun(now, shown, s, i, j);
      DrawUnicodeWeightAtCursorN(s, i, j);
    }

    // The printing branch of OutputString: one batch, and the wrap after it.
    method PrintRun(s: seq<Char16>, i: nat, ghost now: State, ghost shown: bool)
      returns (j: nat, ghost next: State, ghost nextShown: bool)
      requires Midway(s, i, now, shown) && now.InRange()
      requires i < |s| && Printable(s[i])
      modifies this`video, this`cursorColumn, this`cursorRow, this`attribute
      ensures Midway(s, j, next, nextShown)
      ensures next.attr == now.attr
      ensures j > i || (j == i && now.col != 0 && next.col == 0)
      ensures Run(now, s, i) == Run(next, s, j)
      decreases CallRank(s), 1
    {
      var index;
      ghost var drawn;
      j, index, drawn := DrawBatch(s, i, now, shown);
      nextShown := AdvanceCursor(s, index, drawn);
      WrapFullLine(s);
      if nextShown {
        next := MakeRoom(drawn);
        StepAfterMakeRoom(drawn, s, j);
      } else {
        next := WrapAtEnd(drawn);
      }
    }

    // Moves the cursor past the batch; nextShown tells that a wide character did not fit.
    method AdvanceCursor(ghost caller: seq<Char16>, index: nat, ghost drawn: State)
      returns (ghost nextShown: bool)
      requires Valid() && mode != -1 && Plain().InRange()
      requires drawn.Valid() && Plain() == drawn.(col := cursorColumn)
      requires
        || drawn.col == cursorColumn + index
        || (attribute.wide && CallRank(caller) == 2
            && drawn.col == modeData[mode].columns - 1 == cursorColumn + index - 2)
      modifies this`video, this`cursorColumn, this`cursorRow, this`attribute
      ensures Valid()
      ensures nextShown == (drawn.col != old(cursorColumn) + index)
      ensures Plain() == if nextShown then MakeRoom(drawn).Shown() else drawn
      decreases CallRank(caller), 0, 2
    {
      hide MakeRoom, XorAt;
      nextShown := false;
      cursorColumn := cursorColumn + index;
      if cursorColumn > modeData[mode].columns {
        cursorColumn := cursorColumn - 2;
        WrapWide(caller);
        nextShown := true;
      }
    }

    // A wide character does not fit: a space ends the line, and the cursor stays shown.
    method WrapWide(ghost caller: seq<Char16>)
      requires Valid() && mode != -1 && CallRank(caller) == 2
      requires cursorColumn == modeData[mode].columns - 1 && attribute.wide
      modifies this`video, this`cursorColumn, this`cursorRow, this`attribute
      ensures Valid() && Plain() == MakeRoom(old(Plain())).Shown()
      decreases CallRank(caller), 0, 1
    {
      PrintSpace(caller);
    }

    // After a batch: a full line ends with CR LF.
    method WrapFullLine(ghost caller: seq<Char16>)
      requires Valid() && mode != -1 && CallRank(caller) > 0
      modifies this`video, this`cursorColumn, this`cursorRow, this`attribute
      ensures Valid() && Plain() == WrapAtEnd(old(Plain()))
      decreases CallRank(caller), 0, 1
    {
      if cursorColumn >= modeData[mode].columns {
        CrLf(caller);
      }
    }

    // CR LF at the end of a line, called and returning with the cursor hidden.
    method CrLf(ghost caller: seq<Char16>)
      requires Valid() && mode != -1
      requires CallRank(caller) > 0
      modifies this`video, this`cursorColumn, this`cursorRow, this`attribute
      ensures Valid() && Plain() == NewLine(old(Plain()))
      decreases CallRank(caller), 0, 0
    {
      ghost var t := Plain();
      FlushCursor();
      var _ := OutputString(CRLF_STRING);
      OutputCrLf(t);
      FlushCursor();
    }

    // ----- the other services

    ghost function Console(): Console
      requires Valid() && mode != -1
      reads this
    {
      Terminal.Console(modeData, mode, hasLineBuffer, Abs())
    }

    method SetAttribute(newAttribute: nat) returns (status: Status)
      requires Valid() && (mode != -1 ==> Abs().InRange())
      modifies this`video, this`attribute
      ensures Valid() && status == if newAttribute <= 0x7F then Success else Unsupported
      ensures mode != -1 ==> Console() == old(Console()).Do(Call.SetAttribute(newAttribute))
    {
      if newAttribute > 0x7F {
        return Unsupported;
      }
      if Decode(newAttribute) == attribute {
        return Success;
      }
      FlushCursor();
      attribute := Decode(newAttribute);
      FlushCursor();
      return Success;
    }

    // Video fill of the whole display.
    method Fill(color: bv32)
      requires Valid() && mode != -1
      modifies this`video
      ensures Valid()
      ensures video == Clear(old(Plain()), color).text
    {
      var m := modeData[mode];
      video := seq(m.rows, _ => seq(m.Width(), _ => Solid(color)));
    }

    method ClearScreen() returns (status: Status)
      requires Valid() && (mode != -1 ==> Abs().InRange())
      modifies this`video, this`cursorColumn, this`cursorRow
      ensures Valid() && status == if mode == -1 then Unsupported else Success
      ensures mode == -1 ==> unchanged(this)
      ensures mode != -1 ==> Console() == old(Console()).Do(Call.ClearScreen)
    {
      if mode == -1 {
        return Unsupported;
      }
      Fill(attribute.BackgroundColor());
      cursorColumn := 0;
      cursorRow := 0;
      FlushCursor();
      return Success;
    }

    method SetCursorPosition(column: nat, row: nat) returns (status: Status)
      requires Valid() && (mode != -1 ==> Abs().InRange())
      modifies this`video, this`cursorColumn, this`cursorRow
      ensures Valid()
      ensures status == if mode != -1 && column < modeData[mode].columns && row < modeData[mode].rows
        then Success else Unsupported
      ensures mode == -1 ==> unchanged(this)
      ensures mode != -1 ==> Console() == old(Console()).Do(Call.SetCursorPosition(column, row))
    {
      if mode == -1 || column >= modeData[mode].columns || row >= modeData[mode].rows {
        return Unsupported;
      }
      if cursorColumn == column && cursorRow == row {
        return Success;
      }
      FlushCursor();
      cursorColumn := column;
      cursorRow := row;
      FlushCursor();
      return Success;
    }

    method EnableCursor(visible: bool) returns (status: Status)
      requires Valid() && (mode != -1 ==> Abs().InRange())
      modifies this`video, this`cursorVisible
      ensures Valid() && status == if mode == -1 then Unsupported else Success
      ensures mode == -1 ==> unchanged(this)
      ensures mode != -1 ==> Console() == old(Console()).Do(Call.EnableCursor(visible))
    {
      if mode == -1 {
        return Unsupported;
      }
      FlushCursor();
      cursorVisible := visible;
      FlushCursor();
      return Success;
    }

    /** Allocation of the line buffer and the graphics mode switch may fail. Both failures come
        after the cursor was erased, and leave it erased. */
    method SetMode(modeNumber: nat, enoughMemory: bool, switched: bool) returns (status: Status)
      requires Valid() && (mode != -1 ==> Abs().InRange())
      modifies this
      ensures Valid()
      ensures status == Unsupported <==> modeNumber >= |modeData| || modeData[modeNumber].columns == 0
      ensures status == Unsupported ==> unchanged(this)
      ensures status == OutOfResources ==> !enoughMemory
      ensures status == DeviceError ==> !switched
      ensures status == OutOfResources || status == DeviceError ==>
        mode == old(mode) && (mode != -1 ==> Plain() == old(if hasLineBuffer then Abs() else Plain()))
      ensures status == Success ==> mode == modeNumber && hasLineBuffer && Abs().InRange()
      ensures status == Success && old(mode) != -1 ==>
        Console() == old(Console()).Do(Call.SetMode(modeNumber))
      ensures enoughMemory && switched ==> status == Success || status == Unsupported
    {
      hide XorAt;
      if modeNumber >= |modeData| {
        return Unsupported;
      }
      var m := modeData[modeNumber];
      if m.columns <= 0 && m.rows <= 0 {
        return Unsupported;
      }
      if hasLineBuffer {
        if modeNumber == mode {
          var _ := ClearScreen();
          return Success;
        }
        FlushCursor();
      }
      if !enoughMemory {
        return OutOfResources;
      }
      hasLineBuffer := true;
      if !switched {
        return DeviceError;
      }
      CommitMode(modeNumber);
      return Success;
    }

    // The graphics mode switch, and the fill in its place alike, leave the display black.
    method CommitMode(modeNumber: nat)
      requires Valid() && modeNumber < |modeData| && modeData[modeNumber].Usable()
      modifies this`video, this`cursorColumn, this`cursorRow, this`mode
      ensures Valid() && mode == modeNumber && Abs().InRange()
      ensures Abs() == Blackened(font, modeData[modeNumber], attribute, cursorVisible)
    {
      var m := modeData[modeNumber];
      mode := modeNumber;
      cursorColumn := 0;
      cursorRow := 0;
      video := seq(m.rows, _ => seq(m.Width(), _ => Solid(COLORS[0])));
      FlushCursor();
    }

    /** Any run of calls, mode switches succeeding: the display is that of the simple terminal
        after the same calls, the cursor glyph XORed in once, at the cursor, if it is visible. */
    method DoAll(calls: seq<Call>)
      requires Valid() && mode != -1 && Abs().InRange()
      modifies this
      ensures Valid() && mode != -1
      ensures Console() == old(Console()).DoAll(calls)
      ensures video == old(Console()).DoAll(calls).terminal.Display()
    {
      for i := 0 to |calls|
        invariant Valid() && mode != -1 && Abs().InRange()
        invariant Console() == old(Console()).DoAll(calls[..i])
      {
        assert calls[..i + 1][..i] == calls[..i];
        Do(calls[i]);
      }
      assert calls[..|calls|] == calls;
      ShownTwice(Plain());
    }

    method Do(call: Call)
      requires Valid() && mode != -1 && Abs().InRange()
      modifies this
      ensures Valid() && mode != -1 && Console() == old(Console()).Do(call)
    {
      match call
      case OutputString(s) => var _ := OutputString(s);
      case SetAttribute(a) => var _ := SetAttribute(a);
      case SetCursorPosition(c, r) => var _ := SetCursorPosition(c, r);
      case ClearScreen => var _ := ClearScreen();
      case EnableCursor(v) => var _ := EnableCursor(v);
      case SetMode(n) => var _ := SetMode(n, true, true);
    }
  }
}
