/**
The display as the graphics console sees it: a grid of glyph cells, each an 8 by 19 block of
32-bit pixels, with at most one extra column, the margin to the right of the text window.
*/
module Screen {

  const GLYPH_WIDTH := 8
  const GLYPH_HEIGHT := 19

  type Block = b: seq<seq<bv32>> |
    |b| == GLYPH_HEIGHT && forall y :: 0 <= y < GLYPH_HEIGHT ==> |b[y]| == GLYPH_WIDTH
    witness seq(GLYPH_HEIGHT, _ => seq(GLYPH_WIDTH, _ => 0))

  type Grid = seq<seq<Block>>

  // The pixels of one glyph: character, foreground, background, left (0) or right (1) half.
  datatype Font = Font(render: (nat, bv32, bv32, nat) -> Block)

  function Solid(color: bv32): Block {
    seq(GLYPH_HEIGHT, _ => seq(GLYPH_WIDTH, _ => color))
  }

  // The three lowest lines of the cell.
  const CURSOR_GLYPH: seq<nat> :=
    [0, 0, 0, 0, 0, 0, 0, 0, 0, 0, 0, 0, 0, 0, 0, 0, 0xFF, 0xFF, 0xFF]

  predicate BitSet(n: nat, k: nat) {
    if k == 0 then n % 2 == 1 else BitSet(n / 2, k - 1)
  }

  // Bit posX of the cursor glyph's line posY; bit 0 is the rightmost pixel.
  predicate CursorBit(posY: nat, posX: nat)
    requires posY < GLYPH_HEIGHT
  {
    BitSet(CURSOR_GLYPH[posY], posX)
  }

  // Pixel (y, x) of a cell whose old value is p, after the cursor was toggled there.
  function XorPixel(p: bv32, y: nat, x: nat, color: bv32): bv32
    requires y < GLYPH_HEIGHT && x < GLYPH_WIDTH
  {
    if CursorBit(y, GLYPH_WIDTH - 1 - x) then p ^ color else p
  }

  function XorBlock(b: Block, color: bv32): Block {
    seq(GLYPH_HEIGHT, y requires 0 <= y < GLYPH_HEIGHT =>
      seq(GLYPH_WIDTH, x requires 0 <= x < GLYPH_WIDTH => XorPixel(b[y][x], y, x, color)))
  }

  function SetCell(line: seq<Block>, col: nat, block: Block): (r: seq<Block>)
    requires col < |line|
    ensures |r| == |line|
  {
    line[col := block]
  }

  function XorCell(line: seq<Block>, col: nat, color: bv32): (r: seq<Block>)
    requires col < |line|
    ensures |r| == |line|
  {
    SetCell(line, col, XorBlock(line[col], color))
  }

  // The cursor toggled at a cell; outside the display the transfer fails and nothing changes.
  function XorAt(g: Grid, row: nat, col: nat, color: bv32): (r: Grid)
    ensures forall rows, width :: Rectangle(g, rows, width) ==> Rectangle(r, rows, width)
  {
    if row < |g| && col < |g[row]| then g[row := XorCell(g[row], col, color)] else g
  }

  predicate Rectangle(g: Grid, rows: nat, width: nat) {
    |g| == rows && forall r :: 0 <= r < rows ==> |g[r]| == width
  }

  lemma XorBlockTwice(b: Block, color: bv32)
    ensures XorBlock(XorBlock(b, color), color) == b
  {
    forall y | 0 <= y < GLYPH_HEIGHT
      ensures XorBlock(XorBlock(b, color), color)[y] == b[y]
    {
      forall x | 0 <= x < GLYPH_WIDTH
        ensures XorBlock(XorBlock(b, color), color)[y][x] == b[y][x]
      {
        XorPixelTwice(b[y][x], y, x, color);
      }
    }
  }

  lemma XorPixelTwice(p: bv32, y: nat, x: nat, color: bv32)
    requires y < GLYPH_HEIGHT && x < GLYPH_WIDTH
    ensures XorPixel(XorPixel(p, y, x, color), y, x, color) == p
  {
    assert (p ^ color) ^ color == p;
  }

  // Toggling the cursor twice at one place, with one colour, restores every pixel.
  lemma XorAtTwice(g: Grid, row: nat, col: nat, color: bv32)
    ensures XorAt(XorAt(g, row, col, color), row, col, color) == g
  {
    if row < |g| && col < |g[row]| {
      XorBlockTwice(g[row][col], color);
      assert XorCell(XorCell(g[row], col, color), col, color) == g[row];
      assert g[row := XorCell(g[row], col, color)][row := g[row]] == g;
    }
  }
}
