/**
 * The VGA text-mode console shared by the kernel's and the boot stage's
 * `ConsoleWriter`: a 25-row, 80-column grid of (byte, colour code) cells,
 * a cursor (`row`, `col`) and the current colour code. This module holds
 * the value-level behaviour of each operation; the two writer classes
 * are proved against it.
 */
module VgaText {
  const BUFFER_WIDTH: int := 80
  const BUFFER_HEIGHT: int := 25

  const NEWLINE: int := 0x0A
  const BACKSPACE: int := 0x08
  const SPACE: int := 0x20

  /** `Color`, by its discriminant. */
  type Color = c: int | 0 <= c < 16

  const BLACK: Color := 0
  const WHITE: Color := 15

  /** `ColorCode::new(fg, bg)`: the background in the high nibble, the foreground in the low one. */
  function ColorCodeOf(foreground: Color, background: Color): (code: bv8)
    ensures code >> 4 == background as bv8 && code & 0x0F == foreground as bv8
  {
    ((background as bv8) << 4) | foreground as bv8
  }

  /** White on black is colour code 0x0F. */
  lemma WhiteOnBlack()
    ensures ColorCodeOf(WHITE, BLACK) == 0x0F
  {
  }

  /** A screen cell: `Character { ascii_char, color_code }`. */
  datatype Character = Character(asciiChar: int, colorCode: bv8)

  function Blank(color: bv8): Character
  {
    Character(SPACE, color)
  }

  type Grid = seq<seq<Character>>

  predicate IsScreen(g: Grid)
  {
    |g| == BUFFER_HEIGHT && forall i :: 0 <= i < |g| ==> |g[i]| == BUFFER_WIDTH
  }

  function BlankRow(color: bv8): (r: seq<Character>)
    ensures |r| == BUFFER_WIDTH && forall j :: 0 <= j < |r| ==> r[j] == Blank(color)
  {
    seq(BUFFER_WIDTH, _ => Blank(color))
  }

  function BlankScreen(color: bv8): (g: Grid)
    ensures IsScreen(g)
  {
    seq(BUFFER_HEIGHT, _ => BlankRow(color))
  }

  /** Two screens with the same cells are equal. */
  lemma ScreensEqual(g: Grid, h: Grid)
    requires IsScreen(g) && IsScreen(h)
    requires forall i, j :: 0 <= i < BUFFER_HEIGHT && 0 <= j < BUFFER_WIDTH ==> g[i][j] == h[i][j]
    ensures g == h
  {
    forall i | 0 <= i < BUFFER_HEIGHT
      ensures g[i] == h[i]
    {
      assert forall j :: 0 <= j < BUFFER_WIDTH ==> g[i][j] == h[i][j];
    }
  }

  /** The grid with one cell replaced. */
  function SetCell(g: Grid, row: int, col: int, ch: Character): (g': Grid)
    requires IsScreen(g) && 0 <= row < BUFFER_HEIGHT && 0 <= col < BUFFER_WIDTH
    ensures IsScreen(g')
    ensures g'[row][col] == ch
    ensures forall i, j :: 0 <= i < BUFFER_HEIGHT && 0 <= j < BUFFER_WIDTH && (i, j) != (row, col) ==> g'[i][j] == g[i][j]
  {
    g[row := g[row][col := ch]]
  }

  /** `scroll`: every row moves up by one and the last row is blanked in the current colour. */
  function Scrolled(g: Grid, color: bv8): (g': Grid)
    requires IsScreen(g)
    ensures IsScreen(g')
    ensures forall i, j :: 0 <= i < BUFFER_HEIGHT - 1 && 0 <= j < BUFFER_WIDTH ==> g'[i][j] == g[i + 1][j]
    ensures g'[BUFFER_HEIGHT - 1] == BlankRow(color)
  {
    g[1..] + [BlankRow(color)]
  }

  /** The state of a `ConsoleWriter`. */
  datatype Console = Console(row: int, col: int, color: bv8, cells: Grid)
  {
    /** The cursor stays on screen; `col` may sit one past the last column. */
    predicate Valid()
    {
      0 <= row < BUFFER_HEIGHT && 0 <= col <= BUFFER_WIDTH && IsScreen(cells)
    }
  }

  /**
   * `new_line`: column 0 of the next row; from the last row the cursor
   * stays on the last row and the screen scrolls.
   */
  function NewLine(c: Console): (c': Console)
    requires c.Valid()
    ensures c'.Valid() && c'.col == 0 && c'.color == c.color
    ensures c.row < BUFFER_HEIGHT - 1 ==> c'.row == c.row + 1 && c'.cells == c.cells
    ensures c.row == BUFFER_HEIGHT - 1 ==> c'.row == c.row && c'.cells == Scrolled(c.cells, c.color)
  {
    if c.row + 1 >= BUFFER_HEIGHT then
      c.(col := 0, cells := Scrolled(c.cells, c.color))
    else
      c.(col := 0, row := c.row + 1)
  }

  /**
   * The branch of `write_ascii_char` for an ordinary byte: a new line
   * first if the cursor is past the last column, then the byte in the
   * current colour at the cursor, which moves one column right.
   */
  function PutChar(c: Console, byte: int): (c': Console)
    requires c.Valid()
    ensures c'.Valid() && c'.color == c.color && c'.col >= 1
  {
    var c1 := if c.col >= BUFFER_WIDTH then NewLine(c) else c;
    c1.(cells := SetCell(c1.cells, c1.row, c1.col, Character(byte, c1.color)), col := c1.col + 1)
  }

  /**
   * Where `backspace` (kernel writer only) moves the cursor: one column
   * left; from column 0 to the last column of the previous row; at the
   * top-left corner it stays. In row-major order that is one cell back,
   * stopping at the first cell.
   */
  function BackspacePosition(row: int, col: int): (p: (int, int))
    requires 0 <= row < BUFFER_HEIGHT && 0 <= col <= BUFFER_WIDTH
    ensures 0 <= p.0 < BUFFER_HEIGHT && 0 <= p.1 < BUFFER_WIDTH
    ensures p.0 * BUFFER_WIDTH + p.1 == if row == 0 && col == 0 then 0 else row * BUFFER_WIDTH + col - 1
  {
    if col == 0 then
      if row != 0 then (row - 1, BUFFER_WIDTH - 1) else (row, col)
    else (row, col - 1)
  }

  /** `backspace`: the cursor moves back and the cell under it is blanked. */
  function Backspace(c: Console): (c': Console)
    requires c.Valid()
    ensures c'.Valid() && c'.color == c.color
  {
    var (row, col) := BackspacePosition(c.row, c.col);
    c.(row := row, col := col, cells := SetCell(c.cells, row, col, Blank(c.color)))
  }

  /** `change_color`: only the colour code changes. */
  function ChangeColor(c: Console, foreground: Color, background: Color): (c': Console)
    ensures c' == c.(color := ColorCodeOf(foreground, background))
  {
    c.(color := ColorCodeOf(foreground, background))
  }

  /*
   * Properties
   */

  /**
   * An ordinary byte lands at the cursor, or at column 0 of the next line
   * (scrolling from the last row) when the cursor is past the last
   * column; no other cell changes except by that scroll.
   */
  lemma PutCharPlacesByte(c: Console, byte: int)
    requires c.Valid()
    ensures var c' := PutChar(c, byte);
      && (c.col < BUFFER_WIDTH ==>
            c'.row == c.row && c'.col == c.col + 1 && c'.cells == SetCell(c.cells, c.row, c.col, Character(byte, c.color)))
      && (c.col >= BUFFER_WIDTH && c.row < BUFFER_HEIGHT - 1 ==>
            c'.row == c.row + 1 && c'.col == 1 && c'.cells == SetCell(c.cells, c.row + 1, 0, Character(byte, c.color)))
      && (c.col >= BUFFER_WIDTH && c.row == BUFFER_HEIGHT - 1 ==>
            c'.row == c.row && c'.col == 1
            && c'.cells == SetCell(Scrolled(c.cells, c.color), c.row, 0, Character(byte, c.color)))
  {
  }

  /**
   * Backspace undoes an ordinary byte written inside a row: the cursor is
   * back where it was and the written cell is blank.
   */
  lemma BackspaceAfterPutChar(c: Console, byte: int)
    requires c.Valid() && c.col < BUFFER_WIDTH
    ensures Backspace(PutChar(c, byte)) == c.(cells := SetCell(c.cells, c.row, c.col, Blank(c.color)))
  {
    var g1 := SetCell(c.cells, c.row, c.col, Character(byte, c.color));
    assert g1[c.row][c.col := Blank(c.color)] == c.cells[c.row][c.col := Blank(c.color)];
  }

  /** At the top-left corner backspace keeps the cursor and only blanks that cell. */
  lemma BackspaceAtOrigin(c: Console)
    requires c.Valid() && c.row == 0 && c.col == 0
    ensures Backspace(c) == c.(cells := SetCell(c.cells, 0, 0, Blank(c.color)))
  {
  }

  /**
   * From column 0 of a row below the first, backspace moves to the last
   * column of the previous row and blanks that cell.
   */
  lemma BackspaceFromLineStart(c: Console)
    requires c.Valid() && c.col == 0 && c.row > 0
    ensures Backspace(c) == c.(row := c.row - 1, col := BUFFER_WIDTH - 1,
                               cells := SetCell(c.cells, c.row - 1, BUFFER_WIDTH - 1, Blank(c.color)))
  {
  }

  /**
   * Backspace does not undo a new line: from a row above the last, it
   * lands on the last column of the row the new line left, and blanks
   * that cell, not the cell after the text that ended the row.
   */
  lemma BackspaceAfterNewLine(c: Console)
    requires c.Valid() && c.row < BUFFER_HEIGHT - 1
    ensures Backspace(NewLine(c)) == c.(col := BUFFER_WIDTH - 1, cells := SetCell(c.cells, c.row, BUFFER_WIDTH - 1, Blank(c.color)))
  {
  }

  /**
   * `move_cursor`: the linear position `row * 80 + col`, sent as its low
   * byte and then its high byte; the two bytes give the position back.
   */
  function CursorBytes(row: int, col: int): (r: (int, int))
    requires 0 <= row < BUFFER_HEIGHT && 0 <= col <= BUFFER_WIDTH
    ensures 0 <= r.0 < 256 && 0 <= r.1 < 256
    ensures r.0 + 256 * r.1 == row * BUFFER_WIDTH + col
  {
    var pos := row * BUFFER_WIDTH + col;
    (pos % 256, pos / 256)
  }
}
