/**
 * The kernel's `ConsoleWriter` (`kernel/src/klib/vga_console.rs`): the
 * text grid is the memory-mapped buffer, modelled as a 25 x 80 array;
 * `row`, `col` and `color_code` are fields the methods update in place.
 * Newline and backspace are control bytes; every other byte is drawn.
 */
module KernelConsole {
  import opened VgaText

  /** `write_ascii_char` on the console state. */
  function WriteChar(c: Console, byte: int): (c': Console)
    requires c.Valid()
    ensures c'.Valid() && c'.color == c.color
  {
    if byte == NEWLINE then NewLine(c)
    else if byte == BACKSPACE then Backspace(c)
    else PutChar(c, byte)
  }

  /** The bytes of a string written one after the other, as `write_ascii_string` does. */
  function WriteString(c: Console, s: seq<int>): (c': Console)
    requires c.Valid()
    ensures c'.Valid() && c'.color == c.color
    decreases |s|
  {
    if s == [] then c else WriteString(WriteChar(c, s[0]), s[1..])
  }

  /** Writing `s + [b]` is writing `s` and then `b`. */
  lemma {:induction false} WriteStringAppend(c: Console, s: seq<int>, b: int)
    requires c.Valid()
    ensures WriteString(c, s + [b]) == WriteChar(WriteString(c, s), b)
    decreases |s|
  {
    if s == [] {
      assert WriteString(WriteChar(c, b), []) == WriteChar(c, b);
    } else {
      assert (s + [b])[1..] == s[1..] + [b];
      WriteStringAppend(WriteChar(c, s[0]), s[1..], b);
    }
  }

  /** A newline or a backspace draws no glyph: the cells change only by a scroll or a blank. */
  lemma ControlBytesDrawNoGlyph(c: Console, byte: int)
    requires c.Valid() && (byte == NEWLINE || byte == BACKSPACE)
    ensures var c' := WriteChar(c, byte);
      || c'.cells == c.cells
      || c'.cells == Scrolled(c.cells, c.color)
      || c'.cells == SetCell(c.cells, c'.row, c'.col, Blank(c.color))
  {
  }

  class ConsoleWriter {
    var row: int
    var col: int
    var colorCode: bv8
    /** The VGA text buffer at 0xb8000. */
    const buffer: array2<Character>

    ghost function Cells(): (g: Grid)
      reads buffer
      requires buffer.Length0 == BUFFER_HEIGHT && buffer.Length1 == BUFFER_WIDTH
      ensures IsScreen(g)
      ensures forall i, j :: 0 <= i < BUFFER_HEIGHT && 0 <= j < BUFFER_WIDTH ==> g[i][j] == buffer[i, j]
    {
      seq(BUFFER_HEIGHT, i requires 0 <= i < BUFFER_HEIGHT reads buffer =>
        seq(BUFFER_WIDTH, j requires 0 <= j < BUFFER_WIDTH reads buffer => buffer[i, j]))
    }

    ghost function State(): Console
      reads this, buffer
      requires buffer.Length0 == BUFFER_HEIGHT && buffer.Length1 == BUFFER_WIDTH
    {
      Console(row, col, colorCode, Cells())
    }

    ghost predicate Valid()
      reads this, buffer
    {
      buffer.Length0 == BUFFER_HEIGHT && buffer.Length1 == BUFFER_WIDTH && State().Valid()
    }

    /**
     * `ConsoleWriter::new()`: clears the whole screen to white-on-black
     * spaces and starts at (0, 0) in white on black.
     */
    constructor(screen: array2<Character>)
      requires screen.Length0 == BUFFER_HEIGHT && screen.Length1 == BUFFER_WIDTH
      modifies screen
      ensures Valid() && buffer == screen
      ensures State() == Console(0, 0, ColorCodeOf(WHITE, BLACK), BlankScreen(ColorCodeOf(WHITE, BLACK)))
    {
      var emptySpace := Blank(ColorCodeOf(WHITE, BLACK));
      for r := 0 to BUFFER_HEIGHT
        invariant forall i, j :: 0 <= i < r && 0 <= j < BUFFER_WIDTH ==> screen[i, j] == emptySpace
      {
        for k := 0 to BUFFER_WIDTH
          invariant forall i, j :: 0 <= i < r && 0 <= j < BUFFER_WIDTH ==> screen[i, j] == emptySpace
          invariant forall j :: 0 <= j < k ==> screen[r, j] == emptySpace
        {
          screen[r, k] := emptySpace;
        }
      }
      row := 0;
      col := 0;
      colorCode := ColorCodeOf(WHITE, BLACK);
      buffer := screen;
      new;
      ScreensEqual(Cells(), BlankScreen(colorCode));
    }

    /** `write_ascii_char(byte)`. */
    method WriteAsciiChar(byte: int)
      requires Valid()
      modifies this, buffer
      ensures Valid() && State() == WriteChar(old(State()), byte)
    {
      if byte == NEWLINE {
        NewLine();
      } else if byte == BACKSPACE {
        Backspace();
      } else {
        ghost var c := State();
        if col >= BUFFER_WIDTH {
          NewLine();
        }
        ghost var g := Cells();
        buffer[row, col] := Character(byte, colorCode);
        ScreensEqual(Cells(), SetCell(g, row, col, Character(byte, colorCode)));
        col := col + 1;
        assert State() == PutChar(c, byte);
      }
    }

    /**
     * `write_ascii_string(s)`: every byte in order, then `move_cursor`,
     * whose two port writes are returned as the low and high cursor bytes.
     */
    method WriteAsciiString(s: seq<int>) returns (cursorLow: int, cursorHigh: int)
      requires Valid()
      modifies this, buffer
      ensures Valid() && State() == WriteString(old(State()), s)
      ensures (cursorLow, cursorHigh) == CursorBytes(row, col)
    {
      for n := 0 to |s|
        invariant Valid() && State() == WriteString(old(State()), s[..n])
      {
        WriteAsciiChar(s[n]);
        WriteStringAppend(old(State()), s[..n], s[n]);
        assert s[..n + 1] == s[..n] + [s[n]];
      }
      assert s[..|s|] == s;
      var pos := row * BUFFER_WIDTH + col;
      cursorLow := pos % 256;
      cursorHigh := pos / 256;
    }

    /** `new_line()`. */
    method NewLine()
      requires Valid()
      modifies this, buffer
      ensures Valid() && State() == VgaText.NewLine(old(State()))
    {
      col := 0;
      row := row + 1;
      if row >= BUFFER_HEIGHT {
        row := row - 1;
        Scroll();
      }
    }

    /** `backspace()`. */
    method Backspace()
      requires Valid()
      modifies this, buffer
      ensures Valid() && State() == VgaText.Backspace(old(State()))
    {
      ghost var c := State();
      if col == 0 {
        if row != 0 {
          row := row - 1;
          col := BUFFER_WIDTH - 1;
        }
      } else {
        col := col - 1;
      }
      assert (row, col) == BackspacePosition(c.row, c.col);
      buffer[row, col] := Blank(colorCode);
      ScreensEqual(Cells(), SetCell(c.cells, row, col, Blank(colorCode)));
    }

    /** `scroll()`: rows 1..24 move up one row, then the last row is blanked. */
    method Scroll()
      requires buffer.Length0 == BUFFER_HEIGHT && buffer.Length1 == BUFFER_WIDTH
      modifies buffer
      ensures Cells() == Scrolled(old(Cells()), colorCode)
    {
      for r := 0 to BUFFER_HEIGHT - 1
        invariant forall i, j :: 0 <= i < r && 0 <= j < BUFFER_WIDTH ==> buffer[i, j] == old(buffer[i + 1, j])
        invariant forall i, j :: r <= i < BUFFER_HEIGHT && 0 <= j < BUFFER_WIDTH ==> buffer[i, j] == old(buffer[i, j])
      {
        for k := 0 to BUFFER_WIDTH
          invariant forall i, j :: 0 <= i < r && 0 <= j < BUFFER_WIDTH ==> buffer[i, j] == old(buffer[i + 1, j])
          invariant forall j :: 0 <= j < k ==> buffer[r, j] == old(buffer[r + 1, j])
          invariant forall i, j :: r <= i < BUFFER_HEIGHT && 0 <= j < BUFFER_WIDTH && (i > r || j >= k) ==> buffer[i, j] == old(buffer[i, j])
        {
          buffer[r, k] := buffer[r + 1, k];
        }
      }
      var blank := Blank(colorCode);
      var last := BUFFER_HEIGHT - 1;
      for k := 0 to BUFFER_WIDTH
        invariant forall i, j :: 0 <= i < last && 0 <= j < BUFFER_WIDTH ==> buffer[i, j] == old(buffer[i + 1, j])
        invariant forall j :: 0 <= j < k ==> buffer[last, j] == blank
      {
        buffer[last, k] := blank;
      }
      ScreensEqual(Cells(), Scrolled(old(Cells()), colorCode));
    }

    /** `change_color(fg, bg)`. */
    method ChangeColor(foreground: Color, background: Color)
      requires Valid()
      modifies this
      ensures Valid() && State() == VgaText.ChangeColor(old(State()), foreground, background)
    {
      colorCode := ColorCodeOf(foreground, background);
    }
  }
}
