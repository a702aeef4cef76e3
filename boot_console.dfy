/**
 * The boot stage's `ConsoleWriter` (`src/klib/vga_console.rs`): the same
 * grid, cursor and colour as the kernel's writer, but only the newline is
 * a control byte. A backspace byte is drawn like any other, and `new`
 * leaves the screen as it is.
 */
module BootConsole {
  import opened VgaText
  import KernelConsole

  /** `write_ascii_char` on the console state. */
  function WriteChar(c: Console, byte: int): (c': Console)
    requires c.Valid()
    ensures c'.Valid() && c'.color == c.color
  {
    if byte == NEWLINE then NewLine(c) else PutChar(c, byte)
  }

  /** The bytes of a string written one after the other, as `write_ascii_string` does. */
  function WriteString(c: Console, s: seq<int>): (c': Console)
    requires c.Valid()
    ensures c'.Valid() && c'.color == c.color
    decreases |s|
  {
    if s == [] then c else WriteString(WriteChar(c, s[0]), s[1..])
  }

  /** Writing `s + [b]` is writing `s` and then `b`. */
  lemma {:induction false} WriteStringAppend(c: Console, s: seq<int>, b: int)
    requires c.Valid()
    ensures WriteString(c, s + [b]) == WriteChar(WriteString(c, s), b)
    decreases |s|
  {
    if s == [] {
      assert WriteString(WriteChar(c, b), []) == WriteChar(c, b);
    } else {
      assert (s + [b])[1..] == s[1..] + [b];
      WriteStringAppend(WriteChar(c, s[0]), s[1..], b);
    }
  }

  /**
   * The boot writer treats every byte but the backspace as the kernel
   * writer does; a backspace byte is drawn as a glyph at the cursor.
   */
  lemma AgreesWithKernelButBackspace(c: Console, byte: int)
    requires c.Valid()
    ensures byte != BACKSPACE ==> WriteChar(c, byte) == KernelConsole.WriteChar(c, byte)
    ensures byte == BACKSPACE ==> WriteChar(c, byte) == PutChar(c, BACKSPACE)
  {
  }

  class ConsoleWriter {
    var row: int
    var col: int
    var colorCode: bv8
    /** The VGA text buffer at 0xb8000. */
    const buffer: array2<Character>

    ghost function Cells(): (g: Grid)
      reads buffer
      requires buffer.Length0 == BUFFER_HEIGHT && buffer.Length1 == BUFFER_WIDTH
      ensures IsScreen(g)
      ensures forall i, j :: 0 <= i < BUFFER_HEIGHT && 0 <= j < BUFFER_WIDTH ==> g[i][j] == buffer[i, j]
    {
      seq(BUFFER_HEIGHT, i requires 0 <= i < BUFFER_HEIGHT reads buffer =>
        seq(BUFFER_WIDTH, j requires 0 <= j < BUFFER_WIDTH reads buffer => buffer[i, j]))
    }

    ghost function State(): Console
      reads this, buffer
      requires buffer.Length0 == BUFFER_HEIGHT && buffer.Length1 == BUFFER_WIDTH
    {
      Console(row, col, colorCode, Cells())
    }

    ghost predicate Valid()
      reads this, buffer
    {
      buffer.Length0 == BUFFER_HEIGHT && buffer.Length1 == BUFFER_WIDTH && State().Valid()
    }

    /**
     * `ConsoleWriter::new()` and the `CONSOLE_WRITER` static: the cursor at
     * (0, 0) in white on black (`ColorCode(Color::White as u8)` is the same
     * code); the screen is left as it is.
     */
    constructor(screen: array2<Character>)
      requires screen.Length0 == BUFFER_HEIGHT && screen.Length1 == BUFFER_WIDTH
      ensures Valid() && buffer == screen
      ensures row == 0 && col == 0 && colorCode == ColorCodeOf(WHITE, BLACK) && colorCode == WHITE as bv8
    {
      row := 0;
      col := 0;
      colorCode := ColorCodeOf(WHITE, BLACK);
      buffer := screen;
    }

    /** `write_ascii_char(byte)`. */
    method WriteAsciiChar(byte: int)
      requires Valid()
      modifies this, buffer
      ensures Valid() && State() == WriteChar(old(State()), byte)
    {
      if byte == NEWLINE {
        NewLine();
      } else {
        ghost var c := State();
        if col >= BUFFER_WIDTH {
          NewLine();
        }
        ghost var g := Cells();
        buffer[row, col] := Character(byte, colorCode);
        ScreensEqual(Cells(), SetCell(g, row, col, Character(byte, colorCode)));
        col := col + 1;
        assert State() == PutChar(c, byte);
      }
    }

    /** `write_ascii_string(s)`: every byte in order. */
    method WriteAsciiString(s: seq<int>)
      requires Valid()
      modifies this, buffer
      ensures Valid() && State() == WriteString(old(State()), s)
    {
      for n := 0 to |s|
        invariant Valid() && State() == WriteString(old(State()), s[..n])
      {
        WriteAsciiChar(s[n]);
        WriteStringAppend(old(State()), s[..n], s[n]);
        assert s[..n + 1] == s[..n] + [s[n]];
      }
      assert s[..|s|] == s;
    }

    /** `new_line()`. */
    method NewLine()
      requires Valid()
      modifies this, buffer
      ensures Valid() && State() == VgaText.NewLine(old(State()))
    {
      col := 0;
      row := row + 1;
      if row >= BUFFER_HEIGHT {
        row := row - 1;
        Scroll();
      }
    }

    /** `scroll()`: rows 1..24 move up one row, then the last row is blanked. */
    method Scroll()
      requires buffer.Length0 == BUFFER_HEIGHT && buffer.Length1 == BUFFER_WIDTH
      modifies buffer
      ensures Cells() == Scrolled(old(Cells()), colorCode)
    {
      for r := 0 to BUFFER_HEIGHT - 1
        invariant forall i, j :: 0 <= i < r && 0 <= j < BUFFER_WIDTH ==> buffer[i, j] == old(buffer[i + 1, j])
        invariant forall i, j :: r <= i < BUFFER_HEIGHT && 0 <= j < BUFFER_WIDTH ==> buffer[i, j] == old(buffer[i, j])
      {
        for k := 0 to BUFFER_WIDTH
          invariant forall i, j :: 0 <= i < r && 0 <= j < BUFFER_WIDTH ==> buffer[i, j] == old(buffer[i + 1, j])
          invariant forall j :: 0 <= j < k ==> buffer[r, j] == old(buffer[r + 1, j])
          invariant forall i, j :: r <= i < BUFFER_HEIGHT && 0 <= j < BUFFER_WIDTH && (i > r || j >= k) ==> buffer[i, j] == old(buffer[i, j])
        {
          buffer[r, k] := buffer[r + 1, k];
        }
      }
      var blank := Blank(colorCode);
      var last := BUFFER_HEIGHT - 1;
      for k := 0 to BUFFER_WIDTH
        invariant forall i, j :: 0 <= i < last && 0 <= j < BUFFER_WIDTH ==> buffer[i, j] == old(buffer[i + 1, j])
        invariant forall j :: 0 <= j < k ==> buffer[last, j] == blank
      {
        buffer[last, k] := blank;
      }
      ScreensEqual(Cells(), Scrolled(old(Cells()), colorCode));
    }

    /** `change_color(fg, bg)`. */
    method ChangeColor(foreground: Color, background: Color)
      requires Valid()
      modifies this
      ensures Valid() && State() == VgaText.ChangeColor(old(State()), foreground, background)
    {
      colorCode := ColorCodeOf(foreground, background);
    }
  }
}
