/**
 * The VGA text-mode terminal: an 80x25 grid of 16-bit cells (character in
 * the low byte, colour attribute in the high byte) and a cursor that moves
 * as characters are written, wraps at the end of a line and scrolls the
 * screen up one row when it runs off the bottom.
 *
 * The memory-mapped buffer at 0xC03FF000 is a `seq<Cell>` of 2000 cells in
 * row-major order; the three static variables of the driver are the fields
 * of `Terminal`.  C `char` arguments are bytes, so characters are `bv8`.
 */
module Vga {

  type Cell = bv16

  const VGA_WIDTH: nat := 80
  const VGA_HEIGHT: nat := 25
  const CELLS: nat := 2000
  const LAST_ROW: nat := 24

  // The two colours the driver uses out of the sixteen of `enum vga_color`.
  const VGA_COLOR_BLACK: bv8 := 0
  const VGA_COLOR_LIGHT_GREY: bv8 := 7

  const SPACE: bv8 := 0x20
  const NEWLINE: bv8 := 0x0A
  const BACKSPACE: bv8 := 0x08

  // ---------------------------------------------------------------------
  // Cell and colour packing.

  /** Foreground in the low nibble, background in the high nibble (truncated to a byte). */
  function EntryColor(fg: bv8, bg: bv8): (r: bv8)
    ensures fg < 16 && bg < 16 ==> r & 0xF == fg && r >> 4 == bg
  {
    fg | (bg << 4)
  }

  /** Character in the low byte, colour attribute in the high byte. */
  function Entry(uc: bv8, color: bv8): (r: Cell)
    ensures (r & 0xFF) as bv8 == uc && (r >> 8) as bv8 == color
  {
    (uc as bv16) | ((color as bv16) << 8)
  }

  /** The character byte of a cell. */
  function CellChar(e: Cell): bv8
  {
    (e & 0xFF) as bv8
  }

  /** The colour byte of a cell. */
  function CellColor(e: Cell): bv8
  {
    (e >> 8) as bv8
  }

  lemma EntryColorForeground(fg: bv8, bg: bv8)
    requires fg < 16 && bg < 16
    ensures EntryColor(fg, bg) & 0xF == fg
  {
  }

  lemma EntryColorBackground(fg: bv8, bg: bv8)
    requires fg < 16 && bg < 16
    ensures EntryColor(fg, bg) >> 4 == bg
  {
  }

  lemma EntryChar(uc: bv8, color: bv8)
    ensures CellChar(Entry(uc, color)) == uc
  {
  }

  lemma EntryColorByte(uc: bv8, color: bv8)
    ensures CellColor(Entry(uc, color)) == color
  {
  }

  /** Every 16-bit cell is the entry of its own character and colour. */
  lemma EntrySplit(e: Cell)
    ensures Entry(CellChar(e), CellColor(e)) == e
  {
  }

  /** Two different character/colour pairs never pack to the same cell. */
  lemma EntryInjective(uc1: bv8, color1: bv8, uc2: bv8, color2: bv8)
    requires Entry(uc1, color1) == Entry(uc2, color2)
    ensures uc1 == uc2 && color1 == color2
  {
    EntryChar(uc1, color1);
    EntryChar(uc2, color2);
    EntryColorByte(uc1, color1);
    EntryColorByte(uc2, color2);
  }

  // ---------------------------------------------------------------------
  // The screen.

  /** Row-major index of column `x` in row `y`. */
  function Index(x: nat, y: nat): (r: nat)
    requires x < VGA_WIDTH && y < VGA_HEIGHT
    ensures r < CELLS
  {
    y * VGA_WIDTH + x
  }

  /** Distinct positions have distinct indices. */
  lemma IndexInjective(x1: nat, y1: nat, x2: nat, y2: nat)
    requires x1 < VGA_WIDTH && y1 < VGA_HEIGHT && x2 < VGA_WIDTH && y2 < VGA_HEIGHT
    requires Index(x1, y1) == Index(x2, y2)
    ensures x1 == x2 && y1 == y2
  {
  }

  datatype Terminal = Terminal(row: nat, column: nat, color: bv8, buffer: seq<Cell>)

  /** The cursor is on the screen and the buffer has every cell. */
  predicate Valid(t: Terminal)
  {
    t.row < VGA_HEIGHT && t.column < VGA_WIDTH && |t.buffer| == CELLS
  }

  function Blank(color: bv8): Cell
  {
    Entry(SPACE, color)
  }

  /** `terminal_putentryat`: one cell is overwritten and no other. */
  function PutEntryAt(buffer: seq<Cell>, c: bv8, color: bv8, x: nat, y: nat): (r: seq<Cell>)
    requires |buffer| == CELLS && x < VGA_WIDTH && y < VGA_HEIGHT
    ensures |r| == CELLS
    ensures r[Index(x, y)] == Entry(c, color)
    ensures forall j :: 0 <= j < CELLS && j != Index(x, y) ==> r[j] == buffer[j]
  {
    buffer[Index(x, y) := Entry(c, color)]
  }

  /**
   * `terminal_scroll` as a state change: rows 1..24 move up one row, the
   * last row is blanked in the current colour, and the cursor row becomes 24.
   */
  function Scroll(t: Terminal): (r: Terminal)
    requires |t.buffer| == CELLS
    ensures r.row == VGA_HEIGHT - 1 && r.column == t.column && r.color == t.color
    ensures |r.buffer| == CELLS
    ensures forall x, y :: 0 <= x < VGA_WIDTH && 0 <= y < VGA_HEIGHT - 1 ==>
      r.buffer[Index(x, y)] == t.buffer[Index(x, y + 1)]
    ensures forall x :: 0 <= x < VGA_WIDTH ==> r.buffer[Index(x, LAST_ROW)] == Blank(t.color)
  {
    t.(row := VGA_HEIGHT - 1,
       buffer := t.buffer[VGA_WIDTH..] + seq(VGA_WIDTH, _ => Blank(t.color)))
  }

  /** Moving to the next line, scrolling when it was the last one. */
  function NextLine(t: Terminal): (r: Terminal)
    requires t.row < VGA_HEIGHT && |t.buffer| == CELLS
    ensures Valid(r) && r.column == 0 && r.color == t.color
    ensures t.row + 1 < VGA_HEIGHT ==> r == t.(row := t.row + 1, column := 0)
    ensures t.row + 1 == VGA_HEIGHT ==> r == Scroll(t.(column := 0))
  {
    var t1 := t.(column := 0, row := t.row + 1);
    if t1.row == VGA_HEIGHT then Scroll(t1) else t1
  }

  /** `terminal_putchar` may run from `t` on `c`: a backspace needs a cell to its left or above. */
  predicate CanPut(t: Terminal, c: bv8)
  {
    Valid(t) && (c == BACKSPACE ==> !(t.row == 0 && t.column == 0))
  }

  /** `terminal_putchar`: newline, backspace, or any other byte printed at the cursor. */
  function PutChar(t: Terminal, c: bv8): (r: Terminal)
    requires CanPut(t, c)
    ensures Valid(r) && r.color == t.color
  {
    if c == NEWLINE then
      NextLine(t)
    else if c == BACKSPACE then
      var t1 := if t.column == 0 then t.(row := t.row - 1, column := VGA_WIDTH) else t;
      var col := t1.column - 1;
      t1.(column := col, buffer := PutEntryAt(t1.buffer, SPACE, t.color, col, t1.row))
    else
      var t1 := t.(buffer := PutEntryAt(t.buffer, c, t.color, t.column, t.row));
      if t.column + 1 == VGA_WIDTH then NextLine(t1)
      else t1.(column := t.column + 1)
  }

  /** Every prefix of `data` can be put in turn, starting from `t`. */
  predicate CanWrite(t: Terminal, data: seq<bv8>)
    decreases |data|
  {
    data == [] || (CanPut(t, data[0]) && CanWrite(PutChar(t, data[0]), data[1..]))
  }

  /** `n` successive `terminal_putchar` calls, in order. */
  function PutAll(t: Terminal, data: seq<bv8>): (r: Terminal)
    requires CanWrite(t, data)
    decreases |data|
  {
    if data == [] then t else PutAll(PutChar(t, data[0]), data[1..])
  }

  // ---------------------------------------------------------------------
  // The driver's loops.

  /**
   * `terminal_initialize`: the cursor goes to the top-left corner, the
   * colour becomes light grey on black and every cell of whatever the
   * buffer held before is blanked in that colour.
   */
  method TerminalInitialize(screen: seq<Cell>) returns (t: Terminal)
    requires |screen| == CELLS
    ensures Valid(t) && t.row == 0 && t.column == 0
    ensures t.color == EntryColor(VGA_COLOR_LIGHT_GREY, VGA_COLOR_BLACK)
    ensures forall j :: 0 <= j < CELLS ==> t.buffer[j] == Blank(t.color)
  {
    var color := EntryColor(VGA_COLOR_LIGHT_GREY, VGA_COLOR_BLACK);
    var buffer := screen;
    var y := 0;
    while y < VGA_HEIGHT
      invariant 0 <= y <= VGA_HEIGHT && |buffer| == CELLS
      invariant forall j :: 0 <= j < y * VGA_WIDTH ==> buffer[j] == Blank(color)
    {
      var x := 0;
      while x < VGA_WIDTH
        invariant 0 <= x <= VGA_WIDTH && |buffer| == CELLS
        invariant forall j :: 0 <= j < y * VGA_WIDTH + x ==> buffer[j] == Blank(color)
      {
        buffer := buffer[Index(x, y) := Entry(SPACE, color)];
        x := x + 1;
      }
      y := y + 1;
    }
    t := Terminal(0, 0, color, buffer);
  }

  /** The two loops of `terminal_scroll`: a row-by-row copy, then the blank last row. */
  method TerminalScroll(t: Terminal) returns (r: Terminal)
    requires |t.buffer| == CELLS
    ensures r == Scroll(t)
  {
    var buffer := t.buffer;
    var y := 0;
    while y < LAST_ROW
      invariant 0 <= y <= LAST_ROW && |buffer| == CELLS
      invariant forall j :: 0 <= j < y * VGA_WIDTH ==> buffer[j] == t.buffer[j + VGA_WIDTH]
      invariant forall j :: y * VGA_WIDTH <= j < CELLS ==> buffer[j] == t.buffer[j]
    {
      buffer := CopyRow(buffer, y);
      y := y + 1;
    }
    var x := 0;
    while x < VGA_WIDTH
      invariant 0 <= x <= VGA_WIDTH && |buffer| == CELLS
      invariant forall j :: 0 <= j < LAST_ROW * VGA_WIDTH ==> buffer[j] == t.buffer[j + VGA_WIDTH]
      invariant forall j :: LAST_ROW * VGA_WIDTH <= j < LAST_ROW * VGA_WIDTH + x ==> buffer[j] == Blank(t.color)
    {
      buffer := buffer[Index(x, LAST_ROW) := Blank(t.color)];
      x := x + 1;
    }
    assert buffer == t.buffer[VGA_WIDTH..] + seq(VGA_WIDTH, _ => Blank(t.color));
    r := t.(row := LAST_ROW, buffer := buffer);
  }

  /** The `memcpy` of row `y + 1` onto row `y`; every other cell keeps its value. */
  method CopyRow(buffer: seq<Cell>, y: nat) returns (b: seq<Cell>)
    requires |buffer| == CELLS && y < LAST_ROW
    ensures |b| == CELLS
    ensures forall j :: y * VGA_WIDTH <= j < (y + 1) * VGA_WIDTH ==> b[j] == buffer[j + VGA_WIDTH]
    ensures forall j :: 0 <= j < CELLS && !(y * VGA_WIDTH <= j < (y + 1) * VGA_WIDTH) ==> b[j] == buffer[j]
  {
    b := buffer;
    var x := 0;
    while x < VGA_WIDTH
      invariant 0 <= x <= VGA_WIDTH && |b| == CELLS
      invariant forall j :: y * VGA_WIDTH <= j < y * VGA_WIDTH + x ==> b[j] == buffer[j + VGA_WIDTH]
      invariant forall j :: 0 <= j < CELLS && !(y * VGA_WIDTH <= j < y * VGA_WIDTH + x) ==> b[j] == buffer[j]
    {
      b := b[Index(x, y) := buffer[Index(x, y + 1)]];
      x := x + 1;
    }
  }

  /** `terminal_write(data, size)`: `size` calls of `terminal_putchar`, first to last. */
  method TerminalWrite(t: Terminal, data: seq<bv8>) returns (r: Terminal)
    requires CanWrite(t, data)
    ensures r == PutAll(t, data)
  {
    r := t;
    var i := 0;
    while i < |data|
      invariant 0 <= i <= |data|
      invariant CanWrite(r, data[i..])
      invariant PutAll(t, data) == PutAll(r, data[i..])
    {
      assert data[i..][1..] == data[i + 1..];
      r := PutChar(r, data[i]);
      i := i + 1;
    }
  }

  // ---------------------------------------------------------------------
  // Properties.

  /** A printed byte lands at the cursor and nothing else changes when no line ends. */
  lemma PrintableInLine(t: Terminal, c: bv8)
    requires Valid(t) && c != NEWLINE && c != BACKSPACE && t.column + 1 < VGA_WIDTH
    ensures PutChar(t, c).row == t.row && PutChar(t, c).column == t.column + 1
    ensures PutChar(t, c).buffer[Index(t.column, t.row)] == Entry(c, t.color)
    ensures forall j :: 0 <= j < CELLS && j != Index(t.column, t.row) ==>
      PutChar(t, c).buffer[j] == t.buffer[j]
  {
  }

  /** A byte printed in the last column wraps the cursor to the start of the next line. */
  lemma PrintableWraps(t: Terminal, c: bv8)
    requires Valid(t) && c != NEWLINE && c != BACKSPACE && t.column + 1 == VGA_WIDTH
    requires t.row + 1 < VGA_HEIGHT
    ensures PutChar(t, c).row == t.row + 1 && PutChar(t, c).column == 0
    ensures PutChar(t, c).buffer == PutEntryAt(t.buffer, c, t.color, t.column, t.row)
  {
  }

  /** A byte printed in the bottom-right cell is written first and then scrolled up with the rest. */
  lemma PrintableScrolls(t: Terminal, c: bv8)
    requires Valid(t) && c != NEWLINE && c != BACKSPACE
    requires t.column + 1 == VGA_WIDTH && t.row + 1 == VGA_HEIGHT
    ensures PutChar(t, c).row == VGA_HEIGHT - 1 && PutChar(t, c).column == 0
    ensures PutChar(t, c).buffer[Index(VGA_WIDTH - 1, VGA_HEIGHT - 2)] == Entry(c, t.color)
    ensures forall x :: 0 <= x < VGA_WIDTH ==>
      PutChar(t, c).buffer[Index(x, LAST_ROW)] == Blank(t.color)
  {
  }

  /** A newline writes no cell: it only moves the cursor, or scrolls on the last row. */
  lemma NewlineWritesNothing(t: Terminal)
    requires Valid(t)
    ensures PutChar(t, NEWLINE).column == 0
    ensures t.row + 1 < VGA_HEIGHT ==>
      PutChar(t, NEWLINE).row == t.row + 1 && PutChar(t, NEWLINE).buffer == t.buffer
    ensures t.row + 1 == VGA_HEIGHT ==>
      PutChar(t, NEWLINE) == Scroll(t.(column := 0))
  {
  }

  /** A backspace steps one cell back, across a line start if need be, and blanks that cell. */
  lemma BackspaceErases(t: Terminal)
    requires CanPut(t, BACKSPACE)
    ensures t.column > 0 ==>
      PutChar(t, BACKSPACE).row == t.row && PutChar(t, BACKSPACE).column == t.column - 1
    ensures t.column == 0 ==>
      PutChar(t, BACKSPACE).row == t.row - 1 && PutChar(t, BACKSPACE).column == VGA_WIDTH - 1
    ensures PutChar(t, BACKSPACE).buffer ==
      PutEntryAt(t.buffer, SPACE, t.color, PutChar(t, BACKSPACE).column, PutChar(t, BACKSPACE).row)
  {
  }

  /** A backspace right after a printed byte (in the same line) restores the cursor and blanks the cell. */
  lemma PrintThenErase(t: Terminal, c: bv8)
    requires Valid(t) && c != NEWLINE && c != BACKSPACE && t.column + 1 < VGA_WIDTH
    ensures CanPut(PutChar(t, c), BACKSPACE)
    ensures PutChar(PutChar(t, c), BACKSPACE) ==
      t.(buffer := PutEntryAt(t.buffer, SPACE, t.color, t.column, t.row))
  {
    PrintableInLine(t, c);
    assert PutChar(PutChar(t, c), BACKSPACE).buffer ==
      t.buffer[Index(t.column, t.row) := Blank(t.color)];
  }

  /** Writing two pieces is writing their concatenation. */
  lemma {:induction false} PutAllAppend(t: Terminal, a: seq<bv8>, b: seq<bv8>)
    requires CanWrite(t, a + b)
    ensures CanWrite(t, a) && CanWrite(PutAll(t, a), b)
    ensures PutAll(t, a + b) == PutAll(PutAll(t, a), b)
    decreases |a|
  {
    if a == [] {
      assert a + b == b;
    } else {
      assert (a + b)[0] == a[0] && (a + b)[1..] == a[1..] + b;
      PutAllAppend(PutChar(t, a[0]), a[1..], b);
    }
  }

  /** Text without backspaces can always be written: the cursor stays on the screen. */
  lemma {:induction false} NoBackspaceCanWrite(t: Terminal, data: seq<bv8>)
    requires Valid(t)
    requires forall i :: 0 <= i < |data| ==> data[i] != BACKSPACE
    ensures CanWrite(t, data) && Valid(PutAll(t, data))
    decreases |data|
  {
    if data != [] {
      NoBackspaceCanWrite(PutChar(t, data[0]), data[1..]);
    }
  }
}
