/**
 The scrolling 80x25 text screen of kernel/drivers/vga.c.  The simple form is a terminal that never
 forgets a row; the screen is the window over its last 25 rows.
 */
module Vga {
  import opened Memory
  import opened CStrings

  const WIDTH: int := 80
  const HEIGHT: int := 25
  const CELLS: int := WIDTH * HEIGHT

  /** vga_entry: a character with its colour in the high byte. */
  function Entry(c: byte, color: byte): int {
    c as int + 0x100 * color as int
  }

  const BLANK: byte := 0x20

  // ---- The unbounded terminal ----

  /** All rows ever written, and the cursor. */
  datatype Terminal = Terminal(rows: seq<seq<int>>, row: nat, col: nat) {
    ghost predicate Valid() {
      && HEIGHT <= |rows| && Top() <= row < |rows| && col < WIDTH
      && forall i :: 0 <= i < |rows| ==> |rows[i]| == WIDTH
    }

    /** The row shown at the top of the screen. */
    function Top(): int { |rows| - HEIGHT }
  }

  function BlankRow(color: byte): seq<int> {
    seq(WIDTH, _ => Entry(BLANK, color))
  }

  function Cleared(color: byte): (t: Terminal)
    ensures t.Valid()
  {
    Terminal(seq(HEIGHT, _ => BlankRow(color)), 0, 0)
  }

  ghost function Set(t: Terminal, col: nat, e: int): (r: Terminal)
    requires t.Valid() && col < WIDTH
    ensures r.Valid()
  {
    t.(rows := t.rows[t.row := t.rows[t.row][col := e]])
  }

  /** The cursor goes to the start of the next row; a row is added when there is none. */
  ghost function NextLine(t: Terminal, color: byte): (r: Terminal)
    requires t.Valid()
    ensures r.Valid()
  {
    Terminal(if t.row + 1 < |t.rows| then t.rows else t.rows + [BlankRow(color)], t.row + 1, 0)
  }

  ghost function Put(t: Terminal, c: byte, color: byte): (r: Terminal)
    requires t.Valid()
    ensures r.Valid()
  {
    if c == 0x0A then NextLine(t, color)
    else if c == 0x0D then t.(col := 0)
    else if c == 0x08 then
      if t.col > 0 then Set(t, t.col - 1, Entry(BLANK, color)).(col := t.col - 1) else t
    else if c == 0x09 then
      var col := (t.col + 4) / 4 * 4;
      if col >= WIDTH then NextLine(t, color) else t.(col := col)
    else
      var s := Set(t, t.col, Entry(c, color));
      if t.col + 1 == WIDTH then NextLine(s, color) else s.(col := t.col + 1)
  }

  ghost function PutAll(t: Terminal, s: seq<byte>, color: byte): (r: Terminal)
    requires t.Valid()
    ensures r.Valid()
  {
    if s == [] then t else Put(PutAll(t, s[..|s| - 1], color), s[|s| - 1], color)
  }

  /** Rows that have left the screen never change again. */
  lemma {:induction false} HistoryKept(t: Terminal, s: seq<byte>, color: byte)
    requires t.Valid()
    ensures var r := PutAll(t, s, color);
      |t.rows| <= |r.rows| && forall i :: 0 <= i < t.row ==> r.rows[i] == t.rows[i]
    ensures t.row <= PutAll(t, s, color).row
  {
    if s != [] {
      HistoryKept(t, s[..|s| - 1], color);
    }
  }

  ghost predicate Printable(s: seq<byte>) {
    forall k :: 0 <= k < |s| ==> s[k] !in {0x08, 0x09, 0x0A, 0x0D}
  }

  /** The cell in row `i` and column `j` of `r` shows what `t` shows, or a blank where `t` has no row. */
  ghost predicate CellKept(t: Terminal, r: Terminal, i: nat, j: nat, color: byte)
    requires t.Valid() && r.Valid() && i < |r.rows| && j < 80
  {
    r.rows[i][j] == if i < |t.rows| then t.rows[i][j] else 0x20 + 0x100 * color as int
  }

  /** From the start of a row, plain text fills cell by cell, 80 to a row, and changes no other cell. */
  lemma {:induction false} PlainText(t: Terminal, s: seq<byte>, color: byte)
    requires t.Valid() && t.col == 0 && Printable(s)
    ensures var r := PutAll(t, s, color);
      && 80 * (r.row - t.row) + r.col == |s|
      && |r.rows| == (if r.row < |t.rows| then |t.rows| else r.row + 1)
      && (forall k :: 0 <= k < |s| ==> r.rows[t.row + k / 80][k % 80] == s[k] as int + 0x100 * color as int)
      && (forall i, j :: 0 <= i < |r.rows| && 0 <= j < 80 && !(0 <= 80 * (i - t.row) + j < |s|) ==>
            CellKept(t, r, i, j, color))
  {
    hide Put;
    if s != [] {
      var p, c := s[..|s| - 1], s[|s| - 1];
      PlainText(t, p, color);
      PlainStep(t, PutAll(t, p, color), p, c, color);
      assert s == p + [c];
    }
  }

  lemma PlainStep(t: Terminal, q: Terminal, p: seq<byte>, c: byte, color: byte)
    requires t.Valid() && q.Valid() && t.row <= q.row && c !in {0x08, 0x09, 0x0A, 0x0D}
    requires 80 * (q.row - t.row) + q.col == |p| && |q.rows| == (if q.row < |t.rows| then |t.rows| else q.row + 1)
    requires forall k :: 0 <= k < |p| ==> q.rows[t.row + k / 80][k % 80] == p[k] as int + 0x100 * color as int
    requires forall i, j :: 0 <= i < |q.rows| && 0 <= j < 80 && !(0 <= 80 * (i - t.row) + j < |p|) ==>
               CellKept(t, q, i, j, color)
    ensures var r, s := Put(q, c, color), p + [c];
      && 80 * (r.row - t.row) + r.col == |s|
      && |r.rows| == (if r.row < |t.rows| then |t.rows| else r.row + 1)
      && (forall k :: 0 <= k < |s| ==> r.rows[t.row + k / 80][k % 80] == s[k] as int + 0x100 * color as int)
      && (forall i, j :: 0 <= i < |r.rows| && 0 <= j < 80 && !(0 <= 80 * (i - t.row) + j < |s|) ==>
            CellKept(t, r, i, j, color))
  {
    var r, n := Put(q, c, color), |p|;
    forall k | 0 <= k <= n ensures r.rows[t.row + k / 80][k % 80] == (p + [c])[k] as int + 0x100 * color as int {
      if k == n { assert n / 80 == q.row - t.row && n % 80 == q.col; }
    }
    forall i, j | 0 <= i < |r.rows| && 0 <= j < 80 && !(0 <= 80 * (i - t.row) + j < n + 1)
      ensures CellKept(t, r, i, j, color)
    {
      if i < |q.rows| { assert CellKept(t, q, i, j, color); }
    }
  }

  /** A newline keeps every cell and goes to the start of the next row, which is blank if it is new. */
  lemma Newline(t: Terminal, color: byte)
    requires t.Valid()
    ensures var r := PutAll(t, [0x0A], color);
      && r.row == t.row + 1 && r.col == 0
      && |r.rows| == (if t.row + 1 < |t.rows| then |t.rows| else t.row + 2)
      && forall i, j :: 0 <= i < |r.rows| && 0 <= j < 80 ==> CellKept(t, r, i, j, color)
  {
    OneCharacter(t, 0x0A, color);
  }

  /** A carriage return keeps every row and the row number, and goes to column 0. */
  lemma CarriageReturn(t: Terminal, color: byte)
    requires t.Valid()
    ensures PutAll(t, [0x0D], color) == Terminal(t.rows, t.row, 0)
  {
    OneCharacter(t, 0x0D, color);
  }

  /** A tab goes to the least multiple of 4 above the column, or does what a newline does from column 76 on. */
  lemma Tab(t: Terminal, color: byte)
    requires t.Valid()
    ensures var r := PutAll(t, [0x09], color);
      if t.col < 76 then r.rows == t.rows && r.row == t.row && t.col < r.col <= t.col + 4 && r.col % 4 == 0
      else r == PutAll(t, [0x0A], color)
  {
    OneCharacter(t, 0x09, color);
    OneCharacter(t, 0x0A, color);
  }

  /** A backspace blanks the cell before the cursor and goes there; at the start of a row it does nothing. */
  lemma Backspace(t: Terminal, color: byte)
    requires t.Valid()
    ensures var r := PutAll(t, [0x08], color);
      if t.col == 0 then r == t
      else && r.row == t.row && r.col == t.col - 1 && |r.rows| == |t.rows|
           && forall i, j :: 0 <= i < |t.rows| && 0 <= j < 80 ==>
                r.rows[i][j] == if i == t.row && j == t.col - 1 then 0x20 + 0x100 * color as int else t.rows[i][j]
  {
    OneCharacter(t, 0x08, color);
  }

  lemma OneCharacter(t: Terminal, c: byte, color: byte)
    requires t.Valid()
    ensures PutAll(t, [c], color) == Put(t, c, color)
  {
    assert [c][..0] == [];
    assert PutAll(t, [], color) == t;
  }

  lemma {:induction false} PutAllMore(t: Terminal, s: seq<byte>, u: seq<byte>, color: byte)
    requires t.Valid()
    ensures PutAll(t, s + u, color) == PutAll(PutAll(t, s, color), u, color)
    decreases |u|
  {
    if u == [] {
      assert s + u == s;
    } else {
      var v := u[..|u| - 1];
      PutAllMore(t, s, v, color);
      assert (s + u)[..|s + u| - 1] == s + v;
    }
  }

  /** The cell at `p`, counted from the top left, of a cleared terminal with two lines of plain text. */
  function TwoLinesCell(s: seq<byte>, u: seq<byte>, p: nat, color: byte): int {
    var start := 80 * (|s| / 80 + 1);
    (if p < |s| then s[p] as int else if start <= p < start + |u| then u[p - start] as int else 0x20)
    + 0x100 * color as int
  }

  /** Plain text, a newline and plain text: the second text starts in column 0 of the row after the first. */
  lemma TwoLines(s: seq<byte>, u: seq<byte>, color: byte)
    requires Printable(s) && Printable(u)
    ensures var r := PutAll(Cleared(color), s + [0x0A] + u, color);
      && r.row == |s| / 80 + 1 + |u| / 80 && r.col == |u| % 80
      && |r.rows| == (if r.row < 25 then 25 else r.row + 1)
      && forall i, j :: 0 <= i < |r.rows| && 0 <= j < 80 ==> r.rows[i][j] == TwoLinesCell(s, u, 80 * i + j, color)
  {
    hide PutAll, Put;
    var t := Cleared(color);
    var t1 := PutAll(t, s, color);
    var t2 := PutAll(t1, [0x0A], color);
    var r := PutAll(t2, u, color);
    PlainText(t, s, color);
    Newline(t1, color);
    PlainText(t2, u, color);
    PutAllMore(t, s, [0x0A], color);
    PutAllMore(t, s + [0x0A], u, color);
    forall i, j | 0 <= i < |r.rows| && 0 <= j < 80 ensures r.rows[i][j] == TwoLinesCell(s, u, 80 * i + j, color) {
      TwoLinesAt(t, t1, t2, r, s, u, color, i, j);
    }
  }

  lemma TwoLinesAt(t: Terminal, t1: Terminal, t2: Terminal, r: Terminal, s: seq<byte>, u: seq<byte>, color: byte,
      i: nat, j: nat)
    requires t == Cleared(color) && t1.Valid() && t2.Valid() && r.Valid() && i < |r.rows| && j < 80
    requires 80 * t1.row + t1.col == |s| && |t1.rows| == (if t1.row < 25 then 25 else t1.row + 1)
    requires forall k :: 0 <= k < |s| ==> t1.rows[k / 80][k % 80] == s[k] as int + 0x100 * color as int
    requires forall i, j :: 0 <= i < |t1.rows| && 0 <= j < 80 && !(0 <= 80 * i + j < |s|) ==>
               CellKept(t, t1, i, j, color)
    requires t2.row == t1.row + 1 && |t1.rows| <= |t2.rows|
    requires forall i, j :: 0 <= i < |t2.rows| && 0 <= j < 80 ==> CellKept(t1, t2, i, j, color)
    requires t2.row <= r.row && |t2.rows| <= |r.rows|
    requires forall k :: 0 <= k < |u| ==>
               t2.row + k / 80 < |r.rows| && r.rows[t2.row + k / 80][k % 80] == u[k] as int + 0x100 * color as int
    requires forall i, j :: 0 <= i < |r.rows| && 0 <= j < 80 && !(0 <= 80 * (i - t2.row) + j < |u|) ==>
               CellKept(t2, r, i, j, color)
    ensures r.rows[i][j] == TwoLinesCell(s, u, 80 * i + j, color)
  {
    var p, start := 80 * i + j, 80 * (|s| / 80 + 1);
    assert |s| / 80 == t1.row && start == 80 * t2.row;
    if start <= p < start + |u| {
      var k := p - start;
      assert k / 80 == i - t2.row && k % 80 == j;
    } else {
      assert CellKept(t2, r, i, j, color);
      if i < |t2.rows| { assert CellKept(t1, t2, i, j, color); }
      if p < |s| {
        assert p / 80 == i && p % 80 == j;
      } else if i < |t1.rows| {
        assert CellKept(t, t1, i, j, color);
      }
    }
  }

  /** Backspace takes back the character just typed into a blank cell, unless it filled the row. */
  lemma BackspaceUndoes(t: Terminal, c: byte, color: byte)
    requires t.Valid() && Printable([c]) && t.col + 1 < 80 && t.rows[t.row][t.col] == 0x20 + 0x100 * color as int
    ensures PutAll(t, [c, 0x08], color) == t
  {
    assert c == [c][0];
    assert [c, 0x08][..1] == [c];
    OneCharacter(t, c, color);
    assert Put(Put(t, c, color), 0x08, color).rows[t.row] == t.rows[t.row];
  }

  // ---- The window ----

  ghost function Shown(t: Terminal, k: nat): int
    requires t.Valid() && k < CELLS
  {
    t.rows[t.Top() + k / WIDTH][k % WIDTH]
  }

  /** The screen shows the last 25 rows. */
  ghost predicate Shows(cells: seq<int>, t: Terminal) {
    t.Valid() && |cells| == CELLS && forall k :: 0 <= k < CELLS ==> cells[k] == Shown(t, k)
  }

  lemma SetShown(cells: seq<int>, t: Terminal, col: nat, e: int)
    requires Shows(cells, t) && col < WIDTH
    ensures (t.row - t.Top()) * WIDTH + col < CELLS
    ensures Shows(cells[(t.row - t.Top()) * WIDTH + col := e], Set(t, col, e))
  {
    var at := (t.row - t.Top()) * WIDTH + col;
    forall k | 0 <= k < CELLS ensures cells[at := e][k] == Shown(Set(t, col, e), k) {
      assert k == at <==> k / WIDTH == t.row - t.Top() && k % WIDTH == col;
    }
  }

  lemma RowAdded(cells: seq<int>, cells': seq<int>, t: Terminal, color: byte)
    requires Shows(cells, t) && t.row + 1 == |t.rows| && |cells'| == CELLS
    requires forall k :: 0 <= k < CELLS ==>
               cells'[k] == if k < CELLS - WIDTH then cells[k + WIDTH] else Entry(BLANK, color)
    ensures Shows(cells', NextLine(t, color))
  {
    var r := NextLine(t, color);
    forall k | 0 <= k < CELLS ensures cells'[k] == Shown(r, k) {
      assert k < CELLS - WIDTH ==> (k + WIDTH) / WIDTH == k / WIDTH + 1 && (k + WIDTH) % WIDTH == k % WIDTH;
    }
  }

  lemma RowMoved(cells: seq<int>, t: Terminal, color: byte)
    requires Shows(cells, t) && t.row + 1 < |t.rows|
    ensures Shows(cells, NextLine(t, color))
  {
    var r := NextLine(t, color);
    assert forall k :: 0 <= k < CELLS ==> Shown(r, k) == Shown(t, k);
  }

  // ---- The code ----

  class Screen {
    const cells: array<int>
    var row: nat
    var column: nat
    var color: byte
    ghost var terminal: Terminal

    ghost predicate Valid()
      reads this, cells
    {
      InWindow() && column == terminal.col
    }

    /** The invariant while the column is being moved. */
    ghost predicate InWindow()
      reads this`terminal, this`row, cells
    {
      cells.Length == CELLS && Shows(cells[..], terminal) && row == terminal.row - terminal.Top()
    }

    /** vga_clear, on the memory of the screen. */
    constructor (cells: array<int>, color: byte)
      requires cells.Length == CELLS
      modifies cells
      ensures this.cells == cells && this.color == color && Valid() && terminal == Cleared(color)
    {
      this.cells, this.color := cells, color;
      row, column := 0, 0;
      terminal := Cleared(color);
      new;
      ClearCells(cells, color);
    }

    static method ClearCells(cells: array<int>, color: byte)
      requires cells.Length == CELLS
      modifies cells
      ensures forall k :: 0 <= k < CELLS ==> cells[k] == Entry(BLANK, color)
    {
      for y := 0 to HEIGHT
        invariant forall k :: 0 <= k < y * WIDTH ==> cells[k] == Entry(BLANK, color)
      {
        for x := 0 to WIDTH
          invariant forall k :: 0 <= k < y * WIDTH + x ==> cells[k] == Entry(BLANK, color)
        {
          cells[y * WIDTH + x] := Entry(BLANK, color);
        }
      }
    }

    method CopyRow(y: nat)
      requires cells.Length == CELLS && y < HEIGHT - 1
      modifies cells
      ensures forall k :: 0 <= k < CELLS ==>
                cells[k] == old(if y * WIDTH <= k < (y + 1) * WIDTH then cells[k + WIDTH] else cells[k])
    {
      for x := 0 to WIDTH
        invariant forall k :: 0 <= k < CELLS ==>
                    cells[k] == old(if y * WIDTH <= k < y * WIDTH + x then cells[k + WIDTH] else cells[k])
      {
        cells[y * WIDTH + x] := cells[(y + 1) * WIDTH + x];
      }
    }

    method BlankLastRow()
      requires cells.Length == CELLS
      modifies cells
      ensures forall k :: 0 <= k < CELLS - WIDTH ==> cells[k] == old(cells[k])
      ensures forall k :: CELLS - WIDTH <= k < CELLS ==> cells[k] == Entry(BLANK, color)
    {
      for x := 0 to WIDTH
        invariant forall k :: 0 <= k < CELLS - WIDTH ==> cells[k] == old(cells[k])
        invariant forall k :: CELLS - WIDTH <= k < CELLS - WIDTH + x ==> cells[k] == Entry(BLANK, color)
      {
        cells[(HEIGHT - 1) * WIDTH + x] := Entry(BLANK, color);
      }
    }

    /** Moves every row up by one, in place: nothing but the top row is lost. */
    method Scroll()
      requires cells.Length == CELLS
      modifies cells, this`row
      ensures row == HEIGHT - 1
      ensures forall k :: 0 <= k < CELLS ==>
                cells[k] == if k < CELLS - WIDTH then old(cells[k + WIDTH]) else Entry(BLANK, color)
    {
      for y := 0 to HEIGHT - 1
        invariant forall k :: 0 <= k < y * WIDTH ==> cells[k] == old(cells[k + WIDTH])
        invariant forall k :: y * WIDTH <= k < CELLS ==> cells[k] == old(cells[k])
      {
        CopyRow(y);
      }
      BlankLastRow();
      row := HEIGHT - 1;
    }

    /** `vga_column = 0; if (++vga_row == VGA_HEIGHT) vga_scroll();` */
    method NewRow()
      requires InWindow()
      modifies this`row, this`column, this`terminal, cells
      ensures Valid() && terminal == NextLine(old(terminal), color)
    {
      hide Shown;
      ghost var before := cells[..];
      column := 0;
      row := row + 1;
      if row == HEIGHT {
        Scroll();
        RowAdded(before, cells[..], terminal, color);
      } else {
        RowMoved(cells[..], terminal, color);
      }
      terminal := NextLine(terminal, color);
    }

    method SetCell(index: nat, col: nat, e: int)
      requires InWindow() && col < WIDTH && index == row * WIDTH + col
      modifies this`terminal, cells
      ensures InWindow() && terminal == Set(old(terminal), col, e)
    {
      hide Shown;
      SetShown(cells[..], terminal, col, e);
      ghost var before := cells[..];
      cells[index] := e;
      assert cells[..] == before[index := e];
      terminal := Set(terminal, col, e);
    }

    /** The screen after one character is the window of the terminal after that character. */
    method PutChar(c: byte)
      requires Valid()
      modifies this`row, this`column, this`terminal, cells
      ensures Valid() && terminal == Put(old(terminal), c, color)
    {
      hide Shown, Set, NextLine;
      if c == 0x0A {
        NewRow();
        return;
      }
      if c == 0x0D {
        column := 0;
        ColumnMoved(cells[..], terminal, 0);
        terminal := terminal.(col := 0);
        return;
      }
      if c == 0x08 {
        if column > 0 {
          column := column - 1;
          SetCell(row * WIDTH + column, column, Entry(BLANK, color));
          ColumnMoved(cells[..], terminal, column);
          terminal := terminal.(col := column);
        }
        return;
      }
      if c == 0x09 {
        column := (column + 4) / 4 * 4;
        if column >= WIDTH {
          NewRow();
        } else {
          ColumnMoved(cells[..], terminal, column);
          terminal := terminal.(col := column);
        }
        return;
      }
      SetCell(row * WIDTH + column, column, Entry(c, color));
      column := column + 1;
      if column == WIDTH {
        NewRow();
      } else {
        ColumnMoved(cells[..], terminal, column);
        terminal := terminal.(col := column);
      }
    }

    /** vga_write of the characters before the terminating NUL. */
    method Write(s: seq<byte>)
      requires Valid() && 0 in s
      modifies this`row, this`column, this`terminal, cells
      ensures Valid() && terminal == PutAll(old(terminal), Text(s), color)
    {
      hide Shown, Put;
      var i := 0;
      while s[i] != 0
        invariant 0 <= i < |s| && 0 !in s[..i]
        invariant Valid() && terminal == PutAll(old(terminal), s[..i], color)
        decreases |s| - i
      {
        assert s[..i + 1][..i] == s[..i];
        assert 0 in s[i + 1..];
        PutChar(s[i]);
        i := i + 1;
      }
      TextIs(s, i);
    }
  }

  lemma ColumnMoved(cells: seq<int>, t: Terminal, col: nat)
    requires Shows(cells, t) && col < WIDTH
    ensures Shows(cells, t.(col := col))
  {
    var r := t.(col := col);
    forall k | 0 <= k < CELLS ensures cells[k] == Shown(r, k) {
      assert Shown(t, k) == cells[k];
    }
  }

  /**
   Two lines of plain text on a cleared screen, of any length.  What is left of them is the last 25 rows; the
   first row shown is `top`.
   */
  method ShowTwoLines(cells: array<int>, color: byte, s: seq<byte>, u: seq<byte>)
    returns (screen: Screen, ghost top: nat)
    requires cells.Length == 2000 && Printable(s) && Printable(u) && 0 !in s && 0 !in u
    modifies cells
    ensures screen.Valid() && screen.cells == cells
    ensures top + screen.row == |s| / 80 + 1 + |u| / 80 && screen.column == |u| % 80
    ensures screen.row < 25 && (top > 0 ==> screen.row == 24)
    ensures forall k :: 0 <= k < 2000 ==> cells[k] == TwoLinesCell(s, u, 80 * top + k, color)
  {
    hide PutAll;
    screen := new Screen(cells, color);
    var text := s + [0x0A] + u;
    assert (text + [0])[..|text|] == text && 0 !in text;
    TextIs(text + [0], |text|);
    TwoLines(s, u, color);
    screen.Write(text + [0]);
    top := screen.terminal.Top();
    forall k | 0 <= k < 2000 ensures cells[k] == TwoLinesCell(s, u, 80 * top + k, color) {
      assert cells[k] == cells[..][k] == Shown(screen.terminal, k);
      assert 80 * (top + k / 80) + k % 80 == 80 * top + k;
    }
  }
}
