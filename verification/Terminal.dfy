/** The text terminal: an 80 by 25 grid scrolled in place, as a window on an endless sheet of paper. */
module Terminal {

  const WIDTH := 80
  const HEIGHT := 25
  const CELLS := 2001  // the scroll touches one cell beyond the grid
  const NEWLINE := 10
  const BACKSPACE := 8
  const SPACE := 32
  const LIGHT_GREY_ON_BLACK := 7

  /** A screen cell: the character in the low byte, the colour in the high one. */
  function Entry(c: nat, color: nat): nat { c % 256 + 256 * (color % 256) }

  // ----- The sheet of paper ---------------------------------------------------------------------------

  /** What has been written on the sheet, and where the pen is. */
  datatype Paper = Paper(marks: map<(nat, nat), nat>, line: nat, column: nat) {
    /** The cell at (`l`, `x`): the first page starts out as blanks, everything below it as zeros. */
    function Cell(l: nat, x: nat): nat {
      if (l, x) in marks then marks[(l, x)] else if l < HEIGHT then Entry(SPACE, LIGHT_GREY_ON_BLACK) else 0
    }

    function Put(c: nat, color: nat): Paper {
      if c == NEWLINE then Paper(marks, line + 1, 0)
      else if c == BACKSPACE then
        if column > 0 then Paper(marks[(line, column - 1) := 0], line, column - 1) else this
      else
        var written := marks[(line, column) := Entry(c, color)];
        if column + 1 == WIDTH then Paper(written, line + 1, 0) else Paper(written, line, column + 1)
    }

    function Write(data: seq<nat>, color: nat): Paper
      decreases |data|
    {
      if data == [] then this else Put(data[0], color).Write(data[1..], color)
    }

    /** The first line in view: the pen's line is the last one, once the sheet is longer than the screen. */
    function Top(): nat { if line < HEIGHT then 0 else line - (HEIGHT - 1) }

    /** No mark lies below the pen, nor to the right of the screen. */
    ghost predicate WellFormed() {
      && column < WIDTH
      && forall l, x :: (l, x) in marks ==> l <= line && x < WIDTH
    }
  }

  const BLANK := Paper(map[], 0, 0)

  lemma PutWellFormed(p: Paper, c: nat, color: nat)
    requires p.WellFormed()
    ensures p.Put(c, color).WellFormed()
  {
  }

  /** A line the pen has just moved down to bears no mark. */
  lemma FreshLine(p: Paper, c: nat, color: nat)
    requires p.WellFormed()
    ensures p.Put(c, color).line > p.line ==>
      p.Put(c, color).column == 0 && forall x: nat :: (p.Put(c, color).line, x) !in p.Put(c, color).marks
  {
  }

  lemma {:induction false} WriteMore(p: Paper, data: seq<nat>, color: nat, c: nat)
    ensures p.Write(data + [c], color) == p.Write(data, color).Put(c, color)
    decreases |data|
  {
    if data == [] {
      assert [c][1..] == [];
    } else {
      assert (data + [c])[1..] == data[1..] + [c];
      WriteMore(p.Put(data[0], color), data[1..], color, c);
    }
  }

  ghost predicate Plain(data: seq<nat>) {
    forall k :: 0 <= k < |data| ==> data[k] != 10 && data[k] != 8
  }

  /** A text without newlines and backspaces runs on from the pen, 80 characters to a line ... */
  lemma {:induction false} TextRunsOn(p: Paper, data: seq<nat>, color: nat)
    requires p.column < 80 && Plain(data)
    ensures var q := p.Write(data, color);
      q.column < 80 && q.line * 80 + q.column == p.line * 80 + p.column + |data|
    decreases |data|
  {
    if data != [] {
      var n := |data| - 1;
      assert data[..n] + [data[n]] == data;
      TextRunsOn(p, data[..n], color);
      WriteMore(p, data[..n], color, data[n]);
      CharacterRunsOn(p.Write(data[..n], color), data[n], color, 0);
    }
  }

  /** ... and its `i`-th character is in the `i`-th cell from there on, with its colour. */
  lemma {:induction false} TextIsThere(p: Paper, data: seq<nat>, color: nat, i: nat)
    requires p.column < 80 && Plain(data) && i < |data|
    ensures var cell := p.line * 80 + p.column + i;
      p.Write(data, color).Cell(cell / 80, cell % 80) == data[i] % 256 + 256 * (color % 256)
    decreases |data|
  {
    var n, cell := |data| - 1, p.line * 80 + p.column + i;
    assert data[..n] + [data[n]] == data;
    TextRunsOn(p, data[..n], color);
    WriteMore(p, data[..n], color, data[n]);
    CharacterRunsOn(p.Write(data[..n], color), data[n], color, cell);
    if i < n { TextIsThere(p, data[..n], color, i); }
  }

  /** A character that is no newline or backspace: it is in the cell at the pen, which moves on by one cell. */
  lemma CharacterRunsOn(p: Paper, c: nat, color: nat, n: nat)
    requires p.column < 80 && c != 10 && c != 8
    ensures var q := p.Put(c, color);
      && q.column < 80 && q.line * 80 + q.column == p.line * 80 + p.column + 1
      && q.Cell(n / 80, n % 80) == if n == p.line * 80 + p.column then c % 256 + 256 * (color % 256) else p.Cell(n / 80, n % 80)
  {
    CellNumber(p.line, p.column, p.line * 80 + p.column);
    if n != p.line * 80 + p.column { OtherCell(n, p.line * 80 + p.column); }
  }

  lemma CellNumber(l: nat, x: nat, n: nat)
    requires x < 80 && n == l * 80 + x
    ensures n / 80 == l && n % 80 == x
  {
  }

  lemma OtherCell(m: nat, n: nat)
    requires m != n
    ensures m / 80 != n / 80 || m % 80 != n % 80
  {
  }

  ghost predicate ShowsCell(buffer: seq<nat>, p: Paper, top: nat, y: nat, x: nat)
    requires |buffer| >= WIDTH * HEIGHT && y < HEIGHT && x < WIDTH
  {
    buffer[y * WIDTH + x] == p.Cell(top + y, x)
  }

  /** The screen shows the lines of `p` from `top` on. */
  ghost predicate Shows(buffer: seq<nat>, p: Paper, top: nat) {
    && |buffer| >= WIDTH * HEIGHT
    && forall y: nat, x: nat :: y < HEIGHT && x < WIDTH ==> ShowsCell(buffer, p, top, y, x)
  }

  lemma DifferentCells(y: nat, x: nat, y2: nat, x2: nat)
    requires x < WIDTH && x2 < WIDTH && (y != y2 || x != x2)
    ensures y * WIDTH + x != y2 * WIDTH + x2
  {
  }

  /** Writing one cell of the screen is marking the same cell of the sheet. */
  lemma MarkShows(buffer: seq<nat>, p: Paper, top: nat, y: nat, x: nat, v: nat, p': Paper)
    requires Shows(buffer, p, top) && y < HEIGHT && x < WIDTH && p'.marks == p.marks[(top + y, x) := v]
    ensures Shows(buffer[y * WIDTH + x := v], p', top)
  {
    var after := buffer[y * WIDTH + x := v];
    forall y2: nat, x2: nat | y2 < HEIGHT && x2 < WIDTH ensures ShowsCell(after, p', top, y2, x2) {
      if y2 != y || x2 != x { DifferentCells(y, x, y2, x2); }
      assert ShowsCell(buffer, p, top, y2, x2);
    }
  }

  lemma MovedPenShows(buffer: seq<nat>, p: Paper, top: nat, p': Paper)
    requires Shows(buffer, p, top) && p'.marks == p.marks
    ensures Shows(buffer, p', top)
  {
    forall y: nat, x: nat | y < HEIGHT && x < WIDTH ensures ShowsCell(buffer, p', top, y, x) {
      assert ShowsCell(buffer, p, top, y, x);
    }
  }

  /** `after` is `before` moved up one row, with zeros in the last. */
  ghost predicate Scrolled(before: seq<nat>, after: seq<nat>) {
    && |before| == |after| >= CELLS
    && (forall i :: 0 <= i < WIDTH * (HEIGHT - 1) ==> after[i] == before[i + WIDTH])
    && (forall i :: WIDTH * (HEIGHT - 1) <= i < WIDTH * HEIGHT ==> after[i] == 0)
    && (forall i :: CELLS <= i < |before| ==> after[i] == before[i])
  }

  /** Once the pen has reached a fresh line below the screen, scrolling brings the window down to it. */
  lemma ScrollShows(before: seq<nat>, after: seq<nat>, p: Paper, top: nat)
    requires p.line >= HEIGHT && Scrolled(before, after) && Shows(before, p, top) && p.Top() == top + 1
    requires forall x: nat :: (p.line, x) !in p.marks
    ensures Shows(after, p, p.Top())
  {
    forall y: nat, x: nat | y < HEIGHT && x < WIDTH ensures ShowsCell(after, p, p.Top(), y, x) {
      if y < HEIGHT - 1 {
        assert ShowsCell(before, p, top, y + 1, x);
      }
    }
  }

  /** The one store that a character makes before any scrolling. */
  ghost function AfterStore(buffer: seq<nat>, row: nat, column: nat, color: nat, c: nat): seq<nat>
    requires row < 25 && column < 80 && |buffer| >= 2000
  {
    if c == 10 || (c == 8 && column == 0) then buffer
    else if c == 8 then buffer[row * 80 + column - 1 := 0]
    else buffer[row * 80 + column := c % 256 + 256 * (color % 256)]
  }

  // ----- The screen --------------------------------------------------------------------------------------

  class Screen {
    var row: nat
    var column: nat
    var color: nat
    const buffer: array<nat>

    /** The sheet that the screen is a window on. */
    ghost var paper: Paper

    ghost predicate Valid()
      reads this, buffer
    {
      && buffer.Length >= CELLS
      && paper.WellFormed()
      && row < HEIGHT && column < WIDTH
      && column == paper.column && row == paper.line - paper.Top()
      && Shows(buffer[..], paper, paper.Top())
    }

    /** terminal_initialize. */
    constructor (buffer: array<nat>)
      requires buffer.Length >= CELLS
      modifies buffer
      ensures Valid() && paper == BLANK && this.buffer == buffer && row == column == 0 && color == 7
      ensures forall i :: 0 <= i < 2000 ==> buffer[i] == 0x0720
      ensures forall i :: 2000 <= i < buffer.Length ==> buffer[i] == old(buffer[i])
    {
      row, column, color := 0, 0, LIGHT_GREY_ON_BLACK;
      this.buffer := buffer;
      paper := BLANK;
      new;
      for y := 0 to HEIGHT
        modifies buffer
        invariant forall i :: 0 <= i < y * WIDTH ==> buffer[i] == Entry(SPACE, LIGHT_GREY_ON_BLACK)
        invariant forall i :: y * WIDTH <= i < buffer.Length ==> buffer[i] == old(buffer[i])
      {
        for x := 0 to WIDTH
          modifies buffer
          invariant forall i :: 0 <= i < y * WIDTH + x ==> buffer[i] == Entry(SPACE, LIGHT_GREY_ON_BLACK)
          invariant forall i :: y * WIDTH + x <= i < buffer.Length ==> buffer[i] == old(buffer[i])
        {
          buffer[y * WIDTH + x] := Entry(SPACE, color);
        }
      }
    }

    method SetColor(color: nat)
      requires Valid()
      modifies this`color
      ensures Valid() && this.color == color
    {
      this.color := color;
    }

    /** terminal_putentryat */
    method PutEntryAt(c: nat, color: nat, x: nat, y: nat)
      requires x < WIDTH && y < HEIGHT && buffer.Length >= CELLS
      modifies buffer
      ensures buffer[..] == old(buffer[..])[y * WIDTH + x := Entry(c, color)]
    {
      buffer[y * WIDTH + x] := Entry(c, color);
    }

    /** The inner scrolling loop.  It copies one cell more than the row holds, up to `x <= VGA_WIDTH`. */
    method CopyRow(y: nat)
      requires y < HEIGHT - 1 && buffer.Length >= CELLS
      modifies buffer
      ensures forall i :: y * WIDTH <= i <= y * WIDTH + WIDTH ==> buffer[i] == old(buffer[i + WIDTH])
      ensures forall i :: 0 <= i < buffer.Length && !(y * WIDTH <= i <= y * WIDTH + WIDTH) ==> buffer[i] == old(buffer[i])
    {
      for x := 0 to WIDTH + 1
        invariant forall i :: y * WIDTH <= i < y * WIDTH + x ==> buffer[i] == old(buffer[i + WIDTH])
        invariant forall i :: 0 <= i < buffer.Length && !(y * WIDTH <= i < y * WIDTH + x) ==> buffer[i] == old(buffer[i])
      {
        buffer[y * WIDTH + x] := buffer[(y + 1) * WIDTH + x];
      }
    }

    method ClearLastRow()
      requires buffer.Length >= CELLS
      modifies buffer
      ensures forall i :: 0 <= i < buffer.Length ==>
        buffer[i] == if WIDTH * (HEIGHT - 1) <= i < CELLS then 0 else old(buffer[i])
    {
      for x := 0 to WIDTH + 1
        invariant forall i :: 0 <= i < buffer.Length ==>
          buffer[i] == if WIDTH * (HEIGHT - 1) <= i < WIDTH * (HEIGHT - 1) + x then 0 else old(buffer[i])
      {
        buffer[(HEIGHT - 1) * WIDTH + x] := 0;
      }
    }

    /** The scrolling loops of terminal_putchar. */
    method Scroll()
      requires buffer.Length >= CELLS
      modifies buffer
      ensures Scrolled(old(buffer[..]), buffer[..])
    {
      for y := 0 to HEIGHT - 1
        invariant forall i :: 0 <= i < y * WIDTH ==> buffer[i] == old(buffer[i + WIDTH])
        // The cell too many is the first of the next row, which is about to get the same value.
        invariant y > 0 ==> buffer[y * WIDTH] == old(buffer[y * WIDTH + WIDTH])
        invariant forall i :: y * WIDTH + (if y == 0 then 0 else 1) <= i < buffer.Length ==> buffer[i] == old(buffer[i])
      {
        CopyRow(y);
      }
      ClearLastRow();
    }

    /** The first half of terminal_putchar: the pen moves, perhaps below the last row. */
    method Mark(c: nat)
      requires Valid()
      modifies this`row, this`column, this`paper, buffer
      ensures paper == old(paper).Put(c, color) && paper.WellFormed()
      ensures row <= HEIGHT && column == paper.column && row == paper.line - old(paper).Top()
      ensures Shows(buffer[..], paper, old(paper).Top())
      ensures buffer[..] == AfterStore(old(buffer[..]), old(row), old(column), color, c)
      ensures column == (if c == 10 then 0 else if c == 8 then (if old(column) > 0 then old(column) - 1 else 0)
                         else if old(column) < 79 then old(column) + 1 else 0)
      ensures row == if c == 10 || (c != 8 && old(column) == 79) then old(row) + 1 else old(row)
    {
      ghost var p, top := paper, paper.Top();
      PutWellFormed(p, c, color);
      if c == NEWLINE {
        MovedPenShows(buffer[..], p, top, p.Put(c, color));
        row := row + 1;
        column := 0;
      } else if c == BACKSPACE {
        if column > 0 {
          column := column - 1;
          MarkShows(buffer[..], p, top, row, column, 0, p.Put(c, color));
          buffer[row * WIDTH + column] := 0;
        }
      } else {
        MarkShows(buffer[..], p, top, row, column, Entry(c, color), p.Put(c, color));
        PutEntryAt(c, color, column, row);
        column := column + 1;
        if column == WIDTH {
          column := 0;
          row := row + 1;
        }
      }
      paper := p.Put(c, color);
    }

    /** terminal_putchar.  On the sheet it is Paper.Put; on the screen, with 25 rows of 80 cells of two bytes: a
        backspace clears the cell before the pen and moves the pen back, unless the pen is at the left edge; a
        newline changes no cell; any other character goes with the colour into the cell at the pen, which moves
        on, and from the right edge to the next row.  Below the last row, the whole screen moves up. */
    method Put(c: nat)
      requires Valid()
      modifies this`row, this`column, this`paper, buffer
      ensures Valid() && paper == old(paper).Put(c, color)
      ensures var down := c == 10 || (c != 8 && old(column) == 79);
        && row == (if down && old(row) < 24 then old(row) + 1 else old(row))
        && column == (if c == 10 then 0 else if c == 8 then (if old(column) > 0 then old(column) - 1 else 0)
                      else if old(column) < 79 then old(column) + 1 else 0)
      ensures c == 8 ==>
        buffer[..] == if old(column) > 0 then old(buffer[..])[old(row) * 80 + old(column) - 1 := 0] else old(buffer[..])
      ensures c != 8 ==>
        var before := if c == 10 then old(buffer[..]) else old(buffer[..])[old(row) * 80 + old(column) := c % 256 + 256 * (color % 256)];
        if old(row) == 24 && (c == 10 || old(column) == 79) then
          && (forall i :: 0 <= i < 1920 ==> buffer[i] == before[i + 80])
          && (forall i :: 1920 <= i < 2000 ==> buffer[i] == 0)
        else buffer[..] == before
    {
      ghost var p := paper;
      Mark(c);
      FreshLine(p, c, color);
      if row == HEIGHT {
        ghost var before := buffer[..];
        Scroll();
        ScrollShows(before, buffer[..], paper, p.Top());
        row := row - 1;
        column := 0;
      }
    }

    /** terminal_write: for every text, the screen is the window on the sheet that the text was written on. */
    method Write(data: seq<nat>)
      requires Valid()
      modifies this`row, this`column, this`paper, buffer
      ensures Valid() && paper == old(paper).Write(data, color)
    {
      for i := 0 to |data|
        invariant Valid()
        invariant paper == old(paper).Write(data[..i], color)
      {
        WriteMore(old(paper), data[..i], color, data[i]);
        assert data[..i] + [data[i]] == data[..i + 1];
        Put(data[i]);
      }
      assert data[..|data|] == data;
    }
  }
}
