/** The VGA text terminal: an 80 by 25 screen buffer, scrolled in place. */
module Tty {
  import opened Machine
  import opened Page
  import opened Rows

  class Terminal {
    var row: nat
    var column: nat
    const buffer: array<Cell>
    /** Everything written since the terminal was initialised. */
    ghost var page: Page

    /** Page line shown in the top row. */
    ghost function Top(): int
      reads this
    {
      page.line - row
    }

    /** The screen is the 25-line window of the page from line `Top()` on, and nothing is written below it. */
    ghost predicate Window()
      reads this, buffer
    {
      && buffer.Length == CELLS
      && row <= HEIGHT && 0 <= Top() && (row < HEIGHT - 1 ==> Top() == 0)
      && |page.cells| <= (Top() + HEIGHT) * WIDTH
      && forall i :: 0 <= i < CELLS ==> buffer[i] == At(page.cells, Top() * WIDTH + i)
    }

    ghost predicate Valid()
      reads this, buffer
    {
      Window() && column == page.col
    }

    constructor ()
      ensures Valid() && fresh(buffer) && page == EMPTY && row == 0
    {
      row, column, page := 0, 0, EMPTY;
      buffer := new Cell[CELLS];
      new;
      for y := 0 to HEIGHT
        modifies buffer
        invariant forall i :: 0 <= i < y * WIDTH ==> buffer[i] == BLANK
      {
        for x := 0 to WIDTH
          modifies buffer
          invariant forall i :: 0 <= i < y * WIDTH + x ==> buffer[i] == BLANK
        {
          buffer[y * WIDTH + x] := Cell(' ', COLOR);
        }
      }
    }

    /** Copies line y over the one above it. */
    method CopyLineUp(y: nat)
      requires buffer.Length == CELLS && 1 <= y < HEIGHT
      modifies buffer
      ensures forall i :: 0 <= i < CELLS ==>
        buffer[i] == if (y - 1) * WIDTH <= i < y * WIDTH then old(buffer[i + WIDTH]) else old(buffer[i])
    {
      for x := 0 to WIDTH
        invariant forall i :: 0 <= i < CELLS ==>
          buffer[i] == if (y - 1) * WIDTH <= i < (y - 1) * WIDTH + x then old(buffer[i + WIDTH]) else old(buffer[i])
      {
        buffer[(y - 1) * WIDTH + x] := buffer[y * WIDTH + x];
      }
    }

    /** Copies every line over the one above it. */
    method CopyLinesUp()
      requires buffer.Length == CELLS
      modifies buffer
      ensures forall i :: 0 <= i < CELLS - WIDTH ==> buffer[i] == old(buffer[i + WIDTH])
      ensures forall i :: CELLS - WIDTH <= i < CELLS ==> buffer[i] == old(buffer[i])
    {
      for y := 1 to HEIGHT
        invariant forall i :: 0 <= i < (y - 1) * WIDTH ==> buffer[i] == old(buffer[i + WIDTH])
        invariant forall i :: (y - 1) * WIDTH <= i < CELLS ==> buffer[i] == old(buffer[i])
      {
        CopyLineUp(y);
      }
    }

    /** Moves every line up by one, then moves the cursor up and blanks its line. */
    method Scroll()
      requires buffer.Length == CELLS && 1 <= row <= HEIGHT
      modifies `row, buffer
      ensures row == old(row) - 1
      ensures forall i :: 0 <= i < CELLS ==>
        buffer[i] == if row * WIDTH <= i < row * WIDTH + WIDTH then BLANK
                     else if i < CELLS - WIDTH then old(buffer[i + WIDTH])
                     else old(buffer[i])
    {
      CopyLinesUp();
      row := row - 1;
      ghost var moved := buffer[..];
      for x := 0 to WIDTH
        modifies buffer
        invariant forall i :: 0 <= i < CELLS ==>
          buffer[i] == if row * WIDTH <= i < row * WIDTH + x then BLANK else moved[i]
      {
        buffer[row * WIDTH + x] := Cell(' ', COLOR);
      }
    }

    /** A scroll from below the last row moves the window down one line of the same page. */
    method ScrollWindow()
      requires Window() && row == HEIGHT
      modifies `row, buffer
      ensures Window() && row == HEIGHT - 1
    {
      Scroll();
    }

    /** Writing one cell of the screen writes the corresponding cell of the page. */
    method SetCell(col: nat, c: Cell)
      requires Window() && row < HEIGHT && CellIndex(row, col) < CELLS
      modifies `page, buffer
      ensures Window()
      ensures page == old(page).(cells := Put(old(page).cells, PageIndex(old(page).line, col), c))
    {
      page := page.(cells := Put(page.cells, PageIndex(page.line, col), c));
      buffer[CellIndex(row, col)] := c;
    }

    /** The last branch of `PutChar`: one cell, then a wrap at the right edge with an immediate scroll. */
    method PutPlain(c: char)
      requires Valid() && row < HEIGHT && Plain(c) && Lands(page, c)
      modifies this, buffer
      ensures Valid() && row == WriteRow(page.line)
      ensures page == Step(old(page), c)
    {
      hide CellIndex, PageIndex;
      SetCell(column, Cell(c, COLOR));
      column := Wrap(column + 1);
      page := page.(col := column);
      if column >= WIDTH {
        column := 0;
        row := row + 1;
        page := page.(line := page.line + 1, col := 0);
        if row >= HEIGHT {
          ScrollWindow();
        }
      }
    }

    /** The backspace branch of `PutChar`. */
    method Erase()
      requires Valid() && row < HEIGHT && Lands(page, BACKSPACE)
      modifies this, buffer
      ensures Valid() && row == old(row)
      ensures page == Step(old(page), BACKSPACE)
    {
      hide CellIndex, PageIndex;
      column := if column == 0 then 0 else column - 1;
      SetCell(column, Cell(' ', COLOR));
      page := page.(col := column);
    }

    method PutChar(c: char)
      requires Valid() && Lands(page, c)
      modifies this, buffer
      ensures Valid()
      ensures page == Step(old(page), c)
      ensures row == ScreenRow(page.line, c == '\n')
    {
      if row == HEIGHT {
        ScrollWindow();
      }
      if c == '\n' {
        column := 0;
        row := row + 1;
        page := page.(line := page.line + 1, col := 0);
      } else if c == '\t' {
        column := Wrap(column + 4);
        page := page.(col := column);
      } else if c == BACKSPACE {
        Erase();
      } else {
        PutPlain(c);
      }
    }

    /** Writes a text: the page takes every character, and the screen shows its last lines. */
    method Write(s: seq<char>)
      requires Valid() && AllLand(page, s)
      modifies this, buffer
      ensures Valid()
      ensures page == Feed(old(page), s)
      ensures row == if s == [] then old(row) else ScreenRow(page.line, s[|s| - 1] == '\n')
    {
      assert s[..0] == [] && s[0..] == s;
      for i := 0 to |s|
        invariant Valid()
        invariant page == Feed(old(page), s[..i]) && AllLand(page, s[i..])
        invariant row == if i == 0 then old(row) else ScreenRow(page.line, s[i - 1] == '\n')
      {
        FeedOne(old(page), s[..i], s[i]);
        assert s[..i] + [s[i]] == s[..i + 1] && s[i..][0] == s[i] && s[i..][1..] == s[i + 1..];
        PutChar(s[i]);
      }
      assert s[..|s|] == s;
    }

    /** While the tabs fit, every screen line below the cursor's is blank. */
    lemma {:induction false} LinesBelowAreBlank(s: seq<char>)
      requires Valid() && TabsFit(EMPTY, s) && page == Feed(EMPTY, s)
      ensures column < WIDTH
      ensures forall i :: (row + 1) * WIDTH <= i < CELLS ==> buffer[i] == BLANK
    {
      FittingTabsAreSafe(EMPTY, s);
    }

    /**
     After a stream whose tabs fit, the screen holds the last of its rows, ending with the cursor's row or, after a
     newline behind the 25th row, with the row before it; the cursor is behind the last row.
     */
    lemma {:induction false} ScreenShowsRows(s: seq<char>, y: nat, x: nat)
      requires Valid() && s != [] && TabsInRow([""], s)
      requires page == Feed(EMPTY, s) && row == ScreenRow(page.line, s[|s| - 1] == '\n')
      requires y < 25 && x < 80
      ensures column == |LastOf(TypeAll([""], s))|
      ensures var n := |TypeAll([""], s)|;
        row == if n <= 25 then n - 1 else if s[|s| - 1] == '\n' then 25 else 24
      ensures buffer[80 * y + x] == CellOf(TypeAll([""], s), |TypeAll([""], s)| - 1 - row + y, x)
    {
      StreamShowsRows(s);
      hide Valid, Shows;
      RowsInWindow(TypeAll([""], s), s[|s| - 1] == '\n', y, x);
    }

    lemma {:induction false} RowsInWindow(rows: seq<string>, afterNewline: bool, y: nat, x: nat)
      requires Valid() && Shows(page, rows) && row == ScreenRow(page.line, afterNewline)
      requires y < 25 && x < 80
      ensures column == |LastOf(rows)| && row < |rows|
      ensures row == if |rows| <= 25 then |rows| - 1 else if afterNewline then 25 else 24
      ensures buffer[80 * y + x] == CellOf(rows, |rows| - 1 - row + y, x)
    {
      assert At(page.cells, 80 * (|rows| - 1 - row + y) + x) == CellOf(rows, |rows| - 1 - row + y, x);
    }

    /**
     After n plain characters from the start, the cursor is at column n mod 80 of row min(n div 80, 24), and the
     screen holds the last lines of the text, padded with blanks.
     */
    lemma {:induction false} PlainScreen(s: seq<char>, y: nat, x: nat)
      requires Valid() && s != [] && (forall c :: c in s ==> Plain(c))
      requires page == Feed(EMPTY, s) && row == ScreenRow(page.line, s[|s| - 1] == '\n')
      requires y < HEIGHT && x < WIDTH
      ensures column == |s| % WIDTH
      ensures row == if |s| / WIDTH < HEIGHT then |s| / WIDTH else HEIGHT - 1
      ensures var p := (|s| / WIDTH - row + y) * WIDTH + x;
        buffer[y * WIDTH + x] == if p < |s| then Cell(s[p], COLOR) else BLANK
    {
      PlainText(s);
      assert s[|s| - 1] in s;
    }
  }
}
