/**
 What a stream of characters writes, on a page 80 columns wide with no bottom. The page never scrolls: the cursor
 line only grows. The text terminal shows a window of it.
 */
module Page {
  import opened Machine

  const WIDTH := 80
  const HEIGHT := 25
  const CELLS := WIDTH * HEIGHT

  /** A character with its colour attribute, as one 16-bit entry of video memory. */
  datatype Cell = Cell(ch: char, color: bv8)

  /** Green on black. */
  const COLOR: bv8 := 0x02
  const BLANK := Cell(' ', COLOR)
  const BACKSPACE := 8 as char

  /** Cells are numbered along the lines from the top left; those from |cells| on are blank. */
  datatype Page = Page(cells: seq<Cell>, line: nat, col: nat)

  const EMPTY := Page([], 0, 0)

  function At(cells: seq<Cell>, p: nat): Cell {
    if p < |cells| then cells[p] else BLANK
  }

  function Put(cells: seq<Cell>, p: nat, c: Cell): (r: seq<Cell>)
    ensures |r| == if p < |cells| then |cells| else p + 1
    ensures p == |cells| ==> r == cells + [c]
    ensures forall q: nat :: At(r, q) == if q == p then c else At(cells, q)
  {
    if p < |cells| then cells[p := c] else cells + seq(p - |cells|, _ => BLANK) + [c]
  }

  /** The screen row the cursor is on when a character is written. */
  function WriteRow(line: nat): nat {
    if line < HEIGHT then line else HEIGHT - 1
  }

  /**
   The cell that a write reaches from the start of the screen: the index is a 32-bit sum, and so is the address of the
   two bytes it stands for.
   */
  function CellIndex(row: nat, col: nat): (r: nat)
    ensures r == (row * WIDTH + col) % 0x8000_0000
  {
    HalfOfDouble(row * WIDTH + col);
    Wrap(2 * Wrap(row * WIDTH + col)) / 2
  }

  /** The cell of the page at which column `col` of the cursor line is written. */
  function PageIndex(line: nat, col: nat): (p: nat)
    ensures col < WIDTH ==> p == line * WIDTH + col
  {
    (line - WriteRow(line)) * WIDTH + CellIndex(WriteRow(line), col)
  }

  /** One character. A tab moves the cursor by 4 without regard to the width. Columns are 32-bit numbers. */
  function Step(pg: Page, c: char): Page {
    if c == '\n' then
      pg.(line := pg.line + 1, col := 0)
    else if c == '\t' then
      pg.(col := Wrap(pg.col + 4))
    else if c == BACKSPACE then
      var col := Erased(pg.col);
      Page(Put(pg.cells, PageIndex(pg.line, col), BLANK), pg.line, col)
    else
      var cells, col := Put(pg.cells, PageIndex(pg.line, pg.col), Cell(c, COLOR)), Wrap(pg.col + 1);
      if col >= WIDTH then Page(cells, pg.line + 1, 0) else Page(cells, pg.line, col)
  }

  /** The column a backspace moves to. */
  function Erased(col: nat): nat {
    if col == 0 then 0 else col - 1
  }

  function Feed(pg: Page, s: seq<char>): Page
    decreases |s|
  {
    if s == [] then pg else Feed(Step(pg, s[0]), s[1..])
  }

  lemma {:induction false} FeedAppend(pg: Page, s: seq<char>, t: seq<char>)
    ensures Feed(pg, s + t) == Feed(Feed(pg, s), t)
    decreases |s|
  {
    if s == [] {
      assert s + t == t;
    } else {
      assert (s + t)[1..] == s[1..] + t;
      FeedAppend(Step(pg, s[0]), s[1..], t);
    }
  }

  lemma {:induction false} FeedOne(pg: Page, s: seq<char>, c: char)
    ensures Feed(pg, s + [c]) == Step(Feed(pg, s), c)
  {
    FeedAppend(pg, s, [c]);
    assert Feed(Feed(pg, s), [c]) == Feed(Step(Feed(pg, s), c), []);
  }

  // ---- what the screen can take ----

  /** The cursor's screen row after a character: one past the bottom only after a newline that left the last row. */
  function ScreenRow(line: nat, afterNewline: bool): nat {
    if afterNewline && line >= HEIGHT then HEIGHT else WriteRow(line)
  }

  /** The cell written for c, if any, is on the screen. */
  predicate Lands(pg: Page, c: char) {
    if c == '\n' || c == '\t' then true
    else if c == BACKSPACE then CellIndex(WriteRow(pg.line), Erased(pg.col)) < CELLS
    else CellIndex(WriteRow(pg.line), pg.col) < CELLS
  }

  predicate AllLand(pg: Page, s: seq<char>)
    decreases |s|
  {
    s == [] || (Lands(pg, s[0]) && AllLand(Step(pg, s[0]), s[1..]))
  }

  lemma {:induction false} AllLandAppend(pg: Page, s: seq<char>, t: seq<char>)
    ensures AllLand(pg, s + t) <==> AllLand(pg, s) && AllLand(Feed(pg, s), t)
    decreases |s|
  {
    if s == [] {
      assert s + t == t;
    } else {
      assert (s + t)[1..] == s[1..] + t;
      AllLandAppend(Step(pg, s[0]), s[1..], t);
    }
  }

  /** The cursor is within the width, and nothing is written below its line. */
  predicate Tidy(pg: Page) {
    pg.col < WIDTH && |pg.cells| <= (pg.line + 1) * WIDTH
  }

  /** Every tab arrives at column 75 or before. */
  predicate TabsFit(pg: Page, s: seq<char>)
    decreases |s|
  {
    s == [] || ((s[0] == '\t' ==> pg.col <= WIDTH - 5) && TabsFit(Step(pg, s[0]), s[1..]))
  }

  /**
   A stream whose tabs fit writes only cells of the screen, keeps the column within the width, and leaves every line
   below the cursor blank.
   */
  lemma {:induction false} FittingTabsAreSafe(pg: Page, s: seq<char>)
    requires Tidy(pg) && TabsFit(pg, s)
    ensures AllLand(pg, s) && Tidy(Feed(pg, s))
    decreases |s|
  {
    if s != [] {
      assert Tidy(Step(pg, s[0]));
      FittingTabsAreSafe(Step(pg, s[0]), s[1..]);
    }
  }

  /** n times the same character. */
  function Repeat(c: char, n: nat): seq<char> {
    if n == 0 then [] else [c] + Repeat(c, n - 1)
  }

  lemma {:induction false} NewlinesMoveDown(pg: Page, n: nat)
    requires pg.col == 0
    ensures Feed(pg, Repeat('\n', n)) == pg.(line := pg.line + n) && AllLand(pg, Repeat('\n', n))
    decreases n
  {
    if n != 0 {
      assert Repeat('\n', n)[1..] == Repeat('\n', n - 1);
      NewlinesMoveDown(Step(pg, '\n'), n - 1);
    }
  }

  lemma {:induction false} TabsMoveRight(pg: Page, n: nat)
    requires pg.col < TWO32
    ensures Feed(pg, Repeat('\t', n)) == pg.(col := Wrap(pg.col + 4 * n)) && AllLand(pg, Repeat('\t', n))
    decreases n
  {
    if n != 0 {
      assert Repeat('\t', n)[1..] == Repeat('\t', n - 1);
      WrapOfSum(pg.col + 4, 4 * (n - 1));
      hide Wrap;
      TabsMoveRight(Step(pg, '\t'), n - 1);
    }
  }

  /**
   After any number of tabs at any column, a character lands exactly when its index, 4 for each tab added, is below
   2000 modulo 2^31. A backspace writes one column to the left, unless the 32-bit column is 0.
   */
  lemma {:induction false} TabsThenCharLandsIff(pg: Page, n: nat, c: char)
    requires pg.col < TWO32 && c != '\n' && c != '\t'
    ensures var first, x := WriteRow(pg.line) * WIDTH, pg.col + 4 * n;
      AllLand(pg, Repeat('\t', n) + [c]) <==>
      (first + if c == BACKSPACE then Erased(Wrap(x)) else x) % 0x8000_0000 < CELLS
  {
    WrapKeepsCell(WriteRow(pg.line) * WIDTH, pg.col + 4 * n);
    hide CellIndex, Wrap, Erased;
    var t := Feed(pg, Repeat('\t', n));
    TabsMoveRight(pg, n);
    AllLandAppend(pg, Repeat('\t', n), [c]);
    hide Repeat, Step;
    assert AllLand(t, [c]) == Lands(t, c) by {
      assert [c][1..] == [];
      assert AllLand(Step(t, c), []);
    }
  }

  lemma {:induction false} WrapKeepsCell(first: nat, x: nat)
    ensures (first + Wrap(x)) % 0x8000_0000 == (first + x) % 0x8000_0000
  {
    LowerBitsOfWrap(x);
    var q, p := x / 0x8000_0000, Wrap(x) / 0x8000_0000;
    assert x == 0x8000_0000 * q + x % 0x8000_0000 && Wrap(x) == 0x8000_0000 * p + x % 0x8000_0000;
    var r := first + x % 0x8000_0000;
    assert (0x8000_0000 * q + r) % 0x8000_0000 == r % 0x8000_0000 == (0x8000_0000 * p + r) % 0x8000_0000;
  }

  /** From the start, after m newlines and n tabs. */
  lemma {:induction false} NewlinesAndTabsLandIff(m: nat, n: nat, c: char)
    requires Plain(c)
    ensures AllLand(EMPTY, Repeat('\n', m) + (Repeat('\t', n) + [c])) <==>
      (WriteRow(m) * WIDTH + 4 * n) % 0x8000_0000 < CELLS
  {
    NewlinesMoveDown(EMPTY, m);
    AllLandAppend(EMPTY, Repeat('\n', m), Repeat('\t', n) + [c]);
    TabsThenCharLandsIff(Page([], m, 0), n, c);
  }

  /** On the last row 20 tabs lead past the end of the screen, on the row above it 40. */
  lemma {:induction false} TabsLeaveScreen()
    ensures !AllLand(EMPTY, Repeat('\n', 24) + (Repeat('\t', 20) + ['x']))
    ensures !AllLand(EMPTY, Repeat('\n', 23) + (Repeat('\t', 40) + ['x']))
    ensures AllLand(EMPTY, Repeat('\n', 23) + (Repeat('\t', 39) + ['x']))
  {
    hide Repeat, AllLand;
    NewlinesAndTabsLandIff(24, 20, 'x');
    NewlinesAndTabsLandIff(23, 40, 'x');
    NewlinesAndTabsLandIff(23, 39, 'x');
  }

  /** One newline and 2^30 - 1 or 2^29 - 1 tabs lead all the way round, to cell 76 of the screen. */
  lemma {:induction false} TabsComeRound()
    ensures AllLand(EMPTY, Repeat('\n', 1) + (Repeat('\t', 0x3FFF_FFFF) + ['x']))
    ensures AllLand(EMPTY, Repeat('\n', 1) + (Repeat('\t', 0x1FFF_FFFF) + ['x']))
    ensures CellIndex(1, Wrap(4 * 0x3FFF_FFFF)) == CellIndex(1, Wrap(4 * 0x1FFF_FFFF)) == 76
  {
    hide Repeat;
    NewlinesAndTabsLandIff(1, 0x3FFF_FFFF, 'x');
    NewlinesAndTabsLandIff(1, 0x1FFF_FFFF, 'x');
  }

  // ---- plain text ----

  predicate Plain(c: char) {
    c != '\n' && c != '\t' && c != BACKSPACE
  }

  /** The cells of a text. */
  function Written(s: seq<char>): (r: seq<Cell>)
    ensures |r| == |s| && forall i :: 0 <= i < |s| ==> r[i] == Cell(s[i], COLOR)
  {
    seq(|s|, i requires 0 <= i < |s| => Cell(s[i], COLOR))
  }

  /** The page of a plain text of length n. */
  function TextPage(s: seq<char>): Page {
    Page(Written(s), |s| / WIDTH, |s| % WIDTH)
  }

  lemma {:induction false} PlainStep(s: seq<char>, c: char)
    requires Plain(c)
    ensures Step(TextPage(s), c) == TextPage(s + [c])
  {
    var pg := TextPage(s);
    assert pg.line * WIDTH + pg.col == |pg.cells|;
    assert Step(pg, c).cells == Written(s) + [Cell(c, COLOR)] == Written(s + [c]);
  }

  /** Plain characters fill the page from the top left, 80 to a line. */
  lemma {:induction false} PlainText(s: seq<char>)
    requires forall c :: c in s ==> Plain(c)
    ensures Feed(EMPTY, s) == TextPage(s)
    decreases |s|
  {
    hide Step;
    if s == [] {
      assert Written(s) == [];
    } else {
      var t, c := s[..|s| - 1], s[|s| - 1];
      assert s == t + [c] && c in s;
      PlainText(t);
      FeedOne(EMPTY, t, c);
      PlainStep(t, c);
    }
  }

  lemma {:induction false} PlainTabsFit(pg: Page, s: seq<char>)
    requires forall c :: c in s ==> Plain(c)
    ensures TabsFit(pg, s)
    decreases |s|
  {
    if s != [] {
      assert s[0] in s;
      PlainTabsFit(Step(pg, s[0]), s[1..]);
    }
  }
}
