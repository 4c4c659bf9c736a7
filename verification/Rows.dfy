/**
 The terminal as a line editor: what a stream of characters leaves on the page, said of rows of text and not of cells,
 columns and indices.
 */
module Rows {
  import opened Machine
  import opened Page

  function LastOf(rows: seq<string>): string
    requires rows != []
  {
    rows[|rows| - 1]
  }

  /** One character typed at the end of the last row. A row that has got its 80th character is followed by a new one. */
  function Type(rows: seq<string>, c: char): (r: seq<string>)
    requires rows != []
    ensures r != []
  {
    var n := |rows| - 1;
    var last := rows[n];
    if c == '\n' then rows + [""]
    else if c == '\t' then rows[n := last + "    "]
    else if c == 8 as char then rows[n := if last == "" then "" else last[..|last| - 1]]
    else if |last| == 79 then rows[n := last + [c]] + [""]
    else rows[n := last + [c]]
  }

  function TypeAll(rows: seq<string>, s: string): (r: seq<string>)
    requires rows != []
    ensures r != []
    decreases |s|
  {
    if s == "" then rows else TypeAll(Type(rows, s[0]), s[1..])
  }

  /** Every tab is typed behind at most 75 characters. */
  predicate TabsInRow(rows: seq<string>, s: string)
    requires rows != []
    decreases |s|
  {
    s == "" || ((s[0] == '\t' ==> |LastOf(rows)| <= 75) && TabsInRow(Type(rows, s[0]), s[1..]))
  }

  /** Character j of row i, in green on black; blank where there is none. */
  function CellOf(rows: seq<string>, i: nat, j: nat): Cell {
    if i < |rows| && j < |rows[i]| then Cell(rows[i][j], 0x02) else Cell(' ', 0x02)
  }

  /** The page shows exactly these rows, 80 cells to each, with the cursor behind the last one. */
  ghost predicate Shows(pg: Page, rows: seq<string>) {
    && rows != []
    && pg.line == |rows| - 1
    && pg.col == |LastOf(rows)| < 80
    && forall i: nat, j: nat :: j < 80 ==> At(pg.cells, 80 * i + j) == CellOf(rows, i, j)
  }

  lemma {:induction false} StartShows()
    ensures Shows(EMPTY, [""])
  {
  }

  lemma {:induction false} TypeShows(pg: Page, rows: seq<string>, c: char)
    requires Shows(pg, rows) && (c == '\t' ==> |LastOf(rows)| <= 75)
    ensures Shows(Step(pg, c), Type(rows, c))
  {
    var t, r := Step(pg, c), Type(rows, c);
    forall i: nat, j: nat | j < 80 ensures At(t.cells, 80 * i + j) == CellOf(r, i, j) {
      assert At(pg.cells, 80 * i + j) == CellOf(rows, i, j);
    }
  }

  /** Any stream whose tabs fit leaves exactly its rows. */
  lemma {:induction false} FeedShows(pg: Page, rows: seq<string>, s: string)
    requires Shows(pg, rows) && TabsInRow(rows, s)
    ensures Shows(Feed(pg, s), TypeAll(rows, s)) && TabsFit(pg, s)
    decreases |s|
  {
    if s != "" {
      TypeShows(pg, rows, s[0]);
      hide Step, Type;
      FeedShows(Step(pg, s[0]), Type(rows, s[0]), s[1..]);
    }
  }

  /** From the start, it also lands on the screen. */
  lemma {:induction false} StreamShowsRows(s: string)
    requires TabsInRow([""], s)
    ensures AllLand(EMPTY, s) && Shows(Feed(EMPTY, s), TypeAll([""], s))
  {
    StartShows();
    FeedShows(EMPTY, [""], s);
    FittingTabsAreSafe(EMPTY, s);
  }

  // ---- lines and corrections ----

  /** Lines with a newline between each two. */
  function Joined(lines: seq<string>): string
    requires lines != []
  {
    if |lines| == 1 then lines[0] else Joined(lines[..|lines| - 1]) + "\n" + lines[|lines| - 1]
  }

  /** Plain characters that do not fill the row. */
  predicate ShortLine(line: string) {
    |line| < 80 && forall c :: c in line ==> Plain(c)
  }

  lemma {:induction false} TypeAllAppend(rows: seq<string>, s: string, t: string)
    requires rows != []
    ensures TypeAll(rows, s + t) == TypeAll(TypeAll(rows, s), t)
    ensures TabsInRow(rows, s + t) <==> TabsInRow(rows, s) && TabsInRow(TypeAll(rows, s), t)
    decreases |s|
  {
    if s == "" {
      assert s + t == t;
    } else {
      assert (s + t)[1..] == s[1..] + t;
      TypeAllAppend(Type(rows, s[0]), s[1..], t);
    }
  }

  /** A short line typed behind others becomes the last row. */
  lemma {:induction false} TypeLine(rows: seq<string>, done: string, rest: string)
    requires ShortLine(done + rest)
    ensures TypeAll(rows + [done], rest) == rows + [done + rest] && TabsInRow(rows + [done], rest)
    decreases |rest|
  {
    if rest == "" {
      assert done + rest == done;
    } else {
      var c := rest[0];
      assert c in done + rest && done + rest == done + [c] + rest[1..];
      assert Type(rows + [done], c) == rows + [done + [c]];
      TypeLine(rows, done + [c], rest[1..]);
    }
  }

  /** Lines joined by newlines are the rows: line i is row i, and the cursor is behind the last. */
  lemma {:induction false} LinesAreRows(lines: seq<string>)
    requires lines != [] && forall line :: line in lines ==> ShortLine(line)
    ensures TypeAll([""], Joined(lines)) == lines && TabsInRow([""], Joined(lines))
    decreases |lines|
  {
    var last := lines[|lines| - 1];
    assert "" + last == last;
    if |lines| == 1 {
      TypeLine([], "", last);
      assert [] + [""] == [""] && lines == [] + [last];
    } else {
      var before := lines[..|lines| - 1];
      assert lines == before + [last];
      LinesAreRows(before);
      TypeAllAppend([""], Joined(before), "\n");
      assert TypeAll(before, "\n") == TypeAll(before + [""], "") == before + [""] by {
        assert "\n"[1..] == "";
      }
      TypeAllAppend([""], Joined(before) + "\n", last);
      TypeLine(before, "", last);
    }
  }

  /** A backspace takes back the character before it. */
  lemma {:induction false} BackspaceUndoes(rows: seq<string>, c: char)
    requires rows != [] && |LastOf(rows)| < 79 && Plain(c)
    ensures TypeAll(rows, [c, 8 as char]) == rows && TabsInRow(rows, [c, 8 as char])
  {
    var n := |rows| - 1;
    assert [c, 8 as char][1..] == [8 as char] && [8 as char][1..] == "";
    assert Type(rows, c)[n][..|rows[n]|] == rows[n];
    assert Type(Type(rows, c), 8 as char) == rows;
    assert TypeAll(rows, "") == rows && TabsInRow(rows, "");
    assert TypeAll(Type(rows, c), [8 as char]) == rows && TabsInRow(Type(rows, c), [8 as char]);
  }

  /** After a short line, one more character and a backspace, the line is the only row. */
  lemma {:induction false} BackspaceInLine(s: string, c: char)
    requires ShortLine(s + [c])
    ensures TypeAll([""], s + [c, 8 as char]) == [s] && TabsInRow([""], s + [c, 8 as char])
  {
    assert c in s + [c];
    forall d | d in s ensures Plain(d) {
      assert d in s + [c];
    }
    assert "" + s == s && [] + [""] == [""] && [] + [s] == [s];
    TypeLine([], "", s);
    TypeAllAppend([""], s, [c, 8 as char]);
    hide TypeAll, TabsInRow;
    BackspaceUndoes([s], c);
  }

  /** So on the page the cursor is behind the line, whose characters stay, and its cell is blank. */
  lemma {:induction false} BackspaceOnPage(s: string, c: char)
    requires ShortLine(s + [c])
    ensures var pg := Feed(EMPTY, s + [c, 8 as char]);
      && pg.line == 0 && pg.col == |s| && At(pg.cells, |s|) == Cell(' ', 0x02)
      && forall j :: 0 <= j < |s| ==> At(pg.cells, j) == Cell(s[j], 0x02)
  {
    BackspaceInLine(s, c);
    StreamShowsRows(s + [c, 8 as char]);
    hide Feed;
    OneRow(Feed(EMPTY, s + [c, 8 as char]), s);
  }

  lemma {:induction false} OneRow(pg: Page, s: string)
    requires Shows(pg, [s])
    ensures pg.line == 0 && pg.col == |s| && At(pg.cells, |s|) == Cell(' ', 0x02)
    ensures forall j :: 0 <= j < |s| ==> At(pg.cells, j) == Cell(s[j], 0x02)
  {
    forall j: nat | j <= |s| ensures At(pg.cells, j) == CellOf([s], 0, j) {
      assert At(pg.cells, 80 * 0 + j) == CellOf([s], 0, j);
    }
  }
}
