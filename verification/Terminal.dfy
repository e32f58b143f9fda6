/** The text grid that the glyph writer shows: where characters go, and when lines wrap and the screen clears. */
module Terminal {
  import opened Words

  datatype Cell = Cell(col: nat, row: nat)

  /** The last character placed in each cell since the last clear, and the cursor. */
  datatype Grid = Grid(cells: map<Cell, char>, col: nat, row: nat)

  const HOME: Grid := Grid(map[], 0, 0)

  function NextLine(g: Grid): Grid {
    Grid(g.cells, 0, g.row + 1)
  }

  /** Wrap a full line; when the lines are used up, start over on an empty screen. */
  function MakeRoom(g: Grid, cols: nat, rows: nat): Grid {
    var h := if g.col >= cols then NextLine(g) else g;
    if h.row >= rows then HOME else h
  }

  function Type(g: Grid, c: char, cols: nat, rows: nat): Grid {
    if c == '\n' then NextLine(g)
    else if c == '\r' then g.(col := 0)
    else
      var h := MakeRoom(g, cols, rows);
      Grid(h.cells[Cell(h.col, h.row) := c], h.col + 1, h.row)
  }

  function TypeAll(g: Grid, s: string, cols: nat, rows: nat): Grid
    decreases |s|
  {
    if s == "" then g else TypeAll(Type(g, s[0], cols, rows), s[1..], cols, rows)
  }

  lemma {:induction false} TypeLast(g: Grid, s: string, n: nat, cols: nat, rows: nat)
    requires n < |s|
    ensures TypeAll(g, s[..n + 1], cols, rows) == Type(TypeAll(g, s[..n], cols, rows), s[n], cols, rows)
    decreases n
  {
    if n == 0 {
      assert s[..1][1..] == "" && s[..0] == "";
      assert TypeAll(Type(g, s[0], cols, rows), "", cols, rows) == Type(g, s[0], cols, rows);
    } else {
      assert s[..n + 1][1..] == s[1..][..n] && s[..n][1..] == s[1..][..n - 1];
      TypeLast(Type(g, s[0], cols, rows), s[1..], n - 1, cols, rows);
    }
  }

  predicate Printable(s: string) {
    forall i :: 0 <= i < |s| ==> s[i] != '\n' && s[i] != '\r'
  }

  /** The cell of the i-th character in reading order. */
  function ReadingCell(i: nat, cols: nat): Cell
    requires cols > 0
  {
    Cell(i % cols, i / cols)
  }

  lemma DivStep(i: nat, cols: nat)
    requires cols > 0 && i > 0
    ensures if (i - 1) % cols + 1 == cols then i % cols == 0 && i / cols == (i - 1) / cols + 1
            else i % cols == (i - 1) % cols + 1 && i / cols == (i - 1) / cols
  {
    var q, r := (i - 1) / cols, (i - 1) % cols;
    assert i == q * cols + r + 1;
    if r + 1 == cols {
      assert (q + 1) * cols == q * cols + cols;
      QuotRem(i, cols, q + 1, 0);
    } else {
      QuotRem(i, cols, q, r + 1);
    }
  }

  lemma RowBound(i: nat, cols: nat, rows: nat)
    requires cols > 0 && i < rows * cols
    ensures i / cols < rows
  {
    var q := i / cols;
    assert i == q * cols + i % cols;
    if rows < q {
      MulStep(rows, q, cols);
    }
  }

  /**
   * Text without control characters that fits the screen appears in reading order: after n
   * characters the i-th one stands in column i % cols of line i / cols.
   */
  lemma {:induction false} ReadingOrder(s: string, n: nat, cols: nat, rows: nat)
    requires Printable(s) && n <= |s| <= rows * cols && cols > 0
    ensures var g := TypeAll(HOME, s[..n], cols, rows);
            && (forall i :: 0 <= i < n ==> ReadingCell(i, cols) in g.cells && g.cells[ReadingCell(i, cols)] == s[i])
            && (n > 0 ==> g.col == (n - 1) % cols + 1 && g.row == (n - 1) / cols)
            && (n == 0 ==> g == HOME)
    decreases n
  {
    if n == 0 {
      assert s[..0] == "";
    } else {
      ReadingOrder(s, n - 1, cols, rows);
      TypeLast(HOME, s, n - 1, cols, rows);
      NextCell(TypeAll(HOME, s[..n - 1], cols, rows), n - 1, cols, rows);
      forall i | 0 <= i < n - 1
        ensures ReadingCell(i, cols) != ReadingCell(n - 1, cols)
      {
        DistinctCells(i, n - 1, cols);
      }
    }
  }

  /** The next character goes to the next cell, without clearing. */
  lemma NextCell(g: Grid, n: nat, cols: nat, rows: nat)
    requires cols > 0 && n < rows * cols
    requires n > 0 ==> g.col == (n - 1) % cols + 1 && g.row == (n - 1) / cols
    requires n == 0 ==> g == HOME
    ensures var h := MakeRoom(g, cols, rows);
            h.cells == g.cells && Cell(h.col, h.row) == ReadingCell(n, cols)
  {
    RowBound(n, cols, rows);
    if n > 0 {
      DivStep(n, cols);
    } else {
      QuotRem(0, cols, 0, 0);
    }
  }

  lemma DistinctCells(i: nat, j: nat, cols: nat)
    requires cols > 0 && i < j
    ensures ReadingCell(i, cols) != ReadingCell(j, cols)
  {
    assert i == (i / cols) * cols + i % cols;
    assert j == (j / cols) * cols + j % cols;
  }

  /* ---- text of any length, with control characters ---- */

  /** Typing one string after another. */
  lemma {:induction false} TypeConcat(g: Grid, s: string, t: string, cols: nat, rows: nat)
    ensures TypeAll(g, s + t, cols, rows) == TypeAll(TypeAll(g, s, cols, rows), t, cols, rows)
    decreases |s|
  {
    if s == "" {
      assert s + t == t;
    } else {
      assert (s + t)[1..] == s[1..] + t;
      TypeConcat(Type(g, s[0], cols, rows), s[1..], t, cols, rows);
    }
  }

  predicate Control(c: char) {
    c == '\n' || c == '\r'
  }

  /** The column in which the first n characters end: printable ones since the last line began. */
  function EndCol(s: string, n: nat, cols: nat): nat
    requires n <= |s|
  {
    if n == 0 || Control(s[n - 1]) then 0
    else if EndCol(s, n - 1, cols) < cols then EndCol(s, n - 1, cols) + 1
    else 1
  }

  /**
   * The line in which they end, on a page without end: one more for each newline, and for each
   * printable character that finds its line full.
   */
  function EndLine(s: string, n: nat, cols: nat): nat
    requires n <= |s|
  {
    if n == 0 then 0
    else EndLine(s, n - 1, cols) +
         if s[n - 1] == '\n' || (!Control(s[n - 1]) && EndCol(s, n - 1, cols) >= cols) then 1 else 0
  }

  /** Column and line in which the i-th character stands on that page. */
  function StandCol(s: string, i: nat, cols: nat): nat
    requires i < |s|
  {
    if EndCol(s, i, cols) < cols then EndCol(s, i, cols) else 0
  }

  function StandLine(s: string, i: nat, cols: nat): nat
    requires i < |s|
  {
    EndLine(s, i, cols) + if EndCol(s, i, cols) < cols then 0 else 1
  }

  /**
   * The line at the top of the screen after n characters. The screen has lines for `rows` of them;
   * a character whose line is not among them begins a new screen with its line.
   */
  function TopLine(s: string, n: nat, cols: nat, rows: nat): nat
    requires n <= |s|
  {
    if n == 0 then 0
    else
      var top := TopLine(s, n - 1, cols, rows);
      if !Control(s[n - 1]) && StandLine(s, n - 1, cols) >= top + rows then StandLine(s, n - 1, cols) else top
  }

  /** Of the first n characters, the i-th is printable and stands on the present screen. */
  predicate OnScreen(s: string, n: nat, i: nat, cols: nat, rows: nat)
    requires n <= |s|
  {
    i < n && !Control(s[i]) && StandLine(s, i, cols) >= TopLine(s, n, cols, rows)
  }

  /** The cell of a character when the given line is at the top. */
  function CellOf(s: string, i: nat, cols: nat, top: nat): Cell
    requires i < |s| && StandLine(s, i, cols) >= top
  {
    Cell(StandCol(s, i, cols), StandLine(s, i, cols) - top)
  }

  /** The cell shows the i-th character, the last of the first n that stands in it. */
  ghost predicate ShowsLast(s: string, n: nat, i: nat, c: Cell, ch: char, cols: nat, rows: nat)
    requires n <= |s|
  {
    var top := TopLine(s, n, cols, rows);
    && OnScreen(s, n, i, cols, rows) && CellOf(s, i, cols, top) == c && s[i] == ch
    && forall j: nat :: i < j < n && OnScreen(s, n, j, cols, rows) ==> CellOf(s, j, cols, top) != c
  }

  ghost predicate Shown(s: string, n: nat, c: Cell, ch: char, cols: nat, rows: nat)
    requires n <= |s|
  {
    exists i: nat :: ShowsLast(s, n, i, c, ch, cols, rows)
  }

  /** The occupied cells are those of the characters on the screen, and each shows the last one placed in it. */
  ghost predicate Screen(cells: map<Cell, char>, s: string, n: nat, cols: nat, rows: nat)
    requires n <= |s|
  {
    var top := TopLine(s, n, cols, rows);
    && (forall i: nat :: OnScreen(s, n, i, cols, rows) ==> CellOf(s, i, cols, top) in cells)
    && (forall c :: c in cells ==> Shown(s, n, c, cells[c], cols, rows))
  }

  /** Where the cursor is: in the end column, and as many lines below the top as the end line is. */
  ghost predicate CursorAt(g: Grid, s: string, n: nat, cols: nat, rows: nat)
    requires n <= |s|
  {
    && g.col == EndCol(s, n, cols) && EndLine(s, n, cols) == TopLine(s, n, cols, rows) + g.row
    && (g.row >= rows ==> g.col == 0)
  }

  lemma CursorStep(g: Grid, s: string, n: nat, cols: nat, rows: nat)
    requires n < |s| && rows > 0 && CursorAt(g, s, n, cols, rows)
    ensures CursorAt(Type(g, s[n], cols, rows), s, n + 1, cols, rows)
    ensures !Control(s[n]) ==>
              var h := MakeRoom(g, cols, rows);
              && h.col == StandCol(s, n, cols) && StandLine(s, n, cols) == TopLine(s, n + 1, cols, rows) + h.row
              && h.cells == if TopLine(s, n + 1, cols, rows) == TopLine(s, n, cols, rows) then g.cells else map[]
  {
  }

  /** A character that stays on the screen is placed among the others. */
  lemma ScreenPlaced(cells: map<Cell, char>, s: string, n: nat, cols: nat, rows: nat)
    requires n < |s| && !Control(s[n]) && Screen(cells, s, n, cols, rows)
    requires TopLine(s, n + 1, cols, rows) == TopLine(s, n, cols, rows) <= StandLine(s, n, cols)
    ensures Screen(cells[CellOf(s, n, cols, TopLine(s, n, cols, rows)) := s[n]], s, n + 1, cols, rows)
  {
    var top := TopLine(s, n, cols, rows);
    var d := CellOf(s, n, cols, top);
    var later := cells[d := s[n]];
    var m := n + 1;
    assert forall i: nat :: i != n ==> (OnScreen(s, m, i, cols, rows) <==> OnScreen(s, n, i, cols, rows));
    forall c | c in later
      ensures Shown(s, n + 1, c, later[c], cols, rows)
    {
      if c == d {
        assert ShowsLast(s, n + 1, n, c, s[n], cols, rows);
      } else {
        var i: nat :| ShowsLast(s, n, i, c, cells[c], cols, rows);
        assert ShowsLast(s, n + 1, i, c, cells[c], cols, rows);
      }
    }
  }

  /** No character on the screen stands below its last line. */
  lemma {:induction false} WithinLines(s: string, i: nat, n: nat, cols: nat, rows: nat)
    requires i < n <= |s| && !Control(s[i]) && rows > 0
    ensures StandLine(s, i, cols) < TopLine(s, n, cols, rows) + rows
    decreases n
  {
    if i < n - 1 {
      WithinLines(s, i, n - 1, cols, rows);
    }
  }

  /** A character whose line is not on the screen begins a new one, on which it stands alone. */
  lemma ScreenBegun(s: string, n: nat, cols: nat, rows: nat)
    requires n < |s| && !Control(s[n]) && rows > 0 && StandCol(s, n, cols) == 0
    requires StandLine(s, n, cols) >= TopLine(s, n, cols, rows) + rows
    ensures Screen(map[Cell(0, 0) := s[n]], s, n + 1, cols, rows)
  {
    assert TopLine(s, n + 1, cols, rows) == StandLine(s, n, cols);
    var m := n + 1;
    forall i: nat | OnScreen(s, m, i, cols, rows)
      ensures i == n
    {
      if i < n {
        WithinLines(s, i, n, cols, rows);
      }
    }
    assert ShowsLast(s, n + 1, n, Cell(0, 0), s[n], cols, rows);
  }

  /** Control characters leave the screen as it is. */
  lemma ScreenKept(cells: map<Cell, char>, s: string, n: nat, cols: nat, rows: nat)
    requires n < |s| && Control(s[n]) && Screen(cells, s, n, cols, rows)
    ensures Screen(cells, s, n + 1, cols, rows)
  {
    var m := n + 1;
    assert forall i: nat :: OnScreen(s, m, i, cols, rows) <==> OnScreen(s, n, i, cols, rows);
    forall c | c in cells
      ensures Shown(s, n + 1, c, cells[c], cols, rows)
    {
      var i: nat :| ShowsLast(s, n, i, c, cells[c], cols, rows);
      assert ShowsLast(s, n + 1, i, c, cells[c], cols, rows);
    }
  }

  lemma ScreenStep(g: Grid, s: string, n: nat, cols: nat, rows: nat)
    requires n < |s| && rows > 0 && CursorAt(g, s, n, cols, rows) && Screen(g.cells, s, n, cols, rows)
    ensures Screen(Type(g, s[n], cols, rows).cells, s, n + 1, cols, rows)
  {
    CursorStep(g, s, n, cols, rows);
    if Control(s[n]) {
      ScreenKept(g.cells, s, n, cols, rows);
    } else if StandLine(s, n, cols) >= TopLine(s, n, cols, rows) + rows {
      ScreenBegun(s, n, cols, rows);
    } else {
      ScreenPlaced(g.cells, s, n, cols, rows);
    }
  }

  /**
   * Text of any length, newlines and carriage returns included: the screen has the characters of
   * the lines from the top line on, each in its column, and of several in one cell the last.
   */
  lemma {:induction false} ScreenShown(s: string, n: nat, cols: nat, rows: nat)
    requires n <= |s| && rows > 0
    ensures var g := TypeAll(HOME, s[..n], cols, rows);
            CursorAt(g, s, n, cols, rows) && Screen(g.cells, s, n, cols, rows)
    decreases n
  {
    if n == 0 {
      assert s[..0] == "";
    } else {
      var g := TypeAll(HOME, s[..n - 1], cols, rows);
      ScreenShown(s, n - 1, cols, rows);
      TypeLast(HOME, s, n - 1, cols, rows);
      CursorStep(g, s, n - 1, cols, rows);
      ScreenStep(g, s, n - 1, cols, rows);
    }
  }

  /** A character that finds no line left stands alone on the screen, in its first cell. */
  lemma StandsAlone(g: Grid, c: char, cols: nat, rows: nat)
    requires !Control(c) && g.row + (if g.col < cols then 0 else 1) >= rows
    ensures Type(g, c, cols, rows) == Grid(map[Cell(0, 0) := c], 1, 0)
  {
  }

  /** On a screen too low for two lines every character finds no line left: the last one stands alone. */
  lemma {:induction false} OneCharacter(s: string, i: nat, n: nat, cols: nat)
    requires i < n <= |s| && !Control(s[i]) && forall j :: i < j < n ==> Control(s[j])
    ensures TypeAll(HOME, s[..n], cols, 0).cells == map[Cell(0, 0) := s[i]]
    decreases n
  {
    var g := TypeAll(HOME, s[..n - 1], cols, 0);
    TypeLast(HOME, s, n - 1, cols, 0);
    if i == n - 1 {
      StandsAlone(g, s[i], cols, 0);
    } else {
      OneCharacter(s, i, n - 1, cols);
      assert Control(s[n - 1]);
    }
  }
}
