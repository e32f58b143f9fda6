/** The glyph-cell writer over the bytes of the frame buffer. */
module Framebuffer {
  import opened Words
  import opened Terminal

  const RASTER_HEIGHT: nat := 16
  const LINE_HEIGHT: nat := 18
  const BORDER_PADDING: nat := 1

  /** The pixel formats the writer supports. */
  datatype PixelFormat = Rgb | Bgr | U8

  datatype Info = Info(width: nat, height: nat, stride: nat, bytesPerPixel: nat, format: PixelFormat)

  /** Rows of intensities. */
  type Raster = seq<seq<Byte>>

  /** The four candidate bytes of a pixel. */
  function Color(format: PixelFormat, intensity: Byte): (c: seq<Byte>)
    ensures |c| == 4
  {
    match format
    case Rgb => [intensity, intensity, intensity / 2, 0]
    case Bgr => [intensity / 2, intensity, intensity, 0]
    case U8 => [if intensity > 200 then 0xf else 0, 0, 0, 0]
  }

  /** Where a pixel format keeps red and blue; green is between them. */
  function RedByte(format: PixelFormat): nat {
    if format == Bgr then 2 else 0
  }

  function BlueByte(format: PixelFormat): nat {
    2 - RedByte(format)
  }

  /**
   * The colour of a pixel: full red and green and half blue, wherever the format keeps them, and
   * nothing in the fourth byte; in grey scale only bright pixels are drawn, in the one byte there is.
   */
  lemma ColorChannels(format: PixelFormat, intensity: Byte)
    ensures var c := Color(format, intensity);
            && c[3] == 0
            && (format != U8 ==> c[RedByte(format)] == c[1] == intensity && c[BlueByte(format)] == intensity / 2)
            && (format == U8 ==> c[1] == c[2] == 0 && c[0] == if intensity > 200 then 15 else 0)
  {
  }

  /** The pixel and the byte within the pixel that a buffer index belongs to. */
  datatype Spot = Spot(x: nat, y: nat, k: nat)

  function SpotOf(i: nat, info: Info): Spot
    requires info.stride > 0 && info.bytesPerPixel > 0
  {
    Spot((i / info.bytesPerPixel) % info.stride, (i / info.bytesPerPixel) / info.stride, i % info.bytesPerPixel)
  }

  /** A screen the writer can work on. */
  ghost predicate Usable(info: Info, glyphWidth: nat, len: nat) {
    && 1 <= glyphWidth < info.width <= info.stride
    && info.height >= RASTER_HEIGHT + BORDER_PADDING
    && 1 <= info.bytesPerPixel <= 4
    && info.stride * info.height * info.bytesPerPixel <= len
  }

  /** A font: every character has sixteen rows of the given width. */
  ghost predicate Font(glyph: char -> Raster, glyphWidth: nat) {
    forall c :: |glyph(c)| == RASTER_HEIGHT && forall y :: 0 <= y < RASTER_HEIGHT ==> |glyph(c)[y]| == glyphWidth
  }

  /** Characters that fit on a line, and lines that fit on the screen. */
  function Columns(info: Info, glyphWidth: nat): nat
    requires glyphWidth > 0 && info.width >= 2
  {
    (info.width - 2) / glyphWidth
  }

  function Lines(info: Info): nat
    requires info.height > 0
  {
    (info.height - 1) / 18
  }

  /** The cell whose glyph covers a pixel position, if the position is not padding. */
  predicate InCell(x: nat, y: nat, col: nat, row: nat, glyphWidth: nat) {
    1 + col * glyphWidth <= x < 1 + col * glyphWidth + glyphWidth && 1 + 18 * row <= y < 17 + 18 * row
  }

  /**
   * A picture of the grid: each pixel covered by an occupied cell shows the glyph in it, every
   * other byte is black.
   */
  ghost predicate Shows(cells: map<Cell, char>, b: Byte, p: Spot, info: Info, glyph: char -> Raster, glyphWidth: nat)
    requires Font(glyph, glyphWidth) && p.k < 4
  {
    && (forall c :: c in cells && InCell(p.x, p.y, c.col, c.row, glyphWidth) ==>
          b == Color(info.format, glyph(cells[c])[p.y - (1 + 18 * c.row)][p.x - (1 + c.col * glyphWidth)])[p.k])
    && ((forall c :: c in cells ==> !InCell(p.x, p.y, c.col, c.row, glyphWidth)) ==> b == 0)
  }

  /* ---- address arithmetic ---- */

  function Offset(x: nat, y: nat, info: Info): nat {
    (y * info.stride + x) * info.bytesPerPixel
  }

  lemma SpotOfOffset(i: nat, x: nat, y: nat, k: nat, info: Info)
    requires info.stride > 0 && info.bytesPerPixel > 0 && x < info.stride && k < info.bytesPerPixel
    requires i == Offset(x, y, info) + k
    ensures SpotOf(i, info) == Spot(x, y, k)
  {
    QuotRem(i, info.bytesPerPixel, y * info.stride + x, k);
    QuotRem(y * info.stride + x, info.stride, y, x);
  }

  lemma OffsetOfSpot(i: nat, info: Info)
    requires info.stride > 0 && info.bytesPerPixel > 0
    ensures var p := SpotOf(i, info);
            p.x < info.stride && p.k < info.bytesPerPixel && i == Offset(p.x, p.y, info) + p.k
  {
    var po := i / info.bytesPerPixel;
    assert i == po * info.bytesPerPixel + i % info.bytesPerPixel;
    assert po == (po / info.stride) * info.stride + po % info.stride;
  }

  lemma MulMonotone(a: nat, b: nat, d: nat)
    requires a <= b
    ensures a * d <= b * d
  {
    if a < b {
      MulStep(a, b, d);
    }
  }

  /** A pixel on the screen lies inside the buffer. */
  lemma PixelInBuffer(x: nat, y: nat, info: Info, glyphWidth: nat, len: nat)
    requires Usable(info, glyphWidth, len) && x < info.stride && y < info.height
    ensures Offset(x, y, info) + info.bytesPerPixel <= len
  {
    MulStep(y, info.height, info.stride);
    MulMonotone(y * info.stride + x + 1, info.height * info.stride, info.bytesPerPixel);
    assert (y * info.stride + x + 1) * info.bytesPerPixel == Offset(x, y, info) + info.bytesPerPixel;
    assert info.height * info.stride == info.stride * info.height;
  }

  /** Two different cells cover no common pixel. */
  lemma CellsApart(x: nat, y: nat, c: Cell, d: Cell, glyphWidth: nat)
    requires InCell(x, y, c.col, c.row, glyphWidth) && InCell(x, y, d.col, d.row, glyphWidth)
    ensures c == d
  {
    if c.col < d.col {
      MulStep(c.col, d.col, glyphWidth);
    } else if d.col < c.col {
      MulStep(d.col, c.col, glyphWidth);
    }
  }

  /** The picture of a grid is unique: a byte is determined by the cells and its place. */
  lemma PictureUnique(cells: map<Cell, char>, b: Byte, b': Byte, p: Spot, info: Info, glyph: char -> Raster, glyphWidth: nat)
    requires Font(glyph, glyphWidth) && p.k < 4
    requires Shows(cells, b, p, info, glyph, glyphWidth) && Shows(cells, b', p, info, glyph, glyphWidth)
    ensures b == b'
  {
    if c :| c in cells && InCell(p.x, p.y, c.col, c.row, glyphWidth) {
      assert b == b';
    }
  }

  lemma GlyphAtSpot(cells: map<Cell, char>, b: Byte, p: Spot, d: Cell, x: nat, y: nat, info: Info, glyph: char -> Raster, glyphWidth: nat)
    requires Font(glyph, glyphWidth) && p.k < 4 && d in cells && x < glyphWidth && y < RASTER_HEIGHT
    requires p.x == 1 + d.col * glyphWidth + x && p.y == 1 + 18 * d.row + y
    requires Shows(cells, b, p, info, glyph, glyphWidth)
    ensures b == Color(info.format, glyph(cells[d])[y][x])[p.k]
  {
    assert InCell(p.x, p.y, d.col, d.row, glyphWidth);
  }

  /** Pixel (x, y) of the glyph in a cell, by its index in the buffer: rows downwards, each from left to right. */
  lemma GlyphInPicture(cells: map<Cell, char>, b: Byte, i: nat, d: Cell, x: nat, y: nat, px: nat, py: nat, k: nat,
                       info: Info, glyph: char -> Raster, glyphWidth: nat)
    requires Font(glyph, glyphWidth) && info.stride > 0 && k < info.bytesPerPixel <= 4
    requires d in cells && x < glyphWidth && y < RASTER_HEIGHT
    requires px == 1 + d.col * glyphWidth + x < info.stride && py == 1 + 18 * d.row + y
    requires i == Offset(px, py, info) + k && Shows(cells, b, SpotOf(i, info), info, glyph, glyphWidth)
    ensures b == Color(info.format, glyph(cells[d])[y][x])[k]
  {
    SpotOfOffset(i, px, py, k, info);
    GlyphAtSpot(cells, b, Spot(px, py, k), d, x, y, info, glyph, glyphWidth);
  }

  /** Placing a glyph in one cell, byte by byte: within the cell, and elsewhere. */
  lemma ShowsGlyph(cells: map<Cell, char>, d: Cell, ch: char, b: Byte, p: Spot, info: Info, glyph: char -> Raster, glyphWidth: nat)
    requires Font(glyph, glyphWidth) && p.k < 4 && InCell(p.x, p.y, d.col, d.row, glyphWidth)
    requires b == Color(info.format, glyph(ch)[p.y - (1 + 18 * d.row)][p.x - (1 + d.col * glyphWidth)])[p.k]
    ensures Shows(cells[d := ch], b, p, info, glyph, glyphWidth)
  {
    forall c | c in cells[d := ch] && InCell(p.x, p.y, c.col, c.row, glyphWidth)
      ensures c == d
    {
      CellsApart(p.x, p.y, c, d, glyphWidth);
    }
    assert d in cells[d := ch];
  }

  lemma ShowsElsewhere(cells: map<Cell, char>, d: Cell, ch: char, b: Byte, p: Spot, info: Info, glyph: char -> Raster, glyphWidth: nat)
    requires Font(glyph, glyphWidth) && p.k < 4 && Shows(cells, b, p, info, glyph, glyphWidth)
    requires !InCell(p.x, p.y, d.col, d.row, glyphWidth)
    ensures Shows(cells[d := ch], b, p, info, glyph, glyphWidth)
  {
    assert forall c :: c in cells && InCell(p.x, p.y, c.col, c.row, glyphWidth) ==> c in cells[d := ch] && c != d;
  }

  lemma ShowsPlaced(cells: map<Cell, char>, d: Cell, ch: char, b: Byte, b': Byte, p: Spot, info: Info, glyph: char -> Raster, glyphWidth: nat)
    requires Font(glyph, glyphWidth) && p.k < 4 && Shows(cells, b, p, info, glyph, glyphWidth)
    requires if InCell(p.x, p.y, d.col, d.row, glyphWidth)
             then b' == Color(info.format, glyph(ch)[p.y - (1 + 18 * d.row)][p.x - (1 + d.col * glyphWidth)])[p.k]
             else b' == b
    ensures Shows(cells[d := ch], b', p, info, glyph, glyphWidth)
  {
    if InCell(p.x, p.y, d.col, d.row, glyphWidth) {
      ShowsGlyph(cells, d, ch, b', p, info, glyph, glyphWidth);
    } else {
      ShowsElsewhere(cells, d, ch, b', p, info, glyph, glyphWidth);
    }
  }

  class FrameBufferWriter {
    const framebuffer: array<Byte>
    const info: Info
    /** `get_char_raster`: the raster of every character, or of the backup character. */
    const glyph: char -> Raster
    const glyphWidth: nat
    var xPos: nat
    var yPos: nat
    ghost var grid: Grid
    /** Everything written so far. */
    ghost var typed: string

    ghost predicate Ready() {
      Usable(info, glyphWidth, framebuffer.Length) && Font(glyph, glyphWidth)
    }

    /** The buffer shows the grid, and the pen is at its cursor. */
    ghost predicate Pictured()
      reads this, framebuffer
    {
      && Ready()
      && xPos == 1 + grid.col * glyphWidth && yPos == 1 + 18 * grid.row
      && forall i :: 0 <= i < framebuffer.Length ==>
           Shows(grid.cells, framebuffer[i], SpotOf(i, info), info, glyph, glyphWidth)
    }

    /** And the grid is what typing everything written since the screen was last cleared by hand comes to. */
    ghost predicate Valid()
      reads this, framebuffer
    {
      Pictured() && grid == TypeAll(HOME, typed, Columns(info, glyphWidth), Lines(info))
    }

    method WritePixel(x: nat, y: nat, intensity: Byte)
      requires Ready() && x < info.stride && y < info.height
      modifies framebuffer
      ensures forall i :: 0 <= i < framebuffer.Length ==>
                framebuffer[i] == if SpotOf(i, info).x == x && SpotOf(i, info).y == y
                                  then Color(info.format, intensity)[SpotOf(i, info).k] else old(framebuffer[i])
      ensures var at := (y * info.stride + x) * info.bytesPerPixel;
              && at + info.bytesPerPixel <= framebuffer.Length
              && forall i :: 0 <= i < framebuffer.Length ==>
                   framebuffer[i] == if at <= i < at + info.bytesPerPixel then Color(info.format, intensity)[i - at] else old(framebuffer[i])
    {
      var pixelOffset := y * info.stride + x;
      var byteOffset := pixelOffset * info.bytesPerPixel;
      var color := Color(info.format, intensity);
      PixelInBuffer(x, y, info, glyphWidth, framebuffer.Length);
      ghost var before := framebuffer[..];
      forall k | 0 <= k < info.bytesPerPixel {
        framebuffer[byteOffset + k] := color[k];
      }
      forall i | 0 <= i < framebuffer.Length
        ensures framebuffer[i] == if SpotOf(i, info).x == x && SpotOf(i, info).y == y
                                  then color[SpotOf(i, info).k] else before[i]
      {
        OffsetOfSpot(i, info);
        if byteOffset <= i < byteOffset + info.bytesPerPixel {
          SpotOfOffset(i, x, y, i - byteOffset, info);
        }
      }
    }

    /** The inner loop of `write_rendered_char`. */
    method WriteRow(row: seq<Byte>, x0: nat, y: nat)
      requires Ready() && |row| == glyphWidth && x0 + glyphWidth <= info.stride && y < info.height
      modifies framebuffer
      ensures forall i :: 0 <= i < framebuffer.Length ==>
                framebuffer[i] == RowByte(SpotOf(i, info), row, x0, y, glyphWidth, old(framebuffer[i]))
    {
      var x := 0;
      ghost var before := framebuffer[..];
      while x < |row|
        invariant 0 <= x <= |row|
        invariant forall i :: 0 <= i < framebuffer.Length ==>
                    framebuffer[i] == RowByte(SpotOf(i, info), row, x0, y, x, before[i])
      {
        WritePixel(x0 + x, y, row[x]);
        x := x + 1;
      }
    }

    /** The byte at a spot once the first n pixels of a row have been written. */
    function RowByte(p: Spot, row: seq<Byte>, x0: nat, y: nat, n: nat, before: Byte): Byte
      requires n <= |row| && p.k < 4
    {
      if p.y == y && x0 <= p.x < x0 + n then Color(info.format, row[p.x - x0])[p.k] else before
    }

    /** The byte at a spot once the first n rows of a glyph have been written. */
    function GlyphByte(p: Spot, raster: Raster, x0: nat, y0: nat, n: nat, before: Byte): Byte
      requires n <= |raster| && (forall y :: 0 <= y < |raster| ==> |raster[y]| == glyphWidth) && p.k < 4
    {
      if y0 <= p.y < y0 + n && x0 <= p.x < x0 + glyphWidth
      then Color(info.format, raster[p.y - y0][p.x - x0])[p.k] else before
    }

    /** `write_rendered_char`. */
    method WriteRenderedChar(raster: Raster)
      requires Ready() && |raster| == RASTER_HEIGHT && forall y :: 0 <= y < |raster| ==> |raster[y]| == glyphWidth
      requires xPos + glyphWidth <= info.stride && yPos + RASTER_HEIGHT <= info.height
      modifies framebuffer, this`xPos
      ensures xPos == old(xPos) + glyphWidth
      ensures forall i :: 0 <= i < framebuffer.Length ==>
                framebuffer[i] == GlyphByte(SpotOf(i, info), raster, old(xPos), yPos, RASTER_HEIGHT, old(framebuffer[i]))
    {
      var y := 0;
      ghost var before := framebuffer[..];
      while y < |raster|
        invariant 0 <= y <= |raster| && xPos == old(xPos)
        invariant forall i :: 0 <= i < framebuffer.Length ==>
                    framebuffer[i] == GlyphByte(SpotOf(i, info), raster, xPos, yPos, y, before[i])
      {
        WriteRow(raster[y], xPos, yPos + y);
        y := y + 1;
      }
      xPos := xPos + glyphWidth;
    }

    method CarriageReturn()
      modifies this`xPos
      ensures xPos == BORDER_PADDING
    {
      xPos := BORDER_PADDING;
    }

    method Newline()
      modifies this`xPos, this`yPos
      ensures xPos == BORDER_PADDING && yPos == old(yPos) + LINE_HEIGHT
    {
      yPos := yPos + RASTER_HEIGHT + 2;
      CarriageReturn();
    }

    /** `fill(0)`, and the pen back to the first cell. */
    method Blank()
      requires Ready()
      modifies `xPos, `yPos, `grid, framebuffer
      ensures Pictured() && grid == HOME
    {
      xPos := BORDER_PADDING;
      yPos := BORDER_PADDING;
      forall i | 0 <= i < framebuffer.Length {
        framebuffer[i] := 0;
      }
      grid := HOME;
    }

    /** `clear`, as it is called from outside. */
    method Clear()
      requires Ready()
      modifies this, framebuffer
      ensures Valid() && grid == HOME && typed == ""
    {
      Blank();
      typed := "";
    }

    constructor (framebuffer: array<Byte>, info: Info, glyph: char -> Raster, glyphWidth: nat)
      requires Usable(info, glyphWidth, framebuffer.Length) && Font(glyph, glyphWidth)
      modifies framebuffer
      ensures Valid() && grid == HOME && typed == ""
      ensures this.framebuffer == framebuffer && this.info == info && this.glyph == glyph && this.glyphWidth == glyphWidth
    {
      this.framebuffer := framebuffer;
      this.info := info;
      this.glyph := glyph;
      this.glyphWidth := glyphWidth;
      xPos, yPos := 0, 0;
      grid := HOME;
      typed := "";
      new;
      Clear();
    }

    /** `write_char`: the frame buffer shows the grid with the character typed. */
    method WriteChar(c: char)
      requires Valid()
      modifies this, framebuffer
      ensures Valid() && typed == old(typed) + [c]
      ensures grid == Type(old(grid), c, Columns(info, glyphWidth), Lines(info))
    {
      ghost var cols, rows := Columns(info, glyphWidth), Lines(info);
      TypedNext(typed, c, cols, rows);
      if c == '\n' {
        Newline();
        grid := NextLine(grid);
      } else if c == '\r' {
        CarriageReturn();
        grid := grid.(col := 0);
      } else {
        Place();
        Draw(c);
      }
      typed := typed + [c];
    }

    /** Wrapping and clearing, before a character is drawn. */
    method Place()
      requires Pictured()
      modifies `xPos, `yPos, `grid, framebuffer
      ensures Pictured() && grid == MakeRoom(old(grid), Columns(info, glyphWidth), Lines(info))
      ensures xPos + glyphWidth <= info.width && yPos + RASTER_HEIGHT <= info.height
    {
      ColumnTest(grid.col, info.width, glyphWidth);
      var newXpos := xPos + glyphWidth;
      if newXpos >= info.width {
        Newline();
        grid := NextLine(grid);
      }
      LineTest(grid.row, info.height);
      var newYpos := yPos + RASTER_HEIGHT + BORDER_PADDING;
      if newYpos >= info.height {
        Blank();
      }
    }

    /** Drawing in the current cell. */
    method Draw(c: char)
      requires Pictured() && xPos + glyphWidth <= info.width && yPos + RASTER_HEIGHT <= info.height
      modifies `xPos, `yPos, `grid, framebuffer
      ensures Pictured()
      ensures grid == Grid(old(grid).cells[Cell(old(grid).col, old(grid).row) := c], old(grid).col + 1, old(grid).row)
    {
      ghost var g, before, d := grid, framebuffer[..], Cell(grid.col, grid.row);
      WriteRenderedChar(glyph(c));
      grid := Grid(g.cells[d := c], g.col + 1, g.row);
      assert (g.col + 1) * glyphWidth == g.col * glyphWidth + glyphWidth;
      forall i | 0 <= i < framebuffer.Length
        ensures Shows(grid.cells, framebuffer[i], SpotOf(i, info), info, glyph, glyphWidth)
      {
        ShowsPlaced(g.cells, d, c, before[i], framebuffer[i], SpotOf(i, info), info, glyph, glyphWidth);
      }
    }

    /**
     * `write_str`. For every string, control characters included, the buffer afterwards shows
     * exactly the grid that typing the string produces, and no write leaves the buffer. With at
     * least one line, this is the screen of everything written so far: each cell shows the last
     * character placed in it since the lines last ran out.
     */
    method WriteStr(s: string)
      requires Valid()
      modifies this, framebuffer
      ensures Valid() && typed == old(typed) + s
      ensures grid == TypeAll(old(grid), s, Columns(info, glyphWidth), Lines(info))
      ensures Lines(info) > 0 ==> Screen(grid.cells, typed, |typed|, Columns(info, glyphWidth), Lines(info))
    {
      ghost var g, t, cols, rows := grid, typed, Columns(info, glyphWidth), Lines(info);
      var n := 0;
      assert s[..0] == "" && t + "" == t;
      while n < |s|
        invariant 0 <= n <= |s| && Valid() && grid == TypeAll(g, s[..n], cols, rows) && typed == t + s[..n]
      {
        TypeLast(g, s, n, cols, rows);
        assert t + s[..n] + [s[n]] == t + s[..n + 1];
        WriteChar(s[n]);
        n := n + 1;
      }
      assert s[..n] == s;
      if rows > 0 {
        ScreenShown(typed, |typed|, cols, rows);
        assert typed[..|typed|] == typed;
      }
    }
  }

  lemma TypedNext(typed: string, c: char, cols: nat, rows: nat)
    ensures TypeAll(HOME, typed + [c], cols, rows) == Type(TypeAll(HOME, typed, cols, rows), c, cols, rows)
  {
    var t := typed + [c];
    TypeLast(HOME, t, |typed|, cols, rows);
    assert t[..|typed|] == typed && t[..|typed| + 1] == t;
  }

  /** A column beyond the last one is where the pixel test of `write_char` wraps. */
  lemma ColumnTest(col: nat, width: nat, glyphWidth: nat)
    requires 1 <= glyphWidth < width
    ensures 1 + col * glyphWidth + glyphWidth >= width <==> col >= (width - 2) / glyphWidth
  {
    var cols, r := (width - 2) / glyphWidth, (width - 2) % glyphWidth;
    assert width - 2 == cols * glyphWidth + r;
    if col < cols {
      MulMonotone(col + 1, cols, glyphWidth);
      assert (col + 1) * glyphWidth == col * glyphWidth + glyphWidth;
    } else {
      MulMonotone(cols, col, glyphWidth);
    }
  }

  /** A line below the last one is where the pixel test of `write_char` clears the screen. */
  lemma LineTest(row: nat, height: nat)
    requires height >= 17
    ensures 1 + 18 * row + 16 + 1 >= height <==> row >= (height - 1) / 18
  {
  }

  /** The cells of the grid are exactly those whose glyph is within the borders of the screen. */
  lemma CellsOnScreen(col: nat, row: nat, info: Info, glyphWidth: nat)
    requires 1 <= glyphWidth < info.width && info.height >= 17
    ensures col < Columns(info, glyphWidth) <==> 1 + (col + 1) * glyphWidth < info.width
    ensures row < Lines(info) <==> 1 + 18 * row + 16 + 1 < info.height
  {
    ColumnTest(col, info.width, glyphWidth);
    LineTest(row, info.height);
    assert (col + 1) * glyphWidth == col * glyphWidth + glyphWidth;
  }
}
