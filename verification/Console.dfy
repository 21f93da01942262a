/** The loader's text console: a cursor and a framebuffer that together always show a grid
    of characters in an 8x16 font. */
module Console {
  import opened Machine
  import opened Hex

  const FONT_SIZE_X: nat := 8
  const FONT_SIZE_Y: nat := 16
  const NEWLINE: U8 := 0x0A
  const WHITE: U32 := 0xFFFF_FFFF
  const BLACK: U32 := 0

  // ---------------------------------------------------------- the grid

  /** Rows of cells, each blank or a character, and the cursor. The cursor may stand one past
      the last column; the next character then starts a new line. */
  datatype Grid = Grid(cells: seq<seq<Option<U8>>>, col: nat, row: nat)
  {
    ghost predicate Valid(cols: nat, rows: nat) {
      && cols > 0 && rows > 0 && col <= cols && row < rows
      && |cells| == rows && forall r :: 0 <= r < rows ==> |cells[r]| == cols
    }

    /** To the start of the next line, from the last to the first. Nothing is cleared. */
    function NextLine(rows: nat): Grid {
      this.(col := 0, row := if row + 1 >= rows then 0 else row + 1)
    }

    function Put(cols: nat, rows: nat, c: U8): (g: Grid)
      requires Valid(cols, rows)
      ensures g.Valid(cols, rows)
    {
      var g := if col >= cols then NextLine(rows) else this;
      g.(cells := g.cells[g.row := g.cells[g.row][g.col := Some(c)]], col := g.col + 1)
    }

    function Print(cols: nat, rows: nat, text: seq<U8>): (g: Grid)
      requires Valid(cols, rows)
      ensures g.Valid(cols, rows)
      decreases |text|
    {
      if text == [] then this
      else (if text[0] == NEWLINE then NextLine(rows) else Put(cols, rows, text[0])).Print(cols, rows, text[1..])
    }
  }

  /** The grid without characters. */
  ghost function Blank(cols: nat, rows: nat, col: nat, row: nat): (g: Grid)
    requires cols > 0 && col <= cols && row < rows
    ensures g.Valid(cols, rows)
  {
    var line: seq<Option<U8>> := seq(cols, _ => None);
    Grid(seq(rows, _ => line), col, row)
  }

  lemma BlankRender(cols: nat, rows: nat, col: nat, row: nat, font: seq<U8>, w: nat, v: seq<U32>)
    requires cols > 0 && col <= cols && row < rows && |font| == 256 * FONT_SIZE_Y && w > 0
    requires forall j :: 0 <= j < |v| ==> v[j] == BLACK
    ensures v == Render(Blank(cols, rows, col, row), font, w, |v|)
  {
    var r := Render(Blank(cols, rows, col, row), font, w, |v|);
    forall i | 0 <= i < |v| ensures v[i] == r[i] {
      BlankPixel(cols, rows, col, row, font, i % w, i / w);
    }
  }

  lemma BlankPixel(cols: nat, rows: nat, col: nat, row: nat, font: seq<U8>, x: nat, y: nat)
    requires cols > 0 && col <= cols && row < rows && |font| == 256 * FONT_SIZE_Y
    ensures Pixel(Blank(cols, rows, col, row), font, x, y) == BLACK
  {
  }

  /** Printing piece by piece is printing the whole. */
  lemma {:induction false} PrintConcat(g: Grid, cols: nat, rows: nat, a: seq<U8>, b: seq<U8>)
    requires g.Valid(cols, rows)
    ensures g.Print(cols, rows, a).Print(cols, rows, b) == g.Print(cols, rows, a + b)
    decreases |a|
  {
    if a == [] {
      assert a + b == b;
    } else {
      assert (a + b)[0] == a[0] && (a + b)[1..] == a[1..] + b;
      var g' := if a[0] == NEWLINE then g.NextLine(rows) else g.Put(cols, rows, a[0]);
      PrintConcat(g', cols, rows, a[1..], b);
    }
  }

  /** Byte 0x0A is not shown: it ends the line. */
  lemma NewlineEndsLine(g: Grid, cols: nat, rows: nat, a: seq<U8>, b: seq<U8>)
    requires g.Valid(cols, rows)
    ensures var h := g.Print(cols, rows, a);
            var next := h.(col := 0, row := if h.row + 1 == rows then 0 else h.row + 1);
            && next.Valid(cols, rows)
            && g.Print(cols, rows, a + [0x0A] + b) == next.Print(cols, rows, b)
  {
    var h := g.Print(cols, rows, a);
    assert ([0x0A] + b)[1..] == b;
    assert a + [0x0A] + b == a + ([0x0A] + b);
    PrintConcat(g, cols, rows, a, [0x0A] + b);
  }

  /** The line p cells behind the start of line `row`. */
  function LineOf(row: nat, cols: nat, rows: nat, p: nat): nat
    requires cols > 0 && rows > 0
  {
    (row + p / cols) % rows
  }

  /** The cursor stands behind cell p - 1, counted from the start of line `row`. */
  predicate CursorAt(g: Grid, row: nat, cols: nat, rows: nat, p: nat)
    requires cols > 0 && rows > 0
  {
    if p == 0 then g.row == row && g.col == 0
    else g.row == LineOf(row, cols, rows, p - 1) && g.col == (p - 1) % cols + 1
  }

  /** What stands in that cell. */
  function CellAt(g: Grid, row: nat, cols: nat, rows: nat, p: nat): Option<U8>
    requires g.Valid(cols, rows)
  {
    g.cells[LineOf(row, cols, rows, p)][p % cols]
  }

  /** The last screenful of the n characters of a text that starts at cell p is on the grid. */
  ghost predicate Filled(g: Grid, row: nat, cols: nat, rows: nat, p: nat, text: seq<U8>, n: nat)
    requires g.Valid(cols, rows) && n <= |text|
  {
    forall j :: 0 <= j < n && n - j <= cols * rows ==> CellAt(g, row, cols, rows, p + j) == Some(text[j])
  }

  /** Characters fill cell after cell, wrapping at the right edge and from the last line to the
      first, wherever the cursor starts and however long the text is. */
  lemma {:induction false} TextFillsLines(g: Grid, cols: nat, rows: nat, text: seq<U8>, n: nat)
    requires g.Valid(cols, rows) && NEWLINE !in text && n <= |text|
    ensures CursorAt(g.Print(cols, rows, text[..n]), g.row, cols, rows, g.col + n)
    ensures Filled(g.Print(cols, rows, text[..n]), g.row, cols, rows, g.col, text, n)
  {
    if n == 0 {
      StartPosition(g, cols, rows);
    } else {
      var m := n - 1;
      TextFillsLines(g, cols, rows, text, m);
      assert text[..n] == text[..m] + [text[m]];
      PrintConcat(g, cols, rows, text[..m], [text[m]]);
      PrintOne(g.Print(cols, rows, text[..m]), cols, rows, text[m]);
      FillStep(g.Print(cols, rows, text[..m]), g.row, cols, rows, g.col, text, m);
    }
  }

  lemma FillStep(g: Grid, row: nat, cols: nat, rows: nat, p: nat, text: seq<U8>, m: nat)
    requires g.Valid(cols, rows) && row < rows && m < |text|
    requires CursorAt(g, row, cols, rows, p + m) && Filled(g, row, cols, rows, p, text, m)
    ensures CursorAt(g.Put(cols, rows, text[m]), row, cols, rows, p + m + 1)
    ensures Filled(g.Put(cols, rows, text[m]), row, cols, rows, p, text, m + 1)
  {
    PutPosition(g, row, cols, rows, text[m], p + m, p + m);
    forall j | 0 <= j < m + 1 && m + 1 - j <= cols * rows
      ensures CellAt(g.Put(cols, rows, text[m]), row, cols, rows, p + j) == Some(text[j])
    {
      PutPosition(g, row, cols, rows, text[m], p + m, p + j);
    }
  }

  lemma StartPosition(g: Grid, cols: nat, rows: nat)
    requires g.Valid(cols, rows)
    ensures CursorAt(g, g.row, cols, rows, g.col)
  {
    if g.col > 0 {
      ModUnique(g.col - 1, cols, 0, g.col - 1);
      ModUnique(g.row, rows, 0, g.row);
    }
  }

  /** The next character goes to cell p; the screenful of cells before it, q among them, keeps
      what it holds. */
  lemma PutPosition(g: Grid, row: nat, cols: nat, rows: nat, c: U8, p: nat, q: nat)
    requires g.Valid(cols, rows) && row < rows && CursorAt(g, row, cols, rows, p)
    requires q <= p && p - q < cols * rows
    ensures CellAt(g.Put(cols, rows, c), row, cols, rows, q) == if q == p then Some(c) else CellAt(g, row, cols, rows, q)
    ensures CursorAt(g.Put(cols, rows, c), row, cols, rows, p + 1)
  {
    NextPosition(row, cols, rows, p);
    if q < p {
      PositionsDiffer(row, cols, rows, q, p);
    }
  }

  lemma PrintOne(g: Grid, cols: nat, rows: nat, c: U8)
    requires g.Valid(cols, rows) && c != NEWLINE
    ensures g.Print(cols, rows, [c]) == g.Put(cols, rows, c)
  {
    assert [c][1..] == [];
  }

  /** Where the cursor moves from behind character m - 1 to take character m. */
  lemma NextPosition(row: nat, cols: nat, rows: nat, m: nat)
    requires row < rows && cols > 0
    ensures m == 0 ==> m % cols == 0 && LineOf(row, cols, rows, m) == row
    ensures m > 0 && (m - 1) % cols + 1 < cols ==>
              m % cols == (m - 1) % cols + 1 && LineOf(row, cols, rows, m) == LineOf(row, cols, rows, m - 1)
    ensures m > 0 && (m - 1) % cols + 1 == cols ==>
              && m % cols == 0
              && var r := LineOf(row, cols, rows, m - 1);
                 LineOf(row, cols, rows, m) == if r + 1 >= rows then 0 else r + 1
  {
    if m > 0 {
      var q, r := (m - 1) / cols, (m - 1) % cols;
      assert m - 1 == cols * q + r;
      if r + 1 < cols {
        ModUnique(m, cols, q, r + 1);
      } else {
        assert m == cols * (q + 1) + 0;
        ModUnique(m, cols, q + 1, 0);
        var s, t := (row + q) / rows, (row + q) % rows;
        assert row + q + 1 == rows * s + (t + 1);
        if t + 1 < rows {
          ModUnique(row + q + 1, rows, s, t + 1);
        } else {
          assert row + q + 1 == rows * (s + 1) + 0;
          ModUnique(row + q + 1, rows, s + 1, 0);
        }
      }
    }
  }

  /** Characters less than a screen apart do not share a cell. */
  lemma PositionsDiffer(row: nat, cols: nat, rows: nat, j: nat, m: nat)
    requires cols > 0 && rows > 0 && j < m && m - j < cols * rows
    ensures LineOf(row, cols, rows, j) != LineOf(row, cols, rows, m) || j % cols != m % cols
  {
    if j % cols == m % cols {
      SameColumn(cols, rows, j / cols, m / cols, j % cols);
      SameRemainder(row + j / cols, row + m / cols, rows);
    }
  }

  lemma SameColumn(cols: nat, rows: nat, a: nat, b: nat, r: nat)
    requires 0 < (cols * b + r) - (cols * a + r) < cols * rows
    ensures a < b < a + rows
  {
    MulMonotone(cols, a, b);
    MulMonotone(cols, b, a + rows);
    assert cols * (a + rows) == cols * a + cols * rows;
  }

  lemma SameRemainder(x: nat, y: nat, p: nat)
    requires p > 0
    ensures x <= y < x + p && x % p == y % p ==> x == y
  {
    var q, r := x / p, x % p;
    if x <= y < x + p {
      if r + (y - x) < p {
        ModUnique(y, p, q, r + (y - x));
      } else {
        ModUnique(y, p, q + 1, r + (y - x) - p);
      }
    }
  }

  // ------------------------------------------------------------ rendering

  /** Bit 7 - x of a glyph row is its pixel x. */
  function GlyphPixel(font: seq<U8>, c: U8, x: nat, y: nat): U32
    requires |font| == 256 * FONT_SIZE_Y && x < FONT_SIZE_X && y < FONT_SIZE_Y
  {
    if font[c * FONT_SIZE_Y + y] / Pow2(7 - x) % 2 == 1 then WHITE else BLACK
  }

  /** The pixel at (x, y). Beyond the last whole cell the screen stays black. */
  function Pixel(g: Grid, font: seq<U8>, x: nat, y: nat): U32
    requires |font| == 256 * FONT_SIZE_Y
  {
    if y / FONT_SIZE_Y < |g.cells| && x / FONT_SIZE_X < |g.cells[y / FONT_SIZE_Y]| then
      match g.cells[y / FONT_SIZE_Y][x / FONT_SIZE_X] {
        case None => BLACK
        case Some(c) => GlyphPixel(font, c, x % FONT_SIZE_X, y % FONT_SIZE_Y)
      }
    else BLACK
  }

  /** In plain numbers: the pixel of a character is white exactly when its bit is set in row y % 16 of
      the 16 bytes of its glyph, leftmost pixel first. */
  lemma CharacterPixel(g: Grid, font: seq<U8>, c: U8, x: nat, y: nat)
    requires |font| == 256 * 16
    requires y / 16 < |g.cells| && x / 8 < |g.cells[y / 16]| && g.cells[y / 16][x / 8] == Some(c)
    ensures Pixel(g, font, x, y) == if BitAnd(font[16 * c + y % 16], Shr(0x80, x % 8)) != 0 then 0xFFFF_FFFF else 0
  {
    MaskPicksPixel(font[16 * c + y % 16], x % 8);
  }

  /** The framebuffer of w pixels a line that shows g. */
  ghost function Render(g: Grid, font: seq<U8>, w: nat, n: nat): (v: seq<U32>)
    requires |font| == 256 * FONT_SIZE_Y && w > 0
    ensures |v| == n
  {
    seq(n, i requires 0 <= i < n => Pixel(g, font, i % w, i / w))
  }

  /** Framebuffer v with the first k pixels of glyph c drawn, row by row, at (x0, y0). */
  ghost function Painted(v: seq<U32>, w: nat, x0: nat, y0: nat, font: seq<U8>, c: U8, k: nat): (r: seq<U32>)
    requires |font| == 256 * FONT_SIZE_Y && w > 0
    ensures |r| == |v|
  {
    seq(|v|, i requires 0 <= i < |v| =>
      if InGlyph(i % w - x0, i / w - y0, k) then GlyphPixel(font, c, i % w - x0, i / w - y0) else v[i])
  }

  predicate InGlyph(x: int, y: int, k: nat) {
    0 <= x < FONT_SIZE_X && 0 <= y < FONT_SIZE_Y && FONT_SIZE_X * y + x < k
  }

  /** Pixel (x, y) is element y * w + x and no other. */
  lemma PixelIndex(w: nat, x: nat, y: nat, i: nat)
    requires x < w
    ensures i == y * w + x <==> i % w == x && i / w == y
  {
    if i == y * w + x {
      ModUnique(i, w, y, x);
    }
  }

  lemma PixelInside(w: nat, h: nat, x: nat, y: nat)
    requires x < w && y < h
    ensures y * w + x < w * h
  {
    MulAtLeast(w, h - y);
    assert w * h == w * y + w * (h - y);
  }

  /** Drawing one more pixel. */
  lemma PaintStep(v: seq<U32>, w: nat, x0: nat, y0: nat, font: seq<U8>, c: U8, x: nat, y: nat)
    requires |font| == 256 * FONT_SIZE_Y && x < FONT_SIZE_X && y < FONT_SIZE_Y
    requires x0 + x < w && (y0 + y) * w + (x0 + x) < |v|
    ensures var k := FONT_SIZE_X * y + x;
            Painted(v, w, x0, y0, font, c, k)[(y0 + y) * w + (x0 + x) := GlyphPixel(font, c, x, y)]
            == Painted(v, w, x0, y0, font, c, k + 1)
  {
    var k := FONT_SIZE_X * y + x;
    var a, b := Painted(v, w, x0, y0, font, c, k), Painted(v, w, x0, y0, font, c, k + 1);
    var p := (y0 + y) * w + (x0 + x);
    forall i | 0 <= i < |v| ensures a[p := GlyphPixel(font, c, x, y)][i] == b[i] {
      PixelIndex(w, x0 + x, y0 + y, i);
      GlyphOrder(i % w - x0, i / w - y0, x, y);
    }
  }

  lemma GlyphOrder(dx: int, dy: int, x: nat, y: nat)
    requires x < FONT_SIZE_X && y < FONT_SIZE_Y
    ensures var k := FONT_SIZE_X * y + x;
            InGlyph(dx, dy, k + 1) <==> InGlyph(dx, dy, k) || (dx == x && dy == y)
    ensures !InGlyph(x, y, FONT_SIZE_X * y + x)
  {
  }

  /** A whole glyph in the cursor's cell turns the picture of the grid into that of the grid
      with the character in it. */
  lemma PaintedIsPut(g: Grid, font: seq<U8>, w: nat, n: nat, cols: nat, rows: nat, c: U8)
    requires |font| == 256 * FONT_SIZE_Y && w > 0 && g.Valid(cols, rows) && g.col < cols
    ensures Painted(Render(g, font, w, n), w, FONT_SIZE_X * g.col, FONT_SIZE_Y * g.row, font, c, 128)
            == Render(g.Put(cols, rows, c), font, w, n)
  {
    var a := Painted(Render(g, font, w, n), w, FONT_SIZE_X * g.col, FONT_SIZE_Y * g.row, font, c, 128);
    var b := Render(g.Put(cols, rows, c), font, w, n);
    forall i | 0 <= i < n ensures a[i] == b[i] {
      CellPixel(g, font, cols, rows, c, i % w, i / w);
    }
  }

  /** One character changes the pixels of its own 8x16 cell and no others. */
  lemma CellPixel(g: Grid, font: seq<U8>, cols: nat, rows: nat, c: U8, x: nat, y: nat)
    requires |font| == 256 * FONT_SIZE_Y && g.Valid(cols, rows) && g.col < cols
    ensures var dx, dy := x - FONT_SIZE_X * g.col, y - FONT_SIZE_Y * g.row;
            Pixel(g.Put(cols, rows, c), font, x, y)
            == if InGlyph(dx, dy, 128) then GlyphPixel(font, c, dx, dy) else Pixel(g, font, x, y)
  {
    var dx, dy := x - FONT_SIZE_X * g.col, y - FONT_SIZE_Y * g.row;
    assert 0 <= dx < 8 <==> x / 8 == g.col;
    assert 0 <= dy < 16 <==> y / 16 == g.row;
    assert x / 8 == g.col ==> x % 8 == dx;
    assert y / 16 == g.row ==> y % 16 == dy;
  }

  /** The mask 128 >> x picks pixel x of a glyph row. */
  lemma MaskPicksPixel(b: U8, x: nat)
    requires x < 8
    ensures BitAnd(b, Shr(128, x)) != 0 <==> b / Pow2(7 - x) % 2 == 1
  {
    ShrOfTop(x);
    BitAndPower(b, 7 - x);
  }

  lemma BitAndPower(b: nat, k: nat)
    ensures BitAnd(b, Pow2(k)) != 0 <==> b / Pow2(k) % 2 == 1
  {
    BitAndField(b, k, k + 1);
    assert Pow2(k + 1) == 2 * Pow2(k);
    BitOf(b, Pow2(k));
  }

  lemma ShrOfTop(x: nat)
    requires x < 8
    ensures Shr(128, x) == Pow2(7 - x)
  {
    assert Pow2(7) == 128;
    ShrOfPower(7, x);
  }

  lemma {:induction false} ShrOfPower(n: nat, x: nat)
    requires x <= n
    ensures Shr(Pow2(n), x) == Pow2(n - x)
  {
    if x == 0 {
    } else {
      ShrOfPower(n - 1, x - 1);
    }
  }

  lemma BitOf(b: nat, p: nat)
    requires p > 0
    ensures b % (2 * p) - b % p != 0 <==> b / p % 2 == 1
  {
    var q, r := b / p, b % p;
    var e := q % 2;
    assert q == 2 * (q / 2) + e && b == p * q + r;
    assert p * q == (2 * p) * (q / 2) + p * e;
    if e == 1 {
      ModUnique(b, 2 * p, q / 2, p + r);
    } else {
      ModUnique(b, 2 * p, q / 2, r);
    }
  }

  // -------------------------------------------------------------- the driver

  class Video {
    var scrWidth: U16
    var scrHeight: U16
    var vidBuf: array<U32>
    var font: seq<U8>
    var textCol: U16
    var textRow: U16
    const hexBuf: array<U8>

    function Cols(): nat reads this { scrWidth / FONT_SIZE_X }
    function Rows(): nat reads this { scrHeight / FONT_SIZE_Y }

    /** As many whole cells as fit. */
    lemma CellsFit()
      ensures 8 * Cols() <= scrWidth < 8 * Cols() + 8
      ensures 16 * Rows() <= scrHeight < 16 * Rows() + 16
    {
    }

    /** A screen of at least one cell whose pixel numbers fit a C int. */
    ghost predicate Usable()
      reads this
    {
      && scrWidth >= FONT_SIZE_X && scrHeight >= FONT_SIZE_Y
      && scrWidth * scrHeight == vidBuf.Length < 0x8000_0000
      && |font| == 256 * FONT_SIZE_Y
      && hexBuf.Length == 17
      && textCol <= Cols() && textRow < Rows()
    }

    /** The driver's state shows grid g. */
    ghost predicate Shows(g: Grid)
      reads this, vidBuf
    {
      && Usable() && g.Valid(Cols(), Rows())
      && textCol == g.col && textRow == g.row
      && vidBuf[..] == Render(g, font, scrWidth, vidBuf.Length)
    }

    /** video_init. */
    constructor (width: U16, height: U16, vbuf: array<U32>, fnt: seq<U8>)
      requires width >= FONT_SIZE_X && height >= FONT_SIZE_Y
      requires width * height == vbuf.Length < 0x8000_0000 && |fnt| == 256 * FONT_SIZE_Y
      ensures Usable() && vidBuf == vbuf && scrWidth == width && scrHeight == height && font == fnt
      ensures textCol == 0 && textRow == 0 && fresh(hexBuf)
    {
      scrWidth, scrHeight := width, height;
      vidBuf, font := vbuf, fnt;
      textCol, textRow := 0, 0;
      hexBuf := new U8[17];
    }

    /** video_clr. The cursor stays where it is. */
    method VideoClr()
      requires Usable()
      modifies vidBuf
      ensures Shows(Blank(Cols(), Rows(), textCol, textRow))
    {
      var i: U32 := 0;
      while i < scrWidth * scrHeight
        invariant 0 <= i <= vidBuf.Length
        invariant forall j :: 0 <= j < i ==> vidBuf[j] == BLACK
      {
        vidBuf[i] := 0;
        i := i + 1;
      }
      BlankRender(Cols(), Rows(), textCol, textRow, font, scrWidth, vidBuf[..]);
    }

    method SetPixel(x: U16, y: U16, val: U32)
      requires Usable() && x < scrWidth && y < scrHeight
      modifies vidBuf
      ensures y * scrWidth + x < vidBuf.Length
      ensures vidBuf[..] == old(vidBuf[..])[y * scrWidth + x := val]
    {
      PixelInside(scrWidth, scrHeight, x, y);
      var pos: U32 := y * scrWidth + x;
      vidBuf[pos] := val;
    }

    method NewLine(ghost g: Grid)
      requires Shows(g)
      modifies this`textCol, this`textRow
      ensures Shows(g.NextLine(Rows()))
    {
      textCol := 0;
      textRow := Wrap16(textRow + 1);
      if textRow >= scrHeight / FONT_SIZE_Y {
        textRow := 0;
      }
    }

    method Putc(chr: U8, ghost g: Grid)
      requires Shows(g)
      modifies vidBuf, this`textCol, this`textRow
      ensures Shows(g.Put(Cols(), Rows(), chr))
    {
      ghost var g' := g;
      if textCol >= scrWidth / FONT_SIZE_X {
        NewLine(g);
        g' := g.NextLine(Rows());
      }
      assert g'.Put(Cols(), Rows(), chr) == g.Put(Cols(), Rows(), chr);
      PutAtCursor(chr, g');
    }

    /** putc once the cursor is on a line with room. */
    method PutAtCursor(chr: U8, ghost g: Grid)
      requires Shows(g) && g.col < Cols()
      modifies vidBuf, this`textCol
      ensures Shows(g.Put(Cols(), Rows(), chr))
    {
      DrawGlyph(chr, Wrap16(textCol * FONT_SIZE_X), Wrap16(textRow * FONT_SIZE_Y));
      PaintedIsPut(g, font, scrWidth, vidBuf.Length, Cols(), Rows(), chr);
      textCol := textCol + 1;
    }

    /** The two pixel loops of putc. */
    method DrawGlyph(chr: U8, x: U16, y: U16)
      requires Usable() && x + FONT_SIZE_X <= scrWidth && y + FONT_SIZE_Y <= scrHeight
      modifies vidBuf
      ensures vidBuf[..] == Painted(old(vidBuf[..]), scrWidth, x, y, font, chr, 128)
    {
      ghost var v := vidBuf[..];
      assert v == Painted(v, scrWidth, x, y, font, chr, 0);
      var fntY: U16 := 0;
      while fntY < FONT_SIZE_Y
        invariant 0 <= fntY <= FONT_SIZE_Y
        invariant vidBuf[..] == Painted(v, scrWidth, x, y, font, chr, FONT_SIZE_X * fntY)
      {
        var fntX: U16 := 0;
        while fntX < FONT_SIZE_X
          invariant 0 <= fntX <= FONT_SIZE_X
          invariant vidBuf[..] == Painted(v, scrWidth, x, y, font, chr, FONT_SIZE_X * fntY + fntX)
        {
          DrawPixel(v, chr, x, y, fntX, fntY);
          fntX := fntX + 1;
        }
        fntY := fntY + 1;
      }
    }

    /** putpixel or clearpixel, as the glyph's bit says. */
    method DrawPixel(ghost v: seq<U32>, chr: U8, x: U16, y: U16, fntX: U16, fntY: U16)
      requires Usable() && x + FONT_SIZE_X <= scrWidth && y + FONT_SIZE_Y <= scrHeight
      requires fntX < FONT_SIZE_X && fntY < FONT_SIZE_Y
      requires vidBuf[..] == Painted(v, scrWidth, x, y, font, chr, FONT_SIZE_X * fntY + fntX)
      modifies vidBuf
      ensures vidBuf[..] == Painted(v, scrWidth, x, y, font, chr, FONT_SIZE_X * fntY + fntX + 1)
    {
      PixelInside(scrWidth, scrHeight, x + fntX, y + fntY);
      PaintStep(v, scrWidth, x, y, font, chr, fntX, fntY);
      MaskPicksPixel(font[chr * FONT_SIZE_Y + fntY], fntX);
      if BitAnd(font[chr * FONT_SIZE_Y + fntY], Shr(128, fntX)) != 0 {
        SetPixel(Wrap16(x + fntX), Wrap16(y + fntY), WHITE);
      } else {
        SetPixel(Wrap16(x + fntX), Wrap16(y + fntY), BLACK);
      }
    }

    /** video_print; `text` is the contents of a C string. The index is 16 bits wide. */
    method VideoPrint(text: seq<U8>, ghost g: Grid)
      requires Shows(g) && |text| < 0x1_0000 && 0 !in text
      modifies vidBuf, this`textCol, this`textRow
      ensures Shows(g.Print(Cols(), Rows(), text))
    {
      ghost var g' := g;
      var i: U16 := 0;
      while i < |text|
        invariant 0 <= i <= |text|
        invariant Shows(g')
        invariant g'.Print(Cols(), Rows(), text[i..]) == g.Print(Cols(), Rows(), text)
      {
        assert text[i..][0] == text[i] && text[i..][1..] == text[i + 1..];
        if text[i] == NEWLINE {
          NewLine(g');
          g' := g'.NextLine(Rows());
        } else {
          Putc(text[i], g');
          g' := g'.Put(Cols(), Rows(), text[i]);
        }
        i := Wrap16(i + 1);
      }
    }

    /** video_print_hex. An offset past the digits prints nothing. */
    method VideoPrintHex(val: U64, offset: U8, ghost g: Grid)
      requires Shows(g) && hexBuf as object != vidBuf
      modifies vidBuf, hexBuf, this`textCol, this`textRow
      ensures Shows(g.Print(Cols(), Rows(),
                if offset < WIDTH then [0x30, 0x78] + HexDigits(val, WIDTH)[offset..] + [0x20] else []))
    {
      if offset < WIDTH {
        ghost var d := HexDigits(val, WIDTH)[offset..];
        VideoPrint([0x30, 0x78], g);
        ghost var g1 := g.Print(Cols(), Rows(), [0x30, 0x78]);
        VideoConvertHex(val, hexBuf);
        assert hexBuf[offset..16] == d;
        DigitsNonzero(val, WIDTH);
        VideoPrint(hexBuf[offset..16], g1);
        ghost var g2 := g1.Print(Cols(), Rows(), d);
        VideoPrint([0x20], g2);
        PrintConcat(g, Cols(), Rows(), [0x30, 0x78], d);
        PrintConcat(g, Cols(), Rows(), [0x30, 0x78] + d, [0x20]);
      }
    }
  }

  lemma {:induction false} DigitsNonzero(v: nat, n: nat)
    ensures 0 !in HexDigits(v, n)
  {
    if n == 0 {
    } else {
      DigitsNonzero(v / 16, n - 1);
    }
  }
}
