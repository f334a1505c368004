/** Text on a pixel frame buffer: characters of 8 by 16 pixels drawn in place, seen as a
    grid of cells. */
module TextScreen {
  import opened Bits
  import opened Bytes
  import opened Wrappers

  type Pixel = c: nat | c < 0x1_0000

  const GLYPH_WIDTH := 8
  const FONT_HEIGHT := 16

  /** A character to draw: the 16 font lines and the two colours. */
  datatype Glyph = Glyph(lines: seq<Byte>, color: Pixel, back: Pixel) {
    ghost predicate Valid() {
      |lines| == FONT_HEIGHT
    }

    /** The leftmost pixel of a line is its highest bit. */
    function At(x: nat, y: nat): Pixel
      requires x < GLYPH_WIDTH && y < |lines|
    {
      if Bit(lines[y], GLYPH_WIDTH - 1 - x) == 1 then color else back
    }
  }

  /** The number that pixels show, the ones of the given colour read as binary ones and
      the leftmost as the highest digit. */
  function LineShown(px: seq<Pixel>, color: Pixel): nat {
    if px == [] then 0
    else 2 * LineShown(px[..|px| - 1], color) + Shown(px[|px| - 1], color)
  }

  function Shown(p: Pixel, color: Pixel): nat {
    if p == color then 1 else 0
  }

  /** Eight pixels drawn from line `y` of a glyph: in two different colours they show that
      very line, and every pixel not of the one colour is of the other. */
  ghost predicate ShowsLine(px: seq<Pixel>, glyph: Glyph, y: nat)
    requires |px| == 8 && y < |glyph.lines|
  {
    && (forall x :: 0 <= x < 8 ==> px[x] == glyph.color || px[x] == glyph.back)
    && (glyph.color != glyph.back ==> LineShown(px, glyph.color) == glyph.lines[y])
  }

  lemma DrawnShowsLine(px: seq<Pixel>, glyph: Glyph, y: nat)
    requires |px| == 8 && glyph.Valid() && y < FONT_HEIGHT
    requires forall x :: 0 <= x < 8 ==> px[x] == glyph.At(x, y)
    ensures ShowsLine(px, glyph, y)
  {
    forall x | 0 <= x < 8
      ensures px[x] == glyph.color || px[x] == glyph.back
      ensures glyph.color != glyph.back ==> Shown(px[x], glyph.color) == Bit(glyph.lines[y], 7 - x)
    {
      InkIsBit(px, glyph, y, x);
    }
    if glyph.color != glyph.back { Pow2Values(); BitsShown(px, glyph.color, glyph.lines[y]); }
  }

  lemma {:induction false} BitsShown(px: seq<Pixel>, color: Pixel, b: nat)
    requires b < Pow2(|px|) && forall x :: 0 <= x < |px| ==> Shown(px[x], color) == Bit(b, |px| - 1 - x)
    ensures LineShown(px, color) == b
    decreases |px|
  {
    if px != [] {
      var rest, n := px[..|px| - 1], |px| - 1;
      forall x | 0 <= x < n ensures Shown(rest[x], color) == Bit(b / 2, n - 1 - x) {
        assert Shown(px[x], color) == Bit(b, n - x);
      }
      assert Shown(px[n], color) == Bit(b, 0);
      BitsShown(rest, color, b / 2);
    }
  }

  lemma InkIsBit(px: seq<Pixel>, glyph: Glyph, y: nat, x: nat)
    requires |px| == 8 && glyph.Valid() && y < FONT_HEIGHT && x < 8 && px[x] == glyph.At(x, y)
    ensures px[x] == glyph.color || px[x] == glyph.back
    ensures glyph.color != glyph.back ==> Shown(px[x], glyph.color) == Bit(glyph.lines[y], 7 - x)
  {
    BitIsBinary(glyph.lines[y], 7 - x);
  }

  // ----- Drawing in place

  /** One font line: the pixels show it and no other pixel changes. */
  method DrawLine(fb: array<Pixel>, row: nat, glyph: Glyph, y: nat)
    requires glyph.Valid() && y < FONT_HEIGHT && row + GLYPH_WIDTH <= fb.Length
    modifies fb
    ensures ShowsLine(fb[row..row + 8], glyph, y)
    ensures forall x :: 0 <= x < GLYPH_WIDTH ==> fb[row + x] == glyph.At(x, y)
    ensures forall i :: 0 <= i < fb.Length && !(row <= i < row + GLYPH_WIDTH) ==> fb[i] == old(fb[i])
  {
    DrawPixels(fb, row, glyph, y);
    SliceShowsLine(fb[..], row, glyph, y);
  }

  lemma SliceShowsLine(fb: seq<Pixel>, row: nat, glyph: Glyph, y: nat)
    requires glyph.Valid() && y < FONT_HEIGHT && row + 8 <= |fb|
    requires forall x :: 0 <= x < 8 ==> fb[row + x] == glyph.At(x, y)
    ensures ShowsLine(fb[row..row + 8], glyph, y)
  {
    DrawnShowsLine(fb[row..row + 8], glyph, y);
  }

  /** From the lowest bit at the right to the highest at the left. */
  method DrawPixels(fb: array<Pixel>, row: nat, glyph: Glyph, y: nat)
    requires glyph.Valid() && y < FONT_HEIGHT && row + GLYPH_WIDTH <= fb.Length
    modifies fb
    ensures forall x :: 0 <= x < GLYPH_WIDTH ==> fb[row + x] == glyph.At(x, y)
    ensures forall i :: 0 <= i < fb.Length && !(row <= i < row + GLYPH_WIDTH) ==> fb[i] == old(fb[i])
  {
    var line: nat := glyph.lines[y];
    var x := GLYPH_WIDTH - 1;
    assert forall j: nat :: Bit(line, j) == Bit(glyph.lines[y], j + 7 - x);
    while x >= 0
      invariant -1 <= x < GLYPH_WIDTH
      invariant forall j: nat {:trigger Bit(line, j)} :: Bit(line, j) == Bit(glyph.lines[y], j + 7 - x)
      invariant forall i :: x < i < GLYPH_WIDTH ==> fb[row + i] == glyph.At(i, y)
      invariant forall i :: 0 <= i < fb.Length && !(row <= i < row + GLYPH_WIDTH) ==> fb[i] == old(fb[i])
    {
      assert Bit(line, 0) == Bit(glyph.lines[y], 7 - x);
      fb[row + x] := if line % 2 == 1 then glyph.color else glyph.back;
      ghost var was := line;
      line := line / 2;
      forall j: nat ensures Bit(line, j) == Bit(glyph.lines[y], j + 7 - (x - 1)) {
        assert Bit(was, j + 1) == Bit(line, j);
      }
      x := x - 1;
    }
  }

  /** Pixel `i` is inside the 16 lines drawn from `at`. */
  ghost predicate InLines(width: nat, at: nat, n: nat, i: nat) {
    exists y :: 0 <= y < n && InLine(width, at, y, i)
  }

  ghost predicate InLine(width: nat, at: nat, y: nat, i: nat) {
    at + width * y <= i < at + width * y + GLYPH_WIDTH
  }

  /** LlbVideoDrawChar: sixteen lines, each one screen width after the last. */
  method DrawChar(fb: array<Pixel>, width: nat, at: nat, glyph: Glyph)
    requires glyph.Valid() && GLYPH_WIDTH <= width && at + width * (FONT_HEIGHT - 1) + GLYPH_WIDTH <= fb.Length
    modifies fb
    ensures forall x, y :: 0 <= x < GLYPH_WIDTH && 0 <= y < FONT_HEIGHT ==> Drawn(fb[..], width, at, glyph, x, y)
    ensures forall i :: 0 <= i < fb.Length && !InLines(width, at, FONT_HEIGHT, i) ==> fb[i] == old(fb[i])
  {
    var row := at;
    ghost var was := fb[..];
    for y := 0 to FONT_HEIGHT
      invariant row == at + width * y
      invariant forall x, z :: 0 <= x < GLYPH_WIDTH && 0 <= z < y ==> Drawn(fb[..], width, at, glyph, x, z)
      invariant forall i :: 0 <= i < fb.Length && !InLines(width, at, y, i) ==> fb[i] == was[i]
    {
      LineFits(width, y);
      ghost var before := fb[..];
      DrawLine(fb, row, glyph, y);
      AfterLine(before, fb[..], was, width, at, glyph, y);
      row := row + width;
    }
  }

  ghost predicate Drawn(fb: seq<Pixel>, width: nat, at: nat, glyph: Glyph, x: nat, y: nat)
    requires x < GLYPH_WIDTH && y < |glyph.lines|
  {
    at + width * y + x < |fb| && fb[at + width * y + x] == glyph.At(x, y)
  }

  lemma LineFits(width: nat, y: nat)
    requires y < FONT_HEIGHT
    ensures width * y <= width * (FONT_HEIGHT - 1) && width * (y + 1) == width * y + width
  {
  }

  lemma AfterLine(before: seq<Pixel>, fb: seq<Pixel>, was: seq<Pixel>, width: nat, at: nat, glyph: Glyph, y: nat)
    requires glyph.Valid() && y < FONT_HEIGHT && GLYPH_WIDTH <= width
    requires |before| == |fb| == |was| && at + width * y + GLYPH_WIDTH <= |fb|
    requires forall x, z :: 0 <= x < GLYPH_WIDTH && 0 <= z < y ==> Drawn(before, width, at, glyph, x, z)
    requires forall i :: 0 <= i < |fb| && !InLines(width, at, y, i) ==> before[i] == was[i]
    requires forall x :: 0 <= x < GLYPH_WIDTH ==> Drawn(fb, width, at, glyph, x, y)
    requires forall i :: 0 <= i < |fb| && !InLine(width, at, y, i) ==> fb[i] == before[i]
    ensures forall x, z :: 0 <= x < GLYPH_WIDTH && 0 <= z < y + 1 ==> Drawn(fb, width, at, glyph, x, z)
    ensures forall i :: 0 <= i < |fb| && !InLines(width, at, y + 1, i) ==> fb[i] == was[i]
  {
    forall x, z | 0 <= x < GLYPH_WIDTH && 0 <= z < y + 1 ensures Drawn(fb, width, at, glyph, x, z) {
      if z < y {
        assert Drawn(before, width, at, glyph, x, z);
        RowsInOrder(width, z, y);
        assert !InLine(width, at, y, at + width * z + x);
      }
    }
    forall i | 0 <= i < |fb| && !InLines(width, at, y + 1, i) ensures fb[i] == was[i] {
      assert !InLine(width, at, y, i);
      assert !InLines(width, at, y, i);
    }
  }

  // ----- Cells

  datatype Cell = Cell(x: nat, y: nat)

  /** The cell a pixel belongs to, from its column and its line. */
  function CellOf(width: nat, i: nat): Cell
    requires width > 0
  {
    Cell(i % width / GLYPH_WIDTH, i / width / FONT_HEIGHT)
  }

  /** LlbFwVideoGetDisplaySize: the cells of a screen. */
  predicate OnScreen(width: nat, height: nat, c: Cell) {
    c.x < width / GLYPH_WIDTH && c.y < height / FONT_HEIGHT
  }

  /** The display has every cell of 8 by 16 pixels that fits the screen, and no other. */
  lemma OnScreenIffFits(width: nat, height: nat, c: Cell)
    ensures OnScreen(width, height, c) <==> 8 * (c.x + 1) <= width && 16 * (c.y + 1) <= height
  {
  }

  /** The first pixel of a cell, as LlbFwVideoPutChar computes it in 32 bits. */
  function Address(width: nat, c: Cell): nat {
    (width * (c.y * FONT_HEIGHT % 0x1_0000_0000)) % 0x1_0000_0000 + c.x * GLYPH_WIDTH % 0x1_0000_0000
  }

  /** Line and column of pixel (x, y) of a cell, from its position in the buffer. */
  lemma PixelOfCell(width: nat, height: nat, c: Cell, x: nat, y: nat)
    requires OnScreen(width, height, c) && x < GLYPH_WIDTH && y < FONT_HEIGHT
    ensures var i := width * (c.y * FONT_HEIGHT + y) + (c.x * GLYPH_WIDTH + x);
            && i / width == c.y * FONT_HEIGHT + y && i % width == c.x * GLYPH_WIDTH + x
            && CellOf(width, i) == c && i < width * height
  {
    var line, column := c.y * FONT_HEIGHT + y, c.x * GLYPH_WIDTH + x;
    assert column < width;
    EuclidUnique(width * line + column, width, line, column);
    RowsInOrder(width, line, height);
  }

  /** For a screen of at most 2^32 pixels the address is the cell's first pixel. */
  lemma AddressExact(width: nat, height: nat, c: Cell)
    requires OnScreen(width, height, c) && width * height <= 0x1_0000_0000 && height <= 0x1_0000_0000
    ensures Address(width, c) == width * (c.y * FONT_HEIGHT) + c.x * GLYPH_WIDTH
  {
    var line, column := c.y * FONT_HEIGHT, c.x * GLYPH_WIDTH;
    assert line < height && column < width;
    MulAtLeast(width, height);
    RowsInOrder(width, line, height);
    ModSmall(line, 0x1_0000_0000);
    ModSmall(width * line, 0x1_0000_0000);
    ModSmall(column, 0x1_0000_0000);
  }

  /** The sixteen lines of a cell lie in the buffer. */
  lemma CellFits(width: nat, height: nat, c: Cell)
    requires OnScreen(width, height, c)
    ensures width * (c.y * FONT_HEIGHT) + c.x * GLYPH_WIDTH + width * (FONT_HEIGHT - 1) + GLYPH_WIDTH
         <= width * height
  {
    MulAdd(width, c.y * FONT_HEIGHT, FONT_HEIGHT - 1);
    RowsInOrder(width, c.y * FONT_HEIGHT + (FONT_HEIGHT - 1), height);
  }

  /** What pixel `i` of the buffer shows of a glyph in its cell. */
  function PixelOf(g: Glyph, width: nat, i: nat): Pixel
    requires width > 0 && |g.lines| == FONT_HEIGHT
  {
    g.At(i % width % GLYPH_WIDTH, i / width % FONT_HEIGHT)
  }

  /** A glyph put in a cell changes the pixels of that cell and no others. */
  ghost function Put(fb: seq<Pixel>, width: nat, c: Cell, g: Glyph): (r: seq<Pixel>)
    requires width > 0 && g.Valid()
    ensures |r| == |fb|
  {
    seq(|fb|, i requires 0 <= i < |fb| =>
      if CellOf(width, i) == c then PixelOf(g, width, i) else fb[i])
  }

  /** The eight pixels of line `y` of a cell. */
  ghost function CellLine(fb: seq<Pixel>, width: nat, height: nat, c: Cell, y: nat): (px: seq<Pixel>)
    requires OnScreen(width, height, c) && y < 16 && |fb| == width * height
    ensures |px| == 8
  {
    CellLineFits(width, height, c, y);
    var at := width * (16 * c.y + y) + 8 * c.x;
    fb[at..at + 8]
  }

  lemma CellLineFits(width: nat, height: nat, c: Cell, y: nat)
    requires OnScreen(width, height, c) && y < 16
    ensures width * (16 * c.y + y) + 8 * c.x + 8 <= width * height
  {
    RowsInOrder(width, 16 * c.y + y, height);
  }

  /** After a put every line of the cell shows that line of the glyph. */
  lemma PutShowsGlyph(fb: seq<Pixel>, width: nat, height: nat, c: Cell, g: Glyph, y: nat)
    requires g.Valid() && OnScreen(width, height, c) && y < 16 && |fb| == width * height
    ensures ShowsLine(CellLine(Put(fb, width, c, g), width, height, c, y), g, y)
  {
    var r, at := Put(fb, width, c, g), width * (16 * c.y + y) + 8 * c.x;
    CellLineFits(width, height, c, y);
    forall x | 0 <= x < 8 ensures r[at + x] == g.At(x, y) {
      PutPixel(fb, width, height, c, g, x, y);
    }
    SliceShowsLine(r, at, g, y);
  }

  lemma PutPixel(fb: seq<Pixel>, width: nat, height: nat, c: Cell, g: Glyph, x: nat, y: nat)
    requires g.Valid() && OnScreen(width, height, c) && x < 8 && y < 16 && |fb| == width * height
    ensures var i := width * (16 * c.y + y) + 8 * c.x + x;
            i < |fb| && Put(fb, width, c, g)[i] == g.At(x, y)
  {
    PixelOfCell(width, height, c, x, y);
    var i := width * (c.y * FONT_HEIGHT + y) + (c.x * GLYPH_WIDTH + x);
    PixelPlace(width, i, c, x, y, g);
  }

  lemma PixelPlace(width: nat, i: nat, c: Cell, x: nat, y: nat, g: Glyph)
    requires width > 0 && g.Valid() && x < 8 && y < 16
    requires i / width == c.y * FONT_HEIGHT + y && i % width == c.x * GLYPH_WIDTH + x
    ensures PixelOf(g, width, i) == g.At(x, y)
  {
  }

  /** LlbFwVideoPutChar. */
  method DrawCell(fb: array<Pixel>, width: nat, height: nat, c: Cell, g: Glyph)
    requires g.Valid() && OnScreen(width, height, c)
    requires fb.Length == width * height <= 0x1_0000_0000 && height <= 0x1_0000_0000
    modifies fb
    ensures fb[..] == Put(old(fb[..]), width, c, g)
    ensures ShowsGlyph(fb[..], width, height, c, g)
  {
    ghost var was := fb[..];
    DrawAt(fb, width, height, c, g);
    PutShows(was, width, height, c, g);
  }

  /** Every line of the cell reads as that line of the glyph. */
  ghost predicate ShowsGlyph(fb: seq<Pixel>, width: nat, height: nat, c: Cell, g: Glyph)
    requires g.Valid() && OnScreen(width, height, c) && |fb| == width * height
  {
    forall y :: 0 <= y < 16 ==> ShowsLine(CellLine(fb, width, height, c, y), g, y)
  }

  lemma PutShows(fb: seq<Pixel>, width: nat, height: nat, c: Cell, g: Glyph)
    requires g.Valid() && OnScreen(width, height, c) && |fb| == width * height
    ensures ShowsGlyph(Put(fb, width, c, g), width, height, c, g)
  {
    forall y | 0 <= y < 16 ensures ShowsLine(CellLine(Put(fb, width, c, g), width, height, c, y), g, y) {
      PutShowsGlyph(fb, width, height, c, g, y);
    }
  }

  /** Draw from the address of the cell. */
  method DrawAt(fb: array<Pixel>, width: nat, height: nat, c: Cell, g: Glyph)
    requires g.Valid() && OnScreen(width, height, c)
    requires fb.Length == width * height <= 0x1_0000_0000 && height <= 0x1_0000_0000
    modifies fb
    ensures fb[..] == Put(old(fb[..]), width, c, g)
  {
    ghost var was := fb[..];
    var at := Address(width, c);
    AddressFits(width, height, c);
    DrawChar(fb, width, at, g);
    DrawnIsPut(was, fb[..], width, height, c, g, at);
  }

  lemma AddressFits(width: nat, height: nat, c: Cell)
    requires OnScreen(width, height, c) && width * height <= 0x1_0000_0000 && height <= 0x1_0000_0000
    ensures var at := Address(width, c);
            && at == width * (c.y * FONT_HEIGHT) + c.x * GLYPH_WIDTH
            && at + width * (FONT_HEIGHT - 1) + GLYPH_WIDTH <= width * height && GLYPH_WIDTH <= width
  {
    AddressExact(width, height, c);
    CellFits(width, height, c);
  }

  /** Every pixel of a cell is one of the cell's 16 lines of 8. */
  lemma CellPixel(width: nat, height: nat, c: Cell, i: nat)
    requires OnScreen(width, height, c) && CellOf(width, i) == c
    ensures var x, y := i % width % GLYPH_WIDTH, i / width % FONT_HEIGHT;
            i == width * (c.y * FONT_HEIGHT) + c.x * GLYPH_WIDTH + width * y + x
  {
  }

  /** A line of a cell holds pixels of that cell only. */
  lemma LinePixel(width: nat, height: nat, c: Cell, y: nat, i: nat)
    requires OnScreen(width, height, c) && y < FONT_HEIGHT
    requires InLine(width, width * (c.y * FONT_HEIGHT) + c.x * GLYPH_WIDTH, y, i)
    ensures CellOf(width, i) == c
  {
    var x := i - (width * (c.y * FONT_HEIGHT) + c.x * GLYPH_WIDTH + width * y);
    MulAdd(width, c.y * FONT_HEIGHT, y);
    PixelOfCell(width, height, c, x, y);
  }

  lemma DrawnIsPut(was: seq<Pixel>, fb: seq<Pixel>, width: nat, height: nat, c: Cell, g: Glyph, at: nat)
    requires g.Valid() && OnScreen(width, height, c) && |was| == |fb|
    requires at == width * (c.y * FONT_HEIGHT) + c.x * GLYPH_WIDTH
    requires forall x, y :: 0 <= x < GLYPH_WIDTH && 0 <= y < FONT_HEIGHT ==> Drawn(fb, width, at, g, x, y)
    requires forall i :: 0 <= i < |fb| && !InLines(width, at, FONT_HEIGHT, i) ==> fb[i] == was[i]
    ensures fb == Put(was, width, c, g)
  {
    forall i | 0 <= i < |fb| ensures fb[i] == Put(was, width, c, g)[i] {
      DrawnPixel(was, fb, width, height, c, g, at, i);
    }
  }

  lemma DrawnPixel(was: seq<Pixel>, fb: seq<Pixel>, width: nat, height: nat, c: Cell, g: Glyph, at: nat, i: nat)
    requires g.Valid() && OnScreen(width, height, c) && i < |was| == |fb|
    requires at == width * (c.y * FONT_HEIGHT) + c.x * GLYPH_WIDTH
    requires forall x, y :: 0 <= x < GLYPH_WIDTH && 0 <= y < FONT_HEIGHT ==> Drawn(fb, width, at, g, x, y)
    requires !InLines(width, at, FONT_HEIGHT, i) ==> fb[i] == was[i]
    ensures fb[i] == if CellOf(width, i) == c then PixelOf(g, width, i) else was[i]
  {
    if CellOf(width, i) == c {
      CellPixel(width, height, c, i);
      assert Drawn(fb, width, at, g, i % width % GLYPH_WIDTH, i / width % FONT_HEIGHT);
    } else {
      OutsideLines(width, height, c, i);
    }
  }

  /** A pixel of another cell is in none of the lines. */
  lemma OutsideLines(width: nat, height: nat, c: Cell, i: nat)
    requires OnScreen(width, height, c) && CellOf(width, i) != c
    ensures !InLines(width, width * (c.y * FONT_HEIGHT) + c.x * GLYPH_WIDTH, FONT_HEIGHT, i)
  {
    var at := width * (c.y * FONT_HEIGHT) + c.x * GLYPH_WIDTH;
    forall y | 0 <= y < FONT_HEIGHT && InLine(width, at, y, i) ensures false {
      LinePixel(width, height, c, y, i);
    }
  }

  // ----- Any sequence of puts

  /** Glyphs, each for a cell of the screen. */
  ghost predicate Puttable(width: nat, height: nat, puts: seq<(Cell, Glyph)>) {
    width > 0 && forall k :: 0 <= k < |puts| ==> OnScreen(width, height, puts[k].0) && puts[k].1.Valid()
  }

  ghost function PutAll(fb: seq<Pixel>, width: nat, height: nat, puts: seq<(Cell, Glyph)>): (r: seq<Pixel>)
    requires Puttable(width, height, puts)
    ensures |r| == |fb|
    decreases |puts|
  {
    if puts == [] then fb
    else
      var n := |puts| - 1;
      Put(PutAll(fb, width, height, puts[..n]), width, puts[n].0, puts[n].1)
  }

  /** The last glyph put in a cell. */
  ghost function LastIn(puts: seq<(Cell, Glyph)>, c: Cell): (r: Option<Glyph>)
    ensures r.Some? <==> exists k :: 0 <= k < |puts| && puts[k].0 == c
    ensures r.Some? ==> exists k :: 0 <= k < |puts| && puts[k] == (c, r.value)
    decreases |puts|
  {
    if puts == [] then None
    else
      var n := |puts| - 1;
      if puts[n].0 == c then Some(puts[n].1) else LastIn(puts[..n], c)
  }

  /** The buffer is a text screen: after any puts, each pixel shows the last glyph put in
      its cell, and the pixels of untouched cells and of the margins are unchanged. */
  lemma {:induction false} EachCellShowsItsLastGlyph(fb: seq<Pixel>, width: nat, height: nat,
                                                     puts: seq<(Cell, Glyph)>, i: nat)
    requires Puttable(width, height, puts) && i < |fb|
    ensures var last := LastIn(puts, CellOf(width, i));
            && (last.Some? ==> last.value.Valid())
            && PutAll(fb, width, height, puts)[i]
               == if last.Some? then PixelOf(last.value, width, i) else fb[i]
    ensures !OnScreen(width, height, CellOf(width, i)) ==> PutAll(fb, width, height, puts)[i] == fb[i]
    decreases |puts|
  {
    if puts != [] {
      EachCellShowsItsLastGlyph(fb, width, height, puts[..|puts| - 1], i);
    }
  }

  // ----- The teletype

  /** What is typed: a newline, or a character that shows. */
  datatype Key = Newline | Ink(glyph: Glyph)

  /** LlbVideoPutChar moves its 32-bit cursor one cell on, or to the next line. */
  function Advance(perLine: nat, cursor: Word, key: Key): Word
    requires perLine > 0
  {
    (cursor + if key.Newline? then perLine - cursor % perLine else 1) % 0x1_0000_0000
  }

  function CursorCell(perLine: nat, cursor: Word): Cell
    requires perLine > 0
  {
    Cell(cursor % perLine, cursor / perLine)
  }

  /** The cursor after the first `n` keys. */
  function CursorAfter(perLine: nat, cursor: Word, text: seq<Key>, n: nat): Word
    requires perLine > 0 && n <= |text|
  {
    if n == 0 then cursor else Advance(perLine, CursorAfter(perLine, cursor, text, n - 1), text[n - 1])
  }

  /** The cell key `k` of the text is typed in. */
  function TypedCell(width: nat, cursor: Word, text: seq<Key>, k: nat): Cell
    requires width >= GLYPH_WIDTH && k <= |text|
  {
    CursorCell(width / GLYPH_WIDTH, CursorAfter(width / GLYPH_WIDTH, cursor, text, k))
  }

  /** There is no scrolling: what shows must be typed on the screen. */
  ghost predicate Fits(width: nat, height: nat, cursor: Word, text: seq<Key>) {
    && width >= GLYPH_WIDTH
    && forall k :: 0 <= k < |text| && text[k].Ink? ==>
         text[k].glyph.Valid() && OnScreen(width, height, TypedCell(width, cursor, text, k))
  }

  /** The buffer after typing the first `n` keys. */
  ghost function Typed(fb: seq<Pixel>, width: nat, height: nat, cursor: Word, text: seq<Key>, n: nat): (r: seq<Pixel>)
    requires Fits(width, height, cursor, text) && n <= |text|
    ensures |r| == |fb|
  {
    if n == 0 then fb
    else
      var before := Typed(fb, width, height, cursor, text, n - 1);
      if text[n - 1].Newline? then before
      else Put(before, width, TypedCell(width, cursor, text, n - 1), text[n - 1].glyph)
  }

  /** The console: a cursor over the cells of the frame buffer. */
  class Teletype {
    const fb: array<Pixel>
    const width: nat
    const height: nat
    var cursor: Word

    ghost predicate Valid() {
      fb.Length == width * height <= 0x1_0000_0000 && height <= 0x1_0000_0000 && width >= GLYPH_WIDTH
    }

    constructor (fb: array<Pixel>, width: nat, height: nat)
      requires fb.Length == width * height <= 0x1_0000_0000 && height <= 0x1_0000_0000 && width >= GLYPH_WIDTH
      ensures Valid() && this.fb == fb && this.width == width && this.height == height && cursor == 0
    {
      this.fb, this.width, this.height, cursor := fb, width, height, 0;
    }

    /** LlbVideoPutChar. */
    method PutChar(key: Key)
      requires Valid()
      requires key.Ink? ==> key.glyph.Valid() && OnScreen(width, height, CursorCell(width / GLYPH_WIDTH, cursor))
      modifies this`cursor, fb
      ensures cursor == Advance(width / GLYPH_WIDTH, old(cursor), key)
      ensures fb[..] == if key.Newline? then old(fb[..])
                        else Put(old(fb[..]), width, CursorCell(width / GLYPH_WIDTH, old(cursor)), key.glyph)
    {
      var perLine := width / GLYPH_WIDTH;
      if key.Newline? {
        cursor := (cursor + (perLine - cursor % perLine)) % 0x1_0000_0000;
      } else {
        DrawCell(fb, width, height, CursorCell(perLine, cursor), key.glyph);
        cursor := (cursor + 1) % 0x1_0000_0000;
      }
    }

    /** Any text, one character after another. */
    method Type(text: seq<Key>)
      requires Valid() && Fits(width, height, cursor, text)
      modifies this`cursor, fb
      ensures cursor == CursorAfter(width / GLYPH_WIDTH, old(cursor), text, |text|)
      ensures fb[..] == Typed(old(fb[..]), width, height, old(cursor), text, |text|)
    {
      ghost var was, first := fb[..], cursor;
      for k := 0 to |text|
        invariant cursor == CursorAfter(width / GLYPH_WIDTH, first, text, k)
        invariant fb[..] == Typed(was, width, height, first, text, k)
      {
        PutChar(text[k]);
      }
    }
  }

  /** A newline leaves the cursor at the start of the following line, unless that line
      starts past 2^32; then it is back in the first line. */
  lemma NewlineStartsNextLine(perLine: nat, cursor: Word)
    requires 0 < perLine < 0x1_0000_0000
    ensures var next := perLine * (cursor / perLine + 1);
            CursorCell(perLine, Advance(perLine, cursor, Newline))
            == if next < 0x1_0000_0000 then Cell(0, cursor / perLine + 1) else Cell(next - 0x1_0000_0000, 0)
  {
    var q, next := cursor / perLine, perLine * (cursor / perLine + 1);
    assert cursor == perLine * q + cursor % perLine;
    MulAdd(perLine, q, 1);
    if next < 0x1_0000_0000 {
      EuclidUnique(next, perLine, q + 1, 0);
    } else {
      EuclidUnique(next - 0x1_0000_0000, perLine, 0, next - 0x1_0000_0000);
    }
  }

  /** Key `k` shows in the cell `c` when it is typed. */
  ghost predicate LandsIn(width: nat, cursor: Word, text: seq<Key>, k: nat, c: Cell) {
    width >= GLYPH_WIDTH && k < |text| && text[k].Ink? && TypedCell(width, cursor, text, k) == c
  }

  /** Of the first `n` keys it is the last to do so. */
  ghost predicate LandsLast(width: nat, cursor: Word, text: seq<Key>, n: nat, k: nat, c: Cell) {
    k < n && LandsIn(width, cursor, text, k, c) && NoneLand(width, cursor, text, k + 1, n, c)
  }

  ghost predicate NoneLand(width: nat, cursor: Word, text: seq<Key>, k: nat, n: nat, c: Cell) {
    forall l :: k <= l < n ==> !LandsIn(width, cursor, text, l, c)
  }

  /** The last of the first `n` keys to show in the cell `c`. */
  ghost function LastTyped(width: nat, cursor: Word, text: seq<Key>, n: nat, c: Cell): (r: Option<nat>)
    requires n <= |text|
    ensures r.Some? ==> r.value < n && LandsIn(width, cursor, text, r.value, c)
  {
    if n == 0 then None
    else if LandsIn(width, cursor, text, n - 1, c) then Some(n - 1)
    else LastTyped(width, cursor, text, n - 1, c)
  }

  lemma {:induction false} LastTypedIs(width: nat, cursor: Word, text: seq<Key>, n: nat, c: Cell)
    requires n <= |text|
    ensures match LastTyped(width, cursor, text, n, c)
            case Some(k) => LandsLast(width, cursor, text, n, k, c)
            case None => NoneLand(width, cursor, text, 0, n, c)
  {
    if n > 0 { LastTypedIs(width, cursor, text, n - 1, c); }
  }

  /** One key changes a pixel exactly when it shows in the pixel's cell. */
  lemma TypedStep(fb: seq<Pixel>, width: nat, height: nat, cursor: Word, text: seq<Key>, n: nat, i: nat, c: Cell)
    requires Fits(width, height, cursor, text) && n < |text| && i < |fb| && CellOf(width, i) == c
    ensures Typed(fb, width, height, cursor, text, n + 1)[i]
         == if LandsIn(width, cursor, text, n, c) then PixelOf(text[n].glyph, width, i)
            else Typed(fb, width, height, cursor, text, n)[i]
  {
  }

  /** What typing leaves of a pixel `first` at `i` in cell `c`. */
  ghost function LastPixel(first: Pixel, width: nat, height: nat, cursor: Word, text: seq<Key>,
                           n: nat, i: nat, c: Cell): Pixel
    requires Fits(width, height, cursor, text) && n <= |text|
  {
    match LastTyped(width, cursor, text, n, c)
    case Some(k) => PixelOf(text[k].glyph, width, i)
    case None => first
  }

  /** Text, newlines and all, shows where it is typed: each pixel shows the last character
      typed in its cell, at the place the characters before it moved the cursor to; every
      other cell and the margins are unchanged. */
  lemma {:induction false} TypedTextShows(fb: seq<Pixel>, width: nat, height: nat, cursor: Word,
                                          text: seq<Key>, n: nat, i: nat, c: Cell)
    requires Fits(width, height, cursor, text) && n <= |text| && i < |fb| && CellOf(width, i) == c
    ensures Typed(fb, width, height, cursor, text, n)[i] == LastPixel(fb[i], width, height, cursor, text, n, i, c)
    ensures !OnScreen(width, height, c) ==> Typed(fb, width, height, cursor, text, n)[i] == fb[i]
  {
    TypedIsLast(fb, width, height, cursor, text, n, i, c);
    if !OnScreen(width, height, c) { MarginStays(fb[i], width, height, cursor, text, n, i, c); }
  }

  lemma {:induction false} TypedIsLast(fb: seq<Pixel>, width: nat, height: nat, cursor: Word,
                                       text: seq<Key>, n: nat, i: nat, c: Cell)
    requires Fits(width, height, cursor, text) && n <= |text| && i < |fb| && CellOf(width, i) == c
    ensures Typed(fb, width, height, cursor, text, n)[i] == LastPixel(fb[i], width, height, cursor, text, n, i, c)
    decreases n
  {
    if n > 0 {
      TypedIsLast(fb, width, height, cursor, text, n - 1, i, c);
      TypedStep(fb, width, height, cursor, text, n - 1, i, c);
      LastPixelStep(fb[i], width, height, cursor, text, n - 1, i, c);
    }
  }

  lemma {:induction false} MarginStays(first: Pixel, width: nat, height: nat, cursor: Word, text: seq<Key>,
                                       n: nat, i: nat, c: Cell)
    requires Fits(width, height, cursor, text) && n <= |text| && !OnScreen(width, height, c)
    ensures LastPixel(first, width, height, cursor, text, n, i, c) == first
  {
  }

  lemma LastPixelStep(first: Pixel, width: nat, height: nat, cursor: Word, text: seq<Key>, n: nat, i: nat, c: Cell)
    requires Fits(width, height, cursor, text) && n < |text|
    ensures LastPixel(first, width, height, cursor, text, n + 1, i, c)
         == if LandsIn(width, cursor, text, n, c) then PixelOf(text[n].glyph, width, i)
            else LastPixel(first, width, height, cursor, text, n, i, c)
  {
  }

  // ----- Text without newlines

  /** The position of a cell in reading order. */
  function ReadingOrder(perLine: nat, c: Cell): nat {
    perLine * c.y + c.x
  }

  lemma CursorOfCell(perLine: nat, cursor: Word, c: Cell)
    requires perLine > 0
    ensures CursorCell(perLine, cursor) == c <==> c.x < perLine && ReadingOrder(perLine, c) == cursor
  {
    assert cursor == perLine * (cursor / perLine) + cursor % perLine;
    if c.x < perLine && ReadingOrder(perLine, c) == cursor {
      EuclidUnique(cursor, perLine, c.y, c.x);
    }
  }

  /** A cursor on a screen is not the last of its 32 bits. */
  lemma OnScreenBelowLimit(width: nat, height: nat, cursor: Word)
    requires width >= GLYPH_WIDTH && width * height <= 0x1_0000_0000
    requires OnScreen(width, height, CursorCell(width / GLYPH_WIDTH, cursor))
    ensures cursor + 1 < 0x1_0000_0000
  {
    var perLine := width / GLYPH_WIDTH;
    var c := CursorCell(perLine, cursor);
    CursorOfCell(perLine, cursor, c);
    PixelOfCell(width, height, c, 1, 0);
    RowsScale(perLine, width, c.y);
  }

  lemma RowsScale(perLine: nat, width: nat, y: nat)
    requires perLine <= width
    ensures perLine * y <= width * (y * FONT_HEIGHT)
  {
    MulMonotone(perLine, width, y);
    MulMonotone(y, y * FONT_HEIGHT, width);
  }

  lemma MulMonotone(a: nat, b: nat, c: nat)
    requires a <= b
    ensures a * c <= b * c
  {
  }

  lemma InkBelowLimit(width: nat, height: nat, cursor: Word, text: seq<Key>, k: nat)
    requires Fits(width, height, cursor, text) && width * height <= 0x1_0000_0000
    requires k < |text| && text[k].Ink?
    ensures CursorAfter(width / GLYPH_WIDTH, cursor, text, k) + 1 < 0x1_0000_0000
  {
    assert OnScreen(width, height, TypedCell(width, cursor, text, k));
    OnScreenBelowLimit(width, height, CursorAfter(width / GLYPH_WIDTH, cursor, text, k));
  }

  lemma AdvanceByOne(perLine: nat, cursor: Word, key: Key)
    requires perLine > 0 && key.Ink? && cursor + 1 < 0x1_0000_0000
    ensures Advance(perLine, cursor, key) == cursor + 1
  {
  }

  /** Text without newlines. */
  ghost predicate Plain(text: seq<Key>) {
    forall j :: 0 <= j < |text| ==> text[j].Ink?
  }

  lemma {:induction false} PlainCursor(width: nat, height: nat, cursor: Word, text: seq<Key>, k: nat)
    requires Fits(width, height, cursor, text) && width * height <= 0x1_0000_0000 && Plain(text) && k <= |text|
    ensures CursorAfter(width / GLYPH_WIDTH, cursor, text, k) == cursor + k
    decreases k
  {
    if k > 0 {
      PlainCursor(width, height, cursor, text, k - 1);
      InkBelowLimit(width, height, cursor, text, k - 1);
      AdvanceByOne(width / GLYPH_WIDTH, cursor + (k - 1), text[k - 1]);
    }
  }

  lemma PlainLands(width: nat, height: nat, cursor: Word, text: seq<Key>, k: nat, c: Cell)
    requires Fits(width, height, cursor, text) && width * height <= 0x1_0000_0000 && Plain(text) && k < |text|
    ensures LandsIn(width, cursor, text, k, c)
       <==> c.x < width / GLYPH_WIDTH && ReadingOrder(width / GLYPH_WIDTH, c) == cursor + k
  {
    PlainCursor(width, height, cursor, text, k);
    CursorOfCell(width / GLYPH_WIDTH, CursorAfter(width / GLYPH_WIDTH, cursor, text, k), c);
  }

  lemma {:induction false} PlainSome(width: nat, height: nat, cursor: Word, text: seq<Key>, c: Cell, k: nat)
    requires Fits(width, height, cursor, text) && width * height <= 0x1_0000_0000 && Plain(text) && k < |text|
    requires c.x < width / GLYPH_WIDTH && ReadingOrder(width / GLYPH_WIDTH, c) == cursor + k
    ensures LastTyped(width, cursor, text, |text|, c) == Some(k)
  {
    PlainLands(width, height, cursor, text, k, c);
    LastTypedIs(width, cursor, text, |text|, c);
    PlainFound(width, height, cursor, text, c);
  }

  lemma {:induction false} PlainFound(width: nat, height: nat, cursor: Word, text: seq<Key>, c: Cell)
    requires Fits(width, height, cursor, text) && width * height <= 0x1_0000_0000 && Plain(text)
    ensures var last := LastTyped(width, cursor, text, |text|, c);
            last.Some? ==> c.x < width / GLYPH_WIDTH && ReadingOrder(width / GLYPH_WIDTH, c) == cursor + last.value
  {
    var last := LastTyped(width, cursor, text, |text|, c);
    if last.Some? { PlainLands(width, height, cursor, text, last.value, c); }
  }

  lemma {:induction false} PlainLast(width: nat, height: nat, cursor: Word, text: seq<Key>, c: Cell)
    requires Fits(width, height, cursor, text) && width * height <= 0x1_0000_0000 && Plain(text)
    ensures var k := ReadingOrder(width / GLYPH_WIDTH, c) - cursor;
            LastTyped(width, cursor, text, |text|, c)
            == if c.x < width / GLYPH_WIDTH && 0 <= k < |text| then Some(k) else None
  {
    var k := ReadingOrder(width / GLYPH_WIDTH, c) - cursor;
    if c.x < width / GLYPH_WIDTH && 0 <= k < |text| {
      PlainSome(width, height, cursor, text, c, k);
    } else {
      PlainFound(width, height, cursor, text, c);
    }
  }

  /** Text without newlines reads off the screen in order: the character `k` places on
      shows in the cell `k` places on, wrapping at the end of a line, and nothing else
      changes. */
  lemma {:induction false} PlainTextShows(fb: seq<Pixel>, width: nat, height: nat, cursor: Word,
                                          text: seq<Key>, i: nat, c: Cell)
    requires Fits(width, height, cursor, text) && width * height <= 0x1_0000_0000 && Plain(text)
    requires i < |fb| && CellOf(width, i) == c
    ensures var k := ReadingOrder(width / GLYPH_WIDTH, c) - cursor;
            Typed(fb, width, height, cursor, text, |text|)[i]
            == if c.x < width / GLYPH_WIDTH && 0 <= k < |text| then PixelOf(text[k].glyph, width, i) else fb[i]
  {
    PlainLast(width, height, cursor, text, c);
    TypedTextShows(fb, width, height, cursor, text, |text|, i, c);
  }
}
