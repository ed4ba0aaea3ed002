/** The half-block renderer, `image_to_halfblock`: every output cell stands for two
    vertically stacked pixels of the resized image, drawn with an upper or lower half
    block whose foreground and background colours paint the two halves.

    The resized image is an input here: a grid of RGBA pixels, `width` wide and
    `2 * height` tall, as the image library hands it back. */
module HalfBlock {
  import opened Wrappers
  import opened Strings
  import opened Color
  import opened Ansi
  import opened Sgr

  /** One pixel of the resized image. */
  datatype Rgba = Rgba(r: int, g: int, b: int, a: int)

  predicate ValidRgba(p: Rgba) {
    IsChannel(p.r) && IsChannel(p.g) && IsChannel(p.b) && IsChannel(p.a)
  }

  /** A pixel whose alpha is at most this is treated as transparent. */
  const AlphaThreshold: int := 30

  predicate Visible(p: Rgba) {
    p.a > AlphaThreshold
  }

  function ColourOf(p: Rgba): Rgb {
    Rgb(p.r, p.g, p.b)
  }

  /** `▀`, whose foreground paints the top half of the cell. */
  const UpperHalf: char := '\U{2580}'

  /** `▄`, whose foreground paints the bottom half of the cell. */
  const LowerHalf: char := '\U{2584}'

  /** One output cell: a glyph, an optional foreground and a background. A cell without
      a foreground is written with the background-only run. */
  datatype Cell = Cell(glyph: char, fg: Option<Rgb>, bg: Rgb)

  /** The three glyphs a cell is drawn with. */
  predicate IsGlyph(ch: char) {
    ch == ' ' || ch == UpperHalf || ch == LowerHalf
  }

  /** The colours a terminal paints in the top and the bottom half of a cell. */
  function Appearance(c: Cell): (Rgb, Rgb) {
    var ink := c.fg.GetOr(c.bg);
    if c.glyph == UpperHalf then (ink, c.bg)
    else if c.glyph == LowerHalf then (c.bg, ink)
    else (c.bg, c.bg)
  }

  /** The colour one pixel should show: its ramp colour, or the theme background when
      it is transparent. */
  function Shade(ramp: Ramp, p: Rgba): Rgb {
    if Visible(p) then GetColor(ramp, Brightness(ColourOf(p))) else ThemeBackground
  }

  /** The body of the inner loop: the four visibility cases of a (top, bottom) pair. */
  function EncodeCell(ramp: Ramp, top: Rgba, bottom: Rgba): (c: Cell)
    ensures Appearance(c) == (Shade(ramp, top), Shade(ramp, bottom))
    ensures IsGlyph(c.glyph)
    ensures c.glyph == ' ' <==> !Visible(top) && !Visible(bottom)
    ensures c.glyph == UpperHalf <==> Visible(top)
    ensures c.glyph == LowerHalf <==> !Visible(top) && Visible(bottom)
    ensures c.fg.None? <==> c.glyph == ' '
    ensures !(Visible(top) && Visible(bottom)) ==> c.bg == ThemeBackground
  {
    if !Visible(top) && !Visible(bottom) then Cell(' ', None, ThemeBackground)
    else
      var topBrightness := if Visible(top) then Brightness(ColourOf(top)) else 0.0;
      var bottomBrightness := if Visible(bottom) then Brightness(ColourOf(bottom)) else 0.0;
      if Visible(top) && Visible(bottom) then
        Cell(UpperHalf, Some(GetColor(ramp, topBrightness)), GetColor(ramp, bottomBrightness))
      else if Visible(top) then
        Cell(UpperHalf, Some(GetColor(ramp, topBrightness)), ThemeBackground)
      else
        Cell(LowerHalf, Some(GetColor(ramp, bottomBrightness)), ThemeBackground)
  }

  // ---------------------------------------------------------------------------
  // Writing a cell, and reading it back
  // ---------------------------------------------------------------------------

  /** The run written before a cell's glyph. */
  function CellRun(c: Cell): (s: string)
    ensures IsRun(s)
  {
    match c.fg
    case Some(fg) => FgBgParams(fg, c.bg); FgBg(fg, c.bg)
    case None => RunOfParams([48, 2, c.bg.r, c.bg.g, c.bg.b]); BgOnly(c.bg)
  }

  /** The text one iteration appends to the line. */
  function CellText(c: Cell): string {
    CellRun(c) + [c.glyph]
  }

  /** The parser's view of a written cell. */
  function CellPair(c: Cell): Pair {
    Pair(CellRun(c), c.glyph)
  }

  /** Reads a cell back from a tagged character: the colours from the run's parameters. */
  function DecodeCell(p: Pair): Option<Cell> {
    match SgrParams(p.prefix)
    case None => None
    case Some(xs) =>
      if |xs| == 10 && xs[0] == 38 && xs[1] == 2 && xs[5] == 48 && xs[6] == 2 then
        Some(Cell(p.ch, Some(Rgb(xs[2], xs[3], xs[4])), Rgb(xs[7], xs[8], xs[9])))
      else if |xs| == 5 && xs[0] == 48 && xs[1] == 2 then
        Some(Cell(p.ch, None, Rgb(xs[2], xs[3], xs[4])))
      else None
  }

  /** A written cell reads back as itself, so the terminal paints its appearance. */
  lemma DecodeCellPair(c: Cell)
    ensures DecodeCell(CellPair(c)) == Some(c)
  {
    match c.fg
    case Some(fg) => FgBgParams(fg, c.bg);
    case None => RunOfParams([48, 2, c.bg.r, c.bg.g, c.bg.b]);
  }

  lemma FgBgParams(fg: Rgb, bg: Rgb)
    ensures IsRun(FgBg(fg, bg))
    ensures SgrParams(FgBg(fg, bg)) == Some([38, 2, fg.r, fg.g, fg.b, 48, 2, bg.r, bg.g, bg.b])
  {
    RunOfParams([38, 2, fg.r, fg.g, fg.b, 48, 2, bg.r, bg.g, bg.b]);
  }

  // ---------------------------------------------------------------------------
  // image_to_halfblock
  // ---------------------------------------------------------------------------

  /** The resized image: rows of pixels. */
  type Grid = seq<seq<Rgba>>

  /** The image is `width` pixels wide and `2 * height` pixels tall. */
  predicate Shaped(img: Grid, width: nat, height: nat) {
    |img| == 2 * height && forall y :: 0 <= y < |img| ==> |img[y]| == width
  }

  /** The cell at column `col` of cell row `row`, read from pixel rows `2 * row` and
      `2 * row + 1`; `image_to_halfblock` falls back to a transparent bottom pixel past
      the last pixel row, which a shaped image never reaches. */
  function CellAt(img: Grid, ramp: Ramp, width: nat, height: nat, col: nat, row: nat): (c: Cell)
    requires Shaped(img, width, height) && col < width && row < height
    ensures c == EncodeCell(ramp, img[2 * row][col], img[2 * row + 1][col])
  {
    var top := img[2 * row][col];
    var bottom := if 2 * row + 1 < 2 * height then img[2 * row + 1][col] else Rgba(0, 0, 0, 0);
    EncodeCell(ramp, top, bottom)
  }

  /** The cells of one output row. */
  function RowCells(img: Grid, ramp: Ramp, width: nat, height: nat, row: nat): seq<Cell>
    requires Shaped(img, width, height) && row < height
  {
    seq(width, col requires 0 <= col < width => CellAt(img, ramp, width, height, col, row))
  }

  /** The cells of every output row. */
  function CellGrid(img: Grid, ramp: Ramp, width: nat, height: nat): seq<seq<Cell>>
    requires Shaped(img, width, height)
  {
    seq(height, row requires 0 <= row < height => RowCells(img, ramp, width, height, row))
  }

  /** The cells' texts, appended left to right. */
  function CellsText(cs: seq<Cell>): string {
    if |cs| == 0 then [] else CellsText(cs[..|cs| - 1]) + CellText(cs[|cs| - 1])
  }

  /** The parser's view of a row of cells. */
  function CellPairs(cs: seq<Cell>): (ps: seq<Pair>)
    ensures |ps| == |cs|
    ensures (forall i :: 0 <= i < |cs| ==> IsGlyph(cs[i].glyph)) ==> Tagged(ps)
  {
    seq(|cs|, i requires 0 <= i < |cs| => CellPair(cs[i]))
  }

  /** The cells' text is the re-joined list of their pairs. */
  lemma {:induction false} CellsTextRejoins(cs: seq<Cell>)
    ensures CellsText(cs) == Rejoin(CellPairs(cs))
    decreases |cs|
  {
    if |cs| > 0 {
      var n := |cs|;
      var last := cs[n - 1];
      CellsTextRejoins(cs[..n - 1]);
      CellPairsSnoc(cs);
      Assoc(CellsText(cs[..n - 1]), CellRun(last), [last.glyph]);
    }
  }

  /** The pairs of a row's front are the front of its pairs. */
  lemma CellPairsSnoc(cs: seq<Cell>)
    requires |cs| > 0
    ensures CellPairs(cs)[..|cs| - 1] == CellPairs(cs[..|cs| - 1])
    ensures CellPairs(cs)[|cs| - 1] == CellPair(cs[|cs| - 1])
  {
  }

  /** A finished line reads back as exactly one tagged glyph per cell. */
  lemma RowReadsBack(cs: seq<Cell>)
    requires forall i :: 0 <= i < |cs| ==> IsGlyph(cs[i].glyph)
    ensures VisibleChars(CellsText(cs) + Reset()) == CellPairs(cs)
  {
    CellsTextRejoins(cs);
    RejoinThenRun(CellPairs(cs), Reset());
  }

  /** The inner loop of `image_to_halfblock`: the texts of one row's cells. */
  method EncodeRow(img: Grid, width: nat, height: nat, ramp: Ramp, row: nat) returns (line: string)
    requires Shaped(img, width, height) && row < height
    ensures line == CellsText(CellGrid(img, ramp, width, height)[row])
  {
    ghost var cells := RowCells(img, ramp, width, height, row);
    line := "";
    var col := 0;
    while col < width
      invariant 0 <= col <= width
      invariant line == CellsText(cells[..col])
    {
      var top := img[2 * row][col];
      var bottom := if 2 * row + 1 < 2 * height then img[2 * row + 1][col] else Rgba(0, 0, 0, 0);
      var cell := EncodeCell(ramp, top, bottom);
      assert cell == cells[col];
      CellsTextSnoc(cells, col);
      line := line + CellText(cell);
      col := col + 1;
    }
    assert cells[..width] == cells;
  }

  lemma CellsTextSnoc(cs: seq<Cell>, k: nat)
    requires k < |cs|
    ensures CellsText(cs[..k + 1]) == CellsText(cs[..k]) + CellText(cs[k])
  {
    assert cs[..k + 1][..k] == cs[..k];
  }

  /** A finished output line: it ends with the reset run and reads back as one tagged
      glyph per cell. */
  predicate DrawsRow(line: string, cells: seq<Cell>) {
    && |line| >= |Reset()|
    && line[|line| - |Reset()|..] == Reset()
    && VisibleChars(line) == CellPairs(cells)
  }

  lemma FinishRow(line: string, cells: seq<Cell>)
    requires line == CellsText(cells)
    requires forall i :: 0 <= i < |cells| ==> IsGlyph(cells[i].glyph)
    ensures DrawsRow(line + Reset(), cells)
  {
    var full := line + Reset();
    RowReadsBack(cells);
    assert full[|full| - |Reset()|..] == Reset();
  }

  /** `image_to_halfblock` after the resize: one line per cell row, each the cells'
      texts followed by the reset run, so that every line reads back as exactly one
      tagged glyph per pixel column. */
  method ImageToHalfblock(img: Grid, width: nat, height: nat, ramp: Ramp) returns (rows: seq<string>)
    requires Shaped(img, width, height)
    ensures |rows| == height
    ensures forall row :: 0 <= row < height ==> DrawsRow(rows[row], CellGrid(img, ramp, width, height)[row])
  {
    ghost var grid := CellGrid(img, ramp, width, height);
    rows := [];
    var row := 0;
    while row < height
      invariant 0 <= row <= height
      invariant |rows| == row
      invariant forall y :: 0 <= y < row ==> DrawsRow(rows[y], grid[y])
    {
      var line := EncodeRow(img, width, height, ramp, row);
      RowGlyphs(img, width, height, ramp, row);
      FinishRow(line, grid[row]);
      AppendRow(rows, grid, line + Reset());
      rows := rows + [line + Reset()];
      row := row + 1;
    }
  }

  /** Every cell of an encoded row holds one of the three glyphs. */
  lemma RowGlyphs(img: Grid, width: nat, height: nat, ramp: Ramp, row: nat)
    requires Shaped(img, width, height) && row < height
    ensures var cells := CellGrid(img, ramp, width, height)[row];
      forall i :: 0 <= i < |cells| ==> IsGlyph(cells[i].glyph)
  {
  }

  /** Appending the next finished row keeps every row finished. */
  lemma AppendRow(rows: seq<string>, grid: seq<seq<Cell>>, line: string)
    requires |rows| < |grid|
    requires forall y :: 0 <= y < |rows| ==> DrawsRow(rows[y], grid[y])
    requires DrawsRow(line, grid[|rows|])
    ensures forall y :: 0 <= y <= |rows| ==> DrawsRow((rows + [line])[y], grid[y])
  {
    forall y | 0 <= y <= |rows| ensures DrawsRow((rows + [line])[y], grid[y]) {
      if y < |rows| {
        assert (rows + [line])[y] == rows[y];
      }
    }
  }

  // ---------------------------------------------------------------------------
  // Consequences
  // ---------------------------------------------------------------------------

  /** What a terminal shows for an encoded row: column `col` of cell row `row` reads
      back as a cell whose top half has the shade of pixel `(col, 2 * row)` and whose
      bottom half has the shade of pixel `(col, 2 * row + 1)`. */
  lemma PaintsPixels(img: Grid, width: nat, height: nat, ramp: Ramp, line: string, row: nat, col: nat)
    requires Shaped(img, width, height) && row < height && col < width
    requires DrawsRow(line, CellGrid(img, ramp, width, height)[row])
    ensures |VisibleChars(line)| == width
    ensures DecodeCell(VisibleChars(line)[col]).Some?
    ensures Appearance(DecodeCell(VisibleChars(line)[col]).value)
      == (Shade(ramp, img[2 * row][col]), Shade(ramp, img[2 * row + 1][col]))
  {
    var cells := CellGrid(img, ramp, width, height)[row];
    assert VisibleChars(line)[col] == CellPair(cells[col]);
    DecodeCellPair(cells[col]);
  }

  /** A fully transparent image draws only background-coloured spaces. */
  lemma TransparentImage(img: Grid, width: nat, height: nat, ramp: Ramp, line: string, row: nat)
    requires Shaped(img, width, height) && row < height
    requires forall y, x :: 0 <= y < |img| && 0 <= x < |img[y]| ==> !Visible(img[y][x])
    requires DrawsRow(line, CellGrid(img, ramp, width, height)[row])
    ensures VisibleChars(line) == Copies(Pair(BgAnsi(), ' '), width)
  {
    var cells := CellGrid(img, ramp, width, height)[row];
    forall col | 0 <= col < width ensures VisibleChars(line)[col] == Pair(BgAnsi(), ' ') {
      TransparentCell(ramp, img[2 * row][col], img[2 * row + 1][col]);
      assert cells[col] == EncodeCell(ramp, img[2 * row][col], img[2 * row + 1][col]);
    }
  }

  /** A transparent pixel pair gives a background-only space. */
  lemma TransparentCell(ramp: Ramp, top: Rgba, bottom: Rgba)
    requires !Visible(top) && !Visible(bottom)
    ensures EncodeCell(ramp, top, bottom) == Cell(' ', None, ThemeBackground)
    ensures CellPair(EncodeCell(ramp, top, bottom)) == Pair(BgAnsi(), ' ')
  {
    FixedRuns();
  }

  /** An opaque white pixel shows the ramp's bright colour, an opaque black one the
      dark colour. */
  lemma RampEnds(ramp: Ramp, p: Rgba)
    requires Visible(p)
    ensures ColourOf(p) == Rgb(255, 255, 255) ==> Shade(ramp, p) == ramp.bright
    ensures ColourOf(p) == Rgb(0, 0, 0) ==> Shade(ramp, p) == ramp.dark
  {
  }

  /** A visible pixel of valid colour shows a valid colour on a valid ramp. */
  lemma ShadeValid(ramp: Ramp, p: Rgba)
    requires ValidRamp(ramp) && ValidRgba(p)
    ensures ValidRgb(Shade(ramp, p))
  {
  }
}
