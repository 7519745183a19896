/** The framebuffer terminal of Kernel/util.h and Kernel/mstdio.h, and the grid of cells that it shows. */
module Screen {
  import opened Machine

  const WIDTH := 1024
  const PIXELS := 0xC0000
  const COPIED := 0xBA000
  const CLEARED := 0x6000
  const ROW_PIXELS := 0x4000
  const ROWS := 46
  const COLUMNS := 128
  const BLACK: uint32 := 0

  const NEWLINE: uint8 := 10
  const TAB: uint8 := 9

  /** The 4096 bytes of font memory that a character code can reach, from 16 bytes before the font on, 16 per glyph. */
  type Font = f: seq<bv8> | |f| == 4096 witness seq(4096, _ => 0)

  // ---------------------------------------------------------------- what is on the screen: pixels

  datatype Video = Video(pixels: seq<uint32>, x: uint16, y: uint16)

  ghost predicate Sized(v: Video) { |v.pixels| == PIXELS }

  /** One glyph pixel: bit 7 of a glyph row is its leftmost pixel. */
  function Ink(font: Font, c: uint8, row: nat, column: nat, fg: uint32, bg: uint32): uint32
    requires row < 16 && column < 8
  {
    if font[c * 16 + row] & (1 << (7 - column)) != 0 then fg else bg
  }

  /** Index of the top left pixel of the cursor's cell. */
  function Origin(x: uint16, y: uint16): nat { x * 8 + y * 16 * WIDTH }

  /** Pixel `p` is one of the 16 rows of 8 drawn from `origin`. */
  predicate InGlyph(origin: nat, p: nat) {
    origin <= p && (p - origin) % WIDTH < 8 && (p - origin) / WIDTH < 16
  }

  /** All glyph pixels are on the screen. */
  predicate CanDraw(x: uint16, y: uint16) {
    Origin(x, y) + 15 * WIDTH + 8 <= PIXELS
  }

  /** What PutC leaves: the glyph over the old pixels, and the cursor one column on. */
  ghost function PutCResult(font: Font, v: Video, c: uint8, fg: uint32, bg: uint32): (r: Video)
    ensures |r.pixels| == |v.pixels|
  {
    var origin := Origin(v.x, v.y);
    Video(
      seq(|v.pixels|, p requires 0 <= p < |v.pixels| =>
        if InGlyph(origin, p) then Ink(font, c, (p - origin) / WIDTH, (p - origin) % WIDTH, fg, bg) else v.pixels[p]),
      Wrap16(v.x + 1), v.y)
  }

  lemma PutCPixel(font: Font, v: Video, c: uint8, fg: uint32, bg: uint32, i: nat, j: nat)
    requires i < 16 && j < 8
    requires Origin(v.x, v.y) + i * WIDTH + j < |v.pixels|
    ensures PutCResult(font, v, c, fg, bg).pixels[Origin(v.x, v.y) + i * WIDTH + j] == Ink(font, c, i, j, fg, bg)
  {}

  /** Between two glyph rows, and below the last, the old pixels stay. */
  lemma PutCGap(font: Font, v: Video, c: uint8, fg: uint32, bg: uint32, i: nat)
    requires i < 16
    ensures forall p | Origin(v.x, v.y) + i * WIDTH + 8 <= p < |v.pixels|
        && (i == 15 || p < Origin(v.x, v.y) + (i + 1) * WIDTH) ::
      PutCResult(font, v, c, fg, bg).pixels[p] == v.pixels[p]
  {}

  /** Pixels read from left to right as binary digits, 1 where the pixel is `fg`. */
  function BinaryValue(pixels: seq<uint32>, fg: uint32): nat {
    if |pixels| == 0 then 0
    else 2 * BinaryValue(pixels[..|pixels| - 1], fg) + if pixels[|pixels| - 1] == fg then 1 else 0
  }

  lemma PrefixPixel(p: seq<uint32>, k: nat, fg: uint32)
    requires k < |p|
    ensures BinaryValue(p[..k + 1], fg) == 2 * BinaryValue(p[..k], fg) + if p[k] == fg then 1 else 0
  {
    assert p[..k + 1][..k] == p[..k];
  }

  /** Four more pixels shift the value by four binary digits. */
  lemma FourPixels(p: seq<uint32>, k: nat, fg: uint32)
    requires k + 4 <= |p|
    ensures BinaryValue(p[..k + 4], fg)
         == 16 * BinaryValue(p[..k], fg) + (if p[k] == fg then 8 else 0) + (if p[k + 1] == fg then 4 else 0)
          + (if p[k + 2] == fg then 2 else 0) + (if p[k + 3] == fg then 1 else 0)
  {
    hide *;
    PrefixPixel(p, k, fg);
    PrefixPixel(p, k + 1, fg);
    PrefixPixel(p, k + 2, fg);
    PrefixPixel(p, k + 3, fg);
  }

  lemma EightPixels(p: seq<uint32>, fg: uint32)
    requires |p| == 8
    ensures BinaryValue(p, fg)
         == (if p[0] == fg then 128 else 0) + (if p[1] == fg then 64 else 0) + (if p[2] == fg then 32 else 0)
          + (if p[3] == fg then 16 else 0) + (if p[4] == fg then 8 else 0) + (if p[5] == fg then 4 else 0)
          + (if p[6] == fg then 2 else 0) + (if p[7] == fg then 1 else 0)
  {
    assert p[..8] == p && BinaryValue(p[..0], fg) == 0;
    hide *;
    FourPixels(p, 0, fg);
    FourPixels(p, 4, fg);
  }

  lemma ByteValue(b: bv8)
    ensures b as int
         == (if b & 0x80 != 0 then 128 else 0) + (if b & 0x40 != 0 then 64 else 0) + (if b & 0x20 != 0 then 32 else 0)
          + (if b & 0x10 != 0 then 16 else 0) + (if b & 0x08 != 0 then 8 else 0) + (if b & 0x04 != 0 then 4 else 0)
          + (if b & 0x02 != 0 then 2 else 0) + (if b & 0x01 != 0 then 1 else 0)
  {}

  /** Eight pixels in the two colours of a glyph row. */
  lemma InkReads(font: Font, c: uint8, row: nat, fg: uint32, bg: uint32, p: seq<uint32>)
    requires row < 16 && fg != bg && |p| == 8
    requires forall j | 0 <= j < 8 :: p[j] == Ink(font, c, row, j, fg, bg)
    ensures BinaryValue(p, fg) == font[c * 16 + row] as int
    ensures forall j | 0 <= j < 8 :: p[j] == fg || p[j] == bg
  {
    EightPixels(p, fg);
    ByteValue(font[c * 16 + row]);
    hide BinaryValue;
  }

  /** Each drawn row of a glyph reads, left to right, as its byte of the font, and has the two colours only. */
  lemma GlyphReadsBack(font: Font, v: Video, c: uint8, fg: uint32, bg: uint32, row: nat)
    requires row < 16 && fg != bg
    requires v.x * 8 + (v.y * 16 + row) * 1024 + 8 <= |v.pixels|
    ensures var at := v.x * 8 + (v.y * 16 + row) * 1024;
      var drawn := PutCResult(font, v, c, fg, bg).pixels[at..at + 8];
      BinaryValue(drawn, fg) == font[c * 16 + row] as int && forall j | 0 <= j < 8 :: drawn[j] == fg || drawn[j] == bg
  {
    var at := v.x * 8 + (v.y * 16 + row) * 1024;
    var drawn := PutCResult(font, v, c, fg, bg).pixels[at..at + 8];
    assert at == Origin(v.x, v.y) + row * WIDTH;
    hide Ink, BinaryValue, PutCResult;
    forall j | 0 <= j < 8 ensures drawn[j] == Ink(font, c, row, j, fg, bg) {
      PutCPixel(font, v, c, fg, bg, row, j);
    }
    InkReads(font, c, row, fg, bg, drawn);
  }

  /** The scroll as a simultaneous shift: 16 pixel rows up, black below. */
  ghost function Shift(pixels: seq<uint32>): (r: seq<uint32>)
    requires |pixels| == PIXELS
  {
    seq(PIXELS, p requires 0 <= p < PIXELS => if p < COPIED then pixels[p + ROW_PIXELS] else BLACK)
  }

  ghost function UpdateResult(v: Video): (r: Video)
    requires Sized(v)
    ensures Sized(r)
  {
    if v.y >= ROWS then Video(Shift(v.pixels), 0, v.y - 1) else v
  }

  ghost function PrintResult(font: Font, v: Video, str: seq<uint8>, fg: uint32, bg: uint32): (r: Video)
    requires Sized(v)
    ensures Sized(r)
    decreases |str|
  {
    if |str| == 0 || str[0] == 0 then v
    else if str[0] == NEWLINE then PrintResult(font, UpdateResult(v.(x := 0, y := Wrap16(v.y + 1))), str[1..], fg, bg)
    else if str[0] == TAB then PrintResult(font, v.(x := Wrap16(v.x + 4)), str[1..], fg, bg)
    else PrintResult(font, PutCResult(font, v, str[0], fg, bg), str[1..], fg, bg)
  }

  /** Every glyph that the string draws is on the screen. */
  predicate Drawable(x: uint16, y: uint16, str: seq<uint8>)
    decreases |str|
  {
    if |str| == 0 || str[0] == 0 then true
    else if str[0] == NEWLINE then
      var next := Wrap16(y + 1);
      Drawable(0, if next >= ROWS then next - 1 else next, str[1..])
    else if str[0] == TAB then Drawable(Wrap16(x + 4), y, str[1..])
    else CanDraw(x, y) && Drawable(Wrap16(x + 1), y, str[1..])
  }

  ghost function ClearResult(): (r: Video)
    ensures Sized(r)
  {
    Video(seq(PIXELS, _ => BLACK), 0, 0)
  }

  // ---------------------------------------------------------------- what is meant: a grid of cells

  datatype Cell = Blank | Char(c: uint8, fg: uint32, bg: uint32)

  type Row = r: seq<Cell> | |r| == COLUMNS witness seq(COLUMNS, _ => Blank)

  type Grid = g: seq<Row> | |g| == ROWS witness seq(ROWS, _ => seq(COLUMNS, _ => Blank))

  datatype Text = Text(grid: Grid, x: uint16, y: uint16)

  function BlankRow(): Row { seq(COLUMNS, _ => Blank) }

  function Cleared(): Text { Text(seq(ROWS, _ => BlankRow()), 0, 0) }

  ghost predicate OnGrid(t: Text) { t.y < ROWS }

  /** A character in the cursor's cell. */
  function TypeChar(t: Text, c: uint8, fg: uint32, bg: uint32): Text
    requires t.x < COLUMNS && t.y < ROWS
  {
    var row: Row := t.grid[t.y][t.x := Char(c, fg, bg)];
    Text(t.grid[t.y := row], t.x + 1, t.y)
  }

  /** A new line; on the last row the grid moves up by one. */
  function NewLine(t: Text): Text
    requires t.y < ROWS
  {
    if t.y + 1 < ROWS then Text(t.grid, 0, t.y + 1) else Text(t.grid[1..] + [BlankRow()], 0, t.y)
  }

  /** The characters before the terminator fit their lines, starting in column `x`. */
  predicate Fits(x: uint16, str: seq<uint8>)
    decreases |str|
  {
    if |str| == 0 || str[0] == 0 then true
    else if str[0] == NEWLINE then Fits(0, str[1..])
    else if str[0] == TAB then Fits(Wrap16(x + 4), str[1..])
    else x < COLUMNS && Fits(x + 1, str[1..])
  }

  /** A string up to its terminator. */
  function TypeString(t: Text, str: seq<uint8>, fg: uint32, bg: uint32): (r: Text)
    requires t.y < ROWS && Fits(t.x, str)
    ensures r.y < ROWS
    decreases |str|
  {
    if |str| == 0 || str[0] == 0 then t
    else if str[0] == NEWLINE then TypeString(NewLine(t), str[1..], fg, bg)
    else if str[0] == TAB then TypeString(Text(t.grid, Wrap16(t.x + 4), t.y), str[1..], fg, bg)
    else TypeString(TypeChar(t, str[0], fg, bg), str[1..], fg, bg)
  }

  // ---------------------------------------------------------------- the screen shows the grid

  /** The pixel that the grid calls for; below the last text row the screen is black. */
  function Shown(font: Font, grid: Grid, p: nat): uint32
    requires p < PIXELS
  {
    var row, column := p / WIDTH, p % WIDTH;
    if row / 16 < ROWS then
      match grid[row / 16][column / 8] {
        case Blank => BLACK
        case Char(c, fg, bg) => Ink(font, c, row % 16, column % 8, fg, bg)
      }
    else BLACK
  }

  ghost predicate Shows(font: Font, v: Video, t: Text) {
    && Sized(v) && OnGrid(t)
    && v.x == t.x && v.y == t.y
    && forall p | 0 <= p < PIXELS :: v.pixels[p] == Shown(font, t.grid, p)
  }

  /** Drawing at the cursor covers exactly the cursor's cell while the cursor is left of column 128. */
  lemma GlyphCoversCell(x: uint16, y: uint16, p: nat)
    requires x < COLUMNS
    ensures InGlyph(Origin(x, y), p) <==> p / WIDTH / 16 == y && p % WIDTH / 8 == x
    ensures InGlyph(Origin(x, y), p) ==>
      (p - Origin(x, y)) / WIDTH == p / WIDTH % 16 && (p - Origin(x, y)) % WIDTH == p % WIDTH % 8
  {}

  /** Exactly then: from column 128 on the glyph lands in cell column `x % 128`, `x / 128` pixel rows lower. */
  lemma DrawsItsCellIff(x: uint16, y: uint16)
    ensures (forall p: nat :: InGlyph(Origin(x, y), p) <==> p / WIDTH / 16 == y && p % WIDTH / 8 == x) <==> x < COLUMNS
    ensures Origin(x, y) == (16 * y + x / COLUMNS) * WIDTH + x % COLUMNS * 8
  {
    if x < COLUMNS {
      forall p: nat ensures InGlyph(Origin(x, y), p) <==> p / WIDTH / 16 == y && p % WIDTH / 8 == x {
        GlyphCoversCell(x, y, p);
      }
    } else {
      assert InGlyph(Origin(x, y), Origin(x, y));
    }
  }

  lemma PutCShows(font: Font, v: Video, t: Text, c: uint8, fg: uint32, bg: uint32)
    requires Shows(font, v, t) && t.x < COLUMNS
    ensures Shows(font, PutCResult(font, v, c, fg, bg), TypeChar(t, c, fg, bg))
  {
    var v', t' := PutCResult(font, v, c, fg, bg), TypeChar(t, c, fg, bg);
    forall p | 0 <= p < PIXELS ensures v'.pixels[p] == Shown(font, t'.grid, p) {
      GlyphCoversCell(t.x, t.y, p);
    }
  }

  /** Scrolling the pixels moves the grid up by one row. */
  lemma NewLineShows(font: Font, v: Video, t: Text)
    requires Shows(font, v, t)
    ensures Shows(font, UpdateResult(v.(x := 0, y := Wrap16(v.y + 1))), NewLine(t))
  {}

  lemma {:induction false} PrintShows(font: Font, v: Video, t: Text, str: seq<uint8>, fg: uint32, bg: uint32)
    requires Shows(font, v, t) && Fits(t.x, str)
    ensures Shows(font, PrintResult(font, v, str, fg, bg), TypeString(t, str, fg, bg))
    ensures Drawable(t.x, t.y, str)
    decreases |str|
  {
    if |str| == 0 || str[0] == 0 {
    } else if str[0] == NEWLINE {
      NewLineShows(font, v, t);
      PrintShows(font, UpdateResult(v.(x := 0, y := Wrap16(v.y + 1))), NewLine(t), str[1..], fg, bg);
    } else if str[0] == TAB {
      var x := Wrap16(t.x + 4);
      PrintShows(font, v.(x := x), Text(t.grid, x, t.y), str[1..], fg, bg);
    } else {
      PutCShows(font, v, t, str[0], fg, bg);
      PrintShows(font, PutCResult(font, v, str[0], fg, bg), TypeChar(t, str[0], fg, bg), str[1..], fg, bg);
    }
  }

  // ---------------------------------------------------------------- whole runs

  datatype Call =
    | PutCall(c: uint8, fg: uint32, bg: uint32)
    | PrintCall(str: seq<uint8>, fg: uint32, bg: uint32)
    | ClearCall

  ghost function CallResult(font: Font, v: Video, call: Call): (r: Video)
    requires Sized(v)
    ensures Sized(r)
  {
    match call
    case PutCall(c, fg, bg) => PutCResult(font, v, c, fg, bg)
    case PrintCall(str, fg, bg) => PrintResult(font, v, str, fg, bg)
    case ClearCall => ClearResult()
  }

  /** The call draws nothing at or beyond column 128. */
  predicate CallFits(t: Text, call: Call) {
    match call
    case PutCall(_, _, _) => t.x < COLUMNS
    case PrintCall(str, _, _) => Fits(t.x, str)
    case ClearCall => true
  }

  function Meaning(t: Text, call: Call): (r: Text)
    requires t.y < ROWS && CallFits(t, call)
    ensures r.y < ROWS
  {
    match call
    case PutCall(c, fg, bg) => TypeChar(t, c, fg, bg)
    case PrintCall(str, fg, bg) => TypeString(t, str, fg, bg)
    case ClearCall => Cleared()
  }

  ghost function Run(font: Font, v: Video, calls: seq<Call>): (r: Video)
    requires Sized(v)
    ensures Sized(r)
    decreases |calls|
  {
    if |calls| == 0 then v else Run(font, CallResult(font, v, calls[0]), calls[1..])
  }

  predicate RunFits(t: Text, calls: seq<Call>)
    requires t.y < ROWS
    decreases |calls|
  {
    |calls| == 0 || (CallFits(t, calls[0]) && RunFits(Meaning(t, calls[0]), calls[1..]))
  }

  function RunMeaning(t: Text, calls: seq<Call>): (r: Text)
    requires t.y < ROWS && RunFits(t, calls)
    ensures r.y < ROWS
    decreases |calls|
  {
    if |calls| == 0 then t else RunMeaning(Meaning(t, calls[0]), calls[1..])
  }

  lemma CallShows(font: Font, v: Video, t: Text, call: Call)
    requires Shows(font, v, t) && CallFits(t, call)
    ensures Shows(font, CallResult(font, v, call), Meaning(t, call))
  {
    match call
    case PutCall(c, fg, bg) => PutCShows(font, v, t, c, fg, bg);
    case PrintCall(str, fg, bg) => PrintShows(font, v, t, str, fg, bg);
    case ClearCall =>
  }

  /** A cell that shows a character reads back as the character's glyph, row by row, 16 pixel rows by 8. */
  lemma CellReadsBack(font: Font, v: Video, t: Text, y: nat, x: nat, row: nat)
    requires Shows(font, v, t) && y < 46 && x < 128 && row < 16
    requires t.grid[y][x].Char? && t.grid[y][x].fg != t.grid[y][x].bg
    ensures var cell, at := t.grid[y][x], x * 8 + (y * 16 + row) * 1024;
      var shown := v.pixels[at..at + 8];
      && BinaryValue(shown, cell.fg) == font[cell.c * 16 + row] as int
      && forall j | 0 <= j < 8 :: shown[j] == cell.fg || shown[j] == cell.bg
  {
    var cell, at := t.grid[y][x], x * 8 + (y * 16 + row) * 1024;
    var shown := v.pixels[at..at + 8];
    hide Ink, BinaryValue, Shown;
    forall j | 0 <= j < 8 ensures shown[j] == Ink(font, cell.c, row, j, cell.fg, cell.bg) {
      CellInk(font, t.grid, y, x, row, j);
    }
    hide Shows;
    InkReads(font, cell.c, row, cell.fg, cell.bg, shown);
  }

  lemma CellInk(font: Font, grid: Grid, y: nat, x: nat, row: nat, j: nat)
    requires y < 46 && x < 128 && row < 16 && j < 8 && grid[y][x].Char?
    ensures var p := x * 8 + (y * 16 + row) * 1024 + j;
      p < PIXELS && Shown(font, grid, p) == Ink(font, grid[y][x].c, row, j, grid[y][x].fg, grid[y][x].bg)
  {
    CellPixel(y, x, row, j);
    hide Ink;
  }

  lemma CellPixel(y: nat, x: nat, row: nat, j: nat)
    requires y < 46 && x < 128 && row < 16 && j < 8
    ensures var p := x * 8 + (y * 16 + row) * 1024 + j;
      p < 786432 && p / WIDTH == y * 16 + row && p % WIDTH == x * 8 + j
      && (y * 16 + row) / 16 == y && (y * 16 + row) % 16 == row && (x * 8 + j) / 8 == x && (x * 8 + j) % 8 == j
  {}

  /** After any run of calls the pixels are the rendering of the grid, and rows 736 to 767 are black. */
  lemma {:induction false} RunShows(font: Font, v: Video, t: Text, calls: seq<Call>)
    requires Shows(font, v, t) && RunFits(t, calls)
    ensures Shows(font, Run(font, v, calls), RunMeaning(t, calls))
    ensures forall p | ROWS * ROW_PIXELS <= p < PIXELS :: Run(font, v, calls).pixels[p] == BLACK
    decreases |calls|
  {
    if |calls| > 0 {
      CallShows(font, v, t, calls[0]);
      RunShows(font, CallResult(font, v, calls[0]), Meaning(t, calls[0]), calls[1..]);
    } else {
      assert forall p | ROWS * ROW_PIXELS <= p < PIXELS :: v.pixels[p] == Shown(font, t.grid, p);
    }
  }

  /** The numbers of the terminal: 46 lines of 16 pixel rows, a newline, a tab of 4 columns, black. */
  lemma TypedControls(t: Text, fg: uint32, bg: uint32)
    requires t.y < 46
    ensures TypeString(t, [10], fg, bg) == NewLine(t) && TypeString(t, [0, 65], fg, bg) == t
    ensures TypeString(t, [9], fg, bg) == Text(t.grid, (t.x + 4) % 65536, t.y)
    ensures t.y == 45 ==> NewLine(t) == Text(t.grid[1..] + [BlankRow()], 0, 45)
    ensures t.y < 45 ==> NewLine(t) == Text(t.grid, 0, t.y + 1)
  {
    WrapIsRemainder(t.x + 4);
    assert [10][1..] == [] && [9][1..] == [];
  }

  /** The scroll over the numbers: 1024 pixels to each of 768 rows, up by 16 rows, the last 24 rows black. */
  lemma ScrolledPixel(v: Video, p: nat)
    requires Sized(v) && v.y >= 46 && p < 768 * 1024
    ensures UpdateResult(v).pixels[p] == (if p < 744 * 1024 then v.pixels[p + 16 * 1024] else 0)
    ensures UpdateResult(v).x == 0 && UpdateResult(v).y == v.y - 1
  {}

  /** A cleared screen shows the empty grid, whatever the font. */
  lemma ClearedShows(font: Font)
    ensures Shows(font, ClearResult(), Cleared())
  {}

  // ---------------------------------------------------------------- the code

  class Terminal {
    const font: Font
    const fb: array<uint32>
    var cursorX: uint16
    var cursorY: uint16

    constructor (font: Font, fb: array<uint32>)
      ensures this.font == font && this.fb == fb && cursorX == 0 && cursorY == 0
    {
      this.font := font;
      this.fb := fb;
      cursorX := 0;
      cursorY := 0;
    }

    ghost function View(): Video
      reads this, fb
    {
      Video(fb[..], cursorX, cursorY)
    }

    method UpdateScreen()
      requires fb.Length == PIXELS
      modifies this, fb
      ensures View() == UpdateResult(old(View()))
    {
      if cursorY >= ROWS {
        var ss, ss2 := 0, 1024 * 16;
        for p := 0 to COPIED
          modifies fb
          invariant ss == p && ss2 == p + ROW_PIXELS
          invariant forall q | 0 <= q < p :: fb[q] == old(fb[q + ROW_PIXELS])
          invariant forall q | p <= q < PIXELS :: fb[q] == old(fb[q])
        {
          fb[ss] := fb[ss2];
          ss, ss2 := ss + 1, ss2 + 1;
        }
        for p := 0 to CLEARED
          modifies fb
          invariant ss == COPIED + p
          invariant forall q | 0 <= q < COPIED :: fb[q] == old(fb[q + ROW_PIXELS])
          invariant forall q | COPIED <= q < ss :: fb[q] == BLACK
        {
          fb[ss] := BLACK;
          ss := ss + 1;
        }
        cursorX := 0;
        cursorY := cursorY - 1;
      }
    }

    method ClearScreen()
      requires fb.Length == PIXELS
      modifies this, fb
      ensures View() == ClearResult()
    {
      for i := 0 to PIXELS
        modifies fb
        invariant forall q | 0 <= q < i :: fb[q] == BLACK
      {
        fb[i] := BLACK;
      }
      cursorX := 0;
      cursorY := 0;
    }

    method PutC(c: uint8, color1: uint32, color2: uint32)
      requires fb.Length == PIXELS
      requires CanDraw(cursorX, cursorY)
      modifies this, fb
      ensures View() == PutCResult(font, old(View()), c, color1, color2)
      ensures cursorX == (old(cursorX) + 1) % 65536 && cursorY == old(cursorY)
    {
      ghost var result := PutCResult(font, View(), c, color1, color2).pixels;
      ghost var origin := Origin(cursorX, cursorY);
      var at := cursorX * 8 + cursorY * 16 * WIDTH;
      for i := 0 to 16
        modifies fb
        invariant at == origin + i * WIDTH
        invariant forall p | 0 <= p < PIXELS :: fb[p] == if p < at then result[p] else old(fb[p])
      {
        var b := 7;
        while b >= 0
          invariant -1 <= b <= 7
          invariant at == origin + i * WIDTH + (7 - b)
          invariant forall p | 0 <= p < PIXELS :: fb[p] == if p < at then result[p] else old(fb[p])
        {
          PutCPixel(font, old(View()), c, color1, color2, i, 7 - b);
          fb[at] := if font[c * 16 + i] & (1 << b) != 0 then color1 else color2;
          at := at + 1;
          b := b - 1;
        }
        PutCGap(font, old(View()), c, color1, color2, i);
        at := at + (WIDTH - 8);
      }
      PutCGap(font, old(View()), c, color1, color2, 15);
      assert fb[..] == result;
      cursorX := Wrap16(cursorX + 1);
    }

    method Print(str: seq<uint8>, fg: uint32, bg: uint32)
      requires fb.Length == PIXELS
      requires 0 in str
      requires Drawable(cursorX, cursorY, str)
      modifies this, fb
      ensures View() == PrintResult(font, old(View()), str, fg, bg)
    {
      var k := 0;
      while str[k] != 0
        invariant 0 <= k < |str| && 0 in str[k..]
        invariant Drawable(cursorX, cursorY, str[k..])
        invariant PrintResult(font, View(), str[k..], fg, bg) == PrintResult(font, old(View()), str, fg, bg)
        decreases |str| - k
      {
        assert str[k..][1..] == str[k + 1..];
        if str[k] == NEWLINE {
          cursorY := Wrap16(cursorY + 1);
          cursorX := 0;
          k := k + 1;
          UpdateScreen();
        } else if str[k] == TAB {
          cursorX := Wrap16(cursorX + 4);
          k := k + 1;
        } else {
          PutC(str[k], fg, bg);
          k := k + 1;
        }
      }
    }
  }
}
