/** The console of kernel/src/framebuffer.rs on a framebuffer that is too slow
    to read: a shadow grid `cells`, unchanged cells skipped, the redraw after a
    scroll deferred, and an underline cursor painted over a cell. The pixels
    are a cache of `cells`; `Valid` says when and how the cache may be stale. */
module FramebufferConsole {
  import opened Glyph
  import opened Terminal

  const FLUSH_INTERVAL_MS: nat := 40
  const BLINK_MS: nat := 500

  class Console {
    const width: nat
    const height: nat
    const pitch: nat
    const cols: nat
    const rows: nat
    const bg: Color
    const font: Font
    const native: Color -> Color
    const fb: array2<Color>
    const staging: array2<Word>

    var stagingReady: bool
    var cells: seq<TextCell>
    var cursorCol: nat
    var cursorRow: nat
    var fg: Color
    var pending: bool
    var paintedMax: nat
    var cursorPainted: bool
    var cursorPaintedAt: (nat, nat)
    var lastFlushMs: nat
    var lastBlinkMs: nat

    ghost predicate Geometry() {
      && cols == width / FONT_WIDTH && cols > 0
      && rows == height / FONT_HEIGHT && rows > 0
      && width <= pitch
      && fb.Length0 == height && fb.Length1 == pitch
      && staging.Length0 == FONT_HEIGHT && staging.Length1 == width / 2
      && ValidFont(font)
    }

    /** The text the console has been given. */
    ghost function Text(): Screen
      reads this
    {
      Screen(cols, rows, cells, cursorCol, cursorRow, fg, bg)
    }

    ghost predicate Displayable(s: Screen) {
      Geometry() && s.WellFormed() && s.cols == cols && s.rows == rows && s.bg == bg
    }

    /** Pixel (y, x) lies on the two-pixel underline of a cursor painted at `at`. */
    predicate Underlined(painted: bool, at: (nat, nat), y: nat, x: nat) {
      painted && at == (x / FONT_WIDTH, y / FONT_HEIGHT) && y % FONT_HEIGHT >= FONT_HEIGHT - 2
    }

    /** In pixels: the lowest two of the cell's sixteen lines, eight wide. */
    lemma UnderlinePixels(col: nat, row: nat, y: nat, x: nat)
      ensures Underlined(true, (col, row), y, x) <==> 16 * row + 14 <= y < 16 * row + 16 && 8 * col <= x < 8 * col + 8
    {
    }

    /** Every pixel, the cursor underline apart, is the naive render of `s`;
        while the screen is stale only the margins are promised. */
    ghost predicate Shows(s: Screen, stale: bool, painted: bool, at: (nat, nat))
      requires Displayable(s)
      reads fb
    {
      forall y, x :: 0 <= y < height && 0 <= x < width && (stale ==> !InGrid(s, y, x)) ==>
        fb[y, x] == if Underlined(painted, at, y, x) then native(!bg) else Render(font, native, s, y, x)
    }

    ghost predicate Valid()
      reads this, fb
    {
      && Displayable(Text())
      && (cursorPainted ==> cursorPaintedAt.0 < cols && cursorPaintedAt.1 < rows)
      && (pending ==> paintedMax == rows - 1)
      && Shows(Text(), pending, cursorPainted, cursorPaintedAt)
    }

    /** A console over a framebuffer of arbitrary contents. */
    constructor (width: nat, height: nat, pitch: nat, fg: Color, bg: Color, font: Font, native: Color -> Color)
      requires width >= FONT_WIDTH && height >= FONT_HEIGHT && pitch >= width
      requires ValidFont(font)
      ensures Valid() && fresh(fb) && fresh(staging)
      ensures this.width == width && this.height == height && this.bg == bg && this.font == font && this.native == native
      ensures Text() == Text().Cleared() && Text().fg == fg
      ensures !pending && !cursorPainted
    {
      this.width, this.height, this.pitch := width, height, pitch;
      this.cols, this.rows := width / FONT_WIDTH, height / FONT_HEIGHT;
      this.fg, this.bg, this.font, this.native := fg, bg, font, native;
      this.fb := new Color[height, pitch];
      this.staging := new Word[FONT_HEIGHT, width / 2];
      stagingReady, pending, cursorPainted := false, false, false;
      cursorCol, cursorRow, cursorPaintedAt := 0, 0, (0, 0);
      paintedMax, lastFlushMs, lastBlinkMs := 0, 0, 0;
      this.cells := seq((width / FONT_WIDTH) * (height / FONT_HEIGHT), _ => TextCell(SPACE, fg, bg));
      new;
      Clear();
    }

    // ----- pixel writers -----

    /** One glyph row. The wide path needs an 8-byte aligned address, which
        depends on the pitch and the mapping, so either path may be taken. */
    method WriteGlyphRow(y: nat, x: nat, words: seq<Word>, available: nat)
      requires y < fb.Length0 && x + available <= fb.Length1
      requires |words| == 4 && available <= 8
      modifies fb
      ensures forall i, j :: 0 <= i < fb.Length0 && 0 <= j < fb.Length1 ==>
        fb[i, j] == if i == y && x <= j < x + available then words[(j - x) / 2].At((j - x) % 2) else old(fb[i, j])
    {
      var aligned: bool := *;
      if available >= 8 && aligned {
        var k := 0;
        while k < 4
          invariant 0 <= k <= 4
          invariant forall i, j :: 0 <= i < fb.Length0 && 0 <= j < fb.Length1 ==>
            fb[i, j] == if i == y && x <= j < x + 2 * k then words[(j - x) / 2].At((j - x) % 2) else old(fb[i, j])
        {
          fb[y, x + 2 * k] := words[k].left;
          fb[y, x + 2 * k + 1] := words[k].right;
          k := k + 1;
        }
        return;
      }
      var k := 0;
      while k < available
        invariant 0 <= k <= available
        invariant forall i, j :: 0 <= i < fb.Length0 && 0 <= j < fb.Length1 ==>
          fb[i, j] == if i == y && x <= j < x + k then words[(j - x) / 2].At((j - x) % 2) else old(fb[i, j])
      {
        var pair := words[k / 2];
        fb[y, x + k] := if k % 2 == 0 then pair.left else pair.right;
        k := k + 1;
      }
    }

    method FillRun(y: nat, x: nat, len: nat, color: Color)
      requires y < fb.Length0 && x + len <= fb.Length1
      modifies fb
      ensures forall i, j :: 0 <= i < fb.Length0 && 0 <= j < fb.Length1 ==>
        fb[i, j] == if i == y && x <= j < x + len then color else old(fb[i, j])
    {
      for k := 0 to len
        invariant forall i, j :: 0 <= i < fb.Length0 && 0 <= j < fb.Length1 ==>
          fb[i, j] == if i == y && x <= j < x + k then color else old(fb[i, j])
      {
        fb[y, x + k] := color;
      }
    }

    predicate InCell(y: nat, x: nat, col: nat, row: nat) {
      y / FONT_HEIGHT == row && x / FONT_WIDTH == col
    }

    /** Paints the cell (col, row) and no other pixel. */
    method DrawCellPixelsNative(ch: Code, fgNative: Color, bgNative: Color, col: nat, row: nat)
      requires Geometry()
      modifies fb
      ensures forall y, x :: 0 <= y < height && 0 <= x < pitch ==>
        fb[y, x] == if x < width && InCell(y, x, col, row)
                    then NativePixel(font, ch, fgNative, bgNative, y % FONT_HEIGHT, x % FONT_WIDTH)
                    else old(fb[y, x])
    {
      var startX := col * FONT_WIDTH;
      var startY := row * FONT_HEIGHT;
      if startX >= width || startY >= height {
        return;
      }
      var rowLen := if FONT_WIDTH < width - startX then FONT_WIDTH else width - startX;
      var dy := 0;
      while dy < FONT_HEIGHT && startY + dy < height
        invariant 0 <= dy <= FONT_HEIGHT
        invariant forall y, x :: 0 <= y < height && 0 <= x < pitch ==>
          fb[y, x] == if x < width && InCell(y, x, col, row) && y < startY + dy
                      then NativePixel(font, ch, fgNative, bgNative, y % FONT_HEIGHT, x % FONT_WIDTH)
                      else old(fb[y, x])
      {
        if ch == SPACE {
          FillRun(startY + dy, startX, rowLen, bgNative);
        } else {
          var words := ExpandLine(font.glyphs[ch][dy], fgNative, bgNative);
          WriteGlyphRow(startY + dy, startX, words, rowLen);
        }
        dy := dy + 1;
      }
    }

    // ----- full repaint from the shadow grid -----

    predicate BlankCode(ch: Code) {
      ch == SPACE || ch == 0
    }

    predicate RowBlank(row: nat)
      requires row < rows && |cells| == cols * rows
      reads `cells
    {
      RowStep(row, rows, cols);
      forall i :: row * cols <= i < row * cols + cols ==> BlankCode(cells[i].ch)
    }

    ghost predicate LastUsed(last: nat)
      requires |cells| == cols * rows
      reads `cells
    {
      last < rows && (forall r: nat :: last < r < rows ==> RowBlank(r)) && (last == 0 || !RowBlank(last))
    }

    /** The last row holding text; the rows below it are blank. */
    method LastUsedRow() returns (last: nat)
      requires rows > 0 && |cells| == cols * rows
      ensures LastUsed(last)
    {
      var row := rows;
      while row > 0
        invariant 0 <= row <= rows
        invariant forall r: nat :: row <= r < rows ==> RowBlank(r)
      {
        row := row - 1;
        if !RowBlank(row) {
          return row;
        }
      }
      return 0;
    }

    ghost predicate Paintable()
      reads this
    {
      Geometry() && Text().WellFormed()
    }

    /** Pixel x of line dy of text row `row` in the naive render. */
    ghost function RowPixel(row: nat, dy: nat, x: nat): Color
      requires Paintable()
      reads this
    {
      Render(font, native, Text(), row * FONT_HEIGHT + dy, x)
    }

    lemma PixelOfCell(row: nat, col: nat, dy: nat, dx: nat)
      requires Paintable() && row < rows && col < cols && dy < FONT_HEIGHT && dx < FONT_WIDTH
      requires row * cols + col < |cells|
      ensures var cell := cells[row * cols + col];
        RowPixel(row, dy, col * FONT_WIDTH + dx) == NativePixel(font, cell.ch, native(cell.fg), native(cell.bg), dy, dx)
    {
      var y, x := row * FONT_HEIGHT + dy, col * FONT_WIDTH + dx;
      assert y / FONT_HEIGHT == row && y % FONT_HEIGHT == dy;
      assert x / FONT_WIDTH == col && x % FONT_WIDTH == dx;
    }

    ghost predicate IsImage(image: seq<seq<Word>>) {
      |image| == staging.Length0 && forall dy :: 0 <= dy < |image| ==> |image[dy]| == staging.Length1
    }

    /** `image` is text row `row` of the naive render, two pixels to a word. */
    ghost predicate Depicts(image: seq<seq<Word>>, row: nat)
      requires Paintable() && IsImage(image)
      reads this
    {
      forall dy, w :: 0 <= dy < staging.Length0 && 0 <= w < staging.Length1 ==>
        image[dy][w] == Word(RowPixel(row, dy, 2 * w), RowPixel(row, dy, 2 * w + 1))
    }

    /** The staging row while it is built: the first `done` cells of `image`
        are in place, one more on the lines above `line`, the rest is blank. */
    ghost predicate Staged(image: seq<seq<Word>>, done: nat, line: nat)
      requires IsImage(image)
      reads staging
    {
      forall dy, w :: 0 <= dy < staging.Length0 && 0 <= w < staging.Length1 ==>
        staging[dy, w] == if w / 4 < (if dy < line then done + 1 else done) then image[dy][w] else Word(native(bg), native(bg))
    }

    method CopyWords(dy: nat, first: nat, words: seq<Word>)
      requires dy < staging.Length0 && first + |words| <= staging.Length1
      modifies staging
      ensures forall i, w :: 0 <= i < staging.Length0 && 0 <= w < staging.Length1 ==>
        staging[i, w] == if i == dy && first <= w < first + |words| then words[w - first] else old(staging[i, w])
    {
      for k := 0 to |words|
        invariant forall i, w :: 0 <= i < staging.Length0 && 0 <= w < staging.Length1 ==>
          staging[i, w] == if i == dy && first <= w < first + k then words[w - first] else old(staging[i, w])
      {
        staging[dy, first + k] := words[k];
      }
    }

    lemma CellWidthFits(col: nat)
      requires Geometry() && col < cols
      ensures (col + 1) * FONT_WIDTH <= width
      ensures width % 2 == 0 ==> 4 * col + 4 <= width / 2
    {
    }

    /** One line of one glyph. */
    method StageLine(ghost col: nat, dy: nat, first: nat, words: seq<Word>, ghost image: seq<seq<Word>>)
      requires IsImage(image) && dy < staging.Length0 && first == 4 * col
      requires |words| == 4 && 4 * col + 4 <= staging.Length1
      requires forall w :: 4 * col <= w < 4 * col + 4 ==> image[dy][w] == words[w - 4 * col]
      requires Staged(image, col, dy)
      modifies staging
      ensures Staged(image, col, dy + 1)
    {
      CopyWords(dy, first, words);
    }

    /** Adds cell `col` of text row `row` to the staging row. */
    method StageCell(row: nat, col: nat, ghost image: seq<seq<Word>>)
      requires Paintable() && row < rows && col < cols && width % 2 == 0
      requires IsImage(image) && Depicts(image, row) && Staged(image, col, 0)
      modifies staging
      ensures Staged(image, col + 1, 0)
    {
      CellInGrid(col, row, cols, rows);
      var cell := cells[row * cols + col];
      if BlankCode(cell.ch) {
        BlankWords(row, col, image);
        return;
      }
      var fgNative, bgNative := native(cell.fg), native(cell.bg);
      CellWidthFits(col);
      var firstWord := col * FONT_WIDTH / 2;
      var fullWords := if FONT_WIDTH / 2 < width / 2 - firstWord then FONT_WIDTH / 2 else width / 2 - firstWord;
      for dy := 0 to FONT_HEIGHT
        invariant Staged(image, col, dy)
      {
        var words := ExpandLine(font.glyphs[cell.ch][dy], fgNative, bgNative);
        GlyphWords(row, col, dy, words, image);
        StageLine(col, dy, firstWord, words[..fullWords], image);
      }
    }

    lemma BlankWords(row: nat, col: nat, image: seq<seq<Word>>)
      requires Paintable() && row < rows && col < cols && IsImage(image) && Depicts(image, row)
      requires row * cols + col < |cells| && BlankCode(cells[row * cols + col].ch)
      ensures forall dy, w :: 0 <= dy < FONT_HEIGHT && 4 * col <= w < 4 * col + 4 && w < width / 2 ==>
        image[dy][w] == Word(native(bg), native(bg))
    {
      forall dy, w | 0 <= dy < FONT_HEIGHT && 4 * col <= w < 4 * col + 4 && w < width / 2
        ensures image[dy][w] == Word(native(bg), native(bg))
      {
        BlankWord(row, col, image, dy, w);
      }
    }

    /** The word that holds pixels dx and dx + 1 of a cell. */
    lemma WordOfCell(row: nat, col: nat, image: seq<seq<Word>>, dy: nat, w: nat, cell: TextCell, dx: nat)
      requires Paintable() && row < rows && col < cols && IsImage(image) && Depicts(image, row)
      requires row * cols + col < |cells| && cell == cells[row * cols + col]
      requires dy < FONT_HEIGHT && 4 * col <= w < 4 * col + 4 && w < width / 2 && dx == 2 * (w - 4 * col)
      ensures image[dy][w] == Word(
        NativePixel(font, cell.ch, native(cell.fg), native(cell.bg), dy, dx),
        NativePixel(font, cell.ch, native(cell.fg), native(cell.bg), dy, dx + 1))
    {
      PixelOfCell(row, col, dy, dx);
      PixelOfCell(row, col, dy, dx + 1);
      assert col * FONT_WIDTH + dx == 2 * w;
    }

    lemma BlankWord(row: nat, col: nat, image: seq<seq<Word>>, dy: nat, w: nat)
      requires Paintable() && row < rows && col < cols && IsImage(image) && Depicts(image, row)
      requires row * cols + col < |cells| && BlankCode(cells[row * cols + col].ch)
      requires dy < FONT_HEIGHT && 4 * col <= w < 4 * col + 4 && w < width / 2
      ensures image[dy][w] == Word(native(bg), native(bg))
    {
      var cell := cells[row * cols + col];
      var dx := 2 * (w - 4 * col);
      WordOfCell(row, col, image, dy, w, cell, dx);
      BlankCellPixels(font, cell.ch, native(cell.fg), native(cell.bg), dy, dx);
      BlankCellPixels(font, cell.ch, native(cell.fg), native(cell.bg), dy, dx + 1);
    }

    lemma GlyphWords(row: nat, col: nat, dy: nat, words: seq<Word>, image: seq<seq<Word>>)
      requires Paintable() && row < rows && col < cols && dy < FONT_HEIGHT && IsImage(image) && Depicts(image, row)
      requires row * cols + col < |cells|
      requires var cell := cells[row * cols + col]; !BlankCode(cell.ch) && IsExpansion(words, font.glyphs[cell.ch][dy], native(cell.fg), native(cell.bg))
      ensures 4 * col + 4 <= width / 2
      ensures forall w :: 4 * col <= w < 4 * col + 4 ==> image[dy][w] == words[w - 4 * col]
    {
      forall w | 4 * col <= w < 4 * col + 4
        ensures image[dy][w] == words[w - 4 * col]
      {
        GlyphWord(row, col, image, dy, w, words);
      }
    }

    lemma GlyphWord(row: nat, col: nat, image: seq<seq<Word>>, dy: nat, w: nat, words: seq<Word>)
      requires Paintable() && row < rows && col < cols && IsImage(image) && Depicts(image, row)
      requires row * cols + col < |cells| && dy < FONT_HEIGHT && 4 * col <= w < 4 * col + 4 && w < width / 2
      requires var cell := cells[row * cols + col]; !BlankCode(cell.ch) && IsExpansion(words, font.glyphs[cell.ch][dy], native(cell.fg), native(cell.bg))
      ensures image[dy][w] == words[w - 4 * col]
    {
      var k := w - 4 * col;
      WordOfCell(row, col, image, dy, w, cells[row * cols + col], 2 * k);
      assert words[(2 * k) / 2].At((2 * k) % 2) == words[k].left;
      assert words[(2 * k + 1) / 2].At((2 * k + 1) % 2) == words[k].right;
    }

    ghost function ImageLine(row: nat, dy: nat): (line: seq<Word>)
      requires Paintable()
      reads this
      ensures |line| == width / 2
      ensures forall w :: 0 <= w < width / 2 ==> line[w] == Word(RowPixel(row, dy, 2 * w), RowPixel(row, dy, 2 * w + 1))
    {
      seq(width / 2, w requires 0 <= w reads this requires Paintable() => Word(RowPixel(row, dy, 2 * w), RowPixel(row, dy, 2 * w + 1)))
    }

    lemma MakeImage(row: nat) returns (image: seq<seq<Word>>)
      requires Paintable()
      ensures IsImage(image) && Depicts(image, row)
    {
      image := [];
      for dy := 0 to FONT_HEIGHT
        invariant |image| == dy
        invariant forall i :: 0 <= i < dy ==> image[i] == ImageLine(row, i)
      {
        image := image + [ImageLine(row, dy)];
      }
    }

    /** The whole staging row is the naive render of text row `row`. */
    ghost predicate RowBuilt(row: nat)
      requires Paintable() && width % 2 == 0
      reads this, staging
    {
      forall dy, x :: 0 <= dy < FONT_HEIGHT && 0 <= x < width ==> staging[dy, x / 2].At(x % 2) == RowPixel(row, dy, x)
    }

    lemma FinishedRow(row: nat, image: seq<seq<Word>>)
      requires Paintable() && row < rows && width % 2 == 0
      requires IsImage(image) && Depicts(image, row) && Staged(image, cols, 0)
      ensures RowBuilt(row)
    {
      forall dy, x | 0 <= dy < FONT_HEIGHT && 0 <= x < width
        ensures staging[dy, x / 2].At(x % 2) == RowPixel(row, dy, x)
      {
        var w := x / 2;
        assert image[dy][w].At(x % 2) == RowPixel(row, dy, x);
        if w / 4 >= cols {
          assert x / FONT_WIDTH >= cols;
          assert RowPixel(row, dy, x) == native(bg);
        }
      }
    }

    /** Assembles one text row in RAM. */
    method BuildRow(row: nat)
      requires Paintable() && row < rows && width % 2 == 0
      modifies staging
      ensures RowBuilt(row)
    {
      ghost var image := MakeImage(row);
      var blank := Word(native(bg), native(bg));
      forall dy, w | 0 <= dy < staging.Length0 && 0 <= w < staging.Length1 {
        staging[dy, w] := blank;
      }
      for col := 0 to cols
        invariant Staged(image, col, 0)
      {
        StageCell(row, col, image);
      }
      FinishedRow(row, image);
    }

    /** One pixel line of the staging row goes out in one wide copy. */
    method BlitLine(y: nat, dy: nat)
      requires y < fb.Length0 && dy < staging.Length0 && 2 * staging.Length1 <= fb.Length1
      modifies fb
      ensures forall i, j :: 0 <= i < fb.Length0 && 0 <= j < fb.Length1 ==>
        fb[i, j] == if i == y && j < 2 * staging.Length1 then staging[dy, j / 2].At(j % 2) else old(fb[i, j])
    {
      for w := 0 to staging.Length1
        invariant forall i, j :: 0 <= i < fb.Length0 && 0 <= j < fb.Length1 ==>
          fb[i, j] == if i == y && j < 2 * w then staging[dy, j / 2].At(j % 2) else old(fb[i, j])
      {
        fb[y, 2 * w], fb[y, 2 * w + 1] := staging[dy, w].left, staging[dy, w].right;
      }
    }

    /** A row of the grid with its right margin, and nothing else, is repainted. */
    twostate predicate RowRepainted(s: Screen, row: nat)
      requires ValidFont(font) && |s.cells| == s.cols * s.rows && fb.Length0 == height && fb.Length1 == pitch
      reads fb
    {
      forall y, x :: 0 <= y < height && 0 <= x < pitch ==>
        fb[y, x] == if x < width && y / FONT_HEIGHT == row then Render(font, native, s, y, x) else old(fb[y, x])
    }

    method RepaintRowStaged(row: nat)
      requires Paintable() && row < rows && width % 2 == 0
      modifies fb, staging
      ensures RowRepainted(Text(), row)
    {
      BuildRow(row);
      var dy := 0;
      while dy < FONT_HEIGHT && row * FONT_HEIGHT + dy < height
        invariant 0 <= dy <= FONT_HEIGHT
        invariant RowBuilt(row)
        invariant forall y, x :: 0 <= y < height && 0 <= x < pitch ==>
          fb[y, x] == if x < width && y / FONT_HEIGHT == row && y < row * FONT_HEIGHT + dy then Render(font, native, Text(), y, x) else old(fb[y, x])
      {
        BlitLine(row * FONT_HEIGHT + dy, dy);
        assert forall x :: 0 <= x < width ==> RowPixel(row, dy, x) == Render(font, native, Text(), row * FONT_HEIGHT + dy, x);
        dy := dy + 1;
      }
    }

    /** The per-cell path, for an odd width or before the staging row exists. */
    method RepaintRowByCells(row: nat)
      requires Paintable() && row < rows
      modifies fb
      ensures forall y, x :: 0 <= y < height && 0 <= x < pitch ==>
        fb[y, x] == if x / FONT_WIDTH < cols && y / FONT_HEIGHT == row then Render(font, native, Text(), y, x) else old(fb[y, x])
    {
      for col := 0 to cols
        invariant forall y, x :: 0 <= y < height && 0 <= x < pitch ==>
          fb[y, x] == if x / FONT_WIDTH < col && y / FONT_HEIGHT == row then Render(font, native, Text(), y, x) else old(fb[y, x])
      {
        CellInGrid(col, row, cols, rows);
        CellWidthFits(col);
        var cell := cells[row * cols + col];
        DrawCellPixelsNative(cell.ch, native(cell.fg), native(cell.bg), col, row);
      }
    }

    /** What the framebuffer must already hold for a repaint that stops after
        row `bound` to be enough: background in the margins and below it. */
    ghost predicate CleanBeyond(s: Screen, bound: nat)
      requires Displayable(s)
      reads fb
    {
      forall y, x :: 0 <= y < height && 0 <= x < width && (!InGrid(s, y, x) || y / FONT_HEIGHT > bound) ==> fb[y, x] == native(bg)
    }

    /** The pixel lines of the first `row` text rows are the naive render. */
    ghost predicate RenderedAbove(s: Screen, row: nat)
      requires Displayable(s)
      reads fb
    {
      forall y, x :: 0 <= y < height && 0 <= x < width && y / FONT_HEIGHT < row ==> fb[y, x] == Render(font, native, s, y, x)
    }

    ghost predicate FullyRendered(s: Screen)
      requires Displayable(s)
      reads fb
    {
      forall y, x :: 0 <= y < height && 0 <= x < width ==> fb[y, x] == Render(font, native, s, y, x)
    }

    lemma BlankRowPixels(y: nat, x: nat)
      requires Paintable() && InGrid(Text(), y, x) && RowBlank(y / FONT_HEIGHT)
      ensures Render(font, native, Text(), y, x) == native(bg)
    {
      var r, c := y / FONT_HEIGHT, x / FONT_WIDTH;
      CellInGrid(c, r, cols, rows);
      var cell := cells[r * cols + c];
      BlankCellPixels(font, cell.ch, native(cell.fg), native(cell.bg), y % FONT_HEIGHT, x % FONT_WIDTH);
    }

    /** The staging path and the per-cell path draw the same row. */
    method RepaintRow(row: nat, useStaging: bool, ghost s: Screen, ghost bound: nat)
      requires Paintable() && row < rows && row <= bound && (useStaging ==> width % 2 == 0)
      requires s == Text() && CleanBeyond(s, bound) && RenderedAbove(s, row)
      modifies fb, staging
      ensures CleanBeyond(s, bound) && RenderedAbove(s, row + 1)
    {
      if useStaging {
        RepaintRowStaged(row);
      } else {
        RepaintRowByCells(row);
      }
    }

    lemma RepaintComplete(s: Screen, lastRow: nat)
      requires Paintable() && s == Text() && CleanBeyond(s, lastRow) && RenderedAbove(s, lastRow + 1)
      requires forall r: nat :: lastRow < r < rows ==> RowBlank(r)
      ensures FullyRendered(s)
    {
      forall y, x | 0 <= y < height && 0 <= x < width && y / FONT_HEIGHT > lastRow
        ensures fb[y, x] == Render(font, native, s, y, x)
      {
        if InGrid(s, y, x) {
          BlankRowPixels(y, x);
        }
      }
    }

    method RepaintRows(lastRow: nat, useStaging: bool, ghost s: Screen)
      requires Paintable() && lastRow < rows && (useStaging ==> width % 2 == 0)
      requires s == Text() && CleanBeyond(s, lastRow)
      modifies fb, staging
      ensures CleanBeyond(s, lastRow) && RenderedAbove(s, lastRow + 1)
    {
      for row := 0 to lastRow + 1
        invariant CleanBeyond(s, lastRow) && RenderedAbove(s, row)
      {
        RepaintRow(row, useStaging, s, lastRow);
      }
    }

    lemma CleanBeyondGrid(s: Screen, bound: nat, lastRow: nat)
      requires Displayable(s) && CleanBeyond(s, bound)
      requires lastRow >= bound || lastRow == rows - 1
      ensures CleanBeyond(s, lastRow)
    {
      assert forall y, x :: 0 <= y < height && 0 <= x < width && y / FONT_HEIGHT > rows - 1 ==> !InGrid(s, y, x);
    }

    /** Repaints from the shadow grid down to the last row that holds text or
        may hold stale pixels; the whole image is then the naive render, on
        the staging path and on the per-cell path alike. */
    method RedrawFromCells()
      requires Paintable() && CleanBeyond(Text(), paintedMax)
      modifies `paintedMax, `cursorPainted, fb, staging
      ensures FullyRendered(Text()) && !cursorPainted
      ensures LastUsed(paintedMax)
    {
      ghost var s := Text();
      var lastUsed := LastUsedRow();
      var lastRow := if lastUsed > paintedMax then lastUsed else paintedMax;
      lastRow := if lastRow > rows - 1 then rows - 1 else lastRow;
      CleanBeyondGrid(s, paintedMax, lastRow);
      RepaintRows(lastRow, width % 2 == 0 && stagingReady, s);
      RepaintComplete(s, lastRow);
      paintedMax := lastUsed;
      cursorPainted := false;
    }

    // ----- console operations -----

    method Clear()
      requires Displayable(Text())
      modifies this, fb
      ensures Valid() && !pending && !cursorPainted && paintedMax == 0 && Text() == old(Text()).Cleared()
    {
      var color := native(bg);
      forall i, j | 0 <= i < fb.Length0 && 0 <= j < fb.Length1 {
        fb[i, j] := color;
      }
      var blank := TextCell(SPACE, fg, bg);
      cells := seq(cols * rows, _ => blank);
      cursorCol, cursorRow := 0, 0;
      paintedMax := 0;
      cursorPainted := false;
      pending := false;
      ghost var s := old(Text());
      assert Text() == s.Cleared();
      forall y, x | 0 <= y < height && 0 <= x < width
        ensures Render(font, native, s.Cleared(), y, x) == native(bg)
      {
        ClearedRendersBlank(font, native, s, y, x);
      }
    }

    method UndrawCursor()
      requires Valid()
      modifies `cursorPainted, fb
      ensures Valid() && !cursorPainted
    {
      if !cursorPainted {
        return;
      }
      var (col, row) := cursorPaintedAt;
      cursorPainted := false;
      if col >= cols || row >= rows {
        return;
      }
      CellInGrid(col, row, cols, rows);
      var cell := cells[row * cols + col];
      DrawCellPixelsNative(cell.ch, native(cell.fg), native(cell.bg), col, row);
    }

    /** Draws one character with the console's own background colour. */
    method DrawCharAt(ch: char, col: nat, row: nat, fgColor: Color)
      requires Valid()
      modifies this, fb
      ensures Valid()
      ensures Text() == old(Text()).Drawn(TextCell(FontIndex(font, ch), fgColor, bg), col, row)
      ensures cursorPainted == (old(cursorPainted) && old(cursorPaintedAt) != (col, row)) && cursorPaintedAt == old(cursorPaintedAt)
      ensures pending == old(pending)
    {
      if cursorPainted && cursorPaintedAt == (col, row) {
        UndrawCursor();
      }
      if col >= cols || row >= rows {
        return;
      }
      var cell := TextCell(FontIndex(font, ch), fgColor, bg);
      CellInGrid(col, row, cols, rows);
      var index := row * cols + col;
      ghost var s := Text();
      if cells[index] == cell {
        assert cells[index := cell] == cells;
        return;
      }
      cells := cells[index := cell];
      ghost var s' := Text();
      assert s' == s.Drawn(cell, col, row);
      DrawnWellFormed(s, cell, col, row);
      forall y, x | 0 <= y < height && 0 <= x < width
        ensures Render(font, native, s', y, x) ==
          if InCell(y, x, col, row) then NativePixel(font, cell.ch, native(cell.fg), native(cell.bg), y % FONT_HEIGHT, x % FONT_WIDTH)
          else Render(font, native, s, y, x)
      {
        DrawnRender(font, native, s, cell, col, row, y, x);
      }
      if pending {
        return;
      }
      DrawCellPixelsNative(cell.ch, native(cell.fg), native(cell.bg), col, row);
    }

    method DrawCursor()
      requires Valid()
      modifies `cursorPainted, `cursorPaintedAt, fb
      ensures Valid() && Text() == old(Text())
      ensures cursorPainted <==> cursorCol < cols && cursorRow < rows
      ensures cursorPainted ==> cursorPaintedAt == (cursorCol, cursorRow)
      ensures pending == old(pending)
    {
      if cursorPainted {
        UndrawCursor();
      }
      if cursorCol >= cols || cursorRow >= rows {
        return;
      }
      PaintUnderline(cursorCol, cursorRow);
      cursorPainted := true;
      cursorPaintedAt := (cursorCol, cursorRow);
    }

    /** The bottom two pixel lines of a cell in the inverse background colour. */
    method PaintUnderline(col: nat, row: nat)
      requires Geometry() && col < cols && row < rows
      modifies fb
      ensures forall y, x :: 0 <= y < height && 0 <= x < width ==>
        fb[y, x] == if Underlined(true, (col, row), y, x) then native(!bg) else old(fb[y, x])
    {
      var x := col * FONT_WIDTH;
      var y := row * FONT_HEIGHT;
      var inverse := native(!bg);
      var words := ExpandLine(0xFF, inverse, inverse);
      SolidWords(words, 0xFF, inverse);
      CellWidthFits(col);
      var rowLen := if FONT_WIDTH < width - x then FONT_WIDTH else width - x;
      var dy := FONT_HEIGHT - 1;
      while dy >= FONT_HEIGHT - 2
        invariant FONT_HEIGHT - 3 <= dy < FONT_HEIGHT
        invariant forall i, j :: 0 <= i < height && 0 <= j < width ==>
          fb[i, j] == if Underlined(true, (col, row), i, j) && i % FONT_HEIGHT > dy then native(!bg) else old(fb[i, j])
      {
        if y + dy < height {
          WriteGlyphRow(y + dy, x, words, rowLen);
        }
        dy := dy - 1;
      }
    }

    lemma SolidWords(words: seq<Word>, line: Line, color: Color)
      requires IsExpansion(words, line, color, color)
      ensures forall k :: 0 <= k < |words| ==> words[k] == Word(color, color)
    {
      forall k | 0 <= k < |words|
        ensures words[k] == Word(color, color)
      {
        assert words[(2 * k) / 2].At((2 * k) % 2) == words[k].left;
        assert words[(2 * k + 1) / 2].At((2 * k + 1) % 2) == words[k].right;
      }
    }

    /** Repaints now if the screen is stale and either `force` is set or the
        last repaint is old enough. */
    method FlushIfDue(force: bool, now: nat)
      requires Valid()
      modifies `pending, `lastFlushMs, `paintedMax, `cursorPainted, fb, staging
      ensures Valid()
      ensures force ==> !pending
      ensures !old(pending) ==> !pending && cursorPainted == old(cursorPainted)
      ensures old(pending) && !pending ==> !cursorPainted
      ensures old(pending) ==> (pending <==> !force && now < old(lastFlushMs) + FLUSH_INTERVAL_MS)
      ensures lastFlushMs == if old(pending) && !pending then now else old(lastFlushMs)
    {
      if !pending {
        return;
      }
      if !force && (if now > lastFlushMs then now - lastFlushMs else 0) < FLUSH_INTERVAL_MS {
        return;
      }
      lastFlushMs := now;
      pending := false;
      RedrawFromCells();
    }

    /** Shifts the shadow grid up one row; every pixel of the grid is now stale. */
    method ShiftShadow()
      requires Valid()
      modifies `cells, `cursorPainted, `paintedMax, `pending
      ensures Valid() && pending && Text() == old(Text()).Scrolled().(row := old(cursorRow))
    {
      RowsSplit(cols, rows);
      ghost var s := Text();
      ScrolledWellFormed(s);
      var blank := TextCell(SPACE, fg, bg);
      cells := cells[cols..] + seq(cols, _ => blank);
      cursorPainted := false;
      paintedMax := rows - 1;
      pending := true;
      assert Text() == s.Scrolled().(row := cursorRow);
      MarginsUnaffected(s, Text());
    }

    /** The repaint after a scroll is done now only if it is due. */
    method Scroll(now: nat)
      requires Valid()
      modifies this, fb, staging
      ensures Valid() && Text() == old(Text()).Scrolled() && MovedUp(old(Text()), Text())
    {
      ScrollMovesUp(Text());
      ShiftShadow();
      FlushIfDue(false, now);
      ToLastRow();
    }

    method ToLastRow()
      requires Valid()
      modifies `cursorRow
      ensures Valid() && Text() == old(Text()).(row := rows - 1)
    {
      cursorRow := rows - 1;
    }

    /** Margin pixels depend only on the geometry and the background. */
    lemma MarginsUnaffected(s: Screen, s': Screen)
      requires Displayable(s) && Displayable(s')
      ensures forall y, x :: 0 <= y && 0 <= x && !InGrid(s', y, x) ==> !InGrid(s, y, x) && Render(font, native, s', y, x) == Render(font, native, s, y, x)
    {
    }

    method MoveCursor(ch: char)
      requires Valid() && Screen.IsControl(ch)
      modifies `cursorCol, `cursorRow
      ensures Valid() && Text() == old(Text()).Moved(ch)
    {
      if ch == '\n' {
        cursorCol := 0;
        cursorRow := cursorRow + 1;
      } else if ch == '\r' {
        cursorCol := 0;
      } else if ch == BACKSPACE {
        if cursorCol > 0 {
          cursorCol := cursorCol - 1;
        }
      } else {
        var nextTab := (cursorCol / 4 + 1) * 4;
        cursorCol := if nextTab < cols - 1 then nextTab else cols - 1;
      }
    }

    method WrapCursor()
      requires Valid()
      modifies `cursorCol, `cursorRow
      ensures Valid() && Text() == old(Text()).Wrapped()
    {
      cursorCol := cursorCol + 1;
      if cursorCol >= cols {
        cursorCol := 0;
        cursorRow := cursorRow + 1;
      }
    }

    method PutChar(ch: char, now: nat)
      requires Valid()
      modifies this, fb, staging
      ensures Valid() && Text() == old(Text()).Put(font, ch)
    {
      if Screen.IsControl(ch) {
        MoveCursor(ch);
      } else {
        DrawCharAt(ch, cursorCol, cursorRow, fg);
        WrapCursor();
      }
      if cursorRow >= rows {
        Scroll(now);
      }
    }

    /** The first call with a running clock, and any later one that comes
        BLINK_MS or more after the last to change anything. */
    predicate BlinkDue(now: nat)
      reads this
    {
      !pending && ((lastBlinkMs == 0 && now > 0) || now >= lastBlinkMs + BLINK_MS)
    }

    /** A due call shows the cursor if it was hidden or is shown for the first
        time, and hides it otherwise; other calls change nothing. */
    method UpdateCursorBlink(now: nat)
      requires Valid()
      modifies `lastBlinkMs, `cursorPainted, `cursorPaintedAt, fb
      ensures Valid() && Text() == old(Text())
      ensures lastBlinkMs == if old(BlinkDue(now)) then now else old(lastBlinkMs)
      ensures !old(BlinkDue(now)) ==> cursorPainted == old(cursorPainted) && cursorPaintedAt == old(cursorPaintedAt)
      ensures old(BlinkDue(now)) && (old(lastBlinkMs) == 0 < now || !old(cursorPainted)) ==>
        (cursorPainted <==> cursorCol < cols && cursorRow < rows) && (cursorPainted ==> cursorPaintedAt == (cursorCol, cursorRow))
      ensures old(BlinkDue(now)) && !(old(lastBlinkMs) == 0 < now) && old(cursorPainted) ==> !cursorPainted
    {
      if pending {
        return;
      }
      if lastBlinkMs == 0 && now > 0 {
        lastBlinkMs := now;
        DrawCursor();
        return;
      }
      if (if now > lastBlinkMs then now - lastBlinkMs else 0) >= BLINK_MS {
        lastBlinkMs := now;
        if cursorPainted {
          UndrawCursor();
        } else {
          DrawCursor();
        }
      }
    }

    ghost predicate UnderlineInvisible()
      requires Displayable(Text())
      reads this
    {
      forall y, x :: 0 <= y < height && 0 <= x < width && Underlined(true, cursorPaintedAt, y, x) ==>
        Render(font, native, Text(), y, x) == native(!bg)
    }

    /** Forgets the painted cursor without removing it. The screen stays right
        exactly when a redraw is pending, no cursor is painted, or the
        underline happens to look like the cell below it. */
    method ResetCursorBlink()
      requires Valid()
      modifies `cursorPainted, `lastBlinkMs
      ensures Text() == old(Text()) && !cursorPainted
      ensures Valid() <==> old(pending) || !old(cursorPainted) || old(UnderlineInvisible())
    {
      cursorPainted := false;
      lastBlinkMs := 0;
      if !pending && old(cursorPainted) && !old(UnderlineInvisible()) {
        var y, x :| 0 <= y < height && 0 <= x < width && Underlined(true, cursorPaintedAt, y, x) && Render(font, native, Text(), y, x) != native(!bg);
        assert fb[y, x] == native(!bg);
      }
    }

    method SetCursor(col: nat, row: nat)
      requires Valid()
      modifies this
      ensures Valid() && Text() == old(Text()).(col := col, row := row)
      ensures pending == old(pending) && cursorPainted == old(cursorPainted)
    {
      cursorCol := col;
      cursorRow := row;
    }

    method SetFg(color: Color)
      requires Valid()
      modifies this
      ensures Valid() && Text() == old(Text()).(fg := color)
      ensures pending == old(pending) && cursorPainted == old(cursorPainted)
    {
      fg := color;
    }

    method AllocStaging()
      requires Valid()
      modifies `stagingReady
      ensures Valid() && Text() == old(Text())
      ensures stagingReady <==> width % 2 == 0
    {
      stagingReady := width % 2 == 0;
    }

    // ----- whole runs -----

    method Execute(op: Op)
      requires Valid()
      modifies this, fb, staging
      ensures Valid() && Text() == Apply(font, old(Text()), op)
    {
      match op
      case Clear => Clear();
      case PutChar(ch, now) => PutChar(ch, now);
      case DrawCharAt(ch, col, row, color) => DrawCharAt(ch, col, row, color);
      case SetCursor(col, row) => SetCursor(col, row);
      case SetFg(color) => SetFg(color);
      case DrawCursor => DrawCursor();
      case UndrawCursor => UndrawCursor();
      case UpdateCursorBlink(now) => UpdateCursorBlink(now);
      case FlushIfDue(force, now) => FlushIfDue(force, now);
      case AllocStaging => AllocStaging();
    }

    /** After any run, whatever the clock said, the shadow grid is the one of
        the reference terminal and the pixels agree with it unless a redraw
        is pending. */
    method RunOps(ops: seq<Op>)
      requires Valid()
      modifies this, fb, staging
      ensures Valid() && Text() == Run(font, old(Text()), ops)
      ensures !pending ==> forall y, x :: 0 <= y < height && 0 <= x < width && !Underlined(cursorPainted, cursorPaintedAt, y, x) ==>
        fb[y, x] == Render(font, native, Run(font, old(Text()), ops), y, x)
    {
      ghost var s := Text();
      for i := 0 to |ops|
        invariant Valid() && Text() == Run(font, s, ops[..i])
      {
        Execute(ops[i]);
        assert ops[..i + 1][..i] == ops[..i];
      }
      assert ops[..|ops|] == ops;
    }

    /** Forcing a flush and hiding the cursor makes the whole image the naive
        render of the reference terminal: deferral, skipped cells, the bounded
        repaint and the two repaint paths lose nothing. */
    method Settle(ops: seq<Op>, now: nat)
      requires Valid()
      modifies this, fb, staging
      ensures forall y, x :: 0 <= y < height && 0 <= x < width ==>
        fb[y, x] == Render(font, native, Run(font, old(Text()), TextOnly(ops)), y, x)
    {
      TimingIrrelevant(font, Text(), ops);
      RunOps(ops);
      FlushIfDue(true, now);
      UndrawCursor();
    }
  }
}
