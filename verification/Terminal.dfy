/** The reference terminal: a grid of character cells and a naive renderer.
    It has no framebuffer, no clock, no deferred redraw and no painted cursor;
    module FramebufferConsole is proved to show what this module describes. */
module Terminal {
  import opened Glyph

  /** CP437 code, an index into the font. */
  type Code = x: int | 0 <= x < 256

  const SPACE: Code := 0x20
  const BACKSPACE: char := 8 as char

  datatype TextCell = TextCell(ch: Code, fg: Color, bg: Color)

  /** `cp437` maps the characters outside Latin-1 (box drawing and the like). */
  datatype Font = Font(glyphs: seq<seq<Line>>, cp437: char -> Code)

  /** 256 glyphs of 16 rows; glyph 0 is blank. */
  ghost predicate ValidFont(font: Font) {
    && |font.glyphs| == 256
    && (forall c :: 0 <= c < 256 ==> |font.glyphs[c]| == FONT_HEIGHT)
    && (forall dy :: 0 <= dy < FONT_HEIGHT ==> font.glyphs[0][dy] == 0)
  }

  function FontIndex(font: Font, ch: char): Code {
    if ch as int < 256 then ch as int else font.cp437(ch)
  }

  datatype Screen = Screen(cols: nat, rows: nat, cells: seq<TextCell>, col: nat, row: nat, fg: Color, bg: Color) {

    ghost predicate WellFormed() {
      && cols > 0 && rows > 0
      && |cells| == cols * rows
      && forall i :: 0 <= i < |cells| ==> cells[i].bg == bg
    }

    function Blank(): TextCell {
      TextCell(SPACE, fg, bg)
    }

    function Cleared(): Screen {
      this.(cells := seq(cols * rows, _ => Blank()), col := 0, row := 0)
    }

    /** A cell outside the grid is ignored. */
    function Drawn(cell: TextCell, c: nat, r: nat): (s: Screen)
      requires |cells| == cols * rows
      ensures |s.cells| == s.cols * s.rows && s.cols == cols && s.rows == rows
    {
      if c >= cols || r >= rows then this
      else
        CellInGrid(c, r, cols, rows);
        this.(cells := cells[r * cols + c := cell])
    }

    function Scrolled(): Screen
      requires |cells| == cols * rows && rows > 0
    {
      RowsSplit(cols, rows);
      this.(cells := cells[cols..] + seq(cols, _ => Blank()), row := rows - 1)
    }

    static predicate IsControl(ch: char) {
      ch == '\n' || ch == '\r' || ch == '\t' || ch == BACKSPACE
    }

    /** Control characters only move the cursor. */
    function Moved(ch: char): Screen
      requires cols > 0
    {
      if ch == '\n' then this.(col := 0, row := row + 1)
      else if ch == '\r' then this.(col := 0)
      else if ch == BACKSPACE then (if col > 0 then this.(col := col - 1) else this)
      else var next := (col / 4 + 1) * 4; this.(col := if next < cols - 1 then next else cols - 1)
    }

    /** The cursor after a printable character. */
    function Wrapped(): Screen {
      if col + 1 >= cols then this.(col := 0, row := row + 1) else this.(col := col + 1)
    }

    /** The cursor and the grid after one character, before scrolling. */
    function Advanced(font: Font, ch: char): Screen
      requires |cells| == cols * rows && cols > 0
    {
      if IsControl(ch) then Moved(ch) else Drawn(TextCell(FontIndex(font, ch), fg, bg), col, row).Wrapped()
    }

    function Put(font: Font, ch: char): Screen
      requires |cells| == cols * rows && cols > 0 && rows > 0
    {
      var next := Advanced(font, ch);
      if next.row >= rows then next.Scrolled() else next
    }
  }

  lemma CellInGrid(c: nat, r: nat, cols: nat, rows: nat)
    requires c < cols && r < rows
    ensures 0 <= r * cols + c < cols * rows
  {
    assert (r + 1) * cols <= rows * cols;
  }

  lemma RowsSplit(cols: nat, rows: nat)
    requires rows > 0
    ensures cols <= cols * rows
    ensures cols * rows == (rows - 1) * cols + cols
  {
  }

  lemma RowStep(r: nat, r': nat, cols: nat)
    requires r < r'
    ensures r * cols + cols <= r' * cols
  {
    assert (r + 1) * cols <= r' * cols;
  }

  /** Distinct cells have distinct indices. */
  lemma CellIndexInjective(c: nat, r: nat, c': nat, r': nat, cols: nat)
    requires c < cols && c' < cols
    requires r * cols + c == r' * cols + c'
    ensures c == c' && r == r'
  {
    if r < r' {
      RowStep(r, r', cols);
      assert false;
    } else if r' < r {
      RowStep(r', r, cols);
      assert false;
    }
  }

  function CellAt(s: Screen, c: nat, r: nat): TextCell
    requires |s.cells| == s.cols * s.rows && c < s.cols && r < s.rows
  {
    CellInGrid(c, r, s.cols, s.rows);
    s.cells[r * s.cols + c]
  }

  /** Every row of `t` is the one below it in `s`, and the last is blank. */
  ghost predicate MovedUp(s: Screen, t: Screen) {
    && |s.cells| == s.cols * s.rows && |t.cells| == t.cols * t.rows && t.cols == s.cols && t.rows == s.rows
    && forall c: nat, r: nat :: c < s.cols && r < s.rows ==>
         CellAt(t, c, r) == if r + 1 < s.rows then CellAt(s, c, r + 1) else TextCell(SPACE, s.fg, s.bg)
  }

  lemma ScrollMovesUp(s: Screen)
    requires s.WellFormed()
    ensures MovedUp(s, s.Scrolled())
  {
    var t := s.Scrolled();
    ScrolledWellFormed(s);
    RowsSplit(s.cols, s.rows);
    forall c: nat, r: nat | c < s.cols && r < s.rows
      ensures CellAt(t, c, r) == if r + 1 < s.rows then CellAt(s, c, r + 1) else TextCell(SPACE, s.fg, s.bg)
    {
      CellInGrid(c, r, s.cols, s.rows);
      if r + 1 < s.rows {
        CellInGrid(c, r + 1, s.cols, s.rows);
        assert (r + 1) * s.cols + c == r * s.cols + c + s.cols;
      }
    }
  }

  /** Pixel (dy, dx) of a cell whose colours are already in framebuffer format. */
  function NativePixel(font: Font, ch: Code, fg: Color, bg: Color, dy: nat, dx: nat): Color
    requires ValidFont(font) && dy < FONT_HEIGHT && dx < FONT_WIDTH
  {
    if ch == SPACE then bg else LinePixel(font.glyphs[ch][dy], fg, bg, dx)
  }

  predicate InGrid(s: Screen, y: nat, x: nat) {
    y / FONT_HEIGHT < s.rows && x / FONT_WIDTH < s.cols
  }

  /** The naive full render: every pixel from its cell, the margins in the
      background colour. */
  function Render(font: Font, native: Color -> Color, s: Screen, y: nat, x: nat): Color
    requires ValidFont(font) && |s.cells| == s.cols * s.rows
  {
    if InGrid(s, y, x) then
      CellInGrid(x / FONT_WIDTH, y / FONT_HEIGHT, s.cols, s.rows);
      var cell := s.cells[(y / FONT_HEIGHT) * s.cols + x / FONT_WIDTH];
      NativePixel(font, cell.ch, native(cell.fg), native(cell.bg), y % FONT_HEIGHT, x % FONT_WIDTH)
    else
      native(s.bg)
  }

  /** A cell holding code 0 or a space renders as plain background. */
  lemma {:induction false} BlankCellPixels(font: Font, ch: Code, fg: Color, bg: Color, dy: nat, dx: nat)
    requires ValidFont(font) && dy < FONT_HEIGHT && dx < FONT_WIDTH
    requires ch == SPACE || ch == 0
    ensures NativePixel(font, ch, fg, bg, dy, dx) == bg
  {
    assert Bit(0, 7 - dx) == 0;
  }

  lemma ClearedRendersBlank(font: Font, native: Color -> Color, s: Screen, y: nat, x: nat)
    requires ValidFont(font) && s.WellFormed()
    ensures Render(font, native, s.Cleared(), y, x) == native(s.bg)
  {
    if InGrid(s, y, x) {
      CellInGrid(x / FONT_WIDTH, y / FONT_HEIGHT, s.cols, s.rows);
    }
  }

  /** Writing one cell changes the pixels of that cell and no others. */
  lemma DrawnRender(font: Font, native: Color -> Color, s: Screen, cell: TextCell, c: nat, r: nat, y: nat, x: nat)
    requires ValidFont(font) && s.WellFormed() && cell.bg == s.bg && c < s.cols && r < s.rows
    ensures Render(font, native, s.Drawn(cell, c, r), y, x) ==
      if y / FONT_HEIGHT == r && x / FONT_WIDTH == c
      then NativePixel(font, cell.ch, native(cell.fg), native(cell.bg), y % FONT_HEIGHT, x % FONT_WIDTH)
      else Render(font, native, s, y, x)
  {
    CellInGrid(c, r, s.cols, s.rows);
    if InGrid(s, y, x) {
      CellInGrid(x / FONT_WIDTH, y / FONT_HEIGHT, s.cols, s.rows);
      if (y / FONT_HEIGHT) * s.cols + x / FONT_WIDTH == r * s.cols + c {
        CellIndexInjective(x / FONT_WIDTH, y / FONT_HEIGHT, c, r, s.cols);
      }
    }
  }

  /** One call on the console, with the clock reading it happens to see. */
  datatype Op =
    | Clear
    | PutChar(ch: char, now: nat)
    | DrawCharAt(ch: char, col: nat, row: nat, fg: Color)
    | SetCursor(col: nat, row: nat)
    | SetFg(fg: Color)
    | DrawCursor
    | UndrawCursor
    | UpdateCursorBlink(now: nat)
    | FlushIfDue(force: bool, now: nat)
    | AllocStaging

  /** What a call means for the grid: the cursor, flush and blink calls mean nothing. */
  function Apply(font: Font, s: Screen, op: Op): (s': Screen)
    requires s.WellFormed()
    ensures s'.WellFormed() && s'.cols == s.cols && s'.rows == s.rows && s'.bg == s.bg
  {
    match op
    case Clear => s.Cleared()
    case PutChar(ch, _) =>
      PutWellFormed(font, s, ch);
      s.Put(font, ch)
    case DrawCharAt(ch, col, row, fg) =>
      DrawnWellFormed(s, TextCell(FontIndex(font, ch), fg, s.bg), col, row);
      s.Drawn(TextCell(FontIndex(font, ch), fg, s.bg), col, row)
    case SetCursor(col, row) => s.(col := col, row := row)
    case SetFg(fg) => s.(fg := fg)
    case DrawCursor | UndrawCursor | UpdateCursorBlink(_) | FlushIfDue(_, _) | AllocStaging => s
  }

  lemma DrawnWellFormed(s: Screen, cell: TextCell, c: nat, r: nat)
    requires s.WellFormed() && cell.bg == s.bg
    ensures s.Drawn(cell, c, r).WellFormed()
  {
    if c < s.cols && r < s.rows {
      CellInGrid(c, r, s.cols, s.rows);
    }
  }

  lemma ScrolledWellFormed(s: Screen)
    requires s.WellFormed()
    ensures s.Scrolled().WellFormed()
  {
    RowsSplit(s.cols, s.rows);
  }

  lemma AdvancedWellFormed(font: Font, s: Screen, ch: char)
    requires s.WellFormed()
    ensures s.Advanced(font, ch).WellFormed()
    ensures s.Advanced(font, ch).cols == s.cols && s.Advanced(font, ch).rows == s.rows && s.Advanced(font, ch).bg == s.bg
  {
    if Screen.IsControl(ch) {
      MovedWellFormed(s, ch);
    } else {
      var drawn := s.Drawn(TextCell(FontIndex(font, ch), s.fg, s.bg), s.col, s.row);
      DrawnWellFormed(s, TextCell(FontIndex(font, ch), s.fg, s.bg), s.col, s.row);
      WrappedWellFormed(drawn);
    }
  }

  lemma MovedWellFormed(s: Screen, ch: char)
    requires s.WellFormed()
    ensures var t := s.Moved(ch); t.WellFormed() && t.cols == s.cols && t.rows == s.rows && t.bg == s.bg
  {
  }

  lemma WrappedWellFormed(s: Screen)
    requires s.WellFormed()
    ensures var t := s.Wrapped(); t.WellFormed() && t.cols == s.cols && t.rows == s.rows && t.bg == s.bg
  {
  }

  lemma PutWellFormed(font: Font, s: Screen, ch: char)
    requires s.WellFormed()
    ensures s.Put(font, ch).WellFormed()
    ensures s.Put(font, ch).cols == s.cols && s.Put(font, ch).rows == s.rows && s.Put(font, ch).bg == s.bg
  {
    AdvancedWellFormed(font, s, ch);
    ScrolledWellFormed(s.Advanced(font, ch));
  }

  function Run(font: Font, s: Screen, ops: seq<Op>): (s': Screen)
    requires s.WellFormed()
    ensures s'.WellFormed() && s'.cols == s.cols && s'.rows == s.rows && s'.bg == s.bg
  {
    if ops == [] then s else Apply(font, Run(font, s, ops[..|ops| - 1]), ops[|ops| - 1])
  }

  /** The calls that change the grid, with their clock readings forgotten. */
  function TextOnly(ops: seq<Op>): seq<Op> {
    if ops == [] then []
    else
      var before := TextOnly(ops[..|ops| - 1]);
      match ops[|ops| - 1]
      case PutChar(ch, _) => before + [PutChar(ch, 0)]
      case Clear | DrawCharAt(_, _, _, _) | SetCursor(_, _) | SetFg(_) => before + [ops[|ops| - 1]]
      case _ => before
  }

  /** Clock readings, cursor blinks and flushes have no bearing on what the
      screen should show. */
  lemma {:induction false} TimingIrrelevant(font: Font, s: Screen, ops: seq<Op>)
    requires s.WellFormed()
    ensures Run(font, s, ops) == Run(font, s, TextOnly(ops))
  {
    if ops != [] {
      var n := |ops| - 1;
      TimingIrrelevant(font, s, ops[..n]);
      var before := TextOnly(ops[..n]);
      var after := TextOnly(ops);
      if |after| == |before| + 1 {
        assert after[..|after| - 1] == before;
      }
    }
  }
}
