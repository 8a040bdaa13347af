/** What the reference terminal shows, said without its operations: text runs
    on from cell to cell and line to line, a full screen moves up by a line,
    and control characters move the cursor. */
module TerminalLaws {
  import opened Arith
  import opened Glyph
  import opened Terminal

  /** A scroll moves the picture up by one text line. */
  lemma ScrolledRender(font: Font, native: Color -> Color, s: Screen, y: nat, x: nat)
    requires ValidFont(font) && s.WellFormed() && InGrid(s, y, x)
    ensures Render(font, native, s.Scrolled(), y, x) ==
      if y / FONT_HEIGHT + 1 < s.rows then Render(font, native, s, y + FONT_HEIGHT, x) else native(s.bg)
  {
    var c, r := x / FONT_WIDTH, y / FONT_HEIGHT;
    ScrollMovesUp(s);
    ScrolledWellFormed(s);
    assert CellAt(s.Scrolled(), c, r) == if r + 1 < s.rows then CellAt(s, c, r + 1) else TextCell(SPACE, s.fg, s.bg);
    assert (y + FONT_HEIGHT) / FONT_HEIGHT == r + 1 && (y + FONT_HEIGHT) % FONT_HEIGHT == y % FONT_HEIGHT;
  }

  /** A tab goes to the next column that is a multiple of four, or to the last
      column if none comes before it. */
  lemma TabStop(s: Screen)
    requires s.cols > 0 && s.col < s.cols
    ensures var t := s.Moved('\t');
      && t == s.(col := t.col) && (t.col == s.cols - 1 || (s.col < t.col < s.cols && t.col % 4 == 0))
      && forall k :: s.col < k < t.col ==> k % 4 != 0
  {
    var t := s.Moved('\t');
    forall k | s.col < k < t.col ensures k % 4 != 0 {
      assert s.col / 4 * 4 <= s.col < s.col / 4 * 4 + 4;
    }
  }

  /** A newline starts the next line; on the last one the grid moves up. */
  lemma Newline(font: Font, s: Screen)
    requires s.WellFormed() && s.row < s.rows
    ensures var t := s.Put(font, '\n');
      && t.col == 0 && t.row == (if s.row + 1 < s.rows then s.row + 1 else s.row)
      && (if s.row + 1 < s.rows then t.cells == s.cells else MovedUp(s, t))
  {
    if s.row + 1 >= s.rows {
      ScrollMovesUp(s.Moved('\n'));
    }
  }

  /** A carriage return or a backspace moves within the line, and a backspace
      goes back over the character just printed unless that ended the line. */
  lemma BackspaceBack(font: Font, s: Screen, ch: char)
    requires s.WellFormed() && s.row < s.rows && s.col + 1 < s.cols && !Screen.IsControl(ch)
    ensures var t := s.Put(font, ch);
      && t.Put(font, BACKSPACE) == t.(col := s.col, row := s.row)
      && t.Put(font, '\r') == t.(col := 0, row := s.row)
      && CellAt(t, s.col, s.row) == TextCell(FontIndex(font, ch), s.fg, s.bg)
  {
    OneCharacter(font, s, ch);
  }

  lemma OneCharacter(font: Font, s: Screen, ch: char)
    requires s.WellFormed() && s.row < s.rows && s.col + 1 < s.cols && !Screen.IsControl(ch)
    ensures var t := s.Put(font, ch);
      t.WellFormed() && t == s.(cells := t.cells, col := s.col + 1) && CellAt(t, s.col, s.row) == TextCell(FontIndex(font, ch), s.fg, s.bg)
  {
    CellInGrid(s.col, s.row, s.cols, s.rows);
  }

  // ---- printed text in reading order ----

  function Puts(text: string): (ops: seq<Op>)
    ensures |ops| == |text|
  {
    seq(|text|, i requires 0 <= i < |text| => PutChar(text[i], 0))
  }

  /** The first `n` characters of the text stand in the cells in order, but
      for the `shift` that have left the grid; the rest is blank. */
  ghost predicate Filled(font: Font, s: Screen, cells: seq<TextCell>, text: string, n: nat, shift: nat)
    requires n <= |text|
  {
    forall i :: 0 <= i < |cells| ==>
      cells[i] == if i + shift < n then TextCell(FontIndex(font, text[i + shift]), s.fg, s.bg) else TextCell(SPACE, s.fg, s.bg)
  }

  /** And the cursor is behind the last. Only whole lines leave the grid, and
      only when the cursor is on the last one. */
  ghost predicate Shows(font: Font, s: Screen, t: Screen, text: string, n: nat, lines: nat)
    requires n <= |text|
  {
    && t.WellFormed() && t.cols == s.cols && t.rows == s.rows && t.fg == s.fg && t.bg == s.bg
    && t.col < t.cols && t.row < t.rows && t.row * s.cols + t.col + Blocks(lines, s.cols) == n
    && (lines > 0 ==> t.row == t.rows - 1)
    && Filled(font, s, t.cells, text, n, Blocks(lines, s.cols))
  }

  lemma FilledNext(font: Font, s: Screen, cells: seq<TextCell>, text: string, n: nat, shift: nat, at: nat)
    requires n < |text| && Filled(font, s, cells, text, n, shift) && at < |cells| && at + shift == n
    ensures Filled(font, s, cells[at := TextCell(FontIndex(font, text[n]), s.fg, s.bg)], text, n + 1, shift)
  {
  }

  lemma FilledUp(font: Font, s: Screen, cells: seq<TextCell>, text: string, n: nat, shift: nat, cols: nat)
    requires n <= |text| && Filled(font, s, cells, text, n, shift) && cols <= |cells| && n <= |cells| + shift
    ensures Filled(font, s, cells[cols..] + seq(cols, _ => TextCell(SPACE, s.fg, s.bg)), text, n, shift + cols)
  {
  }

  /** One more character. */
  lemma ShowsOneMore(font: Font, s: Screen, t: Screen, text: string, n: nat, lines: nat) returns (lines': nat)
    requires n < |text| && Shows(font, s, t, text, n, lines) && !Screen.IsControl(text[n])
    ensures Shows(font, s, t.Put(font, text[n]), text, n + 1, lines')
  {
    var cell := TextCell(FontIndex(font, text[n]), t.fg, t.bg);
    var at := t.row * t.cols + t.col;
    PutWellFormed(font, t, text[n]);
    CellInGrid(t.col, t.row, t.cols, t.rows);
    FilledNext(font, s, t.cells, text, n, Blocks(lines, s.cols), at);
    lines' := lines;
    if t.col + 1 >= t.cols {
      lines' := NextLine(font, s, t.Drawn(cell, t.col, t.row), text, n, lines);
    }
  }

  /** The same where it has ended a line. */
  lemma NextLine(font: Font, s: Screen, drawn: Screen, text: string, n: nat, lines: nat) returns (lines': nat)
    requires n < |text| && drawn.WellFormed() && drawn.cols == s.cols && drawn.rows == s.rows && drawn.fg == s.fg && drawn.bg == s.bg
    requires drawn.row < drawn.rows && drawn.col == s.cols - 1 && drawn.row * s.cols + drawn.col + Blocks(lines, s.cols) == n
    requires (lines > 0 ==> drawn.row == drawn.rows - 1) && Filled(font, s, drawn.cells, text, n + 1, Blocks(lines, s.cols))
    ensures var next := drawn.Wrapped();
      Shows(font, s, if next.row >= next.rows then next.Scrolled() else next, text, n + 1, lines')
  {
    var shift := Blocks(lines, s.cols);
    OneRowOn(drawn.row, s.cols);
    lines' := lines;
    if drawn.row + 1 >= drawn.rows {
      lines' := lines + 1;
      LastRow(font, s, drawn, text, n, shift);
      assert Blocks(lines', s.cols) == shift + s.cols;
    }
  }

  lemma OneRowOn(row: nat, cols: nat)
    ensures (row + 1) * cols == row * cols + cols
  {
  }

  lemma LastRow(font: Font, s: Screen, drawn: Screen, text: string, n: nat, shift: nat)
    requires n < |text| && drawn.WellFormed() && drawn.cols == s.cols && drawn.rows == s.rows && drawn.fg == s.fg && drawn.bg == s.bg
    requires drawn.row == s.rows - 1 && drawn.col == s.cols - 1 && drawn.row * s.cols + drawn.col + shift == n
    requires Filled(font, s, drawn.cells, text, n + 1, shift)
    ensures var t := drawn.Wrapped().Scrolled();
      && t.WellFormed() && t.cols == s.cols && t.rows == s.rows && t.fg == s.fg && t.bg == s.bg && t.row == s.rows - 1 && t.col == 0
      && Filled(font, s, t.cells, text, n + 1, shift + s.cols)
  {
    RowsSplit(s.cols, s.rows);
    ScrolledWellFormed(drawn.Wrapped());
    FilledUp(font, s, drawn.cells, text, n + 1, shift, s.cols);
  }

  /** Any text without control characters, printed on a cleared screen. */
  lemma {:induction false} TextShown(font: Font, s: Screen, text: string) returns (lines: nat)
    requires s.WellFormed() && s == s.Cleared() && forall ch :: ch in text ==> !Screen.IsControl(ch)
    ensures Shows(font, s, Run(font, s, Puts(text)), text, |text|, lines)
  {
    if text == "" {
      lines := 0;
    } else {
      var n := |text| - 1;
      var before := TextShown(font, s, text[..n]);
      assert Puts(text)[..n] == Puts(text[..n]);
      var t := Run(font, s, Puts(text[..n]));
      ShownOfMore(font, s, t, text, n, before);
      lines := ShowsOneMore(font, s, t, text, n, before);
    }
  }

  lemma ShownOfMore(font: Font, s: Screen, t: Screen, text: string, n: nat, lines: nat)
    requires n <= |text| && Shows(font, s, t, text[..n], n, lines)
    ensures Shows(font, s, t, text, n, lines)
  {
  }

  lemma ShownAt(font: Font, s: Screen, t: Screen, text: string, lines: nat, c: nat, r: nat, i: nat)
    requires Shows(font, s, t, text, |text|, lines) && c < s.cols && r < s.rows && i == r * s.cols + c + Blocks(lines, s.cols)
    ensures CellAt(t, c, r) == if i < |text| then TextCell(FontIndex(font, text[i]), s.fg, s.bg) else TextCell(SPACE, s.fg, s.bg)
  {
    CellInGrid(c, r, s.cols, s.rows);
  }

  /** Where the cell in column c of the r-th line shown stands in the text. */
  function Position(s: Screen, lines: nat, c: nat, r: nat): nat {
    Blocks(r + lines, s.cols) + c
  }

  /** Each cell then holds the character that many lines and columns into the
      text, counted from the first line still shown. */
  lemma ReadingOrder(font: Font, s: Screen, text: string, c: nat, r: nat) returns (lines: nat)
    requires s.WellFormed() && s == s.Cleared() && c < s.cols && r < s.rows && forall ch :: ch in text ==> !Screen.IsControl(ch)
    ensures var t, i := Run(font, s, Puts(text)), Position(s, lines, c, r);
      && (lines > 0 ==> t.row == t.rows - 1)
      && CellAt(t, c, r) == (if i < |text| then TextCell(FontIndex(font, text[i]), s.fg, s.bg) else TextCell(SPACE, s.fg, s.bg))
      && (i < |text| && text[i] as int < 256 ==> CellAt(t, c, r).ch == text[i] as int)
  {
    lines := TextShown(font, s, text);
    BlocksTimes(r, s.cols);
    BlocksAdd(r, lines, s.cols);
    ShownAt(font, s, Run(font, s, Puts(text)), text, lines, c, r, Position(s, lines, c, r));
  }
}
