/** Glyph rows and the two-pixel words they are expanded into
    (`expand_line` and `write_glyph_row` in kernel/src/framebuffer.rs). */
module Glyph {

  const FONT_WIDTH: nat := 8
  const FONT_HEIGHT: nat := 16

  type Color = bv32

  /** One pixel row of a glyph. */
  type Line = x: int | 0 <= x < 0x100

  function Pow2(k: nat): (p: nat)
    ensures p > 0
  {
    if k == 0 then 1 else 2 * Pow2(k - 1)
  }

  /** `(line >> k) & 1`. */
  function Bit(line: Line, k: nat): (bit: nat)
    ensures bit < 2
  {
    (line / Pow2(k)) % 2
  }

  /** Pixel `dx` of a glyph row; bit 7 is the leftmost pixel. */
  function LinePixel(line: Line, fg: Color, bg: Color, dx: nat): Color
    requires dx < FONT_WIDTH
  {
    if Bit(line, 7 - dx) == 1 then fg else bg
  }

  /** The pixels of a row, read from the left as binary digits, are the row. */
  lemma PixelsAreLine(line: Line, fg: Color, bg: Color)
    requires fg != bg
    ensures Digits(seq(FONT_WIDTH, dx requires 0 <= dx < FONT_WIDTH => LinePixel(line, fg, bg, dx) == fg)) == line
  {
    var lit := seq(FONT_WIDTH, dx requires 0 <= dx < FONT_WIDTH => LinePixel(line, fg, bg, dx) == fg);
    FirstDigits(line, lit, FONT_WIDTH);
    Powers();
    assert lit[..FONT_WIDTH] == lit;
  }

  lemma {:induction false} FirstDigits(line: Line, lit: seq<bool>, k: nat)
    requires k <= FONT_WIDTH == |lit| && forall dx :: 0 <= dx < FONT_WIDTH ==> lit[dx] == (Bit(line, 7 - dx) == 1)
    ensures Digits(lit[..k]) == line / Pow2(FONT_WIDTH - k)
  {
    if k > 0 {
      FirstDigits(line, lit, k - 1);
      Halves(line, FONT_WIDTH - k);
      assert lit[..k][..k - 1] == lit[..k - 1];
    } else {
      Powers();
    }
  }

  lemma Halves(line: Line, j: nat)
    requires j < FONT_WIDTH
    ensures line / Pow2(j) == 2 * (line / Pow2(j + 1)) + Bit(line, j)
  {
    Powers();
  }

  lemma Powers()
    ensures Pow2(0) == 1 && Pow2(1) == 2 && Pow2(2) == 4 && Pow2(3) == 8 && Pow2(4) == 16
    ensures Pow2(5) == 32 && Pow2(6) == 64 && Pow2(7) == 128 && Pow2(8) == 256
  {
  }

  function Digits(lit: seq<bool>): nat {
    if lit == [] then 0 else 2 * Digits(lit[..|lit| - 1]) + if lit[|lit| - 1] then 1 else 0
  }

  /** A u64 of the source: two pixels, the left one in the low half. */
  datatype Word = Word(left: Color, right: Color) {
    function At(i: nat): Color
      requires i < 2
    {
      if i == 0 then left else right
    }
  }

  function Pack(w: Word): bv64 {
    (w.left as bv64) | ((w.right as bv64) << 32)
  }

  /** Splitting the packed u64 gives back the two pixels it was built from,
      so `Word` loses nothing of the source's representation. */
  lemma PackedHalves(w: Word)
    ensures (Pack(w) & 0xFFFF_FFFF) as bv32 == w.left
    ensures (Pack(w) >> 32) as bv32 == w.right
  {
  }

  /** Branch-free choice: 0 or 1 negated in 32-bit arithmetic is an all-zeros
      or all-ones mask. */
  function Choose(bit: nat, fg: Color, bg: Color): (c: Color)
    requires bit < 2
    ensures c == if bit == 1 then fg else bg
  {
    var mask: bv32 := 0 - (if bit == 1 then 1 else 0);
    (fg & mask) | (bg & !mask)
  }

  predicate IsExpansion(words: seq<Word>, line: Line, fg: Color, bg: Color) {
    && |words| == FONT_WIDTH / 2
    && forall dx: nat :: dx < FONT_WIDTH ==> words[dx / 2].At(dx % 2) == LinePixel(line, fg, bg, dx)
  }

  method ExpandLine(line: Line, fg: Color, bg: Color) returns (words: seq<Word>)
    ensures IsExpansion(words, line, fg, bg)
  {
    words := [];
    var pair := 0;
    while pair < 4
      invariant 0 <= pair <= 4 && |words| == pair
      invariant forall dx: nat :: dx < 2 * pair ==> words[dx / 2].At(dx % 2) == LinePixel(line, fg, bg, dx)
    {
      var left := Choose(Bit(line, 7 - 2 * pair), fg, bg);
      var right := Choose(Bit(line, 6 - 2 * pair), fg, bg);
      words := words + [Word(left, right)];
      pair := pair + 1;
    }
  }
}
