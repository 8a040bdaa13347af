/** What the keys of a US keyboard type, said without the decoders' tables. */
module KeyboardLaws {
  import opened ScanCodes
  import opened Wire

  /** A letter key: a control character with Ctrl, else a capital exactly when
      one of Shift and Caps Lock is on but not both. */
  lemma LetterTyped(m: Mods, k: nat)
    requires k < 26
    ensures Translate(m, (97 + k) as char) ==
      if m.ctrl then Char((k + 1) as char)
      else if (m.shift && !m.caps) || (!m.shift && m.caps) then Char((65 + k) as char) else Char((97 + k) as char)
    ensures Translate(m, (65 + k) as char) == Translate(m, (97 + k) as char)
  {
  }

  const SYMBOLS: string := "1234567890-=[]\\;'`,./"
  const SHIFTED: string := "!@#$%^&*()_+{}|:\"~<>?"

  /** The other printing keys have one symbol with Shift and one without,
      whatever else is held; Caps Lock makes no difference. */
  lemma SymbolTyped(m: Mods, k: nat)
    requires k < |SYMBOLS| == |SHIFTED|
    ensures Translate(m, SYMBOLS[k]) == Char(if m.shift then SHIFTED[k] else SYMBOLS[k])
  {
    if k < 11 { LowerSymbols(m, k); } else { UpperSymbols(m, k); }
  }

  lemma LowerSymbols(m: Mods, k: nat)
    requires k < 11
    ensures Translate(m, SYMBOLS[k]) == Char(if m.shift then SHIFTED[k] else SYMBOLS[k])
  {
  }

  lemma UpperSymbols(m: Mods, k: nat)
    requires 11 <= k < |SYMBOLS| == |SHIFTED|
    ensures Translate(m, SYMBOLS[k]) == Char(if m.shift then SHIFTED[k] else SYMBOLS[k])
  {
  }

  /** The keys that print nothing, and Escape and the space bar. */
  lemma PlainKeys(m: Mods)
    ensures Translate(m, NEWLINE) == Enter && Translate(m, BACK) == Backspace && Translate(m, TABULATOR) == Tab
    ensures Translate(m, ESCAPE) == Char(ESCAPE) && Translate(m, ' ') == Char(' ')
  {
  }

  const DIGITS: string := "1234567890-="
  const TOP: string := "qwertyuiop[]"
  const HOME: string := "asdfghjkl;'`"
  const BOTTOM: string := "zxcvbnm,./"

  /** In set 1 the keys of each row have codes in order. */
  lemma DigitRow(k: nat)
    requires k < |DIGITS| == 12
    ensures Sense1(false, 0x02 + k) == Text(DIGITS[k])
  {
    if k < 6 { } else { }
  }

  lemma TopRow(k: nat)
    requires k < |TOP| == 12
    ensures Sense1(false, 0x10 + k) == Text(TOP[k])
  {
    if k < 6 { } else { }
  }

  lemma HomeRow(k: nat)
    requires k < |HOME| == 12
    ensures Sense1(false, 0x1E + k) == Text(HOME[k])
  {
    if k < 6 { } else { }
  }

  lemma BottomRow(k: nat)
    requires k < |BOTTOM| == 10
    ensures Sense1(false, 0x2C + k) == Text(BOTTOM[k])
  {
    if k < 5 { } else { }
  }

  /** What the driver takes for an answer of the keyboard: acknowledgement,
      resend, echo, the two error codes, and in set 2 the self test's. */
  lemma AnswersOnly(set2: bool, d: Decoder, sc: byte)
    ensures Service(set2, sc) <==> sc == 0xFA || sc == 0xFE || sc == 0xEE || sc == 0xFF || sc == 0 || (set2 && sc == 0xAA)
    ensures Service(set2, sc) ==> Step(set2)(d, sc) == (d, None)
  {
  }

  /** Left and right move by words while Ctrl is held. */
  lemma ArrowKeys(m: Mods)
    ensures React(m, Sense1(true, 0x4B), false) == (m, Some(if m.ctrl then WordLeft else Left))
    ensures React(m, Sense1(true, 0x4D), false) == (m, Some(if m.ctrl then WordRight else Right))
  {
  }

  /** Shift, Ctrl and Alt count while they are down, Caps Lock from one press
      to the next. */
  lemma Modifiers(m: Mods, s: Sense, s': Sense)
    requires s in {Shift, Ctrl, Alt}
    ensures React(React(m, s, false).0, s, true).0 == Released(m, s)
    ensures React(React(m, Caps, false).0, Caps, true).0 == m.(caps := !m.caps)
    ensures React(m, Shift, false).0 == m.(shift := true) && React(m, Ctrl, false).0 == m.(ctrl := true) && React(m, Alt, false).0 == m.(alt := true)
  {
  }

  function Released(m: Mods, s: Sense): Mods {
    match s
    case Shift => m.(shift := false)
    case Ctrl => m.(ctrl := false)
    case Alt => m.(alt := false)
    case _ => m
  }
}
