/** The two PS/2 decoders of kernel/src/keyboard.rs as state functions. */
module ScanCodes {
  import opened Wire

  datatype Key =
    | Char(c: char) | Enter | Backspace | Tab
    | Left | Right | Up | Down | Insert | Delete | Home | End | PageUp | PageDown
    | WordLeft | WordRight

  datatype Mods = Mods(shift: bool, ctrl: bool, alt: bool, caps: bool)

  /** Modifiers and the prefixes seen but not yet used. */
  datatype Decoder = Decoder(mods: Mods, extended: bool, release: bool)

  const EXTENDED: byte := 0xE0
  const RELEASE: byte := 0xF0

  const NEWLINE: char := 10 as char
  const BACK: char := 8 as char
  const TABULATOR: char := 9 as char
  const ESCAPE: char := 27 as char

  predicate Alphabetic(c: char) { 'a' <= c <= 'z' || 'A' <= c <= 'Z' }

  function Lower(c: char): char {
    if 'A' <= c <= 'Z' then (c as int + 32) as char else c
  }

  function Upper(c: char): char {
    if 'a' <= c <= 'z' then (c as int - 32) as char else c
  }

  function ShiftSymbol(c: char): char {
    match c
    case '1' => '!' case '2' => '@' case '3' => '#' case '4' => '$' case '5' => '%'
    case '6' => '^' case '7' => '&' case '8' => '*' case '9' => '(' case '0' => ')'
    case '-' => '_' case '=' => '+' case '[' => '{' case ']' => '}' case '\\' => '|'
    case ';' => ':' case '\'' => '"' case '`' => '~' case ',' => '<' case '.' => '>'
    case '/' => '?'
    case _ => c
  }

  function Translate(m: Mods, ch: char): Key {
    if m.ctrl && Alphabetic(ch) then Char((Lower(ch) as int - 'a' as int + 1) as char)
    else
      var c := if Alphabetic(ch) then (if m.caps != m.shift then Upper(ch) else Lower(ch))
               else if m.shift then ShiftSymbol(ch) else ch;
      if c == NEWLINE then Enter else if c == BACK then Backspace else if c == TABULATOR then Tab else Char(c)
  }

  /** What a key stands for before modifiers are applied. */
  datatype Sense = Shift | Ctrl | Alt | Caps | Text(c: char) | Move(plain: Key, withCtrl: Key) | Ignored

  function Sense1(extended: bool, code: nat): Sense {
    if extended then
      match code
      case 0x4B => Move(Left, WordLeft) case 0x4D => Move(Right, WordRight)
      case 0x48 => Move(Up, Up) case 0x50 => Move(Down, Down)
      case 0x47 => Move(Home, Home) case 0x4F => Move(End, End)
      case 0x49 => Move(PageUp, PageUp) case 0x51 => Move(PageDown, PageDown)
      case 0x52 => Move(Insert, Insert) case 0x53 => Move(Delete, Delete)
      case 0x1C => Move(Enter, Enter)
      case _ => Ignored
    else
      match code
      case 0x2A => Shift case 0x36 => Shift case 0x1D => Ctrl case 0x38 => Alt case 0x3A => Caps
      case 0x01 => Text(ESCAPE)
      case 0x02 => Text('1') case 0x03 => Text('2') case 0x04 => Text('3') case 0x05 => Text('4') case 0x06 => Text('5')
      case 0x07 => Text('6') case 0x08 => Text('7') case 0x09 => Text('8') case 0x0A => Text('9') case 0x0B => Text('0')
      case 0x0C => Text('-') case 0x0D => Text('=')
      case 0x0E => Text(BACK) case 0x0F => Text(TABULATOR)
      case 0x10 => Text('q') case 0x11 => Text('w') case 0x12 => Text('e') case 0x13 => Text('r') case 0x14 => Text('t')
      case 0x15 => Text('y') case 0x16 => Text('u') case 0x17 => Text('i') case 0x18 => Text('o') case 0x19 => Text('p')
      case 0x1A => Text('[') case 0x1B => Text(']') case 0x1C => Text(NEWLINE)
      case 0x1E => Text('a') case 0x1F => Text('s') case 0x20 => Text('d') case 0x21 => Text('f') case 0x22 => Text('g')
      case 0x23 => Text('h') case 0x24 => Text('j') case 0x25 => Text('k') case 0x26 => Text('l') case 0x27 => Text(';')
      case 0x28 => Text('\'') case 0x29 => Text('`') case 0x2B => Text('\\')
      case 0x2C => Text('z') case 0x2D => Text('x') case 0x2E => Text('c') case 0x2F => Text('v') case 0x30 => Text('b')
      case 0x31 => Text('n') case 0x32 => Text('m') case 0x33 => Text(',') case 0x34 => Text('.') case 0x35 => Text('/')
      case 0x39 => Text(' ')
      case _ => Ignored
  }

  function Sense2(extended: bool, code: nat): Sense {
    if extended then
      match code
      case 0x6B => Move(Left, WordLeft) case 0x74 => Move(Right, WordRight)
      case 0x75 => Move(Up, Up) case 0x72 => Move(Down, Down)
      case 0x6C => Move(Home, Home) case 0x69 => Move(End, End)
      case 0x7D => Move(PageUp, PageUp) case 0x7A => Move(PageDown, PageDown)
      case 0x70 => Move(Insert, Insert) case 0x71 => Move(Delete, Delete)
      case 0x5A => Move(Enter, Enter)
      case _ => Ignored
    else
      match code
      case 0x12 => Shift case 0x59 => Shift case 0x14 => Ctrl case 0x11 => Alt case 0x58 => Caps
      case 0x76 => Text(ESCAPE)
      case 0x16 => Text('1') case 0x1E => Text('2') case 0x26 => Text('3') case 0x25 => Text('4') case 0x2E => Text('5')
      case 0x36 => Text('6') case 0x3D => Text('7') case 0x3E => Text('8') case 0x46 => Text('9') case 0x45 => Text('0')
      case 0x4E => Text('-') case 0x55 => Text('=')
      case 0x66 => Text(BACK) case 0x0D => Text(TABULATOR)
      case 0x15 => Text('q') case 0x1D => Text('w') case 0x24 => Text('e') case 0x2D => Text('r') case 0x2C => Text('t')
      case 0x35 => Text('y') case 0x3C => Text('u') case 0x43 => Text('i') case 0x44 => Text('o') case 0x4D => Text('p')
      case 0x54 => Text('[') case 0x5B => Text(']') case 0x5A => Text(NEWLINE)
      case 0x1C => Text('a') case 0x1B => Text('s') case 0x23 => Text('d') case 0x2B => Text('f') case 0x34 => Text('g')
      case 0x33 => Text('h') case 0x3B => Text('j') case 0x42 => Text('k') case 0x4B => Text('l') case 0x4C => Text(';')
      case 0x52 => Text('\'') case 0x0E => Text('`') case 0x5D => Text('\\')
      case 0x1A => Text('z') case 0x22 => Text('x') case 0x21 => Text('c') case 0x2A => Text('v') case 0x32 => Text('b')
      case 0x31 => Text('n') case 0x3A => Text('m') case 0x41 => Text(',') case 0x49 => Text('.') case 0x4A => Text('/')
      case 0x29 => Text(' ')
      case _ => Ignored
  }

  /** A key of known sense goes down or up. */
  function React(m: Mods, s: Sense, released: bool): (Mods, Option<Key>) {
    match s
    case Shift => (m.(shift := !released), None)
    case Ctrl => (m.(ctrl := !released), None)
    case Alt => (m.(alt := !released), None)
    case Caps => (if released then m else m.(caps := !m.caps), None)
    case Text(c) => (m, if released then None else Some(Translate(m, c)))
    case Move(plain, withCtrl) => (m, if released then None else Some(if m.ctrl then withCtrl else plain))
    case Ignored => (m, None)
  }

  /** Scan code set 1: the release bit is the top bit of the code. */
  function Decode1(d: Decoder, sc: byte): (Decoder, Option<Key>) {
    if sc == EXTENDED then (d.(extended := true), None)
    else
      var (m, key) := React(d.mods, Sense1(d.extended, sc % 0x80), sc >= 0x80);
      (d.(mods := m, extended := false), key)
  }

  /** Scan code set 2: a release is announced by a prefix. */
  function Decode2(d: Decoder, sc: byte): (Decoder, Option<Key>) {
    if sc == EXTENDED then (d.(extended := true), None)
    else if sc == RELEASE then (d.(release := true), None)
    else
      var (m, key) := React(d.mods, Sense2(d.extended, sc), d.release);
      (d.(mods := m, extended := false, release := false), key)
  }

  /** Answers of the keyboard itself, dropped before decoding. AAh is one only
      in set 2; in set 1 it is the release of the left Shift. */
  predicate Service(set2: bool, sc: byte) {
    sc in {0xFA, 0xFE, 0xEE, 0xFF, 0x00} || (set2 && sc == 0xAA)
  }

  type Decoding = (Decoder, byte) -> (Decoder, Option<Key>)

  /** One pass of the loop of next_key: service bytes go nowhere. */
  function Step(set2: bool): Decoding {
    (d: Decoder, sc: byte) =>
      if Service(set2, sc) then (d, None) else if set2 then Decode2(d, sc) else Decode1(d, sc)
  }

  /** The decoder after a whole stream, and the keys it has produced. */
  function Feed(step: Decoding, d: Decoder, bytes: seq<byte>): (Decoder, seq<Key>)
    decreases |bytes|
  {
    if bytes == [] then (d, [])
    else
      var (d1, key) := step(d, bytes[0]);
      var (d2, keys) := Feed(step, d1, bytes[1..]);
      (d2, AsSeq(key) + keys)
  }

  lemma {:induction false} FeedAppend(step: Decoding, d: Decoder, a: seq<byte>, b: seq<byte>)
    ensures var (d1, k1) := Feed(step, d, a);
      var (d2, k2) := Feed(step, d1, b);
      Feed(step, d, a + b) == (d2, k1 + k2)
    decreases |a|
  {
    if a == [] {
      assert a + b == b;
      assert [] + Feed(step, d, b).1 == Feed(step, d, b).1;
    } else {
      FeedAppend(step, step(d, a[0]).0, a[1..], b);
      assert (a + b)[0] == a[0] && (a + b)[1..] == a[1..] + b;
      var (d1, k1) := Feed(step, step(d, a[0]).0, a[1..]);
      var k2 := Feed(step, d1, b).1;
      assert AsSeq(step(d, a[0]).1) + (k1 + k2) == AsSeq(step(d, a[0]).1) + k1 + k2;
    }
  }

  lemma FeedOne(step: Decoding, d: Decoder, sc: byte)
    ensures Feed(step, d, [sc]) == (step(d, sc).0, AsSeq(step(d, sc).1))
  {
    var bytes := [sc];
    assert bytes[1..] == [];
    assert Feed(step, step(d, sc).0, bytes[1..]) == (step(d, sc).0, []);
    assert AsSeq(step(d, sc).1) + [] == AsSeq(step(d, sc).1);
  }
}
