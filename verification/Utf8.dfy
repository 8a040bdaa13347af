/** UTF-8 well-formedness (section 4 of RFC 3629) in the form the streaming
    printer needs it: how far a byte sequence is valid, and whether it then
    stops inside a character or holds a byte that cannot be there. */
module Utf8 {
  import opened Wire

  predicate Continuation(b: byte) { 0x80 <= b < 0xC0 }

  /** Bytes of a character by its lead byte; 0 if no character starts so. */
  function Width(lead: byte): nat {
    if lead < 0x80 then 1
    else if 0xC2 <= lead < 0xE0 then 2
    else if 0xE0 <= lead < 0xF0 then 3
    else if 0xF0 <= lead < 0xF5 then 4
    else 0
  }

  /** The second byte also excludes overlong forms, surrogates and values
      above 10FFFFh. */
  predicate SecondOk(lead: byte, b: byte) {
    if lead == 0xE0 then 0xA0 <= b < 0xC0
    else if lead == 0xED then 0x80 <= b < 0xA0
    else if lead == 0xF0 then 0x90 <= b < 0xC0
    else if lead == 0xF4 then 0x80 <= b < 0x90
    else Continuation(b)
  }

  datatype Head = Complete(n: nat) | Cut | Bad

  /** The first character of a non-empty sequence. */
  function First(s: seq<byte>): (h: Head)
    requires s != []
    ensures h.Complete? ==> 0 < h.n <= |s| && h.n <= 4
    ensures h.Cut? ==> |s| < 4
  {
    var w := Width(s[0]);
    if w == 0 then Bad
    else if w == 1 then Complete(1)
    else if |s| < 2 then Cut
    else if !SecondOk(s[0], s[1]) then Bad
    else if w == 2 then Complete(2)
    else if |s| < 3 then Cut
    else if !Continuation(s[2]) then Bad
    else if w == 3 then Complete(3)
    else if |s| < 4 then Cut
    else if !Continuation(s[3]) then Bad
    else Complete(4)
  }

  datatype Verdict = Clean | Unfinished | Broken

  /** Length of the valid prefix, and what follows it: nothing, the beginning
      of a character, or a byte that fits nowhere. */
  datatype Check = Check(valid: nat, verdict: Verdict)

  function Validate(s: seq<byte>): (c: Check)
    ensures c.valid <= |s|
    ensures c.verdict.Clean? <==> c.valid == |s|
  {
    if s == [] then Check(0, Clean)
    else
      match First(s)
      case Complete(n) => var rest := Validate(s[n..]); Check(n + rest.valid, rest.verdict)
      case Cut => Check(0, Unfinished)
      case Bad => Check(0, Broken)
  }

  lemma FirstStable(a: seq<byte>, b: seq<byte>)
    requires a != [] && !First(a).Cut?
    ensures First(a + b) == First(a)
  {
  }

  lemma ValidateStep(s: seq<byte>, rest: seq<byte>, n: nat)
    requires s != [] && First(s) == Complete(n) && rest == s[n..]
    ensures Validate(s) == Check(n + Validate(rest).valid, Validate(rest).verdict)
  {
  }

  lemma ValidateAppendStep(a: seq<byte>, b: seq<byte>, n: nat)
    requires a != [] && First(a) == Complete(n)
    ensures Validate(a + b) == Check(n + Validate(a[n..] + b).valid, Validate(a[n..] + b).verdict)
  {
    FirstStable(a, b);
    assert (a + b)[n..] == a[n..] + b;
  }

  /** Checking in two goes: the valid part of a prefix need not be looked at
      again. */
  lemma {:induction false} ValidateAppend(a: seq<byte>, b: seq<byte>)
    ensures var v := Validate(a).valid;
      Validate(a + b) == Check(v + Validate(a[v..] + b).valid, Validate(a[v..] + b).verdict)
  {
    if a == [] {
      assert a + b == b;
    } else if First(a).Complete? {
      var n := First(a).n;
      var rest := a[n..];
      ValidateStep(a, rest, n);
      ValidateAppendStep(a, b, n);
      ValidateAppend(rest, b);
      assert rest[Validate(rest).valid..] == a[n + Validate(rest).valid..];
    } else {
      assert a[0..] == a;
    }
  }

  /** A byte that fits nowhere stays wrong whatever follows. */
  lemma {:induction false} BrokenStays(a: seq<byte>, b: seq<byte>)
    requires Validate(a).verdict == Broken
    ensures Validate(a + b) == Validate(a)
  {
    if a != [] && First(a).Complete? {
      var n := First(a).n;
      FirstStable(a, b);
      BrokenStays(a[n..], b);
      assert (a + b)[n..] == a[n..] + b;
    } else {
      FirstStable(a, b);
    }
  }

  /** What is left after the valid part is less than one character. */
  lemma {:induction false} RestIsPartial(s: seq<byte>)
    ensures var v := Validate(s).valid; Validate(s[v..]) == Check(0, Validate(s).verdict)
    ensures Validate(s).verdict == Unfinished ==> |s| - Validate(s).valid < 4
  {
    if s != [] && First(s).Complete? {
      var n := First(s).n;
      RestIsPartial(s[n..]);
      DropTwice(s, n, Validate(s[n..]).valid);
    }
  }

  lemma DropTwice(s: seq<byte>, n: nat, v: nat)
    requires n + v <= |s|
    ensures s[n..][v..] == s[n + v..]
  {
  }

  /** The encoding of one character. */
  function EncodeChar(c: char): (b: seq<byte>) {
    var v := c as int;
    if v < 0x80 then [v]
    else if v < 0x800 then [0xC0 + v / 0x40, 0x80 + v % 0x40]
    else if v < 0x1_0000 then [0xE0 + v / 0x1000, 0x80 + v / 0x40 % 0x40, 0x80 + v % 0x40]
    else [0xF0 + v / 0x4_0000, 0x80 + v / 0x1000 % 0x40, 0x80 + v / 0x40 % 0x40, 0x80 + v % 0x40]
  }

  function Encode(s: string): seq<byte> {
    if s == "" then [] else EncodeChar(s[0]) + Encode(s[1..])
  }

  lemma EncodedCharComplete(c: char, rest: seq<byte>)
    ensures First(EncodeChar(c) + rest) == Complete(|EncodeChar(c)|)
  {
  }

  /** Every encoded text is clean. */
  lemma {:induction false} EncodedIsClean(s: string)
    ensures Validate(Encode(s)).verdict == Clean
  {
    if s != "" {
      EncodedCharComplete(s[0], Encode(s[1..]));
      EncodedIsClean(s[1..]);
      assert Encode(s)[|EncodeChar(s[0])|..] == Encode(s[1..]);
    }
  }

  lemma SixBits(hi: nat, lo: nat)
    requires lo < 0x40
    ensures (hi * 0x40 + lo) / 0x40 == hi && (hi * 0x40 + lo) % 0x40 == lo
  {
  }

  function Low6(b: byte): nat { b % 0x40 }

  function Decode2(s: seq<byte>): (c: char)
    requires |s| == 2 && Width(s[0]) == 2 && Continuation(s[1])
    ensures EncodeChar(c) == s
  {
    SixBits(s[0] - 0xC0, Low6(s[1]));
    ((s[0] - 0xC0) * 0x40 + Low6(s[1])) as char
  }

  function Decode3(s: seq<byte>): (c: char)
    requires |s| == 3 && Width(s[0]) == 3 && SecondOk(s[0], s[1]) && Continuation(s[2])
    ensures EncodeChar(c) == s
  {
    var hi := (s[0] - 0xE0) * 0x40 + Low6(s[1]);
    SixBits(s[0] - 0xE0, Low6(s[1]));
    SixBits(hi, Low6(s[2]));
    (hi * 0x40 + Low6(s[2])) as char
  }

  /** A number from its base-64 digits. */
  lemma FourDigits(h: nat, x: nat, y: nat, z: nat)
    requires x < 0x40 && y < 0x40 && z < 0x40
    ensures var v := ((h * 0x40 + x) * 0x40 + y) * 0x40 + z;
      v / 0x4_0000 == h && v / 0x1000 % 0x40 == x && v / 0x40 % 0x40 == y && v % 0x40 == z
  {
    var v := ((h * 0x40 + x) * 0x40 + y) * 0x40 + z;
    assert v == 0x4_0000 * h + (0x1000 * x + 0x40 * y + z);
    assert v / 0x1000 == h * 0x40 + x;
    assert v / 0x40 == (h * 0x40 + x) * 0x40 + y;
    SixBits(h, x);
    SixBits(h * 0x40 + x, y);
    SixBits((h * 0x40 + x) * 0x40 + y, z);
  }

  function Decode4(s: seq<byte>): (c: char)
    requires |s| == 4 && Width(s[0]) == 4 && SecondOk(s[0], s[1]) && Continuation(s[2]) && Continuation(s[3])
    ensures EncodeChar(c) == s
  {
    var top := (s[0] - 0xF0) * 0x40 + Low6(s[1]);
    var mid := top * 0x40 + Low6(s[2]);
    FourDigits(s[0] - 0xF0, Low6(s[1]), Low6(s[2]), Low6(s[3]));
    (mid * 0x40 + Low6(s[3])) as char
  }

  /** The character a complete head stands for. */
  function DecodeFirst(s: seq<byte>): (c: char)
    requires s != [] && First(s).Complete?
    ensures EncodeChar(c) == s[..First(s).n]
  {
    var n := First(s).n;
    if n == 1 then s[0] as char
    else if n == 2 then Decode2(s[..2])
    else if n == 3 then Decode3(s[..3])
    else Decode4(s[..4])
  }

  lemma HeadDecodes(b: seq<byte>) returns (c: char, n: nat)
    requires b != [] && Validate(b).verdict == Clean
    ensures 0 < n <= |b| && EncodeChar(c) == b[..n] && Validate(b[n..]).verdict == Clean
  {
    c, n := DecodeFirst(b), First(b).n;
  }

  lemma EncodeCons(c: char, rest: string)
    ensures Encode([c] + rest) == EncodeChar(c) + Encode(rest)
  {
    assert ([c] + rest)[1..] == rest;
  }

  /** Every clean sequence is the encoding of some text. */
  lemma {:induction false} CleanIsEncoded(b: seq<byte>) returns (s: string)
    requires Validate(b).verdict == Clean
    ensures Encode(s) == b
  {
    if b == [] {
      return "";
    }
    var c, n := HeadDecodes(b);
    var rest := CleanIsEncoded(b[n..]);
    s := [c] + rest;
    EncodeCons(c, rest);
    assert b[..n] + b[n..] == b;
  }

  const REPLACEMENT: char := 0xFFFD as char

  /** Bytes that a broken head replaces: those that could still have begun a
      character. */
  function BadLength(s: seq<byte>): (n: nat)
    requires s != [] && First(s).Bad?
    ensures 0 < n <= |s|
  {
    if Width(s[0]) == 0 || !SecondOk(s[0], s[1]) then 1
    else if !Continuation(s[2]) then 2
    else 3
  }

  /** Reads any bytes as text, with a replacement character for what is none. */
  function Lossy(s: seq<byte>): string
    decreases |s|
  {
    if s == [] then ""
    else
      match First(s)
      case Complete(n) => [DecodeFirst(s)] + Lossy(s[n..])
      case Cut => [REPLACEMENT]
      case Bad => [REPLACEMENT] + Lossy(s[BadLength(s)..])
  }

  /** The number that the bytes of a character stand for. */
  function Value(b: seq<byte>): int {
    if |b| == 1 then b[0]
    else if |b| == 2 then Digits(b[0] as int - 0xC0, b[1])
    else if |b| == 3 then Digits(Digits(b[0] as int - 0xE0, b[1]), b[2])
    else if |b| == 4 then Digits(Digits(Digits(b[0] as int - 0xF0, b[1]), b[2]), b[3])
    else 0
  }

  function Digits(hi: int, lo: int): int { hi * 0x40 + (lo - 0x80) }

  lemma CharValue(c: char)
    ensures Value(EncodeChar(c)) == c as int
  {
    var v := c as int;
    LastDigit(v);
    LastDigit(v / 0x40);
    LastDigit(v / 0x1000);
    assert v / 0x40 / 0x40 == v / 0x1000 && v / 0x1000 / 0x40 == v / 0x4_0000;
  }

  lemma LastDigit(v: int)
    ensures Digits(v / 0x40, 0x80 + v % 0x40) == v
  {
  }

  lemma EncodeCharInjective(c: char, d: char)
    requires EncodeChar(c) == EncodeChar(d)
    ensures c == d
  {
    CharValue(c);
    CharValue(d);
  }

  /** A text reads as itself. */
  lemma {:induction false} LossyEncode(s: string)
    ensures Lossy(Encode(s)) == s
  {
    if s != "" {
      var b, rest := EncodeChar(s[0]), Encode(s[1..]);
      EncodedCharComplete(s[0], rest);
      assert (b + rest)[..|b|] == b && (b + rest)[|b|..] == rest;
      EncodeCharInjective(s[0], DecodeFirst(b + rest));
      LossyEncode(s[1..]);
    }
  }
}
