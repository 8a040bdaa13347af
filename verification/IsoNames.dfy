/** The three ways a disc names its files, as kernel/src/fs/iso9660.rs reads
    them: plain identifiers, Joliet (UCS-2, big-endian) and Rock Ridge `NM`. */
module IsoNames {
  import opened Wire
  import Utf8
  import Utf16

  const SEMICOLON: byte := 0x3B

  function TrimDots(s: string): string {
    if s != "" && s[|s| - 1] == '.' then TrimDots(s[..|s| - 1]) else s
  }

  /** The part before the first separator of the version number. */
  function Before<T(==)>(s: seq<T>, separator: T): seq<T> {
    if s == [] || s[0] == separator then [] else [s[0]] + Before(s[1..], separator)
  }

  function IsoName(raw: seq<byte>): string {
    TrimDots(Utf8.Lossy(Before(raw, SEMICOLON)))
  }

  function Unit(hi: byte, lo: byte): u16 { hi as int * 0x100 + lo as int }

  /** Big-endian pairs; an odd last byte is left out. */
  function Units(raw: seq<byte>): seq<u16> {
    if |raw| < 2 then [] else [Unit(raw[0], raw[1])] + Units(raw[2..])
  }

  function JolietName(raw: seq<byte>): string {
    TrimDots(Utf16.Decode(Before<u16>(Units(raw), SEMICOLON)))
  }

  /** How bytes are checked and read as text. */
  type TextReader = seq<byte> -> Option<string>

  function FromUtf8(): TextReader {
    b => if Utf8.Validate(b).verdict.Clean? then Some(Utf8.Lossy(b)) else None
  }

  /** The text an `NM` entry adds: none if it says another one continues it or
      if it is no text. */
  function EntryText(entry: seq<byte>, read: TextReader): string {
    if |entry| > 4 && entry[0] == 0x4E && entry[1] == 0x4D && entry[4] % 2 == 0
    then (match read(entry[5..]) case Some(text) => text case None => "") else ""
  }

  /** The texts of the system-use entries from byte i on. */
  function NmText(sys: seq<byte>, read: TextReader, i: nat): string
    decreases |sys| - i
  {
    if i + 4 > |sys| then ""
    else
      var len: nat := sys[i + 2];
      if len < 4 || i + len > |sys| then "" else EntryText(sys[i..i + len], read) + NmText(sys, read, i + len)
  }

  function RockRidgeName(sys: seq<byte>, read: TextReader): Option<string> {
    var name := NmText(sys, read, 0);
    if name != "" then Some(name) else None
  }

  /** The name of a record with this identifier and these system-use bytes. */
  function NameOf(joliet: bool, raw: seq<byte>, sys: seq<byte>): string {
    if joliet then JolietName(raw)
    else
      match RockRidgeName(sys, FromUtf8())
      case Some(name) => name
      case None => IsoName(raw)
  }

  method ReadRockRidge(sys: seq<byte>, read: TextReader) returns (name: Option<string>)
    ensures name == RockRidgeName(sys, read)
  {
    var out, found := "", false;
    var i := 0;
    while i + 4 <= |sys|
      invariant NmText(sys, read, 0) == out + NmText(sys, read, i) && (out != "" ==> found)
      decreases |sys| - i
    {
      var len: nat := sys[i + 2];
      if len < 4 || i + len > |sys| {
        break;
      }
      var text, named := ReadEntry(sys[i..i + len], read);
      Regroup(out, text, NmText(sys, read, i + len));
      out, found := out + text, found || named;
      i := i + len;
    }
    Regroup(out, "", "");
    return if found && out != "" then Some(out) else None;
  }

  /** One system-use entry. */
  method ReadEntry(entry: seq<byte>, read: TextReader) returns (text: string, named: bool)
    requires |entry| >= 4
    ensures text == EntryText(entry, read) && (text != "" ==> named)
  {
    text, named := "", false;
    if entry[0] == 0x4E && entry[1] == 0x4D && |entry| > 4 {
      if entry[4] % 2 == 0 {
        var part := read(entry[5..]);
        if part.Some? {
          text := part.value;
        }
        named := true;
      }
    }
  }

  method ReadJoliet(raw: seq<byte>) returns (name: string)
    ensures name == JolietName(raw)
  {
    var units: seq<u16> := [];
    var i := 0;
    while i + 1 < |raw|
      invariant i <= |raw| && Units(raw) == units + Units(raw[i..])
    {
      assert raw[i..][2..] == raw[i + 2..];
      Regroup(units, [Unit(raw[i], raw[i + 1])], Units(raw[i + 2..]));
      units := units + [Unit(raw[i], raw[i + 1])];
      i := i + 2;
    }
    Regroup(units, [], []);
    var kept := Before<u16>(units, SEMICOLON);
    name := Utf16.ToString(kept, |kept|);
    assert kept[..|kept|] == kept;
    while name != "" && name[|name| - 1] == '.'
      invariant TrimDots(name) == JolietName(raw)
      decreases |name|
    {
      name := name[..|name| - 1];
    }
  }

  // ---- names as a disc master spells them ----

  /** What a listing can show: no separator in it and no dot at its end. */
  predicate Nameable(name: string) {
    ';' !in name && (name == "" || name[|name| - 1] != '.')
  }

  function Dots(n: nat): string {
    if n == 0 then "" else Dots(n - 1) + "."
  }

  function BigEndian(units: seq<u16>): seq<byte> {
    if units == [] then [] else [units[0] / 0x100, units[0] % 0x100] + BigEndian(units[1..])
  }

  /** How a name is spelled: `README` as `README.;1`, say. */
  datatype Spelling = Spelling(name: string, dots: nat, version: Option<seq<byte>>)

  function Dotted(spelling: Spelling): string {
    spelling.name + Dots(spelling.dots)
  }

  function Spelled(joliet: bool, spelling: Spelling): seq<byte> {
    if joliet
    then BigEndian(Utf16.Encode(Dotted(spelling))) + (if spelling.version.Some? then [0, SEMICOLON] + spelling.version.value else [])
    else Utf8.Encode(Dotted(spelling)) + (if spelling.version.Some? then [SEMICOLON] + spelling.version.value else [])
  }

  lemma {:induction false} BeforeSplit<T>(s: seq<T>, rest: seq<T>, separator: T)
    requires separator !in s && (rest == [] || rest[0] == separator)
    ensures Before(s + rest, separator) == s
  {
    if s == [] {
      assert s + rest == rest;
    } else {
      assert (s + rest)[1..] == s[1..] + rest;
      BeforeSplit(s[1..], rest, separator);
    }
  }

  lemma UnitFirst(u: u16, rest: seq<byte>)
    ensures Units([u / 0x100, u % 0x100] + rest) == [u] + Units(rest)
  {
    var raw := [u / 0x100, u % 0x100] + rest;
    assert raw[2..] == rest;
  }

  lemma {:induction false} UnitsSplit(units: seq<u16>, rest: seq<byte>)
    ensures Units(BigEndian(units) + rest) == units + Units(rest)
  {
    if units == [] {
      assert BigEndian(units) + rest == rest;
    } else {
      var u, tail := units[0], BigEndian(units[1..]) + rest;
      Regroup([u / 0x100, u % 0x100], BigEndian(units[1..]), rest);
      UnitFirst(u, tail);
      UnitsSplit(units[1..], rest);
      Regroup([u], units[1..], Units(rest));
      assert [u] + units[1..] == units;
    }
  }

  lemma {:induction false} NoSeparator(name: string)
    requires ';' !in name
    ensures SEMICOLON !in Utf8.Encode(name) && SEMICOLON !in Utf16.Encode(name)
  {
    if name != "" {
      NoSeparator(name[1..]);
      assert name[0] != ';';
      assert SEMICOLON !in Utf8.EncodeChar(name[0]) && SEMICOLON !in Utf16.EncodeChar(name[0]);
    }
  }

  lemma {:induction false} DotsBehind(name: string, n: nat)
    requires Nameable(name)
    ensures TrimDots(name + Dots(n)) == name && ';' !in name + Dots(n)
  {
    var text := name + Dots(n);
    if n == 0 {
      assert text == name;
    } else {
      DotsBehind(name, n - 1);
      assert text == (name + Dots(n - 1)) + ".";
      assert text[..|text| - 1] == name + Dots(n - 1);
    }
  }

  /** A spelled name reads as the name, without its version and the dots
      before it, whatever script it is in. */
  lemma PlainReads(spelling: Spelling)
    requires Nameable(spelling.name)
    ensures IsoName(Spelled(false, spelling)) == spelling.name
  {
    var text := Dotted(spelling);
    DotsBehind(spelling.name, spelling.dots);
    NoSeparator(text);
    BeforeSplit(Utf8.Encode(text), if spelling.version.Some? then [SEMICOLON] + spelling.version.value else [], SEMICOLON);
    Utf8.LossyEncode(text);
  }

  lemma JolietUnits(units: seq<u16>, version: Option<seq<byte>>)
    requires SEMICOLON !in units
    ensures Before<u16>(Units(BigEndian(units) + (if version.Some? then [0, SEMICOLON] + version.value else [])), SEMICOLON) == units
  {
    var tail: seq<byte> := if version.Some? then [0, SEMICOLON] + version.value else [];
    VersionUnits(version);
    UnitsSplit(units, tail);
    BeforeSplit<u16>(units, Units(tail), SEMICOLON);
  }

  lemma JolietReads(spelling: Spelling)
    requires Nameable(spelling.name)
    ensures JolietName(Spelled(true, spelling)) == spelling.name
  {
    var text := Dotted(spelling);
    DotsBehind(spelling.name, spelling.dots);
    NoSeparator(text);
    JolietUnits(Utf16.Encode(text), spelling.version);
    Utf16.DecodeEncode(text);
  }

  lemma VersionUnits(version: Option<seq<byte>>)
    ensures var units := Units(if version.Some? then [0, SEMICOLON] + version.value else []);
      units == [] || units[0] == SEMICOLON
  {
  }

  // ---- every plain identifier is some spelling ----

  lemma {:induction false} BeforeSplits<T>(s: seq<T>, separator: T)
    ensures var b := Before(s, separator);
      b <= s && separator !in b && (|b| < |s| ==> s[|b|] == separator)
  {
    if s != [] && s[0] != separator {
      BeforeSplits(s[1..], separator);
    }
  }

  lemma {:induction false} SeparatorEncoded(name: string)
    requires ';' in name
    ensures SEMICOLON in Utf8.Encode(name)
  {
    if name[0] == ';' {
      assert Utf8.Encode(name)[0] == SEMICOLON;
    } else {
      SeparatorEncoded(name[1..]);
    }
  }

  lemma {:induction false} Undotted(text: string) returns (dots: nat)
    ensures text == TrimDots(text) + Dots(dots)
    ensures TrimDots(text) == "" || TrimDots(text)[|TrimDots(text)| - 1] != '.'
  {
    dots := 0;
    if text != "" && text[|text| - 1] == '.' {
      var fewer := Undotted(text[..|text| - 1]);
      Regroup(TrimDots(text), Dots(fewer), ".");
      dots := fewer + 1;
    }
  }

  /** Whatever a plain identifier holds, if what stands before its version is
      text it is the spelling of a name. */
  lemma EveryIdentifier(id: seq<byte>) returns (spelling: Spelling)
    requires Utf8.Validate(Before(id, SEMICOLON)).verdict.Clean?
    ensures Nameable(spelling.name) && Spelled(false, spelling) == id
  {
    var text := TextBefore(id);
    var dots := Undotted(text);
    var at := |Utf8.Encode(text)|;
    spelling := Spelling(TrimDots(text), dots, if at < |id| then Some(id[at + 1..]) else None);
  }

  lemma TextBefore(id: seq<byte>) returns (text: string)
    requires Utf8.Validate(Before(id, SEMICOLON)).verdict.Clean?
    ensures ';' !in text
    ensures var b := Utf8.Encode(text); |b| <= |id| && id == b + (if |b| < |id| then [SEMICOLON] + id[|b| + 1..] else [])
  {
    var b := Before(id, SEMICOLON);
    BeforeSplits(id, SEMICOLON);
    text := Utf8.CleanIsEncoded(b);
    if ';' in text { SeparatorEncoded(text); }
  }
}
