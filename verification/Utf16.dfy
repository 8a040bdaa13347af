/** UTF-16 code units: the decoder of kernel/src/fs/exfat.rs against the
    standard encoding. */
module Utf16 {
  import opened Wire

  function EncodeChar(c: char): (units: seq<u16>) {
    var v := c as int;
    if v < 0x1_0000 then [v] else [0xD800 + (v - 0x1_0000) / 0x400, 0xDC00 + (v - 0x1_0000) % 0x400]
  }

  function Encode(s: string): seq<u16> {
    if s == "" then [] else EncodeChar(s[0]) + Encode(s[1..])
  }

  predicate High(u: u16) { 0xD800 <= u < 0xDC00 }
  predicate Low(u: u16) { 0xDC00 <= u < 0xE000 }

  /** A unit on its own; an unpaired surrogate is no character. */
  function Single(u: u16): char {
    if High(u) || Low(u) then '?' else u as char
  }

  function Pair(hi: u16, lo: u16): char
    requires High(hi) && Low(lo)
  {
    (0x1_0000 + (hi - 0xD800) * 0x400 + (lo - 0xDC00)) as char
  }

  function Decode(units: seq<u16>): string {
    if units == [] then ""
    else if High(units[0]) && |units| > 1 && Low(units[1]) then [Pair(units[0], units[1])] + Decode(units[2..])
    else [Single(units[0])] + Decode(units[1..])
  }

  /** Every string survives encoding and decoding, surrogate pairs included. */
  lemma {:induction false} DecodeEncode(s: string)
    ensures Decode(Encode(s)) == s
  {
    if s != "" {
      DecodeEncode(s[1..]);
      var units, rest := EncodeChar(s[0]), Encode(s[1..]);
      if |units| == 1 {
        assert (units + rest)[1..] == rest;
      } else {
        assert (units + rest)[2..] == rest;
      }
    }
  }

  /** A surrogate without its partner reads as a question mark, and what
      follows it is read on its own. */
  lemma StrayUnit(u: u16, rest: seq<u16>)
    requires 0xD800 <= u < 0xE000
    requires u < 0xDC00 && rest != [] ==> !(0xDC00 <= rest[0] < 0xE000)
    ensures Decode([u] + rest) == "?" + Decode(rest)
  {
    assert ([u] + rest)[1..] == rest;
  }

  /** A character beyond the basic plane takes a high and then a low unit. */
  lemma TwoUnits()
    ensures EncodeChar(0x1_F600 as char) == [0xD83D, 0xDE00] && Decode([0xD83D, 0xDE00]) == [0x1_F600 as char]
  {
    assert Encode([0x1_F600 as char]) == [0xD83D, 0xDE00];
    DecodeEncode([0x1_F600 as char]);
  }

  lemma {:induction false} EncodeNonEmpty(s: string)
    ensures s == "" <==> Encode(s) == []
  {
  }

  /** Decoding goes on behind a unit or a pair. */
  lemma DecodeFrom(units: seq<u16>, i: nat)
    requires i < |units|
    ensures var pair := High(units[i]) && i + 1 < |units| && Low(units[i + 1]);
      Decode(units[i..]) ==
        if pair then [Pair(units[i], units[i + 1])] + Decode(units[i + 2..]) else [Single(units[i])] + Decode(units[i + 1..])
  {
    assert units[i..][1..] == units[i + 1..];
    if i + 1 < |units| {
      assert units[i..][2..] == units[i + 2..];
    }
  }

  /** The decoding loop: at most `len` units, fewer if there are fewer. */
  method ToString(units: seq<u16>, len: nat) returns (s: string)
    ensures s == Decode(units[..Min(len, |units|)])
  {
    var n := Min(len, |units|);
    s := DecodeLoop(units[..n]);
  }

  method DecodeLoop(units: seq<u16>) returns (s: string)
    ensures s == Decode(units)
  {
    s := "";
    var i := 0;
    ghost var all := Decode(units);
    while i < |units|
      invariant 0 <= i <= |units|
      invariant all == s + Decode(units[i..])
    {
      var next, c := DecodeOne(units, i);
      Regroup(s, [c], Decode(units[next..]));
      s := s + [c];
      i := next;
    }
    Regroup(s, [], []);
  }

  method DecodeOne(units: seq<u16>, i: nat) returns (next: nat, c: char)
    requires i < |units|
    ensures i < next <= |units| && Decode(units[i..]) == [c] + Decode(units[next..])
  {
    DecodeFrom(units, i);
    var u := units[i];
    if High(u) && i + 1 < |units| {
      var lo := units[i + 1];
      if Low(lo) {
        return i + 2, Pair(u, lo);
      }
    }
    return i + 1, Single(u);
  }
}
