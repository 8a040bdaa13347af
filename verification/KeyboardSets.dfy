/** The decoders for scan code sets 1 and 2 cannot be told apart by the keys
    they produce. */
module KeyboardSets {
  import opened ScanCodes
  import opened Wire

  /** A key cap: whether it has the extended prefix, and its code in each set. */
  datatype Cap = Cap(extended: bool, code1: byte, code2: byte)

  datatype Event = Event(cap: Cap, down: bool)

  /** The cap means the same in both sets, and its bytes cannot be taken for a
      prefix or a service byte, pressed or released. */
  predicate Shared(k: Cap) {
    && 0 < k.code1 < 0x80 && !Service(false, k.code1 + 0x80) && k.code1 + 0x80 != EXTENDED
    && k.code2 != EXTENDED && k.code2 != RELEASE && !Service(true, k.code2)
    && Sense1(k.extended, k.code1) == Sense2(k.extended, k.code2)
  }

  function Prefix(k: Cap): seq<byte> {
    if k.extended then [EXTENDED] else []
  }

  function Encode1(e: Event): seq<byte>
    requires Shared(e.cap)
  {
    Prefix(e.cap) + [if e.down then e.cap.code1 else e.cap.code1 + 0x80]
  }

  function Encode2(e: Event): seq<byte> {
    Prefix(e.cap) + (if e.down then [e.cap.code2] else [RELEASE, e.cap.code2])
  }

  predicate AllShared(events: seq<Event>) {
    forall e :: e in events ==> Shared(e.cap)
  }

  function EncodeAll1(events: seq<Event>): seq<byte>
    requires AllShared(events)
  {
    if events == [] then [] else Encode1(events[0]) + EncodeAll1(events[1..])
  }

  function EncodeAll2(events: seq<Event>): seq<byte> {
    if events == [] then [] else Encode2(events[0]) + EncodeAll2(events[1..])
  }

  function EventSense(e: Event): Sense {
    Sense1(e.cap.extended, e.cap.code1)
  }

  /** What a stream of key events should do: no bytes, no prefixes, no scan
      code set. */
  function Typed(m: Mods, events: seq<Event>): (Mods, seq<Key>)
    decreases |events|
  {
    if events == [] then (m, [])
    else
      var (m1, key) := React(m, EventSense(events[0]), !events[0].down);
      var (m2, keys) := Typed(m1, events[1..]);
      (m2, AsSeq(key) + keys)
  }

  function Idle(m: Mods): Decoder {
    Decoder(m, false, false)
  }

  /** The stream without the bytes the filter drops. */
  function Strip(set2: bool, bytes: seq<byte>): seq<byte> {
    if bytes == [] then []
    else (if Service(set2, bytes[0]) then [] else [bytes[0]]) + Strip(set2, bytes[1..])
  }

  /** A filter that drops bytes without any effect on the decoder can be run
      before it, even between a prefix and its code. */
  lemma {:induction false} ServiceBytesChangeNothing(set2: bool, d: Decoder, bytes: seq<byte>)
    ensures Feed(Step(set2), d, bytes) == Feed(Step(set2), d, Strip(set2, bytes))
    decreases |bytes|
  {
    if bytes != [] {
      var step := Step(set2);
      var (d1, key) := step(d, bytes[0]);
      ServiceBytesChangeNothing(set2, d1, bytes[1..]);
      if Service(set2, bytes[0]) {
        assert Strip(set2, bytes) == Strip(set2, bytes[1..]);
        assert AsSeq(key) + Feed(step, d1, bytes[1..]).1 == Feed(step, d1, bytes[1..]).1;
      } else {
        var kept := [bytes[0]] + Strip(set2, bytes[1..]);
        assert kept[0] == bytes[0] && kept[1..] == Strip(set2, bytes[1..]);
      }
    }
  }

  /** What one event does to an idle decoder. */
  predicate Handles(step: Decoding, m: Mods, e: Event, bytes: seq<byte>) {
    var (m', key) := React(m, EventSense(e), !e.down);
    Feed(step, Idle(m), bytes) == (Idle(m'), AsSeq(key))
  }

  lemma FeedPrefix(step: Decoding, d: Decoder, a: byte, rest: seq<byte>)
    requires step(d, a).1 == None
    ensures Feed(step, d, [a] + rest) == Feed(step, step(d, a).0, rest)
  {
    var bytes := [a] + rest;
    assert bytes[1..] == rest;
    var after := Feed(step, step(d, a).0, rest);
    assert [] + after.1 == after.1;
  }

  lemma ReleaseBit(e: Event, d: Decoder, sc: byte)
    requires Shared(e.cap)
    requires sc == if e.down then e.cap.code1 else e.cap.code1 + 0x80
    requires d.extended == e.cap.extended && !d.release
    ensures var (m, key) := React(d.mods, EventSense(e), !e.down);
      Step(false)(d, sc) == (Idle(m), key)
  {
    assert sc % 0x80 == e.cap.code1;
    assert !Service(false, sc) by {
      assert e.down ==> sc < 0x80;
    }
  }

  lemma EventDecodes1(m: Mods, e: Event)
    requires Shared(e.cap)
    ensures Handles(Step(false), m, e, Encode1(e))
  {
    var step := Step(false);
    var sc := if e.down then e.cap.code1 else e.cap.code1 + 0x80;
    var d := Idle(m);
    if e.cap.extended {
      FeedPrefix(step, d, EXTENDED, [sc]);
      d := d.(extended := true);
    } else {
      assert Encode1(e) == [sc];
    }
    ReleaseBit(e, d, sc);
    FeedOne(step, d, sc);
  }

  lemma EventDecodes2(m: Mods, e: Event)
    requires Shared(e.cap)
    ensures Handles(Step(true), m, e, Encode2(e))
  {
    var step := Step(true);
    var tail := if e.down then [e.cap.code2] else [RELEASE, e.cap.code2];
    if e.cap.extended {
      assert Encode2(e) == [EXTENDED] + tail;
      PrefixRead2(m);
      FeedPrefix(step, Idle(m), EXTENDED, tail);
      TailDecodes2(m, e, Decoder(m, true, false), tail);
    } else {
      assert Encode2(e) == tail;
      TailDecodes2(m, e, Idle(m), tail);
    }
  }

  lemma PrefixRead2(m: Mods)
    ensures Step(true)(Idle(m), EXTENDED) == (Decoder(m, true, false), None)
  {
  }

  lemma ReleaseRead2(d: Decoder)
    ensures Step(true)(d, RELEASE) == (d.(release := true), None)
  {
  }

  lemma TailDecodes2(m: Mods, e: Event, d: Decoder, tail: seq<byte>)
    requires Shared(e.cap) && d == Decoder(m, e.cap.extended, false)
    requires tail == if e.down then [e.cap.code2] else [RELEASE, e.cap.code2]
    ensures var (m', key) := React(m, EventSense(e), !e.down);
      Feed(Step(true), d, tail) == (Idle(m'), AsSeq(key))
  {
    var sc := e.cap.code2;
    if e.down {
      FeedOne(Step(true), d, sc);
      CodeDecodes2(e, d);
    } else {
      var d1 := d.(release := true);
      assert tail == [RELEASE] + [sc];
      ReleaseRead2(d);
      FeedPrefix(Step(true), d, RELEASE, [sc]);
      FeedOne(Step(true), d1, sc);
      CodeDecodes2(e, d1);
    }
  }

  lemma CodeDecodes2(e: Event, d: Decoder)
    requires Shared(e.cap) && d.extended == e.cap.extended && d.release == !e.down
    ensures var (m', key) := React(d.mods, EventSense(e), !e.down);
      Step(true)(d, e.cap.code2) == (Idle(m'), key)
  {
  }

  /** If a decoder handles one event it handles the stream that starts with it. */
  lemma StreamGrows(step: Decoding, m: Mods, events: seq<Event>, first: seq<byte>, rest: seq<byte>)
    requires events != []
    requires Handles(step, m, events[0], first)
    requires var m1 := React(m, EventSense(events[0]), !events[0].down).0;
      Feed(step, Idle(m1), rest) == (Idle(Typed(m1, events[1..]).0), Typed(m1, events[1..]).1)
    ensures Feed(step, Idle(m), first + rest) == (Idle(Typed(m, events).0), Typed(m, events).1)
  {
    FeedAppend(step, Idle(m), first, rest);
  }

  lemma {:induction false} Set1Typed(m: Mods, events: seq<Event>)
    requires AllShared(events)
    ensures Feed(Step(false), Idle(m), EncodeAll1(events)) == (Idle(Typed(m, events).0), Typed(m, events).1)
    decreases |events|
  {
    if events != [] {
      EventDecodes1(m, events[0]);
      Set1Typed(React(m, EventSense(events[0]), !events[0].down).0, events[1..]);
      StreamGrows(Step(false), m, events, Encode1(events[0]), EncodeAll1(events[1..]));
    }
  }

  lemma {:induction false} Set2Typed(m: Mods, events: seq<Event>)
    requires AllShared(events)
    ensures Feed(Step(true), Idle(m), EncodeAll2(events)) == (Idle(Typed(m, events).0), Typed(m, events).1)
    decreases |events|
  {
    if events != [] {
      EventDecodes2(m, events[0]);
      Set2Typed(React(m, EventSense(events[0]), !events[0].down).0, events[1..]);
      StreamGrows(Step(true), m, events, Encode2(events[0]), EncodeAll2(events[1..]));
    }
  }

  /** Whatever service bytes the keyboard mixes in, the same key events give
      the same keys and leave the same modifiers, in either set. */
  lemma SetsAgree(m: Mods, events: seq<Event>, bytes1: seq<byte>, bytes2: seq<byte>)
    requires AllShared(events)
    requires Strip(false, bytes1) == EncodeAll1(events)
    requires Strip(true, bytes2) == EncodeAll2(events)
    ensures Feed(Step(false), Idle(m), bytes1) == Feed(Step(true), Idle(m), bytes2)
    ensures Feed(Step(false), Idle(m), bytes1) == (Idle(Typed(m, events).0), Typed(m, events).1)
  {
    ServiceBytesChangeNothing(false, Idle(m), bytes1);
    ServiceBytesChangeNothing(true, Idle(m), bytes2);
    Set1Typed(m, events);
    Set2Typed(m, events);
  }

  /** The set 2 code of the key that has this code in set 1, for the keys the
      driver acts on. */
  function Twin(extended: bool, code1: nat): (code2: byte) {
    if extended then
      match code1
      case 0x4B => 0x6B case 0x4D => 0x74 case 0x48 => 0x75 case 0x50 => 0x72 case 0x47 => 0x6C case 0x4F => 0x69
      case 0x49 => 0x7D case 0x51 => 0x7A case 0x52 => 0x70 case 0x53 => 0x71 case 0x1C => 0x5A
      case _ => 0
    else
      match code1
      case 0x01 => 0x76 case 0x02 => 0x16 case 0x03 => 0x1E case 0x04 => 0x26 case 0x05 => 0x25 case 0x06 => 0x2E
      case 0x07 => 0x36 case 0x08 => 0x3D case 0x09 => 0x3E case 0x0A => 0x46 case 0x0B => 0x45 case 0x0C => 0x4E
      case 0x0D => 0x55 case 0x0E => 0x66 case 0x0F => 0x0D case 0x10 => 0x15 case 0x11 => 0x1D case 0x12 => 0x24
      case 0x13 => 0x2D case 0x14 => 0x2C case 0x15 => 0x35 case 0x16 => 0x3C case 0x17 => 0x43 case 0x18 => 0x44
      case 0x19 => 0x4D case 0x1A => 0x54 case 0x1B => 0x5B case 0x1C => 0x5A case 0x1D => 0x14 case 0x1E => 0x1C
      case 0x1F => 0x1B case 0x20 => 0x23 case 0x21 => 0x2B case 0x22 => 0x34 case 0x23 => 0x33 case 0x24 => 0x3B
      case 0x25 => 0x42 case 0x26 => 0x4B case 0x27 => 0x4C case 0x28 => 0x52 case 0x29 => 0x0E case 0x2A => 0x12
      case 0x2B => 0x5D case 0x2C => 0x1A case 0x2D => 0x22 case 0x2E => 0x21 case 0x2F => 0x2A case 0x30 => 0x32
      case 0x31 => 0x31 case 0x32 => 0x3A case 0x33 => 0x41 case 0x34 => 0x49 case 0x35 => 0x4A case 0x36 => 0x59
      case 0x38 => 0x11 case 0x39 => 0x29 case 0x3A => 0x58
      case _ => 0
  }

  function TwinBack(extended: bool, code2: nat): (code1: byte) {
    if extended then
      match code2
      case 0x6B => 0x4B case 0x74 => 0x4D case 0x75 => 0x48 case 0x72 => 0x50 case 0x6C => 0x47 case 0x69 => 0x4F
      case 0x7D => 0x49 case 0x7A => 0x51 case 0x70 => 0x52 case 0x71 => 0x53 case 0x5A => 0x1C
      case _ => 0
    else
      match code2
      case 0x0D => 0x0F case 0x0E => 0x29 case 0x11 => 0x38 case 0x12 => 0x2A case 0x14 => 0x1D case 0x15 => 0x10
      case 0x16 => 0x02 case 0x1A => 0x2C case 0x1B => 0x1F case 0x1C => 0x1E case 0x1D => 0x11 case 0x1E => 0x03
      case 0x21 => 0x2E case 0x22 => 0x2D case 0x23 => 0x20 case 0x24 => 0x12 case 0x25 => 0x05 case 0x26 => 0x04
      case 0x29 => 0x39 case 0x2A => 0x2F case 0x2B => 0x21 case 0x2C => 0x14 case 0x2D => 0x13 case 0x2E => 0x06
      case 0x31 => 0x31 case 0x32 => 0x30 case 0x33 => 0x23 case 0x34 => 0x22 case 0x35 => 0x15 case 0x36 => 0x07
      case 0x3A => 0x32 case 0x3B => 0x24 case 0x3C => 0x16 case 0x3D => 0x08 case 0x3E => 0x09 case 0x41 => 0x33
      case 0x42 => 0x25 case 0x43 => 0x17 case 0x44 => 0x18 case 0x45 => 0x0B case 0x46 => 0x0A case 0x49 => 0x34
      case 0x4A => 0x35 case 0x4B => 0x26 case 0x4C => 0x27 case 0x4D => 0x19 case 0x4E => 0x0C case 0x52 => 0x28
      case 0x54 => 0x1A case 0x55 => 0x0D case 0x58 => 0x3A case 0x59 => 0x36 case 0x5A => 0x1C case 0x5B => 0x1B
      case 0x5D => 0x2B case 0x66 => 0x0E case 0x76 => 0x01
      case _ => 0
  }

  lemma TwinSense(extended: bool, code1: byte)
    requires Sense1(extended, code1) != Ignored
    ensures Sense2(extended, Twin(extended, code1)) == Sense1(extended, code1)
  {
  }

  lemma TwinCodes(extended: bool, code1: byte)
    requires Sense1(extended, code1) != Ignored
    ensures 0 < code1 < 0x60 && 0 < Twin(extended, code1) < 0x80
    ensures TwinBack(extended, Twin(extended, code1)) == code1
  {
  }

  lemma TwinBackSense(extended: bool, code2: byte)
    requires Sense2(extended, code2) != Ignored
    ensures Sense1(extended, TwinBack(extended, code2)) == Sense2(extended, code2)
  {
    if code2 < 0x33 { TwinBackSenseLow(extended, code2); } else { TwinBackSenseHigh(extended, code2); }
  }

  lemma TwinBackSenseLow(extended: bool, code2: byte)
    requires code2 < 0x33 && Sense2(extended, code2) != Ignored
    ensures Sense1(extended, TwinBack(extended, code2)) == Sense2(extended, code2)
  {
  }

  lemma TwinBackSenseHigh(extended: bool, code2: byte)
    requires 0x33 <= code2 && Sense2(extended, code2) != Ignored
    ensures Sense1(extended, TwinBack(extended, code2)) == Sense2(extended, code2)
  {
  }

  lemma TwinBackCodes(extended: bool, code2: byte)
    requires Sense2(extended, code2) != Ignored
    ensures 0 < code2 < 0x80 && 0 < TwinBack(extended, code2) < 0x60
    ensures Twin(extended, TwinBack(extended, code2)) == code2
  {
  }

  predicate Twins(extended: bool, code1: byte, code2: byte) {
    Shared(Cap(extended, code1, code2)) && Twin(extended, code1) == code2 && TwinBack(extended, code2) == code1
  }

  lemma PlainCodesShared(extended: bool, code1: byte, code2: byte)
    requires 0 < code1 < 0x60 && 0 < code2 < 0x80
    requires Sense1(extended, code1) == Sense2(extended, code2)
    ensures Shared(Cap(extended, code1, code2))
  {
  }

  /** The keys set 1 acts on and the keys set 2 acts on are the same keys,
      one to one: neither table has a key the other lacks. */
  lemma TablesMatch(extended: bool, code: byte)
    ensures Sense1(extended, code) != Ignored ==> Twins(extended, code, Twin(extended, code))
    ensures Sense2(extended, code) != Ignored ==> Twins(extended, TwinBack(extended, code), code)
  {
    if Sense1(extended, code) != Ignored {
      TwinSense(extended, code);
      TwinCodes(extended, code);
      PlainCodesShared(extended, code, Twin(extended, code));
    }
    if Sense2(extended, code) != Ignored {
      TwinBackSense(extended, code);
      TwinBackCodes(extended, code);
      PlainCodesShared(extended, TwinBack(extended, code), code);
    }
  }
}
