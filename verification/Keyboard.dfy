/** The scan-code ring between the interrupt and the reader: KeyboardState in
    kernel/src/keyboard.rs. */
module Keyboard {
  import opened ScanCodes
  import opened KeyboardSets
  import opened Wire

  const QUEUE_LEN: nat := 64

  function Released(m: Mods): Mods {
    Mods(false, false, false, m.caps)
  }

  /** What happens to the driver: a byte arrives, or somebody asks for a key. */
  datatype Op = Arrives(sc: byte) | Ask

  function Arrival(op: Op): seq<byte> {
    match op case Arrives(sc) => [sc] case Ask => []
  }

  function Arrivals(ops: seq<Op>): seq<byte> {
    if ops == [] then []
    else Arrivals(ops[..|ops| - 1]) + Arrival(ops[|ops| - 1])
  }

  /** One more byte of a prefix: either it makes the first key or none yet. */
  lemma FeedNext(step: Decoding, d: Decoder, q: seq<byte>, n: nat, d1: Decoder)
    requires n < |q| && Feed(step, d, q[..n]) == (d1, [])
    ensures Feed(step, d, q[..n + 1]) == (step(d1, q[n]).0, AsSeq(step(d1, q[n]).1))
  {
    FeedAppend(step, d, q[..n], [q[n]]);
    FeedOne(step, d1, q[n]);
    assert q[..n + 1] == q[..n] + [q[n]];
    assert [] + AsSeq(step(d1, q[n]).1) == AsSeq(step(d1, q[n]).1);
  }

  /** The keys handed out so far and those the waiting bytes still give are
      together the keys of everything that arrived. */
  ghost predicate Delivered(step: Decoding, start: Decoder, all: seq<byte>, keys: seq<Key>, d: Decoder, waiting: seq<byte>) {
    Feed(step, start, all) == (Feed(step, d, waiting).0, keys + Feed(step, d, waiting).1)
  }

  lemma StartDelivered(step: Decoding, d: Decoder, q: seq<byte>)
    ensures Delivered(step, d, q, [], d, q)
  {
    assert [] + Feed(step, d, q).1 == Feed(step, d, q).1;
  }

  /** The first n bytes of q take the decoder from start to d and give the
      key, or none. */
  ghost predicate Decodes(step: Decoding, start: Decoder, q: seq<byte>, n: nat, d: Decoder, key: Option<Key>) {
    n <= |q| && Feed(step, start, q[..n]) == (d, AsSeq(key))
  }

  lemma Peel(q: seq<byte>, n: nat, first: byte, rest: seq<byte>)
    requires n <= |q| && q[n..] == [first] + rest
    ensures n < |q| && q[n] == first && q[n + 1..] == rest
  {
    assert |q[n..]| == 1 + |rest|;
    assert q[n..][0] == first && q[n..][1..] == rest;
  }

  lemma NextArrival(ops: seq<Op>, i: nat, q: seq<byte>)
    requires i < |ops|
    ensures q + Arrivals(ops[..i + 1]) == q + Arrivals(ops[..i]) + Arrival(ops[i])
  {
    assert ops[..i + 1][..i] == ops[..i];
  }

  lemma FeedSplit(step: Decoding, d: Decoder, q: seq<byte>, n: nat)
    requires n <= |q|
    ensures var (d1, k1) := Feed(step, d, q[..n]);
      var (d2, k2) := Feed(step, d1, q[n..]);
      Feed(step, d, q) == (d2, k1 + k2)
  {
    FeedAppend(step, d, q[..n], q[n..]);
    assert q[..n] + q[n..] == q;
  }

  lemma Handed(step: Decoding, start: Decoder, all: seq<byte>, keys: seq<Key>, d: Decoder, w: seq<byte>, d1: Decoder, used: nat, key: Option<Key>)
    requires Delivered(step, start, all, keys, d, w)
    requires used <= |w| && Feed(step, d, w[..used]) == (d1, AsSeq(key))
    ensures Delivered(step, start, all, keys + AsSeq(key), d1, w[used..])
  {
    FeedSplit(step, d, w, used);
    Regroup(keys, AsSeq(key), Feed(step, d1, w[used..]).1);
  }

  /** Some byte is decoded later than it arrived; the keys are the same. */
  lemma ArrivalLater(step: Decoding, start: Decoder, all: seq<byte>, keys: seq<Key>, d: Decoder, q: seq<byte>, more: seq<byte>)
    requires Delivered(step, start, all, keys, d, q)
    ensures Delivered(step, start, all + more, keys, d, q + more)
  {
    FeedAppend(step, start, all, more);
    FeedAppend(step, d, q, more);
    var a, b := Feed(step, d, q).1, Feed(step, Feed(step, d, q).0, more).1;
    assert keys + a + b == keys + (a + b);
  }

  class KeyboardState {
    var queue: array<byte>
    var head: nat
    var tail: nat
    var decoder: Decoder
    var scanSet2: bool
    var dropped: nat

    ghost predicate Valid()
      reads this
    {
      queue.Length == QUEUE_LEN && head < QUEUE_LEN && tail < QUEUE_LEN
    }

    function Queued(): (n: nat)
      requires Valid()
      reads this
      ensures n < QUEUE_LEN && (tail + n) % QUEUE_LEN == head
    {
      if head >= tail then head - tail else QUEUE_LEN - tail + head
    }

    /** The bytes not yet decoded, oldest first. */
    ghost function Waiting(): (s: seq<byte>)
      requires Valid()
      reads this, queue
      ensures |s| == Queued()
    {
      if head >= tail then queue[tail..head] else queue[tail..] + queue[..head]
    }

    constructor (set2: bool)
      ensures Valid() && fresh(queue) && Waiting() == []
      ensures decoder == Idle(Mods(false, false, false, false)) && scanSet2 == set2 && dropped == 0
    {
      queue := new byte[QUEUE_LEN](_ => 0);
      head, tail := 0, 0;
      decoder := Idle(Mods(false, false, false, false));
      scanSet2 := set2;
      dropped := 0;
    }

    /** A byte is dropped only when 63 are waiting, and then every held
        modifier but Caps Lock is let go. */
    method PushScancode(sc: byte)
      requires Valid()
      modifies this`head, this`decoder, this`dropped, queue
      ensures Valid()
      ensures var full := |old(Waiting())| == QUEUE_LEN - 1;
        && Waiting() == (if full then old(Waiting()) else old(Waiting()) + [sc])
        && decoder == (if full then old(decoder).(mods := Released(old(decoder).mods)) else old(decoder))
        && dropped == old(dropped) + (if full then 1 else 0)
    {
      var next := (head + 1) % QUEUE_LEN;
      if next != tail {
        queue[head] := sc;
        head := next;
        assert Queued() == old(Queued()) + 1;
      } else {
        dropped := dropped + 1;
        decoder := decoder.(mods := Released(decoder.mods));
      }
    }

    method PopScancode() returns (sc: Option<byte>)
      requires Valid()
      modifies this`tail
      ensures Valid()
      ensures sc.None? <==> old(Waiting()) == []
      ensures sc.None? ==> Waiting() == []
      ensures sc.Some? ==> old(Waiting()) == [sc.value] + Waiting()
    {
      if head == tail { return None; }
      sc := Some(queue[tail]);
      tail := (tail + 1) % QUEUE_LEN;
      assert Queued() + 1 == old(Queued());
    }

    /** One pass of the loop: the filter, then the decoder of the set in use. */
    method DecodeByte(sc: byte) returns (key: Option<Key>)
      modifies this`decoder
      ensures (decoder, key) == Step(scanSet2)(old(decoder), sc)
    {
      if Service(false, sc) || (sc == 0xAA && scanSet2) { return None; }
      var (d, k) := if scanSet2 then Decode2(decoder, sc) else Decode1(decoder, sc);
      decoder := d;
      key := k;
    }

    /** Takes the next waiting byte, which is byte `used` of q. */
    method DecodeNext(sc: byte, ghost start: Decoder, ghost q: seq<byte>, ghost used: nat) returns (key: Option<Key>)
      requires used < |q| && q[used] == sc
      requires Decodes(Step(scanSet2), start, q, used, decoder, None)
      modifies this`decoder
      ensures Decodes(Step(scanSet2), start, q, used + 1, decoder, key)
    {
      FeedNext(Step(scanSet2), start, q, used, decoder);
      key := DecodeByte(sc);
    }

    method TakeNext(ghost start: Decoder, ghost q: seq<byte>, ghost used: nat) returns (more: bool, key: Option<Key>)
      requires Valid() && used <= |q| && Waiting() == q[used..]
      requires Decodes(Step(scanSet2), start, q, used, decoder, None)
      modifies this`tail, this`decoder
      ensures Valid() && (more <==> used < |q|)
      ensures !more ==> decoder == old(decoder) && Waiting() == old(Waiting())
      ensures more ==> Waiting() == q[used + 1..] && Decodes(Step(scanSet2), start, q, used + 1, decoder, key)
    {
      var sc := PopScancode();
      if sc.None? {
        return false, None;
      }
      Peel(q, used, sc.value, Waiting());
      key := DecodeNext(sc.value, start, q, used);
      return true, key;
    }

    /** The first key the waiting bytes give, if any, taking no byte beyond
        the one that completes it. `used` counts the bytes taken. */
    method NextKey() returns (key: Option<Key>, ghost used: nat)
      requires Valid()
      modifies this`tail, this`decoder
      ensures Valid()
      ensures used <= |old(Waiting())| && Waiting() == old(Waiting())[used..]
      ensures Decodes(Step(scanSet2), old(decoder), old(Waiting()), used, decoder, key)
      ensures key.None? ==> used == |old(Waiting())|
      ensures key.Some? ==> used > 0 && Feed(Step(scanSet2), old(decoder), old(Waiting())[..used - 1]).1 == []
    {
      ghost var q := Waiting();
      ghost var start := decoder;
      used := 0;
      while true
        invariant Valid()
        invariant used <= |q| && Waiting() == q[used..]
        invariant Decodes(Step(scanSet2), start, q, used, decoder, None)
        decreases |q| - used
      {
        var more, decoded := TakeNext(start, q, used);
        if !more {
          return None, used;
        }
        used := used + 1;
        if decoded.Some? {
          return decoded, used;
        }
      }
    }

    method Arrive(sc: byte, ghost start: Decoder, ghost all: seq<byte>, ghost keys: seq<Key>)
      requires Valid()
      modifies this`head, this`decoder, this`dropped, queue
      ensures Valid() && dropped >= old(dropped)
      ensures dropped == old(dropped) && Delivered(Step(scanSet2), start, all, keys, old(decoder), old(Waiting())) ==>
        Delivered(Step(scanSet2), start, all + [sc], keys, decoder, Waiting())
    {
      ghost var d, w := decoder, Waiting();
      PushScancode(sc);
      if dropped == old(dropped) && Delivered(Step(scanSet2), start, all, keys, d, w) {
        ArrivalLater(Step(scanSet2), start, all, keys, d, w, [sc]);
      }
    }

    method HandOut(ghost start: Decoder, ghost all: seq<byte>, keys: seq<Key>) returns (more: seq<Key>)
      requires Valid()
      modifies this`tail, this`decoder
      ensures Valid()
      ensures Delivered(Step(scanSet2), start, all, keys, old(decoder), old(Waiting())) ==>
        Delivered(Step(scanSet2), start, all, more, decoder, Waiting())
    {
      ghost var d, w := decoder, Waiting();
      var key, used := NextKey();
      more := keys + AsSeq(key);
      if Delivered(Step(scanSet2), start, all, keys, d, w) {
        Handed(Step(scanSet2), start, all, keys, d, w, decoder, used, key);
      }
    }

    method TakeOp(op: Op, ghost start: Decoder, ghost all: seq<byte>, keys: seq<Key>) returns (more: seq<Key>)
      requires Valid()
      modifies this`head, this`tail, this`decoder, this`dropped, queue
      ensures Valid() && dropped >= old(dropped)
      ensures dropped == old(dropped) && Delivered(Step(scanSet2), start, all, keys, old(decoder), old(Waiting())) ==>
        Delivered(Step(scanSet2), start, all + Arrival(op), more, decoder, Waiting())
    {
      if op.Arrives? {
        Arrive(op.sc, start, all, keys);
        more := keys;
      } else {
        assert all + [] == all;
        more := HandOut(start, all, keys);
      }
    }

    /** Bytes arrive and keys are asked for in any order. Unless the ring
        overflows, the keys handed out, and those still waiting, are the keys
        of the byte stream: nothing lost, repeated or reordered. */
    method RunOps(ops: seq<Op>) returns (keys: seq<Key>)
      requires Valid()
      modifies this`head, this`tail, this`decoder, this`dropped, queue
      ensures Valid() && dropped >= old(dropped)
      ensures dropped == old(dropped) ==>
        Delivered(Step(scanSet2), old(decoder), old(Waiting()) + Arrivals(ops), keys, decoder, Waiting())
    {
      ghost var start, q := decoder, Waiting();
      ghost var all := q;
      keys := [];
      StartDelivered(Step(scanSet2), start, q);
      var i := 0;
      while i < |ops|
        invariant 0 <= i <= |ops| && Valid() && dropped >= old(dropped)
        invariant all == q + Arrivals(ops[..i])
        invariant dropped == old(dropped) ==> Delivered(Step(scanSet2), start, all, keys, decoder, Waiting())
      {
        NextArrival(ops, i, q);
        keys := TakeOp(ops[i], start, all, keys);
        all := all + Arrival(ops[i]);
        i := i + 1;
      }
      assert ops[..i] == ops;
    }

    /** Asks for keys until there are none. */
    method Drain() returns (keys: seq<Key>)
      requires Valid()
      modifies this`tail, this`decoder
      ensures Valid() && Waiting() == []
      ensures Feed(Step(scanSet2), old(decoder), old(Waiting())) == (decoder, keys)
    {
      ghost var start, q := decoder, Waiting();
      StartDelivered(Step(scanSet2), start, q);
      keys := [];
      var key := Some(Enter);
      while key.Some?
        invariant Valid() && Delivered(Step(scanSet2), start, q, keys, decoder, Waiting())
        invariant key.None? ==> Waiting() == []
        decreases |Waiting()|, key.Some?
      {
        ghost var d, w := decoder, Waiting();
        ghost var used;
        key, used := NextKey();
        Handed(Step(scanSet2), start, q, keys, d, w, decoder, used, key);
        keys := keys + AsSeq(key);
      }
      assert keys + [] == keys;
    }

    /** A byte is dropped and the waiting ones are then decoded: a modifier is
        held afterwards exactly when they leave it pressed. */
    method OverflowThenDrain(sc: byte) returns (keys: seq<Key>)
      requires Valid() && |Waiting()| == QUEUE_LEN - 1
      modifies this`head, this`tail, this`decoder, this`dropped, queue
      ensures Valid() && Waiting() == [] && dropped == old(dropped) + 1
      ensures forall s :: s in {Shift, Ctrl, Alt} ==>
        (Held(decoder.mods, s) <==> LeavesPressed(Touches(scanSet2, old(decoder), old(Waiting()), s)))
    {
      ghost var d, w := decoder, Waiting();
      PushScancode(sc);
      keys := Drain();
      forall s | s in {Shift, Ctrl, Alt}
        ensures Held(decoder.mods, s) <==> LeavesPressed(Touches(scanSet2, d, w, s))
      {
        OverflowLetsGo(scanSet2, d, w, s);
      }
    }
  }

  predicate Held(m: Mods, s: Sense) {
    (s == Shift && m.shift) || (s == Ctrl && m.ctrl) || (s == Alt && m.alt)
  }

  /** What a byte does to a modifier: pressed, released, or nothing. */
  function Touch(set2: bool, d: Decoder, sc: byte, s: Sense): Option<bool> {
    if Service(set2, sc) || sc == EXTENDED || (set2 && sc == RELEASE) then None
    else if (if set2 then Sense2(d.extended, sc) else Sense1(d.extended, sc % 0x80)) != s then None
    else Some(if set2 then !d.release else sc < 0x80)
  }

  /** What each byte of a stream does to a modifier. */
  function Touches(set2: bool, d: Decoder, bytes: seq<byte>, s: Sense): seq<Option<bool>>
    decreases |bytes|
  {
    if bytes == [] then [] else [Touch(set2, d, bytes[0], s)] + Touches(set2, Step(set2)(d, bytes[0]).0, bytes[1..], s)
  }

  /** Entry i presses and no later one does anything. */
  predicate LastPress(touches: seq<Option<bool>>, i: nat) {
    i < |touches| && touches[i] == Some(true) && forall j :: i < j < |touches| ==> touches[j] == None
  }

  ghost predicate LeavesPressed(touches: seq<Option<bool>>) {
    exists i: nat :: LastPress(touches, i)
  }

  predicate Untouched(touches: seq<Option<bool>>) {
    forall i :: 0 <= i < |touches| ==> touches[i] == None
  }

  lemma FirstTouch(t: Option<bool>, rest: seq<Option<bool>>)
    ensures Untouched([t] + rest) <==> t == None && Untouched(rest)
    ensures LeavesPressed([t] + rest) <==> (t == Some(true) && Untouched(rest)) || LeavesPressed(rest)
  {
    var all := [t] + rest;
    assert forall j :: 0 <= j < |rest| ==> rest[j] == all[j + 1];
    if i: nat :| LastPress(rest, i) {
      assert LastPress(all, i + 1);
    }
    if t == Some(true) && Untouched(rest) {
      assert LastPress(all, 0);
    }
    if i: nat :| LastPress(all, i) {
      if i > 0 {
        assert LastPress(rest, i - 1) by {
          assert forall j :: i - 1 < j < |rest| ==> all[j + 1] == rest[j];
        }
      }
    }
    assert all[0] == t;
  }

  lemma HeldStep(set2: bool, d: Decoder, sc: byte, s: Sense)
    requires s in {Shift, Ctrl, Alt}
    ensures var t := Touch(set2, d, sc, s);
      Held(Step(set2)(d, sc).0.mods, s) <==> if t.Some? then t.value else Held(d.mods, s)
  {
    var sense := if set2 then Sense2(d.extended, sc) else Sense1(d.extended, sc % 0x80);
    HeldReact(d.mods, sense, if set2 then d.release else sc >= 0x80, s);
  }

  lemma HeldReact(m: Mods, sense: Sense, released: bool, s: Sense)
    requires s in {Shift, Ctrl, Alt}
    ensures Held(React(m, sense, released).0, s) <==> if sense == s then !released else Held(m, s)
  {
  }

  /** Whatever the bytes and the state they find the decoder in, a modifier is
      held at the end exactly when the last byte to touch it pressed it, or
      none did and it was held before. */
  lemma {:induction false} HeldAtEnd(set2: bool, d: Decoder, bytes: seq<byte>, s: Sense)
    requires s in {Shift, Ctrl, Alt}
    ensures var touches := Touches(set2, d, bytes, s);
      Held(Feed(Step(set2), d, bytes).0.mods, s) <==> (Held(d.mods, s) && Untouched(touches)) || LeavesPressed(touches)
    decreases |bytes|
  {
    if bytes != [] {
      var d1 := Step(set2)(d, bytes[0]).0;
      HeldStep(set2, d, bytes[0], s);
      FirstTouch(Touch(set2, d, bytes[0], s), Touches(set2, d1, bytes[1..], s));
      HeldAtEnd(set2, d1, bytes[1..], s);
    }
  }

  /** An overflow lets go of the modifiers at once, while older bytes still
      wait, possibly half an event of them. It keeps a modifier from sticking,
      once those are decoded, exactly when they do not leave it pressed. */
  lemma OverflowLetsGo(set2: bool, d: Decoder, waiting: seq<byte>, s: Sense)
    requires s in {Shift, Ctrl, Alt}
    ensures var after := Feed(Step(set2), d.(mods := Released(d.mods)), waiting).0;
      Held(after.mods, s) <==> LeavesPressed(Touches(set2, d, waiting, s))
  {
    HeldAtEnd(set2, d.(mods := Released(d.mods)), waiting, s);
    SameTouches(set2, d, d.(mods := Released(d.mods)), waiting, s);
  }

  /** Modifiers have no say in what a byte means. */
  lemma {:induction false} SameTouches(set2: bool, d: Decoder, e: Decoder, bytes: seq<byte>, s: Sense)
    requires d.extended == e.extended && d.release == e.release
    ensures Touches(set2, d, bytes, s) == Touches(set2, e, bytes, s)
    decreases |bytes|
  {
    if bytes != [] {
      SameTouches(set2, Step(set2)(d, bytes[0]).0, Step(set2)(e, bytes[0]).0, bytes[1..], s);
    }
  }

  const SHIFT2: byte := 0x12

  lemma ShiftStep(m: Mods)
    ensures Step(true)(Idle(m), SHIFT2) == (Idle(m.(shift := true)), None)
  {
  }

  /** Holding Shift repeats its code. */
  lemma {:induction false} ShiftRepeats(m: Mods, n: nat)
    ensures Feed(Step(true), Idle(m), seq(n, _ => SHIFT2)) == (Idle(m.(shift := m.shift || n > 0)), [])
    decreases n
  {
    var bytes := seq(n, _ => SHIFT2);
    if n > 0 {
      var rest := seq(n - 1, _ => SHIFT2);
      assert bytes == [SHIFT2] + rest;
      ShiftStep(m);
      FeedPrefix(Step(true), Idle(m), SHIFT2, rest);
      ShiftRepeats(m.(shift := true), n - 1);
    }
  }

  /** Shift is held until the ring is full, and the second byte of its release
      is the one dropped: Shift stays held, and the next key pressed will be
      taken for a release. */
  method StuckShift() returns (k: KeyboardState)
    ensures k.Valid() && k.Waiting() == [] && k.dropped == 1
    ensures k.decoder == Decoder(Mods(true, false, false, false), false, true)
  {
    k := HoldShift(QUEUE_LEN - 2);
    k.PushScancode(RELEASE);
    k.PushScancode(SHIFT2);
    HalfRelease(k.decoder.mods, QUEUE_LEN - 2);
    var keys := k.Drain();
  }

  /** A new keyboard in set 2 on which Shift has been held for n codes. */
  method HoldShift(n: nat) returns (k: KeyboardState)
    requires n < QUEUE_LEN
    ensures k.Valid() && fresh(k) && fresh(k.queue) && k.scanSet2 && k.dropped == 0
    ensures k.Waiting() == seq(n, _ => SHIFT2) && k.decoder == Idle(Mods(false, false, false, false))
  {
    k := new KeyboardState(true);
    var i := 0;
    while i < n
      invariant 0 <= i <= n && k.Valid() && fresh(k) && fresh(k.queue)
      invariant k.Waiting() == seq(i, _ => SHIFT2) && k.scanSet2 && k.dropped == 0
      invariant k.decoder == Idle(Mods(false, false, false, false))
    {
      k.PushScancode(SHIFT2);
      i := i + 1;
    }
  }

  lemma HalfRelease(m: Mods, n: nat)
    requires n > 0
    ensures Feed(Step(true), Idle(m), seq(n, _ => SHIFT2) + [RELEASE]) == (Decoder(m.(shift := true), false, true), [])
  {
    ShiftRepeats(m, n);
    FeedAppend(Step(true), Idle(m), seq(n, _ => SHIFT2), [RELEASE]);
    FeedOne(Step(true), Idle(m.(shift := true)), RELEASE);
  }
}
