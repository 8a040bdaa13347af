/** The descriptor free list of kernel/src/drivers/virtio_gpu.rs, threaded
    through the `next` fields of the descriptor table, and its one user. */
module VirtioQueue {
  import opened Wire

  datatype Desc = Desc(addr: u64, len: u32, flags: u16, next: u16)

  const END: u16 := 0xFFFF
  const F_NEXT: u16 := 1
  const F_WRITE: u16 := 2
  const TIMEOUT: nat := 1_000_000

  /** Following `next` from head visits exactly the descriptors of free, in
      order, and then stops. */
  ghost predicate Threaded(table: seq<Desc>, head: u16, free: seq<u16>)
    decreases |free|
  {
    if free == [] then head == END
    else head == free[0] && head as int < |table| && Threaded(table, table[head].next, free[1..])
  }

  predicate Distinct(s: seq<u16>) {
    forall i, j :: 0 <= i < j < |s| ==> s[i] != s[j]
  }

  /** The links decide the list: there is only one way to follow them. */
  lemma {:induction false} OneFreeList(table: seq<Desc>, head: u16, a: seq<u16>, b: seq<u16>)
    requires |table| <= END && Threaded(table, head, a) && Threaded(table, head, b)
    ensures a == b
    decreases |a|
  {
    if a != [] && b != [] {
      OneFreeList(table, table[head].next, a[1..], b[1..]);
    }
  }

  /** Descriptors that are not free may be written at will. */
  lemma {:induction false} ThreadedElsewhere(table: seq<Desc>, head: u16, free: seq<u16>, i: nat, d: Desc)
    requires i < |table| && Threaded(table, head, free) && forall k :: 0 <= k < |free| ==> free[k] != i
    ensures Threaded(table[i := d], head, free)
    decreases |free|
  {
    if free != [] {
      ThreadedElsewhere(table, table[head].next, free[1..], i, d);
    }
  }

  lemma {:induction false} ThreadedInTable(table: seq<Desc>, head: u16, free: seq<u16>)
    requires Threaded(table, head, free)
    ensures forall k :: 0 <= k < |free| ==> free[k] as int < |table|
    decreases |free|
  {
    if free != [] {
      ThreadedInTable(table, table[head].next, free[1..]);
      forall k | 0 <= k < |free| ensures free[k] as int < |table| {
        if k > 0 { assert free[k] == free[1..][k - 1]; }
      }
    }
  }

  lemma DistinctFits(s: seq<u16>, n: nat)
    requires Distinct(s) && forall k :: 0 <= k < |s| ==> s[k] as int < n
    ensures |s| <= n
    decreases n
  {
    if s != [] {
      assert s[0] as int < n;
      if k :| 0 <= k < |s| && s[k] as int == n - 1 {
        DistinctFits(s[..k] + s[k + 1..], n - 1);
      } else {
        DistinctFits(s, n - 1);
      }
    }
  }

  /** The device finds the command buffer, then the response buffer, and no more. */
  predicate Offered(cmd: u16, resp: u16, table: seq<Desc>, cmdAddr: u64, cmdLen: u32, respAddr: u64, respLen: u32) {
    && cmd as int < |table| && resp as int < |table|
    && table[cmd] == Desc(cmdAddr, cmdLen, F_NEXT, resp)
    && table[resp] == Desc(respAddr, respLen, F_WRITE, END)
  }

  function Range(lo: nat, hi: nat): (s: seq<u16>)
    requires lo <= hi <= END
    ensures |s| == hi - lo
    ensures forall k :: 0 <= k < |s| ==> s[k] == lo + k
    decreases hi - lo
  {
    if lo == hi then [] else [lo] + Range(lo + 1, hi)
  }

  lemma {:induction false} RangeThreaded(table: seq<Desc>, lo: nat, hi: nat)
    requires 0 < hi < END && lo < hi && |table| == hi
    requires forall i :: lo <= i < hi ==> table[i].next == if i + 1 < hi then i + 1 else END
    ensures Threaded(table, lo, Range(lo, hi))
    decreases hi - lo
  {
    assert Range(lo, hi)[1..] == Range(lo + 1, hi);
    if lo + 1 < hi { RangeThreaded(table, lo + 1, hi); }
  }

  datatype Outcome = Answered | NoCommandDescriptor | NoResponseDescriptor | TimedOut

  /** What one command leaves on the free list. */
  function FreeAfter(free: seq<u16>): (after: seq<u16>) {
    if |free| >= 2 then [free[1], free[0]] + free[2..] else []
  }

  /** What each poll of the used ring by one command reads as its index. */
  type Polls = nat -> u16

  /** Some poll before the time is up finds the index moved on from the number
      of answers taken so far. */
  ghost predicate Sees(polls: Polls, taken: u16) {
    exists i: nat :: i <= TIMEOUT && polls(i) != taken
  }

  /** What a command reports. */
  ghost function OutcomeOf(free: seq<u16>, polls: Polls, taken: u16): Outcome {
    if |free| == 0 then NoCommandDescriptor
    else if |free| == 1 then NoResponseDescriptor
    else if Sees(polls, taken) then Answered
    else TimedOut
  }

  function FreeAfterRun(free: seq<u16>, commands: nat): seq<u16> {
    if commands == 0 then free else FreeAfter(FreeAfterRun(free, commands - 1))
  }

  function Answers(outcomes: seq<Outcome>): nat {
    if outcomes == [] then 0
    else Answers(outcomes[..|outcomes| - 1]) + (if outcomes[|outcomes| - 1] == Answered then 1 else 0)
  }

  /** The driver's 16-bit count of answers taken. */
  function Taken(start: nat, outcomes: seq<Outcome>): u16 {
    (start + Answers(outcomes)) % 0x1_0000
  }

  /** What a run of commands reports, with `start` answers taken before it. */
  ghost function Outcomes(free: seq<u16>, start: nat, runs: seq<Polls>): (o: seq<Outcome>)
    ensures |o| == |runs|
  {
    if runs == [] then []
    else
      var n := |runs| - 1;
      var before := Outcomes(free, start, runs[..n]);
      before + [OutcomeOf(FreeAfterRun(free, n), runs[n], Taken(start, before))]
  }

  lemma NextOutcome(free: seq<u16>, start: nat, runs: seq<Polls>, i: nat)
    requires i < |runs|
    ensures var before := Outcomes(free, start, runs[..i]);
      Outcomes(free, start, runs[..i + 1]) == before + [OutcomeOf(FreeAfterRun(free, i), runs[i], Taken(start, before))]
    ensures FreeAfterRun(free, i + 1) == FreeAfter(FreeAfterRun(free, i))
  {
    assert runs[..i + 1][..i] == runs[..i];
  }

  lemma CountOne(outcomes: seq<Outcome>, o: Outcome, start: nat)
    ensures Answers(outcomes + [o]) == Answers(outcomes) + (if o == Answered then 1 else 0)
    ensures Taken(start, outcomes + [o]) == if o == Answered then (Taken(start, outcomes) + 1) % 0x1_0000 else Taken(start, outcomes)
  {
    assert (outcomes + [o])[..|outcomes|] == outcomes;
  }

  lemma RunOn(free: seq<u16>, start: nat, runs: seq<Polls>, i: nat, before: seq<Outcome>, o: Outcome)
    requires i < |runs| && before == Outcomes(free, start, runs[..i])
    requires o == OutcomeOf(FreeAfterRun(free, i), runs[i], Taken(start, before))
    ensures before + [o] == Outcomes(free, start, runs[..i + 1])
    ensures Taken(start, before + [o]) == if o == Answered then (Taken(start, before) + 1) % 0x1_0000 else Taken(start, before)
    ensures FreeAfterRun(free, i + 1) == FreeAfter(FreeAfterRun(free, i))
  {
    NextOutcome(free, start, runs, i);
    CountOne(before, o, start);
  }

  lemma {:induction false} OutcomesPrefix(free: seq<u16>, start: nat, runs: seq<Polls>, k: nat)
    requires k <= |runs|
    ensures Outcomes(free, start, runs)[..k] == Outcomes(free, start, runs[..k])
  {
    if k == |runs| {
      assert runs[..k] == runs;
    } else {
      var n := |runs| - 1;
      OutcomesPrefix(free, start, runs[..n], k);
      assert runs[..n][..k] == runs[..k];
    }
  }

  /** With two descriptors every command of a run is sent, whatever became of
      the ones before, and reports what its polls show against the answers
      taken so far; with fewer none ever is. */
  lemma EveryCommandSent(free: seq<u16>, start: nat, runs: seq<Polls>, k: nat)
    requires k < |runs|
    ensures var o := Outcomes(free, start, runs);
      && (|free| >= 2 ==> o[k] == if Sees(runs[k], Taken(start, o[..k])) then Answered else TimedOut)
      && (|free| < 2 ==> o[k] in {NoCommandDescriptor, NoResponseDescriptor})
  {
    OutcomesPrefix(free, start, runs, k);
    OutcomesPrefix(free, start, runs, k + 1);
    NextOutcome(free, start, runs, k);
    assert Outcomes(free, start, runs)[k] == Outcomes(free, start, runs)[..k + 1][k];
    if |free| >= 2 {
      Conserved(free, k);
      SameCount(FreeAfterRun(free, k), free);
    } else if k > 0 {
      Starved(free, k);
    }
  }

  /** Answers are taken in the order they are posted and never matched with a
      command: the one that command k takes is the answer number k only if no
      command before it has timed out. */
  lemma {:induction false} AnswersLagBehind(free: seq<u16>, start: nat, runs: seq<Polls>, k: nat)
    requires |free| >= 2 && k <= |runs|
    ensures var before := Outcomes(free, start, runs)[..k];
      Answers(before) <= k && (Answers(before) == k <==> TimedOut !in before)
  {
    if k > 0 {
      AnswersLagBehind(free, start, runs, k - 1);
      EveryCommandSent(free, start, runs, k - 1);
      OneMore(Outcomes(free, start, runs), k - 1);
    }
  }

  lemma OneMore(outcomes: seq<Outcome>, k: nat)
    requires k < |outcomes|
    ensures Answers(outcomes[..k + 1]) == Answers(outcomes[..k]) + if outcomes[k] == Answered then 1 else 0
    ensures TimedOut in outcomes[..k + 1] <==> TimedOut in outcomes[..k] || outcomes[k] == TimedOut
  {
    assert outcomes[..k + 1] == outcomes[..k] + [outcomes[k]];
  }

  /** If the first command's answer comes after its time, the second takes it
      for its own on its first poll, before the device has done anything for it. */
  lemma LateAnswer(free: seq<u16>, runs: seq<Polls>)
    requires |free| >= 2 && |runs| == 2 && !Sees(runs[0], 0) && runs[1](0) == 1
    ensures var o := Outcomes(free, 0, runs); o[0] == TimedOut && o[1] == Answered
  {
    var o := Outcomes(free, 0, runs);
    EveryCommandSent(free, 0, runs, 0);
    NoAnswers(o[..0]);
    EveryCommandSent(free, 0, runs, 1);
    NoAnswers(o[..1]);
    assert runs[1](0) != 0;
  }

  lemma {:induction false} NoAnswers(outcomes: seq<Outcome>)
    requires Answered !in outcomes
    ensures Answers(outcomes) == 0
  {
    if outcomes != [] {
      NoAnswers(outcomes[..|outcomes| - 1]);
    }
  }

  /** Such polls: the index stays at 0 for the first command and is 1 for the second. */
  lemma LateAnswerRun()
    ensures Outcomes([0, 1], 0, LateRun())[0] == TimedOut && Outcomes([0, 1], 0, LateRun())[1] == Answered
  {
    var free: seq<u16> := [0, 1];
    LateAnswer(free, LateRun());
  }

  function LateRun(): seq<Polls> {
    [_ => 0, _ => 1]
  }

  lemma SameCount(a: seq<u16>, b: seq<u16>)
    requires multiset(a) == multiset(b)
    ensures |a| == |b|
  {
    assert |multiset(a)| == |a| && |multiset(b)| == |b|;
  }

  lemma GivenBack(free: seq<u16>)
    requires |free| >= 2
    ensures [free[1]] + ([free[0]] + free[1..][1..]) == FreeAfter(free)
    ensures free[0] in free && free[1] in free
  {
    assert free[1..][1..] == free[2..];
  }

  lemma SwappedTwice(free: seq<u16>)
    requires |free| >= 2
    ensures FreeAfter(FreeAfter(free)) == free
    ensures multiset(FreeAfter(free)) == multiset(free)
  {
    assert FreeAfter(free)[2..] == free[2..];
    assert free == [free[0], free[1]] + free[2..];
  }

  lemma {:induction false} Alternates(free: seq<u16>, commands: nat)
    requires |free| >= 2 && FreeAfter(FreeAfter(free)) == free
    ensures FreeAfterRun(free, commands) == if commands % 2 == 0 then free else FreeAfter(free)
  {
    if commands > 0 { Alternates(free, commands - 1); }
  }

  /** With at least two free descriptors, any number of commands, answered or
      not, leave the same descriptors free, and only the first two can ever
      be in another place. */
  lemma Conserved(free: seq<u16>, commands: nat)
    requires |free| >= 2
    ensures FreeAfterRun(free, commands) == if commands % 2 == 0 then free else FreeAfter(free)
    ensures multiset(FreeAfterRun(free, commands)) == multiset(free)
  {
    SwappedTwice(free);
    Alternates(free, commands);
  }

  /** With fewer, the first command takes what there is, and every later one
      finds nothing. */
  lemma {:induction false} Starved(free: seq<u16>, commands: nat)
    requires |free| < 2 && commands > 0
    ensures FreeAfterRun(free, commands) == []
  {
    if commands > 1 { Starved(free, commands - 1); }
  }

  class VirtQueue {
    const descriptors: array<Desc>
    const availRing: array<u16>
    var availIdx: u16
    /** The answers taken so far, as the driver counts them. */
    var nextAvail: u16
    var freeHead: u16
    var numFree: u16
    ghost var free: seq<u16>

    ghost predicate Valid()
      reads this, descriptors
    {
      && 0 < descriptors.Length < END as int && availRing.Length == descriptors.Length
      && Threaded(descriptors[..], freeHead, free) && Distinct(free) && numFree as int == |free|
    }

    constructor (size: u16)
      requires 0 < size < END
      ensures Valid() && fresh(descriptors) && fresh(availRing)
      ensures descriptors.Length == size as int && free == Range(0, size) && availIdx == nextAvail == 0
    {
      descriptors := new Desc[size](_ => Desc(0, 0, 0, 0));
      availRing := new u16[size](_ => 0);
      availIdx, nextAvail, freeHead, numFree := 0, 0, 0, size;
      free := Range(0, size);
      new;
      var i: u16 := 0;
      while i < size - 1
        invariant i < size && descriptors.Length == availRing.Length == size as int
        invariant freeHead == 0 && numFree == size && free == Range(0, size) && availIdx == nextAvail == 0
        invariant forall k :: 0 <= k < i ==> descriptors[k].next == k + 1
      {
        descriptors[i] := descriptors[i].(next := i + 1);
        i := i + 1;
      }
      descriptors[size - 1] := descriptors[size - 1].(next := END);
      RangeThreaded(descriptors[..], 0, size);
    }

    method AllocDesc() returns (idx: Option<u16>)
      requires Valid()
      modifies this`freeHead, this`numFree, this`free
      ensures Valid()
      ensures idx == if old(free) == [] then None else Some(old(free)[0])
      ensures free == if old(free) == [] then [] else old(free)[1..]
      ensures idx.Some? ==> idx.value as int < descriptors.Length && idx.value !in free
    {
      if numFree == 0 { return None; }
      idx := Some(freeHead);
      freeHead := descriptors[freeHead].next;
      numFree := numFree - 1;
      free := free[1..];
    }

    method FreeDesc(idx: u16)
      requires Valid() && idx as int < descriptors.Length && idx !in free
      modifies this`freeHead, this`numFree, this`free, descriptors
      ensures Valid() && free == [idx] + old(free)
      ensures forall i :: 0 <= i < descriptors.Length && i != idx as int ==> descriptors[i] == old(descriptors[i])
    {
      ThreadedElsewhere(descriptors[..], freeHead, free, idx, descriptors[idx].(next := freeHead));
      ThreadedInTable(descriptors[..], freeHead, free);
      DistinctFits([idx] + free, descriptors.Length);
      descriptors[idx] := descriptors[idx].(next := freeHead);
      freeHead := idx;
      numFree := numFree + 1;
      free := [idx] + free;
      assert free[1..] == old(free);
    }

    /** Makes the chain cmd -> resp and hands its head to the device. Nothing
        of it can be on the free list. */
    method Publish(cmd: u16, resp: u16, cmdAddr: u64, cmdLen: u32, respAddr: u64, respLen: u32)
      requires Valid() && cmd as int < descriptors.Length && resp as int < descriptors.Length
      requires cmd != resp && cmd !in free && resp !in free
      modifies this`availIdx, descriptors, availRing
      ensures Valid()
      ensures Offered(cmd, resp, descriptors[..], cmdAddr, cmdLen, respAddr, respLen)
      ensures availRing[..] == old(availRing[..])[old(availIdx) as int % availRing.Length := cmd]
      ensures availIdx == (old(availIdx) + 1) % 0x1_0000
      ensures forall i :: 0 <= i < descriptors.Length && i != cmd as int && i != resp as int ==> descriptors[i] == old(descriptors[i])
    {
      ThreadedElsewhere(descriptors[..], freeHead, free, cmd, Desc(cmdAddr, cmdLen, F_NEXT, resp));
      descriptors[cmd] := Desc(cmdAddr, cmdLen, F_NEXT, resp);
      ThreadedElsewhere(descriptors[..], freeHead, free, resp, Desc(respAddr, respLen, F_WRITE, END));
      descriptors[resp] := Desc(respAddr, respLen, F_WRITE, END);
      availRing[availIdx as int % availRing.Length] := cmd;
      availIdx := (availIdx + 1) % 0x1_0000;
    }

    /** One look at the used ring. */
    method PollUsed(index: u16) returns (seen: bool)
      modifies this`nextAvail
      ensures seen <==> index != old(nextAvail)
      ensures nextAvail == if seen then (old(nextAvail) + 1) % 0x1_0000 else old(nextAvail)
    {
      seen := index != nextAvail;
      if seen {
        nextAvail := (nextAvail + 1) % 0x1_0000;
      }
    }

    /** Polls the used ring until it answers, or TIMEOUT + 1 polls have not. */
    method Await(polls: Polls) returns (answered: bool)
      modifies this`nextAvail
      ensures answered <==> Sees(polls, old(nextAvail))
      ensures nextAvail == if answered then (old(nextAvail) + 1) % 0x1_0000 else old(nextAvail)
    {
      var timeout := 0;
      while true
        invariant 0 <= timeout <= TIMEOUT && nextAvail == old(nextAvail)
        invariant forall i: nat :: i < timeout ==> polls(i) == nextAvail
        decreases TIMEOUT - timeout
      {
        answered := PollUsed(polls(timeout));
        if answered { return; }
        timeout := timeout + 1;
        if timeout > TIMEOUT { return; }
      }
    }

    /** Waits and gives both descriptors back, answered or not. */
    method Conclude(cmd: u16, resp: u16, polls: Polls) returns (answered: bool)
      requires Valid() && cmd as int < descriptors.Length && resp as int < descriptors.Length
      requires cmd != resp && cmd !in free && resp !in free
      modifies this`freeHead, this`numFree, this`free, this`nextAvail, descriptors
      ensures Valid() && free == [resp] + ([cmd] + old(free))
      ensures answered <==> Sees(polls, old(nextAvail))
      ensures nextAvail == if answered then (old(nextAvail) + 1) % 0x1_0000 else old(nextAvail)
      ensures forall i :: 0 <= i < descriptors.Length && i != cmd as int && i != resp as int ==> descriptors[i] == old(descriptors[i])
    {
      answered := Await(polls);
      FreeDesc(cmd);
      FreeDesc(resp);
    }

    /** One command. `chain` is the descriptor table the device is notified of. */
    method SendCommand(cmdAddr: u64, cmdLen: u32, respAddr: u64, respLen: u32, polls: Polls) returns (outcome: Outcome, ghost chain: seq<Desc>)
      requires Valid()
      modifies this`freeHead, this`numFree, this`free, this`availIdx, this`nextAvail, descriptors, availRing
      ensures Valid()
      ensures outcome == OutcomeOf(old(free), polls, old(nextAvail))
      ensures free == FreeAfter(old(free))
      ensures nextAvail == if outcome == Answered then (old(nextAvail) + 1) % 0x1_0000 else old(nextAvail)
      ensures |old(free)| >= 2 ==> Offered(old(free)[0], old(free)[1], chain, cmdAddr, cmdLen, respAddr, respLen)
      ensures |old(free)| >= 2 ==> availRing[..] == old(availRing[..])[old(availIdx) as int % availRing.Length := old(free)[0]]
      ensures |old(free)| < 2 ==> availIdx == old(availIdx) && availRing[..] == old(availRing[..])
      ensures forall i :: 0 <= i < descriptors.Length && i !in old(free) ==> descriptors[i] == old(descriptors[i])
    {
      chain := [];
      var cmd := AllocDesc();
      if cmd.None? { return NoCommandDescriptor, chain; }
      var resp := AllocDesc();
      if resp.None? { return NoResponseDescriptor, chain; }
      var answered;
      answered, chain := Exchange(cmd.value, resp.value, cmdAddr, cmdLen, respAddr, respLen, polls);
      GivenBack(old(free));
      return if answered then Answered else TimedOut, chain;
    }

    /** The command and its answer, with both descriptors taken. */
    method Exchange(cmd: u16, resp: u16, cmdAddr: u64, cmdLen: u32, respAddr: u64, respLen: u32, polls: Polls)
        returns (answered: bool, ghost chain: seq<Desc>)
      requires Valid() && cmd as int < descriptors.Length && resp as int < descriptors.Length
      requires cmd != resp && cmd !in free && resp !in free
      modifies this`freeHead, this`numFree, this`free, this`availIdx, this`nextAvail, descriptors, availRing
      ensures Valid() && free == [resp] + ([cmd] + old(free))
      ensures answered <==> Sees(polls, old(nextAvail))
      ensures nextAvail == if answered then (old(nextAvail) + 1) % 0x1_0000 else old(nextAvail)
      ensures Offered(cmd, resp, chain, cmdAddr, cmdLen, respAddr, respLen)
      ensures availRing[..] == old(availRing[..])[old(availIdx) as int % availRing.Length := cmd]
      ensures forall i :: 0 <= i < descriptors.Length && i != cmd as int && i != resp as int ==> descriptors[i] == old(descriptors[i])
    {
      Publish(cmd, resp, cmdAddr, cmdLen, respAddr, respLen);
      chain := descriptors[..];
      answered := Conclude(cmd, resp, polls);
    }

    method SendOne(polls: Polls) returns (outcome: Outcome)
      requires Valid()
      modifies this`freeHead, this`numFree, this`free, this`availIdx, this`nextAvail, descriptors, availRing
      ensures Valid() && outcome == OutcomeOf(old(free), polls, old(nextAvail)) && free == FreeAfter(old(free))
      ensures nextAvail == if outcome == Answered then (old(nextAvail) + 1) % 0x1_0000 else old(nextAvail)
    {
      ghost var chain;
      outcome, chain := SendCommand(0, 0, 0, 0, polls);
    }

    method SendNext(runs: seq<Polls>, i: nat, outcomes: seq<Outcome>, ghost start: seq<u16>, ghost taken: nat) returns (more: seq<Outcome>)
      requires Valid() && i < |runs| && free == FreeAfterRun(start, i)
      requires outcomes == Outcomes(start, taken, runs[..i]) && nextAvail == Taken(taken, outcomes)
      modifies this`freeHead, this`numFree, this`free, this`availIdx, this`nextAvail, descriptors, availRing
      ensures Valid() && free == FreeAfterRun(start, i + 1)
      ensures more == Outcomes(start, taken, runs[..i + 1]) && nextAvail == Taken(taken, more)
    {
      var outcome := SendOne(runs[i]);
      RunOn(start, taken, runs, i, outcomes, outcome);
      more := outcomes + [outcome];
    }

    /** A run of commands, each answered early, late or never. */
    method SendAll(runs: seq<Polls>) returns (outcomes: seq<Outcome>)
      requires Valid()
      modifies this`freeHead, this`numFree, this`free, this`availIdx, this`nextAvail, descriptors, availRing
      ensures Valid() && free == FreeAfterRun(old(free), |runs|)
      ensures outcomes == Outcomes(old(free), old(nextAvail), runs) && nextAvail == Taken(old(nextAvail), outcomes)
      ensures |old(free)| >= 2 ==> numFree == old(numFree) && multiset(free) == multiset(old(free))
    {
      outcomes := [];
      ghost var start, taken := free, nextAvail;
      var i := 0;
      assert Answers([]) == 0;
      while i < |runs|
        invariant 0 <= i <= |runs|
        invariant Valid() && free == FreeAfterRun(start, i)
        invariant outcomes == Outcomes(start, taken, runs[..i]) && nextAvail == Taken(taken, outcomes)
      {
        outcomes := SendNext(runs, i, outcomes, start, taken);
        i := i + 1;
      }
      assert runs[..i] == runs;
      if |start| >= 2 { Conserved(start, |runs|); }
    }
  }
}
