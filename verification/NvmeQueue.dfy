/** One NVMe queue pair as kernel/src/drivers/nvme.rs drives it (the admin and
    the I/O queue are the same code): a driver that submits one command and
    polls for a completion by phase bit, and a device that fetches, executes
    in any order and posts, interleaved step by step. Section 4.6 of NVM
    Express 1.4 describes the phase bit. */
module NvmeQueue {
  import opened Arith
  import opened Wire

  const DEPTH: nat := 64

  /** A completion: the command it answers and its phase bit. */
  datatype Entry = Entry(id: nat, phase: bool)

  datatype State = State(
    // driver
    sqTail: nat, cqHead: nat, phase: bool, waiting: bool,
    // shared memory
    sq: seq<nat>, cq: seq<Entry>,
    // device
    devSqHead: nat, devCqTail: nat, devPhase: bool, executing: set<nat>,
    // history: commands are numbered in the order they are issued
    issued: nat, fetched: nat, posted: seq<nat>, accepted: seq<nat>, timeouts: nat)

  function Init(): State {
    State(0, 0, true, false,
          seq(DEPTH, _ => 0), seq(DEPTH, _ => Entry(0, false)),
          0, 0, true, {},
          0, 0, [], [], 0)
  }

  datatype Step = Submit | Fetch | Post(id: nat) | Poll | TimeOut

  predicate Indices(s: State) {
    s.sqTail < DEPTH && s.cqHead < DEPTH && s.devSqHead < DEPTH && s.devCqTail < DEPTH && |s.sq| == DEPTH && |s.cq| == DEPTH
  }

  predicate Enabled(s: State, step: Step) {
    && Indices(s)
    && match step
       case Submit => !s.waiting
       case Fetch => s.devSqHead != s.sqTail
       case Post(id) => id in s.executing && (s.devCqTail + 1) % DEPTH != s.cqHead
       case Poll => s.waiting
       case TimeOut => s.waiting
  }

  /** The slot at the head carries the phase the driver is looking for. */
  predicate Visible(s: State)
    requires Indices(s)
  {
    s.cq[s.cqHead].phase == s.phase
  }

  function Apply(s: State, step: Step): State
    requires Enabled(s, step)
  {
    match step
    case Submit =>
      s.(sq := s.sq[s.sqTail := s.issued], sqTail := (s.sqTail + 1) % DEPTH, waiting := true, issued := s.issued + 1)
    case Fetch =>
      s.(executing := s.executing + {s.sq[s.devSqHead]}, devSqHead := (s.devSqHead + 1) % DEPTH, fetched := s.fetched + 1)
    case Post(id) =>
      s.(cq := s.cq[s.devCqTail := Entry(id, s.devPhase)],
         devCqTail := (s.devCqTail + 1) % DEPTH,
         devPhase := if (s.devCqTail + 1) % DEPTH == 0 then !s.devPhase else s.devPhase,
         executing := s.executing - {id}, posted := s.posted + [id])
    case Poll =>
      if !Visible(s) then s
      else
        s.(cqHead := (s.cqHead + 1) % DEPTH,
           phase := if (s.cqHead + 1) % DEPTH == 0 then !s.phase else s.phase,
           waiting := false, accepted := s.accepted + [s.cq[s.cqHead].id])
    case TimeOut => s.(waiting := false, timeouts := s.timeouts + 1)
  }

  /** The phase of the n-th completion ever posted: it flips every lap. */
  predicate Phase(n: nat) {
    (n / DEPTH) % 2 == 0
  }

  /** How far the device may run ahead before a ring overflows. */
  const MAX_TIMEOUTS: nat := DEPTH - 2

  ghost predicate Counters(s: State) {
    && Indices(s)
    && s.sqTail == s.issued % DEPTH && s.devSqHead == s.fetched % DEPTH
    && s.devCqTail == |s.posted| % DEPTH && s.devPhase == Phase(|s.posted|)
    && s.cqHead == |s.accepted| % DEPTH && s.phase == Phase(|s.accepted|)
    && |s.accepted| <= |s.posted| <= s.fetched <= s.issued
    && s.issued == |s.accepted| + s.timeouts + (if s.waiting then 1 else 0)
  }

  /** Slots the driver has yet to accept hold the posted completions with the
      phase of their lap; every other slot still holds the opposite phase. */
  ghost predicate Slots(s: State)
    requires Indices(s)
  {
    && (forall k :: s.fetched <= k < s.issued ==> s.sq[k % DEPTH] == k)
    && (forall q :: 0 <= q < |s.posted| && |s.posted| - DEPTH <= q ==> s.cq[q % DEPTH] == Entry(s.posted[q], Phase(q)))
    && (forall i :: |s.posted| <= i < DEPTH ==> !s.cq[i].phase)
  }

  /** Every fetched command is either executing or answered, and answered once. */
  ghost predicate Answers(s: State) {
    && (forall id: nat :: id in s.executing <==> id < s.fetched && id !in s.posted)
    && |s.executing| == s.fetched - |s.posted|
    && (forall q :: 0 <= q < |s.posted| ==> s.posted[q] < s.fetched)
    && (forall q, q' :: 0 <= q < q' < |s.posted| ==> s.posted[q] != s.posted[q'])
    && s.accepted <= s.posted
  }

  ghost predicate Inv(s: State) {
    s.timeouts <= MAX_TIMEOUTS ==> Counters(s) && Slots(s) && Answers(s)
  }

  lemma PhaseOfNextLap(n: nat)
    ensures Phase(n + DEPTH) == !Phase(n)
  {
  }

  lemma PhaseStep(n: nat)
    ensures Phase(n + 1) == if (n % DEPTH + 1) % DEPTH == 0 then !Phase(n) else Phase(n)
  {
  }

  /** The driver sees a completion exactly when one it has not taken was
      posted: no stale entry is accepted and no fresh one overlooked. */
  lemma VisibleIffPosted(s: State)
    requires Inv(s) && s.timeouts <= MAX_TIMEOUTS
    ensures Visible(s) <==> |s.accepted| < |s.posted|
    ensures Visible(s) ==> s.cq[s.cqHead].id == s.posted[|s.accepted|]
  {
    var n := |s.accepted|;
    assert s.cqHead == n % DEPTH && s.phase == Phase(n);
    if n < |s.posted| {
      assert s.cq[n % DEPTH] == Entry(s.posted[n], Phase(n));
    } else {
      StaleSlot(s.cq, s.posted, n);
    }
  }

  /** The slot behind the last completion taken holds the one of the lap
      before, or none. */
  lemma StaleSlot(cq: seq<Entry>, posted: seq<nat>, n: nat)
    requires |cq| == DEPTH && n == |posted|
    requires forall q :: 0 <= q < n && n - DEPTH <= q ==> cq[q % DEPTH] == Entry(posted[q], Phase(q))
    requires forall i :: n <= i < DEPTH ==> !cq[i].phase
    ensures cq[n % DEPTH].phase != Phase(n)
  {
    if n < DEPTH {
      FirstLap(n);
    } else {
      LapBefore(n);
      assert cq[(n - DEPTH) % DEPTH] == Entry(posted[n - DEPTH], Phase(n - DEPTH));
    }
  }

  lemma FirstLap(n: nat)
    requires n < DEPTH
    ensures n % DEPTH == n && Phase(n)
  {
  }

  lemma LapBefore(n: nat)
    requires n >= DEPTH
    ensures (n - DEPTH) % DEPTH == n % DEPTH && Phase(n - DEPTH) == !Phase(n)
  {
    PhaseOfNextLap(n - DEPTH);
  }

  lemma NextSlot(n: nat)
    ensures (n % DEPTH + 1) % DEPTH == (n + 1) % DEPTH
  {
  }

  lemma SubmitKeepsSlots(s: State)
    requires Counters(s) && Slots(s) && Enabled(s, Submit) && s.timeouts <= MAX_TIMEOUTS
    ensures Slots(Apply(s, Submit))
  {
    forall k | s.fetched <= k < s.issued
      ensures k % DEPTH != s.issued % DEPTH
    {
      SlotsDiffer(k, s.issued, DEPTH);
    }
  }

  lemma SubmitKeeps(s: State)
    requires Counters(s) && Slots(s) && Answers(s) && Enabled(s, Submit) && s.timeouts <= MAX_TIMEOUTS
    ensures var s' := Apply(s, Submit); Counters(s') && Slots(s') && Answers(s')
  {
    NextSlot(s.issued);
    SubmitKeepsSlots(s);
  }

  lemma FetchTakesNext(s: State)
    requires Counters(s) && Slots(s) && Enabled(s, Fetch)
    ensures s.fetched < s.issued && s.sq[s.devSqHead] == s.fetched
  {
    assert s.fetched < s.issued;
    assert s.sq[s.fetched % DEPTH] == s.fetched;
  }

  lemma FetchKeepsRings(s: State)
    requires Counters(s) && Slots(s) && Enabled(s, Fetch) && s.fetched < s.issued
    ensures var s' := Apply(s, Fetch); Counters(s') && Slots(s')
  {
    NextSlot(s.fetched);
  }

  lemma FetchKeepsAnswers(s: State)
    requires Answers(s) && Enabled(s, Fetch) && s.sq[s.devSqHead] == s.fetched
    ensures Answers(Apply(s, Fetch))
  {
  }

  lemma FetchKeeps(s: State)
    requires Counters(s) && Slots(s) && Answers(s) && Enabled(s, Fetch)
    ensures var s' := Apply(s, Fetch); Counters(s') && Slots(s') && Answers(s')
  {
    FetchTakesNext(s);
    FetchKeepsRings(s);
    FetchKeepsAnswers(s);
  }

  lemma PostKeepsSlots(s: State, id: nat)
    requires Counters(s) && Slots(s) && Enabled(s, Post(id))
    ensures Slots(Apply(s, Post(id)))
  {
    var n := |s.posted|;
    forall q | 0 <= q < n && n + 1 - DEPTH <= q
      ensures q % DEPTH != n % DEPTH
    {
      SlotsDiffer(q, n, DEPTH);
    }
  }

  lemma PostKeepsAnswers(s: State, id: nat)
    requires Answers(s) && Enabled(s, Post(id))
    ensures Answers(Apply(s, Post(id)))
  {
    var s' := Apply(s, Post(id));
    assert forall x: nat :: x in s'.posted <==> x in s.posted || x == id;
  }

  lemma PostKeepsCounters(s: State, id: nat)
    requires Counters(s) && Enabled(s, Post(id)) && |s.posted| < s.fetched
    ensures Counters(Apply(s, Post(id)))
  {
    PhaseStep(|s.posted|);
    NextSlot(|s.posted|);
  }

  lemma PostKeeps(s: State, id: nat)
    requires Counters(s) && Slots(s) && Answers(s) && Enabled(s, Post(id))
    ensures var s' := Apply(s, Post(id)); Counters(s') && Slots(s') && Answers(s')
  {
    assert |s.executing| > 0;
    PostKeepsCounters(s, id);
    PostKeepsSlots(s, id);
    PostKeepsAnswers(s, id);
  }

  lemma PollKeepsCounters(s: State)
    requires Counters(s) && Enabled(s, Poll) && (Visible(s) ==> |s.accepted| < |s.posted|)
    ensures Counters(Apply(s, Poll))
  {
    PhaseStep(|s.accepted|);
    NextSlot(|s.accepted|);
  }

  lemma PollKeepsSlots(s: State)
    requires Counters(s) && Slots(s) && Enabled(s, Poll)
    ensures Indices(Apply(s, Poll)) && Slots(Apply(s, Poll))
  {
  }

  lemma PollKeepsAnswers(s: State)
    requires Answers(s) && Enabled(s, Poll)
    requires Visible(s) ==> |s.accepted| < |s.posted| && s.cq[s.cqHead].id == s.posted[|s.accepted|]
    ensures Answers(Apply(s, Poll))
  {
  }

  lemma PollKeeps(s: State)
    requires Counters(s) && Slots(s) && Answers(s) && Enabled(s, Poll) && s.timeouts <= MAX_TIMEOUTS
    ensures var s' := Apply(s, Poll); Counters(s') && Slots(s') && Answers(s')
  {
    VisibleIffPosted(s);
    PollKeepsCounters(s);
    PollKeepsSlots(s);
    PollKeepsAnswers(s);
  }

  lemma StepKeeps(s: State, step: Step, s': State)
    requires Inv(s) && Enabled(s, step) && s' == Apply(s, step)
    ensures Inv(s')
  {
    if s.timeouts <= MAX_TIMEOUTS {
      match step
      case Submit => SubmitKeeps(s);
      case Fetch => FetchKeeps(s);
      case Post(id) => PostKeeps(s, id);
      case Poll => PollKeeps(s);
      case TimeOut =>
    }
  }

  /** Any interleaving of driver and device steps from power-up. */
  ghost predicate IsRun(states: seq<State>, steps: seq<Step>) {
    && |states| == |steps| + 1
    && states[0] == Init()
    && forall i :: 0 <= i < |steps| ==> Enabled(states[i], steps[i]) && states[i + 1] == Apply(states[i], steps[i])
  }

  lemma {:induction false} RunInvariant(states: seq<State>, steps: seq<Step>, n: nat)
    requires IsRun(states, steps) && n <= |steps|
    ensures Inv(states[n])
  {
    if n > 0 {
      RunInvariant(states, steps, n - 1);
      StepKeeps(states[n - 1], steps[n - 1], states[n]);
    }
  }

  /** Between commands of a run without timeouts the rings are level: nothing
      is outstanding, and the SQ tail equals the CQ head. */
  lemma LevelBetweenCommands(s: State)
    requires Inv(s) && s.timeouts == 0 && !s.waiting
    ensures s.sqTail == s.cqHead && s.executing == {}
    ensures |s.accepted| == |s.posted| == s.fetched == s.issued
  {
  }

  predicate InOrder(ids: seq<nat>) {
    forall k :: 0 <= k < |ids| ==> ids[k] == k
  }

  lemma NoFewerTimeouts(s: State, step: Step)
    requires Enabled(s, step)
    ensures s.timeouts <= Apply(s, step).timeouts
  {
  }

  lemma OrderKept(s: State, step: Step)
    requires Inv(s) && Enabled(s, step) && Apply(s, step).timeouts == 0 && InOrder(s.accepted)
    ensures InOrder(Apply(s, step).accepted)
  {
    if step == Poll && Visible(s) {
      CurrentCommandAnswered(s);
    }
  }

  /** Without timeouts the n-th submission returns the completion of the n-th
      command, whatever the order in which the device works. */
  lemma {:induction false} AcceptedInIssueOrder(states: seq<State>, steps: seq<Step>, n: nat)
    requires IsRun(states, steps) && n <= |steps| && states[n].timeouts == 0
    ensures InOrder(states[n].accepted)
  {
    if n > 0 {
      NoFewerTimeouts(states[n - 1], steps[n - 1]);
      AcceptedInIssueOrder(states, steps, n - 1);
      RunInvariant(states, steps, n - 1);
      OrderKept(states[n - 1], steps[n - 1]);
    }
  }

  lemma CurrentCommandAnswered(s: State)
    requires Inv(s) && s.timeouts == 0 && s.waiting && Indices(s) && Visible(s)
    requires InOrder(s.accepted)
    ensures s.cq[s.cqHead].id == |s.accepted| == s.issued - 1
  {
    VisibleIffPosted(s);
    var a := |s.accepted|;
    forall k | 0 <= k < a
      ensures s.posted[a] != s.accepted[k]
    {
      assert s.posted[k] == s.accepted[k];
    }
    forall id: nat | id < a
      ensures id in s.accepted
    {
      assert s.accepted[id] == id;
    }
    assert s.posted[a] !in s.accepted;
  }

  /** The driver never compares command identifiers, so each timeout shifts
      every later answer: with a device that works in order, a completion is
      that of the command issued `timeouts` submissions earlier, and it is the
      current command's exactly when no submission has ever timed out. */
  lemma {:induction false} TimeoutsShiftAnswers(states: seq<State>, steps: seq<Step>, n: nat)
    requires IsRun(states, steps) && n <= |steps|
    requires var s := states[n];
      && s.timeouts <= MAX_TIMEOUTS && s.waiting && Indices(s) && Visible(s)
      && forall q :: 0 <= q < |s.posted| ==> s.posted[q] == q
    ensures var s := states[n];
      && s.cq[s.cqHead].id == s.issued - 1 - s.timeouts
      && (s.cq[s.cqHead].id == s.issued - 1 <==> s.timeouts == 0)
  {
    RunInvariant(states, steps, n);
    VisibleIffPosted(states[n]);
  }

  /** Such a run: command 0 times out, command 1 is answered with command 0's
      completion. */
  lemma StaleAnswer() returns (states: seq<State>, steps: seq<Step>)
    ensures IsRun(states, steps) && steps != [] && steps[|steps| - 1] == Poll
    ensures states[|steps|].issued == 2 && states[|steps|].accepted == [0]
  {
    var s0 := Init();
    var s1 := Apply(s0, Submit);
    var s2 := Apply(s1, TimeOut);
    var s3 := Apply(s2, Submit);
    var s4 := Apply(s3, Fetch);
    var s5 := Apply(s4, Post(0));
    var s6 := Apply(s5, Poll);
    states := [s0, s1, s2, s3, s4, s5, s6];
    steps := [Submit, TimeOut, Submit, Fetch, Post(0), Poll];
  }

  /** The driver side as a routine, with the device free to run between polls. */
  class Controller {
    var q: State
    ghost var states: seq<State>
    ghost var steps: seq<Step>

    ghost predicate Valid()
      reads this
    {
      IsRun(states, steps) && q == states[|steps|]
    }

    constructor ()
      ensures Valid() && q == Init()
    {
      q := Init();
      states, steps := [Init()], [];
    }

    method Take(step: Step)
      requires Valid() && Enabled(q, step)
      modifies this
      ensures Valid() && q == Apply(old(q), step) && old(states) <= states && q in states
    {
      q := Apply(q, step);
      states, steps := states + [q], steps + [step];
    }

    /** Any number of device steps. */
    method DeviceRuns()
      requires Valid()
      modifies this
      ensures Valid() && q.waiting == old(q.waiting) && q.issued == old(q.issued)
      ensures q.accepted == old(q.accepted) && q.timeouts == old(q.timeouts) && old(states) <= states
    {
      var budget: nat :| 0 <= budget;
      for i := 0 to budget
        invariant Valid() && q.waiting == old(q.waiting) && q.issued == old(q.issued)
        invariant q.accepted == old(q.accepted) && q.timeouts == old(q.timeouts) && old(states) <= states
      {
        var fetch: bool, id: nat :| 0 <= id;
        if fetch && Enabled(q, Fetch) {
          Take(Fetch);
        } else if Enabled(q, Post(id)) {
          Take(Post(id));
        }
      }
    }

    /** `io_submit`: issue one command and poll until an entry shows the
        expected phase or the deadline passes; `looks` are the polls that saw
        none. */
    method IoSubmit(deadline: nat) returns (r: Option<nat>, ghost looks: seq<State>)
      requires Valid() && !q.waiting && Indices(q)
      modifies this
      ensures Valid() && !q.waiting && Indices(q) && q.issued == old(q.issued) + 1
      ensures r.None? ==> !Visible(q) && |looks| == Max(deadline, 1)
      ensures r.Some? ==> |looks| < Max(deadline, 1)
      ensures forall k :: 0 <= k < |looks| ==> looks[k] in states && Indices(looks[k]) && !Visible(looks[k])
      ensures q.timeouts == old(q.timeouts) + (if r.Some? then 0 else 1)
      ensures q.accepted == old(q.accepted) + (if r.Some? then [r.value] else [])
      ensures r.Some? && old(q.timeouts) == 0 ==> r.value == old(q.issued)
    {
      Take(Submit);
      var polls := 0;
      looks := [];
      while true
        invariant |looks| == polls < Max(deadline, 1)
        invariant forall k :: 0 <= k < |looks| ==> looks[k] in states && Indices(looks[k]) && !Visible(looks[k])
        invariant Valid() && q.waiting && q.issued == old(q.issued) + 1
        invariant q.accepted == old(q.accepted) && q.timeouts == old(q.timeouts)
        decreases deadline - polls
      {
        DeviceRuns();
        RunIndices(states, steps, |steps|);
        if Visible(q) {
          var entry := q.cq[q.cqHead];
          if q.timeouts == 0 {
            RunInvariant(states, steps, |steps|);
            AcceptedInIssueOrder(states, steps, |steps|);
            CurrentCommandAnswered(q);
          }
          Take(Poll);
          return Some(entry.id), looks;
        }
        looks := looks + [q];
        polls := polls + 1;
        if polls >= deadline {
          break;
        }
      }
      Take(TimeOut);
      return None, looks;
    }
  }

  lemma {:induction false} RunIndices(states: seq<State>, steps: seq<Step>, n: nat)
    requires IsRun(states, steps) && n <= |steps|
    ensures Indices(states[n])
  {
    if n > 0 {
      RunIndices(states, steps, n - 1);
    }
  }
}
