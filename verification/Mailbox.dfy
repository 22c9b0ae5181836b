/** The IPCC mailbox between the main processor (A7) and the coprocessor (M4): doorbells
    rung by the A7, the M4's interrupt callbacks, and the M4's poll loop.

    The protocol is a state machine of micro-steps. The A7 runs concurrently with the M4;
    an M4 callback interrupts the poll between any two of its steps, and the poll does not
    move while a callback is under way. */
module Mailbox {

  import opened Common

  datatype Channel = Channel1 | Channel2

  /** RX_NO_MSG, RX_NEW_MSG, RX_BUF_FREE */
  datatype Flag = NoMsg | NewMsg | BufFree

  /** One channel towards the M4: the flag its callback sets, the occupied bit of the IPCC,
      and counts of queue entries: posted by the A7, posted before its last doorbell, and
      handled by the M4. */
  datatype Link = Link(flag: Flag, occupied: bool, posted: nat, rung: nat, drained: nat)

  /** Where the M4 stands in MAILBOX_Poll. */
  datatype Pc =
    | Outside
    | Testing(c: Channel)   // about to test the flag
    | Draining(c: Channel)  // inside rproc_virtio_notified, handling the queue entry by entry
    | Clearing(c: Channel)  // about to reset the flag
    | NotifyingNull         // about to call rproc_virtio_notified(NULL), which returns at once

  /** The callback of a channel has set the flag and not yet acknowledged. */
  datatype Isr = Quiet | Acking(c: Channel)

  datatype State = State(ch1: Link, ch2: Link, pc: Pc, isr: Isr)
  {
    function At(c: Channel): Link {
      if c == Channel1 then ch1 else ch2
    }

    function With(c: Channel, l: Link): State {
      if c == Channel1 then this.(ch1 := l) else this.(ch2 := l)
    }
  }

  /** The source drains the queue and then clears the flag; the alternative clears first. */
  datatype Order = DrainThenClear | ClearThenDrain

  datatype Step =
    | Post(c: Channel)    // A7 puts an entry in the queue
    | Ring(c: Channel)    // A7 sets the occupied bit
    | IsrFlag(c: Channel) // callback: msg_received_chN = ...
    | IsrAck              // callback: HAL_IPCC_NotifyCPU(RX) clears the occupied bit
    | Poll                // next step of MAILBOX_Poll

  /** The value the callback of a channel stores. */
  function Signal(c: Channel): Flag {
    if c == Channel1 then BufFree else NewMsg
  }

  function AfterChannel(c: Channel): Pc {
    if c == Channel1 then Testing(Channel2) else NotifyingNull
  }

  function PollStep(order: Order, s: State): State {
    match s.pc
    case Outside => s.(pc := Testing(Channel1))
    case Testing(c) =>
      if s.At(c).flag == Signal(c) then
        s.(pc := if order == DrainThenClear then Draining(c) else Clearing(c))
      else
        s.(pc := if c == Channel1 then Testing(Channel2) else Outside)
    case Draining(c) =>
      var l := s.At(c);
      if l.drained < l.posted then s.With(c, l.(drained := l.drained + 1))
      else s.(pc := if order == DrainThenClear then Clearing(c) else AfterChannel(c))
    case Clearing(c) =>
      s.With(c, s.At(c).(flag := NoMsg)).(pc := if order == DrainThenClear then AfterChannel(c) else Draining(c))
    case NotifyingNull => s.(pc := Outside)
  }

  predicate Enabled(s: State, step: Step) {
    match step
    case Post(_) => true
    case Ring(_) => true
    case IsrFlag(c) => s.isr == Quiet && s.At(c).occupied
    case IsrAck => s.isr.Acking?
    case Poll => s.isr == Quiet
  }

  function Apply(order: Order, s: State, step: Step): State
    requires Enabled(s, step)
  {
    match step
    case Post(c) => s.With(c, s.At(c).(posted := s.At(c).posted + 1))
    case Ring(c) => s.With(c, s.At(c).(occupied := true, rung := s.At(c).posted))
    case IsrFlag(c) => s.With(c, s.At(c).(flag := Signal(c))).(isr := Acking(c))
    case IsrAck => s.With(s.isr.c, s.At(s.isr.c).(occupied := false)).(isr := Quiet)
    case Poll => PollStep(order, s)
  }

  const IDLE: Link := Link(NoMsg, false, 0, 0, 0)
  const START: State := State(IDLE, IDLE, Outside, Quiet)

  /** The state after a sequence of steps, if each is enabled in its turn. */
  function Run(order: Order, s: State, steps: seq<Step>): Option<State>
    decreases |steps|
  {
    if steps == [] then Some(s)
    else if Enabled(s, steps[0]) then Run(order, Apply(order, s, steps[0]), steps[1..])
    else None
  }

  lemma {:induction false} RunConcat(order: Order, s: State, a: seq<Step>, b: seq<Step>)
    requires Run(order, s, a).Some?
    ensures Run(order, s, a + b) == Run(order, Run(order, s, a).value, b)
    decreases |a|
  {
    if a == [] {
      assert a + b == b;
    } else {
      RunConcat(order, Apply(order, s, a[0]), a[1..], b);
      assert (a + b)[1..] == a[1..] + b;
    }
  }

  // ------------------------------------------------------------------ no lost doorbell

  /** A doorbell was rung for an entry that the M4 has not handled yet. */
  predicate Pending(l: Link) {
    l.rung > l.drained
  }

  /** Something will still make the M4 look at the channel's queue: the occupied bit, the
      flag unless it is about to be thrown away, or a drain under way. */
  predicate Covered(order: Order, s: State, c: Channel) {
    var l := s.At(c);
    || l.occupied
    || (l.flag == Signal(c) && (order == ClearThenDrain || s.pc != Clearing(c)))
    || s.pc == Draining(c)
  }

  predicate Consistent(order: Order, s: State, c: Channel) {
    var l := s.At(c);
    && l.rung <= l.posted
    && l.drained <= l.posted
    && l.flag in {NoMsg, Signal(c)}
    && (s.isr == Acking(c) ==> l.flag == Signal(c))
    && (s.pc == Clearing(c) ==> l.flag == Signal(c))
    && (s.pc == Draining(c) && order == DrainThenClear ==> l.flag == Signal(c))
  }

  predicate WellFormed(order: Order, s: State) {
    Consistent(order, s, Channel1) && Consistent(order, s, Channel2)
  }

  /** No doorbell is lost. */
  predicate NoneLost(order: Order, s: State) {
    forall c: Channel :: Pending(s.At(c)) ==> Covered(order, s, c)
  }

  /** The one dangerous step: a callback acknowledges a pending doorbell while the poll is
      about to clear that channel's flag. */
  predicate Interrupts(s: State, step: Step) {
    && step == IsrAck
    && s.isr.Acking?
    && s.pc == Clearing(s.isr.c)
    && Pending(s.At(s.isr.c))
  }

  lemma StepKeepsWellFormed(order: Order, s: State, step: Step)
    requires WellFormed(order, s) && Enabled(s, step)
    ensures WellFormed(order, Apply(order, s, step))
  {
  }

  lemma ChannelStaysCovered(order: Order, s: State, step: Step, c: Channel)
    requires WellFormed(order, s) && Enabled(s, step)
    requires Pending(s.At(c)) ==> Covered(order, s, c)
    ensures var s' := Apply(order, s, step);
      (Pending(s'.At(c)) ==> Covered(order, s', c)) <==> !(order == DrainThenClear && Interrupts(s, step) && s.isr.c == c)
  {
  }

  /** Of all steps, in every well-formed state, exactly the dangerous one breaks the
      invariant of the source's order; none breaks it when the flag is cleared first. */
  lemma OnlyInterruptLoses(order: Order, s: State, step: Step)
    requires WellFormed(order, s) && NoneLost(order, s) && Enabled(s, step)
    ensures NoneLost(order, Apply(order, s, step)) <==> !(order == DrainThenClear && Interrupts(s, step))
  {
    var s' := Apply(order, s, step);
    ChannelStaysCovered(order, s, step, Channel1);
    ChannelStaysCovered(order, s, step, Channel2);
    if order == DrainThenClear && Interrupts(s, step) {
      assert Pending(s'.At(s.isr.c)) && !Covered(order, s', s.isr.c);
    }
  }

  /** The callback of a channel fires between the end of the drain and the clearing of the
      flag. */
  predicate FiresBeforeClear(s: State, step: Step) {
    step.IsrFlag? && s.pc == Clearing(step.c)
  }

  predicate NeverFiresBeforeClear(order: Order, s: State, steps: seq<Step>)
    requires Run(order, s, steps).Some?
    decreases |steps|
  {
    steps != [] ==>
      !FiresBeforeClear(s, steps[0]) && NeverFiresBeforeClear(order, Apply(order, s, steps[0]), steps[1..])
  }

  /** Over every run, from every state that has lost nothing: if drain and clear run
      uninterrupted, or the flag is cleared before the drain, no doorbell is lost. */
  lemma {:induction false} NoLostDoorbell(order: Order, s: State, steps: seq<Step>)
    requires WellFormed(order, s) && NoneLost(order, s)
    requires order == DrainThenClear && s.isr.Acking? ==> s.pc != Clearing(s.isr.c)
    requires Run(order, s, steps).Some?
    requires order == DrainThenClear ==> NeverFiresBeforeClear(order, s, steps)
    ensures WellFormed(order, Run(order, s, steps).value) && NoneLost(order, Run(order, s, steps).value)
    decreases |steps|
  {
    if steps != [] {
      StepKeepsWellFormed(order, s, steps[0]);
      OnlyInterruptLoses(order, s, steps[0]);
      NoLostDoorbell(order, Apply(order, s, steps[0]), steps[1..]);
    }
  }

  /** The state after the first i steps of a run. */
  function StateAt(order: Order, s: State, steps: seq<Step>, i: nat): State
    requires Run(order, s, steps).Some? && i <= |steps|
    decreases i
  {
    if i == 0 then s else StateAt(order, Apply(order, s, steps[0]), steps[1..], i - 1)
  }

  lemma {:induction false} NextStateAt(order: Order, s: State, steps: seq<Step>, i: nat)
    requires Run(order, s, steps).Some? && i < |steps|
    ensures Enabled(StateAt(order, s, steps, i), steps[i])
    ensures StateAt(order, s, steps, i + 1) == Apply(order, StateAt(order, s, steps, i), steps[i])
    decreases i
  {
    if i > 0 {
      NextStateAt(order, Apply(order, s, steps[0]), steps[1..], i - 1);
    }
  }

  /** The dangerous step comes at a place of the run where the source's order is in use. */
  predicate InterruptsAt(order: Order, s: State, steps: seq<Step>, i: nat)
    requires Run(order, s, steps).Some? && i < |steps|
  {
    order == DrainThenClear && Interrupts(StateAt(order, s, steps, i), steps[i])
  }

  lemma {:induction false} NoneLostSoFar(order: Order, s: State, steps: seq<Step>, i: nat)
    requires WellFormed(order, s) && NoneLost(order, s) && Run(order, s, steps).Some? && i <= |steps|
    ensures WellFormed(order, StateAt(order, s, steps, i))
    ensures (forall k: nat | k < i :: !InterruptsAt(order, s, steps, k)) ==> NoneLost(order, StateAt(order, s, steps, i))
    decreases i
  {
    if i > 0 {
      var before := StateAt(order, s, steps, i - 1);
      NoneLostSoFar(order, s, steps, i - 1);
      NextStateAt(order, s, steps, i - 1);
      StepKeepsWellFormed(order, before, steps[i - 1]);
      assert !InterruptsAt(order, s, steps, i - 1) <==> !(order == DrainThenClear && Interrupts(before, steps[i - 1]));
      if NoneLost(order, before) {
        OnlyInterruptLoses(order, before, steps[i - 1]);
      }
    }
  }

  /** Over every run: a doorbell is lost at some point if and only if some step of the run is
      the dangerous one; never when the flag is cleared first. */
  lemma LostIffInterrupted(order: Order, s: State, steps: seq<Step>)
    requires WellFormed(order, s) && NoneLost(order, s) && Run(order, s, steps).Some?
    ensures (exists i: nat | i <= |steps| :: !NoneLost(order, StateAt(order, s, steps, i)))
       <==> (exists i: nat | i < |steps| :: InterruptsAt(order, s, steps, i))
  {
    if i: nat :| i <= |steps| && !NoneLost(order, StateAt(order, s, steps, i)) {
      NoneLostSoFar(order, s, steps, i);
    }
    if i: nat :| i < |steps| && InterruptsAt(order, s, steps, i) {
      var before := StateAt(order, s, steps, i);
      NoneLostSoFar(order, s, steps, i);
      NextStateAt(order, s, steps, i);
      if NoneLost(order, before) {
        OnlyInterruptLoses(order, before, steps[i]);
      }
      assert !NoneLost(order, before) || !NoneLost(order, StateAt(order, s, steps, i + 1));
    }
  }

  /** A doorbell once lost stays lost: without another doorbell on the channel no run,
      however long, handles its entry. */
  lemma {:induction false} LostUntilNextDoorbell(order: Order, s: State, c: Channel, steps: seq<Step>)
    requires WellFormed(order, s) && Pending(s.At(c)) && !Covered(order, s, c)
    requires Run(order, s, steps).Some? && Ring(c) !in steps
    ensures var s' := Run(order, s, steps).value;
      s'.At(c).drained == s.At(c).drained && Pending(s'.At(c)) && !Covered(order, s', c)
    decreases |steps|
  {
    if steps != [] {
      StepKeepsWellFormed(order, s, steps[0]);
      LostUntilNextDoorbell(order, Apply(order, s, steps[0]), c, steps[1..]);
    }
  }

  /** After the dangerous step the poll throws the flag away and the doorbell is gone. */
  lemma InterruptThenClear(s: State)
    requires WellFormed(DrainThenClear, s) && Interrupts(s, IsrAck)
    ensures var c := s.isr.c;
      var s' := PollStep(DrainThenClear, Apply(DrainThenClear, s, IsrAck));
      Pending(s'.At(c)) && !Covered(DrainThenClear, s', c) && s'.At(c).flag == NoMsg && !s'.At(c).occupied
  {
  }

  /** The A7 posts an entry and rings. */
  function Doorbell(c: Channel): seq<Step> {
    [Post(c), Ring(c)]
  }

  /** The callback takes the doorbell. */
  function Callback(c: Channel): seq<Step> {
    [IsrFlag(c), IsrAck]
  }

  function ArrivalOn(c: Channel): seq<Step> {
    Doorbell(c) + Callback(c)
  }

  function Belled(l: Link): Link {
    l.(occupied := true, posted := l.posted + 1, rung := l.posted + 1)
  }

  function Answered(c: Channel, l: Link): Link {
    l.(flag := Signal(c), occupied := false)
  }

  /** The steps of the poll up to the clearing of a channel's flag, one entry waiting. */
  function PollsUpToClear(c: Channel): seq<Step> {
    (if c == Channel1 then [] else [Poll]) + [Poll, Poll] + [Poll, Poll]
  }

  /** A first entry is polled; a second one arrives between its drain and the clearing of
      the flag. */
  function LosingRun(c: Channel): seq<Step> {
    ArrivalOn(c) + PollsUpToClear(c) + ArrivalOn(c) + [Poll]
  }

  lemma CallbackRun(s: State, c: Channel)
    requires s.isr == Quiet && s.At(c).occupied
    ensures Run(DrainThenClear, s, Callback(c)) == Some(s.With(c, Answered(c, s.At(c))))
  {
  }

  lemma DoorbellRun(s: State, c: Channel)
    ensures Run(DrainThenClear, s, Doorbell(c)) == Some(s.With(c, Belled(s.At(c))))
  {
  }

  lemma WithTwice(s: State, c: Channel, l: Link, m: Link)
    ensures s.With(c, l).With(c, m) == s.With(c, m) && s.With(c, l).At(c) == l
  {
  }

  lemma Arrival(s: State, c: Channel)
    requires s.isr == Quiet
    ensures Run(DrainThenClear, s, ArrivalOn(c)) == Some(s.With(c, Answered(c, Belled(s.At(c)))))
  {
    var s2 := s.With(c, Belled(s.At(c)));
    WithTwice(s, c, Belled(s.At(c)), Answered(c, Belled(s.At(c))));
    DoorbellRun(s, c);
    CallbackRun(s2, c);
    RunThen(DrainThenClear, s, Doorbell(c), s2, Callback(c), s.With(c, Answered(c, Belled(s.At(c)))));
  }

  lemma RunThen(order: Order, s: State, a: seq<Step>, s': State, b: seq<Step>, s'': State)
    requires Run(order, s, a) == Some(s') && Run(order, s', b) == Some(s'')
    ensures Run(order, s, a + b) == Some(s'')
  {
    RunConcat(order, s, a, b);
  }

  lemma PollTwice(s: State)
    requires s.isr == Quiet
    ensures Run(DrainThenClear, s, [Poll, Poll])
         == Some(PollStep(DrainThenClear, PollStep(DrainThenClear, s)))
  {
  }

  lemma FirstEntryPolled(c: Channel)
    ensures var s := START.With(c, Link(Signal(c), false, 1, 1, 0));
      Run(DrainThenClear, s, PollsUpToClear(c)) == Some(START.With(c, Link(Signal(c), false, 1, 1, 1)).(pc := Clearing(c)))
  {
    var s := START.With(c, Link(Signal(c), false, 1, 1, 0));
    var first := if c == Channel1 then [] else [Poll];
    var s1 := if c == Channel1 then s else s.(pc := Testing(Channel1));
    var s3 := PollStep(DrainThenClear, PollStep(DrainThenClear, s1));
    assert Run(DrainThenClear, s, first) == Some(s1) by {
      assert [Poll][1..] == [];
    }
    PollTwice(s1);
    PollTwice(s3);
    RunConcat(DrainThenClear, s, first, [Poll, Poll]);
    RunConcat(DrainThenClear, s, first + [Poll, Poll], [Poll, Poll]);
  }

  /** From the start of the program the source's order loses a doorbell on this run, on
      either channel: the second entry stays in the queue, with no flag and no occupied bit. */
  lemma SourceOrderLoses(c: Channel)
    ensures var end := START.With(c, Link(NoMsg, false, 2, 2, 1)).(pc := AfterChannel(c));
      Run(DrainThenClear, START, LosingRun(c)) == Some(end) && !NoneLost(DrainThenClear, end)
  {
    var end := START.With(c, Link(NoMsg, false, 2, 2, 1)).(pc := AfterChannel(c));
    var a, b := ArrivalOn(c), PollsUpToClear(c);
    Arrival(START, c);
    FirstEntryPolled(c);
    Arrival(START.With(c, Link(Signal(c), false, 1, 1, 1)).(pc := Clearing(c)), c);
    RunConcat(DrainThenClear, START, a, b);
    RunConcat(DrainThenClear, START, a + b, a);
    RunConcat(DrainThenClear, START, a + b + a, [Poll]);
    assert [Poll][1..] == [];
    assert Pending(end.At(c)) && !Covered(DrainThenClear, end, c);
  }

  // ------------------------------------------------------------- what a poll achieves

  /** A channel after an uninterrupted visit by the poll. */
  function Visited(c: Channel, l: Link): Link {
    if l.flag == Signal(c) then Emptied(l).(flag := NoMsg) else l
  }

  function Emptied(l: Link): Link {
    l.(drained := if l.drained < l.posted then l.posted else l.drained)
  }

  /** A channel whose visit is under way, after the rest of the visit. */
  function RestOfVisit(order: Order, pc: Pc, l: Link): Link {
    match order
    case DrainThenClear => if pc.Draining? then Emptied(l).(flag := NoMsg) else l.(flag := NoMsg)
    case ClearThenDrain => if pc.Draining? then Emptied(l) else Emptied(l).(flag := NoMsg)
  }

  /** The channels once the poll under way has left MAILBOX_Poll. */
  function Outcome(order: Order, s: State): (Link, Link) {
    match s.pc
    case Outside => (s.ch1, s.ch2)
    case NotifyingNull => (s.ch1, s.ch2)
    case Testing(c) =>
      (if c == Channel1 then Visited(c, s.ch1) else s.ch1, Visited(Channel2, s.ch2))
    case _ =>
      if s.pc.c == Channel1 then (RestOfVisit(order, s.pc, s.ch1), Visited(Channel2, s.ch2))
      else (s.ch1, RestOfVisit(order, s.pc, s.ch2))
  }

  /** How far the poll is from its end, and how many entries its current drain has left. */
  function Distance(order: Order, s: State): (nat, nat) {
    var first := if order == DrainThenClear then 2 else 1;
    match s.pc
    case Outside => (0, 0)
    case NotifyingNull => (1, 0)
    case Testing(c) => (if c == Channel1 then 7 else 4, 0)
    case Draining(c) =>
      var l := s.At(c);
      (if c == Channel1 then 4 + first else 1 + first, if l.drained < l.posted then l.posted - l.drained else 0)
    case Clearing(c) => (if c == Channel1 then 7 - first else 4 - first, 0)
  }

  /** Every step of the poll brings it nearer to its end and leaves its outcome as it was. */
  lemma PollProgress(order: Order, s: State)
    requires s.pc != Outside
    ensures Outcome(order, PollStep(order, s)) == Outcome(order, s)
    ensures var (d, d') := (Distance(order, s), Distance(order, PollStep(order, s)));
      d'.0 < d.0 || (d'.0 == d.0 && d'.1 < d.1)
    ensures forall c: Channel :: s.At(c).drained <= PollStep(order, s).At(c).drained <= s.At(c).drained + 1
  {
  }

  /** Left to itself the poll ends, with the expected outcome, and loses nothing. */
  lemma {:induction false} FinishPoll(order: Order, s: State) returns (steps: seq<Step>, s': State)
    requires s.isr == Quiet
    ensures forall step | step in steps :: step == Poll
    ensures Run(order, s, steps) == Some(s')
    ensures s'.pc == Outside && s'.isr == Quiet && (s'.ch1, s'.ch2) == Outcome(order, s)
    ensures WellFormed(order, s) && NoneLost(order, s) ==> WellFormed(order, s') && NoneLost(order, s')
    decreases Distance(order, s).0, Distance(order, s).1
  {
    if s.pc == Outside {
      return [], s;
    }
    PollProgress(order, s);
    if WellFormed(order, s) && NoneLost(order, s) {
      StepKeepsWellFormed(order, s, Poll);
      OnlyInterruptLoses(order, s, Poll);
    }
    var rest;
    rest, s' := FinishPoll(order, PollStep(order, s));
    steps := [Poll] + rest;
    assert steps[1..] == rest;
  }

  /** The coprocessor's own steps. */
  predicate ByCoprocessor(steps: seq<Step>) {
    forall step | step in steps :: step.IsrFlag? || step.IsrAck? || step.Poll?
  }

  lemma TakeInterrupt(order: Order, s: State, c: Channel) returns (steps: seq<Step>, s': State)
    requires WellFormed(order, s) && NoneLost(order, s) && s.pc == Outside && s.isr == Quiet
    ensures ByCoprocessor(steps) && Run(order, s, steps) == Some(s')
    ensures WellFormed(order, s') && NoneLost(order, s') && s'.pc == Outside && s'.isr == Quiet
    ensures !s'.At(c).occupied
    ensures forall d: Channel | d != c :: s'.At(d) == s.At(d)
  {
    if !s.At(c).occupied {
      return [], s;
    }
    steps := [IsrFlag(c), IsrAck];
    var mid := Apply(order, s, IsrFlag(c));
    s' := Apply(order, mid, IsrAck);
    assert steps[1..] == [IsrAck] && Run(order, mid, [IsrAck]) == Some(s') by {
      assert [IsrAck][1..] == [] && Run(order, s', []) == Some(s');
    }
    StepKeepsWellFormed(order, s, IsrFlag(c));
    OnlyInterruptLoses(order, s, IsrFlag(c));
    StepKeepsWellFormed(order, mid, IsrAck);
    OnlyInterruptLoses(order, mid, IsrAck);
  }

  /** While nothing is lost the coprocessor can, on its own, handle every entry for which
      a doorbell was rung. */
  lemma Recover(order: Order, s: State) returns (steps: seq<Step>, s': State)
    requires WellFormed(order, s) && NoneLost(order, s) && s.isr == Quiet
    ensures ByCoprocessor(steps) && Run(order, s, steps) == Some(s')
    ensures !Pending(s'.ch1) && !Pending(s'.ch2)
  {
    var a, sa := FinishPoll(order, s);
    var b, sb := TakeInterrupt(order, sa, Channel1);
    var d, sd := TakeInterrupt(order, sb, Channel2);
    var begun := PollStep(order, sd);
    var e;
    e, s' := FinishPoll(order, begun);
    assert ([Poll] + e)[1..] == e;
    RunConcat(order, s, a, b);
    RunConcat(order, s, a + b, d);
    RunConcat(order, s, a + b + d, [Poll] + e);
    steps := a + b + d + ([Poll] + e);
    assert NoneLost(order, sd);
    assert Pending(sd.At(Channel1)) ==> Covered(order, sd, Channel1);
    assert Pending(sd.At(Channel2)) ==> Covered(order, sd, Channel2);
  }

  /** The coprocessor can deliver everything pending exactly when no doorbell is lost. */
  lemma DeliverableIffNoneLost(order: Order, s: State)
    requires WellFormed(order, s) && s.isr == Quiet
    ensures NoneLost(order, s)
       <==> (exists steps: seq<Step> :: ByCoprocessor(steps) && Run(order, s, steps).Some? &&
               !Pending(Run(order, s, steps).value.ch1) && !Pending(Run(order, s, steps).value.ch2))
  {
    if NoneLost(order, s) {
      var steps, s' := Recover(order, s);
    } else {
      var c: Channel :| Pending(s.At(c)) && !Covered(order, s, c);
      forall steps: seq<Step> | ByCoprocessor(steps) && Run(order, s, steps).Some?
        ensures Pending(Run(order, s, steps).value.At(c))
      {
        LostUntilNextDoorbell(order, s, c, steps);
      }
    }
  }

  // ------------------------------------------------------------- the firmware's code

  const VRING0_ID := 0
  const VRING1_ID := 1

  /** One channel towards the A7: its occupied bit, and how many doorbells were rung and
      acknowledged. */
  datatype Outgoing = Outgoing(occupied: bool, rung: nat, acked: nat)
  {
    /** No doorbell overwrites an earlier one. */
    predicate Balanced() {
      rung == acked + if occupied then 1 else 0
    }
  }

  class Firmware {
    var ch1: Link
    var ch2: Link
    var tx1: Outgoing
    var tx2: Outgoing

    constructor ()
      ensures ch1 == IDLE && ch2 == IDLE
      ensures tx1 == Outgoing(false, 0, 0) && tx2 == Outgoing(false, 0, 0)
    {
      ch1, ch2 := IDLE, IDLE;
      tx1, tx2 := Outgoing(false, 0, 0), Outgoing(false, 0, 0);
    }

    ghost function View(pc: Pc): State
      reads this
    {
      State(ch1, ch2, pc, Quiet)
    }

    /** IPCC_channel1_callback: a BufFree flag, then the acknowledgement. */
    method Channel1Callback(ghost pc: Pc)
      requires ch1.occupied
      modifies this`ch1
      ensures Run(DrainThenClear, old(View(pc)), [IsrFlag(Channel1), IsrAck]) == Some(View(pc))
    {
      ghost var start := View(pc);
      ch1 := ch1.(flag := BufFree);
      ch1 := ch1.(occupied := false);
      CallbackRun(start, Channel1);
    }

    /** IPCC_channel2_callback: a NewMsg flag, then the acknowledgement. */
    method Channel2Callback(ghost pc: Pc)
      requires ch2.occupied
      modifies this`ch2
      ensures Run(DrainThenClear, old(View(pc)), [IsrFlag(Channel2), IsrAck]) == Some(View(pc))
    {
      ghost var start := View(pc);
      ch2 := ch2.(flag := NewMsg);
      ch2 := ch2.(occupied := false);
      CallbackRun(start, Channel2);
    }

    /** MAILBOX_Poll, uninterrupted: each flagged channel is emptied and its flag reset. */
    method Poll() returns (ret: int)
      modifies this`ch1, this`ch2
      ensures (ch1, ch2) == Outcome(DrainThenClear, old(View(Testing(Channel1))))
      ensures ret == if old(ch1).flag == BufFree || old(ch2).flag == NewMsg then 0 else -1
    {
      ret := -1;
      if ch1.flag == BufFree {
        while ch1.drained < ch1.posted
          invariant Emptied(ch1) == Emptied(old(ch1)) && ch2 == old(ch2)
        {
          ch1 := ch1.(drained := ch1.drained + 1);
        }
        ch1 := ch1.(flag := NoMsg);
        ret := 0;
      }
      if ch2.flag == NewMsg {
        while ch2.drained < ch2.posted
          invariant Emptied(ch2) == Emptied(old(ch2)) && ch1 == Visited(Channel1, old(ch1))
        {
          ch2 := ch2.(drained := ch2.drained + 1);
        }
        ch2 := ch2.(flag := NoMsg);
        ret := 0;
      }
    }

    /** MAILBOX_Notify: waits until the A7, after busyReads further reads, has freed the
        channel, and then rings it. */
    method Notify(id: int, busyReads: nat) returns (ret: int)
      requires tx1.Balanced() && tx2.Balanced()
      modifies this`tx1, this`tx2
      ensures tx1.Balanced() && tx2.Balanced()
      ensures ret == if id == 0 || id == 1 then 0 else -1
      ensures tx1.rung == old(tx1).rung + (if id == 0 then 1 else 0)
      ensures tx2.rung == old(tx2).rung + (if id == 1 then 1 else 0)
      ensures id != 0 ==> tx1 == old(tx1)
      ensures id != 1 ==> tx2 == old(tx2)
      ensures (id == 0 ==> tx1.occupied) && (id == 1 ==> tx2.occupied)
    {
      if id != VRING0_ID && id != VRING1_ID {
        return -1;
      }
      var tx := if id == VRING0_ID then tx1 else tx2;
      var wait := busyReads;
      while tx.occupied
        invariant tx.Balanced() && tx.rung == (if id == VRING0_ID then old(tx1) else old(tx2)).rung
        decreases tx.occupied, wait
      {
        if wait == 0 {
          tx := tx.(occupied := false, acked := tx.acked + 1);
        } else {
          wait := wait - 1;
        }
      }
      tx := tx.(occupied := true, rung := tx.rung + 1);
      if id == VRING0_ID {
        tx1 := tx;
      } else {
        tx2 := tx;
      }
      return 0;
    }
  }
}
