/** The application's two threads together with the coprocessor that fills their buffers:
    which buffer the application waits for, and which one the coprocessor reports.

    The coprocessor goes round its table, one buffer for every Start command. The buffer
    thread counts mDdrBuffAwaited up after every delivery, and sampling_start sets it to 0
    before every Start. */
module Handover {
  import opened Common
  import Sampling

  /** When sampling_start reset the index, after the last delivery: not yet, or at which
      point of the thread's mDdrBuffAwaited++. */
  datatype Moment = NotYet | BeforeRead | BeforeStore | AfterStore

  /** The application, the coprocessor's table index, its count of reports, the buffers whose
      eventfd is signalled, and an account: the buffer of the last delivery, and when the
      index was reset since. */
  datatype System = System(
    app: Sampling.App,
    index: nat,
    reports: nat,
    signalled: set<nat>,
    taken: nat,
    moment: Moment)

  const START: System := System(Sampling.START, 0, 0, {}, 0, NotYet)

  datatype Step =
    | Main   // the main loop
    | Thread // the buffer thread
    | Report // the coprocessor reports the buffer of a Start command

  function Next(i: nat, buffers: nat): nat {
    if i + 1 >= buffers then 0 else i + 1
  }

  /** A read of an eventfd that was not signalled blocks. */
  predicate Enabled(s: System, step: Step) {
    match step
    case Main => true
    case Thread => s.app.thread.Fetch? ==> s.app.awaited in s.signalled
    case Report => s.reports < s.app.starts
  }

  function ResetMoment(t: Sampling.ThreadPc): Moment {
    if t.ReadAwaited? then BeforeRead else if t.StoreAwaited? then BeforeStore else AfterStore
  }

  /** Every report says size bytes, which are not 0. */
  function Apply(s: System, step: Step, buffers: nat, size: nat): System
    requires Enabled(s, step)
  {
    match step
    case Main =>
      s.(app := Sampling.MainStep(s.app), moment := if s.app.main.Reset? then ResetMoment(s.app.thread) else s.moment)
    case Thread =>
      var s' := s.(app := Sampling.ThreadStep(s.app, s.app.awaited in s.signalled, false, size, buffers));
      if s.app.thread.Fetch? then s'.(signalled := s.signalled - {s.app.awaited}, taken := s.app.awaited)
      else if s.app.thread.Finish? then s'.(moment := NotYet)
      else s'
    case Report =>
      s.(signalled := s.signalled + {s.index}, index := Next(s.index, buffers), reports := s.reports + 1)
  }

  function Run(s: System, steps: seq<Step>, buffers: nat, size: nat): Option<System> {
    if steps == [] then Some(s)
    else
      var n := |steps| - 1;
      match Run(s, steps[..n], buffers, size)
      case None => None
      case Some(mid) => if Enabled(mid, steps[n]) then Some(Apply(mid, steps[n], buffers, size)) else None
  }

  /** The buffer that the Start command after the last delivery brings. */
  function Expected(s: System, buffers: nat): nat {
    if s.app.deliveries == 0 then 0 else Next(s.taken, buffers)
  }

  /** The thread has a report in hand, not yet counted as delivered. */
  predicate InHand(t: Sampling.ThreadPc) {
    t.Write? || t.Finish?
  }

  /** Starts, reports and deliveries, and which buffer is signalled. */
  predicate Counts(s: System, buffers: nat) {
    && s.app.starts + One(s.app.main.Command?) == s.app.deliveries + One(s.moment != NotYet)
    && s.app.deliveries <= s.reports <= s.app.starts
    && (InHand(s.app.thread) ==> s.reports == s.app.deliveries + 1 && s.signalled == {} && s.index == Next(s.taken, buffers))
    && (!InHand(s.app.thread) ==>
          if s.reports == s.app.deliveries then s.signalled == {} && s.index == Expected(s, buffers)
          else s.signalled == {Expected(s, buffers)} && s.index == Next(Expected(s, buffers), buffers))
  }

  /** What mDdrBuffAwaited holds, by where the thread stands and when the reset came. */
  predicate Awaits(s: System, buffers: nat) {
    var (t, i) := (s.app.thread, s.app.awaited);
    && s.taken < buffers
    && (t.Fetch? ==> s.signalled == {i} && i < buffers)
    && (InHand(t) ==> i == s.taken)
    && (s.app.deliveries == 0 && !InHand(t) ==> (t.Test? || t.Wait? || t.Fetch?) && i == 0)
    && (s.app.deliveries > 0 && !InHand(t) && !t.Fetch? ==>
          var base := if s.moment == BeforeRead then 0 else s.taken;
          if s.moment == AfterStore then i == 0 && !t.ReadAwaited? && !t.StoreAwaited?
          else match t
            case ReadAwaited => i == base && s.moment != BeforeStore
            case StoreAwaited(read) => read == base && i == (if s.moment == NotYet then s.taken else 0)
            case Check => i == base + 1
            case Wrap => i == base + 1 == buffers
            case _ => i == Next(base, buffers))
  }

  predicate Inv(s: System, buffers: nat) {
    Sampling.CountInvariant(s.app) && Counts(s, buffers) && Awaits(s, buffers)
  }

  lemma MainKeepsInv(s: System, buffers: nat, size: nat)
    requires 1 <= buffers <= 255 && size > 0 && Inv(s, buffers)
    ensures Inv(Apply(s, Main, buffers, size), buffers)
  {
  }

  lemma ReportKeepsInv(s: System, buffers: nat, size: nat)
    requires 1 <= buffers <= 255 && size > 0 && Inv(s, buffers) && Enabled(s, Report)
    ensures Inv(Apply(s, Report, buffers, size), buffers)
  {
  }

  lemma WaitingKeepsInv(s: System, buffers: nat, size: nat)
    requires 1 <= buffers <= 255 && size > 0 && Inv(s, buffers) && Enabled(s, Thread)
    requires s.app.thread.Test? || s.app.thread.Wait?
    ensures Inv(Apply(s, Thread, buffers, size), buffers)
  {
  }

  lemma DeliveringKeepsInv(s: System, buffers: nat, size: nat)
    requires 1 <= buffers <= 255 && size > 0 && Inv(s, buffers) && Enabled(s, Thread)
    requires s.app.thread.Fetch? || InHand(s.app.thread)
    ensures Inv(Apply(s, Thread, buffers, size), buffers)
  {
  }

  lemma CountingKeepsInv(s: System, buffers: nat, size: nat)
    requires 1 <= buffers <= 255 && size > 0 && Inv(s, buffers) && Enabled(s, Thread)
    requires s.app.thread.ReadAwaited? || s.app.thread.StoreAwaited?
    ensures Inv(Apply(s, Thread, buffers, size), buffers)
  {
  }

  lemma WrappingKeepsInv(s: System, buffers: nat, size: nat)
    requires 1 <= buffers <= 255 && size > 0 && Inv(s, buffers) && Enabled(s, Thread)
    requires s.app.thread.Check? || s.app.thread.Wrap? || s.app.thread.Exited?
    ensures Inv(Apply(s, Thread, buffers, size), buffers)
  {
  }

  lemma ThreadKeepsInv(s: System, buffers: nat, size: nat)
    requires 1 <= buffers <= 255 && size > 0 && Inv(s, buffers) && Enabled(s, Thread)
    ensures Inv(Apply(s, Thread, buffers, size), buffers)
  {
    match s.app.thread {
      case Test => WaitingKeepsInv(s, buffers, size);
      case Wait => WaitingKeepsInv(s, buffers, size);
      case ReadAwaited => CountingKeepsInv(s, buffers, size);
      case StoreAwaited(_) => CountingKeepsInv(s, buffers, size);
      case Check => WrappingKeepsInv(s, buffers, size);
      case Wrap => WrappingKeepsInv(s, buffers, size);
      case Exited => WrappingKeepsInv(s, buffers, size);
      case _ => DeliveringKeepsInv(s, buffers, size);
    }
  }

  lemma {:induction false} RunKeepsInv(steps: seq<Step>, buffers: nat, size: nat)
    requires 1 <= buffers <= 255 && size > 0 && Run(START, steps, buffers, size).Some?
    ensures Inv(Run(START, steps, buffers, size).value, buffers)
  {
    if steps != [] {
      var n := |steps| - 1;
      RunKeepsInv(steps[..n], buffers, size);
      var mid := Run(START, steps[..n], buffers, size).value;
      match steps[n] {
        case Main => MainKeepsInv(mid, buffers, size);
        case Thread => ThreadKeepsInv(mid, buffers, size);
        case Report => ReportKeepsInv(mid, buffers, size);
      }
    }
  }

  /** The thread waits, and the index was reset since the last delivery. */
  predicate Waiting(s: System) {
    (s.app.thread.Test? || s.app.thread.Wait?) && s.moment != NotYet
  }

  /** The resets that leave the thread waiting for the right buffer: one that falls between
      the read and the store of mDdrBuffAwaited++; one before it, if the first buffer was
      the last one delivered; one after it, if the last buffer of the table was. */
  predicate WellTimed(s: System, buffers: nat) {
    || s.app.deliveries == 0
    || s.moment == BeforeStore
    || (s.moment == BeforeRead && s.taken == 0)
    || (s.moment == AfterStore && s.taken == buffers - 1)
  }

  /** Over every run: whenever the thread waits, it waits for the buffer that the outstanding
      Start brings, and so for the one that the coprocessor reports, if and only if the reset
      was well timed. */
  lemma AwaitedIsReported(steps: seq<Step>, buffers: nat, size: nat)
    requires 1 <= buffers <= 255 && size > 0 && Run(START, steps, buffers, size).Some?
    requires Waiting(Run(START, steps, buffers, size).value)
    ensures var s := Run(START, steps, buffers, size).value;
      && (s.app.awaited == Expected(s, buffers) <==> WellTimed(s, buffers))
      && (s.reports > s.app.deliveries ==> s.signalled == {Expected(s, buffers)})
  {
    RunKeepsInv(steps, buffers, size);
  }

  /** With one buffer the thread always waits for the right one. */
  lemma OneBufferMeets(steps: seq<Step>, size: nat)
    requires size > 0 && Run(START, steps, 1, size).Some? && Waiting(Run(START, steps, 1, size).value)
    ensures var s := Run(START, steps, 1, size).value; s.app.awaited == Expected(s, 1) == 0
  {
    RunKeepsInv(steps, 1, size);
  }

  /** The thread waits for a buffer that the outstanding Start does not bring. */
  predicate Missed(s: System, buffers: nat) {
    Inv(s, buffers) && Waiting(s) && !WellTimed(s, buffers)
  }

  /** Once missed, nothing is delivered any more, over every run, and no Start beyond the
      outstanding one is sent. */
  lemma {:induction false} MissedForever(s: System, steps: seq<Step>, buffers: nat, size: nat)
    requires 1 <= buffers <= 255 && size > 0 && Missed(s, buffers) && Run(s, steps, buffers, size).Some?
    ensures var s' := Run(s, steps, buffers, size).value;
      Missed(s', buffers) && s'.app.deliveries == s.app.deliveries && s'.app.starts <= s.app.deliveries + 1
  {
    if steps != [] {
      var n := |steps| - 1;
      MissedForever(s, steps[..n], buffers, size);
      var mid := Run(s, steps[..n], buffers, size).value;
      match steps[n] {
        case Main => MainKeepsInv(mid, buffers, size);
        case Thread => ThreadKeepsInv(mid, buffers, size);
        case Report => ReportKeepsInv(mid, buffers, size);
      }
    }
  }

  // -------------------------------------------------- with two or more buffers it fails

  lemma Advance(steps: seq<Step>, s: System, step: Step, buffers: nat, size: nat) returns (s': System)
    requires Run(START, steps, buffers, size) == Some(s) && Enabled(s, step)
    ensures s' == Apply(s, step, buffers, size) && Run(START, steps + [step], buffers, size) == Some(s')
  {
    assert (steps + [step])[..|steps|] == steps;
    s' := Apply(s, step, buffers, size);
  }

  function Times(step: Step, k: nat): (steps: seq<Step>)
    ensures |steps| == k
  {
    if k == 0 then [] else Times(step, k - 1) + [step]
  }

  /** The same step k times. */
  function Repeat(s: System, step: Step, k: nat, buffers: nat, size: nat): Option<System> {
    if k == 0 then Some(s)
    else
      match Repeat(s, step, k - 1, buffers, size)
      case None => None
      case Some(mid) => if Enabled(mid, step) then Some(Apply(mid, step, buffers, size)) else None
  }

  lemma {:induction false} AdvanceTimes(steps: seq<Step>, s: System, step: Step, k: nat, buffers: nat, size: nat)
    requires Run(START, steps, buffers, size) == Some(s) && Repeat(s, step, k, buffers, size).Some?
    ensures Run(START, steps + Times(step, k), buffers, size) == Repeat(s, step, k, buffers, size)
    decreases k
  {
    if k == 0 {
      assert steps + Times(step, 0) == steps;
    } else {
      AdvanceTimes(steps, s, step, k - 1, buffers, size);
      var s' := Advance(steps + Times(step, k - 1), Repeat(s, step, k - 1, buffers, size).value, step, buffers, size);
      assert steps + Times(step, k) == steps + Times(step, k - 1) + [step];
    }
  }

  lemma RepeatFive(s: System, step: Step, buffers: nat, size: nat)
    ensures Repeat(s, step, 3, buffers, size).Some? ==>
      var s3 := Repeat(s, step, 3, buffers, size).value;
      Enabled(s3, step) && Enabled(Apply(s3, step, buffers, size), step) ==>
        Repeat(s, step, 5, buffers, size) == Some(Apply(Apply(s3, step, buffers, size), step, buffers, size))
  {
    assert Repeat(s, step, 3, buffers, size).Some? && Enabled(Repeat(s, step, 3, buffers, size).value, step) ==>
        Repeat(s, step, 4, buffers, size) == Some(Apply(Repeat(s, step, 3, buffers, size).value, step, buffers, size));
  }

  lemma RepeatThree(s: System, step: Step, buffers: nat, size: nat)
    requires Enabled(s, step)
    requires Enabled(Apply(s, step, buffers, size), step)
    requires Enabled(Apply(Apply(s, step, buffers, size), step, buffers, size), step)
    ensures Repeat(s, step, 3, buffers, size)
         == Some(Apply(Apply(Apply(s, step, buffers, size), step, buffers, size), step, buffers, size))
  {
    assert Repeat(s, step, 1, buffers, size) == Some(Apply(s, step, buffers, size));
    assert Repeat(s, step, 2, buffers, size) == Some(Apply(Apply(s, step, buffers, size), step, buffers, size));
  }

  /** A Start: the main loop runs its idle case once. */
  lemma OneStart(s: System, buffers: nat, size: nat)
    requires s.app.main.Loop? && s.app.machine == Sampling.Idle && s.app.thread.Test?
    ensures Repeat(s, Main, 5, buffers, size)
         == Some(s.(app := s.app.(machine := Sampling.Sampling, awaited := 0, starts := s.app.starts + 1), moment := AfterStore))
  {
    RepeatThree(s, Main, buffers, size);
    RepeatFive(s, Main, buffers, size);
  }

  /** A delivery of the awaited buffer. */
  lemma OneDelivery(s: System, buffers: nat, size: nat)
    requires size > 0 && s.app.thread.Test? && s.app.machine == Sampling.Sampling && s.signalled == {s.app.awaited}
    ensures Repeat(s, Thread, 5, buffers, size)
         == Some(s.(app := s.app.(machine := Sampling.Idle, thread := Sampling.ReadAwaited, deliveries := s.app.deliveries + 1),
                    signalled := {}, taken := s.app.awaited, moment := NotYet))
  {
    assert s.signalled - {s.app.awaited} == {};
    RepeatThree(s, Thread, buffers, size);
    RepeatFive(s, Thread, buffers, size);
  }

  /** The increment after it, for a buffer that is not the last. */
  lemma OneIncrement(s: System, buffers: nat, size: nat)
    requires s.app.thread.ReadAwaited? && s.app.awaited + 1 < buffers <= 255
    ensures Repeat(s, Thread, 3, buffers, size)
         == Some(s.(app := s.app.(awaited := s.app.awaited + 1, thread := Sampling.Test)))
  {
    RepeatThree(s, Thread, buffers, size);
  }

  /** A first buffer is delivered and counted; only then does the main loop run its idle case
      again. */
  const LATE_RESET: seq<Step> :=
    [] + Times(Main, 5) + [Report] + Times(Thread, 5) + Times(Thread, 3) + Times(Main, 5)

  /** With two or more buffers that ordinary run ends with the thread waiting for buffer 0
      while the outstanding Start brings buffer 1. */
  lemma SecondBufferIsMissed(buffers: nat, size: nat)
    requires 2 <= buffers <= 255 && size > 0
    ensures Run(START, LATE_RESET, buffers, size).Some? && Missed(Run(START, LATE_RESET, buffers, size).value, buffers)
    ensures var s := Run(START, LATE_RESET, buffers, size).value; s.app.awaited == 0 && Expected(s, buffers) == 1
  {
    var started := [] + Times(Main, 5);
    OneStart(START, buffers, size);
    AdvanceTimes([], START, Main, 5, buffers, size);
    var s1 := Run(START, started, buffers, size).value;
    var s2 := Advance(started, s1, Report, buffers, size);
    OneDelivery(s2, buffers, size);
    AdvanceTimes(started + [Report], s2, Thread, 5, buffers, size);
    var delivered := started + [Report] + Times(Thread, 5);
    var s3 := Run(START, delivered, buffers, size).value;
    OneIncrement(s3, buffers, size);
    AdvanceTimes(delivered, s3, Thread, 3, buffers, size);
    var s4 := Run(START, delivered + Times(Thread, 3), buffers, size).value;
    OneStart(s4, buffers, size);
    AdvanceTimes(delivered + Times(Thread, 3), s4, Main, 5, buffers, size);
    RunKeepsInv(LATE_RESET, buffers, size);
  }

  /** After a run the thread, if it waits, waits for the buffer of the outstanding Start. */
  predicate Meets(steps: seq<Step>, buffers: nat, size: nat) {
    var r := Run(START, steps, buffers, size);
    r.Some? && Waiting(r.value) ==> r.value.app.awaited == Expected(r.value, buffers)
  }

  /** The threads and the coprocessor always meet if and only if there is one buffer. */
  lemma AlwaysMeetsIffOneBuffer(buffers: nat, size: nat)
    requires 1 <= buffers <= 255 && size > 0
    ensures (forall steps: seq<Step> :: Meets(steps, buffers, size)) <==> buffers == 1
  {
    if buffers == 1 {
      forall steps: seq<Step> ensures Meets(steps, buffers, size) {
        if Run(START, steps, 1, size).Some? && Waiting(Run(START, steps, 1, size).value) {
          OneBufferMeets(steps, size);
        }
      }
    } else {
      SecondBufferIsMissed(buffers, size);
      assert !Meets(LATE_RESET, buffers, size);
    }
  }
}
