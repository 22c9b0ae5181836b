/** The application's two threads: the main loop, which starts a sampling whenever the
    machine is idle, and the thread that waits for a buffer, writes it and makes the machine
    idle again. They share the machine state and the index of the awaited buffer without a
    lock, so the model interleaves their single reads and writes. */
module Sampling {

  import opened Common

  /** mMachineState; the third value of the type is never assigned. */
  datatype Machine = Idle | Sampling

  /** Where the main loop stands. */
  datatype MainPc =
    | Loop     // switch(mMachineState)
    | Enter    // sampling_start: mMachineState = STATE_SAMP
    | Reset    // mDdrBuffAwaited = 0
    | Command  // the Start command is sent
    | Leave    // mMachineState = STATE_SAMP, after sampling_start

  /** Where sdb_thread stands. */
  datatype ThreadPc =
    | Test               // mMachineState == STATE_SAMP ?
    | Wait               // poll, fds[mDdrBuffAwaited]
    | Fetch              // efd[mDdrBuffAwaited], GET_DATA_SIZE of mDdrBuffAwaited
    | Write(size: nat)   // mmappedData[mDdrBuffAwaited] goes to the file
    | Finish             // mMachineState = STATE_IDLE
    | ReadAwaited        // mDdrBuffAwaited++, the read
    | StoreAwaited(read: nat) // mDdrBuffAwaited++, the write
    | Check              // mDdrBuffAwaited >= NB_BUF ?
    | Wrap               // mDdrBuffAwaited = 0
    | Exited             // the read of the eventfd returned 0

  /** The shared variables, both threads' positions, and counts of the Start commands sent,
      of the non-empty deliveries, and of the deliveries whose idle state the main loop
      overwrote. */
  datatype App = App(
    machine: Machine,
    awaited: nat,
    main: MainPc,
    thread: ThreadPc,
    starts: nat,
    deliveries: nat,
    overwritten: nat)

  /** The main loop is entered with an idle machine. */
  const START: App := App(Idle, 0, Loop, Test, 0, 0, 0)

  /** A step of one thread, with what the environment decides in it. */
  datatype Step =
    | Main
    | Thread(ready: bool, readsNothing: bool, size: nat)

  function MainStep(a: App): App {
    match a.main
    case Loop => if a.machine == Idle then a.(main := Enter) else a
    case Enter => a.(machine := Sampling, main := Reset)
    case Reset => a.(awaited := 0, main := Command)
    case Command => a.(starts := a.starts + 1, main := Leave)
    case Leave =>
      a.(machine := Sampling, main := Loop, overwritten := a.overwritten + if a.machine == Idle then 1 else 0)
  }

  function ThreadStep(a: App, ready: bool, readsNothing: bool, size: nat, buffers: nat): App {
    match a.thread
    case Test => if a.machine == Sampling then a.(thread := Wait) else a
    case Wait => a.(thread := if ready then Fetch else Test)
    case Fetch => a.(thread := if readsNothing then Exited else if size != 0 then Write(size) else ReadAwaited)
    case Write(_) => a.(thread := Finish)
    case Finish => a.(machine := Idle, deliveries := a.deliveries + 1, thread := ReadAwaited)
    case ReadAwaited => a.(thread := StoreAwaited(a.awaited))
    case StoreAwaited(read) => a.(awaited := (read + 1) % 0x100, thread := Check)
    case Check => a.(thread := if a.awaited >= buffers then Wrap else Test)
    case Wrap => a.(awaited := 0, thread := Test)
    case Exited => a
  }

  /** A thread whose buffer is not ready looks at the machine state again. */
  lemma WaitOutcome(a: App, ready: bool, readsNothing: bool, size: nat, buffers: nat)
    requires a.thread.Wait?
    ensures ThreadStep(a, ready, readsNothing, size, buffers) == if ready then a.(thread := Fetch) else a.(thread := Test)
  {
  }

  /** What the thread does with the read of the eventfd and the size it is answered: it
      writes exactly that size, or goes on to the next buffer without a delivery if it is 0,
      or ends for good if the read returned nothing. */
  lemma FetchOutcome(a: App, ready: bool, readsNothing: bool, size: nat, buffers: nat)
    requires a.thread.Fetch?
    ensures var b := ThreadStep(a, ready, readsNothing, size, buffers);
      && b.machine == a.machine && b.deliveries == a.deliveries && b.awaited == a.awaited
      && (!readsNothing && size != 0 ==> b.thread == Write(size))
      && (!readsNothing && size == 0 ==> b.thread == ReadAwaited)
      && (readsNothing ==> b.thread == Exited)
  {
  }

  function Apply(a: App, step: Step, buffers: nat): App {
    match step
    case Main => MainStep(a)
    case Thread(ready, readsNothing, size) => ThreadStep(a, ready, readsNothing, size, buffers)
  }

  function Run(a: App, steps: seq<Step>, buffers: nat): App {
    if steps == [] then a else Apply(Run(a, steps[..|steps| - 1], buffers), steps[|steps| - 1], buffers)
  }

  // ------------------------------------------------------------- the awaited buffer

  /** The thread uses the awaited index to index an array of NB_BUF elements. */
  predicate Indexes(t: ThreadPc) {
    t.Wait? || t.Fetch? || t.Write?
  }

  predicate IndexInvariant(a: App, buffers: nat) {
    match a.thread
    case Check => a.awaited <= buffers
    case Wrap => a.awaited <= buffers
    case StoreAwaited(read) => read < buffers && a.awaited < buffers
    case _ => a.awaited < buffers
  }

  /** Under every interleaving the index is in range wherever the thread uses it, for any
      number of buffers; and as it is a uint8_t, no buffer past 255 is ever awaited. */
  lemma {:induction false} AwaitedIsInRange(steps: seq<Step>, buffers: nat)
    requires 1 <= buffers
    ensures var a := Run(START, steps, buffers);
      IndexInvariant(a, buffers) && a.awaited <= 255 && (Indexes(a.thread) ==> a.awaited < buffers)
  {
    if steps != [] {
      AwaitedIsInRange(steps[..|steps| - 1], buffers);
    }
  }

  /** A thread that ended stays so, over every run, and delivers nothing any more. */
  lemma {:induction false} ExitedForever(a: App, steps: seq<Step>, buffers: nat)
    requires a.thread.Exited?
    ensures Run(a, steps, buffers).thread.Exited? && Run(a, steps, buffers).deliveries == a.deliveries
  {
    if steps != [] {
      ExitedForever(a, steps[..|steps| - 1], buffers);
    }
  }

  // --------------------------------------------------- Start commands and deliveries

  /** The machine is already marked as sampling and the Start command not yet sent. */
  predicate StartDue(m: MainPc) {
    m == Reset || m == Command
  }

  predicate CountInvariant(a: App) {
    && a.starts + One(StartDue(a.main)) + a.overwritten == a.deliveries + One(a.machine == Sampling)
    && (a.main == Enter ==> a.machine == Idle)
    && (Indexes(a.thread) || a.thread == Finish ==> a.machine == Sampling)
  }

  /** The balance under every interleaving: Start commands and overwritten deliveries
      together make up for the deliveries and a sampling machine. */
  lemma {:induction false} StartsBalance(steps: seq<Step>, buffers: nat)
    ensures CountInvariant(Run(START, steps, buffers))
  {
    if steps != [] {
      StartsBalance(steps[..|steps| - 1], buffers);
    }
  }

  /** The thread finishes a delivery while the main loop is inside its idle case. */
  predicate FinishesInside(a: App, step: Step) {
    step.Thread? && a.thread == Finish && (StartDue(a.main) || a.main == Leave)
  }

  function Inside(steps: seq<Step>, buffers: nat): nat {
    if steps == [] then 0
    else
      var n := |steps| - 1;
      Inside(steps[..n], buffers) + One(FinishesInside(Run(START, steps[..n], buffers), steps[n]))
  }

  /** Exactly the deliveries finished inside the idle case are overwritten. */
  lemma {:induction false} OverwrittenAreInside(steps: seq<Step>, buffers: nat)
    ensures var a := Run(START, steps, buffers);
      a.overwritten + One((StartDue(a.main) || a.main == Leave) && a.machine == Idle) == Inside(steps, buffers)
  {
    if steps != [] {
      OverwrittenAreInside(steps[..|steps| - 1], buffers);
      StartsBalance(steps[..|steps| - 1], buffers);
    }
  }

  /** At the head of the main loop the Start commands exceed the deliveries by one in
      sampling and by none when idle exactly when no delivery was finished inside the idle
      case; in particular when the idle case is one step. */
  lemma StartsMatchDeliveries(steps: seq<Step>, buffers: nat)
    requires Run(START, steps, buffers).main == Loop
    ensures var a := Run(START, steps, buffers);
      a.starts == a.deliveries + One(a.machine == Sampling) <==> Inside(steps, buffers) == 0
  {
    StartsBalance(steps, buffers);
    OverwrittenAreInside(steps, buffers);
  }

  // ------------------------------------------------------------------- the lost idle

  /** The coprocessor fills a buffer only when a Start is outstanding. */
  predicate Answers(a: App, step: Step) {
    step.Thread? && a.thread == Wait && step.ready ==> a.starts > a.deliveries
  }

  predicate AllAnswer(a: App, steps: seq<Step>, buffers: nat) {
    steps != [] ==>
      var n := |steps| - 1;
      AllAnswer(a, steps[..n], buffers) && Answers(Run(a, steps[..n], buffers), steps[n])
  }

  /** A machine left sampling with no Start outstanding stays so for ever: the main loop
      waits for the thread, the thread for the coprocessor, and the coprocessor for a Start. */
  lemma {:induction false} StuckForever(a: App, steps: seq<Step>, buffers: nat)
    requires a.machine == Sampling && a.main == Loop && a.starts == a.deliveries
    requires !a.thread.Fetch? && !a.thread.Write? && a.thread != Finish
    requires AllAnswer(a, steps, buffers)
    ensures var b := Run(a, steps, buffers);
      && b.machine == Sampling && b.main == Loop && b.starts == a.starts && b.deliveries == a.deliveries
      && !b.thread.Fetch? && !b.thread.Write? && b.thread != Finish
  {
    if steps != [] {
      StuckForever(a, steps[..|steps| - 1], buffers);
    }
  }

  /** One more step of a run that only answers Start commands. */
  lemma Advance(steps: seq<Step>, a: App, step: Step, buffers: nat) returns (b: App)
    requires a == Run(START, steps, buffers) && AllAnswer(START, steps, buffers) && Answers(a, step)
    ensures b == Apply(a, step, buffers) == Run(START, steps + [step], buffers)
    ensures AllAnswer(START, steps + [step], buffers)
  {
    assert (steps + [step])[..|steps|] == steps;
    b := Apply(a, step, buffers);
  }

  /** The main loop enters its idle case and sends the Start command. */
  const STARTING: seq<Step> := [Main] + [Main] + [Main] + [Main]

  /** The thread sees the machine sampling, takes the answer and makes the machine idle. */
  const ANSWERED: seq<Step> :=
    STARTING + [Thread(false, false, 0)] + [Thread(true, false, 0)] + [Thread(false, false, 4096)]
    + [Thread(false, false, 0)] + [Thread(false, false, 0)]

  /** An answer that arrives before sampling_start has returned: the main loop marks the
      machine as sampling once more. */
  const FAST_ANSWER: seq<Step> := ANSWERED + [Main]

  lemma StartingRun(buffers: nat)
    ensures Run(START, STARTING, buffers) == App(Sampling, 0, Leave, Test, 1, 0, 0)
    ensures AllAnswer(START, STARTING, buffers)
  {
    var a := Advance([], START, Main, buffers);
    assert [] + [Main] == [Main];
    a := Advance([Main], a, Main, buffers);
    a := Advance([Main] + [Main], a, Main, buffers);
    a := Advance([Main] + [Main] + [Main], a, Main, buffers);
  }

  lemma AnsweredRun(buffers: nat)
    ensures Run(START, ANSWERED, buffers) == App(Idle, 0, Leave, ReadAwaited, 1, 1, 0)
    ensures AllAnswer(START, ANSWERED, buffers)
  {
    StartingRun(buffers);
    var any, ready, filled := Thread(false, false, 0), Thread(true, false, 0), Thread(false, false, 4096);
    var a := Run(START, STARTING, buffers);
    a := Advance(STARTING, a, any, buffers);
    a := Advance(STARTING + [any], a, ready, buffers);
    a := Advance(STARTING + [any] + [ready], a, filled, buffers);
    a := Advance(STARTING + [any] + [ready] + [filled], a, any, buffers);
    a := Advance(STARTING + [any] + [ready] + [filled] + [any], a, any, buffers);
  }

  /** A coprocessor that only answers Start commands can leave the machine stuck: one Start,
      one delivery, one overwritten idle state. */
  lemma FastAnswerSticks(buffers: nat)
    ensures AllAnswer(START, FAST_ANSWER, buffers)
    ensures Run(START, FAST_ANSWER, buffers) == App(Sampling, 0, Loop, ReadAwaited, 1, 1, 1)
  {
    AnsweredRun(buffers);
    var a := Advance(ANSWERED, Run(START, ANSWERED, buffers), Main, buffers);
  }
}
