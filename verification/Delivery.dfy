/** Application, coprocessor and driver together: the threads and the coprocessor of
    Handover, with the driver of SdbSession between them. A report reaches the thread through
    the driver's eventfd, and its size through the driver's writing size. */
module Delivery {
  import opened Common
  import opened Words
  import opened SdbText
  import opened SdbSession
  import Sampling
  import Handover
  import SdbApp

  /** The system, with an account of the writes to the file: which mapped buffer, and how
      many bytes of it. */
  datatype System = System(sys: Handover.System, driver: Driver, writes: seq<(nat, nat)>)

  function Start(d: Driver): System {
    System(Handover.START, d, [])
  }

  /** The driver reads a size mod 2^24. */
  function Reported(size: Word): Word {
    size % 0x100_0000
  }

  /** The coprocessor's report, as the driver's reader sees it. */
  function ReportMessage(index: nat, size: Word): Message
    requires index <= INT_MAX
  {
    DecodeOfReport(index, size);
    Decoded(Decode(Report(index, size)))
  }

  predicate Enabled(s: System, step: Handover.Step) {
    && Handover.Enabled(s.sys, step)
    && (step.Report? ==> s.sys.index <= INT_MAX && s.driver.ready)
    && (step.Thread? && s.sys.app.thread.Fetch? ==> s.driver.buffers != [])
  }

  /** The thread's question about the awaited buffer; userSize is what its memory holds. */
  function Answer(s: System, userSize: Word): (Driver, Outcome, Word)
    requires s.driver.buffers != []
  {
    DoGetDataSize(s.driver, s.sys.app.awaited, userSize, true, true)
  }

  /** An eventfd is signalled when the driver signals it, and the size that the thread
      writes is the driver's answer. */
  function Apply(s: System, step: Handover.Step, buffers: nat, size: Word, userSize: Word): System
    requires Enabled(s, step)
  {
    match step
    case Main => s.(sys := Handover.Apply(s.sys, step, buffers, 0))
    case Thread =>
      if s.sys.app.thread.Fetch? then
        s.(sys := Handover.Apply(s.sys, step, buffers, Answer(s, userSize).2), driver := Answer(s, userSize).0)
      else if s.sys.app.thread.Write? then
        s.(sys := Handover.Apply(s.sys, step, buffers, 0), writes := s.writes + [(s.sys.app.awaited, s.sys.app.thread.size)])
      else s.(sys := Handover.Apply(s.sys, step, buffers, 0))
    case Report =>
      var d' := DoReceive(s.driver, ReportMessage(s.sys.index, size)).0;
      var told := Handover.Apply(s.sys, step, buffers, 0);
      s.(sys := if |d'.signals| > |s.driver.signals| then told else told.(signalled := s.sys.signalled), driver := d')
  }

  function Run(s: System, steps: seq<Handover.Step>, buffers: nat, size: Word, userSize: Word): Option<System> {
    if steps == [] then Some(s)
    else
      var n := |steps| - 1;
      match Run(s, steps[..n], buffers, size, userSize)
      case None => None
      case Some(mid) => if Enabled(mid, steps[n]) then Some(Apply(mid, steps[n], buffers, size, userSize)) else None
  }

  /** The driver after the set-up: every buffer is mapped and holds at least size bytes. */
  predicate Serves(d: Driver, buffers: nat, size: Word) {
    && d.ready && Indexed(d) && |d.buffers| == buffers <= d.lastBufferId + 1
    && (forall i: nat | i < buffers :: size <= d.buffers[i].size)
  }

  /** Every signalled buffer has the reported size as its writing size. */
  predicate Inv(s: System, buffers: nat, size: Word)
    requires buffers > 0
  {
    && Serves(s.driver, buffers, Reported(size))
    && Handover.Inv(s.sys, buffers)
    && (forall i: nat | i in s.sys.signalled :: i < buffers && s.driver.buffers[i].writingSize == Reported(size))
    && Written(s, buffers, size)
  }

  /** Every delivery writes the reported size of its buffer, and the buffers come in turn. */
  predicate Written(s: System, buffers: nat, size: Word)
    requires buffers > 0
  {
    && s.sys.index == s.sys.reports % buffers
    && (s.sys.app.thread.Write? ==> s.sys.app.thread.size == Reported(size))
    && |s.writes| == s.sys.app.deliveries + One(s.sys.app.thread.Finish?)
    && (forall k: nat | k < |s.writes| :: s.writes[k] == (k % buffers, Reported(size) as nat))
  }

  lemma NextInTurn(i: nat, k: nat, buffers: nat)
    requires buffers > 0 && i == k % buffers
    ensures Handover.Next(i, buffers) == (k + 1) % buffers
  {
    var q := k / buffers;
    assert k == buffers * q + i;
    if i + 1 < buffers {
      DivisionIsUnique(k + 1, buffers, q, i + 1);
    } else {
      assert buffers * (q + 1) == buffers * q + buffers;
      DivisionIsUnique(k + 1, buffers, q + 1, 0);
    }
  }

  /** The buffer before the next one is the current one. */
  lemma TakenInTurn(i: nat, k: nat, buffers: nat)
    requires buffers > 0 && i < buffers && Handover.Next(i, buffers) == (k + 1) % buffers
    ensures i == k % buffers
  {
    NextInTurn(k % buffers, k, buffers);
  }

  lemma ReportIsRead(index: nat, size: Word)
    requires index <= INT_MAX
    ensures ReportMessage(index, size) == Decoded(Ok((index, Reported(size))))
  {
    DecodeOfReport(index, size);
  }

  lemma IndexInRange(s: Handover.System, buffers: nat)
    requires buffers >= 1 && Handover.Inv(s, buffers)
    ensures s.index < buffers && (forall i | i in s.signalled :: i < buffers)
  {
  }

  /** A report of a buffer of the list. */
  lemma ReportSignals(d: Driver, buffers: nat, index: nat, size: Word)
    requires Serves(d, buffers, size) && index < buffers
    ensures var d' := DoReceive(d, Decoded(Ok((index, size)))).0;
      && Serves(d', buffers, size) && |d'.signals| == |d.signals| + 1
      && d'.buffers == d.buffers[index := d.buffers[index].(writingSize := size)]
  {
    DeliveryIsExact(d, index, size);
  }

  /** The state after a report, with the driver's part worked out. */
  lemma ReportApplies(s: System, buffers: nat, size: Word, userSize: Word)
    requires 1 <= buffers <= 255 && Reported(size) > 0 && Inv(s, buffers, size) && Enabled(s, Handover.Report)
    ensures var i := s.sys.index;
      && i < buffers
      && var d' := DoReceive(s.driver, Decoded(Ok((i, Reported(size))))).0;
        && Serves(d', buffers, Reported(size))
        && d'.buffers == s.driver.buffers[i := s.driver.buffers[i].(writingSize := Reported(size))]
        && Apply(s, Handover.Report, buffers, size, userSize)
          == s.(sys := Handover.Apply(s.sys, Handover.Report, buffers, Reported(size)), driver := d')
  {
    IndexInRange(s.sys, buffers);
    ReportIsRead(s.sys.index, size);
    ReportSignals(s.driver, buffers, s.sys.index, Reported(size));
  }

  lemma ReportWrites(s: System, s': System, buffers: nat, size: Word)
    requires buffers > 0 && Written(s, buffers, size) && Handover.Enabled(s.sys, Handover.Report)
    requires s'.sys == Handover.Apply(s.sys, Handover.Report, buffers, Reported(size)) && s'.writes == s.writes
    ensures Written(s', buffers, size)
  {
    NextInTurn(s.sys.index, s.sys.reports, buffers);
  }

  lemma ReportStep(s: System, buffers: nat, size: Word, userSize: Word)
    requires 1 <= buffers <= 255 && Reported(size) > 0 && Inv(s, buffers, size) && Enabled(s, Handover.Report)
    ensures var s' := Apply(s, Handover.Report, buffers, size, userSize);
      Inv(s', buffers, size) && s'.sys == Handover.Apply(s.sys, Handover.Report, buffers, Reported(size))
  {
    ReportApplies(s, buffers, size, userSize);
    ReportWrites(s, Apply(s, Handover.Report, buffers, size, userSize), buffers, size);
    Handover.ReportKeepsInv(s.sys, buffers, Reported(size));
  }

  /** The driver answers the reported size. */
  lemma AnswerIsReported(s: System, buffers: nat, size: Word, userSize: Word)
    requires buffers > 0 && Inv(s, buffers, size) && s.sys.app.awaited in s.sys.signalled
    ensures s.driver.buffers != []
    ensures var (d', r, answer) := Answer(s, userSize);
      && r == Success && answer == Reported(size) && Serves(d', buffers, Reported(size))
      && d'.buffers == s.driver.buffers[s.sys.app.awaited := s.driver.buffers[s.sys.app.awaited].(writingSize := NO_DATA)]
  {
    SearchIsIndexing(s.driver, s.sys.app.awaited);
  }

  lemma FetchStep(s: System, buffers: nat, size: Word, userSize: Word)
    requires 1 <= buffers <= 255 && Reported(size) > 0 && Inv(s, buffers, size) && Enabled(s, Handover.Thread)
    requires s.sys.app.thread.Fetch?
    ensures var s' := Apply(s, Handover.Thread, buffers, size, userSize);
      Inv(s', buffers, size) && s'.sys == Handover.Apply(s.sys, Handover.Thread, buffers, Reported(size))
  {
    Handover.ThreadKeepsInv(s.sys, buffers, Reported(size));
    AnswerIsReported(s, buffers, size, userSize);
  }

  lemma WriteStep(s: System, buffers: nat, size: Word, userSize: Word)
    requires 1 <= buffers <= 255 && Reported(size) > 0 && Inv(s, buffers, size) && s.sys.app.thread.Write?
    ensures var s' := Apply(s, Handover.Thread, buffers, size, userSize);
      Inv(s', buffers, size) && s'.sys == Handover.Apply(s.sys, Handover.Thread, buffers, Reported(size))
  {
    Handover.ThreadKeepsInv(s.sys, buffers, Reported(size));
    TakenInTurn(s.sys.taken, s.sys.app.deliveries, buffers);
  }

  lemma OtherStep(s: System, buffers: nat, size: Word, userSize: Word)
    requires 1 <= buffers <= 255 && Reported(size) > 0 && Inv(s, buffers, size)
    requires !s.sys.app.thread.Fetch? && !s.sys.app.thread.Write?
    ensures var s' := Apply(s, Handover.Thread, buffers, size, userSize);
      Inv(s', buffers, size) && s'.sys == Handover.Apply(s.sys, Handover.Thread, buffers, Reported(size))
  {
    Handover.ThreadKeepsInv(s.sys, buffers, Reported(size));
  }

  lemma ThreadStep(s: System, buffers: nat, size: Word, userSize: Word)
    requires 1 <= buffers <= 255 && Reported(size) > 0 && Inv(s, buffers, size) && Enabled(s, Handover.Thread)
    ensures var s' := Apply(s, Handover.Thread, buffers, size, userSize);
      Inv(s', buffers, size) && s'.sys == Handover.Apply(s.sys, Handover.Thread, buffers, Reported(size))
  {
    if s.sys.app.thread.Fetch? {
      FetchStep(s, buffers, size, userSize);
    } else if s.sys.app.thread.Write? {
      WriteStep(s, buffers, size, userSize);
    } else {
      OtherStep(s, buffers, size, userSize);
    }
  }

  lemma MainStep(s: System, buffers: nat, size: Word, userSize: Word)
    requires 1 <= buffers <= 255 && Reported(size) > 0 && Inv(s, buffers, size)
    ensures var s' := Apply(s, Handover.Main, buffers, size, userSize);
      Inv(s', buffers, size) && s'.sys == Handover.Apply(s.sys, Handover.Main, buffers, Reported(size))
  {
    Handover.MainKeepsInv(s.sys, buffers, Reported(size));
  }

  /** The driver stops no step of the threads or the coprocessor. */
  lemma SameSteps(s: System, step: Handover.Step, buffers: nat, size: Word)
    requires 1 <= buffers <= 255 && Inv(s, buffers, size)
    ensures Enabled(s, step) <==> Handover.Enabled(s.sys, step)
  {
    IndexInRange(s.sys, buffers);
  }

  /** The driver in between is transparent: its runs are exactly the runs of threads and
      coprocessor in which each delivery has the reported size. */
  lemma {:induction false} DriverIsTransparent(
      d: Driver, steps: seq<Handover.Step>, buffers: nat, size: Word, userSize: Word)
    requires 1 <= buffers <= 255 && Reported(size) > 0 && Serves(d, buffers, Reported(size))
    ensures var r := Run(Start(d), steps, buffers, size, userSize);
      && (r.Some? ==> Inv(r.value, buffers, size))
      && Handover.Run(Handover.START, steps, buffers, Reported(size)) == if r.Some? then Some(r.value.sys) else None
  {
    if steps != [] {
      var n := |steps| - 1;
      DriverIsTransparent(d, steps[..n], buffers, size, userSize);
      var before := Run(Start(d), steps[..n], buffers, size, userSize);
      if before.Some? {
        SameSteps(before.value, steps[n], buffers, size);
        if Enabled(before.value, steps[n]) {
          match steps[n] {
            case Main => MainStep(before.value, buffers, size, userSize);
            case Thread => ThreadStep(before.value, buffers, size, userSize);
            case Report => ReportStep(before.value, buffers, size, userSize);
          }
        }
      }
    } else {
      Handover.RunKeepsInv([], buffers, Reported(size));
    }
  }

  /** Over every run: a size request that follows the read of an eventfd answers the reported
      size of the buffer, which is at most the buffer's, and never the marker. */
  lemma NeverAnswersMarker(
      d: Driver, steps: seq<Handover.Step>, buffers: nat, size: Word, userSize: Word)
    requires 1 <= buffers <= 255 && Reported(size) > 0 && Serves(d, buffers, Reported(size))
    requires Run(Start(d), steps, buffers, size, userSize).Some?
    requires var s := Run(Start(d), steps, buffers, size, userSize).value;
      s.sys.app.thread.Fetch? && Enabled(s, Handover.Thread)
    ensures var s := Run(Start(d), steps, buffers, size, userSize).value;
      var (_, r, answer) := Answer(s, userSize);
      && r == Success && answer == Reported(size) != 0xFFFF_FFFF
      && s.sys.app.awaited < |s.driver.buffers| && answer <= s.driver.buffers[s.sys.app.awaited].size
  {
    DriverIsTransparent(d, steps, buffers, size, userSize);
    AnswerIsReported(Run(Start(d), steps, buffers, size, userSize).value, buffers, size, userSize);
  }

  /** Over every run: what the thread writes to the file are the reported buffers, one write
      for each delivery, in the order of the reports and each with the reported size. */
  lemma WritesAreReports(d: Driver, steps: seq<Handover.Step>, buffers: nat, size: Word, userSize: Word)
    requires 1 <= buffers <= 255 && Reported(size) > 0 && Serves(d, buffers, Reported(size))
    requires Run(Start(d), steps, buffers, size, userSize).Some?
    ensures var s := Run(Start(d), steps, buffers, size, userSize).value;
      && |s.writes| == s.sys.app.deliveries + One(s.sys.app.thread.Finish?) <= s.sys.reports
      && (forall k: nat | k < |s.writes| :: s.writes[k] == (k % buffers, size as nat % 0x100_0000))
      && s.sys.index == s.sys.reports % buffers
      && (s.sys.app.thread.Write? ==> s.sys.app.thread.size == size % 0x100_0000)
  {
    DriverIsTransparent(d, steps, buffers, size, userSize);
  }

  /** The set-up loop leaves such a driver. */
  lemma SetUpServes(d: Driver, slots: seq<SdbApp.Slot>, vsize: Word, size: Word)
    requires d.ready && size <= PageAlign(vsize)
    ensures Serves(SdbApp.SetUpResult(d, slots, vsize), |slots|, size)
  {
  }
}
