/** The coprocessor's main loop around an SPI transfer: a request arrives on ttyRPMSG1, a DMA
    transfer is started, its interrupt reports completion, and the loop fills the next
    pattern and sends both buffers to the main processor.

    The interrupt callbacks run between any two steps of the loop. */
module SpiTransfer {
  import opened Common
  import opened Words

  /** SAMPLING_BUFFER_SIZE */
  const SIZE: nat := 64

  const LETTER_A: Byte := 97

  // --------------------------------------------------------------- the letter pattern

  /** v |= v << n, the shift of a uint32_t written as multiplication by 2^n */
  function Spread(v: Word, factor: nat): Word {
    ToWord(Or(v, ToWord(v * factor)))
  }

  /** wBufferVal: the letter in all four bytes. */
  function BufferVal(letter: Word): Word {
    Spread(Spread(letter, 0x100), 0x1_0000)
  }

  /** memset stores the low byte of its argument. */
  function LowByte(v: Word): Byte {
    v % 0x100
  }

  /** What memset writes to aTxBuffer. */
  function Pattern(cnt: Byte): (s: seq<Byte>)
    ensures |s| == SIZE
  {
    var low := LowByte(BufferVal(LETTER_A + cnt));
    seq(SIZE, _ => low)
  }

  function NextCount(cnt: nat): nat {
    if cnt + 1 >= 26 then 0 else cnt + 1
  }

  /** The buffer that the k-th handled completion fills: 'a' + k mod 26 throughout. */
  function Letters(k: nat): (s: seq<Byte>)
    ensures |s| == SIZE
  {
    seq(SIZE, _ => LETTER_A + k % 26)
  }

  /** Spreading by whole bytes leaves the low byte alone. */
  lemma LowByteOfSpread(v: Word, bytes: nat)
    ensures LowByte(Spread(v, 0x100 * bytes)) == LowByte(v)
  {
    var x := ToWord(v * (0x100 * bytes));
    var or := Or(v, x);
    var h := x / 0x100;
    MultipleOfByte(v, bytes);
    Pow2Values();
    OrBound(v, x, 32);
    ToWordSmall(or);
    AndMask(v, 8);
    AndMask(or, 8);
    forall k: nat | k < 8 ensures Bit(And(or, 0xFF), k) <==> Bit(And(v, 0xFF), k) {
      BitOfAnd(or, 0xFF, k);
      BitOfAnd(v, 0xFF, k);
      BitOfOr(v, x, k);
      LowBitsSurvive(0, 8, h, k);
      NoBitPast(0, 0, k);
    }
    Extensionality(And(or, 0xFF), And(v, 0xFF), 8);
  }

  lemma MultipleOfByte(v: Word, bytes: nat)
    ensures var x := ToWord(v * (0x100 * bytes)); x == 0x100 * (x / 0x100)
  {
    var y := v * bytes;
    assert v * (0x100 * bytes) == 0x100 * y;
    DivisionIsUnique(0x100 * y, WORD_SIZE, y / 0x100_0000, 0x100 * (y % 0x100_0000));
  }

  lemma LowByteOfBoth(v: Word, f: nat, g: nat)
    requires f == 0x100 * (f / 0x100) && g == 0x100 * (g / 0x100)
    ensures LowByte(Spread(Spread(v, f), g)) == LowByte(v)
  {
    LowByteOfSpread(v, f / 0x100);
    LowByteOfSpread(Spread(v, f), g / 0x100);
  }

  lemma ByteIsItsLowByte(letter: Byte)
    ensures LowByte(letter) == letter
  {
  }

  lemma LowByteOfBufferVal(letter: Byte)
    ensures LowByte(BufferVal(letter)) == LowByte(letter)
  {
    LowByteOfBoth(letter, 0x100, 0x1_0000);
  }

  lemma BufferValIsLetter(letter: Byte)
    ensures LowByte(BufferVal(letter)) == letter
  {
    LowByteOfBufferVal(letter);
    ByteIsItsLowByte(letter);
  }

  lemma PatternIsLetters(cnt: Byte, k: nat)
    requires cnt == k % 26
    ensures Pattern(cnt) == Letters(k)
  {
    BufferValIsLetter(LETTER_A + cnt);
  }

  // ----------------------------------------------------------------- the main loop

  /** wTransferState: TRANSFER_IDLE asks for a transfer. */
  datatype Transfer = Requested | Waiting | Complete | Failed

  datatype Pc =
    | Poll       // OPENAMP_check_for_message
    | CheckRx    // if (VirtUart1RxMsg)
    | Switch     // switch(wTransferState)
    | BeginWait  // wTransferState = TRANSFER_WAIT, before the start
    | StartDma   // HAL_SPI_TransmitReceive_DMA
    | Fill       // the next pattern goes to aTxBuffer
    | Transmit   // both buffers go to ttyRPMSG0
    | EndWait    // wTransferState = TRANSFER_WAIT, after the transmission
    | Halted     // Error_Handler

  /** The firmware and its hardware: rxMsg says that a message came in, rxStart that its
      buffer begins with "ST". The rest below aRx is an account of the run: requests counts
      the messages after which the buffer began with "ST", dropped those that a later message
      of the same poll overwrote; unseen says that a completion is stored in wTransferState
      that the switch has not looked at; lost counts completions overwritten in that
      condition, swallowed the requests overwritten by a completion before the switch looked
      at them. */
  datatype Cm4 = Cm4(
    state: Transfer,
    pc: Pc,
    dma: bool,
    rxMsg: bool,
    rxStart: bool,
    bufferCnt: Byte,
    aTx: seq<Byte>,
    aRx: seq<Byte>,
    requests: nat,
    dropped: nat,
    starts: nat,
    completions: nat,
    unseen: bool,
    lost: nat,
    swallowed: nat,
    sent: seq<(seq<Byte>, seq<Byte>)>)

  datatype Step =
    | Loop(messages: seq<bool>)  // next step of the loop; a poll handles all queued messages
    | DmaWrites(data: seq<Byte>) // a running transfer has filled part of aRxBuffer
    | DmaDone(data: seq<Byte>)   // the last byte is there; HAL_SPI_TxRxCpltCallback
    | DmaFailed                  // HAL_SPI_ErrorCallback

  /** The messages of one poll, each by whether the buffer begins with "ST" once it is
      copied there: whether the loop finds a request afterwards. */
  predicate TakenIn(messages: seq<bool>) {
    messages != [] && messages[|messages| - 1]
  }

  function Requests(messages: seq<bool>): nat {
    if messages == [] then 0 else Requests(messages[..|messages| - 1]) + One(messages[|messages| - 1])
  }

  /** The requests that later messages of the same poll overwrite. */
  function Overwritten(messages: seq<bool>): nat {
    if messages == [] then 0 else Requests(messages[..|messages| - 1])
  }

  /** A request is stored that the switch has not looked at. */
  predicate Asked(m: Cm4) {
    m.pc == Switch && m.state == Requested
  }

  /** A store to wTransferState by the loop. */
  function Store(m: Cm4, state: Transfer): Cm4 {
    m.(state := state, lost := m.lost + One(m.unseen), unseen := false)
  }

  /** A store to wTransferState by a callback. */
  function Report(m: Cm4, state: Transfer): Cm4 {
    m.(state := state,
       dma := false,
       lost := m.lost + One(m.unseen),
       swallowed := m.swallowed + One(Asked(m)),
       unseen := state == Complete)
  }

  function LoopStep(m: Cm4, messages: seq<bool>): Cm4 {
    match m.pc
    case Poll =>
      if messages == [] then m.(pc := CheckRx)
      else
        m.(rxMsg := true,
           rxStart := TakenIn(messages),
           requests := m.requests + Requests(messages),
           dropped := m.dropped + Overwritten(messages),
           pc := CheckRx)
    case CheckRx =>
      if m.rxMsg && m.rxStart then Store(m, Requested).(rxMsg := false, pc := Switch)
      else m.(rxMsg := false, pc := Switch)
    case Switch =>
      (match m.state
       case Requested => m.(pc := BeginWait)
       case Complete => m.(pc := Fill, unseen := false)
       case Failed => m.(pc := Halted)
       case Waiting => m.(pc := Poll))
    case BeginWait => Store(m, Waiting).(pc := StartDma)
    case StartDma =>
      if m.dma then m.(pc := Halted) else m.(dma := true, starts := m.starts + 1, pc := Poll)
    case Fill =>
      m.(aTx := Pattern(m.bufferCnt), bufferCnt := NextCount(m.bufferCnt) % 0x100, pc := Transmit)
    case Transmit => m.(sent := m.sent + [(m.aTx, m.aRx)], pc := EndWait)
    case EndWait => Store(m, Waiting).(pc := Poll)
    case Halted => m
  }

  /** Received bytes and callbacks come from a running transfer, until Error_Handler disables them. */
  predicate Enabled(m: Cm4, step: Step) {
    step.Loop? || (m.dma && m.pc != Halted)
  }

  function Apply(m: Cm4, step: Step): Cm4
    requires Enabled(m, step)
  {
    match step
    case Loop(messages) => LoopStep(m, messages)
    case DmaWrites(data) => m.(aRx := data)
    case DmaDone(data) => Report(m, Complete).(aRx := data, completions := m.completions + 1)
    case DmaFailed => Report(m, Failed)
  }

  /** The power-on state, with any content of the buffers. */
  predicate IsStart(m: Cm4) {
    && m.state == Waiting && m.pc == Poll && !m.dma && !m.rxMsg && !m.unseen && m.bufferCnt == 0
    && m.requests == m.dropped == m.starts == m.completions == m.lost == m.swallowed == 0 && m.sent == []
  }

  function Run(m: Cm4, steps: seq<Step>): Option<Cm4> {
    if steps == [] then Some(m)
    else
      var n := |steps| - 1;
      match Run(m, steps[..n])
      case None => None
      case Some(mid) => if Enabled(mid, steps[n]) then Some(Apply(mid, steps[n])) else None
  }

  // ----------------------------------------------- what becomes of every request

  /** A request is in the buffer that the loop has not taken in. */
  predicate Received(m: Cm4) {
    m.rxMsg && m.rxStart
  }

  /** The requests that are neither answered nor gone: received, taken in, about to be
      started, under way, complete and not looked at, or being answered. */
  function InProgress(m: Cm4): nat {
    One(Received(m)) + One(Asked(m)) + One(m.pc == BeginWait || m.pc == StartDma) + One(m.dma) + One(m.unseen) + One(m.pc == Fill || m.pc == Transmit)
  }

  /** Where wTransferState may stand. */
  predicate StateFits(m: Cm4) {
    && m.state != Failed
    && (m.unseen ==> m.state == Complete)
    && (m.state == Complete ==> m.unseen || m.pc in {Fill, Transmit, EndWait})
    && (m.state == Requested ==> m.pc == Switch || m.pc == BeginWait)
    && (m.pc == BeginWait ==> m.state != Waiting)
    && (m.pc in {Fill, Transmit, EndWait} ==> m.state == Complete)
    && (m.rxMsg ==> m.pc == CheckRx)
  }

  /** The account of a run without transfer errors, whatever requests come in and whenever:
      every request is answered, dropped, lost with its completion, swallowed, refused by the
      start that halts the firmware, or in progress; and the k-th transmission carries the k-th
      letter. */
  predicate Accounted(m: Cm4) {
    && StateFits(m)
    && m.starts == m.completions + One(m.dma)
    && m.completions == |m.sent| + m.lost + One(m.unseen) + One(m.pc == Fill || m.pc == Transmit)
    && m.requests == |m.sent| + m.dropped + m.lost + m.swallowed + One(m.pc == Halted) + InProgress(m)
    && m.bufferCnt == (|m.sent| + One(m.pc == Transmit)) % 26
    && (m.pc == Transmit ==> m.aTx == Letters(|m.sent|))
    && (forall k: nat | k < |m.sent| :: m.sent[k].0 == Letters(k))
  }

  lemma NextLetter(n: nat)
    ensures NextCount(n % 26) % 0x100 == (n + 1) % 26
  {
  }

  lemma FillAccounted(m: Cm4, messages: seq<bool>)
    requires Accounted(m) && m.pc == Fill
    ensures Accounted(LoopStep(m, messages))
  {
    PatternIsLetters(m.bufferCnt, |m.sent|);
    NextLetter(|m.sent|);
  }

  lemma TransmitAccounted(m: Cm4, messages: seq<bool>)
    requires Accounted(m) && m.pc == Transmit
    ensures Accounted(LoopStep(m, messages))
  {
  }

  lemma PollAccounted(m: Cm4, messages: seq<bool>)
    requires Accounted(m) && m.pc == Poll
    ensures Accounted(LoopStep(m, messages))
  {
  }

  lemma TakingInAccounted(m: Cm4, messages: seq<bool>)
    requires Accounted(m) && m.pc == CheckRx
    ensures Accounted(LoopStep(m, messages))
  {
  }

  lemma SwitchAccounted(m: Cm4, messages: seq<bool>)
    requires Accounted(m) && m.pc == Switch
    ensures Accounted(LoopStep(m, messages))
  {
  }

  lemma StoringAccounted(m: Cm4, messages: seq<bool>)
    requires Accounted(m) && m.pc in {BeginWait, StartDma, EndWait, Halted}
    ensures Accounted(LoopStep(m, messages))
  {
  }

  lemma CompletionAccounted(m: Cm4, data: seq<Byte>)
    requires Accounted(m) && Enabled(m, DmaDone(data))
    ensures Accounted(Apply(m, DmaDone(data)))
  {
  }

  /** Every step keeps the account, wherever the callback and the requests come. */
  lemma StepAccounted(m: Cm4, step: Step)
    requires Accounted(m) && Enabled(m, step) && !step.DmaFailed?
    ensures Accounted(Apply(m, step))
  {
    match step
    case DmaWrites(data) =>
    case DmaDone(data) => CompletionAccounted(m, data);
    case Loop(messages) =>
      if m.pc == Fill {
        FillAccounted(m, messages);
      } else if m.pc == Transmit {
        TransmitAccounted(m, messages);
      } else if m.pc == Poll {
        PollAccounted(m, messages);
      } else if m.pc == CheckRx {
        TakingInAccounted(m, messages);
      } else if m.pc == Switch {
        SwitchAccounted(m, messages);
      } else {
        StoringAccounted(m, messages);
      }
  }

  predicate NoFailure(steps: seq<Step>) {
    forall step | step in steps :: !step.DmaFailed?
  }

  lemma {:induction false} RunAccounted(start: Cm4, steps: seq<Step>)
    requires IsStart(start) && Run(start, steps).Some? && NoFailure(steps)
    ensures Accounted(Run(start, steps).value)
  {
    if steps != [] {
      var n := |steps| - 1;
      RunAccounted(start, steps[..n]);
      StepAccounted(Run(start, steps[..n]).value, steps[n]);
    }
  }

  /** The bytes that the completed transfers received, in order. */
  function Data(steps: seq<Step>): seq<seq<Byte>> {
    if steps == [] then []
    else
      var last := steps[|steps| - 1];
      Data(steps[..|steps| - 1]) + if last.DmaDone? then [last.data] else []
  }

  /** While no transfer is running, aRxBuffer holds what the last one received. */
  predicate HoldsLast(m: Cm4, data: seq<seq<Byte>>) {
    m.completions == |data| && (m.completions > 0 && !m.dma ==> m.aRx == data[|data| - 1])
  }

  lemma StepHoldsLast(m: Cm4, step: Step, data: seq<seq<Byte>>)
    requires HoldsLast(m, data) && Enabled(m, step) && !step.DmaFailed?
    ensures HoldsLast(Apply(m, step), data + if step.DmaDone? then [step.data] else [])
  {
    if step.Loop? {
      LoopLeavesBytes(m, step.messages);
      assert data + [] == data;
    }
  }

  /** The loop never touches aRxBuffer or a running transfer. */
  lemma LoopLeavesBytes(m: Cm4, messages: seq<bool>)
    ensures var m' := LoopStep(m, messages);
      m'.aRx == m.aRx && m'.completions == m.completions && (m.dma ==> m'.dma)
  {
    match m.pc
    case Fill =>
    case Transmit =>
    case StartDma =>
    case _ =>
  }

  lemma SentBy(m: Cm4, step: Step)
    requires Enabled(m, step)
    ensures Apply(m, step).sent == m.sent + if step.Loop? && m.pc == Transmit then [(m.aTx, m.aRx)] else []
  {
  }

  lemma {:induction false} RunHoldsLast(start: Cm4, steps: seq<Step>)
    requires IsStart(start) && Run(start, steps).Some? && NoFailure(steps)
    ensures HoldsLast(Run(start, steps).value, Data(steps))
  {
    if steps != [] {
      var n := |steps| - 1;
      assert steps[n] in steps && forall step | step in steps[..n] :: step in steps;
      RunHoldsLast(start, steps[..n]);
      StepHoldsLast(Run(start, steps[..n]).value, steps[n], Data(steps[..n]));
    }
  }

  /** Step number i makes transmission number k, with these bytes behind the letters: if no
      transfer is running then, the bytes of the last completed one. */
  predicate Carries(start: Cm4, steps: seq<Step>, i: nat, k: nat, bytes: seq<Byte>)
    requires i < |steps|
  {
    && Run(start, steps[..i]).Some?
    && var (s, data) := (Run(start, steps[..i]).value, Data(steps[..i]));
      && s.pc == Transmit && steps[i].Loop? && |s.sent| == k
      && data != [] && (!s.dma ==> bytes == data[|data| - 1])
  }

  /** Transmission number k carries the 64 letters 'a' + k mod 26. */
  predicate CarriesLetters(letters: seq<Byte>, k: nat) {
    |letters| == 64 && (forall j: nat | j < 64 :: letters[j] == 97 + k % 26)
  }

  lemma TransmitCarries(start: Cm4, steps: seq<Step>, n: nat)
    requires IsStart(start) && |steps| == n + 1 && Run(start, steps).Some? && NoFailure(steps)
    requires Run(start, steps[..n]).value.pc == Transmit && steps[n].Loop?
    ensures var m := Run(start, steps[..n]).value; Carries(start, steps, n, |m.sent|, m.aRx)
  {
    assert forall step | step in steps[..n] :: step in steps;
    RunAccounted(start, steps[..n]);
    RunHoldsLast(start, steps[..n]);
  }

  lemma CarriesInPrefix(start: Cm4, steps: seq<Step>, n: nat, i: nat, k: nat, bytes: seq<Byte>)
    requires i < n <= |steps| && Carries(start, steps[..n], i, k, bytes)
    ensures Carries(start, steps, i, k, bytes)
  {
    assert steps[..n][..i] == steps[..i];
  }

  lemma {:induction false} EveryTransmissionCarries(start: Cm4, steps: seq<Step>, k: nat) returns (i: nat)
    requires IsStart(start) && Run(start, steps).Some? && NoFailure(steps)
    requires k < |Run(start, steps).value.sent|
    ensures i < |steps| && Carries(start, steps, i, k, Run(start, steps).value.sent[k].1)
    decreases |steps|
  {
    var n := |steps| - 1;
    var before := Run(start, steps[..n]).value;
    assert forall step | step in steps[..n] :: step in steps;
    SentBy(before, steps[n]);
    if k < |before.sent| {
      i := EveryTransmissionCarries(start, steps[..n], k);
      CarriesInPrefix(start, steps, n, i, k, before.sent[k].1);
    } else {
      TransmitCarries(start, steps, n);
      i := n;
    }
  }

  /** Over every run without a transfer error, however early requests come: each request is
      answered, dropped, lost, swallowed, refused or in progress; the k-th transmission
      carries the k-th letter all the same; and behind it the bytes of the last completed
      transfer, unless another one is running just then. */
  lemma EveryRequestAccounted(start: Cm4, steps: seq<Step>)
    requires IsStart(start) && Run(start, steps).Some? && NoFailure(steps)
    ensures var m := Run(start, steps).value;
      && m.requests == |m.sent| + m.dropped + m.lost + m.swallowed + One(m.pc == Halted) + InProgress(m)
      && m.starts == m.completions + One(m.dma)
      && m.completions == |Data(steps)|
      && (forall k: nat | k < |m.sent| ::
            && CarriesLetters(m.sent[k].0, k)
            && exists i: nat | i < |steps| :: Carries(start, steps, i, k, m.sent[k].1))
  {
    RunAccounted(start, steps);
    RunHoldsLast(start, steps);
    var m := Run(start, steps).value;
    forall k: nat | k < |m.sent|
      ensures CarriesLetters(m.sent[k].0, k)
      ensures exists i: nat | i < |steps| :: Carries(start, steps, i, k, m.sent[k].1)
    {
      var i := EveryTransmissionCarries(start, steps, k);
    }
  }

  // --------------------------------------------------------------- dropped requests

  /** A poll handles a request and, after it, another message. */
  predicate Overwrites(m: Cm4, step: Step) {
    step.Loop? && m.pc == Poll && exists i: nat | i + 1 < |step.messages| :: step.messages[i]
  }

  lemma {:induction false} RequestsCounted(messages: seq<bool>)
    ensures Requests(messages) > 0 <==> (exists i: nat | i < |messages| :: messages[i])
  {
    if messages != [] {
      var n := |messages| - 1;
      RequestsCounted(messages[..n]);
      if i: nat :| i < |messages| && messages[i] {
        assert i < n ==> messages[..n][i];
      }
    }
  }

  lemma StepDrops(m: Cm4, step: Step)
    requires Enabled(m, step)
    ensures Apply(m, step).dropped >= m.dropped
    ensures Apply(m, step).dropped > m.dropped <==> Overwrites(m, step)
  {
    if step.Loop? && m.pc == Poll && step.messages != [] {
      var before := step.messages[..|step.messages| - 1];
      RequestsCounted(before);
      assert forall i: nat | i < |before| :: before[i] == step.messages[i];
    }
  }

  /** Step number i of a run drops a request. */
  predicate DropsAt(start: Cm4, steps: seq<Step>, i: nat)
    requires i < |steps|
  {
    Run(start, steps[..i]).Some? && Overwrites(Run(start, steps[..i]).value, steps[i])
  }

  /** Over every run a request is dropped if and only if some poll handles another message
      after a request, whatever the transfers are doing. */
  lemma {:induction false} DroppedIffOverwritten(start: Cm4, steps: seq<Step>)
    requires IsStart(start) && Run(start, steps).Some?
    ensures Run(start, steps).value.dropped > 0 <==> (exists i: nat | i < |steps| :: DropsAt(start, steps, i))
  {
    if steps != [] {
      var n := |steps| - 1;
      DroppedIffOverwritten(start, steps[..n]);
      StepDrops(Run(start, steps[..n]).value, steps[n]);
      DropsInPrefix(start, steps, n);
    }
  }

  lemma DropsInPrefix(start: Cm4, steps: seq<Step>, n: nat)
    requires |steps| == n + 1 && Run(start, steps[..n]).Some?
    ensures (exists i: nat | i < |steps| :: DropsAt(start, steps, i))
       <==> (exists i: nat | i < |steps[..n]| :: DropsAt(start, steps[..n], i)) || Overwrites(Run(start, steps[..n]).value, steps[n])
  {
    forall i: nat | i < n ensures DropsAt(start, steps[..n], i) <==> DropsAt(start, steps, i) {
      assert steps[..n][..i] == steps[..i];
    }
    assert DropsAt(start, steps, n) <==> Overwrites(Run(start, steps[..n]).value, steps[n]);
  }

  // -------------------------------------------------------- one request at a time

  /** At most one request is in progress, and none once it is answered. */
  predicate Orderly(m: Cm4) {
    && Accounted(m)
    && m.pc != Halted
    && InProgress(m) <= 1
    && (m.pc == EndWait ==> InProgress(m) == 0)
  }

  /** A poll leaves a request in the buffer while an earlier one is in progress. */
  predicate Early(m: Cm4, step: Step) {
    step.Loop? && TakenIn(step.messages) && m.pc == Poll && InProgress(m) != 0
  }

  lemma ReceivingKeepsOrder(m: Cm4, messages: seq<bool>)
    requires Orderly(m) && !Early(m, Loop(messages)) && (m.pc == Poll || m.pc == CheckRx)
    ensures var m' := LoopStep(m, messages);
      (Accounted(m') ==> Orderly(m')) && m'.lost == m.lost && m'.swallowed == m.swallowed
  {
  }

  lemma AnsweringKeepsOrder(m: Cm4, messages: seq<bool>)
    requires Orderly(m) && m.pc != Poll && m.pc != CheckRx
    ensures var m' := LoopStep(m, messages);
      (Accounted(m') ==> Orderly(m')) && m'.lost == m.lost && m'.swallowed == m.swallowed
  {
  }

  lemma WritingKeepsOrder(m: Cm4, data: seq<Byte>)
    requires Orderly(m) && Enabled(m, DmaWrites(data))
    ensures Orderly(Apply(m, DmaWrites(data)))
  {
  }

  lemma CallbackKeepsOrder(m: Cm4, data: seq<Byte>)
    requires Orderly(m) && Enabled(m, DmaDone(data))
    ensures var m' := Apply(m, DmaDone(data));
      (Accounted(m') ==> Orderly(m')) && m'.lost == m.lost && m'.swallowed == m.swallowed
  {
  }

  /** A request that waits for its turn keeps the loop in order, whenever the callback comes:
      nothing is lost, swallowed or refused. */
  lemma StepKeepsOrder(m: Cm4, step: Step)
    requires Orderly(m) && Enabled(m, step) && !Early(m, step) && !step.DmaFailed?
    ensures Orderly(Apply(m, step))
    ensures Apply(m, step).lost == m.lost && Apply(m, step).swallowed == m.swallowed
    ensures Apply(m, step).dropped > m.dropped <==> Overwrites(m, step)
  {
    StepAccounted(m, step);
    StepDrops(m, step);
    match step
    case Loop(messages) =>
      if m.pc == Poll || m.pc == CheckRx {
        ReceivingKeepsOrder(m, messages);
      } else {
        AnsweringKeepsOrder(m, messages);
      }
    case DmaWrites(data) => WritingKeepsOrder(m, data);
    case DmaDone(data) => CallbackKeepsOrder(m, data);
  }

  /** Requests come one at a time and no transfer fails. */
  predicate Disciplined(m: Cm4, steps: seq<Step>)
    requires Run(m, steps).Some?
  {
    steps != [] ==>
      var n := |steps| - 1;
      Disciplined(m, steps[..n]) && !Early(Run(m, steps[..n]).value, steps[n]) && !steps[n].DmaFailed?
  }

  lemma {:induction false} RunKeepsOrder(start: Cm4, steps: seq<Step>)
    requires IsStart(start) && Run(start, steps).Some? && Disciplined(start, steps)
    ensures var m := Run(start, steps).value; Orderly(m) && m.lost == 0 && m.swallowed == 0
  {
    if steps != [] {
      var n := |steps| - 1;
      RunKeepsOrder(start, steps[..n]);
      StepKeepsOrder(Run(start, steps[..n]).value, steps[n]);
    }
  }

  lemma {:induction false} DisciplinedIsNoFailure(m: Cm4, steps: seq<Step>)
    requires Run(m, steps).Some? && Disciplined(m, steps)
    ensures NoFailure(steps)
  {
    if steps != [] {
      var n := |steps| - 1;
      DisciplinedIsNoFailure(m, steps[..n]);
      assert steps == steps[..n] + [steps[n]];
    }
  }

  /** One transmission for each completed transfer, with its bytes. */
  predicate Answered(m: Cm4, data: seq<seq<Byte>>) {
    |m.sent| <= |data| && (forall k: nat | k < |m.sent| :: m.sent[k].1 == data[k])
  }

  lemma StepAnswers(m: Cm4, step: Step, data: seq<seq<Byte>>)
    requires Orderly(m) && m.lost == 0 && HoldsLast(m, data) && Answered(m, data) && Enabled(m, step)
    ensures Answered(Apply(m, step), data) && Answered(Apply(m, step), data + if step.DmaDone? then [step.data] else [])
  {
    SentBy(m, step);
  }

  lemma {:induction false} BytesStayInOrder(start: Cm4, steps: seq<Step>)
    requires IsStart(start) && Run(start, steps).Some? && Disciplined(start, steps)
    ensures Answered(Run(start, steps).value, Data(steps))
  {
    if steps != [] {
      var n := |steps| - 1;
      BytesStayInOrder(start, steps[..n]);
      RunKeepsOrder(start, steps[..n]);
      DisciplinedIsNoFailure(start, steps[..n]);
      RunHoldsLast(start, steps[..n]);
      StepAnswers(Run(start, steps[..n]).value, steps[n], Data(steps[..n]));
    }
  }

  /** Over every disciplined run: the firmware never halts, so DMA is never started while it
      is running; no completion is overwritten and no request swallowed; every request not
      dropped has at most one start, one completion and one transmission, and all but the last
      one have them; and the k-th transmission carries 'a' + k mod 26 throughout, and behind
      it the bytes that the k-th completed transfer received. */
  lemma TransfersStayInOrder(start: Cm4, steps: seq<Step>)
    requires IsStart(start) && Run(start, steps).Some? && Disciplined(start, steps)
    ensures var m := Run(start, steps).value;
      && m.pc != Halted && m.state != Failed && m.lost == 0 && m.swallowed == 0
      && m.completions <= m.starts <= m.completions + 1
      && m.requests - m.dropped - 1 <= |m.sent| <= m.completions <= m.starts <= m.requests - m.dropped
      && m.completions == |Data(steps)|
      && (forall k: nat | k < |m.sent| :: CarriesLetters(m.sent[k].0, k) && m.sent[k].1 == Data(steps)[k])
  {
    RunKeepsOrder(start, steps);
    DisciplinedIsNoFailure(start, steps);
    RunHoldsLast(start, steps);
    BytesStayInOrder(start, steps);
  }

  // ------------------------------------------------------------- a failed transfer

  /** A transfer that fails halts the firmware at the next switch, unless a request is taken
      in before: then the failure is forgotten and a new transfer is about to start. */
  lemma FailureOutcome(m: Cm4, messages: seq<bool>)
    requires Orderly(m) && m.dma
    ensures m.pc in {Poll, CheckRx, Switch} && Enabled(m, DmaFailed)
    ensures var s := Apply(m, DmaFailed);
      && (m.pc == Poll ==>
            LoopStep(LoopStep(LoopStep(s, messages), []), []).pc == if TakenIn(messages) then BeginWait else Halted)
      && (m.pc == CheckRx ==> LoopStep(LoopStep(s, messages), []).pc == Halted)
      && (m.pc == Switch ==> LoopStep(s, messages).pc == Halted)
  {
  }

  // ------------------------------------------------------------- an early request

  function LoopCount(steps: seq<Step>): nat {
    if steps == [] then 0 else LoopCount(steps[..|steps| - 1]) + One(steps[|steps| - 1].Loop?)
  }

  /** Where the loop stood when the first callback of a run came. */
  function CallbackAt(m: Cm4, steps: seq<Step>): Option<Pc>
    requires Run(m, steps).Some?
  {
    if steps == [] then None
    else
      var n := |steps| - 1;
      var before := CallbackAt(m, steps[..n]);
      if before.None? && steps[n].DmaDone? then Some(Run(m, steps[..n]).value.pc) else before
  }

  /** Up to n steps of the loop, with callbacks in between, ending with the n-th. */
  predicate Within(steps: seq<Step>, n: nat) {
    LoopCount(steps) < n || (LoopCount(steps) == n && steps != [] && steps[|steps| - 1].Loop?)
  }

  /** The state k loop steps after an early request was received, by where the callback
      came; without a running transfer none comes. */
  predicate AfterEarly(m: Cm4, s: Cm4, k: nat, at: Option<Pc>) {
    && Accounted(s)
    && !(k > 0 && s.rxMsg)
    && match at
       case None =>
         && s.pc == (match k case 0 => CheckRx case 1 => Switch case 2 => BeginWait case 3 => StartDma case _ => if m.dma then Halted else Poll)
         && s.state == (match k case 0 => (if m.dma then Waiting else Complete) case 1 => Requested case 2 => Requested case _ => Waiting)
         && s.dma == (m.dma || k == 4) && s.unseen == (!m.dma && k == 0)
         && s.lost == m.lost + One(!m.dma && k > 0) && s.swallowed == m.swallowed
       case Some(CheckRx) =>
         && m.dma
         && s.pc == (match k case 0 => CheckRx case 1 => Switch case 2 => BeginWait case 3 => StartDma case _ => Poll)
         && s.state == (match k case 0 => Complete case 1 => Requested case 2 => Requested case _ => Waiting)
         && s.dma == (k == 4) && s.unseen == (k == 0)
         && s.lost == m.lost + One(k > 0) && s.swallowed == m.swallowed
       case Some(Switch) =>
         && m.dma && k >= 1
         && s.pc == (match k case 1 => Switch case 2 => Fill case 3 => Transmit case _ => EndWait)
         && s.state == Complete && !s.dma && s.unseen == (k == 1)
         && s.lost == m.lost && s.swallowed == m.swallowed + 1
       case Some(BeginWait) =>
         && m.dma && k >= 2
         && s.pc == (match k case 2 => BeginWait case 3 => StartDma case _ => Poll)
         && s.state == (if k == 2 then Complete else Waiting)
         && s.dma == (k == 4) && s.unseen == (k == 2)
         && s.lost == m.lost + One(k > 2) && s.swallowed == m.swallowed
       case Some(StartDma) =>
         && m.dma && k >= 3
         && s.pc == (if k == 3 then StartDma else Poll)
         && s.state == Complete && s.unseen && s.dma == (k == 4)
         && s.lost == m.lost && s.swallowed == m.swallowed
       case _ => false
  }

  lemma EarlyLoopStep(m: Cm4, s: Cm4, k: nat, at: Option<Pc>, messages: seq<bool>)
    requires AfterEarly(m, s, k, at) && k < 4 && (k == 0 ==> s.rxMsg && s.rxStart)
    ensures AfterEarly(m, LoopStep(s, messages), k + 1, at)
  {
    StepAccounted(s, Loop(messages));
  }

  lemma EarlyCallback(m: Cm4, s: Cm4, k: nat, at: Option<Pc>, data: seq<Byte>)
    requires AfterEarly(m, s, k, at) && k < 4 && Enabled(s, DmaDone(data))
    ensures at == None && AfterEarly(m, Apply(s, DmaDone(data)), k, Some(s.pc))
  {
    StepAccounted(s, DmaDone(data));
  }

  lemma EarlyWrite(m: Cm4, s: Cm4, k: nat, at: Option<Pc>, data: seq<Byte>)
    requires AfterEarly(m, s, k, at)
    ensures AfterEarly(m, s.(aRx := data), k, at)
  {
  }

  lemma EarlyStep(m: Cm4, s: Cm4, k: nat, at: Option<Pc>, step: Step)
    requires AfterEarly(m, s, k, at) && k < 4 && (k == 0 ==> s.rxMsg && s.rxStart)
    requires Enabled(s, step) && !step.DmaFailed?
    ensures AfterEarly(m, Apply(s, step), k + One(step.Loop?), if at.None? && step.DmaDone? then Some(s.pc) else at)
    ensures k + One(step.Loop?) == 0 ==> Apply(s, step).rxMsg && Apply(s, step).rxStart
  {
    match step
    case Loop(messages) => EarlyLoopStep(m, s, k, at, messages);
    case DmaWrites(data) => EarlyWrite(m, s, k, at, data);
    case DmaDone(data) => EarlyCallback(m, s, k, at, data);
  }

  lemma RequestReceived(m: Cm4, request: Step)
    requires Orderly(m) && Early(m, request)
    ensures var s := Apply(m, request); AfterEarly(m, s, 0, None) && s.rxMsg && s.rxStart
  {
    StepAccounted(m, request);
  }

  lemma {:induction false} EarlyPrefix(m: Cm4, request: Step, steps: seq<Step>)
    requires Orderly(m) && Early(m, request)
    requires Run(Apply(m, request), steps).Some? && NoFailure(steps) && Within(steps, 4)
    ensures var s := Run(Apply(m, request), steps).value;
      && AfterEarly(m, s, LoopCount(steps), CallbackAt(Apply(m, request), steps))
      && (LoopCount(steps) == 0 ==> s.rxMsg && s.rxStart)
  {
    var first := Apply(m, request);
    if steps == [] {
      RequestReceived(m, request);
    } else {
      var n := |steps| - 1;
      EarlyPrefix(m, request, steps[..n]);
      assert steps[n] in steps;
      EarlyStep(m, Run(first, steps[..n]).value, LoopCount(steps[..n]), CallbackAt(first, steps[..n]), steps[n]);
    }
  }

  /** What becomes of a request that comes too early is decided by where the loop stands when
      the running transfer completes, over every course of the four loop steps after it was
      received. The firmware halts if and only if no completion comes before the next start.
      A completion is lost if and only if it comes before the loop takes the request in, be
      it before the request or after, or between the switch and the store that begins the
      wait. The request is swallowed if and only if the completion comes between its being
      taken in and the switch. Otherwise, with the completion right before the start, both
      transfers are on record. */
  lemma EarlyRequestOutcome(m: Cm4, request: Step, steps: seq<Step>)
    requires Orderly(m) && Early(m, request)
    requires Run(Apply(m, request), steps).Some? && NoFailure(steps) && Within(steps, 4) && LoopCount(steps) == 4
    ensures var end := Run(Apply(m, request), steps).value;
      var at := CallbackAt(Apply(m, request), steps);
      && (at.Some? ==> m.dma && at.value in {CheckRx, Switch, BeginWait, StartDma})
      && (end.pc == Halted <==> m.dma && at == None)
      && end.lost == m.lost + One(!m.dma || at == Some(CheckRx) || at == Some(BeginWait))
      && end.swallowed == m.swallowed + One(at == Some(Switch))
      && (end.pc != Halted && at != Some(StartDma) ==> Orderly(end))
      && (at == Some(StartDma) <==> Overlapping(end))
  {
    EarlyPrefix(m, request, steps);
  }

  /** A completion waits for the switch while the next transfer is already under way. */
  predicate Overlapping(m: Cm4) {
    Accounted(m) && m.pc == Poll && m.dma && m.unseen
  }

  /** The state k loop steps later, if no request comes in, by where the second callback
      came. */
  predicate AfterOverlap(m: Cm4, s: Cm4, k: nat, at: Option<Pc>) {
    var early := at.Some? && at.value in {Poll, CheckRx, Switch};
    var late := at.Some? && at.value in {Fill, Transmit, EndWait};
    && Accounted(s)
    && !(s.rxMsg && s.rxStart)
    && s.pc == (match k case 0 => Poll case 1 => CheckRx case 2 => Switch case 3 => Fill case 4 => Transmit case 5 => EndWait case _ => Poll)
    && s.state == (if k < 6 then Complete else Waiting)
    && (at.Some? ==> early || (late && k >= 3))
    && s.dma == at.None? && s.swallowed == m.swallowed
    && s.unseen == (k < 3 || (late && k < 6))
    && s.lost == m.lost + One(early || (late && k >= 6))
    && |s.sent| == |m.sent| + One(k >= 5)
  }

  lemma OverlapLoopStep(m: Cm4, s: Cm4, k: nat, at: Option<Pc>, messages: seq<bool>)
    requires AfterOverlap(m, s, k, at) && k < 6 && !TakenIn(messages)
    ensures AfterOverlap(m, LoopStep(s, messages), k + 1, at)
  {
    StepAccounted(s, Loop(messages));
  }

  lemma OverlapCallback(m: Cm4, s: Cm4, k: nat, at: Option<Pc>, data: seq<Byte>)
    requires AfterOverlap(m, s, k, at) && k < 6 && Enabled(s, DmaDone(data))
    ensures at == None && AfterOverlap(m, Apply(s, DmaDone(data)), k, Some(s.pc))
  {
    StepAccounted(s, DmaDone(data));
  }

  predicate NoRequest(steps: seq<Step>) {
    forall step | step in steps :: step.Loop? ==> !TakenIn(step.messages)
  }

  lemma OverlapWrite(m: Cm4, s: Cm4, k: nat, at: Option<Pc>, data: seq<Byte>)
    requires AfterOverlap(m, s, k, at)
    ensures AfterOverlap(m, s.(aRx := data), k, at)
  {
  }

  lemma OverlapStep(m: Cm4, s: Cm4, k: nat, at: Option<Pc>, step: Step)
    requires AfterOverlap(m, s, k, at) && k < 6 && Enabled(s, step) && !step.DmaFailed?
    requires step.Loop? ==> !TakenIn(step.messages)
    ensures AfterOverlap(m, Apply(s, step), k + One(step.Loop?), if at.None? && step.DmaDone? then Some(s.pc) else at)
  {
    match step
    case Loop(messages) => OverlapLoopStep(m, s, k, at, messages);
    case DmaWrites(data) => OverlapWrite(m, s, k, at, data);
    case DmaDone(data) => OverlapCallback(m, s, k, at, data);
  }

  lemma {:induction false} OverlapPrefix(m: Cm4, steps: seq<Step>)
    requires Overlapping(m) && Run(m, steps).Some? && NoFailure(steps) && NoRequest(steps) && Within(steps, 6)
    ensures AfterOverlap(m, Run(m, steps).value, LoopCount(steps), CallbackAt(m, steps))
  {
    if steps != [] {
      var n := |steps| - 1;
      assert forall step | step in steps[..n] :: step in steps;
      OverlapPrefix(m, steps[..n]);
      assert steps[n] in steps;
      OverlapStep(m, Run(m, steps[..n]).value, LoopCount(steps[..n]), CallbackAt(m, steps[..n]), steps[n]);
    }
  }

  /** Two transfers at once come back into order if and only if the second one completes
      after the first one was answered; otherwise one of the completions is lost. */
  lemma OverlapOutcome(m: Cm4, steps: seq<Step>)
    requires Overlapping(m) && Run(m, steps).Some? && NoFailure(steps) && NoRequest(steps)
    requires Within(steps, 6) && LoopCount(steps) == 6
    ensures var end := Run(m, steps).value;
      && Orderly(end) && |end.sent| == |m.sent| + 1 && end.swallowed == m.swallowed
      && end.lost == m.lost + One(CallbackAt(m, steps).Some?)
  {
    OverlapPrefix(m, steps);
  }

  // --------------------------------------------------- each of these outcomes occurs

  /** k steps of the loop without a message. */
  function Loops(k: nat): (steps: seq<Step>)
    ensures |steps| == k
  {
    seq(k, _ => Loop([]))
  }

  /** The loop left alone. */
  function LoopOn(m: Cm4, k: nat): Cm4 {
    if k == 0 then m else LoopStep(LoopOn(m, k - 1), [])
  }

  lemma OneMoreStep(m: Cm4, steps: seq<Step>, step: Step)
    requires Run(m, steps).Some? && Enabled(Run(m, steps).value, step)
    ensures Run(m, steps + [step]) == Some(Apply(Run(m, steps).value, step))
    ensures LoopCount(steps + [step]) == LoopCount(steps) + One(step.Loop?)
    ensures CallbackAt(m, steps + [step])
         == if CallbackAt(m, steps).None? && step.DmaDone? then Some(Run(m, steps).value.pc) else CallbackAt(m, steps)
  {
    assert (steps + [step])[..|steps|] == steps;
  }

  lemma {:induction false} LoopOnAfter(m: Cm4, steps: seq<Step>, k: nat)
    requires Run(m, steps).Some?
    ensures Run(m, steps + Loops(k)) == Some(LoopOn(Run(m, steps).value, k))
    ensures LoopCount(steps + Loops(k)) == LoopCount(steps) + k
    ensures CallbackAt(m, steps + Loops(k)) == CallbackAt(m, steps)
    decreases k
  {
    if k == 0 {
      assert steps + Loops(0) == steps;
    } else {
      LoopOnAfter(m, steps, k - 1);
      OneMoreStep(m, steps + Loops(k - 1), Loop([]));
      assert steps + Loops(k) == steps + Loops(k - 1) + [Loop([])];
    }
  }

  lemma LoopOnFour(m: Cm4)
    ensures LoopOn(m, 1) == LoopStep(m, [])
    ensures LoopOn(m, 2) == LoopStep(LoopStep(m, []), [])
    ensures LoopOn(m, 4) == LoopStep(LoopStep(LoopStep(LoopStep(m, []), []), []), [])
  {
    assert LoopOn(m, 3) == LoopStep(LoopOn(m, 2), []);
  }

  lemma LoopOnSix(m: Cm4)
    ensures var four := LoopStep(LoopStep(LoopStep(LoopStep(m, []), []), []), []);
      LoopOn(m, 6) == LoopStep(LoopStep(four, []), [])
  {
    LoopOnFour(m);
    assert LoopOn(m, 5) == LoopStep(LoopOn(m, 4), []);
  }

  /** The machine once a request at an idle loop has started its transfer. */
  function Started(m: Cm4): Cm4 {
    m.(state := Waiting, dma := true, rxMsg := false, rxStart := true, requests := m.requests + 1, starts := m.starts + 1)
  }

  lemma RequestLoops(m: Cm4)
    requires m.pc == Poll && !m.dma && !m.unseen
    ensures var taken := LoopStep(LoopStep(m, [true]), []);
      taken == m.(state := Requested, rxMsg := false, rxStart := true, requests := m.requests + 1, pc := Switch)
    ensures var taken := LoopStep(LoopStep(m, [true]), []);
      LoopStep(LoopStep(LoopStep(taken, []), []), []) == Started(m)
  {
    assert [true][..0] == [];
    assert Requests([true]) == 1 && Overwritten([true]) == 0;
  }

  lemma StartedIsOrderly(m: Cm4)
    requires Orderly(m) && m.pc == Poll && InProgress(m) == 0
    ensures Orderly(Started(m))
  {
  }

  lemma RequestStarts(m: Cm4)
    requires Orderly(m) && m.pc == Poll && InProgress(m) == 0
    ensures LoopOn(LoopStep(m, [true]), 4) == Started(m) && Orderly(Started(m))
  {
    LoopOnFour(LoopStep(m, [true]));
    RequestLoops(m);
    StartedIsOrderly(m);
  }

  /** The switch finds the completion. */
  lemma CompletionIsSeen(m: Cm4)
    requires m.pc == Poll && m.state == Complete && !m.rxMsg
    ensures LoopStep(LoopStep(LoopStep(m, []), []), []) == m.(pc := Fill, unseen := false)
  {
  }

  lemma AnswerFollows(m: Cm4, k: nat)
    requires m.pc == Fill && m.bufferCnt == k % 26 && !m.rxMsg && !m.unseen
    ensures var s := LoopStep(LoopStep(LoopStep(m, []), []), []);
      s.sent == m.sent + [(Letters(k), m.aRx)] && s.pc == Poll && InProgress(s) == One(m.dma)
  {
    PatternIsLetters(m.bufferCnt, k);
  }

  lemma CompletionIsAnswered(m: Cm4)
    requires m.pc == Poll && m.state == Complete && !m.rxMsg && m.bufferCnt == |m.sent| % 26
    ensures var s := LoopOn(m, 6);
      s.sent == m.sent + [(Letters(|m.sent|), m.aRx)] && s.pc == Poll && InProgress(s) == One(m.dma)
  {
    var seen := m.(pc := Fill, unseen := false);
    CompletionIsSeen(m);
    AnswerFollows(seen, |m.sent|);
    LoopOnSix(m);
  }

  /** An answer that is made while the next transfer is running carries whatever that one has
      written into aRxBuffer so far. */
  lemma OverlapTearsBytes(m: Cm4, partial: seq<Byte>)
    requires Overlapping(m)
    ensures Enabled(m, DmaWrites(partial))
    ensures var s := LoopOn(Apply(m, DmaWrites(partial)), 6);
      s.sent == m.sent + [(Letters(|m.sent|), partial)] && s.pc == Poll && InProgress(s) == 1
  {
    CompletionIsAnswered(m.(aRx := partial));
  }

  /** A loop with nothing to do comes back to its poll unchanged. */
  lemma IdleLoopPolls(m: Cm4)
    requires m.pc == Poll && m.state == Waiting && !m.rxMsg
    ensures LoopOn(m, 3) == m
  {
    LoopOnFour(m);
  }

  /** A whole round, from an idle loop: a request, the four steps that start its transfer, its
      completion, and the six steps that answer it. The answer is the next letter and the
      received bytes, and the loop is idle again. */
  lemma OneRound(m: Cm4, data: seq<Byte>)
    requires Orderly(m) && m.pc == Poll && InProgress(m) == 0
    ensures var running := LoopOn(LoopStep(m, [true]), 4);
      && Enabled(running, DmaDone(data))
      && var end := LoopOn(Apply(running, DmaDone(data)), 6);
        && end.sent == m.sent + [(Letters(|m.sent|), data)]
        && end.pc == Poll && InProgress(end) == 0
  {
    RequestStarts(m);
    var running := LoopOn(LoopStep(m, [true]), 4);
    StepAccounted(running, DmaDone(data));
    CompletionIsAnswered(Apply(running, DmaDone(data)));
  }

  /** From power-on: a request, and the four steps that start its transfer. */
  const FIRST_REQUEST: seq<Step> := [Loop([true])] + Loops(4)

  /** Early requests occur: after the first request its transfer is under way, the loop is in
      order, and a second request is early. Once that transfer has completed without the
      loop having looked, it still is. */
  lemma EarlyRequestsOccur(start: Cm4, data: seq<Byte>)
    requires IsStart(start)
    ensures Run(start, FIRST_REQUEST).Some? && Run(start, FIRST_REQUEST + [DmaDone(data)]).Some?
    ensures var m := Run(start, FIRST_REQUEST).value;
      Orderly(m) && m.dma && Early(m, Loop([true]))
    ensures var m := Run(start, FIRST_REQUEST + [DmaDone(data)]).value;
      Orderly(m) && !m.dma && Early(m, Loop([true]))
  {
    var first := [Loop([true])];
    assert Run(start, []) == Some(start) && Orderly(start);
    OneMoreStep(start, [], Loop([true]));
    assert [] + first == first;
    LoopOnAfter(start, first, 4);
    RequestStarts(start);
    OneMoreStep(start, FIRST_REQUEST, DmaDone(data));
    StepKeepsOrder(Run(start, FIRST_REQUEST).value, DmaDone(data));
  }

  /** Four loop steps with the completion after k of them; without one for k == 4. */
  function Course(k: nat, data: seq<Byte>): seq<Step>
    requires k <= 4
  {
    if k == 4 then [] + Loops(4) else [] + Loops(k) + [DmaDone(data)] + Loops(4 - k)
  }

  /** The place of the callback in a course. */
  function PlaceOf(k: nat): Option<Pc>
    requires k <= 4
  {
    match k
    case 0 => Some(CheckRx)
    case 1 => Some(Switch)
    case 2 => Some(BeginWait)
    case 3 => Some(StartDma)
    case 4 => None
  }

  lemma PlaceBefore(m: Cm4, s: Cm4, k: nat)
    requires AfterEarly(m, s, k, None) && m.dma && k < 4
    ensures s.dma && s.pc != Halted && Some(s.pc) == PlaceOf(k)
  {
  }

  lemma OnlyLoops(k: nat)
    ensures NoFailure([] + Loops(k))
  {
    forall step | step in [] + Loops(k) ensures !step.DmaFailed? {
      assert step in Loops(k);
    }
  }

  /** The loop after k steps of an early request's round, before the completion. */
  lemma BeforeCallback(m: Cm4, request: Step, steps: seq<Step>, k: nat)
    requires Orderly(m) && Early(m, request) && m.dma && k < 4 && steps == [] + Loops(k)
    ensures var first := Apply(m, request);
      && Run(first, steps).Some? && NoFailure(steps) && CallbackAt(first, steps) == None && LoopCount(steps) == k
      && var s := Run(first, steps).value;
        s.dma && s.pc != Halted && Some(s.pc) == PlaceOf(k)
  {
    var first := Apply(m, request);
    LoopOnAfter(first, [], k);
    OnlyLoops(k);
    EarlyPrefix(m, request, steps);
    PlaceBefore(m, Run(first, steps).value, k);
  }

  lemma CourseRuns(m: Cm4, request: Step, k: nat, data: seq<Byte>)
    requires Orderly(m) && Early(m, request) && m.dma && k <= 4
    ensures var (first, steps) := (Apply(m, request), Course(k, data));
      && Run(first, steps).Some? && NoFailure(steps) && Within(steps, 4) && LoopCount(steps) == 4
      && CallbackAt(first, steps) == PlaceOf(k)
  {
    var first := Apply(m, request);
    if k == 4 {
      LoopOnAfter(first, [], 4);
    } else {
      var before := [] + Loops(k);
      BeforeCallback(m, request, before, k);
      CallbackBetween(first, before, DmaDone(data), 4 - k);
    }
  }

  /** Steps of the loop after any others. */
  lemma ThenLoops(steps: seq<Step>, k: nat)
    requires NoFailure(steps) && k > 0
    ensures NoFailure(steps + Loops(k))
    ensures steps + Loops(k) != [] && (steps + Loops(k))[|steps + Loops(k)| - 1].Loop?
  {
    assert (steps + Loops(k))[|steps + Loops(k)| - 1] == Loops(k)[k - 1];
    forall step | step in steps + Loops(k) ensures !step.DmaFailed? {
      assert step in steps || step in Loops(k);
    }
  }

  /** A callback and then more steps of the loop. */
  lemma CallbackBetween(m: Cm4, before: seq<Step>, callback: Step, k: nat)
    requires Run(m, before).Some? && CallbackAt(m, before) == None && NoFailure(before)
    requires callback.DmaDone? && Enabled(Run(m, before).value, callback) && k > 0
    ensures var steps := before + [callback] + Loops(k);
      && Run(m, steps).Some? && NoFailure(steps) && LoopCount(steps) == LoopCount(before) + k
      && Within(steps, LoopCount(before) + k)
      && CallbackAt(m, steps) == Some(Run(m, before).value.pc)
  {
    var mid := before + [callback];
    OneMoreStep(m, before, callback);
    LoopOnAfter(m, mid, k);
    ThenLoops(mid, k);
  }

  /** In every such state each of the five outcomes occurs, on the course with the completion
      at its place. */
  lemma EveryOutcomeOccurs(m: Cm4, request: Step, k: nat, data: seq<Byte>)
    requires Orderly(m) && Early(m, request) && m.dma && k <= 4
    ensures Run(Apply(m, request), Course(k, data)).Some?
    ensures var end := Run(Apply(m, request), Course(k, data)).value;
      && (end.pc == Halted <==> k == 4)
      && end.lost == m.lost + One(k == 0 || k == 2)
      && end.swallowed == m.swallowed + One(k == 1)
      && (Overlapping(end) <==> k == 3)
  {
    CourseRuns(m, request, k, data);
    EarlyRequestOutcome(m, request, Course(k, data));
  }

  /** A request is dropped right after power-on, with nothing else in progress. */
  lemma DropOccurs(start: Cm4)
    requires IsStart(start)
    ensures var m := Apply(start, Loop([true, false])); m.dropped == 1 && InProgress(m) == 0 && Orderly(m)
  {
    assert [true, false][..1] == [true] && [true][..0] == [];
    assert Requests([true]) == 1 && Requests([true, false]) == 1;
    StepKeepsOrder(start, Loop([true, false]));
  }

  /** Both ways of an overlap occur: the second transfer completes at once, or not yet. */
  lemma BothOverlapsOccur(m: Cm4, data: seq<Byte>)
    requires Overlapping(m)
    ensures var steps := [] + Loops(6);
      && Run(m, steps).Some? && NoFailure(steps) && NoRequest(steps) && Within(steps, 6) && LoopCount(steps) == 6
      && CallbackAt(m, steps) == None
    ensures var steps := [DmaDone(data)] + Loops(6);
      && Run(m, steps).Some? && NoFailure(steps) && NoRequest(steps) && Within(steps, 6) && LoopCount(steps) == 6
      && CallbackAt(m, steps) == Some(Poll)
  {
    assert Run(m, []) == Some(m);
    LoopOnAfter(m, [], 6);
    OneMoreStep(m, [], DmaDone(data));
    assert [] + [DmaDone(data)] == [DmaDone(data)];
    LoopOnAfter(m, [DmaDone(data)], 6);
  }

  // ------------------------------------------------------------- the buffers in memory

  /** The two steps that copy the letter into every byte of wBufferVal. */
  method SpreadLetter(letter: Byte) returns (wBufferVal: Word)
    ensures wBufferVal == BufferVal(letter)
  {
    wBufferVal := letter;
    wBufferVal := Spread(wBufferVal, 0x100);
    wBufferVal := Spread(wBufferVal, 0x1_0000);
  }

  /** The byte that memset writes for a letter. */
  method FillByte(letter: Byte) returns (low: Byte)
    ensures low == letter
  {
    var wBufferVal := SpreadLetter(letter);
    low := LowByte(wBufferVal);
    BufferValIsLetter(letter);
  }

  /** Fills aTxBuffer with the letter of the count and moves the count on. */
  method FillBuffer(bufferCnt: Byte, aTxBuffer: array<Byte>) returns (next: Byte)
    requires aTxBuffer.Length == SIZE && bufferCnt < 26
    modifies aTxBuffer
    ensures aTxBuffer[..] == Letters(bufferCnt) && next == (bufferCnt + 1) % 26
    ensures CarriesLetters(aTxBuffer[..], bufferCnt)
  {
    var low := FillByte(LETTER_A + bufferCnt);
    forall i | 0 <= i < SIZE {
      aTxBuffer[i] := low;
    }
    next := bufferCnt + 1;
    if next >= 26 {
      next := 0;
    }
  }

  /** The case TRANSFER_COMPLETE up to the transmission: fills aTxBuffer and packs both
      buffers for sending. */
  method FillAndPack(bufferCnt: Byte, aTxBuffer: array<Byte>, aRxBuffer: array<Byte>, channel: array<Byte>) returns (next: Byte)
    requires aTxBuffer.Length == SIZE && aRxBuffer.Length == SIZE && channel.Length >= 2 * SIZE
    requires aTxBuffer != aRxBuffer && aTxBuffer != channel && aRxBuffer != channel
    requires bufferCnt < 26
    modifies aTxBuffer, channel
    ensures aTxBuffer[..] == Letters(bufferCnt) && next == (bufferCnt + 1) % 26
    ensures channel[..] == Letters(bufferCnt) + aRxBuffer[..] + old(channel[2 * SIZE..])
  {
    next := FillBuffer(bufferCnt, aTxBuffer);
    forall i | 0 <= i < SIZE {
      channel[i] := aTxBuffer[i];
    }
    forall i | 0 <= i < SIZE {
      channel[SIZE + i] := aRxBuffer[i];
    }
    assert channel[..SIZE] == aTxBuffer[..];
    assert channel[SIZE..2 * SIZE] == aRxBuffer[..];
    assert channel[2 * SIZE..] == old(channel[2 * SIZE..]);
  }
}
