/** Sessions of the shared-buffer driver, as a state machine whose steps are the driver's
    calls: what a session allocates, announces, signals and frees.

    A size_t and a dma_addr_t are 32 bits wide. What the kernel decides (copies from and to
    user space, allocations, mappings, the content of fresh memory) are parameters of the
    steps. */
module SdbSession {
  import opened Common
  import opened Words
  import opened SdbText

  const PAGE_SIZE: nat := 4096

  /** The marker -1 in a writing size: no data reported. */
  const NO_DATA: Word := 0xFFFF_FFFF

  /** A live DMA allocation. */
  type Block = nat

  /** A virtual address: not yet set by the driver, NULL after a failed allocation, or an
      allocation. */
  datatype Vaddr = Unset | Null | At(block: Block)

  /** An entry of the buffer list. */
  datatype Buf = Buf(index: int, size: Word, writingSize: Word, vaddr: Vaddr, paddr: Word, efd: int)

  /** What a fresh list entry holds in the fields that the driver does not set. */
  datatype Junk = Junk(size: Word, writingSize: Word, paddr: Word)

  /** An eventfd signal: for which entry, with which writing size and buffer size. */
  datatype Signal = Signal(index: int, efd: int, writingSize: Word, size: Word)

  /** What an announcement to the coprocessor says. */
  datatype Announcement = Announcement(index: int, paddr: Word, size: Word)

  /** A received message, as the decoder sees it. */
  datatype Message = Empty | Decoded(content: Result<(int, Word)>)

  /** The driver, with an account of what it did: live allocations, calls of the free
      routine on an address that was never set, signals, and announcements to the
      coprocessor. The list is ready once its head is initialised, by the first open. */
  datatype Driver = Driver(
    ready: bool,
    buffers: seq<Buf>,
    lastBufferId: int,
    live: set<Block>,
    badFrees: nat,
    signals: seq<Signal>,
    announced: seq<Announcement>)

  datatype Outcome = Success | Failure(error: Error)

  datatype Op =
    | Open
    | Close
    | SetEfd(efd: int, junk: Junk, copied: bool)
    | Mmap(vsize: Word, device: bool, alloc: Option<(Block, Word)>, remapped: bool)
    | Receive(message: Message)
    | GetDataSize(id: int, userSize: Word, copiedIn: bool, copiedOut: bool)

  /** PAGE_ALIGN */
  function PageAlign(v: Word): Word {
    ToWord(v + (PAGE_SIZE - 1)) / PAGE_SIZE * PAGE_SIZE
  }

  /** The least multiple of 4096 bytes that holds a mapping of vsize bytes. */
  predicate IsPageAligned(size: Word, vsize: Word) {
    vsize <= size < vsize + 4096 && size % 4096 == 0
  }

  /** PAGE_ALIGN rounds up to a page, except that the last page of the address space wraps
      to 0. */
  lemma PageAlignRoundsUp(v: Word)
    ensures v <= 0xFFFF_F000 ==> IsPageAligned(PageAlign(v), v)
    ensures v > 0xFFFF_F000 ==> PageAlign(v) == 0
  {
    if v <= 0xFFFF_F000 {
      ToWordSmall(v + 4095);
      PagesOf(v + 4095);
    } else {
      ToWordOverflows(v + 4095);
      PagesOf(v + 4095 - 0x1_0000_0000);
    }
  }

  lemma PagesOf(x: nat)
    ensures x - 4095 <= x / 4096 * 4096 <= x && x / 4096 * 4096 % 4096 == 0
    ensures x < 4096 ==> x / 4096 * 4096 == 0
  {
  }

  // ------------------------------------------------------------------ the driver's calls

  /** RPMSG_SDB_IOCTL_SET_EFD */
  function DoSetEfd(d: Driver, efd: int, junk: Junk, copied: bool): (Driver, Outcome) {
    var idx := if d.buffers != [] then d.buffers[|d.buffers| - 1].index + 1 else 0;
    if !copied then (d, Failure(EFAULT))
    else (d.(buffers := d.buffers + [Buf(idx, junk.size, junk.writingSize, Unset, junk.paddr, efd)]), Success)
  }

  /** The last entry once rpmsg_sdb_mmap has tried to allocate its buffer. */
  function Filled(b: Buf, size: Word, alloc: Option<(Block, Word)>): Buf {
    match alloc
    case None => b.(size := size, writingSize := NO_DATA, vaddr := Null)
    case Some((block, paddr)) => b.(size := size, writingSize := NO_DATA, vaddr := At(block), paddr := paddr)
  }

  function FilledLast(d: Driver, size: Word, alloc: Option<(Block, Word)>): Driver
    requires d.buffers != []
  {
    var n := |d.buffers| - 1;
    d.(buffers := d.buffers[n := Filled(d.buffers[n], size, alloc)],
       live := if alloc.Some? then d.live + {alloc.value.0} else d.live)
  }

  /** The last entry's buffer is announced, and the mapping is counted. */
  function Counted(d: Driver): Driver
    requires d.buffers != []
  {
    var b := d.buffers[|d.buffers| - 1];
    d.(announced := d.announced + [Announcement(b.index, b.paddr, b.size)], lastBufferId := d.lastBufferId + 1)
  }

  /** The rest of rpmsg_sdb_mmap, once there is an entry and its buffer's size is known. */
  function MapLast(d: Driver, size: Word, alloc: Option<(Block, Word)>, remapped: bool): (Driver, Outcome)
    requires d.buffers != []
  {
    var d' := FilledLast(d, size, alloc);
    if alloc.None? then (d', Failure(ENOMEM))
    else if !remapped then (d', Failure(EAGAIN))
    else (Counted(d'), Success)
  }

  /** rpmsg_sdb_mmap, for the last entry of the list */
  function DoMmap(d: Driver, vsize: Word, device: bool, alloc: Option<(Block, Word)>, remapped: bool): (Driver, Outcome) {
    if !device then (d, Failure(ENOMEM))
    else if d.buffers == [] then (d, Failure(EINVAL))
    else MapLast(d, PageAlign(vsize), alloc, remapped)
  }

  /** The position of the first entry with an index, or the length of the list. */
  function Find(buffers: seq<Buf>, id: int): (k: nat)
    ensures k <= |buffers|
    ensures k < |buffers| ==> buffers[k].index == id
    ensures forall j: nat | j < k :: buffers[j].index != id
  {
    if buffers == [] || buffers[0].index == id then 0 else 1 + Find(buffers[1..], id)
  }

  /** rpmsg_sdb_drv_cb, once the message is decoded. The size is stored before it is
      compared with the buffer's. */
  function Deliver(d: Driver, id: int, size: Word): (Driver, Outcome) {
    if id > d.lastBufferId then (d, Failure(EINVAL))
    else
      var k := Find(d.buffers, id);
      if k == |d.buffers| then (d, Success)
      else
        var b := d.buffers[k].(writingSize := size);
        var d' := d.(buffers := d.buffers[k := b]);
        if size > b.size then (d', Failure(EINVAL))
        else (d'.(signals := d.signals + [Signal(id, b.efd, size, b.size)]), Success)
  }

  /** rpmsg_sdb_drv_cb */
  function DoReceive(d: Driver, message: Message): (Driver, Outcome) {
    match message
    case Empty => (d, Failure(EINVAL))
    case Decoded(Err(e)) => (d, Failure(e))
    case Decoded(Ok((id, size))) => Deliver(d, id, size)
  }

  /** RPMSG_SDB_IOCTL_GET_DATA_SIZE: also the size handed to user space. An id that is not
      in the list leaves the search at the last entry: the size is the caller's own, and it
      is the last entry that is reset. */
  function DoGetDataSize(d: Driver, id: int, userSize: Word, copiedIn: bool, copiedOut: bool): (Driver, Outcome, Word)
    requires d.buffers != []
  {
    if !copiedIn then (d, Failure(EFAULT), userSize)
    else
      var k := Find(d.buffers, id);
      var target := if k < |d.buffers| then k else |d.buffers| - 1;
      var size := if k < |d.buffers| then d.buffers[k].writingSize else userSize;
      if !copiedOut then (d, Failure(EFAULT), size)
      else (d.(buffers := d.buffers[target := d.buffers[target].(writingSize := NO_DATA)]), Success, size)
  }

  /** dma_free_wc of an entry's address: it ignores NULL. */
  function Free(d: Driver, vaddr: Vaddr): Driver {
    match vaddr
    case Null => d
    case Unset => d.(badFrees := d.badFrees + 1)
    case At(block) => if block in d.live then d.(live := d.live - {block}) else d.(badFrees := d.badFrees + 1)
  }

  /** The loop of rpmsg_sdb_close: one free for every entry. */
  function FreeAll(d: Driver, buffers: seq<Buf>): Driver
    decreases |buffers|
  {
    if buffers == [] then d else FreeAll(Free(d, buffers[0].vaddr), buffers[1..])
  }

  /** rpmsg_sdb_open: an empty list, whatever was in it. */
  function DoOpen(d: Driver): Driver {
    d.(ready := true, buffers := [])
  }

  /** rpmsg_sdb_close */
  function DoClose(d: Driver): Driver {
    FreeAll(d, d.buffers).(buffers := [], lastBufferId := 0)
  }

  const START: Driver := Driver(false, [], 0, {}, 0, [], [])

  /** A message that makes the driver walk the list. */
  predicate WalksList(d: Driver, message: Message) {
    message.Decoded? && message.content.Ok? && message.content.value.0 <= d.lastBufferId
  }

  /** What the driver's environment guarantees: calls come through an open file, an
      allocation is new, a data size is asked for once there is an entry, and no message
      makes the driver walk the list before the first open. */
  predicate Legal(d: Driver, op: Op) {
    match op
    case Open => true
    case Close => d.ready
    case SetEfd(_, _, _) => d.ready
    case Mmap(_, _, alloc, _) => d.ready && (alloc.Some? ==> alloc.value.0 !in d.live)
    case Receive(message) => d.ready || !WalksList(d, message)
    case GetDataSize(_, _, _, _) => d.ready && d.buffers != []
  }

  function Apply(d: Driver, op: Op): Driver
    requires Legal(d, op)
  {
    match op
    case Open => DoOpen(d)
    case Close => DoClose(d)
    case SetEfd(efd, junk, copied) => DoSetEfd(d, efd, junk, copied).0
    case Mmap(vsize, device, alloc, remapped) => DoMmap(d, vsize, device, alloc, remapped).0
    case Receive(message) => DoReceive(d, message).0
    case GetDataSize(id, userSize, copiedIn, copiedOut) => DoGetDataSize(d, id, userSize, copiedIn, copiedOut).0
  }

  /** The driver after a sequence of calls, if each is legal in its turn. */
  function Run(d: Driver, ops: seq<Op>): Option<Driver> {
    if ops == [] then Some(d)
    else
      var n := |ops| - 1;
      match Run(d, ops[..n])
      case None => None
      case Some(mid) => if Legal(mid, ops[n]) then Some(Apply(mid, ops[n])) else None
  }

  // ------------------------------------------------------- the list is an array

  /** Entry i of the list has index i. */
  predicate Indexed(d: Driver) {
    forall i: nat | i < |d.buffers| :: d.buffers[i].index == i
  }

  /** A call that leaves the list's entries in place. */
  predicate KeepsEntries(op: Op) {
    !op.Open? && !op.Close?
  }

  lemma ApplyKeepsIndexed(d: Driver, op: Op)
    requires Indexed(d) && Legal(d, op)
    ensures Indexed(Apply(d, op)) && (KeepsEntries(op) ==> |Apply(d, op).buffers| >= |d.buffers|)
  {
  }

  lemma {:induction false} RunKeepsIndexed(d: Driver, ops: seq<Op>)
    requires Indexed(d) && Run(d, ops).Some?
    ensures Indexed(Run(d, ops).value)
    ensures (forall op | op in ops :: KeepsEntries(op)) ==> |Run(d, ops).value.buffers| >= |d.buffers|
  {
    if ops != [] {
      var n := |ops| - 1;
      RunKeepsIndexed(d, ops[..n]);
      ApplyKeepsIndexed(Run(d, ops[..n]).value, ops[n]);
    }
  }

  /** Searching the list for an id is indexing with it. */
  lemma SearchIsIndexing(d: Driver, id: int)
    requires Indexed(d)
    ensures Find(d.buffers, id) == if 0 <= id < |d.buffers| then id else |d.buffers|
  {
    if 0 <= id < |d.buffers| {
      assert d.buffers[id].index == id;
    }
  }

  /** A message touches exactly the entry it names, and signals exactly when its size fits
      that entry's buffer; a message that names no entry changes nothing. */
  lemma DeliveryIsExact(d: Driver, id: int, size: Word)
    requires Indexed(d)
    ensures var (d', r) := Deliver(d, id, size);
      var found := 0 <= id < |d.buffers| && id <= d.lastBufferId;
      && (!found ==> d' == d && r == if id > d.lastBufferId then Failure(EINVAL) else Success)
      && (found ==> d'.buffers == d.buffers[id := d.buffers[id].(writingSize := size)])
      && (found && size <= d.buffers[id].size ==>
            r == Success && d'.signals == d.signals + [Signal(id, d.buffers[id].efd, size, d.buffers[id].size)])
      && (found && size > d.buffers[id].size ==> r == Failure(EINVAL) && d'.signals == d.signals)
      && d'.live == d.live && d'.badFrees == d.badFrees && d'.lastBufferId == d.lastBufferId
  {
  }

  // -------------------------------------------------- conservation of DMA allocations

  /** What a caller knows of an entry: no mmap has tried to allocate its buffer, the last
      try failed, or it has its buffer. */
  datatype Status = Untried | Failed | Mapped

  /** How a call changes the statuses of the list. Only an mmap that reaches the allocation
      matters. */
  function StatusesAfter(statuses: seq<Status>, op: Op): seq<Status> {
    match op
    case Open => []
    case Close => []
    case SetEfd(_, _, copied) => if copied then statuses + [Untried] else statuses
    case Mmap(_, device, alloc, _) =>
      if !device || statuses == [] then statuses
      else statuses[|statuses| - 1 := if alloc.Some? then Mapped else Failed]
    case _ => statuses
  }

  function Statuses(ops: seq<Op>): seq<Status> {
    if ops == [] then [] else StatusesAfter(Statuses(ops[..|ops| - 1]), ops[|ops| - 1])
  }

  /** The calls that do harm: an mmap for an entry that has its buffer, an open while an
      entry has its buffer, and a close while an entry was never tried. */
  predicate Harms(statuses: seq<Status>, op: Op) {
    match op
    case Open => Mapped in statuses
    case Close => Untried in statuses
    case Mmap(_, device, _, _) => device && statuses != [] && statuses[|statuses| - 1] == Mapped
    case _ => false
  }

  /** No call of the sequence does harm. */
  predicate Careful(ops: seq<Op>) {
    ops != [] ==> Careful(ops[..|ops| - 1]) && !Harms(Statuses(ops[..|ops| - 1]), ops[|ops| - 1])
  }

  /** The allocations that a list holds. */
  function Held(buffers: seq<Buf>): set<Block> {
    set b | b in buffers && b.vaddr.At? :: b.vaddr.block
  }

  lemma HeldAt(buffers: seq<Buf>, i: nat)
    requires i < |buffers| && buffers[i].vaddr.At?
    ensures buffers[i].vaddr.block in Held(buffers)
  {
    assert buffers[i] in buffers;
  }

  /** No two entries hold the same allocation. */
  predicate Distinct(buffers: seq<Buf>) {
    forall i: nat, j: nat | i < j < |buffers| :: buffers[i].vaddr.At? ==> buffers[i].vaddr != buffers[j].vaddr
  }

  function StatusOf(v: Vaddr): Status {
    match v
    case Unset => Untried
    case Null => Failed
    case At(_) => Mapped
  }

  /** The statuses describe the list, and the list holds allocations made since the earlier
      ones, each once. */
  predicate Tracks(statuses: seq<Status>, d: Driver, earlier: set<Block>) {
    && |statuses| == |d.buffers|
    && (forall i: nat | i < |d.buffers| :: statuses[i] == StatusOf(d.buffers[i].vaddr))
    && Distinct(d.buffers)
    && earlier <= d.live
    && Held(d.buffers) <= d.live - earlier
  }

  /** List entries and the allocations made since the earlier ones correspond one to one,
      and nothing was freed wrongly. */
  predicate Clean(d: Driver, earlier: set<Block>, badFrees: nat) {
    d.live == earlier + Held(d.buffers) && d.badFrees == badFrees
  }

  /** Replacing an address that holds no allocation. */
  lemma HeldOfLast(buffers: seq<Buf>, b: Buf)
    requires buffers != [] && !buffers[|buffers| - 1].vaddr.At?
    ensures Held(buffers[|buffers| - 1 := b]) == Held(buffers) + if b.vaddr.At? then {b.vaddr.block} else {}
  {
    var n := |buffers| - 1;
    var after := buffers[n := b];
    forall v | v in Held(buffers) ensures v in Held(after) {
      var i: nat :| i < |buffers| && buffers[i].vaddr == At(v);
      HeldAt(after, i);
    }
    if b.vaddr.At? {
      HeldAt(after, n);
    }
  }

  /** Replacing an address that holds one. */
  lemma HeldWithoutLast(buffers: seq<Buf>, b: Buf)
    requires buffers != [] && buffers[|buffers| - 1].vaddr.At? && Distinct(buffers)
    ensures var v := buffers[|buffers| - 1].vaddr.block;
      Held(buffers[|buffers| - 1 := b]) == (Held(buffers) - {v}) + if b.vaddr.At? then {b.vaddr.block} else {}
  {
    var n := |buffers| - 1;
    var v, after := buffers[n].vaddr.block, buffers[n := b];
    forall w | w in Held(buffers) - {v} ensures w in Held(after) {
      var i: nat :| i < |buffers| && buffers[i].vaddr == At(w);
      HeldAt(after, i);
    }
    forall w | w in Held(after) ensures w in Held(buffers) - {v} || b.vaddr == At(w) {
      var i: nat :| i < |after| && after[i].vaddr == At(w);
      if i < n {
        HeldAt(buffers, i);
      }
    }
    if b.vaddr.At? {
      HeldAt(after, n);
    }
  }

  lemma HeldOfSamePointers(before: seq<Buf>, after: seq<Buf>)
    requires |before| == |after| && forall i: nat | i < |before| :: before[i].vaddr == after[i].vaddr
    ensures Held(before) == Held(after)
  {
    forall v | v in Held(before) ensures v in Held(after) {
      var i: nat :| i < |before| && before[i].vaddr == At(v);
      HeldAt(after, i);
    }
    forall v | v in Held(after) ensures v in Held(before) {
      var i: nat :| i < |after| && after[i].vaddr == At(v);
      HeldAt(before, i);
    }
  }

  /** What every call of a run does to the account. */
  predicate StepAccounts(statuses: seq<Status>, d: Driver, op: Op, d': Driver, earlier: set<Block>, badFrees: nat) {
    && Tracks(StatusesAfter(statuses, op), d', earlier)
    && d'.badFrees >= d.badFrees
    && (Clean(d', earlier, badFrees) <==> Clean(d, earlier, badFrees) && !Harms(statuses, op))
  }

  lemma SetEfdAccounts(statuses: seq<Status>, d: Driver, op: Op, earlier: set<Block>, badFrees: nat)
    requires Tracks(statuses, d, earlier) && op.SetEfd?
    ensures StepAccounts(statuses, d, op, DoSetEfd(d, op.efd, op.junk, op.copied).0, earlier, badFrees)
  {
    var d' := DoSetEfd(d, op.efd, op.junk, op.copied).0;
    if op.copied {
      forall v | v in Held(d.buffers) ensures v in Held(d'.buffers) {
        var i: nat :| i < |d.buffers| && d.buffers[i].vaddr == At(v);
        HeldAt(d'.buffers, i);
      }
      assert Held(d'.buffers) == Held(d.buffers);
    }
  }

  /** The mmap that reaches the allocation, for an entry with and without a buffer. */
  lemma FillAccounts(statuses: seq<Status>, d: Driver, size: Word, alloc: Option<(Block, Word)>, d': Driver, earlier: set<Block>, badFrees: nat)
    requires Tracks(statuses, d, earlier) && d.buffers != [] && (alloc.Some? ==> alloc.value.0 !in d.live)
    requires d'.buffers == FilledLast(d, size, alloc).buffers && d'.live == FilledLast(d, size, alloc).live
    requires d'.badFrees == d.badFrees
    ensures var n := |statuses| - 1;
      && Tracks(statuses[n := if alloc.Some? then Mapped else Failed], d', earlier)
      && (Clean(d', earlier, badFrees) <==> Clean(d, earlier, badFrees) && statuses[n] != Mapped)
  {
    var n := |d.buffers| - 1;
    var b := Filled(d.buffers[n], size, alloc);
    if d.buffers[n].vaddr.At? {
      var v := d.buffers[n].vaddr.block;
      HeldAt(d.buffers, n);
      HeldWithoutLast(d.buffers, b);
      assert v in d'.live - earlier && v !in Held(d'.buffers);
    } else {
      HeldOfLast(d.buffers, b);
    }
    forall i: nat, j: nat | i < j < |d'.buffers| && d'.buffers[i].vaddr.At?
      ensures d'.buffers[i].vaddr != d'.buffers[j].vaddr
    {
      HeldAt(d.buffers, i);
    }
  }

  lemma MmapAccounts(statuses: seq<Status>, d: Driver, op: Op, earlier: set<Block>, badFrees: nat)
    requires Tracks(statuses, d, earlier) && op.Mmap? && Legal(d, op)
    ensures StepAccounts(statuses, d, op, Apply(d, op), earlier, badFrees)
  {
    if op.device && d.buffers != [] {
      FillAccounts(statuses, d, PageAlign(op.vsize), op.alloc, Apply(d, op), earlier, badFrees);
    }
  }

  /** Messages and data size requests leave every pointer alone. */
  lemma OthersAccount(statuses: seq<Status>, d: Driver, op: Op, earlier: set<Block>, badFrees: nat)
    requires Tracks(statuses, d, earlier) && (op.Receive? || op.GetDataSize?) && Legal(d, op)
    ensures StepAccounts(statuses, d, op, Apply(d, op), earlier, badFrees)
  {
    var d' := Apply(d, op);
    assert |d'.buffers| == |d.buffers| && d'.live == d.live && d'.badFrees == d.badFrees;
    assert forall i: nat | i < |d.buffers| :: d'.buffers[i].vaddr == d.buffers[i].vaddr;
    HeldOfSamePointers(d.buffers, d'.buffers);
  }

  lemma OpenAccounts(statuses: seq<Status>, d: Driver, earlier: set<Block>, badFrees: nat)
    requires Tracks(statuses, d, earlier)
    ensures StepAccounts(statuses, d, Open, DoOpen(d), earlier, badFrees)
  {
    if Mapped in statuses {
      var i: nat :| i < |statuses| && statuses[i] == Mapped;
      HeldAt(d.buffers, i);
    } else {
      assert Held(d.buffers) == {};
    }
  }

  function CountUntried(buffers: seq<Buf>): nat {
    if buffers == [] then 0 else One(buffers[0].vaddr.Unset?) + CountUntried(buffers[1..])
  }

  lemma {:induction false} NoneUntried(buffers: seq<Buf>)
    ensures CountUntried(buffers) == 0 <==> (forall i: nat | i < |buffers| :: !buffers[i].vaddr.Unset?)
    decreases |buffers|
  {
    if buffers != [] {
      NoneUntried(buffers[1..]);
      assert forall i: nat | 0 < i < |buffers| :: buffers[i] == buffers[1..][i - 1];
    }
  }

  /** Freeing a list that holds live allocations, each once, frees exactly those; each
      address that was never set makes one wrong free. */
  lemma {:induction false} FreeAllExactly(d: Driver, buffers: seq<Buf>)
    requires Distinct(buffers) && Held(buffers) <= d.live
    ensures FreeAll(d, buffers)
         == d.(live := d.live - Held(buffers), badFrees := d.badFrees + CountUntried(buffers))
    decreases |buffers|
  {
    if buffers != [] {
      var d', rest := Free(d, buffers[0].vaddr), buffers[1..];
      HeldOfRest(buffers);
      FreeAllExactly(d', rest);
      assert FreeAll(d, buffers).live == d.live - Held(buffers);
    }
  }

  /** Freeing does not depend on the list field itself. */
  lemma {:induction false} FreeIgnoresList(d: Driver, buffers: seq<Buf>, list: seq<Buf>)
    ensures FreeAll(d.(buffers := list), buffers) == FreeAll(d, buffers).(buffers := list)
    decreases |buffers|
  {
    if buffers != [] {
      FreeIgnoresList(Free(d, buffers[0].vaddr), buffers[1..], list);
    }
  }

  lemma HeldOfRest(buffers: seq<Buf>)
    requires buffers != [] && Distinct(buffers)
    ensures Distinct(buffers[1..])
    ensures var v, rest := buffers[0].vaddr, Held(buffers[1..]);
      && Held(buffers) == rest + (if v.At? then {v.block} else {})
      && (v.At? ==> v.block !in rest)
  {
    assert buffers == [buffers[0]] + buffers[1..];
  }

  lemma CloseAccounts(statuses: seq<Status>, d: Driver, earlier: set<Block>, badFrees: nat)
    requires Tracks(statuses, d, earlier) && badFrees <= d.badFrees
    ensures StepAccounts(statuses, d, Close, DoClose(d), earlier, badFrees)
  {
    FreeAllExactly(d, d.buffers);
    NoneUntried(d.buffers);
    assert Held([]) == {};
    assert Untried in statuses <==> !(forall i: nat | i < |statuses| :: statuses[i] != Untried);
  }

  /** Over every sequence of opens, calls and closes: the statuses describe the list, and
      entries and live allocations correspond one to one, nothing having been freed wrongly,
      exactly as long as no call has done harm. */
  lemma {:induction false} RunAccounts(d: Driver, ops: seq<Op>)
    requires d.buffers == [] && Run(d, ops).Some?
    ensures Tracks(Statuses(ops), Run(d, ops).value, d.live)
    ensures Clean(Run(d, ops).value, d.live, d.badFrees) <==> Careful(ops)
    ensures Run(d, ops).value.badFrees >= d.badFrees
  {
    if ops == [] {
      assert Held(d.buffers) == {};
    } else {
      var n := |ops| - 1;
      RunAccounts(d, ops[..n]);
      var statuses, mid := Statuses(ops[..n]), Run(d, ops[..n]).value;
      match ops[n] {
        case Open => OpenAccounts(statuses, mid, d.live, d.badFrees);
        case Close => CloseAccounts(statuses, mid, d.live, d.badFrees);
        case SetEfd(_, _, _) => SetEfdAccounts(statuses, mid, ops[n], d.live, d.badFrees);
        case Mmap(_, _, _, _) => MmapAccounts(statuses, mid, ops[n], d.live, d.badFrees);
        case _ => OthersAccount(statuses, mid, ops[n], d.live, d.badFrees);
      }
    }
  }

  /** Over any number of sessions: after a close nothing allocated is left, each allocation
      was freed exactly once, and nothing else was freed, if and only if no call did harm.
      The driver is back in its empty state in any case. */
  lemma SessionsConserve(d: Driver, ops: seq<Op>)
    requires d.buffers == [] && Run(d, ops).Some? && ops != [] && ops[|ops| - 1] == Close
    ensures var d' := Run(d, ops).value;
      && d'.buffers == [] && d'.lastBufferId == 0
      && (d'.live == d.live && d'.badFrees == d.badFrees <==> Careful(ops))
      && d.live <= d'.live && d.badFrees <= d'.badFrees
  {
    RunAccounts(d, ops);
    assert Held([]) == {};
  }

  /** The same for a close that follows any calls. */
  lemma CloseConserves(d: Driver, ops: seq<Op>)
    requires d.buffers == [] && Run(d, ops).Some? && Run(d, ops).value.ready
    ensures var closed := DoClose(Run(d, ops).value);
      && closed.buffers == []
      && (closed.live == d.live && closed.badFrees == d.badFrees <==> Careful(ops) && Untried !in Statuses(ops))
  {
    assert (ops + [Close])[..|ops|] == ops;
    SessionsConserve(d, ops + [Close]);
  }

  /** Whether some mmap reaches the allocation and gets a block. */
  predicate Allocates(ops: seq<Op>) {
    ops != [] &&
      var n := |ops| - 1;
      || Allocates(ops[..n])
      || (ops[n].Mmap? && ops[n].device && ops[n].alloc.Some? && Statuses(ops[..n]) != [])
  }

  lemma LiveStep(d: Driver, op: Op)
    requires Legal(d, op) && KeepsEntries(op)
    ensures Apply(d, op).live
         == d.live + if op.Mmap? && op.device && op.alloc.Some? && d.buffers != [] then {op.alloc.value.0} else {}
  {
  }

  lemma {:induction false} LiveGrows(d: Driver, ops: seq<Op>)
    requires d.buffers == [] && Run(d, ops).Some? && (forall op | op in ops :: KeepsEntries(op))
    ensures d.live <= Run(d, ops).value.live
    ensures Run(d, ops).value.live == d.live <==> !Allocates(ops)
  {
    if ops != [] {
      var n := |ops| - 1;
      LiveGrows(d, ops[..n]);
      RunAccounts(d, ops[..n]);
      assert KeepsEntries(ops[n]);
      LiveStep(Run(d, ops[..n]).value, ops[n]);
    }
  }

  /** A second open in the middle of a session, and then a close, leave an allocation behind
      if and only if the session made one. */
  lemma SecondOpenLeaks(d: Driver, ops: seq<Op>)
    requires d.buffers == [] && Run(d, ops).Some? && (forall op | op in ops :: KeepsEntries(op))
    ensures DoClose(DoOpen(Run(d, ops).value)).live == d.live <==> !Allocates(ops)
  {
    LiveGrows(d, ops);
  }

  // ------------------------------------------------------------ the LastBufferId filter

  /** The outcome of every mmap. It succeeds if and only if there are a device and an entry
      and the buffer could be allocated and mapped. A mapping that fails leaves the last
      entry its new buffer, to be freed at the close, without announcing or counting it. */
  lemma MmapOutcome(d: Driver, vsize: Word, device: bool, alloc: Option<(Block, Word)>, remapped: bool)
    ensures var (d', r) := DoMmap(d, vsize, device, alloc, remapped);
      && (r == Success <==> device && d.buffers != [] && alloc.Some? && remapped)
      && (!device ==> r == Failure(ENOMEM) && d' == d)
      && (device && d.buffers == [] ==> r == Failure(EINVAL) && d' == d)
      && (device && d.buffers != [] ==>
            var n := |d.buffers| - 1;
            var (b, b') := (d.buffers[n], d'.buffers[n]);
            && d'.buffers == d.buffers[n := b'] && d'.badFrees == d.badFrees && d'.signals == d.signals
            && b'.index == b.index && b'.efd == b.efd && b'.writingSize == 0xFFFF_FFFF
            && (vsize <= 0xFFFF_F000 ==> IsPageAligned(b'.size, vsize))
            && (alloc.None? ==> r == Failure(ENOMEM) && b'.vaddr == Null && d'.live == d.live)
            && (alloc.Some? ==>
                  && b'.vaddr == At(alloc.value.0) && b'.paddr == alloc.value.1
                  && d'.live == d.live + {alloc.value.0}
                  && (!remapped ==> r == Failure(EAGAIN)))
            && d'.lastBufferId == d.lastBufferId + One(r == Success)
            && d'.announced == d.announced + if r == Success then [Announcement(b'.index, b'.paddr, b'.size)] else [])
  {
    PageAlignRoundsUp(vsize);
  }

  /** The outcomes of the other calls: an error leaves the driver as it was, except that an
      oversized message is stored. */
  lemma OtherOutcomes(
      d: Driver, efd: int, junk: Junk, message: Message, id: int, userSize: Word, copiedIn: bool, copiedOut: bool)
    requires Indexed(d) && d.buffers != []
    ensures var (d', r) := DoSetEfd(d, efd, junk, copiedIn);
      && (r == if copiedIn then Success else Failure(EFAULT)) && (!copiedIn ==> d' == d)
      && (copiedIn ==>
            && |d'.buffers| == |d.buffers| + 1 && d'.buffers[..|d.buffers|] == d.buffers
            && d'.buffers[|d.buffers|].index == |d.buffers| && d'.buffers[|d.buffers|].efd == efd)
    ensures var (d', r, size) := DoGetDataSize(d, id, userSize, copiedIn, copiedOut);
      (r == if copiedIn && copiedOut then Success else Failure(EFAULT)) && (r != Success ==> d' == d)
    ensures var (d', r) := DoReceive(d, message);
      && (message.Empty? ==> r == Failure(EINVAL) && d' == d)
      && (message.Decoded? && message.content.Err? ==> r == Failure(message.content.error) && d' == d)
  {
  }

  /** How many mmap calls since the last close returned 0. */
  function MapCount(d: Driver, ops: seq<Op>): nat
    requires Run(d, ops).Some?
  {
    if ops == [] then 0
    else
      var n := |ops| - 1;
      match ops[n]
      case Close => 0
      case Mmap(_, device, alloc, remapped) =>
        MapCount(d, ops[..n]) + One(device && Run(d, ops[..n]).value.buffers != [] && alloc.Some? && remapped)
      case _ => MapCount(d, ops[..n])
  }

  lemma LastBufferIdStep(d: Driver, op: Op)
    requires Legal(d, op)
    ensures Apply(d, op).lastBufferId
         == match op
            case Close => 0
            case Mmap(_, device, alloc, remapped) =>
              d.lastBufferId + One(device && d.buffers != [] && alloc.Some? && remapped)
            case _ => d.lastBufferId
  {
  }

  /** LastBufferId counts the mappings since the last close that succeeded. */
  lemma {:induction false} LastBufferIdCounts(d: Driver, ops: seq<Op>)
    requires d.buffers == [] && d.lastBufferId == 0 && Run(d, ops).Some?
    ensures Run(d, ops).value.lastBufferId == MapCount(d, ops)
  {
    if ops != [] {
      var n := |ops| - 1;
      LastBufferIdCounts(d, ops[..n]);
      LastBufferIdStep(Run(d, ops[..n]).value, ops[n]);
    }
  }

  /** Every buffer that was allocated could be mapped. */
  predicate RemapsSucceed(ops: seq<Op>) {
    ops != [] ==>
      var n := |ops| - 1;
      && RemapsSucceed(ops[..n])
      && (ops[n].Mmap? && ops[n].device && ops[n].alloc.Some? && Statuses(ops[..n]) != [] ==> ops[n].remapped)
  }

  function CountMapped(statuses: seq<Status>): nat {
    if statuses == [] then 0
    else CountMapped(statuses[..|statuses| - 1]) + One(statuses[|statuses| - 1] == Mapped)
  }

  lemma {:induction false} NoneMapped(statuses: seq<Status>)
    requires Mapped !in statuses
    ensures CountMapped(statuses) == 0
  {
    if statuses != [] {
      NoneMapped(statuses[..|statuses| - 1]);
    }
  }

  /** How a harmless call moves the number of mapped entries. */
  lemma CountMappedStep(statuses: seq<Status>, op: Op)
    requires !Harms(statuses, op)
    ensures CountMapped(StatusesAfter(statuses, op))
         == if op.Close? then 0
            else CountMapped(statuses) + One(op.Mmap? && op.device && op.alloc.Some? && statuses != [])
  {
    match op {
      case Open => NoneMapped(statuses);
      case SetEfd(_, _, copied) => assert (statuses + [Untried])[..|statuses|] == statuses;
      case Mmap(_, device, alloc, _) =>
        if device && statuses != [] {
          var n := |statuses| - 1;
          assert StatusesAfter(statuses, op)[..n] == statuses[..n];
        }
      case _ =>
    }
  }

  /** While no call does harm and every allocated buffer could be mapped, LastBufferId is
      the number of entries that have their buffer. */
  lemma {:induction false} LastBufferIdIsMapped(d: Driver, ops: seq<Op>)
    requires d.buffers == [] && d.lastBufferId == 0 && Run(d, ops).Some?
    requires Careful(ops) && RemapsSucceed(ops)
    ensures Run(d, ops).value.lastBufferId == CountMapped(Statuses(ops))
  {
    if ops != [] {
      var n := |ops| - 1;
      LastBufferIdIsMapped(d, ops[..n]);
      RunAccounts(d, ops[..n]);
      LastBufferIdStep(Run(d, ops[..n]).value, ops[n]);
      CountMappedStep(Statuses(ops[..n]), ops[n]);
    }
  }

  /** The filter lets an id through. */
  predicate Passes(d: Driver, id: int) {
    id <= d.lastBufferId
  }

  /** The filter lets every id of the list through if and only if at most one entry is
      without its buffer. */
  lemma FilterAcceptsTheList(d: Driver, ops: seq<Op>)
    requires d.buffers == [] && d.lastBufferId == 0 && Run(d, ops).Some?
    requires Careful(ops) && RemapsSucceed(ops)
    ensures var end := Run(d, ops).value;
      (forall id: nat | id < |end.buffers| :: Passes(end, id)) <==> |Statuses(ops)| <= CountMapped(Statuses(ops)) + 1
  {
    LastBufferIdIsMapped(d, ops);
    RunAccounts(d, ops);
    var end := Run(d, ops).value;
    if end.buffers != [] {
      var last: nat := |end.buffers| - 1;
      assert Passes(end, last) <==> |Statuses(ops)| <= CountMapped(Statuses(ops)) + 1;
    }
  }

  lemma MessageIsStored(d: Driver, id: int, size: Word)
    requires Indexed(d) && (forall id: nat | id < |d.buffers| :: Passes(d, id))
    ensures Deliver(d, id, size).0.buffers
         == if 0 <= id < |d.buffers| then d.buffers[id := d.buffers[id].(writingSize := size)] else d.buffers
  {
    if 0 <= id < |d.buffers| {
      assert Passes(d, id);
    }
    DeliveryIsExact(d, id, size);
  }

  /** Under that discipline a message is stored exactly when its id is in the list. */
  lemma MessagesReachTheList(d: Driver, ops: seq<Op>, id: int, size: Word)
    requires d.buffers == [] && d.lastBufferId == 0 && Run(d, ops).Some?
    requires Careful(ops) && RemapsSucceed(ops) && |Statuses(ops)| <= CountMapped(Statuses(ops)) + 1
    ensures var end := Run(d, ops).value;
      Deliver(end, id, size).0.buffers
        == if 0 <= id < |end.buffers| then end.buffers[id := end.buffers[id].(writingSize := size)] else end.buffers
  {
    FilterAcceptsTheList(d, ops);
    RunKeepsIndexed(d, ops);
    MessageIsStored(Run(d, ops).value, id, size);
  }

  // -------------------------------------------------------------- delivery of data sizes

  /** What a call that keeps the entries stores as the writing size of one of them, if it
      touches it. */
  function Stores(d: Driver, op: Op, id: nat): Option<Word>
    requires id < |d.buffers| && KeepsEntries(op)
  {
    match op
    case SetEfd(_, _, _) => None
    case Mmap(_, device, _, _) => if device && id == |d.buffers| - 1 then Some(NO_DATA) else None
    case Receive(Decoded(Ok((named, size)))) => if named == id && id <= d.lastBufferId then Some(size) else None
    case Receive(_) => None
    case GetDataSize(named, _, copiedIn, copiedOut) =>
      if copiedIn && copiedOut && (named == id || (!(0 <= named < |d.buffers|) && id == |d.buffers| - 1)) then Some(NO_DATA)
      else None
  }

  /** Every call changes the writing sizes that Stores names and no others, and keeps the
      index and the eventfd of every entry. */
  lemma WritingSizesOf(d: Driver, op: Op, id: nat)
    requires Indexed(d) && Legal(d, op) && KeepsEntries(op) && id < |d.buffers|
    ensures |Apply(d, op).buffers| >= |d.buffers|
    ensures var (b, b', w) := (d.buffers[id], Apply(d, op).buffers[id], Stores(d, op, id));
      b'.writingSize == (if w.Some? then w.value else b.writingSize) && b'.index == b.index && b'.efd == b.efd
  {
    match op {
      case Receive(Decoded(Ok((named, size)))) => SearchIsIndexing(d, named);
      case GetDataSize(named, _, _, _) => SearchIsIndexing(d, named);
      case _ =>
    }
  }

  /** A message or a data size request for an entry leaves all other entries as they are. */
  lemma OtherEntriesUntouched(d: Driver, op: Op, id: nat, other: nat)
    requires Indexed(d) && Legal(d, op) && id < |d.buffers| && other < |d.buffers| && other != id
    requires (op.GetDataSize? && op.id == id) || (op.Receive? && op.message.Decoded? && op.message.content.Ok? && op.message.content.value.0 == id)
    ensures Apply(d, op).buffers[other] == d.buffers[other]
  {
    SearchIsIndexing(d, id);
  }

  /** A sequence of calls that keeps the entries and stores, for one of them, at most the
      given writing size. */
  predicate StoresAtMost(d: Driver, ops: seq<Op>, id: nat, w: Word)
    requires Indexed(d) && id < |d.buffers| && Run(d, ops).Some?
  {
    && (forall op | op in ops :: KeepsEntries(op))
    && (ops != [] ==>
          var n := |ops| - 1;
          RunKeepsIndexed(d, ops[..n]);
          StoresAtMost(d, ops[..n], id, w) && Stores(Run(d, ops[..n]).value, ops[n], id) in {None, Some(w)})
  }

  /** An entry's writing size survives every run that stores nothing else for it. */
  lemma {:induction false} SizeSurvives(d: Driver, ops: seq<Op>, id: nat)
    requires Indexed(d) && id < |d.buffers| && Run(d, ops).Some? && StoresAtMost(d, ops, id, d.buffers[id].writingSize)
    ensures id < |Run(d, ops).value.buffers| && Run(d, ops).value.buffers[id].writingSize == d.buffers[id].writingSize
  {
    RunKeepsIndexed(d, ops);
    if ops != [] {
      var n := |ops| - 1;
      RunKeepsIndexed(d, ops[..n]);
      SizeSurvives(d, ops[..n], id);
      WritingSizesOf(Run(d, ops[..n]).value, ops[n], id);
    }
  }

  /** A data size request for an entry answers its writing size and leaves the marker. */
  lemma RequestAnswers(d: Driver, id: nat, userSize: Word)
    requires Indexed(d) && id < |d.buffers|
    ensures var (got, r, answer) := DoGetDataSize(d, id, userSize, true, true);
      && r == Success && answer == d.buffers[id].writingSize
      && Indexed(got) && |got.buffers| == |d.buffers| && got.buffers[id].writingSize == NO_DATA
  {
    SearchIsIndexing(d, id);
  }

  /** The delivery contract. A message that fits its entry's buffer is signalled. As long as
      nothing else is stored for the entry, the next data size request returns exactly its
      size. From then on every request, however many come, returns the marker, until a call
      stores another size. */
  lemma SizeIsDelivered(d: Driver, id: nat, size: Word, between: seq<Op>, later: seq<Op>, userSize: Word)
    requires Indexed(d) && id < |d.buffers| && id <= d.lastBufferId && size <= d.buffers[id].size
    requires var sent := Deliver(d, id, size).0;
      Indexed(sent) && id < |sent.buffers| && Run(sent, between).Some? && StoresAtMost(sent, between, id, size)
    requires var asked := Run(Deliver(d, id, size).0, between).value;
      asked.buffers != [] &&
      var got := DoGetDataSize(asked, id, userSize, true, true).0;
      Indexed(got) && id < |got.buffers| && Run(got, later).Some? && StoresAtMost(got, later, id, NO_DATA)
    ensures var asked := Run(Deliver(d, id, size).0, between).value;
      var (got, r, answer) := DoGetDataSize(asked, id, userSize, true, true);
      && Deliver(d, id, size).0.signals == d.signals + [Signal(id, d.buffers[id].efd, size, d.buffers[id].size)]
      && r == Success && answer == size
      && Run(got, later).value.buffers != []
      && DoGetDataSize(Run(got, later).value, id, userSize, true, true).2 == 0xFFFF_FFFF
  {
    DeliveryIsExact(d, id, size);
    var sent := Deliver(d, id, size).0;
    SizeSurvives(sent, between, id);
    RunKeepsIndexed(sent, between);
    var asked := Run(sent, between).value;
    RequestAnswers(asked, id, userSize);
    var got := DoGetDataSize(asked, id, userSize, true, true).0;
    SizeSurvives(got, later, id);
    RunKeepsIndexed(got, later);
    RequestAnswers(Run(got, later).value, id, userSize);
  }

  /** A call of the session that is not a message for the entry. */
  predicate NoMessageFor(op: Op, id: int) {
    && KeepsEntries(op)
    && (op.Receive? && op.message.Decoded? && op.message.content.Ok? ==> op.message.content.value.0 != id)
  }

  /** Until the next message for the entry nothing but the marker is stored for it, however
      many data size requests come. */
  lemma {:induction false} OnlyMessagesStoreSizes(d: Driver, ops: seq<Op>, id: nat)
    requires Indexed(d) && id < |d.buffers| && Run(d, ops).Some?
    requires forall op | op in ops :: NoMessageFor(op, id)
    ensures StoresAtMost(d, ops, id, NO_DATA)
  {
    assert forall op | op in ops :: KeepsEntries(op);
    if ops != [] {
      var n := |ops| - 1;
      assert forall op | op in ops[..n] :: KeepsEntries(op);
      RunKeepsIndexed(d, ops[..n]);
      OnlyMessagesStoreSizes(d, ops[..n], id);
      assert NoMessageFor(ops[n], id);
      assert Stores(Run(d, ops[..n]).value, ops[n], id) in {None, Some(NO_DATA)};
    }
  }

  /** Over every run each signal was raised with a writing size that fits its buffer. */
  predicate SignalsFit(d: Driver) {
    forall i: nat | i < |d.signals| :: d.signals[i].writingSize <= d.signals[i].size
  }

  lemma {:induction false} FreeSignalsNothing(d: Driver, buffers: seq<Buf>)
    ensures FreeAll(d, buffers).signals == d.signals
    decreases |buffers|
  {
    if buffers != [] {
      FreeSignalsNothing(Free(d, buffers[0].vaddr), buffers[1..]);
    }
  }

  lemma {:induction false} SignalsAlwaysFit(d: Driver, ops: seq<Op>)
    requires SignalsFit(d) && Run(d, ops).Some?
    ensures SignalsFit(Run(d, ops).value)
  {
    if ops != [] {
      var n := |ops| - 1;
      SignalsAlwaysFit(d, ops[..n]);
      var mid := Run(d, ops[..n]).value;
      FreeSignalsNothing(mid, mid.buffers);
    }
  }

  // ------------------------------------------------ behaviour worth knowing about

  /** An oversized message is not signalled, and yet its size is what the next data size
      request returns. */
  lemma OversizedIsStored(d: Driver, id: nat, size: Word, userSize: Word)
    requires Indexed(d) && id < |d.buffers| && id <= d.lastBufferId && size > d.buffers[id].size
    ensures var (d', r) := Deliver(d, id, size);
      && r == Failure(EINVAL) && d'.signals == d.signals
      && d'.buffers != [] && DoGetDataSize(d', id, userSize, true, true).2 == size
  {
    DeliveryIsExact(d, id, size);
    SearchIsIndexing(d, id);
    var d' := Deliver(d, id, size).0;
    SearchIsIndexing(d', id);
  }

  /** Asking for an id that is not in the list loses the report of the last entry. */
  lemma UnknownIdResetsLast(d: Driver, id: int, userSize: Word)
    requires Indexed(d) && d.buffers != [] && !(0 <= id < |d.buffers|)
    ensures var (d', r, answer) := DoGetDataSize(d, id, userSize, true, true);
      var n := |d.buffers| - 1;
      r == Success && answer == userSize && d'.buffers == d.buffers[n := d.buffers[n].(writingSize := NO_DATA)]
  {
  }
}
