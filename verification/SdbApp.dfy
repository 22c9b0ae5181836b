/** The user-space application around the driver: it sets the buffers up and writes what
    arrives to a file. */
module SdbApp {
  import opened Common
  import opened Words
  import opened SdbText
  import opened SdbSession
  import SdbDriver
  import SdbCoprocessor

  // --------------------------------------------------------------- the file writer

  const CHUNK: nat := 4096

  /** The bytes of several chunks in a row. */
  function Join<T>(chunks: seq<seq<T>>): seq<T> {
    if chunks == [] then [] else Join(chunks[..|chunks| - 1]) + chunks[|chunks| - 1]
  }

  /** What a write of a chunk gets into the file when it falls short by some bytes. */
  function Written<T>(chunk: seq<T>, short: nat): seq<T> {
    if short <= |chunk| then chunk[..|chunk| - short] else []
  }

  function AllWritten<T>(chunks: seq<seq<T>>, short: nat -> nat): seq<T> {
    if chunks == [] then []
    else
      var n := |chunks| - 1;
      AllWritten(chunks[..n], short) + Written(chunks[n], short(n))
  }

  /** Some chunk was not written in full. */
  predicate SomeShort<T>(chunks: seq<seq<T>>, short: nat -> nat) {
    exists k: nat | k < |chunks| :: |Written(chunks[k], short(k))| < |chunks[k]|
  }

  lemma ShortInPrefix<T>(chunks: seq<seq<T>>, short: nat -> nat, n: nat)
    requires |chunks| == n + 1
    ensures SomeShort(chunks, short) <==> SomeShort(chunks[..n], short) || |Written(chunks[n], short(n))| < |chunks[n]|
  {
    if SomeShort(chunks[..n], short) {
      var k: nat :| k < n && |Written(chunks[..n][k], short(k))| < |chunks[..n][k]|;
      assert |Written(chunks[k], short(k))| < |chunks[k]|;
    }
    if SomeShort(chunks, short) {
      var k: nat :| k < |chunks| && |Written(chunks[k], short(k))| < |chunks[k]|;
      if k < n {
        assert |Written(chunks[..n][k], short(k))| < |chunks[..n][k]|;
      }
    }
  }

  lemma {:induction false} WrittenInFull<T>(chunks: seq<seq<T>>, short: nat -> nat)
    ensures |AllWritten(chunks, short)| <= |Join(chunks)|
    ensures |AllWritten(chunks, short)| == |Join(chunks)| <==> !SomeShort(chunks, short)
    ensures !SomeShort(chunks, short) ==> AllWritten(chunks, short) == Join(chunks)
  {
    if chunks != [] {
      var n := |chunks| - 1;
      WrittenInFull(chunks[..n], short);
      ShortInPrefix(chunks, short, n);
    }
  }

  /** The chunks handed to fwrite so far are the first index bytes of the data; all are full,
      except perhaps the last once the writer is done. */
  ghost predicate WrittenUpTo<T>(chunks: seq<seq<T>>, data: seq<T>, index: nat, done: bool, short: nat -> nat, file: seq<T>) {
    && index <= |data|
    && Join(chunks) == data[..index]
    && file == AllWritten(chunks, short)
    && (forall k: nat | k < |chunks| :: |chunks[k]| <= CHUNK)
    && (forall k: nat | k + One(done) < |chunks| :: |chunks[k]| == CHUNK)
  }

  lemma OneMoreWrite<T>(chunks: seq<seq<T>>, data: seq<T>, index: nat, short: nat -> nat, file: seq<T>, chunk: seq<T>, done: bool)
    requires WrittenUpTo(chunks, data, index, false, short, file)
    requires index + |chunk| <= |data| && chunk == data[index..index + |chunk|]
    requires |chunk| <= CHUNK && (done || |chunk| == CHUNK)
    ensures WrittenUpTo(chunks + [chunk], data, index + |chunk|, done, short, file + Written(chunk, short(|chunks|)))
  {
    AppendChunk(chunks, chunk, short);
    assert data[..index] + chunk == data[..index + |chunk|];
  }

  /** One fwrite. */
  method WriteChunk<T>(chunk: seq<T>, short: nat, file: seq<T>) returns (written: nat, file': seq<T>)
    ensures file' == file + Written(chunk, short) && written == |Written(chunk, short)|
  {
    var bytes := Written(chunk, short);
    written, file' := |bytes|, file + bytes;
  }

  /** write_raw_file: the k-th fwrite falls short by short(k) bytes, or by the whole chunk.
      The chunks cover the data in order and exactly once; the returned total is the size
      exactly when no chunk was short, and then the file has got the data. */
  method WriteRawFile<T>(data: seq<T>, size: int, short: nat -> nat)
    returns (writtenSize: int, chunks: seq<seq<T>>, file: seq<T>)
    requires 0 <= size <= INT_MAX && size <= |data|
    ensures Join(chunks) == data[..size]
    ensures forall k: nat | k < |chunks| :: |chunks[k]| <= 4096
    ensures forall k: nat | k + 1 < |chunks| :: |chunks[k]| == 4096
    ensures file == AllWritten(chunks, short)
    ensures writtenSize == |file| <= size
    ensures writtenSize == size <==> !SomeShort(chunks, short)
    ensures writtenSize == size ==> file == data[..size]
  {
    var rest2write := size;
    var index := 0;
    var size2write := CHUNK;
    writtenSize := 0;
    chunks, file := [], [];
    var again := true;
    while again
      invariant 0 <= index <= size && index + rest2write == size
      invariant if again then size2write == CHUNK else rest2write == 0
      invariant WrittenUpTo(chunks, data, index, !again, short, file) && writtenSize == |file|
      decreases again, rest2write
    {
      if rest2write < CHUNK {
        size2write := rest2write;
      }
      var chunk := data[index..index + size2write];
      OneMoreWrite(chunks, data, index, short, file, chunk, rest2write <= size2write);
      var written;
      written, file := WriteChunk(chunk, short(|chunks|), file);
      chunks := chunks + [chunk];
      writtenSize := writtenSize + written;
      rest2write := rest2write - size2write;
      index := index + size2write;
      again := rest2write > 0;
    }
    WrittenInFull(chunks, short);
  }

  lemma AppendChunk<T>(chunks: seq<seq<T>>, chunk: seq<T>, short: nat -> nat)
    ensures Join(chunks + [chunk]) == Join(chunks) + chunk
    ensures AllWritten(chunks + [chunk], short) == AllWritten(chunks, short) + Written(chunk, short(|chunks|))
  {
  }

  // --------------------------------------------------------- setting the buffers up

  /** What one round of the set-up loop is given: its eventfd, the fresh memory of the list
      entry, and the allocation that mmap gets. */
  datatype Slot = Slot(efd: int, junk: Junk, block: Block, paddr: Word)

  /** The entry that a round leaves behind. */
  function EntryOf(slot: Slot, index: nat, vsize: Word): Buf {
    Buf(index, PageAlign(vsize), NO_DATA, At(slot.block), slot.paddr, slot.efd)
  }

  function Entries(slots: seq<Slot>, vsize: Word): (entries: seq<Buf>)
    ensures |entries| == |slots|
    ensures forall i: nat | i < |slots| :: entries[i] == EntryOf(slots[i], i, vsize)
  {
    seq(|slots|, i requires 0 <= i < |slots| => EntryOf(slots[i], i, vsize))
  }

  function Announcements(slots: seq<Slot>, vsize: Word): seq<Announcement> {
    seq(|slots|, i requires 0 <= i < |slots| => Announcement(i, slots[i].paddr, PageAlign(vsize)))
  }

  function Blocks(slots: seq<Slot>): set<Block> {
    set s | s in slots :: s.block
  }

  /** The driver after the set-up loop has run over the slots. */
  function SetUpResult(d: SdbSession.Driver, slots: seq<Slot>, vsize: Word): SdbSession.Driver {
    d.(buffers := Entries(slots, vsize),
       lastBufferId := |slots|,
       live := d.live + Blocks(slots),
       announced := d.announced + Announcements(slots, vsize))
  }

  /** The two calls of a round. */
  function Round(slot: Slot, vsize: Word): seq<Op> {
    [SetEfd(slot.efd, slot.junk, true), Mmap(vsize, true, Some((slot.block, slot.paddr)), true)]
  }

  function Rounds(slots: seq<Slot>, vsize: Word): seq<Op> {
    if slots == [] then [] else Rounds(slots[..|slots| - 1], vsize) + Round(slots[|slots| - 1], vsize)
  }

  /** One more slot in the lists and sets. */
  lemma OneMoreSlot(slots: seq<Slot>, vsize: Word)
    requires slots != []
    ensures var n := |slots| - 1;
      && Entries(slots, vsize) == Entries(slots[..n], vsize) + [EntryOf(slots[n], n, vsize)]
      && Announcements(slots, vsize) == Announcements(slots[..n], vsize) + [Announcement(n, slots[n].paddr, PageAlign(vsize))]
      && Blocks(slots) == Blocks(slots[..n]) + {slots[n].block}
  {
    assert slots == slots[..|slots| - 1] + [slots[|slots| - 1]];
  }

  /** A round, for any list of entries before it. */
  lemma RoundOnEntries(d: SdbSession.Driver, slot: Slot, vsize: Word)
    requires Indexed(d)
    ensures var n := |d.buffers|;
      var mid := DoSetEfd(d, slot.efd, slot.junk, true).0;
      && |mid.buffers| == n + 1 && mid.buffers[n].index == n
      && DoMmap(mid, vsize, true, Some((slot.block, slot.paddr)), true)
        == (d.(buffers := d.buffers + [EntryOf(slot, n, vsize)],
               lastBufferId := d.lastBufferId + 1,
               live := d.live + {slot.block},
               announced := d.announced + [Announcement(n, slot.paddr, PageAlign(vsize))]), Success)
  {
    var n := |d.buffers|;
    var mid := DoSetEfd(d, slot.efd, slot.junk, true).0;
    assert mid.buffers[n := EntryOf(slot, n, vsize)] == d.buffers + [EntryOf(slot, n, vsize)];
  }

  /** One round of the set-up, on the driver's values. */
  lemma RoundResult(d: SdbSession.Driver, slots: seq<Slot>, vsize: Word)
    requires slots != []
    ensures var n := |slots| - 1;
      var mid := DoSetEfd(SetUpResult(d, slots[..n], vsize), slots[n].efd, slots[n].junk, true).0;
      && |mid.buffers| == n + 1 && mid.buffers[n].index == n
      && DoMmap(mid, vsize, true, Some((slots[n].block, slots[n].paddr)), true) == (SetUpResult(d, slots, vsize), Success)
  {
    var n := |slots| - 1;
    OneMoreSlot(slots, vsize);
    RoundOnEntries(SetUpResult(d, slots[..n], vsize), slots[n], vsize);
    assert d.announced + Announcements(slots, vsize)
        == d.announced + Announcements(slots[..n], vsize) + [Announcement(n, slots[n].paddr, PageAlign(vsize))];
    assert d.live + Blocks(slots) == d.live + Blocks(slots[..n]) + {slots[n].block};
  }

  function AllMapped(n: nat): (statuses: seq<Status>)
    ensures |statuses| == n
  {
    seq(n, _ => Mapped)
  }

  lemma OneMoreMapped(n: nat)
    ensures AllMapped(n) + [Mapped] == AllMapped(n + 1)
  {
  }

  /** One round after n mapped entries, whatever comes of its mmap. */
  lemma RoundIsHarmless(ops: seq<Op>, a: Op, b: Op, n: nat)
    requires Careful(ops) && Statuses(ops) == AllMapped(n)
    requires a.SetEfd? && a.copied && b.Mmap?
    ensures Careful(ops + [a, b])
    ensures Untried in Statuses(ops + [a, b]) <==> !b.device
    ensures Statuses(ops + [a, b]) == AllMapped(n) + [if !b.device then Untried else if b.alloc.Some? then Mapped else Failed]
    ensures RemapsSucceed(ops) && b.remapped ==> RemapsSucceed(ops + [a, b])
  {
    assert (ops + [a])[..|ops|] == ops;
    assert (ops + [a, b])[..|ops| + 1] == ops + [a];
    assert Statuses(ops + [a]) == AllMapped(n) + [Untried];
  }

  /** The set-up loop does no harm, keeps every mapping, and maps every entry. */
  lemma {:induction false} SetUpIsCareful(slots: seq<Slot>, vsize: Word)
    ensures Careful(Rounds(slots, vsize)) && RemapsSucceed(Rounds(slots, vsize))
    ensures Statuses(Rounds(slots, vsize)) == AllMapped(|slots|)
  {
    if slots != [] {
      var n := |slots| - 1;
      SetUpIsCareful(slots[..n], vsize);
      var ops, a, b := Rounds(slots[..n], vsize), Round(slots[n], vsize)[0], Round(slots[n], vsize)[1];
      assert Round(slots[n], vsize) == [a, b];
      RoundIsHarmless(ops, a, b, n);
      OneMoreMapped(n);
    }
  }

  /** The allocator hands out new blocks, each once. */
  predicate FreshBlocks(d: SdbSession.Driver, slots: seq<Slot>) {
    && (forall i: nat | i < |slots| :: slots[i].block !in d.live)
    && (forall i: nat, j: nat | i < j < |slots| :: slots[i].block != slots[j].block)
  }

  lemma LastBlockIsNew(d: SdbSession.Driver, slots: seq<Slot>)
    requires slots != [] && FreshBlocks(d, slots)
    ensures slots[|slots| - 1].block !in d.live + Blocks(slots[..|slots| - 1])
  {
  }

  lemma RoundApplies(d: SdbSession.Driver, slots: seq<Slot>, vsize: Word, a: Op, b: Op)
    requires slots != [] && FreshBlocks(d, slots) && d.ready
    requires a == Round(slots[|slots| - 1], vsize)[0] && b == Round(slots[|slots| - 1], vsize)[1]
    ensures var before := SetUpResult(d, slots[..|slots| - 1], vsize);
      Legal(before, a) && Legal(Apply(before, a), b) && Apply(Apply(before, a), b) == SetUpResult(d, slots, vsize)
  {
    LastBlockIsNew(d, slots);
    RoundResult(d, slots, vsize);
  }

  lemma RunTwoMore(d: SdbSession.Driver, ops: seq<Op>, a: Op, b: Op, before: SdbSession.Driver, after: SdbSession.Driver)
    requires Run(d, ops) == Some(before) && Legal(before, a) && Legal(Apply(before, a), b)
    requires Apply(Apply(before, a), b) == after
    ensures Run(d, ops + [a, b]) == Some(after)
  {
    RunOneMore(d, ops, a);
    RunOneMore(d, ops + [a], b);
    assert ops + [a, b] == ops + [a] + [b];
  }

  lemma RunOneMore(d: SdbSession.Driver, ops: seq<Op>, op: Op)
    requires Run(d, ops).Some? && Legal(Run(d, ops).value, op)
    ensures Run(d, ops + [op]) == Some(Apply(Run(d, ops).value, op))
  {
    assert (ops + [op])[..|ops|] == ops;
  }

  /** The set-up loop is a run of the session machine. */
  lemma {:induction false} SetUpIsRun(d: SdbSession.Driver, slots: seq<Slot>, vsize: Word)
    requires d.ready && d.buffers == [] && d.lastBufferId == 0 && FreshBlocks(d, slots)
    ensures Run(d, Rounds(slots, vsize)) == Some(SetUpResult(d, slots, vsize))
  {
    if slots == [] {
      NoSlots(d, vsize);
    } else {
      var before, last := slots[..|slots| - 1], slots[|slots| - 1];
      FreshPrefix(d, slots, before);
      SetUpIsRun(d, before, vsize);
      var a, b := Round(last, vsize)[0], Round(last, vsize)[1];
      RoundApplies(d, slots, vsize, a, b);
      RunTwoMore(d, Rounds(before, vsize), a, b, SetUpResult(d, before, vsize), SetUpResult(d, slots, vsize));
    }
  }

  lemma NoSlots(d: SdbSession.Driver, vsize: Word)
    requires d.buffers == [] && d.lastBufferId == 0
    ensures SetUpResult(d, [], vsize) == d
  {
  }

  lemma FreshPrefix(d: SdbSession.Driver, slots: seq<Slot>, before: seq<Slot>)
    requires FreshBlocks(d, slots) && before <= slots
    ensures FreshBlocks(d, before)
  {
  }

  /** Closing right after the set-up frees every block of it, each once, and no other. */
  lemma SetUpThenClose(d: SdbSession.Driver, slots: seq<Slot>, vsize: Word)
    requires d.ready && d.buffers == [] && d.lastBufferId == 0 && FreshBlocks(d, slots)
    ensures var closed := DoClose(SetUpResult(d, slots, vsize));
      closed.live == d.live && closed.badFrees == d.badFrees && closed.buffers == []
  {
    SetUpIsRun(d, slots, vsize);
    SetUpIsCareful(slots, vsize);
    CloseConserves(d, Rounds(slots, vsize));
  }

  lemma FurtherRoundRuns(d: SdbSession.Driver, ops: seq<Op>, before: SdbSession.Driver, a: Op, b: Op)
    requires Run(d, ops) == Some(before) && before.ready
    requires a.SetEfd? && b.Mmap? && (b.alloc.Some? ==> b.alloc.value.0 !in before.live)
    ensures Run(d, ops + [a, b]).Some? && Run(d, ops + [a, b]).value.ready
  {
    RunTwoMore(d, ops, a, b, before, Apply(Apply(before, a), b));
  }

  /** When the mmap of a further round fails the application exits, which closes the device.
      Whatever comes of that mmap, every block is freed once and no other, if and only if
      there is a device to allocate from. */
  lemma FailedSetUpThenClose(d: SdbSession.Driver, slots: seq<Slot>, vsize: Word, a: Op, b: Op)
    requires d.ready && d.buffers == [] && d.lastBufferId == 0 && FreshBlocks(d, slots)
    requires a.SetEfd? && a.copied && b.Mmap?
    requires b.alloc.Some? ==> b.alloc.value.0 !in SetUpResult(d, slots, vsize).live
    ensures var ops := Rounds(slots, vsize) + [a, b];
      Run(d, ops).Some? &&
      var closed := DoClose(Run(d, ops).value);
      closed.live == d.live && closed.badFrees == d.badFrees <==> b.device
  {
    var ops := Rounds(slots, vsize);
    SetUpIsRun(d, slots, vsize);
    SetUpIsCareful(slots, vsize);
    FurtherRoundRuns(d, ops, SetUpResult(d, slots, vsize), a, b);
    RoundIsHarmless(ops, a, b, |slots|);
    CloseConserves(d, ops + [a, b]);
  }

  /** The calls of any number of sessions of the application, for the buffers of each. */
  function SessionCalls(sessions: seq<seq<Slot>>, vsize: Word): seq<Op> {
    if sessions == [] then []
    else
      var n := |sessions| - 1;
      SessionCalls(sessions[..n], vsize) + [Open] + Rounds(sessions[n], vsize) + [Close]
  }

  lemma {:induction false} RunConcat(d: SdbSession.Driver, a: seq<Op>, b: seq<Op>)
    requires Run(d, a).Some? && Run(Run(d, a).value, b).Some?
    ensures Run(d, a + b) == Run(Run(d, a).value, b)
    decreases |b|
  {
    if b == [] {
      assert a + b == a;
    } else {
      var n := |b| - 1;
      RunConcat(d, a, b[..n]);
      assert (a + b)[..|a + b| - 1] == a + b[..n];
    }
  }

  /** One more session. */
  lemma SessionRuns(d: SdbSession.Driver, before: seq<Op>, mid: SdbSession.Driver, slots: seq<Slot>, vsize: Word)
    requires Run(d, before) == Some(mid) && mid.buffers == [] && mid.lastBufferId == 0 && FreshBlocks(mid, slots)
    ensures var ops := before + [Open] + Rounds(slots, vsize) + [Close];
      && Run(d, ops).Some?
      && var end := Run(d, ops).value;
        end.buffers == [] && end.lastBufferId == 0 && end.live == mid.live && end.badFrees == mid.badFrees
  {
    var session := DoOpen(mid);
    RunOneMore(d, before, Open);
    SetUpIsRun(session, slots, vsize);
    RunConcat(d, before + [Open], Rounds(slots, vsize));
    RunOneMore(d, before + [Open] + Rounds(slots, vsize), Close);
    SetUpThenClose(session, slots, vsize);
    CloseResets(SetUpResult(session, slots, vsize));
  }

  lemma CloseResets(d: SdbSession.Driver)
    ensures DoClose(d).buffers == [] && DoClose(d).lastBufferId == 0
  {
  }

  /** Each session gets different blocks; blocks may come back in later sessions. */
  predicate DifferentBlocks(slots: seq<Slot>) {
    forall i: nat, j: nat | i < j < |slots| :: slots[i].block != slots[j].block
  }

  /** From the start of the driver any number of sessions of the application runs, does no
      harm, and leaves nothing allocated and nothing freed wrongly. */
  lemma {:induction false} ApplicationSessionsConserve(sessions: seq<seq<Slot>>, vsize: Word)
    requires forall slots | slots in sessions :: DifferentBlocks(slots)
    ensures var ops := SessionCalls(sessions, vsize);
      && Run(START, ops).Some? && Careful(ops)
      && var end := Run(START, ops).value;
        end.live == {} && end.badFrees == 0 && end.buffers == [] && end.lastBufferId == 0
  {
    if sessions != [] {
      var n := |sessions| - 1;
      assert forall slots | slots in sessions[..n] :: slots in sessions;
      ApplicationSessionsConserve(sessions[..n], vsize);
      var before := SessionCalls(sessions[..n], vsize);
      assert sessions[n] in sessions;
      SessionRuns(START, before, Run(START, before).value, sessions[n], vsize);
      SessionsConserve(START, SessionCalls(sessions, vsize));
    }
  }

  /** A successful mmap in which every send succeeds and one message carries the text. */
  method MapAndAnnounce(driver: SdbDriver.Driver, slot: Slot, vsize: Word, msgSize: int) returns (text: string)
    requires driver.Valid() && driver.buffers != [] && msgSize >= 30
    requires IsInt(driver.View().buffers[|driver.buffers| - 1].index)
    modifies driver`lastBufferId, driver`live, driver`announced, driver.buffers
    ensures driver.Valid()
    ensures driver.View() == DoMmap(old(driver.View()), vsize, true, Some((slot.block, slot.paddr)), true).0
    ensures var b := driver.View().buffers[|driver.buffers| - 1]; text == BufferInfo(b.index, b.paddr, b.size)
  {
    MmapSucceeds(driver.View(), slot, vsize);
    var r, sent := driver.Mmap(vsize, true, Some((slot.block, slot.paddr)), true, msgSize, _ => 0);
    var b := driver.buffers[|driver.buffers| - 1];
    assert b.View() == driver.View().buffers[|driver.buffers| - 1];
    BufferInfoFits(b.index, b.paddr, b.size);
    OnePiece(driver.LastInfo(), msgSize, _ => 0, sent);
    text := sent[0];
  }

  lemma MmapSucceeds(d: SdbSession.Driver, slot: Slot, vsize: Word)
    requires d.buffers != []
    ensures DoMmap(d, vsize, true, Some((slot.block, slot.paddr)), true).1 == Success
  {
  }

  lemma OnePiece(text: string, msgSize: int, outcome: nat -> int, sent: seq<string>)
    requires SdbDriver.Announces(text, msgSize, outcome, sent)
    requires 0 < |text| <= msgSize && forall k: nat :: outcome(k) == 0
    ensures sent == [text]
  {
  }

  /** One round of the loop: SET_EFD and mmap, both successful. */
  method SetUpRound(driver: SdbDriver.Driver, ghost d0: SdbSession.Driver, slots: seq<Slot>, i: nat, vsize: Word, msgSize: int)
    returns (text: string)
    requires driver.Valid() && i < |slots| && i <= INT_MAX && msgSize >= 30
    requires driver.View() == SetUpResult(d0, slots[..i], vsize)
    modifies driver, driver.buffers
    ensures driver.Valid() && driver.View() == SetUpResult(d0, slots[..i + 1], vsize)
    ensures fresh(set e | e in driver.buffers && e !in old(driver.buffers))
    ensures text == BufferInfo(i, slots[i].paddr, PageAlign(vsize))
  {
    var slot := slots[i];
    RoundOfSlot(d0, slots, i, vsize);
    var r := driver.SetEfd(slot.efd, slot.junk, true);
    text := MapAndAnnounce(driver, slot, vsize, msgSize);
    assert driver.View().buffers[i] == EntryOf(slot, i, vsize);
  }

  /** The round of slot i, as one step of the set-up result. */
  lemma RoundOfSlot(d: SdbSession.Driver, slots: seq<Slot>, i: nat, vsize: Word)
    requires i < |slots|
    ensures var mid := DoSetEfd(SetUpResult(d, slots[..i], vsize), slots[i].efd, slots[i].junk, true).0;
      var after := SetUpResult(d, slots[..i + 1], vsize);
      && |mid.buffers| == i + 1 && mid.buffers[i].index == i
      && DoMmap(mid, vsize, true, Some((slots[i].block, slots[i].paddr)), true).0 == after
      && |after.buffers| == i + 1 && after.buffers[i] == EntryOf(slots[i], i, vsize)
  {
    assert slots[..i + 1][..i] == slots[..i] && slots[..i + 1][i] == slots[i];
    RoundResult(d, slots[..i + 1], vsize);
  }

  /** The coprocessor looks at announcement i before the next one overwrites it: it polls
      after it was sent, as it does after the last one in any case. */
  predicate Treated(polls: seq<bool>, i: nat)
    requires i < |polls|
  {
    polls[i] || i + 1 == |polls|
  }

  /** How many of the first i announcements the coprocessor has taken: it waits for each in
      turn, and takes numbers 0 to 3 only. */
  function Taken(polls: seq<bool>, i: nat): (n: nat)
    requires i <= |polls|
    ensures n <= i && n <= 4
  {
    if i == 0 then 0
    else
      var before := Taken(polls, i - 1);
      if before == i - 1 && i <= 4 && Treated(polls, i - 1) then i else before
  }

  /** The number of announcements that the coprocessor accepts at most. */
  function Acceptable(n: nat): nat {
    if n <= 4 then n else 4
  }

  /** All acceptable announcements are taken if and only if each of them is treated. */
  lemma {:induction false} TakenIffTreated(polls: seq<bool>, i: nat)
    requires i <= |polls|
    ensures Taken(polls, i) == Acceptable(i) <==> (forall k: nat | k < Acceptable(i) :: Treated(polls, k))
    decreases i
  {
    if i > 0 {
      TakenIffTreated(polls, i - 1);
    }
  }

  /** The first entries of the coprocessor's table. */
  function Places(slots: seq<Slot>, vsize: Word, n: nat): (places: seq<(Word, Word)>)
    requires n <= |slots|
    ensures |places| == n
  {
    seq(n, i requires 0 <= i < n => (slots[i].paddr, PageAlign(vsize)))
  }

  /** The state of the coprocessor when i slots are announced. */
  ghost predicate HasTaken(coprocessor: SdbCoprocessor.Coprocessor, slots: seq<Slot>, polls: seq<bool>, i: nat, vsize: Word)
    requires i <= |slots| == |polls|
    reads coprocessor, coprocessor.table
  {
    && coprocessor.Valid() && coprocessor.table.Length == |slots|
    && coprocessor.count == Taken(polls, i)
    && coprocessor.table[..coprocessor.count] == Places(slots, vsize, Taken(polls, i))
    && coprocessor.status == if 0 < |slots| == Taken(polls, i) then SdbCoprocessor.Idle else SdbCoprocessor.Init
  }

  /** A poll of the coprocessor that finds, last of all, the announcement of slot i. */
  method TakeAnnouncement(
      coprocessor: SdbCoprocessor.Coprocessor, slots: seq<Slot>, polls: seq<bool>, i: nat, vsize: Word, messages: seq<string>)
    requires i < |slots| == |polls| && HasTaken(coprocessor, slots, polls, i, vsize)
    requires messages != [] && messages[|messages| - 1] == BufferInfo(i, slots[i].paddr, PageAlign(vsize))
    requires Treated(polls, i) && i <= INT_MAX
    modifies coprocessor, coprocessor.table
    ensures HasTaken(coprocessor, slots, polls, i + 1, vsize)
  {
    AnnouncementArrives(i, slots[i].paddr, PageAlign(vsize), coprocessor.count, messages[|messages| - 1]);
    ghost var before, count := coprocessor.table[..], coprocessor.count;
    coprocessor.Poll(messages);
    NextPlace(slots, count, vsize, before, coprocessor.table[..], coprocessor.count);
  }

  /** The table after one more announcement, taken or not. */
  lemma NextPlace(slots: seq<Slot>, n: nat, vsize: Word, before: seq<(Word, Word)>, after: seq<(Word, Word)>, n': nat)
    requires n <= |slots| == |before| && before[..n] == Places(slots, vsize, n)
    requires if n' == n then after == before
      else n < |slots| && n' == n + 1 && after == before[n := (slots[n].paddr, PageAlign(vsize))]
    ensures after[..n'] == Places(slots, vsize, n')
  {
    forall k: nat | k < n' ensures after[k] == Places(slots, vsize, n')[k] {
      if k < n {
        assert before[k] == before[..n][k] == Places(slots, vsize, n)[k];
      }
    }
  }

  lemma NotLookedAt(coprocessor: SdbCoprocessor.Coprocessor, slots: seq<Slot>, polls: seq<bool>, i: nat, vsize: Word)
    requires i < |slots| == |polls| && !Treated(polls, i) && HasTaken(coprocessor, slots, polls, i, vsize)
    ensures HasTaken(coprocessor, slots, polls, i + 1, vsize)
  {
    assert Taken(polls, i + 1) == Taken(polls, i);
  }

  /** One round of the loop, and the coprocessor's poll after it, if there is one. */
  method SetUpOne(driver: SdbDriver.Driver, coprocessor: SdbCoprocessor.Coprocessor, ghost d0: SdbSession.Driver,
                  slots: seq<Slot>, polls: seq<bool>, i: nat, vsize: Word, msgSize: int, queue: seq<string>)
    returns (queue': seq<string>)
    requires i < |slots| == |polls| && i <= INT_MAX && HasTaken(coprocessor, slots, polls, i, vsize)
    requires driver.Valid() && driver.View() == SetUpResult(d0, slots[..i], vsize) && msgSize >= 30
    modifies driver, driver.buffers, coprocessor, coprocessor.table
    ensures driver.Valid() && driver.View() == SetUpResult(d0, slots[..i + 1], vsize)
    ensures fresh(set e | e in driver.buffers && e !in old(driver.buffers))
    ensures HasTaken(coprocessor, slots, polls, i + 1, vsize)
    ensures Treated(polls, i) ==> queue' == []
  {
    var text := SetUpRound(driver, d0, slots, i, vsize, msgSize);
    queue' := queue + [text];
    if Treated(polls, i) {
      TakeAnnouncement(coprocessor, slots, polls, i, vsize, queue');
      queue' := [];
    } else {
      NotLookedAt(coprocessor, slots, polls, i, vsize);
    }
  }

  /** The loop itself; queue holds what the coprocessor has not polled yet. */
  method SetUpLoop(driver: SdbDriver.Driver, coprocessor: SdbCoprocessor.Coprocessor, slots: seq<Slot>, polls: seq<bool>,
                   vsize: Word, msgSize: int)
    requires driver.Valid() && driver.buffers == [] && driver.lastBufferId == 0
    requires |slots| == |polls| && 1 <= |slots| <= INT_MAX && msgSize >= 30
    requires HasTaken(coprocessor, slots, polls, 0, vsize)
    modifies driver, coprocessor, coprocessor.table
    ensures driver.Valid() && driver.View() == SetUpResult(old(driver.View()), slots, vsize)
    ensures HasTaken(coprocessor, slots, polls, |slots|, vsize)
  {
    ghost var d0 := driver.View();
    NoSlots(d0, vsize);
    var i := 0;
    var queue := [];
    while i < |slots|
      invariant i <= |slots| && driver.Valid()
      invariant driver.View() == SetUpResult(d0, slots[..i], vsize)
      invariant fresh(set e | e in driver.buffers)
      invariant HasTaken(coprocessor, slots, polls, i, vsize)
    {
      queue := SetUpOne(driver, coprocessor, d0, slots, polls, i, vsize, msgSize, queue);
      i := i + 1;
    }
    assert slots[..i] == slots;
  }

  /** The loop of main that sets up the buffers, every call succeeding, and the coprocessor
      that polls after some of the rounds, and after the last. It takes each announcement up
      to the first that is overwritten in its queue or has a number past 3, and agrees with
      the driver on the address and size of those; so it has all four, or all there are, if
      and only if it polls after each of them. It is idle if and only if it has them all. */
  method SetUp(driver: SdbDriver.Driver, coprocessor: SdbCoprocessor.Coprocessor, slots: seq<Slot>, polls: seq<bool>,
               vsize: Word, msgSize: int)
    requires driver.Valid() && driver.buffers == [] && driver.lastBufferId == 0
    requires coprocessor.Valid() && coprocessor.count == 0 && coprocessor.status == SdbCoprocessor.Init
    requires coprocessor.table.Length == |slots| == |polls| && 1 <= |slots| <= INT_MAX && msgSize >= 30
    modifies driver, coprocessor, coprocessor.table
    ensures driver.Valid() && driver.View() == SetUpResult(old(driver.View()), slots, vsize)
    ensures coprocessor.Valid() && coprocessor.count == Taken(polls, |slots|)
    ensures coprocessor.count == Acceptable(|slots|) <==> (forall k: nat | k < Acceptable(|slots|) :: Treated(polls, k))
    ensures coprocessor.status == SdbCoprocessor.Idle <==> coprocessor.count == |slots|
    ensures vsize <= 0xFFFF_F000 ==> forall i: nat | i < |driver.buffers| ::
      vsize <= driver.buffers[i].size < vsize + 4096 && driver.buffers[i].size % 4096 == 0
    ensures forall i: nat | i < coprocessor.count ::
      i < |driver.buffers| && coprocessor.table[i] == (driver.buffers[i].paddr, driver.buffers[i].size)
  {
    ghost var d0 := driver.View();
    SetUpLoop(driver, coprocessor, slots, polls, vsize, msgSize);
    TakenIffTreated(polls, |slots|);
    if vsize <= 0xFFFF_F000 {
      SizesAreMapped(driver, d0, slots, vsize);
    }
    BothSidesAgree(driver, coprocessor, d0, slots, polls, vsize);
  }

  /** With one buffer nothing can be overwritten. */
  lemma OneBufferIsTaken(polls: seq<bool>)
    requires |polls| == 1
    ensures Taken(polls, 1) == 1
  {
    assert Taken(polls, 0) == 0;
  }

  lemma SizesAreMapped(driver: SdbDriver.Driver, d: SdbSession.Driver, slots: seq<Slot>, vsize: Word)
    requires driver.View() == SetUpResult(d, slots, vsize) && vsize <= 0xFFFF_F000
    ensures forall i: nat | i < |driver.buffers| ::
      vsize <= driver.buffers[i].size < vsize + 4096 && driver.buffers[i].size % 4096 == 0
  {
    PageAlignRoundsUp(vsize);
    forall i: nat | i < |driver.buffers|
      ensures vsize <= driver.buffers[i].size < vsize + 4096 && driver.buffers[i].size % 4096 == 0
    {
      assert |driver.View().buffers| == |slots|;
      assert driver.View().buffers[i] == driver.buffers[i].View() == EntryOf(slots[i], i, vsize);
    }
  }

  lemma BothSidesAgree(driver: SdbDriver.Driver, coprocessor: SdbCoprocessor.Coprocessor, d: SdbSession.Driver,
                       slots: seq<Slot>, polls: seq<bool>, vsize: Word)
    requires |slots| == |polls|
    requires driver.View() == SetUpResult(d, slots, vsize) && HasTaken(coprocessor, slots, polls, |slots|, vsize)
    ensures forall i: nat | i < coprocessor.count ::
      i < |driver.buffers| && coprocessor.table[i] == (driver.buffers[i].paddr, driver.buffers[i].size)
  {
    forall i: nat | i < coprocessor.count
      ensures i < |driver.buffers| && coprocessor.table[i] == (driver.buffers[i].paddr, driver.buffers[i].size)
    {
      assert |driver.View().buffers| == |slots|;
      assert driver.View().buffers[i] == driver.buffers[i].View() == EntryOf(slots[i], i, vsize);
      assert coprocessor.table[..coprocessor.count][i] == Places(slots, vsize, Taken(polls, |slots|))[i];
    }
  }

  lemma AnnouncementArrives(index: nat, paddr: Word, size: Word, awaited: nat, text: string)
    requires index <= INT_MAX && text == BufferInfo(index, paddr, size)
    ensures text != ""
    ensures SdbCoprocessor.ParseAnnouncement(SdbCoprocessor.Kept(text), awaited)
         == if index < 4 && awaited == index then Some((paddr, size)) else None
  {
    BufferInfoFits(index, paddr, size);
    SdbCoprocessor.AnnouncementIsRead(index, paddr, size, awaited);
  }

  // --------------------------------------------------------------- one delivery

  /** The driver's calls for a report of buffer id with a size that fits it, and for the
      application's question about it. */
  lemma ReportThenAsk(d: SdbSession.Driver, id: nat, size: Word, message: Message)
    requires Indexed(d) && id < |d.buffers| && id <= d.lastBufferId && size <= d.buffers[id].size
    requires message == Decoded(Ok((id, size)))
    ensures var (told, r) := DoReceive(d, message);
      && r == Success && Indexed(told) && told.buffers != []
      && told.signals == d.signals + [Signal(id, d.buffers[id].efd, size, d.buffers[id].size)]
      && DoGetDataSize(told, id, 0, true, true)
           == (told.(buffers := d.buffers[id := d.buffers[id].(writingSize := NO_DATA)]), Success, size)
  {
    DeliveryIsExact(d, id, size);
    SearchIsIndexing(d, id);
    var told := DoReceive(d, message).0;
    SearchIsIndexing(told, id);
    assert told.buffers[id := told.buffers[id].(writingSize := NO_DATA)]
        == d.buffers[id := d.buffers[id].(writingSize := NO_DATA)];
  }

  lemma ReportArrives(id: nat, size: Word, text: string)
    requires id <= INT_MAX && text == Report(id, size)
    ensures text != "" && Decodable(text) && Decode(text) == Ok((id, size % 0x100_0000))
  {
    DecodeOfReport(id, size);
  }

  /** The driver once a report of a buffer was signalled and its size fetched. */
  function Delivered(d: SdbSession.Driver, id: nat, size: Word): SdbSession.Driver
    requires id < |d.buffers|
  {
    d.(buffers := d.buffers[id := d.buffers[id].(writingSize := NO_DATA)],
       signals := d.signals + [Signal(id, d.buffers[id].efd, size, d.buffers[id].size)])
  }

  /** The driver takes a report that fits its buffer, and the application asks for its
      size. */
  method TellAndAsk(driver: SdbDriver.Driver, text: string, id: nat, reported: Word) returns (size: Word)
    requires driver.Valid() && driver.ready && Indexed(driver.View())
    requires id < |driver.buffers| && id <= driver.lastBufferId && reported <= driver.View().buffers[id].size
    requires text != "" && Decodable(text) && Decode(text) == Ok((id, reported))
    modifies driver, driver.buffers
    ensures driver.Valid() && size == reported && driver.View() == Delivered(old(driver.View()), id, reported)
  {
    ReportThenAsk(driver.View(), id, reported, Decoded(Ok((id, reported))));
    var r := driver.Receive(text);
    r, size := driver.GetDataSize(id, 0, true, true);
  }

  /** The driver refuses a report that does not fit its buffer. */
  method Refuse(driver: SdbDriver.Driver, text: string, id: nat, reported: Word)
    requires driver.Valid() && driver.ready && Indexed(driver.View())
    requires id < |driver.buffers| && id <= driver.lastBufferId && reported > driver.View().buffers[id].size
    requires text != "" && Decodable(text) && Decode(text) == Ok((id, reported))
    modifies driver, driver.buffers
    ensures driver.Valid() && driver.View().signals == old(driver.View()).signals
  {
    DeliveryIsExact(driver.View(), id, reported);
    var r := driver.Receive(text);
  }

  /** A report that names a buffer of the list. */
  method Tell(driver: SdbDriver.Driver, text: string, id: nat, reported: Word) returns (size: Option<Word>)
    requires driver.Valid() && driver.ready && Indexed(driver.View())
    requires id < |driver.buffers| && id <= driver.lastBufferId
    requires text != "" && Decodable(text) && Decode(text) == Ok((id, reported))
    modifies driver, driver.buffers
    ensures driver.Valid()
    ensures var d := old(driver.View());
      if reported <= d.buffers[id].size then size == Some(reported) && driver.View() == Delivered(d, id, reported)
      else size == None && driver.View().signals == d.signals
  {
    assert driver.buffers[id].View() == driver.View().buffers[id];
    if reported <= driver.buffers[id].size {
      var got := TellAndAsk(driver, text, id, reported);
      size := Some(got);
    } else {
      Refuse(driver, text, id, reported);
      size := None;
    }
  }

  /** A filled buffer travels from the coprocessor through the driver to the application.
      The driver reads the size mod 2^24. If that fits the buffer there is one signal, the
      application gets it, and the entry is ready for the next report; otherwise no signal
      is raised and the application hears nothing. */
  method Transfer(driver: SdbDriver.Driver, coprocessor: SdbCoprocessor.Coprocessor) returns (size: Option<Word>)
    requires driver.Valid() && driver.ready && Indexed(driver.View())
    requires coprocessor.Valid() && coprocessor.status == SdbCoprocessor.Done && coprocessor.count > 0
    requires coprocessor.index < |driver.buffers| && coprocessor.index <= driver.lastBufferId
    requires coprocessor.index <= INT_MAX
    modifies coprocessor, driver, driver.buffers
    ensures driver.Valid() && coprocessor.Valid()
    ensures var (d, id, reported) := (old(driver.View()), old(coprocessor.index), coprocessor.bufferSize % 0x100_0000);
      if reported <= d.buffers[id].size then size == Some(reported) && driver.View() == Delivered(d, id, reported)
      else size == None && driver.View().signals == d.signals
  {
    var id := coprocessor.index;
    var report := coprocessor.FinishTransfer();
    ReportArrives(id, coprocessor.bufferSize, report);
    size := Tell(driver, report, id, coprocessor.bufferSize % 0x100_0000);
  }
}
