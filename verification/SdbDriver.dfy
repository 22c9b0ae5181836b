/** The shared-buffer driver itself: a list of buffer entries in memory, changed in place.
    Every call is proved to do what the session model says. */
module SdbDriver {
  import opened Common
  import opened Words
  import opened SdbText
  import opened SdbSession

  /** struct sdb_buf_t */
  class Entry {
    var index: int
    var size: Word
    var writingSize: Word
    var vaddr: Vaddr
    var paddr: Word
    var efd: int

    /** A fresh entry: index and eventfd are set, the rest is as the memory was. */
    constructor (index: int, efd: int, junk: Junk)
      ensures View() == Buf(index, junk.size, junk.writingSize, Unset, junk.paddr, efd)
    {
      this.index, this.efd := index, efd;
      size, writingSize, vaddr, paddr := junk.size, junk.writingSize, Unset, junk.paddr;
    }

    function View(): Buf
      reads this
    {
      Buf(index, size, writingSize, vaddr, paddr, efd)
    }
  }

  function Views(entries: seq<Entry>): (views: seq<Buf>)
    reads entries
    ensures |views| == |entries|
    ensures forall i: nat | i < |entries| :: views[i] == entries[i].View()
  {
    seq(|entries|, i requires 0 <= i < |entries| reads entries => entries[i].View())
  }

  /** When all sends succeed, what was sent is the text, in one piece if a message is large
      enough. */
  ghost predicate Announces(text: string, msgSize: int, outcome: nat -> int, sent: seq<string>) {
    msgSize > 0 && (forall k: nat :: outcome(k) == 0) ==>
      Concat(sent) == text && (|text| <= msgSize ==> sent == [text])
  }

  class Driver {
    var ready: bool
    var buffers: seq<Entry>
    var lastBufferId: int
    ghost var live: set<Block>
    ghost var badFrees: nat
    ghost var signals: seq<Signal>
    ghost var announced: seq<Announcement>

    /** The entries of the list are different objects. */
    ghost predicate Valid()
      reads this
    {
      forall i: nat, j: nat | i < j < |buffers| :: buffers[i] != buffers[j]
    }

    ghost function View(): SdbSession.Driver
      reads this, buffers
    {
      SdbSession.Driver(ready, Views(buffers), lastBufferId, live, badFrees, signals, announced)
    }

    /** The driver once probed, before the first open. */
    constructor ()
      ensures Valid() && View() == START
    {
      ready, buffers, lastBufferId := false, [], 0;
      live, badFrees, signals, announced := {}, 0, [], [];
    }

    method Open()
      modifies this
      ensures Valid() && View() == DoOpen(old(View()))
    {
      ready := true;
      buffers := [];
    }

    method SetEfd(efd: int, junk: Junk, copied: bool) returns (r: Outcome)
      requires Valid()
      modifies this`buffers
      ensures Valid() && (View(), r) == DoSetEfd(old(View()), efd, junk, copied)
      ensures fresh(set e | e in buffers && e !in old(buffers))
      ensures old(buffers) <= buffers
    {
      var idx := 0;
      if buffers != [] {
        var last := buffers[|buffers| - 1];
        idx := last.index;
        idx := idx + 1;
      }
      if !copied {
        return Failure(EFAULT);
      }
      var buffer := new Entry(idx, efd, junk);
      buffers := buffers + [buffer];
      assert Views(buffers) == old(Views(buffers)) + [buffer.View()];
      return Success;
    }

    /** The part of rpmsg_sdb_mmap that fills the last entry. */
    method FillLast(size: Word, alloc: Option<(Block, Word)>)
      requires Valid() && buffers != []
      modifies this`live, buffers
      ensures Valid()
      ensures View() == FilledLast(old(View()), size, alloc)
    {
      var buffer := buffers[|buffers| - 1];
      buffer.size := size;
      buffer.writingSize := NO_DATA;
      if alloc.None? {
        buffer.vaddr := Null;
      } else {
        buffer.vaddr := At(alloc.value.0);
        buffer.paddr := alloc.value.1;
        live := live + {alloc.value.0};
      }
      assert Views(buffers) == old(Views(buffers))[|buffers| - 1 := buffer.View()];
    }

    /** The text that places the last entry's buffer. */
    ghost function LastInfo(): string
      requires buffers != []
      reads this`buffers, buffers
    {
      var b := buffers[|buffers| - 1];
      BufferInfo(b.index, b.paddr, b.size)
    }

    /** Sends the place of the last entry's buffer to the coprocessor. */
    method Announce(msgSize: int, outcome: nat -> int) returns (sent: seq<string>)
      requires buffers != [] && msgSize != 0
      ensures Announces(LastInfo(), msgSize, outcome, sent)
    {
      var buffer := buffers[|buffers| - 1];
      var ret;
      ret, sent := SendBufInfo(BufferInfo(buffer.index, buffer.paddr, buffer.size), msgSize, outcome);
    }

    /** The end of a successful rpmsg_sdb_mmap. */
    method AnnounceAndCount(msgSize: int, outcome: nat -> int) returns (sent: seq<string>)
      requires Valid() && buffers != [] && msgSize != 0
      modifies this`lastBufferId, this`announced
      ensures View() == Counted(old(View())) && Announces(LastInfo(), msgSize, outcome, sent)
    {
      ghost var text := LastInfo();
      sent := Announce(msgSize, outcome);
      CountMapping();
      assert LastInfo() == text;
    }

    /** The rest of rpmsg_sdb_mmap, once there is an entry; the result of announcing the
        buffer is ignored. */
    method MapLast(size: Word, alloc: Option<(Block, Word)>, remapped: bool, msgSize: int, outcome: nat -> int)
      returns (r: Outcome, sent: seq<string>)
      requires Valid() && buffers != [] && msgSize != 0
      modifies this`lastBufferId, this`live, this`announced, buffers
      ensures Valid() && (View(), r) == SdbSession.MapLast(old(View()), size, alloc, remapped)
      ensures r == Success ==> Announces(LastInfo(), msgSize, outcome, sent)
      ensures r != Success ==> sent == []
    {
      sent := [];
      FillLast(size, alloc);
      if alloc.None? {
        return Failure(ENOMEM), sent;
      }
      if !remapped {
        return Failure(EAGAIN), sent;
      }
      sent := AnnounceAndCount(msgSize, outcome);
      return Success, sent;
    }

    /** The counts of a successful rpmsg_sdb_mmap. */
    method CountMapping()
      requires Valid() && buffers != []
      modifies this`lastBufferId, this`announced
      ensures View() == Counted(old(View()))
    {
      var buffer := buffers[|buffers| - 1];
      announced := announced + [Announcement(buffer.index, buffer.paddr, buffer.size)];
      lastBufferId := lastBufferId + 1;
    }

    /** rpmsg_sdb_mmap */
    method Mmap(vsize: Word, device: bool, alloc: Option<(Block, Word)>, remapped: bool, msgSize: int, outcome: nat -> int)
      returns (r: Outcome, sent: seq<string>)
      requires Valid() && msgSize != 0
      modifies this`lastBufferId, this`live, this`announced, buffers
      ensures Valid() && (View(), r) == DoMmap(old(View()), vsize, device, alloc, remapped)
      ensures r == Success ==> buffers != [] && Announces(LastInfo(), msgSize, outcome, sent)
      ensures r == Success && vsize <= 0xFFFF_F000 ==>
        var size := buffers[|buffers| - 1].size;
        && vsize <= size < vsize + 4096 && size % 4096 == 0
        && announced != [] && announced[|announced| - 1].size == size
      ensures r != Success ==> sent == []
    {
      if !device {
        return Failure(ENOMEM), [];
      }
      if buffers == [] {
        return Failure(EINVAL), [];
      }
      r, sent := MapLast(PageAlign(vsize), alloc, remapped, msgSize, outcome);
      MmapOutcome(old(View()), vsize, device, alloc, remapped);
      assert View().buffers[|buffers| - 1] == buffers[|buffers| - 1].View();
    }

    /** The search loop that the calls share: the first entry with an index, or the end. */
    method Search(id: int) returns (k: nat)
      ensures k == Find(Views(buffers), id)
    {
      k := 0;
      while k < |buffers| && buffers[k].index != id
        invariant k <= |buffers|
        invariant forall j: nat | j < k :: buffers[j].index != id
      {
        k := k + 1;
      }
      FirstIsFound(Views(buffers), id, k);
    }

    method SetWritingSize(k: nat, size: Word)
      requires Valid() && k < |buffers|
      modifies buffers
      ensures Valid()
      ensures Views(buffers) == old(Views(buffers))[k := old(Views(buffers))[k].(writingSize := size)]
    {
      buffers[k].writingSize := size;
    }

    /** rpmsg_sdb_drv_cb for a decoded message. */
    method Deliver(id: int, size: Word) returns (r: Outcome)
      requires Valid() && (ready || id > lastBufferId)
      modifies this`signals, buffers
      ensures Valid() && (View(), r) == SdbSession.Deliver(old(View()), id, size)
    {
      if id > lastBufferId {
        return Failure(EINVAL);
      }
      var k := Search(id);
      if k == |buffers| {
        return Success;
      }
      var entry := buffers[k];
      SetWritingSize(k, size);
      if entry.writingSize > entry.size {
        return Failure(EINVAL);
      }
      signals := signals + [Signal(id, entry.efd, size, entry.size)];
      return Success;
    }

    /** What a received text is to the driver. */
    ghost function Received(text: string): Message
      requires text != "" ==> Decodable(text)
    {
      if text == "" then Empty else Decoded(Decode(text))
    }

    /** rpmsg_sdb_drv_cb */
    method Receive(text: string) returns (r: Outcome)
      requires Valid()
      requires text != "" ==> Decodable(text)
      requires Legal(View(), SdbSession.Op.Receive(Received(text)))
      modifies this`signals, buffers
      ensures Valid() && (View(), r) == DoReceive(old(View()), Received(text))
    {
      if text == "" {
        return Failure(EINVAL);
      }
      match Decode(text) {
        case Err(e) => return Failure(e);
        case Ok((id, size)) => r := Deliver(id, size);
      }
    }

    method GetDataSize(id: int, userSize: Word, copiedIn: bool, copiedOut: bool) returns (r: Outcome, size: Word)
      requires Valid() && buffers != []
      modifies buffers
      ensures Valid() && (View(), r, size) == DoGetDataSize(old(View()), id, userSize, copiedIn, copiedOut)
    {
      size := userSize;
      if !copiedIn {
        return Failure(EFAULT), size;
      }
      var k := Search(id);
      var target := |buffers| - 1;
      if k < |buffers| {
        target := k;
        size := buffers[k].writingSize;
      }
      if !copiedOut {
        return Failure(EFAULT), size;
      }
      SetWritingSize(target, NO_DATA);
      return Success, size;
    }

    /** The call of dma_free_wc, which only the account sees. */
    ghost method FreeEntry(vaddr: Vaddr)
      modifies this`live, this`badFrees
      ensures View() == Free(old(View()), vaddr)
    {
      match vaddr {
        case Null =>
        case Unset => badFrees := badFrees + 1;
        case At(block) =>
          if block in live {
            live := live - {block};
          } else {
            badFrees := badFrees + 1;
          }
      }
    }

    /** One round of the loop of rpmsg_sdb_close: frees and unlinks the first entry. */
    method FreeFirst()
      requires Valid() && buffers != []
      modifies this`live, this`badFrees, this`buffers
      ensures Valid() && buffers == old(buffers)[1..]
      ensures FreeAll(View(), Views(buffers)).(buffers := []) == FreeAll(old(View()), old(Views(buffers))).(buffers := [])
    {
      ghost var was, list := View(), Views(buffers);
      var pos := buffers[0];
      FreeEntry(pos.vaddr);
      ghost var freed := Free(was, list[0].vaddr);
      buffers := buffers[1..];
      assert Views(buffers) == list[1..];
      FreeIgnoresList(freed, list[1..], list[1..]);
    }

    /** rpmsg_sdb_close */
    method Close()
      requires Valid()
      modifies this
      ensures Valid() && View() == DoClose(old(View()))
    {
      ghost var end := FreeAll(View(), Views(buffers)).(buffers := []);
      while buffers != []
        invariant Valid()
        invariant FreeAll(View(), Views(buffers)).(buffers := []) == end
        decreases |buffers|
      {
        FreeFirst();
      }
      lastBufferId := 0;
    }
  }

  lemma {:induction false} FirstIsFound(views: seq<Buf>, id: int, k: nat)
    requires k <= |views| && forall j: nat | j < k :: views[j].index != id
    requires k < |views| ==> views[k].index == id
    ensures Find(views, id) == k
  {
  }
}
