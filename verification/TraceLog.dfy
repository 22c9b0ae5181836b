/** The trace log of the coprocessor: log_buff writes characters round a fixed buffer that
    it keeps terminated, and the main processor reads the buffer as text.

    The buffer is specified by the whole history of characters ever logged. */
module TraceLog {
  import opened Common
  import opened Words

  const NUL: Byte := 0

  /** How many characters of the current lap are in a buffer of size bytes after n calls. */
  function LapLength(n: nat, size: nat): (k: nat)
    requires size >= 2
    ensures k <= n && k < size
  {
    if n == 0 then 0 else (n - 1) % (size - 1) + 1
  }

  /** What the buffer holds at position j: this lap's characters, the terminator, and behind
      it what the lap before left. */
  function Cell(history: seq<Byte>, size: nat, j: nat): Byte
    requires size >= 2 && j < size
  {
    var n := |history|;
    var k := LapLength(n, size);
    if j < k then history[n - k + j]
    else if j == k || j == size - 1 || n - k < size - 1 then NUL
    else history[n - k - (size - 1) + j]
  }

  function Image(history: seq<Byte>, size: nat): (image: seq<Byte>)
    requires size >= 2
    ensures |image| == size
    ensures forall j: nat | j < size :: image[j] == Cell(history, size, j)
  {
    seq(size, j requires 0 <= j < size => Cell(history, size, j))
  }

  class Log {
    const buf: array<Byte>
    var offset: nat
    ghost var history: seq<Byte>

    ghost predicate Valid()
      reads this, buf
    {
      && buf.Length >= 2
      && offset == LapLength(|history|, buf.Length)
      && buf[..] == Image(history, buf.Length)
    }

    /** The static buffer, zeroed before the program starts. */
    constructor (size: nat)
      requires size >= 2
      ensures Valid() && history == [] && buf.Length == size && fresh(buf)
    {
      buf := new Byte[size](_ => NUL);
      offset := 0;
      history := [];
    }

    /** log_buff: stores the low byte of ch and a terminator behind it. */
    method Put(ch: int)
      requires Valid()
      modifies this, buf
      ensures Valid() && history == old(history) + [ch % 0x100]
    {
      LapStep(|history|, buf.Length);
      if offset + 1 >= buf.Length {
        offset := 0;
      }
      buf[offset] := ch % 0x100;
      buf[offset + 1] := NUL;
      offset := offset + 1;
      history := history + [ch % 0x100];
      ImageStep(old(history), ch % 0x100, buf.Length, old(buf[..]), buf[..]);
    }
  }

  /** One more character: the lap grows by one or, when full, starts over. */
  lemma LapStep(n: nat, size: nat)
    requires size >= 2
    ensures var k, k' := LapLength(n, size), LapLength(n + 1, size);
      k' == (if k + 1 >= size then 0 else k) + 1
    ensures var k := LapLength(n, size); k + 1 >= size ==> n >= size - 1 && LapLength(n + 1, size) == 1
  {
    if n > 0 {
      var m := size - 1;
      var r := (n - 1) % m;
      assert n - 1 == m * ((n - 1) / m) + r;
      if r + 1 < m {
        DivisionIsUnique(n, m, (n - 1) / m, r + 1);
      } else {
        assert m * ((n - 1) / m + 1) == m * ((n - 1) / m) + m;
        DivisionIsUnique(n, m, (n - 1) / m + 1, 0);
      }
    } else {
      assert 0 % (size - 1) == 0;
    }
  }

  /** What one more character does to a cell, away from the two cells written. */
  lemma CellStep(history: seq<Byte>, ch: Byte, size: nat, j: nat)
    requires size >= 2 && j < size
    ensures var k' := LapLength(|history| + 1, size);
      Cell(history + [ch], size, j)
        == if j == k' - 1 then ch else if j == k' then NUL else Cell(history, size, j)
  {
    LapStep(|history|, size);
  }

  lemma ImageStep(history: seq<Byte>, ch: Byte, size: nat, before: seq<Byte>, after: seq<Byte>)
    requires size >= 2 && before == Image(history, size)
    requires var k' := LapLength(|history| + 1, size); k' >= 1 && after == before[k' - 1 := ch][k' := NUL]
    ensures after == Image(history + [ch], size)
  {
    forall j: nat | j < size ensures after[j] == Cell(history + [ch], size, j) {
      CellStep(history, ch, size, j);
    }
  }

  // ------------------------------------------------------------- what a reader gets

  /** The text in a buffer as C reads it: everything before the first NUL. */
  function Text(buf: seq<Byte>): (text: seq<Byte>)
    ensures |text| <= |buf|
  {
    if buf == [] || buf[0] == NUL then [] else [buf[0]] + Text(buf[1..])
  }

  lemma {:induction false} TextStopsAt(buf: seq<Byte>, k: nat)
    requires k < |buf| && buf[k] == NUL
    requires forall j: nat | j < k :: buf[j] != NUL
    ensures Text(buf) == buf[..k]
  {
    if k > 0 {
      TextStopsAt(buf[1..], k - 1);
      assert buf[..k] == [buf[0]] + buf[1..][..k - 1];
    }
  }

  /** The buffer always starts with exactly the characters of the current lap, followed by
      the terminator; read as text it is that lap. */
  lemma CurrentLap(history: seq<Byte>, size: nat)
    requires size >= 2
    ensures LapLength(|history|, size) == if history == [] then 0 else (|history| - 1) % (size - 1) + 1
    ensures var (n, k) := (|history|, LapLength(|history|, size));
      && Image(history, size)[..k] == history[n - k..]
      && Image(history, size)[k] == NUL
      && (NUL !in history[n - k..] ==> Text(Image(history, size)) == history[n - k..])
  {
    var image := Image(history, size);
    var n, k := |history|, LapLength(|history|, size);
    assert image[..k] == history[n - k..];
    if NUL !in history[n - k..] {
      forall j: nat | j < k ensures image[j] != NUL {
        assert image[j] == history[n - k..][j];
      }
      TextStopsAt(image, k);
    }
  }

  /** The older part of the buffer, behind the terminator. */
  function OlderPart(image: seq<Byte>, k: nat): seq<Byte>
    requires k < |image|
  {
    if k + 1 < |image| then image[k + 1..|image| - 1] else []
  }

  /** After one full lap the older part followed by the current lap is the end of the
      history, in order and without a gap: all that the buffer can hold of it. */
  lemma RecoverHistory(history: seq<Byte>, size: nat)
    requires size >= 2 && |history| >= size
    ensures var (n, k) := (|history|, LapLength(|history|, size));
      var image := Image(history, size);
      var known := OlderPart(image, k) + image[..k];
      |known| == (if k == size - 1 then size - 1 else size - 2) && known == history[n - |known|..]
  {
  }
}
