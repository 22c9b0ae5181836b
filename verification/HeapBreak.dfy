/** The program break of the coprocessor's C library: _sbrk moves a heap end between the
    linker symbol _end and the stack limit.

    Addresses are 32 bits wide, so a sum that leaves the address space wraps round. NULL,
    address 0, marks a heap end that is not yet initialised. */
module HeapBreak {
  import opened Words

  const NULL: Word := 0

  /** The linker symbols _end, _estack and _Min_Stack_Size. */
  datatype Layout = Layout(end: Word, estack: Word, minStackSize: Word)
  {
    /** max_heap: the end of RAM less the reserved stack. */
    function MaxHeap(): Word {
      ToWord(estack - minStackSize)
    }
  }

  datatype Result = Success(block: Word) | OutOfMemory

  /** A ptrdiff_t. */
  type Increment = i: int | -0x8000_0000 <= i < 0x8000_0000

  function Initialised(l: Layout, heapEnd: Word): Word {
    if heapEnd == NULL then l.end else heapEnd
  }

  /** _sbrk: the new heap end and the result. */
  function Step(l: Layout, heapEnd: Word, incr: Increment): (Word, Result) {
    var current := Initialised(l, heapEnd);
    if ToWord(current + incr) > l.MaxHeap() then (current, OutOfMemory)
    else (ToWord(current + incr), Success(current))
  }

  class Heap {
    const layout: Layout
    var heapEnd: Word

    constructor (layout: Layout)
      ensures this.layout == layout && heapEnd == NULL
    {
      this.layout := layout;
      heapEnd := NULL;
    }

    method Sbrk(incr: Increment) returns (r: Result)
      modifies this
      ensures (heapEnd, r) == Step(layout, old(heapEnd), incr)
    {
      if heapEnd == NULL {
        heapEnd := layout.end;
      }
      if ToWord(heapEnd + incr) > layout.MaxHeap() {
        return OutOfMemory;
      }
      var prev := heapEnd;
      heapEnd := ToWord(heapEnd + incr);
      return Success(prev);
    }
  }

  // ------------------------------------------------------------ any sequence of calls

  /** The heap end after a sequence of calls from the start of the program. */
  function EndAfter(l: Layout, calls: seq<Increment>): Word {
    if calls == [] then NULL
    else Step(l, EndAfter(l, calls[..|calls| - 1]), calls[|calls| - 1]).0
  }

  /** The result of call number i. */
  function ResultOf(l: Layout, calls: seq<Increment>, i: nat): Result
    requires i < |calls|
  {
    Step(l, EndAfter(l, calls[..i]), calls[i]).1
  }

  /** The sum of the increments that succeeded. */
  function Granted(l: Layout, calls: seq<Increment>): int {
    if calls == [] then 0
    else
      var n := |calls| - 1;
      Granted(l, calls[..n]) + if ResultOf(l, calls, n).Success? then calls[n] else 0
  }

  /** _end and max_heap lie in the lower half of the address space, as on the STM32MP1,
      where coprocessor RAM ends at 0x1004_0000. */
  predicate LowMemory(l: Layout) {
    0 < l.end < 0x8000_0000 && l.MaxHeap() < 0x8000_0000
  }

  /** By how much restarts lifted the break: once _end for every call that found it at
      address 0, where an earlier call had taken it. */
  function Lifted(l: Layout, calls: seq<Increment>): nat {
    if |calls| <= 1 then 0
    else
      var n := |calls| - 1;
      Lifted(l, calls[..n]) + if EndAfter(l, calls[..n]) == NULL then l.end else 0
  }

  /** What one call grants. */
  function Grant(l: Layout, before: Word, incr: Increment): int {
    if Step(l, before, incr).1.Success? then incr else 0
  }

  lemma OneCall(l: Layout, before: Word, incr: Increment)
    ensures Step(l, before, incr).0 == ToWord(Initialised(l, before) + Grant(l, before, incr))
  {
    ToWordSmall(Initialised(l, before));
  }

  /** The last call of a sequence, in terms of the break before it. */
  lemma LastCall(l: Layout, calls: seq<Increment>, n: nat)
    requires |calls| == n + 1
    ensures var before := EndAfter(l, calls[..n]);
      && EndAfter(l, calls) == Step(l, before, calls[n]).0
      && Granted(l, calls) == Granted(l, calls[..n]) + Grant(l, before, calls[n])
      && Lifted(l, calls) == Lifted(l, calls[..n]) + if n > 0 && before == NULL then l.end else 0
  {
  }

  /** Wherever the heap lies: the break is, mod 2^32, _end plus the increments granted plus
      what restarts lifted it by, over every sequence of calls. */
  lemma {:induction false} BreakModuloWord(l: Layout, calls: seq<Increment>)
    requires calls != []
    ensures EndAfter(l, calls) == ToWord(l.end + Granted(l, calls) + Lifted(l, calls))
  {
    var n := |calls| - 1;
    var before := EndAfter(l, calls[..n]);
    LastCall(l, calls, n);
    OneCall(l, before, calls[n]);
    if n > 0 {
      BreakModuloWord(l, calls[..n]);
      SumsOfWords(l.end + Granted(l, calls[..n]) + Lifted(l, calls[..n]),
        if before == NULL then l.end else 0, Grant(l, before, calls[n]));
    } else {
      assert calls[..0] == [];
    }
  }

  /** Adding to a sum that has already wrapped gives the same word. */
  lemma SumsOfWords(sum: int, x: int, y: int)
    requires x == 0 || ToWord(sum) == 0
    ensures ToWord(sum + x + y) == ToWord((if x == 0 then ToWord(sum) else x) + y)
  {
  }

  /** Whatever the increments: a success leaves the break at most max_heap, a refusal
      leaves it where it was. */
  lemma BreakNeverPassesLimit(l: Layout, heapEnd: Word, incr: Increment)
    ensures var (after, r) := Step(l, heapEnd, incr);
      if r.Success? then after <= l.MaxHeap() && r.block == Initialised(l, heapEnd)
      else after == Initialised(l, heapEnd)
  {
  }

  /** In low memory no sum can wrap into the heap: a call succeeds exactly when the
      unbounded sum lies between 0 and max_heap, and then the break is that sum. */
  lemma StepWithoutWrap(l: Layout, heapEnd: Word, incr: Increment)
    requires LowMemory(l) && heapEnd < 0x8000_0000
    ensures var (after, r) := Step(l, heapEnd, incr);
      var sum := Initialised(l, heapEnd) + incr;
      && after < 0x8000_0000
      && (r.Success? <==> 0 <= sum <= l.MaxHeap())
      && (r.Success? ==> after == sum)
  {
  }

  /** max_heap leaves the reserved stack below the end of RAM. */
  lemma StackLimit(l: Layout)
    ensures l.minStackSize <= l.estack ==> l.MaxHeap() + l.minStackSize == l.estack
    ensures l.minStackSize > l.estack ==> l.MaxHeap() + l.minStackSize == l.estack + 0x1_0000_0000
  {
    if l.minStackSize <= l.estack {
      ToWordSmall(l.estack - l.minStackSize);
    } else {
      ToWordWraps(l.estack - l.minStackSize);
    }
  }

  /** A call succeeds exactly when the new break lies at 0 or above and leaves the reserved
      stack whole. */
  lemma SucceedsIffStackIsFree(l: Layout, heapEnd: Word, incr: Increment)
    requires 0 < l.end < 0x8000_0000 && l.minStackSize <= l.estack < 0x8000_0000 && heapEnd < 0x8000_0000
    ensures var (after, r) := Step(l, heapEnd, incr);
      var sum := (if heapEnd == 0 then l.end else heapEnd) + incr;
      && (r.Success? <==> 0 <= sum && sum + l.minStackSize <= l.estack)
      && (r.Success? ==> after == sum && r.block == sum - incr)
  {
    StackLimit(l);
    StepWithoutWrap(l, heapEnd, incr);
  }

  lemma {:induction false} EndStaysLow(l: Layout, calls: seq<Increment>)
    requires LowMemory(l)
    ensures EndAfter(l, calls) < 0x8000_0000
  {
    if calls != [] {
      var n := |calls| - 1;
      EndStaysLow(l, calls[..n]);
      StepWithoutWrap(l, EndAfter(l, calls[..n]), calls[n]);
    }
  }

  /** Address 0 doubles as the mark of an uninitialised heap, so a break taken there starts
      again at _end. With that counted in, the break is _end plus the increments granted,
      over every sequence of calls. */
  lemma {:induction false} BreakWithRestarts(l: Layout, calls: seq<Increment>)
    requires LowMemory(l) && calls != []
    ensures EndAfter(l, calls) == l.end + Granted(l, calls) + Lifted(l, calls)
  {
    var n := |calls| - 1;
    EndStaysLow(l, calls[..n]);
    StepWithoutWrap(l, EndAfter(l, calls[..n]), calls[n]);
    if n > 0 {
      BreakWithRestarts(l, calls[..n]);
    } else {
      assert calls[..0] == [];
    }
  }

  /** The break is _end plus the increments granted exactly when no call found it at 0. */
  lemma BreakEquation(l: Layout, calls: seq<Increment>)
    requires LowMemory(l) && calls != []
    ensures EndAfter(l, calls) == l.end + Granted(l, calls)
       <==> (forall i: nat | 0 < i < |calls| :: EndAfter(l, calls[..i]) != NULL)
  {
    BreakWithRestarts(l, calls);
    NotLifted(l, calls);
  }

  lemma {:induction false} NotLifted(l: Layout, calls: seq<Increment>)
    requires LowMemory(l)
    ensures Lifted(l, calls) == 0 <==> (forall i: nat | 0 < i < |calls| :: EndAfter(l, calls[..i]) != NULL)
  {
    if |calls| > 1 {
      var n := |calls| - 1;
      NotLifted(l, calls[..n]);
      assert forall i: nat | i <= n :: calls[..n][..i] == calls[..i];
    }
  }

  /** Giving back all the memory below _end, and then asking for nothing. */
  function DownAndOn(l: Layout): (calls: seq<Increment>)
    requires LowMemory(l)
    ensures |calls| == 2
  {
    var down: int := 0 - l.end;
    [down, 0]
  }

  /** In every layout two calls take the break off the equation. */
  lemma RestartWitness(l: Layout)
    requires LowMemory(l) && l.end <= l.MaxHeap()
    ensures EndAfter(l, DownAndOn(l)) == l.end != l.end + Granted(l, DownAndOn(l))
  {
    var calls := DownAndOn(l);
    assert calls[..1][..0] == [];
    LastCall(l, calls[..1], 0);
    StepWithoutWrap(l, NULL, calls[0]);
    LastCall(l, calls, 1);
    StepWithoutWrap(l, NULL, calls[1]);
  }

  // ------------------------------------------------------------ growing heaps

  predicate Growing(calls: seq<Increment>) {
    forall i: nat | i < |calls| :: calls[i] >= 0
  }

  /** With non-negative increments only, the break never falls, starting from _end. */
  lemma EndRisesOnce(l: Layout, calls: seq<Increment>, n: nat)
    requires LowMemory(l) && Growing(calls) && n < |calls|
    ensures EndAfter(l, calls[..n + 1]) >= Initialised(l, EndAfter(l, calls[..n]))
  {
    assert calls[..n + 1][..n] == calls[..n];
    EndStaysLow(l, calls[..n]);
    StepWithoutWrap(l, EndAfter(l, calls[..n]), calls[n]);
  }

  lemma {:induction false} EndRises(l: Layout, calls: seq<Increment>, i: nat, j: nat)
    requires LowMemory(l) && Growing(calls) && 0 < i <= j <= |calls|
    ensures l.end <= EndAfter(l, calls[..i]) <= EndAfter(l, calls[..j])
    decreases j
  {
    EndRisesOnce(l, calls, j - 1);
    if i < j {
      EndRises(l, calls, i, j - 1);
    } else if j > 1 {
      EndRises(l, calls, j - 1, j - 1);
    }
  }

  /** A request is refused exactly when it does not fit behind what is already granted;
      otherwise its block lies between _end and max_heap and ends at the new break. */
  lemma BlockIsInside(l: Layout, calls: seq<Increment>, i: nat)
    requires LowMemory(l) && Growing(calls) && i < |calls|
    ensures var r := ResultOf(l, calls, i);
      && (r.OutOfMemory? <==> l.end + Granted(l, calls[..i]) + calls[i] > l.MaxHeap())
      && (r.Success? ==> l.end <= r.block && r.block + calls[i] == EndAfter(l, calls[..i + 1]) <= l.MaxHeap())
  {
    if i > 0 {
      forall k: nat | 0 < k < i ensures EndAfter(l, calls[..i][..k]) != NULL {
        assert calls[..i][..k] == calls[..k];
        EndRises(l, calls, k, k);
      }
      BreakEquation(l, calls[..i]);
    }
    EndStaysLow(l, calls[..i]);
    StepWithoutWrap(l, EndAfter(l, calls[..i]), calls[i]);
    assert calls[..i + 1][..i] == calls[..i];
    if i > 0 {
      EndRises(l, calls, i, i);
    }
  }

  /** Every block that is granted ends where the reserved stack is still whole. */
  lemma BlocksKeepStackFree(l: Layout, calls: seq<Increment>, i: nat)
    requires 0 < l.end < 0x8000_0000 && l.minStackSize <= l.estack < 0x8000_0000
    requires Growing(calls) && i < |calls| && ResultOf(l, calls, i).Success?
    ensures l.end <= ResultOf(l, calls, i).block
    ensures ResultOf(l, calls, i).block + calls[i] + l.minStackSize <= l.estack
  {
    StackLimit(l);
    BlockIsInside(l, calls, i);
  }

  /** Blocks come out in order and do not overlap. */
  lemma BlocksAreDisjoint(l: Layout, calls: seq<Increment>, i: nat, j: nat)
    requires LowMemory(l) && Growing(calls) && i < j < |calls|
    requires ResultOf(l, calls, i).Success? && ResultOf(l, calls, j).Success?
    ensures ResultOf(l, calls, i).block + calls[i] <= ResultOf(l, calls, j).block
  {
    BlockIsInside(l, calls, i);
    EndRises(l, calls, i + 1, j);
  }
}
