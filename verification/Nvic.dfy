/** NVIC priority registers and interrupt target registers, and the split of a priority
    into preemption and sub-priority fields.

    On Armv6-M and Armv8-M Baseline the priority registers are word accessible only, so
    four priorities are packed into a word and changed by read-modify-write. On Armv8-M
    Mainline they are byte registers. Reference semantics: sections B1.5.4 and B3.4 of the
    ARMv7-M Architecture Reference Manual. */
module Nvic {
  import opened Common
  import opened Words

  /** __NVIC_PRIO_BITS */
  type PrioBits = p: nat | 1 <= p <= 8 witness 4

  // -------------------------------------------------------- where a priority lives

  /** _BIT_SHIFT */
  function BitShift(irq: int): nat {
    And(ToWord(irq), 0x03) * 8
  }

  /** _SHP_IDX */
  function ShpIdx(irq: int): nat {
    ShiftRight(ToWord(And(ToWord(irq), 0x0F) - 8), 2)
  }

  /** _IP_IDX */
  function IpIdx(irq: int): nat {
    ShiftRight(ToWord(irq), 2)
  }

  lemma SmallMasks(x: nat)
    ensures And(x, 0x03) == x % 4 && And(x, 0x0F) == x % 16
  {
    assert Pow2(2) == 4 && Pow2(4) == 4 * Pow2(2);
    AndMask(x, 2);
    AndMask(x, 4);
  }

  lemma ShiftTwo(x: nat)
    ensures ShiftRight(x, 2) == x / 4
  {
  }

  lemma NegativeNumber(irq: int)
    requires -8 <= irq < 0
    ensures ToWord(irq) == irq + WORD_SIZE
    ensures ToWord(irq) % 16 == irq + 16 && ToWord(irq) % 4 == (irq + 8) % 4
  {
  }

  lemma InterruptIndex(irq: nat)
    requires irq < 0x8000_0000
    ensures IpIdx(irq) == irq / 4 && BitShift(irq) == 8 * (irq % 4)
  {
    ToWordSmall(irq);
    SmallMasks(irq);
    ShiftTwo(irq);
  }

  lemma ExceptionIndex(irq: int)
    requires -8 <= irq < 0
    ensures ShpIdx(irq) == (irq + 8) / 4 && BitShift(irq) == 8 * ((irq + 8) % 4)
  {
    SmallMasks(ToWord(irq));
    NegativeNumber(irq);
    ToWordSmall(irq + 8);
    ShiftTwo(irq + 8);
  }

  /** The macros find word irq/4, byte irq%4 for an interrupt, and count system exceptions
      from -8 in the same way. */
  lemma IndexMacros(irq: int)
    requires -8 <= irq < 0x8000_0000
    ensures irq >= 0 ==> IpIdx(irq) == irq / 4 && BitShift(irq) == 8 * (irq % 4)
    ensures irq < 0 ==> ShpIdx(irq) == (irq + 8) / 4 && BitShift(irq) == 8 * ((irq + 8) % 4)
  {
    if irq < 0 {
      ExceptionIndex(irq);
    } else {
      InterruptIndex(irq);
    }
  }

  // ------------------------------------------------------------ bytes inside a word

  /** The byte a priority is stored as: its PRIO_BITS low bits at the top. */
  function Stored(priority: Word, p: PrioBits): (b: Byte)
  {
    And(ShiftLeft(priority, 8 - p), 0xFF)
  }

  /** The read-modify-write of one word. */
  function Insert(w: Word, shift: nat, b: Byte): nat {
    Or(And(w, Not(ShiftLeft(0xFF, shift))), ShiftLeft(b, shift))
  }

  /** Byte number lane of a word. */
  function Lane(w: Word, lane: nat): Byte {
    And(ShiftRight(w, 8 * lane), 0xFF)
  }

  lemma BitOfByteMask(k: nat)
    ensures Bit(0xFF, k) <==> k < 8
  {
    Pow2Values();
    BitOfMask(8, k);
  }

  lemma BitOfLane(w: Word, lane: nat, k: nat)
    ensures Bit(Lane(w, lane), k) <==> k < 8 && Bit(w, k + 8 * lane)
  {
    BitOfAnd(ShiftRight(w, 8 * lane), 0xFF, k);
    BitOfShiftRight(w, 8 * lane, k);
    BitOfByteMask(k);
  }

  lemma BitOfInsert(w: Word, lane: nat, b: Byte, k: nat)
    requires lane < 4 && k < 32
    ensures Insert(w, 8 * lane, b) < WORD_SIZE
    ensures Bit(Insert(w, 8 * lane, b), k) <==> if 8 * lane <= k < 8 * lane + 8 then Bit(b, k - 8 * lane) else Bit(w, k)
  {
    var s := 8 * lane;
    var kept, added := And(w, Not(ShiftLeft(0xFF, s))), ShiftLeft(b, s);
    Pow2Values();
    OrBound(kept, added, 32);
    BitOfOr(kept, added, k);
    BitOfAnd(w, Not(ShiftLeft(0xFF, s)), k);
    BitOfNot(ShiftLeft(0xFF, s), k);
    BitOfShiftLeft(0xFF, s, k);
    BitOfShiftLeft(b, s, k);
    if s <= k {
      BitOfByteMask(k - s);
      if s + 8 <= k {
        NoBitPast(b, 8, k - s);
      }
    }
  }

  /** Writing one byte of a word changes that byte and no other. */
  lemma LaneOfInsert(w: Word, lane: nat, b: Byte, other: nat)
    requires lane < 4 && other < 4
    ensures Insert(w, 8 * lane, b) < WORD_SIZE
    ensures Lane(Insert(w, 8 * lane, b), other) == if other == lane then b else Lane(w, other)
  {
    BitOfInsert(w, lane, b, 0);
    var w': Word := Insert(w, 8 * lane, b);
    var want: Byte := if other == lane then b else Lane(w, other);
    Pow2Values();
    forall k: nat | k < 8 ensures Bit(Lane(w', other), k) <==> Bit(want, k) {
      BitOfLane(w', other, k);
      BitOfInsert(w, lane, b, k + 8 * other);
      BitOfLane(w, other, k);
    }
    Extensionality(Lane(w', other), want, 8);
  }

  /** The stored byte holds the low bits of the priority, moved to the top. */
  lemma BitOfStored(priority: Word, p: PrioBits, k: nat)
    ensures Bit(Stored(priority, p), k) <==> 8 - p <= k < 8 && Bit(priority, k - (8 - p))
  {
    BitOfAnd(ShiftLeft(priority, 8 - p), 0xFF, k);
    BitOfByteMask(k);
    if k < 8 {
      BitOfShiftLeft(priority, 8 - p, k);
    }
  }

  /** One bit of a priority that is stored and read back. */
  lemma BitOfReadBack(priority: Word, p: PrioBits, k: nat)
    ensures Bit(ShiftRight(Stored(priority, p), 8 - p), k) <==> k < p && Bit(priority, k)
  {
    BitOfShiftRight(Stored(priority, p), 8 - p, k);
    BitOfStored(priority, p, k + (8 - p));
  }

  lemma BitOfLowBits(priority: Word, p: PrioBits, k: nat)
    ensures Bit(And(priority, Pow2(p) - 1), k) <==> k < p && Bit(priority, k)
  {
    BitOfAnd(priority, Pow2(p) - 1, k);
    BitOfMask(p, k);
  }

  lemma SameLowBits(got: Word, want: Word)
    requires forall k: nat | k < 32 :: Bit(got, k) <==> Bit(want, k)
    ensures got == want
  {
    Pow2Values();
    Extensionality(got, want, 32);
  }

  /** A stored priority reads back with its PRIO_BITS low bits. */
  lemma StoredReadsBack(priority: Word, p: PrioBits)
    ensures ShiftRight(Stored(priority, p), 8 - p) == And(priority, Pow2(p) - 1)
  {
    var got, want := ShiftRight(Stored(priority, p), 8 - p), And(priority, Pow2(p) - 1);
    forall k: nat | k < 32 ensures Bit(got, k) <==> Bit(want, k) {
      BitOfReadBack(priority, p, k);
      BitOfLowBits(priority, p, k);
    }
    SameLowBits(got, want);
  }

  // ------------------------------------------------------------- the register files

  /** The packed priority registers: NVIC->IPR and SCB->SHPR as words. */
  datatype Packed = Packed(ipr: seq<Word>, shpr: seq<Word>)

  /** The byte-wide priority registers of Armv8-M Mainline. */
  datatype ByteWide = ByteWide(ipr: seq<Byte>, shpr: seq<Byte>)

  /** The numbers whose priority the packed registers hold: every interrupt of the device
      and the system exceptions -8..-1. */
  predicate HasPriority(words: nat, irq: int) {
    -8 <= irq < 4 * words
  }

  /** Sizes of the register files: SHPR has 2 words (12 bytes), IPR has as many words
      (times 4 bytes) as the core provides, at most 124. */
  predicate WellSized(r: Packed) {
    |r.shpr| == 2 && |r.ipr| <= 124
  }

  predicate SameSize(r: Packed, b: ByteWide) {
    WellSized(r) && |b.ipr| == 4 * |r.ipr| && |b.shpr| == 12
  }

  /** __NVIC_SetPriority on words. */
  function SetPacked(r: Packed, irq: int, priority: Word, p: PrioBits): (r': Packed)
    requires WellSized(r) && HasPriority(|r.ipr|, irq)
    ensures WellSized(r') && |r'.ipr| == |r.ipr|
  {
    IndexMacros(irq);
    if irq >= 0 then
      LaneOfInsert(r.ipr[IpIdx(irq)], irq % 4, Stored(priority, p), 0);
      r.(ipr := r.ipr[IpIdx(irq) := Insert(r.ipr[IpIdx(irq)], BitShift(irq), Stored(priority, p))])
    else
      LaneOfInsert(r.shpr[ShpIdx(irq)], (irq + 8) % 4, Stored(priority, p), 0);
      r.(shpr := r.shpr[ShpIdx(irq) := Insert(r.shpr[ShpIdx(irq)], BitShift(irq), Stored(priority, p))])
  }

  /** __NVIC_GetPriority on words. */
  function GetPacked(r: Packed, irq: int, p: PrioBits): nat
    requires WellSized(r) && HasPriority(|r.ipr|, irq)
  {
    IndexMacros(irq);
    if irq >= 0 then
      ShiftRight(And(ShiftRight(r.ipr[IpIdx(irq)], BitShift(irq)), 0xFF), 8 - p)
    else
      ShiftRight(And(ShiftRight(r.shpr[ShpIdx(irq)], BitShift(irq)), 0xFF), 8 - p)
  }

  /** The index of a system exception in the byte-wide SHPR. */
  function ByteShpIdx(irq: int): nat {
    ToWord(And(ToWord(irq), 0x0F) - 4)
  }

  lemma ByteIndex(irq: int)
    requires -8 <= irq < 0
    ensures ByteShpIdx(irq) == irq + 12
  {
    SmallMasks(ToWord(irq));
    NegativeNumber(irq);
  }

  /** __NVIC_SetPriority on bytes. */
  function SetBytes(b: ByteWide, irq: int, priority: Word, p: PrioBits): (b': ByteWide)
    requires |b.shpr| == 12 && -8 <= irq < |b.ipr|
    ensures |b'.ipr| == |b.ipr| && |b'.shpr| == 12
  {
    if irq >= 0 then
      b.(ipr := b.ipr[irq := Stored(priority, p)])
    else
      ByteIndex(irq);
      b.(shpr := b.shpr[ByteShpIdx(irq) := Stored(priority, p)])
  }

  /** __NVIC_GetPriority on bytes. */
  function GetBytes(b: ByteWide, irq: int, p: PrioBits): nat
    requires |b.shpr| == 12 && -8 <= irq < |b.ipr|
  {
    if irq >= 0 then
      ShiftRight(b.ipr[irq], 8 - p)
    else
      ByteIndex(irq);
      ShiftRight(b.shpr[ByteShpIdx(irq)], 8 - p)
  }

  /** The byte that the words hold at the address of irq: IPR byte irq, or byte irq+8 from
      0x01C, which the byte-wide layout reaches as byte irq+12 from 0x018. */
  function ByteAt(r: Packed, irq: int): Byte
    requires WellSized(r) && HasPriority(|r.ipr|, irq)
  {
    if irq >= 0 then Lane(r.ipr[irq / 4], irq % 4) else Lane(r.shpr[(irq + 8) / 4], (irq + 8) % 4)
  }

  /** The words and the bytes hold the same byte at every priority's address. */
  ghost predicate Refines(r: Packed, b: ByteWide) {
    && SameSize(r, b)
    && (forall irq: int | HasPriority(|r.ipr|, irq) ::
      ByteAt(r, irq) == if irq >= 0 then b.ipr[irq] else b.shpr[irq + 12])
  }

  /** A packed write changes the addressed byte and no other. */
  lemma SetPackedByte(r: Packed, irq: int, priority: Word, p: PrioBits, other: int)
    requires WellSized(r) && HasPriority(|r.ipr|, irq) && HasPriority(|r.ipr|, other)
    ensures ByteAt(SetPacked(r, irq, priority, p), other)
         == if other == irq then Stored(priority, p) else ByteAt(r, other)
  {
    IndexMacros(irq);
    if irq >= 0 && other >= 0 && irq / 4 == other / 4 {
      LaneOfInsert(r.ipr[irq / 4], irq % 4, Stored(priority, p), other % 4);
    } else if irq < 0 && other < 0 && (irq + 8) / 4 == (other + 8) / 4 {
      LaneOfInsert(r.shpr[(irq + 8) / 4], (irq + 8) % 4, Stored(priority, p), (other + 8) % 4);
    }
  }

  lemma SetKeepsRefinement(r: Packed, b: ByteWide, irq: int, priority: Word, p: PrioBits)
    requires Refines(r, b) && HasPriority(|r.ipr|, irq)
    ensures Refines(SetPacked(r, irq, priority, p), SetBytes(b, irq, priority, p))
  {
    var r', b' := SetPacked(r, irq, priority, p), SetBytes(b, irq, priority, p);
    if irq < 0 {
      ByteIndex(irq);
    }
    forall other: int | HasPriority(|r'.ipr|, other)
      ensures ByteAt(r', other) == if other >= 0 then b'.ipr[other] else b'.shpr[other + 12]
    {
      SetPackedByte(r, irq, priority, p, other);
    }
  }

  lemma GetIsRefined(r: Packed, b: ByteWide, irq: int, p: PrioBits)
    requires Refines(r, b) && HasPriority(|r.ipr|, irq)
    ensures GetPacked(r, irq, p) == GetBytes(b, irq, p)
  {
    IndexMacros(irq);
    assert ByteAt(r, irq) == if irq >= 0 then b.ipr[irq] else b.shpr[irq + 12];
    if irq < 0 {
      ByteIndex(irq);
    }
  }

  // ---------------------------------------------------------- any sequence of calls

  datatype SetCall = SetCall(irq: int, priority: Word)

  predicate Accepted(words: nat, calls: seq<SetCall>) {
    forall c | c in calls :: HasPriority(words, c.irq)
  }

  function RunPacked(r: Packed, calls: seq<SetCall>, p: PrioBits): (r': Packed)
    requires WellSized(r) && Accepted(|r.ipr|, calls)
    ensures WellSized(r') && |r'.ipr| == |r.ipr|
  {
    if calls == [] then r
    else
      var n := |calls| - 1;
      SetPacked(RunPacked(r, calls[..n], p), calls[n].irq, calls[n].priority, p)
  }

  function RunBytes(b: ByteWide, calls: seq<SetCall>, p: PrioBits): (b': ByteWide)
    requires |b.shpr| == 12 && (forall c | c in calls :: -8 <= c.irq < |b.ipr|)
    ensures |b'.shpr| == 12 && |b'.ipr| == |b.ipr|
  {
    if calls == [] then b
    else
      var n := |calls| - 1;
      SetBytes(RunBytes(b, calls[..n], p), calls[n].irq, calls[n].priority, p)
  }

  /** The priority last set for irq, if any call sets it. */
  function LastSet(calls: seq<SetCall>, irq: int): (last: seq<Word>)
    ensures |last| <= 1
  {
    if calls == [] then []
    else
      var n := |calls| - 1;
      if calls[n].irq == irq then [calls[n].priority] else LastSet(calls[..n], irq)
  }

  /** After any sequence of calls the words still hold what the bytes would hold, and both
      read functions agree. */
  lemma {:induction false} PackedRefinesBytes(r: Packed, b: ByteWide, calls: seq<SetCall>, p: PrioBits)
    requires Refines(r, b) && Accepted(|r.ipr|, calls)
    ensures Refines(RunPacked(r, calls, p), RunBytes(b, calls, p))
    ensures forall irq: int | HasPriority(|r.ipr|, irq) ::
      GetPacked(RunPacked(r, calls, p), irq, p) == GetBytes(RunBytes(b, calls, p), irq, p)
  {
    if calls != [] {
      var n := |calls| - 1;
      PackedRefinesBytes(r, b, calls[..n], p);
      SetKeepsRefinement(RunPacked(r, calls[..n], p), RunBytes(b, calls[..n], p), calls[n].irq, calls[n].priority, p);
    }
    forall irq: int | HasPriority(|r.ipr|, irq)
      ensures GetPacked(RunPacked(r, calls, p), irq, p) == GetBytes(RunBytes(b, calls, p), irq, p)
    {
      GetIsRefined(RunPacked(r, calls, p), RunBytes(b, calls, p), irq, p);
    }
  }

  /** GetPriority returns the last value set, mod 2^PRIO_BITS; a number never set keeps its
      old priority. */
  lemma {:induction false} GetReturnsLastSet(r: Packed, calls: seq<SetCall>, irq: int, p: PrioBits)
    requires WellSized(r) && Accepted(|r.ipr|, calls) && -8 <= irq < 4 * |r.ipr|
    ensures GetPacked(RunPacked(r, calls, p), irq, p)
         == (var last := LastSet(calls, irq); if last == [] then GetPacked(r, irq, p) else last[0] % Pow2(p))
  {
    if calls != [] {
      var n := |calls| - 1;
      var before := RunPacked(r, calls[..n], p);
      GetReturnsLastSet(r, calls[..n], irq, p);
      SetPackedByte(before, calls[n].irq, calls[n].priority, p, irq);
      IndexMacros(irq);
      StoredReadsBack(calls[n].priority, p);
      AndMask(calls[n].priority, p);
    }
  }

  // -------------------------------------------------- preemption and sub-priority

  /** PreemptPriorityBits */
  function PreemptBits(group: Word, p: PrioBits): nat {
    var g := And(group, 0x07);
    if ToWord(7 - g) > p then p else ToWord(7 - g)
  }

  /** SubPriorityBits; the difference wraps below zero and the sum wraps back. */
  function SubBits(group: Word, p: PrioBits): nat {
    var g := And(group, 0x07);
    if ToWord(g + p) < 7 then 0 else ToWord(ToWord(g - 7) + p)
  }

  /** The mask (1UL << n) - 1UL. */
  function FieldMask(n: nat): Word {
    ToWord(ShiftLeft(1, n) - 1)
  }

  /** NVIC_EncodePriority */
  function Encode(group: Word, preempt: Word, sub: Word, p: PrioBits): nat {
    Or(ShiftLeft(And(preempt, FieldMask(PreemptBits(group, p))), SubBits(group, p)),
       And(sub, FieldMask(SubBits(group, p))))
  }

  /** NVIC_DecodePriority: the two out-parameters. */
  function Decode(priority: Word, group: Word, p: PrioBits): (nat, nat) {
    (And(ShiftRight(priority, SubBits(group, p)), FieldMask(PreemptBits(group, p))),
     And(priority, FieldMask(SubBits(group, p))))
  }

  lemma GroupValue(group: Word)
    ensures And(group, 0x07) == group % 8
  {
    assert Pow2(3) == 8;
    AndMask(group, 3);
  }

  /** Despite the wraparound the two fields share the implemented bits out between them. */
  lemma FieldWidths(group: Word, p: PrioBits)
    ensures PreemptBits(group, p) + SubBits(group, p) == p
    ensures SubBits(group, p) == if group % 8 + p <= 7 then 0 else group % 8 + p - 7
  {
    GroupValue(group);
    var g := And(group, 0x07);
    ToWordSmall(7 - g);
    ToWordSmall(g + p);
    if g < 7 {
      ToWordWraps(g - 7);
      if g + p >= 7 {
        ToWordOverflows(g - 7 + WORD_SIZE + p);
      }
    } else {
      ToWordSmall(0);
      ToWordSmall(p);
    }
  }

  lemma FieldMaskValue(n: nat)
    requires n <= 8
    ensures FieldMask(n) == Pow2(n) - 1 && Pow2(n) <= 0x100
  {
    Pow2Values();
    Pow2Monotone(n, 8);
    ShiftLeftMultiplies(1, n);
    ToWordSmall(Pow2(n) - 1);
  }

  lemma MaskedField(x: Word, n: nat)
    requires n <= 8
    ensures And(x, FieldMask(n)) == x % Pow2(n) < Pow2(n) <= 0x100
  {
    FieldMaskValue(n);
    AndMask(x, n);
  }

  /** Two fields side by side. */
  lemma JoinFields(high: nat, low: nat, m: nat, n: nat)
    requires m + n <= 8 && high < Pow2(m) && low < Pow2(n)
    ensures high < WORD_SIZE && high * Pow2(n) + low < Pow2(m + n) <= 0x100
    ensures Or(ShiftLeft(high, n), low) == high * Pow2(n) + low
  {
    FieldMaskValue(m);
    FieldMaskValue(m + n);
    FieldsFit(high, low, m, n);
    ShiftLeftMultiplies(high, n);
    OrOfDisjoint(high, low, n);
  }

  lemma EncodeValue(group: Word, preempt: Word, sub: Word, p: PrioBits)
    ensures Encode(group, preempt, sub, p)
         == preempt % Pow2(PreemptBits(group, p)) * Pow2(SubBits(group, p)) + sub % Pow2(SubBits(group, p))
    ensures Encode(group, preempt, sub, p) < Pow2(p) <= 0x100
  {
    FieldWidths(group, p);
    var m, n := PreemptBits(group, p), SubBits(group, p);
    MaskedField(preempt, m);
    MaskedField(sub, n);
    JoinFields(preempt % Pow2(m), sub % Pow2(n), m, n);
  }

  lemma FieldsFit(high: nat, low: nat, m: nat, n: nat)
    requires high < Pow2(m) && low < Pow2(n)
    ensures high * Pow2(n) + low < Pow2(m + n)
  {
    Pow2Sum(m, n);
    assert high * Pow2(n) + Pow2(n) == (high + 1) * Pow2(n);
    ProductMonotone(high + 1, Pow2(m), Pow2(n));
  }

  lemma ProductMonotone(a: nat, b: nat, c: nat)
    requires a <= b
    ensures a * c <= b * c
  {
  }

  lemma DecodeValue(priority: Word, group: Word, p: PrioBits)
    ensures Decode(priority, group, p)
         == (priority / Pow2(SubBits(group, p)) % Pow2(PreemptBits(group, p)), priority % Pow2(SubBits(group, p)))
  {
    FieldWidths(group, p);
    var m, n := PreemptBits(group, p), SubBits(group, p);
    FieldMaskValue(m);
    FieldMaskValue(n);
    ShiftRightDivides(priority, n);
    AndMask(ShiftRight(priority, n), m);
    AndMask(priority, n);
  }

  // Two fields of a <= Pow2(m) and b <= Pow2(n) values, side by side: plain division facts.

  lemma SplitOfJoined(high: nat, low: nat, a: nat, b: nat)
    requires high < a && low < b
    ensures (high * b + low) / b % a == high && (high * b + low) % b == low
  {
    DivisionIsUnique(high * b + low, b, high, low);
    SmallRemainder(high, a);
  }

  lemma JoinOfSplit(x: nat, a: nat, b: nat)
    requires a > 0 && b > 0
    ensures x % (a * b) == x / b % a * b + x % b
  {
    var y := x / b;
    Joined(x, a, b, y / a, y % a, x % b);
  }

  lemma Joined(x: nat, a: nat, b: nat, q: nat, high: nat, low: nat)
    requires high < a && low < b && x == b * (a * q + high) + low
    ensures x % (a * b) == high * b + low
  {
    Regroup(a, b, q, high);
    ProductMonotone(high + 1, a, b);
    assert (high + 1) * b == high * b + b;
    DivisionIsUnique(x, a * b, q, high * b + low);
  }

  lemma Regroup(a: nat, b: nat, q: nat, high: nat)
    ensures b * (a * q + high) == (a * b) * q + high * b
  {
  }

  lemma JoinedOrder(high: nat, low: nat, high': nat, low': nat, unit: nat)
    requires low < unit && low' < unit
    ensures high * unit + low < high' * unit + low' <==> high < high' || (high == high' && low < low')
  {
    if high < high' {
      ProductMonotone(high + 1, high', unit);
      assert (high + 1) * unit == high * unit + unit;
    } else if high' < high {
      ProductMonotone(high' + 1, high, unit);
      assert (high' + 1) * unit == high' * unit + unit;
    }
  }

  lemma SmallRemainder(x: nat, m: nat)
    requires x < m
    ensures x % m == x
  {
  }

  /** Decoding an encoded priority gives both fields, each cut to its width. */
  lemma DecodeOfEncode(group: Word, preempt: Word, sub: Word, p: PrioBits)
    ensures Encode(group, preempt, sub, p) < Pow2(p) <= 0x100
    ensures Decode(Encode(group, preempt, sub, p), group, p)
         == (preempt % Pow2(PreemptBits(group, p)), sub % Pow2(SubBits(group, p)))
  {
    EncodeValue(group, preempt, sub, p);
    FieldWidths(group, p);
    var x: Word := Encode(group, preempt, sub, p);
    var a, b := Pow2(PreemptBits(group, p)), Pow2(SubBits(group, p));
    DecodeValue(x, group, p);
    SplitOfJoined(preempt % a, sub % b, a, b);
  }

  lemma EncodeOfFields(group: Word, preempt: Word, sub: Word, p: PrioBits)
    requires preempt < Pow2(PreemptBits(group, p)) && sub < Pow2(SubBits(group, p))
    ensures Encode(group, preempt, sub, p) == preempt * Pow2(SubBits(group, p)) + sub
  {
    FieldWidths(group, p);
    EncodeValue(group, preempt, sub, p);
    SmallRemainder(preempt, Pow2(PreemptBits(group, p)));
    SmallRemainder(sub, Pow2(SubBits(group, p)));
  }

  lemma WidthsMultiply(group: Word, p: PrioBits)
    ensures Pow2(p) == Pow2(PreemptBits(group, p)) * Pow2(SubBits(group, p)) <= 0x100
    ensures Pow2(PreemptBits(group, p)) <= 0x100 && Pow2(SubBits(group, p)) <= 0x100
  {
    FieldWidths(group, p);
    Pow2Sum(PreemptBits(group, p), SubBits(group, p));
    FieldMaskValue(p);
    FieldMaskValue(PreemptBits(group, p));
    FieldMaskValue(SubBits(group, p));
  }

  lemma DecodedFields(x: Word, group: Word, p: PrioBits)
    ensures Decode(x, group, p).0 < Pow2(PreemptBits(group, p))
    ensures Decode(x, group, p).1 < Pow2(SubBits(group, p))
    ensures Decode(x, group, p).0 * Pow2(SubBits(group, p)) + Decode(x, group, p).1 == x % Pow2(p)
  {
    WidthsMultiply(group, p);
    DecodeValue(x, group, p);
    JoinOfSplit(x, Pow2(PreemptBits(group, p)), Pow2(SubBits(group, p)));
  }

  /** Encoding a decoded priority gives its PRIO_BITS low bits. */
  lemma EncodeOfDecode(x: Word, group: Word, p: PrioBits)
    ensures var (preempt, sub) := Decode(x, group, p);
      preempt < WORD_SIZE && sub < WORD_SIZE && Encode(group, preempt, sub, p) == x % Pow2(p)
  {
    WidthsMultiply(group, p);
    DecodedFields(x, group, p);
    EncodeOfFields(group, Decode(x, group, p).0, Decode(x, group, p).1, p);
  }

  /** For fields within their widths a smaller encoded number means the lexicographically
      smaller pair, so comparing priorities compares preemption first. */
  lemma EncodeIsLexicographic(group: Word, a: (Word, Word), b: (Word, Word), p: PrioBits)
    requires a.0 < Pow2(PreemptBits(group, p)) && a.1 < Pow2(SubBits(group, p))
    requires b.0 < Pow2(PreemptBits(group, p)) && b.1 < Pow2(SubBits(group, p))
    ensures Encode(group, a.0, a.1, p) < Encode(group, b.0, b.1, p)
       <==> a.0 < b.0 || (a.0 == b.0 && a.1 < b.1)
  {
    EncodeOfFields(group, a.0, a.1, p);
    EncodeOfFields(group, b.0, b.1, p);
    JoinedOrder(a.0, a.1, b.0, b.1, Pow2(SubBits(group, p)));
  }

  /** Fields set for an interrupt come back from the packed registers, whatever is set
      for other interrupts afterwards. */
  lemma FieldsSurviveTheRegisters(
      r: Packed, before: seq<SetCall>, after: seq<SetCall>, irq: int, group: Word, preempt: Word, sub: Word, p: PrioBits)
    requires WellSized(r) && HasPriority(|r.ipr|, irq)
    requires Accepted(|r.ipr|, before) && Accepted(|r.ipr|, after)
    requires forall c | c in after :: c.irq != irq
    ensures Encode(group, preempt, sub, p) < WORD_SIZE
    ensures var calls := before + [SetCall(irq, Encode(group, preempt, sub, p))] + after;
      Accepted(|r.ipr|, calls) && GetPacked(RunPacked(r, calls, p), irq, p) < WORD_SIZE &&
      Decode(GetPacked(RunPacked(r, calls, p), irq, p), group, p)
        == (preempt % Pow2(PreemptBits(group, p)), sub % Pow2(SubBits(group, p)))
  {
    DecodeOfEncode(group, preempt, sub, p);
    var call := SetCall(irq, Encode(group, preempt, sub, p));
    var calls := before + [call] + after;
    LastSetSkips(before + [call], after, irq);
    assert (before + [call])[..|before|] == before;
    GetReturnsLastSet(r, calls, irq, p);
    SmallRemainder(call.priority, Pow2(p));
  }

  lemma {:induction false} LastSetSkips(calls: seq<SetCall>, after: seq<SetCall>, irq: int)
    requires forall c | c in after :: c.irq != irq
    ensures LastSet(calls + after, irq) == LastSet(calls, irq)
    decreases |after|
  {
    if after == [] {
      assert calls + after == calls;
    } else {
      var n := |after| - 1;
      assert (calls + after)[..|calls + after| - 1] == calls + after[..n];
      LastSetSkips(calls, after[..n], irq);
    }
  }

  // ------------------------------------------------------ the registers in memory

  /** The register file of Armv6-M and Armv8-M Baseline. */
  class PackedRegisters {
    const ipr: array<Word>
    const shpr: array<Word>

    ghost predicate Valid()
      reads this
    {
      ipr != shpr && ipr.Length <= 124 && shpr.Length == 2
    }

    ghost function View(): (r: Packed)
      requires Valid()
      reads this, ipr, shpr
      ensures WellSized(r)
    {
      Packed(ipr[..], shpr[..])
    }

    constructor (words: nat)
      requires words <= 124
      ensures Valid() && ipr.Length == words && fresh(ipr) && fresh(shpr)
    {
      ipr := new Word[words](_ => 0);
      shpr := new Word[2](_ => 0);
    }

    method SetPriority(irq: int, priority: Word, p: PrioBits)
      requires Valid() && HasPriority(ipr.Length, irq)
      modifies ipr, shpr
      ensures View() == SetPacked(old(View()), irq, priority, p)
    {
      IndexMacros(irq);
      if irq >= 0 {
        LaneOfInsert(ipr[IpIdx(irq)], irq % 4, Stored(priority, p), 0);
        ipr[IpIdx(irq)] := Or(And(ipr[IpIdx(irq)], Not(ShiftLeft(0xFF, BitShift(irq)))),
                              ShiftLeft(And(ShiftLeft(priority, 8 - p), 0xFF), BitShift(irq)));
      } else {
        LaneOfInsert(shpr[ShpIdx(irq)], (irq + 8) % 4, Stored(priority, p), 0);
        shpr[ShpIdx(irq)] := Or(And(shpr[ShpIdx(irq)], Not(ShiftLeft(0xFF, BitShift(irq)))),
                                ShiftLeft(And(ShiftLeft(priority, 8 - p), 0xFF), BitShift(irq)));
      }
    }

    method GetPriority(irq: int, p: PrioBits) returns (priority: nat)
      requires Valid() && HasPriority(ipr.Length, irq)
      ensures priority == GetPacked(View(), irq, p)
    {
      IndexMacros(irq);
      if irq >= 0 {
        priority := ShiftRight(And(ShiftRight(ipr[IpIdx(irq)], BitShift(irq)), 0xFF), 8 - p);
      } else {
        priority := ShiftRight(And(ShiftRight(shpr[ShpIdx(irq)], BitShift(irq)), 0xFF), 8 - p);
      }
    }
  }

  /** The register file of Armv8-M Mainline. */
  class ByteRegisters {
    const ipr: array<Byte>
    const shpr: array<Byte>

    ghost predicate Valid()
      reads this
    {
      ipr != shpr && shpr.Length == 12
    }

    ghost function View(): ByteWide
      reads this, ipr, shpr
    {
      ByteWide(ipr[..], shpr[..])
    }

    constructor (bytes: nat)
      ensures Valid() && ipr.Length == bytes && fresh(ipr) && fresh(shpr)
    {
      ipr := new Byte[bytes](_ => 0);
      shpr := new Byte[12](_ => 0);
    }

    method SetPriority(irq: int, priority: Word, p: PrioBits)
      requires Valid() && -8 <= irq < ipr.Length
      modifies ipr, shpr
      ensures View() == SetBytes(old(View()), irq, priority, p)
    {
      if irq >= 0 {
        ipr[irq] := And(ShiftLeft(priority, 8 - p), 0xFF);
      } else {
        ByteIndex(irq);
        shpr[ByteShpIdx(irq)] := And(ShiftLeft(priority, 8 - p), 0xFF);
      }
    }

    method GetPriority(irq: int, p: PrioBits) returns (priority: nat)
      requires Valid() && -8 <= irq < ipr.Length
      ensures priority == GetBytes(View(), irq, p)
    {
      if irq >= 0 {
        priority := ShiftRight(ipr[irq], 8 - p);
      } else {
        ByteIndex(irq);
        priority := ShiftRight(shpr[ByteShpIdx(irq)], 8 - p);
      }
    }
  }

  // ------------------------------------------------------- interrupt target states

  const TARGET_WORDS: nat := 16

  /** The interrupt is assigned to the Non-secure state. */
  predicate NonSecure(itns: seq<Word>, irq: nat)
    requires |itns| == TARGET_WORDS && irq < 32 * TARGET_WORDS
  {
    Bit(itns[irq / 32], irq % 32)
  }

  lemma TargetIndex(irq: nat)
    requires irq < WORD_SIZE
    ensures ShiftRight(irq, 5) == irq / 32 && And(irq, 0x1F) == irq % 32
  {
    Pow2Sum(2, 3);
    assert Pow2(2) == 4 && Pow2(3) == 8;
    ShiftRightDivides(irq, 5);
    AndMask(irq, 5);
  }

  /** NVIC->ITNS, one bit for every interrupt. */
  class TargetRegisters {
    const itns: array<Word>

    ghost predicate Valid()
      reads this
    {
      itns.Length == TARGET_WORDS
    }

    constructor ()
      ensures Valid() && fresh(itns)
    {
      itns := new Word[TARGET_WORDS](_ => 0);
    }

    method GetTargetState(irq: int) returns (state: nat)
      requires Valid() && irq < 32 * TARGET_WORDS
      ensures state == if irq >= 0 && NonSecure(itns[..], irq) then 1 else 0
    {
      if irq >= 0 {
        TargetIndex(irq);
        BitOfOneShifted(irq % 32, 0);
        AndPow2(itns[irq / 32], irq % 32);
        state := if And(itns[ShiftRight(irq, 5)], ShiftLeft(1, And(irq, 0x1F))) != 0 then 1 else 0;
      } else {
        state := 0;
      }
    }

    /** Assigns irq to Non-secure and nothing else. */
    method SetTargetState(irq: int) returns (state: nat)
      requires Valid() && irq < 32 * TARGET_WORDS
      modifies itns
      ensures irq < 0 ==> state == 0 && itns[..] == old(itns[..])
      ensures irq >= 0 ==> state == 1
      ensures irq >= 0 ==> forall other: nat | other < 32 * TARGET_WORDS ::
        NonSecure(itns[..], other) <==> other == irq || NonSecure(old(itns[..]), other)
    {
      if irq >= 0 {
        TargetIndex(irq);
        var one := ShiftLeft(1, And(irq, 0x1F));
        ghost var was := itns[irq / 32];
        Pow2Values();
        OrBound(was, one, 32);
        itns[ShiftRight(irq, 5)] := Or(itns[ShiftRight(irq, 5)], one);
        forall k: nat | k < 32 ensures Bit(Or(was, one), k) <==> Bit(was, k) || k == irq % 32 {
          BitOfOr(was, one, k);
          BitOfOneShifted(irq % 32, k);
        }
        OneWordChanged(old(itns[..]), itns[..], irq, true);
        state := GetTargetState(irq);
      } else {
        state := 0;
      }
    }

    /** Assigns irq to Secure and nothing else. */
    method ClearTargetState(irq: int) returns (state: nat)
      requires Valid() && irq < 32 * TARGET_WORDS
      modifies itns
      ensures state == 0
      ensures irq < 0 ==> itns[..] == old(itns[..])
      ensures irq >= 0 ==> forall other: nat | other < 32 * TARGET_WORDS ::
        NonSecure(itns[..], other) <==> other != irq && NonSecure(old(itns[..]), other)
    {
      if irq >= 0 {
        TargetIndex(irq);
        var one := ShiftLeft(1, And(irq, 0x1F));
        ghost var was := itns[irq / 32];
        itns[ShiftRight(irq, 5)] := And(itns[ShiftRight(irq, 5)], Not(one));
        forall k: nat | k < 32 ensures Bit(And(was, Not(one)), k) <==> Bit(was, k) && k != irq % 32 {
          BitOfAnd(was, Not(one), k);
          BitOfNot(one, k);
          BitOfOneShifted(irq % 32, k);
        }
        OneWordChanged(old(itns[..]), itns[..], irq, false);
        state := GetTargetState(irq);
      } else {
        state := 0;
      }
    }
  }

  lemma OneWordChanged(before: seq<Word>, after: seq<Word>, irq: nat, value: bool)
    requires |before| == TARGET_WORDS && irq < 32 * TARGET_WORDS
    requires |after| == TARGET_WORDS && after == before[irq / 32 := after[irq / 32]]
    requires forall k: nat | k < 32 ::
      Bit(after[irq / 32], k) <==> if k == irq % 32 then value else Bit(before[irq / 32], k)
    ensures forall other: nat | other < 32 * TARGET_WORDS ::
      NonSecure(after, other) <==> if other == irq then value else NonSecure(before, other)
  {
  }
}
