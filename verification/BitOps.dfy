/** Bit routines of the CMSIS compiler headers: __RBIT, __CLZ and __ROR in their
    software forms.

    The reference meanings are those of section A7.7 of the ARMv7-M Architecture
    Reference Manual, stated bit by bit and independently of the loops. */
module BitOps {
  import opened Words

  // ------------------------------------------------------------------------ RBIT

  /** RBIT: bit k of the result is bit 31-k of the operand. */
  ghost predicate IsReversed(v: Word, r: Word) {
    forall k: nat | k < 32 :: Bit(r, k) <==> Bit(v, 31 - k)
  }

  lemma ReversalIsUnique(v: Word, r: Word, s: Word)
    requires IsReversed(v, r) && IsReversed(v, s)
    ensures r == s
  {
    Pow2Values();
    Extensionality(r, s, 32);
  }

  lemma ReversalIsInvolution(v: Word, r: Word, s: Word)
    requires IsReversed(v, r) && IsReversed(r, s)
    ensures s == v
  {
    Pow2Values();
    forall k: nat | k < 32 ensures Bit(s, k) <==> Bit(v, k) {
      assert Bit(s, k) <==> Bit(r, 31 - k);
      assert Bit(r, 31 - k) <==> Bit(v, 31 - (31 - k));
    }
    Extensionality(s, v, 32);
  }

  /** After i rounds the i+1 low bits of r are the reversed low bits of v; above them r
      still holds junk, because the loop starts from the whole word. */
  ghost predicate Collected(v: Word, i: nat, r: Word) {
    forall k: nat | k <= i :: Bit(r, k) <==> Bit(v, i - k)
  }

  /** What is left of v after i rounds. */
  ghost predicate Remaining(v: Word, i: nat, rest: Word) {
    forall k: nat :: Bit(rest, k) <==> Bit(v, k + i + 1)
  }

  lemma Round(v: Word, i: nat, r: Word, rest: Word)
    requires i < 31 && Collected(v, i, r) && Remaining(v, i, rest)
    ensures Or(ShiftLeft(r, 1), And(rest, 1)) < WORD_SIZE
    ensures Collected(v, i + 1, Or(ShiftLeft(r, 1), And(rest, 1)))
    ensures Remaining(v, i + 1, ShiftRight(rest, 1))
  {
    var r' := Or(ShiftLeft(r, 1), And(rest, 1));
    Pow2Values();
    OrBound(ShiftLeft(r, 1), And(rest, 1), 32);
    forall k: nat | k <= i + 1 ensures Bit(r', k) <==> Bit(v, i + 1 - k) {
      BitOfOr(ShiftLeft(r, 1), And(rest, 1), k);
      BitOfShiftLeft(r, 1, k);
      BitOfAnd(rest, 1, k);
      BitOfMask(1, k);
      assert Bit(rest, 0) <==> Bit(v, 0 + i + 1);
    }
    forall k: nat ensures Bit(ShiftRight(rest, 1), k) <==> Bit(v, k + (i + 1) + 1) {
      BitOfShiftRight(rest, 1, k);
      assert Bit(rest, k + 1) <==> Bit(v, (k + 1) + i + 1);
    }
  }

  lemma Finish(v: Word, i: nat, r: Word)
    requires i < 32 && Collected(v, i, r) && Remaining(v, i, 0)
    ensures IsReversed(v, ShiftLeft(r, 31 - i))
  {
    var done := ShiftLeft(r, 31 - i);
    forall k: nat | k < 32 ensures Bit(done, k) <==> Bit(v, 31 - k) {
      BitOfShiftLeft(r, 31 - i, k);
      if k < 31 - i {
        NoBitPast(0, 0, 31 - k - i - 1);
        assert Bit(v, (31 - k - i - 1) + i + 1) <==> Bit(0, 31 - k - i - 1);
      } else {
        assert Bit(r, k - (31 - i)) <==> Bit(v, i - (k - (31 - i)));
      }
    }
  }

  lemma StartOfRbit(v: Word)
    ensures ShiftRight(v, 1) < Pow2(31)
    ensures Collected(v, 0, v) && Remaining(v, 0, ShiftRight(v, 1))
  {
    Pow2Values();
    forall k: nat ensures Bit(ShiftRight(v, 1), k) <==> Bit(v, k + 0 + 1) {
      BitOfShiftRight(v, 1, k);
    }
  }

  /** __RBIT of the GCC header. */
  method RbitGcc(value: Word) returns (result: Word)
    ensures IsReversed(value, result)
  {
    var v: Word := value;
    var s := (4 * 8) - 1;
    result := v;
    v := ShiftRight(v, 1);
    StartOfRbit(value);
    while v != 0
      invariant 0 <= s < 32 && v < Pow2(s)
      invariant Collected(value, 31 - s, result)
      invariant Remaining(value, 31 - s, v)
      decreases s
    {
      Round(value, 31 - s, result, v);
      result := ShiftLeft(result, 1);
      result := Or(result, And(v, 1));
      s := s - 1;
      v := ShiftRight(v, 1);
    }
    Finish(value, 31 - s, result);
    result := ShiftLeft(result, s);
  }

  /** __RBIT of the IAR header, where the shift count is a uint8_t and the closing shift
      is part of the return expression. */
  method RbitIar(value: Word) returns (result: Word)
    ensures IsReversed(value, result)
  {
    var v: Word := value;
    var sc := 31;
    var r: Word := v;
    v := ShiftRight(v, 1);
    StartOfRbit(value);
    while v != 0
      invariant 0 <= sc < 32 && v < Pow2(sc)
      invariant Collected(value, 31 - sc, r)
      invariant Remaining(value, 31 - sc, v)
      decreases sc
    {
      Round(value, 31 - sc, r, v);
      r := ShiftLeft(r, 1);
      r := Or(r, And(v, 1));
      sc := sc - 1;
      v := ShiftRight(v, 1);
    }
    Finish(value, 31 - sc, r);
    return ShiftLeft(r, sc);
  }

  /** The two headers agree, and reversing twice gives the word back. */
  method RbitTwice(value: Word) returns (gcc: Word, iar: Word, back: Word)
    ensures gcc == iar && back == value
  {
    gcc := RbitGcc(value);
    iar := RbitIar(value);
    back := RbitGcc(iar);
    ReversalIsUnique(value, gcc, iar);
    ReversalIsInvolution(value, iar, back);
  }

  // ------------------------------------------------------------------------- CLZ

  /** CLZ: c zeros stand above the highest set bit; a zero word has 32. */
  ghost predicate IsLeadingZeros(v: Word, c: nat) {
    c <= 32 && (forall j: nat | 32 - c <= j < 32 :: !Bit(v, j)) && (c < 32 ==> Bit(v, 31 - c))
  }

  /** c zeros stand below the lowest set bit; a zero word has 32. */
  ghost predicate IsTrailingZeros(v: Word, c: nat) {
    c <= 32 && (forall j: nat | j < c :: !Bit(v, j)) && (c < 32 ==> Bit(v, c))
  }

  lemma ZeroFromBits(v: Word)
    requires forall j: nat | j < 32 :: !Bit(v, j)
    ensures v == 0
  {
    Pow2Values();
    forall k: nat | k < 32 ensures !Bit(0, k) {
      NoBitPast(0, 0, k);
    }
    Extensionality(v, 0, 32);
  }

  /** With c leading zeros the word is 1 once shifted right by 31-c. */
  lemma TopBitAlone(v: Word, c: nat)
    requires IsLeadingZeros(v, c) && c < 32
    ensures ShiftRight(v, 31 - c) == 1
  {
    var w := ShiftRight(v, 31 - c);
    Pow2Values();
    forall k: nat | k < 32 ensures Bit(w, k) <==> Bit(1, k) {
      BitOfShiftRight(v, 31 - c, k);
      BitOfMask(1, k);
      if k + 31 - c >= 32 {
        NoBitPast(v, 32, k + 31 - c);
      }
    }
    Extensionality(w, 1, 32);
  }

  /** The mask test looks at one bit. */
  lemma MaskedBit(data: Word, count: nat, mask: Word)
    requires count < 32 && mask == Pow2(31 - count)
    ensures And(data, mask) == 0 <==> !Bit(data, 31 - count)
    ensures count < 31 ==> ShiftRight(mask, 1) == Pow2(31 - (count + 1))
  {
    AndPow2(data, 31 - count);
    assert ShiftRight(mask, 1) == mask / 2;
  }

  lemma FirstMask(data: Word, count: nat, mask: Word)
    requires count == 0 && mask == 0x8000_0000
    ensures mask == Pow2(31 - count) && (And(data, mask) == 0 <==> !Bit(data, 31 - count))
  {
    Pow2Values();
    MaskedBit(data, count, mask);
  }

  lemma NoBitOfZero(k: nat)
    ensures !Bit(0, k)
  {
    NoBitPast(0, 0, k);
  }

  /** __CLZ of the IAR header. */
  method Clz(data: Word) returns (count: nat)
    ensures IsLeadingZeros(data, count)
    ensures if data == 0 then count == 32 else count < 32 && ShiftRight(data, 31 - count) == 1
  {
    if data == 0 {
      forall k: nat ensures !Bit(data, k) {
        NoBitOfZero(k);
      }
      return 32;
    }
    count := 0;
    var mask: Word := 0x8000_0000;
    FirstMask(data, count, mask);
    while And(data, mask) == 0
      invariant count < 32 && mask == Pow2(31 - count)
      invariant And(data, mask) == 0 <==> !Bit(data, 31 - count)
      invariant forall j: nat | 32 - count <= j < 32 :: !Bit(data, j)
      decreases 32 - count
    {
      if count == 31 {
        ZeroFromBits(data);
      }
      MaskedBit(data, count, mask);
      count := count + 1;
      mask := ShiftRight(mask, 1);
      MaskedBit(data, count, mask);
    }
    TopBitAlone(data, count);
  }

  /** CLZ after RBIT counts trailing zeros. */
  lemma LeadingZerosOfReversal(v: Word, r: Word, c: nat)
    requires IsReversed(v, r)
    ensures IsLeadingZeros(r, c) <==> IsTrailingZeros(v, c)
  {
    if IsLeadingZeros(r, c) {
      forall j: nat | j < c ensures !Bit(v, j) {
        assert Bit(r, 31 - j) <==> Bit(v, 31 - (31 - j));
      }
    }
  }

  method CountTrailingZeros(value: Word) returns (c: nat)
    ensures IsTrailingZeros(value, c)
  {
    var r := RbitIar(value);
    c := Clz(r);
    LeadingZerosOfReversal(value, r, c);
  }

  // ------------------------------------------------------------------------- ROR

  /** __ROR of the GCC header. */
  function RorGcc(op1: Word, op2: Word): nat {
    var n := op2 % 32;
    if n == 0 then op1 else Or(ShiftRight(op1, n), ShiftLeft(op1, 32 - n))
  }

  /** __ROR of the IAR header, which shifts by 32 - op2 unguarded: C gives it a meaning
      for 0 < op2 < 32 only. */
  function RorIar(op1: Word, op2: Word): nat
    requires 0 < op2 < 32
  {
    Or(ShiftRight(op1, op2), ShiftLeft(op1, 4 * 8 - op2))
  }

  /** The two halves of a rotation by m. */
  lemma BitOfHalves(v: Word, m: nat, k: nat)
    requires 0 < m < 32 && k < 32
    ensures Or(ShiftRight(v, m), ShiftLeft(v, 32 - m)) < WORD_SIZE
    ensures Bit(Or(ShiftRight(v, m), ShiftLeft(v, 32 - m)), k) <==> Bit(v, if k + m < 32 then k + m else k + m - 32)
  {
    var a, b := ShiftRight(v, m), ShiftLeft(v, 32 - m);
    Pow2Values();
    OrBound(a, b, 32);
    BitOfOr(a, b, k);
    BitOfShiftRight(v, m, k);
    BitOfShiftLeft(v, 32 - m, k);
    if k + m >= 32 {
      NoBitPast(v, 32, k + m);
    }
  }

  /** ROR: bit k of the result is bit k+n of the operand, counted round the word. */
  lemma BitOfRor(v: Word, n: Word, k: nat)
    requires k < 32
    ensures RorGcc(v, n) < WORD_SIZE
    ensures Bit(RorGcc(v, n), k) <==> Bit(v, (k + n) % 32)
  {
    var m := n % 32;
    TurnsDropOut(k, n);
    if m > 0 {
      BitOfHalves(v, m, k);
    }
  }

  lemma TurnsDropOut(k: nat, n: nat)
    requires k < 32
    ensures (k + n) % 32 == if k + n % 32 < 32 then k + n % 32 else k + n % 32 - 32
  {
  }

  lemma CountsAdd(k: nat, m: Word, n: Word)
    ensures ((k + n) % 32 + m) % 32 == (k + ToWord(m + n)) % 32
  {
    WholeTurns((k + n) % 32 + m, (k + n) / 32);
    if m + n >= WORD_SIZE {
      WholeTurns(k + ToWord(m + n), 0x800_0000);
    }
  }

  lemma WholeTurns(x: nat, q: nat)
    ensures (x + 32 * q) % 32 == x % 32
  {
  }

  /** Rotations add up, whatever the counts. */
  lemma RorComposes(v: Word, m: Word, n: Word)
    ensures RorGcc(v, m) < WORD_SIZE
    ensures RorGcc(RorGcc(v, m), n) == RorGcc(v, ToWord(m + n))
  {
    BitOfRor(v, m, 0);
    var once: Word := RorGcc(v, m);
    BitOfRor(once, n, 0);
    BitOfRor(v, ToWord(m + n), 0);
    forall k: nat | k < 32 ensures Bit(RorGcc(once, n), k) <==> Bit(RorGcc(v, ToWord(m + n)), k) {
      BitOfRor(once, n, k);
      BitOfRor(v, m, (k + n) % 32);
      BitOfRor(v, ToWord(m + n), k);
      CountsAdd(k, m, n);
    }
    Pow2Values();
    Extensionality(RorGcc(once, n), RorGcc(v, ToWord(m + n)), 32);
  }

  /** The two forms agree wherever C defines the IAR one. */
  lemma RorFormsAgree(v: Word, n: Word)
    requires 0 < n < 32
    ensures RorIar(v, n) == RorGcc(v, n)
  {
  }
}
