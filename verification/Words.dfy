/** C's uint32_t: natural numbers below 2^32, its bitwise operators defined bit by bit,
    and the lemmas that reduce an equation between words to its single bits. */
module Words {

  const WORD_SIZE: nat := 0x1_0000_0000

  type Word = v: nat | v < 0x1_0000_0000

  function Pow2(n: nat): (p: nat)
    ensures p > 0
  {
    if n == 0 then 1 else 2 * Pow2(n - 1)
  }

  /** An integer as the uint32_t that C converts it to. */
  function ToWord(x: int): Word {
    x % WORD_SIZE
  }

  lemma ToWordSmall(x: int)
    requires 0 <= x < WORD_SIZE
    ensures ToWord(x) == x
  {
  }

  lemma ToWordWraps(x: int)
    requires x < 0 <= x + WORD_SIZE
    ensures ToWord(x) == x + WORD_SIZE
  {
  }

  lemma ToWordOverflows(x: int)
    requires WORD_SIZE <= x < 2 * WORD_SIZE
    ensures ToWord(x) == x - WORD_SIZE
  {
  }

  /** The bit of v at position k, counted from the least significant end. */
  predicate Bit(v: nat, k: nat) {
    if k == 0 then v % 2 == 1 else Bit(v / 2, k - 1)
  }

  /** v << n; what leaves the word is lost. */
  function ShiftLeft(v: Word, n: nat): Word
    decreases n
  {
    if n == 0 then v else ShiftLeft(v * 2 % WORD_SIZE, n - 1)
  }

  /** v >> n */
  function ShiftRight(v: nat, n: nat): (r: nat)
    ensures r <= v
    decreases n
  {
    if n == 0 then v else ShiftRight(v / 2, n - 1)
  }

  /** v & w */
  function And(v: nat, w: nat): (r: nat)
    ensures r <= v && r <= w
  {
    if v == 0 || w == 0 then 0
    else 2 * And(v / 2, w / 2) + if v % 2 == 1 && w % 2 == 1 then 1 else 0
  }

  /** v | w */
  function Or(v: nat, w: nat): nat
    decreases v + w
  {
    if v == 0 && w == 0 then 0
    else 2 * Or(v / 2, w / 2) + if v % 2 == 1 || w % 2 == 1 then 1 else 0
  }

  /** ~v */
  function Not(v: Word): Word {
    WORD_SIZE - 1 - v
  }

  // ------------------------------------------------------------------ powers of two

  lemma {:induction false} Pow2Sum(a: nat, b: nat)
    ensures Pow2(a + b) == Pow2(a) * Pow2(b)
  {
    if a > 0 {
      Pow2Sum(a - 1, b);
      DoubleOfProduct(Pow2(a - 1), Pow2(b));
      assert Pow2(a + b) == 2 * Pow2(a - 1 + b);
    }
  }

  lemma DoubleOfProduct(p: nat, q: nat)
    ensures 2 * (p * q) == (2 * p) * q
  {
  }

  lemma Pow2Values()
    ensures Pow2(7) == 0x80 && Pow2(8) == 0x100 && Pow2(31) == 0x8000_0000 && Pow2(32) == WORD_SIZE
  {
    Pow2OfFour(4);
    Pow2Sum(8, 8);
    Pow2Sum(16, 16);
  }

  lemma Pow2OfFour(n: nat)
    requires n == 4
    ensures Pow2(n) == 0x10 && Pow2(2 * n - 1) == 0x80 && Pow2(2 * n) == 0x100
  {
    assert Pow2(n - 2) == 4;
    assert Pow2(n) == 4 * Pow2(n - 2);
    assert Pow2(n + 2) == 4 * Pow2(n);
    assert Pow2(n + 3) == 2 * Pow2(n + 2);
  }

  lemma {:induction false} Pow2Monotone(a: nat, b: nat)
    requires a <= b
    ensures Pow2(a) <= Pow2(b)
  {
    if a < b {
      Pow2Monotone(a, b - 1);
    }
  }

  lemma ProductAtLeast(m: nat, d: nat)
    requires d > 0
    ensures m * d >= m
  {
  }

  /** Quotient and remainder are determined by the division equation. */
  lemma DivisionIsUnique(v: int, m: nat, q: int, r: nat)
    requires m > 0 && v == m * q + r && r < m
    ensures v % m == r && v / m == q
  {
    var q' := v / m;
    assert v == m * q' + v % m;
    if q' > q {
      ProductAtLeast(m, q' - q);
    } else if q' < q {
      ProductAtLeast(m, q - q');
    }
  }

  /** Dividing by 2^n takes n halvings. */
  lemma {:induction false} ShiftRightDivides(v: nat, n: nat)
    ensures ShiftRight(v, n) == v / Pow2(n)
    decreases n
  {
    if n > 0 {
      ShiftRightDivides(v / 2, n - 1);
      HalfFirst(v, Pow2(n - 1));
    }
  }

  lemma HalfFirst(v: nat, m: nat)
    requires m > 0
    ensures v / (2 * m) == v / 2 / m
    ensures v % (2 * m) == 2 * (v / 2 % m) + v % 2
  {
    var q, r := v / 2 / m, v / 2 % m;
    assert (2 * m) * q == 2 * (m * q);
    DivisionIsUnique(v, 2 * m, q, 2 * r + v % 2);
  }

  /** v & ((1 << n) - 1) is v mod 2^n. */
  lemma {:induction false} AndMask(v: nat, n: nat)
    ensures And(v, Pow2(n) - 1) == v % Pow2(n)
  {
    if n > 0 {
      AndMask(v / 2, n - 1);
      OneMoreMaskBit(v, Pow2(n - 1));
    }
  }

  lemma OneMoreMaskBit(v: nat, p: nat)
    requires p > 0 && And(v / 2, p - 1) == v / 2 % p
    ensures And(v, 2 * p - 1) == v % (2 * p)
  {
    HalfFirst(v, p);
    HalfOfMask(p);
    AndStep(v, 2 * p - 1);
  }

  lemma HalfOfMask(p: nat)
    requires p > 0
    ensures (2 * p - 1) / 2 == p - 1 && (2 * p - 1) % 2 == 1
  {
  }

  lemma AndStep(v: nat, w: nat)
    ensures And(v, w) == 2 * And(v / 2, w / 2) + if v % 2 == 1 && w % 2 == 1 then 1 else 0
  {
  }

  lemma {:induction false} ShiftLeftMultiplies(v: Word, n: nat)
    requires v * Pow2(n) < WORD_SIZE
    ensures ShiftLeft(v, n) == v * Pow2(n)
    decreases n
  {
    if n > 0 {
      DoubleFirst(v, Pow2(n - 1));
      ShiftLeftMultiplies(v * 2, n - 1);
    }
  }

  lemma DoubleFirst(v: nat, p: nat)
    requires p > 0 && v * (2 * p) < WORD_SIZE
    ensures v * (2 * p) == (v * 2) * p && v * 2 % WORD_SIZE == v * 2
  {
  }

  /** Or of a multiple of 2^n and a number below 2^n is their sum. */
  lemma {:induction false} OrOfDisjoint(a: nat, b: nat, n: nat)
    requires b < Pow2(n)
    ensures Or(a * Pow2(n), b) == a * Pow2(n) + b
    decreases n
  {
    if n == 0 {
      OrZero(a);
    } else {
      var m := a * Pow2(n - 1);
      assert a * Pow2(n) == 2 * m;
      OrOfDisjoint(a, b / 2, n - 1);
    }
  }

  lemma {:induction false} OrZero(a: nat)
    ensures Or(a, 0) == a
  {
    if a > 0 {
      OrZero(a / 2);
    }
  }

  // ------------------------------------------------------------ bits determine words

  lemma {:induction false} NoBitPast(v: nat, n: nat, k: nat)
    requires v < Pow2(n) && n <= k
    ensures !Bit(v, k)
  {
    if k > 0 {
      NoBitPast(v / 2, if n == 0 then 0 else n - 1, k - 1);
    }
  }

  /** Numbers below 2^n that agree on their n low bits are equal. */
  lemma {:induction false} Extensionality(v: nat, w: nat, n: nat)
    requires v < Pow2(n) && w < Pow2(n)
    requires forall k: nat | k < n :: Bit(v, k) <==> Bit(w, k)
    ensures v == w
  {
    if n > 0 {
      forall k: nat | k < n - 1 ensures Bit(v / 2, k) <==> Bit(w / 2, k) {
        assert Bit(v, k + 1) <==> Bit(w, k + 1);
      }
      Extensionality(v / 2, w / 2, n - 1);
      assert Bit(v, 0) <==> Bit(w, 0);
    }
  }

  /** A number without bits at n and above is below 2^n. */
  lemma {:induction false} BoundFromBits(v: nat, n: nat, m: nat)
    requires v < Pow2(m)
    requires forall k: nat | n <= k < m :: !Bit(v, k)
    ensures v < Pow2(n)
    decreases m
  {
    if m > 0 {
      if n == 0 {
        forall k: nat | k < m ensures Bit(v, k) <==> Bit(0, k) {
          NoBitPast(0, 0, k);
        }
        Extensionality(v, 0, m);
      } else {
        forall k: nat | n - 1 <= k < m - 1 ensures !Bit(v / 2, k) {
          assert !Bit(v, k + 1);
        }
        BoundFromBits(v / 2, n - 1, m - 1);
      }
    }
  }

  // ------------------------------------------------------- the bits of each operator

  lemma {:induction false} BitOfAnd(v: nat, w: nat, k: nat)
    ensures Bit(And(v, w), k) <==> Bit(v, k) && Bit(w, k)
  {
    if v == 0 || w == 0 {
      NoBitPast(0, 0, k);
    } else if k > 0 {
      BitOfAnd(v / 2, w / 2, k - 1);
    }
  }

  lemma {:induction false} BitOfOr(v: nat, w: nat, k: nat)
    ensures Bit(Or(v, w), k) <==> Bit(v, k) || Bit(w, k)
    decreases v + w, k
  {
    if v == 0 && w == 0 {
      NoBitPast(0, 0, k);
    } else if k > 0 {
      BitOfOr(v / 2, w / 2, k - 1);
    }
  }

  lemma {:induction false} OrBound(v: nat, w: nat, n: nat)
    requires v < Pow2(n) && w < Pow2(n)
    ensures Or(v, w) < Pow2(n)
  {
    if n > 0 {
      OrBound(v / 2, w / 2, n - 1);
    }
  }

  lemma {:induction false} BitOfComplement(v: nat, n: nat, k: nat)
    requires v < Pow2(n) && k < n
    ensures Bit(Pow2(n) - 1 - v, k) <==> !Bit(v, k)
  {
    if k > 0 {
      assert (Pow2(n) - 1 - v) / 2 == Pow2(n - 1) - 1 - v / 2;
      BitOfComplement(v / 2, n - 1, k - 1);
    }
  }

  lemma BitOfNot(v: Word, k: nat)
    requires k < 32
    ensures Bit(Not(v), k) <==> !Bit(v, k)
  {
    Pow2Values();
    BitOfComplement(v, 32, k);
  }

  /** The mask (1 << n) - 1. */
  lemma BitOfMask(n: nat, k: nat)
    ensures Bit(Pow2(n) - 1, k) <==> k < n
  {
    if k < n {
      NoBitPast(0, 0, k);
      BitOfComplement(0, n, k);
    } else {
      NoBitPast(Pow2(n) - 1, n, k);
    }
  }

  lemma {:induction false} BitOfShiftRight(v: nat, n: nat, k: nat)
    ensures Bit(ShiftRight(v, n), k) <==> Bit(v, k + n)
    decreases n
  {
    if n > 0 {
      BitOfShiftRight(v / 2, n - 1, k);
    }
  }

  /** A multiple of 2^n leaves the n low bits alone. */
  lemma {:induction false} LowBitsSurvive(v: nat, n: nat, h: nat, k: nat)
    requires k < n
    ensures Bit(v + Pow2(n) * h, k) <==> Bit(v, k)
    decreases n
  {
    var m := Pow2(n - 1) * h;
    assert Pow2(n) * h == 2 * m;
    if k > 0 {
      assert (v + 2 * m) / 2 == v / 2 + m;
      LowBitsSurvive(v / 2, n - 1, h, k - 1);
    }
  }

  lemma BitOfDouble(v: Word, k: nat)
    requires k < 32
    ensures Bit(v * 2 % WORD_SIZE, k) <==> k > 0 && Bit(v, k - 1)
  {
    if k > 0 {
      Pow2Values();
      assert v * 2 % WORD_SIZE / 2 == v % 0x8000_0000;
      assert v == v % 0x8000_0000 + 0x8000_0000 * (v / 0x8000_0000);
      LowBitsSurvive(v % 0x8000_0000, 31, v / 0x8000_0000, k - 1);
    }
  }

  lemma {:induction false} BitOfShiftLeft(v: Word, n: nat, k: nat)
    requires k < 32
    ensures Bit(ShiftLeft(v, n), k) <==> n <= k && Bit(v, k - n)
    decreases n
  {
    if n > 0 {
      BitOfShiftLeft(v * 2 % WORD_SIZE, n - 1, k);
      if n <= k + 1 {
        BitOfDouble(v, k - (n - 1));
      }
    }
  }

  /** v & (1 << k) tests bit k. */
  lemma {:induction false} AndPow2(v: nat, k: nat)
    ensures And(v, Pow2(k)) == if Bit(v, k) then Pow2(k) else 0
  {
    if v == 0 {
      NoBitPast(0, 0, k);
    } else if k > 0 {
      AndPow2(v / 2, k - 1);
    } else {
      assert And(v / 2, 0) == 0;
    }
  }

  /** The word 1 << n has bit n and no other. */
  lemma BitOfOneShifted(n: nat, k: nat)
    requires n < 32 && k < 32
    ensures ShiftLeft(1, n) == Pow2(n)
    ensures Bit(ShiftLeft(1, n), k) <==> k == n
  {
    Pow2Values();
    Pow2Monotone(n, 31);
    ShiftLeftMultiplies(1, n);
    BitOfShiftLeft(1, n, k);
    if n <= k {
      BitOfMask(1, k - n);
    }
  }
}
