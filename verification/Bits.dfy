/** Shifts, masks and exclusive-or on unsigned words, as the kernel's address
    arithmetic uses them. Each operator is defined bit by bit; the lemmas turn
    it into addition, subtraction or rounding. A few facts about products and
    quotients that several modules need come last. */
module Bits {

  function Pow2(k: nat): (r: nat)
    ensures r >= 1
  {
    if k == 0 then 1 else 2 * Pow2(k - 1)
  }

  function Xor(a: nat, b: nat): nat {
    if a == 0 && b == 0 then 0
    else 2 * Xor(a / 2, b / 2) + (if a % 2 != b % 2 then 1 else 0)
  }

  function And(a: nat, b: nat): nat {
    if a == 0 || b == 0 then 0
    else 2 * And(a / 2, b / 2) + (if a % 2 == 1 && b % 2 == 1 then 1 else 0)
  }

  function Or(a: nat, b: nat): nat {
    if a == 0 && b == 0 then 0
    else 2 * Or(a / 2, b / 2) + (if a % 2 == 1 || b % 2 == 1 then 1 else 0)
  }

  function Shr(a: nat, k: nat): nat {
    if k == 0 then a else Shr(a / 2, k - 1)
  }

  /** Bit k of a. */
  predicate Bit(a: nat, k: nat) {
    if k == 0 then a % 2 == 1 else Bit(a / 2, k - 1)
  }

  /** x is a multiple of 2^k. */
  predicate Aligned(x: nat, k: nat) {
    k == 0 || (x % 2 == 0 && Aligned(x / 2, k - 1))
  }

  /** Start of the aligned run of 2^k numbers that holds i. */
  function HeadOf(i: nat, k: nat): (h: nat)
    ensures Aligned(h, k) && h <= i < h + Pow2(k)
  {
    if k == 0 then i else 2 * HeadOf(i / 2, k - 1)
  }

  lemma {:induction false} Pow2Mono(i: nat, j: nat)
    requires i <= j
    ensures Pow2(i) <= Pow2(j)
    ensures i < j ==> 2 * Pow2(i) <= Pow2(j)
    decreases j
  {
    if i < j { Pow2Mono(i, j - 1); }
  }

  lemma Pow2Double(k: nat)
    ensures Pow2(k + 1) == 2 * Pow2(k)
  {
  }

  /** Alignment to a larger power gives alignment to a smaller one. */
  lemma {:induction false} AlignedWeaken(x: nat, j: nat, k: nat)
    requires j <= k && Aligned(x, k)
    ensures Aligned(x, j)
  {
    if j > 0 { AlignedWeaken(x / 2, j - 1, k - 1); }
  }

  lemma {:induction false} AlignedSum(x: nat, y: nat, k: nat)
    requires Aligned(x, k) && Aligned(y, k)
    ensures Aligned(x + y, k)
    ensures x >= y ==> Aligned(x - y, k)
  {
    if k > 0 {
      AlignedSum(x / 2, y / 2, k - 1);
      assert (x + y) / 2 == x / 2 + y / 2;
      assert x >= y ==> (x - y) / 2 == x / 2 - y / 2;
    }
  }

  /** Two multiples of 2^k that differ are at least 2^k apart. */
  lemma {:induction false} AlignedGap(x: nat, y: nat, k: nat)
    requires Aligned(x, k) && Aligned(y, k) && x < y
    ensures x + Pow2(k) <= y
  {
    if k > 0 { AlignedGap(x / 2, y / 2, k - 1); }
  }

  lemma {:induction false} AlignedPow2(j: nat, k: nat)
    requires j <= k
    ensures Aligned(Pow2(k), j)
  {
    if j > 0 {
      assert Pow2(k) % 2 == 0 && Pow2(k) / 2 == Pow2(k - 1);
      AlignedPow2(j - 1, k - 1);
    }
  }

  lemma {:induction false} AlignedZero(j: nat)
    ensures Aligned(0, j)
  {
    if j > 0 { AlignedZero(j - 1); }
  }

  /** Aligned runs are nested or disjoint. */
  lemma Nested(h: nat, j: nat, p: nat, k: nat, i: nat)
    requires j <= k && Aligned(h, j) && Aligned(p, k)
    requires h <= i < h + Pow2(j) && p <= i < p + Pow2(k)
    ensures p <= h && h + Pow2(j) <= p + Pow2(k)
  {
    AlignedWeaken(p, j, k);
    if h < p { AlignedGap(h, p, j); }
    AlignedPow2(j, k);
    AlignedSum(p, Pow2(k), j);
    AlignedGap(h, p + Pow2(k), j);
  }

  /** Only one multiple of 2^k starts a run of 2^k that holds i. */
  lemma HeadUnique(i: nat, k: nat, h: nat)
    requires Aligned(h, k) && h <= i < h + Pow2(k)
    ensures HeadOf(i, k) == h
  {
    if HeadOf(i, k) < h {
      AlignedGap(HeadOf(i, k), h, k);
    } else if h < HeadOf(i, k) {
      AlignedGap(h, HeadOf(i, k), k);
    }
  }

  /** Bit k decides whether a multiple of 2^k is one of 2^(k+1). */
  lemma {:induction false} AlignedBit(a: nat, k: nat)
    ensures Aligned(a, k + 1) <==> Aligned(a, k) && !Bit(a, k)
    ensures Bit(a, k) ==> a >= Pow2(k)
  {
    if k > 0 { AlignedBit(a / 2, k - 1); }
  }

  lemma {:induction false} XorZero(a: nat)
    ensures Xor(a, 0) == a
  {
    if a > 0 { XorZero(a / 2); }
  }

  lemma {:induction false} XorTwice(a: nat, b: nat)
    ensures Xor(Xor(a, b), b) == a
  {
    if a != 0 || b != 0 {
      XorTwice(a / 2, b / 2);
    }
  }

  /** Flipping bit k adds or subtracts 2^k. */
  lemma {:induction false} XorPow2(a: nat, k: nat)
    ensures Bit(a, k) ==> a >= Pow2(k)
    ensures Xor(a, Pow2(k)) == if Bit(a, k) then a - Pow2(k) else a + Pow2(k)
    decreases k
  {
    if k == 0 {
      XorZero(a / 2);
    } else {
      var b := Pow2(k);
      XorPow2(a / 2, k - 1);
      assert b > 0 && b % 2 == 0 && b / 2 == Pow2(k - 1);
      assert Xor(a, b) == 2 * Xor(a / 2, b / 2) + a % 2;
    }
  }

  /** Masking a w-bit word with the complement of 2^m - 1 rounds it down to 2^m. */
  lemma {:induction false} AndHighMask(a: nat, w: nat, m: nat)
    requires m <= w && a < Pow2(w)
    ensures Pow2(m) <= Pow2(w)
    ensures And(a, Pow2(w) - Pow2(m)) == HeadOf(a, m)
    decreases w
  {
    hide And, HeadOf, Pow2, Aligned;
    Pow2Mono(m, w);
    if m == w || a == 0 {
      AlignedZero(m);
      HeadUnique(a, m, 0);
      AndZero(a, Pow2(w) - Pow2(m));
    } else if m == 0 {
      AndAllOnes(a, w);
      HeadOfSelf(a);
    } else {
      Pow2Double(w - 1);
      AndHighMask(a / 2, w - 1, m - 1);
      AndHighStep(a, w - 1, m - 1);
    }
  }

  lemma AndZero(a: nat, b: nat)
    requires a == 0 || b == 0
    ensures And(a, b) == 0
  {
  }

  lemma HeadOfSelf(a: nat)
    ensures Pow2(0) == 1 && HeadOf(a, 0) == a
  {
  }

  lemma AndHighStep(a: nat, w: nat, m: nat)
    requires Pow2(m) <= Pow2(w) && And(a / 2, Pow2(w) - Pow2(m)) == HeadOf(a / 2, m)
    ensures Pow2(m + 1) <= Pow2(w + 1) && And(a, Pow2(w + 1) - Pow2(m + 1)) == HeadOf(a, m + 1)
  {
    hide And, Pow2;
    Pow2Double(w);
    Pow2Double(m);
    AndEven(a, Pow2(w + 1) - Pow2(m + 1));
  }

  /** And with an even number: one step of the definition. */
  lemma AndEven(a: nat, b: nat)
    requires b % 2 == 0
    ensures And(a, b) == 2 * And(a / 2, b / 2)
  {
    assert b == 0 ==> And(a / 2, b / 2) == 0;
  }

  /** Testing a flag bit. */
  lemma FlagBits(a: nat)
    ensures And(a, 1) == a % 2 && And(a, 2) == 2 * (a / 2 % 2) && And(a, 8) == 8 * (a / 8 % 2)
  {
    AndOne(a);
    AndOne(a / 2);
    AndOne(a / 8);
    AndEven(a, 2);
    AndEven(a, 8);
    AndEven(a / 2, 4);
    AndEven(a / 4, 2);
  }

  lemma AndOne(a: nat)
    ensures And(a, 1) == a % 2
  {
    AndZero(a / 2, 0);
  }

  lemma {:induction false} AndAllOnes(a: nat, w: nat)
    requires a < Pow2(w)
    ensures And(a, Pow2(w) - 1) == a
    decreases w
  {
    if w > 0 && a > 0 {
      AndAllOnes(a / 2, w - 1);
      assert (Pow2(w) - 1) / 2 == Pow2(w - 1) - 1;
    }
  }

  /** Masking with 2^m - 1 keeps what rounding down drops. */
  lemma {:induction false} AndLowMask(a: nat, m: nat)
    ensures And(a, Pow2(m) - 1) == a - HeadOf(a, m)
    decreases m
  {
    hide And, HeadOf, Pow2;
    if m == 0 {
      HeadOfSelf(a);
      AndZero(a, 0);
    } else {
      AndLowMask(a / 2, m - 1);
      Pow2Double(m - 1);
      AndOdd(a, Pow2(m - 1) - 1);
      HeadOfTwice(a, m);
    }
  }

  /** And with an odd number: one step of the definition. */
  lemma AndOdd(a: nat, c: nat)
    ensures And(a, 2 * c + 1) == 2 * And(a / 2, c) + a % 2
  {
    assert (2 * c + 1) / 2 == c;
    if a == 0 || c == 0 { AndZero(a / 2, c); }
  }

  lemma HeadOfTwice(a: nat, m: nat)
    requires m > 0
    ensures HeadOf(a, m) == 2 * HeadOf(a / 2, m - 1)
  {
  }

  lemma {:induction false} OrZero(a: nat)
    ensures Or(a, 0) == a
  {
    if a > 0 { OrZero(a / 2); }
  }

  /** Or of a multiple of 2^m and a number below 2^m is their sum. */
  lemma {:induction false} OrDisjoint(a: nat, b: nat, m: nat)
    requires Aligned(a, m) && b < Pow2(m)
    ensures Or(a, b) == a + b
    decreases m
  {
    if m == 0 {
      OrZero(a);
    } else if a != 0 || b != 0 {
      OrDisjoint(a / 2, b / 2, m - 1);
    }
  }

  lemma {:induction false} Pow2Add(i: nat, j: nat)
    ensures Pow2(i + j) == Pow2(i) * Pow2(j)
    decreases i
  {
    if i > 0 { Pow2Add(i - 1, j); }
  }

  lemma Pow2Values()
    ensures Pow2(0) == 1 && Pow2(1) == 2 && Pow2(2) == 4 && Pow2(3) == 8 && Pow2(4) == 16
    ensures Pow2(5) == 32 && Pow2(6) == 64 && Pow2(7) == 128 && Pow2(8) == 256
    ensures Pow2(9) == 512 && Pow2(10) == 1024 && Pow2(11) == 2048 && Pow2(12) == 4096
    ensures Pow2(64) == 0x1_0000_0000_0000_0000
  {
    Pow2Squares(8);
  }

  lemma Pow2Squares(k: nat)
    requires Pow2(k) == 256
    ensures Pow2(8 * k) == 0x1_0000_0000_0000_0000
  {
    hide Pow2;
    Pow2Add(k, k);
    Pow2Add(2 * k, 2 * k);
    Pow2Add(4 * k, 4 * k);
  }

  /** Rounding down to 2^m as a remainder. */
  lemma {:induction false} HeadOfIsMod(a: nat, m: nat)
    ensures HeadOf(a, m) == a / Pow2(m) * Pow2(m)
    decreases m
  {
    if m > 0 {
      HeadOfIsMod(a / 2, m - 1);
      HalfDiv(a, m - 1);
      MulTwice(a / Pow2(m), Pow2(m - 1));
    } else {
      DivModUnique(a, 1, a, 0);
    }
  }

  lemma MulTwice(q: int, p: int)
    ensures q * (2 * p) == 2 * (q * p)
  {
  }

  lemma HalfDiv(a: nat, k: nat)
    ensures (a / 2) / Pow2(k) == a / Pow2(k + 1)
  {
    var m := Pow2(k);
    var q, r := (a / 2) / m, (a / 2) % m;
    assert a / 2 == q * m + r;
    assert a == q * (2 * m) + (2 * r + a % 2);
    DivModUnique(a, 2 * m, q, 2 * r + a % 2);
  }

  /** A right shift divides. */
  lemma {:induction false} ShrIsDiv(a: nat, k: nat)
    ensures Shr(a, k) == a / Pow2(k)
  {
    if k > 0 {
      ShrIsDiv(a / 2, k - 1);
      HalfDiv(a, k - 1);
    }
  }

  lemma MulMono(a: nat, b: nat, m: nat)
    requires a <= b
    ensures a * m <= b * m
  {
    assert b * m == a * m + (b - a) * m;
  }

  /** Quotient and remainder put together. */
  lemma DivBack(a: nat, m: nat)
    requires m > 0
    ensures a == a / m * m + a % m && 0 <= a % m < m && a / m >= 0 && a / m * m <= a
  {
  }

  lemma MulSign(q: int, m: int)
    requires m > 0
    ensures q >= 1 ==> q * m >= m
    ensures q <= -1 ==> q * m <= -m
  {
  }

  /** Quotient and remainder are unique. */
  lemma DivModUnique(a: int, m: nat, q: int, r: int)
    requires m > 0 && a == q * m + r && 0 <= r < m
    ensures a / m == q && a % m == r
  {
    var e := a / m - q;
    assert a == a / m * m + a % m;
    assert e * m == r - a % m;
    MulSign(e, m);
  }
}
