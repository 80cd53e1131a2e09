/** Unsigned machine words as natural numbers: shifts, bit tests and bitwise operators.

Everything is defined by halving, so the facts below need no multiplication
of two unknowns. */
module Arith {

  const U64_MAX: nat := 0xFFFF_FFFF_FFFF_FFFF

  function Min(x: nat, y: nat): nat { if x < y then x else y }

  function Max(x: nat, y: nat): nat { if x < y then y else x }

  function Pow2(n: nat): (p: nat)
    ensures p >= 1
  {
    if n == 0 then 1 else 2 * Pow2(n - 1)
  }

  /** `x >> n` */
  function Shr(x: nat, n: nat): nat {
    if n == 0 then x else Shr(x / 2, n - 1)
  }

  /** `x << n`, unbounded */
  function Shl(x: nat, n: nat): nat {
    if n == 0 then x else 2 * Shl(x, n - 1)
  }

  /** `(x >> i) & 1 == 1` */
  predicate Bit(x: nat, i: nat) {
    Shr(x, i) % 2 == 1
  }

  /** The `n` low bits of `x`. */
  function Low(x: nat, n: nat): nat {
    if n == 0 then 0 else x % 2 + 2 * Low(x / 2, n - 1)
  }

  function BitOr(x: nat, y: nat): nat {
    if x == 0 && y == 0 then 0
    else Max(x % 2, y % 2) + 2 * BitOr(x / 2, y / 2)
  }

  function BitAnd(x: nat, y: nat): nat {
    if x == 0 || y == 0 then 0
    else Min(x % 2, y % 2) + 2 * BitAnd(x / 2, y / 2)
  }

  /** Number of set bits. */
  function CountOnes(x: nat): nat {
    if x == 0 then 0 else x % 2 + CountOnes(x / 2)
  }

  /** Number of trailing zero bits of a non-zero word. */
  function TrailingZeros(x: nat): nat
    requires x > 0
  {
    if x % 2 == 1 then 0 else 1 + TrailingZeros(x / 2)
  }

  /** Position of the highest set bit, `63 - leading_zeros` on 64 bits. */
  function Log2(x: nat): nat
    requires x > 0
  {
    if x == 1 then 0 else 1 + Log2(x / 2)
  }

  // ------------------------------------------------------------------ powers

  lemma {:induction false} Pow2Monotone(m: nat, n: nat)
    requires m <= n
    ensures Pow2(m) <= Pow2(n)
    decreases n
  {
    if m < n { Pow2Monotone(m, n - 1); }
  }

  lemma {:induction false} Pow2Strict(m: nat, n: nat)
    requires m < n
    ensures 2 * Pow2(m) <= Pow2(n)
  {
    Pow2Monotone(m + 1, n);
  }

  lemma {:induction false} Pow2Sum(m: nat, n: nat)
    ensures Pow2(m + n) == Pow2(m) * Pow2(n)
  {
    if m > 0 { Pow2Sum(m - 1, n); }
  }

  /** The field widths of the header and the machine word. */
  lemma Pow2Table()
    ensures Pow2(8) == 0x100 && Pow2(16) == 0x1_0000
    ensures Pow2(32) == 0x1_0000_0000 && Pow2(64) == 0x1_0000_0000_0000_0000
  {
    var n := 8;
    assert Pow2(n) == 0x100;
    Pow2Double(n, 0x100);
    Pow2Double(2 * n, 0x1_0000);
    Pow2Double(4 * n, 0x1_0000_0000);
  }

  lemma Pow2Double(n: nat, p: nat)
    requires Pow2(n) == p
    ensures Pow2(2 * n) == p * p
  {
    Pow2Sum(n, n);
  }

  lemma {:induction false} Log2Bounds(x: nat)
    requires x > 0
    ensures Pow2(Log2(x)) <= x < 2 * Pow2(Log2(x))
  {
    if x > 1 { Log2Bounds(x / 2); }
  }

  /** A power of two no larger than `x` has exponent at most `Log2(x)`. */
  lemma Log2Largest(x: nat, m: nat)
    requires x > 0 && Pow2(m) <= x
    ensures m <= Log2(x)
  {
    Log2Bounds(x);
    if m > Log2(x) { Pow2Strict(Log2(x), m); }
  }

  // ------------------------------------------------------------------ shifts

  lemma {:induction false} ShrCompose(x: nat, m: nat, n: nat)
    ensures Shr(x, m + n) == Shr(Shr(x, m), n)
  {
    if m > 0 { ShrCompose(x / 2, m - 1, n); }
  }

  lemma {:induction false} ShrZero(n: nat)
    ensures Shr(0, n) == 0
  {
    if n > 0 { ShrZero(n - 1); }
  }

  /** Clearing the `n` low bits rounds down to a multiple of `2^n`. */
  lemma {:induction false} ShrShl(x: nat, n: nat)
    ensures Shl(Shr(x, n), n) <= x < Shl(Shr(x, n), n) + Pow2(n)
  {
    if n > 0 { ShrShl(x / 2, n - 1); }
  }

  /** The numbers with the same bits above position `n` are one aligned block. */
  lemma {:induction false} ShrBlock(k: nat, n: nat, x: nat)
    ensures Shl(k, n) <= x < Shl(k, n) + Pow2(n) <==> Shr(x, n) == k
  {
    if n > 0 { ShrBlock(k, n - 1, x / 2); }
  }

  lemma {:induction false} ShrSmall(x: nat, n: nat)
    ensures x < Pow2(n) <==> Shr(x, n) == 0
  {
    if n > 0 { ShrSmall(x / 2, n - 1); }
  }

  lemma {:induction false} ShlBound(k: nat, n: nat, w: nat)
    requires n <= w && k < Pow2(w - n)
    ensures Shl(k, n) + Pow2(n) <= Pow2(w)
  {
    if n > 0 { ShlBound(k, n - 1, w - 1); }
  }

  lemma {:induction false} ShrBound(x: nat, n: nat, w: nat)
    requires n <= w && x < Pow2(w)
    ensures Shr(x, n) < Pow2(w - n)
  {
    if n > 0 { ShrBound(x / 2, n - 1, w - 1); }
  }

  // -------------------------------------------------------------------- bits

  /** Reading one more bit of a word. */
  lemma {:induction false} LowSucc(x: nat, n: nat)
    ensures Low(x, n + 1) == (if Bit(x, n) then Pow2(n) else 0) + Low(x, n)
  {
    if n > 0 { LowSucc(x / 2, n - 1); }
  }

  lemma {:induction false} LowBound(x: nat, n: nat)
    ensures Low(x, n) < Pow2(n)
  {
    if n > 0 { LowBound(x / 2, n - 1); }
  }

  lemma {:induction false} LowAll(x: nat, n: nat)
    requires x < Pow2(n)
    ensures Low(x, n) == x
  {
    if n > 0 { LowAll(x / 2, n - 1); }
  }

  /** The low bits of a word are its bits below the cut. */
  lemma {:induction false} BitOfLow(x: nat, n: nat, i: nat)
    requires i < n
    ensures Bit(Low(x, n), i) <==> Bit(x, i)
  {
    hide Bit;
    BitStep(x, i);
    BitStep(Low(x, n), i);
    if i > 0 { BitOfLow(x / 2, n - 1, i - 1); }
  }

  lemma {:induction false} BitOfOr(x: nat, y: nat, i: nat)
    ensures Bit(BitOr(x, y), i) <==> Bit(x, i) || Bit(y, i)
  {
    hide BitOr, Bit;
    OrHalves(x, y);
    BitStep(x, i);
    BitStep(y, i);
    BitStep(BitOr(x, y), i);
    if i > 0 { BitOfOr(x / 2, y / 2, i - 1); }
  }

  lemma OrHalves(x: nat, y: nat)
    ensures BitOr(x, y) / 2 == BitOr(x / 2, y / 2) && BitOr(x, y) % 2 == Max(x % 2, y % 2)
  {
  }

  lemma BitStep(x: nat, i: nat)
    ensures Bit(x, i) <==> if i == 0 then x % 2 == 1 else Bit(x / 2, i - 1)
  {
  }

  lemma {:induction false} BitOfAnd(x: nat, y: nat, i: nat)
    ensures Bit(BitAnd(x, y), i) <==> Bit(x, i) && Bit(y, i)
  {
    if x == 0 || y == 0 {
      ShrZero(i);
    } else if i > 0 {
      BitOfAnd(x / 2, y / 2, i - 1);
    }
  }

  /** Words below `2^w` are told apart by their low `w` bits. */
  lemma {:induction false} SameBitsEqual(x: nat, y: nat, w: nat)
    requires x < Pow2(w) && y < Pow2(w)
    requires forall i: nat :: i < w ==> (Bit(x, i) <==> Bit(y, i))
    ensures x == y
  {
    if w > 0 {
      assert Bit(x, 0) <==> Bit(y, 0);
      forall i: nat | i < w - 1
        ensures Bit(x / 2, i) <==> Bit(y / 2, i)
      {
        assert Bit(x, i + 1) <==> Bit(y, i + 1);
      }
      SameBitsEqual(x / 2, y / 2, w - 1);
    }
  }

  lemma {:induction false} BitOfSmall(x: nat, w: nat, i: nat)
    requires x < Pow2(w) && w <= i
    ensures !Bit(x, i)
  {
    ShrSmall(x, w);
    ShrCompose(x, w, i - w);
    ShrZero(i - w);
  }

  lemma {:induction false} BitOfPow2(n: nat, i: nat)
    ensures Bit(Pow2(n), i) <==> i == n
  {
    if n == 0 {
      if i > 0 { ShrZero(i - 1); }
    } else if i > 0 {
      BitOfPow2(n - 1, i - 1);
    }
  }

  /** Setting a clear bit adds its weight. */
  lemma {:induction false} OrSetsBit(x: nat, n: nat)
    requires !Bit(x, n)
    ensures BitOr(x, Pow2(n)) == x + Pow2(n)
  {
    if n == 0 {
      OrZero(x / 2);
    } else {
      OrSetsBit(x / 2, n - 1);
    }
  }

  lemma {:induction false} OrZero(x: nat)
    ensures BitOr(x, 0) == x
  {
    if x > 0 { OrZero(x / 2); }
  }

  lemma {:induction false} OrBound(x: nat, y: nat, w: nat)
    requires x < Pow2(w) && y < Pow2(w)
    ensures BitOr(x, y) < Pow2(w)
  {
    if w > 0 { OrBound(x / 2, y / 2, w - 1); }
  }

  lemma {:induction false} AndBound(x: nat, y: nat)
    ensures BitAnd(x, y) <= x && BitAnd(x, y) <= y
  {
    if x > 0 && y > 0 { AndBound(x / 2, y / 2); }
  }

  /** A multiple of `2^n` and a number below `2^n` share no bit, so `|` is `+`. */
  lemma {:induction false} OrOfBlock(k: nat, n: nat, y: nat)
    requires y < Pow2(n)
    ensures BitOr(Shl(k, n), y) == Shl(k, n) + y
  {
    if n == 0 {
      OrZero(k);
    } else {
      OrOfBlock(k, n - 1, y / 2);
    }
  }

  /** Adding a higher power of two leaves the lower bits alone. */
  lemma {:induction false} BitAddHigh(x: nat, n: nat, i: nat)
    requires i < n
    ensures Bit(x + Pow2(n), i) == Bit(x, i)
  {
    if i > 0 { BitAddHigh(x / 2, n - 1, i - 1); }
  }

  /** ... and sets the bit itself. */
  lemma {:induction false} BitAddHere(x: nat, n: nat)
    requires x < Pow2(n)
    ensures Bit(x + Pow2(n), n)
  {
    if n > 0 { BitAddHere(x / 2, n - 1); }
  }

  /** A number whose `n` low bits are clear is a multiple of `2^n`. */
  lemma {:induction false} LowBitsClear(x: nat, n: nat)
    requires forall i: nat | i < n :: !Bit(x, i)
    ensures Shl(Shr(x, n), n) == x
  {
    if n > 0 {
      assert !Bit(x, 0);
      forall i: nat | i < n - 1
        ensures !Bit(x / 2, i)
      {
        assert !Bit(x, i + 1);
      }
      LowBitsClear(x / 2, n - 1);
    }
  }

  lemma {:induction false} ShlMonotone(a: nat, b: nat, n: nat)
    requires a <= b
    ensures Shl(b, n) >= Shl(a, n) + (b - a)
    ensures a < b ==> Shl(b, n) >= Shl(a, n) + Pow2(n)
  {
    if n > 0 { ShlMonotone(a, b, n - 1); }
  }
}
