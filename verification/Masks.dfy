/** Expanding a `(value, mask)` bit pattern into the exact set of values it denotes. */
module Masks {
  import opened Wrappers
  import opened Arith
  import opened Intervals
  import opened Cardinality

  /** `v` agrees with `value` on every bit fixed by `mask`. */
  ghost predicate Agrees(bits: nat, value: nat, mask: nat, v: nat) {
    forall i: nat | i < bits && Bit(mask, i) :: Bit(v, i) == Bit(value, i)
  }

  function WrappingNeg(x: nat): nat
    requires x <= U64_MAX
  {
    if x == 0 then 0 else U64_MAX + 1 - x
  }

  function BitNot(x: nat): nat
    requires x <= U64_MAX
  {
    U64_MAX - x
  }

  /** The positions below `n` of the set bits of `x`, lowest first. */
  function Positions(x: nat, n: nat): seq<nat> {
    if n == 0 then []
    else if Bit(x, n - 1) then Positions(x, n - 1) + [n - 1]
    else Positions(x, n - 1)
  }

  /** Bits of `combo` moved to the first `n` positions. */
  function Scattered(positions: seq<nat>, combo: nat, n: nat): nat
    requires n <= |positions|
  {
    if n == 0 then 0
    else if Bit(combo, n - 1) then BitOr(Scattered(positions, combo, n - 1), Pow2(positions[n - 1]))
    else Scattered(positions, combo, n - 1)
  }

  function RangeFor(value: nat, positions: seq<nat>, lowSpan: nat, combo: nat): Range {
    var base := BitOr(value, Scattered(positions, combo, |positions|));
    (base, BitOr(base, lowSpan))
  }

  function RangesFor(value: nat, positions: seq<nat>, lowSpan: nat, n: nat): seq<Range> {
    if n == 0 then []
    else RangesFor(value, positions, lowSpan, n - 1) + [RangeFor(value, positions, lowSpan, n - 1)]
  }

  function FreeHigh(bits: nat, mask: nat): nat
    requires bits < 64 && 0 < mask <= U64_MAX
  {
    LowestBitBound(mask);
    BitAnd(BitAnd(BitNot(mask), BitNot(Pow2(TrailingZeros(mask)) - 1)), DomainMax(bits))
  }

  /** The set a pattern denotes, whatever the cap. */
  function PatternSet(bits: nat, value: nat, mask: nat): (s: IntervalSet)
    requires bits < 64 && mask < Pow2(bits)
    ensures s.bits == bits
  {
    if mask == 0 then Full(bits)
    else
      MaskFitsWord(bits, mask);
      var positions := Positions(FreeHigh(bits, mask), bits);
      Normalise(bits, RangesFor(BitAnd(value, mask), positions, Pow2(TrailingZeros(mask)) - 1, Pow2(|positions|)))
  }

  /** The bits of a mask that lie in the field. */
  function Within(bits: nat, pattern: nat): (mask: nat)
    requires bits < 64
    ensures mask < Pow2(bits)
  {
    AndBound(pattern, DomainMax(bits));
    BitAnd(pattern, DomainMax(bits))
  }

  /** Bits of the mask above the field mean nothing. */
  lemma WithinAgrees(bits: nat, value: nat, pattern: nat, v: nat)
    requires bits < 64
    ensures Agrees(bits, value, Within(bits, pattern), v) <==> Agrees(bits, value, pattern, v)
  {
    forall i: nat | i < bits
      ensures Bit(Within(bits, pattern), i) <==> Bit(pattern, i)
    {
      BitOfAnd(pattern, DomainMax(bits), i);
      BitOfOnes(bits, i);
    }
  }

  method MaskToIntervals(bits: nat, value: nat, pattern: nat, cap: nat) returns (r: Option<IntervalSet>)
    requires bits < 64 && pattern <= U64_MAX && value <= U64_MAX
    ensures Within(bits, pattern) == 0 ==> r == Some(Full(bits))
    ensures Within(bits, pattern) != 0 ==>
      r == if FreeRuns(bits, Within(bits, pattern)) > cap then None
        else Some(PatternSet(bits, value, Within(bits, pattern)))
    ensures r.Some? ==> forall v: nat ::
      Contains(r.value, v) <==> v <= DomainMax(bits) && Agrees(bits, value, pattern, v)
  {
    forall v: nat
      ensures Contains(PatternSet(bits, value, Within(bits, pattern)), v) <==>
        v <= DomainMax(bits) && Agrees(bits, value, pattern, v)
    {
      PatternExact(bits, value, Within(bits, pattern), v);
      WithinAgrees(bits, value, pattern, v);
    }
    r := Expand(bits, value, pattern, cap);
  }

  method Expand(bits: nat, value: nat, pattern: nat, cap: nat) returns (r: Option<IntervalSet>)
    requires bits < 64 && pattern <= U64_MAX && value <= U64_MAX
    ensures Within(bits, pattern) == 0 ==> r == Some(Full(bits))
    ensures Within(bits, pattern) != 0 ==>
      r == if FreeRuns(bits, Within(bits, pattern)) > cap then None
        else Some(PatternSet(bits, value, Within(bits, pattern)))
  {
    var domain := DomainMax(bits);
    var mask := BitAnd(pattern, domain);
    assert mask == Within(bits, pattern);
    if mask == 0 {
      return Some(Full(bits));
    }
    var fixed := BitAnd(value, mask);
    MaskFitsWord(bits, mask);
    var lsb := BitAnd(mask, WrappingNeg(mask));
    LowestBit(mask);
    LowestBitBound(mask);
    var lowSpan := lsb - 1;
    var freeHigh := BitAnd(BitAnd(BitNot(mask), BitNot(lowSpan)), domain);
    var k := CountOnes(freeHigh);
    FreeHighBound(bits, mask);
    PositionsCount(freeHigh, bits);
    PositionsShort(freeHigh, bits);
    if k >= 64 || Pow2(k) > cap {
      return None;
    }
    var positions := PositionsOf(freeHigh, bits);
    var ranges: seq<Range> := [];
    for combo := 0 to Pow2(k)
      invariant ranges == RangesFor(fixed, positions, lowSpan, combo)
    {
      var scattered := ScatterBits(positions, combo);
      var base := BitOr(fixed, scattered);
      ranges := ranges + [(base, BitOr(base, lowSpan))];
    }
    var s := FromRanges(bits, ranges);
    r := Some(s);
  }

  method PositionsOf(x: nat, n: nat) returns (out: seq<nat>)
    ensures out == Positions(x, n)
  {
    out := [];
    for p := 0 to n
      invariant out == Positions(x, p)
    {
      if Bit(x, p) {
        out := out + [p];
      }
    }
  }

  method ScatterBits(positions: seq<nat>, combo: nat) returns (scattered: nat)
    ensures scattered == Scattered(positions, combo, |positions|)
  {
    scattered := 0;
    for i := 0 to |positions|
      invariant scattered == Scattered(positions, combo, i)
    {
      if Bit(combo, i) {
        scattered := BitOr(scattered, Pow2(positions[i]));
      }
    }
  }

  /** Number of runs of consecutive values: one for each choice of the free bits above the
  lowest fixed one. */
  function FreeRuns(bits: nat, mask: nat): nat
    requires bits < 64 && mask < Pow2(bits)
  {
    if mask == 0 then 1
    else
      MaskFitsWord(bits, mask);
      Pow2(|Positions(FreeHigh(bits, mask), bits)|)
  }

  // ------------------------------------------------------------- word facts

  lemma MaskFitsWord(bits: nat, mask: nat)
    requires bits < 64 && mask < Pow2(bits)
    ensures mask <= U64_MAX
  {
    Pow2Table();
    Pow2Monotone(bits, 64);
  }

  lemma {:induction false} AndComplement(x: nat, n: nat)
    requires x < Pow2(n)
    ensures BitAnd(x, Pow2(n) - 1 - x) == 0
  {
    if n > 0 { AndComplement(x / 2, n - 1); }
  }

  lemma {:induction false} LowestBitOf(x: nat, n: nat)
    requires 0 < x < Pow2(n)
    ensures BitAnd(x, Pow2(n) - x) == Pow2(TrailingZeros(x))
  {
    hide Pow2, BitAnd, TrailingZeros;
    TwicePow2(n);
    var p := Pow2(n - 1);
    AndHalves(x, Pow2(n) - x);
    if x % 2 == 1 {
      AndComplement(x / 2, n - 1);
      OddHalves(x, p);
      TrailingOfOdd(x);
    } else {
      LowestBitOf(x / 2, n - 1);
      EvenHalves(x, p);
      TrailingOfEven(x);
    }
  }

  lemma TwicePow2(n: nat)
    requires Pow2(n) > 1
    ensures n > 0 && Pow2(n) == 2 * Pow2(n - 1)
  {
  }

  lemma AndHalves(x: nat, y: nat)
    ensures BitAnd(x, y) == (if x % 2 == 1 && y % 2 == 1 then 1 else 0) + 2 * BitAnd(x / 2, y / 2)
  {
  }

  lemma OddHalves(x: nat, p: nat)
    requires x % 2 == 1 && x < 2 * p
    ensures (2 * p - x) % 2 == 1 && (2 * p - x) / 2 == p - 1 - x / 2
  {
  }

  lemma EvenHalves(x: nat, p: nat)
    requires x % 2 == 0 && x < 2 * p
    ensures (2 * p - x) % 2 == 0 && (2 * p - x) / 2 == p - x / 2 && x / 2 < p
  {
  }

  lemma TrailingOfOdd(x: nat)
    requires x % 2 == 1
    ensures Pow2(TrailingZeros(x)) == 1
  {
  }

  lemma TrailingOfEven(x: nat)
    requires x > 0 && x % 2 == 0
    ensures Pow2(TrailingZeros(x)) == 2 * Pow2(TrailingZeros(x / 2))
  {
  }

  lemma LowestBit(x: nat)
    requires 0 < x <= U64_MAX
    ensures BitAnd(x, WrappingNeg(x)) == Pow2(TrailingZeros(x))
  {
    Pow2Table();
    LowestBitOf(x, 64);
  }

  lemma LowestBitBound(x: nat)
    requires 0 < x <= U64_MAX
    ensures Pow2(TrailingZeros(x)) <= x
  {
    PowTrailing(x);
  }

  lemma {:induction false} PowTrailing(x: nat)
    requires x > 0
    ensures Pow2(TrailingZeros(x)) <= x && Bit(x, TrailingZeros(x))
    ensures forall i: nat | i < TrailingZeros(x) :: !Bit(x, i)
  {
    if x % 2 == 0 {
      PowTrailing(x / 2);
      forall i: nat | i < TrailingZeros(x)
        ensures !Bit(x, i)
      {
        if i > 0 { assert !Bit(x / 2, i - 1); }
      }
    }
  }

  lemma {:induction false} BitOfComplement(x: nat, n: nat, i: nat)
    requires x < Pow2(n) && i < n
    ensures Bit(Pow2(n) - 1 - x, i) <==> !Bit(x, i)
  {
    hide Bit;
    BitStep(x, i);
    BitStep(Pow2(n) - 1 - x, i);
    ComplementHalves(x, Pow2(n - 1));
    if i > 0 { BitOfComplement(x / 2, n - 1, i - 1); }
  }

  lemma ComplementHalves(x: nat, p: nat)
    requires x < 2 * p
    ensures (2 * p - 1 - x) / 2 == p - 1 - x / 2 && (2 * p - 1 - x) % 2 == 1 - x % 2
  {
  }

  lemma BitOfNot(x: nat, i: nat)
    requires x <= U64_MAX && i < 64
    ensures Bit(BitNot(x), i) <==> !Bit(x, i)
  {
    Pow2Table();
    BitOfComplement(x, 64, i);
  }

  /** `2^n - 1` is the word with exactly the `n` low bits set. */
  lemma {:induction false} BitOfOnes(n: nat, i: nat)
    ensures Bit(Pow2(n) - 1, i) <==> i < n
  {
    if n == 0 {
      ShrZero(i);
    } else {
      hide Bit, Shr;
      BitStep(Pow2(n) - 1, i);
      if i > 0 { BitOfOnes(n - 1, i - 1); }
    }
  }

  lemma AndDomain(x: nat, bits: nat)
    requires bits < 64 && x < Pow2(bits)
    ensures BitAnd(x, DomainMax(bits)) == x
  {
    AndBound(x, DomainMax(bits));
    forall i: nat | i < bits
      ensures Bit(BitAnd(x, DomainMax(bits)), i) <==> Bit(x, i)
    {
      BitOfAnd(x, DomainMax(bits), i);
      BitOfOnes(bits, i);
    }
    SameBitsEqual(BitAnd(x, DomainMax(bits)), x, bits);
  }

  lemma FreeHighBound(bits: nat, mask: nat)
    requires bits < 64 && 0 < mask < Pow2(bits) && mask <= U64_MAX
    ensures FreeHigh(bits, mask) < Pow2(bits)
  {
    LowestBitBound(mask);
    AndBound(BitAnd(BitNot(mask), BitNot(Pow2(TrailingZeros(mask)) - 1)), DomainMax(bits));
  }

  lemma AboveLowest(mask: nat, i: nat)
    requires 0 < mask <= U64_MAX && i < 64 && Pow2(TrailingZeros(mask)) - 1 <= U64_MAX
    ensures Bit(BitAnd(BitNot(mask), BitNot(Pow2(TrailingZeros(mask)) - 1)), i) <==>
      TrailingZeros(mask) <= i && !Bit(mask, i)
  {
    var lowSpan := Pow2(TrailingZeros(mask)) - 1;
    BitOfAnd(BitNot(mask), BitNot(lowSpan), i);
    BitOfNot(mask, i);
    BitOfNot(lowSpan, i);
    BitOfOnes(TrailingZeros(mask), i);
  }

  /** The free high bits: inside the field, above the lowest fixed bit, not fixed. */
  lemma FreeHighBits(bits: nat, mask: nat, i: nat)
    requires bits < 64 && 0 < mask < Pow2(bits) && mask <= U64_MAX
    ensures Bit(FreeHigh(bits, mask), i) <==> TrailingZeros(mask) <= i < bits && !Bit(mask, i)
  {
    LowestBitBound(mask);
    hide Bit, BitAnd, BitNot, TrailingZeros;
    var inner := BitAnd(BitNot(mask), BitNot(Pow2(TrailingZeros(mask)) - 1));
    BitOfAnd(inner, DomainMax(bits), i);
    BitOfOnes(bits, i);
    if i < bits { AboveLowest(mask, i); }
  }

  // --------------------------------------------------------------- positions

  lemma {:induction false} PositionsAre(x: nat, n: nat)
    ensures forall i | 0 <= i < |Positions(x, n)| :: Positions(x, n)[i] < n && Bit(x, Positions(x, n)[i])
    ensures forall i, j | 0 <= i < j < |Positions(x, n)| :: Positions(x, n)[i] < Positions(x, n)[j]
    ensures forall p: nat | p < n && Bit(x, p) :: p in Positions(x, n)
  {
    if n > 0 { PositionsAre(x, n - 1); }
  }

  lemma {:induction false} PositionsShort(x: nat, n: nat)
    ensures |Positions(x, n)| <= n
  {
    if n > 0 { PositionsShort(x, n - 1); }
  }

  lemma {:induction false} PositionsHalf(x: nat, n: nat)
    ensures |Positions(x, n + 1)| == x % 2 + |Positions(x / 2, n)|
  {
    if n > 0 {
      PositionsHalf(x, n - 1);
    } else {
      assert Positions(x, 0) == [];
    }
  }

  lemma {:induction false} PositionsCount(x: nat, n: nat)
    requires x < Pow2(n)
    ensures |Positions(x, n)| == CountOnes(x)
  {
    if n > 0 {
      PositionsHalf(x, n - 1);
      PositionsCount(x / 2, n - 1);
    }
  }

  /** Every bit below `n` is low, fixed or free. */
  lemma {:induction false} BitsSplit(bits: nat, mask: nat, n: nat)
    requires bits < 64 && 0 < mask < Pow2(bits) && mask <= U64_MAX && n <= bits
    ensures |Positions(FreeHigh(bits, mask), n)| + |Positions(mask, n)| + Min(TrailingZeros(mask), n) == n
  {
    if n > 0 {
      BitsSplit(bits, mask, n - 1);
      FreeHighBits(bits, mask, n - 1);
      PowTrailing(mask);
    }
  }

  lemma {:induction false} ScatteredBits(positions: seq<nat>, combo: nat, n: nat, p: nat)
    requires n <= |positions|
    ensures Bit(Scattered(positions, combo, n), p) <==> exists i: nat :: i < n && positions[i] == p && Bit(combo, i)
  {
    if n == 0 {
      ShrZero(p);
    } else {
      ScatteredBits(positions, combo, n - 1, p);
      BitOfOr(Scattered(positions, combo, n - 1), Pow2(positions[n - 1]), p);
      BitOfPow2(positions[n - 1], p);
    }
  }

  lemma {:induction false} ScatteredBound(positions: seq<nat>, combo: nat, n: nat, bits: nat)
    requires n <= |positions| && forall i | 0 <= i < |positions| :: positions[i] < bits
    ensures Scattered(positions, combo, n) < Pow2(bits)
  {
    if n > 0 {
      ScatteredBound(positions, combo, n - 1, bits);
      Pow2Strict(positions[n - 1], bits);
      OrBound(Scattered(positions, combo, n - 1), Pow2(positions[n - 1]), bits);
    }
  }

  // ------------------------------------------------------------ one range

  /** Everything the expansion of a proper pattern works with. */
  ghost predicate Pattern(bits: nat, mask: nat, positions: seq<nat>) {
    && bits < 64 && 0 < mask < Pow2(bits) && mask <= U64_MAX
    && positions == Positions(FreeHigh(bits, mask), bits)
  }

  function BaseFor(value: nat, mask: nat, positions: seq<nat>, combo: nat): nat {
    BitOr(BitAnd(value, mask), Scattered(positions, combo, |positions|))
  }

  /** The bits of a base: fixed ones from the value, free ones from the combination, low ones clear. */
  lemma BaseBits(bits: nat, value: nat, mask: nat, positions: seq<nat>, combo: nat, i: nat)
    requires Pattern(bits, mask, positions)
    ensures Bit(mask, i) ==> Bit(BaseFor(value, mask, positions, combo), i) == Bit(value, i)
    ensures i < TrailingZeros(mask) ==> !Bit(BaseFor(value, mask, positions, combo), i)
    ensures forall j | 0 <= j < |positions| && positions[j] == i ::
      Bit(BaseFor(value, mask, positions, combo), i) == Bit(combo, j)
  {
    hide BitAnd, BitOr, Scattered, Positions, FreeHigh, Shr, Bit, TrailingZeros, Pow2;
    BitOfOr(BitAnd(value, mask), Scattered(positions, combo, |positions|), i);
    BitOfAnd(value, mask, i);
    ScatteredBits(positions, combo, |positions|, i);
    PositionsAre(FreeHigh(bits, mask), bits);
    FreeHighBits(bits, mask, i);
    PowTrailing(mask);
  }

  lemma BaseBound(bits: nat, value: nat, mask: nat, positions: seq<nat>, combo: nat)
    requires Pattern(bits, mask, positions)
    ensures BaseFor(value, mask, positions, combo) < Pow2(bits)
  {
    AndBound(value, mask);
    PositionsAre(FreeHigh(bits, mask), bits);
    ScatteredBound(positions, combo, |positions|, bits);
    OrBound(BitAnd(value, mask), Scattered(positions, combo, |positions|), bits);
  }

  /** The range of a combination is the aligned block above its base. */
  lemma RangeIsBlock(bits: nat, value: nat, mask: nat, positions: seq<nat>, combo: nat)
    requires Pattern(bits, mask, positions)
    ensures var t, base := TrailingZeros(mask), BaseFor(value, mask, positions, combo);
      && RangeFor(BitAnd(value, mask), positions, Pow2(t) - 1, combo) == (base, base + Pow2(t) - 1)
      && Shl(Shr(base, t), t) == base
  {
    hide *;
    LowestIsFixed(bits, mask, positions);
    var t, base := TrailingZeros(mask), BaseFor(value, mask, positions, combo);
    RangeFromBase(value, mask, positions, Pow2(t) - 1, combo);
    forall i: nat | i < t
      ensures !Bit(base, i)
    {
      BaseBits(bits, value, mask, positions, combo, i);
    }
    LowBitsClear(base, t);
    OrOfBlock(Shr(base, t), t, Pow2(t) - 1);
  }

  lemma RangeFromBase(value: nat, mask: nat, positions: seq<nat>, lowSpan: nat, combo: nat)
    ensures var base := BaseFor(value, mask, positions, combo);
      RangeFor(BitAnd(value, mask), positions, lowSpan, combo) == (base, BitOr(base, lowSpan))
  {
  }

  lemma TrailingBelow(bits: nat, mask: nat)
    requires 0 < mask < Pow2(bits)
    ensures TrailingZeros(mask) < bits
  {
    PowTrailing(mask);
    if bits <= TrailingZeros(mask) { Pow2Monotone(bits, TrailingZeros(mask)); }
  }

  /** The values in a range are those with the base's bits above the lowest fixed one. */
  lemma InRangeFor(bits: nat, value: nat, mask: nat, positions: seq<nat>, combo: nat, v: nat)
    requires Pattern(bits, mask, positions)
    ensures var t, base := TrailingZeros(mask), BaseFor(value, mask, positions, combo);
      var r := RangeFor(BitAnd(value, mask), positions, Pow2(t) - 1, combo);
      && (r.0 <= v <= r.1 <==> Shr(v, t) == Shr(base, t))
      && r.0 <= r.1 <= DomainMax(bits)
  {
    var t, base := TrailingZeros(mask), BaseFor(value, mask, positions, combo);
    RangeIsBlock(bits, value, mask, positions, combo);
    ShrBlock(Shr(base, t), t, v);
    BaseBound(bits, value, mask, positions, combo);
    TrailingBelow(bits, mask);
    ShrBound(base, t, bits);
    ShlBound(Shr(base, t), t, bits);
  }

  /** A value in a range agrees with the pattern. */
  lemma RangeAgrees(bits: nat, value: nat, mask: nat, positions: seq<nat>, combo: nat, v: nat)
    requires Pattern(bits, mask, positions)
    requires Shr(v, TrailingZeros(mask)) == Shr(BaseFor(value, mask, positions, combo), TrailingZeros(mask))
    ensures Agrees(bits, value, mask, v)
  {
    var t, base := TrailingZeros(mask), BaseFor(value, mask, positions, combo);
    PowTrailing(mask);
    forall i: nat | i < bits && Bit(mask, i)
      ensures Bit(v, i) == Bit(value, i)
    {
      BaseBits(bits, value, mask, positions, combo, i);
      ShrCompose(v, t, i - t);
      ShrCompose(base, t, i - t);
    }
  }

  /** The bits of `v` at the first `n` positions, packed together. */
  function Gathered(positions: seq<nat>, v: nat, n: nat): nat
    requires n <= |positions|
  {
    if n == 0 then 0
    else (if Bit(v, positions[n - 1]) then Pow2(n - 1) else 0) + Gathered(positions, v, n - 1)
  }

  lemma {:induction false} GatheredBits(positions: seq<nat>, v: nat, n: nat)
    requires n <= |positions|
    ensures Gathered(positions, v, n) < Pow2(n)
    ensures forall j: nat | j < n :: Bit(Gathered(positions, v, n), j) == Bit(v, positions[j])
  {
    if n > 0 {
      GatheredBits(positions, v, n - 1);
      var rest := Gathered(positions, v, n - 1);
      forall j: nat | j < n
        ensures Bit(Gathered(positions, v, n), j) == Bit(v, positions[j])
      {
        if Bit(v, positions[n - 1]) {
          if j < n - 1 { BitAddHigh(rest, n - 1, j); } else { BitAddHere(rest, n - 1); }
        } else if j == n - 1 {
          BitOfSmall(rest, n - 1, n - 1);
        }
      }
    }
  }

  /** A value that agrees with the pattern lies in the range its free bits select. */
  lemma AgreeingInRange(bits: nat, value: nat, mask: nat, positions: seq<nat>, v: nat)
    requires Pattern(bits, mask, positions) && v < Pow2(bits) && Agrees(bits, value, mask, v)
    ensures var combo, t := Gathered(positions, v, |positions|), TrailingZeros(mask);
      combo < Pow2(|positions|) && Shr(v, t) == Shr(BaseFor(value, mask, positions, combo), t)
  {
    hide Agrees, Gathered, BaseFor, TrailingZeros, Shr, Pow2;
    var combo, t := Gathered(positions, v, |positions|), TrailingZeros(mask);
    var base := BaseFor(value, mask, positions, combo);
    GatheredBits(positions, v, |positions|);
    TrailingBelow(bits, mask);
    BaseBound(bits, value, mask, positions, combo);
    ShrBound(v, t, bits);
    ShrBound(base, t, bits);
    var hv, hb := Shr(v, t), Shr(base, t);
    forall i: nat | i < bits - t
      ensures Bit(hv, i) <==> Bit(hb, i)
    {
      ShrCompose(v, t, i);
      ShrCompose(base, t, i);
      SameBit(bits, value, mask, positions, combo, v, t + i);
    }
    SameBitsEqual(hv, hb, bits - t);
  }

  lemma SameBit(bits: nat, value: nat, mask: nat, positions: seq<nat>, combo: nat, v: nat, i: nat)
    requires Pattern(bits, mask, positions) && Agrees(bits, value, mask, v)
    requires forall j: nat | j < |positions| :: Bit(combo, j) == Bit(v, positions[j])
    requires TrailingZeros(mask) <= i < bits
    ensures Bit(v, i) <==> Bit(BaseFor(value, mask, positions, combo), i)
  {
    BaseBits(bits, value, mask, positions, combo, i);
    FreeHighBits(bits, mask, i);
    PositionsAre(FreeHigh(bits, mask), bits);
    if !Bit(mask, i) {
      assert i in positions;
      var j :| 0 <= j < |positions| && positions[j] == i;
    }
  }

  /** Two combinations select ranges with a gap between them. */
  lemma RangesApart(bits: nat, value: nat, mask: nat, positions: seq<nat>, a: nat, b: nat)
    requires Pattern(bits, mask, positions) && a != b && a < Pow2(|positions|) && b < Pow2(|positions|)
    ensures var span := Pow2(TrailingZeros(mask)) - 1;
      Apart(RangeFor(BitAnd(value, mask), positions, span, a), RangeFor(BitAnd(value, mask), positions, span, b))
  {
    hide *;
    LowestIsFixed(bits, mask, positions);
    var t := TrailingZeros(mask);
    var x, y := BaseFor(value, mask, positions, a), BaseFor(value, mask, positions, b);
    RangeIsBlock(bits, value, mask, positions, a);
    RangeIsBlock(bits, value, mask, positions, b);
    BasesDiffer(bits, value, mask, positions, a, b);
    SameParity(bits, value, mask, positions, a, b);
    BlocksApart(Shr(x, t), Shr(y, t), t);
  }

  /** The lowest fixed bit is the same in every base. */
  lemma SameParity(bits: nat, value: nat, mask: nat, positions: seq<nat>, a: nat, b: nat)
    requires Pattern(bits, mask, positions)
    ensures mask > 0 && Shr(BaseFor(value, mask, positions, a), TrailingZeros(mask)) % 2
      == Shr(BaseFor(value, mask, positions, b), TrailingZeros(mask)) % 2
  {
    hide BaseFor, TrailingZeros, Pattern;
    LowestIsFixed(bits, mask, positions);
    BaseBits(bits, value, mask, positions, a, TrailingZeros(mask));
    BaseBits(bits, value, mask, positions, b, TrailingZeros(mask));
  }

  lemma LowestIsFixed(bits: nat, mask: nat, positions: seq<nat>)
    requires Pattern(bits, mask, positions)
    ensures mask > 0 && Bit(mask, TrailingZeros(mask))
  {
    PowTrailing(mask);
  }

  /** Blocks of the same size and parity do not touch. */
  lemma BlocksApart(j: nat, k: nat, t: nat)
    requires j != k && j % 2 == k % 2
    ensures Apart((Shl(j, t), Shl(j, t) + Pow2(t) - 1), (Shl(k, t), Shl(k, t) + Pow2(t) - 1))
  {
    var lo, hi := if j < k then j else k, if j < k then k else j;
    ShlMonotone(lo, lo + 1, t);
    ShlMonotone(lo + 1, hi, t);
  }

  lemma BasesDiffer(bits: nat, value: nat, mask: nat, positions: seq<nat>, a: nat, b: nat)
    requires Pattern(bits, mask, positions) && a != b && a < Pow2(|positions|) && b < Pow2(|positions|)
    ensures BaseFor(value, mask, positions, a) != BaseFor(value, mask, positions, b)
  {
    if BaseFor(value, mask, positions, a) == BaseFor(value, mask, positions, b) {
      forall j: nat | j < |positions|
        ensures Bit(a, j) <==> Bit(b, j)
      {
        BaseBits(bits, value, mask, positions, a, positions[j]);
        BaseBits(bits, value, mask, positions, b, positions[j]);
      }
      SameBitsEqual(a, b, |positions|);
    }
  }

  // -------------------------------------------------------- the whole pattern

  lemma {:induction false} RangesForAt(value: nat, positions: seq<nat>, lowSpan: nat, n: nat)
    ensures |RangesFor(value, positions, lowSpan, n)| == n
    ensures forall i: nat | i < n ::
      RangesFor(value, positions, lowSpan, n)[i] == RangeFor(value, positions, lowSpan, i)
  {
    if n > 0 { RangesForAt(value, positions, lowSpan, n - 1); }
  }

  lemma PatternHolds(bits: nat, mask: nat)
    requires bits < 64 && 0 < mask < Pow2(bits) && mask <= U64_MAX
    ensures Pattern(bits, mask, Positions(FreeHigh(bits, mask), bits))
  {
  }

  lemma FreeRunsIs(bits: nat, mask: nat)
    requires bits < 64 && 0 < mask < Pow2(bits) && mask <= U64_MAX
    ensures FreeRuns(bits, mask) == Pow2(|Positions(FreeHigh(bits, mask), bits)|)
  {
  }

  /** The ranges of the expansion, in the order of the combinations. */
  ghost function PatternList(bits: nat, value: nat, mask: nat): seq<Range>
    requires bits < 64 && 0 < mask < Pow2(bits) && mask <= U64_MAX
  {
    var positions := Positions(FreeHigh(bits, mask), bits);
    RangesFor(BitAnd(value, mask), positions, Pow2(TrailingZeros(mask)) - 1, Pow2(|positions|))
  }

  lemma PatternListAt(bits: nat, value: nat, mask: nat, i: nat)
    requires bits < 64 && 0 < mask < Pow2(bits) && mask <= U64_MAX
    ensures var list := PatternList(bits, value, mask);
      var positions, span := Positions(FreeHigh(bits, mask), bits), Pow2(TrailingZeros(mask)) - 1;
      && |list| == FreeRuns(bits, mask)
      && (i < |list| ==> list[i] == RangeFor(BitAnd(value, mask), positions, span, i))
  {
    hide RangeFor, BitAnd, TrailingZeros, FreeHigh, Positions, RangesFor;
    var positions := Positions(FreeHigh(bits, mask), bits);
    RangesForAt(BitAnd(value, mask), positions, Pow2(TrailingZeros(mask)) - 1, Pow2(|positions|));
  }

  lemma PatternSetIs(bits: nat, value: nat, mask: nat)
    requires bits < 64 && 0 < mask < Pow2(bits) && mask <= U64_MAX
    ensures var ranges := PatternList(bits, value, mask);
      && PatternSet(bits, value, mask) == Normalise(bits, ranges)
      && forall v: nat :: Contains(PatternSet(bits, value, mask), v) <==> InRanges(Clamped(ranges, DomainMax(bits)), v)
  {
  }

  /** Everything about one range of the expansion. */
  lemma PatternListRange(bits: nat, value: nat, mask: nat, i: nat, v: nat)
    requires bits < 64 && 0 < mask < Pow2(bits) && mask <= U64_MAX && i < FreeRuns(bits, mask)
    ensures var list, positions := PatternList(bits, value, mask), Positions(FreeHigh(bits, mask), bits);
      && i < |list| && list[i].0 <= list[i].1 <= DomainMax(bits)
      && (list[i].0 <= v <= list[i].1 <==>
            Shr(v, TrailingZeros(mask)) == Shr(BaseFor(value, mask, positions, i), TrailingZeros(mask)))
  {
    hide *;
    PatternHolds(bits, mask);
    PatternListAt(bits, value, mask, i);
    InRangeFor(bits, value, mask, Positions(FreeHigh(bits, mask), bits), i, v);
  }

  lemma PatternInDomain(bits: nat, value: nat, mask: nat)
    requires bits < 64 && 0 < mask < Pow2(bits) && mask <= U64_MAX
    ensures forall r | r in PatternList(bits, value, mask) :: r.0 <= r.1 <= DomainMax(bits)
  {
    hide *;
    PatternListAt(bits, value, mask, 0);
    var ranges := PatternList(bits, value, mask);
    forall i: nat | i < |ranges|
      ensures ranges[i].0 <= ranges[i].1 <= DomainMax(bits)
    {
      PatternListRange(bits, value, mask, i, 0);
    }
  }

  lemma ListedAgrees(bits: nat, value: nat, mask: nat, i: nat, v: nat)
    requires bits < 64 && 0 < mask < Pow2(bits) && mask <= U64_MAX && i < |PatternList(bits, value, mask)|
    requires PatternList(bits, value, mask)[i].0 <= v <= PatternList(bits, value, mask)[i].1
    ensures v <= DomainMax(bits) && Agrees(bits, value, mask, v)
  {
    hide *;
    PatternHolds(bits, mask);
    PatternListAt(bits, value, mask, i);
    PatternListRange(bits, value, mask, i, v);
    RangeAgrees(bits, value, mask, Positions(FreeHigh(bits, mask), bits), i, v);
  }

  lemma AgreeingIsListed(bits: nat, value: nat, mask: nat, v: nat) returns (i: nat)
    requires bits < 64 && 0 < mask < Pow2(bits) && mask <= U64_MAX && v < Pow2(bits) && Agrees(bits, value, mask, v)
    ensures i < |PatternList(bits, value, mask)|
    ensures PatternList(bits, value, mask)[i].0 <= v <= PatternList(bits, value, mask)[i].1
  {
    hide *;
    PatternHolds(bits, mask);
    var positions := Positions(FreeHigh(bits, mask), bits);
    AgreeingInRange(bits, value, mask, positions, v);
    i := Gathered(positions, v, |positions|);
    FreeRunsIs(bits, mask);
    PatternListRange(bits, value, mask, i, v);
  }

  lemma PatternMember(bits: nat, value: nat, mask: nat, v: nat)
    requires bits < 64 && 0 < mask < Pow2(bits) && mask <= U64_MAX
    ensures InRanges(PatternList(bits, value, mask), v) <==> v <= DomainMax(bits) && Agrees(bits, value, mask, v)
  {
    hide Agrees, PatternList, Pow2;
    var ranges := PatternList(bits, value, mask);
    if i :| 0 <= i < |ranges| && ranges[i].0 <= v <= ranges[i].1 {
      ListedAgrees(bits, value, mask, i, v);
    }
    if v <= DomainMax(bits) && Agrees(bits, value, mask, v) {
      var i := AgreeingIsListed(bits, value, mask, v);
      assert ranges[i].0 <= v <= ranges[i].1;
    }
  }

  /** The set holds exactly the values that agree with the pattern. */
  lemma PatternExact(bits: nat, value: nat, mask: nat, v: nat)
    requires bits < 64 && mask < Pow2(bits)
    ensures Contains(PatternSet(bits, value, mask), v) <==> v <= DomainMax(bits) && Agrees(bits, value, mask, v)
  {
    if mask == 0 {
      forall i: nat ensures !Bit(mask, i) { ShrZero(i); }
    } else {
      MaskFitsWord(bits, mask);
      PatternSetIs(bits, value, mask);
      hide *;
      PatternInDomain(bits, value, mask);
      ClampedIdentity(PatternList(bits, value, mask), DomainMax(bits));
      PatternMember(bits, value, mask, v);
    }
  }

  lemma PatternListApart(bits: nat, value: nat, mask: nat, i: nat, j: nat)
    requires bits < 64 && 0 < mask < Pow2(bits) && mask <= U64_MAX
    requires i < |PatternList(bits, value, mask)| && j < |PatternList(bits, value, mask)| && i != j
    ensures Apart(PatternList(bits, value, mask)[i], PatternList(bits, value, mask)[j])
  {
    PatternListAt(bits, value, mask, i);
    PatternListAt(bits, value, mask, j);
    PatternHolds(bits, mask);
    FreeRunsIs(bits, mask);
    hide RangeFor, BitAnd, TrailingZeros, FreeHigh, Positions, Pattern, PatternList, FreeRuns, Apart;
    RangesApart(bits, value, mask, Positions(FreeHigh(bits, mask), bits), i, j);
  }

  lemma PatternListWidth(bits: nat, value: nat, mask: nat, i: nat)
    requires bits < 64 && 0 < mask < Pow2(bits) && mask <= U64_MAX && i < |PatternList(bits, value, mask)|
    ensures PatternList(bits, value, mask)[i].1 + 1 == PatternList(bits, value, mask)[i].0 + Pow2(TrailingZeros(mask))
  {
    PatternListAt(bits, value, mask, i);
    PatternHolds(bits, mask);
    hide RangeFor, BitAnd, TrailingZeros, FreeHigh, Positions, Pattern, PatternList, FreeRuns;
    RangeIsBlock(bits, value, mask, Positions(FreeHigh(bits, mask), bits), i);
  }

  lemma PatternSetOfList(bits: nat, value: nat, mask: nat)
    requires bits < 64 && 0 < mask < Pow2(bits) && mask <= U64_MAX
    ensures PatternSet(bits, value, mask) == Normalise(bits, PatternList(bits, value, mask))
    ensures forall r | r in PatternList(bits, value, mask) :: r.0 <= r.1 <= DomainMax(bits)
  {
    PatternSetIs(bits, value, mask);
    PatternInDomain(bits, value, mask);
  }

  /** Its canonical form has exactly `FreeRuns` ranges, each `2^t` values wide. */
  lemma PatternRanges(bits: nat, value: nat, mask: nat)
    requires bits < 64 && 0 < mask < Pow2(bits)
    ensures |PatternSet(bits, value, mask).ranges| == FreeRuns(bits, mask)
    ensures forall r | r in PatternSet(bits, value, mask).ranges :: r.1 - r.0 + 1 == Pow2(TrailingZeros(mask))
  {
    MaskFitsWord(bits, mask);
    hide TrailingZeros, PatternSet, Normalise, PatternList, FreeRuns, Apart, Pow2, DomainMax;
    PatternSetOfList(bits, value, mask);
    PatternListAt(bits, value, mask, 0);
    var ranges := PatternList(bits, value, mask);
    forall i, j | 0 <= i < j < |ranges|
      ensures Apart(ranges[i], ranges[j])
    {
      PatternListApart(bits, value, mask, i, j);
    }
    NormaliseApart(bits, ranges);
    forall i: nat | i < |ranges|
      ensures ranges[i].1 + 1 == ranges[i].0 + Pow2(TrailingZeros(mask))
    {
      PatternListWidth(bits, value, mask, i);
    }
  }

  /** The expansion is refused exactly when any canonical form of the agreeing values needs
  more ranges than the cap. */
  lemma RefusedExactly(bits: nat, value: nat, mask: nat, cap: nat, s: IntervalSet)
    requires bits < 64 && mask < Pow2(bits) && cap >= 1
    requires s.bits == bits && forall v: nat :: Contains(s, v) <==> v <= DomainMax(bits) && Agrees(bits, value, mask, v)
    ensures s == PatternSet(bits, value, mask)
    ensures (if mask == 0 then false else FreeRuns(bits, mask) > cap) <==> |s.ranges| > cap
  {
    forall v: nat { PatternExact(bits, value, mask, v); }
    SetEquality(s, PatternSet(bits, value, mask));
    if mask != 0 { PatternRanges(bits, value, mask); }
  }

  /** Values a pattern denotes, without building the ranges. */
  function MaskCount(bits: nat, mask: nat): nat
    requires CountOnes(mask) <= bits
  {
    Pow2(bits - CountOnes(mask))
  }

  lemma MaskOnes(bits: nat, mask: nat)
    requires mask < Pow2(bits)
    ensures CountOnes(mask) <= bits
  {
    PositionsCount(mask, bits);
    PositionsShort(mask, bits);
  }

  /** Low, fixed and free bits make up the field. */
  lemma FieldSplit(bits: nat, mask: nat)
    requires bits < 64 && 0 < mask < Pow2(bits) && mask <= U64_MAX
    ensures |Positions(FreeHigh(bits, mask), bits)| + CountOnes(mask) + TrailingZeros(mask) == bits
  {
    hide FreeHigh, TrailingZeros, CountOnes, Positions;
    BitsSplit(bits, mask, bits);
    PositionsCount(mask, bits);
    TrailingBelow(bits, mask);
  }

  lemma PatternCount(bits: nat, value: nat, mask: nat)
    requires bits < 64 && 0 < mask < Pow2(bits) && mask <= U64_MAX && CountOnes(mask) <= bits
    ensures CountRanges(PatternSet(bits, value, mask).ranges) == Pow2(bits - CountOnes(mask))
  {
    hide FreeHigh, TrailingZeros, CountOnes, Positions, PatternSet, FreeRuns, CountRanges, Pow2;
    PatternRanges(bits, value, mask);
    EqualRangesCount(PatternSet(bits, value, mask).ranges, Pow2(TrailingZeros(mask)));
    FreeRunsIs(bits, mask);
    FieldSplit(bits, mask);
    Pow2Sum(|Positions(FreeHigh(bits, mask), bits)|, TrailingZeros(mask));
  }

  /** The short count is the number of values in the set. */
  lemma MaskCountExact(bits: nat, value: nat, mask: nat)
    requires bits < 64 && mask < Pow2(bits)
    ensures CountOnes(mask) <= bits && Count(PatternSet(bits, value, mask)) == MaskCount(bits, mask)
  {
    hide *;
    MaskOnes(bits, mask);
    CountIs(bits, value, mask);
    if mask == 0 {
      NoMaskCount(bits, value);
    } else {
      MaskFitsWord(bits, mask);
      PatternCount(bits, value, mask);
    }
  }

  lemma CountIs(bits: nat, value: nat, mask: nat)
    requires bits < 64 && mask < Pow2(bits) && CountOnes(mask) <= bits
    ensures Count(PatternSet(bits, value, mask)) == CountRanges(PatternSet(bits, value, mask).ranges)
    ensures MaskCount(bits, mask) == Pow2(bits - CountOnes(mask))
  {
    hide CountOnes, CountRanges, Pow2, PatternSet, Canonical;
  }

  lemma NoMaskCount(bits: nat, value: nat)
    requires bits < 64
    ensures CountRanges(PatternSet(bits, value, 0).ranges) == Pow2(bits) && CountOnes(0) == 0
  {
    assert PatternSet(bits, value, 0).ranges == [(0, DomainMax(bits))];
    OneRangeCount((0, DomainMax(bits)));
  }

  lemma OneRangeCount(r: Range)
    requires r.0 <= r.1
    ensures CountRanges([r]) == r.1 - r.0 + 1
  {
    assert [r][1..] == [];
  }
}
