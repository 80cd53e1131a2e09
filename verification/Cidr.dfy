/** Decomposing ranges into aligned blocks.

A block is an address prefix: the values that share their `len` leading bits.
The decomposition is greedy; the point of this module is that greedy is exact,
is minimal among all exact covers, and is short. */
module Cidr {
  import opened Arith
  import opened Intervals
  import opened Cardinality

  datatype Cidr = Cidr(base: nat, len: nat)

  /** A well-formed prefix of a `bits`-wide field: no host bit is set in `base`. */
  predicate Aligned(bits: nat, c: Cidr) {
    && c.len <= bits
    && c.base < Pow2(bits)
    && Shl(Shr(c.base, bits - c.len), bits - c.len) == c.base
  }

  predicate Covers(bits: nat, c: Cidr, v: nat) {
    c.len <= bits && Shr(v, bits - c.len) == Shr(c.base, bits - c.len)
  }

  /** Some block of the collection covers `v`. */
  ghost predicate Covered(bits: nat, cover: set<Cidr>, v: nat) {
    exists c | c in cover :: Covers(bits, c, v)
  }

  /** Size exponent of the block the loop emits at `cur`. */
  function GreedyExponent(bits: nat, cur: nat, hi: nat): nat
    requires cur <= hi
  {
    var align := if cur == 0 then bits else Min(TrailingZeros(cur), bits);
    Min(Min(align, Log2(hi - cur + 1)), bits)
  }

  function Greedy(bits: nat, cur: nat, hi: nat): seq<Cidr>
    requires hi < Pow2(bits)
    decreases hi + 1 - cur
  {
    if cur > hi then []
    else
      var n := GreedyExponent(bits, cur, hi);
      [Cidr(cur, bits - n)] + Greedy(bits, cur + Pow2(n), hi)
  }

  method RangeToPrefixes(bits: nat, lo: nat, hi: nat) returns (out: seq<Cidr>)
    requires bits < 64 && hi < Pow2(bits)
    ensures out == Greedy(bits, lo, hi)
  {
    hide Greedy, TrailingZeros, Log2, Pow2;
    out := [];
    var cur := lo;
    while cur <= hi
      invariant Greedy(bits, lo, hi) == out + Greedy(bits, cur, hi)
      decreases hi + 1 - cur
    {
      var align := if cur == 0 then bits else Min(TrailingZeros(cur), bits);
      var remaining := hi - cur + 1;
      var spanPow := Log2(remaining);
      var n := Min(Min(align, spanPow), bits);
      GreedyStep(bits, cur, hi);
      out := out + [Cidr(cur, bits - n)];
      cur := cur + Pow2(n);
    }
    GreedyEnds(bits, cur, hi);
  }

  function SetToPrefixes(s: IntervalSet): seq<Cidr>
    requires s.bits < 64
  {
    PrefixesOf(s.bits, s.ranges)
  }

  function PrefixesOf(bits: nat, ranges: seq<Range>): seq<Cidr>
    requires bits < 64 && forall i | 0 <= i < |ranges| :: ranges[i].1 < Pow2(bits)
  {
    if ranges == [] then []
    else Greedy(bits, ranges[0].0, ranges[0].1) + PrefixesOf(bits, ranges[1..])
  }

  // ------------------------------------------------------- one greedy step

  lemma GreedyStep(bits: nat, cur: nat, hi: nat)
    requires cur <= hi < Pow2(bits)
    ensures var n := GreedyExponent(bits, cur, hi);
      Pow2(n) > 0 && Greedy(bits, cur, hi) == [Cidr(cur, bits - n)] + Greedy(bits, cur + Pow2(n), hi)
  {
    hide GreedyExponent;
  }

  lemma GreedyEnds(bits: nat, cur: nat, hi: nat)
    requires hi < Pow2(bits) && cur > hi
    ensures Greedy(bits, cur, hi) == []
  {
  }

  lemma {:induction false} TrailingZerosAligned(x: nat, n: nat)
    requires x > 0
    ensures Shl(Shr(x, n), n) == x <==> n <= TrailingZeros(x)
  {
    if n > 0 && x % 2 == 0 {
      TrailingZerosAligned(x / 2, n - 1);
    }
  }

  lemma {:induction false} ShlZero(n: nat)
    ensures Shl(0, n) == 0
  {
    if n > 0 { ShlZero(n - 1); }
  }

  /** The block emitted at `cur` is aligned and does not pass `hi`. */
  lemma StepFits(bits: nat, cur: nat, hi: nat)
    requires cur <= hi < Pow2(bits)
    ensures var n := GreedyExponent(bits, cur, hi);
      n <= bits && cur + Pow2(n) <= hi + 1 && Aligned(bits, Cidr(cur, bits - n))
  {
    hide Log2, Pow2, TrailingZeros, Shr, Shl;
    var n := GreedyExponent(bits, cur, hi);
    Log2Bounds(hi - cur + 1);
    Pow2Monotone(n, Log2(hi - cur + 1));
    if cur == 0 {
      ShrZero(n);
      ShlZero(n);
    } else {
      TrailingZerosAligned(cur, n);
    }
  }

  /** No larger aligned block starts at `cur` and fits. */
  lemma StepLargest(bits: nat, cur: nat, hi: nat, c: Cidr)
    requires cur <= hi < Pow2(bits)
    requires Aligned(bits, c) && c.base == cur && cur + Pow2(bits - c.len) <= hi + 1
    ensures bits - c.len <= GreedyExponent(bits, cur, hi)
  {
    Log2Largest(hi - cur + 1, bits - c.len);
    if cur > 0 { TrailingZerosAligned(cur, bits - c.len); }
  }

  /** A block is a contiguous run of values. */
  lemma CoversRun(bits: nat, c: Cidr, v: nat)
    requires Aligned(bits, c)
    ensures Covers(bits, c, v) <==> c.base <= v < c.base + Pow2(bits - c.len)
  {
    ShrBlock(Shr(c.base, bits - c.len), bits - c.len, v);
  }

  /** Two blocks that meet are nested, the longer prefix inside the shorter one. */
  lemma Laminar(bits: nat, inner: Cidr, outer: Cidr, v: nat, w: nat)
    requires outer.len <= inner.len <= bits
    requires Covers(bits, inner, v) && Covers(bits, outer, v) && Covers(bits, inner, w)
    ensures Covers(bits, outer, w)
  {
    var m, d := bits - inner.len, inner.len - outer.len;
    ShrCompose(v, m, d);
    ShrCompose(w, m, d);
  }

  // -------------------------------------------------------------- exactness

  lemma {:induction false} GreedyAligned(bits: nat, cur: nat, hi: nat)
    requires hi < Pow2(bits)
    ensures forall c | c in Greedy(bits, cur, hi) :: Aligned(bits, c)
    decreases hi + 1 - cur
  {
    if cur <= hi {
      StepFits(bits, cur, hi);
      GreedyAligned(bits, cur + Pow2(GreedyExponent(bits, cur, hi)), hi);
    }
  }

  lemma {:induction false} GreedyExact(bits: nat, cur: nat, hi: nat, v: nat)
    requires hi < Pow2(bits)
    ensures cur <= v <= hi <==> exists c | c in Greedy(bits, cur, hi) :: Covers(bits, c, v)
    decreases hi + 1 - cur
  {
    hide GreedyExponent, Covers, Pow2, Shr, Shl, Aligned;
    if cur <= hi {
      var n := GreedyExponent(bits, cur, hi);
      StepFits(bits, cur, hi);
      var first := Cidr(cur, bits - n);
      var rest := Greedy(bits, cur + Pow2(n), hi);
      CoversRun(bits, first, v);
      GreedyExact(bits, cur + Pow2(n), hi, v);
      assert Greedy(bits, cur, hi) == [first] + rest;
      assert forall c :: c in [first] + rest <==> c == first || c in rest;
    }
  }

  lemma {:induction false} GreedyDisjoint(bits: nat, cur: nat, hi: nat, i: nat, j: nat, v: nat)
    requires hi < Pow2(bits)
    requires i < j < |Greedy(bits, cur, hi)|
    ensures !(Covers(bits, Greedy(bits, cur, hi)[i], v) && Covers(bits, Greedy(bits, cur, hi)[j], v))
    decreases hi + 1 - cur
  {
    hide GreedyExponent, Covers, Pow2, Shr, Shl, Aligned;
    var n := GreedyExponent(bits, cur, hi);
    var rest := Greedy(bits, cur + Pow2(n), hi);
    StepFits(bits, cur, hi);
    if i > 0 {
      GreedyDisjoint(bits, cur + Pow2(n), hi, i - 1, j - 1, v);
    } else {
      GreedyExact(bits, cur + Pow2(n), hi, v);
      assert Greedy(bits, cur, hi)[j] in rest;
      CoversRun(bits, Cidr(cur, bits - n), v);
    }
  }

  /** The emitted blocks are aligned and tile the range: every value of it lies in
  exactly one of them, and no other value lies in any. */
  lemma GreedyPartition(bits: nat, lo: nat, hi: nat, v: nat)
    requires hi < Pow2(bits)
    ensures var out := Greedy(bits, lo, hi);
      && (forall c | c in out :: Aligned(bits, c))
      && (lo <= v <= hi <==> exists i :: 0 <= i < |out| && Covers(bits, out[i], v))
      && (forall i, j | 0 <= i < j < |out| :: !(Covers(bits, out[i], v) && Covers(bits, out[j], v)))
  {
    var out := Greedy(bits, lo, hi);
    GreedyAligned(bits, lo, hi);
    GreedyExact(bits, lo, hi, v);
    forall i, j | 0 <= i < j < |out|
      ensures !(Covers(bits, out[i], v) && Covers(bits, out[j], v))
    {
      GreedyDisjoint(bits, lo, hi, i, j, v);
    }
  }

  // ------------------------------------------------------------- minimality

  /** A block of an exact cover that meets the greedy block lies inside it. */
  lemma CoverBlockInside(bits: nat, lo: nat, hi: nat, cover: set<Cidr>, c: Cidr, v: nat, w: nat)
    requires lo <= hi < Pow2(bits)
    requires forall d | d in cover :: Aligned(bits, d)
    requires forall x: nat :: Covered(bits, cover, x) ==> lo <= x <= hi
    requires c in cover && Covers(bits, c, v) && Covers(bits, c, w)
    requires Covers(bits, Cidr(lo, bits - GreedyExponent(bits, lo, hi)), v)
    ensures Covers(bits, Cidr(lo, bits - GreedyExponent(bits, lo, hi)), w)
  {
    StepFits(bits, lo, hi);
    var g := Cidr(lo, bits - GreedyExponent(bits, lo, hi));
    if c.len < g.len {
      Laminar(bits, g, c, v, lo);
      CoversRun(bits, c, lo);
      BlockEndpointsCovered(bits, cover, c);
      StepLargest(bits, lo, hi, c);
    }
    Laminar(bits, c, g, v, w);
  }

  lemma BlockEndpointsCovered(bits: nat, cover: set<Cidr>, c: Cidr)
    requires c in cover && Aligned(bits, c)
    ensures Covered(bits, cover, c.base)
    ensures Covered(bits, cover, c.base + Pow2(bits - c.len) - 1)
  {
    CoversRun(bits, c, c.base);
    CoversRun(bits, c, c.base + Pow2(bits - c.len) - 1);
  }

  /** No exact cover of a range by aligned blocks, overlapping or not, has fewer blocks. */
  lemma {:induction false} GreedyMinimal(bits: nat, lo: nat, hi: nat, cover: set<Cidr>)
    requires hi < Pow2(bits)
    requires forall c | c in cover :: Aligned(bits, c)
    requires forall v: nat :: Covered(bits, cover, v) <==> lo <= v <= hi
    ensures |Greedy(bits, lo, hi)| <= |cover|
    decreases hi + 1 - lo
  {
    hide Greedy, GreedyExponent, Pow2, Shr, Shl;
    if lo > hi {
      GreedyEnds(bits, lo, hi);
    } else {
      GreedyStep(bits, lo, hi);
      StepFits(bits, lo, hi);
      var n := GreedyExponent(bits, lo, hi);
      var g := Cidr(lo, bits - n);
      var rest := set c | c in cover && !Covers(bits, g, c.base);
      forall v: nat
        ensures Covered(bits, rest, v) <==> lo + Pow2(n) <= v <= hi
      {
        RestCovers(bits, lo, hi, cover, rest, v);
      }
      GreedyMinimal(bits, lo + Pow2(n), hi, rest);
      assert Covered(bits, cover, lo);
      var first :| first in cover && Covers(bits, first, lo);
      CoversRun(bits, first, first.base);
      CoversRun(bits, g, lo);
      CoverBlockInside(bits, lo, hi, cover, first, lo, first.base);
      ProperSubsetSize(rest, cover, first);
    }
  }

  lemma RestCovers(bits: nat, lo: nat, hi: nat, cover: set<Cidr>, rest: set<Cidr>, v: nat)
    requires lo <= hi < Pow2(bits)
    requires forall c | c in cover :: Aligned(bits, c)
    requires forall x: nat :: Covered(bits, cover, x) <==> lo <= x <= hi
    requires rest == set c | c in cover && !Covers(bits, Cidr(lo, bits - GreedyExponent(bits, lo, hi)), c.base)
    ensures Covered(bits, rest, v) <==> lo + Pow2(GreedyExponent(bits, lo, hi)) <= v <= hi
  {
    StepFits(bits, lo, hi);
    var n := GreedyExponent(bits, lo, hi);
    var g := Cidr(lo, bits - n);
    CoversRun(bits, g, v);
    if Covered(bits, rest, v) {
      var c :| c in rest && Covers(bits, c, v);
      assert Covered(bits, cover, v);
      CoversRun(bits, c, c.base);
      if Covers(bits, g, v) {
        CoverBlockInside(bits, lo, hi, cover, c, v, c.base);
      }
    }
    if lo + Pow2(n) <= v <= hi {
      assert Covered(bits, cover, v);
      var c :| c in cover && Covers(bits, c, v);
      CoversRun(bits, c, c.base);
      if Covers(bits, g, c.base) {
        CoverBlockInside(bits, lo, hi, cover, c, c.base, v);
      }
      assert c in rest;
    }
  }

  // ------------------------------------------------------------ block count

  /** Exponent of the largest block alignment allows at `cur`. */
  function AlignExponent(bits: nat, cur: nat): nat {
    if cur == 0 then bits else Min(TrailingZeros(cur), bits)
  }

  /** A bound on the blocks still to come, from the alignment and the span exponent. */
  function CountBound(a: int, s: int): int {
    if s < a then s + 1 else 2 * s - a + 1
  }

  lemma CountStep(a: nat, s: nat, a': nat, s': nat)
    requires s' <= s && (s <= a ==> s' < s)
    requires if s < a then a' == s else a' >= a + 1
    ensures 1 + CountBound(a', s') <= CountBound(a, s)
  {
  }

  /** Block sizes first grow with the alignment, then shrink with what is left. */
  lemma {:induction false} GreedyCount(bits: nat, cur: nat, hi: nat)
    requires cur <= hi < Pow2(bits)
    ensures |Greedy(bits, cur, hi)| <= CountBound(AlignExponent(bits, cur), Log2(hi - cur + 1))
    decreases hi - cur
  {
    var a, s := AlignExponent(bits, cur), Log2(hi - cur + 1);
    var n := GreedyExponent(bits, cur, hi);
    var next := cur + Pow2(n);
    StepFits(bits, cur, hi);
    SpanBelow(bits, cur, hi);
    GreedyHead(bits, cur, hi);
    hide Greedy, Pow2, Log2, GreedyExponent, AlignExponent, CountBound;
    if next <= hi {
      GreedyCount(bits, next, hi);
      NextAlign(bits, cur, n);
      SpanShrinks(cur, hi, n);
      CountStep(a, s, AlignExponent(bits, next), Log2(hi - next + 1));
    }
  }

  lemma GreedyHead(bits: nat, cur: nat, hi: nat)
    requires cur <= hi < Pow2(bits) && cur + Pow2(GreedyExponent(bits, cur, hi)) <= hi + 1
    requires Log2(hi - cur + 1) <= bits
    ensures var n := GreedyExponent(bits, cur, hi);
      && n == Min(AlignExponent(bits, cur), Log2(hi - cur + 1))
      && |Greedy(bits, cur, hi)| == 1 + |Greedy(bits, cur + Pow2(n), hi)|
      && (cur + Pow2(n) > hi ==> |Greedy(bits, cur + Pow2(n), hi)| == 0)
    ensures 1 <= CountBound(AlignExponent(bits, cur), Log2(hi - cur + 1))
  {
    hide Pow2, Log2, TrailingZeros;
  }

  lemma SpanShrinks(cur: nat, hi: nat, n: nat)
    requires cur + Pow2(n) <= hi && n <= Log2(hi - cur + 1)
    ensures Log2(hi - cur - Pow2(n) + 1) <= Log2(hi - cur + 1)
    ensures n == Log2(hi - cur + 1) ==> Log2(hi - cur - Pow2(n) + 1) < n
  {
    var rest := hi - cur - Pow2(n) + 1;
    Log2Monotone(rest, hi - cur + 1);
    Log2Bounds(hi - cur + 1);
    if n == Log2(hi - cur + 1) { Log2Less(rest, n); }
  }

  lemma SpanBelow(bits: nat, cur: nat, hi: nat)
    requires cur <= hi < Pow2(bits)
    ensures Log2(hi - cur + 1) <= bits
  {
    Log2Bounds(hi - cur + 1);
    if Log2(hi - cur + 1) > bits { Pow2Strict(bits, Log2(hi - cur + 1)); }
  }

  lemma Log2Less(x: nat, n: nat)
    requires 0 < x < Pow2(n)
    ensures Log2(x) < n
  {
    Log2Bounds(x);
    if n <= Log2(x) { Pow2Monotone(n, Log2(x)); }
  }

  lemma {:induction false} Log2Monotone(x: nat, y: nat)
    requires 0 < x <= y
    ensures Log2(x) <= Log2(y)
  {
    Log2Bounds(x);
    Log2Largest(y, Log2(x));
  }

  /** After a block of size `2^n` the alignment is exactly `n`, or more when `n` was all of it. */
  lemma NextAlign(bits: nat, cur: nat, n: nat)
    requires n <= AlignExponent(bits, cur) && cur + Pow2(n) < Pow2(bits)
    ensures var next := AlignExponent(bits, cur + Pow2(n));
      if n < AlignExponent(bits, cur) then next == n else next >= n + 1
  {
    if n >= bits { Pow2Monotone(bits, n); }
    TrailingZerosAdd(cur, n);
    if cur > 0 { TrailingZerosFit(cur, bits); }
  }

  /** A number that fits its field has no more trailing zeros than the field has bits. */
  lemma {:induction false} TrailingZerosFit(x: nat, bits: nat)
    requires 0 < x < Pow2(bits)
    ensures TrailingZeros(x) <= bits
  {
    if x % 2 == 0 { TrailingZerosFit(x / 2, bits - 1); }
  }

  lemma {:induction false} TrailingZerosAdd(x: nat, n: nat)
    requires x == 0 || n <= TrailingZeros(x)
    ensures if x == 0 || n < TrailingZeros(x) then TrailingZeros(x + Pow2(n)) == n
            else TrailingZeros(x + Pow2(n)) >= n + 1
  {
    hide TrailingZeros, Pow2;
    HalfAdd(x, n);
    if n > 0 {
      if x > 0 { ZerosStep(x); }
      ZerosStep(x + Pow2(n));
      TrailingZerosAdd(x / 2, n - 1);
    } else {
      ZerosStep(x + 1);
      if x > 0 { ZerosStep(x); }
    }
  }

  lemma ZerosStep(x: nat)
    requires x > 0
    ensures TrailingZeros(x) == if x % 2 == 1 then 0 else 1 + TrailingZeros(x / 2)
  {
  }

  lemma HalfAdd(x: nat, n: nat)
    ensures if n == 0 then Pow2(n) == 1 else Pow2(n) == 2 * Pow2(n - 1)
    ensures n > 0 ==> (x + Pow2(n)) / 2 == x / 2 + Pow2(n - 1) && (x + Pow2(n)) % 2 == x % 2
  {
  }

  /** At most `2 * bits` blocks, for any range of a field that has at least one bit. */
  lemma GreedyShort(bits: nat, lo: nat, hi: nat)
    requires bits > 0 && hi < Pow2(bits)
    ensures |Greedy(bits, lo, hi)| <= 2 * bits
  {
    if lo <= hi {
      GreedyCount(bits, lo, hi);
      SpanBelow(bits, lo, hi);
      if Log2(hi - lo + 1) == bits {
        Log2Bounds(hi - lo + 1);
        assert lo == 0;
      }
    }
  }

  // ------------------------------------------------------------- whole sets

  lemma {:induction false} PrefixesAligned(bits: nat, ranges: seq<Range>)
    requires bits < 64 && forall i | 0 <= i < |ranges| :: ranges[i].1 < Pow2(bits)
    ensures forall c | c in PrefixesOf(bits, ranges) :: Aligned(bits, c)
  {
    if ranges != [] {
      GreedyAligned(bits, ranges[0].0, ranges[0].1);
      PrefixesAligned(bits, ranges[1..]);
    }
  }

  lemma {:induction false} PrefixesMember(bits: nat, ranges: seq<Range>, v: nat)
    requires bits < 64 && forall i | 0 <= i < |ranges| :: ranges[i].1 < Pow2(bits)
    ensures forall c | c in PrefixesOf(bits, ranges) :: Aligned(bits, c)
    ensures InRanges(ranges, v) <==> exists c | c in PrefixesOf(bits, ranges) :: Covers(bits, c, v)
  {
    PrefixesAligned(bits, ranges);
    if ranges != [] {
      var (lo, hi) := ranges[0];
      var head := Greedy(bits, lo, hi);
      InRangesCons(ranges, v);
      GreedyExact(bits, lo, hi, v);
      PrefixesMember(bits, ranges[1..], v);
      var rest := PrefixesOf(bits, ranges[1..]);
      assert forall c :: c in head + rest <==> c in head || c in rest;
    }
  }

  /** The blocks of a set cover its members and nothing else. */
  lemma SetToPrefixesExact(s: IntervalSet, v: nat)
    requires s.bits < 64
    ensures forall c | c in SetToPrefixes(s) :: Aligned(s.bits, c)
    ensures Contains(s, v) <==> exists c | c in SetToPrefixes(s) :: Covers(s.bits, c, v)
  {
    PrefixesMember(s.bits, s.ranges, v);
  }

  /** And no exact cover of the set by aligned blocks has fewer. */
  lemma SetToPrefixesMinimal(s: IntervalSet, cover: set<Cidr>)
    requires s.bits < 64
    requires forall c | c in cover :: Aligned(s.bits, c)
    requires forall v: nat :: Covered(s.bits, cover, v) <==> Contains(s, v)
    ensures |SetToPrefixes(s)| <= |cover|
  {
    forall v: nat
      ensures Covered(s.bits, cover, v) <==> InRanges(s.ranges, v)
    {
      assert Covered(s.bits, cover, v) <==> Contains(s, v);
    }
    PrefixesMinimal(s.bits, s.ranges, cover);
  }

  lemma {:induction false} PrefixesMinimal(bits: nat, ranges: seq<Range>, cover: set<Cidr>)
    requires bits < 64 && Canonical(ranges, DomainMax(bits))
    requires forall c | c in cover :: Aligned(bits, c)
    requires forall v: nat :: Covered(bits, cover, v) <==> InRanges(ranges, v)
    ensures |PrefixesOf(bits, ranges)| <= |cover|
  {
    if ranges != [] {
      var (lo, hi) := ranges[0];
      var here := set c | c in cover && c.base <= hi;
      var later := cover - here;
      forall v: nat
        ensures Covered(bits, here, v) <==> lo <= v <= hi
        ensures Covered(bits, later, v) <==> InRanges(ranges[1..], v)
      {
        SplitCover(bits, ranges, cover, here, v);
      }
      GreedyMinimal(bits, lo, hi, here);
      PrefixesMinimal(bits, ranges[1..], later);
      assert cover == here + later;
    }
  }

  /** A contiguous block cannot jump the gap after the first range. */
  lemma SplitCover(bits: nat, ranges: seq<Range>, cover: set<Cidr>, here: set<Cidr>, v: nat)
    requires bits < 64 && ranges != [] && Canonical(ranges, DomainMax(bits))
    requires forall c | c in cover :: Aligned(bits, c)
    requires forall x: nat :: Covered(bits, cover, x) <==> InRanges(ranges, x)
    requires here == set c | c in cover && c.base <= ranges[0].1
    ensures Covered(bits, here, v) <==> ranges[0].0 <= v <= ranges[0].1
    ensures Covered(bits, cover - here, v) <==> InRanges(ranges[1..], v)
  {
    var (lo, hi) := ranges[0];
    InRangesCons(ranges, v);
    if InRanges(ranges[1..], v) { TailAbove(ranges, DomainMax(bits), v); }
    forall c | c in cover && Covers(bits, c, v)
      ensures c in here <==> v <= hi
      ensures InRanges(ranges, v)
    {
      assert Covered(bits, cover, v);
      CoversRun(bits, c, v);
      if c in here && v > hi {
        CoversRun(bits, c, hi + 1);
        assert Covered(bits, cover, hi + 1);
        InRangesCons(ranges, hi + 1);
        TailAbove(ranges, DomainMax(bits), hi + 1);
      }
    }
    if InRanges(ranges, v) { assert Covered(bits, cover, v); }
  }
}
