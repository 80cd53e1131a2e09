/** Canonical sets of unsigned integers over a fixed-width field.

A set is a list of inclusive ranges, sorted, disjoint and never adjacent. The
type `IntervalSet` carries that invariant, as the program's private fields do. */
module Intervals {
  import opened Arith
  import opened Sorting

  type Range = (nat, nat)

  datatype RawSet = RawSet(bits: nat, ranges: seq<Range>)

  type IntervalSet = s: RawSet | Canonical(s.ranges, DomainMax(s.bits)) witness RawSet(0, [])

  function DomainMax(bits: nat): nat {
    if bits >= 64 then U64_MAX else Pow2(bits) - 1
  }

  /** Sorted, disjoint, non-adjacent, non-empty and inside the domain. */
  ghost predicate Canonical(rs: seq<Range>, max: nat) {
    && (forall i | 0 <= i < |rs| :: rs[i].0 <= rs[i].1 <= max)
    && (forall i, j | 0 <= i < j < |rs| :: rs[i].1 + 1 < rs[j].0)
  }

  ghost predicate InRanges(rs: seq<Range>, v: nat) {
    exists i :: 0 <= i < |rs| && rs[i].0 <= v <= rs[i].1
  }

  ghost predicate Contains(s: RawSet, v: nat) {
    InRanges(s.ranges, v)
  }

  /** Membership as the program tests it. */
  predicate ContainsValue(s: RawSet, v: nat)
    ensures ContainsValue(s, v) <==> Contains(s, v)
  {
    exists i :: 0 <= i < |s.ranges| && s.ranges[i].0 <= v <= s.ranges[i].1
  }

  predicate IsEmpty(s: RawSet) {
    |s.ranges| == 0
  }

  predicate IsFull(s: RawSet) {
    |s.ranges| == 1 && s.ranges[0] == (0, DomainMax(s.bits))
  }

  // ---------------------------------------------------------- constructors

  function Empty(bits: nat): (s: IntervalSet)
    ensures s.bits == bits && forall v: nat :: !Contains(s, v)
  {
    RawSet(bits, [])
  }

  function Full(bits: nat): (s: IntervalSet)
    ensures s.bits == bits && IsFull(s)
    ensures forall v: nat :: Contains(s, v) <==> v <= DomainMax(bits)
  {
    SingleRange((0, DomainMax(bits)));
    RawSet(bits, [(0, DomainMax(bits))])
  }

  function Point(bits: nat, v: nat): (s: IntervalSet)
    requires v <= DomainMax(bits)
    ensures s.bits == bits && forall x: nat :: Contains(s, x) <==> x == v
  {
    SingleRange((v, v));
    RawSet(bits, [(v, v)])
  }

  /** One range, both endpoints clamped to the domain; empty when it runs backwards. */
  function Span(bits: nat, lo: nat, hi: nat): (s: IntervalSet)
    ensures s.bits == bits
    ensures forall x: nat :: Contains(s, x) <==>
      lo <= hi && Min(lo, DomainMax(bits)) <= x <= Min(hi, DomainMax(bits))
  {
    if lo > hi then Empty(bits)
    else
      SingleRange((Min(lo, DomainMax(bits)), Min(hi, DomainMax(bits))));
      RawSet(bits, [(Min(lo, DomainMax(bits)), Min(hi, DomainMax(bits)))])
  }

  lemma SingleRange(r: Range)
    ensures forall v: nat :: InRanges([r], v) <==> r.0 <= v <= r.1
  {
    assert [r][0] == r;
  }

  /** The aligned block of values that share the `len` leading bits of `value`. */
  function Block(bits: nat, value: nat, len: nat): Range
    requires len <= bits
  {
    var hostBits := bits - len;
    var base := if hostBits >= 64 then 0 else Shl(Shr(value, hostBits), hostBits);
    var span := if hostBits >= 64 then U64_MAX else Pow2(hostBits) - 1;
    (base, BitOr(base, span))
  }

  /** The words that agree with `value` on all but the host bits, as one range. It is a set of the
  field exactly when `value` is in the domain. */
  function WordPrefix(bits: nat, value: nat, len: nat): (s: RawSet)
    requires len <= bits && value <= U64_MAX
    ensures s.bits == bits
    ensures forall x: nat :: InRanges(s.ranges, x) <==>
      x <= U64_MAX && Shr(x, bits - len) == Shr(value, bits - len)
    ensures Canonical(s.ranges, DomainMax(bits)) <==> value <= DomainMax(bits)
  {
    BlockSound(bits, value, len);
    SingleRange(Block(bits, value, len));
    SingleCanonical(Block(bits, value, len), DomainMax(bits));
    RawSet(bits, [Block(bits, value, len)])
  }

  lemma SingleCanonical(r: Range, max: nat)
    ensures Canonical([r], max) <==> r.0 <= r.1 <= max
  {
    assert [r][0] == r;
  }

  /** The values that agree with `value` on the `len` most significant bits. */
  function Prefix(bits: nat, value: nat, len: nat): (s: IntervalSet)
    requires len <= bits && value <= DomainMax(bits)
    ensures s.bits == bits && |s.ranges| == 1
    ensures forall x: nat :: Contains(s, x) <==>
      x <= DomainMax(bits) && Shr(x, bits - len) == Shr(value, bits - len)
  {
    DomainMaxBound(bits);
    PrefixMember(bits, value, len);
    SingleRange(Block(bits, value, len));
    WordPrefix(bits, value, len)
  }

  /** For a value of the domain the whole block is in the domain, and it is all of the field that
  shares the bits. */
  lemma PrefixMember(bits: nat, value: nat, len: nat)
    requires len <= bits && value <= DomainMax(bits)
    ensures forall x: nat {:trigger Shr(x, bits - len)} ::
      Block(bits, value, len).0 <= x <= Block(bits, value, len).1 <==>
        x <= DomainMax(bits) && Shr(x, bits - len) == Shr(value, bits - len)
  {
    hide Block, DomainMax, Shr;
    DomainMaxBound(bits);
    BlockSound(bits, value, len);
  }

  lemma U64MaxIsPow2()
    ensures U64_MAX == Pow2(64) - 1
  {
    Pow2Table();
  }

  /** The shift and mask arithmetic on any machine word bounds exactly the words that share the
  leading bits, and the bounds lie in the field's domain exactly when the word does. */
  lemma BlockSound(bits: nat, value: nat, len: nat)
    requires len <= bits && value <= U64_MAX
    ensures
      var r := Block(bits, value, len);
      && r.0 <= r.1 <= U64_MAX
      && (r.1 <= DomainMax(bits) <==> value <= DomainMax(bits))
      && forall x: nat {:trigger Shr(x, bits - len)} ::
        r.0 <= x <= r.1 <==> x <= U64_MAX && Shr(x, bits - len) == Shr(value, bits - len)
  {
    var r := Block(bits, value, len);
    BlockEnds(bits, value, len);
    BlockInDomain(bits, value, len);
    forall x: nat {:trigger Shr(x, bits - len)}
      ensures r.0 <= x <= r.1 <==> x <= U64_MAX && Shr(x, bits - len) == Shr(value, bits - len)
    {
      BlockMember(bits, value, len, x);
    }
  }

  /** The bounds of a block that is narrower than a word, without the bit operations. */
  lemma BlockBounds(bits: nat, value: nat, len: nat)
    requires len <= bits && bits - len < 64
    ensures var base := Shl(Shr(value, bits - len), bits - len);
      Block(bits, value, len) == (base, base + Pow2(bits - len) - 1)
  {
    OrOfBlock(Shr(value, bits - len), bits - len, Pow2(bits - len) - 1);
  }

  /** A block of machine words that fits `width` bits ends in them. */
  lemma BlockFits(bits: nat, value: nat, len: nat, width: nat)
    requires len <= bits && bits - len < 64 && bits - len <= width && value < Pow2(width)
    ensures Block(bits, value, len).0 <= Block(bits, value, len).1 < Pow2(width)
  {
    hide Shl, Shr, Pow2, Block;
    BlockBounds(bits, value, len);
    ShrBound(value, bits - len, width);
    ShlBound(Shr(value, bits - len), bits - len, width);
  }

  lemma BlockEnds(bits: nat, value: nat, len: nat)
    requires len <= bits && value <= U64_MAX
    ensures Block(bits, value, len).0 <= Block(bits, value, len).1 <= U64_MAX
  {
    U64MaxIsPow2();
    if bits - len >= 64 {
      OrZeroLeft(U64_MAX);
    } else {
      hide Block, Pow2;
      BlockFits(bits, value, len, 64);
    }
  }

  lemma BlockInDomain(bits: nat, value: nat, len: nat)
    requires len <= bits && value <= U64_MAX
    ensures Block(bits, value, len).1 <= DomainMax(bits) <==> value <= DomainMax(bits)
  {
    U64MaxIsPow2();
    if bits >= 64 {
      BlockEnds(bits, value, len);
    } else {
      BlockMember(bits, value, len, value);
      hide Block, Pow2;
      if value <= DomainMax(bits) { BlockFits(bits, value, len, bits); }
    }
  }

  lemma BlockMember(bits: nat, value: nat, len: nat, x: nat)
    requires len <= bits && value <= U64_MAX
    ensures Block(bits, value, len).0 <= x <= Block(bits, value, len).1 <==>
      x <= U64_MAX && Shr(x, bits - len) == Shr(value, bits - len)
  {
    hide Block, Shl, Shr, Pow2;
    var hostBits := bits - len;
    BlockEnds(bits, value, len);
    if hostBits >= 64 {
      WholeWord(bits, value, len);
      WordShr(value, hostBits);
      if x <= U64_MAX { WordShr(x, hostBits); }
    } else {
      BlockBounds(bits, value, len);
      ShrBlock(Shr(value, hostBits), hostBits, x);
    }
  }

  lemma WholeWord(bits: nat, value: nat, len: nat)
    requires len <= bits && bits - len >= 64
    ensures Block(bits, value, len) == (0, U64_MAX)
  {
    OrZeroLeft(U64_MAX);
  }

  lemma WordShr(x: nat, n: nat)
    requires x <= U64_MAX && n >= 64
    ensures Shr(x, n) == 0
  {
    hide Shr;
    U64MaxIsPow2();
    Pow2Monotone(64, n);
    ShrSmall(x, n);
  }

  lemma {:induction false} OrZeroLeft(x: nat)
    ensures BitOr(0, x) == x
  {
    if x > 0 { OrZeroLeft(x / 2); }
  }

  // --------------------------------------------------- building from ranges

  predicate RangeLe(a: Range, b: Range) {
    a.0 < b.0 || (a.0 == b.0 && a.1 <= b.1)
  }

  /** Drop the ranges that run backwards and clamp the others to the domain. */
  function Clamped(raw: seq<Range>, max: nat): seq<Range> {
    if raw == [] then []
    else if raw[0].0 <= raw[0].1 then [(Min(raw[0].0, max), Min(raw[0].1, max))] + Clamped(raw[1..], max)
    else Clamped(raw[1..], max)
  }

  /** Append one range to a list, growing the last one when they touch. */
  function Absorb(acc: seq<Range>, r: Range): seq<Range> {
    if acc != [] && r.0 <= Min(acc[|acc| - 1].1 + 1, U64_MAX) then
      acc[..|acc| - 1] + [(acc[|acc| - 1].0, Max(acc[|acc| - 1].1, r.1))]
    else
      acc + [r]
  }

  function Coalesce(acc: seq<Range>, rest: seq<Range>): seq<Range>
    decreases |rest|
  {
    if rest == [] then acc else Coalesce(Absorb(acc, rest[0]), rest[1..])
  }

  function Normalise(bits: nat, raw: seq<Range>): (s: IntervalSet)
    ensures s.bits == bits
    ensures forall v: nat :: Contains(s, v) <==> InRanges(Clamped(raw, DomainMax(bits)), v)
  {
    NormaliseSound(bits, raw);
    RawSet(bits, Coalesce([], Sort(Clamped(raw, DomainMax(bits)), RangeLe)))
  }

  lemma RangeLePreorder()
    ensures TotalPreorder(RangeLe)
  {
  }

  lemma {:induction false} ClampedInDomain(raw: seq<Range>, max: nat)
    ensures forall r | r in Clamped(raw, max) :: r.0 <= r.1 <= max
  {
    if raw != [] { ClampedInDomain(raw[1..], max); }
  }

  /** Ranges already inside the domain are kept as they are. */
  lemma {:induction false} ClampedIdentity(raw: seq<Range>, max: nat)
    requires forall r | r in raw :: r.0 <= r.1 <= max
    ensures Clamped(raw, max) == raw
  {
    if raw != [] {
      assert raw[0] in raw;
      assert forall r | r in raw[1..] :: r in raw;
      ClampedIdentity(raw[1..], max);
      assert raw == [(Min(raw[0].0, max), Min(raw[0].1, max))] + raw[1..];
    }
  }

  lemma CanonicalCons(r: Range, rest: seq<Range>, max: nat)
    requires Canonical(rest, max) && r.0 <= r.1 <= max
    requires rest != [] ==> r.1 + 1 < rest[0].0
    ensures Canonical([r] + rest, max)
  {
    var out := [r] + rest;
    forall i, j | 0 <= i < j < |out|
      ensures out[i].1 + 1 < out[j].0
    {
      if i > 0 {
        assert rest[i - 1].1 + 1 < rest[j - 1].0;
      } else if j > 1 {
        assert rest[0].1 + 1 < rest[j - 1].0;
      }
    }
  }

  lemma CanonicalSnoc(front: seq<Range>, r: Range, max: nat)
    requires Canonical(front, max) && r.0 <= r.1 <= max
    requires front != [] ==> front[|front| - 1].1 + 1 < r.0
    ensures Canonical(front + [r], max)
  {
    var out := front + [r];
    forall i, j | 0 <= i < j < |out|
      ensures out[i].1 + 1 < out[j].0
    {
      if j < |front| {
        assert front[i].1 + 1 < front[j].0;
      } else if i < |front| - 1 {
        assert front[i].1 + 1 < front[|front| - 1].0;
      }
    }
  }

  lemma AbsorbSound(acc: seq<Range>, r: Range, max: nat)
    requires Canonical(acc, max) && r.0 <= r.1 <= max <= U64_MAX
    requires acc != [] ==> acc[|acc| - 1].0 <= r.0
    ensures var out := Absorb(acc, r);
      && Canonical(out, max) && out != []
      && out[|out| - 1].0 <= r.0
      && forall v: nat :: InRanges(out, v) <==> InRanges(acc, v) || r.0 <= v <= r.1
  {
    AbsorbCanonical(acc, r, max);
    hide Absorb, InRanges;
    assert acc != [] ==> acc[|acc| - 1].0 <= acc[|acc| - 1].1;
    hide Canonical;
    forall v: nat
      ensures InRanges(Absorb(acc, r), v) <==> InRanges(acc, v) || r.0 <= v <= r.1
    {
      AbsorbMember(acc, r, v);
    }
  }

  lemma AbsorbCanonical(acc: seq<Range>, r: Range, max: nat)
    requires Canonical(acc, max) && r.0 <= r.1 <= max <= U64_MAX
    requires acc != [] ==> acc[|acc| - 1].0 <= r.0
    ensures Canonical(Absorb(acc, r), max) && Absorb(acc, r) != []
    ensures Absorb(acc, r)[|Absorb(acc, r)| - 1].0 <= r.0
  {
    var n := |acc|;
    if acc != [] && r.0 <= Min(acc[n - 1].1 + 1, U64_MAX) {
      CanonicalSnoc(acc[..n - 1], (acc[n - 1].0, Max(acc[n - 1].1, r.1)), max);
    } else {
      CanonicalSnoc(acc, r, max);
    }
  }

  lemma AbsorbMember(acc: seq<Range>, r: Range, v: nat)
    requires acc != [] ==> acc[|acc| - 1].0 <= r.0 && acc[|acc| - 1].0 <= acc[|acc| - 1].1
    ensures InRanges(Absorb(acc, r), v) <==> InRanges(acc, v) || r.0 <= v <= r.1
  {
    var n := |acc|;
    if acc != [] && r.0 <= Min(acc[n - 1].1 + 1, U64_MAX) {
      InRangesSnoc(acc[..n - 1], acc[n - 1], v);
      InRangesSnoc(acc[..n - 1], (acc[n - 1].0, Max(acc[n - 1].1, r.1)), v);
      assert acc == acc[..n - 1] + [acc[n - 1]];
    } else {
      InRangesSnoc(acc, r, v);
    }
  }

  lemma InRangesPrepend(r: Range, rest: seq<Range>, v: nat)
    ensures InRanges([r] + rest, v) <==> r.0 <= v <= r.1 || InRanges(rest, v)
  {
    SingleRange(r);
    InRangesConcat([r], rest, v);
  }

  lemma InRangesSnoc(front: seq<Range>, r: Range, v: nat)
    ensures InRanges(front + [r], v) <==> InRanges(front, v) || r.0 <= v <= r.1
  {
    SingleRange(r);
    InRangesConcat(front, [r], v);
  }

  lemma {:induction false} CoalesceSound(acc: seq<Range>, rest: seq<Range>, max: nat)
    requires Canonical(acc, max) && max <= U64_MAX
    requires forall r | r in rest :: r.0 <= r.1 <= max
    requires Sorted(rest, RangeLe)
    requires acc != [] && rest != [] ==> acc[|acc| - 1].0 <= rest[0].0
    ensures Canonical(Coalesce(acc, rest), max)
    ensures forall v: nat :: InRanges(Coalesce(acc, rest), v) <==> InRanges(acc, v) || InRanges(rest, v)
    decreases |rest|
  {
    if rest != [] {
      var out := Absorb(acc, rest[0]);
      AbsorbSound(acc, rest[0], max);
      CoalesceSound(out, rest[1..], max);
      forall v: nat
        ensures InRanges(Coalesce(acc, rest), v) <==> InRanges(acc, v) || InRanges(rest, v)
      {
        InRangesCons(rest, v);
      }
    }
  }

  lemma InRangesCons(rs: seq<Range>, v: nat)
    requires rs != []
    ensures InRanges(rs, v) <==> rs[0].0 <= v <= rs[0].1 || InRanges(rs[1..], v)
  {
    if InRanges(rs, v) {
      var i :| 0 <= i < |rs| && rs[i].0 <= v <= rs[i].1;
      if i > 0 { assert rs[1..][i - 1].0 <= v <= rs[1..][i - 1].1; }
    }
    if InRanges(rs[1..], v) {
      var i :| 0 <= i < |rs| - 1 && rs[1..][i].0 <= v <= rs[1..][i].1;
      assert rs[i + 1].0 <= v <= rs[i + 1].1;
    }
  }

  /** Membership only depends on which ranges occur. */
  lemma InRangesSame(a: seq<Range>, b: seq<Range>, v: nat)
    requires forall r :: r in a <==> r in b
    ensures InRanges(a, v) <==> InRanges(b, v)
  {
    if InRanges(a, v) {
      var i :| 0 <= i < |a| && a[i].0 <= v <= a[i].1;
      assert a[i] in b;
    }
    if InRanges(b, v) {
      var i :| 0 <= i < |b| && b[i].0 <= v <= b[i].1;
      assert b[i] in a;
    }
  }

  lemma InRangesConcat(a: seq<Range>, b: seq<Range>, v: nat)
    ensures InRanges(a + b, v) <==> InRanges(a, v) || InRanges(b, v)
  {
    if InRanges(a, v) {
      var i :| 0 <= i < |a| && a[i].0 <= v <= a[i].1;
      assert (a + b)[i] == a[i];
    }
    if InRanges(b, v) {
      var i :| 0 <= i < |b| && b[i].0 <= v <= b[i].1;
      assert (a + b)[|a| + i] == b[i];
    }
    if InRanges(a + b, v) {
      var i :| 0 <= i < |a + b| && (a + b)[i].0 <= v <= (a + b)[i].1;
      if i < |a| { assert a[i] == (a + b)[i]; } else { assert b[i - |a|] == (a + b)[i]; }
    }
  }

  lemma DomainMaxBound(bits: nat)
    ensures DomainMax(bits) <= U64_MAX
  {
    U64MaxIsPow2();
    if bits < 64 { Pow2Monotone(bits, 64); }
  }

  lemma NormaliseSound(bits: nat, raw: seq<Range>)
    ensures
      var kept := Clamped(raw, DomainMax(bits));
      var rs := Coalesce([], Sort(kept, RangeLe));
      Canonical(rs, DomainMax(bits)) && forall v: nat :: InRanges(rs, v) <==> InRanges(kept, v)
  {
    var kept := Clamped(raw, DomainMax(bits));
    var sorted := Sort(kept, RangeLe);
    ClampedInDomain(raw, DomainMax(bits));
    RangeLePreorder();
    SortSorted(kept, RangeLe);
    SortKeeps(kept, RangeLe);
    DomainMaxBound(bits);
    CoalesceSound([], sorted, DomainMax(bits));
    forall v: nat
      ensures InRanges(Coalesce([], sorted), v) <==> InRanges(kept, v)
    {
      InRangesSame(sorted, kept, v);
    }
  }

  /** The gap between two ranges is at least one value wide. */
  predicate Apart(a: Range, b: Range) {
    a.1 + 1 < b.0 || b.1 + 1 < a.0
  }

  ghost predicate AllApart(rs: seq<Range>) {
    forall i, j | 0 <= i < j < |rs| :: Apart(rs[i], rs[j])
  }

  lemma ApartDistinct(rs: seq<Range>)
    requires AllApart(rs) && forall r | r in rs :: r.0 <= r.1
    ensures Distinct(rs)
  {
  }

  lemma {:induction false} CoalesceCanonical(acc: seq<Range>, rest: seq<Range>, max: nat)
    requires Canonical(acc + rest, max)
    ensures Coalesce(acc, rest) == acc + rest
    decreases |rest|
  {
    if rest != [] {
      var whole := acc + rest;
      if acc != [] { assert whole[|acc| - 1].1 + 1 < whole[|acc|].0; }
      assert (acc + [rest[0]]) + rest[1..] == whole;
      CoalesceCanonical(acc + [rest[0]], rest[1..], max);
    }
  }

  /** Ranges that are already apart are only put in order. */
  lemma NormaliseApart(bits: nat, raw: seq<Range>)
    requires forall r | r in raw :: r.0 <= r.1 <= DomainMax(bits)
    requires AllApart(raw)
    ensures |Normalise(bits, raw).ranges| == |raw|
    ensures forall r :: r in Normalise(bits, raw).ranges <==> r in raw
  {
    var max := DomainMax(bits);
    ClampedIdentity(raw, max);
    SortKeeps(raw, RangeLe);
    SortedApart(raw, max);
    assert [] + Sort(raw, RangeLe) == Sort(raw, RangeLe);
    CoalesceCanonical([], Sort(raw, RangeLe), max);
  }

  lemma SortedApart(raw: seq<Range>, max: nat)
    requires forall r | r in raw :: r.0 <= r.1 <= max
    requires AllApart(raw)
    ensures Canonical(Sort(raw, RangeLe), max)
  {
    var sorted := Sort(raw, RangeLe);
    RangeLePreorder();
    SortSorted(raw, RangeLe);
    SortKeeps(raw, RangeLe);
    ApartDistinct(raw);
    SortKeepsDistinct(raw, RangeLe);
    hide Sort, AllApart;
    forall i | 0 <= i < |sorted|
      ensures sorted[i].0 <= sorted[i].1 <= max
    {
      assert sorted[i] in sorted;
    }
    forall i, j | 0 <= i < j < |sorted|
      ensures sorted[i].1 + 1 < sorted[j].0
    {
      assert sorted[i] in sorted && sorted[j] in sorted;
      ApartOf(raw, sorted[i], sorted[j]);
      assert RangeLe(sorted[i], sorted[j]);
    }
  }

  lemma ApartOf(raw: seq<Range>, x: Range, y: Range)
    requires AllApart(raw)
    requires x in raw && y in raw && x != y
    ensures Apart(x, y)
  {
    var a :| 0 <= a < |raw| && raw[a] == x;
    var b :| 0 <= b < |raw| && raw[b] == y;
    assert a < b || b < a;
  }

  /** Build a set from arbitrary, possibly overlapping ranges. */
  method FromRanges(bits: nat, raw: seq<Range>) returns (s: IntervalSet)
    ensures s == Normalise(bits, raw)
  {
    var max := DomainMax(bits);
    var kept: seq<Range> := [];
    for k := 0 to |raw|
      invariant Clamped(raw, max) == kept + Clamped(raw[k..], max)
    {
      if raw[k].0 <= raw[k].1 {
        kept := kept + [(Min(raw[k].0, max), Min(raw[k].1, max))];
      }
    }
    assert kept == Clamped(raw, max);
    var out := MergeSorted(Sort(kept, RangeLe));
    NormaliseSound(bits, raw);
    s := RawSet(bits, out);
  }

  lemma CoalesceStep(acc: seq<Range>, rs: seq<Range>, k: nat)
    requires k < |rs|
    ensures Coalesce(acc, rs[k..]) == Coalesce(Absorb(acc, rs[k]), rs[k + 1..])
  {
    hide Absorb;
    assert rs[k..][1..] == rs[k + 1..];
  }

  lemma CoalesceEnds(acc: seq<Range>, rs: seq<Range>)
    ensures Coalesce(acc, rs[0..]) == Coalesce(acc, rs) && Coalesce(acc, rs[|rs|..]) == acc
  {
    assert rs[0..] == rs && rs[|rs|..] == [];
  }

  /** The merging loop of `from_ranges`. */
  method MergeSorted(sorted: seq<Range>) returns (out: seq<Range>)
    ensures out == Coalesce([], sorted)
  {
    hide Coalesce;
    out := [];
    CoalesceEnds([], sorted);
    for k := 0 to |sorted|
      invariant Coalesce([], sorted) == Coalesce(out, sorted[k..])
    {
      var (lo, hi) := sorted[k];
      ghost var before := out;
      if out != [] && lo <= Min(out[|out| - 1].1 + 1, U64_MAX) {
        if hi > out[|out| - 1].1 {
          out := out[|out| - 1 := (out[|out| - 1].0, hi)];
        }
      } else {
        out := out + [(lo, hi)];
      }
      assert out == Absorb(before, sorted[k]);
      CoalesceStep(before, sorted, k);
    }
    CoalesceEnds(out, sorted);
  }

  // ---------------------------------------------------- structural equality

  /** Two canonical lists with the same members are the same list. */
  lemma {:induction false} CanonicalUnique(a: seq<Range>, b: seq<Range>, max: nat)
    requires Canonical(a, max) && Canonical(b, max)
    requires forall v: nat :: InRanges(a, v) <==> InRanges(b, v)
    ensures a == b
    decreases |a|
  {
    hide Canonical, InRanges;
    if a == [] || b == [] {
      NoMembers(a, b, max);
    } else {
      FirstRange(a, b, max);
      FirstRange(b, a, max);
      forall v: nat
        ensures InRanges(a[1..], v) <==> InRanges(b[1..], v)
      {
        TailMembers(a, max, v);
        TailMembers(b, max, v);
      }
      CanonicalTail(a, max);
      CanonicalTail(b, max);
      CanonicalUnique(a[1..], b[1..], max);
      assert a == [a[0]] + a[1..] && b == [b[0]] + b[1..];
    }
  }

  lemma NoMembers(a: seq<Range>, b: seq<Range>, max: nat)
    requires (a == [] || b == []) && Canonical(a, max) && Canonical(b, max)
    requires forall v: nat :: InRanges(a, v) <==> InRanges(b, v)
    ensures a == b
  {
    if a != [] { assert InRanges(a, a[0].0); }
    if b != [] { assert InRanges(b, b[0].0); }
  }

  lemma CanonicalTail(a: seq<Range>, max: nat)
    requires a != [] && Canonical(a, max)
    ensures Canonical(a[1..], max)
  {
  }

  /** The members past the first range are those above it. */
  lemma TailMembers(a: seq<Range>, max: nat, v: nat)
    requires a != [] && Canonical(a, max)
    ensures InRanges(a[1..], v) <==> InRanges(a, v) && v > a[0].1
  {
    InRangesCons(a, v);
    if InRanges(a[1..], v) { TailAbove(a, max, v); }
  }

  lemma TailAbove(a: seq<Range>, max: nat, v: nat)
    requires a != [] && Canonical(a, max) && InRanges(a[1..], v)
    ensures a[0].1 + 1 < v
  {
    var i :| 0 <= i < |a| - 1 && a[1..][i].0 <= v <= a[1..][i].1;
    assert a[0].1 + 1 < a[i + 1].0;
  }

  lemma FirstRange(a: seq<Range>, b: seq<Range>, max: nat)
    requires a != [] && b != [] && Canonical(a, max) && Canonical(b, max)
    requires forall v: nat :: InRanges(a, v) <==> InRanges(b, v)
    ensures a[0].0 >= b[0].0
    ensures a[0].0 == b[0].0 ==> a[0].1 >= b[0].1
  {
    assert InRanges(a, a[0].0);
    InRangesCons(b, a[0].0);
    if InRanges(b[1..], a[0].0) { TailAbove(b, max, a[0].0); }
    if a[0].0 == b[0].0 && a[0].1 < b[0].1 {
      var v := a[0].1 + 1;
      assert b[0].0 <= v <= b[0].1;
      assert InRanges(b, v);
      InRangesCons(a, v);
      if InRanges(a[1..], v) { TailAbove(a, max, v); }
    }
  }

  /** Structural equality is set equality. */
  lemma SetEquality(a: IntervalSet, b: IntervalSet)
    requires a.bits == b.bits
    ensures a == b <==> forall v: nat :: Contains(a, v) <==> Contains(b, v)
  {
    if forall v: nat :: Contains(a, v) <==> Contains(b, v) {
      forall v: nat
        ensures InRanges(a.ranges, v) <==> InRanges(b.ranges, v)
      {
        assert Contains(a, v) <==> Contains(b, v);
      }
      CanonicalUnique(a.ranges, b.ranges, DomainMax(a.bits));
    }
  }

  /** `IsFull` and `IsEmpty` look at the representation and answer about the members. */
  lemma FullAndEmpty(s: IntervalSet)
    ensures IsFull(s) <==> forall v: nat :: v <= DomainMax(s.bits) ==> Contains(s, v)
    ensures IsEmpty(s) <==> forall v: nat :: !Contains(s, v)
    ensures forall v: nat :: Contains(s, v) ==> v <= DomainMax(s.bits)
  {
    if forall v: nat :: v <= DomainMax(s.bits) ==> Contains(s, v) {
      SetEquality(s, Full(s.bits));
    }
    if IsFull(s) { assert s == Full(s.bits); }
    if !IsEmpty(s) { assert Contains(s, s.ranges[0].0); }
  }

  // ------------------------------------------------------------- operations

  function Union(a: IntervalSet, b: IntervalSet): (s: IntervalSet)
    requires a.bits == b.bits
    ensures s.bits == a.bits
    ensures forall v: nat :: Contains(s, v) <==> Contains(a, v) || Contains(b, v)
  {
    UnionSound(a, b);
    Normalise(a.bits, a.ranges + b.ranges)
  }

  lemma UnionSound(a: IntervalSet, b: IntervalSet)
    requires a.bits == b.bits
    ensures forall v: nat ::
      Contains(Normalise(a.bits, a.ranges + b.ranges), v) <==> Contains(a, v) || Contains(b, v)
  {
    ClampedIdentity(a.ranges + b.ranges, DomainMax(a.bits));
    forall v: nat
      ensures Contains(Normalise(a.bits, a.ranges + b.ranges), v) <==> Contains(a, v) || Contains(b, v)
    {
      InRangesConcat(a.ranges, b.ranges, v);
    }
  }

  /** The sweep over two canonical lists, from positions `i` and `j` on. */
  function MeetFrom(a: seq<Range>, b: seq<Range>, i: nat, j: nat): seq<Range>
    requires i <= |a| && j <= |b|
    decreases |a| - i + |b| - j
  {
    if i == |a| || j == |b| then []
    else
      var lo := Max(a[i].0, b[j].0);
      var hi := Min(a[i].1, b[j].1);
      var rest := if a[i].1 < b[j].1 then MeetFrom(a, b, i + 1, j) else MeetFrom(a, b, i, j + 1);
      if lo <= hi then [(lo, hi)] + rest else rest
  }

  lemma {:induction false} MeetFromSound(a: seq<Range>, b: seq<Range>, i: nat, j: nat, max: nat)
    requires i <= |a| && j <= |b| && Canonical(a, max) && Canonical(b, max)
    ensures Canonical(MeetFrom(a, b, i, j), max)
    ensures forall r | r in MeetFrom(a, b, i, j) :: i < |a| && j < |b| && a[i].0 <= r.0 && b[j].0 <= r.0
    decreases |a| - i + |b| - j
  {
    hide MeetFrom, Canonical;
    if i == |a| || j == |b| {
      MeetEnds(a, b, i, j);
      NoGap(max);
    } else {
      MeetStep(a, b, i, j);
      NextRange(a, i, max);
      NextRange(b, j, max);
      var lo := Max(a[i].0, b[j].0);
      var hi := Min(a[i].1, b[j].1);
      var tail;
      if a[i].1 < b[j].1 {
        MeetFromSound(a, b, i + 1, j, max);
        tail := MeetFrom(a, b, i + 1, j);
      } else {
        MeetFromSound(a, b, i, j + 1, max);
        tail := MeetFrom(a, b, i, j + 1);
      }
      if lo <= hi {
        if tail != [] { assert tail[0] in tail; }
        CanonicalCons((lo, hi), tail, max);
      }
    }
  }

  lemma {:induction false} MeetFromMember(a: seq<Range>, b: seq<Range>, i: nat, j: nat, max: nat, v: nat)
    requires i <= |a| && j <= |b| && Canonical(a, max) && Canonical(b, max)
    ensures InRanges(MeetFrom(a, b, i, j), v) <==> InRanges(a[i..], v) && InRanges(b[j..], v)
    decreases |a| - i + |b| - j
  {
    if i < |a| && j < |b| {
      SuffixStep(a, i, max, v);
      SuffixStep(b, j, max, v);
      var lo, hi := Max(a[i].0, b[j].0), Min(a[i].1, b[j].1);
      var tail := if a[i].1 < b[j].1 then MeetFrom(a, b, i + 1, j) else MeetFrom(a, b, i, j + 1);
      if lo <= hi { InRangesPrepend((lo, hi), tail, v); }
      if a[i].1 < b[j].1 {
        MeetFromMember(a, b, i + 1, j, max, v);
      } else {
        MeetFromMember(a, b, i, j + 1, max, v);
      }
    }
  }

  lemma SuffixStep(a: seq<Range>, i: nat, max: nat, v: nat)
    requires i < |a| && Canonical(a, max)
    ensures InRanges(a[i..], v) <==> a[i].0 <= v <= a[i].1 || InRanges(a[i + 1..], v)
    ensures InRanges(a[i + 1..], v) ==> a[i].1 + 1 < v
  {
    InRangesCons(a[i..], v);
    assert a[i..][1..] == a[i + 1..];
    if InRanges(a[i + 1..], v) {
      assert Canonical(a[i..], max);
      TailAbove(a[i..], max, v);
    }
  }

  lemma MeetSound(a: seq<Range>, b: seq<Range>, max: nat)
    requires Canonical(a, max) && Canonical(b, max)
    ensures Canonical(MeetFrom(a, b, 0, 0), max)
    ensures forall v: nat :: InRanges(MeetFrom(a, b, 0, 0), v) <==> InRanges(a, v) && InRanges(b, v)
  {
    MeetFromSound(a, b, 0, 0, max);
    assert a[0..] == a && b[0..] == b;
    forall v: nat
      ensures InRanges(MeetFrom(a, b, 0, 0), v) <==> InRanges(a, v) && InRanges(b, v)
    {
      MeetFromMember(a, b, 0, 0, max, v);
    }
  }

  /** Intersection. The sweep emits in order, so its output needs no re-merge. */
  function Meet(a: IntervalSet, b: IntervalSet): (s: IntervalSet)
    requires a.bits == b.bits
    ensures s.bits == a.bits
    ensures forall v: nat :: Contains(s, v) <==> Contains(a, v) && Contains(b, v)
  {
    MeetSound(a.ranges, b.ranges, DomainMax(a.bits));
    RawSet(a.bits, MeetFrom(a.ranges, b.ranges, 0, 0))
  }

  lemma AppendAssociates(a: seq<Range>, b: seq<Range>, c: seq<Range>)
    ensures a + (b + c) == (a + b) + c && a + [] == a
  {
  }

  method Intersect(a: IntervalSet, b: IntervalSet) returns (s: IntervalSet)
    requires a.bits == b.bits
    ensures s == Meet(a, b)
  {
    hide MeetFrom, Canonical;
    var i, j := 0, 0;
    var out: seq<Range> := [];
    var xs, ys := a.ranges, b.ranges;
    while i < |xs| && j < |ys|
      invariant i <= |xs| && j <= |ys|
      invariant MeetFrom(xs, ys, 0, 0) == out + MeetFrom(xs, ys, i, j)
      decreases |xs| - i + |ys| - j
    {
      var x, y := xs[i], ys[j];
      var lo := Max(x.0, y.0);
      var hi := Min(x.1, y.1);
      MeetStep(xs, ys, i, j);
      if lo <= hi {
        AppendAssociates(out, [(lo, hi)], if x.1 < y.1 then MeetFrom(xs, ys, i + 1, j) else MeetFrom(xs, ys, i, j + 1));
        out := out + [(lo, hi)];
      }
      if x.1 < y.1 { i := i + 1; } else { j := j + 1; }
    }
    MeetEnds(xs, ys, i, j);
    AppendAssociates(out, [], []);
    assert Meet(a, b) == RawSet(a.bits, out);
    s := RawSet(a.bits, out);
  }

  /** One step of the sweep: emit the overlap, then drop the range that ends first. */
  lemma MeetStep(xs: seq<Range>, ys: seq<Range>, i: nat, j: nat)
    requires i < |xs| && j < |ys|
    ensures var lo, hi := Max(xs[i].0, ys[j].0), Min(xs[i].1, ys[j].1);
      var rest := if xs[i].1 < ys[j].1 then MeetFrom(xs, ys, i + 1, j) else MeetFrom(xs, ys, i, j + 1);
      MeetFrom(xs, ys, i, j) == if lo <= hi then [(lo, hi)] + rest else rest
  {
  }

  lemma MeetEnds(xs: seq<Range>, ys: seq<Range>, i: nat, j: nat)
    requires i <= |xs| && j <= |ys| && (i == |xs| || j == |ys|)
    ensures MeetFrom(xs, ys, i, j) == []
  {
  }

  /** The gaps from range `k` on, when everything below `cursor` is settled. */
  function GapsFrom(rs: seq<Range>, k: nat, cursor: nat, max: nat): seq<Range>
    requires k <= |rs|
    requires forall i | k <= i < |rs| :: rs[i].0 > cursor ==> rs[i].0 >= 1
    decreases |rs| - k
  {
    if k == |rs| then [(cursor, max)]
    else
      var rest := if rs[k].1 == max then [] else GapsFrom(rs, k + 1, rs[k].1 + 1, max);
      if rs[k].0 > cursor then [(cursor, rs[k].0 - 1)] + rest else rest
  }

  lemma {:induction false} GapsFromSound(rs: seq<Range>, k: nat, cursor: nat, max: nat)
    requires k <= |rs| && Canonical(rs, max) && cursor <= max
    requires k < |rs| ==> cursor <= rs[k].0 && (k > 0 ==> cursor < rs[k].0)
    ensures Canonical(GapsFrom(rs, k, cursor, max), max)
    ensures forall r | r in GapsFrom(rs, k, cursor, max) :: cursor <= r.0
    decreases |rs| - k
  {
    hide Canonical, GapsFrom;
    GapsFromStep(rs, k, cursor, max);
    if k < |rs| {
      NextRange(rs, k, max);
      var tail := [];
      if rs[k].1 != max {
        GapsFromSound(rs, k + 1, rs[k].1 + 1, max);
        tail := GapsFrom(rs, k + 1, rs[k].1 + 1, max);
      } else {
        NoGap(max);
      }
      if rs[k].0 > cursor {
        if tail != [] { assert tail[0] in tail; }
        CanonicalCons((cursor, rs[k].0 - 1), tail, max);
      }
    } else {
      OneGap(cursor, max);
    }
  }

  lemma GapsFromStep(rs: seq<Range>, k: nat, cursor: nat, max: nat)
    requires k <= |rs| && Canonical(rs, max) && cursor <= max
    requires k < |rs| ==> cursor <= rs[k].0 && (k > 0 ==> cursor < rs[k].0)
    ensures GapsFrom(rs, k, cursor, max) ==
      if k == |rs| then [(cursor, max)]
      else
        var rest := if rs[k].1 == max then [] else GapsFrom(rs, k + 1, rs[k].1 + 1, max);
        if rs[k].0 > cursor then [(cursor, rs[k].0 - 1)] + rest else rest
  {
  }

  lemma NoGap(max: nat)
    ensures Canonical([], max)
  {
  }

  lemma OneGap(cursor: nat, max: nat)
    requires cursor <= max
    ensures Canonical([(cursor, max)], max)
  {
  }

  lemma NextRange(rs: seq<Range>, k: nat, max: nat)
    requires k < |rs| && Canonical(rs, max)
    ensures rs[k].0 <= rs[k].1 <= max
    ensures k + 1 < |rs| ==> rs[k].1 + 1 < rs[k + 1].0 <= max
  {
  }

  lemma NothingInRanges(v: nat)
    ensures !InRanges([], v)
  {
  }

  lemma {:induction false} GapsFromMember(rs: seq<Range>, k: nat, cursor: nat, max: nat, v: nat)
    requires k <= |rs| && Canonical(rs, max) && cursor <= max
    requires k < |rs| ==> cursor <= rs[k].0 && (k > 0 ==> cursor < rs[k].0)
    ensures InRanges(GapsFrom(rs, k, cursor, max), v) <==> cursor <= v <= max && !InRanges(rs[k..], v)
    decreases |rs| - k
  {
    hide GapsFrom, Canonical, InRanges;
    if k == |rs| {
      LastGap(rs, cursor, max, v);
    } else {
      NextRange(rs, k, max);
      var (lo, hi) := rs[k];
      var tail := if hi == max then [] else GapsFrom(rs, k + 1, hi + 1, max);
      if hi != max { GapsFromMember(rs, k + 1, hi + 1, max, v); } else { NothingInRanges(v); }
      SuffixStep(rs, k, max, v);
      FrontGap(rs, k, cursor, max, tail, v);
    }
  }

  lemma LastGap(rs: seq<Range>, cursor: nat, max: nat, v: nat)
    ensures InRanges(GapsFrom(rs, |rs|, cursor, max), v) <==> cursor <= v <= max
    ensures !InRanges(rs[|rs|..], v)
  {
    SingleRange((cursor, max));
  }

  /** The gap in front of a range, and the gaps behind it. */
  lemma FrontGap(rs: seq<Range>, k: nat, cursor: nat, max: nat, tail: seq<Range>, v: nat)
    requires k < |rs| && cursor <= rs[k].0
    requires tail == if rs[k].1 == max then [] else GapsFrom(rs, k + 1, rs[k].1 + 1, max)
    ensures InRanges(GapsFrom(rs, k, cursor, max), v) <==> cursor <= v < rs[k].0 || InRanges(tail, v)
  {
    hide GapsFrom, InRanges;
    GapStep(rs, k, cursor, max);
    if rs[k].0 > cursor { InRangesPrepend((cursor, rs[k].0 - 1), tail, v); }
  }

  lemma GapsSound(rs: seq<Range>, max: nat)
    requires Canonical(rs, max)
    ensures Canonical(GapsFrom(rs, 0, 0, max), max)
    ensures forall v: nat :: InRanges(GapsFrom(rs, 0, 0, max), v) <==> v <= max && !InRanges(rs, v)
  {
    GapsFromSound(rs, 0, 0, max);
    assert rs[0..] == rs;
    forall v: nat
      ensures InRanges(GapsFrom(rs, 0, 0, max), v) <==> v <= max && !InRanges(rs, v)
    {
      GapsFromMember(rs, 0, 0, max, v);
    }
  }

  /** The values of the domain that are not in the set. */
  function Complement(a: IntervalSet): (s: IntervalSet)
    ensures s.bits == a.bits
    ensures forall v: nat :: Contains(s, v) <==> v <= DomainMax(a.bits) && !Contains(a, v)
  {
    GapsSound(a.ranges, DomainMax(a.bits));
    RawSet(a.bits, GapsFrom(a.ranges, 0, 0, DomainMax(a.bits)))
  }

  method ComplementOf(a: IntervalSet) returns (s: IntervalSet)
    ensures s == Complement(a)
  {
    var out := SweepGaps(a.ranges, DomainMax(a.bits));
    assert Complement(a) == RawSet(a.bits, out) by { hide GapsFrom, Canonical, DomainMax; }
    s := RawSet(a.bits, out);
  }

  /** The loop of the complement, with its early return at the end of the domain. */
  method SweepGaps(rs: seq<Range>, max: nat) returns (out: seq<Range>)
    ensures out == GapsFrom(rs, 0, 0, max)
  {
    hide GapsFrom;
    out := [];
    var cursor: nat := 0;
    ghost var whole := GapsFrom(rs, 0, 0, max);
    for k := 0 to |rs|
      invariant whole == out + GapsFrom(rs, k, cursor, max)
    {
      var (lo, hi) := rs[k];
      SweepStep(whole, out, rs, k, cursor, max);
      if lo > cursor {
        out := out + [(cursor, lo - 1)];
      }
      if hi == max {
        return;
      }
      cursor := hi + 1;
    }
    GapEnd(rs, cursor, max);
    out := out + [(cursor, max)];
  }

  lemma SweepStep(whole: seq<Range>, out: seq<Range>, rs: seq<Range>, k: nat, cursor: nat, max: nat)
    requires k < |rs| && whole == out + GapsFrom(rs, k, cursor, max)
    ensures var next := if rs[k].0 > cursor then out + [(cursor, rs[k].0 - 1)] else out;
      if rs[k].1 == max then whole == next else whole == next + GapsFrom(rs, k + 1, rs[k].1 + 1, max)
  {
    hide GapsFrom;
    GapStep(rs, k, cursor, max);
    var rest := if rs[k].1 == max then [] else GapsFrom(rs, k + 1, rs[k].1 + 1, max);
    if rs[k].0 > cursor { AppendAssociates(out, [(cursor, rs[k].0 - 1)], rest); }
  }

  /** One step of the sweep: emit the gap before the range, stop at the end of the domain. */
  lemma GapStep(rs: seq<Range>, k: nat, cursor: nat, max: nat)
    requires k < |rs|
    ensures var rest := if rs[k].1 == max then [] else GapsFrom(rs, k + 1, rs[k].1 + 1, max);
      GapsFrom(rs, k, cursor, max) == if rs[k].0 > cursor then [(cursor, rs[k].0 - 1)] + rest else rest
  {
  }

  lemma GapEnd(rs: seq<Range>, cursor: nat, max: nat)
    ensures GapsFrom(rs, |rs|, cursor, max) == [(cursor, max)]
  {
  }

  function Difference(a: IntervalSet, b: IntervalSet): (s: IntervalSet)
    requires a.bits == b.bits
    ensures s.bits == a.bits
    ensures forall v: nat :: Contains(s, v) <==> Contains(a, v) && !Contains(b, v)
  {
    FullAndEmpty(a);
    Meet(a, Complement(b))
  }

  /** Complementing twice gives the same structure back. */
  lemma ComplementRoundTrip(a: IntervalSet)
    ensures Complement(Complement(a)) == a
    ensures IsFull(Union(a, Complement(a)))
    ensures IsEmpty(Meet(a, Complement(a)))
  {
    FullAndEmpty(a);
    SetEquality(Complement(Complement(a)), a);
    FullAndEmpty(Union(a, Complement(a)));
    FullAndEmpty(Meet(a, Complement(a)));
  }

  /** Smallest range covering the whole set. */
  lemma HullIsSmallest(a: IntervalSet)
    requires !IsEmpty(a)
    ensures var lo, hi := a.ranges[0].0, a.ranges[|a.ranges| - 1].1;
      && Contains(a, lo) && Contains(a, hi)
      && forall v: nat :: Contains(a, v) ==> lo <= v <= hi
  {
    var n := |a.ranges|;
    assert a.ranges[0].0 <= a.ranges[0].0 <= a.ranges[0].1;
    assert a.ranges[n - 1].0 <= a.ranges[n - 1].1 <= a.ranges[n - 1].1;
    forall v: nat | Contains(a, v)
      ensures a.ranges[0].0 <= v <= a.ranges[n - 1].1
    {
      var i :| 0 <= i < n && a.ranges[i].0 <= v <= a.ranges[i].1;
    }
  }
}
