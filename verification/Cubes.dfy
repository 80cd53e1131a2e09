/** One path of a diagram as one rectangle of packet space. */
module Cubes {
  import opened Wrappers
  import opened Arith
  import opened Intervals
  import opened Rules
  import opened Diagram
  import opened Header
  import opened Masks
  import opened Cardinality

  const FIELD_WIDTHS: seq<nat> := [32, 32, 16, 16, 8, 8, 8]

  /** The field values of a packet, in field order. */
  function CoordsAt(l: Layout, p: Point): seq<nat>
    requires l.Valid()
  {
    seq(7, k requires 0 <= k < 7 => FieldValue(l, p, ALL_FIELDS[k]))
  }

  /** Two points with the same field values are the same point. */
  lemma CoordsInjective(l: Layout, p: Point, q: Point)
    requires l.Valid() && CoordsAt(l, p) == CoordsAt(l, q)
    ensures p == q
  {
    forall f: Field
      ensures PacketAt(l, p).Get(f) == PacketAt(l, q).Get(f)
    {
      AllFields(f);
      assert CoordsAt(l, p)[f.Index()] == CoordsAt(l, q)[f.Index()];
    }
    SamePacket(PacketAt(l, p), PacketAt(l, q));
    PointOfPacket(l, p);
    PointOfPacket(l, q);
  }

  // -------------------------------------------------------------- one field

  /** The bits a cube fixes in a field, and the values it fixes them to. */
  function FixedBits(l: Layout, cube: Cube, f: Field): seq<bool>
    requires l.Valid()
  {
    seq(f.Bits(), b requires 0 <= b < f.Bits() => l.Var(f, b) in cube)
  }

  function FixedValues(l: Layout, cube: Cube, f: Field): seq<bool>
    requires l.Valid()
  {
    seq(f.Bits(), b requires 0 <= b < f.Bits() => l.Var(f, b) in cube && cube[l.Var(f, b)])
  }

  function CubeMask(l: Layout, cube: Cube, f: Field): (m: nat)
    requires l.Valid()
    ensures m < Pow2(f.Bits())
  {
    NumberBound(FixedBits(l, cube, f));
    NumberOf(FixedBits(l, cube, f))
  }

  function CubeValue(l: Layout, cube: Cube, f: Field): (v: nat)
    requires l.Valid()
    ensures v < Pow2(f.Bits())
  {
    NumberBound(FixedValues(l, cube, f));
    NumberOf(FixedValues(l, cube, f))
  }

  /** The first `n` bits of `w`, counted from the most significant, are those of `bits`; the
  rest are clear. */
  ghost predicate HasFirstBits(x: nat, bits: seq<bool>, n: nat) {
    x < Pow2(|bits|) && forall b: nat | b < |bits| :: MsbBit(x, |bits|, b) == (b < n && bits[b])
  }

  lemma FirstBitsStart(bits: seq<bool>)
    ensures HasFirstBits(0, bits, 0)
  {
    forall b: nat | b < |bits|
      ensures !MsbBit(0, |bits|, b)
    {
      ShrZero(|bits| - 1 - b);
    }
  }

  lemma FirstBitsSet(x: nat, bits: seq<bool>, n: nat)
    requires HasFirstBits(x, bits, n) && n < |bits| && bits[n]
    ensures HasFirstBits(BitOr(x, Pow2(|bits| - 1 - n)), bits, n + 1)
  {
    var w := |bits|;
    var y := BitOr(x, Pow2(w - 1 - n));
    Pow2Strict(w - 1 - n, w);
    OrBound(x, Pow2(w - 1 - n), w);
    forall b: nat | b < w
      ensures MsbBit(y, w, b) == (b < n + 1 && bits[b])
    {
      assert MsbBit(x, w, b) == (b < n && bits[b]);
      BitOfOr(x, Pow2(w - 1 - n), w - 1 - b);
      BitOfPow2(w - 1 - n, w - 1 - b);
    }
  }

  lemma FirstBitsSkip(x: nat, bits: seq<bool>, n: nat)
    requires HasFirstBits(x, bits, n) && n < |bits| && !bits[n]
    ensures HasFirstBits(x, bits, n + 1)
  {
    forall b: nat | b < |bits|
      ensures MsbBit(x, |bits|, b) == (b < n + 1 && bits[b])
    {
      assert MsbBit(x, |bits|, b) == (b < n && bits[b]);
    }
  }

  lemma FirstBitsEnd(x: nat, bits: seq<bool>)
    requires HasFirstBits(x, bits, |bits|)
    ensures x == NumberOf(bits)
  {
    NumberOfBitsOf(bits, x, |bits|);
  }

  /** Collect what a cube says about one field as a value and a mask. */
  method ReadField(l: Layout, cube: Cube, f: Field) returns (value: nat, mask: nat)
    requires l.Valid()
    ensures value == CubeValue(l, cube, f) && mask == CubeMask(l, cube, f)
  {
    hide Layout.Valid, HasFirstBits, BitOr;
    var w := f.Bits();
    value, mask := 0, 0;
    ghost var fixed, values := FixedBits(l, cube, f), FixedValues(l, cube, f);
    FirstBitsStart(fixed);
    FirstBitsStart(values);
    for b := 0 to w
      invariant HasFirstBits(mask, fixed, b) && HasFirstBits(value, values, b)
    {
      var v := l.Var(f, b);
      if v in cube {
        var weight := Pow2(w - 1 - b);
        FirstBitsSet(mask, fixed, b);
        mask := BitOr(mask, weight);
        if cube[v] {
          FirstBitsSet(value, values, b);
          value := BitOr(value, weight);
        } else {
          FirstBitsSkip(value, values, b);
        }
      } else {
        FirstBitsSkip(mask, fixed, b);
        FirstBitsSkip(value, values, b);
      }
    }
    FirstBitsEnd(mask, fixed);
    FirstBitsEnd(value, values);
  }

  ghost predicate BitAgrees(l: Layout, cube: Cube, f: Field, p: Point, b: nat)
    requires l.Valid() && b < f.Bits()
  {
    l.Var(f, b) in cube ==> p[l.Var(f, b)] == cube[l.Var(f, b)]
  }

  ghost predicate FieldAgrees(l: Layout, cube: Cube, f: Field, p: Point)
    requires l.Valid()
  {
    forall b: nat | b < f.Bits() :: BitAgrees(l, cube, f, p, b)
  }

  /** Agreement with the pattern is agreement with the cube on the field's variables. */
  lemma PatternOfField(l: Layout, cube: Cube, f: Field, p: Point)
    requires l.Valid()
    ensures Agrees(f.Bits(), CubeValue(l, cube, f), CubeMask(l, cube, f), FieldValue(l, p, f))
      <==> FieldAgrees(l, cube, f, p)
  {
    hide Layout.Valid;
    var w, value, mask, v := f.Bits(), CubeValue(l, cube, f), CubeMask(l, cube, f), FieldValue(l, p, f);
    forall b: nat | b < w
      ensures BitAgrees(l, cube, f, p, b) <==> (Bit(mask, w - 1 - b) ==> Bit(v, w - 1 - b) == Bit(value, w - 1 - b))
    {
      PatternBit(l, cube, f, p, b);
    }
    if FieldAgrees(l, cube, f, p) {
      forall i: nat | i < w && Bit(mask, i)
        ensures Bit(v, i) == Bit(value, i)
      {
        assert BitAgrees(l, cube, f, p, w - 1 - i);
      }
    }
  }

  lemma PatternBit(l: Layout, cube: Cube, f: Field, p: Point, b: nat)
    requires l.Valid() && b < f.Bits()
    ensures var i := f.Bits() - 1 - b;
      BitAgrees(l, cube, f, p, b) <==>
        (Bit(CubeMask(l, cube, f), i) ==> Bit(FieldValue(l, p, f), i) == Bit(CubeValue(l, cube, f), i))
  {
    hide Layout.Valid;
    NumberBits(FixedBits(l, cube, f), b);
    NumberBits(FixedValues(l, cube, f), b);
    NumberBits(FieldBits(l, p, f), b);
  }

  // --------------------------------------------------------------- one cube

  function CubeDim(l: Layout, cube: Cube, f: Field): (s: IntervalSet)
    requires l.Valid()
    ensures s.bits == f.Bits()
  {
    PatternSet(f.Bits(), CubeValue(l, cube, f), CubeMask(l, cube, f))
  }

  /** The rectangle a cube denotes. */
  function CubeBox(l: Layout, cube: Cube): Box
    requires l.Valid()
  {
    seq(7, k requires 0 <= k < 7 => CubeDim(l, cube, ALL_FIELDS[k]))
  }

  /** The rectangle holds exactly the points that agree with the cube. */
  lemma CubeBoxExact(l: Layout, cube: Cube, p: Point)
    requires l.Valid() && forall v | v in cube :: v < VARIABLES
    ensures InBox(CubeBox(l, cube), CoordsAt(l, p)) <==> AgreesWith(cube, p)
  {
    forall k | 0 <= k < 7
      ensures Contains(CubeBox(l, cube)[k], CoordsAt(l, p)[k]) <==> FieldAgrees(l, cube, ALL_FIELDS[k], p)
    {
      DimExact(l, cube, ALL_FIELDS[k], p);
    }
    CubeByField(l, cube, p);
  }

  lemma DimExact(l: Layout, cube: Cube, f: Field, p: Point)
    requires l.Valid()
    ensures Contains(CubeDim(l, cube, f), FieldValue(l, p, f)) <==> FieldAgrees(l, cube, f, p)
  {
    hide *;
    PatternOfField(l, cube, f, p);
    PacketInDomain(l, p);
    FieldInDomain(l, p, f);
    DimPattern(l, cube, f, FieldValue(l, p, f));
  }

  lemma DimPattern(l: Layout, cube: Cube, f: Field, v: nat)
    requires l.Valid()
    ensures Contains(CubeDim(l, cube, f), v) <==>
      v <= DomainMax(f.Bits()) && Agrees(f.Bits(), CubeValue(l, cube, f), CubeMask(l, cube, f), v)
  {
    hide Layout.Valid, PatternSet, Agrees, CubeValue, CubeMask, DomainMax, Contains;
    PatternExact(f.Bits(), CubeValue(l, cube, f), CubeMask(l, cube, f), v);
  }

  lemma FieldInDomain(l: Layout, p: Point, f: Field)
    requires l.Valid()
    ensures FieldValue(l, p, f) <= DomainMax(f.Bits())
  {
    NumberBound(FieldBits(l, p, f));
  }

  lemma CubeByField(l: Layout, cube: Cube, p: Point)
    requires l.Valid() && forall v | v in cube :: v < VARIABLES
    ensures AgreesWith(cube, p) <==> forall k | 0 <= k < 7 :: FieldAgrees(l, cube, ALL_FIELDS[k], p)
  {
    if forall k | 0 <= k < 7 :: FieldAgrees(l, cube, ALL_FIELDS[k], p) {
      forall v | v in cube
        ensures p[v] == cube[v]
      {
        var (f, b) := l.sequence[v];
        AllFields(f);
        assert BitAgrees(l, cube, f, p, b);
      }
    }
  }

  // -------------------------------------------------------------- rendering

  /** No field of the cube needs more ranges than the cap. */
  predicate Renderable(l: Layout, cube: Cube, cap: nat)
    requires l.Valid()
  {
    forall k | 0 <= k < 7 :: FieldRenderable(l, cube, ALL_FIELDS[k], cap)
  }

  predicate FieldRenderable(l: Layout, cube: Cube, f: Field, cap: nat)
    requires l.Valid()
  {
    var mask := CubeMask(l, cube, f);
    mask == 0 || FreeRuns(f.Bits(), mask) <= cap
  }

  lemma {:induction false} ProductSplit(a: Box, b: Box)
    ensures Product(a + b) == Product(a) * Product(b)
  {
    if a == [] {
      assert a + b == b;
    } else {
      assert (a + b)[1..] == a[1..] + b;
      ProductSplit(a[1..], b);
      Associate(Count(a[0]), Product(a[1..]), Product(b));
    }
  }

  lemma Associate(x: nat, y: nat, z: nat)
    ensures x * (y * z) == (x * y) * z
  {
  }

  lemma ProductSnoc(a: Box, s: IntervalSet)
    ensures Product(a + [s]) == Product(a) * Count(s)
  {
    ProductSplit(a, [s]);
    assert Product([s]) == Count(s) * Product([]);
  }

  lemma {:induction false} ProductPositive(b: Box)
    requires forall i | 0 <= i < |b| :: Count(b[i]) > 0
    ensures Product(b) >= 1
  {
    if b != [] {
      ProductPositive(b[1..]);
      Grow(Product(b[1..]), Count(b[0]));
    }
  }

  lemma Grow(x: nat, y: nat)
    requires y >= 1
    ensures y * x >= x && x * y >= x
  {
  }

  lemma DimCount(l: Layout, cube: Cube, f: Field)
    requires l.Valid()
    ensures CountOnes(CubeMask(l, cube, f)) <= f.Bits()
    ensures Count(CubeDim(l, cube, f)) == MaskCount(f.Bits(), CubeMask(l, cube, f)) >= 1
  {
    hide Layout.Valid, CubeValue, CubeMask, PatternSet, CountOnes, Count;
    MaskCountExact(f.Bits(), CubeValue(l, cube, f), CubeMask(l, cube, f));
  }

  // ----------------------------------------------- what a refused cube counts

  /** The number of fields whose counts are multiplied, from field `k` on: the loop stops after
  the first field that needs more ranges than the cap. */
  function FieldsCounted(l: Layout, cube: Cube, cap: nat, k: nat): (n: nat)
    requires l.Valid() && k <= 7
    ensures k <= n <= 7
    decreases 7 - k
  {
    if k == 7 then 7
    else if FieldRenderable(l, cube, ALL_FIELDS[k], cap) then FieldsCounted(l, cube, cap, k + 1)
    else k + 1
  }

  /** The fields in front of the last one counted are within the cap; so is that one, or the
  loop stops there. */
  lemma {:induction false} FieldsCountedAre(l: Layout, cube: Cube, cap: nat, k: nat)
    requires l.Valid() && k <= 7
    ensures var n := FieldsCounted(l, cube, cap, k);
      && (forall i | k <= i < n - 1 :: FieldRenderable(l, cube, ALL_FIELDS[i], cap))
      && (n < 7 ==> k < n && !FieldRenderable(l, cube, ALL_FIELDS[n - 1], cap))
      && ((forall i | k <= i < 7 :: FieldRenderable(l, cube, ALL_FIELDS[i], cap)) ==> n == 7)
    decreases 7 - k
  {
    hide Layout.Valid, FieldRenderable;
    if k < 7 && FieldRenderable(l, cube, ALL_FIELDS[k], cap) { FieldsCountedAre(l, cube, cap, k + 1); }
  }

  /** The packets counted for one cube. */
  function Counted(l: Layout, cube: Cube, cap: nat): nat
    requires l.Valid()
  {
    Product(CubeBox(l, cube)[..FieldsCounted(l, cube, cap, 0)])
  }

  /** The cube fixes every bit of the field. */
  predicate FieldFixed(l: Layout, cube: Cube, f: Field)
    requires l.Valid()
  {
    forall b: nat | b < f.Bits() :: l.Var(f, b) in cube
  }

  /** Every field after the one the count stops at is fixed. */
  predicate FixedAfter(l: Layout, cube: Cube, cap: nat)
    requires l.Valid()
  {
    forall k | FieldsCounted(l, cube, cap, 0) <= k < 7 :: FieldFixed(l, cube, ALL_FIELDS[k])
  }

  lemma {:induction false} NumberSnoc(bits: seq<bool>)
    requires bits != []
    ensures NumberOf(bits) == 2 * NumberOf(bits[..|bits| - 1]) + if bits[|bits| - 1] then 1 else 0
  {
    var init := bits[..|bits| - 1];
    if |bits| > 1 {
      NumberSnoc(bits[1..]);
      assert bits[1..][..|bits| - 2] == init[1..];
      assert Pow2(|bits| - 1) == 2 * Pow2(|bits| - 2);
    }
  }

  lemma {:induction false} OnesOfBits(bits: seq<bool>)
    ensures CountOnes(NumberOf(bits)) <= |bits|
    ensures CountOnes(NumberOf(bits)) == |bits| <==> forall i | 0 <= i < |bits| :: bits[i]
  {
    if bits != [] {
      var init := bits[..|bits| - 1];
      NumberSnoc(bits);
      OnesOfBits(init);
      var x, y := NumberOf(init), NumberOf(bits);
      assert y / 2 == x && y % 2 == if bits[|bits| - 1] then 1 else 0;
      assert forall i | 0 <= i < |init| :: init[i] == bits[i];
    }
  }

  /** A field counts one value exactly when all its bits are fixed. */
  lemma FixedCountsOne(l: Layout, cube: Cube, f: Field)
    requires l.Valid()
    ensures Count(CubeDim(l, cube, f)) == 1 <==> FieldFixed(l, cube, f)
  {
    hide Layout.Valid, CubeDim, CountOnes, Count, NumberOf, Pow2;
    DimCount(l, cube, f);
    var fixed := FixedBits(l, cube, f);
    OnesOfBits(fixed);
    NoFreeBits(f.Bits() - CountOnes(CubeMask(l, cube, f)));
    assert forall b: nat | b < f.Bits() :: fixed[b] == (l.Var(f, b) in cube);
  }

  lemma NoFreeBits(free: nat)
    ensures Pow2(free) == 1 <==> free == 0
  {
    if free > 0 { Pow2Strict(0, free); }
  }

  lemma {:induction false} ProductOfOnes(b: Box)
    requires forall i | 0 <= i < |b| :: Count(b[i]) > 0
    ensures Product(b) == 1 <==> forall i | 0 <= i < |b| :: Count(b[i]) == 1
  {
    hide Count;
    if b != [] {
      ProductOfOnes(b[1..]);
      ProductPositive(b[1..]);
      OneTimes(Count(b[0]), Product(b[1..]));
    }
  }

  lemma OneTimes(x: nat, y: nat)
    requires x >= 1 && y >= 1
    ensures x * y == 1 <==> x == 1 && y == 1
    ensures x <= x * y && (x == x * y <==> y == 1)
  {
    if y > 1 {
      TimesOneMore(x, y - 1);
      TimesAtLeast(x, y - 1);
    }
  }

  lemma TimesOneMore(x: nat, y: nat)
    ensures x * (y + 1) == x * y + x
  {
  }

  lemma TimesAtLeast(x: nat, y: nat)
    requires x >= 1
    ensures x * y >= y
  {
    TimesOneMore(y, x - 1);
  }

  lemma PartOfProduct(b: Box, n: nat)
    requires n <= |b| && forall i | 0 <= i < |b| :: Count(b[i]) > 0
    ensures Product(b[..n]) <= Product(b)
    ensures Product(b[..n]) == Product(b) <==> forall i | n <= i < |b| :: Count(b[i]) == 1
  {
    hide Count, Product;
    assert b == b[..n] + b[n..];
    ProductSplit(b[..n], b[n..]);
    ProductPositive(b[..n]);
    ProductPositive(b[n..]);
    ProductOfOnes(b[n..]);
    OneTimes(Product(b[..n]), Product(b[n..]));
    assert forall i | n <= i < |b| :: b[n..][i - n] == b[i];
  }

  /** The count is never more than the packets of the cube, and it is all of them exactly when the
  cube fixes every field the loop did not come to. */
  lemma CountedExactly(l: Layout, cube: Cube, cap: nat)
    requires l.Valid()
    ensures Counted(l, cube, cap) <= Product(CubeBox(l, cube))
    ensures Counted(l, cube, cap) == Product(CubeBox(l, cube)) <==> FixedAfter(l, cube, cap)
  {
    hide Layout.Valid, Product, CubeDim, Count, FieldFixed, FieldsCounted;
    var b, n := CubeBox(l, cube), FieldsCounted(l, cube, cap, 0);
    forall i | 0 <= i < 7
      ensures Count(b[i]) > 0 && (Count(b[i]) == 1 <==> FieldFixed(l, cube, ALL_FIELDS[i]))
    {
      DimCount(l, cube, ALL_FIELDS[i]);
      FixedCountsOne(l, cube, ALL_FIELDS[i]);
    }
    PartOfProduct(b, n);
  }

  lemma StopsHere(l: Layout, cube: Cube, cap: nat, k: nat)
    requires l.Valid() && k < 7 && !FieldRenderable(l, cube, ALL_FIELDS[k], cap)
    requires forall i | 0 <= i < k :: FieldRenderable(l, cube, ALL_FIELDS[i], cap)
    ensures FieldsCounted(l, cube, cap, 0) == k + 1
  {
    hide Layout.Valid, FieldRenderable;
    FieldsCountedAre(l, cube, cap, 0);
  }

  /** Turn one cube into its rectangle, and count its packets. When a field needs more ranges
  than the cap the loop stops there, so the count then covers only the fields up to it. */
  method RenderCube(l: Layout, cube: Cube, cap: nat) returns (box: Option<Box>, packets: nat)
    requires l.Valid()
    ensures box == if Renderable(l, cube, cap) then Some(CubeBox(l, cube)) else None
    ensures packets == Counted(l, cube, cap)
    ensures box.Some? ==> packets == Product(CubeBox(l, cube))
  {
    hide Layout.Valid, Product, CubeDim, FieldRenderable, FieldsCounted;
    var dims: Box := [];
    packets := 1;
    assert Product(CubeBox(l, cube)[..0]) == 1 by { EmptyProduct(CubeBox(l, cube)); }
    for k := 0 to 7
      invariant dims == CubeBox(l, cube)[..k]
      invariant packets == Product(dims)
      invariant forall i | 0 <= i < k :: FieldRenderable(l, cube, ALL_FIELDS[i], cap)
    {
      var f := ALL_FIELDS[k];
      var dim, count := RenderField(l, cube, f, cap);
      packets := packets * count;
      ProductSnoc(dims, CubeDim(l, cube, f));
      assert CubeBox(l, cube)[..k + 1] == dims + [CubeDim(l, cube, f)];
      match dim {
        case Some(s) =>
          dims := dims + [s];
        case None =>
          StopsHere(l, cube, cap, k);
          return None, packets;
      }
    }
    assert CubeBox(l, cube)[..7] == CubeBox(l, cube);
    FieldsCountedAre(l, cube, cap, 0);
    box := Some(dims);
  }

  lemma EmptyProduct(b: Box)
    ensures Product(b[..0]) == 1
  {
  }

  method RenderField(l: Layout, cube: Cube, f: Field, cap: nat) returns (dim: Option<IntervalSet>, count: nat)
    requires l.Valid()
    ensures count == Count(CubeDim(l, cube, f))
    ensures dim == if FieldRenderable(l, cube, f, cap) then Some(CubeDim(l, cube, f)) else None
  {
    hide Layout.Valid, CubeValue, CubeMask, PatternSet, CountOnes, Count, FreeRuns;
    var value, mask := ReadField(l, cube, f);
    WordBound(f, value);
    DimCount(l, cube, f);
    count := MaskCount(f.Bits(), mask);
    AndDomain(mask, f.Bits());
    WordBound(f, mask);
    dim := MaskToIntervals(f.Bits(), value, mask, cap);
    if mask == 0 { assert PatternSet(f.Bits(), value, 0) == Full(f.Bits()) by { PatternOfNothing(f.Bits(), value); } }
  }

  lemma WordBound(f: Field, value: nat)
    requires value < Pow2(f.Bits())
    ensures value <= U64_MAX
  {
    Pow2Table();
    Pow2Monotone(f.Bits(), 64);
  }

  lemma PatternOfNothing(bits: nat, value: nat)
    requires bits < 64
    ensures PatternSet(bits, value, 0) == Full(bits)
  {
  }

  /** A cube that fixes one bit of the source address, with no ranges allowed: one field is
  counted, and the others, which are free, are not. */
  lemma CountsOneField(l: Layout)
    requires l.Valid()
    ensures var cube: Cube := map[l.Var(SrcAddr, 0) := true];
      !Renderable(l, cube, 0) && Counted(l, cube, 0) < Product(CubeBox(l, cube))
  {
    var cube: Cube := map[l.Var(SrcAddr, 0) := true];
    assert !FieldFixed(l, cube, DstAddr) by { assert l.sequence[l.Var(DstAddr, 0)] != l.sequence[l.Var(SrcAddr, 0)]; }
    assert CubeMask(l, cube, SrcAddr) > 0 by { assert FixedBits(l, cube, SrcAddr)[0]; }
    hide CubeMask, FieldFixed, Layout.Valid;
    assert !FieldRenderable(l, cube, ALL_FIELDS[0], 0);
    hide FieldRenderable;
    assert FieldsCounted(l, cube, 0, 0) == 1 && ALL_FIELDS[1] == DstAddr;
    CountedExactly(l, cube, 0);
  }
}
