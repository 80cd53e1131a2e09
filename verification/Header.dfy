/** Mapping the 120-bit header space onto diagram variables, and compiling match predicates. */
module Header {
  import opened Arith
  import opened Intervals
  import opened Rules
  import opened Diagram

  datatype VarOrder = FieldMajor | AddrInterleaved

  type Slot = (Field, nat)

  /** The variable order, the field bit each variable carries, and the inverse table
  `pos[field][bit]`. Bit 0 of a field is its most significant bit. */
  datatype Layout = Layout(order: VarOrder, sequence: seq<Slot>, pos: seq<seq<nat>>) {
    ghost predicate Valid() {
      && |sequence| == VARIABLES && |pos| == 7 && (forall k | 0 <= k < 7 :: |pos[k]| == 32)
      && (forall f: Field, b: nat | b < f.Bits() ::
            pos[f.Index()][b] < VARIABLES && sequence[pos[f.Index()][b]] == (f, b))
      && (forall i | 0 <= i < VARIABLES ::
            sequence[i].1 < sequence[i].0.Bits() && pos[sequence[i].0.Index()][sequence[i].1] == i)
    }

    function Var(f: Field, b: nat): (v: nat)
      requires Valid() && b < f.Bits()
      ensures v < VARIABLES && sequence[v] == (f, b)
    {
      pos[f.Index()][b]
    }
  }

  // --------------------------------------------------------- variable order

  /** What variable `i` carries. */
  function SlotAt(order: VarOrder, i: nat): Slot
    requires i < VARIABLES
  {
    if i < 8 then (Proto, i)
    else if i < 16 then (IfIn, i - 8)
    else if i < 24 then (IfOut, i - 16)
    else match order
      case FieldMajor =>
        if i < 56 then (SrcAddr, i - 24)
        else if i < 88 then (DstAddr, i - 56)
        else if i < 104 then (SrcPort, i - 88)
        else (DstPort, i - 104)
      case AddrInterleaved =>
        if i < 88 then (if i % 2 == 0 then SrcAddr else DstAddr, (i - 24) / 2)
        else (if i % 2 == 0 then SrcPort else DstPort, (i - 88) / 2)
  }

  /** Where a field bit lives. */
  function PlaceOf(order: VarOrder, f: Field, b: nat): nat
    requires b < f.Bits()
  {
    match f
    case Proto => b
    case IfIn => 8 + b
    case IfOut => 16 + b
    case SrcAddr => if order.FieldMajor? then 24 + b else 24 + 2 * b
    case DstAddr => if order.FieldMajor? then 56 + b else 25 + 2 * b
    case SrcPort => if order.FieldMajor? then 88 + b else 88 + 2 * b
    case DstPort => if order.FieldMajor? then 104 + b else 89 + 2 * b
  }

  /** Both orders are bijections between field bits and variables. */
  lemma PlaceInverse(order: VarOrder, f: Field, b: nat)
    requires b < f.Bits()
    ensures PlaceOf(order, f, b) < VARIABLES && SlotAt(order, PlaceOf(order, f, b)) == (f, b)
  {
  }

  lemma SlotInverse(order: VarOrder, i: nat)
    requires i < VARIABLES
    ensures var (f, b) := SlotAt(order, i); b < f.Bits() && PlaceOf(order, f, b) == i
  {
  }

  /** Append all bits of one field. */
  method PushField(v: seq<Slot>, f: Field) returns (r: seq<Slot>)
    ensures r == v + seq(f.Bits(), b => (f, b))
  {
    r := v;
    for b := 0 to f.Bits()
      invariant r == v + seq(b, c => (f, c))
    {
      r := r + [(f, b)];
    }
  }

  /** Append the bits of two fields alternately. */
  method PushInterleaved(v: seq<Slot>, f: Field, g: Field, width: nat) returns (r: seq<Slot>)
    ensures r == v + seq(2 * width, i => (if i % 2 == 0 then f else g, i / 2))
  {
    r := v;
    for b := 0 to width
      invariant r == v + seq(2 * b, i => (if i % 2 == 0 then f else g, i / 2))
    {
      r := r + [(f, b)];
      r := r + [(g, b)];
    }
  }

  method SequenceOf(order: VarOrder) returns (v: seq<Slot>)
    ensures |v| == VARIABLES && forall i | 0 <= i < VARIABLES :: v[i] == SlotAt(order, i)
  {
    v := [];
    v := PushField(v, Proto);
    v := PushField(v, IfIn);
    v := PushField(v, IfOut);
    match order
    case FieldMajor =>
      v := PushField(v, SrcAddr);
      v := PushField(v, DstAddr);
      v := PushField(v, SrcPort);
      v := PushField(v, DstPort);
    case AddrInterleaved =>
      v := PushInterleaved(v, SrcAddr, DstAddr, 32);
      v := PushInterleaved(v, SrcPort, DstPort, 16);
  }

  method NewLayout(order: VarOrder) returns (l: Layout)
    ensures l.Valid() && l.order == order
    ensures forall f: Field, b: nat | b < f.Bits() :: l.Var(f, b) == PlaceOf(order, f, b)
  {
    var sequence := SequenceOf(order);
    var pos: seq<seq<nat>> := seq(7, k => seq(32, b => 0xFFFF));
    for i := 0 to |sequence|
      invariant |pos| == 7 && forall k | 0 <= k < 7 :: |pos[k]| == 32
      invariant forall f: Field, b: nat | b < f.Bits() ::
        PlaceOf(order, f, b) < i ==> pos[f.Index()][b] == PlaceOf(order, f, b)
    {
      var (f, b) := sequence[i];
      SlotInverse(order, i);
      ghost var before := pos;
      var row: seq<nat> := pos[f.Index()];
      row := row[b := i];
      pos := pos[f.Index() := row];
      forall g: Field, c: nat | c < g.Bits() && PlaceOf(order, g, c) < i + 1
        ensures pos[g.Index()][c] == PlaceOf(order, g, c)
      {
        PlaceInverse(order, g, c);
        if g != f { assert g.Index() != f.Index(); }
      }
    }
    l := Layout(order, sequence, pos);
    forall f: Field, b: nat | b < f.Bits()
      ensures pos[f.Index()][b] == PlaceOf(order, f, b) < VARIABLES && sequence[pos[f.Index()][b]] == (f, b)
    {
      PlaceInverse(order, f, b);
    }
    forall i | 0 <= i < VARIABLES
      ensures sequence[i].1 < sequence[i].0.Bits() && pos[sequence[i].0.Index()][sequence[i].1] == i
    {
      SlotInverse(order, i);
    }
  }

  // ---------------------------------------------------------- field values

  /** The number a bit string denotes, most significant bit first. */
  function NumberOf(bits: seq<bool>): nat {
    if bits == [] then 0
    else (if bits[0] then Pow2(|bits| - 1) else 0) + NumberOf(bits[1..])
  }

  function FieldBits(l: Layout, p: Point, f: Field): seq<bool>
    requires l.Valid()
  {
    seq(f.Bits(), b requires 0 <= b < f.Bits() => p[l.Var(f, b)])
  }

  function FieldValue(l: Layout, p: Point, f: Field): nat
    requires l.Valid()
  {
    NumberOf(FieldBits(l, p, f))
  }

  /** The packet a point stands for. */
  function PacketAt(l: Layout, p: Point): (q: Packet)
    requires l.Valid()
    ensures forall f: Field :: q.Get(f) == FieldValue(l, p, f)
  {
    Packet(FieldValue(l, p, SrcAddr), FieldValue(l, p, DstAddr), FieldValue(l, p, SrcPort),
           FieldValue(l, p, DstPort), FieldValue(l, p, Proto), FieldValue(l, p, IfIn), FieldValue(l, p, IfOut))
  }

  /** Bit `b` of a `w`-wide value, counted from the most significant bit. */
  predicate MsbBit(value: nat, w: nat, b: nat)
    requires b < w
  {
    Bit(value, w - 1 - b)
  }

  function PointOf(l: Layout, q: Packet): Point
    requires l.Valid()
  {
    seq(VARIABLES, i requires 0 <= i < VARIABLES =>
      MsbBit(q.Get(l.sequence[i].0), l.sequence[i].0.Bits(), l.sequence[i].1))
  }

  lemma {:induction false} NumberBound(bits: seq<bool>)
    ensures NumberOf(bits) < Pow2(|bits|)
  {
    if bits != [] { NumberBound(bits[1..]); }
  }

  /** The bits of the number are the bits of the string. */
  lemma {:induction false} NumberBits(bits: seq<bool>, b: nat)
    requires b < |bits|
    ensures MsbBit(NumberOf(bits), |bits|, b) == bits[b]
  {
    var n := |bits| - 1;
    var rest := NumberOf(bits[1..]);
    NumberBound(bits[1..]);
    if b == 0 {
      LowSucc(NumberOf(bits), n);
      NumberBound(bits);
      LowAll(NumberOf(bits), n + 1);
      LowBound(NumberOf(bits), n);
    } else {
      NumberBits(bits[1..], b - 1);
      if bits[0] { BitAddHigh(rest, n, n - b); }
    }
  }

  lemma NumberOfBitsOf(bits: seq<bool>, value: nat, w: nat)
    requires |bits| == w && value < Pow2(w)
    requires forall b: nat | b < w :: bits[b] == MsbBit(value, w, b)
    ensures NumberOf(bits) == value
  {
    NumberBound(bits);
    forall i: nat | i < w
      ensures Bit(NumberOf(bits), i) <==> Bit(value, i)
    {
      NumberBits(bits, w - 1 - i);
      assert bits[w - 1 - i] == MsbBit(value, w, w - 1 - i);
    }
    SameBitsEqual(NumberOf(bits), value, w);
  }

  lemma PacketInDomain(l: Layout, p: Point)
    requires l.Valid()
    ensures PacketAt(l, p).InDomain()
  {
    forall f: Field
      ensures PacketAt(l, p).Get(f) <= DomainMax(f.Bits())
    {
      NumberBound(FieldBits(l, p, f));
    }
  }

  /** Points and in-domain packets correspond one to one. */
  lemma PacketOfPoint(l: Layout, q: Packet)
    requires l.Valid() && q.InDomain()
    ensures PacketAt(l, PointOf(l, q)) == q
  {
    forall f: Field
      ensures FieldValue(l, PointOf(l, q), f) == q.Get(f)
    {
      NumberOfBitsOf(FieldBits(l, PointOf(l, q), f), q.Get(f), f.Bits());
    }
    assert forall f: Field :: PacketAt(l, PointOf(l, q)).Get(f) == q.Get(f);
    SamePacket(PacketAt(l, PointOf(l, q)), q);
  }

  lemma SamePacket(a: Packet, b: Packet)
    requires forall f: Field :: a.Get(f) == b.Get(f)
    ensures a == b
  {
    assert a.Get(SrcAddr) == b.Get(SrcAddr) && a.Get(DstAddr) == b.Get(DstAddr);
    assert a.Get(SrcPort) == b.Get(SrcPort) && a.Get(DstPort) == b.Get(DstPort);
    assert a.Get(Proto) == b.Get(Proto) && a.Get(IfIn) == b.Get(IfIn) && a.Get(IfOut) == b.Get(IfOut);
  }

  lemma PointOfPacket(l: Layout, p: Point)
    requires l.Valid()
    ensures PointOf(l, PacketAt(l, p)) == p
  {
    var r := PointOf(l, PacketAt(l, p));
    forall i | 0 <= i < VARIABLES
      ensures r[i] == p[i]
    {
      var (f, b) := l.sequence[i];
      NumberBits(FieldBits(l, p, f), b);
    }
  }

  // ------------------------------------------------------------- predicates

  method Lit(l: Layout, f: Field, b: nat, value: bool) returns (s: PacketSet)
    requires l.Valid() && b < f.Bits()
    ensures forall p: Point :: Has(s, p) <==> p[l.Var(f, b)] == value
  {
    s := Literal(l.Var(f, b), value);
  }

  /** The value of the field bits from `b` on. */
  function SuffixValue(l: Layout, p: Point, f: Field, b: nat): nat
    requires l.Valid() && b <= f.Bits()
  {
    NumberOf(FieldBits(l, p, f)[b..])
  }

  lemma SuffixStep(l: Layout, p: Point, f: Field, b: nat)
    requires l.Valid() && b < f.Bits()
    ensures SuffixValue(l, p, f, b) ==
      (if p[l.Var(f, b)] then Pow2(f.Bits() - 1 - b) else 0) + SuffixValue(l, p, f, b + 1)
    ensures SuffixValue(l, p, f, b + 1) < Pow2(f.Bits() - 1 - b)
  {
    var bits := FieldBits(l, p, f);
    assert bits[b..][1..] == bits[b + 1..];
    NumberBound(bits[b + 1..]);
  }

  lemma SuffixEnds(l: Layout, p: Point, f: Field)
    requires l.Valid()
    ensures SuffixValue(l, p, f, f.Bits()) == 0
    ensures SuffixValue(l, p, f, 0) == FieldValue(l, p, f)
  {
    assert FieldBits(l, p, f)[0..] == FieldBits(l, p, f);
  }

  /** The packets whose field starts with the `len` leading bits of `value`,
  a word whose bits above the field are not looked at. */
  method PrefixSet(l: Layout, f: Field, value: nat, len: nat) returns (s: PacketSet)
    requires l.Valid() && len <= f.Bits()
    ensures forall p: Point ::
      Has(s, p) <==> Shr(FieldValue(l, p, f), f.Bits() - len) == Shr(Low(value, f.Bits()), f.Bits() - len)
  {
    hide Layout.Valid, FieldValue, Shr, Pow2, MsbBit, Reduced, Eval, Has;
    var w := f.Bits();
    s := Constant(true);
    for b := 0 to len
      invariant forall p: Point :: Has(s, p) <==> forall c: nat | c < b :: p[l.Var(f, c)] == MsbBit(value, w, c)
    {
      var bit := Lit(l, f, b, MsbBit(value, w, b));
      s := And(s, bit);
    }
    forall p: Point
      ensures Has(s, p) <==> Shr(FieldValue(l, p, f), w - len) == Shr(Low(value, w), w - len)
    {
      LeadingBits(l, p, f, value, len);
    }
  }

  /** Agreement on the leading bits is equality of the shifted values. */
  lemma LeadingBits(l: Layout, p: Point, f: Field, value: nat, len: nat)
    requires l.Valid() && len <= f.Bits()
    ensures (forall c: nat | c < len :: p[l.Var(f, c)] == MsbBit(value, f.Bits(), c))
      <==> Shr(FieldValue(l, p, f), f.Bits() - len) == Shr(Low(value, f.Bits()), f.Bits() - len)
  {
    hide Layout.Valid, NumberOf, Shr, Low;
    var bits := FieldBits(l, p, f);
    NumberBound(bits);
    LowBound(value, f.Bits());
    forall c: nat | c < len
      ensures p[l.Var(f, c)] == MsbBit(NumberOf(bits), f.Bits(), c)
      ensures MsbBit(Low(value, f.Bits()), f.Bits(), c) == MsbBit(value, f.Bits(), c)
    {
      NumberBits(bits, c);
      BitOfLow(value, f.Bits(), f.Bits() - 1 - c);
    }
    SameLeadingBits(NumberOf(bits), Low(value, f.Bits()), f.Bits(), len);
  }

  lemma SameLeadingBits(x: nat, y: nat, w: nat, len: nat)
    requires len <= w && x < Pow2(w) && y < Pow2(w)
    ensures (forall c: nat | c < len :: MsbBit(x, w, c) == MsbBit(y, w, c)) <==> Shr(x, w - len) == Shr(y, w - len)
  {
    var hx, hy := Shr(x, w - len), Shr(y, w - len);
    ShrBound(x, w - len, w);
    ShrBound(y, w - len, w);
    forall c: nat | c < len
      ensures MsbBit(x, w, c) == Bit(hx, len - 1 - c)
      ensures MsbBit(y, w, c) == Bit(hy, len - 1 - c)
    {
      ShrCompose(x, w - len, len - 1 - c);
      ShrCompose(y, w - len, len - 1 - c);
    }
    if forall c: nat | c < len :: MsbBit(x, w, c) == MsbBit(y, w, c) {
      forall i: nat | i < len
        ensures Bit(hx, i) <==> Bit(hy, i)
      {
        assert MsbBit(x, w, len - 1 - i) == MsbBit(y, w, len - 1 - i);
      }
      SameBitsEqual(hx, hy, len);
    }
  }

  /** The field bits from `b` on are at least, at most, those of `bound`. */
  ghost predicate SuffixAtLeast(l: Layout, p: Point, f: Field, b: nat, bound: nat)
    requires l.Valid() && b <= f.Bits()
  {
    SuffixValue(l, p, f, b) >= Low(bound, f.Bits() - b)
  }

  ghost predicate SuffixAtMost(l: Layout, p: Point, f: Field, b: nat, bound: nat)
    requires l.Valid() && b <= f.Bits()
  {
    SuffixValue(l, p, f, b) <= Low(bound, f.Bits() - b)
  }

  /** One step of the comparators: the leading bit settles it unless the bits agree. */
  lemma CompareStep(l: Layout, p: Point, f: Field, b: nat, bound: nat)
    requires l.Valid() && b < f.Bits()
    ensures SuffixAtLeast(l, p, f, b, bound) <==>
      if MsbBit(bound, f.Bits(), b) then p[l.Var(f, b)] && SuffixAtLeast(l, p, f, b + 1, bound)
      else p[l.Var(f, b)] || SuffixAtLeast(l, p, f, b + 1, bound)
    ensures SuffixAtMost(l, p, f, b, bound) <==>
      if MsbBit(bound, f.Bits(), b) then !p[l.Var(f, b)] || SuffixAtMost(l, p, f, b + 1, bound)
      else !p[l.Var(f, b)] && SuffixAtMost(l, p, f, b + 1, bound)
  {
    SuffixStep(l, p, f, b);
    LowSucc(bound, f.Bits() - 1 - b);
    LowBound(bound, f.Bits() - 1 - b);
  }

  lemma CompareEnds(l: Layout, p: Point, f: Field, bound: nat)
    requires l.Valid()
    ensures SuffixAtLeast(l, p, f, f.Bits(), bound) && SuffixAtMost(l, p, f, f.Bits(), bound)
    ensures SuffixAtLeast(l, p, f, 0, bound) <==> FieldValue(l, p, f) >= Low(bound, f.Bits())
    ensures SuffixAtMost(l, p, f, 0, bound) <==> FieldValue(l, p, f) <= Low(bound, f.Bits())
  {
    SuffixEnds(l, p, f);
  }

  /** `field >= lo`, built from the least significant bit up: only the bits of
  `lo` that the field has are compared. */
  method GreaterEqual(l: Layout, f: Field, lo: nat) returns (acc: PacketSet)
    requires l.Valid()
    ensures forall p: Point :: Has(acc, p) <==> FieldValue(l, p, f) >= Low(lo, f.Bits())
  {
    acc := Constant(true);
    var w := f.Bits();
    forall p: Point { CompareEnds(l, p, f, lo); }
    for b := w downto 0
      invariant forall p: Point :: Has(acc, p) <==> SuffixAtLeast(l, p, f, b, lo)
    {
      forall p: Point { CompareStep(l, p, f, b, lo); }
      var bit := Lit(l, f, b, true);
      if MsbBit(lo, w, b) {
        acc := And(bit, acc);
      } else {
        acc := Or(bit, acc);
      }
    }
  }

  /** `field <= hi`, again on the bits the field has. */
  method LessEqual(l: Layout, f: Field, hi: nat) returns (acc: PacketSet)
    requires l.Valid()
    ensures forall p: Point :: Has(acc, p) <==> FieldValue(l, p, f) <= Low(hi, f.Bits())
  {
    acc := Constant(true);
    var w := f.Bits();
    forall p: Point { CompareEnds(l, p, f, hi); }
    for b := w downto 0
      invariant forall p: Point :: Has(acc, p) <==> SuffixAtMost(l, p, f, b, hi)
    {
      forall p: Point { CompareStep(l, p, f, b, hi); }
      var bit := Lit(l, f, b, false);
      if MsbBit(hi, w, b) {
        acc := Or(bit, acc);
      } else {
        acc := And(bit, acc);
      }
    }
  }

  /** `lo <= field <= hi` for a lower end the field can hold; of a larger one
  only the low bits are compared. */
  method RangeOf(l: Layout, f: Field, lo: nat, hi: nat) returns (s: PacketSet)
    requires l.Valid()
    ensures forall p: Point :: Has(s, p) <==> lo <= hi && Low(lo, f.Bits()) <= FieldValue(l, p, f) <= hi
  {
    var max := DomainMax(f.Bits());
    RangeEnds(f.Bits(), lo, hi);
    forall p: Point
      ensures FieldValue(l, p, f) <= max
    {
      NumberBound(FieldBits(l, p, f));
    }
    if lo > hi {
      s := Constant(false);
    } else if lo == 0 && hi >= max {
      s := Constant(true);
    } else if lo == 0 {
      s := LessEqual(l, f, hi);
    } else if hi >= max {
      s := GreaterEqual(l, f, lo);
    } else {
      var above := GreaterEqual(l, f, lo);
      var below := LessEqual(l, f, hi);
      s := And(above, below);
    }
  }

  lemma MemberFits(s: IntervalSet, k: nat)
    requires k < |s.ranges| && s.bits < 64
    ensures s.ranges[k].0 <= s.ranges[k].1 && Low(s.ranges[k].0, s.bits) == s.ranges[k].0
  {
    LowAll(s.ranges[k].0, s.bits);
  }

  lemma RangeEnds(w: nat, lo: nat, hi: nat)
    requires w < 64
    ensures lo == 0 ==> Low(lo, w) == 0
    ensures hi < DomainMax(w) ==> Low(hi, w) == hi
  {
    if hi < DomainMax(w) { LowAll(hi, w); }
    if lo == 0 { LowAll(lo, w); }
  }

  /** A range is compiled to itself exactly when it is empty, or its lower end
  fits the field: past the domain the source still returns packets. */
  lemma RangeExactly(l: Layout, f: Field, lo: nat, hi: nat)
    requires l.Valid()
    ensures (forall p: Point ::
               lo <= hi && Low(lo, f.Bits()) <= FieldValue(l, p, f) <= hi <==> lo <= FieldValue(l, p, f) <= hi)
      <==> hi < lo || lo < Pow2(f.Bits())
  {
    var w := f.Bits();
    LowBound(lo, w);
    if lo < Pow2(w) {
      LowAll(lo, w);
    } else if lo <= hi {
      var p := HighestPoint(l, f);
      NumberBound(FieldBits(l, p, f));
      assert FieldValue(l, p, f) < lo && Low(lo, w) <= FieldValue(l, p, f) <= hi;
    }
  }

  lemma HighestPoint(l: Layout, f: Field) returns (p: Point)
    requires l.Valid()
    ensures FieldValue(l, p, f) == Pow2(f.Bits()) - 1
  {
    p := seq(VARIABLES, i => true);
    AllOnes(FieldBits(l, p, f));
  }

  lemma {:induction false} AllOnes(bits: seq<bool>)
    requires forall i | 0 <= i < |bits| :: bits[i]
    ensures NumberOf(bits) == Pow2(|bits|) - 1
  {
    if bits != [] { AllOnes(bits[1..]); }
  }

  lemma FullField(l: Layout, f: Field, set_: IntervalSet)
    requires l.Valid() && set_.bits == f.Bits() && IsFull(set_)
    ensures forall p: Point :: Contains(set_, FieldValue(l, p, f))
  {
    FullAndEmpty(set_);
    forall p: Point
      ensures Contains(set_, FieldValue(l, p, f))
    {
      NumberBound(FieldBits(l, p, f));
    }
  }

  /** A whole interval set, as the union of its ranges. */
  method SetOf(l: Layout, f: Field, set_: IntervalSet) returns (acc: PacketSet)
    requires l.Valid() && set_.bits == f.Bits()
    ensures forall p: Point :: Has(acc, p) <==> Contains(set_, FieldValue(l, p, f))
  {
    hide Layout.Valid, FieldValue, Reduced, Eval, Has, IsFull, Pow2, Low;
    if IsFull(set_) {
      FullField(l, f, set_);
      acc := Constant(true);
      return;
    }
    acc := Constant(false);
    for k := 0 to |set_.ranges|
      invariant forall p: Point :: Has(acc, p) <==> InRanges(set_.ranges[..k], FieldValue(l, p, f))
    {
      var (lo, hi) := set_.ranges[k];
      ghost var before := acc;
      MemberFits(set_, k);
      var piece := RangeOf(l, f, lo, hi);
      acc := Or(acc, piece);
      assert set_.ranges[..k + 1] == set_.ranges[..k] + [set_.ranges[k]];
      forall p: Point
        ensures Has(acc, p) <==> InRanges(set_.ranges[..k + 1], FieldValue(l, p, f))
      {
        InRangesSnoc(set_.ranges[..k], set_.ranges[k], FieldValue(l, p, f));
        assert Has(before, p) <==> InRanges(set_.ranges[..k], FieldValue(l, p, f));
      }
    }
    assert set_.ranges[..|set_.ranges|] == set_.ranges;
  }

  /** One dimension of a match predicate. */
  ghost predicate DimMatches(m: Match, syms: SymbolTable, f: Field, v: nat) {
    if f.IfIn? then Admits(m.iif, syms, v)
    else if f.IfOut? then Admits(m.oif, syms, v)
    else Contains(m.Dim(f), v)
  }

  lemma MatchesByDimension(m: Match, syms: SymbolTable, q: Packet)
    ensures Matches(m, syms, q) <==> forall k | 0 <= k < 7 :: DimMatches(m, syms, ALL_FIELDS[k], q.Get(ALL_FIELDS[k]))
  {
    if Matches(m, syms, q) {
      forall k | 0 <= k < 7
        ensures DimMatches(m, syms, ALL_FIELDS[k], q.Get(ALL_FIELDS[k]))
      {
      }
    }
    if forall k | 0 <= k < 7 :: DimMatches(m, syms, ALL_FIELDS[k], q.Get(ALL_FIELDS[k])) {
      forall f: Field
        ensures DimMatches(m, syms, f, q.Get(f))
      {
        AllFields(f);
      }
      assert DimMatches(m, syms, IfIn, q.Get(IfIn)) && DimMatches(m, syms, IfOut, q.Get(IfOut));
    }
  }

  /** The value set of one dimension, interfaces resolved against the table. */
  method DimSet(m: Match, syms: SymbolTable, f: Field) returns (s: IntervalSet)
    requires syms.Valid()
    ensures s.bits == f.Bits()
    ensures forall v: nat :: v <= DomainMax(f.Bits()) ==> (Contains(s, v) <==> DimMatches(m, syms, f, v))
  {
    match f
    case IfIn => s := Resolve(m.iif, syms);
    case IfOut => s := Resolve(m.oif, syms);
    case _ => s := m.Dim(f);
  }

  /** One round of the loop: intersect with a dimension unless it is unconstrained. */
  method Narrow(l: Layout, m: Match, syms: SymbolTable, f: Field, acc: PacketSet) returns (r: PacketSet)
    requires l.Valid() && syms.Valid()
    ensures forall p: Point :: Has(r, p) <==> Has(acc, p) && DimMatches(m, syms, f, FieldValue(l, p, f))
  {
    hide Layout.Valid, DimMatches, Contains, Canonical, Reduced, Eval, Has;
    var s := DimSet(m, syms, f);
    forall p: Point
      ensures FieldValue(l, p, f) <= DomainMax(f.Bits())
    {
      NumberBound(FieldBits(l, p, f));
    }
    if IsFull(s) {
      FullAndEmpty(s);
      r := acc;
    } else {
      var dim := SetOf(l, f, s);
      r := And(acc, dim);
    }
  }

  /** Compile a match predicate into the set of packets it admits. */
  method MatchSet(l: Layout, m: Match, syms: SymbolTable) returns (acc: PacketSet)
    requires l.Valid() && syms.Valid()
    ensures forall p: Point :: Has(acc, p) <==> Matches(m, syms, PacketAt(l, p))
  {
    acc := Constant(true);
    var k := 0;
    while k < |ALL_FIELDS|
      invariant k <= 7
      invariant forall p: Point :: Has(acc, p) <==> MatchesUpTo(l, m, syms, p, k)
    {
      forall p: Point { NextDimension(l, m, syms, p, k); }
      acc := Narrow(l, m, syms, ALL_FIELDS[k], acc);
      k := k + 1;
      if IsFalse(acc) {
        FalseIsEmpty(acc);
        break;
      }
    }
    forall p: Point { AllDimensions(l, m, syms, p, k); }
  }

  ghost predicate MatchesUpTo(l: Layout, m: Match, syms: SymbolTable, p: Point, k: nat)
    requires l.Valid() && k <= 7
  {
    forall j | 0 <= j < k :: DimMatches(m, syms, ALL_FIELDS[j], FieldValue(l, p, ALL_FIELDS[j]))
  }

  lemma NextDimension(l: Layout, m: Match, syms: SymbolTable, p: Point, k: nat)
    requires l.Valid() && k < 7
    ensures MatchesUpTo(l, m, syms, p, k + 1) <==>
      MatchesUpTo(l, m, syms, p, k) && DimMatches(m, syms, ALL_FIELDS[k], FieldValue(l, p, ALL_FIELDS[k]))
  {
  }

  lemma AllDimensions(l: Layout, m: Match, syms: SymbolTable, p: Point, k: nat)
    requires l.Valid() && k <= 7
    ensures Matches(m, syms, PacketAt(l, p)) ==> MatchesUpTo(l, m, syms, p, k)
    ensures k == 7 && MatchesUpTo(l, m, syms, p, k) ==> Matches(m, syms, PacketAt(l, p))
  {
    MatchesByDimension(m, syms, PacketAt(l, p));
  }
}
