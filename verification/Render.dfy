/** The two ways a report writes an address set. */
module Render {
  import opened Arith
  import opened Intervals
  import opened Cidr
  import opened Cardinality

  // ---------------------------------------------------------- leading bits

  /** `x ^ y` */
  function BitXor(x: nat, y: nat): nat {
    if x == 0 && y == 0 then 0
    else (if x % 2 != y % 2 then 1 else 0) + 2 * BitXor(x / 2, y / 2)
  }

  function LeadingZeros(x: nat, w: nat): int {
    if x == 0 then w else w - 1 - Log2(x)
  }

  lemma {:induction false} XorZero(x: nat, y: nat)
    ensures BitXor(x, y) == 0 <==> x == y
  {
    if x != 0 || y != 0 { XorZero(x / 2, y / 2); }
  }

  lemma XorHalf(x: nat, y: nat)
    ensures BitXor(x, y) / 2 == BitXor(x / 2, y / 2)
  {
  }

  lemma {:induction false} XorShr(x: nat, y: nat, n: nat)
    ensures Shr(BitXor(x, y), n) == BitXor(Shr(x, n), Shr(y, n))
  {
    hide BitXor;
    if n > 0 {
      XorHalf(x, y);
      XorShr(x / 2, y / 2, n - 1);
    }
  }

  /** Two values agree above bit `n` exactly when their difference lies below it. */
  lemma SameAbove(x: nat, y: nat, n: nat)
    ensures Shr(x, n) == Shr(y, n) <==> BitXor(x, y) < Pow2(n)
  {
    XorShr(x, y, n);
    XorZero(Shr(x, n), Shr(y, n));
    ShrSmall(BitXor(x, y), n);
  }

  lemma {:induction false} XorBound(x: nat, y: nat, w: nat)
    requires x < Pow2(w) && y < Pow2(w)
    ensures BitXor(x, y) < Pow2(w)
  {
    if w > 0 { XorBound(x / 2, y / 2, w - 1); }
  }

  /** The common prefix is as long as the leading zeros of the difference say, and no longer. */
  lemma CommonPrefix(lo: nat, hi: nat, w: nat, len: nat)
    requires lo < Pow2(w) && hi < Pow2(w) && len <= w
    ensures 0 <= LeadingZeros(BitXor(lo, hi), w) <= w
    ensures Shr(lo, w - len) == Shr(hi, w - len) <==> len <= LeadingZeros(BitXor(lo, hi), w)
  {
    var x := BitXor(lo, hi);
    SameAbove(lo, hi, w - len);
    XorBound(lo, hi, w);
    if x > 0 {
      Log2Bounds(x);
      if Log2(x) >= w { Pow2Monotone(w, Log2(x)); }
      if w - len <= Log2(x) { Pow2Monotone(w - len, Log2(x)); }
      if w - len > Log2(x) { Pow2Monotone(Log2(x) + 1, w - len); }
    }
  }

  // ------------------------------------------------------------- the forms

  type Addresses = s: IntervalSet | s.bits == 32 witness Empty(32)

  datatype Form = Nothing | Anything | Direct(blocks: seq<Cidr>) | Except(block: Cidr, holes: seq<Cidr>)

  /** Choose between the list of blocks and "enclosing block except holes". */
  function AddressForm(s: Addresses): Form {
    if IsEmpty(s) then Nothing
    else if IsFull(s) then Anything
    else
      var direct := SetToPrefixes(s);
      var lo, hi := s.ranges[0].0, s.ranges[|s.ranges| - 1].1;
      HullInDomain(s);
      var common := LeadingZeros(BitXor(lo, hi), 32);
      var enclosing := Prefix(32, lo, common);
      var holes := Difference(enclosing, s);
      if IsEmpty(holes) then Direct(direct)
      else
        var holeBlocks := SetToPrefixes(holes);
        if 1 + |holeBlocks| < |direct| then Except(Cidr(enclosing.ranges[0].0, common), holeBlocks) else Direct(direct)
  }

  lemma HullInDomain(s: Addresses)
    requires !IsEmpty(s)
    ensures var lo, hi := s.ranges[0].0, s.ranges[|s.ranges| - 1].1;
      && lo <= DomainMax(32) && hi <= DomainMax(32)
      && 0 <= LeadingZeros(BitXor(lo, hi), 32) <= 32
  {
    var lo, hi := s.ranges[0].0, s.ranges[|s.ranges| - 1].1;
    assert s.ranges[0].0 <= s.ranges[0].1 && s.ranges[|s.ranges| - 1].1 <= DomainMax(32);
    CommonPrefix(lo, hi, 32, 0);
  }

  /** The addresses a form stands for. */
  ghost predicate Denotes(f: Form, v: nat) {
    match f
    case Nothing => false
    case Anything => v <= DomainMax(32)
    case Direct(blocks) => exists c | c in blocks :: Covers(32, c, v)
    case Except(block, holes) => v <= DomainMax(32) && Covers(32, block, v) && !exists c | c in holes ::
      Covers(32, c, v)
  }

  /** The prefix length of the enclosing block. */
  function EnclosingLength(s: Addresses): (len: nat)
    requires !IsEmpty(s)
    ensures len <= 32
  {
    HullInDomain(s);
    LeadingZeros(BitXor(s.ranges[0].0, s.ranges[|s.ranges| - 1].1), 32)
  }

  /** The enclosing block covers the set ... */
  lemma EnclosingCovers(s: Addresses, v: nat)
    requires !IsEmpty(s) && Contains(s, v)
    ensures Shr(v, 32 - EnclosingLength(s)) == Shr(s.ranges[0].0, 32 - EnclosingLength(s))
  {
    hide LeadingZeros, Canonical, Contains, BitXor, Shr;
    HullInDomain(s);
    HullIsSmallest(s);
    var lo, hi := s.ranges[0].0, s.ranges[|s.ranges| - 1].1;
    CommonPrefix(lo, hi, 32, EnclosingLength(s));
    ShrBetween(lo, v, hi, 32 - EnclosingLength(s));
  }

  /** ... and no smaller aligned block does. */
  lemma EnclosingIsSmallest(s: Addresses, c: Cidr)
    requires !IsEmpty(s) && c.len <= 32 && forall v: nat | Contains(s, v) :: Covers(32, c, v)
    ensures c.len <= EnclosingLength(s)
  {
    hide LeadingZeros, Canonical, Contains, BitXor, Shr;
    HullInDomain(s);
    HullIsSmallest(s);
    var lo, hi := s.ranges[0].0, s.ranges[|s.ranges| - 1].1;
    assert Covers(32, c, lo) && Covers(32, c, hi);
    CommonPrefix(lo, hi, 32, c.len);
  }

  lemma {:induction false} ShrBetween(lo: nat, v: nat, hi: nat, n: nat)
    requires lo <= v <= hi && Shr(lo, n) == Shr(hi, n)
    ensures Shr(v, n) == Shr(lo, n)
  {
    if n > 0 { ShrBetween(lo / 2, v / 2, hi / 2, n - 1); }
  }

  /** Whichever form is chosen, it denotes exactly the set. */
  lemma FormIsExact(s: Addresses, v: nat)
    ensures Denotes(AddressForm(s), v) <==> Contains(s, v)
  {
    FullAndEmpty(s);
    if AddressForm(s).Direct? {
      SetToPrefixesExact(s, v);
    } else if AddressForm(s).Except? {
      ExceptIsExact(s, v);
    }
  }

  lemma ExceptParts(s: Addresses)
    requires AddressForm(s).Except?
    ensures !IsEmpty(s) && s.ranges[0].0 <= DomainMax(32)
    ensures var enclosing := Prefix(32, s.ranges[0].0, EnclosingLength(s));
      AddressForm(s) == Except(Cidr(enclosing.ranges[0].0, EnclosingLength(s)), SetToPrefixes(Difference(enclosing, s)))
  {
    HullInDomain(s);
    hide SetToPrefixes, LeadingZeros, BitXor, Canonical;
  }

  lemma ExceptIsExact(s: Addresses, v: nat)
    requires AddressForm(s).Except?
    ensures Denotes(AddressForm(s), v) <==> Contains(s, v)
  {
    ExceptParts(s);
    var lo, len := s.ranges[0].0, EnclosingLength(s);
    if Contains(s, v) {
      EnclosingCovers(s, v);
      FullAndEmpty(s);
    }
    hide *;
    BlockBase(lo, len);
    HolesAreExact(s, lo, len, v);
    ExceptDenotes(Prefix(32, lo, len).ranges[0].0, len, SetToPrefixes(Difference(Prefix(32, lo, len), s)), lo, v,
      Contains(s, v));
  }

  lemma ExceptDenotes(base: nat, len: nat, holes: seq<Cidr>, lo: nat, v: nat, member: bool)
    requires len <= 32 && Shr(base, 32 - len) == Shr(lo, 32 - len)
    requires (exists c | c in holes :: Covers(32, c, v)) <==>
      v <= DomainMax(32) && Shr(v, 32 - len) == Shr(lo, 32 - len) && !member
    requires member ==> v <= DomainMax(32) && Shr(v, 32 - len) == Shr(lo, 32 - len)
    ensures Denotes(Except(Cidr(base, len), holes), v) <==> member
  {
    hide Shr, DomainMax;
  }

  lemma HolesAreExact(s: Addresses, lo: nat, len: nat, v: nat)
    requires len <= 32 && lo <= DomainMax(32)
    ensures (exists c | c in SetToPrefixes(Difference(Prefix(32, lo, len), s)) :: Covers(32, c, v)) <==>
      v <= DomainMax(32) && Shr(v, 32 - len) == Shr(lo, 32 - len) && !Contains(s, v)
  {
    hide SetToPrefixes, Canonical, DomainMax, Contains, Covers;
    SetToPrefixesExact(Difference(Prefix(32, lo, len), s), v);
  }

  /** The printed base of the enclosing block has the same leading bits. */
  lemma BlockBase(lo: nat, len: nat)
    requires len <= 32 && lo <= DomainMax(32)
    ensures Shr(Prefix(32, lo, len).ranges[0].0, 32 - len) == Shr(lo, 32 - len)
  {
    var s := Prefix(32, lo, len);
    assert s.ranges[0].0 <= s.ranges[0].0 <= s.ranges[0].1;
    assert Contains(s, s.ranges[0].0);
  }

  function Terms(f: Form): nat {
    match f
    case Nothing => 1
    case Anything => 1
    case Direct(blocks) => |blocks|
    case Except(_, holes) => 1 + |holes|
  }

  /** No list of blocks that denotes the set has fewer terms than the form chosen ... */
  lemma FewestBlocks(s: Addresses, cover: set<Cidr>)
    requires !IsEmpty(s)
    requires forall c | c in cover :: Aligned(32, c)
    requires forall v: nat :: Covered(32, cover, v) <==> Contains(s, v)
    ensures Terms(AddressForm(s)) <= |cover|
  {
    HullInDomain(s);
    HullIsSmallest(s);
    hide Aligned, Covers, DomainMax, SetToPrefixes, LeadingZeros, BitXor, Canonical;
    SetToPrefixesMinimal(s, cover);
    assert Covered(32, cover, s.ranges[0].0);
  }

  /** ... and no block with holes does, whatever block is taken. */
  lemma FewestHoles(s: Addresses, c: Cidr, holes: set<Cidr>)
    requires !IsEmpty(s) && c.len <= 32 && forall v: nat | Contains(s, v) :: Covers(32, c, v)
    requires forall d | d in holes :: Aligned(32, d)
    requires forall v: nat :: Covered(32, holes, v) <==> v <= DomainMax(32) && Covers(32, c, v) && !Contains(s, v)
    ensures Terms(AddressForm(s)) <= 1 + |holes|
  {
    hide Aligned, Covers, DomainMax, SetToPrefixes, EnclosingLength, Canonical, Shr, Contains, IsEmpty, AddressForm,
      Terms, Prefix;
    EnclosingIsSmallest(s, c);
    MembersInBlock(s);
    FirstRange(s);
    var lo, len := s.ranges[0].0, EnclosingLength(s);
    var gaps := Difference(Prefix(32, lo, len), s);
    if IsEmpty(gaps) {
      WholeBlock(s, lo, len);
    } else {
      var inner := set d | d in holes && Covers(32, Cidr(lo, len), d.base);
      forall v: nat
        ensures Covered(32, inner, v) <==> Contains(gaps, v)
      {
        InnerHoles(s, c, holes, lo, len, inner, v);
      }
      SetToPrefixesMinimal(gaps, inner);
      SubsetSize(inner, holes);
    }
    ChosenTerms(s);
  }

  /** The form chosen has the smaller count of the two. */
  lemma ChosenTerms(s: Addresses)
    requires !IsEmpty(s)
    ensures s.ranges[0].0 <= DomainMax(32)
    ensures var gaps := Difference(Prefix(32, s.ranges[0].0, EnclosingLength(s)), s);
      Terms(AddressForm(s)) == if IsFull(s) then 1 else if IsEmpty(gaps) then |SetToPrefixes(s)|
        else Min(|SetToPrefixes(s)|, 1 + |SetToPrefixes(gaps)|)
  {
    HullInDomain(s);
    hide SetToPrefixes, LeadingZeros, BitXor, Canonical;
  }

  /** A set that fills its enclosing block is that one block. */
  lemma WholeBlock(s: Addresses, lo: nat, len: nat)
    requires len <= 32 && lo <= DomainMax(32)
    requires IsEmpty(Difference(Prefix(32, lo, len), s))
    requires forall v: nat :: Contains(s, v) ==> Covers(32, Cidr(lo, len), v)
    ensures |SetToPrefixes(s)| <= 1
  {
    hide Aligned, Canonical, Contains, Shr, Shl, Block, DomainMax, SetToPrefixes, IsEmpty, Difference, Prefix;
    var block := Cidr(Block(32, lo, len).0, len);
    BlockAligned(lo, len);
    forall v: nat
      ensures Covered(32, {block}, v) <==> Contains(s, v)
    {
      assert Covered(32, {block}, v) <==> Shr(v, 32 - len) == Shr(lo, 32 - len);
      if Shr(v, 32 - len) == Shr(lo, 32 - len) { NoGap(s, lo, len, v); }
    }
    SetToPrefixesMinimal(s, {block});
  }

  lemma NoGap(s: Addresses, lo: nat, len: nat, v: nat)
    requires len <= 32 && lo <= DomainMax(32) && IsEmpty(Difference(Prefix(32, lo, len), s))
    requires Shr(v, 32 - len) == Shr(lo, 32 - len)
    ensures Contains(s, v)
  {
    ShrInDomain(v, lo, 32 - len);
    FullAndEmpty(Difference(Prefix(32, lo, len), s));
    hide Canonical, Shr, DomainMax, Contains;
  }

  lemma FirstRange(s: Addresses)
    requires !IsEmpty(s)
    ensures s.ranges != []
  {
  }

  lemma MembersInBlock(s: Addresses)
    requires !IsEmpty(s)
    ensures Contains(s, s.ranges[0].0) && s.ranges[0].0 <= DomainMax(32)
    ensures forall v: nat :: Contains(s, v) ==> Covers(32, Cidr(s.ranges[0].0, EnclosingLength(s)), v)
  {
    HullInDomain(s);
    HullIsSmallest(s);
    hide Canonical, EnclosingLength, Contains, Shr, DomainMax;
    forall v: nat | Contains(s, v)
      ensures Covers(32, Cidr(s.ranges[0].0, EnclosingLength(s)), v)
    {
      EnclosingCovers(s, v);
    }
  }

  lemma BlockAligned(lo: nat, len: nat)
    requires len <= 32 && lo <= DomainMax(32)
    ensures var block := Cidr(Block(32, lo, len).0, len);
      Aligned(32, block) && Shr(block.base, 32 - len) == Shr(lo, 32 - len)
  {
    BlockBase(lo, len);
    DomainMaxBound(32);
    BlockSound(32, lo, len);
    Pow2Table();
    assert DomainMax(32) + 1 == Pow2(32);
    assert Prefix(32, lo, len).ranges[0] == Block(32, lo, len);
  }

  /** Addresses that share leading bits with one in the domain are in it. */
  lemma ShrInDomain(v: nat, lo: nat, n: nat)
    requires n <= 32 && lo <= DomainMax(32) && Shr(v, n) == Shr(lo, n)
    ensures v <= DomainMax(32)
  {
    Pow2Table();
    assert DomainMax(32) + 1 == Pow2(32);
    ShrCompose(v, n, 32 - n);
    ShrCompose(lo, n, 32 - n);
    ShrSmall(v, 32);
    ShrSmall(lo, 32);
  }

  /** Blocks of holes that meet the enclosing block lie inside it and cover its gaps. */
  lemma InnerHoles(s: Addresses, c: Cidr, holes: set<Cidr>, lo: nat, len: nat, inner: set<Cidr>, v: nat)
    requires Contains(s, lo) && lo <= DomainMax(32) && c.len <= len <= 32
    requires forall x: nat | Contains(s, x) :: Covers(32, c, x) && Covers(32, Cidr(lo, len), x)
    requires forall d | d in holes :: Aligned(32, d)
    requires forall x: nat :: Covered(32, holes, x) <==> x <= DomainMax(32) && Covers(32, c, x) && !Contains(s, x)
    requires inner == set d | d in holes && Covers(32, Cidr(lo, len), d.base)
    ensures Covered(32, inner, v) <==> Contains(Difference(Prefix(32, lo, len), s), v)
  {
    var block := Cidr(lo, len);
    assert Covers(32, block, v) <==> Shr(v, 32 - len) == Shr(lo, 32 - len);
    assert Covers(32, block, lo) && forall d | d in holes :: d.len <= 32 && Covers(32, d, d.base);
    hide Aligned, Canonical, Contains, Shr, Covers, DomainMax;
    assert !Covered(32, holes, lo);
    forall d | d in holes && Covers(32, d, v) && (Covers(32, block, v) || Covers(32, block, d.base))
      ensures Covers(32, block, v) && Covers(32, block, d.base)
    {
      var w := if Covers(32, block, v) then v else d.base;
      if d.len < len { Laminar(32, block, d, w, lo); }
      Laminar(32, d, block, w, v);
      Laminar(32, d, block, w, d.base);
    }
    if Covers(32, block, v) { Laminar(32, block, c, lo, v); }
  }
}
