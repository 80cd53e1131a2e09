/** One concrete packet of a set. */
module Witness {
  import opened Wrappers
  import opened Arith
  import opened Rules
  import opened Diagram
  import opened Header
  import opened Cubes

  /** From node `cur` on, `p` and any point that agrees with it below `k` take the way of `s`. */
  ghost predicate OnTheWay(s: Bdd, cur: Bdd, p: Point, k: nat) {
    && k <= VARIABLES && Reduced(cur, k, VARIABLES) && cur != Leaf(false)
    && forall q: Point :: AgreeBelow(p, q, k) ==> (Eval(s, q) <==> Eval(cur, q))
  }

  ghost predicate AgreeBelow(p: Point, q: Point, k: nat) {
    forall i | 0 <= i < k && i < VARIABLES :: p[i] == q[i]
  }

  /** Walk to the `true` leaf, always into a branch that is not empty. */
  method SatWitness(s: PacketSet) returns (r: Option<Point>)
    ensures r.None? <==> forall p: Point :: !Has(s, p)
    ensures r.Some? ==> Has(s, r.value)
  {
    FalseIsEmpty(s);
    if IsFalse(s) {
      return None;
    }
    var cur, p := s, seq(VARIABLES, i => false);
    ghost var k: nat := 0;
    while cur.Node?
      invariant |p| == VARIABLES && OnTheWay(s, cur, p, k)
      decreases cur
    {
      if cur.lo != Leaf(false) {
        StepDown(s, cur, p, k, false);
        p := p[cur.variable := false];
        k := cur.variable + 1;
        cur := cur.lo;
      } else {
        StepDown(s, cur, p, k, true);
        p := p[cur.variable := true];
        k := cur.variable + 1;
        cur := cur.hi;
      }
    }
    assert AgreeBelow(p, p, k);
    r := Some(p);
  }

  lemma StepDown(s: Bdd, cur: Bdd, p: Point, k: nat, side: bool)
    requires cur.Node? && OnTheWay(s, cur, p, k) && (if side then cur.hi else cur.lo) != Leaf(false)
    ensures OnTheWay(s, if side then cur.hi else cur.lo, p[cur.variable := side], cur.variable + 1)
  {
    var v := cur.variable;
    forall q: Point | AgreeBelow(p[v := side], q, v + 1)
      ensures Eval(s, q) <==> Eval(if side then cur.hi else cur.lo, q)
    {
      assert AgreeBelow(p, q, k);
      assert q[v] == p[v := side][v];
    }
  }

  /** The value of one field of a point, bit by bit. */
  method ReadValue(l: Layout, p: Point, f: Field) returns (v: nat)
    requires l.Valid()
    ensures v == FieldValue(l, p, f)
  {
    hide Layout.Valid, HasFirstBits, BitOr;
    var w := f.Bits();
    v := 0;
    ghost var bits := FieldBits(l, p, f);
    FirstBitsStart(bits);
    for b := 0 to w
      invariant HasFirstBits(v, bits, b)
    {
      if p[l.Var(f, b)] {
        FirstBitsSet(v, bits, b);
        v := BitOr(v, Pow2(w - 1 - b));
      } else {
        FirstBitsSkip(v, bits, b);
      }
    }
    FirstBitsEnd(v, bits);
  }

  /** Extract one packet from a set; `None` exactly when the set is empty. */
  method PacketIn(l: Layout, s: PacketSet) returns (r: Option<Packet>)
    requires l.Valid()
    ensures r.None? <==> forall p: Point :: !Has(s, p)
    ensures r.Some? ==> r.value.InDomain() && Has(s, PointOf(l, r.value))
  {
    hide Layout.Valid, PointOf, FieldValue;
    var found := SatWitness(s);
    match found {
      case None => r := None;
      case Some(p) =>
        var src := ReadValue(l, p, SrcAddr);
        var dst := ReadValue(l, p, DstAddr);
        var sport := ReadValue(l, p, SrcPort);
        var dport := ReadValue(l, p, DstPort);
        var proto := ReadValue(l, p, Proto);
        var iif := ReadValue(l, p, IfIn);
        var oif := ReadValue(l, p, IfOut);
        var q := Packet(src, dst, sport, dport, proto, iif, oif);
        assert q == PacketAt(l, p);
        PacketInDomain(l, p);
        PointOfPacket(l, p);
        r := Some(q);
    }
  }
}
