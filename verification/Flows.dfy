/** Counting distinct flows: existential projection, exactly. */
module Flows {
  import opened Arith
  import opened Rules
  import opened Diagram
  import opened Header
  import opened Cardinality
  import opened Counting

  /** The dimensions a flow keeps. */
  const FLOW_DIMS: seq<Field> := [SrcAddr, DstAddr, DstPort, Proto]

  /** The dimensions whose value makes no new flow. */
  const QUANTIFIED_DIMS: seq<Field> := [SrcPort, IfIn, IfOut]

  /** What a flow is told apart by. */
  ghost function FlowKey(l: Layout, p: seq<bool>): seq<nat>
    requires l.Valid() && |p| == VARIABLES
  {
    seq(4, k requires 0 <= k < 4 => FieldValue(l, p, FLOW_DIMS[k]))
  }

  lemma MembersAreLong(s: PacketSet)
    ensures forall p | p in Members(s) :: |p| == VARIABLES
  {
    forall p | p in Members(s)
      ensures |p| == VARIABLES
    {
      AllPointsMember(VARIABLES, p);
    }
  }

  /** The distinct flows of a set. */
  ghost function FlowsOf(l: Layout, s: PacketSet): (flows: set<seq<nat>>)
    requires l.Valid()
    ensures forall key :: key in flows <==> exists p: Point :: Has(s, p) && FlowKey(l, p) == key
  {
    MembersAreLong(s);
    FlowsAre(l, s);
    set p | p in Members(s) :: FlowKey(l, p)
  }

  lemma FlowsAre(l: Layout, s: PacketSet)
    requires l.Valid() && forall p | p in Members(s) :: |p| == VARIABLES
    ensures var flows := set p | p in Members(s) :: FlowKey(l, p);
      forall key :: key in flows <==> exists p: Point :: Has(s, p) && FlowKey(l, p) == key
  {
    hide Layout.Valid, FlowKey;
    forall p: Point
      ensures p in Members(s) <==> Has(s, p)
    {
      AllPointsMember(VARIABLES, p);
    }
  }

  // ------------------------------------------------------------- projection

  /** The points agree on every variable not in `vars`. */
  ghost predicate AgreeOff(p: seq<bool>, q: seq<bool>, vars: set<nat>) {
    |p| == |q| && forall v: nat | v < |p| && v !in vars :: p[v] == q[v]
  }

  /** `p` is a member up to the values of `vars`. */
  ghost predicate Reaches(s: PacketSet, p: Point, vars: set<nat>) {
    exists q: Point :: Has(s, q) && AgreeOff(p, q, vars)
  }

  lemma ReachesNothing(s: PacketSet, p: Point)
    ensures Reaches(s, p, {}) <==> Has(s, p)
  {
    if Has(s, p) { assert AgreeOff(p, p, {}); }
    if q: Point :| Has(s, q) && AgreeOff(p, q, {}) { assert p == q; }
  }

  /** One more variable is quantified by the disjunction of the two cofactors. */
  lemma ReachesOneMore(s: PacketSet, p: Point, vars: set<nat>, v: nat)
    requires v < VARIABLES
    ensures Reaches(s, p, vars + {v}) <==> Reaches(s, p[v := true], vars) || Reaches(s, p[v := false], vars)
  {
    if q: Point :| Has(s, q) && AgreeOff(p, q, vars + {v}) {
      assert AgreeOff(p[v := q[v]], q, vars);
    }
    if q: Point :| Has(s, q) && AgreeOff(p[v := true], q, vars) {
      assert AgreeOff(p, q, vars + {v});
    }
    if q: Point :| Has(s, q) && AgreeOff(p[v := false], q, vars) {
      assert AgreeOff(p, q, vars + {v});
    }
  }

  /** The variables of the first `n` bits of a field. */
  ghost function VarsOf(l: Layout, f: Field, n: nat): set<nat>
    requires l.Valid() && n <= f.Bits()
  {
    if n == 0 then {} else VarsOf(l, f, n - 1) + {l.Var(f, n - 1)}
  }

  ghost function QuantifiedVars(l: Layout, k: nat): set<nat>
    requires l.Valid() && k <= 3
  {
    if k == 0 then {} else QuantifiedVars(l, k - 1) + VarsOf(l, QUANTIFIED_DIMS[k - 1], QUANTIFIED_DIMS[k - 1].Bits())
  }

  /** Quantify one variable away. */
  method Quantify(s: PacketSet, v: nat, ghost base: PacketSet, ghost vars: set<nat>) returns (r: PacketSet)
    requires v < VARIABLES
    requires forall p: Point :: Has(s, p) <==> Reaches(base, p, vars)
    ensures forall p: Point :: Has(r, p) <==> Reaches(base, p, vars + {v})
  {
    hide Reaches;
    var on := Restrict(s, v, true);
    var off := Restrict(s, v, false);
    r := Or(on, off);
    forall p: Point
      ensures Has(r, p) <==> Reaches(base, p, vars + {v})
    {
      ReachesOneMore(base, p, vars, v);
    }
  }

  /** Quantify a whole field away. */
  method QuantifyField(l: Layout, s: PacketSet, f: Field, ghost base: PacketSet, ghost vars: set<nat>)
    returns (r: PacketSet)
    requires l.Valid()
    requires forall p: Point :: Has(s, p) <==> Reaches(base, p, vars)
    ensures forall p: Point :: Has(r, p) <==> Reaches(base, p, vars + VarsOf(l, f, f.Bits()))
  {
    hide Reaches, Layout.Valid;
    r := s;
    assert vars + VarsOf(l, f, 0) == vars;
    for b := 0 to f.Bits()
      invariant forall p: Point :: Has(r, p) <==> Reaches(base, p, vars + VarsOf(l, f, b))
    {
      var v := l.Var(f, b);
      r := Quantify(r, v, base, vars + VarsOf(l, f, b));
      assert vars + VarsOf(l, f, b) + {v} == vars + VarsOf(l, f, b + 1);
    }
  }

  // --------------------------------------------------------------- counting

  /** The members whose variables in `vars` are all false. */
  ghost function Cleared(t: set<seq<bool>>, vars: set<nat>): set<seq<bool>> {
    set p | p in t && ClearOn(p, vars)
  }

  ghost predicate ClearOn(p: seq<bool>, vars: set<nat>) {
    forall v | v in vars && v < |p| :: !p[v]
  }

  /** Flipping a variable never leaves the set. */
  ghost predicate Ignores(t: set<seq<bool>>, v: nat, n: nat) {
    forall p | p in t :: |p| == n && v < n && p[v := true] in t && p[v := false] in t
  }

  lemma IgnoredHalf(t: set<seq<bool>>, v: nat, n: nat)
    requires Ignores(t, v, n)
    ensures |t| == 2 * |Cleared(t, {v})|
  {
    hide Cleared, Ignores, ClearOn;
    var off := Cleared(t, {v});
    HalfMember(t, v, n);
    HalvesPair(t, v, n);
    InjectiveSize(off, t - off, map p | p in off :: p[v := true]);
    HalvesJoin(t, off);
  }

  lemma HalvesJoin(t: set<seq<bool>>, off: set<seq<bool>>)
    requires off <= t
    ensures |t| == |off| + |t - off|
  {
    assert t == off + (t - off);
  }

  /** Setting the variable pairs the points where it is clear with those where it is set. */
  lemma HalvesPair(t: set<seq<bool>>, v: nat, n: nat)
    requires Ignores(t, v, n) && forall p | p in Cleared(t, {v}) :: |p| == n && v < n
    ensures var off := Cleared(t, {v}); var f := map p | p in off :: p[v := true];
      && (forall q :: q in t - off <==> exists p :: p in off && f[p] == q)
      && (forall a, b | a in off && b in off && f[a] == f[b] :: a == b)
  {
    hide Cleared, Ignores, ClearOn;
    var off := Cleared(t, {v});
    var on := t - off;
    HalfMember(t, v, n);
    var f := map p | p in off :: p[v := true];
    forall q
      ensures q in on <==> exists p :: p in off && f[p] == q
    {
      if q in on {
        OtherHalf(t, v, n, q);
        assert f[q[v := false]] == q;
      }
      if p :| p in off && f[p] == q { OtherHalf(t, v, n, p); }
    }
    forall a, b | a in off && b in off && f[a] == f[b]
      ensures a == b
    {
      OtherHalf(t, v, n, a);
      OtherHalf(t, v, n, b);
    }
  }

  lemma HalfMember(t: set<seq<bool>>, v: nat, n: nat)
    requires Ignores(t, v, n)
    ensures forall p :: p in Cleared(t, {v}) <==> p in t && |p| == n && v < n && !p[v]
  {
  }

  lemma OtherHalf(t: set<seq<bool>>, v: nat, n: nat, p: seq<bool>)
    requires Ignores(t, v, n) && p in t
    ensures |p| == n && v < n
    ensures p in Cleared(t, {v}) ==> p[v := true] in t - Cleared(t, {v}) && p == p[v := true][v := false]
    ensures p !in Cleared(t, {v}) ==> p[v := false] in Cleared(t, {v}) && p == p[v := false][v := true]
  {
    HalfMember(t, v, n);
  }

  /** A set that ignores `k` variables is `2^k` copies of its members with those clear. */
  lemma {:induction false} IgnoredAll(t: set<seq<bool>>, vars: set<nat>, n: nat)
    requires forall v | v in vars :: Ignores(t, v, n)
    ensures |t| == Shl(|Cleared(t, vars)|, |vars|)
  {
    if vars == {} {
      assert Cleared(t, vars) == t;
    } else {
      var v :| v in vars;
      var half := Cleared(t, {v});
      IgnoredHalf(t, v, n);
      forall w | w in vars - {v}
        ensures Ignores(half, w, n)
      {
        HalfIgnores(t, v, w, n);
      }
      IgnoredAll(half, vars - {v}, n);
      ClearedTwice(t, vars, v);
    }
  }

  lemma HalfIgnores(t: set<seq<bool>>, v: nat, w: nat, n: nat)
    requires Ignores(t, v, n) && Ignores(t, w, n) && v != w
    ensures Ignores(Cleared(t, {v}), w, n)
  {
  }

  lemma ClearedTwice(t: set<seq<bool>>, vars: set<nat>, v: nat)
    requires v in vars
    ensures Cleared(Cleared(t, {v}), vars - {v}) == Cleared(t, vars)
  {
    forall p
      ensures ClearOn(p, vars) <==> ClearOn(p, {v}) && ClearOn(p, vars - {v})
    {
    }
  }

  lemma {:induction false} VarsMember(l: Layout, f: Field, n: nat, v: nat)
    requires l.Valid() && n <= f.Bits()
    ensures v in VarsOf(l, f, n) <==> v < VARIABLES && l.sequence[v].0 == f && l.sequence[v].1 < n
  {
    if n > 0 { VarsMember(l, f, n - 1, v); }
  }

  lemma {:induction false} VarsCount(l: Layout, f: Field, n: nat)
    requires l.Valid() && n <= f.Bits()
    ensures |VarsOf(l, f, n)| == n
  {
    if n > 0 {
      VarsCount(l, f, n - 1);
      VarsMember(l, f, n - 1, l.Var(f, n - 1));
    }
  }

  lemma {:induction false} QuantifiedMember(l: Layout, k: nat, v: nat)
    requires l.Valid() && k <= 3
    ensures v in QuantifiedVars(l, k) <==> v < VARIABLES && l.sequence[v].0 in QUANTIFIED_DIMS[..k]
  {
    if k > 0 {
      QuantifiedMember(l, k - 1, v);
      var f := QUANTIFIED_DIMS[k - 1];
      VarsMember(l, f, f.Bits(), v);
      assert QUANTIFIED_DIMS[..k] == QUANTIFIED_DIMS[..k - 1] + [f];
    }
  }

  /** Number of bits of the first `k` quantified dimensions. */
  function QuantifiedBits(k: nat): nat
    requires k <= 3
  {
    if k == 0 then 0 else QuantifiedBits(k - 1) + QUANTIFIED_DIMS[k - 1].Bits()
  }

  lemma DistinctDims(k: nat)
    requires 0 < k <= 3
    ensures QUANTIFIED_DIMS[k - 1] !in QUANTIFIED_DIMS[..k - 1]
  {
  }

  lemma {:induction false} QuantifiedCount(l: Layout, k: nat)
    requires l.Valid() && k <= 3
    ensures |QuantifiedVars(l, k)| == QuantifiedBits(k)
  {
    if k > 0 {
      hide Layout.Valid, VarsOf;
      QuantifiedCount(l, k - 1);
      var f := QUANTIFIED_DIMS[k - 1];
      DistinctDims(k);
      VarsCount(l, f, f.Bits());
      forall v: nat | v in QuantifiedVars(l, k - 1)
        ensures v !in VarsOf(l, f, f.Bits())
      {
        QuantifiedMember(l, k - 1, v);
        VarsMember(l, f, f.Bits(), v);
      }
      assert QuantifiedVars(l, k - 1) !! VarsOf(l, f, f.Bits());
    }
  }

  lemma QuantifiedWidth()
    ensures QuantifiedBits(3) == 32
  {
  }

  // ------------------------------------------------------------- flow count

  /** Points that agree off the quantified variables have the same flow, and back. */
  lemma SameFlow(l: Layout, p: Point, q: Point)
    requires l.Valid()
    ensures AgreeOff(p, q, QuantifiedVars(l, 3)) <==> FlowKey(l, p) == FlowKey(l, q)
  {
    if AgreeOff(p, q, QuantifiedVars(l, 3)) {
      forall k | 0 <= k < 4
        ensures FlowKey(l, p)[k] == FlowKey(l, q)[k]
      {
        SameFieldBits(l, p, q, FLOW_DIMS[k]);
      }
    }
    if FlowKey(l, p) == FlowKey(l, q) {
      forall v: nat | v < VARIABLES && v !in QuantifiedVars(l, 3)
        ensures p[v] == q[v]
      {
        KeptVariable(l, p, q, v);
      }
    }
  }

  lemma SameFieldBits(l: Layout, p: Point, q: Point, f: Field)
    requires l.Valid() && AgreeOff(p, q, QuantifiedVars(l, 3)) && f in FLOW_DIMS
    ensures FieldValue(l, p, f) == FieldValue(l, q, f)
  {
    forall b: nat | b < f.Bits()
      ensures p[l.Var(f, b)] == q[l.Var(f, b)]
    {
      QuantifiedMember(l, 3, l.Var(f, b));
    }
    assert FieldBits(l, p, f) == FieldBits(l, q, f);
  }

  /** The two lists split the header. */
  lemma KeptOrQuantified(f: Field)
    ensures f in FLOW_DIMS <==> f !in QUANTIFIED_DIMS
    ensures QUANTIFIED_DIMS[..3] == QUANTIFIED_DIMS
  {
    assert FLOW_DIMS[0] == SrcAddr && FLOW_DIMS[1] == DstAddr && FLOW_DIMS[2] == DstPort && FLOW_DIMS[3] == Proto;
    assert QUANTIFIED_DIMS[0] == SrcPort && QUANTIFIED_DIMS[1] == IfIn && QUANTIFIED_DIMS[2] == IfOut;
  }

  lemma KeptVariable(l: Layout, p: Point, q: Point, v: nat)
    requires l.Valid() && FlowKey(l, p) == FlowKey(l, q) && v < VARIABLES && v !in QuantifiedVars(l, 3)
    ensures p[v] == q[v]
  {
    var (f, b) := l.sequence[v];
    QuantifiedMember(l, 3, v);
    KeptOrQuantified(f);
    var k :| 0 <= k < 4 && FLOW_DIMS[k] == f;
    assert FlowKey(l, p)[k] == FlowKey(l, q)[k];
    NumberBits(FieldBits(l, p, f), b);
    NumberBits(FieldBits(l, q, f), b);
  }

  ghost predicate Projects(l: Layout, projected: PacketSet, s: PacketSet)
    requires l.Valid()
  {
    forall p: Point :: Has(projected, p) <==> Reaches(s, p, QuantifiedVars(l, 3))
  }

  lemma ProjectionStep(l: Layout, projected: PacketSet, s: PacketSet, v: nat, p: Point, side: bool)
    requires l.Valid() && Projects(l, projected, s) && v in QuantifiedVars(l, 3) && v < VARIABLES && Has(projected, p)
    ensures p[v := side] in Members(projected)
  {
    hide Layout.Valid, QuantifiedVars;
    var vars := QuantifiedVars(l, 3);
    assert Reaches(s, p, vars);
    var q: Point :| Has(s, q) && AgreeOff(p, q, vars);
    assert AgreeOff(p[v := side], q, vars);
    assert Has(projected, p[v := side]);
    AllPointsMember(VARIABLES, p[v := side]);
  }

  lemma ProjectionIgnores(l: Layout, projected: PacketSet, s: PacketSet, v: nat)
    requires l.Valid() && Projects(l, projected, s) && v in QuantifiedVars(l, 3)
    ensures Ignores(Members(projected), v, VARIABLES)
  {
    hide Layout.Valid, QuantifiedVars, Projects, AllPoints;
    QuantifiedMember(l, 3, v);
    MembersAreLong(projected);
    forall p | p in Members(projected)
      ensures |p| == VARIABLES && v < VARIABLES && p[v := true] in Members(projected)
        && p[v := false] in Members(projected)
    {
      ProjectionStep(l, projected, s, v, p, true);
      ProjectionStep(l, projected, s, v, p, false);
    }
  }

  lemma KeyOfMember(l: Layout, projected: PacketSet, s: PacketSet, p: Point)
    requires l.Valid() && Projects(l, projected, s) && Has(projected, p)
    ensures FlowKey(l, p) in FlowsOf(l, s)
  {
    hide Layout.Valid, QuantifiedVars, FlowKey, AgreeOff;
    assert Reaches(s, p, QuantifiedVars(l, 3));
    var q: Point :| Has(s, q) && AgreeOff(p, q, QuantifiedVars(l, 3));
    SameFlow(l, p, q);
  }

  lemma MemberWithKey(l: Layout, projected: PacketSet, s: PacketSet, key: seq<nat>) returns (p: Point)
    requires l.Valid() && Projects(l, projected, s) && key in FlowsOf(l, s)
    ensures p in Cleared(Members(projected), QuantifiedVars(l, 3)) && FlowKey(l, p) == key
  {
    hide Layout.Valid, QuantifiedVars, FlowKey;
    var q: Point :| Has(s, q) && FlowKey(l, q) == key;
    var vars := QuantifiedVars(l, 3);
    p := seq(VARIABLES, i requires 0 <= i < VARIABLES => i !in vars && q[i]);
    assert AgreeOff(p, q, vars);
    SameFlow(l, p, q);
    assert Reaches(s, p, vars);
    assert Has(projected, p);
    AllPointsMember(VARIABLES, p);
    assert ClearOn(p, vars);
  }

  lemma ClearedKeysDiffer(l: Layout, p: Point, q: Point)
    requires l.Valid() && FlowKey(l, p) == FlowKey(l, q)
    requires ClearOn(p, QuantifiedVars(l, 3)) && ClearOn(q, QuantifiedVars(l, 3))
    ensures p == q
  {
    hide Layout.Valid, QuantifiedVars, FlowKey;
    SameFlow(l, p, q);
    forall v: nat | v < VARIABLES
      ensures p[v] == q[v]
    {
      if v !in QuantifiedVars(l, 3) { assert p[v] == q[v]; }
    }
  }

  ghost function KeyMap(l: Layout, points: set<seq<bool>>): (f: map<seq<bool>, seq<nat>>)
    requires l.Valid() && forall p | p in points :: |p| == VARIABLES
    ensures f.Keys == points
  {
    map p | p in points :: FlowKey(l, p)
  }

  /** The members of the projection with the quantified bits clear are the flows, one to one. */
  lemma ClearedAreFlows(l: Layout, projected: PacketSet, s: PacketSet)
    requires l.Valid() && Projects(l, projected, s)
    ensures |Cleared(Members(projected), QuantifiedVars(l, 3))| == |FlowsOf(l, s)|
  {
    hide *;
    var points := Cleared(Members(projected), QuantifiedVars(l, 3));
    ClearedMembers(projected, QuantifiedVars(l, 3));
    forall key { KeyMapImage(l, projected, s, points, key); }
    KeyMapInjective(l, points);
    InjectiveSize(points, FlowsOf(l, s), KeyMap(l, points));
  }

  lemma KeyMapImage(l: Layout, projected: PacketSet, s: PacketSet, points: set<seq<bool>>, key: seq<nat>)
    requires l.Valid() && Projects(l, projected, s)
    requires forall p | p in points :: |p| == VARIABLES && Eval(projected, p)
    requires points == Cleared(Members(projected), QuantifiedVars(l, 3))
    ensures key in FlowsOf(l, s) <==> exists p :: p in points && KeyMap(l, points)[p] == key
  {
    hide Layout.Valid, QuantifiedVars, FlowKey, Members, Projects, Cleared, FlowsOf, Eval;
    var f := KeyMap(l, points);
    if key in FlowsOf(l, s) {
      var p := MemberWithKey(l, projected, s, key);
      assert f[p] == key;
    }
    if p :| p in points && f[p] == key { KeyOfMember(l, projected, s, p); }
  }

  lemma KeyMapInjective(l: Layout, points: set<seq<bool>>)
    requires l.Valid()
    requires forall p | p in points :: |p| == VARIABLES && ClearOn(p, QuantifiedVars(l, 3))
    ensures var f := KeyMap(l, points);
      f.Keys == points && forall p, q | p in points && q in points && f[p] == f[q] :: p == q
  {
    hide Layout.Valid, QuantifiedVars, FlowKey, ClearOn;
    var f := KeyMap(l, points);
    forall p, q | p in points && q in points && f[p] == f[q]
      ensures p == q
    {
      ClearedKeysDiffer(l, p, q);
    }
  }

  lemma ClearedMembers(s: PacketSet, vars: set<nat>)
    ensures forall p | p in Cleared(Members(s), vars) :: |p| == VARIABLES && Eval(s, p) && ClearOn(p, vars)
  {
    MembersAreLong(s);
  }

  /** The projection holds every flow exactly `2^32` times. */
  lemma ProjectionSize(l: Layout, projected: PacketSet, s: PacketSet)
    requires l.Valid() && Projects(l, projected, s)
    ensures ExactCardinality(projected) == Shl(|FlowsOf(l, s)|, 32)
  {
    hide Layout.Valid, QuantifiedVars, Members, Projects, Models, Ignores, Cleared;
    CardinalityIsSize(projected);
    var vars := QuantifiedVars(l, 3);
    forall v | v in vars { ProjectionIgnores(l, projected, s, v); }
    IgnoredAll(Members(projected), vars, VARIABLES);
    QuantifiedCount(l, 3);
    QuantifiedWidth();
    ClearedAreFlows(l, projected, s);
  }

  /** Count the distinct flows of a set. The final shift drops no set bit. */
  method FlowCount(l: Layout, s: PacketSet) returns (n: nat)
    requires l.Valid()
    ensures n == |FlowsOf(l, s)|
  {
    hide Layout.Valid, Reaches, VarsOf, FlowsOf, Models;
    var projected, quantifiedBits := s, 0;
    forall p: Point { ReachesNothing(s, p); }
    for k := 0 to 3
      invariant quantifiedBits == QuantifiedBits(k)
      invariant forall p: Point :: Has(projected, p) <==> Reaches(s, p, QuantifiedVars(l, k))
    {
      var f := QUANTIFIED_DIMS[k];
      quantifiedBits := quantifiedBits + f.Bits();
      projected := QuantifyField(l, projected, f, s, QuantifiedVars(l, k));
    }
    QuantifiedWidth();
    ProjectionSize(l, projected, s);
    n := Shr(ExactCardinality(projected), quantifiedBits);
    ShrBlock(|FlowsOf(l, s)|, 32, ExactCardinality(projected));
  }
}
