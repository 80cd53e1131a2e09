/** Sets of packets as decision diagrams.

The program uses a library for reduced ordered binary decision diagrams. This
module gives the meaning of the operations it calls: a diagram is an ordered
decision tree without redundant tests, so that equality of diagrams is equality
of the sets they denote, and emptiness is a test of the root. */
module Diagram {
  import opened Arith

  /** Number of variables: the width of the header space. */
  const VARIABLES: nat := 120

  datatype Bdd = Leaf(value: bool) | Node(variable: nat, lo: Bdd, hi: Bdd)

  /** Ordered from variable `k` on, every test necessary. */
  predicate Reduced(b: Bdd, k: nat, n: nat) {
    match b
    case Leaf(_) => true
    case Node(v, lo, hi) => k <= v < n && lo != hi && Reduced(lo, v + 1, n) && Reduced(hi, v + 1, n)
  }

  type PacketSet = b: Bdd | Reduced(b, 0, VARIABLES) witness Leaf(false)

  /** One valuation of all variables. */
  type Point = p: seq<bool> | |p| == VARIABLES witness seq(VARIABLES, i => false)

  predicate Eval(b: Bdd, p: seq<bool>) {
    match b
    case Leaf(value) => value
    case Node(v, lo, hi) => if v < |p| && p[v] then Eval(hi, p) else Eval(lo, p)
  }

  /** `p` is a member of the set. */
  predicate Has(s: PacketSet, p: Point) {
    Eval(s, p)
  }

  predicate IsFalse(s: Bdd) { s == Leaf(false) }

  predicate IsTrue(s: Bdd) { s == Leaf(true) }

  // ------------------------------------------------------------- operations

  function Make(v: nat, lo: Bdd, hi: Bdd): Bdd {
    if lo == hi then lo else Node(v, lo, hi)
  }

  function Negate(b: Bdd): Bdd {
    match b
    case Leaf(value) => Leaf(!value)
    case Node(v, lo, hi) => Node(v, Negate(lo), Negate(hi))
  }

  /** The two halves of `b` on variable `v`, when `b` tests nothing before it. */
  function Half(b: Bdd, v: nat, side: bool): Bdd {
    if b.Node? && b.variable == v then (if side then b.hi else b.lo) else b
  }

  function TopVariable(a: Bdd, b: Bdd): nat
    requires a.Node? || b.Node?
  {
    if !a.Node? then b.variable
    else if !b.Node? then a.variable
    else Min(a.variable, b.variable)
  }

  function Conjoin(a: Bdd, b: Bdd): Bdd
    decreases a, b
  {
    if a == Leaf(false) || b == Leaf(false) then Leaf(false)
    else if a == Leaf(true) then b
    else if b == Leaf(true) then a
    else if a.variable < b.variable then Make(a.variable, Conjoin(a.lo, b), Conjoin(a.hi, b))
    else if b.variable < a.variable then Make(b.variable, Conjoin(a, b.lo), Conjoin(a, b.hi))
    else Make(a.variable, Conjoin(a.lo, b.lo), Conjoin(a.hi, b.hi))
  }

  /** Fix variable `v` to `side`. */
  function Cofactor(b: Bdd, v: nat, side: bool): Bdd {
    match b
    case Leaf(_) => b
    case Node(w, lo, hi) =>
      if w == v then (if side then hi else lo)
      else Make(w, Cofactor(lo, v, side), Cofactor(hi, v, side))
  }

  lemma {:induction false} ReducedWeaken(b: Bdd, j: nat, k: nat, n: nat)
    requires j <= k && Reduced(b, k, n)
    ensures Reduced(b, j, n)
  {
  }

  lemma MakeReduced(v: nat, lo: Bdd, hi: Bdd, k: nat, n: nat)
    requires k <= v < n && Reduced(lo, v + 1, n) && Reduced(hi, v + 1, n)
    ensures Reduced(Make(v, lo, hi), k, n)
  {
    ReducedWeaken(lo, k, v + 1, n);
  }

  lemma {:induction false} NegateSound(b: Bdd, k: nat, n: nat)
    requires Reduced(b, k, n)
    ensures Reduced(Negate(b), k, n)
    ensures Negate(Negate(b)) == b
    ensures forall p :: Eval(Negate(b), p) <==> !Eval(b, p)
  {
    if b.Node? {
      NegateSound(b.lo, b.variable + 1, n);
      NegateSound(b.hi, b.variable + 1, n);
    }
  }

  lemma {:induction false} ConjoinReduced(a: Bdd, b: Bdd, k: nat, n: nat)
    requires Reduced(a, k, n) && Reduced(b, k, n)
    ensures Reduced(Conjoin(a, b), k, n)
    decreases a, b
  {
    if a.Node? && b.Node? {
      if a.variable < b.variable {
        ConjoinReduced(a.lo, b, a.variable + 1, n);
        ConjoinReduced(a.hi, b, a.variable + 1, n);
        MakeReduced(a.variable, Conjoin(a.lo, b), Conjoin(a.hi, b), k, n);
      } else if b.variable < a.variable {
        ConjoinReduced(a, b.lo, b.variable + 1, n);
        ConjoinReduced(a, b.hi, b.variable + 1, n);
        MakeReduced(b.variable, Conjoin(a, b.lo), Conjoin(a, b.hi), k, n);
      } else {
        ConjoinReduced(a.lo, b.lo, a.variable + 1, n);
        ConjoinReduced(a.hi, b.hi, a.variable + 1, n);
        MakeReduced(a.variable, Conjoin(a.lo, b.lo), Conjoin(a.hi, b.hi), k, n);
      }
    }
  }

  lemma {:induction false} ConjoinEval(a: Bdd, b: Bdd, p: seq<bool>)
    ensures Eval(Conjoin(a, b), p) <==> Eval(a, p) && Eval(b, p)
    decreases a, b
  {
    if a.Node? && b.Node? {
      if a.variable < b.variable {
        ConjoinEval(a.lo, b, p);
        ConjoinEval(a.hi, b, p);
      } else if b.variable < a.variable {
        ConjoinEval(a, b.lo, p);
        ConjoinEval(a, b.hi, p);
      } else {
        ConjoinEval(a.lo, b.lo, p);
        ConjoinEval(a.hi, b.hi, p);
      }
    }
  }

  /** The points in both sets. */
  function Both(a: PacketSet, b: PacketSet): (s: PacketSet)
    ensures forall p: Point :: Has(s, p) <==> Has(a, p) && Has(b, p)
  {
    ConjoinReduced(a, b, 0, VARIABLES);
    assert forall p: Point :: Eval(Conjoin(a, b), p) <==> Eval(a, p) && Eval(b, p) by {
      forall p: Point { ConjoinEval(a, b, p); }
    }
    Conjoin(a, b)
  }

  method And(a: PacketSet, b: PacketSet) returns (s: PacketSet)
    ensures s == Both(a, b)
    ensures forall p: Point :: Has(s, p) <==> Has(a, p) && Has(b, p)
  {
    ConjoinReduced(a, b, 0, VARIABLES);
    s := Conjoin(a, b);
  }

  method Not(a: PacketSet) returns (s: PacketSet)
    ensures forall p: Point :: Has(s, p) <==> !Has(a, p)
  {
    NegateSound(a, 0, VARIABLES);
    s := Negate(a);
  }

  method Or(a: PacketSet, b: PacketSet) returns (s: PacketSet)
    ensures forall p: Point :: Has(s, p) <==> Has(a, p) || Has(b, p)
  {
    var x := Not(a);
    var y := Not(b);
    var z := And(x, y);
    s := Not(z);
  }

  method AndNot(a: PacketSet, b: PacketSet) returns (s: PacketSet)
    ensures forall p: Point :: Has(s, p) <==> Has(a, p) && !Has(b, p)
  {
    var y := Not(b);
    s := And(a, y);
  }

  function Constant(value: bool): (s: PacketSet)
    ensures forall p: Point :: Has(s, p) <==> value
  {
    Leaf(value)
  }

  lemma LiteralSound(v: nat, value: bool)
    requires v < VARIABLES
    ensures Reduced(Node(v, Leaf(!value), Leaf(value)), 0, VARIABLES)
    ensures forall p: Point :: Eval(Node(v, Leaf(!value), Leaf(value)), p) <==> p[v] == value
  {
    assert Reduced(Leaf(value), v + 1, VARIABLES) && Reduced(Leaf(!value), v + 1, VARIABLES);
    forall p: Point
      ensures Eval(Node(v, Leaf(!value), Leaf(value)), p) <==> p[v] == value
    {
      assert Eval(Leaf(value), p) == value && Eval(Leaf(!value), p) == !value;
    }
  }

  /** One literal: variable `v` has value `value`. */
  method Literal(v: nat, value: bool) returns (s: PacketSet)
    requires v < VARIABLES
    ensures forall p: Point :: Has(s, p) <==> p[v] == value
  {
    LiteralSound(v, value);
    s := Node(v, Leaf(!value), Leaf(value));
  }

  lemma {:induction false} CofactorReduced(b: Bdd, v: nat, side: bool, k: nat, n: nat)
    requires Reduced(b, k, n)
    ensures Reduced(Cofactor(b, v, side), k, n)
  {
    if b.Node? {
      if b.variable == v {
        ReducedWeaken(b.lo, k, v + 1, n);
        ReducedWeaken(b.hi, k, v + 1, n);
      } else {
        CofactorReduced(b.lo, v, side, b.variable + 1, n);
        CofactorReduced(b.hi, v, side, b.variable + 1, n);
        MakeReduced(b.variable, Cofactor(b.lo, v, side), Cofactor(b.hi, v, side), k, n);
      }
    }
  }

  lemma {:induction false} CofactorEval(b: Bdd, v: nat, side: bool, k: nat, n: nat, p: seq<bool>)
    requires Reduced(b, k, n) && |p| == n && v < n
    ensures Eval(Cofactor(b, v, side), p) <==> Eval(b, p[v := side])
  {
    if b.Node? {
      if b.variable == v {
        EvalIgnores(b.lo, v + 1, n, p, p[v := side]);
        EvalIgnores(b.hi, v + 1, n, p, p[v := side]);
      } else {
        CofactorEval(b.lo, v, side, b.variable + 1, n, p);
        CofactorEval(b.hi, v, side, b.variable + 1, n, p);
      }
    }
  }

  /** A diagram over variables from `k` on does not look at the earlier ones. */
  lemma {:induction false} EvalIgnores(b: Bdd, k: nat, n: nat, p: seq<bool>, q: seq<bool>)
    requires Reduced(b, k, n) && |p| == |q| == n
    requires forall i | k <= i < n :: p[i] == q[i]
    ensures Eval(b, p) <==> Eval(b, q)
  {
    if b.Node? {
      EvalIgnores(b.lo, b.variable + 1, n, p, q);
      EvalIgnores(b.hi, b.variable + 1, n, p, q);
    }
  }

  method Restrict(s: PacketSet, v: nat, side: bool) returns (r: PacketSet)
    requires v < VARIABLES
    ensures forall p: Point :: Has(r, p) <==> Has(s, p[v := side])
  {
    CofactorReduced(s, v, side, 0, VARIABLES);
    r := Cofactor(s, v, side);
    forall p: Point
      ensures Has(r, p) <==> Has(s, p[v := side])
    {
      CofactorEval(s, v, side, 0, VARIABLES, p);
    }
  }

  // -------------------------------------------------------------- canonicity

  /** Two different diagrams differ on some valuation. */
  lemma {:induction false} Distinguish(a: Bdd, b: Bdd, k: nat, n: nat) returns (p: seq<bool>)
    requires Reduced(a, k, n) && Reduced(b, k, n) && a != b
    ensures |p| == n && Eval(a, p) != Eval(b, p)
    decreases a, b
  {
    if !a.Node? && !b.Node? {
      p := seq(n, i => false);
    } else {
      var v := TopVariable(a, b);
      var side := Half(a, v, false) == Half(b, v, false);
      var q := DistinguishHalves(a, b, v, side, k, n);
      p := q[v := side];
      EvalIgnores(Half(a, v, side), v + 1, n, p, q);
      EvalIgnores(Half(b, v, side), v + 1, n, p, q);
    }
  }

  lemma {:induction false} DistinguishHalves(a: Bdd, b: Bdd, v: nat, side: bool, k: nat, n: nat) returns (p: seq<bool>)
    requires Reduced(a, k, n) && Reduced(b, k, n) && a != b
    requires (a.Node? || b.Node?) && v == TopVariable(a, b)
    requires side == (Half(a, v, false) == Half(b, v, false))
    ensures Reduced(Half(a, v, side), v + 1, n) && Reduced(Half(b, v, side), v + 1, n)
    ensures |p| == n && Eval(Half(a, v, side), p) != Eval(Half(b, v, side), p)
    decreases a, b, 0
  {
    p := Distinguish(Half(a, v, side), Half(b, v, side), v + 1, n);
  }

  lemma DifferentSets(a: PacketSet, b: PacketSet) returns (p: Point)
    requires a != b
    ensures Has(a, p) != Has(b, p)
  {
    p := Distinguish(a, b, 0, VARIABLES);
  }

  /** Equality of diagrams is equality of sets. */
  lemma SameSet(a: PacketSet, b: PacketSet)
    requires forall p: Point :: Has(a, p) <==> Has(b, p)
    ensures a == b
  {
    if a != b { var p := DifferentSets(a, b); }
  }

  lemma FalseIsEmpty(s: PacketSet)
    ensures IsFalse(s) <==> forall p: Point :: !Has(s, p)
    ensures IsTrue(s) <==> forall p: Point :: Has(s, p)
  {
    if forall p: Point :: !Has(s, p) { SameSet(s, Constant(false)); }
    if forall p: Point :: Has(s, p) { SameSet(s, Constant(true)); }
  }

  // ------------------------------------------------------------------ paths

  /** The tests along one path from the root to `true`. */
  type Cube = map<nat, bool>

  function Extend(cubes: seq<Cube>, v: nat, side: bool): seq<Cube> {
    if cubes == [] then [] else [cubes[0][v := side]] + Extend(cubes[1..], v, side)
  }

  /** All root-to-one paths. */
  function Paths(b: Bdd): seq<Cube> {
    match b
    case Leaf(value) => if value then [map[]] else []
    case Node(v, lo, hi) => Extend(Paths(lo), v, false) + Extend(Paths(hi), v, true)
  }

  ghost predicate AgreesWith(c: Cube, p: seq<bool>) {
    forall v | v in c :: v < |p| && p[v] == c[v]
  }

  /** How many of the cubes the point agrees with. */
  ghost function CubeHits(cubes: seq<Cube>, p: seq<bool>): nat {
    if cubes == [] then 0 else (if AgreesWith(cubes[0], p) then 1 else 0) + CubeHits(cubes[1..], p)
  }

  /** The cubes test only variables from `k` up to `n`. */
  ghost predicate CubesWithin(cubes: seq<Cube>, k: nat, n: nat) {
    forall i | 0 <= i < |cubes| :: forall v | v in cubes[i] :: k <= v < n
  }

  lemma {:induction false} CubeHitsAppend(a: seq<Cube>, b: seq<Cube>, p: seq<bool>)
    ensures CubeHits(a + b, p) == CubeHits(a, p) + CubeHits(b, p)
  {
    if a == [] {
      assert a + b == b;
    } else {
      assert (a + b)[1..] == a[1..] + b;
      CubeHitsAppend(a[1..], b, p);
    }
  }

  lemma {:induction false} ExtendHits(cubes: seq<Cube>, v: nat, side: bool, p: seq<bool>)
    requires CubesWithin(cubes, v + 1, |p|) && v < |p|
    ensures CubeHits(Extend(cubes, v, side), p) == if p[v] == side then CubeHits(cubes, p) else 0
    ensures CubesWithin(Extend(cubes, v, side), v, |p|)
  {
    if cubes != [] {
      ExtendHits(cubes[1..], v, side, p);
      var c := cubes[0];
      assert v !in c;
      assert AgreesWith(c[v := side], p) <==> p[v] == side && AgreesWith(c, p) by {
        if AgreesWith(c[v := side], p) { assert forall w | w in c :: c[v := side][w] == c[w]; }
      }
    }
  }

  /** Paths are mutually exclusive and together exactly the set: a member agrees with one path,
  a non-member with none. */
  lemma {:induction false} PathsExact(b: Bdd, k: nat, p: seq<bool>)
    requires Reduced(b, k, |p|)
    ensures CubeHits(Paths(b), p) == if Eval(b, p) then 1 else 0
    ensures CubesWithin(Paths(b), k, |p|)
  {
    match b
    case Leaf(value) =>
    case Node(v, lo, hi) =>
      PathsExact(lo, v + 1, p);
      PathsExact(hi, v + 1, p);
      ExtendHits(Paths(lo), v, false, p);
      ExtendHits(Paths(hi), v, true, p);
      CubeHitsAppend(Extend(Paths(lo), v, false), Extend(Paths(hi), v, true), p);
  }
}
