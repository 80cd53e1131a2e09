/** What the explanation of a shadowed rule does and does not say. */
module Explanation {
  import opened Arith
  import opened Sorting
  import opened Intervals
  import opened Rules
  import opened Diagram
  import opened Header
  import opened Accept

  /** No fewer than `k` of the first rules cover the target, and `k` do. */
  ghost predicate ShortestPrefix(m: ChainModel, target: PacketSet, k: nat) {
    PrefixCovers(m, target, k) && forall i: nat | i < k :: !PrefixCovers(m, target, i)
  }

  /** Some rule named, and before rule `number`, matches the packet. */
  ghost predicate NamedMatches(m: ChainModel, number: nat, out: seq<nat>, p: Point) {
    exists n: nat :: n in out && 1 <= n < number <= |m.rules| && Has(m.rules[n - 1].matched, p)
  }

  /** The rules named for a shadowed rule all come before it and together match all it matches. */
  lemma ShadowExplained(m: ChainModel, l: Layout, syms: SymbolTable, chain: Chain, number: nat, out: seq<nat>, p: Point)
    requires l.Valid() && ModelOf(m, l, syms, chain)
    requires 1 <= number <= |m.rules| && m.rules[number - 1].shadowed && Explained(m, number, out)
    ensures forall n | n in out :: 1 <= n < number
    ensures Has(m.rules[number - 1].matched, p) ==> NamedMatches(m, number, out, p)
  {
    hide ModelOf, Layout.Valid, PrefixCovers, Explained, NamedMatches, Has;
    ShadowedIffCovered(m, l, syms, chain, number - 1);
    NamedBefore(m, number, out);
    if Has(m.rules[number - 1].matched, p) { NamedCover(m, number, out, p); }
  }

  lemma NamedBefore(m: ChainModel, number: nat, out: seq<nat>)
    requires 1 <= number <= |m.rules| && Explained(m, number, out)
    ensures forall n | n in out :: 1 <= n < number
  {
    hide PrefixCovers, Overlaps, CoversAlone, IsFalse;
  }

  lemma NamedCover(m: ChainModel, number: nat, out: seq<nat>, p: Point)
    requires 1 <= number <= |m.rules| && Explained(m, number, out)
    requires PrefixCovers(m, m.rules[number - 1].matched, number - 1)
    requires Has(m.rules[number - 1].matched, p)
    ensures NamedMatches(m, number, out, p)
  {
    var target := m.rules[number - 1].matched;
    FalseIsEmpty(target);
    hide PrefixCovers, Contributors;
    if j: nat :| j < number - 1 && out == [j + 1] && CoversAlone(m, target, j) {
      assert j + 1 in out;
    } else {
      var k: nat :| k <= number - 1 && Contributors(m, target, k, out)
        && (PrefixCovers(m, target, k) || k == number - 1);
      ExplanationCovers(m, target, k, out, p);
    }
  }

  /** Some rule below `k`, counting from 0, covers the target on its own. */
  ghost predicate AloneBelow(m: ChainModel, target: PacketSet, k: nat) {
    exists j: nat :: j < k && CoversAlone(m, target, j)
  }

  /** The explanation stays inside the shortest covering prefix exactly when some rule of that
  prefix covers the target alone, or none before the explained rule does. */
  lemma InShortestPrefixExactly(m: ChainModel, number: nat, out: seq<nat>, k: nat)
    requires 1 <= number <= |m.rules| && Explained(m, number, out)
    requires !IsFalse(m.rules[number - 1].matched) && k < number && ShortestPrefix(m, m.rules[number - 1].matched, k)
    ensures (forall n | n in out :: n <= k) <==>
      AloneBelow(m, m.rules[number - 1].matched, k) || !AloneBelow(m, m.rules[number - 1].matched, number - 1)
  {
    hide PrefixCovers, CoversAlone, Overlaps;
    var target := m.rules[number - 1].matched;
    if j: nat :| j < number - 1 && out == [j + 1] && CoversAlone(m, target, j)
                 && forall i: nat | i < j :: !CoversAlone(m, target, i) {
      assert j + 1 in out;
    } else {
      var c: nat :| c <= number - 1 && Contributors(m, target, c, out)
        && (forall i: nat | i < number - 1 :: !CoversAlone(m, target, i))
        && (forall i: nat | i < c :: !PrefixCovers(m, target, i)) && (PrefixCovers(m, target, c) || c == number - 1);
      assert c <= k;
    }
  }

  /** A rule has one explanation. */
  lemma ExplainedUnique(m: ChainModel, number: nat, x: seq<nat>, y: seq<nat>)
    requires Explained(m, number, x) && Explained(m, number, y)
    ensures x == y
  {
    hide PrefixCovers, CoversAlone, Overlaps, IsFalse;
    if 1 <= number <= |m.rules| && !IsFalse(m.rules[number - 1].matched) {
      var target := m.rules[number - 1].matched;
      if AloneBelow(m, target, number - 1) {
        var j: nat :| j < number - 1 && CoversAlone(m, target, j);
        assert x != [] && y != [];
      } else {
        var a: nat :| a <= number - 1 && Contributors(m, target, a, x)
          && (forall i: nat | i < a :: !PrefixCovers(m, target, i)) && (PrefixCovers(m, target, a) || a == number - 1);
        var b: nat :| b <= number - 1 && Contributors(m, target, b, y)
          && (forall i: nat | i < b :: !PrefixCovers(m, target, i)) && (PrefixCovers(m, target, b) || b == number - 1);
        assert a == b;
        SameIncreasing(x, y, (n: nat) => n);
      }
    }
  }

  // --------------------------------------------------------- a concrete chain

  const HALF: nat := 0x8000_0000

  function LowHalf(): Match { Constrain(AnyMatch(), SrcAddr, Span(32, 0, HALF - 1)) }

  function HighHalf(): Match { Constrain(AnyMatch(), SrcAddr, Span(32, HALF, 0xFFFF_FFFF)) }

  /** Two halves, then two rules for everything. The fourth is shadowed by the first two. */
  function FourRules(): Chain {
    Chain("input", Input, Drop, [
      Rule(1, LowHalf(), Accept), Rule(2, HighHalf(), Accept), Rule(3, AnyMatch(), Accept),
      Rule(4, AnyMatch(), Accept)])
  }

  lemma Halves(syms: SymbolTable, q: Packet)
    requires q.InDomain()
    ensures Matches(AnyMatch(), syms, q)
    ensures Matches(LowHalf(), syms, q) <==> q.src < HALF
    ensures Matches(HighHalf(), syms, q) <==> q.src >= HALF
  {
    hide Contains, Canonical, Matches, AnyMatch, Constrain;
    AnyMatches(syms, q);
    ConstrainedMatches(AnyMatch(), SrcAddr, Span(32, 0, HALF - 1), syms, q);
    ConstrainedMatches(AnyMatch(), SrcAddr, Span(32, HALF, 0xFFFF_FFFF), syms, q);
    assert q.Get(SrcAddr) == q.src <= DomainMax(32);
    WholeAddress();
  }

  lemma WholeAddress()
    ensures DomainMax(32) == 0xFFFF_FFFF
  {
    Pow2Table();
  }

  ghost predicate ModelOfFour(m: ChainModel, l: Layout, syms: SymbolTable)
    requires l.Valid()
  {
    ModelOf(m, l, syms, FourRules())
  }

  lemma MatchedAt(m: ChainModel, l: Layout, syms: SymbolTable, i: nat, p: Point)
    requires l.Valid() && ModelOfFour(m, l, syms) && i < 4
    ensures |m.rules| == |FourRules().rules| == 4
    ensures Has(m.rules[i].matched, p) <==> Matches(FourRules().rules[i].matches, syms, PacketAt(l, p))
  {
    hide LowHalf, HighHalf, AnyMatch, Matches, Layout.Valid, PacketAt, Reduced, Eval, Has, Canonical, WellSized;
    assert RuleModelOf(m.rules[i], l, syms, FourRules().rules, i);
  }

  lemma FourMatch(m: ChainModel, l: Layout, syms: SymbolTable, p: Point)
    requires l.Valid() && ModelOfFour(m, l, syms)
    ensures |m.rules| == 4
    ensures Has(m.rules[0].matched, p) <==> PacketAt(l, p).src < HALF
    ensures Has(m.rules[1].matched, p) <==> PacketAt(l, p).src >= HALF
    ensures Has(m.rules[2].matched, p) && Has(m.rules[3].matched, p)
  {
    hide ModelOfFour, ModelOf, LowHalf, HighHalf, AnyMatch, Matches, Layout.Valid, PacketAt, Reduced, Eval, Has,
      Canonical, WellSized;
    PacketInDomain(l, p);
    Halves(syms, PacketAt(l, p));
    assert FourRules().rules[0].matches == LowHalf() && FourRules().rules[1].matches == HighHalf();
    assert FourRules().rules[2].matches == AnyMatch() && FourRules().rules[3].matches == AnyMatch();
    MatchedAt(m, l, syms, 0, p);
    MatchedAt(m, l, syms, 1, p);
    MatchedAt(m, l, syms, 2, p);
    MatchedAt(m, l, syms, 3, p);
    hide FourRules;
  }

  lemma PointWithSource(l: Layout, v: nat) returns (p: Point)
    requires l.Valid() && v <= 0xFFFF_FFFF
    ensures PacketAt(l, p).src == v
  {
    hide Layout.Valid;
    var q := Packet(v, 0, 0, 0, 0, 0, 0);
    Pow2Table();
    assert DomainMax(32) == 0xFFFF_FFFF;
    hide DomainMax;
    forall f: Field
      ensures q.Get(f) <= DomainMax(f.Bits())
    {
    }
    p := PointOf(l, q);
    PacketOfPoint(l, q);
  }

  ghost predicate MatchesOfFour(m: ChainModel, l: Layout)
    requires l.Valid()
  {
    && |m.rules| == 4
    && forall p: Point ::
         && (Has(m.rules[0].matched, p) <==> PacketAt(l, p).src < HALF)
         && (Has(m.rules[1].matched, p) <==> PacketAt(l, p).src >= HALF)
         && Has(m.rules[2].matched, p) && Has(m.rules[3].matched, p)
  }

  lemma FourMatches(m: ChainModel, l: Layout, syms: SymbolTable)
    requires l.Valid() && ModelOfFour(m, l, syms)
    ensures MatchesOfFour(m, l)
  {
    hide ModelOfFour, Layout.Valid, PacketAt, Has;
    FourMatch(m, l, syms, seq(VARIABLES, _ => false));
    forall p: Point {
      FourMatch(m, l, syms, p);
    }
  }

  lemma FourLength(m: ChainModel, l: Layout)
    requires l.Valid() && MatchesOfFour(m, l)
    ensures |m.rules| == 4
  {
    hide Has, Layout.Valid, PacketAt;
  }

  /** The first rule that covers the target alone is the whole answer. */
  lemma FirstAlone(m: ChainModel, number: nat, out: seq<nat>, j: nat)
    requires 1 <= number <= |m.rules| && Explained(m, number, out) && !IsFalse(m.rules[number - 1].matched)
    requires j < number - 1 && CoversAlone(m, m.rules[number - 1].matched, j)
    requires !AloneBelow(m, m.rules[number - 1].matched, j)
    ensures out == [j + 1]
  {
    hide CoversAlone, PrefixCovers, Contributors, IsFalse;
  }

  lemma FourCovers(m: ChainModel, l: Layout)
    requires l.Valid() && MatchesOfFour(m, l)
    ensures var target := m.rules[3].matched;
      && ShortestPrefix(m, target, 2) && !IsFalse(target)
      && !AloneBelow(m, target, 2) && CoversAlone(m, target, 2)
  {
    hide Layout.Valid, PacketAt, Has, MatchesOfFour, PrefixCovers, CoversAlone, IsFalse;
    FourLength(m, l);
    FourPrefix(m, l);
    FourAlone(m, l);
  }

  lemma FourPrefix(m: ChainModel, l: Layout)
    requires l.Valid() && MatchesOfFour(m, l)
    ensures var target := m.rules[3].matched;
      PrefixCovers(m, target, 2) && !PrefixCovers(m, target, 1) && !PrefixCovers(m, target, 0) && !IsFalse(target)
  {
    var high := PointWithSource(l, HALF);
    hide Layout.Valid, PacketAt;
    FalseIsEmpty(m.rules[3].matched);
    hide Has;
    forall p: Point
      ensures MatchedBefore(m, 2, p)
    {
      assert Has(m.rules[0].matched, p) || Has(m.rules[1].matched, p);
    }
    assert !MatchedBefore(m, 1, high) && !MatchedBefore(m, 0, high);
  }

  lemma FourAlone(m: ChainModel, l: Layout)
    requires l.Valid() && MatchesOfFour(m, l)
    ensures var target := m.rules[3].matched;
      !CoversAlone(m, target, 0) && !CoversAlone(m, target, 1) && CoversAlone(m, target, 2)
  {
    var low := PointWithSource(l, 0);
    var high := PointWithSource(l, HALF);
    hide Layout.Valid, PacketAt, Has;
    assert Has(m.rules[3].matched, low) && !Has(m.rules[1].matched, low);
    assert Has(m.rules[3].matched, high) && !Has(m.rules[0].matched, high);
  }

  /** So it can leave that prefix: two rules cover the fourth together, the answer is the third. */
  lemma CanLeaveShortestPrefix(m: ChainModel, l: Layout, syms: SymbolTable, out: seq<nat>)
    requires l.Valid() && ModelOfFour(m, l, syms) && Explained(m, 4, out)
    ensures |m.rules| == 4 && ShortestPrefix(m, m.rules[3].matched, 2) && out == [3]
  {
    hide Layout.Valid, ModelOfFour, FourRules, MatchesOfFour, Contributors, PrefixCovers, CoversAlone, AloneBelow,
      IsFalse, ShortestPrefix, Explained;
    FourMatches(m, l, syms);
    FourLength(m, l);
    FourCovers(m, l);
    FirstAlone(m, 4, out, 2);
  }
}
