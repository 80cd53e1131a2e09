/** A comparison of two revisions does not depend on the symbol table. */
module Tables {
  import opened Rules
  import opened Diagram
  import opened Header
  import opened Accept
  import opened Counting
  import opened Pairing
  import opened Diff
  import opened Symbols

  /** Two models of one chain: match and effective sets are each other's renaming, and every rule
  has the same standing and the same counts. */
  ghost predicate RulesCarried(l: Layout, f: map<nat, nat>, a: ChainModel, b: ChainModel)
    requires l.Valid() && Permutation(f, MAX_INTERFACES)
  {
    && |a.rules| == |b.rules|
    && forall i | 0 <= i < |a.rules| :: RuleIsCarried(l, f, a.rules[i], b.rules[i])
  }

  ghost predicate RuleIsCarried(l: Layout, f: map<nat, nat>, r: RuleModel, s: RuleModel)
    requires l.Valid() && Permutation(f, MAX_INTERFACES)
  {
    && r.number == s.number && r.action == s.action && r.contentKey == s.contentKey
    && r.shadowed == s.shadowed && r.redundant == s.redundant
    && Carried(l, f, r.matched, s.matched) && Carried(l, f, r.effective, s.effective)
    && ExactCardinality(r.effective) == ExactCardinality(s.effective)
  }

  lemma MatchedCarried(l: Layout, f: map<nat, nat>, was: SymbolTable, now: SymbolTable, rules: seq<Rule>, i: nat,
                       r: RuleModel, s: RuleModel)
    requires l.Valid() && Interchangeable(f, was, now, rules) && i < |rules|
    requires RuleModelOf(r, l, was, rules, i) && RuleModelOf(s, l, now, rules, i)
    ensures Permutation(f, MAX_INTERFACES) && Carried(l, f, r.matched, s.matched)
    ensures r.number == s.number && r.action == s.action && r.contentKey == s.contentKey
  {
    hide Layout.Valid, Matches, First, PacketAt, Renamed, RenamedPoint, Renames;
    forall p: Point
      ensures Has(r.matched, p) <==> Has(s.matched, RenamedPoint(l, f, p))
    {
      RenamedPacket(l, f, p);
      MatchesRenamed(rules[i].matches, was, now, f, PacketAt(l, p));
    }
  }

  /** All rules of a chain compiled under two tables. */
  lemma AllRulesCarried(l: Layout, f: map<nat, nat>, was: SymbolTable, now: SymbolTable, chain: Chain, a: ChainModel,
                        b: ChainModel)
    requires l.Valid() && Interchangeable(f, was, now, chain.rules)
    requires ModelOf(a, l, was, chain) && ModelOf(b, l, now, chain)
    ensures Permutation(f, MAX_INTERFACES) && RulesCarried(l, f, a, b)
  {
    hide Layout.Valid, ModelOf, Interchangeable, Carried, Permutation, RuleModelOf, Models;
    SameLength(a, l, was, chain);
    SameLength(b, l, now, chain);
    InterchangeablePermutes(f, was, now, chain.rules);
    forall i | 0 <= i < |a.rules|
      ensures RuleIsCarried(l, f, a.rules[i], b.rules[i])
    {
      RuleCarried(l, f, was, now, chain, a, b, i);
      ModelRule(a, l, was, chain, i);
      ModelRule(b, l, now, chain, i);
      MatchedCarried(l, f, was, now, chain.rules, i, a.rules[i], b.rules[i]);
    }
  }

  lemma ModelRule(m: ChainModel, l: Layout, syms: SymbolTable, chain: Chain, i: nat)
    requires l.Valid() && ModelOf(m, l, syms, chain) && i < |chain.rules|
    ensures |m.rules| == |chain.rules| && RuleModelOf(m.rules[i], l, syms, chain.rules, i)
  {
  }

  // ------------------------------------------------------------ explanations

  lemma AloneCarried(l: Layout, f: map<nat, nat>, a: ChainModel, b: ChainModel, s: PacketSet, t: PacketSet, j: nat)
    requires l.Valid() && Permutation(f, MAX_INTERFACES) && RulesCarried(l, f, a, b) && Carried(l, f, s, t)
    ensures CoversAlone(a, s, j) <==> CoversAlone(b, t, j)
  {
    hide Layout.Valid, Permutation, RenamedPoint, Has, Models;
    if j < |a.rules| {
      assert RuleIsCarried(l, f, a.rules[j], b.rules[j]);
      if CoversAlone(a, s, j) {
        forall q: Point | Has(t, q)
          ensures Has(b.rules[j].matched, q)
        {
          var p := RenamedPointOnto(l, f, q);
        }
      }
    }
  }

  lemma OverlapCarried(l: Layout, f: map<nat, nat>, a: ChainModel, b: ChainModel, s: PacketSet, t: PacketSet, j: nat)
    requires l.Valid() && Permutation(f, MAX_INTERFACES) && RulesCarried(l, f, a, b) && Carried(l, f, s, t)
    ensures Overlaps(a, s, j) <==> Overlaps(b, t, j)
  {
    hide Layout.Valid, Permutation, RenamedPoint, Has, Models;
    if j < |a.rules| {
      assert RuleIsCarried(l, f, a.rules[j], b.rules[j]);
      if Overlaps(a, s, j) {
        var p: Point :| Has(s, p) && Has(a.rules[j].matched, p);
        assert Has(t, RenamedPoint(l, f, p)) && Has(b.rules[j].matched, RenamedPoint(l, f, p));
      }
      if Overlaps(b, t, j) {
        var q: Point :| Has(t, q) && Has(b.rules[j].matched, q);
        var p := RenamedPointOnto(l, f, q);
        assert Has(s, p) && Has(a.rules[j].matched, p);
      }
    }
  }

  lemma MatchedBeforeCarried(l: Layout, f: map<nat, nat>, a: ChainModel, b: ChainModel, k: nat, p: Point)
    requires l.Valid() && Permutation(f, MAX_INTERFACES) && RulesCarried(l, f, a, b)
    ensures MatchedBefore(a, k, p) <==> MatchedBefore(b, k, RenamedPoint(l, f, p))
  {
    hide Layout.Valid, Permutation, RenamedPoint, Has, Models;
    forall j | 0 <= j < |a.rules|
      ensures Has(a.rules[j].matched, p) <==> Has(b.rules[j].matched, RenamedPoint(l, f, p))
    {
      assert RuleIsCarried(l, f, a.rules[j], b.rules[j]);
    }
  }

  lemma PrefixCarried(l: Layout, f: map<nat, nat>, a: ChainModel, b: ChainModel, s: PacketSet, t: PacketSet, k: nat)
    requires l.Valid() && Permutation(f, MAX_INTERFACES) && RulesCarried(l, f, a, b) && Carried(l, f, s, t)
    ensures PrefixCovers(a, s, k) <==> PrefixCovers(b, t, k)
  {
    hide Layout.Valid, Permutation, RenamedPoint, Has, Models, MatchedBefore, RuleIsCarried;
    forall p: Point { MatchedBeforeCarried(l, f, a, b, k, p); }
    if PrefixCovers(a, s, k) {
      forall q: Point | Has(t, q)
        ensures MatchedBefore(b, k, q)
      {
        var p := RenamedPointOnto(l, f, q);
      }
    }
  }

  /** A rule is explained by the same rules under both tables. */
  lemma ExplainedCarried(l: Layout, f: map<nat, nat>, a: ChainModel, b: ChainModel, number: nat, out: seq<nat>)
    requires l.Valid() && Permutation(f, MAX_INTERFACES) && RulesCarried(l, f, a, b)
    ensures Explained(a, number, out) <==> Explained(b, number, out)
  {
    hide Layout.Valid, Permutation, Models, CoversAlone, Overlaps, PrefixCovers, Carried, IsFalse;
    if 1 <= number <= |a.rules| {
      assert RuleIsCarried(l, f, a.rules[number - 1], b.rules[number - 1]);
      var s, t := a.rules[number - 1].matched, b.rules[number - 1].matched;
      CarriedSize(l, f, s, t);
      hide RulesCarried, RuleIsCarried;
      forall j: nat
        ensures CoversAlone(a, s, j) <==> CoversAlone(b, t, j)
        ensures Overlaps(a, s, j) <==> Overlaps(b, t, j)
        ensures PrefixCovers(a, s, j) <==> PrefixCovers(b, t, j)
      {
        AloneCarried(l, f, a, b, s, t, j);
        OverlapCarried(l, f, a, b, s, t, j);
        PrefixCarried(l, f, a, b, s, t, j);
      }
      SameExplanation(a, b, s, t, number, out);
    }
  }

  /** An explanation depends on what overlaps and what covers only. */
  lemma SameExplanation(a: ChainModel, b: ChainModel, s: PacketSet, t: PacketSet, number: nat, out: seq<nat>)
    requires |a.rules| == |b.rules| && 1 <= number <= |a.rules|
    requires s == a.rules[number - 1].matched && t == b.rules[number - 1].matched && (IsFalse(s) <==> IsFalse(t))
    requires forall j: nat :: CoversAlone(a, s, j) <==> CoversAlone(b, t, j)
    requires forall j: nat :: Overlaps(a, s, j) <==> Overlaps(b, t, j)
    requires forall j: nat :: PrefixCovers(a, s, j) <==> PrefixCovers(b, t, j)
    ensures Explained(a, number, out) <==> Explained(b, number, out)
  {
    hide CoversAlone, Overlaps, PrefixCovers, IsFalse;
    forall k: nat
      ensures Contributors(a, s, k, out) <==> Contributors(b, t, k, out)
    {
    }
  }

  // ---------------------------------------------------------------- findings

  lemma SameKeys(l: Layout, f: map<nat, nat>, a: ChainModel, b: ChainModel)
    requires l.Valid() && Permutation(f, MAX_INTERFACES) && RulesCarried(l, f, a, b)
    ensures Keys(a) == Keys(b)
  {
    hide Layout.Valid, Permutation, Carried, Models;
    forall i | 0 <= i < |a.rules|
      ensures a.rules[i].contentKey == b.rules[i].contentKey
    {
      assert RuleIsCarried(l, f, a.rules[i], b.rules[i]);
    }
  }

  lemma PairFindingCarried(l: Layout, f: map<nat, nat>, base: ChainModel, head: ChainModel, base2: ChainModel,
                           head2: ChainModel,
                           b: nat, h: nat, e: Structural)
    requires l.Valid() && Permutation(f, MAX_INTERFACES) && RulesCarried(l, f, base, base2)
      && RulesCarried(l, f, head, head2)
    ensures PairFinding(base, head, b, h, e) <==> PairFinding(base2, head2, b, h, e)
    ensures PairChanged(base, head, b, h) <==> PairChanged(base2, head2, b, h)
  {
    hide Layout.Valid, Permutation, Carried, Models, Explained, Keys, IsPair;
    SameKeys(l, f, base, base2);
    SameKeys(l, f, head, head2);
    if e.NowUnreachable? { ExplainedCarried(l, f, head, head2, h, e.coveredBy); }
    if e.NowReachable? { ExplainedCarried(l, f, base, base2, b, e.previouslyCoveredBy); }
    if PairedRules(base, head, b, h) {
      assert RuleIsCarried(l, f, base.rules[b - 1], base2.rules[b - 1]);
      assert RuleIsCarried(l, f, head.rules[h - 1], head2.rules[h - 1]);
    }
  }

  /** What two revisions report is right under both tables or under none. */
  lemma FindingsCarried(l: Layout, f: map<nat, nat>, base: ChainModel, head: ChainModel, base2: ChainModel,
                        head2: ChainModel,
                        out: seq<Structural>)
    requires l.Valid() && Permutation(f, MAX_INTERFACES) && RulesCarried(l, f, base, base2)
      && RulesCarried(l, f, head, head2)
    requires Findings(base, head, out)
    ensures Findings(base2, head2, out)
  {
    hide Layout.Valid, Permutation, RulesCarried, Models, PairFinding, PairChanged, Keys, IsRemoved, IsAdded, Code;
    SameKeys(l, f, base, base2);
    SameKeys(l, f, head, head2);
    forall b: nat, h: nat, e: Structural
      ensures PairFinding(base, head, b, h, e) <==> PairFinding(base2, head2, b, h, e)
    {
      PairFindingCarried(l, f, base, head, base2, head2, b, h, e);
    }
    forall b: nat, h: nat | PairChanged(base2, head2, b, h)
      ensures exists e | e in out :: PairFinding(base2, head2, b, h, e)
    {
      PairFindingCarried(l, f, base, head, base2, head2, b, h, Added(0));
      var e :| e in out && PairFinding(base, head, b, h, e);
      assert PairFinding(base2, head2, b, h, e);
    }
    forall e | e in out
      ensures Holds(base2, head2, e)
    {
      assert Holds(base, head, e);
    }
  }

  // ------------------------------------------------------------- comparisons

  /** The two sides of a comparison, compiled with one table. */
  datatype Comparison = Comparison(syms: SymbolTable, base: ChainModel, head: ChainModel, delta: ChainDiff)

  ghost predicate Compares(c: Comparison, l: Layout, before: Chain, after: Chain)
    requires l.Valid()
  {
    && c.syms.Valid() && KnowsRules(c.syms, before.rules) && KnowsRules(c.syms, after.rules)
    && ModelOf(c.base, l, c.syms, before) && ModelOf(c.head, l, c.syms, after)
    && (forall p: Point :: Has(c.delta.newlyAllowed, p) <==> Has(c.head.accept, p) && !Has(c.base.accept, p))
    && (forall p: Point :: Has(c.delta.newlyBlocked, p) <==> Has(c.base.accept, p) && !Has(c.head.accept, p))
    && Findings(c.base, c.head, c.delta.structural)
  }

  /** The accept sets and the deltas of the one comparison are those of the other, renamed. */
  ghost predicate SetsCarried(l: Layout, f: map<nat, nat>, x: Comparison, y: Comparison)
    requires l.Valid() && Permutation(f, MAX_INTERFACES)
  {
    && SetCarried(l, f, x.base.accept, y.base.accept) && SetCarried(l, f, x.head.accept, y.head.accept)
    && SetCarried(l, f, x.delta.newlyAllowed, y.delta.newlyAllowed)
    && SetCarried(l, f, x.delta.newlyBlocked, y.delta.newlyBlocked)
  }

  ghost predicate SetCarried(l: Layout, f: map<nat, nat>, s: PacketSet, t: PacketSet)
    requires l.Valid() && Permutation(f, MAX_INTERFACES)
  {
    Carried(l, f, s, t) && ExactCardinality(s) == ExactCardinality(t)
  }

  /** A comparison does not depend on the table. One permutation of the interface values, which
  takes the value of every shared name to its value in the other table, takes all its sets to those
  under the other table; every rule keeps its standing and its count, and the findings are equal. */
  lemma TableIndependence(l: Layout, before: Chain, after: Chain, x: Comparison, y: Comparison)
    returns (f: map<nat, nat>)
    requires l.Valid() && Compares(x, l, before, after) && Compares(y, l, before, after)
    ensures Permutation(f, MAX_INTERFACES) && Renames(f, x.syms, y.syms)
    ensures SetsCarried(l, f, x, y) && RulesCarried(l, f, x.base, y.base) && RulesCarried(l, f, x.head, y.head)
    ensures x.delta.structural == y.delta.structural
  {
    hide Layout.Valid, RenamedPoint, Permutation, ModelOf, Models, KnowsRules, Renames, Carried, First, RulesCarried,
      Findings;
    f := RenamingExists(x.syms, y.syms);
    RenamesPermutes(f, x.syms, y.syms);
    assert Interchangeable(f, x.syms, y.syms, before.rules) && Interchangeable(f, x.syms, y.syms, after.rules);
    hide Interchangeable;
    AcceptCarried(l, f, x.syms, y.syms, before, x.base, y.base);
    AcceptCarried(l, f, x.syms, y.syms, after, x.head, y.head);
    DeltaCarried(l, f, x.head.accept, x.base.accept, x.delta.newlyAllowed, y.head.accept, y.base.accept,
      y.delta.newlyAllowed);
    DeltaCarried(l, f, x.base.accept, x.head.accept, x.delta.newlyBlocked, y.base.accept, y.head.accept,
      y.delta.newlyBlocked);
    AllRulesCarried(l, f, x.syms, y.syms, before, x.base, y.base);
    AllRulesCarried(l, f, x.syms, y.syms, after, x.head, y.head);
    FindingsCarried(l, f, x.base, x.head, y.base, y.head, x.delta.structural);
    FindingsUnique(y.base, y.head, x.delta.structural, y.delta.structural);
  }
}
