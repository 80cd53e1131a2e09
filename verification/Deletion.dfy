/** Deleting several rules at once. */
module Deletion {
  import opened Rules
  import opened Header
  import opened Accept

  /** The rules marked to be kept. */
  function Selected(rules: seq<Rule>, keep: seq<bool>): seq<Rule>
    requires |keep| == |rules|
  {
    if rules == [] then []
    else if keep[0] then [rules[0]] + Selected(rules[1..], keep[1..])
    else Selected(rules[1..], keep[1..])
  }

  /** A packet keeps its verdict when its deciding rule is kept. */
  lemma {:induction false} SelectedVerdict(rules: seq<Rule>, keep: seq<bool>, policy: Action, syms: SymbolTable,
                                           q: Packet)
    requires |keep| == |rules|
    requires FirstMatch(rules, syms, q) < |rules| ==> keep[FirstMatch(rules, syms, q)]
    ensures Permitted(Selected(rules, keep), policy, syms, q) <==> Permitted(rules, policy, syms, q)
  {
    hide Matches;
    if rules != [] {
      PermittedStep(rules, policy, syms, q);
      if !Matches(rules[0].matches, syms, q) { SelectedVerdict(rules[1..], keep[1..], policy, syms, q); }
      if keep[0] {
        assert Selected(rules, keep)[0] == rules[0] && Selected(rules, keep)[1..] == Selected(rules[1..], keep[1..]);
        PermittedStep(Selected(rules, keep), policy, syms, q);
      }
    }
  }

  /** A packet whose deciding rule is deleted gets the verdict of the kept rules behind it. */
  lemma {:induction false} SelectedDropped(rules: seq<Rule>, keep: seq<bool>, policy: Action, syms: SymbolTable,
                                           q: Packet, i: nat)
    requires |keep| == |rules| && i < |rules| && FirstMatch(rules, syms, q) == i && !keep[i]
    ensures Permitted(Selected(rules, keep), policy, syms, q) <==>
      Permitted(Selected(rules[i + 1..], keep[i + 1..]), policy, syms, q)
  {
    hide Matches;
    if i > 0 {
      SelectedDropped(rules[1..], keep[1..], policy, syms, q, i - 1);
      assert rules[1..][i..] == rules[i + 1..] && keep[1..][i..] == keep[i + 1..];
      if keep[0] {
        assert Selected(rules, keep)[0] == rules[0] && Selected(rules, keep)[1..] == Selected(rules[1..], keep[1..]);
        PermittedStep(Selected(rules, keep), policy, syms, q);
      }
    }
  }

  /** Deleting the rules not kept changes the verdict of no packet. */
  ghost predicate GoTogether(rules: seq<Rule>, keep: seq<bool>, policy: Action, syms: SymbolTable)
    requires |keep| == |rules|
  {
    forall q: Packet :: q.InDomain() ==>
      (Permitted(Selected(rules, keep), policy, syms, q) <==> Permitted(rules, policy, syms, q))
  }

  /** Every packet that rule `i` decides gets the verdict of the rule from the kept rules behind it. */
  ghost predicate AgreesWithKept(rules: seq<Rule>, keep: seq<bool>, policy: Action, syms: SymbolTable, i: nat)
    requires |keep| == |rules| && i < |rules|
  {
    forall q: Packet :: q.InDomain() && FirstMatch(rules, syms, q) == i ==>
      (rules[i].action.Permits() <==> Permitted(Selected(rules[i + 1..], keep[i + 1..]), policy, syms, q))
  }

  lemma VerdictAfterDeletion(rules: seq<Rule>, keep: seq<bool>, policy: Action, syms: SymbolTable, q: Packet)
    requires |keep| == |rules|
    ensures var k := FirstMatch(rules, syms, q);
      if k < |rules| && !keep[k] then
        && (Permitted(Selected(rules, keep), policy, syms, q) <==>
             Permitted(Selected(rules[k + 1..], keep[k + 1..]), policy, syms, q))
        && (Permitted(rules, policy, syms, q) <==> rules[k].action.Permits())
      else Permitted(Selected(rules, keep), policy, syms, q) <==> Permitted(rules, policy, syms, q)
  {
    hide Matches, FirstMatch, Selected;
    var k := FirstMatch(rules, syms, q);
    if k < |rules| && !keep[k] {
      SelectedDropped(rules, keep, policy, syms, q, k);
      assert Permitted(rules, policy, syms, q) <==> rules[k].action.Permits();
      hide Permitted;
    } else {
      hide Permitted;
      SelectedVerdict(rules, keep, policy, syms, q);
    }
  }

  /** Rules can be deleted together exactly when each of them passes the test for one rule, taken
  over the rules that are kept behind it. */
  lemma GoTogetherExactly(rules: seq<Rule>, keep: seq<bool>, policy: Action, syms: SymbolTable)
    requires |keep| == |rules|
    ensures GoTogether(rules, keep, policy, syms) <==>
      forall i | 0 <= i < |rules| && !keep[i] :: AgreesWithKept(rules, keep, policy, syms, i)
  {
    hide AgreesWithKept, Permitted, FirstMatch, Matches, Packet.InDomain, Selected;
    if GoTogether(rules, keep, policy, syms) {
      forall i | 0 <= i < |rules| && !keep[i]
        ensures AgreesWithKept(rules, keep, policy, syms, i)
      {
        TogetherAgrees(rules, keep, policy, syms, i);
      }
    }
    if forall i | 0 <= i < |rules| && !keep[i] :: AgreesWithKept(rules, keep, policy, syms, i) {
      forall q: Packet | q.InDomain()
        ensures Permitted(Selected(rules, keep), policy, syms, q) <==> Permitted(rules, policy, syms, q)
      {
        AgreeingVerdict(rules, keep, policy, syms, q);
      }
    }
  }

  lemma TogetherAgrees(rules: seq<Rule>, keep: seq<bool>, policy: Action, syms: SymbolTable, i: nat)
    requires |keep| == |rules| && i < |rules| && !keep[i] && GoTogether(rules, keep, policy, syms)
    ensures AgreesWithKept(rules, keep, policy, syms, i)
  {
    hide Matches, FirstMatch, Packet.InDomain, Permitted, Selected;
    forall q: Packet | q.InDomain() && FirstMatch(rules, syms, q) == i
      ensures rules[i].action.Permits() <==> Permitted(Selected(rules[i + 1..], keep[i + 1..]), policy, syms, q)
    {
      VerdictAfterDeletion(rules, keep, policy, syms, q);
    }
  }

  lemma AgreeingVerdict(rules: seq<Rule>, keep: seq<bool>, policy: Action, syms: SymbolTable, q: Packet)
    requires |keep| == |rules| && q.InDomain()
    requires var k := FirstMatch(rules, syms, q);
      k < |rules| && !keep[k] ==> AgreesWithKept(rules, keep, policy, syms, k)
    ensures Permitted(Selected(rules, keep), policy, syms, q) <==> Permitted(rules, policy, syms, q)
  {
    hide Matches, FirstMatch, Packet.InDomain, Permitted, Selected, AgreesWithKept;
    var k := FirstMatch(rules, syms, q);
    VerdictAfterDeletion(rules, keep, policy, syms, q);
    if k < |rules| && !keep[k] {
      AgreesAt(rules, keep, policy, syms, k, q);
    }
  }

  lemma AgreesAt(rules: seq<Rule>, keep: seq<bool>, policy: Action, syms: SymbolTable, i: nat, q: Packet)
    requires |keep| == |rules| && i < |rules| && AgreesWithKept(rules, keep, policy, syms, i)
    requires q.InDomain() && FirstMatch(rules, syms, q) == i
    ensures rules[i].action.Permits() <==> Permitted(Selected(rules[i + 1..], keep[i + 1..]), policy, syms, q)
  {
    hide Matches, Permitted, Selected;
  }

  /** Any number of shadowed rules can be deleted together: no verdict changes. */
  lemma ShadowedTogether(m: ChainModel, l: Layout, syms: SymbolTable, chain: Chain, keep: seq<bool>, q: Packet)
    requires l.Valid() && ModelOf(m, l, syms, chain) && q.InDomain()
    requires |keep| == |chain.rules| && forall i | 0 <= i < |keep| :: !keep[i] ==> m.rules[i].shadowed
    ensures Permitted(Selected(chain.rules, keep), chain.policy, syms, q) <==>
      Permitted(chain.rules, chain.policy, syms, q)
  {
    hide Layout.Valid, Matches;
    var k := FirstMatch(chain.rules, syms, q);
    if k < |chain.rules| { ShadowedExactly(m, l, syms, chain, k); }
    SelectedVerdict(chain.rules, keep, chain.policy, syms, q);
  }

  /** Two rules that accept everything, under a policy that drops. */
  function TwoAccepts(): Chain {
    Chain("input", Input, Drop, [Rule(1, AnyMatch(), Accept), Rule(2, AnyMatch(), Accept)])
  }

  /** Redundant rules cannot: each of the two is redundant, and without both everything is dropped. */
  lemma RedundantTogether(m: ChainModel, l: Layout, syms: SymbolTable, q: Packet)
    requires l.Valid() && ModelOf(m, l, syms, TwoAccepts()) && q.InDomain()
    ensures |m.rules| == 2 && m.rules[0].redundant && m.rules[1].redundant
    ensures Permitted(TwoAccepts().rules, Drop, syms, q)
      && !Permitted(Selected(TwoAccepts().rules, [false, false]), Drop, syms, q)
  {
    hide Layout.Valid, Matches, AnyMatch;
    var chain := TwoAccepts();
    AnyMatches(syms, q);
    assert Selected(chain.rules, [false, false]) == [];
    assert |m.rules| == 2;
    hide ModelOf;
    forall i: nat, p: Packet | i < 2 && p.InDomain()
      ensures Permitted(Without(chain.rules, i), Drop, syms, p) <==> Permitted(chain.rules, Drop, syms, p)
    {
      AnyMatches(syms, p);
      assert |Without(chain.rules, i)| == 1 && Without(chain.rules, i)[0].matches == AnyMatch();
    }
    RedundantExactly(m, l, syms, chain, 0);
    RedundantExactly(m, l, syms, chain, 1);
  }
}
