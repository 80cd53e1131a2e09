/** First-match evaluation as set algebra: a chain compiled to its accept set and a
partition of the header space by deciding rule. */
module Accept {
  import opened Rules
  import opened Diagram
  import opened Header

  /** `contentKey` is what a rule says, used to pair rules across revisions. */
  datatype RuleModel = RuleModel(number: nat, action: Action, contentKey: (Match, Action),
                                 matched: PacketSet, effective: PacketSet, shadowed: bool, redundant: bool)

  datatype ChainModel = ChainModel(name: string, hook: Hook, policy: Action, accept: PacketSet,
                                   matchedAny: PacketSet, fallthrough: PacketSet, rules: seq<RuleModel>)

  // ----------------------------------------------------------- specification

  /** Position of the rule that decides point `p`; the number of rules when the policy does. */
  ghost function First(l: Layout, syms: SymbolTable, rules: seq<Rule>, p: Point): (k: nat)
    requires l.Valid()
    ensures k <= |rules|
  {
    FirstMatch(rules, syms, PacketAt(l, p))
  }

  ghost predicate Permits(l: Layout, syms: SymbolTable, rules: seq<Rule>, policy: Action, p: Point)
    requires l.Valid()
  {
    Permitted(rules, policy, syms, PacketAt(l, p))
  }

  /** Deleting rule `i` on its own changes no verdict. */
  ghost predicate Deletable(l: Layout, syms: SymbolTable, rules: seq<Rule>, policy: Action, i: nat)
    requires l.Valid() && i < |rules|
  {
    forall p: Point :: Permits(l, syms, Without(rules, i), policy, p) <==> Permits(l, syms, rules, policy, p)
  }

  function Without(rules: seq<Rule>, i: nat): seq<Rule>
    requires i < |rules|
  {
    rules[..i] + rules[i + 1..]
  }

  /** Everything the compiled form of rule `i` claims, except redundancy. */
  ghost predicate RuleModelOf(r: RuleModel, l: Layout, syms: SymbolTable, rules: seq<Rule>, i: nat)
    requires l.Valid() && i < |rules|
  {
    && r.number == rules[i].number && r.action == rules[i].action
    && r.contentKey == (rules[i].matches, rules[i].action)
    && (forall p: Point :: Has(r.matched, p) <==> Matches(rules[i].matches, syms, PacketAt(l, p)))
    && (forall p: Point :: Has(r.effective, p) <==> First(l, syms, rules, p) == i)
    && (r.shadowed <==> forall p: Point :: First(l, syms, rules, p) != i)
  }

  ghost predicate ModelOf(m: ChainModel, l: Layout, syms: SymbolTable, chain: Chain)
    requires l.Valid()
  {
    && m.name == chain.name && m.hook == chain.hook && m.policy == chain.policy
    && |m.rules| == |chain.rules|
    && (forall i | 0 <= i < |m.rules| :: RuleModelOf(m.rules[i], l, syms, chain.rules, i))
    && (forall i | 0 <= i < |m.rules| :: m.rules[i].redundant <==> Deletable(l, syms, chain.rules, chain.policy, i))
    && (forall p: Point :: Has(m.accept, p) <==> Permits(l, syms, chain.rules, chain.policy, p))
    && (forall p: Point :: Has(m.matchedAny, p) <==> First(l, syms, chain.rules, p) < |chain.rules|)
    && (forall p: Point :: Has(m.fallthrough, p) <==> First(l, syms, chain.rules, p) == |chain.rules|)
  }

  // ----------------------------------------------------------------- analyse

  /** Compile a chain: a forward pass for the partition, a backward pass for redundancy
  and the accept set. */
  method Analyse(l: Layout, syms: SymbolTable, chain: Chain) returns (m: ChainModel)
    requires l.Valid() && syms.Valid()
    ensures ModelOf(m, l, syms, chain)
  {
    var rules, matchedAny := Forward(l, syms, chain.rules);
    var fallthrough := Not(matchedAny);
    var accept;
    rules, accept := Backward(l, syms, chain.rules, chain.policy, rules);
    m := ChainModel(chain.name, chain.hook, chain.policy, accept, matchedAny, fallthrough, rules);
  }

  /** The forward loop. Once everything is matched no later rule can decide a packet, so its
  effective set is the empty one without computing it. */
  method Forward(l: Layout, syms: SymbolTable, rules: seq<Rule>) returns (out: seq<RuleModel>, matchedAny: PacketSet)
    requires l.Valid() && syms.Valid()
    ensures |out| == |rules| && forall i | 0 <= i < |rules| :: RuleModelOf(out[i], l, syms, rules, i)
    ensures forall p: Point :: Has(matchedAny, p) <==> First(l, syms, rules, p) < |rules|
  {
    hide Matches, First, PacketAt, Layout.Valid, Reduced, Eval;
    hide RuleModelOf, Has;
    out := [];
    matchedAny := Constant(false);
    var saturated := false;
    for k := 0 to |rules|
      invariant |out| == k
      invariant forall i | 0 <= i < k :: RuleModelOf(out[i], l, syms, rules, i)
      invariant forall p: Point :: Has(matchedAny, p) <==> First(l, syms, rules, p) < k
      invariant saturated ==> IsTrue(matchedAny)
    {
      var r;
      r, matchedAny, saturated := ForwardStep(l, syms, rules, k, matchedAny, saturated);
      out := out + [r];
    }
  }

  method ForwardStep(l: Layout, syms: SymbolTable, rules: seq<Rule>, k: nat, before: PacketSet, wasSaturated: bool)
    returns (r: RuleModel, matchedAny: PacketSet, saturated: bool)
    requires l.Valid() && syms.Valid() && k < |rules|
    requires forall p: Point :: Has(before, p) <==> First(l, syms, rules, p) < k
    requires wasSaturated ==> IsTrue(before)
    ensures RuleModelOf(r, l, syms, rules, k)
    ensures forall p: Point :: Has(matchedAny, p) <==> First(l, syms, rules, p) < k + 1
    ensures saturated ==> IsTrue(matchedAny)
  {
    hide Matches, First, PacketAt, Layout.Valid, Reduced, Eval;
    var rule := rules[k];
    var matched := MatchSet(l, rule.matches, syms);
    forall p: Point { FirstStep(l, syms, rules, k, p); }
    FalseIsEmpty(before);
    var effective := Constant(false);
    matchedAny, saturated := before, wasSaturated;
    if !saturated {
      effective := AndNot(matched, matchedAny);
      matchedAny := Or(matchedAny, matched);
      saturated := IsTrue(matchedAny);
    }
    FalseIsEmpty(effective);
    r := RuleModel(rule.number, rule.action, (rule.matches, rule.action), matched, effective, IsFalse(effective),
      false);
  }

  /** Among the points no earlier rule decides, rule `k` decides those it matches. */
  lemma FirstStep(l: Layout, syms: SymbolTable, rules: seq<Rule>, k: nat, p: Point)
    requires l.Valid() && k < |rules|
    ensures First(l, syms, rules, p) >= k ==>
      (First(l, syms, rules, p) == k <==> Matches(rules[k].matches, syms, PacketAt(l, p)))
  {
    if First(l, syms, rules, p) >= k { FirstMatchSound(rules, syms, PacketAt(l, p), k); }
  }

  /** The backward loop: `suffix` is the accept set of the rules from `i` on. */
  method Backward(l: Layout, syms: SymbolTable, rules: seq<Rule>, policy: Action, models: seq<RuleModel>)
    returns (out: seq<RuleModel>, suffix: PacketSet)
    requires l.Valid() && |models| == |rules|
    requires forall i | 0 <= i < |rules| :: RuleModelOf(models[i], l, syms, rules, i)
    ensures |out| == |rules|
    ensures forall i | 0 <= i < |rules| :: RuleModelOf(out[i], l, syms, rules, i)
    ensures forall i | 0 <= i < |rules| :: out[i].redundant <==> Deletable(l, syms, rules, policy, i)
    ensures forall p: Point :: Has(suffix, p) <==> Permits(l, syms, rules, policy, p)
  {
    hide Judged, RuleModelOf, Deletable, Permits, Layout.Valid, Reduced, Eval, Has;
    out := models;
    suffix := Constant(policy.Permits());
    NoneJudged(l, syms, rules, policy, out, suffix);
    for i := |rules| downto 0
      invariant |out| == |rules| && Judged(l, syms, rules, policy, out, suffix, i)
    {
      var r := out[i];
      NextJudged(l, syms, rules, policy, out, suffix, i);
      var redundant := IsRedundant(l, syms, rules, policy, i, r, suffix);
      var longer := ExtendSuffix(l, syms, rules, policy, i, r, suffix);
      JudgedStep(l, syms, rules, policy, out, suffix, i, redundant, longer);
      out := out[i := r.(redundant := redundant)];
      suffix := longer;
    }
    AllJudged(l, syms, rules, policy, out, suffix);
  }

  /** The rules from `i` on have their redundancy, and `suffix` is their accept set. */
  ghost predicate Judged(l: Layout, syms: SymbolTable, rules: seq<Rule>, policy: Action, out: seq<RuleModel>,
                         suffix: PacketSet, i: nat)
    requires l.Valid() && |out| == |rules|
  {
    && i <= |rules|
    && (forall j | 0 <= j < |rules| :: RuleModelOf(out[j], l, syms, rules, j))
    && (forall j | i <= j < |rules| :: out[j].redundant <==> Deletable(l, syms, rules, policy, j))
    && (forall p: Point :: Has(suffix, p) <==> Permits(l, syms, rules[i..], policy, p))
  }

  lemma NoneJudged(l: Layout, syms: SymbolTable, rules: seq<Rule>, policy: Action, out: seq<RuleModel>,
                   suffix: PacketSet)
    requires l.Valid() && |out| == |rules|
    requires forall i | 0 <= i < |rules| :: RuleModelOf(out[i], l, syms, rules, i)
    requires forall p: Point :: Has(suffix, p) <==> policy.Permits()
    ensures Judged(l, syms, rules, policy, out, suffix, |rules|)
  {
    hide RuleModelOf, Deletable, Permits, Layout.Valid, Has;
    assert rules[|rules|..] == [];
    forall p: Point { PermitsEmpty(l, syms, policy, p); }
  }

  lemma NextJudged(l: Layout, syms: SymbolTable, rules: seq<Rule>, policy: Action, out: seq<RuleModel>,
                   suffix: PacketSet, i: nat)
    requires l.Valid() && |out| == |rules| && i < |rules| && Judged(l, syms, rules, policy, out, suffix, i + 1)
    ensures RuleModelOf(out[i], l, syms, rules, i)
    ensures forall p: Point :: Has(suffix, p) <==> Permits(l, syms, rules[i + 1..], policy, p)
  {
    hide RuleModelOf, Deletable, Permits, Layout.Valid, Has;
  }

  lemma JudgedStep(l: Layout, syms: SymbolTable, rules: seq<Rule>, policy: Action, out: seq<RuleModel>,
                   suffix: PacketSet, i: nat, redundant: bool, longer: PacketSet)
    requires l.Valid() && |out| == |rules| && i < |rules| && Judged(l, syms, rules, policy, out, suffix, i + 1)
    requires redundant <==> Deletable(l, syms, rules, policy, i)
    requires forall p: Point :: Has(longer, p) <==> Permits(l, syms, rules[i..], policy, p)
    ensures Judged(l, syms, rules, policy, out[i := out[i].(redundant := redundant)], longer, i)
  {
    hide RuleModelOf, Deletable, Permits, Layout.Valid, Has;
    JudgedModel(l, syms, rules, out[i], i, redundant);
  }

  lemma JudgedModel(l: Layout, syms: SymbolTable, rules: seq<Rule>, r: RuleModel, i: nat, redundant: bool)
    requires l.Valid() && i < |rules|
    ensures RuleModelOf(r.(redundant := redundant), l, syms, rules, i) <==> RuleModelOf(r, l, syms, rules, i)
  {
    hide Matches, First, PacketAt, Layout.Valid, Has;
  }

  lemma AllJudged(l: Layout, syms: SymbolTable, rules: seq<Rule>, policy: Action, out: seq<RuleModel>,
                  suffix: PacketSet)
    requires l.Valid() && |out| == |rules| && Judged(l, syms, rules, policy, out, suffix, 0)
    ensures forall i | 0 <= i < |rules| :: RuleModelOf(out[i], l, syms, rules, i)
    ensures forall i | 0 <= i < |rules| :: out[i].redundant <==> Deletable(l, syms, rules, policy, i)
    ensures forall p: Point :: Has(suffix, p) <==> Permits(l, syms, rules, policy, p)
  {
    hide RuleModelOf, Deletable, Permits, Layout.Valid, Has;
    assert rules[0..] == rules;
  }

  lemma PermitsEmpty(l: Layout, syms: SymbolTable, policy: Action, p: Point)
    requires l.Valid()
    ensures Permits(l, syms, [], policy, p) <==> policy.Permits()
  {
  }

  /** The redundancy test of one rule against the accept set of the rules after it. */
  method IsRedundant(l: Layout, syms: SymbolTable, rules: seq<Rule>, policy: Action, i: nat, r: RuleModel,
                     suffix: PacketSet)
    returns (redundant: bool)
    requires l.Valid() && i < |rules| && RuleModelOf(r, l, syms, rules, i)
    requires forall p: Point :: Has(suffix, p) <==> Permits(l, syms, rules[i + 1..], policy, p)
    ensures redundant <==> Deletable(l, syms, rules, policy, i)
  {
    hide Permits, Matches, First, PacketAt, Layout.Valid, Reduced, Eval, Without;
    forall p: Point { WithoutPoint(l, syms, rules, policy, i, p); }
    var disagree;
    if r.action.Permits() {
      disagree := AndNot(r.effective, suffix);
    } else {
      disagree := And(r.effective, suffix);
    }
    redundant := IsFalse(disagree);
    FalseIsEmpty(disagree);
  }

  lemma WithoutPoint(l: Layout, syms: SymbolTable, rules: seq<Rule>, policy: Action, i: nat, p: Point)
    requires l.Valid() && i < |rules|
    ensures (Permits(l, syms, Without(rules, i), policy, p) <==> !Permits(l, syms, rules, policy, p)) <==>
      First(l, syms, rules, p) == i && (Permits(l, syms, rules[i + 1..], policy, p) <==> !rules[i].action.Permits())
  {
    WithoutVerdict(rules, policy, syms, PacketAt(l, p), i);
  }

  method ExtendSuffix(l: Layout, syms: SymbolTable, rules: seq<Rule>, policy: Action, i: nat, r: RuleModel,
                      suffix: PacketSet)
    returns (longer: PacketSet)
    requires l.Valid() && i < |rules| && RuleModelOf(r, l, syms, rules, i)
    requires forall p: Point :: Has(suffix, p) <==> Permits(l, syms, rules[i + 1..], policy, p)
    ensures forall p: Point :: Has(longer, p) <==> Permits(l, syms, rules[i..], policy, p)
  {
    assert rules[i..][1..] == rules[i + 1..];
    forall p: Point { PermittedStep(rules[i..], policy, syms, PacketAt(l, p)); }
    hide Permitted, Matches;
    if r.action.Permits() {
      longer := Or(r.matched, suffix);
    } else {
      var rest := Not(r.matched);
      longer := And(rest, suffix);
    }
  }

  lemma PermittedStep(rules: seq<Rule>, policy: Action, syms: SymbolTable, q: Packet)
    requires rules != []
    ensures Permitted(rules, policy, syms, q) <==>
      if Matches(rules[0].matches, syms, q) then rules[0].action.Permits() else Permitted(rules[1..], policy, syms, q)
  {
    assert FirstMatch(rules, syms, q) > 0 ==>
      rules[FirstMatch(rules, syms, q)..] == rules[1..][FirstMatch(rules[1..], syms, q)..];
  }

  /** Deleting a rule only matters to the packets it decides, and hands them to the rules after it. */
  lemma {:induction false} WithoutVerdict(rules: seq<Rule>, policy: Action, syms: SymbolTable, q: Packet, i: nat)
    requires i < |rules|
    ensures Permitted(Without(rules, i), policy, syms, q) <==>
      if FirstMatch(rules, syms, q) == i then Permitted(rules[i + 1..], policy, syms, q)
      else Permitted(rules, policy, syms, q)
    ensures FirstMatch(rules, syms, q) == i ==> (Permitted(rules, policy, syms, q) <==> rules[i].action.Permits())
  {
    hide Matches, Permitted, FirstMatch, Without;
    PermittedStep(rules, policy, syms, q);
    FirstMatchStep(rules, syms, q);
    if i == 0 {
      WithoutHead(rules);
    } else {
      WithoutTail(rules, i);
      PermittedStep(Without(rules, i), policy, syms, q);
      WithoutVerdict(rules[1..], policy, syms, q, i - 1);
    }
  }

  lemma WithoutHead(rules: seq<Rule>)
    requires rules != []
    ensures Without(rules, 0) == rules[1..]
  {
  }

  lemma WithoutTail(rules: seq<Rule>, i: nat)
    requires 0 < i < |rules|
    ensures Without(rules, i) != [] && Without(rules, i)[0] == rules[0]
    ensures Without(rules, i)[1..] == Without(rules[1..], i - 1)
    ensures rules[1..][i..] == rules[i + 1..]
  {
  }

  // ---------------------------------------------------------- what it means

  /** The compiled accept set agrees with first-match evaluation on every packet. */
  lemma AcceptIsFirstMatch(m: ChainModel, l: Layout, syms: SymbolTable, chain: Chain, q: Packet)
    requires l.Valid() && ModelOf(m, l, syms, chain) && q.InDomain()
    ensures Has(m.accept, PointOf(l, q)) <==> Permitted(chain.rules, chain.policy, syms, q)
  {
    PacketOfPoint(l, q);
  }

  /** Every packet lies in exactly one cell: the effective set of its deciding rule,
  or the fall-through cell. */
  lemma EffectiveSetsPartition(m: ChainModel, l: Layout, syms: SymbolTable, chain: Chain, q: Packet)
    requires l.Valid() && ModelOf(m, l, syms, chain) && q.InDomain()
    ensures var k := FirstMatch(chain.rules, syms, q);
      && (forall i | 0 <= i < |m.rules| :: Has(m.rules[i].effective, PointOf(l, q)) <==> i == k)
      && (Has(m.fallthrough, PointOf(l, q)) <==> k == |m.rules|)
  {
    PacketOfPoint(l, q);
    hide Matches, FirstMatch;
    forall i | 0 <= i < |m.rules|
      ensures Has(m.rules[i].effective, PointOf(l, q)) <==> i == FirstMatch(chain.rules, syms, q)
    {
      assert RuleModelOf(m.rules[i], l, syms, chain.rules, i);
    }
  }

  /** A rule is shadowed exactly when it decides no packet. */
  lemma ShadowedExactly(m: ChainModel, l: Layout, syms: SymbolTable, chain: Chain, i: nat)
    requires l.Valid() && ModelOf(m, l, syms, chain) && i < |m.rules|
    ensures m.rules[i].shadowed <==> forall q: Packet :: q.InDomain() ==> FirstMatch(chain.rules, syms, q) != i
  {
    assert RuleModelOf(m.rules[i], l, syms, chain.rules, i);
    if m.rules[i].shadowed {
      forall q: Packet | q.InDomain()
        ensures FirstMatch(chain.rules, syms, q) != i
      {
        PacketOfPoint(l, q);
        assert First(l, syms, chain.rules, PointOf(l, q)) != i;
      }
    } else {
      var p: Point :| First(l, syms, chain.rules, p) == i;
      PacketInDomain(l, p);
      assert FirstMatch(chain.rules, syms, PacketAt(l, p)) == i;
    }
  }

  /** A rule is marked redundant exactly when deleting that one rule changes no packet's verdict. */
  lemma RedundantExactly(m: ChainModel, l: Layout, syms: SymbolTable, chain: Chain, i: nat)
    requires l.Valid() && ModelOf(m, l, syms, chain) && i < |m.rules|
    ensures m.rules[i].redundant <==> forall q: Packet :: q.InDomain() ==>
      (Permitted(Without(chain.rules, i), chain.policy, syms, q) <==> Permitted(chain.rules, chain.policy, syms, q))
  {
    if m.rules[i].redundant {
      forall q: Packet | q.InDomain()
        ensures Permitted(Without(chain.rules, i), chain.policy, syms, q) <==>
          Permitted(chain.rules, chain.policy, syms, q)
      {
        PacketOfPoint(l, q);
        assert Permits(l, syms, Without(chain.rules, i), chain.policy, PointOf(l, q))
          <==> Permits(l, syms, chain.rules, chain.policy, PointOf(l, q));
      }
    } else {
      var p: Point :| Permits(l, syms, Without(chain.rules, i), chain.policy, p) !=
        Permits(l, syms, chain.rules, chain.policy, p);
      PacketInDomain(l, p);
      assert Permitted(Without(chain.rules, i), chain.policy, syms, PacketAt(l, p))
        != Permitted(chain.rules, chain.policy, syms, PacketAt(l, p));
    }
  }

  /** A shadowed rule is redundant too. */
  lemma ShadowedIsRedundant(m: ChainModel, l: Layout, syms: SymbolTable, chain: Chain, i: nat)
    requires l.Valid() && ModelOf(m, l, syms, chain) && i < |m.rules|
    ensures m.rules[i].shadowed ==> m.rules[i].redundant
  {
    assert RuleModelOf(m.rules[i], l, syms, chain.rules, i);
    forall p: Point { WithoutPoint(l, syms, chain.rules, chain.policy, i, p); }
    hide Permits, First;
  }

  // ------------------------------------------------------------ self-checks

  /** The packet is permitted going by the effective sets. */
  ghost predicate ForwardPermits(m: ChainModel, p: Point) {
    || (exists i :: 0 <= i < |m.rules| && m.rules[i].action.Permits() && Has(m.rules[i].effective, p))
    || (m.policy.Permits() && Has(m.fallthrough, p))
  }

  /** The accept set recomputed from the effective sets. */
  method ForwardAccept(m: ChainModel) returns (acc: PacketSet)
    ensures forall p: Point :: Has(acc, p) <==> ForwardPermits(m, p)
  {
    acc := Constant(false);
    for k := 0 to |m.rules|
      invariant forall p: Point :: Has(acc, p) <==>
        exists i :: 0 <= i < k && m.rules[i].action.Permits() && Has(m.rules[i].effective, p)
    {
      if m.rules[k].action.Permits() {
        acc := Or(acc, m.rules[k].effective);
      }
    }
    if m.policy.Permits() {
      acc := Or(acc, m.fallthrough);
    }
  }

  /** Both derivations of the accept set give the same diagram. */
  lemma ForwardEqualsBackward(m: ChainModel, l: Layout, syms: SymbolTable, chain: Chain, acc: PacketSet)
    requires l.Valid() && ModelOf(m, l, syms, chain)
    requires forall p: Point :: Has(acc, p) <==> ForwardPermits(m, p)
    ensures acc == m.accept
  {
    AnalysedModelVerifies(m, l, syms, chain);
    hide ModelOf, ForwardPermits, ExactlyOneCell, Layout.Valid;
    SameSet(acc, m.accept);
  }

  /** Whether the effective sets and the fall-through cell partition the header space. */
  method PartitionHolds(m: ChainModel) returns (holds: bool)
    ensures holds <==> forall p: Point :: ExactlyOneCell(m, p)
  {
    hide Has;
    var union := Constant(false);
    for k := 0 to |m.rules|
      invariant forall p: Point :: Has(union, p) <==> exists i :: 0 <= i < k && Has(m.rules[i].effective, p)
      invariant forall p: Point, i, j | 0 <= i < j < k ::
        !(Has(m.rules[i].effective, p) && Has(m.rules[j].effective, p))
    {
      var overlap := And(union, m.rules[k].effective);
      FalseIsEmpty(overlap);
      if !IsFalse(overlap) {
        ghost var p: Point :| Has(overlap, p);
        assert !ExactlyOneCell(m, p);
        return false;
      }
      union := Or(union, m.rules[k].effective);
    }
    var overlap := And(union, m.fallthrough);
    FalseIsEmpty(overlap);
    if !IsFalse(overlap) {
      ghost var p: Point :| Has(overlap, p);
      assert !ExactlyOneCell(m, p);
      return false;
    }
    var all := Or(union, m.fallthrough);
    FalseIsEmpty(all);
    holds := IsTrue(all);
    forall p: Point
      ensures ExactlyOneCell(m, p) <==> Has(all, p)
    {
      assert !(Has(union, p) && Has(m.fallthrough, p));
    }
  }

  ghost predicate ExactlyOneCell(m: ChainModel, p: Point) {
    && (forall i, j | 0 <= i < j < |m.rules| :: !(Has(m.rules[i].effective, p) && Has(m.rules[j].effective, p)))
    && (Has(m.fallthrough, p) <==> forall i | 0 <= i < |m.rules| :: !Has(m.rules[i].effective, p))
  }

  /** Both self-checks: the cells partition the space, and the two accept sets are one. */
  ghost predicate SelfConsistent(m: ChainModel) {
    forall p: Point :: ExactlyOneCell(m, p) && (Has(m.accept, p) <==> ForwardPermits(m, p))
  }

  method Verify(m: ChainModel) returns (sound: bool)
    ensures sound <==> SelfConsistent(m)
  {
    hide ExactlyOneCell;
    sound := PartitionHolds(m);
    if sound {
      var forward := ForwardAccept(m);
      sound := forward == m.accept;
      if forall p: Point :: Has(forward, p) <==> Has(m.accept, p) { SameSet(forward, m.accept); }
    }
  }

  /** Every compiled chain passes its self-checks. */
  lemma AnalysedModelVerifies(m: ChainModel, l: Layout, syms: SymbolTable, chain: Chain)
    requires l.Valid() && ModelOf(m, l, syms, chain)
    ensures SelfConsistent(m)
  {
    hide ModelOf, ExactlyOneCell, ForwardPermits, Has;
    forall p: Point
      ensures ExactlyOneCell(m, p) && (Has(m.accept, p) <==> ForwardPermits(m, p))
    {
      ModelCells(m, l, syms, chain, p);
      CellsPartition(m, First(l, syms, chain.rules, p), p);
    }
  }

  /** At every point the cell of its decider is the one, and the verdict is the decider's. */
  lemma ModelCells(m: ChainModel, l: Layout, syms: SymbolTable, chain: Chain, p: Point)
    requires l.Valid() && ModelOf(m, l, syms, chain)
    ensures var k := First(l, syms, chain.rules, p);
      && k <= |m.rules|
      && (forall i | 0 <= i < |m.rules| :: Has(m.rules[i].effective, p) <==> i == k)
      && (Has(m.fallthrough, p) <==> k == |m.rules|)
      && (Has(m.accept, p) <==> if k < |m.rules| then m.rules[k].action.Permits() else m.policy.Permits())
  {
    hide Deletable, Matches, PacketAt;
    var k := First(l, syms, chain.rules, p);
    forall i | 0 <= i < |m.rules|
      ensures Has(m.rules[i].effective, p) <==> i == k
    {
      assert RuleModelOf(m.rules[i], l, syms, chain.rules, i);
    }
    if k < |m.rules| { assert RuleModelOf(m.rules[k], l, syms, chain.rules, k); }
  }

  lemma CellsPartition(m: ChainModel, k: nat, p: Point)
    requires k <= |m.rules|
    requires forall i | 0 <= i < |m.rules| :: Has(m.rules[i].effective, p) <==> i == k
    requires Has(m.fallthrough, p) <==> k == |m.rules|
    ensures ExactlyOneCell(m, p)
    ensures ForwardPermits(m, p) <==> if k < |m.rules| then m.rules[k].action.Permits() else m.policy.Permits()
  {
    hide Has;
    if k < |m.rules| { assert Has(m.rules[k].effective, p); }
  }

  // -------------------------------------------------------------- attribution

  type Cell = (Decider, PacketSet)

  /** Split a packet set by deciding rule: non-empty parts only, in rule order, policy last. */
  method Attribute(m: ChainModel, set_: PacketSet) returns (out: seq<Cell>)
    ensures out == Cells(m, set_, 0)
  {
    hide Both, Reduced, Eval, Has;
    out := [];
    for k := 0 to |m.rules|
      invariant Cells(m, set_, 0) == out + Cells(m, set_, k)
    {
      if m.rules[k].shadowed {
        continue;
      }
      var part := And(set_, m.rules[k].effective);
      if !IsFalse(part) {
        out := out + [(ByRule(m.rules[k].number), part)];
      }
    }
    var part := And(set_, m.fallthrough);
    if !IsFalse(part) {
      out := out + [(ByPolicy, part)];
    }
  }

  function Cells(m: ChainModel, set_: PacketSet, k: nat): seq<Cell>
    requires k <= |m.rules|
    decreases |m.rules| - k
  {
    if k == |m.rules| then
      var part := Both(set_, m.fallthrough);
      if IsFalse(part) then [] else [(ByPolicy, part)]
    else
      var part := Both(set_, m.rules[k].effective);
      if m.rules[k].shadowed || IsFalse(part) then Cells(m, set_, k + 1)
      else [(ByRule(m.rules[k].number), part)] + Cells(m, set_, k + 1)
  }

  /** The model puts point `p` in the cell of decider `d`. */
  ghost predicate Decides(m: ChainModel, d: Decider, p: Point) {
    match d
    case ByRule(n) => 1 <= n <= |m.rules| && Has(m.rules[n - 1].effective, p)
    case ByPolicy => Has(m.fallthrough, p)
  }

  /** Rules are numbered from one and shadowed rules decide nothing. */
  ghost predicate Tidy(m: ChainModel) {
    forall i | 0 <= i < |m.rules| ::
      m.rules[i].number == i + 1 && (m.rules[i].shadowed ==> IsFalse(m.rules[i].effective))
  }

  /** What cell `c` of a split of `set_` is: some of its points, all those its decider decides. */
  ghost predicate CellOf(m: ChainModel, set_: PacketSet, c: Cell) {
    !IsFalse(c.1) && forall p: Point :: Has(c.1, p) <==> Has(set_, p) && Decides(m, c.0, p)
  }

  /** The policy, or a rule after the first `k`. */
  predicate LaterDecider(d: Decider, k: nat) {
    d.ByPolicy? || d.number > k
  }

  /** Rules come in order of their numbers, and the policy after all of them. */
  predicate Earlier(d: Decider, e: Decider) {
    d.ByRule? && (e.ByRule? ==> d.number < e.number)
  }

  /** Attribution is exact: every cell is what it says, and the deciders come in order. */
  lemma {:induction false} CellsExact(m: ChainModel, set_: PacketSet, k: nat)
    requires Tidy(m) && k <= |m.rules|
    ensures forall c | c in Cells(m, set_, k) :: CellOf(m, set_, c) && LaterDecider(c.0, k)
    ensures forall i, j | 0 <= i < j < |Cells(m, set_, k)| :: Earlier(Cells(m, set_, k)[i].0, Cells(m, set_, k)[j].0)
    decreases |m.rules| - k
  {
    if k == |m.rules| {
      assert IsFalse(Both(set_, m.fallthrough)) || CellOf(m, set_, (ByPolicy, Both(set_, m.fallthrough)));
    } else {
      CellsExact(m, set_, k + 1);
      var c := (ByRule(m.rules[k].number), Both(set_, m.rules[k].effective));
      assert IsFalse(c.1) || CellOf(m, set_, c);
      assert Cells(m, set_, k) == Cells(m, set_, k + 1) || Cells(m, set_, k) == [c] + Cells(m, set_, k + 1);
    }
  }

  /** No point of the set is lost: the cell of its decider is there and holds it. */
  lemma {:induction false} CellsComplete(m: ChainModel, set_: PacketSet, k: nat, p: Point, d: Decider)
    requires Tidy(m) && k <= |m.rules|
    requires Has(set_, p) && Decides(m, d, p) && LaterDecider(d, k)
    ensures exists c | c in Cells(m, set_, k) :: c.0 == d && Has(c.1, p)
    decreases |m.rules| - k
  {
    var part := Both(set_, if k == |m.rules| then m.fallthrough else m.rules[k].effective);
    if k == |m.rules| {
      assert Has(part, p);
      assert (d, part) in Cells(m, set_, k);
    } else if d == ByRule(k + 1) {
      assert Has(part, p);
      assert (d, part) in Cells(m, set_, k);
    } else {
      CellsComplete(m, set_, k + 1, p, d);
    }
  }

  /** The rule or policy that decides point `p`. */
  ghost function DecidedBy(l: Layout, syms: SymbolTable, chain: Chain, p: Point): Decider
    requires l.Valid()
  {
    DeciderOf(chain, syms, PacketAt(l, p))
  }

  /** The model's cells are those of first-match evaluation. */
  lemma DecidesIsFirstMatch(m: ChainModel, l: Layout, syms: SymbolTable, chain: Chain, p: Point, d: Decider)
    requires l.Valid() && ModelOf(m, l, syms, chain) && chain.Numbered()
    ensures Decides(m, d, p) <==> DecidedBy(l, syms, chain, p) == d
  {
    hide Layout.Valid, Matches, Deletable, Permits, Reduced, Eval, PacketAt;
    var k := First(l, syms, chain.rules, p);
    if d.ByRule? && 1 <= d.number <= |m.rules| {
      assert RuleModelOf(m.rules[d.number - 1], l, syms, chain.rules, d.number - 1);
    }
    assert k < |chain.rules| ==> chain.rules[k].number == k + 1;
  }

  lemma ModelIsTidy(m: ChainModel, l: Layout, syms: SymbolTable, chain: Chain)
    requires l.Valid() && ModelOf(m, l, syms, chain) && chain.Numbered()
    ensures Tidy(m)
  {
    forall i | 0 <= i < |m.rules|
      ensures m.rules[i].number == i + 1 && (m.rules[i].shadowed ==> IsFalse(m.rules[i].effective))
    {
      assert RuleModelOf(m.rules[i], l, syms, chain.rules, i) && chain.rules[i].number == i + 1;
      FalseIsEmpty(m.rules[i].effective);
    }
  }

  // -------------------------------------------------------- shadow explanation

  ghost predicate Overlaps(m: ChainModel, target: PacketSet, j: nat) {
    j < |m.rules| && exists p: Point :: Has(target, p) && Has(m.rules[j].matched, p)
  }

  ghost predicate CoversAlone(m: ChainModel, target: PacketSet, j: nat) {
    j < |m.rules| && forall p: Point :: Has(target, p) ==> Has(m.rules[j].matched, p)
  }

  /** The first `k` rules together match all of `target`. */
  ghost predicate PrefixCovers(m: ChainModel, target: PacketSet, k: nat) {
    k <= |m.rules| && forall p: Point :: Has(target, p) ==> MatchedBefore(m, k, p)
  }

  ghost predicate MatchedBefore(m: ChainModel, k: nat, p: Point) {
    k <= |m.rules| && exists j :: 0 <= j < k && Has(m.rules[j].matched, p)
  }

  /** The numbers, up to `k`, of the rules that touch `target`, in rule order. */
  ghost predicate Contributors(m: ChainModel, target: PacketSet, k: nat, out: seq<nat>) {
    && (forall n: nat :: n in out <==> 1 <= n <= k && Overlaps(m, target, n - 1))
    && forall i, j | 0 <= i < j < |out| :: out[i] < out[j]
  }

  ghost predicate NumberedFromOne(m: ChainModel) {
    forall i | 0 <= i < |m.rules| :: m.rules[i].number == i + 1
  }

  /** The first earlier rule that covers the target on its own, if there is one. */
  method SingleCover(m: ChainModel, target: PacketSet, idx: nat) returns (found: bool, j: nat)
    requires idx <= |m.rules|
    ensures found ==> j < idx && CoversAlone(m, target, j) && forall i | 0 <= i < j :: !CoversAlone(m, target, i)
    ensures !found ==> forall i | 0 <= i < idx :: !CoversAlone(m, target, i)
  {
    found, j := false, 0;
    while j < idx
      invariant j <= idx
      invariant forall i | 0 <= i < j :: !CoversAlone(m, target, i)
    {
      var rest := AndNot(target, m.rules[j].matched);
      FalseIsEmpty(rest);
      if IsFalse(rest) {
        found := true;
        return;
      }
      j := j + 1;
    }
  }

  /** `out` is empty when there is nothing to explain; otherwise it is the first rule that covers
  the match set alone or, when none does, the overlapping rules of the shortest covering prefix. */
  ghost predicate Explained(m: ChainModel, number: nat, out: seq<nat>) {
    if number == 0 || number > |m.rules| || IsFalse(m.rules[number - 1].matched) then out == []
    else
      var target := m.rules[number - 1].matched;
      || (exists j: nat :: j < number - 1 && out == [j + 1] && CoversAlone(m, target, j)
            && forall i | 0 <= i < j :: !CoversAlone(m, target, i))
      || (exists k: nat :: k <= number - 1 && Contributors(m, target, k, out)
            && (forall i: nat | i < number - 1 :: !CoversAlone(m, target, i))
            && (forall i: nat | i < k :: !PrefixCovers(m, target, i))
            && (PrefixCovers(m, target, k) || k == number - 1))
  }

  /** Which earlier rules cover a shadowed rule's match set. One rule that covers it alone is
  preferred; otherwise the answer is the overlapping rules of the shortest covering prefix. */
  method ExplainShadow(m: ChainModel, number: nat) returns (out: seq<nat>)
    requires NumberedFromOne(m)
    ensures Explained(m, number, out)
  {
    out := [];
    if number == 0 || number > |m.rules| {
      return;
    }
    var idx := number - 1;
    var target := m.rules[idx].matched;
    if IsFalse(target) {
      return;
    }
    var found, j := SingleCover(m, target, idx);
    if found {
      out := [m.rules[j].number];
      return;
    }
    ghost var k;
    out, k := CoveringPrefix(m, target, idx);
  }

  /** `acc` holds, of the target, what the first `k` rules match. */
  ghost predicate Gathers(m: ChainModel, target: PacketSet, acc: PacketSet, k: nat) {
    forall p: Point :: Has(target, p) ==> (Has(acc, p) <==> MatchedBefore(m, k, p))
  }

  /** The accumulating loop: stop at the first prefix whose union covers the target. */
  method CoveringPrefix(m: ChainModel, target: PacketSet, idx: nat) returns (contributors: seq<nat>, ghost k: nat)
    requires idx <= |m.rules| && NumberedFromOne(m) && !IsFalse(target)
    ensures k <= idx && Contributors(m, target, k, contributors)
    ensures forall i: nat | i < k :: !PrefixCovers(m, target, i)
    ensures PrefixCovers(m, target, k) || k == idx
  {
    hide Gathers, Contributors, PrefixCovers, Overlaps, MatchedBefore, Reduced, Eval, Has, NumberedFromOne;
    var acc := Constant(false);
    contributors := [];
    NothingGathered(m, target, acc);
    var i := 0;
    k := 0;
    ghost var uncovered: nat := 0;
    while i < idx
      invariant i == k == uncovered <= idx && Contributors(m, target, k, contributors)
      invariant !PrefixCovers(m, target, k) && Gathers(m, target, acc, k)
    {
      var overlap := And(target, m.rules[i].matched);
      OverlapStep(m, target, acc, k, overlap, contributors);
      k := k + 1;
      if !IsFalse(overlap) {
        contributors := contributors + [m.rules[i].number];
        ghost var before := acc;
        acc := Or(acc, m.rules[i].matched);
        GatherStep(m, target, before, acc, uncovered);
        var rest := AndNot(target, acc);
        RestStep(m, target, acc, k, rest);
        if IsFalse(rest) {
          break;
        }
      }
      i := i + 1;
      uncovered := k;
    }
    forall j: nat | j <= uncovered
      ensures !PrefixCovers(m, target, j)
    {
      if PrefixCovers(m, target, j) { PrefixMonotone(m, target, j, uncovered); }
    }
  }

  lemma NothingGathered(m: ChainModel, target: PacketSet, acc: PacketSet)
    requires acc == Constant(false) && !IsFalse(target)
    ensures Gathers(m, target, acc, 0) && Contributors(m, target, 0, []) && !PrefixCovers(m, target, 0)
  {
    FalseIsEmpty(target);
  }

  /** A rule that does not touch the target contributes nothing and changes nothing. */
  lemma OverlapStep(m: ChainModel, target: PacketSet, acc: PacketSet, k: nat, overlap: PacketSet, out: seq<nat>)
    requires k < |m.rules| && NumberedFromOne(m) && Contributors(m, target, k, out)
    requires Gathers(m, target, acc, k) && !PrefixCovers(m, target, k)
    requires forall p: Point :: Has(overlap, p) <==> Has(target, p) && Has(m.rules[k].matched, p)
    ensures Contributors(m, target, k + 1, if IsFalse(overlap) then out else out + [m.rules[k].number])
    ensures IsFalse(overlap) ==> Gathers(m, target, acc, k + 1) && !PrefixCovers(m, target, k + 1)
  {
    FalseIsEmpty(overlap);
    assert IsFalse(overlap) <==> !Overlaps(m, target, k);
    hide Overlaps, Reduced, Eval, Has;
    ContributorStep(m, target, k, out);
    if IsFalse(overlap) {
      forall p: Point { MatchedOneMore(m, k, p); }
      hide MatchedBefore;
    }
  }

  lemma ContributorStep(m: ChainModel, target: PacketSet, k: nat, out: seq<nat>)
    requires k < |m.rules| && NumberedFromOne(m) && Contributors(m, target, k, out)
    ensures Contributors(m, target, k + 1, if Overlaps(m, target, k) then out + [m.rules[k].number] else out)
  {
    hide Overlaps, Reduced;
    var more := if Overlaps(m, target, k) then out + [m.rules[k].number] else out;
    forall i, j | 0 <= i < j < |more|
      ensures more[i] < more[j]
    {
      assert j < |out| ==> out[i] < out[j];
      if j == |out| { assert out[i] in out; }
    }
    forall n: nat
      ensures n in more <==> 1 <= n <= k + 1 && Overlaps(m, target, n - 1)
    {
      assert n in more <==> n in out || (Overlaps(m, target, k) && n == k + 1);
    }
  }

  lemma GatherStep(m: ChainModel, target: PacketSet, before: PacketSet, acc: PacketSet, k: nat)
    requires k < |m.rules| && Gathers(m, target, before, k)
    requires forall p: Point :: Has(acc, p) <==> Has(before, p) || Has(m.rules[k].matched, p)
    ensures Gathers(m, target, acc, k + 1)
  {
    forall p: Point { MatchedOneMore(m, k, p); }
    hide MatchedBefore, Reduced, Eval, Has;
  }

  lemma RestStep(m: ChainModel, target: PacketSet, acc: PacketSet, k: nat, rest: PacketSet)
    requires k <= |m.rules| && Gathers(m, target, acc, k)
    requires forall p: Point :: Has(rest, p) <==> Has(target, p) && !Has(acc, p)
    ensures IsFalse(rest) <==> PrefixCovers(m, target, k)
  {
    FalseIsEmpty(rest);
    hide MatchedBefore, Reduced, Eval, Has;
  }

  lemma MatchedOneMore(m: ChainModel, k: nat, p: Point)
    requires k < |m.rules|
    ensures MatchedBefore(m, k + 1, p) <==> MatchedBefore(m, k, p) || Has(m.rules[k].matched, p)
  {
  }

  lemma PrefixMonotone(m: ChainModel, target: PacketSet, j: nat, k: nat)
    requires j <= k <= |m.rules| && PrefixCovers(m, target, j)
    ensures PrefixCovers(m, target, k)
  {
    forall p: Point | Has(target, p)
      ensures MatchedBefore(m, k, p)
    {
      assert MatchedBefore(m, j, p);
    }
  }

  /** When the earlier rules do cover the target, so do the rules named. */
  lemma ExplanationCovers(m: ChainModel, target: PacketSet, k: nat, out: seq<nat>, p: Point)
    requires Contributors(m, target, k, out) && PrefixCovers(m, target, k) && Has(target, p)
    ensures exists n: nat :: n in out && 1 <= n <= k && Has(m.rules[n - 1].matched, p)
  {
    assert MatchedBefore(m, k, p);
    var j: nat :| j < k && Has(m.rules[j].matched, p);
    assert Overlaps(m, target, j);
    assert j + 1 in out;
  }

  /** A rule is shadowed exactly when the rules before it cover its match set. */
  lemma ShadowedIffCovered(m: ChainModel, l: Layout, syms: SymbolTable, chain: Chain, i: nat)
    requires l.Valid() && ModelOf(m, l, syms, chain) && i < |m.rules|
    ensures m.rules[i].shadowed <==> PrefixCovers(m, m.rules[i].matched, i)
  {
    forall p: Point
      ensures First(l, syms, chain.rules, p) == i <==> Has(m.rules[i].matched, p) && !MatchedBefore(m, i, p)
    {
      FirstByMatched(m, l, syms, chain, i, p);
    }
    assert RuleModelOf(m.rules[i], l, syms, chain.rules, i);
  }

  lemma FirstByMatched(m: ChainModel, l: Layout, syms: SymbolTable, chain: Chain, i: nat, p: Point)
    requires l.Valid() && ModelOf(m, l, syms, chain) && i < |m.rules|
    ensures First(l, syms, chain.rules, p) == i <==> Has(m.rules[i].matched, p) && !MatchedBefore(m, i, p)
  {
    var q := PacketAt(l, p);
    forall j | 0 <= j < |m.rules|
      ensures Has(m.rules[j].matched, p) <==> Matches(chain.rules[j].matches, syms, q)
    {
      assert RuleModelOf(m.rules[j], l, syms, chain.rules, j);
    }
    var k := First(l, syms, chain.rules, p);
    hide Matches, ModelOf, Layout.Valid;
    if k >= i {
      forall j: nat | j < i
        ensures !Has(m.rules[j].matched, p)
      {
        FirstMatchSound(chain.rules, syms, q, j);
      }
      FirstMatchSound(chain.rules, syms, q, i);
    } else {
      FirstMatchSound(chain.rules, syms, q, k);
      assert MatchedBefore(m, i, p);
    }
  }
}
