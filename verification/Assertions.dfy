/** Checking a policy's assertions against a compiled chain. */
module Assertions {
  import opened Wrappers
  import opened Intervals
  import opened Rules
  import opened Diagram
  import opened Header
  import opened Accept
  import opened Witness

  datatype Kind = Isolation | Reachability

  /** A zone name, or a literal with the addresses its text stands for (none when it is not an
  address, a prefix or a forward range). */
  datatype Endpoint = Zone(name: string) | Literal(addresses: Option<Addresses>)

  type Addresses = s: IntervalSet | s.bits == 32 witness Empty(32)
  type Ports = s: IntervalSet | s.bits == 16 witness Empty(16)
  type Protocols = s: IntervalSet | s.bits == 8 witness Empty(8)

  datatype Assertion = Assertion(
    name: string, kind: Kind,
    from: Option<Endpoint>, to: Option<Endpoint>,
    proto: Option<Protocols>, sport: Option<Ports>, dport: Option<Ports>,
    iif: Option<string>, oif: Option<string>,
    chain: Option<string>)

  datatype Policy = Policy(zones: map<string, Addresses>, assertions: seq<Assertion>) {
    /** The addresses of an endpoint; none when the zone is not defined or the literal is bad. */
    function Resolve(e: Endpoint): Option<Addresses> {
      match e
      case Zone(name) => if name in zones then Some(zones[name]) else None
      case Literal(addresses) => addresses
    }

    /** An endpoint the assertion names has addresses. */
    predicate Resolves(e: Option<Endpoint>) {
      e.Some? ==> Resolve(e.value).Some?
    }
  }

  function InterfaceMatch(name: Option<string>): IfMatch {
    match name
    case None => Any
    case Some(n) => OneOf([n])
  }

  /** Why a check established nothing. */
  datatype Reason = DescribesNoPacket | OnlyThePolicy

  datatype Outcome = Pass | Fail(counterexample: Packet) | Vacuous(reason: Reason)

  datatype Report = Report(name: string, kind: Kind, outcome: Outcome, chain: string)

  /** An endpoint without addresses, or an assertion without a chain to check. */
  datatype PolicyError = Unresolved(endpoint: Endpoint) | NoTarget(assertion: string)

  // ---------------------------------------------------------- what it means

  ghost predicate EndpointAdmits(policy: Policy, e: Option<Endpoint>, address: nat) {
    e.Some? ==> policy.Resolve(e.value).Some? && Contains(policy.Resolve(e.value).value, address)
  }

  ghost predicate ValueAdmits(s: Option<IntervalSet>, v: nat) {
    s.Some? ==> Contains(s.value, v)
  }

  /** The packets an assertion is about. */
  ghost predicate Describes(policy: Policy, syms: SymbolTable, a: Assertion, q: Packet) {
    && EndpointAdmits(policy, a.from, q.src) && EndpointAdmits(policy, a.to, q.dst)
    && ValueAdmits(a.proto, q.proto) && ValueAdmits(a.sport, q.sport) && ValueAdmits(a.dport, q.dport)
    && Admits(InterfaceMatch(a.iif), syms, q.iif) && Admits(InterfaceMatch(a.oif), syms, q.oif)
  }

  /** The verdict an assertion asks for. */
  predicate Wanted(kind: Kind) {
    kind.Reachability?
  }

  ghost predicate Verdict(chain: Chain, syms: SymbolTable, q: Packet) {
    Permitted(chain.rules, chain.policy, syms, q)
  }

  /** Some rule of the chain decides the packet. */
  ghost predicate DecidedByRule(chain: Chain, syms: SymbolTable, q: Packet) {
    FirstMatch(chain.rules, syms, q) < |chain.rules|
  }

  /** An in-domain packet the assertion describes. */
  ghost predicate Subject(policy: Policy, syms: SymbolTable, a: Assertion, q: Packet) {
    q.InDomain() && Describes(policy, syms, a, q)
  }

  /** The claim holds of every packet the assertion describes. */
  ghost predicate ClaimHolds(policy: Policy, syms: SymbolTable, a: Assertion, chain: Chain) {
    forall q: Packet :: Subject(policy, syms, a, q) ==> (Verdict(chain, syms, q) <==> Wanted(a.kind))
  }

  /** No packet of the assertion matches any rule. */
  ghost predicate SaysNothing(policy: Policy, syms: SymbolTable, a: Assertion, chain: Chain) {
    forall q: Packet :: Subject(policy, syms, a, q) ==> !DecidedByRule(chain, syms, q)
  }

  /** A packet of the assertion that gets the other verdict. */
  ghost predicate Breaks(policy: Policy, syms: SymbolTable, a: Assertion, chain: Chain, q: Packet) {
    Subject(policy, syms, a, q) && (Verdict(chain, syms, q) <==> !Wanted(a.kind))
  }

  /** What each outcome establishes. */
  ghost predicate OutcomeExact(o: Outcome, policy: Policy, syms: SymbolTable, a: Assertion, chain: Chain) {
    && (o.Vacuous? <==> SaysNothing(policy, syms, a, chain))
    && (o == Vacuous(DescribesNoPacket) <==> forall q: Packet :: !Subject(policy, syms, a, q))
    && (!o.Vacuous? ==> (o.Pass? <==> ClaimHolds(policy, syms, a, chain)))
    && (o.Fail? ==> Breaks(policy, syms, a, chain, o.counterexample))
  }

  // ------------------------------------------------------------- the checker

  /** Narrow one dimension when the assertion says something about it. */
  function Narrowed(m: Match, f: Field, s: Option<IntervalSet>): Match
    requires !f.IsInterface() && (s.Some? ==> s.value.bits == f.Bits())
  {
    if s.None? then m else Constrain(m, f, s.value)
  }

  /** What narrowing makes of an unconstrained dimension. */
  function NarrowedSet(bits: nat, s: Option<IntervalSet>): (r: IntervalSet)
    requires s.Some? ==> s.value.bits == bits
    ensures r.bits == bits
    ensures forall v: nat :: Contains(r, v) <==> v <= DomainMax(bits) && ValueAdmits(s, v)
  {
    if s.None? then Full(bits) else Meet(Full(bits), s.value)
  }

  /** The match predicate of an assertion with resolved endpoints. */
  method AssertionMatch(from: Option<Addresses>, to: Option<Addresses>, a: Assertion) returns (m: Match)
    ensures m == RawMatch(NarrowedSet(32, from), NarrowedSet(32, to),
                          NarrowedSet(16, a.sport), NarrowedSet(16, a.dport), NarrowedSet(8, a.proto),
                          InterfaceMatch(a.iif), InterfaceMatch(a.oif))
  {
    hide Contains, Canonical;
    m := AnyMatch();
    m := Narrowed(m, SrcAddr, from);
    m := Narrowed(m, DstAddr, to);
    m := Narrowed(m, Proto, a.proto);
    m := Narrowed(m, SrcPort, a.sport);
    m := Narrowed(m, DstPort, a.dport);
    m := m.(iif := InterfaceMatch(a.iif), oif := InterfaceMatch(a.oif));
  }

  /** The packets an assertion is about, or an error when an endpoint has no definition. */
  method AssertionSet(l: Layout, syms: SymbolTable, policy: Policy, a: Assertion)
    returns (r: Result<PacketSet, PolicyError>)
    requires l.Valid() && syms.Valid()
    ensures r.Ok? <==> policy.Resolves(a.from) && policy.Resolves(a.to)
    ensures r.Ok? ==> forall p: Point :: Has(r.value, p) <==> Describes(policy, syms, a, PacketAt(l, p))
  {
    hide Layout.Valid, Contains, Canonical, PacketAt, Describes, Matches, NarrowedSet;
    var from: Option<Addresses>, to: Option<Addresses> := None, None;
    if a.from.Some? {
      from := policy.Resolve(a.from.value);
      if from.None? {
        return Err(Unresolved(a.from.value));
      }
    }
    if a.to.Some? {
      to := policy.Resolve(a.to.value);
      if to.None? {
        return Err(Unresolved(a.to.value));
      }
    }
    var m := AssertionMatch(from, to, a);
    var s := MatchSet(l, m, syms);
    forall p: Point
      ensures Has(s, p) <==> Describes(policy, syms, a, PacketAt(l, p))
    {
      PacketInDomain(l, p);
      MatchDescribes(syms, policy, a, from, to, m, PacketAt(l, p));
    }
    r := Ok(s);
  }

  /** The addresses an endpoint stands for, none when the assertion does not name one. */
  ghost predicate ResolvedTo(policy: Policy, e: Option<Endpoint>, s: Option<Addresses>) {
    if e.None? then s.None? else s.Some? && policy.Resolve(e.value) == s
  }

  lemma MatchDescribes(syms: SymbolTable, policy: Policy, a: Assertion, from: Option<Addresses>, to: Option<Addresses>,
                       m: Match, q: Packet)
    requires ResolvedTo(policy, a.from, from) && ResolvedTo(policy, a.to, to) && q.InDomain()
    requires m == RawMatch(NarrowedSet(32, from), NarrowedSet(32, to), NarrowedSet(16, a.sport),
      NarrowedSet(16, a.dport),
                           NarrowedSet(8, a.proto), InterfaceMatch(a.iif), InterfaceMatch(a.oif))
    ensures Matches(m, syms, q) <==> Describes(policy, syms, a, q)
  {
    hide Contains, Canonical, Admits, InterfaceMatch, Matches, NarrowedSet;
    assert q.Get(SrcAddr) <= DomainMax(32) && q.Get(DstAddr) <= DomainMax(32);
    assert q.Get(SrcPort) <= DomainMax(16) && q.Get(DstPort) <= DomainMax(16) && q.Get(Proto) <= DomainMax(8);
    assert ValueAdmits(from, q.src) <==> EndpointAdmits(policy, a.from, q.src);
    assert ValueAdmits(to, q.dst) <==> EndpointAdmits(policy, a.to, q.dst);
    MatchesFields(m, syms, q);
  }

  lemma MatchesFields(m: Match, syms: SymbolTable, q: Packet)
    ensures Matches(m, syms, q) <==>
      && Contains(m.srcAddr, q.src) && Contains(m.dstAddr, q.dst) && Contains(m.srcPort, q.sport)
      && Contains(m.dstPort, q.dport) && Contains(m.proto, q.proto)
      && Admits(m.iif, syms, q.iif) && Admits(m.oif, syms, q.oif)
  {
    hide Contains, Canonical, Admits, WellSized;
    if Matches(m, syms, q) {
      assert Contains(m.Dim(SrcAddr), q.Get(SrcAddr)) && Contains(m.Dim(DstAddr), q.Get(DstAddr));
      assert Contains(m.Dim(SrcPort), q.Get(SrcPort)) && Contains(m.Dim(DstPort), q.Get(DstPort));
      assert Contains(m.Dim(Proto), q.Get(Proto));
    }
  }

  /** The packet is in the set and gets the other verdict from the compiled chain. */
  ghost predicate Offends(l: Layout, model: ChainModel, kind: Kind, set_: PacketSet, q: Packet)
    requires l.Valid()
  {
    q.InDomain() && Has(set_, PointOf(l, q)) && (Has(model.accept, PointOf(l, q)) <==> !Wanted(kind))
  }

  /** The outcome, from the packet set of the assertion. */
  method Judge(l: Layout, model: ChainModel, kind: Kind, set_: PacketSet) returns (o: Outcome)
    requires l.Valid()
    ensures o == Vacuous(DescribesNoPacket) <==> forall p: Point :: !Has(set_, p)
    ensures o.Vacuous? <==> forall p: Point :: !(Has(set_, p) && Has(model.matchedAny, p))
    ensures o.Pass? ==> forall p: Point :: Has(set_, p) ==> (Has(model.accept, p) <==> Wanted(kind))
    ensures o.Fail? ==> Offends(l, model, kind, set_, o.counterexample)
  {
    hide Layout.Valid, Reduced, Eval, PointOf;
    var decided := And(set_, model.matchedAny);
    FalseIsEmpty(set_);
    FalseIsEmpty(decided);
    if IsFalse(set_) {
      return Vacuous(DescribesNoPacket);
    } else if IsFalse(decided) {
      return Vacuous(OnlyThePolicy);
    }
    var offending;
    match kind {
      case Isolation => offending := And(set_, model.accept);
      case Reachability => offending := AndNot(set_, model.accept);
    }
    var found := PacketIn(l, offending);
    match found {
      case Some(q) => o := Fail(q);
      case None => o := Pass;
    }
  }

  /** Check one assertion against one chain. */
  method Check(l: Layout, syms: SymbolTable, policy: Policy, model: ChainModel, a: Assertion, ghost chain: Chain)
    returns (r: Result<Report, PolicyError>)
    requires l.Valid() && syms.Valid() && ModelOf(model, l, syms, chain)
    ensures r.Ok? <==> policy.Resolves(a.from) && policy.Resolves(a.to)
    ensures r.Ok? ==> r.value.name == a.name && r.value.kind == a.kind && r.value.chain == chain.name
    ensures r.Ok? ==> OutcomeExact(r.value.outcome, policy, syms, a, chain)
  {
    ModelName(model, l, syms, chain);
    hide *;
    var compiled := AssertionSet(l, syms, policy, a);
    if compiled.Err? {
      return Err(compiled.error);
    }
    var outcome := Judge(l, model, a.kind, compiled.value);
    CompiledIs(l, syms, policy, model, a, chain, compiled.value);
    JudgedExactly(l, syms, policy, model, a, chain, compiled.value, outcome);
    r := Ok(Report(a.name, a.kind, outcome, model.name));
  }

  lemma CompiledIs(l: Layout, syms: SymbolTable, policy: Policy, model: ChainModel, a: Assertion, chain: Chain,
                   set_: PacketSet)
    requires l.Valid() && ModelOf(model, l, syms, chain)
    requires forall p: Point :: Has(set_, p) <==> Describes(policy, syms, a, PacketAt(l, p))
    ensures Compiled(l, syms, policy, model, a, chain, set_)
  {
  }

  lemma ModelName(m: ChainModel, l: Layout, syms: SymbolTable, chain: Chain)
    requires l.Valid() && ModelOf(m, l, syms, chain)
    ensures m.name == chain.name
  {
  }

  /** The point set is that of the assertion, the model that of the chain. */
  ghost predicate Compiled(l: Layout, syms: SymbolTable, policy: Policy, model: ChainModel, a: Assertion,
                           chain: Chain, set_: PacketSet)
    requires l.Valid()
  {
    ModelOf(model, l, syms, chain) && forall p: Point :: Has(set_, p) <==> Describes(policy, syms, a, PacketAt(l, p))
  }

  /** From points to packets. */
  lemma JudgedExactly(l: Layout, syms: SymbolTable, policy: Policy, model: ChainModel, a: Assertion, chain: Chain,
                      set_: PacketSet, o: Outcome)
    requires l.Valid() && Compiled(l, syms, policy, model, a, chain, set_)
    requires o == Vacuous(DescribesNoPacket) <==> forall p: Point :: !Has(set_, p)
    requires o.Vacuous? <==> forall p: Point :: !(Has(set_, p) && Has(model.matchedAny, p))
    requires o.Pass? ==> forall p: Point :: Has(set_, p) ==> (Has(model.accept, p) <==> Wanted(a.kind))
    requires o.Fail? ==> Offends(l, model, a.kind, set_, o.counterexample)
    ensures OutcomeExact(o, policy, syms, a, chain)
  {
    hide Layout.Valid, Compiled, Has, Verdict;
    NothingDescribed(l, syms, policy, model, a, chain, set_);
    NothingDecided(l, syms, policy, model, a, chain, set_);
    if o.Pass? { EverythingRight(l, syms, policy, model, a, chain, set_); }
    if o.Fail? {
      PointIsPacket(l, syms, policy, model, a, chain, set_, o.counterexample);
      assert Breaks(policy, syms, a, chain, o.counterexample);
    }
  }

  lemma NothingDescribed(l: Layout, syms: SymbolTable, policy: Policy, model: ChainModel, a: Assertion, chain: Chain,
                         set_: PacketSet)
    requires l.Valid() && Compiled(l, syms, policy, model, a, chain, set_)
    ensures (forall p: Point :: !Has(set_, p)) <==> forall q: Packet :: !Subject(policy, syms, a, q)
  {
    hide Layout.Valid, Compiled, Has, Verdict, Describes;
    if p: Point :| Has(set_, p) {
      PacketIsPoint(l, syms, policy, model, a, chain, set_, p);
    }
    if q: Packet :| Subject(policy, syms, a, q) {
      PointIsPacket(l, syms, policy, model, a, chain, set_, q);
    }
  }

  lemma NothingDecided(l: Layout, syms: SymbolTable, policy: Policy, model: ChainModel, a: Assertion, chain: Chain,
                       set_: PacketSet)
    requires l.Valid() && Compiled(l, syms, policy, model, a, chain, set_)
    ensures (forall p: Point :: !(Has(set_, p) && Has(model.matchedAny, p))) <==> SaysNothing(policy, syms, a, chain)
  {
    hide Layout.Valid, Compiled, Has, Verdict, Describes, DecidedByRule;
    if p: Point :| Has(set_, p) && Has(model.matchedAny, p) {
      PacketIsPoint(l, syms, policy, model, a, chain, set_, p);
    }
    if q: Packet :| Subject(policy, syms, a, q) && DecidedByRule(chain, syms, q) {
      PointIsPacket(l, syms, policy, model, a, chain, set_, q);
    }
  }

  lemma EverythingRight(l: Layout, syms: SymbolTable, policy: Policy, model: ChainModel, a: Assertion, chain: Chain,
                        set_: PacketSet)
    requires l.Valid() && Compiled(l, syms, policy, model, a, chain, set_)
    requires forall p: Point :: Has(set_, p) ==> (Has(model.accept, p) <==> Wanted(a.kind))
    ensures ClaimHolds(policy, syms, a, chain)
  {
    hide Layout.Valid, Compiled, Has, Verdict, Describes;
    forall q: Packet | Subject(policy, syms, a, q)
      ensures Verdict(chain, syms, q) <==> Wanted(a.kind)
    {
      PointIsPacket(l, syms, policy, model, a, chain, set_, q);
    }
  }

  lemma PacketIsPoint(l: Layout, syms: SymbolTable, policy: Policy, model: ChainModel, a: Assertion, chain: Chain,
                      set_: PacketSet, p: Point)
    requires l.Valid() && Compiled(l, syms, policy, model, a, chain, set_) && Has(set_, p)
    ensures Subject(policy, syms, a, PacketAt(l, p))
    ensures Has(model.matchedAny, p) <==> DecidedByRule(chain, syms, PacketAt(l, p))
  {
    PacketInDomain(l, p);
    hide Layout.Valid, Describes, PacketAt, Reduced, Eval, RuleModelOf, Deletable, Permitted, FirstMatch;
  }

  lemma PointIsPacket(l: Layout, syms: SymbolTable, policy: Policy, model: ChainModel, a: Assertion, chain: Chain,
                      set_: PacketSet, q: Packet)
    requires l.Valid() && Compiled(l, syms, policy, model, a, chain, set_) && q.InDomain()
    ensures Has(set_, PointOf(l, q)) <==> Describes(policy, syms, a, q)
    ensures Has(model.accept, PointOf(l, q)) <==> Verdict(chain, syms, q)
    ensures Has(model.matchedAny, PointOf(l, q)) <==> DecidedByRule(chain, syms, q)
  {
    PacketOfPoint(l, q);
    hide Layout.Valid, Describes, PacketAt, PointOf, Reduced, Eval, RuleModelOf, Deletable, Permitted, FirstMatch;
  }

  // ---------------------------------------------------------- what it is worth

  /** Being decided by a rule is matching some rule. */
  lemma DecidedIffMatched(rules: seq<Rule>, syms: SymbolTable, q: Packet)
    ensures FirstMatch(rules, syms, q) < |rules| <==> exists i :: 0 <= i < |rules| && Matches(rules[i].matches, syms, q)
  {
    hide Matches, FirstMatch;
    var k := FirstMatch(rules, syms, q);
    if k < |rules| { FirstMatchSound(rules, syms, q, k); }
    if k == |rules| {
      forall i | 0 <= i < |rules|
        ensures !Matches(rules[i].matches, syms, q)
      {
        FirstMatchSound(rules, syms, q, i);
      }
    }
  }

  /** A vacuous assertion holds exactly when it describes no packet or the default policy
  happens to give the verdict it asks for. */
  lemma VacuousHoldsExactly(policy: Policy, syms: SymbolTable, a: Assertion, chain: Chain)
    requires SaysNothing(policy, syms, a, chain)
    ensures ClaimHolds(policy, syms, a, chain) <==>
      (forall q: Packet :: !Subject(policy, syms, a, q)) || (chain.policy.Permits() <==> Wanted(a.kind))
  {
    hide Subject, FirstMatch;
    forall q: Packet | Subject(policy, syms, a, q)
      ensures Verdict(chain, syms, q) <==> chain.policy.Permits()
    {
      assert !DecidedByRule(chain, syms, q);
    }
    hide Verdict;
    if ClaimHolds(policy, syms, a, chain) {
      if q: Packet :| Subject(policy, syms, a, q) { assert Verdict(chain, syms, q) <==> Wanted(a.kind); }
    }
  }

  /** So being vacuous is not holding: isolation from everything, under an accept policy without rules. */
  lemma VacuousNeedNotHold(policy: Policy, syms: SymbolTable)
    ensures var a := Assertion("any", Isolation, None, None, None, None, None, None, None, None);
      var chain := Chain("input", Input, Accept, []);
      SaysNothing(policy, syms, a, chain) && !ClaimHolds(policy, syms, a, chain)
  {
    var a := Assertion("any", Isolation, None, None, None, None, None, None, None, None);
    var chain := Chain("input", Input, Accept, []);
    var q := Packet(0, 0, 0, 0, 0, 0, 0);
    assert forall f: Field :: q.Get(f) == 0;
    assert Subject(policy, syms, a, q);
    assert Verdict(chain, syms, q);
  }

  // -------------------------------------------------------------- evaluation

  /** The assertion is checked against this chain. */
  predicate Applies(a: Assertion, name: string) {
    a.chain.Some? ==> name == a.chain.value
  }

  /** The positions, from `k` on, of the chains an assertion applies to. */
  function TargetsFrom(a: Assertion, models: seq<ChainModel>, k: nat): seq<nat>
    requires k <= |models|
    decreases |models| - k
  {
    if k == |models| then []
    else if Applies(a, models[k].name) then [k] + TargetsFrom(a, models, k + 1)
    else TargetsFrom(a, models, k + 1)
  }

  lemma {:induction false} TargetsAre(a: Assertion, models: seq<ChainModel>, k: nat)
    requires k <= |models|
    ensures forall i: nat :: i in TargetsFrom(a, models, k) <==> k <= i < |models| && Applies(a, models[i].name)
    decreases |models| - k
  {
    hide Applies;
    if k < |models| { TargetsAre(a, models, k + 1); }
  }

  ghost predicate ModelsOf(models: seq<ChainModel>, l: Layout, syms: SymbolTable, chains: seq<Chain>)
    requires l.Valid()
  {
    |models| == |chains| && forall i | 0 <= i < |models| :: ModelOf(models[i], l, syms, chains[i])
  }

  /** The report of one assertion on one chain. */
  ghost predicate ReportExact(r: Report, policy: Policy, syms: SymbolTable, a: Assertion, chain: Chain) {
    && r.name == a.name && r.kind == a.kind && r.chain == chain.name
    && OutcomeExact(r.outcome, policy, syms, a, chain)
  }

  /** One report for each target, in order. */
  ghost predicate ReportsExact(out: seq<Report>, policy: Policy, syms: SymbolTable, a: Assertion, chains: seq<Chain>,
                               targets: seq<nat>) {
    && |out| == |targets|
    && forall i | 0 <= i < |out| :: targets[i] < |chains| && ReportExact(out[i], policy, syms, a, chains[targets[i]])
  }

  /** The assertion can be checked: its endpoints resolve and some chain is its target. */
  ghost predicate Checkable(policy: Policy, a: Assertion, models: seq<ChainModel>) {
    && policy.Resolves(a.from) && policy.Resolves(a.to)
    && exists i :: 0 <= i < |models| && Applies(a, models[i].name)
  }

  /** Check one assertion against every chain it applies to; an assertion without one is an error. */
  method CheckTargets(l: Layout, syms: SymbolTable, policy: Policy, models: seq<ChainModel>, a: Assertion,
                      ghost chains: seq<Chain>)
    returns (r: Result<seq<Report>, PolicyError>)
    requires l.Valid() && syms.Valid() && ModelsOf(models, l, syms, chains)
    ensures r.Ok? <==> Checkable(policy, a, models)
    ensures r.Ok? ==> ReportsExact(r.value, policy, syms, a, chains, TargetsFrom(a, models, 0))
  {
    hide Layout.Valid, OutcomeExact, ModelOf, Applies, TargetsFrom;
    var targets := TargetsFrom(a, models, 0);
    TargetsAre(a, models, 0);
    if targets == [] {
      return Err(NoTarget(a.name));
    }
    assert targets[0] in targets;
    var out: seq<Report> := [];
    for k := 0 to |targets|
      invariant |out| == k
      invariant forall i | 0 <= i < k ::
        targets[i] < |chains| && ReportExact(out[i], policy, syms, a, chains[targets[i]])
      invariant k > 0 ==> policy.Resolves(a.from) && policy.Resolves(a.to)
    {
      assert targets[k] in targets;
      var one := Check(l, syms, policy, models[targets[k]], a, chains[targets[k]]);
      if one.Err? {
        return Err(one.error);
      }
      out := out + [one.value];
    }
    r := Ok(out);
  }

  /** Check every assertion against every chain it applies to. The reports come in the order of
  the assertions; `parts` is the same list cut by assertion. */
  method Evaluate(l: Layout, syms: SymbolTable, policy: Policy, models: seq<ChainModel>, ghost chains: seq<Chain>)
    returns (r: Result<seq<Report>, PolicyError>, ghost parts: seq<seq<Report>>)
    requires l.Valid() && syms.Valid() && ModelsOf(models, l, syms, chains)
    ensures r.Ok? <==> forall a | a in policy.assertions :: Checkable(policy, a, models)
    ensures r.Ok? ==> r.value == Joined(parts) && |parts| == |policy.assertions|
    ensures r.Ok? ==> forall i | 0 <= i < |parts| ::
      ReportsExact(parts[i], policy, syms, policy.assertions[i], chains, TargetsFrom(policy.assertions[i], models, 0))
  {
    hide Layout.Valid, ReportsExact, ModelsOf, Checkable, TargetsFrom;
    var out: seq<Report> := [];
    parts := [];
    for k := 0 to |policy.assertions|
      invariant |parts| == k && out == Joined(parts)
      invariant forall i | 0 <= i < k :: Checkable(policy, policy.assertions[i], models)
      invariant forall i | 0 <= i < k ::
        ReportsExact(parts[i], policy, syms, policy.assertions[i], chains, TargetsFrom(policy.assertions[i], models, 0))
    {
      var part := CheckTargets(l, syms, policy, models, policy.assertions[k], chains);
      if part.Err? {
        r := Err(part.error);
        return;
      }
      JoinedSnoc(parts, part.value);
      out := out + part.value;
      parts := parts + [part.value];
    }
    r := Ok(out);
  }

  function Joined(parts: seq<seq<Report>>): seq<Report> {
    if parts == [] then [] else parts[0] + Joined(parts[1..])
  }

  lemma {:induction false} JoinedSnoc(parts: seq<seq<Report>>, last: seq<Report>)
    ensures Joined(parts + [last]) == Joined(parts) + last
  {
    if parts == [] {
      assert Joined([last]) == last + Joined([]);
    } else {
      assert (parts + [last])[1..] == parts[1..] + [last];
      JoinedSnoc(parts[1..], last);
    }
  }
}
