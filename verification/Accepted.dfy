/** What every ruleset the parser accepts satisfies. */
module Accepted {
  import opened Wrappers
  import opened Intervals
  import opened Rules
  import opened Lexer
  import opened Grammar

  // -------------------------------------------------- ports are always pinned

  ghost predicate Only(s: IntervalSet, n: nat) {
    forall v: nat :: Contains(s, v) ==> v == n
  }

  /** No port constraint, or the protocol is pinned to tcp or to udp. */
  ghost predicate PortsPinned(m: Match) {
    || (m.srcPort == Full(16) && m.dstPort == Full(16))
    || Only(m.proto, 6) || Only(m.proto, 17)
  }

  /** What holds of a rule being read. */
  ghost predicate Reading(st: RuleState) {
    && (!st.portsConstrained ==> st.matches.srcPort == Full(16) && st.matches.dstPort == Full(16))
    && (st.portsConstrained ==> Only(st.matches.proto, 6) || Only(st.matches.proto, 17))
  }

  lemma MeetOnly(a: IntervalSet, b: IntervalSet, n: nat)
    requires a.bits == b.bits
    ensures Only(a, n) || Only(b, n) ==> Only(Meet(a, b), n)
  {
  }

  lemma PointOnly(n: nat)
    requires n <= DomainMax(8)
    ensures Only(Point(8, n), n)
  {
  }

  lemma ProtoStep(st: RuleState, s: IntervalSet)
    requires Reading(st) && s.bits == 8
    ensures Reading(st.(matches := Constrain(st.matches, Proto, s)))
  {
    hide Only, Canonical;
    MeetOnly(st.matches.proto, s, 6);
    MeetOnly(st.matches.proto, s, 17);
  }

  lemma AddressStep(st: RuleState, f: Field, s: IntervalSet)
    requires Reading(st) && s.bits == 32 && (f == SrcAddr || f == DstAddr)
    ensures Reading(st.(matches := Constrain(st.matches, f, s)))
  {
    hide Only, Canonical;
  }

  lemma PortStep(ts: seq<Tok>, st: RuleState, protocol: nat)
    requires Reading(st) && (protocol == 6 || protocol == 17) && PortMatch(ts, st, protocol).Got?
    ensures Reading(PortMatch(ts, st, protocol).value)
  {
    hide Only, Canonical, Spec;
    Widths();
    PointOnly(protocol);
    MeetOnly(st.matches.proto, Point(8, protocol), protocol);
  }

  lemma ClauseKeeps(ts: seq<Tok>, k: Keyword, hook: Hook, st: RuleState)
    requires Reading(st) && (k.OnPorts? ==> k.protocol == 6 || k.protocol == 17) && Clause(ts, k, hook, st).Got?
    ensures Reading(Clause(ts, k, hook, st).value)
  {
    hide Reading, Spec, IfSpec, SkipCounter, SkipLog, SkipStatement, Constrain, Canonical, WellSized;
    match k
    case OnIp =>
      var what := ExpectWord(ts);
      var d := IpDimension(what.value).value;
      var s := Spec(what.rest, d.1).value;
      if d.0 == Proto { ProtoStep(st, s); } else { AddressStep(st, d.0, s); }
    case OnMeta =>
      var what := ExpectWord(ts);
      if what.value == "l4proto" {
        ProtoStep(st, Spec(what.rest, Protocol).value);
      } else {
        IifKeeps(st, IfSpec(what.rest).value);
      }
    case OnPorts(protocol) => PortStep(ts, st, protocol);
    case OnIifname => IifKeeps(st, IfSpec(ts).value);
    case OnVerdict(action) => ActionKeeps(st, action);
    case OnReject => ActionKeeps(st, Reject);
    case _ =>
  }

  lemma IifKeeps(st: RuleState, s: IfMatch)
    requires Reading(st)
    ensures Reading(st.(matches := WithIif(st.matches, s)))
  {
    hide Only, Canonical;
  }

  lemma ActionKeeps(st: RuleState, action: Action)
    requires Reading(st)
    ensures Reading(st.(action := Some(action)))
  {
    hide Only, Canonical;
  }

  lemma {:induction false} ClausesKeep(ts: seq<Tok>, hook: Hook, st: RuleState)
    requires Reading(st) && Clauses(ts, hook, st).Got?
    ensures Reading(Clauses(ts, hook, st).value)
    decreases |ts|
  {
    hide Reading, Clause, KeywordOf, Canonical, WellSized;
    if !EndsStatement(Peek(ts)) {
      var k := KeywordOf(Peek(ts).text);
      var step := Clause(Bump(ts), k, hook, st);
      ClauseKeeps(Bump(ts), k, hook, st);
      ClausesKeep(step.rest, hook, step.value);
    }
  }

  lemma NewRuleReads()
    ensures Reading(NewRule())
  {
  }

  /** A rule the parser accepts can match, and constrains ports only with tcp or udp pinned. */
  ghost predicate GoodMatch(m: Match) {
    !IsUnsatisfiable(m) && PortsPinned(m)
  }

  lemma AcceptedRule(ts: seq<Tok>, hook: Hook)
    requires ParseRule(ts, hook).Got?
    ensures GoodMatch(ParseRule(ts, hook).value.0)
  {
    NewRuleReads();
    ClausesKeep(ts, hook, NewRule());
    hide Clauses, Only, Canonical;
  }

  /** The port gate never rejects what the protocol-implying port match lets through: a rule the
  parser has read is sound exactly when it can match. */
  lemma PortGateIsImplied(ts: seq<Tok>, hook: Hook)
    requires Clauses(ts, hook, NewRule()).Got?
    ensures var st := Clauses(ts, hook, NewRule()).value; IsSound(st) <==> !IsUnsatisfiable(st.matches)
  {
    NewRuleReads();
    ClausesKeep(ts, hook, NewRule());
    var st := Clauses(ts, hook, NewRule()).value;
    hide Clauses, Canonical;
    if st.portsConstrained {
      if Only(st.matches.proto, 6) { OnlyPins(st.matches.proto, 6); } else { OnlyPins(st.matches.proto, 17); }
    }
  }

  lemma OnlyPins(s: IntervalSet, n: nat)
    requires Only(s, n) && PortBearing(n) && s.bits == 8
    ensures PinsPorts(s)
  {
    Widths();
    FullAndEmpty(s);
    assert (Contains(s, 0) ==> 0 == n) && (Contains(s, 1) ==> 1 == n);
    forall i | 0 <= i < |s.ranges|
      ensures forall p: nat | s.ranges[i].0 <= p <= s.ranges[i].1 :: PortBearing(p)
    {
      forall p: nat | s.ranges[i].0 <= p <= s.ranges[i].1
        ensures PortBearing(p)
      {
        assert Contains(s, p);
      }
    }
  }

  // -------------------------------------------------------- whole rulesets

  ghost predicate GoodRules(rules: seq<Rule>) {
    forall i | 0 <= i < |rules| :: GoodMatch(rules[i].matches)
  }

  ghost predicate GoodChain(c: Chain) {
    c.Numbered() && GoodRules(c.rules) && (c.policy == Accept || c.policy == Drop)
  }

  ghost predicate GoodChains(cs: seq<Chain>) {
    forall i | 0 <= i < |cs| :: GoodChain(cs[i])
  }

  lemma PushKeeps(c: Chain, m: Match, action: Action)
    requires GoodChain(c) && GoodMatch(m)
    ensures GoodChain(c.Push(m, action))
  {
    hide GoodMatch;
  }

  lemma {:induction false} RulesAccepted(ts: seq<Tok>, chain: Chain)
    requires GoodChain(chain) && RulesOf(ts, chain).Got?
    ensures GoodChain(RulesOf(ts, chain).value)
    decreases |ts|
  {
    hide ParseRule, GoodChain, GoodMatch, Chain.Push;
    var t1 := SkipBreaks(ts);
    if Peek(t1) != Sym('}') {
      AcceptedRule(t1, chain.hook);
      var rule := ParseRule(t1, chain.hook);
      PushKeeps(chain, rule.value.0, rule.value.1);
      RulesAccepted(rule.rest, chain.Push(rule.value.0, rule.value.1));
    }
  }

  lemma ChainAccepted(ts: seq<Tok>)
    requires ParseChain(ts).Got?
    ensures GoodChain(ParseChain(ts).value)
  {
    hide ChainHead, Priority, RulesOf;
    var head := ChainHead(ts);
    var priority := Priority(head.rest);
    var policy := PolicyOf(priority.rest);
    RulesAccepted(policy.rest, Chain(head.value.0, head.value.1, policy.value, []));
  }

  lemma {:induction false} ChainsAccepted(ts: seq<Tok>, chains: seq<Chain>)
    requires GoodChains(chains) && ChainsOf(ts, chains).Got?
    ensures GoodChains(ChainsOf(ts, chains).value)
    decreases |ts|
  {
    hide ParseChain, GoodChain;
    var t1 := SkipBreaks(ts);
    if Peek(t1) != Sym('}') {
      ChainAccepted(Bump(t1));
      var chain := ParseChain(Bump(t1));
      ChainsAccepted(chain.rest, chains + [chain.value]);
    }
  }

  lemma TableAccepted(ts: seq<Tok>)
    requires ParseTable(ts).Got?
    ensures GoodChains(ParseTable(ts).value)
  {
    hide ChainsOf, GoodChain;
    var t3 := ExpectSym(ExpectWord(ExpectWord(ts).rest).rest, '{').rest;
    ChainsAccepted(t3, []);
  }

  lemma {:induction false} TablesAccepted(ts: seq<Tok>, chains: seq<Chain>)
    requires GoodChains(chains) && TablesOf(ts, chains).Ok?
    ensures GoodChains(TablesOf(ts, chains).value)
    decreases |ts|
  {
    hide ParseTable, GoodChain;
    var t1 := SkipBreaks(ts);
    if Peek(t1) != Eof {
      var table := ParseTable(Bump(t1));
      TableAccepted(Bump(t1));
      TablesAccepted(table.rest, chains + table.value);
    }
  }

  /** Every chain of every accepted file: rules numbered from one, none that cannot match, ports
  constrained only with tcp or udp pinned, policy accept or drop. */
  lemma FileAccepted(src: string)
    requires ChainsIn(src).Ok?
    ensures GoodChains(ChainsIn(src).value)
  {
    hide TokensOf, TablesOf, GoodChain;
    TablesAccepted(TokensOf(src, true).value, []);
  }

  // ------------------------------------------------------ what that is worth

  /** The packets differ at most in their ports. */
  predicate SameButPorts(a: Packet, b: Packet) {
    a.(sport := b.sport, dport := b.dport) == b
  }

  predicate PortsInDomain(q: Packet) {
    q.sport <= 65535 && q.dport <= 65535
  }

  lemma MatchIgnoresPorts(m: Match, syms: SymbolTable, a: Packet, b: Packet)
    requires PortsPinned(m) && SameButPorts(a, b) && PortsInDomain(a) && PortsInDomain(b) && !PortBearing(a.proto)
    requires Matches(m, syms, a)
    ensures Matches(m, syms, b)
  {
    hide Contains, Admits, Canonical;
    Widths();
    assert Contains(m.Dim(Proto), a.Get(Proto));
    assert m.srcPort == Full(16) && m.dstPort == Full(16);
    forall f: Field | !f.IsInterface()
      ensures Contains(m.Dim(f), b.Get(f))
    {
      if f != SrcPort && f != DstPort { assert Contains(m.Dim(f), a.Get(f)) && a.Get(f) == b.Get(f); }
    }
  }

  lemma {:induction false} FirstMatchIgnoresPorts(rules: seq<Rule>, syms: SymbolTable, a: Packet, b: Packet)
    requires GoodRules(rules) && SameButPorts(a, b) && PortsInDomain(a) && PortsInDomain(b) && !PortBearing(a.proto)
    ensures FirstMatch(rules, syms, a) == FirstMatch(rules, syms, b)
  {
    hide Matches, Only;
    if rules != [] {
      var m := rules[0].matches;
      assert GoodMatch(m);
      if Matches(m, syms, a) {
        MatchIgnoresPorts(m, syms, a, b);
      } else if Matches(m, syms, b) {
        MatchIgnoresPorts(m, syms, b, a);
      }
      FirstMatchIgnoresPorts(rules[1..], syms, a, b);
    }
  }

  /** In every chain of every accepted file, two packets of a protocol without ports that differ
  only in ports are decided by the same rule and get the same verdict. */
  lemma PortsDoNotMatter(src: string, i: nat, syms: SymbolTable, a: Packet, b: Packet)
    requires ChainsIn(src).Ok? && i < |ChainsIn(src).value|
    requires SameButPorts(a, b) && PortsInDomain(a) && PortsInDomain(b) && !PortBearing(a.proto)
    ensures var c := ChainsIn(src).value[i];
      && DeciderOf(c, syms, a) == DeciderOf(c, syms, b)
      && (Permitted(c.rules, c.policy, syms, a) <==> Permitted(c.rules, c.policy, syms, b))
  {
    FileAccepted(src);
    hide ChainsIn, GoodRules, Matches;
    assert GoodChain(ChainsIn(src).value[i]);
    FirstMatchIgnoresPorts(ChainsIn(src).value[i].rules, syms, a, b);
  }

  // ---------------------------------------------------- what it does not mean

  /** One clause of a rule read. */
  lemma OneClause(ts: seq<Tok>, hook: Hook, st: RuleState, w: string, k: Keyword)
    requires ts != [] && ts[0] == Word(w) && KeywordOf(w) == k
    ensures var step := Clause(ts[1..], k, hook, st);
      Clauses(ts, hook, st) == if step.Got? then Clauses(step.rest, hook, step.value) else Fail(step.cause)
  {
    hide Clause, KeywordOf;
  }

  lemma Keywords()
    ensures KeywordOf("iifname") == OnIifname && KeywordOf("meta") == OnMeta && KeywordOf("counter") == OnCounter
    ensures KeywordOf("accept") == OnVerdict(Accept) && KeywordOf("drop") == OnVerdict(Drop)
  {
  }

  /** A clause `meta iifname` is reached. */
  predicate ReadsMetaIif(ts: seq<Tok>, hook: Hook, st: RuleState)
    decreases |ts|
  {
    !EndsStatement(Peek(ts)) && Peek(ts).Word? &&
    var k := KeywordOf(Peek(ts).text);
    var step := Clause(Bump(ts), k, hook, st);
    step.Got? && ((k.OnMeta? && Peek(Bump(ts)) == Word("iifname")) || ReadsMetaIif(step.rest, hook, step.value))
  }

  /** A clause `iifname`, without `meta`, is reached. */
  predicate ReadsBareIif(ts: seq<Tok>, hook: Hook, st: RuleState)
    decreases |ts|
  {
    !EndsStatement(Peek(ts)) && Peek(ts).Word? &&
    var k := KeywordOf(Peek(ts).text);
    var step := Clause(Bump(ts), k, hook, st);
    k.OnIifname? || (step.Got? && ReadsBareIif(step.rest, hook, step.value))
  }

  /** On an output chain a bare interface match is refused wherever in the rule it is reached. */
  lemma {:induction false} BareIifnameRefused(ts: seq<Tok>, st: RuleState)
    requires ReadsBareIif(ts, Output, st)
    ensures Clauses(ts, Output, st) == Fail(Soundness)
    decreases |ts|
  {
    hide KeywordOf, IpMatch, MetaMatch, PortMatch, SkipCounter, SkipLog, SkipStatement, Canonical, WellSized;
    var k := KeywordOf(Peek(ts).text);
    var step := Clause(Bump(ts), k, Output, st);
    if !k.OnIifname? { BareIifnameRefused(step.rest, step.value); }
  }

  /** What one clause does to the input interface on an output chain. */
  lemma ClauseIif(ts: seq<Tok>, k: Keyword, st: RuleState)
    requires (k.OnPorts? ==> k.protocol <= 255) && Clause(ts, k, Output, st).Got?
    ensures !k.OnIifname?
    ensures var next := Clause(ts, k, Output, st).value.matches.iif;
      if k.OnMeta? && Peek(ts) == Word("iifname") then !next.Any? else next == st.matches.iif
  {
    hide IpMatch, MetaMatch, PortMatch, IfSpec, SkipCounter, SkipLog, SkipStatement, Canonical, WellSized;
    if k.OnMeta? { MetaIif(ts, st); }
    if k.OnIp? || k.OnPorts? { OtherIif(ts, st, if k.OnPorts? then k.protocol else 0); }
  }

  lemma MetaIif(ts: seq<Tok>, st: RuleState)
    requires MetaMatch(ts, st).Got?
    ensures var next := MetaMatch(ts, st).value.matches.iif;
      if Peek(ts) == Word("iifname") then !next.Any? else next == st.matches.iif
  {
    hide Spec, IfList, Canonical, WellSized, Negation;
  }

  lemma OtherIif(ts: seq<Tok>, st: RuleState, protocol: nat)
    requires protocol <= 255
    ensures IpMatch(ts, st).Got? ==> IpMatch(ts, st).value.matches.iif == st.matches.iif
    ensures PortMatch(ts, st, protocol).Got? ==> PortMatch(ts, st, protocol).value.matches.iif == st.matches.iif
  {
    hide Spec, Canonical, WellSized, Constrain, PinProtocol;
    if IpMatch(ts, st).Got? {
      var d := IpDimension(ExpectWord(ts).value).value;
      ConstrainedIif(st.matches, d.0, Spec(Bump(ts), d.1).value);
    }
    if PortMatch(ts, st, protocol).Got? {
      var f := if ExpectWord(ts).value == "sport" then SrcPort else DstPort;
      PinnedIif(st.matches, protocol, f, Spec(Bump(ts), Port).value);
    }
  }

  lemma ConstrainedIif(m: Match, f: Field, s: IntervalSet)
    requires !f.IsInterface() && s.bits == f.Bits()
    ensures Constrain(m, f, s).iif == m.iif
  {
    hide Canonical, WellSized, Meet;
  }

  lemma PinnedIif(m: Match, protocol: nat, f: Field, s: IntervalSet)
    requires protocol <= 255 && s.bits == 16 && (f == SrcPort || f == DstPort)
    ensures PinnedPorts(m, protocol, f, s).iif == m.iif
  {
    hide Canonical, WellSized, Meet;
  }

  lemma {:induction false} ClausesIif(ts: seq<Tok>, st: RuleState)
    requires Clauses(ts, Output, st).Got?
    ensures Clauses(ts, Output, st).value.matches.iif.Any? <==> st.matches.iif.Any? && !ReadsMetaIif(ts, Output, st)
    decreases |ts|
  {
    hide KeywordOf, Clause, Canonical, WellSized;
    if !EndsStatement(Peek(ts)) {
      var k := KeywordOf(Peek(ts).text);
      var step := Clause(Bump(ts), k, Output, st);
      ClauseIif(Bump(ts), k, st);
      ClausesIif(step.rest, step.value);
    }
  }

  /** An accepted rule of an output chain is free of an input interface exactly when it has no
  `meta iifname` in it. */
  lemma OutputIifExactly(ts: seq<Tok>)
    requires ParseRule(ts, Output).Got?
    ensures ParseRule(ts, Output).value.0.iif.Any? <==> !ReadsMetaIif(ts, Output, NewRule())
    ensures !ReadsBareIif(ts, Output, NewRule())
  {
    ClausesIif(ts, NewRule());
    if ReadsBareIif(ts, Output, NewRule()) { BareIifnameRefused(ts, NewRule()); }
    hide Clauses, IsSound, Canonical, WellSized, ReadsMetaIif, ReadsBareIif;
  }

  /** Such rules are accepted: here is a family of them. */
  lemma MetaReachesOutput(n: string)
    requires '*' !in n
    ensures var r := ParseRule([Word("meta"), Word("iifname"), Str(n), Word("accept")], Output);
      r.Got? && r.value.0.iif.OneOf? && r.value.0.iif.names == [n] && r.value.1 == Accept
  {
    var ts := [Word("meta"), Word("iifname"), Str(n), Word("accept")];
    MetaClauses(ts, n);
    hide Clauses, IsSound, Canonical;
    AnyIsSound(OneOf([n]), Accept);
  }

  function MetaState(n: string): RuleState {
    NewRule().(matches := WithIif(AnyMatch(), OneOf([n])))
  }

  lemma MetaClauses(ts: seq<Tok>, n: string)
    requires ts == [Word("meta"), Word("iifname"), Str(n), Word("accept")] && '*' !in n
    ensures Clauses(ts, Output, NewRule()) == Got(MetaState(n).(action := Some(Accept)), [])
    ensures MetaState(n).action == None
  {
    var accept := [Word("accept")];
    MetaClause(ts, n, accept);
    MetaStarts(ts, n, accept);
    LastAccept(MetaState(n), Output);
  }

  lemma MetaStarts(ts: seq<Tok>, n: string, accept: seq<Tok>)
    requires ts != [] && ts[0] == Word("meta") && MetaMatch(ts[1..], NewRule()) == Got(MetaState(n), accept)
    ensures Clauses(ts, Output, NewRule()) == Clauses(accept, Output, MetaState(n))
  {
    Keywords();
    hide KeywordOf, MetaMatch, MetaState, Canonical, WellSized, NewRule, AnyMatch;
    OneClause(ts, Output, NewRule(), "meta", OnMeta);
  }

  lemma MetaClause(ts: seq<Tok>, n: string, accept: seq<Tok>)
    requires ts == [Word("meta"), Word("iifname"), Str(n), Word("accept")] && accept == [Word("accept")] && '*' !in n
    ensures MetaMatch(ts[1..], NewRule()) == Got(MetaState(n), accept)
  {
    hide Spec, Canonical, WithIif;
    assert ts[1..][1..] == [Str(n)] + accept;
    OneName(n, accept);
  }

  lemma OneName(n: string, rest: seq<Tok>)
    requires '*' !in n && Peek(rest).Word?
    ensures IfSpec([Str(n)] + rest) == Got(OneOf([n]), rest)
  {
    assert ([Str(n)] + rest)[1..] == rest;
  }

  lemma LastAccept(st: RuleState, hook: Hook)
    requires st.action == None
    ensures Clauses([Word("accept")], hook, st) == Got(st.(action := Some(Accept)), [])
  {
    Keywords();
    hide KeywordOf;
    OneClause([Word("accept")], hook, st, "accept", OnVerdict(Accept));
    assert [Word("accept")][1..] == [];
    assert Clauses([], hook, st.(action := Some(Accept))) == Got(st.(action := Some(Accept)), []);
  }

  lemma AnyIsSound(s: IfMatch, action: Action)
    ensures IsSound(RuleState(AnyMatch().(iif := s), Some(action), false))
  {
  }

  // ------------------------------------------------- two interface matches

  /** The packet satisfies all of `m` except the input interface. */
  ghost predicate MatchesRest(m: Match, syms: SymbolTable, q: Packet) {
    (forall f: Field :: !f.IsInterface() ==> Contains(m.Dim(f), q.Get(f))) && Admits(m.oif, syms, q.oif)
  }

  /** A packet of `m` can be moved to any input interface. */
  ghost predicate Admissible(m: Match, syms: SymbolTable) {
    exists q: Packet :: q.InDomain() && MatchesRest(m, syms, q)
  }

  /** With both matches on the input interface read, the rule means their conjunction. */
  ghost predicate MeansBoth(m: Match, syms: SymbolTable, a: IfMatch, b: IfMatch) {
    forall q: Packet :: q.InDomain() ==>
      (Matches(WithIif(WithIif(m, a), b), syms, q) <==>
        Matches(WithIif(m, a), syms, q) && Matches(WithIif(m, b), syms, q))
  }

  lemma MatchesWithIif(m: Match, s: IfMatch, syms: SymbolTable, q: Packet)
    ensures Matches(WithIif(m, s), syms, q) <==> MatchesRest(m, syms, q) && Admits(s, syms, q.iif)
  {
    hide Contains, Admits, Canonical;
    assert forall f: Field :: !f.IsInterface() ==> WithIif(m, s).Dim(f) == m.Dim(f);
  }

  /** Every interface value `b` admits is admitted by `a`. */
  ghost predicate Within(b: IfMatch, a: IfMatch, syms: SymbolTable) {
    forall v: nat :: v <= DomainMax(8) && Admits(b, syms, v) ==> Admits(a, syms, v)
  }

  /** A second interface match replaces the first. The rule still means both exactly when the
  first admits all the second does, or the rest of the match admits nothing. */
  lemma SecondIifnameExactly(m: Match, syms: SymbolTable, a: IfMatch, b: IfMatch)
    ensures MeansBoth(m, syms, a, b) <==> Within(b, a, syms) || !Admissible(m, syms)
  {
    hide Matches, MatchesRest, Admits, Canonical, WellSized, WithIif;
    forall q: Packet, s: IfMatch { MatchesWithIif(m, s, syms, q); }
    SecondWins(m, a, b);
    if MeansBoth(m, syms, a, b) && Admissible(m, syms) {
      var q: Packet :| q.InDomain() && MatchesRest(m, syms, q);
      forall v: nat | v <= DomainMax(8) && Admits(b, syms, v)
        ensures Admits(a, syms, v)
      {
        MovedInDomain(q, m, syms, v);
        var moved := q.(iif := v);
        assert Matches(WithIif(m, b), syms, moved);
      }
    }
    if !MeansBoth(m, syms, a, b) {
      var q: Packet :| q.InDomain() && Matches(WithIif(m, b), syms, q) && !Matches(WithIif(m, a), syms, q);
      assert q.Get(IfIn) <= DomainMax(8);
    }
  }

  lemma SecondWins(m: Match, a: IfMatch, b: IfMatch)
    ensures WithIif(WithIif(m, a), b) == WithIif(m, b)
  {
  }

  lemma MovedInDomain(q: Packet, m: Match, syms: SymbolTable, v: nat)
    requires q.InDomain() && MatchesRest(m, syms, q) && v <= DomainMax(8)
    ensures q.(iif := v).InDomain() && MatchesRest(m, syms, q.(iif := v))
  {
    hide Contains, Admits, Canonical, DomainMax;
    var moved := q.(iif := v);
    forall f: Field
      ensures moved.Get(f) <= DomainMax(f.Bits())
      ensures f != IfIn ==> moved.Get(f) == q.Get(f)
    {
      assert q.Get(f) <= DomainMax(f.Bits());
    }
  }

  /** So two different interfaces, which no packet comes in by, mean the second one. */
  lemma SecondIifnameForgets(n: string, o: string)
    requires NameLess(n, o)
    ensures !MeansBoth(AnyMatch(), SymbolTable([n, o]), OneOf([n]), OneOf([o]))
  {
    hide MeansBoth, Admits, AnyMatch, Admissible;
    AnyIsAdmissible(SymbolTable([n, o]));
    TwoNames(n, o);
    Widths();
    SecondIifnameExactly(AnyMatch(), SymbolTable([n, o]), OneOf([n]), OneOf([o]));
  }

  lemma AnyIsAdmissible(syms: SymbolTable)
    ensures Admissible(AnyMatch(), syms)
  {
    var q := Packet(0, 0, 0, 0, 0, 0, 0);
    forall f: Field
      ensures q.Get(f) <= DomainMax(f.Bits()) && (!f.IsInterface() ==> Contains(AnyMatch().Dim(f), q.Get(f)))
    {
    }
    assert MatchesRest(AnyMatch(), syms, q);
  }

  lemma TwoNames(n: string, o: string)
    requires n != o
    ensures Admits(OneOf([o]), SymbolTable([n, o]), 1) && !Admits(OneOf([n]), SymbolTable([n, o]), 1)
  {
    var syms := SymbolTable([n, o]);
    assert [n, o][1..] == [o];
    assert o in [o] && syms.IndexOf(o) == Some(1);
    assert syms.IndexOf(n) == Some(0);
  }

  /** Two matches of the same packet dimension do narrow. */
  lemma SecondConstraintNarrows(m: Match, f: Field, s: IntervalSet, t: IntervalSet)
    requires !f.IsInterface() && s.bits == f.Bits() == t.bits
    ensures Constrain(Constrain(m, f, s), f, t) == Constrain(m, f, Meet(s, t))
  {
    hide Contains, Canonical;
    var met := Meet(m.Dim(f), s);
    assert Constrain(m, f, s) == m.WithDim(f, met);
    assert Constrain(m, f, s).Dim(f) == met;
    MeetAssociates(m.Dim(f), s, t);
  }

  lemma MeetAssociates(a: IntervalSet, b: IntervalSet, c: IntervalSet)
    requires a.bits == b.bits == c.bits
    ensures Meet(Meet(a, b), c) == Meet(a, Meet(b, c))
  {
    SetEquality(Meet(Meet(a, b), c), Meet(a, Meet(b, c)));
  }
}
