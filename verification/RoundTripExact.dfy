/** Exactly which chains survive being printed and parsed.

The emitter leaves out, without a word, predicates it has no syntax for: an
excluded interface, an output interface, a protocol set of several values. So
the text of a chain is the text of what it says of the chain, and the round
trip holds exactly for the chains of which it says everything. */
module RoundTripExact {
  import opened Wrappers
  import opened Intervals
  import opened Cidr
  import opened Rules
  import opened Lexer
  import P = Pieces
  import E = Emitter
  import opened Printed
  import opened Grammar
  import opened Accepted
  import opened Reread
  import opened RoundTrip

  // ------------------------------------------------------- what the text says

  /** The predicate the text of a rule stands for. */
  function Said(m: Match): Match {
    RawMatch(m.srcAddr, m.dstAddr, m.srcPort, m.dstPort,
             if IsFull(m.proto) || E.ProtoValue(m.proto).Some? then m.proto else Full(8),
             if m.iif.OneOf? then m.iif else Any, Any)
  }

  function SaidRules(rules: seq<Rule>): seq<Rule> {
    if rules == [] then []
    else
      var last := rules[|rules| - 1];
      SaidRules(rules[..|rules| - 1]) + [Rule(last.number, Said(last.matches), last.action)]
  }

  /** The chain the text stands for. */
  function SaidChain(c: Chain): Chain {
    Chain(c.name, c.hook, if c.policy.Accept? then Accept else Drop, SaidRules(c.rules))
  }

  lemma {:induction false} SaidRulesAt(rules: seq<Rule>)
    ensures |SaidRules(rules)| == |rules|
    ensures forall i | 0 <= i < |rules| ::
      SaidRules(rules)[i] == Rule(rules[i].number, Said(rules[i].matches), rules[i].action)
  {
    hide Said, Canonical, WellSized;
    if rules != [] { SaidRulesAt(rules[..|rules| - 1]); }
  }

  lemma FullHasNoValue()
    ensures E.ProtoValue(Full(8)).None? && IsFull(Full(8))
  {
    Widths();
  }

  lemma SaidProto(m: Match)
    ensures E.ProtoClauses(Said(m).proto) == E.ProtoClauses(m.proto)
    ensures E.Layer4(Said(m).proto) == E.Layer4(m.proto)
  {
    FullHasNoValue();
    hide IsFull, Canonical;
  }

  lemma SaidMatchClauses(m: Match)
    ensures E.MatchClauses(Said(m)) == E.MatchClauses(m)
    ensures E.PortsExpressible(Said(m)) <==> E.PortsExpressible(m)
    ensures WordableMatch(Said(m)) <==> WordableMatch(m)
  {
    SaidProto(m);
    hide E.ProtoClauses, E.Layer4, E.AddressClauses, E.PortClauses, E.BracedPieces, E.NameAtoms, Canonical, IsFull,
      E.ProtoValue, QuotableName;
  }

  lemma {:induction false} SaidRulesPieces(rules: seq<Rule>)
    ensures E.RulesPieces(SaidRules(rules)) == E.RulesPieces(rules)
  {
    hide Said, E.MatchClauses, E.JoinPieces, E.ActionWord, P.Decimal, Canonical, WellSized;
    if rules != [] {
      var init, last := rules[..|rules| - 1], rules[|rules| - 1];
      SaidRulesPieces(init);
      SaidMatchClauses(last.matches);
      var said := Rule(last.number, Said(last.matches), last.action);
      assert E.RulePieces(said) == E.RulePieces(last);
      assert SaidRules(rules)[..|rules| - 1] == SaidRules(init) && SaidRules(rules)[|rules| - 1] == said by {
        SaidRulesAt(init);
      }
      SaidRulesAt(rules);
    }
  }

  /** A chain and what its text says have the same text. */
  lemma SameText(table: string, c: Chain)
    ensures E.ChainPieces(table, SaidChain(c), false) == E.ChainPieces(table, c, false)
  {
    hide E.RulesPieces, SaidRules, E.SentinelPieces, E.ClosePieces, E.HookWord;
    SaidRulesPieces(c.rules);
  }

  lemma SaidForm(m: Match)
    ensures var s := Said(m);
      s.oif.Any? && (s.iif.Any? || s.iif.OneOf?) && (IsFull(s.proto) || E.ProtoValue(s.proto).Some?)
  {
    FullHasNoValue();
  }

  // ---------------------------------------------------------------- rejection

  lemma ClauseRejected(w: string, k: Keyword, body: seq<Tok>, hook: Hook, st: RuleState)
    requires KeywordOf(w) == k && (k.OnPorts? ==> k.protocol <= 255) && Clause(body, k, hook, st).Fail?
    ensures Clauses([Word(w)] + body, hook, st).Fail?
  {
    hide Clause, KeywordOf;
    BumpOne(Word(w), body);
    OneClause([Word(w)] + body, hook, st, w, k);
  }

  /** An empty list is refused. */
  lemma EmptyListRejected(kind: ValueKind, rest: seq<Tok>)
    ensures Spec(BracedToks([]) + rest, kind).Fail?
  {
    var inner := [Sym('}')] + rest;
    assert BracedToks([]) + rest == [Sym('{')] + inner;
    BumpOne(Sym('{'), inner);
    assert SkipBreaks(inner) == inner;
  }

  lemma NoPrefixes(s: IntervalSet)
    requires s.bits == 32 && IsEmpty(s)
    ensures SetToPrefixes(s) == []
  {
  }

  lemma AddressRejected(keyword: string, s: IntervalSet, hook: Hook, st: RuleState, rest: seq<Tok>)
    requires keyword == "saddr" || keyword == "daddr"
    requires s.bits == 32 && IsEmpty(s)
    ensures Clauses(AddressToks(keyword, s) + rest, hook, st).Fail?
  {
    hide Clauses, KeywordOf, Spec, BracedToks, Canonical, SetToPrefixes, WellSized, AddressToks, IsEmpty, IsFull;
    KeywordTable();
    NoAddressToks(keyword, s, rest);
    AddressListRejected(keyword, rest, hook, st);
    ClauseRejected("ip", OnIp, [Word(keyword)] + (BracedToks([]) + rest), hook, st);
  }

  lemma NoAddressToks(keyword: string, s: IntervalSet, rest: seq<Tok>)
    requires s.bits == 32 && IsEmpty(s)
    ensures AddressToks(keyword, s) + rest == [Word("ip")] + ([Word(keyword)] + (BracedToks([]) + rest))
  {
    hide BracedToks, SetToPrefixes;
    E.PrefixesAreAddresses(s);
    NoPrefixes(s);
  }

  lemma AddressListRejected(keyword: string, rest: seq<Tok>, hook: Hook, st: RuleState)
    requires keyword == "saddr" || keyword == "daddr"
    ensures Clause([Word(keyword)] + (BracedToks([]) + rest), OnIp, hook, st).Fail?
  {
    hide Spec, BracedToks, Canonical, WellSized, Constrain;
    EmptyListRejected(Address, rest);
    BumpOne(Word(keyword), BracedToks([]) + rest);
  }

  lemma PortRejected(w: string, n: nat, keyword: string, s: IntervalSet, hook: Hook, st: RuleState, rest: seq<Tok>)
    requires (w == "tcp" && n == 6) || (w == "udp" && n == 17)
    requires keyword == "sport" || keyword == "dport"
    requires s.bits == 16 && IsEmpty(s)
    ensures Clauses(PortToks(w, keyword, s) + rest, hook, st).Fail?
  {
    hide Clauses, KeywordOf, Spec, BracedToks, Canonical, WellSized, PortToks, IsEmpty, IsFull;
    KeywordTable();
    NoPortToks(w, keyword, s, rest);
    PortListRejected(n, keyword, rest, hook, st);
    ClauseRejected(w, OnPorts(n), [Word(keyword)] + (BracedToks([]) + rest), hook, st);
  }

  lemma NoPortToks(w: string, keyword: string, s: IntervalSet, rest: seq<Tok>)
    requires s.bits == 16 && IsEmpty(s)
    ensures PortToks(w, keyword, s) + rest == [Word(w)] + ([Word(keyword)] + (BracedToks([]) + rest))
  {
    hide BracedToks;
    assert RunToks(s.ranges) == [];
  }

  lemma PortListRejected(n: nat, keyword: string, rest: seq<Tok>, hook: Hook, st: RuleState)
    requires n <= 255 && (keyword == "sport" || keyword == "dport")
    ensures Clause([Word(keyword)] + (BracedToks([]) + rest), OnPorts(n), hook, st).Fail?
  {
    hide Spec, BracedToks, Canonical, WellSized, Constrain;
    EmptyListRejected(Port, rest);
    BumpOne(Word(keyword), BracedToks([]) + rest);
  }

  lemma StarRejected(n: string, after: seq<Tok>)
    requires '*' in n
    ensures IfName([Str(n)] + after).Fail? && SkipBreaks([Str(n)] + after) == [Str(n)] + after
  {
    BumpOne(Str(n), after);
  }

  lemma {:induction false} StarNamesRejected(names: seq<string>, acc: NameSet, rest: seq<Tok>, k: nat)
    requires k < |names| && '*' in names[k]
    requires forall i | 0 <= i < k :: PlainName(names[i])
    ensures IfNames(JoinToks(NameToks(names), [Sym(',')]) + [Sym('}')] + rest, acc).Fail?
    decreases |names|
  {
    hide InsertName, StrictlySorted, IfName, PlainName;
    var ts := JoinToks(NameToks(names), [Sym(',')]) + [Sym('}')] + rest;
    NameToksSize(names);
    var after := if |names| == 1 then [Sym('}')] + rest
      else [Sym(',')] + (JoinToks(NameToks(names[1..]), [Sym(',')]) + [Sym('}')] + rest);
    if |names| > 1 { assert NameToks(names)[1..] == NameToks(names[1..]); }
    assert ts == [Str(names[0])] + after;
    if k == 0 {
      StarRejected(names[0], after);
    } else {
      var tail := JoinToks(NameToks(names[1..]), [Sym(',')]) + [Sym('}')] + rest;
      OneIfName(names[0], after);
      BumpOne(Sym(','), tail);
      StarNamesRejected(names[1..], InsertName(acc, names[0]), rest, k - 1);
    }
  }

  /** Interface names the frontend refuses. */
  predicate RefusedIif(m: IfMatch, hook: Hook) {
    m.OneOf? && (hook == Output || m.names == [] || exists i :: 0 <= i < |m.names| && '*' in m.names[i])
  }

  lemma {:induction false} FirstStar(names: seq<string>) returns (k: nat)
    requires exists i :: 0 <= i < |names| && '*' in names[i]
    requires forall i | 0 <= i < |names| :: QuotableName(names[i])
    ensures k < |names| && '*' in names[k] && forall i | 0 <= i < k :: PlainName(names[i])
  {
    hide QuotableName;
    if '*' in names[0] {
      k := 0;
    } else {
      var i :| 0 <= i < |names| && '*' in names[i];
      assert '*' in names[1..][i - 1];
      k := FirstStar(names[1..]);
      k := k + 1;
    }
  }

  lemma NoNameRejected(rest: seq<Tok>, acc: NameSet)
    ensures IfNames([Sym('}')] + rest, acc).Fail?
  {
    var inner := [Sym('}')] + rest;
    NoBreaks(Sym('}'), rest);
    assert IfName(inner).Fail?;
    hide SkipBreaks, IfName, StrictlySorted, InsertName;
  }

  lemma EmptyNamesRejected(rest: seq<Tok>)
    ensures IfList(BracedToks([]) + rest).Fail?
  {
    hide IfNames, IfName;
    var inner := [Sym('}')] + rest;
    NoListToks(rest);
    BumpOne(Sym('{'), inner);
    NoNameRejected(rest, []);
  }

  lemma NoListToks(rest: seq<Tok>)
    ensures BracedToks([]) + rest == [Sym('{')] + ([Sym('}')] + rest)
  {
  }

  lemma OneNameToks(names: seq<string>)
    requires |names| == 1
    ensures BracedToks(NameToks(names)) == [Str(names[0])]
  {
    hide JoinToks;
  }

  lemma OneStarRejected(n: string, rest: seq<Tok>)
    requires '*' in n
    ensures IfList([Str(n)] + rest).Fail?
  {
    StarRejected(n, rest);
    hide IfName;
  }

  lemma StarListRejected(names: seq<string>, rest: seq<Tok>)
    requires |names| > 1 && IfNames(JoinToks(NameToks(names), [Sym(',')]) + [Sym('}')] + rest, []).Fail?
    ensures IfList(BracedToks(NameToks(names)) + rest).Fail?
  {
    hide IfNames, JoinToks, NameToks;
    NameToksSize(names);
    var inner := JoinToks(NameToks(names), [Sym(',')]) + [Sym('}')] + rest;
    assert BracedToks(NameToks(names)) + rest == [Sym('{')] + inner;
    BumpOne(Sym('{'), inner);
  }

  lemma NamesRejected(names: seq<string>, rest: seq<Tok>)
    requires forall i | 0 <= i < |names| :: QuotableName(names[i])
    requires names == [] || exists i :: 0 <= i < |names| && '*' in names[i]
    ensures IfList(BracedToks(NameToks(names)) + rest).Fail?
  {
    hide IfList, JoinToks, QuotableName, IfNames, PlainName, BracedToks, NameToks;
    NameToksSize(names);
    if names == [] {
      EmptyNamesRejected(rest);
    } else {
      var k := FirstStar(names);
      if |names| == 1 {
        OneNameToks(names);
        OneStarRejected(names[0], rest);
      } else {
        StarNamesRejected(names, [], rest, k);
        StarListRejected(names, rest);
      }
    }
  }

  lemma IfSpecRejected(ts: seq<Tok>)
    requires IfList(ts).Fail? && Peek(ts) != Sym('!')
    ensures IfSpec(ts).Fail?
  {
    hide IfList;
  }

  lemma NamesStart(names: seq<string>, rest: seq<Tok>)
    ensures Peek(BracedToks(NameToks(names)) + rest) != Sym('!')
  {
    hide JoinToks, NameToks;
    NameToksSize(names);
  }

  lemma IifRejected(m: IfMatch, hook: Hook, st: RuleState, rest: seq<Tok>)
    requires RefusedIif(m, hook) && forall i | 0 <= i < |m.names| :: QuotableName(m.names[i])
    ensures Clauses(IifToks(m) + rest, hook, st).Fail?
  {
    hide Clauses, BracedToks, NameToks, IfSpec, IfList, KeywordOf, StrictlySorted, Canonical, WellSized, QuotableName;
    KeywordTable();
    var body := BracedToks(NameToks(m.names)) + rest;
    if hook != Output {
      NamesRejected(m.names, rest);
      NamesStart(m.names, rest);
      IfSpecRejected(body);
    }
    assert IifToks(m) + rest == [Word("iifname")] + body;
    ClauseRejected("iifname", OnIifname, body, hook, st);
  }

  /** The predicate is in the form the text says it, and can be written. */
  predicate SaidAndWrittenMatch(m: Match) {
    && WordableMatch(m) && E.PortsExpressible(m) && m.oif.Any? && (m.iif.Any? || m.iif.OneOf?)
    && (IsFull(m.proto) || E.ProtoValue(m.proto).Some?)
  }

  /** A rule whose predicate the text can say but the frontend refuses. */
  lemma RuleRejected(m: Match, hook: Hook, rest: seq<Tok>)
    requires Settled(rest) && SaidAndWrittenMatch(m) && !PrintableMatch(m, hook)
    ensures Clauses(MatchToks(m) + rest, hook, NewRule()).Fail?
  {
    hide Clauses, Upto, IifToks, ProtoToks, BodyToks, PrintableMatch, Canonical, E.ProtoValue, IsFull, PrintableIif,
      RefusedIif,
      WordableMatch, E.PortsExpressible, MatchToks, WellSized;
    WhyRefused(m, hook);
    MatchToksByClause(m, rest);
    BodyIsSettled(m, rest);
    if RefusedIif(m.iif, hook) {
      QuotableIif(m, hook);
      IifRejected(m.iif, hook, NewRule(), ProtoToks(m.proto) + BodyToks(m, rest));
    } else {
      BodyRejected(m, hook, rest);
      StartReads(m, hook, BodyToks(m, rest));
    }
  }

  /** The interface and the protocol. */
  lemma StartReads(m: Match, hook: Hook, rest: seq<Tok>)
    requires Settled(rest) && Settled(ProtoToks(m.proto) + rest)
    requires PrintableIif(m.iif, hook) && m.oif.Any? && (IsFull(m.proto) || E.ProtoValue(m.proto).Some?)
    ensures Clauses(IifToks(m.iif) + (ProtoToks(m.proto) + rest), hook, NewRule()) ==
      Clauses(rest, hook, RuleState(Upto(m, 2), None, false))
  {
    UptoEnds(m);
    hide Clauses, Upto, IifToks, ProtoToks, Canonical, E.ProtoValue, IsFull, PrintableIif;
    IifReads(m.iif, hook, RuleState(Upto(m, 0), None, false), ProtoToks(m.proto) + rest);
    ProtoReads(m.proto, hook, RuleState(Upto(m, 1), None, false), rest);
  }

  lemma QuotableIif(m: Match, hook: Hook)
    requires WordableMatch(m) && RefusedIif(m.iif, hook)
    ensures m.iif.OneOf? && forall i | 0 <= i < |m.iif.names| :: QuotableName(m.iif.names[i])
  {
  }

  /** Some packet dimension that the text has to list is empty. */
  predicate EmptyList(m: Match) {
    IsEmpty(m.srcAddr) || IsEmpty(m.dstAddr) || IsEmpty(m.srcPort) || IsEmpty(m.dstPort)
  }

  lemma WhyRefused(m: Match, hook: Hook)
    requires WordableMatch(m) && E.PortsExpressible(m) && !PrintableMatch(m, hook)
    requires m.oif.Any? && (m.iif.Any? || m.iif.OneOf?) && (IsFull(m.proto) || E.ProtoValue(m.proto).Some?)
    ensures RefusedIif(m.iif, hook) || (PrintableIif(m.iif, hook) && EmptyList(m))
  {
    Layer4Values(m);
    hide QuotableName, E.Layer4;
    if !RefusedIif(m.iif, hook) { assert PrintableIif(m.iif, hook); }
  }

  /** Port lists are only written under a pinned tcp or udp. */
  lemma Layer4Values(m: Match)
    requires E.PortsExpressible(m)
    ensures (IsFull(m.srcPort) && IsFull(m.dstPort)) || E.ProtoValue(m.proto) == Some(6)
      || E.ProtoValue(m.proto) == Some(17)
  {
    hide IsFull, E.ProtoValue;
  }

  lemma BodyRejected(m: Match, hook: Hook, rest: seq<Tok>)
    requires Settled(rest) && E.PortsExpressible(m) && EmptyList(m) && m.oif.Any?
    ensures Clauses(BodyToks(m, rest), hook, RuleState(Upto(m, 2), None, false)).Fail?
  {
    UptoEnds(m);
    hide Clauses, Upto, AddressToks, PortBodyToks, Canonical, E.PortsExpressible, IsFull;
    var r4 := PortBodyToks(m, rest);
    var r3 := AddressToks("daddr", m.dstAddr) + r4;
    BodyIsSettled(m, rest);
    if IsEmpty(m.srcAddr) {
      AddressRejected("saddr", m.srcAddr, hook, RuleState(Upto(m, 2), None, false), r3);
    } else {
      AddressReads("saddr", SrcAddr, m.srcAddr, hook, RuleState(Upto(m, 2), None, false), r3);
      if IsEmpty(m.dstAddr) {
        AddressRejected("daddr", m.dstAddr, hook, RuleState(Upto(m, 3), None, false), r4);
      } else {
        AddressReads("daddr", DstAddr, m.dstAddr, hook, RuleState(Upto(m, 3), None, false), r4);
        PortsRejected(m, hook, rest);
      }
    }
  }

  lemma PortsRejected(m: Match, hook: Hook, rest: seq<Tok>)
    requires Settled(rest) && E.PortsExpressible(m) && (IsEmpty(m.srcPort) || IsEmpty(m.dstPort)) && m.oif.Any?
    ensures Clauses(PortBodyToks(m, rest), hook, RuleState(Upto(m, 4), None, false)).Fail?
  {
    Layer4Values(m);
    EmptyIsNotFullPair(m);
    var n := E.ProtoValue(m.proto).value;
    PinnedLayer4(m.proto, n);
    UptoEnds(m);
    ClausesStart(m);
    hide Clauses, Upto, PortToks, Canonical, E.Layer4, E.ProtoValue, IsFull, E.PortsExpressible;
    var w := E.Layer4(m.proto);
    var r5 := PortToks(w, "dport", m.dstPort) + rest;
    SettledPlus(PortToks(w, "dport", m.dstPort), rest);
    if IsEmpty(m.srcPort) {
      PortRejected(w, n, "sport", m.srcPort, hook, RuleState(Upto(m, 4), None, false), r5);
    } else {
      PortReads(w, n, "sport", SrcPort, m.srcPort, hook, RuleState(Upto(m, 4), None, false), r5);
      PortRejected(w, n, "dport", m.dstPort, hook, RuleState(Upto(m, 5), None, !IsFull(m.srcPort)), rest);
    }
  }

  lemma EmptyIsNotFullPair(m: Match)
    requires IsEmpty(m.srcPort) || IsEmpty(m.dstPort)
    ensures !(IsFull(m.srcPort) && IsFull(m.dstPort))
  {
  }

  // ------------------------------------------------------------ whole chains

  /** The rules are in the form the text says them, and can be written. */
  predicate SaidAndWritten(rules: seq<Rule>) {
    forall i | 0 <= i < |rules| :: SaidAndWrittenMatch(rules[i].matches)
  }

  lemma OneRuleRejected(r: Rule, chain: Chain, rest: seq<Tok>)
    requires SaidAndWrittenMatch(r.matches) && !PrintableMatch(r.matches, chain.hook)
    ensures RulesOf(RuleToks(r) + rest, chain).Fail?
  {
    hide Clauses, MatchToks, VerdictToks, RuleToks, PrintableMatch, SaidAndWrittenMatch, SkipBreaks, RulesOf;
    VerdictIsSettled(r, rest);
    RuleRejected(r.matches, chain.hook, VerdictToks(r) + rest);
    RuleIsWord(r, rest);
    RuleToksSplit(r, rest);
    FailedClauses(RuleToks(r) + rest, chain);
  }

  lemma RuleToksSplit(r: Rule, rest: seq<Tok>)
    ensures RuleToks(r) + rest == MatchToks(r.matches) + (VerdictToks(r) + rest)
  {
    hide MatchToks, VerdictToks;
  }

  lemma FailedClauses(ts: seq<Tok>, chain: Chain)
    requires Peek(ts).Word? && SkipBreaks(ts) == ts && Clauses(ts, chain.hook, NewRule()).Fail?
    ensures RulesOf(ts, chain).Fail?
  {
    hide Clauses, SkipBreaks, Canonical, WellSized;
    assert ParseRule(ts, chain.hook).Fail?;
  }

  lemma LastRuleToks(rules: seq<Rule>, rest: seq<Tok>)
    requires rules != []
    ensures RulesToks(rules) + rest ==
      RulesToks(rules[..|rules| - 1]) + (RuleToks(rules[|rules| - 1]) + ([Break] + rest))
  {
    hide RuleToks;
    var init, last := RulesToks(rules[..|rules| - 1]), RuleToks(rules[|rules| - 1]);
    assert RulesToks(rules) == init + (last + [Break]);
    hide RulesToks;
    BehindBreak(init, last, rest);
  }

  lemma BehindBreak(init: seq<Tok>, last: seq<Tok>, rest: seq<Tok>)
    ensures (init + (last + [Break])) + rest == init + (last + ([Break] + rest))
  {
  }

  lemma {:induction false} RulesRejected(rules: seq<Rule>, chain: Chain, rest: seq<Tok>)
    requires SaidAndWritten(rules) && !PrintableRules(rules, chain.hook)
    ensures RulesOf(RulesToks(rules) + rest, chain).Fail?
  {
    hide RuleToks, RulesOf, PrintableMatch, SaidAndWrittenMatch, Pushed, Canonical, WellSized;
    var init, last := rules[..|rules| - 1], rules[|rules| - 1];
    var tail := RuleToks(last) + ([Break] + rest);
    LastRuleToks(rules, rest);
    hide RulesToks;
    if PrintableRules(init, chain.hook) {
      RulesRead(init, chain, tail);
      OneRuleRejected(last, Pushed(chain, init), [Break] + rest);
    } else {
      RulesRejected(init, chain, tail);
    }
  }

  lemma FileRejected(table: string, c: Chain)
    requires SaidAndWritten(c.rules) && !PrintableRules(c.rules, c.hook) && (c.policy == Accept || c.policy == Drop)
    ensures TablesOf(ChainToks(table, c, false), []).Err?
  {
    hide ParseChain, HookToks, RulesToks, PrintableRules, SaidAndWritten, SkipBreaks, RulesOf, Canonical;
    var end := [Sym('}')] + ([Break] + ([Sym('}')] + [Break]));
    var rulesToks := RulesToks(c.rules) + end;
    var body := [Word(c.name), Sym('{'), Break] + (HookToks(c) + rulesToks);
    DeclarationReads(c, rulesToks);
    RulesAfterBreaks(rulesToks, Chain(c.name, c.hook, c.policy, []));
    RulesRejected(c.rules, Chain(c.name, c.hook, c.policy, []), end);
    TokensRegroup(table, c, body);
    FileOfRejected(table, body);
  }

  lemma FileOfRejected(table: string, body: seq<Tok>)
    requires ParseChain(body).Fail?
    ensures TablesOf([Word("table")] + ([Word("ip")]
      + ([Word(table)] + ([Sym('{')] + ([Break] + ([Word("chain")] + body))))), []).Err?
  {
    hide ParseChain;
    var inTable := [Break] + ([Word("chain")] + body);
    var tail := [Word("ip")] + ([Word(table)] + ([Sym('{')] + inTable));
    LeadingBreak([Word("chain")] + body);
    NoBreaks(Word("chain"), body);
    BumpOne(Word("chain"), body);
    assert ChainsOf(inTable, []).Fail?;
    BumpOne(Word("ip"), [Word(table)] + ([Sym('{')] + inTable));
    BumpOne(Word(table), [Sym('{')] + inTable);
    BumpOne(Sym('{'), inTable);
    hide ChainsOf, SkipBreaks;
    assert ParseTable(tail).Fail?;
    NoBreaks(Word("table"), tail);
    BumpOne(Word("table"), tail);
    hide ParseTable;
  }

  // -------------------------------------------------------------- the theorem

  /** The emitter writes the chain, and parsing its text gives exactly one chain, the same. */
  predicate RoundTrips(table: string, c: Chain) {
    && E.AllExpressible(c.rules)
    && var back := ChainsIn(P.Text(E.ChainPieces(table, c, false)));
       back.Ok? && |back.value| == 1 && SameChain(back.value[0], c)
  }

  lemma SaidChainForm(table: string, c: Chain)
    requires WordableChain(table, c) && E.AllExpressible(c.rules)
    ensures var said := SaidChain(c);
      && SaidAndWritten(said.rules) && WordableChain(table, said)
      && (said.policy == Accept || said.policy == Drop)
  {
    hide Said, P.LexableWord, Canonical, WordableMatch, E.PortsExpressible, IsFull, E.ProtoValue;
    SaidRulesAt(c.rules);
    forall i | 0 <= i < |c.rules|
      ensures SaidAndWrittenMatch(SaidRules(c.rules)[i].matches)
    {
      assert WordableMatch(c.rules[i].matches) && E.PortsExpressible(c.rules[i].matches);
      SaidMatchClauses(c.rules[i].matches);
      SaidForm(c.rules[i].matches);
    }
  }

  /** When the text is accepted, what comes back is what it says. */
  lemma SaidComesBack(table: string, c: Chain)
    requires WordableChain(table, c) && E.AllExpressible(c.rules)
    ensures var back, said := ChainsIn(P.Text(E.ChainPieces(table, c, false))), SaidChain(c);
      if PrintableChain(table, said) then back == Ok([Renumbered(said)]) && SameChain(Renumbered(said), said)
      else back.Err?
  {
    hide E.ChainPieces, ChainToks, SaidChain, TablesOf, P.Text, TokensOf, Renumbered, SameChain, E.AllExpressible,
      PrintableChain,
      WordableChain, SaidAndWritten, PrintableRules, P.LexableWord;
    var said := SaidChain(c);
    SameText(table, c);
    SaidChainForm(table, c);
    if PrintableChain(table, said) {
      PrintParse(table, said);
    } else {
      NotPrintableRules(table, said);
      FileRejected(table, said);
      ChainTextTokens(table, said, false);
    }
  }

  lemma NotPrintableRules(table: string, c: Chain)
    requires WordableChain(table, c) && !PrintableChain(table, c) && (c.policy == Accept || c.policy == Drop)
    ensures !PrintableRules(c.rules, c.hook)
  {
    hide P.LexableWord, PrintableRules;
  }

  lemma SameAsSaid(table: string, c: Chain)
    requires SameChain(SaidChain(c), c) && PrintableChain(table, SaidChain(c))
    ensures PrintableChain(table, c)
  {
    hide Said, P.LexableWord, PrintableMatch, Canonical;
    SaidRulesAt(c.rules);
    forall i | 0 <= i < |c.rules|
      ensures PrintableMatch(c.rules[i].matches, c.hook)
    {
      assert PrintableMatch(SaidRules(c.rules)[i].matches, c.hook);
    }
  }

  lemma SameChainJoins(a: Chain, b: Chain, c: Chain)
    requires SameChain(a, b)
    ensures SameChain(a, c) <==> SameChain(b, c)
  {
    hide Canonical, WellSized;
  }

  /** A chain whose names can be written survives printing and parsing exactly when its policy is
  accept or drop and every rule is in the printable form. */
  lemma RoundTripExactly(table: string, c: Chain)
    requires WordableChain(table, c)
    ensures RoundTrips(table, c) <==> PrintableChain(table, c)
  {
    hide E.ChainPieces, SaidChain, P.Text, ChainsIn, Renumbered, SameChain, E.AllExpressible, PrintableChain,
      WordableChain;
    if PrintableChain(table, c) {
      PrintParse(table, c);
    } else if E.AllExpressible(c.rules) {
      SaidComesBack(table, c);
      var said := SaidChain(c);
      if PrintableChain(table, said) {
        SameChainJoins(Renumbered(said), said, c);
        if SameChain(said, c) { SameAsSaid(table, c); }
      }
    }
  }

  /** The emitter leaves an excluded interface out of the text instead of refusing the rule, so
  what comes back matches more packets than the chain. */
  lemma ExcludedInterfaceIsLost(table: string, c: Chain, names: NameSet)
    requires P.LexableWord(table) && P.LexableWord(c.name) && c.policy == Drop && c.hook == Input
    requires |c.rules| == 1 && c.rules[0].matches == WithIif(AnyMatch(), NoneOf(names))
    ensures E.AllExpressible(c.rules) && ChainsIn(P.Text(E.ChainPieces(table, c, false))).Ok?
    ensures var back := ChainsIn(P.Text(E.ChainPieces(table, c, false))).value;
      |back| == 1 && |back[0].rules| == 1 && back[0].rules[0].matches == AnyMatch()
        && back[0].rules[0].action == c.rules[0].action
  {
    hide P.LexableWord, PrintableMatch, Canonical, Said, E.PortsExpressible, P.Text, E.ChainPieces, ChainsIn,
      SaidRules, WellSized,
      AnyMatch, Renumbered;
    SaidAny(names);
    AnyIsPrintable();
    SaidRulesAt(c.rules);
    SameText(table, c);
    PrintParse(table, SaidChain(c));
  }

  lemma AnyIsPrintable()
    ensures PrintableMatch(AnyMatch(), Input)
  {
    FullHasNoValue();
    Widths();
  }

  lemma SaidAny(names: NameSet)
    ensures Said(WithIif(AnyMatch(), NoneOf(names))) == AnyMatch()
    ensures E.PortsExpressible(WithIif(AnyMatch(), NoneOf(names)))
  {
    FullHasNoValue();
  }

  // ------------------------------------------------------------- the sentinel

  /** With the sentinel counter in it the text is no frontend input: that line has no verdict. */
  lemma SentinelIsRejected(table: string, c: Chain)
    requires PrintableChain(table, c)
    ensures ChainsIn(P.Text(E.ChainPieces(table, c, true))).Err?
  {
    hide E.ChainPieces, ChainToks, TablesOf, P.Text, TokensOf, E.AllExpressible, PrintableChain, WordableChain;
    PrintableIsWordable(table, c);
    ChainTextTokens(table, c, true);
    SentinelFile(table, c);
  }

  lemma SentinelFile(table: string, c: Chain)
    requires PrintableChain(table, c)
    ensures TablesOf(ChainToks(table, c, true), []).Err?
  {
    hide ParseChain, HookToks, RulesToks, PrintableRules, SkipBreaks, RulesOf, Canonical, P.LexableWord, Pushed;
    var end := SentinelToks(true) + CloseToks();
    var start := Chain(c.name, c.hook, c.policy, []);
    var rulesToks := RulesToks(c.rules) + end;
    var body := [Word(c.name), Sym('{'), Break] + (HookToks(c) + rulesToks);
    DeclarationReads(c, rulesToks);
    RulesAfterBreaks(rulesToks, start);
    RulesRead(c.rules, start, end);
    NoVerdict(Pushed(start, c.rules), CloseToks());
    SentinelRegroup(table, c, body);
    FileOfRejected(table, body);
  }

  lemma SentinelRegroup(table: string, c: Chain, body: seq<Tok>)
    requires body == [Word(c.name), Sym('{'), Break]
      + (HookToks(c) + (RulesToks(c.rules) + (SentinelToks(true) + CloseToks())))
    ensures ChainToks(table, c, true) ==
      [Word("table")] + ([Word("ip")] + ([Word(table)] + ([Sym('{')] + ([Break] + ([Word("chain")] + body)))))
  {
    hide HookToks, RulesToks, SentinelToks, CloseToks;
  }

  lemma NoVerdict(chain: Chain, rest: seq<Tok>)
    ensures RulesOf(SentinelToks(true) + rest, chain).Fail?
  {
    hide Clauses, Canonical, WellSized, SentinelToks;
    var ts := SentinelToks(true) + rest;
    SentinelClauses(chain.hook, rest);
    assert ParseRule(ts, chain.hook).Fail?;
    var r1 := [Word("comment")] + ([Str("r0")] + ([Break] + rest));
    NoBreaks(Word("counter"), r1);
  }

  /** The sentinel line reads as a rule in which nothing is said. */
  lemma SentinelClauses(hook: Hook, rest: seq<Tok>)
    ensures SentinelToks(true) + rest == [Word("counter")] + ([Word("comment")] + ([Str("r0")] + ([Break] + rest)))
    ensures Clauses(SentinelToks(true) + rest, hook, NewRule()) == Got(NewRule(), [Break] + rest)
    ensures NewRule().action == None
  {
    hide KeywordOf, Canonical, WellSized;
    var after := [Break] + rest;
    var r2 := [Str("r0")] + after;
    var r1 := [Word("comment")] + r2;
    assert SentinelToks(true) + rest == [Word("counter")] + r1;
    KeywordTable();
    BumpOne(Str("r0"), after);
    ClauseReads("comment", OnComment, r2, hook, NewRule(), NewRule(), after);
    ClauseReads("counter", OnCounter, r1, hook, NewRule(), NewRule(), r1);
    assert Clauses(after, hook, NewRule()) == Got(NewRule(), after);
  }
}
