/** Printing a chain and parsing the text gives the chain back. */
module RoundTrip {
  import opened Wrappers
  import opened Intervals
  import opened Cidr
  import opened Rules
  import opened Lexer
  import P = Pieces
  import E = Emitter
  import opened Printed
  import opened Grammar
  import opened Accepted
  import opened Reread

  // ------------------------------------------------------------------ clauses

  /** Something other than a value comes next: a further word or the end of the statement. */
  predicate Settled(ts: seq<Tok>) {
    Peek(ts).Word? || EndsStatement(Peek(ts))
  }

  lemma SettledIsDelimited(ts: seq<Tok>)
    requires Settled(ts)
    ensures Delimited(ts) && Peek(ts) != Sym('*') && Peek(ts) != Sym('=')
  {
  }

  lemma KeywordTable()
    ensures KeywordOf("ip") == OnIp && KeywordOf("meta") == OnMeta && KeywordOf("iifname") == OnIifname
    ensures KeywordOf("tcp") == OnPorts(6) && KeywordOf("udp") == OnPorts(17)
    ensures KeywordOf("counter") == OnCounter && KeywordOf("comment") == OnComment
  {
  }

  lemma VerdictKeywords(a: Action)
    ensures KeywordOf(E.ActionWord(a)) == if a.Reject? then OnReject else OnVerdict(a)
  {
  }

  /** Reading one clause whose outcome is known. */
  lemma ClauseReads(w: string, k: Keyword, body: seq<Tok>, hook: Hook, st: RuleState, next: RuleState, rest: seq<Tok>)
    requires KeywordOf(w) == k && (k.OnPorts? ==> k.protocol <= 255) && Clause(body, k, hook, st) == Got(next, rest)
    ensures Clauses([Word(w)] + body, hook, st) == Clauses(rest, hook, next)
  {
    hide Clause, KeywordOf;
    BumpOne(Word(w), body);
    OneClause([Word(w)] + body, hook, st, w, k);
  }

  lemma IifReads(m: IfMatch, hook: Hook, st: RuleState, rest: seq<Tok>)
    requires PrintableIif(m, hook) && Settled(rest) && st.matches.iif == Any
    ensures Clauses(IifToks(m) + rest, hook, st) == Clauses(rest, hook, st.(matches := WithIif(st.matches, m)))
  {
    hide Clauses, BracedToks, NameToks, IfSpec, KeywordOf, StrictlySorted, Canonical, WellSized, PlainName;
    if m.OneOf? {
      KeywordTable();
      SettledIsDelimited(rest);
      IfSpecReads(m.names, rest);
      var body := BracedToks(NameToks(m.names)) + rest;
      assert IifToks(m) + rest == [Word("iifname")] + body;
      ClauseReads("iifname", OnIifname, body, hook, st, st.(matches := WithIif(st.matches, m)), rest);
    } else {
      assert IifToks(m) + rest == rest;
      assert WithIif(st.matches, m) == st.matches;
    }
  }

  lemma ProtocolNames()
    ensures ProtoNumber("icmp") == Some(1) && ProtoNumber("tcp") == Some(6) && ProtoNumber("udp") == Some(17)
  {
  }

  function ProtocolTok(v: nat): Tok {
    P.TokenOf(E.ProtoPiece(v))
  }

  /** The token of a single protocol reads as that protocol. */
  lemma ProtocolReads(v: nat, rest: seq<Tok>)
    requires v <= 255 && Settled(rest)
    ensures v <= DomainMax(8) && Spec([ProtocolTok(v)] + rest, Protocol) == Got(Intervals.Point(8, v), rest)
  {
    Widths();
    ProtocolNames();
    forall after: seq<Tok> | Delimited(after)
      ensures AtomReads(Protocol, [ProtocolTok(v)], Intervals.Point(8, v), after)
    {
      BumpOne(ProtocolTok(v), after);
    }
    hide ProtoNumber, Spec, Atom;
    SettledIsDelimited(rest);
    SingleReads(Protocol, [ProtocolTok(v)], Intervals.Point(8, v), rest);
  }

  /** A set with a single protocol is a point. */
  lemma SingleProtocol(s: IntervalSet)
    requires s.bits == 8 && E.ProtoValue(s).Some?
    ensures var v := E.ProtoValue(s).value; v <= 255 && v <= DomainMax(8) && s == Intervals.Point(8, v)
  {
    Widths();
    assert s.ranges == [(s.ranges[0].0, s.ranges[0].0)];
  }

  lemma FullIs(s: IntervalSet)
    requires IsFull(s)
    ensures s == Full(s.bits)
  {
    assert s.ranges == [(0, DomainMax(s.bits))];
  }

  /** Constraining a free dimension sets it. */
  lemma ConstrainFree(m: Match, f: Field, s: IntervalSet)
    requires !f.IsInterface() && s.bits == f.Bits() && m.Dim(f) == Full(f.Bits())
    ensures Constrain(m, f, s) == m.WithDim(f, s)
  {
    FullMeets(f.Bits(), s);
  }

  lemma ProtoReads(s: IntervalSet, hook: Hook, st: RuleState, rest: seq<Tok>)
    requires s.bits == 8 && (IsFull(s) || E.ProtoValue(s).Some?) && Settled(rest) && st.matches.proto == Full(8)
    ensures Clauses(ProtoToks(s) + rest, hook, st) == Clauses(rest, hook, st.(matches := st.matches.(proto := s)))
  {
    hide Clauses, KeywordOf, Spec, Canonical, WellSized, IsFull;
    if E.ProtoValue(s).Some? {
      var v := E.ProtoValue(s).value;
      SingleProtocol(s);
      ProtocolReads(v, rest);
      KeywordTable();
      ConstrainFree(st.matches, Proto, s);
      var body := [Word("l4proto")] + ([ProtocolTok(v)] + rest);
      assert ProtoToks(s) + rest == [Word("meta")] + body;
      BumpOne(Word("l4proto"), [ProtocolTok(v)] + rest);
      ClauseReads("meta", OnMeta, body, hook, st, st.(matches := st.matches.(proto := s)), rest);
    } else {
      FullIs(s);
      assert ProtoToks(s) + rest == rest;
      assert st.matches.(proto := s) == st.matches;
    }
  }

  lemma AddressReads(keyword: string, f: Field, s: IntervalSet, hook: Hook, st: RuleState, rest: seq<Tok>)
    requires (keyword == "saddr" && f == SrcAddr) || (keyword == "daddr" && f == DstAddr)
    requires s.bits == 32 && !IsEmpty(s) && Settled(rest) && st.matches.Dim(f) == Full(32)
    ensures Clauses(AddressToks(keyword, s) + rest, hook, st) ==
      Clauses(rest, hook, st.(matches := st.matches.WithDim(f, s)))
  {
    hide Clauses, KeywordOf, IpMatch, Canonical, WellSized, IsFull, SetToPrefixes, BlockToks, BracedToks, AddressToks,
      E.AreAddresses, Settled;
    AddressToksAre(keyword, s, rest);
    if IsFull(s) {
      FullIs(s);
      assert st.matches.WithDim(f, s) == st.matches;
    } else {
      AddressBodyReads(keyword, f, s, st, rest);
      KeywordTable();
      var body := [Word(keyword)] + (BracedToks(BlockToks(SetToPrefixes(s))) + rest);
      ClauseReads("ip", OnIp, body, hook, st, st.(matches := st.matches.WithDim(f, s)), rest);
    }
  }

  lemma AddressToksAre(keyword: string, s: IntervalSet, rest: seq<Tok>)
    requires s.bits == 32
    ensures E.AreAddresses(SetToPrefixes(s))
    ensures AddressToks(keyword, s) + rest ==
      if IsFull(s) then rest
      else [Word("ip")] + ([Word(keyword)] + (BracedToks(BlockToks(SetToPrefixes(s))) + rest))
  {
    E.PrefixesAreAddresses(s);
    hide IsFull, SetToPrefixes, BlockToks, BracedToks, Canonical, E.AreAddresses;
  }

  lemma AddressBodyReads(keyword: string, f: Field, s: IntervalSet, st: RuleState, rest: seq<Tok>)
    requires (keyword == "saddr" && f == SrcAddr) || (keyword == "daddr" && f == DstAddr)
    requires s.bits == 32 && !IsEmpty(s) && Settled(rest) && st.matches.Dim(f) == Full(32)
    ensures E.AreAddresses(SetToPrefixes(s))
    ensures IpMatch([Word(keyword)] + (BracedToks(BlockToks(SetToPrefixes(s))) + rest), st)
      == Got(st.(matches := st.matches.WithDim(f, s)), rest)
  {
    hide Spec, Canonical, WellSized, SetToPrefixes, BlockToks, BracedToks, E.AreAddresses, Constrain;
    SettledIsDelimited(rest);
    AddressSpecReads(s, rest);
    ConstrainFree(st.matches, f, s);
    BumpOne(Word(keyword), BracedToks(BlockToks(SetToPrefixes(s))) + rest);
  }

  /** Constraining a pinned protocol by itself changes nothing. */
  lemma ConstrainSame(m: Match, v: nat)
    requires v <= DomainMax(8) && m.proto == Intervals.Point(8, v)
    ensures v <= 255 && PinProtocol(m, v) == m
  {
    Widths();
    SetEquality(Meet(m.proto, m.proto), m.proto);
  }

  /** The port keyword selects the dimension. */
  lemma PortSelects(ts: seq<Tok>, keyword: string, f: Field, st: RuleState, n: nat)
    requires n <= 255 && Peek(ts) == Word(keyword)
    requires (keyword == "sport" && f == SrcPort) || (keyword == "dport" && f == DstPort)
    requires Spec(Bump(ts), Port).Got?
    ensures var s := Spec(Bump(ts), Port);
      PortMatch(ts, st, n) == Got(RuleState(Constrain(PinProtocol(st.matches, n), f, s.value), st.action, true), s.rest)
  {
    hide Spec, Canonical, WellSized, PinProtocol, Constrain;
  }

  lemma PortClause(n: nat, keyword: string, f: Field, s: IntervalSet, st: RuleState, rest: seq<Tok>)
    requires n == 6 || n == 17
    requires (keyword == "sport" && f == SrcPort) || (keyword == "dport" && f == DstPort)
    requires s.bits == 16 && !IsEmpty(s) && Settled(rest) && st.matches.Dim(f) == Full(16)
    requires n <= DomainMax(8) && st.matches.proto == Intervals.Point(8, n)
    ensures PortMatch([Word(keyword)] + (BracedToks(RunToks(s.ranges)) + rest), st, n) ==
      Got(RuleState(st.matches.WithDim(f, s), st.action, true), rest)
  {
    hide Spec, Canonical, RunToks, BracedToks, PinProtocol, Constrain, DomainMax, PortMatch, Bump, Peek, IsEmpty;
    SettledIsDelimited(rest);
    PortSpecReads(s, rest);
    ConstrainSame(st.matches, n);
    ConstrainFree(st.matches, f, s);
    BumpOne(Word(keyword), BracedToks(RunToks(s.ranges)) + rest);
    PortSelects([Word(keyword)] + (BracedToks(RunToks(s.ranges)) + rest), keyword, f, st, n);
  }

  lemma PortKeyword(w: string, n: nat)
    requires (w == "tcp" && n == 6) || (w == "udp" && n == 17)
    ensures KeywordOf(w) == OnPorts(n)
  {
    KeywordTable();
    hide KeywordOf;
  }

  lemma PortClauseIs(ts: seq<Tok>, n: nat, hook: Hook, st: RuleState)
    requires n <= 255
    ensures Clause(ts, OnPorts(n), hook, st) == PortMatch(ts, st, n)
  {
    hide PortMatch, IpMatch, MetaMatch;
  }

  lemma NoPortList(w: string, keyword: string, f: Field, s: IntervalSet, m: Match, rest: seq<Tok>)
    requires (f == SrcPort || f == DstPort) && s.bits == 16 && IsFull(s) && m.Dim(f) == Full(16)
    ensures PortToks(w, keyword, s) + rest == rest && m.WithDim(f, s) == m
  {
    FullIs(s);
    assert [] + rest == rest;
    hide Canonical;
  }

  lemma PortListToks(w: string, keyword: string, s: IntervalSet, rest: seq<Tok>)
    requires !IsFull(s)
    ensures PortToks(w, keyword, s) + rest == [Word(w)] + ([Word(keyword)] + (BracedToks(RunToks(s.ranges)) + rest))
  {
    hide BracedToks, RunToks, IsFull, Canonical;
  }

  lemma PortReads(w: string, n: nat, keyword: string, f: Field, s: IntervalSet, hook: Hook, st: RuleState,
                  rest: seq<Tok>)
    requires (w == "tcp" && n == 6) || (w == "udp" && n == 17)
    requires (keyword == "sport" && f == SrcPort) || (keyword == "dport" && f == DstPort)
    requires s.bits == 16 && !IsEmpty(s) && Settled(rest) && st.matches.Dim(f) == Full(16)
    requires n <= DomainMax(8) && st.matches.proto == Intervals.Point(8, n)
    ensures Clauses(PortToks(w, keyword, s) + rest, hook, st) ==
      Clauses(rest, hook, RuleState(st.matches.WithDim(f, s), st.action, st.portsConstrained || !IsFull(s)))
  {
    hide Clauses, KeywordOf, Canonical, IsFull, RunToks, BracedToks, PortMatch, DomainMax, Settled, PortToks, Clause,
      IsEmpty;
    if IsFull(s) {
      NoPortList(w, keyword, f, s, st.matches, rest);
    } else {
      PortKeyword(w, n);
      PortClause(n, keyword, f, s, st, rest);
      var body := [Word(keyword)] + (BracedToks(RunToks(s.ranges)) + rest);
      PortListToks(w, keyword, s, rest);
      PortClauseIs(body, n, hook, st);
      ClauseReads(w, OnPorts(n), body, hook, st, RuleState(st.matches.WithDim(f, s), st.action, true), rest);
    }
  }

  // -------------------------------------------------------------------- rules

  predicate StartsClause(ts: seq<Tok>) {
    ts == [] || ts[0].Word?
  }

  lemma SettledPlus(ts: seq<Tok>, rest: seq<Tok>)
    requires StartsClause(ts) && Settled(rest)
    ensures Settled(ts + rest)
  {
    if ts == [] { assert ts + rest == rest; }
  }

  lemma ClausesStart(m: Match)
    ensures StartsClause(IifToks(m.iif)) && StartsClause(ProtoToks(m.proto))
    ensures StartsClause(AddressToks("saddr", m.srcAddr)) && StartsClause(AddressToks("daddr", m.dstAddr))
    ensures StartsClause(PortToks(E.Layer4(m.proto), "sport", m.srcPort))
    ensures StartsClause(PortToks(E.Layer4(m.proto), "dport", m.dstPort))
  {
    hide BracedToks, BlockToks, RunToks, NameToks, IsFull, SetToPrefixes, Canonical, E.ProtoValue;
  }

  /** The rule read so far, when `k` of the six clauses are in. */
  function Upto(m: Match, k: nat): Match
    requires k <= 6
  {
    RawMatch(if k >= 3 then m.srcAddr else Full(32), if k >= 4 then m.dstAddr else Full(32),
             if k >= 5 then m.srcPort else Full(16), if k >= 6 then m.dstPort else Full(16),
             if k >= 2 then m.proto else Full(8), if k >= 1 then m.iif else Any, Any)
  }

  lemma UptoEnds(m: Match)
    requires m.oif.Any?
    ensures Upto(m, 0) == AnyMatch() && Upto(m, 6) == m
    ensures Upto(m, 1) == WithIif(Upto(m, 0), m.iif)
    ensures Upto(m, 2) == Upto(m, 1).(proto := m.proto)
    ensures Upto(m, 3) == Upto(m, 2).WithDim(SrcAddr, m.srcAddr) && Upto(m, 2).Dim(SrcAddr) == Full(32)
    ensures Upto(m, 4) == Upto(m, 3).WithDim(DstAddr, m.dstAddr) && Upto(m, 3).Dim(DstAddr) == Full(32)
    ensures Upto(m, 5) == Upto(m, 4).WithDim(SrcPort, m.srcPort) && Upto(m, 4).Dim(SrcPort) == Full(16)
    ensures Upto(m, 6) == Upto(m, 5).WithDim(DstPort, m.dstPort) && Upto(m, 5).Dim(DstPort) == Full(16)
    ensures Upto(m, 1).proto == Full(8) && Upto(m, 4).proto == m.proto && Upto(m, 5).proto == m.proto
  {
    hide Canonical;
  }

  /** Everything before the ports. */
  lemma FrontReads(m: Match, hook: Hook, rest: seq<Tok>)
    requires PrintableMatch(m, hook) && Settled(rest)
    ensures Clauses(IifToks(m.iif) + (ProtoToks(m.proto)
      + (AddressToks("saddr", m.srcAddr) + (AddressToks("daddr", m.dstAddr) + rest))),
      hook, NewRule()) == Clauses(rest, hook, RuleState(Upto(m, 4), None, false))
  {
    UptoEnds(m);
    ClausesStart(m);
    hide Clauses, Upto, IifToks, ProtoToks, AddressToks, IsFull, PrintableIif, E.ProtoValue, Canonical;
    var r3 := AddressToks("daddr", m.dstAddr) + rest;
    var r2 := AddressToks("saddr", m.srcAddr) + r3;
    var r1 := ProtoToks(m.proto) + r2;
    SettledPlus(AddressToks("daddr", m.dstAddr), rest);
    SettledPlus(AddressToks("saddr", m.srcAddr), r3);
    SettledPlus(ProtoToks(m.proto), r2);
    IifReads(m.iif, hook, RuleState(Upto(m, 0), None, false), r1);
    ProtoReads(m.proto, hook, RuleState(Upto(m, 1), None, false), r2);
    AddressReads("saddr", SrcAddr, m.srcAddr, hook, RuleState(Upto(m, 2), None, false), r3);
    AddressReads("daddr", DstAddr, m.dstAddr, hook, RuleState(Upto(m, 3), None, false), rest);
  }

  lemma PinnedLayer4(s: IntervalSet, n: nat)
    requires s.bits == 8 && E.ProtoValue(s) == Some(n) && (n == 6 || n == 17)
    ensures n <= DomainMax(8) && s == Intervals.Point(8, n)
    ensures E.Layer4(s) == if n == 6 then "tcp" else "udp"
  {
    SingleProtocol(s);
  }

  function PortsGiven(m: Match): bool {
    !IsFull(m.srcPort) || !IsFull(m.dstPort)
  }

  lemma BackReads(m: Match, hook: Hook, rest: seq<Tok>)
    requires PrintableMatch(m, hook) && Settled(rest)
    ensures Clauses(PortToks(E.Layer4(m.proto), "sport", m.srcPort)
      + (PortToks(E.Layer4(m.proto), "dport", m.dstPort) + rest),
      hook, RuleState(Upto(m, 4), None, false)) == Clauses(rest, hook, RuleState(m, None, PortsGiven(m)))
  {
    UptoEnds(m);
    ClausesStart(m);
    hide Clauses, Upto, PortToks, PrintableIif, Canonical;
    var w := E.Layer4(m.proto);
    var r5 := PortToks(w, "dport", m.dstPort) + rest;
    SettledPlus(PortToks(w, "dport", m.dstPort), rest);
    if PortsGiven(m) {
      var n := E.ProtoValue(m.proto).value;
      PinnedLayer4(m.proto, n);
      hide IsFull, E.ProtoValue, E.Layer4;
      PortReads(w, n, "sport", SrcPort, m.srcPort, hook, RuleState(Upto(m, 4), None, false), r5);
      PortReads(w, n, "dport", DstPort, m.dstPort, hook, RuleState(Upto(m, 5), None, !IsFull(m.srcPort)), rest);
    } else {
      FullIs(m.srcPort);
      FullIs(m.dstPort);
      NoPorts(w, m, rest);
    }
  }

  lemma NoPorts(w: string, m: Match, rest: seq<Tok>)
    requires IsFull(m.srcPort) && IsFull(m.dstPort)
    ensures PortToks(w, "sport", m.srcPort) + (PortToks(w, "dport", m.dstPort) + rest) == rest
    ensures m.oif.Any? ==> Upto(m, 4) == m
  {
    FullIs(m.srcPort);
    FullIs(m.dstPort);
    assert [] + rest == rest;
  }

  /** The tokens of the addresses and ports of a rule, and what follows. */
  function BodyToks(m: Match, rest: seq<Tok>): seq<Tok> {
    AddressToks("saddr", m.srcAddr) + (AddressToks("daddr", m.dstAddr) + PortBodyToks(m, rest))
  }

  function PortBodyToks(m: Match, rest: seq<Tok>): seq<Tok> {
    PortToks(E.Layer4(m.proto), "sport", m.srcPort) + (PortToks(E.Layer4(m.proto), "dport", m.dstPort) + rest)
  }

  lemma BodyIsSettled(m: Match, rest: seq<Tok>)
    requires Settled(rest)
    ensures Settled(PortBodyToks(m, rest)) && Settled(AddressToks("daddr", m.dstAddr) + PortBodyToks(m, rest))
    ensures Settled(BodyToks(m, rest)) && Settled(ProtoToks(m.proto) + BodyToks(m, rest))
  {
    ClausesStart(m);
    hide ProtoToks, AddressToks, PortToks, Canonical, E.Layer4;
    SettledPlus(PortToks(E.Layer4(m.proto), "dport", m.dstPort), rest);
    SettledPlus(PortToks(E.Layer4(m.proto), "sport", m.srcPort),
      PortToks(E.Layer4(m.proto), "dport", m.dstPort) + rest);
    SettledPlus(AddressToks("daddr", m.dstAddr), PortBodyToks(m, rest));
    SettledPlus(AddressToks("saddr", m.srcAddr), AddressToks("daddr", m.dstAddr) + PortBodyToks(m, rest));
    SettledPlus(ProtoToks(m.proto), BodyToks(m, rest));
  }

  lemma MatchToksByClause(m: Match, rest: seq<Tok>)
    ensures MatchToks(m) + rest == IifToks(m.iif) + (ProtoToks(m.proto) + BodyToks(m, rest))
  {
    hide IifToks, ProtoToks, AddressToks, PortToks, Canonical, E.Layer4, WellSized;
  }

  /** The predicate of a printable rule reads back as it is. */
  lemma MatchReads(m: Match, hook: Hook, rest: seq<Tok>)
    requires PrintableMatch(m, hook) && Settled(rest)
    ensures Clauses(MatchToks(m) + rest, hook, NewRule()) == Clauses(rest, hook, RuleState(m, None, PortsGiven(m)))
  {
    hide Clauses, Upto, IifToks, ProtoToks, AddressToks, PortToks, PrintableMatch, PortsGiven, Canonical, E.Layer4,
      MatchToks, WellSized;
    MatchToksByClause(m, rest);
    BodyIsSettled(m, rest);
    FrontReads(m, hook, PortBodyToks(m, rest));
    BackReads(m, hook, rest);
  }

  /** Counter, verdict and comment, up to the end of the line. */
  lemma VerdictReads(r: Rule, hook: Hook, st: RuleState, rest: seq<Tok>)
    requires st.action == None && EndsStatement(Peek(rest))
    ensures Clauses(VerdictToks(r) + rest, hook, st) == Got(st.(action := Some(r.action)), rest)
  {
    hide KeywordOf, E.ActionWord, P.Decimal, Canonical, WellSized, Clauses;
    KeywordTable();
    VerdictKeywords(r.action);
    VerdictIsNoOption(r.action);
    var note := Str("r" + P.Decimal(r.number));
    var r2 := [Word("comment")] + ([note] + rest);
    var r1 := [Word(E.ActionWord(r.action))] + r2;
    assert VerdictToks(r) + rest == [Word("counter")] + r1;
    BumpOne(note, rest);
    var done := st.(action := Some(r.action));
    assert Clauses(rest, hook, done) == Got(done, rest) by { EndReads(rest, hook, done); }
    ClauseReads("comment", OnComment, [note] + rest, hook, done, done, rest);
    ClauseReads(E.ActionWord(r.action), if r.action.Reject? then OnReject
      else OnVerdict(r.action), r2, hook, st, done, r2);
    ClauseReads("counter", OnCounter, r1, hook, st, st, r1);
  }

  lemma EndReads(rest: seq<Tok>, hook: Hook, st: RuleState)
    requires EndsStatement(Peek(rest))
    ensures Clauses(rest, hook, st) == Got(st, rest)
  {
  }

  lemma VerdictIsNoOption(a: Action)
    ensures E.ActionWord(a) != "packets" && "comment" != "with"
  {
  }

  lemma PrintableIsSound(m: Match, hook: Hook, action: Action)
    requires PrintableMatch(m, hook)
    ensures IsSound(RuleState(m, Some(action), PortsGiven(m)))
  {
    if PortsGiven(m) {
      var n := E.ProtoValue(m.proto).value;
      PinnedLayer4(m.proto, n);
      assert Only(m.proto, n);
      OnlyPins(m.proto, n);
    }
  }

  /** A printed rule reads back with its predicate and its verdict. */
  lemma RuleReads(r: Rule, hook: Hook, rest: seq<Tok>)
    requires PrintableMatch(r.matches, hook) && EndsStatement(Peek(rest))
    ensures ParseRule(RuleToks(r) + rest, hook) == Got((r.matches, r.action), rest)
  {
    hide Clauses, MatchToks, VerdictToks, PrintableMatch, PortsGiven, IsSound, Canonical, WellSized;
    assert RuleToks(r) + rest == MatchToks(r.matches) + (VerdictToks(r) + rest);
    VerdictIsSettled(r, rest);
    MatchReads(r.matches, hook, VerdictToks(r) + rest);
    VerdictReads(r, hook, RuleState(r.matches, None, PortsGiven(r.matches)), rest);
    PrintableIsSound(r.matches, hook, r.action);
  }

  lemma VerdictIsSettled(r: Rule, rest: seq<Tok>)
    ensures Settled(VerdictToks(r) + rest)
  {
  }

  // ------------------------------------------------------------------- chains

  /** The rules pushed onto a chain one by one, which numbers them. */
  function Pushed(chain: Chain, rules: seq<Rule>): Chain {
    if rules == [] then chain
    else
      var last := rules[|rules| - 1];
      Pushed(chain, rules[..|rules| - 1]).Push(last.matches, last.action)
  }

  lemma {:induction false} PushedIs(chain: Chain, rules: seq<Rule>)
    requires chain.rules == []
    ensures var p := Pushed(chain, rules);
      && p.name == chain.name && p.hook == chain.hook && p.policy == chain.policy && |p.rules| == |rules|
      && forall i | 0 <= i < |rules| :: p.rules[i] == Rule(i + 1, rules[i].matches, rules[i].action)
  {
    hide Canonical, WellSized;
    if rules != [] { PushedIs(chain, rules[..|rules| - 1]); }
  }

  lemma LeadingBreak(rest: seq<Tok>)
    ensures SkipBreaks([Break] + rest) == SkipBreaks(rest)
  {
    BumpOne(Break, rest);
  }

  lemma RulesAfterBreaks(ts: seq<Tok>, chain: Chain)
    ensures RulesOf(SkipBreaks(ts), chain) == RulesOf(ts, chain)
  {
    SkipTwice(ts);
    hide SkipBreaks, ParseRule;
  }

  lemma {:induction false} SkipTwice(ts: seq<Tok>)
    ensures SkipBreaks(SkipBreaks(ts)) == SkipBreaks(ts)
  {
    if Peek(ts) == Break { SkipTwice(Bump(ts)); }
  }

  lemma OneRuleRead(r: Rule, chain: Chain, rest: seq<Tok>)
    requires PrintableMatch(r.matches, chain.hook)
    ensures RulesOf(RuleToks(r) + ([Break] + rest), chain) == RulesOf(rest, chain.Push(r.matches, r.action))
  {
    hide ParseRule, RuleToks, PrintableMatch;
    var ts := RuleToks(r) + ([Break] + rest);
    BumpOne(Break, rest);
    RuleReads(r, chain.hook, [Break] + rest);
    RuleIsWord(r, [Break] + rest);
    var next := chain.Push(r.matches, r.action);
    assert RulesOf(ts, chain) == RulesOf([Break] + rest, next);
    LeadingBreak(rest);
    RulesAfterBreaks(rest, next);
    RulesAfterBreaks([Break] + rest, next);
  }

  lemma RuleIsWord(r: Rule, rest: seq<Tok>)
    ensures Peek(RuleToks(r) + rest).Word? && SkipBreaks(RuleToks(r) + rest) == RuleToks(r) + rest
  {
    ClausesStart(r.matches);
    hide IifToks, ProtoToks, AddressToks, PortToks, E.Layer4, Canonical;
  }

  lemma {:induction false} RulesRead(rules: seq<Rule>, chain: Chain, rest: seq<Tok>)
    requires PrintableRules(rules, chain.hook)
    ensures RulesOf(RulesToks(rules) + rest, chain) == RulesOf(rest, Pushed(chain, rules))
    ensures Pushed(chain, rules).hook == chain.hook
  {
    hide RuleToks, RulesOf, PrintableMatch;
    if rules == [] {
      assert RulesToks(rules) + rest == rest;
    } else {
      var init, last := rules[..|rules| - 1], rules[|rules| - 1];
      var tail := RuleToks(last) + ([Break] + rest);
      assert RulesToks(rules) + rest == RulesToks(init) + tail;
      RulesRead(init, chain, tail);
      OneRuleRead(last, Pushed(chain, init), rest);
    }
  }

  lemma HookWords(h: Hook)
    ensures HookOf(E.HookWord(h)) == Ok(h)
  {
  }

  lemma PolicyWords(a: Action)
    requires a == Accept || a == Drop
    ensures E.PolicyWord(a) == if a == Accept then "accept" else "drop"
  {
  }

  lemma HeadReads(name: string, h: Hook, rest: seq<Tok>)
    ensures ChainHead([Word(name)] + ([Sym('{')] + ([Break] + ([Word("type")] + ([Word("filter")] + ([Word("hook")]
      + ([Word(E.HookWord(h))] + rest))))))) == Got((name, h), rest)
  {
    HookWords(h);
    hide HookOf, E.HookWord;
    var t6 := [Word(E.HookWord(h))] + rest;
    var t5 := [Word("hook")] + t6;
    var t4 := [Word("filter")] + t5;
    var t3 := [Word("type")] + t4;
    var t2 := [Break] + t3;
    var t1 := [Sym('{')] + t2;
    BumpOne(Word(name), t1);
    BumpOne(Sym('{'), t2);
    LeadingBreak(t3);
    BumpOne(Word("type"), t4);
    BumpOne(Word("filter"), t5);
    BumpOne(Word("hook"), t6);
    BumpOne(Word(E.HookWord(h)), rest);
    assert SkipBreaks(t3) == t3;
    hide SkipBreaks, Bump;
  }

  lemma PriorityReads(rest: seq<Tok>)
    ensures Priority([Word("priority")] + ([Word("filter")] + ([Break] + rest))) == Got((), SkipBreaks(rest))
  {
    var t2 := [Break] + rest;
    var t1 := [Word("filter")] + t2;
    BumpOne(Word("priority"), t1);
    BumpOne(Word("filter"), t2);
    LeadingBreak(rest);
    hide SkipBreaks;
  }

  lemma PolicyReads(a: Action, rest: seq<Tok>)
    requires a == Accept || a == Drop
    ensures PolicyOf([Word("policy")] + ([Word(E.PolicyWord(a))] + ([Break] + rest))) == Got(a, SkipBreaks(rest))
  {
    PolicyWords(a);
    var t2 := [Break] + rest;
    var t1 := [Word(E.PolicyWord(a))] + t2;
    BumpOne(Word("policy"), t1);
    BumpOne(Word(E.PolicyWord(a)), t2);
    LeadingBreak(rest);
    hide SkipBreaks, E.PolicyWord;
  }

  /** A chain declaration up to its rules. */
  lemma DeclarationReads(c: Chain, rest: seq<Tok>)
    requires c.policy == Accept || c.policy == Drop
    ensures ParseChain([Word(c.name), Sym('{'), Break] + (HookToks(c) + rest)) ==
      RulesOf(SkipBreaks(rest), Chain(c.name, c.hook, c.policy, []))
  {
    hide ChainHead, Priority, PolicyOf, RulesOf, SkipBreaks, E.HookWord, E.PolicyWord;
    var policyLine := [Word("policy")] + ([Word(E.PolicyWord(c.policy))] + ([Break] + rest));
    var priorityLine := [Word("priority")] + ([Word("filter")] + ([Break] + policyLine));
    var all := [Word(c.name)] + ([Sym('{')] + ([Break] + ([Word("type")] + ([Word("filter")] + ([Word("hook")]
      + ([Word(E.HookWord(c.hook))] + priorityLine))))));
    assert [Word(c.name), Sym('{'), Break] + (HookToks(c) + rest) == all;
    HeadReads(c.name, c.hook, priorityLine);
    PriorityReads(policyLine);
    NoBreaks(Word("policy"), [Word(E.PolicyWord(c.policy))] + ([Break] + rest));
    PolicyReads(c.policy, rest);
  }

  lemma NoBreaks(t: Tok, rest: seq<Tok>)
    requires t != Break
    ensures SkipBreaks([t] + rest) == [t] + rest
  {
    BumpOne(t, rest);
  }

  /** A printed chain body reads back as the chain, its rules numbered anew. */
  lemma ChainReads(c: Chain, rest: seq<Tok>)
    requires c.policy == Accept || c.policy == Drop
    requires PrintableRules(c.rules, c.hook)
    ensures ParseChain([Word(c.name), Sym('{'), Break] + (HookToks(c) + (RulesToks(c.rules) + ([Sym('}')] + rest)))) ==
      Got(Pushed(Chain(c.name, c.hook, c.policy, []), c.rules), rest)
  {
    hide ParseChain, HookToks, RulesToks, PrintableMatch, SkipBreaks, ParseRule;
    var close := [Sym('}')] + rest;
    var start := Chain(c.name, c.hook, c.policy, []);
    DeclarationReads(c, RulesToks(c.rules) + close);
    RulesAfterBreaks(RulesToks(c.rules) + close, start);
    RulesRead(c.rules, start, close);
    NoBreaks(Sym('}'), rest);
    BumpOne(Sym('}'), rest);
  }

  /** The chain with its rules numbered from one. */
  function Renumbered(c: Chain): Chain {
    Pushed(Chain(c.name, c.hook, c.policy, []), c.rules)
  }

  lemma TableReads(table: string, body: seq<Tok>, c: Chain)
    requires ParseChain(body) == Got(c, [Break] + ([Sym('}')] + [Break]))
    ensures ParseTable([Word("ip")] + ([Word(table)] + ([Sym('{')] + ([Break] + ([Word("chain")] + body))))) ==
      Got([c], [Break])
  {
    hide ChainsOf, ParseChain, Bump, Peek, SkipBreaks;
    TableBodyReads(body, c);
    var inTable := [Break] + ([Word("chain")] + body);
    BumpOne(Word("ip"), [Word(table)] + ([Sym('{')] + inTable));
    BumpOne(Word(table), [Sym('{')] + inTable);
    BumpOne(Sym('{'), inTable);
  }

  lemma OneTable(body: seq<Tok>, c: Chain)
    requires ParseTable(body) == Got([c], [Break])
    ensures TablesOf([Word("table")] + body, []) == Ok([c])
  {
    hide ParseTable;
    NoBreaks(Word("table"), body);
    BumpOne(Word("table"), body);
    NothingMore([c]);
    assert [] + [c] == [c];
  }

  lemma NothingMore(chains: seq<Chain>)
    ensures TablesOf([Break], chains) == Ok(chains)
  {
    LeadingBreak([]);
    NoTokensLeft();
    assert [Break] + [] == [Break];
  }

  lemma FileReads(table: string, c: Chain)
    requires PrintableChain(table, c)
    ensures TablesOf(ChainToks(table, c, false), []) == Ok([Renumbered(c)])
  {
    hide ParseChain, HookToks, RulesToks, PrintableMatch, SkipBreaks, P.LexableWord, Pushed, ParseTable, TablesOf,
      Canonical;
    var end := [Break] + ([Sym('}')] + [Break]);
    var body := [Word(c.name), Sym('{'), Break] + (HookToks(c) + (RulesToks(c.rules) + ([Sym('}')] + end)));
    var inTable := [Word("ip")] + ([Word(table)] + ([Sym('{')] + ([Break] + ([Word("chain")] + body))));
    ChainReads(c, end);
    TableReads(table, body, Renumbered(c));
    OneTable(inTable, Renumbered(c));
    TokensRegroup(table, c, body);
  }

  lemma TokensRegroup(table: string, c: Chain, body: seq<Tok>)
    requires body == [Word(c.name), Sym('{'), Break]
      + (HookToks(c) + (RulesToks(c.rules) + ([Sym('}')] + ([Break] + ([Sym('}')] + [Break])))))
    ensures ChainToks(table, c, false) ==
      [Word("table")] + ([Word("ip")] + ([Word(table)] + ([Sym('{')] + ([Break] + ([Word("chain")] + body)))))
  {
    hide HookToks, RulesToks;
  }

  lemma NoTokensLeft()
    ensures SkipBreaks([]) == []
  {
  }

  lemma TableBodyReads(body: seq<Tok>, c: Chain)
    requires ParseChain(body) == Got(c, [Break] + ([Sym('}')] + [Break]))
    ensures ChainsOf([Break] + ([Word("chain")] + body), []) == Got([c], [Break])
  {
    hide ParseChain, SkipBreaks;
    var close := [Sym('}')] + [Break];
    LeadingBreak([Word("chain")] + body);
    NoBreaks(Word("chain"), body);
    BumpOne(Word("chain"), body);
    LeadingBreak(close);
    NoBreaks(Sym('}'), [Break]);
    BumpOne(Sym('}'), [Break]);
    assert ChainsOf([Break] + close, [c]) == Got([c], [Break]);
    assert [] + [c] == [c];
  }

  // -------------------------------------------------------------- the theorem

  /** Same hook, policy and verdicts, and structurally the same predicates. */
  predicate SameChain(a: Chain, b: Chain) {
    && a.name == b.name && a.hook == b.hook && a.policy == b.policy && |a.rules| == |b.rules|
    && forall i | 0 <= i < |a.rules| ::
         a.rules[i].matches == b.rules[i].matches && a.rules[i].action == b.rules[i].action
  }

  lemma RenumberedIsSame(c: Chain)
    ensures SameChain(Renumbered(c), c) && (c.Numbered() ==> Renumbered(c) == c)
  {
    hide Pushed, Canonical, WellSized;
    PushedIs(Chain(c.name, c.hook, c.policy, []), c.rules);
    if c.Numbered() { assert Renumbered(c).rules == c.rules; }
  }

  /** Printing a chain and parsing the text gives the chain back, its rules numbered from one. */
  lemma PrintParse(table: string, c: Chain)
    requires PrintableChain(table, c)
    ensures E.AllExpressible(c.rules)
    ensures ChainsIn(P.Text(E.ChainPieces(table, c, false))) == Ok([Renumbered(c)])
    ensures SameChain(Renumbered(c), c) && (c.Numbered() ==> Renumbered(c) == c)
  {
    hide E.ChainPieces, ChainToks, PrintableChain, TablesOf, P.Text, TokensOf, Renumbered, SameChain, E.AllExpressible;
    PrintableIsWordable(table, c);
    ChainTextTokens(table, c, false);
    FileReads(table, c);
    RenumberedIsSame(c);
  }
}
