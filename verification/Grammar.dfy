/** What the accepted nftables subset means: the parser as functions on the remaining tokens. */
module Grammar {
  import opened Wrappers
  import opened Arith
  import opened Intervals
  import opened Rules
  import opened Lexer

  /** A value and the tokens after it, or why the file is rejected. */
  datatype Parsed<+T> = Got(value: T, rest: seq<Tok>) | Fail(cause: Cause) {
    predicate IsFailure() { Fail? }

    function PropagateFailure<U>(): Parsed<U>
      requires Fail?
    {
      Fail(cause)
    }

    function Extract(): (T, seq<Tok>)
      requires Got?
    {
      (value, rest)
    }
  }

  // -------------------------------------------------------------- primitives

  function Peek(ts: seq<Tok>): Tok {
    if ts == [] then Eof else ts[0]
  }

  function Bump(ts: seq<Tok>): (rest: seq<Tok>)
    ensures |rest| <= |ts| && (Peek(ts) != Eof ==> |rest| < |ts|)
  {
    if ts == [] then [] else ts[1..]
  }

  function EatSym(ts: seq<Tok>, c: char): (rest: seq<Tok>)
    ensures |rest| <= |ts|
  {
    if Peek(ts) == Sym(c) then Bump(ts) else ts
  }

  function ExpectSym(ts: seq<Tok>, c: char): (r: Parsed<()>)
    ensures r.Got? ==> |r.rest| < |ts|
  {
    if Peek(ts) == Sym(c) then Got((), Bump(ts)) else Fail(Syntax)
  }

  function EatWord(ts: seq<Tok>, w: string): (rest: seq<Tok>)
    ensures |rest| <= |ts|
  {
    if Peek(ts) == Word(w) then Bump(ts) else ts
  }

  function ExpectWord(ts: seq<Tok>): (r: Parsed<string>)
    ensures r.Got? ==> |r.rest| < |ts|
  {
    if Peek(ts).Word? then Got(Peek(ts).text, Bump(ts)) else Fail(Syntax)
  }

  /** The word `w` must come next. */
  function RequireWord(ts: seq<Tok>, w: string, cause: Cause): (r: Parsed<()>)
    ensures r.Got? ==> |r.rest| < |ts|
  {
    if Peek(ts) == Word(w) then Got((), Bump(ts)) else Fail(cause)
  }

  function ExpectNum(ts: seq<Tok>): (r: Parsed<nat>)
    ensures r.Got? ==> |r.rest| < |ts|
  {
    if Peek(ts).Num? then Got(Peek(ts).number, Bump(ts)) else Fail(Syntax)
  }

  function SkipBreaks(ts: seq<Tok>): (rest: seq<Tok>)
    ensures |rest| <= |ts|
  {
    if Peek(ts) == Break then SkipBreaks(Bump(ts)) else ts
  }

  // ------------------------------------------------------------- value forms

  /** The dimensions a literal value can stand for. */
  datatype ValueKind = Address | Port | Protocol {
    function Bits(): nat {
      match this
      case Address => 32
      case Port => 16
      case Protocol => 8
    }
  }

  function ProtoNumber(name: string): (n: Option<nat>)
    ensures n.Some? ==> n.value <= 255
  {
    if name == "icmp" then Some(1)
    else if name == "igmp" then Some(2)
    else if name == "tcp" then Some(6)
    else if name == "udp" then Some(17)
    else if name == "gre" then Some(47)
    else if name == "esp" then Some(50)
    else if name == "ah" then Some(51)
    else if name == "icmpv6" || name == "ipv6-icmp" then Some(58)
    else if name == "ospf" then Some(89)
    else if name == "vrrp" then Some(112)
    else if name == "sctp" then Some(132)
    else if name == "udplite" then Some(136)
    else None
  }

  /** A set of the right width. */
  ghost predicate Sized(r: Parsed<IntervalSet>, ts: seq<Tok>, kind: ValueKind) {
    r.Got? ==> |r.rest| < |ts| && r.value.bits == kind.Bits()
  }

  lemma Widths()
    ensures DomainMax(8) == 255 && DomainMax(16) == 65535 && DomainMax(32) == 0xFFFF_FFFF
  {
    Pow2Table();
  }

  /** An address, a prefix or an address range. */
  function AddressAtom(ts: seq<Tok>): (r: Parsed<IntervalSet>)
    ensures Sized(r, ts, Address)
  {
    Widths();
    if !Peek(ts).Ip? then Fail(Syntax)
    else
      var base, t1 := Peek(ts).address, Bump(ts);
      if Peek(t1) == Sym('/') then
        var (len, t2) :- ExpectNum(Bump(t1));
        if len > 32 then Fail(Syntax) else Got(Prefix(32, base, len), t2)
      else if Peek(t1) == Sym('-') then
        var t2 := Bump(t1);
        if !Peek(t2).Ip? then Fail(Syntax)
        else if Peek(t2).address < base then Fail(Syntax)
        else Got(Span(32, base, Peek(t2).address), Bump(t2))
      else Got(Point(32, base), t1)
  }

  /** A port or a port range; a service name is refused. */
  function PortAtom(ts: seq<Tok>): (r: Parsed<IntervalSet>)
    ensures Sized(r, ts, Port)
  {
    Widths();
    if Peek(ts).Word? then Fail(OutOfScope)
    else
      var (lo, t1) :- ExpectNum(ts);
      if lo > 65535 then Fail(Syntax)
      else if Peek(t1) == Sym('-') then
        var (hi, t2) :- ExpectNum(Bump(t1));
        if hi > 65535 || hi < lo then Fail(Syntax) else Got(Span(16, lo, hi), t2)
      else Got(Point(16, lo), t1)
  }

  /** A protocol number or name. */
  function ProtocolAtom(ts: seq<Tok>): (r: Parsed<IntervalSet>)
    ensures Sized(r, ts, Protocol)
  {
    Widths();
    match Peek(ts)
    case Num(n) => if n <= 255 then Got(Point(8, n), Bump(ts)) else Fail(Syntax)
    case Word(w) =>
      (match ProtoNumber(w)
       case Some(n) => Got(Point(8, n), Bump(ts))
       case None => Fail(Syntax))
    case _ => Fail(Syntax)
  }

  function Atom(ts: seq<Tok>, kind: ValueKind): (r: Parsed<IntervalSet>)
    ensures Sized(r, ts, kind)
  {
    match kind
    case Address => AddressAtom(ts)
    case Port => PortAtom(ts)
    case Protocol => ProtocolAtom(ts)
  }

  /** The members of a braced list, from one member on, joined to `acc`. */
  function Members(ts: seq<Tok>, kind: ValueKind, acc: IntervalSet): (r: Parsed<IntervalSet>)
    requires acc.bits == kind.Bits()
    ensures Sized(r, ts, kind)
    decreases |ts|
  {
    var (one, t1) :- Atom(SkipBreaks(ts), kind);
    var t2 := SkipBreaks(t1);
    if Peek(t2) == Sym(',') then Members(Bump(t2), kind, Union(acc, one))
    else
      var (_, t3) :- ExpectSym(t2, '}');
      Got(Union(acc, one), t3)
  }

  function Value(ts: seq<Tok>, kind: ValueKind): (r: Parsed<IntervalSet>)
    ensures Sized(r, ts, kind)
  {
    if Peek(ts) == Sym('{') then Members(Bump(ts), kind, Empty(kind.Bits())) else Atom(ts, kind)
  }

  /** `!=`, or `!` alone. */
  function Negation(ts: seq<Tok>): (r: (bool, seq<Tok>))
    ensures |r.1| <= |ts|
  {
    if Peek(ts) == Sym('!') then (true, EatSym(Bump(ts), '=')) else (false, ts)
  }

  /** An optionally negated value; a named set is refused. */
  function Spec(ts: seq<Tok>, kind: ValueKind): (r: Parsed<IntervalSet>)
    ensures Sized(r, ts, kind)
  {
    var (negated, t1) := Negation(ts);
    if Peek(t1) == Sym('@') then Fail(Unimplemented)
    else
      var (s, t2) :- Value(t1, kind);
      Got(if negated then Complement(s) else s, t2)
  }

  /** An interface name; wildcards are refused. */
  function IfName(ts: seq<Tok>): (r: Parsed<string>)
    ensures r.Got? ==> |r.rest| < |ts|
  {
    if !Peek(ts).Str? && !Peek(ts).Word? then Fail(Syntax)
    else if '*' in Peek(ts).text || Peek(Bump(ts)) == Sym('*') then Fail(Soundness)
    else Got(Peek(ts).text, Bump(ts))
  }

  function IfNames(ts: seq<Tok>, acc: NameSet): (r: Parsed<NameSet>)
    ensures r.Got? ==> |r.rest| < |ts|
    decreases |ts|
  {
    var (name, t1) :- IfName(SkipBreaks(ts));
    var t2 := SkipBreaks(t1);
    if Peek(t2) == Sym(',') then IfNames(Bump(t2), InsertName(acc, name))
    else
      var (_, t3) :- ExpectSym(t2, '}');
      Got(InsertName(acc, name), t3)
  }

  function IfSpec(ts: seq<Tok>): (r: Parsed<IfMatch>)
    ensures r.Got? ==> |r.rest| < |ts|
  {
    var (negated, t1) := Negation(ts);
    if Peek(t1) == Sym('@') then Fail(Unimplemented)
    else
      var (names, t2) :- IfList(t1);
      Got(if negated then NoneOf(names) else OneOf(names), t2)
  }

  function IfList(ts: seq<Tok>): (r: Parsed<NameSet>)
    ensures r.Got? ==> |r.rest| < |ts|
  {
    if Peek(ts) == Sym('{') then IfNames(Bump(ts), [])
    else
      var (name, t1) :- IfName(ts);
      Got(InsertName([], name), t1)
  }

  // ------------------------------------------------------------------- rules

  /** What the words a statement can start with lead to. */
  datatype Keyword =
    | OnIp
    | OnMeta
    | OnPorts(protocol: nat)
    | OnIifname
    | OnOifname
    | OnCounter
    | OnComment
    | OnLog
    | OnVerdict(action: Action)
    | OnReject
    | Refused(cause: Cause)

  function KeywordOf(w: string): (k: Keyword)
    ensures k.OnPorts? ==> k.protocol == 6 || k.protocol == 17
  {
    if w == "ip" then OnIp
    else if w == "meta" then OnMeta
    else if w == "tcp" then OnPorts(6)
    else if w == "udp" then OnPorts(17)
    else if w == "iifname" then OnIifname
    else if w == "oifname" then OnOifname
    else if w == "counter" then OnCounter
    else if w == "comment" then OnComment
    else if w == "log" then OnLog
    else if w == "accept" then OnVerdict(Accept)
    else if w == "drop" then OnVerdict(Drop)
    else if w == "reject" then OnReject
    else if w in ["iif", "oif", "ct", "limit", "quota", "jump", "goto", "return", "queue", "dup", "fwd",
                  "notrack", "snat", "dnat", "masquerade", "redirect"] then Refused(OutOfScope)
    else Refused(Unimplemented)
  }

  /** What has been read of a rule. */
  datatype RuleState = RuleState(matches: Match, action: Option<Action>, portsConstrained: bool)

  function NewRule(): RuleState {
    RuleState(AnyMatch(), None, false)
  }

  /** The dimension an `ip` match constrains, and the values it takes. */
  function IpDimension(what: string): (d: Option<(Field, ValueKind)>)
    ensures d.Some? ==> !d.value.0.IsInterface() && d.value.0.Bits() == d.value.1.Bits()
  {
    if what == "saddr" then Some((SrcAddr, Address))
    else if what == "daddr" then Some((DstAddr, Address))
    else if what == "protocol" then Some((Proto, Protocol))
    else None
  }

  function IpMatch(ts: seq<Tok>, st: RuleState): (r: Parsed<RuleState>)
    ensures r.Got? ==> |r.rest| <= |ts|
  {
    var (what, t1) :- ExpectWord(ts);
    match IpDimension(what)
    case None => Fail(Unimplemented)
    case Some((field, kind)) =>
      var (s, t2) :- Spec(t1, kind);
      Got(st.(matches := Constrain(st.matches, field, s)), t2)
  }

  function MetaMatch(ts: seq<Tok>, st: RuleState): (r: Parsed<RuleState>)
    ensures r.Got? ==> |r.rest| <= |ts|
  {
    var (what, t1) :- ExpectWord(ts);
    if what == "l4proto" then ProtocolMatch(t1, st)
    else if what == "iifname" then InputMatch(t1, st)
    else Fail(Unimplemented)
  }

  function ProtocolMatch(ts: seq<Tok>, st: RuleState): (r: Parsed<RuleState>)
    ensures r.Got? ==> |r.rest| <= |ts|
  {
    var (s, t1) :- Spec(ts, Protocol);
    Got(st.(matches := Constrain(st.matches, Proto, s)), t1)
  }

  function InputMatch(ts: seq<Tok>, st: RuleState): (r: Parsed<RuleState>)
    ensures r.Got? ==> |r.rest| <= |ts|
  {
    var (s, t1) :- IfSpec(ts);
    Got(st.(matches := WithIif(st.matches, s)), t1)
  }

  /** Replace the input interface match. */
  function WithIif(m: Match, s: IfMatch): Match {
    m.(iif := s)
  }

  /** A port match implies its protocol. */
  function PortMatch(ts: seq<Tok>, st: RuleState, protocol: nat): (r: Parsed<RuleState>)
    requires protocol <= 255
    ensures r.Got? ==> |r.rest| <= |ts|
  {
    var (what, t1) :- ExpectWord(ts);
    if what != "sport" && what != "dport" then Fail(Unimplemented)
    else
      var (s, t2) :- Spec(t1, Port);
      var field := if what == "sport" then SrcPort else DstPort;
      Got(RuleState(PinnedPorts(st.matches, protocol, field, s), st.action, true), t2)
  }

  function PinnedPorts(m: Match, protocol: nat, f: Field, s: IntervalSet): Match
    requires protocol <= 255 && s.bits == 16 && (f == SrcPort || f == DstPort)
  {
    Constrain(PinProtocol(m, protocol), f, s)
  }

  function PinProtocol(m: Match, protocol: nat): Match
    requires protocol <= 255
  {
    Widths();
    Constrain(m, Proto, Point(8, protocol))
  }

  function SkipCounter(ts: seq<Tok>): (rest: seq<Tok>)
    ensures |rest| <= |ts|
  {
    if Peek(ts) == Word("packets") then
      var t := Bump(Bump(ts));
      if Peek(t) == Word("bytes") then Bump(Bump(t)) else t
    else ts
  }

  predicate IsLogOption(w: string) {
    w in ["prefix", "level", "flags", "group", "snaplen", "queue-threshold"]
  }

  function SkipLog(ts: seq<Tok>): (rest: seq<Tok>)
    ensures |rest| <= |ts|
    decreases |ts|
  {
    if Peek(ts).Word? && IsLogOption(Peek(ts).text) then
      var t := Bump(ts);
      SkipLog(if Peek(t).Str? || Peek(t).Word? || Peek(t).Num? then Bump(t) else t)
    else ts
  }

  predicate EndsStatement(t: Tok) {
    t == Break || t == Eof || t == Sym('}')
  }

  function SkipStatement(ts: seq<Tok>): (rest: seq<Tok>)
    ensures |rest| <= |ts|
    decreases |ts|
  {
    if EndsStatement(Peek(ts)) then ts else SkipStatement(Bump(ts))
  }

  function SetAction(ts: seq<Tok>, st: RuleState, action: Action): Parsed<RuleState> {
    if st.action.Some? then Fail(Syntax) else Got(st.(action := Some(action)), ts)
  }

  /** The part of a rule after one keyword. */
  function Clause(ts: seq<Tok>, k: Keyword, hook: Hook, st: RuleState): (r: Parsed<RuleState>)
    requires k.OnPorts? ==> k.protocol <= 255
    ensures r.Got? ==> |r.rest| <= |ts|
  {
    match k
    case OnIp => IpMatch(ts, st)
    case OnMeta => MetaMatch(ts, st)
    case OnPorts(protocol) => PortMatch(ts, st, protocol)
    case OnIifname =>
      if hook.Output? then Fail(Soundness) else InputMatch(ts, st)
    case OnOifname => Fail(if hook.Input? then Soundness else Unimplemented)
    case OnCounter => Got(st, SkipCounter(ts))
    case OnComment => if Peek(ts).Str? then Got(st, Bump(ts)) else Fail(Syntax)
    case OnLog => Got(st, SkipLog(ts))
    case OnVerdict(action) => SetAction(ts, st, action)
    case OnReject => SetAction(if Peek(ts) == Word("with") then SkipStatement(Bump(ts)) else ts, st, Reject)
    case Refused(cause) => Fail(cause)
  }

  /** The clauses of a rule up to the end of the statement. */
  function Clauses(ts: seq<Tok>, hook: Hook, st: RuleState): (r: Parsed<RuleState>)
    ensures r.Got? ==> |r.rest| <= |ts| && (r.value.action != st.action ==> |r.rest| < |ts|)
    decreases |ts|
  {
    if EndsStatement(Peek(ts)) then Got(st, ts)
    else if Peek(ts) == Sym('@') then Fail(Unimplemented)
    else if !Peek(ts).Word? then Fail(Syntax)
    else
      var (next, t1) :- Clause(Bump(ts), KeywordOf(Peek(ts).text), hook, st);
      Clauses(t1, hook, next)
  }

  predicate PortBearing(p: nat) {
    p == 6 || p == 17 || p == 132
  }

  /** Only protocols with ports, and not the unconstrained set. */
  predicate PinsPorts(proto: IntervalSet) {
    !IsFull(proto) && forall i | 0 <= i < |proto.ranges| ::
      forall p: nat | proto.ranges[i].0 <= p <= proto.ranges[i].1 :: PortBearing(p)
  }

  /** What a rule must keep to once it has been read: it can match, and ports have their protocol. */
  predicate IsSound(st: RuleState) {
    !IsUnsatisfiable(st.matches) && (st.portsConstrained ==> PinsPorts(st.matches.proto))
  }

  function ParseRule(ts: seq<Tok>, hook: Hook): (r: Parsed<(Match, Action)>)
    ensures r.Got? ==> |r.rest| < |ts|
  {
    var (st, t1) :- Clauses(ts, hook, NewRule());
    if st.action.None? then Fail(OutOfScope)
    else if !IsSound(st) then Fail(Soundness)
    else Got((st.matches, st.action.value), t1)
  }

  // ------------------------------------------------------------------ chains

  function HookOf(w: string): Result<Hook, Cause> {
    if w == "input" then Ok(Input)
    else if w == "output" then Ok(Output)
    else if w == "forward" then Ok(Forward)
    else if w == "prerouting" || w == "postrouting" then Err(OutOfScope)
    else Err(Syntax)
  }

  /** The name and the hook declaration. */
  function ChainHead(ts: seq<Tok>): (r: Parsed<(string, Hook)>)
    ensures r.Got? ==> |r.rest| < |ts|
  {
    var (name, t1) :- ExpectWord(ts);
    var (_, t2) :- ExpectSym(t1, '{');
    var (_, t3) :- RequireWord(SkipBreaks(t2), "type", OutOfScope);
    var (kind, t4) :- ExpectWord(t3);
    if kind != "filter" then Fail(OutOfScope)
    else
      var (_, t5) :- RequireWord(t4, "hook", Syntax);
      var (word, t6) :- ExpectWord(t5);
      match HookOf(word)
      case Err(cause) => Fail(cause)
      case Ok(hook) => Got((name, hook), t6)
  }

  /** The device, the priority and the separator after them. */
  function Priority(ts: seq<Tok>): (r: Parsed<()>)
    ensures r.Got? ==> |r.rest| <= |ts|
  {
    var t1 := if Peek(ts) == Word("device") then Bump(Bump(ts)) else ts;
    var (_, t2) :- RequireWord(t1, "priority", Syntax);
    var t3 := EatSym(t2, '-');
    if Peek(t3).Num? || Peek(t3).Word? then Got((), SkipBreaks(Bump(t3))) else Fail(Syntax)
  }

  /** The default policy; accept when none is given. */
  function PolicyOf(ts: seq<Tok>): (r: Parsed<Action>)
    ensures r.Got? ==> |r.rest| <= |ts|
  {
    if Peek(ts) != Word("policy") then Got(Accept, ts)
    else
      var (v, t1) :- ExpectWord(Bump(ts));
      if v == "accept" then Got(Accept, SkipBreaks(t1))
      else if v == "drop" then Got(Drop, SkipBreaks(t1))
      else Fail(Syntax)
  }

  /** The rules up to the closing brace, pushed onto `chain`. */
  function RulesOf(ts: seq<Tok>, chain: Chain): (r: Parsed<Chain>)
    ensures r.Got? ==> |r.rest| <= |ts|
    decreases |ts|
  {
    var t1 := SkipBreaks(ts);
    if Peek(t1) == Sym('}') then Got(chain, Bump(t1))
    else if Peek(t1) == Eof then Fail(Syntax)
    else
      var (rule, t2) :- ParseRule(t1, chain.hook);
      RulesOf(t2, chain.Push(rule.0, rule.1))
  }

  function ParseChain(ts: seq<Tok>): (r: Parsed<Chain>)
    ensures r.Got? ==> |r.rest| < |ts|
  {
    var (head, t1) :- ChainHead(ts);
    var (_, t2) :- Priority(t1);
    var (policy, t3) :- PolicyOf(t2);
    RulesOf(t3, Chain(head.0, head.1, policy, []))
  }

  // ------------------------------------------------------------------ tables

  /** The chains up to the closing brace, added to `chains`. */
  function ChainsOf(ts: seq<Tok>, chains: seq<Chain>): (r: Parsed<seq<Chain>>)
    ensures r.Got? ==> |r.rest| <= |ts|
    decreases |ts|
  {
    var t1 := SkipBreaks(ts);
    if Peek(t1) == Sym('}') then Got(chains, Bump(t1))
    else if Peek(t1) == Word("chain") then
      var (chain, t2) :- ParseChain(Bump(t1));
      ChainsOf(t2, chains + [chain])
    else if Peek(t1).Word? && Peek(t1).text in ["set", "map", "element", "counter", "quota"] then Fail(Unimplemented)
    else Fail(Syntax)
  }

  /** One step of the loop over the chains. */
  lemma ChainsStep(ts: seq<Tok>, chains: seq<Chain>)
    ensures ChainsOf(ts, chains) ==
      var t1 := SkipBreaks(ts);
      if Peek(t1) == Sym('}') then Got(chains, Bump(t1))
      else if Peek(t1) == Word("chain") then
        var r := ParseChain(Bump(t1));
        if r.Got? then ChainsOf(r.rest, chains + [r.value]) else Fail(r.cause)
      else if Peek(t1).Word? && Peek(t1).text in ["set", "map", "element", "counter", "quota"] then
        Fail(Unimplemented)
      else Fail(Syntax)
  {
    hide ParseChain, SkipBreaks;
  }

  function ParseTable(ts: seq<Tok>): (r: Parsed<seq<Chain>>)
    ensures r.Got? ==> |r.rest| <= |ts|
  {
    var (family, t1) :- ExpectWord(ts);
    if family in ["ip6", "inet", "arp", "bridge", "netdev"] then Fail(OutOfScope)
    else if family != "ip" then Fail(Syntax)
    else
      var (_, t2) :- ExpectWord(t1);
      var (_, t3) :- ExpectSym(t2, '{');
      ChainsOf(t3, [])
  }

  /** All tables of a file, their chains added to `chains`. */
  function TablesOf(ts: seq<Tok>, chains: seq<Chain>): Result<seq<Chain>, Cause>
    decreases |ts|, 1
  {
    TablesAfterBreaks(SkipBreaks(ts), chains)
  }

  function TablesAfterBreaks(ts: seq<Tok>, chains: seq<Chain>): Result<seq<Chain>, Cause>
    decreases |ts|, 0
  {
    if Peek(ts) == Eof then Ok(chains)
    else if Peek(ts) == Word("table") then
      match ParseTable(Bump(ts))
      case Fail(cause) => Err(cause)
      case Got(more, t1) => TablesOf(t1, chains + more)
    else if Peek(ts).Word? && Peek(ts).text in ["include", "define", "set", "map", "element"] then Err(Unimplemented)
    else Err(Syntax)
  }

  /** The chains a source text declares, or why it is rejected. */
  function ChainsIn(src: string): Result<seq<Chain>, Cause> {
    match TokensOf(src, true)
    case Err(cause) => Err(cause)
    case Ok(toks) => TablesOf(toks, [])
  }
}
