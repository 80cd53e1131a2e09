/** Reading one clause does not depend on what comes after it.

Every part of the parser that can stand in a match is shown to read the same tokens the same way
in front of any end that cannot be taken for its continuation. */
module Splicing {
  import opened Intervals
  import opened Rules
  import opened Lexer
  import opened Grammar

  /** The tokens of `ts` in front of its end `rest`. */
  function Before(ts: seq<Tok>, rest: seq<Tok>): seq<Tok>
    requires |rest| <= |ts|
  {
    ts[..|ts| - |rest|]
  }

  // -------------------------------------------------------- suffixes of tokens

  predicate IsSuffix(rest: seq<Tok>, ts: seq<Tok>) {
    |rest| <= |ts| && ts[|ts| - |rest|..] == rest
  }

  /** The tokens of `ts` up to its end `rest`, with another end instead. */
  function Splice(ts: seq<Tok>, rest: seq<Tok>, end: seq<Tok>): seq<Tok>
    requires |rest| <= |ts|
  {
    Before(ts, rest) + end
  }

  lemma SpliceNothing(ts: seq<Tok>, end: seq<Tok>)
    ensures IsSuffix(ts, ts) && Splice(ts, ts, end) == end && Splice(ts, ts, ts) == ts
  {
  }

  lemma SpliceStep(ts: seq<Tok>, rest: seq<Tok>, end: seq<Tok>)
    requires IsSuffix(rest, Bump(ts)) && ts != []
    ensures IsSuffix(rest, ts) && |rest| < |ts|
    ensures Splice(ts, rest, end) != [] && Peek(Splice(ts, rest, end)) == Peek(ts)
    ensures Bump(Splice(ts, rest, end)) == Splice(Bump(ts), rest, end)
  {
  }

  lemma SuffixJoins(ts: seq<Tok>, mid: seq<Tok>, rest: seq<Tok>)
    requires IsSuffix(mid, ts) && IsSuffix(rest, mid)
    ensures IsSuffix(rest, ts)
    ensures Before(ts, rest) == Before(ts, mid) + Before(mid, rest) && ts == Before(ts, rest) + rest
  {
  }

  /** Replacing the end in two steps: `mid` is read first, then `rest`. */
  lemma SpliceJoins(ts: seq<Tok>, mid: seq<Tok>, rest: seq<Tok>, end: seq<Tok>)
    requires IsSuffix(mid, ts) && IsSuffix(rest, mid)
    ensures IsSuffix(rest, ts)
    ensures Splice(ts, rest, end) == Splice(ts, mid, Splice(mid, rest, end))
  {
    SuffixJoins(ts, mid, rest);
  }

  lemma {:induction false} BreaksSplice(ts: seq<Tok>, rest: seq<Tok>, end: seq<Tok>)
    requires IsSuffix(rest, SkipBreaks(ts)) && |rest| < |SkipBreaks(ts)|
    ensures IsSuffix(rest, ts) && |rest| < |ts|
    ensures SkipBreaks(Splice(ts, rest, end)) == Splice(SkipBreaks(ts), rest, end)
    ensures Peek(Splice(ts, rest, end)) == Peek(ts)
  {
    if Peek(ts) == Break {
      BreaksSplice(Bump(ts), rest, end);
      SpliceStep(ts, rest, end);
    } else {
      SpliceStep(ts, rest, end);
    }
  }

  // ----------------------------------------- a clause does not look past itself

  /** What follows a value and cannot be part of it. */
  predicate Plain(ts: seq<Tok>) {
    Peek(ts) != Sym('/') && Peek(ts) != Sym('-') && Peek(ts) != Sym('*')
  }

  lemma AddressSplice(ts: seq<Tok>, end: seq<Tok>)
    requires AddressAtom(ts).Got? && Plain(end)
    ensures IsSuffix(AddressAtom(ts).rest, ts)
    ensures AddressAtom(Splice(ts, AddressAtom(ts).rest, end)) == Got(AddressAtom(ts).value, end)
  {
    hide Splice, IsSuffix, Canonical, Point, Span, Prefix;
    var rest, t1 := AddressAtom(ts).rest, Bump(ts);
    if Peek(t1) == Sym('/') || Peek(t1) == Sym('-') {
      var t2 := Bump(t1);
      SpliceNothing(rest, end);
      SpliceStep(t2, rest, end);
      SpliceStep(t1, rest, end);
      SpliceStep(ts, rest, end);
    } else {
      SpliceNothing(rest, end);
      SpliceStep(ts, rest, end);
    }
  }

  lemma PortSplice(ts: seq<Tok>, end: seq<Tok>)
    requires PortAtom(ts).Got? && Plain(end)
    ensures IsSuffix(PortAtom(ts).rest, ts)
    ensures PortAtom(Splice(ts, PortAtom(ts).rest, end)) == Got(PortAtom(ts).value, end)
  {
    hide Splice, IsSuffix, Canonical, Point, Span;
    var rest, t1 := PortAtom(ts).rest, Bump(ts);
    SpliceNothing(rest, end);
    if Peek(t1) == Sym('-') {
      var t2 := Bump(t1);
      SpliceStep(t2, rest, end);
      SpliceStep(t1, rest, end);
    }
    SpliceStep(ts, rest, end);
  }

  lemma ProtocolSplice(ts: seq<Tok>, end: seq<Tok>)
    requires ProtocolAtom(ts).Got?
    ensures IsSuffix(ProtocolAtom(ts).rest, ts)
    ensures ProtocolAtom(Splice(ts, ProtocolAtom(ts).rest, end)) == Got(ProtocolAtom(ts).value, end)
  {
    hide Splice, IsSuffix, Canonical, Point, ProtoNumber;
    SpliceNothing(Bump(ts), end);
    SpliceStep(ts, Bump(ts), end);
  }

  lemma AtomSplice(ts: seq<Tok>, kind: ValueKind, end: seq<Tok>)
    requires Atom(ts, kind).Got? && Plain(end)
    ensures IsSuffix(Atom(ts, kind).rest, ts) && |Atom(ts, kind).rest| < |ts|
    ensures Atom(Splice(ts, Atom(ts, kind).rest, end), kind) == Got(Atom(ts, kind).value, end)
  {
    hide AddressAtom, PortAtom, ProtocolAtom, Splice, IsSuffix, Canonical;
    match kind
    case Address => AddressSplice(ts, end);
    case Port => PortSplice(ts, end);
    case Protocol => ProtocolSplice(ts, end);
  }

  lemma {:induction false} MembersSplice(ts: seq<Tok>, kind: ValueKind, acc: IntervalSet, end: seq<Tok>)
    requires acc.bits == kind.Bits() && Members(ts, kind, acc).Got?
    ensures IsSuffix(Members(ts, kind, acc).rest, ts) && |Members(ts, kind, acc).rest| < |ts|
    ensures Members(Splice(ts, Members(ts, kind, acc).rest, end), kind, acc) == Got(Members(ts, kind, acc).value, end)
    decreases |ts|
  {
    hide Atom, SkipBreaks, Splice, IsSuffix, Canonical;
    var t0 := SkipBreaks(ts);
    var one := Atom(t0, kind);
    var t2 := SkipBreaks(one.rest);
    var rest := Members(ts, kind, acc).rest;
    if Peek(t2) == Sym(',') {
      MembersSplice(Bump(t2), kind, Union(acc, one.value), end);
    } else {
      SpliceNothing(rest, end);
    }
    SpliceStep(t2, rest, end);
    BreaksSplice(one.rest, rest, end);
    var e1 := Splice(one.rest, rest, end);
    assert Plain(e1) by { BreakOrSame(one.rest); }
    AtomSplice(t0, kind, e1);
    SpliceJoins(t0, one.rest, rest, end);
    BreaksSplice(ts, rest, end);
  }

  lemma BreakOrSame(ts: seq<Tok>)
    ensures Peek(ts) == Break || SkipBreaks(ts) == ts
  {
  }

  lemma ValueSplice(ts: seq<Tok>, kind: ValueKind, end: seq<Tok>)
    requires Value(ts, kind).Got? && Plain(end)
    ensures IsSuffix(Value(ts, kind).rest, ts) && |Value(ts, kind).rest| < |ts|
    ensures Value(Splice(ts, Value(ts, kind).rest, end), kind) == Got(Value(ts, kind).value, end)
  {
    hide Atom, Members, Splice, IsSuffix, Canonical;
    if Peek(ts) == Sym('{') {
      var acc := Empty(kind.Bits());
      MembersSplice(Bump(ts), kind, acc, end);
      SpliceStep(ts, Value(ts, kind).rest, end);
    } else {
      AtomSplice(ts, kind, end);
      AtomStarts(ts, kind);
      ValueStarts(ts, Value(ts, kind).rest, end);
    }
  }

  lemma AtomStarts(ts: seq<Tok>, kind: ValueKind)
    requires Atom(ts, kind).Got?
    ensures ts != [] && !Peek(ts).Sym?
  {
  }

  lemma ValueStarts(ts: seq<Tok>, rest: seq<Tok>, end: seq<Tok>)
    requires |rest| < |ts|
    ensures Peek(Splice(ts, rest, end)) == Peek(ts)
  {
  }

  /** The negation of something that is not empty. */
  lemma NegationSplice(ts: seq<Tok>, rest: seq<Tok>, end: seq<Tok>)
    requires IsSuffix(rest, Negation(ts).1) && |rest| < |Negation(ts).1|
    ensures IsSuffix(rest, ts) && |rest| < |ts|
    ensures Negation(Splice(ts, rest, end)) == (Negation(ts).0, Splice(Negation(ts).1, rest, end))
  {
    hide Splice, IsSuffix;
    var t1 := Negation(ts).1;
    ValueStarts(t1, rest, end);
    if Peek(ts) == Sym('!') {
      if Peek(Bump(ts)) == Sym('=') { SpliceStep(Bump(ts), rest, end); }
      SpliceStep(ts, rest, end);
    } else {
      ValueStarts(ts, rest, end);
    }
  }

  lemma SpecSplice(ts: seq<Tok>, kind: ValueKind, end: seq<Tok>)
    requires Spec(ts, kind).Got? && Plain(end)
    ensures IsSuffix(Spec(ts, kind).rest, ts) && |Spec(ts, kind).rest| < |ts|
    ensures Spec(Splice(ts, Spec(ts, kind).rest, end), kind) == Got(Spec(ts, kind).value, end)
  {
    hide Value, Splice, IsSuffix, Negation, Canonical, Complement;
    var t1, rest := Negation(ts).1, Spec(ts, kind).rest;
    ValueSplice(t1, kind, end);
    NegationSplice(ts, rest, end);
    ValueStarts(t1, rest, end);
  }

  lemma NameSplice(ts: seq<Tok>, end: seq<Tok>)
    requires IfName(ts).Got? && Peek(end) != Sym('*')
    ensures IsSuffix(IfName(ts).rest, ts) && !Peek(ts).Sym?
    ensures IfName(Splice(ts, IfName(ts).rest, end)) == Got(IfName(ts).value, end)
  {
    SpliceNothing(Bump(ts), end);
    SpliceStep(ts, Bump(ts), end);
  }

  lemma {:induction false} NamesSplice(ts: seq<Tok>, acc: NameSet, end: seq<Tok>)
    requires IfNames(ts, acc).Got?
    ensures IsSuffix(IfNames(ts, acc).rest, ts) && |IfNames(ts, acc).rest| < |ts|
    ensures IfNames(Splice(ts, IfNames(ts, acc).rest, end), acc) == Got(IfNames(ts, acc).value, end)
    decreases |ts|
  {
    hide IfName, SkipBreaks, Splice, IsSuffix, InsertName, StrictlySorted;
    var t0 := SkipBreaks(ts);
    var one := IfName(t0);
    var t2 := SkipBreaks(one.rest);
    var rest := IfNames(ts, acc).rest;
    if Peek(t2) == Sym(',') {
      NamesSplice(Bump(t2), InsertName(acc, one.value), end);
    } else {
      SpliceNothing(rest, end);
    }
    SpliceStep(t2, rest, end);
    BreaksSplice(one.rest, rest, end);
    var e1 := Splice(one.rest, rest, end);
    assert Plain(e1) by { BreakOrSame(one.rest); }
    NameSplice(t0, e1);
    SpliceJoins(t0, one.rest, rest, end);
    BreaksSplice(ts, rest, end);
  }

  lemma IfListSplice(ts: seq<Tok>, end: seq<Tok>)
    requires IfList(ts).Got? && Plain(end)
    ensures IsSuffix(IfList(ts).rest, ts) && |IfList(ts).rest| < |ts|
    ensures IfList(Splice(ts, IfList(ts).rest, end)) == Got(IfList(ts).value, end)
  {
    hide IfName, IfNames, Splice, IsSuffix, InsertName;
    if Peek(ts) == Sym('{') {
      NamesSplice(Bump(ts), [], end);
      SpliceStep(ts, IfList(ts).rest, end);
    } else {
      NameSplice(ts, end);
      ValueStarts(ts, IfList(ts).rest, end);
    }
  }

  lemma IfSpecSplice(ts: seq<Tok>, end: seq<Tok>)
    requires IfSpec(ts).Got? && Plain(end)
    ensures IsSuffix(IfSpec(ts).rest, ts)
    ensures IfSpec(Splice(ts, IfSpec(ts).rest, end)) == Got(IfSpec(ts).value, end)
  {
    hide IfList, Splice, IsSuffix, Negation, StrictlySorted;
    var t1, rest := Negation(ts).1, IfSpec(ts).rest;
    IfListSplice(t1, end);
    NegationSplice(ts, rest, end);
    ValueStarts(t1, rest, end);
  }

  lemma IpSplice(ts: seq<Tok>, st: RuleState, end: seq<Tok>)
    requires IpMatch(ts, st).Got? && Plain(end)
    ensures IsSuffix(IpMatch(ts, st).rest, ts)
    ensures IpMatch(Splice(ts, IpMatch(ts, st).rest, end), st) == Got(IpMatch(ts, st).value, end)
  {
    hide Spec, Splice, IsSuffix, Canonical, WellSized, Constrain;
    var d := IpDimension(ExpectWord(ts).value).value;
    SpecSplice(Bump(ts), d.1, end);
    SpliceStep(ts, IpMatch(ts, st).rest, end);
  }

  lemma MetaSplice(ts: seq<Tok>, st: RuleState, end: seq<Tok>)
    requires MetaMatch(ts, st).Got? && Plain(end)
    ensures IsSuffix(MetaMatch(ts, st).rest, ts)
    ensures MetaMatch(Splice(ts, MetaMatch(ts, st).rest, end), st) == Got(MetaMatch(ts, st).value, end)
  {
    hide Spec, IfSpec, Splice, IsSuffix, Canonical, WellSized, Constrain, WithIif;
    if ExpectWord(ts).value == "l4proto" {
      SpecSplice(Bump(ts), Protocol, end);
    } else {
      IfSpecSplice(Bump(ts), end);
    }
    SpliceStep(ts, MetaMatch(ts, st).rest, end);
  }

  lemma PortMatchSplice(ts: seq<Tok>, st: RuleState, protocol: nat, end: seq<Tok>)
    requires protocol <= 255 && PortMatch(ts, st, protocol).Got? && Plain(end)
    ensures IsSuffix(PortMatch(ts, st, protocol).rest, ts)
    ensures PortMatch(Splice(ts, PortMatch(ts, st, protocol).rest, end), st, protocol) ==
      Got(PortMatch(ts, st, protocol).value, end)
  {
    hide Spec, Splice, IsSuffix, Canonical, WellSized, Constrain, PinProtocol;
    SpecSplice(Bump(ts), Port, end);
    SpliceStep(ts, PortMatch(ts, st, protocol).rest, end);
  }

  /** A match or a verdict is read the same whatever harmless tokens come after it. */
  lemma ClauseSplice(ts: seq<Tok>, k: Keyword, hook: Hook, st: RuleState, end: seq<Tok>)
    requires (k.OnPorts? ==> k.protocol <= 255) && Clause(ts, k, hook, st).Got? && Plain(end)
    requires !k.OnCounter? && !k.OnLog? && !k.OnReject?
    ensures IsSuffix(Clause(ts, k, hook, st).rest, ts)
    ensures Clause(Splice(ts, Clause(ts, k, hook, st).rest, end), k, hook, st) ==
      Got(Clause(ts, k, hook, st).value, end)
  {
    hide IpMatch, MetaMatch, PortMatch, IfSpec, Splice, IsSuffix, Canonical, WellSized, WithIif;
    match k
    case OnIp => IpSplice(ts, st, end);
    case OnMeta => MetaSplice(ts, st, end);
    case OnPorts(protocol) => PortMatchSplice(ts, st, protocol, end);
    case OnIifname => IfSpecSplice(ts, end);
    case OnVerdict(_) => SpliceNothing(ts, end);
    case OnComment =>
      SpliceNothing(Bump(ts), end);
      SpliceStep(ts, Bump(ts), end);
    case _ =>
  }

  // ------------------------------------------------- what is skipped is a prefix

  lemma SuffixGrows(rest: seq<Tok>, ts: seq<Tok>)
    requires IsSuffix(rest, Bump(ts))
    ensures IsSuffix(rest, ts)
  {
  }

  lemma CounterSuffix(ts: seq<Tok>)
    ensures IsSuffix(SkipCounter(ts), ts)
  {
  }

  lemma {:induction false} LogSuffix(ts: seq<Tok>)
    ensures IsSuffix(SkipLog(ts), ts)
    decreases |ts|
  {
    hide IsSuffix;
    if Peek(ts).Word? && IsLogOption(Peek(ts).text) {
      var t := Bump(ts);
      var next := if Peek(t).Str? || Peek(t).Word? || Peek(t).Num? then Bump(t) else t;
      LogSuffix(next);
      if next != t { SuffixGrows(SkipLog(ts), t); }
      SuffixGrows(SkipLog(ts), ts);
    } else {
      SpliceNothing(ts, []);
    }
  }

  lemma {:induction false} StatementSuffix(ts: seq<Tok>)
    ensures IsSuffix(SkipStatement(ts), ts) && EndsStatement(Peek(SkipStatement(ts)))
    decreases |ts|
  {
    hide IsSuffix;
    if EndsStatement(Peek(ts)) {
      SpliceNothing(ts, []);
    } else {
      StatementSuffix(Bump(ts));
      SuffixGrows(SkipStatement(ts), ts);
    }
  }

  lemma ClauseSuffix(ts: seq<Tok>, k: Keyword, hook: Hook, st: RuleState)
    requires (k.OnPorts? ==> k.protocol <= 255) && Clause(ts, k, hook, st).Got?
    ensures IsSuffix(Clause(ts, k, hook, st).rest, ts)
  {
    hide IpMatch, MetaMatch, PortMatch, IfSpec, SkipCounter, SkipLog, SkipStatement, IsSuffix, Canonical, WellSized,
      WithIif;
    if !k.OnCounter? && !k.OnLog? && !k.OnReject? {
      ClauseSplice(ts, k, hook, st, []);
    } else {
      CounterSuffix(ts);
      LogSuffix(ts);
      StatementSuffix(Bump(ts));
      SuffixGrows(SkipStatement(Bump(ts)), ts);
      SpliceNothing(ts, []);
      SpliceNothing(Bump(ts), []);
      SuffixGrows(Bump(ts), ts);
    }
  }

  // ------------------------------------------------------------- chain heads

  lemma HeadSplice(ts: seq<Tok>, end: seq<Tok>)
    requires ChainHead(ts).Got?
    ensures IsSuffix(ChainHead(ts).rest, ts)
    ensures ChainHead(Splice(ts, ChainHead(ts).rest, end)) == Got(ChainHead(ts).value, end)
  {
    hide Splice, IsSuffix, SkipBreaks;
    var rest := ChainHead(ts).rest;
    var t2 := Bump(Bump(ts));
    var t3 := SkipBreaks(t2);
    SpliceNothing(rest, end);
    SpliceStep(Bump(Bump(Bump(t3))), rest, end);
    SpliceStep(Bump(Bump(t3)), rest, end);
    SpliceStep(Bump(t3), rest, end);
    SpliceStep(t3, rest, end);
    BreaksSplice(t2, rest, end);
    SpliceStep(Bump(ts), rest, end);
    SpliceStep(ts, rest, end);
  }
}
