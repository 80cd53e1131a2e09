/** The recursive-descent parser, proved equal to the grammar. */
module Parser {
  import opened Wrappers
  import opened Intervals
  import opened Rules
  import opened Lexer
  import opened Grammar

  class Parser {
    const toks: seq<Tok>
    var pos: nat

    ghost predicate Valid()
      reads this
    {
      pos < |toks| && toks[|toks| - 1] == Eof
    }

    /** The tokens not yet consumed, without the final one. */
    ghost function Rest(): seq<Tok>
      reads this
      requires Valid()
    {
      toks[pos..|toks| - 1]
    }

    /** The result is the one of the grammar; when it is a value, so is the position. */
    ghost predicate Yields<T>(r: Result<T, Cause>, p: Parsed<T>)
      reads this
      requires Valid()
    {
      if p.Got? then r == Ok(p.value) && Rest() == p.rest else r == Err(p.cause)
    }

    constructor (toks: seq<Tok>)
      requires toks != [] && toks[|toks| - 1] == Eof
      ensures Valid() && Rest() == toks[..|toks| - 1]
    {
      this.toks := toks;
      pos := 0;
    }

    // ----------------------------------------------------------- primitives

    method PeekTok() returns (t: Tok)
      requires Valid()
      ensures t == Peek(Rest())
    {
      t := toks[pos];
    }

    method BumpTok() returns (t: Tok)
      requires Valid()
      modifies this
      ensures Valid() && t == Peek(old(Rest())) && Rest() == Bump(old(Rest()))
    {
      t := toks[pos];
      if pos < |toks| - 1 {
        pos := pos + 1;
      }
    }

    method EatSymbol(c: char) returns (ate: bool)
      requires Valid()
      modifies this
      ensures Valid() && ate == (Peek(old(Rest())) == Sym(c)) && Rest() == EatSym(old(Rest()), c)
    {
      var t := PeekTok();
      ate := t == Sym(c);
      if ate {
        var _ := BumpTok();
      }
    }

    method ExpectSymbol(c: char) returns (r: Result<(), Cause>)
      requires Valid()
      modifies this
      ensures Valid() && Yields(r, ExpectSym(old(Rest()), c))
    {
      var ate := EatSymbol(c);
      r := if ate then Ok(()) else Err(Syntax);
    }

    method EatKeyword(w: string) returns (ate: bool)
      requires Valid()
      modifies this
      ensures Valid() && ate == (Peek(old(Rest())) == Word(w)) && Rest() == EatWord(old(Rest()), w)
    {
      var t := PeekTok();
      ate := t == Word(w);
      if ate {
        var _ := BumpTok();
      }
    }

    method ExpectName() returns (r: Result<string, Cause>)
      requires Valid()
      modifies this
      ensures Valid() && Yields(r, ExpectWord(old(Rest())))
    {
      var t := BumpTok();
      r := if t.Word? then Ok(t.text) else Err(Syntax);
    }

    /** On a token that is not a number the token is consumed all the same. */
    method ExpectNumber() returns (r: Result<nat, Cause>)
      requires Valid()
      modifies this
      ensures Valid() && Yields(r, ExpectNum(old(Rest()))) && Rest() == Bump(old(Rest()))
    {
      var t := BumpTok();
      r := if t.Num? then Ok(t.number) else Err(Syntax);
    }

    method SkipSeparators()
      requires Valid()
      modifies this
      ensures Valid() && Rest() == SkipBreaks(old(Rest()))
    {
      var t := PeekTok();
      while t == Break
        invariant Valid() && t == Peek(Rest()) && SkipBreaks(Rest()) == SkipBreaks(old(Rest()))
        decreases |Rest()|
      {
        var _ := BumpTok();
        t := PeekTok();
      }
    }

    // ---------------------------------------------------------- value forms

    method ReadAddress() returns (r: Result<IntervalSet, Cause>)
      requires Valid()
      modifies this
      ensures Valid() && Yields(r, AddressAtom(old(Rest())))
    {
      hide Prefix, Span, Intervals.Point, Canonical;
      Widths();
      var t := BumpTok();
      if !t.Ip? {
        return Err(Syntax);
      }
      var base := t.address;
      var slash := EatSymbol('/');
      if slash {
        var len :- ExpectNumber();
        if len > 32 {
          return Err(Syntax);
        }
        return Ok(Prefix(32, base, len));
      }
      var dash := EatSymbol('-');
      if dash {
        var hi := BumpTok();
        if !hi.Ip? {
          return Err(Syntax);
        }
        if hi.address < base {
          return Err(Syntax);
        }
        return Ok(Span(32, base, hi.address));
      }
      r := Ok(Intervals.Point(32, base));
    }

    method ReadPort() returns (r: Result<IntervalSet, Cause>)
      requires Valid()
      modifies this
      ensures Valid() && Yields(r, PortAtom(old(Rest())))
    {
      hide Span, Intervals.Point, Canonical;
      Widths();
      var t := PeekTok();
      if t.Word? {
        return Err(OutOfScope);
      }
      var lo :- ExpectNumber();
      if lo > 65535 {
        return Err(Syntax);
      }
      var dash := EatSymbol('-');
      if dash {
        var hi :- ExpectNumber();
        if hi > 65535 {
          return Err(Syntax);
        }
        if hi < lo {
          return Err(Syntax);
        }
        return Ok(Span(16, lo, hi));
      }
      r := Ok(Intervals.Point(16, lo));
    }

    method ReadProtocol() returns (r: Result<IntervalSet, Cause>)
      requires Valid()
      modifies this
      ensures Valid() && Yields(r, ProtocolAtom(old(Rest())))
    {
      hide Intervals.Point, Canonical, ProtoNumber;
      Widths();
      var t := BumpTok();
      match t {
        case Num(n) =>
          r := if n <= 255 then Ok(Intervals.Point(8, n)) else Err(Syntax);
        case Word(w) =>
          match ProtoNumber(w) {
            case Some(n) => r := Ok(Intervals.Point(8, n));
            case None => r := Err(Syntax);
          }
        case _ =>
          r := Err(Syntax);
      }
    }

    method ReadAtom(kind: ValueKind) returns (r: Result<IntervalSet, Cause>)
      requires Valid()
      modifies this
      ensures Valid() && Yields(r, Atom(old(Rest()), kind))
    {
      match kind
      case Address => r := ReadAddress();
      case Port => r := ReadPort();
      case Protocol => r := ReadProtocol();
    }

    method ReadValue(kind: ValueKind) returns (r: Result<IntervalSet, Cause>)
      requires Valid()
      modifies this
      ensures Valid() && Yields(r, Value(old(Rest()), kind))
    {
      hide Atom, Union, Canonical, ValueKind.Bits;
      var brace := EatSymbol('{');
      if !brace {
        r := ReadAtom(kind);
        return;
      }
      var acc: IntervalSet := Empty(kind.Bits());
      while true
        invariant Valid() && acc.bits == kind.Bits()
        invariant Members(Rest(), kind, acc) == Value(old(Rest()), kind)
        decreases |Rest()|
      {
        SkipSeparators();
        var one :- ReadAtom(kind);
        acc := Union(acc, one);
        SkipSeparators();
        var comma := EatSymbol(',');
        if comma {
          continue;
        }
        var _ :- ExpectSymbol('}');
        break;
      }
      r := Ok(acc);
    }

    /** `[!=] value`: whether the match is negated. */
    method ReadNegation() returns (negated: bool)
      requires Valid()
      modifies this
      ensures Valid() && (negated, Rest()) == Negation(old(Rest()))
    {
      var t := PeekTok();
      negated := t == Sym('!');
      if negated {
        var _ := BumpTok();
        var _ := EatSymbol('=');
      }
    }

    method RejectNamedSet() returns (r: Result<(), Cause>)
      requires Valid()
      ensures r == if Peek(Rest()) == Sym('@') then Err(Unimplemented) else Ok(())
    {
      var t := PeekTok();
      r := if t == Sym('@') then Err(Unimplemented) else Ok(());
    }

    method ReadSpec(kind: ValueKind) returns (r: Result<IntervalSet, Cause>)
      requires Valid()
      modifies this
      ensures Valid() && Yields(r, Spec(old(Rest()), kind))
    {
      hide Negation, Value, Complement, Canonical;
      var negated := ReadNegation();
      var _ :- RejectNamedSet();
      var s :- ReadValue(kind);
      r := Ok(if negated then Complement(s) else s);
    }

    method ReadIfName() returns (r: Result<string, Cause>)
      requires Valid()
      modifies this
      ensures Valid() && Yields(r, IfName(old(Rest())))
    {
      var t := BumpTok();
      if !t.Str? && !t.Word? {
        return Err(Syntax);
      }
      var next := PeekTok();
      if '*' in t.text || next == Sym('*') {
        return Err(Soundness);
      }
      r := Ok(t.text);
    }

    method ReadIfList() returns (r: Result<NameSet, Cause>)
      requires Valid()
      modifies this
      ensures Valid() && Yields(r, IfList(old(Rest())))
    {
      hide IfName, InsertName;
      var names: NameSet := [];
      var brace := EatSymbol('{');
      if !brace {
        var name :- ReadIfName();
        return Ok(InsertName(names, name));
      }
      while true
        invariant Valid() && IfNames(Rest(), names) == IfList(old(Rest()))
        decreases |Rest()|
      {
        SkipSeparators();
        var name :- ReadIfName();
        names := InsertName(names, name);
        SkipSeparators();
        var comma := EatSymbol(',');
        if comma {
          continue;
        }
        var _ :- ExpectSymbol('}');
        break;
      }
      r := Ok(names);
    }

    method ReadIfSpec() returns (r: Result<IfMatch, Cause>)
      requires Valid()
      modifies this
      ensures Valid() && Yields(r, IfSpec(old(Rest())))
    {
      hide Negation, IfList, StrictlySorted;
      var negated := ReadNegation();
      var _ :- RejectNamedSet();
      var names :- ReadIfList();
      r := Ok(if negated then NoneOf(names) else OneOf(names));
    }

    // ---------------------------------------------------------------- rules

    method ReadIpMatch(st: RuleState) returns (r: Result<RuleState, Cause>)
      requires Valid()
      modifies this
      ensures Valid() && Yields(r, IpMatch(old(Rest()), st))
    {
      hide IpDimension, Spec, Constrain, WellSized, Canonical;
      var what :- ExpectName();
      match IpDimension(what) {
        case None =>
          r := Err(Unimplemented);
        case Some(d) =>
          var s :- ReadSpec(d.1);
          r := Ok(st.(matches := Constrain(st.matches, d.0, s)));
      }
    }

    method ReadMetaMatch(st: RuleState) returns (r: Result<RuleState, Cause>)
      requires Valid()
      modifies this
      ensures Valid() && Yields(r, MetaMatch(old(Rest()), st))
    {
      hide Spec, IfSpec, Constrain, WithIif, WellSized, Canonical;
      var what :- ExpectName();
      if what == "l4proto" {
        var s :- ReadSpec(Protocol);
        r := Ok(st.(matches := Constrain(st.matches, Proto, s)));
      } else if what == "iifname" {
        var s :- ReadIfSpec();
        r := Ok(st.(matches := WithIif(st.matches, s)));
      } else {
        r := Err(Unimplemented);
      }
    }

    method ReadPortMatch(st: RuleState, protocol: nat) returns (r: Result<RuleState, Cause>)
      requires Valid() && protocol <= 255
      modifies this
      ensures Valid() && Yields(r, PortMatch(old(Rest()), st, protocol))
    {
      hide Spec, Constrain, WellSized, Canonical, PinProtocol;
      var what :- ExpectName();
      if what != "sport" && what != "dport" {
        return Err(Unimplemented);
      }
      var ports :- ReadSpec(Port);
      var m := PinProtocol(st.matches, protocol);
      m := Constrain(m, if what == "sport" then SrcPort else DstPort, ports);
      r := Ok(RuleState(m, st.action, true));
    }

    /** `packets N bytes N` after a counter. What stands in the place of a number is consumed
    whether or not it is one. */
    method SkipCounts()
      requires Valid()
      modifies this
      ensures Valid() && Rest() == SkipCounter(old(Rest()))
    {
      var packets := EatKeyword("packets");
      if packets {
        var _ := ExpectNumber();
        var bytes := EatKeyword("bytes");
        if bytes {
          var _ := ExpectNumber();
        }
      }
    }

    method SkipLogOptions()
      requires Valid()
      modifies this
      ensures Valid() && Rest() == SkipLog(old(Rest()))
    {
      hide IsLogOption;
      var t := PeekTok();
      while t.Word? && IsLogOption(t.text)
        invariant Valid() && t == Peek(Rest()) && SkipLog(Rest()) == SkipLog(old(Rest()))
        decreases |Rest()|
      {
        var _ := BumpTok();
        t := PeekTok();
        if t.Str? || t.Word? || t.Num? {
          var _ := BumpTok();
        }
        t := PeekTok();
      }
    }

    method SkipToStatementEnd()
      requires Valid()
      modifies this
      ensures Valid() && Rest() == SkipStatement(old(Rest()))
    {
      var t := PeekTok();
      while !EndsStatement(t)
        invariant Valid() && t == Peek(Rest()) && SkipStatement(Rest()) == SkipStatement(old(Rest()))
        decreases |Rest()|
      {
        var _ := BumpTok();
        t := PeekTok();
      }
    }

    method ReadClause(k: Keyword, hook: Hook, st: RuleState) returns (r: Result<RuleState, Cause>)
      requires Valid() && (k.OnPorts? ==> k.protocol <= 255)
      modifies this
      ensures Valid() && Yields(r, Clause(old(Rest()), k, hook, st))
    {
      hide IpMatch, MetaMatch, PortMatch, IfSpec, SkipCounter, SkipLog, SkipStatement, WithIif, WellSized, Canonical;
      match k {
        case OnIp => r := ReadIpMatch(st);
        case OnMeta => r := ReadMetaMatch(st);
        case OnPorts(protocol) => r := ReadPortMatch(st, protocol);
        case OnIifname =>
          if hook == Output {
            return Err(Soundness);
          }
          var s :- ReadIfSpec();
          r := Ok(st.(matches := WithIif(st.matches, s)));
        case OnOifname => r := Err(if hook == Input then Soundness else Unimplemented);
        case OnCounter =>
          SkipCounts();
          r := Ok(st);
        case OnComment =>
          var t := PeekTok();
          if !t.Str? {
            return Err(Syntax);
          }
          var _ := BumpTok();
          r := Ok(st);
        case OnLog =>
          SkipLogOptions();
          r := Ok(st);
        case OnVerdict(action) => r := TakeAction(st, action);
        case OnReject =>
          var reason := EatKeyword("with");
          if reason {
            SkipToStatementEnd();
          }
          r := TakeAction(st, Reject);
        case Refused(cause) => r := Err(cause);
      }
    }

    method TakeAction(st: RuleState, action: Action) returns (r: Result<RuleState, Cause>)
      requires Valid()
      ensures Yields(r, SetAction(Rest(), st, action))
    {
      r := if st.action.Some? then Err(Syntax) else Ok(st.(action := Some(action)));
    }

    method ReadRule(hook: Hook) returns (r: Result<(Match, Action), Cause>)
      requires Valid()
      modifies this
      ensures Valid() && Yields(r, ParseRule(old(Rest()), hook))
    {
      hide Clause, KeywordOf, IsSound, WellSized, Canonical;
      var st := NewRule();
      while true
        invariant Valid() && Clauses(Rest(), hook, st) == Clauses(old(Rest()), hook, NewRule())
        decreases |Rest()|
      {
        var t := PeekTok();
        if EndsStatement(t) {
          break;
        }
        if t == Sym('@') {
          return Err(Unimplemented);
        }
        if !t.Word? {
          return Err(Syntax);
        }
        var _ := BumpTok();
        st :- ReadClause(KeywordOf(t.text), hook, st);
      }
      if st.action.None? {
        return Err(OutOfScope);
      }
      if !IsSound(st) {
        return Err(Soundness);
      }
      r := Ok((st.matches, st.action.value));
    }

    // --------------------------------------------------------------- chains

    method ReadChainHead() returns (r: Result<(string, Hook), Cause>)
      requires Valid()
      modifies this
      ensures Valid() && Yields(r, ChainHead(old(Rest())))
    {
      hide HookOf, SkipBreaks;
      var name :- ExpectName();
      var _ :- ExpectSymbol('{');
      SkipSeparators();
      var base := EatKeyword("type");
      if !base {
        return Err(OutOfScope);
      }
      var kind :- ExpectName();
      if kind != "filter" {
        return Err(OutOfScope);
      }
      var hooked := EatKeyword("hook");
      if !hooked {
        return Err(Syntax);
      }
      var word :- ExpectName();
      var hook :- HookOf(word);
      r := Ok((name, hook));
    }

    method ReadPriority() returns (r: Result<(), Cause>)
      requires Valid()
      modifies this
      ensures Valid() && Yields(r, Priority(old(Rest())))
    {
      hide SkipBreaks, EatSym, Bump;
      var device := EatKeyword("device");
      if device {
        var _ := BumpTok();
      }
      var priority := EatKeyword("priority");
      if !priority {
        return Err(Syntax);
      }
      var _ := EatSymbol('-');
      var t := PeekTok();
      if !t.Num? && !t.Word? {
        return Err(Syntax);
      }
      var _ := BumpTok();
      SkipSeparators();
      r := Ok(());
    }

    method ReadPolicy() returns (r: Result<Action, Cause>)
      requires Valid()
      modifies this
      ensures Valid() && Yields(r, PolicyOf(old(Rest())))
    {
      hide SkipBreaks;
      var policy := Accept;
      var given := EatKeyword("policy");
      if given {
        var v :- ExpectName();
        if v == "accept" {
          policy := Accept;
        } else if v == "drop" {
          policy := Drop;
        } else {
          return Err(Syntax);
        }
        SkipSeparators();
      }
      r := Ok(policy);
    }

    method ReadChain() returns (r: Result<Chain, Cause>)
      requires Valid()
      modifies this
      ensures Valid() && Yields(r, ParseChain(old(Rest())))
    {
      hide ChainHead, Priority, PolicyOf, ParseRule, SkipBreaks, Chain.Push;
      var head :- ReadChainHead();
      var _ :- ReadPriority();
      var policy :- ReadPolicy();
      var chain := Chain(head.0, head.1, policy, []);
      while true
        invariant Valid() && RulesOf(Rest(), chain) == ParseChain(old(Rest()))
        decreases |Rest()|
      {
        SkipSeparators();
        var close := EatSymbol('}');
        if close {
          break;
        }
        var t := PeekTok();
        if t == Eof {
          return Err(Syntax);
        }
        var rule :- ReadRule(chain.hook);
        chain := chain.Push(rule.0, rule.1);
      }
      r := Ok(chain);
    }

    // --------------------------------------------------------------- tables

    method ReadTable() returns (r: Result<seq<Chain>, Cause>)
      requires Valid()
      modifies this
      ensures Valid() && Yields(r, ParseTable(old(Rest())))
    {
      hide ParseChain, SkipBreaks, ChainsOf;
      var family :- ExpectName();
      if family in ["ip6", "inet", "arp", "bridge", "netdev"] {
        return Err(OutOfScope);
      }
      if family != "ip" {
        return Err(Syntax);
      }
      var _ :- ExpectName();
      var _ :- ExpectSymbol('{');
      var chains: seq<Chain> := [];
      while true
        invariant Valid() && ChainsOf(Rest(), chains) == ParseTable(old(Rest()))
        decreases |Rest()|
      {
        ChainsStep(Rest(), chains);
        SkipSeparators();
        var close := EatSymbol('}');
        if close {
          break;
        }
        var t := BumpTok();
        if t == Word("chain") {
          var chain :- ReadChain();
          chains := chains + [chain];
        } else if t.Word? && t.text in ["set", "map", "element", "counter", "quota"] {
          return Err(Unimplemented);
        } else {
          return Err(Syntax);
        }
      }
      r := Ok(chains);
    }

    method ReadFile() returns (r: Result<seq<Chain>, Cause>)
      requires Valid()
      modifies this
      ensures Valid() && r == TablesOf(old(Rest()), [])
    {
      hide ParseTable, SkipBreaks;
      var chains: seq<Chain> := [];
      SkipSeparators();
      var t := PeekTok();
      while t != Eof
        invariant Valid() && t == Peek(Rest()) && TablesAfterBreaks(Rest(), chains) == TablesOf(old(Rest()), [])
        decreases |Rest()|
      {
        var _ := BumpTok();
        if t == Word("table") {
          var more :- ReadTable();
          chains := chains + more;
        } else if t.Word? && t.text in ["include", "define", "set", "map", "element"] {
          return Err(Unimplemented);
        } else {
          return Err(Syntax);
        }
        SkipSeparators();
        t := PeekTok();
      }
      r := Ok(chains);
    }
  }

  /** Parse one nftables file into its chains. */
  method Parse(src: string) returns (r: Result<seq<Chain>, Cause>)
    ensures r == ChainsIn(src)
  {
    hide TokensOf, TablesOf;
    var toks :- Lex(src);
    var p := new Parser(toks);
    r := p.ReadFile();
  }
}
