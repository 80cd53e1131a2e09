/** Where the names in an accepted file come from.

Every name is a token of the source. So a file cannot declare more of any character in its names
than its tokens hold, and its tokens hold at most half of its backslashes. */
module Origins {
  import opened Wrappers
  import opened Intervals
  import opened Rules
  import opened Lexer
  import opened Pieces
  import opened Names
  import opened Grammar
  import opened Accepted
  import opened Splicing

  // ------------------------------------------------------- counting characters

  function Count(s: string, c: char): nat {
    if s == "" then 0 else (if s[0] == c then 1 else 0) + Count(s[1..], c)
  }

  lemma {:induction false} CountAppend(a: string, b: string, c: char)
    ensures Count(a + b, c) == Count(a, c) + Count(b, c)
  {
    if a == "" {
      assert a + b == b;
    } else {
      assert (a + b)[1..] == a[1..] + b;
      CountAppend(a[1..], b, c);
    }
  }

  lemma CountSnoc(s: string, d: char, c: char)
    ensures Count(s + [d], c) == Count(s, c) + (if d == c then 1 else 0)
  {
    CountAppend(s, [d], c);
    assert [d][1..] == "";
  }

  lemma {:induction false} CountNone(s: string, c: char)
    ensures Count(s, c) == 0 <==> c !in s
  {
    if s != "" {
      CountNone(s[1..], c);
      assert c in s <==> c == s[0] || c in s[1..];
    }
  }

  /** The characters in the names of a token, a match, a list of rules and a list of chains. */
  function TokWeight(t: Tok, c: char): nat {
    if t.Word? || t.Str? then Count(t.text, c) else 0
  }

  function Weight(ts: seq<Tok>, c: char): nat {
    if ts == [] then 0 else TokWeight(ts[0], c) + Weight(ts[1..], c)
  }

  function NamesWeight(names: seq<string>, c: char): nat {
    if names == [] then 0 else Count(names[0], c) + NamesWeight(names[1..], c)
  }

  function IifWeight(m: IfMatch, c: char): nat {
    if m.Any? then 0 else NamesWeight(m.names, c)
  }

  function RulesWeight(rules: seq<Rule>, c: char): nat {
    if rules == [] then 0
    else RulesWeight(rules[..|rules| - 1], c) + IifWeight(rules[|rules| - 1].matches.iif, c)
  }

  function ChainsWeight(chains: seq<Chain>, c: char): nat {
    if chains == [] then 0
    else ChainsWeight(chains[..|chains| - 1], c) + RulesWeight(chains[|chains| - 1].rules, c)
  }

  lemma PushWeight(chain: Chain, m: Match, a: Action, c: char)
    ensures RulesWeight(chain.Push(m, a).rules, c) == RulesWeight(chain.rules, c) + IifWeight(m.iif, c)
  {
    hide IifWeight;
    var rules := chain.Push(m, a).rules;
    assert rules[..|rules| - 1] == chain.rules;
  }

  lemma {:induction false} ChainsAppend(a: seq<Chain>, b: seq<Chain>, c: char)
    ensures ChainsWeight(a + b, c) == ChainsWeight(a, c) + ChainsWeight(b, c)
  {
    hide RulesWeight;
    if b == [] {
      assert a + b == a;
    } else {
      assert (a + b)[..|a + b| - 1] == a + b[..|b| - 1];
      ChainsAppend(a, b[..|b| - 1], c);
    }
  }

  lemma OneChain(chain: Chain, c: char)
    ensures ChainsWeight([chain], c) == RulesWeight(chain.rules, c)
  {
    hide RulesWeight;
    assert [chain][..0] == [];
  }

  // ------------------------------------------------------------ through the parser

  /** What is read, and what is left, hold no more of `c` than what was there. */
  lemma {:induction false} SuffixWeight(rest: seq<Tok>, ts: seq<Tok>, c: char)
    requires IsSuffix(rest, ts)
    ensures Weight(rest, c) <= Weight(ts, c)
  {
    if |rest| == |ts| {
      assert rest == ts;
    } else {
      SuffixWeight(rest, ts[1..], c);
    }
  }

  lemma BumpWeight(ts: seq<Tok>, c: char)
    ensures Weight(ts, c) == TokWeight(Peek(ts), c) + Weight(Bump(ts), c)
    ensures IsSuffix(Bump(ts), ts) && IsSuffix(ts, ts)
  {
  }

  lemma {:induction false} BreaksWeight(ts: seq<Tok>, c: char)
    ensures Weight(SkipBreaks(ts), c) == Weight(ts, c)
  {
    BumpWeight(ts, c);
    if Peek(ts) == Break { BreaksWeight(Bump(ts), c); }
  }

  lemma {:induction false} InsertWeight(names: NameSet, n: string, c: char)
    ensures NamesWeight(InsertName(names, n), c) <= NamesWeight(names, c) + Count(n, c)
  {
    if names != [] && names[0] != n && !NameLe(n, names[0]) {
      InsertWeight(names[1..], n, c);
    }
  }

  lemma IfNameWeight(ts: seq<Tok>, c: char)
    requires IfName(ts).Got?
    ensures Count(IfName(ts).value, c) + Weight(IfName(ts).rest, c) == Weight(ts, c)
  {
    BumpWeight(ts, c);
  }

  lemma {:induction false} IfNamesWeight(ts: seq<Tok>, acc: NameSet, c: char)
    requires IfNames(ts, acc).Got?
    ensures var r := IfNames(ts, acc);
      NamesWeight(r.value, c) + Weight(r.rest, c) <= NamesWeight(acc, c) + Weight(ts, c)
    decreases |ts|
  {
    hide IfName, SkipBreaks, InsertName, StrictlySorted, Weight, NamesWeight, Count;
    var t0 := SkipBreaks(ts);
    var one := IfName(t0);
    var t2 := SkipBreaks(one.rest);
    BreaksWeight(ts, c);
    IfNameWeight(t0, c);
    BreaksWeight(one.rest, c);
    BumpWeight(t2, c);
    InsertWeight(acc, one.value, c);
    if Peek(t2) == Sym(',') { IfNamesWeight(Bump(t2), InsertName(acc, one.value), c); }
  }

  lemma IfListWeight(ts: seq<Tok>, c: char)
    requires IfList(ts).Got?
    ensures NamesWeight(IfList(ts).value, c) + Weight(IfList(ts).rest, c) <= Weight(ts, c)
  {
    hide IfName, IfNames, InsertName, Weight, Count;
    BumpWeight(ts, c);
    if Peek(ts) == Sym('{') {
      IfNamesWeight(Bump(ts), [], c);
    } else {
      IfNameWeight(ts, c);
      InsertWeight([], IfName(ts).value, c);
    }
  }

  lemma IfSpecWeight(ts: seq<Tok>, c: char)
    requires IfSpec(ts).Got?
    ensures IifWeight(IfSpec(ts).value, c) + Weight(IfSpec(ts).rest, c) <= Weight(ts, c)
  {
    hide IfList, StrictlySorted, Weight, NamesWeight, Count;
    BumpWeight(ts, c);
    BumpWeight(Bump(ts), c);
    IfListWeight(Negation(ts).1, c);
  }

  lemma MetaWeight(ts: seq<Tok>, st: RuleState, c: char)
    requires MetaMatch(ts, st).Got? && Peek(ts) == Word("iifname")
    ensures var r := MetaMatch(ts, st);
      IifWeight(r.value.matches.iif, c) + Weight(r.rest, c) <= Weight(ts, c)
  {
    hide IfSpec, Spec, StrictlySorted, Canonical, WellSized, Weight, IifWeight, Count;
    BumpWeight(ts, c);
    IfSpecWeight(Bump(ts), c);
  }

  lemma ClauseWeight(ts: seq<Tok>, k: Keyword, hook: Hook, st: RuleState, c: char)
    requires (k.OnPorts? ==> k.protocol <= 255) && Clause(ts, k, hook, st).Got?
    ensures var r := Clause(ts, k, hook, st);
      IifWeight(r.value.matches.iif, c) + Weight(r.rest, c) <= IifWeight(st.matches.iif, c) + Weight(ts, c)
  {
    hide IpMatch, MetaMatch, PortMatch, IfSpec, SkipCounter, SkipLog, SkipStatement, IsSuffix, Canonical, WellSized,
      StrictlySorted, Weight, IifWeight;
    ClauseSuffix(ts, k, hook, st);
    SuffixWeight(Clause(ts, k, hook, st).rest, ts, c);
    if k.OnMeta? {
      MetaIif(ts, st);
      if Peek(ts) == Word("iifname") { MetaWeight(ts, st, c); }
    }
    if k.OnIp? || k.OnPorts? { OtherIif(ts, st, if k.OnPorts? then k.protocol else 0); }
    if k.OnIifname? { IfSpecWeight(ts, c); }
  }

  lemma {:induction false} ClausesWeight(ts: seq<Tok>, hook: Hook, st: RuleState, c: char)
    requires Clauses(ts, hook, st).Got?
    ensures var r := Clauses(ts, hook, st);
      && IifWeight(r.value.matches.iif, c) + Weight(r.rest, c) <= IifWeight(st.matches.iif, c) + Weight(ts, c)
      && IsSuffix(r.rest, ts)
    decreases |ts|
  {
    hide KeywordOf, Clause, Canonical, WellSized, IsSuffix, Weight, TokWeight, IifWeight, EndsStatement;
    BumpWeight(ts, c);
    if !EndsStatement(Peek(ts)) {
      var k := KeywordOf(Peek(ts).text);
      var step := Clause(Bump(ts), k, hook, st);
      ClauseWeight(Bump(ts), k, hook, st, c);
      ClauseSuffix(Bump(ts), k, hook, st);
      ClausesWeight(step.rest, hook, step.value, c);
      SuffixJoins(Bump(ts), step.rest, Clauses(ts, hook, st).rest);
      SuffixJoins(ts, Bump(ts), Clauses(ts, hook, st).rest);
    }
  }

  lemma RuleWeight(ts: seq<Tok>, hook: Hook, c: char)
    requires ParseRule(ts, hook).Got?
    ensures var r := ParseRule(ts, hook);
      IifWeight(r.value.0.iif, c) + Weight(r.rest, c) <= Weight(ts, c) && IsSuffix(r.rest, ts)
  {
    hide Clauses, IsSound, Canonical, WellSized, IsSuffix, Weight;
    ClausesWeight(ts, hook, NewRule(), c);
  }

  lemma {:induction false} BreaksSuffix(ts: seq<Tok>)
    ensures IsSuffix(SkipBreaks(ts), ts)
  {
    if Peek(ts) == Break { BreaksSuffix(Bump(ts)); }
  }

  lemma {:induction false} RulesOfWeight(ts: seq<Tok>, chain: Chain, c: char)
    requires RulesOf(ts, chain).Got?
    ensures var r := RulesOf(ts, chain);
      && RulesWeight(r.value.rules, c) + Weight(r.rest, c) <= RulesWeight(chain.rules, c) + Weight(ts, c)
      && r.value.name == chain.name && IsSuffix(r.rest, ts)
    decreases |ts|
  {
    hide ParseRule, SkipBreaks, IsSuffix, Weight, TokWeight, IifWeight, RulesWeight, Canonical, WellSized;
    var t1 := SkipBreaks(ts);
    BreaksWeight(ts, c);
    BreaksSuffix(ts);
    BumpWeight(t1, c);
    if Peek(t1) == Sym('}') {
      SuffixJoins(ts, t1, Bump(t1));
    } else {
      var rule := ParseRule(t1, chain.hook);
      RuleWeight(t1, chain.hook, c);
      PushWeight(chain, rule.value.0, rule.value.1, c);
      RulesOfWeight(rule.rest, chain.Push(rule.value.0, rule.value.1), c);
      SuffixJoins(ts, t1, rule.rest);
      SuffixJoins(ts, rule.rest, RulesOf(ts, chain).rest);
    }
  }

  lemma PrioritySuffix(ts: seq<Tok>)
    requires Priority(ts).Got?
    ensures IsSuffix(Priority(ts).rest, ts)
  {
    hide SkipBreaks;
    var t1 := if Peek(ts) == Word("device") then Bump(Bump(ts)) else ts;
    var t3 := EatSym(Bump(t1), '-');
    assert IsSuffix(t1, ts) && IsSuffix(Bump(t1), t1) && IsSuffix(t3, Bump(t1)) && IsSuffix(Bump(t3), t3);
    BreaksSuffix(Bump(t3));
    SuffixJoins(t3, Bump(t3), Priority(ts).rest);
    SuffixJoins(Bump(t1), t3, Priority(ts).rest);
    SuffixJoins(t1, Bump(t1), Priority(ts).rest);
    SuffixJoins(ts, t1, Priority(ts).rest);
  }

  lemma PolicySuffix(ts: seq<Tok>)
    requires PolicyOf(ts).Got?
    ensures IsSuffix(PolicyOf(ts).rest, ts)
  {
    hide SkipBreaks;
    if Peek(ts) == Word("policy") {
      var t1 := Bump(Bump(ts));
      assert IsSuffix(t1, ts);
      BreaksSuffix(t1);
      SuffixJoins(ts, t1, SkipBreaks(t1));
    }
  }

  /** A chain's name is a word of its declaration. */
  lemma ChainWeight(ts: seq<Tok>, c: char)
    requires ParseChain(ts).Got?
    ensures var r := ParseChain(ts);
      && RulesWeight(r.value.rules, c) + Weight(r.rest, c) <= Weight(ts, c)
      && Word(r.value.name) in ts && IsSuffix(r.rest, ts)
  {
    hide ChainHead, Priority, PolicyOf, RulesOf, IsSuffix, Weight;
    var head := ChainHead(ts);
    var priority := Priority(head.rest);
    var policy := PolicyOf(priority.rest);
    HeadSplice(ts, []);
    HeadName(ts);
    PrioritySuffix(head.rest);
    PolicySuffix(priority.rest);
    SuffixJoins(ts, head.rest, priority.rest);
    SuffixJoins(ts, priority.rest, policy.rest);
    SuffixWeight(policy.rest, ts, c);
    var start := Chain(head.value.0, head.value.1, policy.value, []);
    RulesOfWeight(policy.rest, start, c);
    SuffixJoins(ts, policy.rest, ParseChain(ts).rest);
  }

  lemma HeadName(ts: seq<Tok>)
    requires ChainHead(ts).Got?
    ensures Word(ChainHead(ts).value.0) in ts
  {
    hide SkipBreaks;
  }

  lemma InSuffix(rest: seq<Tok>, ts: seq<Tok>, t: Tok)
    requires IsSuffix(rest, ts) && t in rest
    ensures t in ts
  {
  }

  /** The names of the chains are among the tokens. */
  ghost predicate NamedIn(chains: seq<Chain>, ts: seq<Tok>) {
    forall i | 0 <= i < |chains| :: Word(chains[i].name) in ts
  }

  lemma NamedLater(chains: seq<Chain>, rest: seq<Tok>, ts: seq<Tok>)
    requires NamedIn(chains, rest) && IsSuffix(rest, ts)
    ensures NamedIn(chains, ts)
  {
    forall i | 0 <= i < |chains|
      ensures Word(chains[i].name) in ts
    {
      InSuffix(rest, ts, Word(chains[i].name));
    }
  }

  /** What the chains read from `ts`, without those of `chains`, take of it. */
  ghost predicate Takes(chains: seq<Chain>, ts: seq<Tok>, value: seq<Chain>, rest: seq<Tok>, c: char) {
    && |chains| <= |value| && value[..|chains|] == chains && NamedIn(value[|chains|..], ts)
    && ChainsWeight(value, c) + Weight(rest, c) <= ChainsWeight(chains, c) + Weight(ts, c)
    && IsSuffix(rest, ts)
  }

  lemma TakesNothing(chains: seq<Chain>, ts: seq<Tok>, rest: seq<Tok>, c: char)
    requires IsSuffix(rest, ts)
    ensures Takes(chains, ts, chains, rest, c)
  {
    hide ChainsWeight, Weight, IsSuffix;
    SuffixWeight(rest, ts, c);
  }

  lemma TakesLater(chains: seq<Chain>, ts: seq<Tok>, mid: seq<Tok>, value: seq<Chain>, rest: seq<Tok>, c: char)
    requires IsSuffix(mid, ts) && Takes(chains, mid, value, rest, c)
    ensures Takes(chains, ts, value, rest, c)
  {
    hide ChainsWeight, Weight, IsSuffix, NamedIn;
    SuffixWeight(mid, ts, c);
    SuffixJoins(ts, mid, rest);
    NamedLater(value[|chains|..], mid, ts);
  }

  lemma TakesMore(chains: seq<Chain>, more: seq<Chain>, ts: seq<Tok>, mid: seq<Tok>, value: seq<Chain>,
                  rest: seq<Tok>, c: char)
    requires IsSuffix(mid, ts) && NamedIn(more, ts) && ChainsWeight(more, c) + Weight(mid, c) <= Weight(ts, c)
    requires Takes(chains + more, mid, value, rest, c)
    ensures Takes(chains, ts, value, rest, c)
  {
    hide ChainsWeight, Weight, IsSuffix;
    ChainsAppend(chains, more, c);
    SuffixJoins(ts, mid, rest);
    var later := value[|chains + more|..];
    NamedLater(later, mid, ts);
    assert value == value[..|chains + more|] + later;
    assert value[|chains|..] == more + later;
  }

  lemma OneNamed(chain: Chain, ts: seq<Tok>)
    requires Word(chain.name) in ts
    ensures NamedIn([chain], ts)
  {
  }

  lemma {:induction false} ChainsOfWeight(ts: seq<Tok>, chains: seq<Chain>, c: char)
    requires ChainsOf(ts, chains).Got?
    ensures Takes(chains, ts, ChainsOf(ts, chains).value, ChainsOf(ts, chains).rest, c)
    decreases |ts|
  {
    hide ParseChain, ChainsOf, SkipBreaks, IsSuffix, Takes, Weight, ChainsWeight, RulesWeight, NamedIn, TokWeight;
    ChainsStep(ts, chains);
    var t1 := SkipBreaks(ts);
    var r := ChainsOf(ts, chains);
    BreaksSuffix(ts);
    BumpWeight(t1, c);
    SuffixJoins(ts, t1, Bump(t1));
    if Peek(t1) == Sym('}') {
      TakesNothing(chains, ts, Bump(t1), c);
    } else {
      var chain := ParseChain(Bump(t1));
      ChainWeight(Bump(t1), c);
      OneChain(chain.value, c);
      ChainsOfWeight(chain.rest, chains + [chain.value], c);
      OneNamed(chain.value, Bump(t1));
      TakesMore(chains, [chain.value], Bump(t1), chain.rest, r.value, r.rest, c);
      TakesLater(chains, ts, Bump(t1), r.value, r.rest, c);
    }
  }

  lemma TableWeight(ts: seq<Tok>, c: char)
    requires ParseTable(ts).Got?
    ensures Takes([], ts, ParseTable(ts).value, ParseTable(ts).rest, c)
  {
    hide ChainsOf, IsSuffix, Takes, Weight;
    var t1 := Bump(ts);
    BumpWeight(ts, c);
    BumpWeight(t1, c);
    BumpWeight(Bump(t1), c);
    SuffixJoins(ts, t1, Bump(t1));
    SuffixJoins(ts, Bump(t1), Bump(Bump(t1)));
    var r := ParseTable(ts);
    ChainsOfWeight(Bump(Bump(t1)), [], c);
    TakesLater([], ts, Bump(Bump(t1)), r.value, r.rest, c);
  }

  lemma {:induction false} TablesWeight(ts: seq<Tok>, chains: seq<Chain>, c: char)
    requires TablesOf(ts, chains).Ok?
    ensures Takes(chains, ts, TablesOf(ts, chains).value, [], c)
    decreases |ts|
  {
    hide ParseTable, SkipBreaks, IsSuffix, Takes, Weight, ChainsWeight;
    var t1 := SkipBreaks(ts);
    BreaksSuffix(ts);
    BumpWeight(t1, c);
    SuffixJoins(ts, t1, Bump(t1));
    if Peek(t1) == Eof {
      NothingLeft(ts);
      TakesNothing(chains, ts, [], c);
    } else {
      var table := ParseTable(Bump(t1));
      TableWeight(Bump(t1), c);
      TablesWeight(table.rest, chains + table.value, c);
      TableTakes(Bump(t1), table.value, table.rest, c);
      TakesMore(chains, table.value, Bump(t1), table.rest, TablesOf(ts, chains).value, [], c);
      TakesLater(chains, ts, Bump(t1), TablesOf(ts, chains).value, [], c);
    }
  }

  lemma NothingLeft(ts: seq<Tok>)
    ensures IsSuffix([], ts)
  {
  }

  lemma TableTakes(ts: seq<Tok>, value: seq<Chain>, rest: seq<Tok>, c: char)
    requires Takes([], ts, value, rest, c)
    ensures IsSuffix(rest, ts) && NamedIn(value, ts) && ChainsWeight(value, c) + Weight(rest, c) <= Weight(ts, c)
  {
    hide IsSuffix, Weight;
    assert value[0..] == value;
  }

  // ------------------------------------------------------------- through the lexer

  lemma CountTail(s: string, rest: string, c: char)
    requires |rest| <= |s| && s[|s| - |rest|..] == rest
    ensures Count(rest, c) <= Count(s, c)
  {
    assert s == s[..|s| - |rest|] + rest;
    CountAppend(s[..|s| - |rest|], rest, c);
  }

  predicate IsTail(rest: string, s: string) {
    |rest| <= |s| && s[|s| - |rest|..] == rest
  }

  lemma TailJoins(s: string, mid: string, rest: string)
    requires IsTail(mid, s) && IsTail(rest, mid)
    ensures IsTail(rest, s)
  {
  }

  lemma {:induction false} CommentTail(s: string)
    ensures IsTail(SkipComment(s), s)
  {
    if s != "" && s[0] != '\n' { CommentTail(s[1..]); }
  }

  lemma {:induction false} BlanksTail(s: string)
    ensures IsTail(SkipBlanks(s), s)
    decreases |s|
  {
    hide SkipComment;
    if s != "" {
      if IsBlank(s[0]) {
        BlanksTail(s[1..]);
      } else if s[0] == '#' {
        CommentTail(s[1..]);
        BlanksTail(SkipComment(s[1..]));
      } else if s[0] == '\\' && |s| > 1 && s[1] == '\n' {
        BlanksTail(s[2..]);
      }
    }
  }

  lemma {:induction false} DigitsTail(s: string, n: nat)
    requires ScanDigits(s, n).Ok?
    ensures IsTail(ScanDigits(s, n).value.rest, s)
  {
    if DigitAt(s, 0) { DigitsTail(s[1..], n * 10 + DigitValue(s[0])); }
  }

  lemma NumberTail(s: string)
    requires ScanNumber(s).Ok?
    ensures IsTail(ScanNumber(s).value.rest, s)
  {
    hide ScanDigits;
    DigitsTail(s[1..], DigitValue(s[0]));
  }

  lemma {:induction false} OctetsTail(s: string, octets: seq<nat>)
    requires ScanOctets(s, octets).Ok?
    ensures IsTail(ScanOctets(s, octets).value.rest, s)
    decreases |s|
  {
    hide ScanNumber, IsTail;
    if |s| > 0 && s[0] == '.' && DigitAt(s, 1) {
      var part := ScanNumber(s[1..]).value;
      NumberTail(s[1..]);
      OctetsTail(part.rest, octets + [part.value]);
      TailJoins(s[1..], part.rest, ScanOctets(s, octets).value.rest);
      WholeTail(s);
      TailJoins(s, s[1..], ScanOctets(s, octets).value.rest);
    } else {
      WholeTail(s);
    }
  }

  lemma WholeTail(s: string)
    ensures IsTail(s, s) && (s != "" ==> IsTail(s[1..], s))
  {
  }

  lemma {:induction false} WordTail(s: string, acc: string)
    ensures IsTail(ScanWord(s, acc).rest, s)
  {
    if s != "" && InWord(s[0]) && !(s[0] == '-' && DigitAt(s, 1)) { WordTail(s[1..], acc + [s[0]]); }
  }

  lemma NumberOrIpTail(s: string)
    requires ScanNumberOrIp(s).Ok?
    ensures IsTail(ScanNumberOrIp(s).value.rest, s)
    ensures ScanNumberOrIp(s).value.value.Num? || ScanNumberOrIp(s).value.value.Ip?
  {
    hide ScanNumber, ScanOctets, IsTail;
    var first := ScanNumber(s).value;
    NumberTail(s);
    OctetsTail(first.rest, [first.value]);
    TailJoins(s, first.rest, ScanOctets(first.rest, [first.value]).value.rest);
  }

  /** A backslash in a string takes another one for itself to get through; without one there is no quote. */
  lemma {:induction false} StringCounts(s: string, acc: string)
    requires ScanString(s, acc).Ok?
    ensures var r := ScanString(s, acc).value;
      && 2 * Count(r.value, '\\') + Count(r.rest, '\\') <= 2 * Count(acc, '\\') + Count(s, '\\')
      && (Count(s, '\\') == 0 ==> Count(r.value, '"') == Count(acc, '"'))
    decreases |s|
  {
    if s[0] == '\\' {
      assert s[2..] == s[1..][1..];
      CountSnoc(acc, s[1], '\\');
      StringCounts(s[2..], acc + [s[1]]);
    } else if s[0] != '"' {
      CountSnoc(acc, s[0], '\\');
      CountSnoc(acc, s[0], '"');
      StringCounts(s[1..], acc + [s[0]]);
    }
  }

  /** What a token holds of the text it was read from. */
  ghost predicate TokenFits(t: Tok, s: string, rest: string) {
    && (t.Word? ==> LexableWord(t.text))
    && 2 * TokWeight(t, '\\') + Count(rest, '\\') <= Count(s, '\\')
    && (Count(s, '\\') == 0 ==> TokWeight(t, '"') == 0)
  }

  lemma WordHasNone(w: string, c: char)
    requires LexableWord(w) && !InWord(c)
    ensures Count(w, c) == 0
  {
    CountNone(w, c);
  }

  lemma TokenCounts(s: string)
    requires s != "" && ScanToken(s).Ok?
    ensures TokenFits(ScanToken(s).value.value, s, ScanToken(s).value.rest)
  {
    hide ScanString, ScanWord, ScanNumberOrIp, LexableWord;
    var scan := ScanToken(s).value;
    var c := s[0];
    CountTail(s, s[1..], '\\');
    if c == '"' {
      StringCounts(s[1..], "");
    } else if IsDigit(c) {
      NumberOrIpTail(s);
      CountTail(s, scan.rest, '\\');
    } else if StartsWord(c) {
      ScannedIsLexable(c, s[1..]);
      WordHasNone(scan.value.text, '\\');
      WordHasNone(scan.value.text, '"');
      WordTail(s[1..], [c]);
      CountTail(s[1..], scan.rest, '\\');
    }
  }

  /** Every word of an accepted text is one to the lexer, the tokens hold at most half of its
  backslashes, and no quote when there are none. */
  ghost predicate Fits(toks: seq<Tok>, s: string) {
    && (forall i | 0 <= i < |toks| && toks[i].Word? :: LexableWord(toks[i].text))
    && 2 * Weight(toks, '\\') <= Count(s, '\\')
    && (Count(s, '\\') == 0 ==> Weight(toks, '"') == 0)
  }

  lemma FitsMore(t: Tok, toks: seq<Tok>, s: string, rest: string)
    requires TokenFits(t, s, rest) && Fits(toks, rest)
    ensures Fits([t] + toks, s)
  {
    hide LexableWord, Count, TokWeight;
    assert ([t] + toks)[1..] == toks;
  }

  lemma FitsLonger(toks: seq<Tok>, s: string, rest: string)
    requires IsTail(rest, s) && Fits(toks, rest)
    ensures Fits(toks, s)
  {
    hide LexableWord, Weight;
    CountTail(s, rest, '\\');
  }

  lemma BreakFits(s: string)
    requires s != ""
    ensures TokenFits(Break, s, s[1..])
  {
    CountTail(s, s[1..], '\\');
  }

  lemma {:induction false} LexedCounts(s: string, atStart: bool)
    requires TokensOf(s, atStart).Ok?
    ensures Fits(TokensOf(s, atStart).value, s)
    decreases |s|
  {
    hide SkipBlanks, ScanToken, Fits, TokenFits, IsTail;
    var t := SkipBlanks(s);
    BlanksTail(s);
    if t == "" {
      NoTokens(t);
    } else if t[0] == '\n' || t[0] == ';' {
      LexedCounts(t[1..], true);
      WholeTail(t);
      FitsLonger(TokensOf(t[1..], true).value, t, t[1..]);
      BreakFits(t);
      FitsMore(Break, TokensOf(t[1..], true).value, t, t[1..]);
    } else {
      var scan := ScanToken(t).value;
      LexedCounts(scan.rest, false);
      TokenCounts(t);
      FitsMore(scan.value, TokensOf(scan.rest, false).value, t, scan.rest);
    }
    FitsLonger(TokensOf(s, atStart).value, s, t);
  }

  lemma NoTokens(s: string)
    ensures Fits([], s)
  {
  }

  // --------------------------------------------------------------- of a file

  /** Every chain of an accepted file has a word for its name; its names hold at most half of the
  backslashes of the file, and when there are none, no quote. */
  lemma FileNames(src: string)
    requires ChainsIn(src).Ok?
    ensures forall i | 0 <= i < |ChainsIn(src).value| :: LexableWord(ChainsIn(src).value[i].name)
    ensures 2 * ChainsWeight(ChainsIn(src).value, '\\') <= Count(src, '\\')
    ensures Count(src, '\\') == 0 ==> ChainsWeight(ChainsIn(src).value, '"') == 0
  {
    hide TokensOf, TablesOf, Weight, ChainsWeight, Count, LexableWord, IsSuffix;
    var toks := TokensOf(src, true).value;
    var chains := TablesOf(toks, []).value;
    LexedCounts(src, true);
    TablesWeight(toks, [], '\\');
    TablesWeight(toks, [], '"');
    TableTakes(toks, chains, [], '\\');
    TableTakes(toks, chains, [], '"');
  }
}
