/** Which tokens of a rule the parser passes over, and when one of them meant something.

Counters, log options and the reason of a reject have no effect on a rule. The parser skips them
without looking closely. Here every rule it reads is shown to mean what is left when all that is
outside the listed forms of these statements is taken out. What is taken out is characterised
exactly, and so is when something is in it that the parser acts on elsewhere or refuses. */
module Skipping {
  import opened Wrappers
  import opened Arith
  import opened Intervals
  import opened Rules
  import opened Lexer
  import opened Grammar
  import opened Accepted
  import opened Splicing

  // ------------------------------------------------------------- known tokens

  /** A word the parser acts on at the start of a clause, or refuses there by name. */
  predicate IsKnownWord(w: string) {
    KeywordOf(w) != Refused(Unimplemented) || w in ["sctp", "dccp", "udplite"]
  }

  /** A known word, the mark of a named set, or the end of the statement. */
  predicate Known(t: Tok) {
    EndsStatement(t) || t == Sym('@') || (t.Word? && IsKnownWord(t.text))
  }

  // ------------------------------------------------- the listed forms, and the rest

  predicate NumAt(ts: seq<Tok>, i: nat) {
    i < |ts| && ts[i].Num?
  }

  /** How much of what `counter` skips has its listed form, `packets N` and then `bytes N`. */
  function CounterLength(ts: seq<Tok>): (n: nat)
    ensures n + |SkipCounter(ts)| <= |ts|
  {
    if Peek(ts) != Word("packets") || !NumAt(ts, 1) then 0
    else if |ts| > 2 && ts[2] == Word("bytes") && NumAt(ts, 3) then 4
    else 2
  }

  /** An option with a value; the parser takes any word for one. */
  predicate TakesValue(ts: seq<Tok>) {
    Peek(ts).Str? || Peek(ts).Word? || Peek(ts).Num?
  }

  /** An option of `log` that is listed as supported, and a value that is nothing else. */
  predicate ListedOption(w: string, ts: seq<Tok>) {
    w in ["prefix", "level", "flags"] && TakesValue(ts) && !Known(Peek(ts))
  }

  /** The options of a `log` that have their listed form. */
  function LogKeeps(ts: seq<Tok>): seq<Tok>
    decreases |ts|
  {
    if !(Peek(ts).Word? && IsLogOption(Peek(ts).text)) then []
    else
      var t := Bump(ts);
      if ListedOption(ts[0].text, t) then [ts[0], t[0]] + LogKeeps(Bump(t))
      else LogKeeps(if TakesValue(t) then Bump(t) else t)
  }

  /** The others. */
  function LogDrops(ts: seq<Tok>): seq<Tok>
    decreases |ts|
  {
    if !(Peek(ts).Word? && IsLogOption(Peek(ts).text)) then []
    else
      var t := Bump(ts);
      if ListedOption(ts[0].text, t) then LogDrops(Bump(t))
      else if TakesValue(t) then [ts[0], t[0]] + LogDrops(Bump(t))
      else [ts[0]] + LogDrops(t)
  }

  /** The tokens from the first known one on. */
  function FromKnown(ts: seq<Tok>): (rest: seq<Tok>)
    ensures |rest| <= |ts|
    decreases |ts|
  {
    if Known(Peek(ts)) then ts else FromKnown(Bump(ts))
  }

  predicate IsTcpReset(ts: seq<Tok>) {
    |ts| > 1 && ts[0] == Word("tcp") && ts[1] == Word("reset")
  }

  /** What follows the reason of a reject: `tcp reset`, or tokens that are not known. */
  function ReasonRest(ts: seq<Tok>): (rest: seq<Tok>)
    ensures |rest| <= |ts|
  {
    FromKnown(if IsTcpReset(ts) then ts[2..] else ts)
  }

  /** What is kept of the tokens behind the first word of a clause. */
  function KeptBody(ts: seq<Tok>, k: Keyword, rest: seq<Tok>): seq<Tok>
    requires |rest| <= |ts|
  {
    if k.OnCounter? then ts[..CounterLength(ts)]
    else if k.OnLog? then LogKeeps(ts)
    else if k.OnReject? && Peek(ts) == Word("with") then [ts[0]] + Before(Bump(ts), ReasonRest(Bump(ts)))
    else Before(ts, rest)
  }

  /** What the parser passes over in one clause, outside the listed forms. */
  function PassedBody(ts: seq<Tok>, k: Keyword): seq<Tok> {
    if k.OnCounter? then Before(ts[CounterLength(ts)..], SkipCounter(ts))
    else if k.OnLog? then LogDrops(ts)
    else if k.OnReject? && Peek(ts) == Word("with") then
      (var rest := ReasonRest(Bump(ts)); Before(rest, SkipStatement(rest)))
    else []
  }

  /** The statement in its listed forms. */
  function Kept(ts: seq<Tok>, hook: Hook, st: RuleState): seq<Tok>
    requires Clauses(ts, hook, st).Got?
    decreases |ts|
  {
    if EndsStatement(Peek(ts)) then []
    else
      var k := KeywordOf(Peek(ts).text);
      var step := Clause(Bump(ts), k, hook, st);
      [ts[0]] + KeptBody(Bump(ts), k, step.rest) + Kept(step.rest, hook, step.value)
  }

  /** Everything else the parser read of it. */
  function Passed(ts: seq<Tok>, hook: Hook, st: RuleState): seq<Tok>
    requires Clauses(ts, hook, st).Got?
    decreases |ts|
  {
    if EndsStatement(Peek(ts)) then []
    else
      var k := KeywordOf(Peek(ts).text);
      var step := Clause(Bump(ts), k, hook, st);
      PassedBody(Bump(ts), k) + Passed(step.rest, hook, step.value)
  }

  // ------------------------------------------- the conditions, on tokens alone

  /** `counter` is followed by numbers where it takes them. */
  predicate CounterListed(ts: seq<Tok>) {
    Peek(ts) == Word("packets") ==>
      NumAt(ts, 1) && (|ts| > 2 && ts[2] == Word("bytes") ==> NumAt(ts, 3))
  }

  /** Every option of `log` is listed and has a value that is nothing else. */
  predicate LogListed(ts: seq<Tok>)
    decreases |ts|
  {
    Peek(ts).Word? && IsLogOption(Peek(ts).text) ==>
      ListedOption(Peek(ts).text, Bump(ts)) && LogListed(Bump(Bump(ts)))
  }

  /** No known token follows before the end of the statement. */
  predicate NothingKnown(ts: seq<Tok>)
    decreases |ts|
  {
    EndsStatement(Peek(ts)) || (!Known(Peek(ts)) && NothingKnown(Bump(ts)))
  }

  /** A reason is `tcp reset` or has no known token in it. */
  predicate ReasonListed(ts: seq<Tok>) {
    NothingKnown(if IsTcpReset(ts) then ts[2..] else ts)
  }

  /** The clause with keyword `k`, read from `ts`, has its listed form. */
  predicate ClauseListed(ts: seq<Tok>, k: Keyword) {
    && (k.OnCounter? ==> CounterListed(ts))
    && (k.OnLog? ==> LogListed(ts))
    && (k.OnReject? && Peek(ts) == Word("with") ==> ReasonListed(Bump(ts)))
  }

  /** Every clause that is reached has its listed form. */
  predicate Listed(ts: seq<Tok>, hook: Hook, st: RuleState)
    requires Clauses(ts, hook, st).Got?
    decreases |ts|
  {
    EndsStatement(Peek(ts)) ||
    var k := KeywordOf(Peek(ts).text);
    var step := Clause(Bump(ts), k, hook, st);
    ClauseListed(Bump(ts), k) && Listed(step.rest, hook, step.value)
  }

  /** Nothing known stands where `counter` takes a number. */
  predicate CounterSpares(ts: seq<Tok>) {
    Peek(ts) == Word("packets") ==>
      && (|ts| > 1 ==> !Known(ts[1]))
      && (|ts| > 3 && ts[2] == Word("bytes") ==> !Known(ts[3]))
  }

  /** No option of `log` has a known word for its value. */
  predicate LogSpares(ts: seq<Tok>)
    decreases |ts|
  {
    Peek(ts).Word? && IsLogOption(Peek(ts).text) ==>
      var t := Bump(ts);
      if TakesValue(t) then !Known(Peek(t)) && LogSpares(Bump(t)) else LogSpares(t)
  }

  predicate ClauseSpares(ts: seq<Tok>, k: Keyword) {
    && (k.OnCounter? ==> CounterSpares(ts))
    && (k.OnLog? ==> LogSpares(ts))
    && (k.OnReject? && Peek(ts) == Word("with") ==> ReasonListed(Bump(ts)))
  }

  /** No clause that is reached passes over a known token. */
  predicate Spares(ts: seq<Tok>, hook: Hook, st: RuleState)
    requires Clauses(ts, hook, st).Got?
    decreases |ts|
  {
    EndsStatement(Peek(ts)) ||
    var k := KeywordOf(Peek(ts).text);
    var step := Clause(Bump(ts), k, hook, st);
    ClauseSpares(Bump(ts), k) && Spares(step.rest, hook, step.value)
  }

  // -------------------------------------------- the rule is its listed forms

  /** The first token starts a clause or ends the statement. */
  predicate StartsClause(ts: seq<Tok>) {
    EndsStatement(Peek(ts)) || (Peek(ts).Word? && !KeywordOf(Peek(ts).text).Refused?)
  }

  const ARGUMENT_WORDS: seq<string> :=
    ["packets", "bytes", "with", "prefix", "level", "flags", "group", "snaplen", "queue-threshold", "reset"]

  /** The words the skipped statements are made of start no clause and are refused by no name. */
  lemma ArgumentWords(w: string)
    requires w in ARGUMENT_WORDS
    ensures KeywordOf(w) == Refused(Unimplemented) && !Known(Word(w))
  {
    hide KeywordOf;
    CounterWords();
    ReasonWords();
    PrefixWord();
    LevelWord();
    FlagsWord();
    GroupWord();
    SnaplenWord();
    ThresholdWord();
    assert w !in ["sctp", "dccp", "udplite"];
  }

  lemma CounterWords()
    ensures KeywordOf("packets") == KeywordOf("bytes") == Refused(Unimplemented)
  {
  }

  lemma ReasonWords()
    ensures KeywordOf("with") == KeywordOf("reset") == Refused(Unimplemented)
  {
  }

  lemma PrefixWord()
    ensures KeywordOf("prefix") == Refused(Unimplemented)
  {
  }

  lemma LevelWord()
    ensures KeywordOf("level") == Refused(Unimplemented)
  {
  }

  lemma FlagsWord()
    ensures KeywordOf("flags") == Refused(Unimplemented)
  {
  }

  lemma GroupWord()
    ensures KeywordOf("group") == Refused(Unimplemented)
  {
  }

  lemma SnaplenWord()
    ensures KeywordOf("snaplen") == Refused(Unimplemented)
  {
  }

  lemma ThresholdWord()
    ensures KeywordOf("queue-threshold") == Refused(Unimplemented)
  {
  }

  /** What starts a clause does not continue a value, a count, an option or a verdict. */
  predicate Apart(ts: seq<Tok>) {
    Plain(ts) && forall w | w in ARGUMENT_WORDS :: Peek(ts) != Word(w)
  }

  lemma StartIsApart(ts: seq<Tok>)
    requires StartsClause(ts)
    ensures Apart(ts)
  {
    hide KeywordOf;
    forall w | w in ARGUMENT_WORDS
      ensures Peek(ts) != Word(w)
    {
      ArgumentWords(w);
    }
  }

  lemma ClauseIsNotRefused(ts: seq<Tok>, hook: Hook, st: RuleState)
    requires Clauses(ts, hook, st).Got? && !EndsStatement(Peek(ts))
    ensures ts != [] && Peek(ts).Word? && !KeywordOf(Peek(ts).text).Refused?
    ensures var step := Clause(Bump(ts), KeywordOf(Peek(ts).text), hook, st);
      step.Got? && |step.rest| < |ts| && Clauses(step.rest, hook, step.value) == Clauses(ts, hook, st)
  {
    hide KeywordOf, Canonical, WellSized, IpMatch, MetaMatch, PortMatch, IfSpec, SkipCounter, SkipLog, SkipStatement;
  }

  lemma CounterKeptReads(ts: seq<Tok>, later: seq<Tok>)
    requires Apart(later)
    ensures SkipCounter(ts[..CounterLength(ts)] + later) == later
  {
    hide Plain;
    var kept := ts[..CounterLength(ts)] + later;
    assert ARGUMENT_WORDS[0] == "packets" && ARGUMENT_WORDS[1] == "bytes";
    assert "packets" in ARGUMENT_WORDS && "bytes" in ARGUMENT_WORDS;
    if CounterLength(ts) == 0 {
      assert kept == later;
    } else if CounterLength(ts) == 2 {
      assert kept[2..] == later;
    } else {
      assert kept[2..][2..] == later && kept[2..][0] == ts[2];
    }
  }

  lemma OptionIsArgument(w: string)
    requires IsLogOption(w)
    ensures w in ARGUMENT_WORDS
  {
    var options := ["prefix", "level", "flags", "group", "snaplen", "queue-threshold"];
    assert forall i | 0 <= i < 6 :: options[i] == ARGUMENT_WORDS[i + 3];
  }

  lemma {:induction false} LogKeptReads(ts: seq<Tok>, later: seq<Tok>)
    requires Apart(later)
    ensures SkipLog(LogKeeps(ts) + later) == later
    decreases |ts|
  {
    hide Known, KeywordOf, Apart, IsLogOption, ListedOption, TakesValue, LogKeeps, SkipLog;
    LogKeepsStep(ts);
    if Peek(ts).Word? && IsLogOption(Peek(ts).text) {
      var t := Bump(ts);
      if ListedOption(ts[0].text, t) {
        ListedTakesValue(ts[0].text, t);
        LogKeptReads(Bump(t), later);
        var more := LogKeeps(Bump(t)) + later;
        assert LogKeeps(ts) + later == [ts[0], t[0]] + more;
        OptionRead(ts[0], t, more);
      } else {
        LogKeptReads(if TakesValue(t) then Bump(t) else t, later);
      }
    } else {
      assert LogKeeps(ts) + later == later;
      NotAnOption(later);
    }
  }

  lemma LogKeepsStep(ts: seq<Tok>)
    ensures LogKeeps(ts) ==
      if !(Peek(ts).Word? && IsLogOption(Peek(ts).text)) then []
      else if ListedOption(ts[0].text, Bump(ts)) then [ts[0], Bump(ts)[0]] + LogKeeps(Bump(Bump(ts)))
      else LogKeeps(if TakesValue(Bump(ts)) then Bump(Bump(ts)) else Bump(ts))
  {
    hide IsLogOption, Known;
  }

  lemma NotAnOption(ts: seq<Tok>)
    requires Apart(ts)
    ensures SkipLog(ts) == ts
  {
    hide IsLogOption;
    if Peek(ts).Word? && IsLogOption(Peek(ts).text) { OptionIsArgument(Peek(ts).text); }
  }

  lemma ListedTakesValue(w: string, ts: seq<Tok>)
    requires ListedOption(w, ts)
    ensures TakesValue(ts) && ts != []
  {
  }

  lemma OptionRead(option: Tok, ts: seq<Tok>, more: seq<Tok>)
    requires option.Word? && IsLogOption(option.text) && TakesValue(ts) && ts != []
    ensures SkipLog([option, ts[0]] + more) == SkipLog(more)
  {
    hide IsLogOption;
    assert ([option, ts[0]] + more)[1..] == [ts[0]] + more && ([ts[0]] + more)[1..] == more;
  }

  lemma EndIsKnown(ts: seq<Tok>)
    ensures EndsStatement(Peek(ts)) ==> Known(Peek(ts))
    ensures ts == [] ==> Known(Peek(ts))
  {
  }

  predicate NoneKnown(ts: seq<Tok>) {
    forall i | 0 <= i < |ts| :: !Known(ts[i])
  }

  lemma NoneKnownJoins(a: seq<Tok>, b: seq<Tok>)
    ensures NoneKnown(a + b) <==> NoneKnown(a) && NoneKnown(b)
  {
    hide Known;
    assert (forall i | 0 <= i < |a| :: (a + b)[i] == a[i]) && forall i | 0 <= i < |b| :: (a + b)[|a| + i] == b[i];
  }

  lemma BeforeStep(ts: seq<Tok>, rest: seq<Tok>)
    requires |rest| < |ts|
    ensures |rest| <= |Bump(ts)| && Before(ts, rest) == [ts[0]] + Before(Bump(ts), rest)
  {
  }

  lemma BeforeNothing(ts: seq<Tok>)
    ensures Before(ts, ts) == []
  {
  }

  lemma {:induction false} KnownIsFirst(ts: seq<Tok>)
    ensures Known(Peek(FromKnown(ts))) && IsSuffix(FromKnown(ts), ts)
    ensures NoneKnown(Before(ts, FromKnown(ts)))
    ensures SkipStatement(FromKnown(ts)) == SkipStatement(ts)
    decreases |ts|
  {
    hide Known, EndsStatement, IsSuffix, Before;
    EndIsKnown(ts);
    SpliceNothing(ts, []);
    if Known(Peek(ts)) {
      BeforeNothing(ts);
    } else {
      KnownIsFirst(Bump(ts));
      SuffixGrows(FromKnown(ts), ts);
      BeforeStep(ts, FromKnown(ts));
      NoneKnownJoins([ts[0]], Before(Bump(ts), FromKnown(ts)));
    }
  }

  predicate NoEndIn(ts: seq<Tok>) {
    forall i | 0 <= i < |ts| :: !EndsStatement(ts[i])
  }

  /** The reason kept has no statement end in it, and is what stands before what is passed over. */
  lemma ReasonSplits(ts: seq<Tok>)
    ensures IsSuffix(ReasonRest(ts), ts) && SkipStatement(ReasonRest(ts)) == SkipStatement(ts)
    ensures NoEndIn(Before(ts, ReasonRest(ts))) && Known(Peek(ReasonRest(ts)))
  {
    hide FromKnown, IsKnownWord;
    var body := if IsTcpReset(ts) then ts[2..] else ts;
    KnownIsFirst(body);
    if IsTcpReset(ts) {
      assert ts[1..][1..] == ts[2..];
      assert SkipStatement(ts) == SkipStatement(ts[1..]) == SkipStatement(ts[2..]);
      assert Before(ts, ReasonRest(ts)) == [ts[0], ts[1]] + Before(body, FromKnown(body));
    }
  }

  lemma {:induction false} NoEnds(a: seq<Tok>, later: seq<Tok>)
    requires NoEndIn(a) && EndsStatement(Peek(later))
    ensures SkipStatement(a + later) == later
  {
    if a == [] {
      assert a + later == later;
    } else {
      assert (a + later)[1..] == a[1..] + later;
      NoEnds(a[1..], later);
    }
  }

  /** The listed form of a clause, in front of what may follow it, reads as the clause. */
  lemma KeptBodyReads(ts: seq<Tok>, k: Keyword, hook: Hook, st: RuleState, later: seq<Tok>)
    requires (k.OnPorts? ==> k.protocol <= 255) && Clause(ts, k, hook, st).Got? && Apart(later)
    requires k.OnReject? && Peek(ts) == Word("with") ==> EndsStatement(Peek(later))
    ensures var step := Clause(ts, k, hook, st);
      Clause(KeptBody(ts, k, step.rest) + later, k, hook, st) == Got(step.value, later)
  {
    hide IpMatch, MetaMatch, PortMatch, IfSpec, SkipCounter, SkipLog, SkipStatement, Canonical, WellSized, WithIif,
      CounterLength, LogKeeps, ReasonRest, EndsStatement;
    if k.OnCounter? {
      CounterKeptReads(ts, later);
    } else if k.OnLog? {
      LogKeptReads(ts, later);
    } else if k.OnReject? {
      RejectKeptReads(ts, hook, st, later);
    } else {
      ClauseSplice(ts, k, hook, st, later);
    }
  }

  lemma RejectKeptReads(ts: seq<Tok>, hook: Hook, st: RuleState, later: seq<Tok>)
    requires Clause(ts, OnReject, hook, st).Got? && Apart(later)
    requires Peek(ts) == Word("with") ==> EndsStatement(Peek(later))
    ensures var step := Clause(ts, OnReject, hook, st);
      Clause(KeptBody(ts, OnReject, step.rest) + later, OnReject, hook, st) == Got(step.value, later)
  {
    hide SkipStatement, Canonical, WellSized, ReasonRest, EndsStatement, Plain;
    var kept := KeptBody(ts, OnReject, Clause(ts, OnReject, hook, st).rest) + later;
    if Peek(ts) == Word("with") {
      var reason := Before(Bump(ts), ReasonRest(Bump(ts)));
      ReasonSplits(Bump(ts));
      NoEnds(reason, later);
      assert kept[1..] == reason + later;
    } else {
      assert kept == later;
      assert ARGUMENT_WORDS[2] == "with";
    }
  }

  /** The first clause, in its listed form in front of what is kept of the rest. */
  lemma KeptClause(ts: seq<Tok>, hook: Hook, st: RuleState, later: seq<Tok>)
    requires Clauses(ts, hook, st).Got? && !EndsStatement(Peek(ts)) && StartsClause(later)
    requires var k := KeywordOf(Peek(ts).text); var step := Clause(Bump(ts), k, hook, st);
      && step.Got? && |step.rest| < |ts| && Clauses(later, hook, step.value) == Clauses(ts, hook, st)
      && (k.OnReject? && Peek(Bump(ts)) == Word("with") ==> EndsStatement(Peek(later)))
    ensures var k := KeywordOf(Peek(ts).text);
      var now := [ts[0]] + (KeptBody(Bump(ts), k, Clause(Bump(ts), k, hook, st).rest) + later);
      StartsClause(now) && Clauses(now, hook, st) == Clauses(ts, hook, st)
  {
    hide KeywordOf, Clause, Clauses, Canonical, WellSized, KeptBody, EndsStatement;
    ClauseIsNotRefused(ts, hook, st);
    StartIsApart(later);
    var k := KeywordOf(Peek(ts).text);
    var body := KeptBody(Bump(ts), k, Clause(Bump(ts), k, hook, st).rest) + later;
    KeptBodyReads(Bump(ts), k, hook, st, later);
    assert ([ts[0]] + body)[1..] == body;
    OneClause([ts[0]] + body, hook, st, ts[0].text, k);
  }

  /** After a reject with its reason the statement is over. */
  lemma ReasonEnds(ts: seq<Tok>, hook: Hook, st: RuleState)
    requires Clause(ts, OnReject, hook, st).Got? && Peek(ts) == Word("with")
    ensures EndsStatement(Peek(Clause(ts, OnReject, hook, st).rest))
  {
    hide Canonical, WellSized, IsSuffix, SkipStatement, EndsStatement, IpMatch, MetaMatch, PortMatch, IfSpec;
    StatementSuffix(Bump(ts));
  }

  lemma KeptAtEnd(ts: seq<Tok>, hook: Hook, st: RuleState)
    requires EndsStatement(Peek(ts))
    ensures Clauses(ts, hook, st) == Got(st, ts) && Kept(ts, hook, st) == [] && Passed(ts, hook, st) == []
    ensures Before(ts, ts) == [] && [] + ts == ts && StartsClause(ts)
  {
  }

  lemma KeptStep(ts: seq<Tok>, hook: Hook, st: RuleState)
    requires Clauses(ts, hook, st).Got? && !EndsStatement(Peek(ts)) && ts != []
    requires var step := Clause(Bump(ts), KeywordOf(Peek(ts).text), hook, st);
      step.Got? && |step.rest| < |ts| && Clauses(step.rest, hook, step.value).Got?
    ensures var k := KeywordOf(Peek(ts).text); var step := Clause(Bump(ts), k, hook, st);
      && Kept(ts, hook, st) == [ts[0]] + KeptBody(Bump(ts), k, step.rest) + Kept(step.rest, hook, step.value)
      && Passed(ts, hook, st) == PassedBody(Bump(ts), k) + Passed(step.rest, hook, step.value)
  {
    hide KeywordOf, Clause, Clauses, Canonical, WellSized, KeptBody, PassedBody, EndsStatement;
  }

  /** A rule reads the same in its listed forms. */
  lemma {:induction false} KeptReadsSame(ts: seq<Tok>, hook: Hook, st: RuleState)
    requires Clauses(ts, hook, st).Got?
    ensures var r := Clauses(ts, hook, st); StartsClause(Kept(ts, hook, st) + r.rest)
    ensures var r := Clauses(ts, hook, st); Clauses(Kept(ts, hook, st) + r.rest, hook, st) == r
    decreases |ts|
  {
    hide KeywordOf, Clause, Clauses, Canonical, WellSized, StartsClause, Kept, Passed, KeptBody, EndsStatement;
    var r := Clauses(ts, hook, st);
    if EndsStatement(Peek(ts)) {
      KeptAtEnd(ts, hook, st);
    } else {
      ClauseIsNotRefused(ts, hook, st);
      KeptStep(ts, hook, st);
      var k := KeywordOf(Peek(ts).text);
      var step := Clause(Bump(ts), k, hook, st);
      KeptReadsSame(step.rest, hook, step.value);
      var body, later := KeptBody(Bump(ts), k, step.rest), Kept(step.rest, hook, step.value) + r.rest;
      assert Kept(ts, hook, st) + r.rest == [ts[0]] + (body + later);
      if k.OnReject? && Peek(Bump(ts)) == Word("with") {
        ReasonEnds(Bump(ts), hook, st);
        KeptAtEnd(step.rest, hook, step.value);
      }
      KeptClause(ts, hook, st, later);
    }
  }

  /** So a rule is its listed forms, and nothing else. */
  lemma RuleIsKept(ts: seq<Tok>, hook: Hook)
    requires ParseRule(ts, hook).Got?
    ensures ParseRule(Kept(ts, hook, NewRule()) + ParseRule(ts, hook).rest, hook) == ParseRule(ts, hook)
  {
    hide Clauses, IsSound, Canonical, WellSized, Kept;
    KeptReadsSame(ts, hook, NewRule());
  }

  // ------------------------------------------------------- what is passed over

  /** `whole` is `kept` and `passed` together; with nothing passed it is what is kept. */
  ghost predicate Splits(whole: seq<Tok>, kept: seq<Tok>, passed: seq<Tok>) {
    multiset(whole) == multiset(kept) + multiset(passed) && (passed == [] ==> kept == whole)
  }

  lemma SplitsJoin(a: seq<Tok>, b: seq<Tok>, keptA: seq<Tok>, keptB: seq<Tok>, passedA: seq<Tok>, passedB: seq<Tok>)
    requires Splits(a, keptA, passedA) && Splits(b, keptB, passedB)
    ensures Splits(a + b, keptA + keptB, passedA + passedB)
  {
  }

  lemma SplitsInTwo(kept: seq<Tok>, passed: seq<Tok>)
    ensures Splits(kept + passed, kept, passed) && Splits(kept, kept, [])
  {
    if passed == [] { assert kept + passed == kept; }
  }

  lemma BeforeJoins(ts: seq<Tok>, mid: seq<Tok>, rest: seq<Tok>)
    requires IsSuffix(mid, ts) && |rest| <= |mid|
    ensures Before(ts, rest) == Before(ts, mid) + Before(mid, rest)
  {
  }

  lemma CounterSplits(ts: seq<Tok>)
    ensures Splits(Before(ts, SkipCounter(ts)), ts[..CounterLength(ts)], PassedBody(ts, OnCounter))
  {
    var n, rest := CounterLength(ts), SkipCounter(ts);
    hide CounterLength, SkipCounter;
    assert Before(ts, rest) == ts[..n] + Before(ts[n..], rest);
    SplitsInTwo(ts[..n], Before(ts[n..], rest));
  }

  /** Tokens in front are kept with what is kept, or passed over with the rest. */
  lemma SplitsFront(front: seq<Tok>, whole: seq<Tok>, kept: seq<Tok>, passed: seq<Tok>)
    requires Splits(whole, kept, passed) && front != []
    ensures Splits(front + whole, front + kept, passed) && Splits(front + whole, kept, front + passed)
  {
  }

  /** One option of a `log`: with a value, without one, or none. */
  lemma LogStep(ts: seq<Tok>)
    ensures |SkipLog(ts)| <= |ts|
    ensures !(Peek(ts).Word? && IsLogOption(Peek(ts).text)) ==>
      SkipLog(ts) == ts && LogKeeps(ts) == [] && LogDrops(ts) == []
    ensures Peek(ts).Word? && IsLogOption(Peek(ts).text) && !TakesValue(Bump(ts)) ==>
      ts != [] && SkipLog(ts) == SkipLog(Bump(ts)) && LogKeeps(ts) == LogKeeps(Bump(ts))
      && LogDrops(ts) == [ts[0]] + LogDrops(Bump(ts))
    ensures Peek(ts).Word? && IsLogOption(Peek(ts).text) && TakesValue(Bump(ts)) ==>
      var next, pair := Bump(Bump(ts)), ts[..|ts| - |Bump(Bump(ts))|];
      && |ts| > 1 && pair == [ts[0], ts[1]] && SkipLog(ts) == SkipLog(next)
      && if ListedOption(ts[0].text, Bump(ts)) then
           LogKeeps(ts) == pair + LogKeeps(next) && LogDrops(ts) == LogDrops(next)
         else LogKeeps(ts) == LogKeeps(next) && LogDrops(ts) == pair + LogDrops(next)
  {
    hide Known, IsLogOption;
  }

  lemma {:induction false} LogSplits(ts: seq<Tok>)
    ensures |SkipLog(ts)| <= |ts| && Splits(Before(ts, SkipLog(ts)), LogKeeps(ts), LogDrops(ts))
    decreases |ts|
  {
    hide Known, KeywordOf, IsLogOption, ListedOption, TakesValue, Splits, Before, SkipLog, LogKeeps, LogDrops;
    LogStep(ts);
    var rest := SkipLog(ts);
    if Peek(ts).Word? && IsLogOption(Peek(ts).text) {
      var t := Bump(ts);
      if TakesValue(t) {
        LogSplits(Bump(t));
        BeforeStep(ts, rest);
        BeforeStep(t, rest);
        var more := Before(Bump(t), rest);
        assert Before(ts, rest) == [ts[0], ts[1]] + more;
        SplitsFront([ts[0], ts[1]], more, LogKeeps(Bump(t)), LogDrops(Bump(t)));
      } else {
        LogSplits(t);
        BeforeStep(ts, rest);
        SplitsFront([ts[0]], Before(t, rest), LogKeeps(t), LogDrops(t));
      }
    } else {
      BeforeNothing(ts);
      SplitsInTwo([], []);
    }
  }

  lemma RejectSplits(ts: seq<Tok>)
    requires Peek(ts) == Word("with")
    ensures Splits(Before(ts, SkipStatement(Bump(ts))), KeptBody(ts, OnReject, []), PassedBody(ts, OnReject))
  {
    hide ReasonRest, SkipStatement, KeptBody, PassedBody, Splits, Before;
    var t := Bump(ts);
    var mid, rest := ReasonRest(t), SkipStatement(t);
    ReasonSplits(t);
    ReasonBodies(ts);
    BeforeStep(ts, rest);
    BeforeJoins(t, mid, rest);
    SplitsInTwo([ts[0]] + Before(t, mid), Before(mid, rest));
    assert [ts[0]] + Before(t, mid) + Before(mid, rest) == [ts[0]] + (Before(t, mid) + Before(mid, rest));
  }

  lemma ReasonBodies(ts: seq<Tok>)
    requires Peek(ts) == Word("with")
    ensures KeptBody(ts, OnReject, []) == [ts[0]] + Before(Bump(ts), ReasonRest(Bump(ts)))
    ensures SkipStatement(ReasonRest(Bump(ts))) == SkipStatement(Bump(ts)) ==>
      PassedBody(ts, OnReject) == Before(ReasonRest(Bump(ts)), SkipStatement(Bump(ts)))
  {
    hide ReasonRest, SkipStatement, Before;
  }

  /** What one clause reads behind its word is what is kept of it and what is passed over. */
  lemma ClauseSplits(ts: seq<Tok>, k: Keyword, hook: Hook, st: RuleState)
    requires (k.OnPorts? ==> k.protocol <= 255) && Clause(ts, k, hook, st).Got?
    ensures var rest := Clause(ts, k, hook, st).rest; Splits(Before(ts, rest), KeptBody(ts, k, rest), PassedBody(ts, k))
  {
    hide IpMatch, MetaMatch, PortMatch, IfSpec, SkipCounter, SkipLog, SkipStatement, Canonical, WellSized, WithIif,
      CounterLength, LogKeeps, LogDrops, ReasonRest, Splits, Before;
    if k.OnCounter? {
      CounterSplits(ts);
    } else if k.OnLog? {
      LogSplits(ts);
    } else if k.OnReject? && Peek(ts) == Word("with") {
      RejectSplits(ts);
    } else {
      SplitsInTwo(Before(ts, Clause(ts, k, hook, st).rest), []);
    }
  }

  /** Every token read is kept or passed over, and with nothing passed over the rule read is kept
  word for word. */
  lemma {:induction false} StatementSplits(ts: seq<Tok>, hook: Hook, st: RuleState)
    requires Clauses(ts, hook, st).Got?
    ensures Splits(Before(ts, Clauses(ts, hook, st).rest), Kept(ts, hook, st), Passed(ts, hook, st))
    decreases |ts|
  {
    hide KeywordOf, Clause, Clauses, Canonical, WellSized, Kept, Passed, KeptBody, PassedBody, EndsStatement, Splits,
      Before, IsSuffix;
    var r := Clauses(ts, hook, st);
    if EndsStatement(Peek(ts)) {
      KeptAtEnd(ts, hook, st);
      SplitsInTwo([], []);
    } else {
      ClauseIsNotRefused(ts, hook, st);
      KeptStep(ts, hook, st);
      var k := KeywordOf(Peek(ts).text);
      var step := Clause(Bump(ts), k, hook, st);
      StatementSplits(step.rest, hook, step.value);
      ClauseSplits(Bump(ts), k, hook, st);
      BeforeStep(ts, r.rest);
      ClauseSuffix(Bump(ts), k, hook, st);
      BeforeJoins(Bump(ts), step.rest, r.rest);
      var kept, passed := KeptBody(Bump(ts), k, step.rest), PassedBody(Bump(ts), k);
      var keptLater, passedLater := Kept(step.rest, hook, step.value), Passed(step.rest, hook, step.value);
      SplitsInTwo([ts[0]], []);
      SplitsJoin(Before(Bump(ts), step.rest), Before(step.rest, r.rest), kept, keptLater, passed, passedLater);
      SplitsJoin([ts[0]], Before(Bump(ts), r.rest), [ts[0]], kept + keptLater, [], passed + passedLater);
      assert [ts[0]] + (kept + keptLater) == [ts[0]] + kept + keptLater;
      assert [] + (passed + passedLater) == passed + passedLater;
    }
  }

  lemma CounterExact(ts: seq<Tok>)
    ensures PassedBody(ts, OnCounter) == [] <==> CounterListed(ts)
    ensures NoneKnown(PassedBody(ts, OnCounter)) <==> CounterSpares(ts)
  {
    hide KeywordOf, IsKnownWord, Known, PassedBody, SkipCounter;
    ArgumentWords("packets");
    ArgumentWords("bytes");
    NumbersAreUnknown(ts);
    PassedByCounter(ts);
    var passed := PassedBody(ts, OnCounter);
    if passed != [] {
      if CounterLength(ts) == 0 && |passed| > 1 { assert passed[1] == ts[1]; }
      if CounterLength(ts) == 0 && |passed| > 3 { assert passed[3] == ts[3]; }
      if CounterLength(ts) == 2 && |passed| > 1 { assert passed[1] == ts[3]; }
    }
  }

  /** What a counter passes over, token by token. */
  lemma PassedByCounter(ts: seq<Tok>)
    ensures var n, passed := CounterLength(ts), PassedBody(ts, OnCounter);
      && (forall i | 0 <= i < |passed| :: n + i < |ts| && passed[i] == ts[n + i])
      && n + |passed| ==
         if Peek(ts) != Word("packets") then 0
         else if |ts| > 2 && ts[2] == Word("bytes") then Min(|ts|, 4)
         else Min(|ts|, 2)
  {
  }

  lemma NumbersAreUnknown(ts: seq<Tok>)
    ensures forall i | 0 <= i < |ts| && ts[i].Num? :: !Known(ts[i])
  {
  }

  lemma OptionIsUnknown(w: string)
    requires IsLogOption(w)
    ensures !Known(Word(w))
  {
    hide Known, KeywordOf;
    OptionIsArgument(w);
    ArgumentWords(w);
  }

  lemma {:induction false} LogExact(ts: seq<Tok>)
    ensures LogDrops(ts) == [] <==> LogListed(ts)
    ensures NoneKnown(LogDrops(ts)) <==> LogSpares(ts)
    decreases |ts|
  {
    hide Known, KeywordOf, IsLogOption, TakesValue;
    if Peek(ts).Word? && IsLogOption(Peek(ts).text) {
      var t := Bump(ts);
      OptionIsUnknown(ts[0].text);
      if TakesValue(t) {
        ValueIsThere(t);
        LogExact(Bump(t));
        NoneKnownJoins([ts[0], t[0]], LogDrops(Bump(t)));
        assert NoneKnown([ts[0], t[0]]) <==> !Known(t[0]) by { assert [ts[0], t[0]][1] == t[0]; }
      } else {
        LogExact(t);
        NoneKnownJoins([ts[0]], LogDrops(t));
      }
    }
  }

  lemma ValueIsThere(ts: seq<Tok>)
    requires TakesValue(ts)
    ensures ts != []
  {
  }

  lemma {:induction false} FromKnownIsEnd(ts: seq<Tok>)
    ensures EndsStatement(Peek(FromKnown(ts))) <==> NothingKnown(ts)
    decreases |ts|
  {
    hide IsKnownWord;
    if !Known(Peek(ts)) { FromKnownIsEnd(Bump(ts)); }
  }

  /** What is passed over behind a reject starts with a known token, or is nothing. */
  lemma ReasonExact(ts: seq<Tok>)
    requires Peek(ts) == Word("with")
    ensures PassedBody(ts, OnReject) == [] <==> ReasonListed(Bump(ts))
    ensures NoneKnown(PassedBody(ts, OnReject)) <==> ReasonListed(Bump(ts))
  {
    var t := Bump(ts);
    var rest := ReasonRest(t);
    ReasonSplits(t);
    FromKnownIsEnd(if IsTcpReset(t) then t[2..] else t);
    hide Known, FromKnown, NothingKnown;
    var passed := Before(rest, SkipStatement(rest));
    if !EndsStatement(Peek(rest)) {
      assert |SkipStatement(rest)| < |rest|;
      assert passed[0] == rest[0] == Peek(rest);
    }
  }

  lemma ClauseExact(ts: seq<Tok>, k: Keyword)
    ensures PassedBody(ts, k) == [] <==> ClauseListed(ts, k)
    ensures NoneKnown(PassedBody(ts, k)) <==> ClauseSpares(ts, k)
  {
    hide PassedBody, CounterListed, CounterSpares, LogListed, LogSpares, ReasonListed, Known;
    if k.OnCounter? {
      CounterExact(ts);
    } else if k.OnLog? {
      LogExact(ts);
      LogPassed(ts);
    } else if k.OnReject? && Peek(ts) == Word("with") {
      ReasonExact(ts);
    } else {
      NothingPassed(ts, k);
    }
  }

  lemma LogPassed(ts: seq<Tok>)
    ensures PassedBody(ts, OnLog) == LogDrops(ts)
  {
  }

  lemma NothingPassed(ts: seq<Tok>, k: Keyword)
    requires !k.OnCounter? && !k.OnLog? && !(k.OnReject? && Peek(ts) == Word("with"))
    ensures PassedBody(ts, k) == [] && NoneKnown([])
  {
  }

  lemma ConditionStep(ts: seq<Tok>, hook: Hook, st: RuleState)
    requires Clauses(ts, hook, st).Got? && !EndsStatement(Peek(ts)) && ts != []
    requires var step := Clause(Bump(ts), KeywordOf(Peek(ts).text), hook, st);
      step.Got? && |step.rest| < |ts| && Clauses(step.rest, hook, step.value).Got?
    ensures var k := KeywordOf(Peek(ts).text); var step := Clause(Bump(ts), k, hook, st);
      && (Listed(ts, hook, st) <==> ClauseListed(Bump(ts), k) && Listed(step.rest, hook, step.value))
      && (Spares(ts, hook, st) <==> ClauseSpares(Bump(ts), k) && Spares(step.rest, hook, step.value))
  {
    hide KeywordOf, Clause, Clauses, Canonical, WellSized, ClauseListed, ClauseSpares, EndsStatement;
  }

  lemma ConditionAtEnd(ts: seq<Tok>, hook: Hook, st: RuleState)
    requires EndsStatement(Peek(ts))
    ensures Clauses(ts, hook, st).Got? && Listed(ts, hook, st) && Spares(ts, hook, st) && NoneKnown([])
  {
  }

  /** Nothing is passed over exactly when every reached clause has its listed form, and nothing
  known is exactly when nothing known stands in the places that are not looked at. */
  lemma {:induction false} PassedExactly(ts: seq<Tok>, hook: Hook, st: RuleState)
    requires Clauses(ts, hook, st).Got?
    ensures Passed(ts, hook, st) == [] <==> Listed(ts, hook, st)
    ensures NoneKnown(Passed(ts, hook, st)) <==> Spares(ts, hook, st)
    decreases |ts|
  {
    hide KeywordOf, Clause, Clauses, Canonical, WellSized, Kept, Passed, Listed, Spares, KeptBody, PassedBody,
      ClauseListed, ClauseSpares, EndsStatement, Known;
    if EndsStatement(Peek(ts)) {
      KeptAtEnd(ts, hook, st);
      ConditionAtEnd(ts, hook, st);
    } else {
      ClauseIsNotRefused(ts, hook, st);
      KeptStep(ts, hook, st);
      ConditionStep(ts, hook, st);
      var k := KeywordOf(Peek(ts).text);
      var step := Clause(Bump(ts), k, hook, st);
      PassedExactly(step.rest, hook, step.value);
      ClauseExact(Bump(ts), k);
      NoneKnownJoins(PassedBody(Bump(ts), k), Passed(step.rest, hook, step.value));
    }
  }

  /** An accepted rule is made of listed forms, word for word, exactly when every counter it reaches
  takes numbers, every option of a log is listed and has an ordinary value, and every reason of a
  reject is `tcp reset` or has no known token in it. */
  lemma AcceptedRuleIsListedExactly(ts: seq<Tok>, hook: Hook)
    requires ParseRule(ts, hook).Got?
    ensures Kept(ts, hook, NewRule()) == Before(ts, ParseRule(ts, hook).rest) <==> Listed(ts, hook, NewRule())
  {
    hide Clauses, IsSound, Canonical, WellSized, Kept, Passed, Listed, Spares, Known;
    StatementSplits(ts, hook, NewRule());
    PassedExactly(ts, hook, NewRule());
  }

  /** What is left out of an accepted rule has no match, no verdict, no statement end, no named set
  and nothing that is refused by name in it exactly when none stands in such a place. */
  lemma AcceptedRuleLosesNothingExactly(ts: seq<Tok>, hook: Hook)
    requires ParseRule(ts, hook).Got?
    ensures var read := Before(ts, ParseRule(ts, hook).rest);
      var kept, passed := Kept(ts, hook, NewRule()), Passed(ts, hook, NewRule());
      multiset(read) == multiset(kept) + multiset(passed) && (NoneKnown(passed) <==> Spares(ts, hook, NewRule()))
  {
    hide Clauses, IsSound, Canonical, WellSized, Kept, Passed, Listed, Spares, Known;
    StatementSplits(ts, hook, NewRule());
    PassedExactly(ts, hook, NewRule());
  }

  // ------------------------------------------------- rules that lose something

  lemma NewRuleIsOpen()
    ensures NewRule().action == None
  {
  }

  lemma AcceptIsListed(ts: seq<Tok>)
    requires ts == [Word("accept")]
    ensures Clauses(ts, Input, NewRule()) == Got(NewRule().(action := Some(Accept)), [])
    ensures Listed(ts, Input, NewRule()) && Spares(ts, Input, NewRule())
  {
    hide KeywordOf, Canonical, WellSized, NewRule, Known, ClauseListed, ClauseSpares;
    NewRuleIsOpen();
    LastAccept(NewRule(), Input);
    Keywords();
    assert Bump(ts) == [];
    ConditionAtEnd([], Input, NewRule().(action := Some(Accept)));
    VerdictIsListed();
  }

  lemma VerdictIsListed()
    ensures ClauseListed([], OnVerdict(Accept)) && ClauseSpares([], OnVerdict(Accept))
  {
  }

  /** A rule of one clause without effect and an accept. */
  lemma {:induction false} OnlyAccept(ts: seq<Tok>, w: string, k: Keyword)
    requires ts != [] && ts[0] == Word(w) && KeywordOf(w) == k
    requires Clause(ts[1..], k, Input, NewRule()) == Got(NewRule(), [Word("accept")])
    ensures ParseRule(ts, Input) == Got((AnyMatch(), Accept), [])
    ensures Listed(ts, Input, NewRule()) <==> ClauseListed(ts[1..], k)
    ensures Spares(ts, Input, NewRule()) <==> ClauseSpares(ts[1..], k)
  {
    hide KeywordOf, Clause, Clauses, Canonical, WellSized, IsSound, ClauseListed, ClauseSpares, Listed, Spares, Known;
    OneClause(ts, Input, NewRule(), w, k);
    AcceptIsListed([Word("accept")]);
    AnyIsSound(Any, Accept);
    assert Bump(ts) == ts[1..];
    ConditionStep(ts, Input, NewRule());
  }

  /** Whatever follows `counter packets` is taken for a number. A rule that goes on with an accept
  is then an accept; it has its listed form only with a number, and it loses something exactly
  when the token is a known one. */
  lemma CounterTakesAnything(t: Tok)
    ensures var ts := [Word("counter"), Word("packets"), t, Word("accept")];
      && ParseRule(ts, Input) == Got((AnyMatch(), Accept), [])
      && (Listed(ts, Input, NewRule()) <==> t.Num?)
      && (Spares(ts, Input, NewRule()) <==> !Known(t))
  {
    var ts := [Word("counter"), Word("packets"), t, Word("accept")];
    hide KeywordOf, Known, Listed, Spares, ParseRule;
    Keywords();
    assert ts[1..] == [Word("packets"), t, Word("accept")] && ts[1..][1..][1..] == [Word("accept")];
    OnlyAccept(ts, "counter", OnCounter);
  }

  lemma KnownWords()
    ensures KeywordOf("log") == OnLog && KeywordOf("reject") == OnReject
    ensures Known(Word("drop")) && Known(Word("dnat")) && Known(Word("ip")) && Known(Break)
  {
  }

  /** So a verdict there is lost ... */
  lemma CounterSwallowsVerdict()
    ensures var ts := [Word("counter"), Word("packets"), Word("drop"), Word("accept")];
      && ParseRule(ts, Input) == Got((AnyMatch(), Accept), [])
      && !Spares(ts, Input, NewRule())
  {
    hide KeywordOf, Known, Listed, Spares, ParseRule;
    KnownWords();
    CounterTakesAnything(Word("drop"));
  }

  /** ... and address translation, which is to reject the whole file ... */
  lemma CounterSwallowsNat()
    ensures var ts := [Word("counter"), Word("packets"), Word("dnat"), Word("accept")];
      && ParseRule(ts, Input) == Got((AnyMatch(), Accept), [])
      && !Spares(ts, Input, NewRule())
  {
    hide KeywordOf, Known, Listed, Spares, ParseRule;
    KnownWords();
    CounterTakesAnything(Word("dnat"));
  }

  /** ... and the end of the line, which joins the next line to the rule. */
  lemma CounterSwallowsLineEnd()
    ensures var ts := [Word("counter"), Word("packets"), Break, Word("accept")];
      && ParseRule(ts, Input) == Got((AnyMatch(), Accept), [])
      && !Spares(ts, Input, NewRule())
  {
    hide KeywordOf, Known, Listed, Spares, ParseRule;
    KnownWords();
    CounterTakesAnything(Break);
  }

  /** A verdict after an option of `log` is taken for its value. */
  lemma LogSwallowsVerdict()
    ensures var ts := [Word("log"), Word("level"), Word("drop"), Word("accept")];
      && ParseRule(ts, Input) == Got((AnyMatch(), Accept), [])
      && !Spares(ts, Input, NewRule())
  {
    var ts := [Word("log"), Word("level"), Word("drop"), Word("accept")];
    hide KeywordOf, Known, SkipLog, LogSpares, LogListed, Spares, Listed, ParseRule;
    KnownWords();
    LevelTaken(ts[1..]);
    OnlyAccept(ts, "log", OnLog);
  }

  lemma LevelTaken(ts: seq<Tok>)
    requires ts == [Word("level"), Word("drop"), Word("accept")]
    ensures SkipLog(ts) == [Word("accept")] && !LogSpares(ts)
  {
    hide KeywordOf, Known;
    KnownWords();
    assert ts[1..][1..] == [Word("accept")];
  }

  /** A rule of a reject with a reason to the end of the statement. */
  lemma OnlyReject(ts: seq<Tok>)
    requires |ts| > 1 && ts[0] == Word("reject") && ts[1] == Word("with") && NoEndIn(ts[1..][1..])
    ensures ParseRule(ts, Input) == Got((AnyMatch(), Reject), [])
    ensures Spares(ts, Input, NewRule()) <==> ReasonListed(ts[1..][1..])
    ensures Listed(ts, Input, NewRule()) <==> ReasonListed(ts[1..][1..])
  {
    hide KeywordOf, SkipStatement, Canonical, WellSized, Clause, Known, ReasonListed, IsSound, Listed, Spares, NewRule;
    NewRuleIsOpen();
    KnownWords();
    var next := NewRule().(action := Some(Reject));
    assert ts[1..][1..] + [] == ts[1..][1..];
    NoEnds(ts[1..][1..], []);
    ReasonTaken(ts[1..], NewRule());
    OneClause(ts, Input, NewRule(), "reject", OnReject);
    assert Clauses([], Input, next) == Got(next, []);
    ConditionAtEnd([], Input, next);
    assert Bump(ts) == ts[1..];
    ConditionStep(ts, Input, NewRule());
    RejectIsSound(next);
  }

  lemma RejectIsSound(st: RuleState)
    requires st == NewRule().(action := Some(Reject))
    ensures IsSound(st) && st.matches == AnyMatch()
  {
    AnyIsSound(Any, Reject);
  }

  lemma ReasonTaken(ts: seq<Tok>, st: RuleState)
    requires Peek(ts) == Word("with") && SkipStatement(ts[1..]) == [] && st.action == None
    ensures Clause(ts, OnReject, Input, st) == Got(st.(action := Some(Reject)), [])
  {
    hide SkipStatement, Canonical, WellSized;
  }

  /** A match after `reject with` is taken for the reason ... */
  lemma RejectSwallowsMatch(address: U32)
    ensures var ts := [Word("reject"), Word("with"), Word("icmp"), Word("ip"), Word("saddr"), Ip(address)];
      && ParseRule(ts, Input) == Got((AnyMatch(), Reject), [])
      && !Spares(ts, Input, NewRule())
  {
    var ts := [Word("reject"), Word("with"), Word("icmp"), Word("ip"), Word("saddr"), Ip(address)];
    hide KeywordOf, Known, Spares, ParseRule, Listed, ReasonListed, NoEndIn;
    IcmpReason(ts[1..][1..]);
    OnlyReject(ts);
  }

  lemma IcmpReason(ts: seq<Tok>)
    requires |ts| == 4 && ts[..3] == [Word("icmp"), Word("ip"), Word("saddr")] && ts[3].Ip?
    ensures NoEndIn(ts) && !ReasonListed(ts)
  {
    hide ReasonListed;
    assert ts[0] == ts[..3][0] && ts[1] == ts[..3][1] && ts[2] == ts[..3][2];
    SecondWordKnown(ts);
  }

  lemma SecondWordKnown(ts: seq<Tok>)
    requires |ts| > 1 && !EndsStatement(ts[0]) && ts[0] != Word("tcp") && ts[1] == Word("ip")
    ensures !ReasonListed(ts)
  {
    KnownWords();
    hide KeywordOf, Known;
    assert Bump(ts)[0] == Word("ip") && !NothingKnown(Bump(ts));
  }

  /** ... while `tcp reset`, which starts like one, is a reason. */
  lemma TcpResetIsListed()
    ensures var ts := [Word("reject"), Word("with"), Word("tcp"), Word("reset")];
      && ParseRule(ts, Input) == Got((AnyMatch(), Reject), [])
      && Listed(ts, Input, NewRule())
  {
    hide KeywordOf, Known, Listed, Spares, ParseRule, ReasonListed, NoEndIn;
    var ts := [Word("reject"), Word("with"), Word("tcp"), Word("reset")];
    TcpResetReason(ts[1..][1..]);
    OnlyReject(ts);
  }

  lemma TcpResetReason(ts: seq<Tok>)
    requires ts == [Word("tcp"), Word("reset")]
    ensures ReasonListed(ts) && NoEndIn(ts)
  {
    hide KeywordOf;
    assert ts[2..] == [];
  }

  // ------------------------------------------------------------- chain heads

  /** The declaration of a chain that is accepted has a priority, or `device` and one more token in
  front of it, and reads the same without those two. */
  lemma DeviceExactly(ts: seq<Tok>)
    requires Priority(ts).Got?
    ensures Peek(ts) == Word("priority") <==> Peek(ts) != Word("device")
    ensures Peek(ts) == Word("device") ==>
      |ts| > 1 && Peek(ts[2..]) == Word("priority") && Priority(ts[2..]) == Priority(ts)
  {
    if Peek(ts) == Word("device") { assert Bump(Bump(ts)) == ts[1..][1..]; }
  }

  /** Whatever token follows `device` is skipped. */
  lemma DeviceTakesAnything(t: Tok, ts: seq<Tok>)
    requires Peek(ts) == Word("priority")
    ensures Priority([Word("device"), t] + ts) == Priority(ts)
  {
    assert ([Word("device"), t] + ts)[1..][1..] == ts;
  }

  /** So a chain reads the same without its device. */
  lemma ChainLosesDevice(ts: seq<Tok>)
    requires ParseChain(ts).Got?
    ensures var p := ChainHead(ts).rest; Peek(p) == Word("device") ==>
      |p| > 1 && ParseChain(Splice(ts, p, p[2..])) == ParseChain(ts)
  {
    var p := ChainHead(ts).rest;
    if Peek(p) == Word("device") {
      DeviceExactly(p);
      hide ChainHead, Priority, PolicyOf, RulesOf, Splice;
      HeadSplice(ts, p[2..]);
    }
  }
}
