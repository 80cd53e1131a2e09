/** Which chains come back from the file they are written to.

The table is the harness's own; the chain may have any name, and its interfaces any names at all. */
module Survival {
  import opened Wrappers
  import opened Intervals
  import opened Rules
  import opened Pieces
  import opened Names
  import E = Emitter
  import opened Printed
  import G = Grammar
  import opened RoundTrip
  import opened RoundTripExact
  import opened Origins
  import opened Stored
  import Parser

  /** The table the harness writes its chains to. */
  const TABLE: string := "fwdelta_diff"

  /** The bytes of the file of a chain. */
  function FileOf(table: string, c: Chain): string {
    Utf8All(Text(E.ChainPieces(table, c, false)))
  }

  /** What is read back is one chain. */
  predicate OneComesBack(table: string, c: Chain) {
    G.ChainsIn(FileOf(table, c)).Ok? && |G.ChainsIn(FileOf(table, c)).value| == 1
  }

  function WhatComesBack(table: string, c: Chain): Chain
    requires OneComesBack(table, c)
  {
    G.ChainsIn(FileOf(table, c)).value[0]
  }

  /** The chain can be written, and its file gives exactly one chain, the same. */
  predicate Survives(table: string, c: Chain) {
    E.AllExpressible(c.rules) && OneComesBack(table, c) && SameChain(WhatComesBack(table, c), c)
  }

  predicate AsciiMatch(m: Match) {
    m.iif.OneOf? ==> forall i | 0 <= i < |m.iif.names| :: IsAscii(m.iif.names[i])
  }

  predicate AsciiNames(c: Chain) {
    forall i | 0 <= i < |c.rules| :: AsciiMatch(c.rules[i].matches)
  }

  // -------------------------------------------------------- what the names say

  /** What the harness compares: everything but the name. */
  predicate SameBody(a: Chain, b: Chain) {
    && a.hook == b.hook && a.policy == b.policy && |a.rules| == |b.rules|
    && forall i | 0 <= i < |a.rules| ::
         a.rules[i].matches == b.rules[i].matches && a.rules[i].action == b.rules[i].action
  }

  predicate BodySurvives(table: string, c: Chain) {
    E.AllExpressible(c.rules) && OneComesBack(table, c) && SameBody(WhatComesBack(table, c), c)
  }

  lemma {:induction false} SameRulesWeight(a: seq<Rule>, b: seq<Rule>, ch: char)
    requires |a| == |b| && forall i | 0 <= i < |a| :: a[i].matches == b[i].matches
    ensures RulesWeight(a, ch) == RulesWeight(b, ch)
  {
    hide IifWeight, Canonical, WellSized;
    if a != [] { SameRulesWeight(a[..|a| - 1], b[..|b| - 1], ch); }
  }

  /** A chain that comes back has no backslash in its names, since reading halves them, and then no
  quote, since reading takes them away. */
  lemma NothingSpecial(table: string, c: Chain)
    requires LexableWord(table) && LexableWord(c.name) && BodySurvives(table, c)
    ensures RulesWeight(c.rules, '\\') == 0 && RulesWeight(c.rules, '"') == 0
  {
    hide E.AllExpressible, E.ChainPieces, Text, G.ChainsIn, Utf8All, RulesWeight, Count, LexableWord, ByteChain,
      Canonical, WellSized;
    var src, back := FileOf(table, c), WhatComesBack(table, c);
    BytesOfChain(table, c);
    BytesHaveNoMore(Text(E.ChainPieces(table, c, false)));
    FileNames(src);
    assert G.ChainsIn(src).value == [back];
    OneChain(back, '\\');
    OneChain(back, '"');
    SameRulesWeight(back.rules, c.rules, '\\');
    SameRulesWeight(back.rules, c.rules, '"');
  }

  /** No byte of another character is a backslash. */
  lemma {:induction false} BytesHaveNoMore(s: string)
    ensures Count(Utf8All(s), '\\') == Count(s, '\\')
  {
    if s != "" {
      BytesHaveNoMore(s[1..]);
      CountAppend(Utf8(s[0]), Utf8All(s[1..]), '\\');
      OneCharacter(s[0]);
      hide Utf8;
    }
  }

  lemma OneCharacter(c: char)
    ensures Count(Utf8(c), '\\') == if c == '\\' then 1 else 0
  {
    PlainBytes(c);
    if c != '\\' {
      OtherBytes(c);
      CountNone(Utf8(c), '\\');
    } else {
      assert Utf8(c) == "\\" && Utf8(c)[1..] == "";
    }
  }

  lemma OtherBytes(c: char)
    requires c != '\\'
    ensures '\\' !in Utf8(c)
  {
  }

  lemma {:induction false} NoNameHas(rules: seq<Rule>, ch: char, i: nat, j: nat)
    requires RulesWeight(rules, ch) == 0 && i < |rules| && rules[i].matches.iif.OneOf?
    requires j < |rules[i].matches.iif.names|
    ensures ch !in rules[i].matches.iif.names[j]
  {
    hide Canonical, WellSized, Count;
    if i == |rules| - 1 {
      NoneOfThemHas(rules[i].matches.iif.names, ch, j);
    } else {
      NoNameHas(rules[..|rules| - 1], ch, i, j);
    }
  }

  lemma {:induction false} NoneOfThemHas(names: seq<string>, ch: char, j: nat)
    requires NamesWeight(names, ch) == 0 && j < |names|
    ensures ch !in names[j]
  {
    hide Count;
    if j == 0 { CountNone(names[0], ch); } else { NoneOfThemHas(names[1..], ch, j - 1); }
  }

  /** The names of such a chain can be written, and so can their bytes. */
  lemma NamesCanBeWritten(table: string, c: Chain)
    requires LexableWord(table) && LexableWord(c.name)
    requires RulesWeight(c.rules, '\\') == 0 && RulesWeight(c.rules, '"') == 0
    ensures WordableChain(table, c) && WordableChain(table, ByteChain(c))
  {
    hide LexableWord, RulesWeight, ByteRule, Canonical, WellSized, ByteRules, WordableMatch;
    ByteRulesAt(c.rules);
    forall i | 0 <= i < |c.rules|
      ensures WordableMatch(c.rules[i].matches) && WordableMatch(ByteRules(c.rules)[i].matches)
    {
      MatchCanBeWritten(c.rules, i);
    }
  }

  lemma MatchCanBeWritten(rules: seq<Rule>, i: nat)
    requires RulesWeight(rules, '\\') == 0 && RulesWeight(rules, '"') == 0 && i < |rules|
    ensures WordableMatch(rules[i].matches) && WordableMatch(ByteRule(rules[i]).matches)
  {
    hide RulesWeight, Canonical, WellSized, Utf8All;
    var m := rules[i].matches;
    if m.iif.OneOf? {
      var names := m.iif.names;
      forall j | 0 <= j < |names|
        ensures PlainText(names[j]) && PlainText(ByteNames(names)[j])
      {
        NoNameHas(rules, '\\', i, j);
        NoNameHas(rules, '"', i, j);
        PlainIsPlainBytes(names[j]);
      }
    }
  }

  // ------------------------------------------------------------ and their bytes

  /** A name that is its own bytes is in ASCII. */
  lemma SameInBytes(m: Match)
    requires Said(WithIif(m, ByteIif(m.iif))) == m
    ensures AsciiMatch(m) && ByteIif(m.iif) == m.iif
  {
    hide Canonical, WellSized, IsFull, E.ProtoValue, Utf8All;
    if m.iif.OneOf? {
      var names := m.iif.names;
      assert ByteNames(names) == names;
      forall i | 0 <= i < |names|
        ensures IsAscii(names[i])
      {
        assert ByteNames(names)[i] == Utf8All(names[i]);
        AsciiIsItself(names[i]);
      }
    }
  }

  lemma AsciiIsSameInBytes(c: Chain)
    requires AsciiNames(c)
    ensures ByteChain(c) == c
  {
    hide Canonical, WellSized, ByteRules, AsciiMatch;
    ByteRulesAt(c.rules);
    forall i | 0 <= i < |c.rules|
      ensures ByteRule(c.rules[i]) == c.rules[i]
    {
      AsciiRule(c.rules[i]);
    }
    assert ByteRules(c.rules) == c.rules;
  }

  lemma AsciiRule(r: Rule)
    requires AsciiMatch(r.matches)
    ensures ByteRule(r) == r
  {
    hide Canonical, WellSized, Utf8All;
    if r.matches.iif.OneOf? {
      var names := r.matches.iif.names;
      forall i | 0 <= i < |names|
        ensures ByteNames(names)[i] == names[i]
      {
        AsciiIsItself(names[i]);
      }
      assert ByteNames(names) == names;
    }
  }

  lemma {:induction false} ByteExpressible(rules: seq<Rule>)
    ensures E.AllExpressible(ByteRules(rules)) <==> E.AllExpressible(rules)
  {
    hide Canonical, WellSized, ByteIif, E.Layer4, IsFull;
    ByteRulesAt(rules);
    assert forall i | 0 <= i < |rules| ::
      E.PortsExpressible(ByteRules(rules)[i].matches) <==> E.PortsExpressible(rules[i].matches);
  }

  /** When the body comes back, the names are their own bytes and the chain is printable. */
  lemma ComesBackInBytes(table: string, c: Chain)
    requires LexableWord(table) && LexableWord(c.name) && BodySurvives(table, c)
    requires WordableChain(table, c) && WordableChain(table, ByteChain(c))
    ensures AsciiNames(c)
  {
    hide E.AllExpressible, E.ChainPieces, Text, G.ChainsIn, Utf8All, LexableWord, WordableChain, PrintableChain,
      SaidChain, ByteRules, Renumbered;
    var said := SaidChain(ByteChain(c));
    BytesOfChain(table, c);
    ByteExpressible(c.rules);
    SaidComesBack(table, ByteChain(c));
    assert WhatComesBack(table, c) == Renumbered(said);
    SaidRulesOfBytes(c);
    forall i | 0 <= i < |c.rules|
      ensures AsciiMatch(c.rules[i].matches)
    {
      SameInBytes(c.rules[i].matches);
    }
  }

  lemma SaidRulesOfBytes(c: Chain)
    ensures var said := SaidChain(ByteChain(c));
      && |said.rules| == |c.rules|
      && forall i | 0 <= i < |c.rules| ::
           said.rules[i].matches == Said(WithIif(c.rules[i].matches, ByteIif(c.rules[i].matches.iif)))
  {
    hide Said, Canonical, WellSized, ByteIif, ByteRules, SaidRules;
    ByteRulesAt(c.rules);
    SaidRulesAt(ByteRules(c.rules));
  }

  // --------------------------------------------------------------- the theorem

  lemma FileOfAscii(table: string, c: Chain)
    requires LexableWord(table) && LexableWord(c.name) && AsciiNames(c)
    ensures FileOf(table, c) == Text(E.ChainPieces(table, c, false))
  {
    hide LexableWord, AsciiNames, ByteChain, Utf8All, Text, E.ChainPieces;
    AsciiIsSameInBytes(c);
    BytesOfChain(table, c);
  }

  /** The body of a chain whose name is a word comes back exactly when the chain is printable and
  its interface names are in ASCII. */
  lemma BodySurvivesExactly(table: string, c: Chain)
    requires LexableWord(table) && LexableWord(c.name)
    ensures BodySurvives(table, c) <==> PrintableChain(table, c) && AsciiNames(c)
    ensures BodySurvives(table, c) ==> Survives(table, c)
  {
    hide E.AllExpressible, E.ChainPieces, Text, G.ChainsIn, Utf8All, LexableWord, WordableChain, PrintableChain,
      AsciiNames, ByteChain, RulesWeight, Renumbered;
    if BodySurvives(table, c) {
      NothingSpecial(table, c);
      NamesCanBeWritten(table, c);
      ComesBackInBytes(table, c);
      FileOfAscii(table, c);
      BodyIsAll(table, c);
      RoundTripExactly(table, c);
    }
    if PrintableChain(table, c) && AsciiNames(c) {
      FileOfAscii(table, c);
      PrintableIsWordable(table, c);
      RoundTripExactly(table, c);
    }
  }

  /** The name comes back with the body. */
  lemma BodyIsAll(table: string, c: Chain)
    requires WordableChain(table, c) && BodySurvives(table, c)
    requires FileOf(table, c) == Text(E.ChainPieces(table, c, false))
    ensures RoundTrips(table, c) && Survives(table, c)
  {
    hide E.AllExpressible, E.ChainPieces, Text, G.ChainsIn, Utf8All, WordableChain, PrintableChain, SaidRules;
    SaidComesBack(table, c);
    assert SaidChain(c).name == c.name;
  }

  /** A chain written to a table comes back from its file, the same, exactly when it is printable
  and its interface names are in ASCII: whatever its name and its interfaces are called. */
  lemma SurvivesExactly(table: string, c: Chain)
    requires LexableWord(table)
    ensures Survives(table, c) <==> PrintableChain(table, c) && AsciiNames(c)
  {
    hide E.AllExpressible, E.ChainPieces, Text, G.ChainsIn, Utf8All, LexableWord, AsciiNames, PrintableRules, Canonical;
    if Survives(table, c) { FileNames(FileOf(table, c)); }
    if LexableWord(c.name) { BodySurvivesExactly(table, c); }
  }

  // ------------------------------------------------------- the harness check

  lemma TableIsWord()
    ensures LexableWord(TABLE)
  {
  }

  /** Emit the chain, parse its file back and compare header, verdicts and predicates. The answer is
  exact for every chain whose own name, which the harness does not compare, is a word. */
  method CheckRoundTrip(c: Chain) returns (ok: bool)
    ensures ok <==> BodySurvives(TABLE, c)
    ensures LexableWord(c.name) ==> (ok <==> PrintableChain(TABLE, c) && AsciiNames(c))
  {
    hide E.ChainPieces, Text, Utf8All, G.ChainsIn, E.AllExpressible, PrintableChain, AsciiNames, SameBody, LexableWord,
      Survives;
    TableIsWord();
    if LexableWord(c.name) { BodySurvivesExactly(TABLE, c); }
    var text := E.EmitChain(TABLE, c, false);
    if text.None? {
      return false;
    }
    var parsed := Parser.Parse(Utf8All(text.value));
    if parsed.Err? || |parsed.value| != 1 {
      return false;
    }
    ok := Compare(parsed.value[0], c);
  }

  // ------------------------------------------------- a name the harness loses

  /** The pieces of a chain in front of its name, and after it. */
  function UpToName(table: string): seq<Piece> {
    [Name("table"), Space, Name("ip"), Space] + [Name(table), Space, Mark('{'), NewLine]
    + [Space, Space, Name("chain"), Space]
  }

  function AfterName(c: Chain): seq<Piece> {
    [Space, Mark('{'), NewLine] + E.HookPieces(c) + E.RulesPieces(c.rules) + E.ClosePieces()
  }

  lemma AroundName(table: string, c: Chain)
    ensures E.ChainPieces(table, c, false) == UpToName(table) + ([Name(c.name)] + AfterName(c))
  {
    hide E.HookPieces, E.RulesPieces, E.ClosePieces;
    assert [Name(c.name), Space, Mark('{'), NewLine] == [Name(c.name)] + [Space, Mark('{'), NewLine];
  }

  lemma {:induction false} SpaceAddsNoToken(a: seq<Piece>, b: seq<Piece>, atStart: bool)
    ensures TokensFor(a + [Space] + b, atStart) == TokensFor(a + b, atStart)
  {
    if a == [] {
      assert a + [Space] + b == [Space] + b && a + b == b && ([Space] + b)[1..] == b;
    } else {
      assert (a + [Space] + b)[1..] == a[1..] + [Space] + b && (a + b)[1..] == a[1..] + b;
      SpaceAddsNoToken(a[1..], b, if a[0].Space? then atStart else IsSeparator(a[0]));
    }
  }

  lemma SpaceIsLexable(a: seq<Piece>, b: seq<Piece>)
    requires Lexable(a + b) && a != [] && a[|a| - 1].Space?
    ensures Lexable(a + [Space] + b)
  {
    hide LexableWord;
    var ps, qs := a + b, a + [Space] + b;
    forall i | 0 <= i < |qs|
      ensures LexablePiece(qs[i])
    {
      if i != |a| { assert qs[i] == ps[if i < |a| then i else i - 1]; }
    }
    forall i | 0 <= i < |qs| - 1
      ensures MayFollow(qs[i], qs[i + 1])
    {
      if i + 1 < |a| {
        assert MayFollow(ps[i], ps[i + 1]);
      } else if i > |a| {
        assert MayFollow(ps[i - 1], ps[i]);
      }
    }
  }

  /** A blank in front of the name is read as nothing. */
  lemma BlankIsSkipped(table: string, c: Chain)
    requires PrintableChain(table, c)
    ensures G.ChainsIn(Text(E.ChainPieces(table, c.(name := " " + c.name), false))) ==
      G.ChainsIn(Text(E.ChainPieces(table, c, false)))
  {
    hide E.ChainPieces, AfterName, Lexable, LexableWord, TokensFor, PrintableChain, G.TablesOf;
    var blank := c.(name := " " + c.name);
    var a, b := UpToName(table), [Name(c.name)] + AfterName(c);
    PrintableIsWordable(table, c);
    ChainLexable(table, c, false);
    AroundName(table, c);
    AroundName(table, blank);
    SameAfter(c, " " + c.name);
    SpaceIsLexable(a, b);
    SpaceAddsNoToken(a, b, true);
    LexPieces(a + b, true);
    LexPieces(a + [Space] + b, true);
    BlankText(a, c.name, AfterName(c));
  }

  lemma SameAfter(c: Chain, name: string)
    ensures AfterName(c.(name := name)) == AfterName(c)
  {
  }

  lemma BlankText(a: seq<Piece>, name: string, b: seq<Piece>)
    ensures Text(a + ([Name(" " + name)] + b)) == Text(a + [Space] + ([Name(name)] + b))
    ensures Text(a + ([Name(" " + name)] + b)) == Text(a) + (" " + name) + Text(b)
    ensures Text(a + ([Name(name)] + b)) == Text(a) + name + Text(b)
  {
    TextAppend(a, [Name(" " + name)] + b);
    TextAppend([Name(" " + name)], b);
    TextAppend(a + [Space], [Name(name)] + b);
    TextAppend(a, [Space]);
    TextAppend([Name(name)], b);
    TextAppend(a, [Name(name)] + b);
    E.TextOne(Name(" " + name));
    E.TextOne(Name(name));
    E.TextOne(Space);
    hide Text;
  }

  lemma BlankIsAscii(table: string, c: Chain)
    requires FileOf(table, c) == Text(E.ChainPieces(table, c, false))
    ensures var blank := c.(name := " " + c.name); FileOf(table, blank) == Text(E.ChainPieces(table, blank, false))
  {
    hide E.ChainPieces, AfterName, Utf8All, Text;
    AroundName(table, c);
    AroundName(table, c.(name := " " + c.name));
    SameAfter(c, " " + c.name);
    var a, b := Text(UpToName(table)), Text(AfterName(c));
    BlankText(UpToName(table), c.name, AfterName(c));
    AsciiIsItself(a + c.name + b);
    StillAscii(a, c.name, b);
    AsciiIsItself(a + (" " + c.name) + b);
  }

  lemma StillAscii(a: string, name: string, b: string)
    requires IsAscii(a + name + b)
    ensures IsAscii(a + (" " + name) + b)
  {
    var s, t := a + name + b, a + (" " + name) + b;
    forall i | 0 <= i < |t|
      ensures t[i] as nat < 0x80
    {
      if i != |a| { assert t[i] == s[if i < |a| then i else i - 1]; }
    }
  }

  /** So the comparison passes a chain whose name does not come back. */
  lemma BlankNameIsLost(table: string, c: Chain)
    requires PrintableChain(table, c) && AsciiNames(c)
    ensures var blank := c.(name := " " + c.name); BodySurvives(table, blank) && !Survives(table, blank)
  {
    hide PrintableRules, AsciiNames, E.AllExpressible, E.ChainPieces, Text, Utf8All, G.ChainsIn, LexableWord;
    BodySurvivesExactly(table, c);
    FileOfAscii(table, c);
    BlankIsAscii(table, c);
    BlankIsSkipped(table, c);
  }

  method Compare(back: Chain, c: Chain) returns (same: bool)
    ensures same <==> SameBody(back, c)
  {
    hide Canonical, WellSized;
    if back.policy != c.policy || back.hook != c.hook {
      return false;
    }
    if |back.rules| != |c.rules| {
      return false;
    }
    for i := 0 to |c.rules|
      invariant forall j | 0 <= j < i ::
        back.rules[j].matches == c.rules[j].matches && back.rules[j].action == c.rules[j].action
    {
      if c.rules[i].action != back.rules[i].action {
        return false;
      }
      if c.rules[i].matches != back.rules[i].matches {
        return false;
      }
    }
    same := true;
  }
}
