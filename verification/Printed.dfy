/** The tokens of printed chains: their text lexes back to exactly these. */
module Printed {
  import opened Wrappers
  import opened Arith
  import opened Intervals
  import opened Cidr
  import opened Rules
  import opened Lexer
  import opened Pieces
  import opened Emitter

  // ------------------------------------------------------------- composition

  /** A piece that may follow any other. */
  predicate Opens(q: Piece) {
    q.Space? || IsSeparator(q) || (q.Mark? && q.symbol != '-')
  }

  /** A piece that any other may follow. */
  predicate Closes(p: Piece) {
    p.Space? || IsSeparator(p) || p.Mark? || p.Quoted?
  }

  predicate Meets(a: seq<Piece>, b: seq<Piece>) {
    a == [] || b == [] || Closes(a[|a| - 1]) || Opens(b[0])
  }

  lemma LexableAppend(a: seq<Piece>, b: seq<Piece>)
    requires Lexable(a) && Lexable(b) && Meets(a, b)
    ensures Lexable(a + b)
  {
    forall i | 0 <= i < |a + b| - 1
      ensures MayFollow((a + b)[i], (a + b)[i + 1])
    {
      if i < |a| - 1 {
        assert MayFollow(a[i], a[i + 1]);
      } else if i >= |a| {
        assert MayFollow(b[i - |a|], b[i - |a| + 1]);
      }
    }
  }

  predicate NoSeparators(ps: seq<Piece>) {
    forall i | 0 <= i < |ps| :: !IsSeparator(ps[i])
  }

  /** The tokens of pieces without separators. */
  function Toks(ps: seq<Piece>): seq<Tok> {
    if ps == [] then []
    else if ps[0].Space? || IsSeparator(ps[0]) then Toks(ps[1..])
    else [TokenOf(ps[0])] + Toks(ps[1..])
  }

  lemma {:induction false} ToksAppend(a: seq<Piece>, b: seq<Piece>)
    ensures Toks(a + b) == Toks(a) + Toks(b)
  {
    if a == [] {
      assert a + b == b;
    } else {
      assert (a + b)[1..] == a[1..] + b;
      ToksAppend(a[1..], b);
    }
  }

  lemma {:induction false} TokensSplit(a: seq<Piece>, b: seq<Piece>, atStart: bool)
    requires NoSeparators(a)
    ensures TokensFor(a + b, atStart) == Toks(a) + TokensFor(b, atStart && Toks(a) == [])
  {
    if a == [] {
      assert a + b == b;
    } else {
      assert (a + b)[1..] == a[1..] + b;
      TokensSplit(a[1..], b, atStart && a[0].Space?);
    }
  }

  // ------------------------------------------------------------------- lists

  function ToksOf(parts: seq<seq<Piece>>): seq<seq<Tok>> {
    if parts == [] then [] else [Toks(parts[0])] + ToksOf(parts[1..])
  }

  lemma {:induction false} ToksOfSize(parts: seq<seq<Piece>>)
    ensures |ToksOf(parts)| == |parts|
  {
    if parts != [] { ToksOfSize(parts[1..]); }
  }

  lemma {:induction false} ToksOfAppend(a: seq<seq<Piece>>, b: seq<seq<Piece>>)
    ensures ToksOf(a + b) == ToksOf(a) + ToksOf(b)
  {
    if a == [] {
      assert a + b == b;
    } else {
      assert (a + b)[1..] == a[1..] + b;
      ToksOfAppend(a[1..], b);
    }
  }

  function JoinToks(parts: seq<seq<Tok>>, sep: seq<Tok>): seq<Tok> {
    if parts == [] then []
    else if |parts| == 1 then parts[0]
    else parts[0] + sep + JoinToks(parts[1..], sep)
  }

  lemma {:induction false} JoinedToks(parts: seq<seq<Piece>>, sep: seq<Piece>)
    ensures Toks(JoinPieces(parts, sep)) == JoinToks(ToksOf(parts), Toks(sep))
  {
    if |parts| > 1 {
      ToksOfSize(parts);
      assert ToksOf(parts)[1..] == ToksOf(parts[1..]);
      JoinedToks(parts[1..], sep);
      ToksAppend(parts[0] + sep, JoinPieces(parts[1..], sep));
      ToksAppend(parts[0], sep);
    }
  }

  /** A braced list of token groups, or the one group. */
  function BracedToks(parts: seq<seq<Tok>>): seq<Tok> {
    if |parts| == 1 then parts[0] else [Sym('{')] + JoinToks(parts, [Sym(',')]) + [Sym('}')]
  }

  lemma ToksTwo(a: Piece, b: Piece)
    ensures Toks([a, b]) == Toks([a]) + Toks([b])
  {
    assert [a, b] == [a] + [b];
    ToksAppend([a], [b]);
  }

  lemma ToksOne(a: Piece)
    ensures Toks([a]) == if a.Space? || IsSeparator(a) then [] else [TokenOf(a)]
  {
    assert [a][1..] == [];
    assert Toks([]) == [];
  }

  lemma ToksFour(a: Piece, b: Piece, c: Piece, d: Piece)
    ensures Toks([a, b, c, d]) == Toks([a]) + Toks([b]) + Toks([c]) + Toks([d])
  {
    assert [a, b, c, d] == [a, b] + [c, d];
    ToksAppend([a, b], [c, d]);
    ToksTwo(a, b);
    ToksTwo(c, d);
  }

  lemma BracedListToks(parts: seq<seq<Piece>>)
    ensures Toks(BracedPieces(parts)) == BracedToks(ToksOf(parts))
  {
    ToksOfSize(parts);
    if |parts| == 1 {
      assert ToksOf(parts)[0] == Toks(parts[0]);
    } else {
      hide Toks, ToksOf, JoinPieces, JoinToks;
      JoinedToks(parts, [Mark(','), Space]);
      var inner := JoinPieces(parts, [Mark(','), Space]);
      ToksAppend([Mark('{'), Space] + inner, [Space, Mark('}')]);
      ToksAppend([Mark('{'), Space], inner);
      ToksTwo(Mark(','), Space);
      ToksTwo(Mark('{'), Space);
      ToksTwo(Space, Mark('}'));
      ToksOne(Space);
      ToksOne(Mark(','));
      ToksOne(Mark('{'));
      ToksOne(Mark('}'));
      assert [Sym(',')] + [] == [Sym(',')];
    }
  }

  /** Parts that can stand next to a comma or a brace. */
  ghost predicate LexableParts(parts: seq<seq<Piece>>) {
    forall i | 0 <= i < |parts| :: parts[i] != [] && Lexable(parts[i]) && NoSeparators(parts[i])
  }

  lemma {:induction false} JoinLexable(parts: seq<seq<Piece>>, sep: seq<Piece>)
    requires LexableParts(parts) && Lexable(sep) && NoSeparators(sep) && sep != []
    requires Opens(sep[0]) && Closes(sep[|sep| - 1])
    ensures Lexable(JoinPieces(parts, sep)) && NoSeparators(JoinPieces(parts, sep))
    ensures parts != [] ==> JoinPieces(parts, sep) != [] && JoinPieces(parts, sep)[0] == parts[0][0]
  {
    hide Lexable;
    if parts == [] {
      assert Lexable([]) by { NothingLexable(); }
    } else if |parts| > 1 {
      JoinLexable(parts[1..], sep);
      LexableAppend(parts[0], sep);
      LexableAppend(parts[0] + sep, JoinPieces(parts[1..], sep));
    }
  }

  lemma NothingLexable()
    ensures Lexable([])
  {
  }

  lemma BracedLexable(parts: seq<seq<Piece>>)
    requires LexableParts(parts)
    ensures Lexable(BracedPieces(parts)) && NoSeparators(BracedPieces(parts)) && BracedPieces(parts) != []
  {
    if |parts| != 1 {
      var open, inner, close := [Mark('{'), Space], JoinPieces(parts, [Mark(','), Space]), [Space, Mark('}')];
      JoinLexable(parts, [Mark(','), Space]);
      LexableAppend(open, inner);
      LexableAppend(open + inner, close);
    }
  }

  // ----------------------------------------------------------- clause tokens

  function NameToks(names: seq<string>): seq<seq<Tok>> {
    if names == [] then [] else [[Str(names[0])]] + NameToks(names[1..])
  }

  function BlockTok(c: Cidr): seq<Tok>
    requires c.base < 0x1_0000_0000
  {
    if c.len == 32 then [Ip(c.base)] else [Ip(c.base), Sym('/'), Num(c.len)]
  }

  function BlockToks(cs: seq<Cidr>): seq<seq<Tok>>
    requires AreAddresses(cs)
  {
    if cs == [] then [] else [BlockTok(cs[0])] + BlockToks(cs[1..])
  }

  function RunTok(r: Range): seq<Tok> {
    if r.0 == r.1 then [Num(r.0)] else [Num(r.0), Sym('-'), Num(r.1)]
  }

  function RunToks(rs: seq<Range>): seq<seq<Tok>> {
    if rs == [] then [] else [RunTok(rs[0])] + RunToks(rs[1..])
  }

  function IifToks(m: IfMatch): seq<Tok> {
    if m.OneOf? then [Word("iifname")] + BracedToks(NameToks(m.names)) else []
  }

  function ProtoToks(s: IntervalSet): seq<Tok> {
    match ProtoValue(s)
    case Some(v) => [Word("meta"), Word("l4proto"), TokenOf(ProtoPiece(v))]
    case None => []
  }

  function AddressToks(keyword: string, s: IntervalSet): seq<Tok>
    requires s.bits == 32
  {
    PrefixesAreAddresses(s);
    if IsFull(s) then [] else [Word("ip"), Word(keyword)] + BracedToks(BlockToks(SetToPrefixes(s)))
  }

  function PortToks(proto: string, keyword: string, s: IntervalSet): seq<Tok> {
    if IsFull(s) then [] else [Word(proto), Word(keyword)] + BracedToks(RunToks(s.ranges))
  }

  function VerdictToks(r: Rule): seq<Tok> {
    [Word("counter"), Word(ActionWord(r.action)), Word("comment"), Str("r" + Decimal(r.number))]
  }

  function MatchToks(m: Match): seq<Tok> {
    IifToks(m.iif) + ProtoToks(m.proto) + AddressToks("saddr", m.srcAddr) + AddressToks("daddr", m.dstAddr)
    + PortToks(Layer4(m.proto), "sport", m.srcPort) + PortToks(Layer4(m.proto), "dport", m.dstPort)
  }

  function RuleToks(r: Rule): seq<Tok> {
    MatchToks(r.matches) + VerdictToks(r)
  }

  // ------------------------------------------------- pieces are these tokens

  lemma {:induction false} NameAtomsToks(names: seq<string>)
    ensures ToksOf(NameAtoms(names)) == NameToks(names)
  {
    if names != [] {
      NameAtomsToks(names[1..]);
      ToksOne(Quoted(names[0]));
    }
  }

  lemma AddressAtomToks(c: Cidr)
    requires c.base < 0x1_0000_0000
    ensures Toks(AddressAtom(c)) == BlockTok(c)
  {
    if c.len == 32 {
      ToksOne(Quad(c.base));
    } else {
      assert AddressAtom(c) == [Quad(c.base), Mark('/')] + [Number(c.len)];
      ToksAppend([Quad(c.base), Mark('/')], [Number(c.len)]);
      ToksTwo(Quad(c.base), Mark('/'));
      ToksOne(Quad(c.base));
      ToksOne(Mark('/'));
      ToksOne(Number(c.len));
    }
  }

  lemma {:induction false} AddressAtomsToks(cs: seq<Cidr>)
    requires AreAddresses(cs)
    ensures ToksOf(AddressAtoms(cs)) == BlockToks(cs)
  {
    hide AddressAtom, BlockTok, Toks;
    if cs != [] {
      AddressAtomsToks(cs[1..]);
      AddressAtomToks(cs[0]);
    }
  }

  lemma PortAtomToks(r: Range)
    ensures Toks(PortAtom(r)) == RunTok(r)
  {
    if r.0 == r.1 {
      ToksOne(Number(r.0));
    } else {
      assert PortAtom(r) == [Number(r.0), Mark('-')] + [Number(r.1)];
      ToksAppend([Number(r.0), Mark('-')], [Number(r.1)]);
      ToksTwo(Number(r.0), Mark('-'));
      ToksOne(Number(r.0));
      ToksOne(Mark('-'));
      ToksOne(Number(r.1));
    }
  }

  lemma {:induction false} PortAtomsToks(rs: seq<Range>)
    ensures ToksOf(PortAtoms(rs)) == RunToks(rs)
  {
    hide PortAtom, RunTok, Toks;
    if rs != [] {
      PortAtomsToks(rs[1..]);
      PortAtomToks(rs[0]);
    }
  }

  /** Clauses run together. */
  function Flat(parts: seq<seq<Tok>>): seq<Tok> {
    JoinToks(parts, [])
  }

  lemma {:induction false} FlatAppend(a: seq<seq<Tok>>, b: seq<seq<Tok>>)
    ensures Flat(a + b) == Flat(a) + Flat(b)
  {
    if a == [] {
      assert a + b == b;
    } else {
      assert (a + b)[1..] == a[1..] + b;
      FlatAppend(a[1..], b);
      FlatCons(a);
      FlatCons(a + b);
    }
  }

  lemma FlatCons(a: seq<seq<Tok>>)
    requires a != []
    ensures Flat(a) == a[0] + Flat(a[1..])
  {
    if |a| == 1 {
      assert a[1..] == [];
    } else {
      assert a[0] + [] == a[0];
    }
  }

  lemma FlatOne(a: seq<Tok>)
    ensures Flat([a]) == a && Flat([]) == []
  {
  }

  lemma OneToks(ps: seq<Piece>)
    ensures ToksOf([ps]) == [Toks(ps)] && ToksOf([]) == []
  {
    assert [ps][1..] == [];
  }

  lemma KeywordToks(first: string, second: string, list: seq<Piece>)
    ensures Toks([Name(first), Space, Name(second), Space] + list) == [Word(first), Word(second)] + Toks(list)
  {
    hide Toks;
    ToksAppend([Name(first), Space, Name(second), Space], list);
    ToksFour(Name(first), Space, Name(second), Space);
    ToksOne(Name(first));
    ToksOne(Name(second));
    ToksOne(Space);
    assert [Word(first)] + [] + [Word(second)] + [] == [Word(first), Word(second)];
  }

  lemma IifClauseToks(m: IfMatch)
    ensures Flat(ToksOf(IifClauses(m))) == IifToks(m)
  {
    hide Toks, ToksOf, Flat, BracedPieces, BracedToks, NameAtoms, NameToks;
    OneToks([]);
    FlatOne([]);
    if m.OneOf? {
      NameAtomsToks(m.names);
      BracedListToks(NameAtoms(m.names));
      ToksTwo(Name("iifname"), Space);
      ToksOne(Name("iifname"));
      ToksOne(Space);
      assert [Word("iifname")] + [] == [Word("iifname")];
      ToksAppend([Name("iifname"), Space], BracedPieces(NameAtoms(m.names)));
      OneToks([Name("iifname"), Space] + BracedPieces(NameAtoms(m.names)));
      FlatOne(IifToks(m));
    }
  }

  lemma ProtoClauseToks(s: IntervalSet)
    ensures Flat(ToksOf(ProtoClauses(s))) == ProtoToks(s)
  {
    hide Toks, ToksOf, Flat, ProtoValue;
    OneToks([]);
    FlatOne([]);
    if ProtoValue(s).Some? {
      var p := ProtoPiece(ProtoValue(s).value);
      ToksOne(p);
      KeywordToks("meta", "l4proto", [p]);
      OneToks([Name("meta"), Space, Name("l4proto"), Space] + [p]);
      assert ProtoToks(s) == [Word("meta"), Word("l4proto")] + [TokenOf(p)];
      FlatOne(ProtoToks(s));
    }
  }

  lemma AddressClauseToks(keyword: string, s: IntervalSet)
    requires s.bits == 32
    ensures Flat(ToksOf(AddressClauses(keyword, s))) == AddressToks(keyword, s)
  {
    hide Toks, ToksOf, Flat, BracedPieces, BracedToks, AddressAtoms, BlockToks, IsFull, SetToPrefixes, AreAddresses,
      Canonical;
    OneToks([]);
    FlatOne([]);
    PrefixesAreAddresses(s);
    if !IsFull(s) {
      var atoms := AddressAtoms(SetToPrefixes(s));
      AddressAtomsToks(SetToPrefixes(s));
      BracedListToks(atoms);
      KeywordToks("ip", keyword, BracedPieces(atoms));
      OneToks([Name("ip"), Space, Name(keyword), Space] + BracedPieces(atoms));
      FlatOne(AddressToks(keyword, s));
    }
  }

  lemma PortClauseToks(proto: string, keyword: string, s: IntervalSet)
    ensures Flat(ToksOf(PortClauses(proto, keyword, s))) == PortToks(proto, keyword, s)
  {
    hide Toks, ToksOf, Flat, BracedPieces, BracedToks, PortAtoms, RunToks, IsFull, Canonical;
    OneToks([]);
    FlatOne([]);
    if !IsFull(s) {
      PortAtomsToks(s.ranges);
      BracedListToks(PortAtoms(s.ranges));
      KeywordToks(proto, keyword, BracedPieces(PortAtoms(s.ranges)));
      OneToks([Name(proto), Space, Name(keyword), Space] + BracedPieces(PortAtoms(s.ranges)));
      FlatOne(PortToks(proto, keyword, s));
    }
  }

  lemma VerdictClauseToks(r: Rule)
    ensures Toks(VerdictClause(r)) == VerdictToks(r)
  {
    hide Toks, Decimal, ActionWord;
    var q := Quoted("r" + Decimal(r.number));
    ToksOne(q);
    ToksOne(Name("comment"));
    ToksOne(Space);
    ToksTwo(Name("comment"), Space);
    ToksAppend([Name("comment"), Space], [q]);
    assert VerdictClause(r) == [Name("counter"), Space, Name(ActionWord(r.action)), Space]
      + ([Name("comment"), Space] + [q]);
    KeywordToks("counter", ActionWord(r.action), [Name("comment"), Space] + [q]);
  }

  lemma MatchClauseToks(m: Match)
    ensures Flat(ToksOf(MatchClauses(m))) == MatchToks(m)
  {
    var a, b, c, d, e, f := IifClauses(m.iif), ProtoClauses(m.proto), AddressClauses("saddr", m.srcAddr),
      AddressClauses("daddr", m.dstAddr), PortClauses(Layer4(m.proto), "sport", m.srcPort),
      PortClauses(Layer4(m.proto), "dport", m.dstPort);
    hide ToksOf, Flat, Canonical, WellSized, IifClauses, ProtoClauses, AddressClauses, PortClauses,
      IifToks, ProtoToks, AddressToks, PortToks;
    FlatOf(a, b);
    FlatOf(a + b, c);
    FlatOf(a + b + c, d);
    FlatOf(a + b + c + d, e);
    FlatOf(a + b + c + d + e, f);
    IifClauseToks(m.iif);
    ProtoClauseToks(m.proto);
    AddressClauseToks("saddr", m.srcAddr);
    AddressClauseToks("daddr", m.dstAddr);
    PortClauseToks(Layer4(m.proto), "sport", m.srcPort);
    PortClauseToks(Layer4(m.proto), "dport", m.dstPort);
  }

  lemma FlatOf(a: seq<seq<Piece>>, b: seq<seq<Piece>>)
    ensures Flat(ToksOf(a + b)) == Flat(ToksOf(a)) + Flat(ToksOf(b))
  {
    ToksOfAppend(a, b);
    FlatAppend(ToksOf(a), ToksOf(b));
  }

  lemma RulePiecesToks(r: Rule)
    ensures Toks(RulePieces(r)) == RuleToks(r)
  {
    hide Toks, ToksOf, Flat, JoinPieces, MatchClauses, VerdictClause, MatchToks, VerdictToks, WellSized;
    var parts := MatchClauses(r.matches) + [VerdictClause(r)];
    JoinedToks(parts, [Space]);
    ToksOne(Space);
    FlatIs(ToksOf(parts));
    FlatOf(MatchClauses(r.matches), [VerdictClause(r)]);
    MatchClauseToks(r.matches);
    OneToks(VerdictClause(r));
    VerdictClauseToks(r);
    FlatOne(VerdictToks(r));
    ToksAppend(Indent(), JoinPieces(parts, [Space]));
    ToksFour(Space, Space, Space, Space);
    assert [] + RuleToks(r) == RuleToks(r);
  }

  lemma FlatIs(parts: seq<seq<Tok>>)
    ensures JoinToks(parts, []) == Flat(parts)
  {
  }

  // --------------------------------------------------------------- printable

  /** A name that can stand between quotes. */
  predicate QuotableName(n: string) {
    PlainText(n)
  }

  /** ... and that the frontend does not take for a wildcard. */
  predicate PlainName(n: string) {
    QuotableName(n) && '*' !in n
  }

  /** The interface names can be written down. */
  predicate WordableMatch(m: Match) {
    m.iif.OneOf? ==> forall i | 0 <= i < |m.iif.names| :: QuotableName(m.iif.names[i])
  }

  predicate WordableChain(table: string, c: Chain) {
    LexableWord(table) && LexableWord(c.name) && forall i | 0 <= i < |c.rules| :: WordableMatch(c.rules[i].matches)
  }

  predicate PrintableIif(m: IfMatch, hook: Hook) {
    m.Any? || (m.OneOf? && m.names != [] && hook != Output && forall i | 0 <= i < |m.names| :: PlainName(m.names[i]))
  }

  /** What the emitter and the frontend both have a way to say: interfaces by name and not on the
  output hook, the protocol free or a single one, ports only under tcp or udp, nothing empty. */
  predicate PrintableMatch(m: Match, hook: Hook) {
    && PrintableIif(m.iif, hook) && m.oif.Any?
    && (IsFull(m.proto) || ProtoValue(m.proto).Some?)
    && ((IsFull(m.srcPort) && IsFull(m.dstPort)) || ProtoValue(m.proto) == Some(6) || ProtoValue(m.proto) == Some(17))
    && !IsUnsatisfiable(m)
  }

  predicate PrintableRules(rules: seq<Rule>, hook: Hook) {
    forall i | 0 <= i < |rules| :: PrintableMatch(rules[i].matches, hook)
  }

  predicate PrintableChain(table: string, c: Chain) {
    && LexableWord(table) && LexableWord(c.name)
    && (c.policy.Accept? || c.policy.Drop?)
    && PrintableRules(c.rules, c.hook)
  }

  lemma PrintableIsExpressible(m: Match, hook: Hook)
    requires PrintableMatch(m, hook)
    ensures PortsExpressible(m) && WordableMatch(m)
  {
  }

  lemma PrintableIsWordable(table: string, c: Chain)
    requires PrintableChain(table, c)
    ensures WordableChain(table, c) && AllExpressible(c.rules)
  {
    hide PortsExpressible, PrintableMatch, LexableWord, WordableMatch;
    forall i | 0 <= i < |c.rules|
      ensures PortsExpressible(c.rules[i].matches) && WordableMatch(c.rules[i].matches)
    {
      PrintableIsExpressible(c.rules[i].matches, c.hook);
    }
  }

  // -------------------------------------------------------- lexable clauses

  lemma WordsOne()
    ensures LexableWord("iifname") && LexableWord("meta") && LexableWord("l4proto") && LexableWord("ip")
    ensures LexableWord("saddr") && LexableWord("daddr")
  {
    hide LexableWord;
    MatchWords();
    AddressWords();
  }

  lemma MatchWords()
    ensures LexableWord("iifname") && LexableWord("meta") && LexableWord("l4proto")
  {
  }

  lemma AddressWords()
    ensures LexableWord("ip") && LexableWord("saddr") && LexableWord("daddr")
  {
  }

  lemma WordsTwo()
    ensures LexableWord("sport") && LexableWord("dport") && LexableWord("tcp") && LexableWord("udp")
      && LexableWord("icmp")
  {
  }

  lemma WordsThree()
    ensures LexableWord("counter") && LexableWord("comment") && LexableWord("accept") && LexableWord("drop")
      && LexableWord("reject")
  {
    hide LexableWord;
    StatementWords();
    VerdictWords();
  }

  lemma StatementWords()
    ensures LexableWord("counter") && LexableWord("comment")
  {
  }

  lemma VerdictWords()
    ensures LexableWord("accept") && LexableWord("drop") && LexableWord("reject")
  {
  }

  lemma WordsFour()
    ensures LexableWord("table") && LexableWord("chain") && LexableWord("type") && LexableWord("filter")
  {
  }

  lemma WordsFive()
    ensures LexableWord("input") && LexableWord("output") && LexableWord("forward")
  {
  }

  lemma WordsSix()
    ensures LexableWord("hook") && LexableWord("priority") && LexableWord("policy")
  {
  }

  lemma {:induction false} NameAtomsLexable(names: seq<string>)
    requires forall i | 0 <= i < |names| :: PlainText(names[i])
    ensures LexableParts(NameAtoms(names))
  {
    if names != [] { NameAtomsLexable(names[1..]); }
  }

  lemma {:induction false} AddressAtomsLexable(cs: seq<Cidr>)
    requires AreAddresses(cs) && forall c | c in cs :: c.len <= 32
    ensures LexableParts(AddressAtoms(cs))
  {
    if cs != [] {
      assert cs[0] in cs;
      AddressAtomsLexable(cs[1..]);
      assert Lexable(AddressAtom(cs[0]));
    }
  }

  lemma {:induction false} PortAtomsLexable(rs: seq<Range>)
    requires forall i | 0 <= i < |rs| :: rs[i].0 <= U64_MAX && rs[i].1 <= U64_MAX
    ensures LexableParts(PortAtoms(rs))
  {
    if rs != [] {
      PortAtomsLexable(rs[1..]);
      assert Lexable(PortAtom(rs[0]));
    }
  }

  lemma KeywordLexable(first: string, second: string, list: seq<Piece>)
    requires LexableWord(first) && LexableWord(second) && Lexable(list) && NoSeparators(list)
    ensures Lexable([Name(first), Space, Name(second), Space] + list)
    ensures NoSeparators([Name(first), Space, Name(second), Space] + list)
  {
    hide LexableWord;
    LexableAppend([Name(first), Space, Name(second), Space], list);
  }

  lemma IifLexable(m: IfMatch)
    requires m.OneOf? ==> forall i | 0 <= i < |m.names| :: QuotableName(m.names[i])
    ensures LexableParts(IifClauses(m))
  {
    hide BracedPieces, Lexable, LexableWord, NameAtoms;
    if m.OneOf? {
      WordsOne();
      forall i | 0 <= i < |m.names|
        ensures PlainText(m.names[i])
      {
        assert QuotableName(m.names[i]);
      }
      NameAtomsLexable(m.names);
      BracedLexable(NameAtoms(m.names));
      WordSpaceLexable("iifname");
      LexableAppend([Name("iifname"), Space], BracedPieces(NameAtoms(m.names)));
    }
  }

  lemma WordSpaceLexable(w: string)
    requires LexableWord(w)
    ensures Lexable([Name(w), Space])
  {
  }

  lemma ProtoLexable(s: IntervalSet)
    requires s.bits == 8
    ensures LexableParts(ProtoClauses(s))
  {
    if ProtoValue(s).Some? {
      var v := ProtoValue(s).value;
      assert v <= DomainMax(8) <= U64_MAX by { Pow2Table(); }
      WordsOne();
      WordsTwo();
      var p := ProtoPiece(v);
      assert LexablePiece(p) by { hide LexableWord; }
      hide LexablePiece, ProtoPiece, LexableWord;
      assert Lexable([p]);
      assert NoSeparators([p]) by { ProtoIsToken(v); }
      KeywordLexable("meta", "l4proto", [p]);
    }
  }

  lemma ProtoIsToken(v: nat)
    ensures !IsSeparator(ProtoPiece(v))
  {
  }

  lemma BlocksFit(s: IntervalSet)
    requires s.bits == 32
    ensures AreAddresses(SetToPrefixes(s)) && forall c | c in SetToPrefixes(s) :: c.len <= 32
  {
    PrefixesAreAddresses(s);
    SetToPrefixesExact(s, 0);
  }

  lemma AddressLexable(keyword: string, s: IntervalSet)
    requires s.bits == 32 && LexableWord(keyword)
    ensures LexableParts(AddressClauses(keyword, s))
  {
    hide BracedPieces, Lexable, LexableWord, AddressAtoms, SetToPrefixes, AreAddresses, Canonical, IsFull;
    if !IsFull(s) {
      WordsOne();
      BlocksFit(s);
      AddressAtomsLexable(SetToPrefixes(s));
      BracedLexable(AddressAtoms(SetToPrefixes(s)));
      KeywordLexable("ip", keyword, BracedPieces(AddressAtoms(SetToPrefixes(s))));
    }
  }

  lemma PortsFit(s: IntervalSet)
    requires s.bits == 16
    ensures forall i | 0 <= i < |s.ranges| :: s.ranges[i].0 <= s.ranges[i].1 <= 65535 <= U64_MAX
  {
    Pow2Table();
  }

  lemma PortLexable(proto: string, keyword: string, s: IntervalSet)
    requires s.bits == 16 && LexableWord(proto) && LexableWord(keyword)
    ensures LexableParts(PortClauses(proto, keyword, s))
  {
    hide BracedPieces, Lexable, LexableWord, PortAtoms, Canonical, IsFull;
    if !IsFull(s) {
      PortsFit(s);
      PortAtomsLexable(s.ranges);
      BracedLexable(PortAtoms(s.ranges));
      KeywordLexable(proto, keyword, BracedPieces(PortAtoms(s.ranges)));
    }
  }

  lemma PartsAppend(a: seq<seq<Piece>>, b: seq<seq<Piece>>)
    requires LexableParts(a) && LexableParts(b)
    ensures LexableParts(a + b)
  {
    hide Lexable;
  }

  lemma Layer4Word(s: IntervalSet)
    ensures LexableWord(Layer4(s))
  {
    WordsOne();
    WordsTwo();
    hide LexableWord;
  }

  lemma MatchLexable(m: Match)
    requires WordableMatch(m)
    ensures LexableParts(MatchClauses(m))
  {
    var a, b, c, d, e, f := IifClauses(m.iif), ProtoClauses(m.proto), AddressClauses("saddr", m.srcAddr),
      AddressClauses("daddr", m.dstAddr), PortClauses(Layer4(m.proto), "sport", m.srcPort),
      PortClauses(Layer4(m.proto), "dport", m.dstPort);
    hide Lexable, LexableParts, LexableWord, Canonical, IifClauses, ProtoClauses, AddressClauses, PortClauses,
      Layer4, ProtoValue, IsFull;
    WordsOne();
    WordsTwo();
    Layer4Word(m.proto);
    IifLexable(m.iif);
    ProtoLexable(m.proto);
    AddressLexable("saddr", m.srcAddr);
    AddressLexable("daddr", m.dstAddr);
    PortLexable(Layer4(m.proto), "sport", m.srcPort);
    PortLexable(Layer4(m.proto), "dport", m.dstPort);
    PartsAppend(a, b);
    PartsAppend(a + b, c);
    PartsAppend(a + b + c, d);
    PartsAppend(a + b + c + d, e);
    PartsAppend(a + b + c + d + e, f);
  }

  lemma CommentLexable(number: nat)
    ensures var q := [Quoted("r" + Decimal(number))]; Lexable(q) && NoSeparators(q)
  {
    hide Decimal;
    var digits := Decimal(number);
    assert forall i | 0 <= i < |digits| :: IsDigit(digits[i]);
  }

  lemma VerdictLexable(r: Rule)
    ensures LexableParts([VerdictClause(r)])
  {
    hide LexableWord, Decimal, Lexable;
    WordsThree();
    var q := [Quoted("r" + Decimal(r.number))];
    CommentLexable(r.number);
    WordSpaceLexable("comment");
    LexableAppend([Name("comment"), Space], q);
    KeywordLexable("counter", ActionWord(r.action), [Name("comment"), Space] + q);
    assert VerdictClause(r) == [Name("counter"), Space, Name(ActionWord(r.action)), Space]
      + ([Name("comment"), Space] + q);
  }

  lemma RuleLexable(r: Rule)
    requires WordableMatch(r.matches)
    ensures Lexable(RulePieces(r)) && NoSeparators(RulePieces(r))
  {
    hide MatchClauses, VerdictClause, JoinPieces, WordableMatch, LexableParts, Lexable;
    MatchLexable(r.matches);
    VerdictLexable(r);
    PartsAppend(MatchClauses(r.matches), [VerdictClause(r)]);
    var parts := MatchClauses(r.matches) + [VerdictClause(r)];
    SpacesLexable();
    JoinLexable(parts, [Space]);
    LexableAppend(Indent(), JoinPieces(parts, [Space]));
  }

  lemma SpacesLexable()
    ensures Lexable([Space]) && Lexable(Indent())
  {
  }

  // ------------------------------------------------------------ whole chains

  function RulesToks(rules: seq<Rule>): seq<Tok> {
    if rules == [] then []
    else RulesToks(rules[..|rules| - 1]) + (RuleToks(rules[|rules| - 1]) + [Break])
  }

  function SentinelToks(sentinel: bool): seq<Tok> {
    if sentinel then [Word("counter"), Word("comment"), Str("r0"), Break] else []
  }

  function OpenToks(table: string, c: Chain): seq<Tok> {
    [Word("table"), Word("ip"), Word(table), Sym('{'), Break, Word("chain"), Word(c.name), Sym('{'), Break]
  }

  function HookToks(c: Chain): seq<Tok> {
    [Word("type"), Word("filter"), Word("hook"), Word(HookWord(c.hook)), Word("priority"), Word("filter"), Break,
     Word("policy"), Word(PolicyWord(c.policy)), Break]
  }

  function CloseToks(): seq<Tok> {
    [Sym('}'), Break, Sym('}'), Break]
  }

  function ChainToks(table: string, c: Chain, sentinel: bool): seq<Tok> {
    OpenToks(table, c) + HookToks(c) + RulesToks(c.rules) + SentinelToks(sentinel) + CloseToks()
  }

  /** A line of pieces, its separator and what follows. */
  lemma LineTokens(line: seq<Piece>, end: Piece, rest: seq<Piece>, atStart: bool)
    requires NoSeparators(line) && IsSeparator(end) && Toks(line) != []
    ensures TokensFor(line + [end] + rest, atStart) == Toks(line) + [Break] + TokensFor(rest, true)
  {
    assert line + [end] + rest == line + ([end] + rest);
    TokensSplit(line, [end] + rest, atStart);
    assert ([end] + rest)[1..] == rest;
  }

  lemma SecondSeparator(end: Piece, rest: seq<Piece>)
    requires IsSeparator(end)
    ensures TokensFor([end] + rest, true) == TokensFor(rest, true)
  {
    assert ([end] + rest)[1..] == rest;
  }

  lemma OpenTokens(table: string, c: Chain, rest: seq<Piece>)
    ensures TokensFor(OpenPieces(table, c) + rest, true) == OpenToks(table, c) + TokensFor(rest, true)
  {
    hide Toks, TokensFor;
    var one := [Name("table"), Space, Name("ip"), Space] + [Name(table), Space, Mark('{')];
    var two := [Space, Space, Name("chain"), Space] + [Name(c.name), Space, Mark('{')];
    assert OpenPieces(table, c) + rest == one + [NewLine] + (two + [NewLine] + rest);
    BraceToks(table);
    BraceToks(c.name);
    KeywordToks("table", "ip", [Name(table), Space, Mark('{')]);
    ToksOne(Space);
    ToksOne(Name("chain"));
    ChainLineToks(c.name);
    LineTokens(two, NewLine, rest, true);
    LineTokens(one, NewLine, two + [NewLine] + rest, true);
  }

  lemma BraceToks(w: string)
    ensures Toks([Name(w), Space, Mark('{')]) == [Word(w), Sym('{')]
  {
    assert [Name(w), Space, Mark('{')] == [Name(w), Space] + [Mark('{')];
    ToksAppend([Name(w), Space], [Mark('{')]);
    ToksTwo(Name(w), Space);
    ToksOne(Name(w));
    ToksOne(Space);
    ToksOne(Mark('{'));
  }

  lemma ChainLineToks(name: string)
    ensures Toks([Space, Space, Name("chain"), Space] + [Name(name), Space, Mark('{')]) ==
      [Word("chain"), Word(name), Sym('{')]
  {
    hide Toks;
    BraceToks(name);
    ToksAppend([Space, Space, Name("chain"), Space], [Name(name), Space, Mark('{')]);
    ToksFour(Space, Space, Name("chain"), Space);
    ToksOne(Space);
    ToksOne(Name("chain"));
  }

  lemma HookLineToks(hook: string)
    ensures Toks(Indent() + [Name("type"), Space, Name("filter"), Space] + [Name("hook"), Space, Name(hook), Space]
      + [Name("priority"), Space, Name("filter")])
      == [Word("type"), Word("filter"), Word("hook"), Word(hook), Word("priority"), Word("filter")]
  {
    hide Toks;
    var a, b, c, d := Indent(), [Name("type"), Space, Name("filter"), Space], [Name("hook"), Space, Name(hook), Space],
      [Name("priority"), Space, Name("filter")];
    ToksAppend(a + b + c, d);
    ToksAppend(a + b, c);
    ToksAppend(a, b);
    ToksOne(Space);
    ToksFour(Space, Space, Space, Space);
    NamesToks("type", "filter");
    NamesToks("hook", hook);
    assert d == [Name("priority"), Space] + [Name("filter")];
    ToksAppend([Name("priority"), Space], [Name("filter")]);
    ToksTwo(Name("priority"), Space);
    ToksOne(Name("priority"));
    ToksOne(Name("filter"));
  }

  lemma NamesToks(first: string, second: string)
    ensures Toks([Name(first), Space, Name(second), Space]) == [Word(first), Word(second)]
  {
    KeywordToks(first, second, []);
    assert [Name(first), Space, Name(second), Space] + [] == [Name(first), Space, Name(second), Space];
    assert [Word(first), Word(second)] + [] == [Word(first), Word(second)];
  }

  lemma PolicyLineToks(policy: string)
    ensures Toks([Space, Name("policy"), Space, Name(policy)]) == [Word("policy"), Word(policy)]
  {
    hide Toks;
    ToksFour(Space, Name("policy"), Space, Name(policy));
    ToksOne(Space);
    ToksOne(Name("policy"));
    ToksOne(Name(policy));
  }

  lemma HookTokens(c: Chain, rest: seq<Piece>)
    ensures TokensFor(HookPieces(c) + rest, true) == HookToks(c) + TokensFor(rest, true)
  {
    hide Toks, TokensFor, HookWord, PolicyWord;
    var h, p := HookWord(c.hook), PolicyWord(c.policy);
    var one := Indent() + [Name("type"), Space, Name("filter"), Space] + [Name("hook"), Space, Name(h), Space]
      + [Name("priority"), Space, Name("filter")];
    var two := [Space, Name("policy"), Space, Name(p)];
    assert HookPieces(c) + rest == one + [Semicolon] + (two + [Semicolon] + ([NewLine] + rest));
    HookLineToks(h);
    PolicyLineToks(p);
    SecondSeparator(NewLine, rest);
    LineTokens(two, Semicolon, [NewLine] + rest, true);
    LineTokens(one, Semicolon, two + [Semicolon] + ([NewLine] + rest), true);
  }

  lemma {:induction false} RulesTokens(rules: seq<Rule>, rest: seq<Piece>)
    requires forall i | 0 <= i < |rules| :: WordableMatch(rules[i].matches)
    ensures TokensFor(RulesPieces(rules) + rest, true) == RulesToks(rules) + TokensFor(rest, true)
  {
    hide RulePieces, RuleToks, RulesPieces, RulesToks, Toks, TokensFor, WordableMatch, NoSeparators;
    if rules == [] {
      NoRules(rest);
    } else {
      var init, last := rules[..|rules| - 1], rules[|rules| - 1];
      var line := RulePieces(last) + [NewLine] + rest;
      LastRule(rules, rest);
      RulesTokens(init, line);
      RuleLexable(last);
      RulePiecesToks(last);
      RuleToksSome(last);
      LineTokens(RulePieces(last), NewLine, rest, true);
    }
  }

  lemma NoRules(rest: seq<Piece>)
    ensures RulesPieces([]) + rest == rest && RulesToks([]) == []
  {
  }

  lemma LastRule(rules: seq<Rule>, rest: seq<Piece>)
    requires rules != []
    ensures var init, last := rules[..|rules| - 1], rules[|rules| - 1];
      && RulesPieces(rules) + rest == RulesPieces(init) + (RulePieces(last) + [NewLine] + rest)
      && RulesToks(rules) == RulesToks(init) + (RuleToks(last) + [Break])
  {
    hide RulePieces, RuleToks;
  }

  lemma RuleToksSome(r: Rule)
    ensures RuleToks(r) != []
  {
  }

  function SentinelLine(): seq<Piece> {
    Indent() + [Name("counter"), Space, Name("comment"), Space] + [Quoted("r0")]
  }

  lemma SentinelLineToks()
    ensures Toks(SentinelLine()) == [Word("counter"), Word("comment"), Str("r0")]
  {
    hide Toks, Indent;
    ToksAppend(Indent() + [Name("counter"), Space, Name("comment"), Space], [Quoted("r0")]);
    ToksAppend(Indent(), [Name("counter"), Space, Name("comment"), Space]);
    IndentToks();
    ToksOne(Quoted("r0"));
    NamesToks("counter", "comment");
  }

  lemma IndentToks()
    ensures Toks(Indent()) == []
  {
    hide Toks;
    ToksFour(Space, Space, Space, Space);
    ToksOne(Space);
  }

  lemma SentinelTokens(sentinel: bool, rest: seq<Piece>)
    ensures TokensFor(SentinelPieces(sentinel) + rest, true) == SentinelToks(sentinel) + TokensFor(rest, true)
  {
    hide Toks, TokensFor;
    if sentinel {
      var line := SentinelLine();
      assert SentinelPieces(sentinel) + rest == line + [NewLine] + rest;
      SentinelLineToks();
      LineTokens(line, NewLine, rest, true);
    } else {
      assert SentinelPieces(sentinel) + rest == rest;
    }
  }

  lemma CloseTokens()
    ensures TokensFor(ClosePieces(), true) == CloseToks()
  {
    hide Toks, TokensFor;
    var one, two := [Space, Space, Mark('}')], [Mark('}')];
    assert ClosePieces() == one + [NewLine] + (two + [NewLine] + []);
    ToksOne(Mark('}'));
    ToksOne(Space);
    assert one == [Space, Space] + [Mark('}')];
    ToksAppend([Space, Space], [Mark('}')]);
    ToksTwo(Space, Space);
    LineTokens(two, NewLine, [], true);
    LineTokens(one, NewLine, two + [NewLine] + [], true);
    NoTokens();
  }

  lemma NoTokens()
    ensures TokensFor([], true) == []
  {
  }

  /** The tokens of a printed chain. */
  lemma ChainTokens(table: string, c: Chain, sentinel: bool)
    requires WordableChain(table, c)
    ensures TokensFor(ChainPieces(table, c, sentinel), true) == ChainToks(table, c, sentinel)
  {
    hide TokensFor, OpenPieces, HookPieces, RulesPieces, SentinelPieces, ClosePieces, OpenToks, HookToks, RulesToks,
      SentinelToks, CloseToks, LexableWord, WordableMatch;
    var sc := SentinelPieces(sentinel) + ClosePieces();
    var rsc := RulesPieces(c.rules) + sc;
    var hrsc := HookPieces(c) + rsc;
    assert ChainPieces(table, c, sentinel) == OpenPieces(table, c) + hrsc;
    OpenTokens(table, c, hrsc);
    HookTokens(c, rsc);
    RulesTokens(c.rules, sc);
    SentinelTokens(sentinel, ClosePieces());
    CloseTokens();
  }

  // ----------------------------------------------------- chains are lexable

  lemma OpenLexable(table: string, c: Chain)
    requires LexableWord(table) && LexableWord(c.name)
    ensures Lexable(OpenPieces(table, c)) && Closes(OpenPieces(table, c)[|OpenPieces(table, c)| - 1])
  {
    WordsOne();
    WordsFour();
    hide LexableWord;
    var w, x, y, z := [Name("table"), Space, Name("ip"), Space], [Name(table), Space, Mark('{'), NewLine],
      [Space, Space, Name("chain"), Space], [Name(c.name), Space, Mark('{'), NewLine];
    assert Lexable(w) && Lexable(x) && Lexable(y) && Lexable(z);
    hide Lexable;
    LexableAppend(w, x);
    LexableAppend(w + x, y);
    LexableAppend(w + x + y, z);
  }

  lemma HookLexable(c: Chain)
    ensures Lexable(HookPieces(c)) && Closes(HookPieces(c)[|HookPieces(c)| - 1])
  {
    hide LexableWord;
    WordsThree();
    WordsFour();
    WordsFive();
    WordsSix();
    var h, p := HookWord(c.hook), PolicyWord(c.policy);
    var u, v, w, x, y, z := Indent(), [Name("type"), Space, Name("filter"), Space],
      [Name("hook"), Space, Name(h), Space],
      [Name("priority"), Space, Name("filter"), Semicolon], [Space, Name("policy"), Space, Name(p)],
      [Semicolon, NewLine];
    assert Lexable(u) && Lexable(v) && Lexable(w) && Lexable(x) && Lexable(y) && Lexable(z);
    hide Lexable;
    LexableAppend(u, v);
    LexableAppend(u + v, w);
    LexableAppend(u + v + w, x);
    LexableAppend(u + v + w + x, y);
    LexableAppend(u + v + w + x + y, z);
  }

  lemma {:induction false} RulesLexable(rules: seq<Rule>)
    requires forall i | 0 <= i < |rules| :: WordableMatch(rules[i].matches)
    ensures Lexable(RulesPieces(rules))
    ensures RulesPieces(rules) != [] ==> Closes(RulesPieces(rules)[|RulesPieces(rules)| - 1])
  {
    hide RulePieces, Lexable, WordableMatch;
    if rules == [] {
      NothingLexable();
    } else {
      var init, last := rules[..|rules| - 1], rules[|rules| - 1];
      RulesLexable(init);
      RuleLexable(last);
      NewLineLexable();
      LexableAppend(RulePieces(last), [NewLine]);
      LexableAppend(RulesPieces(init), RulePieces(last) + [NewLine]);
    }
  }

  lemma NewLineLexable()
    ensures Lexable([NewLine])
  {
  }

  lemma EndLexable(sentinel: bool)
    ensures Lexable(SentinelPieces(sentinel) + ClosePieces())
    ensures (SentinelPieces(sentinel) + ClosePieces())[0] == Space
  {
    WordsThree();
    hide LexableWord;
    var w, x, y := Indent(), [Name("counter"), Space, Name("comment"), Space], [Quoted("r0"), NewLine];
    assert Lexable(w) && Lexable(x) && Lexable(y) && Lexable(ClosePieces());
    NothingLexable();
    hide Lexable;
    LexableAppend(w, x);
    LexableAppend(w + x, y);
    LexableAppend(SentinelPieces(sentinel), ClosePieces());
  }

  lemma ChainLexable(table: string, c: Chain, sentinel: bool)
    requires WordableChain(table, c)
    ensures Lexable(ChainPieces(table, c, sentinel))
  {
    hide Lexable, LexableWord, WordableMatch, RulesPieces, OpenPieces, HookPieces, SentinelPieces, ClosePieces;
    OpenLexable(table, c);
    HookLexable(c);
    RulesLexable(c.rules);
    EndLexable(sentinel);
    var o, h, r, e := OpenPieces(table, c), HookPieces(c), RulesPieces(c.rules),
      SentinelPieces(sentinel) + ClosePieces();
    LexableAppend(o, h);
    LexableAppend(o + h, r);
    LexableAppend(o + h + r, e);
    assert ChainPieces(table, c, sentinel) == o + h + r + e;
  }

  /** What the lexer makes of an emitted chain. */
  lemma ChainTextTokens(table: string, c: Chain, sentinel: bool)
    requires WordableChain(table, c)
    ensures TokensOf(Text(ChainPieces(table, c, sentinel)), true) == Ok(ChainToks(table, c, sentinel))
  {
    hide Lexable, ChainPieces, ChainToks, WordableChain;
    ChainLexable(table, c, sentinel);
    LexPieces(ChainPieces(table, c, sentinel), true);
    ChainTokens(table, c, sentinel);
  }
}
