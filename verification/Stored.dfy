/** The bytes of a printed chain.

A file holds the UTF-8 bytes of the text, and the lexer takes every byte for a character. So the
file of a chain is the text of the chain with its interface names spelled in bytes. */
module Stored {
  import opened Intervals
  import opened Cidr
  import opened Sorting
  import opened Rules
  import opened Lexer
  import opened Pieces
  import opened Names
  import opened Emitter
  import opened Printed
  import opened Origins

  // ------------------------------------------------------- the order of names

  lemma {:induction false} LexAt(a: seq<nat>, b: seq<nat>, k: nat)
    requires k < |a| && k < |b| && a[..k] == b[..k] && a[k] < b[k]
    ensures LexLe(a, b) && a != b
  {
    if k > 0 {
      assert a[0] == a[..k][0] == b[..k][0] == b[0];
      assert a[1..][..k - 1] == a[..k][1..] && b[1..][..k - 1] == b[..k][1..];
      LexAt(a[1..], b[1..], k - 1);
    }
  }

  lemma LessAt(a: string, b: string, k: nat)
    requires k < |a| && k < |b| && a[..k] == b[..k] && a[k] < b[k]
    ensures NameLess(a, b)
  {
    forall i | 0 <= i < k
      ensures Codes(a)[i] == Codes(b)[i]
    {
      assert a[i] == a[..k][i] == b[..k][i] == b[i];
    }
    assert Codes(a)[..k] == Codes(b)[..k];
    LexAt(Codes(a), Codes(b), k);
  }

  lemma {:induction false} LexPrefix(a: seq<nat>, b: seq<nat>)
    ensures LexLe(a, a + b)
  {
    if a != [] {
      assert (a + b)[1..] == a[1..] + b;
      LexPrefix(a[1..], b);
    }
  }

  lemma LessLonger(a: string, b: string)
    requires b != ""
    ensures NameLess(a, a + b)
  {
    assert Codes(a + b) == Codes(a) + Codes(b);
    LexPrefix(Codes(a), Codes(b));
    assert |a + b| > |a|;
  }

  /** Where a name in front of another one ends or differs. */
  lemma {:induction false} FirstDifference(a: string, b: string) returns (k: nat)
    requires NameLess(a, b)
    ensures k <= |a| && k < |b| && a[..k] == b[..k] && (k < |a| ==> a[k] < b[k])
  {
    k := 0;
    if a != "" && b != "" && a[0] == b[0] {
      assert Codes(a)[1..] == Codes(a[1..]) && Codes(b)[1..] == Codes(b[1..]);
      assert a == [a[0]] + a[1..] && b == [b[0]] + b[1..];
      var j := FirstDifference(a[1..], b[1..]);
      k := j + 1;
      assert a[..k] == [a[0]] + a[1..][..j] && b[..k] == [b[0]] + b[1..][..j];
    } else if a != "" && b != "" {
      assert Codes(a)[0] == a[0] as nat && Codes(b)[0] == b[0] as nat;
    }
  }

  /** Two numbers compare by their quotients, and by their remainders when these agree. */
  lemma Halves(n: nat, m: nat)
    requires n < m
    ensures n / 0x40 < m / 0x40 || (n / 0x40 == m / 0x40 && n % 0x40 < m % 0x40)
  {
  }

  lemma Quarters(n: nat)
    ensures n / 0x1000 == n / 0x40 / 0x40 && n / 0x4_0000 == n / 0x40 / 0x40 / 0x40
  {
  }

  /** More bytes, a larger first byte. */
  lemma Wider(c: char, d: char)
    requires c < d && |Utf8(c)| != |Utf8(d)|
    ensures Utf8(c)[0] < Utf8(d)[0]
  {
  }

  lemma TwoBytes(c: char, d: char) returns (k: nat)
    requires c < d && |Utf8(c)| == |Utf8(d)| == 2
    ensures k < 2 && Utf8(c)[..k] == Utf8(d)[..k] && Utf8(c)[k] < Utf8(d)[k]
  {
    var n, m := c as nat, d as nat;
    Halves(n, m);
    k := if n / 0x40 < m / 0x40 then 0 else 1;
  }

  lemma ThreeBytes(c: char, d: char) returns (k: nat)
    requires c < d && |Utf8(c)| == |Utf8(d)| == 3
    ensures k < 3 && Utf8(c)[..k] == Utf8(d)[..k] && Utf8(c)[k] < Utf8(d)[k]
  {
    var n, m := c as nat, d as nat;
    Halves(n, m);
    Quarters(n);
    Quarters(m);
    if n / 0x40 == m / 0x40 {
      k := 2;
    } else {
      Halves(n / 0x40, m / 0x40);
      k := if n / 0x1000 < m / 0x1000 then 0 else 1;
    }
  }

  /** The first of the four places, in base 64, at which a number passes a smaller one. */
  lemma FourPlaces(n: nat, m: nat) returns (k: nat)
    requires n < m
    ensures k < 4
    ensures if k == 0 then n / 0x4_0000 < m / 0x4_0000 else n / 0x4_0000 == m / 0x4_0000
    ensures k > 0 ==> if k == 1 then n / 0x1000 % 0x40 < m / 0x1000 % 0x40 else n / 0x1000 == m / 0x1000
    ensures k > 1 ==> if k == 2 then n / 0x40 % 0x40 < m / 0x40 % 0x40 else n / 0x40 == m / 0x40
    ensures k > 2 ==> n % 0x40 < m % 0x40
  {
    Halves(n, m);
    Quarters(n);
    Quarters(m);
    if n / 0x40 == m / 0x40 {
      k := 3;
    } else {
      Halves(n / 0x40, m / 0x40);
      if n / 0x1000 == m / 0x1000 {
        k := 2;
      } else {
        Halves(n / 0x1000, m / 0x1000);
        k := if n / 0x4_0000 < m / 0x4_0000 then 0 else 1;
      }
    }
  }

  lemma FourBytes(c: char, d: char) returns (k: nat)
    requires c < d && |Utf8(c)| == |Utf8(d)| == 4
    ensures k < 4 && Utf8(c)[..k] == Utf8(d)[..k] && Utf8(c)[k] < Utf8(d)[k]
  {
    k := FourPlaces(c as nat, d as nat);
  }

  /** The byte at which the bytes of a character pass those of a smaller one. */
  lemma CharOrder(c: char, d: char) returns (k: nat)
    requires c < d
    ensures k < |Utf8(c)| && k < |Utf8(d)| && Utf8(c)[..k] == Utf8(d)[..k] && Utf8(c)[k] < Utf8(d)[k]
  {
    Width(c);
    Width(d);
    hide Utf8;
    if |Utf8(c)| != |Utf8(d)| {
      Wider(c, d);
      k := 0;
    } else if |Utf8(c)| == 1 {
      OneByte(c, d);
      k := 0;
    } else if |Utf8(c)| == 2 {
      k := TwoBytes(c, d);
    } else if |Utf8(c)| == 3 {
      k := ThreeBytes(c, d);
    } else {
      k := FourBytes(c, d);
    }
  }

  lemma Width(c: char)
    ensures 1 <= |Utf8(c)| <= 4
  {
  }

  lemma OneByte(c: char, d: char)
    requires c < d && |Utf8(c)| == |Utf8(d)| == 1
    ensures Utf8(c)[0] < Utf8(d)[0]
  {
  }

  /** Spelling names in bytes keeps their order. */
  lemma BytesKeepOrder(a: string, b: string)
    requires NameLess(a, b)
    ensures NameLess(Utf8All(a), Utf8All(b))
  {
    hide Utf8, LexLe;
    var k := FirstDifference(a, b);
    var p := Utf8All(a[..k]);
    assert a == a[..k] + a[k..] && b == b[..k] + b[k..];
    Utf8Split(a[..k], a[k..]);
    Utf8Split(b[..k], b[k..]);
    var x, y := Utf8All(a[k..]), Utf8All(b[k..]);
    PlainBytes(b[k]);
    assert y == Utf8(b[k]) + Utf8All(b[k..][1..]);
    if k == |a| {
      assert x == "" && p + x == p;
      LessLonger(p, y);
    } else {
      assert x == Utf8(a[k]) + Utf8All(a[k..][1..]);
      var j := CharOrder(a[k], b[k]);
      BytesApart(p, Utf8(a[k]), Utf8All(a[k..][1..]), Utf8(b[k]), Utf8All(b[k..][1..]), j);
    }
  }

  lemma BytesApart(p: string, u: string, x: string, v: string, y: string, j: nat)
    requires j < |u| && j < |v| && u[..j] == v[..j] && u[j] < v[j]
    ensures NameLess(p + (u + x), p + (v + y))
  {
    var a, b := p + (u + x), p + (v + y);
    assert a[..|p| + j] == p + u[..j] && b[..|p| + j] == p + v[..j];
    LessAt(a, b, |p| + j);
  }

  // ---------------------------------------------------------- a chain in bytes

  function ByteNames(names: seq<string>): seq<string> {
    seq(|names|, i requires 0 <= i < |names| => Utf8All(names[i]))
  }

  lemma BytesSorted(names: NameSet)
    ensures StrictlySorted(ByteNames(names))
  {
    hide Utf8All;
    forall i, j | 0 <= i < j < |names|
      ensures NameLess(ByteNames(names)[i], ByteNames(names)[j])
    {
      assert NameLess(names[i], names[j]);
      BytesKeepOrder(names[i], names[j]);
    }
  }

  function ByteIif(m: IfMatch): IfMatch {
    if m.OneOf? then
      BytesSorted(m.names);
      OneOf(ByteNames(m.names))
    else m
  }

  function ByteRule(r: Rule): Rule {
    Rule(r.number, WithIif(r.matches, ByteIif(r.matches.iif)), r.action)
  }

  function WithIif(m: Match, iif: IfMatch): Match {
    m.(iif := iif)
  }

  function ByteRules(rules: seq<Rule>): seq<Rule> {
    if rules == [] then [] else ByteRules(rules[..|rules| - 1]) + [ByteRule(rules[|rules| - 1])]
  }

  /** The chain with its interface names spelled in bytes. */
  function ByteChain(c: Chain): Chain {
    Chain(c.name, c.hook, c.policy, ByteRules(c.rules))
  }

  lemma {:induction false} ByteRulesAt(rules: seq<Rule>)
    ensures |ByteRules(rules)| == |rules|
    ensures forall i | 0 <= i < |rules| :: ByteRules(rules)[i] == ByteRule(rules[i])
  {
    hide ByteRule, Canonical, WellSized;
    if rules != [] { ByteRulesAt(rules[..|rules| - 1]); }
  }

  // ---------------------------------------------------------- pieces in bytes

  function BytePiece(p: Piece): Piece {
    if p.Quoted? then Quoted(Utf8All(p.text)) else p
  }

  function BytePieces(ps: seq<Piece>): seq<Piece> {
    if ps == [] then [] else [BytePiece(ps[0])] + BytePieces(ps[1..])
  }

  /** The backslashes between quotes. */
  function QuotedWeight(ps: seq<Piece>): nat {
    if ps == [] then 0 else (if ps[0].Quoted? then Count(ps[0].text, '\\') else 0) + QuotedWeight(ps[1..])
  }

  lemma {:induction false} BytePiecesAppend(a: seq<Piece>, b: seq<Piece>)
    ensures BytePieces(a + b) == BytePieces(a) + BytePieces(b)
    ensures QuotedWeight(a + b) == QuotedWeight(a) + QuotedWeight(b)
  {
    hide BytePiece;
    if a == [] {
      assert a + b == b;
    } else {
      assert (a + b)[1..] == a[1..] + b;
      BytePiecesAppend(a[1..], b);
    }
  }

  /** ASCII without a backslash. */
  predicate Mild(s: string) {
    forall i | 0 <= i < |s| :: s[i] as nat < 0x80 && s[i] != '\\'
  }

  predicate Still(p: Piece) {
    Mild(PieceText(p))
  }

  /** Nothing but what stands between quotes can be other than mild. */
  ghost predicate Steady(ps: seq<Piece>) {
    forall i | 0 <= i < |ps| :: ps[i].Quoted? || Still(ps[i])
  }

  lemma MildIsItself(s: string)
    requires Mild(s)
    ensures Utf8All(s) == s && Count(s, '\\') == 0
  {
    AsciiIsItself(s);
    CountNone(s, '\\');
  }

  lemma QuotedBytes(s: string)
    ensures Utf8All("\"" + s + "\"") == "\"" + Utf8All(s) + "\""
    ensures Count("\"" + s + "\"", '\\') == Count(s, '\\')
  {
    Utf8Split("\"" + s, "\"");
    Utf8Split("\"", s);
    MildIsItself("\"");
    CountAppend("\"" + s, "\"", '\\');
    CountAppend("\"", s, '\\');
  }

  /** The bytes of a text are the text of the pieces in bytes, and its backslashes are between quotes. */
  lemma {:induction false} BytesOfText(ps: seq<Piece>)
    requires Steady(ps)
    ensures Utf8All(Text(ps)) == Text(BytePieces(ps)) && Count(Text(ps), '\\') == QuotedWeight(ps)
  {
    hide Utf8All, Count, Mild;
    if ps == [] {
      MildIsItself("") by { assert Mild("") by { NothingMild(); } }
    } else {
      Utf8Split(PieceText(ps[0]), Text(ps[1..]));
      CountAppend(PieceText(ps[0]), Text(ps[1..]), '\\');
      if ps[0].Quoted? { QuotedBytes(ps[0].text); } else { MildIsItself(PieceText(ps[0])); }
      BytesOfText(ps[1..]);
      assert BytePieces(ps)[0] == BytePiece(ps[0]) && BytePieces(ps)[1..] == BytePieces(ps[1..]);
    }
  }

  lemma NothingMild()
    ensures Mild("")
  {
  }

  // ------------------------------------------------------- one clause at a time

  /** `qs` is `ps` in bytes. */
  ghost predicate Twin(ps: seq<Piece>, qs: seq<Piece>) {
    Steady(ps) && qs == BytePieces(ps)
  }

  lemma TwinAppend(a: seq<Piece>, a': seq<Piece>, b: seq<Piece>, b': seq<Piece>)
    requires Twin(a, a') && Twin(b, b')
    ensures Twin(a + b, a' + b') && QuotedWeight(a + b) == QuotedWeight(a) + QuotedWeight(b)
  {
    hide Still, BytePieces, QuotedWeight;
    BytePiecesAppend(a, b);
  }

  ghost predicate AllStill(ps: seq<Piece>) {
    forall i | 0 <= i < |ps| :: Still(ps[i])
  }

  lemma StillPiece(p: Piece)
    requires Still(p)
    ensures BytePiece(p) == p && (p.Quoted? ==> Count(p.text, '\\') == 0)
  {
    if p.Quoted? {
      forall i | 0 <= i < |p.text|
        ensures p.text[i] as nat < 0x80 && p.text[i] != '\\'
      {
        assert p.text[i] == PieceText(p)[i + 1];
      }
      MildIsItself(p.text);
    }
  }

  lemma {:induction false} StillTwin(ps: seq<Piece>)
    requires AllStill(ps)
    ensures Twin(ps, ps) && QuotedWeight(ps) == 0
  {
    hide Still, BytePiece, Count;
    if ps != [] {
      StillPiece(ps[0]);
      StillTwin(ps[1..]);
      assert ps == [ps[0]] + ps[1..];
    }
  }

  lemma StillAppend(a: seq<Piece>, b: seq<Piece>)
    requires AllStill(a) && AllStill(b)
    ensures AllStill(a + b)
  {
    hide Still;
  }

  lemma WordIsMild(w: string)
    requires LexableWord(w)
    ensures Mild(w)
  {
  }

  /** What the lexer can read, unless it is between quotes. */
  lemma LexableIsStill(p: Piece)
    requires LexablePiece(p) && !p.Quoted?
    ensures Still(p)
  {
    if p.Name? { WordIsMild(p.word); }
  }

  ghost predicate Unquoted(ps: seq<Piece>) {
    forall i | 0 <= i < |ps| :: !ps[i].Quoted?
  }

  lemma UnquotedIsStill(ps: seq<Piece>)
    requires Lexable(ps) && Unquoted(ps)
    ensures AllStill(ps)
  {
    hide LexablePiece, Still, MayFollow;
    forall i | 0 <= i < |ps|
      ensures Still(ps[i])
    {
      LexableIsStill(ps[i]);
    }
  }

  // -------------------------------------------------------------------- lists

  ghost predicate TwinParts(parts: seq<seq<Piece>>, twins: seq<seq<Piece>>) {
    |parts| == |twins| && forall i | 0 <= i < |parts| :: Twin(parts[i], twins[i])
  }

  function PartsWeight(parts: seq<seq<Piece>>): nat {
    if parts == [] then 0 else QuotedWeight(parts[0]) + PartsWeight(parts[1..])
  }

  lemma {:induction false} PartsWeightAppend(a: seq<seq<Piece>>, b: seq<seq<Piece>>)
    ensures PartsWeight(a + b) == PartsWeight(a) + PartsWeight(b)
  {
    hide QuotedWeight;
    if a == [] {
      assert a + b == b;
    } else {
      assert (a + b)[1..] == a[1..] + b;
      PartsWeightAppend(a[1..], b);
    }
  }

  lemma {:induction false} TwinJoin(parts: seq<seq<Piece>>, twins: seq<seq<Piece>>, sep: seq<Piece>)
    requires TwinParts(parts, twins) && AllStill(sep)
    ensures Twin(JoinPieces(parts, sep), JoinPieces(twins, sep))
    ensures QuotedWeight(JoinPieces(parts, sep)) == PartsWeight(parts)
  {
    hide Twin, QuotedWeight, AllStill;
    if parts == [] {
      StillTwin([]) by { NothingStill(); }
    } else if |parts| > 1 {
      TwinJoin(parts[1..], twins[1..], sep);
      StillTwin(sep);
      TwinAppend(parts[0], twins[0], sep, sep);
      TwinAppend(parts[0] + sep, twins[0] + sep, JoinPieces(parts[1..], sep), JoinPieces(twins[1..], sep));
    } else {
      assert PartsWeight(parts[1..]) == 0;
    }
  }

  lemma NothingStill()
    ensures AllStill([])
  {
  }

  lemma TwinBraced(parts: seq<seq<Piece>>, twins: seq<seq<Piece>>)
    requires TwinParts(parts, twins)
    ensures Twin(BracedPieces(parts), BracedPieces(twins)) && QuotedWeight(BracedPieces(parts)) == PartsWeight(parts)
  {
    hide Twin, QuotedWeight, AllStill, JoinPieces;
    if |parts| == 1 {
      assert PartsWeight(parts[1..]) == 0;
    } else {
      var open, close, sep := [Mark('{'), Space], [Space, Mark('}')], [Mark(','), Space];
      MarksStill();
      StillTwin(open);
      StillTwin(close);
      TwinJoin(parts, twins, sep);
      TwinAppend(open, open, JoinPieces(parts, sep), JoinPieces(twins, sep));
      TwinAppend(open + JoinPieces(parts, sep), open + JoinPieces(twins, sep), close, close);
    }
  }

  lemma MarksStill()
    ensures AllStill([Mark('{'), Space]) && AllStill([Space, Mark('}')]) && AllStill([Mark(','), Space])
    ensures AllStill([Space])
  {
  }

  ghost predicate StillParts(parts: seq<seq<Piece>>) {
    forall i | 0 <= i < |parts| :: AllStill(parts[i])
  }

  lemma {:induction false} StillPartsTwin(parts: seq<seq<Piece>>)
    requires StillParts(parts)
    ensures TwinParts(parts, parts) && PartsWeight(parts) == 0
  {
    hide AllStill, Twin, QuotedWeight;
    if parts != [] {
      StillTwin(parts[0]);
      StillPartsTwin(parts[1..]);
      assert parts == [parts[0]] + parts[1..];
    }
  }

  // ------------------------------------------------------------ without quotes

  ghost predicate UnquotedParts(parts: seq<seq<Piece>>) {
    forall i | 0 <= i < |parts| :: Unquoted(parts[i])
  }

  lemma {:induction false} UnquotedJoin(parts: seq<seq<Piece>>, sep: seq<Piece>)
    requires UnquotedParts(parts) && Unquoted(sep)
    ensures Unquoted(JoinPieces(parts, sep))
  {
    if |parts| > 1 { UnquotedJoin(parts[1..], sep); }
  }

  lemma UnquotedBraced(parts: seq<seq<Piece>>)
    requires UnquotedParts(parts)
    ensures Unquoted(BracedPieces(parts))
  {
    hide JoinPieces;
    UnquotedJoin(parts, [Mark(','), Space]);
  }

  lemma {:induction false} AddressesUnquoted(cs: seq<Cidr>)
    requires AreAddresses(cs)
    ensures UnquotedParts(AddressAtoms(cs))
  {
    if cs != [] { AddressesUnquoted(cs[1..]); }
  }

  lemma {:induction false} PortsUnquoted(rs: seq<Range>)
    ensures UnquotedParts(PortAtoms(rs))
  {
    if rs != [] { PortsUnquoted(rs[1..]); }
  }

  lemma LexablePartsStill(parts: seq<seq<Piece>>)
    requires LexableParts(parts) && UnquotedParts(parts)
    ensures StillParts(parts)
  {
    hide Lexable, Unquoted, AllStill, NoSeparators;
    forall i | 0 <= i < |parts|
      ensures AllStill(parts[i])
    {
      UnquotedIsStill(parts[i]);
    }
  }

  lemma ProtoStill(s: IntervalSet)
    requires s.bits == 8
    ensures StillParts(ProtoClauses(s))
  {
    hide LexableParts, Canonical;
    ProtoLexable(s);
    assert UnquotedParts(ProtoClauses(s));
    LexablePartsStill(ProtoClauses(s));
  }

  lemma AddressStill(keyword: string, s: IntervalSet)
    requires s.bits == 32 && LexableWord(keyword)
    ensures StillParts(AddressClauses(keyword, s))
  {
    hide LexableParts, BracedPieces, AddressAtoms, SetToPrefixes, AreAddresses, Canonical, IsFull, LexableWord,
      StillParts;
    AddressLexable(keyword, s);
    PrefixesAreAddresses(s);
    AddressesUnquoted(SetToPrefixes(s));
    UnquotedBraced(AddressAtoms(SetToPrefixes(s)));
    LexablePartsStill(AddressClauses(keyword, s));
  }

  lemma PortStill(proto: string, keyword: string, s: IntervalSet)
    requires s.bits == 16 && LexableWord(proto) && LexableWord(keyword)
    ensures StillParts(PortClauses(proto, keyword, s))
  {
    hide LexableParts, BracedPieces, PortAtoms, Canonical, IsFull, LexableWord, StillParts;
    PortLexable(proto, keyword, s);
    PortsUnquoted(s.ranges);
    UnquotedBraced(PortAtoms(s.ranges));
    LexablePartsStill(PortClauses(proto, keyword, s));
  }

  // -------------------------------------------------------------------- rules

  lemma {:induction false} NamesTwin(names: seq<string>)
    ensures TwinParts(NameAtoms(names), NameAtoms(ByteNames(names)))
    ensures PartsWeight(NameAtoms(names)) == NamesWeight(names, '\\')
  {
    hide Utf8All, Count;
    if names != [] {
      NamesTwin(names[1..]);
      assert ByteNames(names)[1..] == ByteNames(names[1..]);
      NameTwin(names[0]);
    }
  }

  lemma NameTwin(name: string)
    ensures Twin([Quoted(name)], [Quoted(Utf8All(name))]) && QuotedWeight([Quoted(name)]) == Count(name, '\\')
  {
    hide Utf8All, Count;
    assert [Quoted(name)][1..] == [] && BytePieces([]) == [];
    assert BytePieces([Quoted(name)]) == [BytePiece(Quoted(name))] + BytePieces([Quoted(name)][1..]);
  }

  lemma IifTwin(m: IfMatch)
    ensures TwinParts(IifClauses(m), IifClauses(ByteIif(m)))
    ensures PartsWeight(IifClauses(m)) <= IifWeight(m, '\\')
  {
    hide Twin, QuotedWeight, AllStill, BracedPieces, NameAtoms, NamesWeight, ByteNames, LexableWord;
    if m.OneOf? {
      var names := m.names;
      BytesSorted(names);
      NamesTwin(names);
      TwinBraced(NameAtoms(names), NameAtoms(ByteNames(names)));
      WordsOne();
      WordStill("iifname");
      StillTwin([Name("iifname"), Space]);
      TwinAppend([Name("iifname"), Space], [Name("iifname"), Space], BracedPieces(NameAtoms(names)),
                 BracedPieces(NameAtoms(ByteNames(names))));
      assert IifClauses(m)[1..] == [];
    }
  }

  lemma {:induction false} PartsTwin(a: seq<seq<Piece>>, a': seq<seq<Piece>>, b: seq<seq<Piece>>)
    requires TwinParts(a, a') && StillParts(b)
    ensures TwinParts(a + b, a' + b) && PartsWeight(a + b) == PartsWeight(a)
  {
    hide Twin, StillParts;
    StillPartsTwin(b);
    PartsWeightAppend(a, b);
  }

  lemma MatchTwin(m: Match)
    ensures TwinParts(MatchClauses(m), MatchClauses(WithIif(m, ByteIif(m.iif))))
    ensures PartsWeight(MatchClauses(m)) <= IifWeight(m.iif, '\\')
  {
    var b := WithIif(m, ByteIif(m.iif));
    hide Canonical, TwinParts, StillParts, IifClauses, ProtoClauses, AddressClauses, PortClauses, Layer4, ByteIif,
      IsFull, LexableWord, IifWeight, PartsWeight;
    WordsOne();
    WordsTwo();
    Layer4Word(m.proto);
    IifTwin(m.iif);
    ProtoStill(m.proto);
    AddressStill("saddr", m.srcAddr);
    AddressStill("daddr", m.dstAddr);
    PortStill(Layer4(m.proto), "sport", m.srcPort);
    PortStill(Layer4(m.proto), "dport", m.dstPort);
    var x, x' := IifClauses(m.iif), IifClauses(b.iif);
    var p, s, d, u, v := ProtoClauses(m.proto), AddressClauses("saddr", m.srcAddr), AddressClauses("daddr", m.dstAddr),
      PortClauses(Layer4(m.proto), "sport", m.srcPort), PortClauses(Layer4(m.proto), "dport", m.dstPort);
    PartsTwin(x, x', p);
    PartsTwin(x + p, x' + p, s);
    PartsTwin(x + p + s, x' + p + s, d);
    PartsTwin(x + p + s + d, x' + p + s + d, u);
    PartsTwin(x + p + s + d + u, x' + p + s + d + u, v);
  }

  lemma VerdictStill(r: Rule)
    ensures StillParts([VerdictClause(r)])
  {
    hide LexableWord, Decimal, Still;
    WordsThree();
    var a := [Name("counter"), Space, Name(ActionWord(r.action)), Space];
    var b, q := [Name("comment"), Space], [Quoted("r" + Decimal(r.number))];
    WordStill("counter");
    WordStill(ActionWord(r.action));
    WordStill("comment");
    NumberStill(r.number);
    StillAppend([Name("counter"), Space], [Name(ActionWord(r.action)), Space]);
    assert a == [Name("counter"), Space] + [Name(ActionWord(r.action)), Space];
    StillAppend(a, b);
    StillAppend(a + b, q);
    assert VerdictClause(r) == a + b + q;
  }

  lemma WordStill(w: string)
    requires LexableWord(w)
    ensures AllStill([Name(w), Space])
  {
    WordIsMild(w);
    hide LexableWord;
  }

  lemma NumberStill(n: nat)
    ensures Still(Quoted("r" + Decimal(n)))
  {
    hide Decimal;
    var digits := Decimal(n);
    assert forall i | 0 <= i < |digits| :: IsDigit(digits[i]);
  }

  lemma RuleTwin(r: Rule)
    ensures Twin(RulePieces(r), RulePieces(ByteRule(r)))
    ensures QuotedWeight(RulePieces(r)) <= IifWeight(r.matches.iif, '\\')
  {
    var b := ByteRule(r);
    assert VerdictClause(b) == VerdictClause(r);
    hide Twin, QuotedWeight, TwinParts, StillParts, AllStill, MatchClauses, VerdictClause, JoinPieces, IifWeight,
      ByteIif, PartsWeight, Indent, Canonical, WellSized;
    MatchTwin(r.matches);
    VerdictStill(r);
    var parts, twins := MatchClauses(r.matches) + [VerdictClause(r)], MatchClauses(b.matches) + [VerdictClause(r)];
    PartsTwin(MatchClauses(r.matches), MatchClauses(b.matches), [VerdictClause(r)]);
    MarksStill();
    TwinJoin(parts, twins, [Space]);
    IndentStill();
    StillTwin(Indent());
    TwinAppend(Indent(), Indent(), JoinPieces(parts, [Space]), JoinPieces(twins, [Space]));
  }

  lemma IndentStill()
    ensures AllStill(Indent())
  {
  }

  lemma NewLineStill()
    ensures AllStill([NewLine])
  {
  }

  lemma {:induction false} RulesTwin(rules: seq<Rule>)
    ensures Twin(RulesPieces(rules), RulesPieces(ByteRules(rules)))
    ensures QuotedWeight(RulesPieces(rules)) <= RulesWeight(rules, '\\')
  {
    hide Twin, QuotedWeight, RulePieces, ByteRule, IifWeight, AllStill;
    if rules == [] {
      NothingStill();
      StillTwin([]);
    } else {
      var init, last := rules[..|rules| - 1], rules[|rules| - 1];
      RulesTwin(init);
      RuleTwin(last);
      NewLineStill();
      StillTwin([NewLine]);
      TwinAppend(RulePieces(last), RulePieces(ByteRule(last)), [NewLine], [NewLine]);
      TwinAppend(RulesPieces(init), RulesPieces(ByteRules(init)), RulePieces(last) + [NewLine],
                 RulePieces(ByteRule(last)) + [NewLine]);
      ByteRulesAt(init);
      assert ByteRules(rules)[..|rules| - 1] == ByteRules(init) && ByteRules(rules)[|rules| - 1] == ByteRule(last);
    }
  }

  // ------------------------------------------------------------------- chains

  lemma OpenStill(table: string, c: Chain)
    requires LexableWord(table) && LexableWord(c.name)
    ensures AllStill(OpenPieces(table, c))
  {
    hide LexableWord, Lexable, AllStill;
    OpenLexable(table, c);
    UnquotedIsStill(OpenPieces(table, c));
  }

  lemma HookStill(c: Chain)
    ensures AllStill(HookPieces(c))
  {
    hide LexableWord, Lexable, AllStill;
    HookLexable(c);
    UnquotedIsStill(HookPieces(c));
  }

  lemma CloseStill()
    ensures AllStill(ClosePieces())
  {
  }

  /** The bytes of a chain's text are the text of the chain in bytes, and every backslash in it
  comes from a name of an interface. */
  lemma BytesOfChain(table: string, c: Chain)
    requires LexableWord(table) && LexableWord(c.name)
    ensures Utf8All(Text(ChainPieces(table, c, false))) == Text(ChainPieces(table, ByteChain(c), false))
    ensures Count(Text(ChainPieces(table, c, false)), '\\') <= RulesWeight(c.rules, '\\')
  {
    hide Twin, QuotedWeight, AllStill, OpenPieces, HookPieces, ClosePieces, RulesPieces, ByteRules, RulesWeight,
      Utf8All, Text, Count, LexableWord;
    var o, h, r, e := OpenPieces(table, c), HookPieces(c), RulesPieces(c.rules), ClosePieces();
    var r' := RulesPieces(ByteRules(c.rules));
    OpenStill(table, c);
    HookStill(c);
    CloseStill();
    RulesTwin(c.rules);
    StillTwin(o);
    StillTwin(h);
    StillTwin(e);
    TwinAppend(o, o, h, h);
    TwinAppend(o + h, o + h, r, r');
    TwinAppend(o + h + r, o + h + r', e, e);
    SameFrame(table, c);
    assert ChainPieces(table, c, false) == o + h + r + e;
    assert ChainPieces(table, ByteChain(c), false) == o + h + r' + e;
    TwinText(o + h + r + e, o + h + r' + e);
  }

  lemma SameFrame(table: string, c: Chain)
    ensures OpenPieces(table, ByteChain(c)) == OpenPieces(table, c) && HookPieces(ByteChain(c)) == HookPieces(c)
    ensures SentinelPieces(false) == []
  {
  }

  lemma TwinText(ps: seq<Piece>, qs: seq<Piece>)
    requires Twin(ps, qs)
    ensures Utf8All(Text(ps)) == Text(qs) && Count(Text(ps), '\\') == QuotedWeight(ps)
  {
    hide Steady, BytePieces;
    BytesOfText(ps);
  }
}
