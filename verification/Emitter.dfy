/** Writing chains out as nftables text.

The emitter is written on its own, apart from the parser. Its text is shown
equal to a list of lexical pieces, which is what a reader of the text sees. */
module Emitter {
  import opened Wrappers
  import opened Arith
  import opened Intervals
  import opened Cidr
  import opened Rules
  import opened Pieces

  // ----------------------------------------------------------------- joining

  function Join(parts: seq<string>, sep: string): string {
    if parts == [] then ""
    else if |parts| == 1 then parts[0]
    else parts[0] + sep + Join(parts[1..], sep)
  }

  /** One part as it is, several in braces. */
  function Braced(parts: seq<string>): string {
    if |parts| == 1 then parts[0] else "{ " + Join(parts, ", ") + " }"
  }

  function JoinPieces(parts: seq<seq<Piece>>, sep: seq<Piece>): seq<Piece> {
    if parts == [] then []
    else if |parts| == 1 then parts[0]
    else parts[0] + sep + JoinPieces(parts[1..], sep)
  }

  function BracedPieces(parts: seq<seq<Piece>>): seq<Piece> {
    if |parts| == 1 then parts[0]
    else [Mark('{'), Space] + JoinPieces(parts, [Mark(','), Space]) + [Space, Mark('}')]
  }

  function Texts(parts: seq<seq<Piece>>): seq<string> {
    if parts == [] then [] else [Text(parts[0])] + Texts(parts[1..])
  }

  lemma {:induction false} TextsAppend(a: seq<seq<Piece>>, b: seq<seq<Piece>>)
    ensures Texts(a + b) == Texts(a) + Texts(b)
  {
    if a == [] {
      assert a + b == b;
    } else {
      assert (a + b)[1..] == a[1..] + b;
      TextsAppend(a[1..], b);
    }
  }

  lemma {:induction false} TextsSize(parts: seq<seq<Piece>>)
    ensures |Texts(parts)| == |parts|
  {
    if parts != [] { TextsSize(parts[1..]); }
  }

  lemma {:induction false} JoinText(parts: seq<seq<Piece>>, sep: seq<Piece>)
    ensures Text(JoinPieces(parts, sep)) == Join(Texts(parts), Text(sep))
  {
    if |parts| > 1 {
      TextsSize(parts);
      assert Texts(parts)[1..] == Texts(parts[1..]);
      JoinText(parts[1..], sep);
      TextAppend(parts[0] + sep, JoinPieces(parts[1..], sep));
      TextAppend(parts[0], sep);
    }
  }

  lemma TextOne(a: Piece)
    ensures Text([a]) == PieceText(a)
  {
    assert [a][1..] == [];
    assert Text([]) == "";
  }

  lemma TextTwo(a: Piece, b: Piece)
    ensures Text([a, b]) == PieceText(a) + PieceText(b)
  {
    assert [a, b] == [a] + [b];
    TextAppend([a], [b]);
    TextOne(a);
    TextOne(b);
  }

  lemma TextFour(a: Piece, b: Piece, c: Piece, d: Piece)
    ensures Text([a, b, c, d]) == PieceText(a) + PieceText(b) + PieceText(c) + PieceText(d)
  {
    assert [a, b, c, d] == [a, b] + [c, d];
    TextAppend([a, b], [c, d]);
    TextTwo(a, b);
    TextTwo(c, d);
  }

  lemma BracedText(parts: seq<seq<Piece>>)
    ensures Text(BracedPieces(parts)) == Braced(Texts(parts))
  {
    TextsSize(parts);
    if |parts| == 1 {
      assert Texts(parts)[0] == Text(parts[0]);
    } else {
      hide Text, Texts, Join, JoinPieces;
      JoinText(parts, [Mark(','), Space]);
      TextTwo(Mark(','), Space);
      assert "," + " " == ", ";
      SurroundedText(JoinPieces(parts, [Mark(','), Space]));
    }
  }

  lemma SurroundedText(inner: seq<Piece>)
    ensures Text([Mark('{'), Space] + inner + [Space, Mark('}')]) == "{ " + Text(inner) + " }"
  {
    hide Text;
    TextAppend([Mark('{'), Space] + inner, [Space, Mark('}')]);
    TextAppend([Mark('{'), Space], inner);
    TextTwo(Mark('{'), Space);
    TextTwo(Space, Mark('}'));
    assert "{" + " " == "{ " && " " + "}" == " }";
  }

  // --------------------------------------------------------------- dimensions

  function AddressPart(c: Cidr): string {
    if c.len == 32 then Ipv4(c.base) else Ipv4(c.base) + "/" + Decimal(c.len)
  }

  function AddressParts(cs: seq<Cidr>): seq<string> {
    if cs == [] then [] else [AddressPart(cs[0])] + AddressParts(cs[1..])
  }

  /** An address match; none for the full set. */
  function AddrExpr(keyword: string, s: IntervalSet): Option<string>
    requires s.bits == 32
  {
    if IsFull(s) then None else Some("ip " + keyword + " " + Braced(AddressParts(SetToPrefixes(s))))
  }

  function PortPart(r: Range): string {
    if r.0 == r.1 then Decimal(r.0) else Decimal(r.0) + "-" + Decimal(r.1)
  }

  function PortParts(rs: seq<Range>): seq<string> {
    if rs == [] then [] else [PortPart(rs[0])] + PortParts(rs[1..])
  }

  /** A port match; none for the full set. */
  function PortExpr(proto: string, keyword: string, s: IntervalSet): Option<string> {
    if IsFull(s) then None else Some(proto + " " + keyword + " " + Braced(PortParts(s.ranges)))
  }

  function ProtoKeyword(v: nat): string {
    match v
    case 1 => "icmp"
    case 6 => "tcp"
    case 17 => "udp"
    case _ => "ip"
  }

  function ProtoName(v: nat): string {
    match v
    case 1 => "icmp"
    case 6 => "tcp"
    case 17 => "udp"
    case _ => Decimal(v)
  }

  /** The protocol, when the set pins a single one. */
  function ProtoValue(s: IntervalSet): Option<nat> {
    if |s.ranges| == 1 && s.ranges[0].0 == s.ranges[0].1 then Some(s.ranges[0].0) else None
  }

  /** The keyword port matches go under. */
  function Layer4(s: IntervalSet): string {
    match ProtoValue(s)
    case Some(v) => ProtoKeyword(v)
    case None => "ip"
  }

  function NameParts(names: seq<string>): seq<string> {
    if names == [] then [] else ["\"" + names[0] + "\""] + NameParts(names[1..])
  }

  function ActionWord(a: Action): string {
    match a
    case Accept => "accept"
    case Drop => "drop"
    case Reject => "reject"
  }

  function HookWord(h: Hook): string {
    match h
    case Input => "input"
    case Output => "output"
    case Forward => "forward"
  }

  // ------------------------------------------------------------- in pieces

  /** Every block starts at an address. */
  ghost predicate AreAddresses(cs: seq<Cidr>) {
    forall c | c in cs :: c.base < 0x1_0000_0000
  }

  lemma PrefixesAreAddresses(s: IntervalSet)
    requires s.bits == 32
    ensures AreAddresses(SetToPrefixes(s))
  {
    SetToPrefixesExact(s, 0);
    Pow2Table();
  }

  function AddressAtom(c: Cidr): seq<Piece>
    requires c.base < 0x1_0000_0000
  {
    if c.len == 32 then [Quad(c.base)] else [Quad(c.base), Mark('/'), Number(c.len)]
  }

  function AddressAtoms(cs: seq<Cidr>): seq<seq<Piece>>
    requires AreAddresses(cs)
  {
    if cs == [] then [] else [AddressAtom(cs[0])] + AddressAtoms(cs[1..])
  }

  function PortAtom(r: Range): seq<Piece> {
    if r.0 == r.1 then [Number(r.0)] else [Number(r.0), Mark('-'), Number(r.1)]
  }

  function PortAtoms(rs: seq<Range>): seq<seq<Piece>> {
    if rs == [] then [] else [PortAtom(rs[0])] + PortAtoms(rs[1..])
  }

  function NameAtoms(names: seq<string>): seq<seq<Piece>> {
    if names == [] then [] else [[Quoted(names[0])]] + NameAtoms(names[1..])
  }

  /** The clauses of a rule, each as pieces. A dimension that is not constrained has none. */
  function IifClauses(m: IfMatch): seq<seq<Piece>> {
    if m.OneOf? then [[Name("iifname"), Space] + BracedPieces(NameAtoms(m.names))] else []
  }

  function ProtoPiece(v: nat): Piece {
    if v == 1 || v == 6 || v == 17 then Name(ProtoName(v)) else Number(v)
  }

  function ProtoClauses(s: IntervalSet): seq<seq<Piece>> {
    match ProtoValue(s)
    case Some(v) => [[Name("meta"), Space, Name("l4proto"), Space] + [ProtoPiece(v)]]
    case None => []
  }

  function AddressClauses(keyword: string, s: IntervalSet): seq<seq<Piece>>
    requires s.bits == 32
  {
    PrefixesAreAddresses(s);
    if IsFull(s) then []
    else [[Name("ip"), Space, Name(keyword), Space] + BracedPieces(AddressAtoms(SetToPrefixes(s)))]
  }

  function PortClauses(proto: string, keyword: string, s: IntervalSet): seq<seq<Piece>> {
    if IsFull(s) then []
    else [[Name(proto), Space, Name(keyword), Space] + BracedPieces(PortAtoms(s.ranges))]
  }

  function VerdictClause(r: Rule): seq<Piece> {
    [Name("counter"), Space, Name(ActionWord(r.action)), Space] + [Name("comment"), Space]
    + [Quoted("r" + Decimal(r.number))]
  }

  /** The emitter has a place for the port constraints: there are none, or tcp or udp is pinned. */
  predicate PortsExpressible(m: Match) {
    Layer4(m.proto) == "tcp" || Layer4(m.proto) == "udp" || (IsFull(m.srcPort) && IsFull(m.dstPort))
  }

  function MatchClauses(m: Match): seq<seq<Piece>> {
    IifClauses(m.iif) + ProtoClauses(m.proto) + AddressClauses("saddr", m.srcAddr) + AddressClauses("daddr", m.dstAddr)
    + PortClauses(Layer4(m.proto), "sport", m.srcPort) + PortClauses(Layer4(m.proto), "dport", m.dstPort)
  }

  function Indent(): seq<Piece> {
    [Space, Space, Space, Space]
  }

  function RulePieces(r: Rule): seq<Piece> {
    Indent() + JoinPieces(MatchClauses(r.matches) + [VerdictClause(r)], [Space])
  }

  // -------------------------------------------------------- text of clauses

  function Maybe(part: Option<string>): seq<string> {
    if part.Some? then [part.value] else []
  }

  lemma OneText(ps: seq<Piece>)
    ensures Texts([ps]) == [Text(ps)] && Texts([]) == []
  {
    assert [ps][1..] == [];
  }

  lemma {:induction false} NameTexts(names: seq<string>)
    ensures Texts(NameAtoms(names)) == NameParts(names)
  {
    if names != [] {
      NameTexts(names[1..]);
      TextOne(Quoted(names[0]));
    }
  }

  lemma AddressPartText(c: Cidr)
    requires c.base < 0x1_0000_0000
    ensures Text(AddressAtom(c)) == AddressPart(c)
  {
    if c.len == 32 {
      TextOne(Quad(c.base));
    } else {
      assert [Quad(c.base), Mark('/'), Number(c.len)] == [Quad(c.base), Mark('/')] + [Number(c.len)];
      TextAppend([Quad(c.base), Mark('/')], [Number(c.len)]);
      TextTwo(Quad(c.base), Mark('/'));
      TextOne(Number(c.len));
    }
  }

  lemma {:induction false} AddressTexts(cs: seq<Cidr>)
    requires AreAddresses(cs)
    ensures Texts(AddressAtoms(cs)) == AddressParts(cs)
  {
    hide AddressAtom, AddressPart, Text;
    if cs != [] {
      AddressTexts(cs[1..]);
      AddressPartText(cs[0]);
    }
  }

  lemma PortPartText(r: Range)
    ensures Text(PortAtom(r)) == PortPart(r)
  {
    if r.0 == r.1 {
      TextOne(Number(r.0));
    } else {
      assert [Number(r.0), Mark('-'), Number(r.1)] == [Number(r.0), Mark('-')] + [Number(r.1)];
      TextAppend([Number(r.0), Mark('-')], [Number(r.1)]);
      TextTwo(Number(r.0), Mark('-'));
      TextOne(Number(r.1));
    }
  }

  lemma {:induction false} PortTexts(rs: seq<Range>)
    ensures Texts(PortAtoms(rs)) == PortParts(rs)
  {
    hide PortAtom, PortPart, Text;
    if rs != [] {
      PortTexts(rs[1..]);
      PortPartText(rs[0]);
    }
  }

  lemma IifText(m: IfMatch)
    ensures Texts(IifClauses(m)) == if m.OneOf? then ["iifname " + Braced(NameParts(m.names))] else []
  {
    hide Braced, BracedPieces, NameAtoms, NameParts, Text;
    OneText([]);
    assert "iifname" + " " == "iifname ";
    if m.OneOf? {
      NameTexts(m.names);
      BracedText(NameAtoms(m.names));
      TextTwo(Name("iifname"), Space);
      TextAppend([Name("iifname"), Space], BracedPieces(NameAtoms(m.names)));
      OneText([Name("iifname"), Space] + BracedPieces(NameAtoms(m.names)));
    }
  }

  lemma ProtoText(s: IntervalSet)
    ensures Texts(ProtoClauses(s)) == if ProtoValue(s).Some? then ["meta l4proto " + ProtoName(ProtoValue(s).value)]
      else []
  {
    hide Text, ProtoValue;
    if ProtoValue(s).Some? {
      var v := ProtoValue(s).value;
      TextFour(Name("meta"), Space, Name("l4proto"), Space);
      assert "meta" + " " + "l4proto" + " " == "meta l4proto ";
      TextOne(ProtoPiece(v));
      TextAppend([Name("meta"), Space, Name("l4proto"), Space], [ProtoPiece(v)]);
      OneText([Name("meta"), Space, Name("l4proto"), Space] + [ProtoPiece(v)]);
    }
  }

  /** The text of a keyword clause in front of a list. */
  lemma KeywordText(first: string, second: string, list: seq<Piece>)
    ensures Text([Name(first), Space, Name(second), Space] + list) == first + " " + second + " " + Text(list)
  {
    TextFour(Name(first), Space, Name(second), Space);
    TextAppend([Name(first), Space, Name(second), Space], list);
  }

  lemma AddressText(keyword: string, s: IntervalSet)
    requires s.bits == 32
    ensures Texts(AddressClauses(keyword, s)) == Maybe(AddrExpr(keyword, s))
  {
    hide Braced, BracedPieces, AddressAtoms, AddressParts, Text, IsFull, SetToPrefixes, AreAddresses, Canonical;
    PrefixesAreAddresses(s);
    OneText([]);
    assert "ip" + " " == "ip ";
    if !IsFull(s) {
      var atoms := AddressAtoms(SetToPrefixes(s));
      AddressTexts(SetToPrefixes(s));
      BracedText(atoms);
      KeywordText("ip", keyword, BracedPieces(atoms));
      OneText([Name("ip"), Space, Name(keyword), Space] + BracedPieces(atoms));
    }
  }

  lemma PortText(proto: string, keyword: string, s: IntervalSet)
    ensures Texts(PortClauses(proto, keyword, s)) == Maybe(PortExpr(proto, keyword, s))
  {
    hide Braced, BracedPieces, PortAtoms, PortParts, Text, IsFull, Canonical;
    if !IsFull(s) {
      PortTexts(s.ranges);
      BracedText(PortAtoms(s.ranges));
      KeywordText(proto, keyword, BracedPieces(PortAtoms(s.ranges)));
      OneText([Name(proto), Space, Name(keyword), Space] + BracedPieces(PortAtoms(s.ranges)));
    }
  }

  lemma VerdictText(r: Rule)
    ensures Text(VerdictClause(r)) == "counter " + ActionWord(r.action) + " comment \"r" + Decimal(r.number) + "\""
  {
    hide Text, Decimal, ActionWord;
    var q := Quoted("r" + Decimal(r.number));
    TextOne(q);
    TextTwo(Name("comment"), Space);
    TextAppend([Name("comment"), Space], [q]);
    assert VerdictClause(r) == [Name("counter"), Space, Name(ActionWord(r.action)), Space]
      + ([Name("comment"), Space] + [q]);
    KeywordText("counter", ActionWord(r.action), [Name("comment"), Space] + [q]);
    VerdictString(ActionWord(r.action), Decimal(r.number));
  }

  lemma VerdictString(a: string, n: string)
    ensures "counter" + " " + a + " " + ("comment" + " " + ("\"" + ("r" + n) + "\"")) ==
      "counter " + a + " comment \"r" + n + "\""
  {
    assert "counter" + " " == "counter ";
    assert " " + "comment" + " " + "\"" + "r" == " comment \"r";
  }

  lemma MatchText(m: Match)
    ensures Texts(MatchClauses(m)) ==
      Texts(IifClauses(m.iif)) + Texts(ProtoClauses(m.proto))
      + Texts(AddressClauses("saddr", m.srcAddr)) + Texts(AddressClauses("daddr", m.dstAddr))
      + Texts(PortClauses(Layer4(m.proto), "sport", m.srcPort))
      + Texts(PortClauses(Layer4(m.proto), "dport", m.dstPort))
  {
    var a, b, c, d, e, f := IifClauses(m.iif), ProtoClauses(m.proto), AddressClauses("saddr", m.srcAddr),
      AddressClauses("daddr", m.dstAddr), PortClauses(Layer4(m.proto), "sport", m.srcPort),
      PortClauses(Layer4(m.proto), "dport", m.dstPort);
    hide Texts, Canonical, WellSized, IifClauses, ProtoClauses, AddressClauses, PortClauses;
    TextsAppend(a, b);
    TextsAppend(a + b, c);
    TextsAppend(a + b + c, d);
    TextsAppend(a + b + c + d, e);
    TextsAppend(a + b + c + d + e, f);
  }

  // --------------------------------------------------------------- emitting

  /** The parts of a rule before the verdict, in order; none when the ports cannot be expressed. */
  method MatchParts(m: Match) returns (r: Option<seq<string>>)
    ensures r == if PortsExpressible(m) then Some(Texts(MatchClauses(m))) else None
  {
    hide Braced, NameParts, AddrExpr, PortExpr, Texts, IsFull, Canonical, ProtoName, ProtoValue, ProtoKeyword,
      IifClauses, ProtoClauses, AddressClauses, PortClauses, MatchClauses;
    MatchText(m);
    IifText(m.iif);
    ProtoText(m.proto);
    AddressText("saddr", m.srcAddr);
    AddressText("daddr", m.dstAddr);
    PortText(Layer4(m.proto), "sport", m.srcPort);
    PortText(Layer4(m.proto), "dport", m.dstPort);
    ghost var a, b := Texts(IifClauses(m.iif)), Texts(ProtoClauses(m.proto));
    var parts: seq<string> := [];
    if m.iif.OneOf? {
      parts := parts + ["iifname " + Braced(NameParts(m.iif.names))];
    }
    assert parts == a;
    var protoValue := ProtoValue(m.proto);
    var l4 := if protoValue.Some? then ProtoKeyword(protoValue.value) else "ip";
    if protoValue.Some? {
      parts := parts + ["meta l4proto " + ProtoName(protoValue.value)];
    }
    assert parts == a + b;
    var saddr := AddrExpr("saddr", m.srcAddr);
    if saddr.Some? {
      parts := parts + [saddr.value];
    }
    assert parts == a + b + Maybe(saddr);
    var daddr := AddrExpr("daddr", m.dstAddr);
    if daddr.Some? {
      parts := parts + [daddr.value];
    }
    assert parts == a + b + Maybe(saddr) + Maybe(daddr);
    if l4 == "tcp" || l4 == "udp" {
      var sport := PortExpr(l4, "sport", m.srcPort);
      if sport.Some? {
        parts := parts + [sport.value];
      }
      assert parts == a + b + Maybe(saddr) + Maybe(daddr) + Maybe(sport);
      var dport := PortExpr(l4, "dport", m.dstPort);
      if dport.Some? {
        parts := parts + [dport.value];
      }
      assert parts == a + b + Maybe(saddr) + Maybe(daddr) + Maybe(sport) + Maybe(dport);
    } else if !IsFull(m.srcPort) || !IsFull(m.dstPort) {
      return None;
    } else {
      FullPorts(l4, m);
      assert parts == a + b + Maybe(saddr) + Maybe(daddr) + [] + [];
    }
    r := Some(parts);
  }

  lemma FullPorts(l4: string, m: Match)
    requires IsFull(m.srcPort) && IsFull(m.dstPort)
    ensures PortExpr(l4, "sport", m.srcPort) == None && PortExpr(l4, "dport", m.dstPort) == None
  {
  }

  /** Render one rule; none when the ports cannot be expressed. */
  method EmitRule(r: Rule) returns (line: Option<string>)
    ensures line == if PortsExpressible(r.matches) then Some(Text(RulePieces(r))) else None
  {
    hide PortsExpressible, MatchClauses, Texts, Text, VerdictClause, Join, JoinPieces, Decimal, ActionWord, WellSized;
    var matched := MatchParts(r.matches);
    match matched {
      case None =>
        line := None;
      case Some(parts) =>
        parts := parts + ["counter " + ActionWord(r.action) + " comment \"r" + Decimal(r.number) + "\""];
        VerdictText(r);
        OneText(VerdictClause(r));
        TextsAppend(MatchClauses(r.matches), [VerdictClause(r)]);
        JoinText(MatchClauses(r.matches) + [VerdictClause(r)], [Space]);
        TextOne(Space);
        TextFour(Space, Space, Space, Space);
        assert " " + " " + " " + " " == "    ";
        TextAppend(Indent(), JoinPieces(MatchClauses(r.matches) + [VerdictClause(r)], [Space]));
        line := Some("    " + Join(parts, " "));
    }
  }

  // ------------------------------------------------------------------ chains

  function PolicyWord(a: Action): string {
    if a.Accept? then "accept" else "drop"
  }

  function OpenPieces(table: string, c: Chain): seq<Piece> {
    [Name("table"), Space, Name("ip"), Space] + [Name(table), Space, Mark('{'), NewLine]
    + [Space, Space, Name("chain"), Space] + [Name(c.name), Space, Mark('{'), NewLine]
  }

  function HookPieces(c: Chain): seq<Piece> {
    Indent() + [Name("type"), Space, Name("filter"), Space] + [Name("hook"), Space, Name(HookWord(c.hook)), Space]
    + [Name("priority"), Space, Name("filter"), Semicolon] + [Space, Name("policy"), Space, Name(PolicyWord(c.policy))]
    + [Semicolon, NewLine]
  }

  function RulesPieces(rules: seq<Rule>): seq<Piece> {
    if rules == [] then []
    else RulesPieces(rules[..|rules| - 1]) + (RulePieces(rules[|rules| - 1]) + [NewLine])
  }

  /** The counter without a verdict that the test harness polls on. */
  function SentinelPieces(sentinel: bool): seq<Piece> {
    if sentinel then Indent() + [Name("counter"), Space, Name("comment"), Space] + [Quoted("r0"), NewLine] else []
  }

  function ClosePieces(): seq<Piece> {
    [Space, Space, Mark('}'), NewLine] + [Mark('}'), NewLine]
  }

  function ChainPieces(table: string, c: Chain, sentinel: bool): seq<Piece> {
    OpenPieces(table, c) + HookPieces(c) + RulesPieces(c.rules) + SentinelPieces(sentinel) + ClosePieces()
  }

  lemma OpenText(table: string, c: Chain)
    ensures Text(OpenPieces(table, c)) == "table ip " + table + " {\n  chain " + c.name + " {\n"
  {
    hide Text;
    var w, x, y, z := [Name("table"), Space, Name("ip"), Space], [Name(table), Space, Mark('{'), NewLine],
      [Space, Space, Name("chain"), Space], [Name(c.name), Space, Mark('{'), NewLine];
    TextAppend(w + x + y, z);
    TextAppend(w + x, y);
    TextAppend(w, x);
    TextFour(Name("table"), Space, Name("ip"), Space);
    TextFour(Name(table), Space, Mark('{'), NewLine);
    TextFour(Space, Space, Name("chain"), Space);
    TextFour(Name(c.name), Space, Mark('{'), NewLine);
    OpenString(table, c.name);
  }

  lemma OpenString(table: string, name: string)
    ensures ("table" + " " + "ip" + " ") + (table + " " + "{" + "\n") + (" " + " " + "chain" + " ")
      + (name + " " + "{" + "\n")
      == "table ip " + table + " {\n  chain " + name + " {\n"
  {
    assert "table" + " " + "ip" + " " == "table ip ";
    assert " " + "{" + "\n" == " {\n";
    assert " {\n" + (" " + " " + "chain" + " ") == " {\n  chain ";
  }

  lemma HookText(c: Chain)
    ensures Text(HookPieces(c)) ==
      "    type filter hook " + HookWord(c.hook) + " priority filter; policy " + PolicyWord(c.policy) + ";\n"
  {
    hide Text, HookWord, PolicyWord;
    var h, p := HookWord(c.hook), PolicyWord(c.policy);
    var u, v, w, x, y, z := Indent(), [Name("type"), Space, Name("filter"), Space],
      [Name("hook"), Space, Name(h), Space],
      [Name("priority"), Space, Name("filter"), Semicolon], [Space, Name("policy"), Space, Name(p)],
      [Semicolon, NewLine];
    TextAppend(u + v + w + x + y, z);
    TextAppend(u + v + w + x, y);
    TextAppend(u + v + w, x);
    TextAppend(u + v, w);
    TextAppend(u, v);
    TextFour(Space, Space, Space, Space);
    TextFour(Name("type"), Space, Name("filter"), Space);
    TextFour(Name("hook"), Space, Name(h), Space);
    TextFour(Name("priority"), Space, Name("filter"), Semicolon);
    TextFour(Space, Name("policy"), Space, Name(p));
    TextTwo(Semicolon, NewLine);
    HookString(h, p);
  }

  lemma HookString(h: string, p: string)
    ensures (" " + " " + " " + " ") + ("type" + " " + "filter" + " ") + ("hook" + " " + h + " ")
      + ("priority" + " " + "filter" + ";") + (" " + "policy" + " " + p) + (";" + "\n")
      == "    type filter hook " + h + " priority filter; policy " + p + ";\n"
  {
    HookStart();
    HookMiddle();
    assert ";" + "\n" == ";\n";
    Regroup("    type filter ", "hook ", h, " ", "priority filter;", " policy ", p, ";\n");
    assert "hook" + " " == "hook ";
  }

  lemma HookStart()
    ensures (" " + " " + " " + " ") + ("type" + " " + "filter" + " ") == "    type filter "
    ensures "    type filter " + "hook " == "    type filter hook "
  {
  }

  lemma HookMiddle()
    ensures "priority" + " " + "filter" + ";" == "priority filter;"
    ensures " " + "policy" + " " == " policy "
    ensures " " + "priority filter;" + " policy " == " priority filter; policy "
  {
  }

  lemma Regroup(a: string, b: string, c: string, d: string, e: string, f: string, g: string, h: string)
    ensures a + (b + c + d) + e + (f + g) + h == (a + b) + c + (d + e + f) + g + h
  {
  }

  lemma SentinelText(sentinel: bool)
    ensures Text(SentinelPieces(sentinel)) == if sentinel then "    counter comment \"r0\"\n" else ""
  {
    hide Text;
    if sentinel {
      var u, v, w := Indent(), [Name("counter"), Space, Name("comment"), Space], [Quoted("r0"), NewLine];
      TextAppend(u + v, w);
      TextAppend(u, v);
      TextFour(Space, Space, Space, Space);
      TextFour(Name("counter"), Space, Name("comment"), Space);
      TextTwo(Quoted("r0"), NewLine);
      SentinelString();
    } else {
      NoSentinel();
    }
  }

  lemma NoSentinel()
    ensures Text(SentinelPieces(false)) == ""
  {
  }

  lemma SentinelString()
    ensures (" " + " " + " " + " ") + ("counter" + " " + "comment" + " ") + ("\"" + "r0" + "\"" + "\n")
      == "    counter comment \"r0\"\n"
  {
    assert " " + " " + " " + " " + ("counter" + " " + "comment" + " ") == "    counter comment ";
    assert "\"" + "r0" + "\"" + "\n" == "\"r0\"\n";
  }

  lemma CloseText()
    ensures Text(ClosePieces()) == "  }\n}\n"
  {
    hide Text;
    TextAppend([Space, Space, Mark('}'), NewLine], [Mark('}'), NewLine]);
    TextFour(Space, Space, Mark('}'), NewLine);
    TextTwo(Mark('}'), NewLine);
    assert " " + " " + "}" + "\n" + ("}" + "\n") == "  }\n}\n";
  }

  /** Every rule of the chain can be written. */
  predicate AllExpressible(rules: seq<Rule>) {
    forall i | 0 <= i < |rules| :: PortsExpressible(rules[i].matches)
  }

  /** The rule lines of a chain. */
  method EmitRules(rules: seq<Rule>, start: string) returns (text: Option<string>)
    ensures text == if AllExpressible(rules) then Some(start + Text(RulesPieces(rules))) else None
  {
    hide Text, RulePieces, RulesPieces, PortsExpressible, AllExpressible;
    var out := start;
    NoText();
    NothingToExpress(rules);
    assert start + "" == start;
    for k := 0 to |rules|
      invariant AllExpressible(rules[..k])
      invariant out == start + Text(RulesPieces(rules[..k]))
    {
      var line := EmitRule(rules[k]);
      ExpressibleStep(rules, k);
      if line.None? {
        return None;
      }
      RulesText(rules, k);
      out := out + line.value;
      out := out + "\n";
    }
    assert rules[..|rules|] == rules;
    text := Some(out);
  }

  lemma NothingToExpress(rules: seq<Rule>)
    ensures rules[..0] == [] && AllExpressible([])
  {
  }

  lemma NoText()
    ensures Text(RulesPieces([])) == ""
  {
  }

  lemma ExpressibleStep(rules: seq<Rule>, k: nat)
    requires k < |rules|
    ensures AllExpressible(rules[..k + 1]) <==> AllExpressible(rules[..k]) && PortsExpressible(rules[k].matches)
    ensures AllExpressible(rules) ==> PortsExpressible(rules[k].matches)
  {
    hide PortsExpressible;
    assert forall i | 0 <= i < k :: rules[..k + 1][i] == rules[..k][i];
  }

  lemma RulesText(rules: seq<Rule>, k: nat)
    requires k < |rules|
    ensures Text(RulesPieces(rules[..k + 1])) == Text(RulesPieces(rules[..k])) + Text(RulePieces(rules[k])) + "\n"
  {
    hide RulePieces, Text;
    var before, line := RulesPieces(rules[..k]), RulePieces(rules[k]) + [NewLine];
    assert rules[..k + 1][..k] == rules[..k];
    TextAppend(before, line);
    TextAppend(RulePieces(rules[k]), [NewLine]);
    TextOne(NewLine);
  }

  /** Render a chain as a loadable ruleset; none when some rule cannot be written. */
  method EmitChain(table: string, c: Chain, sentinel: bool) returns (text: Option<string>)
    ensures text == if AllExpressible(c.rules) then Some(Text(ChainPieces(table, c, sentinel))) else None
  {
    hide Text, OpenPieces, HookPieces, RulesPieces, SentinelPieces, ClosePieces, AllExpressible, HookWord, PolicyWord;
    var out := "table ip " + table + " {\n  chain " + c.name + " {\n";
    out := out + ("    type filter hook " + HookWord(c.hook) + " priority filter; policy " + PolicyWord(c.policy)
      + ";\n");
    OpenText(table, c);
    HookText(c);
    TextAppend(OpenPieces(table, c), HookPieces(c));
    assert out == Text(OpenPieces(table, c) + HookPieces(c));
    var lines := EmitRules(c.rules, out);
    match lines {
      case None =>
        text := None;
      case Some(withRules) =>
        out := withRules;
        if sentinel {
          out := out + "    counter comment \"r0\"\n";
        }
        assert out == withRules + (if sentinel then "    counter comment \"r0\"\n" else "");
        out := out + "  }\n}\n";
        SentinelText(sentinel);
        CloseText();
        JoinedText(OpenPieces(table, c) + HookPieces(c), RulesPieces(c.rules), SentinelPieces(sentinel), ClosePieces());
        text := Some(out);
    }
  }

  lemma JoinedText(a: seq<Piece>, b: seq<Piece>, c: seq<Piece>, d: seq<Piece>)
    ensures Text(a + b + c + d) == Text(a) + Text(b) + Text(c) + Text(d)
  {
    TextAppend(a + b + c, d);
    TextAppend(a + b, c);
    TextAppend(a, b);
  }
}
