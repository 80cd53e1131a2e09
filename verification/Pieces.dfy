/** Text built from lexical pieces, and what the lexer makes of it. */
module Pieces {
  import opened Wrappers
  import opened Arith
  import opened Lexer

  datatype Piece =
    | Name(word: string)
    | Number(number: nat)
    | Quad(address: U32)
    | Quoted(text: string)
    | Mark(symbol: char)
    | Space
    | Semicolon
    | NewLine

  // -------------------------------------------------------------------- text

  function Digit(d: nat): (c: char)
    requires d < 10
    ensures IsDigit(c) && DigitValue(c) == d
  {
    '0' + d as char
  }

  /** A number in decimal, without leading zeros. */
  function Decimal(n: nat): (s: string)
    ensures s != [] && forall i | 0 <= i < |s| :: IsDigit(s[i])
  {
    if n < 10 then [Digit(n)] else Decimal(n / 10) + [Digit(n % 10)]
  }

  /** The four octets of an address, most significant first. Shifting right is dividing. */
  function Octets(v: nat): (o: seq<nat>)
    ensures |o| == 4 && forall i | 0 <= i < 4 :: o[i] <= 255
  {
    [v / 0x100_0000 % 256, v / 0x1_0000 % 256, v / 0x100 % 256, v % 256]
  }

  function Ipv4(v: nat): string {
    var o := Octets(v);
    Decimal(o[0]) + "." + Decimal(o[1]) + "." + Decimal(o[2]) + "." + Decimal(o[3])
  }

  function PieceText(p: Piece): string {
    match p
    case Name(w) => w
    case Number(n) => Decimal(n)
    case Quad(v) => Ipv4(v)
    case Quoted(s) => "\"" + s + "\""
    case Mark(c) => [c]
    case Space => " "
    case Semicolon => ";"
    case NewLine => "\n"
  }

  function Text(ps: seq<Piece>): string {
    if ps == [] then "" else PieceText(ps[0]) + Text(ps[1..])
  }

  lemma {:induction false} TextAppend(a: seq<Piece>, b: seq<Piece>)
    ensures Text(a + b) == Text(a) + Text(b)
  {
    hide PieceText;
    if a == [] {
      assert a + b == b;
    } else {
      assert (a + b)[1..] == a[1..] + b;
      TextAppend(a[1..], b);
    }
  }

  // ------------------------------------------------------------------ tokens

  predicate IsSeparator(p: Piece) {
    p.Semicolon? || p.NewLine?
  }

  function TokenOf(p: Piece): Tok
    requires !p.Space? && !IsSeparator(p)
  {
    match p
    case Name(w) => Word(w)
    case Number(n) => Num(n)
    case Quad(v) => Ip(v)
    case Quoted(s) => Str(s)
    case Mark(c) => Sym(c)
  }

  /** The tokens the pieces are meant to be; a run of separators is one. */
  function TokensFor(ps: seq<Piece>, atStart: bool): seq<Tok> {
    if ps == [] then []
    else if ps[0].Space? then TokensFor(ps[1..], atStart)
    else if IsSeparator(ps[0]) then
      (if atStart then TokensFor(ps[1..], true) else [Break] + TokensFor(ps[1..], true))
    else [TokenOf(ps[0])] + TokensFor(ps[1..], false)
  }

  // ---------------------------------------------------------------- lexable

  /** A word the lexer reads as one: it starts like a word and no `-` in it precedes a digit. */
  predicate LexableWord(w: string) {
    && w != [] && StartsWord(w[0])
    && (forall i | 0 <= i < |w| :: InWord(w[i]))
    && (forall i | 0 <= i < |w| - 1 :: w[i] == '-' ==> !IsDigit(w[i + 1]))
  }

  predicate PlainText(s: string) {
    forall i | 0 <= i < |s| :: s[i] != '"' && s[i] != '\\'
  }

  predicate LexablePiece(p: Piece) {
    match p
    case Name(w) => LexableWord(w)
    case Number(n) => n <= U64_MAX
    case Quoted(s) => PlainText(s)
    case Mark(c) => IsSymbol(c)
    case _ => true
  }

  /** `q` may follow `p` without running into it. */
  predicate MayFollow(p: Piece, q: Piece) {
    match p
    case Name(_) => q.Space? || IsSeparator(q) || (q.Mark? && q.symbol != '-')
    case Number(_) | Quad(_) => q.Space? || IsSeparator(q) || q.Mark?
    case _ => true
  }

  predicate Lexable(ps: seq<Piece>) {
    && (forall i | 0 <= i < |ps| :: LexablePiece(ps[i]))
    && (forall i | 0 <= i < |ps| - 1 :: MayFollow(ps[i], ps[i + 1]))
  }

  lemma LexableTail(ps: seq<Piece>)
    requires Lexable(ps) && ps != []
    ensures Lexable(ps[1..]) && LexablePiece(ps[0]) && (|ps| > 1 ==> MayFollow(ps[0], ps[1]))
  {
    forall i | 0 <= i < |ps| - 2
      ensures MayFollow(ps[1..][i], ps[1..][i + 1])
    {
      assert MayFollow(ps[i + 1], ps[i + 2]);
    }
  }

  // ------------------------------------------------------------- piece lemmas

  /** The text after a word, a number or an address starts with no character of theirs. */
  predicate Stops(s: string) {
    s == "" || (!InWord(s[0]) || s[0] == '-')
  }

  predicate StopsWord(s: string) {
    s == "" || !InWord(s[0])
  }

  lemma TextStops(p: Piece, ps: seq<Piece>)
    requires Lexable([p] + ps)
    ensures (p.Number? || p.Quad?) ==> Stops(Text(ps))
    ensures p.Name? ==> StopsWord(Text(ps))
  {
    LexableTail([p] + ps);
    assert ([p] + ps)[1..] == ps;
    if ps != [] {
      assert MayFollow(p, ps[0]) && LexablePiece(ps[0]);
      assert ps[0].Space? || IsSeparator(ps[0]) || ps[0].Mark? ==>
        |PieceText(ps[0])| == 1 && Text(ps)[0] == PieceText(ps[0])[0];
    }
  }

  lemma {:induction false} ScanWordAll(todo: string, done: string, rest: string)
    requires (forall i | 0 <= i < |todo| :: InWord(todo[i])) && StopsWord(rest)
    requires forall i | 0 <= i < |todo| - 1 :: todo[i] == '-' ==> !IsDigit(todo[i + 1])
    ensures ScanWord(todo + rest, done) == Scan(done + todo, rest)
    decreases |todo|
  {
    if todo == [] {
      assert todo + rest == rest && done + todo == done;
    } else {
      assert (todo + rest)[1..] == todo[1..] + rest;
      assert done + [todo[0]] + todo[1..] == done + todo;
      if |todo| > 1 { assert todo[0] == '-' ==> !IsDigit(todo[1]); }
      forall i | 0 <= i < |todo| - 2
        ensures todo[1..][i] == '-' ==> !IsDigit(todo[1..][i + 1])
      {
        assert todo[i + 1] == '-' ==> !IsDigit(todo[i + 2]);
      }
      ScanWordAll(todo[1..], done + [todo[0]], rest);
    }
  }

  lemma LexName(w: string, rest: string)
    requires LexableWord(w) && StopsWord(rest)
    ensures ScanToken(w + rest) == Ok(Scan(Word(w), rest))
  {
    assert (w + rest)[1..] == w[1..] + rest;
    assert [w[0]] + w[1..] == w;
    forall i | 0 <= i < |w[1..]| - 1
      ensures w[1..][i] == '-' ==> !IsDigit(w[1..][i + 1])
    {
      assert w[i + 1] == '-' ==> !IsDigit(w[i + 2]);
    }
    ScanWordAll(w[1..], [w[0]], rest);
  }

  /** Scanning the decimal form of `n` onto nothing gives `n` back. */
  lemma {:induction false} ScanDecimal(n: nat, rest: string)
    requires n <= U64_MAX
    ensures ScanDigits(Decimal(n) + rest, 0) == ScanDigits(rest, n)
  {
    if n < 10 {
      assert (Decimal(n) + rest)[1..] == rest;
    } else {
      var last := [Digit(n % 10)];
      assert Decimal(n) + rest == Decimal(n / 10) + (last + rest);
      ScanDecimal(n / 10, last + rest);
      assert (last + rest)[1..] == rest;
    }
  }

  lemma ScanDecimalNumber(n: nat, rest: string)
    requires n <= U64_MAX && !DigitAt(rest, 0)
    ensures ScanNumber(Decimal(n) + rest) == Ok(Scan(n, rest))
  {
    ScanDecimal(n, rest);
    var s := Decimal(n) + rest;
    assert s[0] == Decimal(n)[0];
    assert ScanDigits(s, 0) == ScanDigits(s[1..], DigitValue(s[0]));
  }

  lemma LexNumber(n: nat, rest: string)
    requires n <= U64_MAX && Stops(rest)
    ensures ScanToken(Decimal(n) + rest) == Ok(Scan(Num(n), rest))
  {
    ScanDecimalNumber(n, rest);
    assert (Decimal(n) + rest)[0] == Decimal(n)[0];
    assert ScanOctets(rest, [n]) == Ok(Scan([n], rest));
  }

  /** One further part of a dotted quad. */
  lemma ScanOneOctet(n: nat, before: seq<nat>, rest: string)
    requires n <= 255 && !DigitAt(rest, 0)
    ensures ScanOctets("." + Decimal(n) + rest, before) == ScanOctets(rest, before + [n])
  {
    ScanDecimalNumber(n, rest);
    var s := "." + Decimal(n) + rest;
    assert s[1..] == Decimal(n) + rest;
    assert s[1] == Decimal(n)[0];
  }

  /** An address is its octets packed again. */
  lemma OctetsPacked(v: U32)
    ensures Packed(Octets(v)) == v
  {
    hide Packed;
    PackedFits(Octets(v));
    PackStep(v);
  }

  lemma PackStep(v: nat)
    ensures v == v / 256 * 256 + v % 256
    ensures v / 0x100 == v / 0x1_0000 * 256 + v / 0x100 % 256
    ensures v / 0x1_0000 == v / 0x100_0000 * 256 + v / 0x1_0000 % 256
  {
  }

  /** The text of an address after its first octet. */
  lemma QuadTail(b: nat, c: nat, d: nat, before: seq<nat>, rest: string)
    requires b <= 255 && c <= 255 && d <= 255 && Stops(rest)
    ensures ScanOctets("." + Decimal(b) + ("." + Decimal(c) + ("." + Decimal(d) + rest)), before) ==
      Ok(Scan(before + [b] + [c] + [d], rest))
  {
    hide Decimal, ScanOctets;
    ScanOneOctet(b, before, "." + Decimal(c) + ("." + Decimal(d) + rest));
    ScanOneOctet(c, before + [b], "." + Decimal(d) + rest);
    ScanOneOctet(d, before + [b] + [c], rest);
    NoMoreOctets(before + [b] + [c] + [d], rest);
  }

  lemma NoMoreOctets(octets: seq<nat>, rest: string)
    requires Stops(rest)
    ensures ScanOctets(rest, octets) == Ok(Scan(octets, rest))
  {
  }

  lemma QuadOctets(v: U32, rest: string)
    requires Stops(rest)
    ensures ScanNumber(Ipv4(v) + rest).Ok?
    ensures var first := ScanNumber(Ipv4(v) + rest).value;
      first.value == Octets(v)[0] && ScanOctets(first.rest, [first.value]) == Ok(Scan(Octets(v), rest))
  {
    hide Decimal, ScanOctets, ScanNumber, Octets;
    var o := Octets(v);
    var tail := "." + Decimal(o[1]) + ("." + Decimal(o[2]) + ("." + Decimal(o[3]) + rest));
    assert Ipv4(v) + rest == Decimal(o[0]) + tail;
    ScanDecimalNumber(o[0], tail);
    QuadTail(o[1], o[2], o[3], [o[0]], rest);
    assert [o[0]] + [o[1]] + [o[2]] + [o[3]] == o;
  }

  lemma LexQuad(v: U32, rest: string)
    requires Stops(rest)
    ensures ScanToken(Ipv4(v) + rest) == Ok(Scan(Ip(v), rest))
  {
    QuadOctets(v, rest);
    OctetsPacked(v);
    hide Octets, ScanNumber, ScanOctets, Packed;
    QuadStarts(v, rest);
  }

  lemma QuadStarts(v: U32, rest: string)
    ensures var s := Ipv4(v) + rest; s != [] && IsDigit(s[0]) && s[0] != '"'
  {
    var d := Decimal(Octets(v)[0]);
    assert Ipv4(v)[0] == d[0];
  }

  lemma {:induction false} ScanStringAll(todo: string, done: string, rest: string)
    requires PlainText(todo)
    ensures ScanString(todo + ("\"" + rest), done) == Ok(Scan(done + todo, rest))
    decreases |todo|
  {
    var s := todo + ("\"" + rest);
    if todo == [] {
      assert s == "\"" + rest && s[1..] == rest && done + todo == done;
    } else {
      assert s[1..] == todo[1..] + ("\"" + rest);
      assert done + [todo[0]] + todo[1..] == done + todo;
      ScanStringAll(todo[1..], done + [todo[0]], rest);
    }
  }

  lemma LexQuoted(t: string, rest: string)
    requires PlainText(t)
    ensures ScanToken("\"" + t + "\"" + rest) == Ok(Scan(Str(t), rest))
  {
    var s := "\"" + t + "\"" + rest;
    assert s[1..] == t + ("\"" + rest);
    ScanStringAll(t, "", rest);
    assert "" + t == t;
  }

  /** A lexable piece that is a token is read back as that token. */
  lemma LexPiece(p: Piece, rest: string)
    requires LexablePiece(p) && !p.Space? && !IsSeparator(p)
    requires (p.Number? || p.Quad?) ==> Stops(rest)
    requires p.Name? ==> StopsWord(rest)
    ensures PieceText(p) + rest != []
    ensures ScanToken(PieceText(p) + rest) == Ok(Scan(TokenOf(p), rest))
  {
    hide ScanToken;
    match p
    case Name(w) => LexName(w, rest);
    case Number(n) => LexNumber(n, rest);
    case Quad(v) =>
      QuadStarts(v, rest);
      LexQuad(v, rest);
    case Quoted(t) => LexQuoted(t, rest);
    case Mark(c) => LexMark(c, rest);
  }

  lemma LexMark(c: char, rest: string)
    requires IsSymbol(c)
    ensures ScanToken([c] + rest) == Ok(Scan(Sym(c), rest))
  {
    assert ([c] + rest)[1..] == rest;
  }

  /** No piece but a space starts with something the lexer skips. */
  lemma NothingToSkip(p: Piece, rest: string)
    requires LexablePiece(p) && !p.Space?
    ensures PieceText(p) + rest != [] && SkipBlanks(PieceText(p) + rest) == PieceText(p) + rest
    ensures (PieceText(p) + rest)[0] == '\n' || (PieceText(p) + rest)[0] == ';' <==> IsSeparator(p)
  {
    if p.Quad? { QuadStarts(p.address, rest); }
    var s := PieceText(p) + rest;
    assert p.Number? ==> s[0] == Decimal(p.number)[0];
  }

  // -------------------------------------------------------------- the theorem

  lemma SkipSpace(rest: string, atStart: bool)
    ensures TokensOf(" " + rest, atStart) == TokensOf(rest, atStart)
  {
    assert (" " + rest)[1..] == rest;
    assert SkipBlanks(" " + rest) == SkipBlanks(rest);
  }

  /** Lexing the text of lexable pieces gives the tokens they are meant to be. */
  lemma {:induction false} LexPieces(ps: seq<Piece>, atStart: bool)
    requires Lexable(ps)
    ensures TokensOf(Text(ps), atStart) == Ok(TokensFor(ps, atStart))
  {
    if ps != [] {
      var p, rest := ps[0], Text(ps[1..]);
      LexableTail(ps);
      if p.Space? {
        LexPieces(ps[1..], atStart);
        SkipSpace(rest, atStart);
      } else if IsSeparator(p) {
        LexPieces(ps[1..], true);
        LexSeparator(p, rest, atStart);
      } else {
        LexPieces(ps[1..], false);
        assert [p] + ps[1..] == ps;
        TextStops(p, ps[1..]);
        LexToken(p, rest, atStart);
      }
    }
  }

  lemma LexSeparator(p: Piece, rest: string, atStart: bool)
    requires IsSeparator(p)
    ensures TokensOf(PieceText(p) + rest, atStart) ==
      if atStart then TokensOf(rest, true) else Prefixed(Break, TokensOf(rest, true))
  {
    NothingToSkip(p, rest);
    assert (PieceText(p) + rest)[1..] == rest;
    hide SkipBlanks;
    TokensStep(PieceText(p) + rest, atStart);
  }

  lemma LexToken(p: Piece, rest: string, atStart: bool)
    requires LexablePiece(p) && !p.Space? && !IsSeparator(p)
    requires (p.Number? || p.Quad?) ==> Stops(rest)
    requires p.Name? ==> StopsWord(rest)
    ensures TokensOf(PieceText(p) + rest, atStart) == Prefixed(TokenOf(p), TokensOf(rest, false))
  {
    NothingToSkip(p, rest);
    LexPiece(p, rest);
    hide SkipBlanks, ScanToken, PieceText, LexablePiece;
    TokensStep(PieceText(p) + rest, atStart);
  }

  /** One step of the lexer on text with nothing to skip. */
  lemma TokensStep(s: string, atStart: bool)
    requires s != [] && SkipBlanks(s) == s
    ensures s[0] == '\n' || s[0] == ';' ==>
      TokensOf(s, atStart) == if atStart then TokensOf(s[1..], true) else Prefixed(Break, TokensOf(s[1..], true))
    ensures s[0] != '\n' && s[0] != ';' && ScanToken(s).Ok? ==>
      TokensOf(s, atStart) == Prefixed(ScanToken(s).value.value, TokensOf(ScanToken(s).value.rest, false))
  {
    hide SkipBlanks, ScanToken;
  }
}
