/** The tokeniser: source text to tokens.

Text is its bytes, one character each. Line and column numbers, which only
error messages use, are left out. */
module Lexer {
  import opened Wrappers
  import opened Arith

  type U32 = x: nat | x < 0x1_0000_0000

  datatype Tok =
    | Word(text: string)
    | Num(number: nat)
    | Ip(address: U32)
    | Str(text: string)
    | Sym(symbol: char)
    | Break
    | Eof

  /** The kinds of rejection. */
  datatype Cause = Syntax | OutOfScope | Unimplemented | Soundness

  // ------------------------------------------------------------ characters

  predicate IsDigit(c: char) { '0' <= c <= '9' }

  predicate IsLetter(c: char) { 'a' <= c <= 'z' || 'A' <= c <= 'Z' }

  predicate StartsWord(c: char) { IsLetter(c) || c == '_' }

  predicate InWord(c: char) { IsLetter(c) || IsDigit(c) || c == '_' || c == '-' || c == '.' }

  predicate IsBlank(c: char) { c == ' ' || c == '\t' || c == '\r' }

  predicate IsSymbol(c: char) {
    c == '{' || c == '}' || c == ',' || c == '/' || c == '-' || c == '!' || c == '=' || c == '@' || c == '*'
      || c == '(' || c == ')'
  }

  function DigitValue(c: char): nat
    requires IsDigit(c)
  {
    c as nat - '0' as nat
  }

  /** The character `n` places ahead is there and a digit. */
  predicate DigitAt(s: string, n: nat) {
    n < |s| && IsDigit(s[n])
  }

  // ----------------------------------------------------------- specification

  function SkipComment(s: string): (rest: string)
    ensures |rest| <= |s|
  {
    if s == [] || s[0] == '\n' then s else SkipComment(s[1..])
  }

  /** Drop blanks, comments and line continuations. */
  function SkipBlanks(s: string): (rest: string)
    ensures |rest| <= |s|
    decreases |s|
  {
    if s == [] then s
    else if IsBlank(s[0]) then SkipBlanks(s[1..])
    else if s[0] == '#' then SkipBlanks(SkipComment(s[1..]))
    else if s[0] == '\\' && |s| > 1 && s[1] == '\n' then SkipBlanks(s[2..])
    else s
  }

  /** A value and the text after it. */
  datatype Scan<+T> = Scan(value: T, rest: string)

  type Scanned<+T> = Result<Scan<T>, Cause>

  /** Digits accumulated onto `n`; too large for a machine word is an error. */
  function ScanDigits(s: string, n: nat): (r: Scanned<nat>)
    ensures r.Ok? ==> |r.value.rest| <= |s|
  {
    if !DigitAt(s, 0) then Ok(Scan(n, s))
    else if n * 10 + DigitValue(s[0]) > U64_MAX then Err(Syntax)
    else ScanDigits(s[1..], n * 10 + DigitValue(s[0]))
  }

  lemma DigitsStep(s: string, n: nat)
    ensures ScanDigits(s, n) ==
      if !DigitAt(s, 0) then Ok(Scan(n, s))
      else if n * 10 + DigitValue(s[0]) > U64_MAX then Err(Syntax)
      else ScanDigits(s[1..], n * 10 + DigitValue(s[0]))
  {
  }

  /** A non-empty run of digits. */
  function ScanNumber(s: string): (r: Scanned<nat>)
    ensures r.Ok? ==> |r.value.rest| < |s|
  {
    if !DigitAt(s, 0) then Err(Syntax)
    else
      var n := DigitValue(s[0]);
      ScanDigits(s[1..], n)
  }

  /** The further parts of a dotted quad. */
  function ScanOctets(s: string, octets: seq<nat>): (r: Scanned<seq<nat>>)
    ensures r.Ok? ==> |r.value.rest| <= |s|
    decreases |s|
  {
    if |s| > 0 && s[0] == '.' && DigitAt(s, 1) then
      match ScanNumber(s[1..])
      case Err(e) => Err(e)
      case Ok(part) => ScanOctets(part.rest, octets + [part.value])
    else Ok(Scan(octets, s))
  }

  /** Four octets packed into an address: shifting left by eight and adding the next. */
  function Packed(octets: seq<nat>): nat {
    if octets == [] then 0 else Packed(octets[..|octets| - 1]) * 256 + octets[|octets| - 1]
  }

  lemma PackedFits(octets: seq<nat>)
    requires |octets| == 4 && forall i | 0 <= i < 4 :: octets[i] <= 255
    ensures Packed(octets) == ((octets[0] * 256 + octets[1]) * 256 + octets[2]) * 256 + octets[3] < 0x1_0000_0000
  {
    var three, two, one := octets[..3], octets[..2], octets[..1];
    assert three[..2] == two && two[..1] == one && one[..0] == [];
    assert Packed(one) == octets[0];
    assert Packed(two) == Packed(one) * 256 + octets[1];
    assert Packed(three) == Packed(two) * 256 + octets[2];
  }

  /** The loop over the octets. */
  method PackOctets(octets: seq<nat>) returns (r: Result<Tok, Cause>)
    requires |octets| == 4
    ensures r.Ok? <==> forall i | 0 <= i < 4 :: octets[i] <= 255
    ensures if r.Ok? then r.value.Ip? && r.value.address == Packed(octets) else r.error == Syntax
  {
    var v := 0;
    for i := 0 to 4
      invariant v == Packed(octets[..i])
      invariant forall j | 0 <= j < i :: octets[j] <= 255
    {
      if octets[i] > 255 {
        return Err(Syntax);
      }
      v := v * 256 + octets[i];
      assert octets[..i + 1][..i] == octets[..i];
    }
    assert octets[..4] == octets;
    PackedFits(octets);
    r := Ok(Ip(v));
  }

  function ScanNumberOrIp(s: string): (r: Scanned<Tok>)
    ensures r.Ok? ==> |r.value.rest| < |s|
  {
    match ScanNumber(s)
    case Err(e) => Err(e)
    case Ok(first) =>
      match ScanOctets(first.rest, [first.value])
      case Err(e) => Err(e)
      case Ok(octets) =>
        if |octets.value| == 1 then Ok(Scan(Num(first.value), first.rest))
        else if |octets.value| != 4 then Err(Syntax)
        else if exists i :: 0 <= i < 4 && octets.value[i] > 255 then Err(Syntax)
        else
          PackedFits(octets.value);
          Ok(Scan(Ip(Packed(octets.value)), octets.rest))
  }

  function ScanString(s: string, acc: string): (r: Scanned<string>)
    ensures r.Ok? ==> |r.value.rest| < |s|
    decreases |s|
  {
    if s == [] then Err(Syntax)
    else if s[0] == '"' then Ok(Scan(acc, s[1..]))
    else if s[0] == '\\' then
      (if |s| > 1 then ScanString(s[2..], acc + [s[1]]) else Err(Syntax))
    else ScanString(s[1..], acc + [s[0]])
  }

  /** A word goes on over letters, digits, `_`, `.` and any `-` that no digit follows. */
  function ScanWord(s: string, acc: string): (r: Scan<string>)
    ensures |r.rest| <= |s|
  {
    if s == [] || !InWord(s[0]) || (s[0] == '-' && DigitAt(s, 1)) then Scan(acc, s)
    else ScanWord(s[1..], acc + [s[0]])
  }

  /** One token that is not a statement separator. */
  function ScanToken(s: string): (r: Scanned<Tok>)
    requires s != []
    ensures r.Ok? ==> |r.value.rest| < |s| && r.value.value != Break && r.value.value != Eof
  {
    var c := s[0];
    if c == '"' then
      match ScanString(s[1..], "")
      case Err(e) => Err(e)
      case Ok(text) => Ok(Scan(Str(text.value), text.rest))
    else if IsDigit(c) then ScanNumberOrIp(s)
    else if StartsWord(c) then
      var word := ScanWord(s[1..], [c]);
      Ok(Scan(Word(word.value), word.rest))
    else if IsSymbol(c) then Ok(Scan(Sym(c), s[1..]))
    else Err(Syntax)
  }

  function Prefixed(tok: Tok, r: Result<seq<Tok>, Cause>): Result<seq<Tok>, Cause> {
    match r
    case Err(e) => Err(e)
    case Ok(toks) => Ok([tok] + toks)
  }

  /** The tokens of `s`, without the final `Eof`. `atStart` says that the last token was a
  separator or that there is none yet; another separator then adds nothing. */
  function TokensOf(s: string, atStart: bool): Result<seq<Tok>, Cause>
    decreases |s|
  {
    var t := SkipBlanks(s);
    if t == [] then Ok([])
    else if t[0] == '\n' || t[0] == ';' then
      (if atStart then TokensOf(t[1..], true) else Prefixed(Break, TokensOf(t[1..], true)))
    else
      match ScanToken(t)
      case Err(e) => Err(e)
      case Ok(scan) => Prefixed(scan.value, TokensOf(scan.rest, false))
  }

  // ---------------------------------------------------------------- the lexer

  class Lexer {
    const src: string
    var pos: nat

    ghost predicate Valid()
      reads this
    {
      pos <= |src|
    }

    /** The text not yet consumed. */
    ghost function Rest(): string
      reads this
      requires Valid()
    {
      src[pos..]
    }

    constructor (src: string)
      ensures Valid() && this.src == src && Rest() == src
    {
      this.src := src;
      pos := 0;
    }

    method Peek() returns (c: Option<char>)
      requires Valid()
      ensures c == if Rest() == [] then None else Some(Rest()[0])
    {
      c := if pos < |src| then Some(src[pos]) else None;
    }

    method PeekAt(n: nat) returns (c: Option<char>)
      requires Valid()
      ensures c == if n < |Rest()| then Some(Rest()[n]) else None
    {
      c := if pos + n < |src| then Some(src[pos + n]) else None;
    }

    method Bump() returns (c: Option<char>)
      requires Valid()
      modifies this
      ensures Valid()
      ensures old(Rest()) == [] ==> c == None && Rest() == []
      ensures old(Rest()) != [] ==> c == Some(old(Rest())[0]) && Rest() == old(Rest())[1..]
    {
      if pos == |src| {
        return None;
      }
      c := Some(src[pos]);
      pos := pos + 1;
    }

    /** The inner loop over blanks, comments and line continuations. */
    method SkipBlank()
      requires Valid()
      modifies this
      ensures Valid() && Rest() == SkipBlanks(old(Rest()))
    {
      while true
        invariant Valid() && SkipBlanks(Rest()) == SkipBlanks(old(Rest()))
        decreases |Rest()|
      {
        var c := Peek();
        var next := PeekAt(1);
        if c == Some(' ') || c == Some('\t') || c == Some('\r') {
          var _ := Bump();
        } else if c == Some('#') {
          var _ := Bump();
          SkipToLineEnd();
        } else if c == Some('\\') && next == Some('\n') {
          var _ := Bump();
          var _ := Bump();
        } else {
          break;
        }
      }
    }

    method SkipToLineEnd()
      requires Valid()
      modifies this
      ensures Valid() && Rest() == SkipComment(old(Rest()))
    {
      var c := Peek();
      while c.Some? && c.value != '\n'
        invariant Valid() && c == if Rest() == [] then None else Some(Rest()[0])
        invariant SkipComment(Rest()) == SkipComment(old(Rest()))
        decreases |Rest()|
      {
        var _ := Bump();
        c := Peek();
      }
    }

    /** A run of digits; `checked_mul` and `checked_add` refuse what does not fit. */
    method ReadNumber() returns (r: Result<nat, Cause>)
      requires Valid()
      modifies this
      ensures Valid()
      ensures match ScanNumber(old(Rest()))
        case Err(e) => r == Err(e)
        case Ok(scan) => r == Ok(scan.value) && Rest() == scan.rest
    {
      hide ScanDigits;
      var n: nat, any := 0, false;
      var c := Peek();
      while c.Some? && IsDigit(c.value)
        invariant Valid() && c == if Rest() == [] then None else Some(Rest()[0])
        invariant !any ==> n == 0 && Rest() == old(Rest())
        invariant any ==> DigitAt(old(Rest()), 0) && ScanDigits(Rest(), n) == ScanNumber(old(Rest()))
        invariant n <= U64_MAX
        decreases |Rest()|
      {
        DigitsStep(Rest(), n);
        any := true;
        if n * 10 + DigitValue(c.value) > U64_MAX {
          return Err(Syntax);
        }
        n := n * 10 + DigitValue(c.value);
        var _ := Bump();
        c := Peek();
      }
      DigitsStep(Rest(), n);
      if !any {
        return Err(Syntax);
      }
      r := Ok(n);
    }

    method ReadNumberOrIp() returns (r: Result<Tok, Cause>)
      requires Valid()
      modifies this
      ensures Valid()
      ensures match ScanNumberOrIp(old(Rest()))
        case Err(e) => r == Err(e)
        case Ok(scan) => r == Ok(scan.value) && Rest() == scan.rest
    {
      hide ScanNumber;
      var first := ReadNumber();
      if first.Err? {
        return Err(first.error);
      }
      ghost var start := Rest();
      var octets := [first.value];
      var c := Peek();
      var next := PeekAt(1);
      if !(c == Some('.') && next.Some? && IsDigit(next.value)) {
        return Ok(Num(first.value));
      }
      while c == Some('.') && next.Some? && IsDigit(next.value)
        invariant Valid() && |octets| >= 1
        invariant Rest() == start ==> octets == [first.value]
        invariant Rest() != start ==> |octets| > 1
        invariant c == if Rest() == [] then None else Some(Rest()[0])
        invariant next == if 1 < |Rest()| then Some(Rest()[1]) else None
        invariant ScanOctets(Rest(), octets) == ScanOctets(start, [first.value])
        invariant |Rest()| <= |start|
        decreases |Rest()|
      {
        var _ := Bump();
        var part := ReadNumber();
        if part.Err? {
          return Err(part.error);
        }
        octets := octets + [part.value];
        c := Peek();
        next := PeekAt(1);
      }
      if |octets| != 4 {
        return Err(Syntax);
      }
      r := PackOctets(octets);
    }

    /** The rest of a quoted string; a backslash takes the next character as it is. */
    method ReadString() returns (r: Result<string, Cause>)
      requires Valid()
      modifies this
      ensures Valid()
      ensures match ScanString(old(Rest()), "")
        case Err(e) => r == Err(e)
        case Ok(scan) => r == Ok(scan.value) && Rest() == scan.rest
    {
      var s := "";
      while true
        invariant Valid() && ScanString(Rest(), s) == ScanString(old(Rest()), "")
        decreases |Rest()|
      {
        var c := Bump();
        if c == None {
          return Err(Syntax);
        } else if c == Some('"') {
          break;
        } else if c == Some('\\') {
          var n := Bump();
          if n.Some? {
            s := s + [n.value];
          }
        } else {
          s := s + [c.value];
        }
      }
      r := Ok(s);
    }

    method ReadWord() returns (w: string)
      requires Valid() && Rest() != [] && StartsWord(Rest()[0])
      modifies this
      ensures Valid() && ScanWord(old(Rest())[1..], [old(Rest())[0]]) == Scan(w, Rest())
    {
      w := "";
      var c := Peek();
      while c.Some? && InWord(c.value)
        invariant Valid() && c == if Rest() == [] then None else Some(Rest()[0])
        invariant w == "" ==> Rest() == old(Rest())
        invariant w != "" ==> ScanWord(Rest(), w) == ScanWord(old(Rest())[1..], [old(Rest())[0]])
        decreases |Rest()|
      {
        var next := PeekAt(1);
        if c.value == '-' && next.Some? && IsDigit(next.value) {
          break;
        }
        assert w == "" ==> w + [c.value] == [c.value];
        w := w + [c.value];
        var _ := Bump();
        c := Peek();
      }
    }

    method ReadToken() returns (r: Result<Tok, Cause>)
      requires Valid() && Rest() != []
      modifies this
      ensures Valid()
      ensures match ScanToken(old(Rest()))
        case Err(e) => r == Err(e)
        case Ok(scan) => r == Ok(scan.value) && Rest() == scan.rest
    {
      hide ScanString, ScanNumberOrIp, ScanWord;
      var peeked := Peek();
      var c := peeked.value;
      if c == '"' {
        var _ := Bump();
        var s := ReadString();
        r := if s.Ok? then Ok(Str(s.value)) else Err(s.error);
      } else if IsDigit(c) {
        r := ReadNumberOrIp();
      } else if StartsWord(c) {
        var w := ReadWord();
        r := Ok(Word(w));
      } else if IsSymbol(c) {
        var _ := Bump();
        r := Ok(Sym(c));
      } else {
        var _ := Bump();
        r := Err(Syntax);
      }
    }
  }

  predicate AtStatementStart(out: seq<Tok>) {
    out == [] || out[|out| - 1] == Break
  }

  function Appended(out: seq<Tok>, r: Result<seq<Tok>, Cause>): Result<seq<Tok>, Cause> {
    match r
    case Err(e) => Err(e)
    case Ok(toks) => Ok(out + toks)
  }

  lemma AppendNothing(r: Result<seq<Tok>, Cause>)
    ensures Appended([], r) == r
  {
    if r.Ok? { assert [] + r.value == r.value; }
  }

  lemma AppendOne(out: seq<Tok>, tok: Tok, r: Result<seq<Tok>, Cause>)
    ensures Appended(out, Prefixed(tok, r)) == Appended(out + [tok], r)
  {
    if r.Ok? { assert out + ([tok] + r.value) == (out + [tok]) + r.value; }
  }

  /** With `out` read and `rest` left, the tokens of `src` are still to come out right. */
  ghost predicate OnTrack(src: string, out: seq<Tok>, rest: string) {
    Appended(out, TokensOf(rest, AtStatementStart(out))) == TokensOf(src, true)
  }

  lemma OnTrackFirst(src: string)
    ensures OnTrack(src, [], src)
  {
    AppendNothing(TokensOf(src, true));
  }

  lemma OnTrackBreak(src: string, out: seq<Tok>, rest: string)
    requires OnTrack(src, out, rest) && SkipBlanks(rest) != []
      && (SkipBlanks(rest)[0] == '\n' || SkipBlanks(rest)[0] == ';')
    ensures OnTrack(src, if AtStatementStart(out) then out else out + [Break], SkipBlanks(rest)[1..])
  {
    AppendOne(out, Break, TokensOf(SkipBlanks(rest)[1..], true));
  }

  lemma OnTrackToken(src: string, out: seq<Tok>, rest: string)
    requires OnTrack(src, out, rest) && SkipBlanks(rest) != []
    requires SkipBlanks(rest)[0] != '\n' && SkipBlanks(rest)[0] != ';'
    ensures var r := ScanToken(SkipBlanks(rest));
      if r.Ok? then OnTrack(src, out + [r.value.value], r.value.rest) else TokensOf(src, true) == Err(r.error)
  {
    hide SkipBlanks, ScanToken;
    var r := ScanToken(SkipBlanks(rest));
    if r.Ok? {
      var scan := r.value;
      AppendOne(out, scan.value, TokensOf(scan.rest, false));
      assert !AtStatementStart(out + [scan.value]);
    }
  }

  lemma OnTrackEnd(src: string, out: seq<Tok>, rest: string)
    requires OnTrack(src, out, rest) && SkipBlanks(rest) == []
    ensures TokensOf(src, true) == Ok(out)
  {
    assert out + [] == out;
  }

  /** The tokens of the source, with the end mark. */
  method Lex(src: string) returns (r: Result<seq<Tok>, Cause>)
    ensures r == if TokensOf(src, true).Ok? then Ok(TokensOf(src, true).value + [Eof])
                 else Err(TokensOf(src, true).error)
  {
    hide *;
    OnTrackFirst(src);
    var lx := new Lexer(src);
    var out: seq<Tok> := [];
    while true
      invariant lx.Valid() && OnTrack(src, out, lx.Rest())
      decreases |lx.Rest()|
    {
      ghost var rest := lx.Rest();
      lx.SkipBlank();
      var c := lx.Peek();
      if c == None {
        OnTrackEnd(src, out, rest);
        break;
      }
      if c == Some('\n') || c == Some(';') {
        OnTrackBreak(src, out, rest);
        var _ := lx.Bump();
        if !AtStatementStart(out) {
          out := out + [Break];
        }
      } else {
        OnTrackToken(src, out, rest);
        var tok := lx.ReadToken();
        if tok.Err? {
          return Err(tok.error);
        }
        out := out + [tok.value];
      }
    }
    r := Ok(out + [Eof]);
  }
}
