/** What the frontend makes of an interface name the emitter wrote between quotes.

A name is a string of characters; a file holds its UTF-8 bytes; the lexer takes every byte for a
character of its own. */
module Names {
  import opened Wrappers
  import opened Lexer
  import opened Pieces

  /** The byte `n`, as the lexer sees it. */
  function Byte(n: nat): char
    requires n < 0x100
  {
    n as char
  }

  /** The UTF-8 bytes of a character (section 3 of RFC 3629). */
  function Utf8(c: char): string {
    var n := c as nat;
    if n < 0x80 then [c]
    else if n < 0x800 then [Byte(0xC0 + n / 0x40), Byte(0x80 + n % 0x40)]
    else if n < 0x1_0000 then [Byte(0xE0 + n / 0x1000), Byte(0x80 + n / 0x40 % 0x40), Byte(0x80 + n % 0x40)]
    else
      [Byte(0xF0 + n / 0x4_0000), Byte(0x80 + n / 0x1000 % 0x40), Byte(0x80 + n / 0x40 % 0x40), Byte(0x80 + n % 0x40)]
  }

  function Utf8All(s: string): string {
    if s == [] then "" else Utf8(s[0]) + Utf8All(s[1..])
  }

  predicate IsAscii(s: string) {
    forall i | 0 <= i < |s| :: s[i] as nat < 0x80
  }

  /** Only a name in ASCII is its own bytes. */
  lemma {:induction false} AsciiIsItself(s: string)
    ensures |Utf8All(s)| >= |s| && (|Utf8All(s)| == |s| <==> IsAscii(s))
    ensures IsAscii(s) ==> Utf8All(s) == s
  {
    if s != [] {
      AsciiIsItself(s[1..]);
      assert IsAscii(s) <==> s[0] as nat < 0x80 && IsAscii(s[1..]);
    }
  }

  lemma {:induction false} Utf8Split(a: string, b: string)
    ensures Utf8All(a + b) == Utf8All(a) + Utf8All(b)
  {
    if a == "" {
      assert a + b == b;
    } else {
      assert (a + b)[1..] == a[1..] + b;
      Utf8Split(a[1..], b);
    }
  }

  /** Bytes of other characters are neither quotes nor backslashes. */
  lemma PlainBytes(c: char)
    ensures Utf8(c) != "" && (c != '"' && c != '\\' ==> PlainText(Utf8(c)))
    ensures Utf8(c)[0] == '\\' <==> c == '\\'
  {
  }

  lemma {:induction false} PlainIsPlainBytes(s: string)
    requires PlainText(s)
    ensures PlainText(Utf8All(s))
  {
    if s != "" {
      assert PlainText(s[1..]);
      PlainIsPlainBytes(s[1..]);
      PlainBytes(s[0]);
    }
  }

  /** Plain text in front is read as it is. */
  lemma {:induction false} PlainFront(plain: string, more: string, acc: string)
    requires PlainText(plain)
    ensures ScanString(plain + more, acc) == ScanString(more, acc + plain)
  {
    if plain == "" {
      assert plain + more == more && acc + plain == acc;
    } else {
      assert (plain + more)[1..] == plain[1..] + more && (acc + [plain[0]]) + plain[1..] == acc + plain;
      assert PlainText(plain[1..]);
      PlainFront(plain[1..], more, acc + [plain[0]]);
    }
  }

  /** What is read only grows. */
  lemma {:induction false} ScanGrows(s: string, acc: string)
    requires ScanString(s, acc).Ok?
    ensures var text := ScanString(s, acc).value.value; |acc| <= |text| && text[..|acc|] == acc
    decreases |s|
  {
    if s[0] == '"' {
    } else if s[0] == '\\' {
      ScanGrows(s[2..], acc + [s[1]]);
    } else {
      ScanGrows(s[1..], acc + [s[0]]);
    }
  }

  /** The index of the first character that is not plain. */
  lemma {:induction false} FirstSpecial(s: string) returns (b: nat)
    requires !PlainText(s)
    ensures b < |s| && PlainText(s[..b]) && (s[b] == '"' || s[b] == '\\')
  {
    if s[0] == '"' || s[0] == '\\' {
      b := 0;
    } else {
      assert !PlainText(s[1..]) by {
        if PlainText(s[1..]) {
          forall i | 0 <= i < |s|
            ensures s[i] != '"' && s[i] != '\\'
          {
            if i > 0 { assert s[i] == s[1..][i - 1]; }
          }
        }
      }
      var k := FirstSpecial(s[1..]);
      b := k + 1;
      forall i | 0 <= i < b
        ensures s[..b][i] != '"' && s[..b][i] != '\\'
      {
        if i > 0 { assert s[..b][i] == s[1..][..k][i - 1]; }
      }
    }
  }

  /** A run of backslashes is read as half as many: what is read has no backslash, or nothing at
  all, where the run in the name still goes on. */
  lemma {:induction false} RunIsHalved(m: nat, more: string, acc: string)
    requires more != "" && more[0] != '\\' && ScanString(Backslashes(m) + more, acc).Ok?
    ensures var text := ScanString(Backslashes(m) + more, acc).value.value;
      |acc| + m / 2 < |text| ==> text[|acc| + m / 2] != '\\'
    decreases m
  {
    var s := Backslashes(m) + more;
    if m == 0 {
      assert s == more;
      if s[0] != '"' {
        ScanGrows(s[1..], acc + [s[0]]);
        assert ScanString(s, acc).value.value[..|acc| + 1] == acc + [s[0]];
      }
    } else {
      assert Backslashes(m) == "\\" + Backslashes(m - 1);
      assert s[0] == '\\' && s[1] == (Backslashes(m - 1) + more)[0];
      var next := acc + [s[1]];
      if m == 1 {
        assert s[1] == more[0];
        ScanGrows(s[2..], next);
        assert ScanString(s, acc).value.value[..|acc| + 1] == next;
      } else {
        assert s[2..] == Backslashes(m - 2) + more;
        RunIsHalved(m - 2, more, next);
      }
    }
  }

  function Backslashes(m: nat): (s: string)
    ensures |s| == m && forall i | 0 <= i < m :: s[i] == '\\'
  {
    seq(m, _ => '\\')
  }

  /** The run of backslashes a string starts with. */
  lemma {:induction false} LeadingRun(s: string) returns (m: nat)
    ensures m <= |s| && s[..m] == Backslashes(m) && (m < |s| ==> s[m] != '\\')
  {
    if s == "" || s[0] != '\\' {
      m := 0;
    } else {
      var k := LeadingRun(s[1..]);
      m := k + 1;
      assert s[..m] == [s[0]] + s[1..][..k];
    }
  }

  lemma {:induction false} BackslashBytes(m: nat)
    ensures Utf8All(Backslashes(m)) == Backslashes(m)
  {
    AsciiIsItself(Backslashes(m));
  }

  /** A name with a quote or a backslash in it is read as something else. */
  lemma SpecialIsLost(name: string, rest: string)
    requires !PlainText(name) && ScanString(Utf8All(name) + ("\"" + rest), "").Ok?
    ensures ScanString(Utf8All(name) + ("\"" + rest), "").value.value != name
  {
    hide Utf8All, ScanString, IsAscii;
    var b := FirstSpecial(name);
    var front, back := name[..b], name[b..];
    var more := Utf8All(back) + ("\"" + rest);
    var plain := Utf8All(front);
    assert name == front + back;
    Utf8Split(front, back);
    assert Utf8All(name) + ("\"" + rest) == plain + more;
    PlainIsPlainBytes(front);
    PlainFront(plain, more, "");
    assert "" + plain == plain;
    AsciiIsItself(front);
    var text := ScanString(more, plain).value.value;
    ScanGrows(more, plain);
    assert text[..|plain|] == plain;
    PlainBytes(name[b]);
    if |plain| > b {
      assert text[b] == plain[b] && plain[b] != name[b];
    } else {
      assert plain == front && back[0] == name[b];
      FirstByte(back, "\"" + rest);
      if name[b] == '"' {
        QuoteEnds(more, plain);
        assert text == plain && |plain| < |name|;
      } else {
        RunIsLost(back, plain, rest);
      }
    }
  }

  lemma FirstByte(s: string, rest: string)
    requires s != ""
    ensures Utf8All(s) + rest != "" && (Utf8All(s) + rest)[0] == Utf8(s[0])[0]
  {
    PlainBytes(s[0]);
  }

  lemma QuoteEnds(s: string, acc: string)
    requires s != "" && s[0] == '"'
    ensures ScanString(s, acc) == Ok(Scan(acc, s[1..]))
  {
  }

  lemma RunIsLost(back: string, plain: string, rest: string)
    requires back != "" && back[0] == '\\' && ScanString(Utf8All(back) + ("\"" + rest), plain).Ok?
    ensures ScanString(Utf8All(back) + ("\"" + rest), plain).value.value != plain + back
  {
    hide ScanString, Utf8;
    var m := LeadingRun(back);
    var after := Utf8All(back[m..]) + ("\"" + rest);
    assert back == back[..m] + back[m..];
    Utf8Split(back[..m], back[m..]);
    BackslashBytes(m);
    assert Utf8All(back) + ("\"" + rest) == Backslashes(m) + after;
    if m < |back| { PlainBytes(back[m]); assert back[m..][0] == back[m]; }
    assert after[0] != '\\';
    RunIsHalved(m, after, plain);
    assert m > 0 && (plain + back)[|plain| + m / 2] == back[m / 2] == back[..m][m / 2];
  }

  /** A name comes back from between its quotes exactly when it is in ASCII without quotes and
  backslashes. Other names become other names, or no name at all. */
  lemma NameComesBackExactly(name: string, rest: string)
    ensures (exists after: string :: ScanToken("\"" + Utf8All(name) + "\"" + rest) == Ok(Scan(Str(name), after)))
      <==> IsAscii(name) && PlainText(name)
  {
    AsciiIsItself(name);
    var bytes := Utf8All(name);
    var s := "\"" + bytes + "\"" + rest;
    assert s[1..] == bytes + ("\"" + rest);
    if PlainText(name) {
      PlainIsPlainBytes(name);
      LexQuoted(bytes, rest);
    } else if ScanString(s[1..], "").Ok? {
      SpecialIsLost(name, rest);
    }
  }

  // ------------------------------------------------------- table and chain names

  /** What a word takes: characters of a word, and no hyphen in front of a digit. */
  lemma {:induction false} ScanWordTakes(s: string, acc: string)
    ensures var scan := ScanWord(s, acc);
      var n := |s| - |scan.rest|;
      && scan.value == acc + s[..n]
      && forall i | 0 <= i < n :: InWord(s[i]) && (s[i] == '-' && i + 1 < |s| ==> !IsDigit(s[i + 1]))
  {
    if s != "" && InWord(s[0]) && !(s[0] == '-' && DigitAt(s, 1)) {
      ScanWordTakes(s[1..], acc + [s[0]]);
      var n := |s| - |ScanWord(s, acc).rest|;
      assert s[..n] == [s[0]] + s[1..][..n - 1];
      forall i | 0 <= i < n
        ensures InWord(s[i]) && (s[i] == '-' && i + 1 < |s| ==> !IsDigit(s[i + 1]))
      {
        if i > 0 { assert s[i] == s[1..][i - 1]; }
      }
    }
  }

  /** A table or chain name comes back as one word exactly when it is a word to the lexer. */
  lemma WordComesBackExactly(name: string, rest: string)
    requires StopsWord(rest) && name != ""
    ensures (exists after: string :: ScanToken(name + rest) == Ok(Scan(Word(name), after))) <==> LexableWord(name)
  {
    var s := name + rest;
    assert s[0] == name[0] && s[1..] == name[1..] + rest;
    if LexableWord(name) { LexName(name, rest); }
    if StartsWord(s[0]) && ScanWord(s[1..], [s[0]]).value == name {
      ScannedIsLexable(name[0], name[1..] + rest);
    }
  }

  /** What the lexer takes for a word is one. */
  lemma ScannedIsLexable(first: char, more: string)
    requires StartsWord(first)
    ensures LexableWord(ScanWord(more, [first]).value)
  {
    var w := ScanWord(more, [first]).value;
    ScanWordTakes(more, [first]);
    forall i | 0 <= i < |w|
      ensures InWord(w[i]) && (i < |w| - 1 && w[i] == '-' ==> !IsDigit(w[i + 1]))
    {
      assert i > 0 ==> w[i] == more[i - 1];
      assert 0 < i < |w| - 1 ==> w[i + 1] == more[i];
    }
  }
}
