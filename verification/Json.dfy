/** The JSON writer, and a reader for JSON texts that undoes it.

The writer has no reader of its own. The one here follows the grammar of
RFC 8259 for texts whose numbers are unsigned machine words and whose `\u`
escapes are not surrogates; it knows nothing of how the writer lays text out. */
module Json {
  import opened Wrappers
  import opened Arith
  import opened Lexer
  import opened Pieces

  type Word64 = n: nat | n <= U64_MAX

  datatype Json =
    | Null
    | Bool(truth: bool)
    | Num(number: Word64)
    | Str(text: string)
    | Arr(items: seq<Json>)
    | Obj(fields: seq<Field>)

  datatype Field = Field(name: string, value: Json)

  // ----------------------------------------------------------- written text

  function HexDigit(d: nat): (c: char)
    requires d < 16
    ensures HexValue(c) == Some(d)
  {
    if d < 10 then '0' + d as char else 'a' + (d - 10) as char
  }

  function Escaped(c: char): string {
    if c == '"' then "\\\""
    else if c == '\\' then "\\\\"
    else if c == '\n' then "\\n"
    else if c == '\r' then "\\r"
    else if c == '\t' then "\\t"
    else if c < ' ' then "\\u00" + [HexDigit(c as nat / 16), HexDigit(c as nat % 16)]
    else [c]
  }

  function EscapedAll(s: string): string {
    if s == [] then "" else Escaped(s[0]) + EscapedAll(s[1..])
  }

  function Literal(s: string): string { "\"" + EscapedAll(s) + "\"" }

  function Indent(depth: nat): string {
    if depth == 0 then "" else Indent(depth - 1) + "  "
  }

  /** What follows an entry: a comma unless it is the last. */
  function Ending(last: bool): string { if last then "\n" else ",\n" }

  function Shown(j: Json, depth: nat): string
    decreases j, 0
  {
    match j
    case Null => "null"
    case Bool(b) => if b then "true" else "false"
    case Num(n) => Decimal(n)
    case Str(s) => Literal(s)
    case Arr(items) =>
      if items == [] then "[]" else "[\n" + ShownItems(items, depth + 1) + Indent(depth) + "]"
    case Obj(fields) =>
      if fields == [] then "{}" else "{\n" + ShownFields(fields, depth + 1) + Indent(depth) + "}"
  }

  function ShownItems(items: seq<Json>, depth: nat): string
    decreases items
  {
    if items == [] then ""
    else Indent(depth) + Shown(items[0], depth) + Ending(|items| == 1) + ShownItems(items[1..], depth)
  }

  function ShownFields(fields: seq<Field>, depth: nat): string
    decreases fields
  {
    if fields == [] then ""
    else
      Indent(depth) + Literal(fields[0].name) + ": " + Shown(fields[0].value, depth) + Ending(|fields| == 1)
      + ShownFields(fields[1..], depth)
  }

  // ---------------------------------------------------------------- writing

  method EscapeChar(c: char, start: string) returns (out: string)
    ensures out == start + Escaped(c)
  {
    match c {
      case '"' => out := start + "\\\"";
      case '\\' => out := start + "\\\\";
      case '\n' => out := start + "\\n";
      case '\r' => out := start + "\\r";
      case '\t' => out := start + "\\t";
      case _ =>
        if c < ' ' {
          out := start + ("\\u00" + [HexDigit(c as nat / 16), HexDigit(c as nat % 16)]);
        } else {
          out := start + [c];
        }
    }
  }

  method Escape(s: string, start: string) returns (out: string)
    ensures out == start + Literal(s)
  {
    hide Escaped;
    out := start + "\"";
    assert s[0..] == s;
    for k := 0 to |s|
      invariant out + EscapedAll(s[k..]) == start + "\"" + EscapedAll(s)
    {
      assert s[k..][0] == s[k] && s[k..][1..] == s[k + 1..];
      Regroup(out, Escaped(s[k]), EscapedAll(s[k + 1..]));
      out := EscapeChar(s[k], out);
    }
    assert s[|s|..] == [] && out == start + "\"" + EscapedAll(s);
    RegroupFour(start, "\"", EscapedAll(s), "", "\"");
    assert EscapedAll(s) + "" == EscapedAll(s) && out + "" == out;
    assert "\"" + EscapedAll(s) + "" == "\"" + EscapedAll(s);
    out := out + "\"";
  }

  lemma Regroup(a: string, b: string, c: string)
    ensures a + (b + c) == a + b + c
  {
  }

  lemma RegroupFour(start: string, a: string, b: string, c: string, d: string)
    ensures start + a + b + c + d == start + (a + b + c + d)
  {
  }

  method Pad(depth: nat, start: string) returns (out: string)
    ensures out == start + Indent(depth)
  {
    out := start;
    for k := 0 to depth
      invariant out == start + Indent(k)
    {
      out := out + "  ";
    }
  }

  method Write(j: Json, start: string, depth: nat) returns (out: string)
    ensures out == start + Shown(j, depth)
    decreases j, 0
  {
    hide ShownItems, ShownFields, Indent, Literal;
    match j {
      case Null => out := start + "null";
      case Bool(b) => out := start + if b then "true" else "false";
      case Num(n) => out := start + Decimal(n);
      case Str(s) => out := Escape(s, start);
      case Arr(items) =>
        if items == [] {
          return start + "[]";
        }
        RegroupFour(start, "[\n", ShownItems(items, depth + 1), Indent(depth), "]");
        out := WriteItems(items, start + "[\n", depth + 1);
        out := Pad(depth, out);
        out := out + "]";
      case Obj(fields) =>
        if fields == [] {
          return start + "{}";
        }
        RegroupFour(start, "{\n", ShownFields(fields, depth + 1), Indent(depth), "}");
        out := WriteFields(fields, start + "{\n", depth + 1);
        out := Pad(depth, out);
        out := out + "}";
    }
  }

  method WriteItems(items: seq<Json>, start: string, depth: nat) returns (out: string)
    ensures out == start + ShownItems(items, depth)
    decreases items
  {
    hide Shown, Indent, ShownItems;
    out := start;
    NoItems(items, depth);
    for k := 0 to |items|
      invariant out + ShownItems(items[k..], depth) == start + ShownItems(items, depth)
    {
      ItemsStep(items, k, depth, out);
      out := Pad(depth, out);
      out := Write(items[k], out, depth);
      if k + 1 < |items| {
        out := out + ",";
      }
      out := out + "\n";
    }
    NoItems(items, depth);
  }

  method WriteFields(fields: seq<Field>, start: string, depth: nat) returns (out: string)
    ensures out == start + ShownFields(fields, depth)
    decreases fields
  {
    hide Shown, Indent, Literal, ShownFields;
    out := start;
    NoFields(fields, depth);
    for k := 0 to |fields|
      invariant out + ShownFields(fields[k..], depth) == start + ShownFields(fields, depth)
    {
      FieldsStep(fields, k, depth, out);
      out := Pad(depth, out);
      out := Escape(fields[k].name, out);
      out := out + ": ";
      out := Write(fields[k].value, out, depth);
      if k + 1 < |fields| {
        out := out + ",";
      }
      out := out + "\n";
    }
    NoFields(fields, depth);
  }

  lemma NoItems(items: seq<Json>, depth: nat)
    ensures ShownItems(items[0..], depth) == ShownItems(items, depth) && ShownItems(items[|items|..], depth) == ""
  {
    assert items[0..] == items;
  }

  lemma NoFields(fields: seq<Field>, depth: nat)
    ensures ShownFields(fields[0..], depth) == ShownFields(fields, depth)
    ensures ShownFields(fields[|fields|..], depth) == ""
  {
    assert fields[0..] == fields;
  }

  lemma ItemsStep(items: seq<Json>, k: nat, depth: nat, out: string)
    requires k < |items|
    ensures out + Indent(depth) + Shown(items[k], depth) + Ending(k + 1 == |items|) + ShownItems(items[k + 1..], depth)
      == out + ShownItems(items[k..], depth)
  {
    hide Indent, Shown;
    assert items[k..][0] == items[k] && items[k..][1..] == items[k + 1..];
  }

  lemma FieldsStep(fields: seq<Field>, k: nat, depth: nat, out: string)
    requires k < |fields|
    ensures
      out + Indent(depth) + Literal(fields[k].name) + ": " + Shown(fields[k].value, depth) + Ending(k + 1 == |fields|)
      + ShownFields(fields[k + 1..], depth)
      == out + ShownFields(fields[k..], depth)
  {
    hide Indent, Shown, Literal;
    assert fields[k..][0] == fields[k] && fields[k..][1..] == fields[k + 1..];
  }

  method Render(j: Json) returns (out: string)
    ensures out == Shown(j, 0) + "\n"
    ensures ReadText(out) == Some(j)
  {
    out := Write(j, "", 0);
    out := out + "\n";
    TextReads(j);
  }

  // ---------------------------------------------------------------- reading

  predicate IsSpace(c: char) { c == ' ' || c == '\t' || c == '\n' || c == '\r' }

  function SkipSpace(s: string): (rest: string)
    ensures |rest| <= |s|
  {
    if s == [] || !IsSpace(s[0]) then s else SkipSpace(s[1..])
  }

  /** The text after `word`, when it starts with it. */
  function After(s: string, word: string): (rest: Option<string>)
    ensures rest.Some? ==> |rest.value| + |word| == |s|
  {
    if word <= s then Some(s[|word|..]) else None
  }

  function HexValue(c: char): (v: Option<nat>)
    ensures v.Some? ==> v.value < 16
  {
    if '0' <= c <= '9' then Some(c as nat - '0' as nat)
    else if 'a' <= c <= 'f' then Some(c as nat - 'a' as nat + 10)
    else if 'A' <= c <= 'F' then Some(c as nat - 'A' as nat + 10)
    else None
  }

  /** The character named by the four hexadecimal digits `s` starts with. */
  function ReadHex(s: string): Option<char> {
    if |s| < 4 then None
    else
      match (HexValue(s[0]), HexValue(s[1]), HexValue(s[2]), HexValue(s[3]))
      case (Some(a), Some(b), Some(c), Some(d)) =>
        var code := a * 0x1000 + b * 0x100 + c * 0x10 + d;
        if 0xD800 <= code <= 0xDFFF then None else Some(code as char)
      case _ => None
  }

  /** What a backslash and the character `c` stand for, `u` apart. */
  function Unescaped(c: char): Option<char> {
    if c == '"' || c == '\\' || c == '/' then Some(c)
    else if c == 'n' then Some('\n')
    else if c == 'r' then Some('\r')
    else if c == 't' then Some('\t')
    else if c == 'b' then Some(8 as char)
    else if c == 'f' then Some(12 as char)
    else None
  }

  type Read<+T> = Option<Scan<T>>

  /** One character of a string: itself, or an escape. No control character stands for itself. */
  function ReadChar(s: string): (r: Read<char>)
    ensures r.Some? ==> |r.value.rest| < |s|
  {
    if s == [] || s[0] < ' ' || s[0] == '"' then None
    else if s[0] != '\\' then Some(Scan(s[0], s[1..]))
    else if |s| == 1 then None
    else if s[1] == 'u' then
      match ReadHex(s[2..])
      case None => None
      case Some(c) => Some(Scan(c, s[6..]))
    else
      match Unescaped(s[1])
      case None => None
      case Some(c) => Some(Scan(c, s[2..]))
  }

  /** The characters up to the closing quote. */
  function ReadChars(s: string): (r: Read<string>)
    ensures r.Some? ==> |r.value.rest| < |s|
    decreases |s|
  {
    if s != [] && s[0] == '"' then Some(Scan("", s[1..]))
    else
      match ReadChar(s)
      case None => None
      case Some(c) =>
        match ReadChars(c.rest)
        case None => None
        case Some(more) => Some(Scan([c.value] + more.value, more.rest))
  }

  /** A number: no leading zero, no sign, no fraction and no exponent. */
  function ReadNumber(s: string): (r: Read<Json>)
    ensures r.Some? ==> |r.value.rest| < |s|
  {
    match ScanNumber(s)
    case Err(_) => None
    case Ok(n) =>
      if n.value > U64_MAX || (s[0] == '0' && |n.rest| + 1 != |s|) then None
      else if n.rest != [] && n.rest[0] in ".eE" then None
      else Some(Scan(Json.Num(n.value), n.rest))
  }

  function Constant(s: string, word: string, j: Json): (r: Read<Json>)
    requires word != []
    ensures r.Some? ==> |r.value.rest| < |s|
  {
    match After(s, word)
    case None => None
    case Some(rest) => Some(Scan(j, rest))
  }

  function ReadValue(s: string): (r: Read<Json>)
    ensures r.Some? ==> |r.value.rest| < |s|
    decreases |s|, 0
  {
    if s == [] then None
    else if s[0] == 'n' then Constant(s, "null", Null)
    else if s[0] == 't' then Constant(s, "true", Bool(true))
    else if s[0] == 'f' then Constant(s, "false", Bool(false))
    else if s[0] == '"' then
      match ReadChars(s[1..])
      case None => None
      case Some(text) => Some(Scan(Json.Str(text.value), text.rest))
    else if s[0] == '[' then
      var inside := SkipSpace(s[1..]);
      if inside != [] && inside[0] == ']' then Some(Scan(Arr([]), inside[1..]))
      else
        match ReadItems(inside)
        case None => None
        case Some(items) => Some(Scan(Arr(items.value), items.rest))
    else if s[0] == '{' then
      var inside := SkipSpace(s[1..]);
      if inside != [] && inside[0] == '}' then Some(Scan(Obj([]), inside[1..]))
      else
        match ReadFields(inside)
        case None => None
        case Some(fields) => Some(Scan(Obj(fields.value), fields.rest))
    else ReadNumber(s)
  }

  /** One or more values between commas, up to the closing bracket. */
  function ReadItems(s: string): (r: Read<seq<Json>>)
    ensures r.Some? ==> |r.value.rest| < |s|
    decreases |s|, 1
  {
    match ReadValue(s)
    case None => None
    case Some(item) =>
      var next := SkipSpace(item.rest);
      if next == [] then None
      else if next[0] == ']' then Some(Scan([item.value], next[1..]))
      else if next[0] != ',' then None
      else
        match ReadItems(SkipSpace(next[1..]))
        case None => None
        case Some(more) => Some(Scan([item.value] + more.value, more.rest))
  }

  /** A name, a colon and a value. */
  function ReadField(s: string): (r: Read<Field>)
    ensures r.Some? ==> |r.value.rest| < |s|
    decreases |s|, 1
  {
    if s == [] || s[0] != '"' then None
    else
      match ReadChars(s[1..])
      case None => None
      case Some(name) =>
        var next := SkipSpace(name.rest);
        if next == [] || next[0] != ':' then None
        else
          match ReadValue(SkipSpace(next[1..]))
          case None => None
          case Some(value) => Some(Scan(Field(name.value, value.value), value.rest))
  }

  function ReadFields(s: string): (r: Read<seq<Field>>)
    ensures r.Some? ==> |r.value.rest| < |s|
    decreases |s|, 2
  {
    match ReadField(s)
    case None => None
    case Some(field) =>
      var next := SkipSpace(field.rest);
      if next == [] then None
      else if next[0] == '}' then Some(Scan([field.value], next[1..]))
      else if next[0] != ',' then None
      else
        match ReadFields(SkipSpace(next[1..]))
        case None => None
        case Some(more) => Some(Scan([field.value] + more.value, more.rest))
  }

  /** A whole text: one value with nothing but space around it. */
  function ReadText(s: string): Option<Json> {
    match ReadValue(SkipSpace(s))
    case None => None
    case Some(j) => if SkipSpace(j.rest) == [] then Some(j.value) else None
  }

  // ------------------------------------------------------------- round trip

  lemma CharReads(c: char, rest: string)
    ensures Escaped(c) != [] && Escaped(c)[0] != '"'
    ensures ReadChar(Escaped(c) + rest) == Some(Scan(c, rest))
  {
    var s := Escaped(c) + rest;
    if c < ' ' && c != '\n' && c != '\r' && c != '\t' {
      assert s[2..][..4] == Escaped(c)[2..];
      assert s[2..][0] == '0' && s[2..][1] == '0';
      assert s[2..][2] == HexDigit(c as nat / 16) && s[2..][3] == HexDigit(c as nat % 16);
      assert s[6..] == rest;
    } else if |Escaped(c)| == 2 {
      assert s[2..] == rest;
    } else {
      assert s[1..] == rest;
    }
  }

  lemma {:induction false} CharsRead(s: string, rest: string)
    ensures ReadChars(EscapedAll(s) + "\"" + rest) == Some(Scan(s, rest))
  {
    var text := EscapedAll(s) + "\"" + rest;
    if s == [] {
      assert text[1..] == rest;
    } else {
      var tail := EscapedAll(s[1..]) + "\"" + rest;
      assert text == Escaped(s[0]) + tail;
      CharReads(s[0], tail);
      assert text[0] == Escaped(s[0])[0];
      CharsRead(s[1..], rest);
      assert [s[0]] + s[1..] == s;
    }
  }

  /** A literal starts with a quote and reads back as its text. */
  lemma LiteralReads(s: string, rest: string)
    ensures Literal(s) != "" && (Literal(s) + rest)[0] == '"'
    ensures ReadChars((Literal(s) + rest)[1..]) == Some(Scan(s, rest))
  {
    CharsRead(s, rest);
    hide EscapedAll, ReadChars;
    Behind('"', EscapedAll(s) + "\"", rest);
    Regroup("\"", EscapedAll(s), "\"");
  }

  lemma Behind(c: char, s: string, rest: string)
    ensures ([c] + s + rest)[0] == c && ([c] + s + rest)[1..] == s + rest
  {
  }

  lemma {:induction false} SpaceSkipped(depth: nat, s: string)
    ensures SkipSpace(Indent(depth) + s) == SkipSpace(s)
  {
    if depth == 0 {
      assert Indent(depth) + s == s;
    } else {
      var tail := "  " + s;
      assert Indent(depth) + s == Indent(depth - 1) + tail;
      SpaceSkipped(depth - 1, tail);
      OneSpace(s);
      OneSpace(" " + s);
      assert tail == " " + (" " + s);
    }
  }

  /** Neither space nor one of the marks that end or part values. */
  predicate StartsValue(c: char) {
    !IsSpace(c) && c != ']' && c != '}' && c != ','
  }

  lemma {:induction false} LeadingZero(n: nat)
    ensures Decimal(n)[0] == '0' <==> n == 0
  {
    if n >= 10 {
      LeadingZero(n / 10);
      assert Decimal(n)[0] == Decimal(n / 10)[0];
    }
  }

  lemma ShownStarts(j: Json, depth: nat)
    ensures Shown(j, depth) != [] && StartsValue(Shown(j, depth)[0])
  {
    if j.Num? {
      assert IsDigit(Decimal(j.number)[0]);
    }
  }

  /** Text after a value that a number cannot run on into. */
  predicate Ends(rest: string) {
    rest == [] || rest[0] == ',' || IsSpace(rest[0])
  }

  lemma NumberReads(n: Word64, rest: string)
    requires Ends(rest)
    ensures ReadValue(Decimal(n) + rest) == Some(Scan(Json.Num(n), rest))
  {
    ScanDecimalNumber(n, rest);
    LeadingZero(n);
    var s := Decimal(n) + rest;
    assert s[0] == Decimal(n)[0] && IsDigit(s[0]);
  }

  lemma {:induction false} ValueReads(j: Json, depth: nat, rest: string)
    requires Ends(rest)
    ensures ReadValue(Shown(j, depth) + rest) == Some(Scan(j, rest))
    decreases j, 0
  {
    match j
    case Null => assert (Shown(j, depth) + rest)[4..] == rest;
    case Bool(b) => assert (Shown(j, depth) + rest)[if b then 4 else 5..] == rest;
    case Num(n) => NumberReads(n, rest);
    case Str(text) => TextValueReads(text, rest);
    case Arr(items) =>
      if items != [] { ItemsRead(items, depth + 1, Indent(depth) + "]" + rest, depth, rest); }
      ArrReads(items, depth, rest);
    case Obj(fields) =>
      if fields != [] { FieldsRead(fields, depth + 1, Indent(depth) + "}" + rest, depth, rest); }
      ObjReads(fields, depth, rest);
  }

  lemma TextValueReads(text: string, rest: string)
    ensures ReadValue(Literal(text) + rest) == Some(Scan(Json.Str(text), rest))
  {
    LiteralReads(text, rest);
    hide Literal, ReadChars;
  }

  lemma ArrReads(items: seq<Json>, depth: nat, rest: string)
    requires items != [] ==>
      var inside := SkipSpace("\n" + (ShownItems(items, depth + 1) + (Indent(depth) + "]" + rest)));
      inside != [] && inside[0] != ']' && ReadItems(inside) == Some(Scan(items, rest))
    ensures ReadValue(Shown(Arr(items), depth) + rest) == Some(Scan(Arr(items), rest))
  {
    hide SkipSpace, Indent, ShownItems, ReadItems, Ending;
    var s := Shown(Arr(items), depth) + rest;
    if items == [] {
      EmptyReads(']', rest);
      assert s[1..] == "]" + rest;
    } else {
      assert s[1..] == "\n" + (ShownItems(items, depth + 1) + (Indent(depth) + "]" + rest));
    }
  }

  lemma ObjReads(fields: seq<Field>, depth: nat, rest: string)
    requires fields != [] ==>
      var inside := SkipSpace("\n" + (ShownFields(fields, depth + 1) + (Indent(depth) + "}" + rest)));
      inside != [] && inside[0] != '}' && ReadFields(inside) == Some(Scan(fields, rest))
    ensures ReadValue(Shown(Obj(fields), depth) + rest) == Some(Scan(Obj(fields), rest))
  {
    hide SkipSpace, Indent, ShownFields, ReadFields, Ending;
    var s := Shown(Obj(fields), depth) + rest;
    if fields == [] {
      EmptyReads('}', rest);
      assert s[1..] == "}" + rest;
    } else {
      assert s[1..] == "\n" + (ShownFields(fields, depth + 1) + (Indent(depth) + "}" + rest));
    }
  }

  lemma EmptyReads(c: char, rest: string)
    requires !IsSpace(c)
    ensures SkipSpace([c] + rest) == [c] + rest && ([c] + rest)[1..] == rest
  {
  }

  /** Space and a line break before a character that is neither: the break and the space go. */
  lemma LineSkipped(depth: nat, s: string)
    requires s != [] && !IsSpace(s[0])
    ensures SkipSpace("\n" + (Indent(depth) + s)) == s && SkipSpace(Indent(depth) + s) == s
  {
    SpaceSkipped(depth, s);
    assert ("\n" + (Indent(depth) + s))[1..] == Indent(depth) + s;
  }

  lemma {:induction false} ItemsRead(items: seq<Json>, depth: nat, tail: string, outer: nat, rest: string)
    requires items != [] && tail == Indent(outer) + "]" + rest
    ensures SkipSpace("\n" + (ShownItems(items, depth) + tail)) != []
    ensures SkipSpace("\n" + (ShownItems(items, depth) + tail))[0] != ']'
    ensures ReadItems(SkipSpace("\n" + (ShownItems(items, depth) + tail))) == Some(Scan(items, rest))
    decreases items
  {
    hide SkipSpace, Indent, Shown, ReadValue, ShownItems;
    var shown := Shown(items[0], depth);
    var after := Ending(|items| == 1) + (ShownItems(items[1..], depth) + tail);
    ShownStarts(items[0], depth);
    assert (shown + after)[0] == shown[0];
    ItemsFront(items, depth, tail);
    LineSkipped(depth, shown + after);
    ValueReads(items[0], depth, after);
    if |items| == 1 {
      assert after == "\n" + (Indent(outer) + ("]" + rest));
      LineSkipped(outer, "]" + rest);
      assert ("]" + rest)[1..] == rest && items == [items[0]];
    } else {
      var more := "\n" + (ShownItems(items[1..], depth) + tail);
      assert after == "," + more;
      EmptyReads(',', more);
      ItemsRead(items[1..], depth, tail, outer, rest);
      assert [items[0]] + items[1..] == items;
    }
  }

  /** The text of the items, taken apart at the end of the first one. */
  lemma ItemsFront(items: seq<Json>, depth: nat, tail: string)
    requires items != []
    ensures ShownItems(items, depth) + tail
      == Indent(depth) + (Shown(items[0], depth) + (Ending(|items| == 1) + (ShownItems(items[1..], depth) + tail)))
    ensures |items| == 1 ==> ShownItems(items[1..], depth) == ""
  {
    hide Indent, Shown, Ending;
    ghost var a, b, c, d := Indent(depth), Shown(items[0], depth), Ending(|items| == 1), ShownItems(items[1..], depth);
    assert ShownItems(items, depth) == a + b + c + d;
    assert |items| == 1 ==> d == "";
    hide ShownItems;
    Regroup(a + b + c, d, tail);
    Regroup(a + b, c, d + tail);
    Regroup(a, b, c + (d + tail));
  }

  lemma {:induction false} FieldsRead(fields: seq<Field>, depth: nat, tail: string, outer: nat, rest: string)
    requires fields != [] && tail == Indent(outer) + "}" + rest
    ensures SkipSpace("\n" + (ShownFields(fields, depth) + tail)) != []
    ensures SkipSpace("\n" + (ShownFields(fields, depth) + tail))[0] != '}'
    ensures ReadFields(SkipSpace("\n" + (ShownFields(fields, depth) + tail))) == Some(Scan(fields, rest))
    decreases fields
  {
    hide SkipSpace, Indent, Shown, ReadValue, Literal, ReadField, ShownFields, ReadFields;
    var after := Ending(|fields| == 1) + (ShownFields(fields[1..], depth) + tail);
    var field := Literal(fields[0].name) + (": " + (Shown(fields[0].value, depth) + after));
    LiteralReads(fields[0].name, ": " + (Shown(fields[0].value, depth) + after));
    FieldsFront(fields, depth, tail);
    LineSkipped(depth, field);
    FieldReads(fields[0], depth, after);
    if |fields| == 1 {
      assert after == "\n" + (Indent(outer) + ("}" + rest));
      LineSkipped(outer, "}" + rest);
      LastField(field, fields[0], after, rest);
      assert fields == [fields[0]];
    } else {
      var more := "\n" + (ShownFields(fields[1..], depth) + tail);
      assert after == "," + more;
      EmptyReads(',', more);
      FieldsRead(fields[1..], depth, tail, outer, rest);
      NextField(field, fields[0], after, more, fields[1..], rest);
      assert [fields[0]] + fields[1..] == fields;
    }
  }

  lemma LastField(s: string, field: Field, after: string, rest: string)
    requires ReadField(s) == Some(Scan(field, after)) && SkipSpace(after) == "}" + rest
    ensures ReadFields(s) == Some(Scan([field], rest))
  {
    hide ReadField, SkipSpace;
    assert ("}" + rest)[1..] == rest;
  }

  lemma NextField(s: string, field: Field, after: string, more: string, fields: seq<Field>, rest: string)
    requires ReadField(s) == Some(Scan(field, after)) && SkipSpace(after) == "," + more
    requires ReadFields(SkipSpace(more)) == Some(Scan(fields, rest))
    ensures ReadFields(s) == Some(Scan([field] + fields, rest))
  {
    hide ReadField, SkipSpace;
    assert ("," + more)[1..] == more;
  }

  /** The text of the fields, taken apart at the end of the first one. */
  lemma FieldsFront(fields: seq<Field>, depth: nat, tail: string)
    requires fields != []
    ensures ShownFields(fields, depth) + tail
      == Indent(depth) + (Literal(fields[0].name) + (": " + (Shown(fields[0].value, depth)
      + (Ending(|fields| == 1) + (ShownFields(fields[1..], depth) + tail)))))
    ensures |fields| == 1 ==> ShownFields(fields[1..], depth) == ""
  {
    hide Indent, Shown, Literal, Ending;
    ghost var a, b, c, d, e :=
      Indent(depth), Literal(fields[0].name), Shown(fields[0].value, depth), Ending(|fields| == 1),
        ShownFields(fields[1..], depth);
    assert ShownFields(fields, depth) == a + b + ": " + c + d + e;
    hide ShownFields;
    Regroup(a + b + ": " + c + d, e, tail);
    Regroup(a + b + ": " + c, d, e + tail);
    Regroup(a + b + ": ", c, d + (e + tail));
    Regroup(a + b, ": ", c + (d + (e + tail)));
    Regroup(a, b, ": " + (c + (d + (e + tail))));
  }

  lemma {:induction false} FieldReads(field: Field, depth: nat, after: string)
    requires Ends(after)
    ensures ReadField(Literal(field.name) + (": " + (Shown(field.value, depth) + after))) == Some(Scan(field, after))
    decreases field, 1
  {
    hide Shown, Literal, SkipSpace, ReadValue, ReadChars;
    var value := Shown(field.value, depth) + after;
    var colon := ": " + value;
    LiteralReads(field.name, colon);
    EmptyReads(':', " " + value);
    assert colon == ":" + (" " + value);
    ShownStarts(field.value, depth);
    assert value[0] == Shown(field.value, depth)[0];
    NoSpace(value);
    OneSpace(value);
    assert colon[1..] == " " + value;
    ValueReads(field.value, depth, after);
  }

  lemma NoSpace(s: string)
    requires s != [] && !IsSpace(s[0])
    ensures SkipSpace(s) == s
  {
  }

  lemma OneSpace(s: string)
    ensures SkipSpace(" " + s) == SkipSpace(s)
  {
    assert (" " + s)[1..] == s;
  }

  lemma TextReads(j: Json)
    ensures ReadText(Shown(j, 0) + "\n") == Some(j)
  {
    hide ReadValue, Shown;
    var s := Shown(j, 0) + "\n";
    ShownStarts(j, 0);
    assert s[0] == Shown(j, 0)[0] && SkipSpace(s) == s;
    ValueReads(j, 0, "\n");
    assert "\n"[1..] == [];
  }

  /** Two values with the same text are the same value: nothing is lost in writing. */
  lemma TextDecides(a: Json, b: Json)
    ensures Shown(a, 0) + "\n" == Shown(b, 0) + "\n" ==> a == b
  {
    TextReads(a);
    TextReads(b);
  }
}
