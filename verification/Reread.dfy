/** Printed values read back as the very sets and names they were printed from. */
module Reread {
  import opened Arith
  import opened Intervals
  import opened Cidr
  import opened Rules
  import opened Lexer
  import E = Emitter
  import opened Printed
  import opened Grammar

  // -------------------------------------------------------------------- atoms

  /** Nothing that continues a value comes next. */
  predicate Delimited(ts: seq<Tok>) {
    Peek(ts) != Sym('/') && Peek(ts) != Sym('-')
  }

  /** In front of anything that does not continue it, the group reads as `value`. */
  ghost predicate ReadsAs(kind: ValueKind, toks: seq<Tok>, value: IntervalSet) {
    && toks != [] && (toks[0].Ip? || toks[0].Num? || toks[0].Word?)
    && value.bits == kind.Bits()
    && forall rest: seq<Tok> :: Delimited(rest) ==> AtomReads(kind, toks, value, rest)
  }

  ghost predicate AtomReads(kind: ValueKind, toks: seq<Tok>, value: IntervalSet, rest: seq<Tok>) {
    Atom(toks + rest, kind) == Got(value, rest)
  }

  lemma BumpOne(t: Tok, rest: seq<Tok>)
    ensures Peek([t] + rest) == t && Bump([t] + rest) == rest
  {
    assert ([t] + rest)[1..] == rest;
  }

  lemma BumpThree(a: Tok, b: Tok, c: Tok, rest: seq<Tok>)
    ensures var ts := [a, b, c] + rest;
      && Peek(ts) == a && Peek(Bump(ts)) == b && Peek(Bump(Bump(ts))) == c && Bump(Bump(Bump(ts))) == rest
  {
    var ts := [a, b, c] + rest;
    assert ts[1..] == [b, c] + rest && ts[1..][1..] == [c] + rest && ts[1..][1..][1..] == rest;
  }

  /** The set of a block, as the parser builds it. */
  function BlockSet(c: Cidr): (s: IntervalSet)
    requires c.len <= 32 && c.base < 0x1_0000_0000
    ensures s.bits == 32
  {
    Widths();
    if c.len == 32 then Intervals.Point(32, c.base) else Prefix(32, c.base, c.len)
  }

  lemma BlockSetMember(c: Cidr, v: nat)
    requires Aligned(32, c) && c.len <= 32 && c.base < 0x1_0000_0000
    ensures Contains(BlockSet(c), v) <==> Covers(32, c, v)
  {
    hide Aligned, Pow2, Canonical;
    Widths();
    if c.len < 32 {
      hide Contains, Shr;
      if Covers(32, c, v) { BlockFits(c, v); }
    } else {
      assert c.len == 32 && Shr(v, 0) == v && Shr(c.base, 0) == c.base;
    }
  }

  lemma BlockFits(c: Cidr, v: nat)
    requires Aligned(32, c) && Covers(32, c, v)
    ensures v <= DomainMax(32)
  {
    CoversRun(32, c, v);
    BlockEnd(c);
    Pow2Table();
  }

  lemma BlockEnd(c: Cidr)
    requires Aligned(32, c)
    ensures c.base + Pow2(32 - c.len) <= Pow2(32)
  {
    hide Shr, Shl, Pow2;
    var n := 32 - c.len;
    ShrBound(c.base, n, 32);
    ShlBound(Shr(c.base, n), n, 32);
  }

  lemma BlockReads(c: Cidr)
    requires c.len <= 32 && c.base < 0x1_0000_0000
    ensures ReadsAs(Address, BlockTok(c), BlockSet(c))
  {
    Widths();
    forall rest: seq<Tok> | Delimited(rest)
      ensures AtomReads(Address, BlockTok(c), BlockSet(c), rest)
    {
      if c.len == 32 { BumpOne(Ip(c.base), rest); } else { BumpThree(Ip(c.base), Sym('/'), Num(c.len), rest); }
    }
  }

  function RunSet(r: Range): (s: IntervalSet)
    requires r.0 <= r.1 <= 65535
    ensures s.bits == 16
  {
    Widths();
    if r.0 == r.1 then Intervals.Point(16, r.0) else Span(16, r.0, r.1)
  }

  lemma RunSetMember(r: Range, v: nat)
    requires r.0 <= r.1 <= 65535
    ensures Contains(RunSet(r), v) <==> r.0 <= v <= r.1
  {
    Widths();
  }

  lemma RunReads(r: Range)
    requires r.0 <= r.1 <= 65535
    ensures ReadsAs(Port, RunTok(r), RunSet(r))
  {
    Widths();
    forall rest: seq<Tok> | Delimited(rest)
      ensures AtomReads(Port, RunTok(r), RunSet(r), rest)
    {
      if r.0 == r.1 { BumpOne(Num(r.0), rest); } else { BumpThree(Num(r.0), Sym('-'), Num(r.1), rest); }
    }
  }

  // -------------------------------------------------------------------- lists

  /** The groups read as the values, one by one. */
  ghost predicate AllRead(kind: ValueKind, parts: seq<seq<Tok>>, values: seq<IntervalSet>) {
    |parts| == |values| && forall i | 0 <= i < |parts| :: ReadsAs(kind, parts[i], values[i])
  }

  ghost predicate AllSized(values: seq<IntervalSet>, bits: nat) {
    forall i | 0 <= i < |values| :: values[i].bits == bits
  }

  function UnionAll(acc: IntervalSet, values: seq<IntervalSet>): (s: IntervalSet)
    requires AllSized(values, acc.bits)
    ensures s.bits == acc.bits
    decreases |values|
  {
    if values == [] then acc else UnionAll(Union(acc, values[0]), values[1..])
  }

  lemma {:induction false} UnionAllMember(acc: IntervalSet, values: seq<IntervalSet>, v: nat)
    requires AllSized(values, acc.bits)
    ensures Contains(UnionAll(acc, values), v) <==> Contains(acc, v) || exists i ::
      0 <= i < |values| && Contains(values[i], v)
    decreases |values|
  {
    hide Contains, Union;
    if values != [] {
      var next := Union(acc, values[0]);
      UnionAllMember(next, values[1..], v);
      UnionMembers(acc, values[0], v);
      if i :| 0 <= i < |values| && Contains(values[i], v) {
        if i > 0 { assert Contains(values[1..][i - 1], v); }
      }
      if i :| 0 <= i < |values[1..]| && Contains(values[1..][i], v) { assert Contains(values[i + 1], v); }
    }
  }

  lemma UnionMembers(a: IntervalSet, b: IntervalSet, v: nat)
    requires a.bits == b.bits
    ensures Contains(Union(a, b), v) <==> Contains(a, v) || Contains(b, v)
  {
  }

  lemma AllReadSized(kind: ValueKind, parts: seq<seq<Tok>>, values: seq<IntervalSet>)
    requires AllRead(kind, parts, values)
    ensures AllSized(values, kind.Bits())
  {
    forall i | 0 <= i < |values|
      ensures values[i].bits == kind.Bits()
    {
      assert ReadsAs(kind, parts[i], values[i]);
    }
  }

  /** The members of a braced list are read one after the other. */
  lemma {:induction false} MembersRead(kind: ValueKind, parts: seq<seq<Tok>>, values: seq<IntervalSet>,
                                       acc: IntervalSet, rest: seq<Tok>)
    requires AllRead(kind, parts, values) && parts != [] && acc.bits == kind.Bits() && AllSized(values, acc.bits)
    ensures Members(JoinToks(parts, [Sym(',')]) + [Sym('}')] + rest, kind, acc) == Got(UnionAll(acc, values), rest)
  {
    hide Atom, Union, Canonical, ReadsAs, ValueKind.Bits;
    var ts := JoinToks(parts, [Sym(',')]) + [Sym('}')] + rest;
    assert ReadsAs(kind, parts[0], values[0]);
    if |parts| == 1 {
      var after := [Sym('}')] + rest;
      assert ts == parts[0] + after;
      BumpOne(Sym('}'), rest);
      OneMember(kind, parts[0], values[0], after);
      assert UnionAll(Union(acc, values[0]), values[1..]) == Union(acc, values[0]);
    } else {
      var tail := JoinToks(parts[1..], [Sym(',')]) + [Sym('}')] + rest;
      var after := [Sym(',')] + tail;
      assert ts == parts[0] + after;
      BumpOne(Sym(','), tail);
      OneMember(kind, parts[0], values[0], after);
      MembersRead(kind, parts[1..], values[1..], Union(acc, values[0]), rest);
    }
  }

  lemma OneMember(kind: ValueKind, part: seq<Tok>, value: IntervalSet, after: seq<Tok>)
    requires ReadsAs(kind, part, value) && Delimited(after) && Peek(after) != Break
    ensures SkipBreaks(part + after) == part + after && Atom(part + after, kind) == Got(value, after)
    ensures SkipBreaks(after) == after
  {
    hide Atom;
    assert (part + after)[0] == part[0];
    assert AtomReads(kind, part, value, after);
  }

  lemma SingleReads(kind: ValueKind, part: seq<Tok>, value: IntervalSet, rest: seq<Tok>)
    requires ReadsAs(kind, part, value) && Delimited(rest)
    ensures Spec(part + rest, kind) == Got(value, rest)
  {
    assert (part + rest)[0] == part[0];
    assert AtomReads(kind, part, value, rest);
    hide Atom, Canonical, Members;
  }

  lemma BraceReads(kind: ValueKind, inner: seq<Tok>, value: IntervalSet, rest: seq<Tok>)
    requires value.bits == kind.Bits() && Members(inner, kind, Empty(kind.Bits())) == Got(value, rest)
    ensures Spec([Sym('{')] + inner, kind) == Got(value, rest)
  {
    hide Atom, Canonical, Members, ValueKind.Bits;
    BumpOne(Sym('{'), inner);
  }

  lemma BracesAround(parts: seq<seq<Tok>>, rest: seq<Tok>)
    requires |parts| != 1
    ensures BracedToks(parts) + rest == [Sym('{')] + (JoinToks(parts, [Sym(',')]) + [Sym('}')] + rest)
  {
    hide JoinToks;
  }

  /** A printed list reads as the union of its values. */
  lemma ListReads(kind: ValueKind, parts: seq<seq<Tok>>, values: seq<IntervalSet>, rest: seq<Tok>)
    requires AllRead(kind, parts, values) && parts != [] && Delimited(rest)
    ensures AllSized(values, kind.Bits())
    ensures Spec(BracedToks(parts) + rest, kind) ==
      Got(if |parts| == 1 then values[0] else UnionAll(Empty(kind.Bits()), values), rest)
  {
    AllReadSized(kind, parts, values);
    assert ReadsAs(kind, parts[0], values[0]);
    if |parts| == 1 {
      SingleReads(kind, parts[0], values[0], rest);
    } else {
      hide Spec, Canonical, UnionAll, Members, ValueKind.Bits, ReadsAs, JoinToks;
      var inner := JoinToks(parts, [Sym(',')]) + [Sym('}')] + rest;
      BracesAround(parts, rest);
      MembersRead(kind, parts, values, Empty(kind.Bits()), rest);
      BraceReads(kind, inner, UnionAll(Empty(kind.Bits()), values), rest);
    }
  }

  /** The union, or the single value, has the members of the values. */
  lemma ListMember(values: seq<IntervalSet>, bits: nat, v: nat)
    requires AllSized(values, bits) && values != []
    ensures Contains(if |values| == 1 then values[0] else UnionAll(Empty(bits), values), v)
      <==> exists i :: 0 <= i < |values| && Contains(values[i], v)
  {
    hide Contains, UnionAll;
    if |values| == 1 {
      if Contains(values[0], v) { assert 0 <= 0 < |values|; }
    } else {
      UnionAllMember(Empty(bits), values, v);
    }
  }

  // ------------------------------------------------------- address and ports

  ghost predicate Blocks(cs: seq<Cidr>) {
    E.AreAddresses(cs) && forall c | c in cs :: Aligned(32, c)
  }

  function BlockSets(cs: seq<Cidr>): seq<IntervalSet>
    requires E.AreAddresses(cs) && forall c | c in cs :: c.len <= 32
  {
    if cs == [] then [] else [BlockSet(cs[0])] + BlockSets(cs[1..])
  }

  lemma {:induction false} BlocksRead(cs: seq<Cidr>)
    requires E.AreAddresses(cs) && forall c | c in cs :: c.len <= 32
    ensures AllRead(Address, BlockToks(cs), BlockSets(cs)) && |BlockSets(cs)| == |cs|
  {
    hide ReadsAs, BlockTok, BlockSet;
    if cs != [] {
      assert cs[0] in cs;
      BlockReads(cs[0]);
      BlocksRead(cs[1..]);
    }
  }

  lemma {:induction false} BlockSetsAt(cs: seq<Cidr>, i: nat)
    requires E.AreAddresses(cs) && (forall c | c in cs :: c.len <= 32) && i < |cs|
    ensures |BlockSets(cs)| == |cs| && BlockSets(cs)[i] == BlockSet(cs[i])
  {
    hide BlockSet;
    if i > 0 { BlockSetsAt(cs[1..], i - 1); } else { BlocksRead(cs); }
  }

  lemma BlockSetsMember(cs: seq<Cidr>, v: nat)
    requires Blocks(cs)
    ensures (exists i :: 0 <= i < |BlockSets(cs)| && Contains(BlockSets(cs)[i], v)) <==> exists c | c in cs ::
      Covers(32, c, v)
  {
    var sets := BlockSets(cs);
    BlocksRead(cs);
    forall i: nat | i < |cs|
      ensures Contains(sets[i], v) <==> Covers(32, cs[i], v)
    {
      BlockSetsAt(cs, i);
      assert cs[i] in cs;
      BlockSetMember(cs[i], v);
    }
    hide Contains, Covers, Aligned, BlockSets, AllRead;
    if c :| c in cs && Covers(32, c, v) {
      var i :| 0 <= i < |cs| && cs[i] == c;
      assert Contains(sets[i], v);
    }
    if i :| 0 <= i < |sets| && Contains(sets[i], v) { assert cs[i] in cs && Covers(32, cs[i], v); }
  }

  lemma PrefixesAreBlocks(s: IntervalSet)
    requires s.bits == 32
    ensures Blocks(SetToPrefixes(s)) && forall c | c in SetToPrefixes(s) :: c.len <= 32
  {
    E.PrefixesAreAddresses(s);
    SetToPrefixesExact(s, 0);
  }

  lemma SomePrefix(s: IntervalSet)
    requires s.bits == 32 && !IsEmpty(s)
    ensures SetToPrefixes(s) != []
  {
    var v := s.ranges[0].0;
    assert Contains(s, v);
    SetToPrefixesExact(s, v);
  }

  /** A printed address list reads back as the very set. */
  lemma AddressSpecReads(s: IntervalSet, rest: seq<Tok>)
    requires s.bits == 32 && !IsEmpty(s) && Delimited(rest)
    ensures E.AreAddresses(SetToPrefixes(s))
    ensures Spec(BracedToks(BlockToks(SetToPrefixes(s))) + rest, Address) == Got(s, rest)
  {
    var cs := SetToPrefixes(s);
    PrefixesAreBlocks(s);
    SomePrefix(s);
    BlocksRead(cs);
    var values := BlockSets(cs);
    ListReads(Address, BlockToks(cs), values, rest);
    var back := if |values| == 1 then values[0] else UnionAll(Empty(32), values);
    forall v: nat
      ensures Contains(back, v) <==> Contains(s, v)
    {
      ListMember(values, 32, v);
      BlockSetsMember(cs, v);
      SetToPrefixesExact(s, v);
    }
    hide Contains, Spec, BracedToks, BlockToks, SetToPrefixes, BlockSets, UnionAll, AllRead, Covers, Aligned;
    SetEquality(back, s);
  }

  function RunSets(rs: seq<Range>): seq<IntervalSet>
    requires forall i | 0 <= i < |rs| :: rs[i].0 <= rs[i].1 <= 65535
  {
    if rs == [] then [] else [RunSet(rs[0])] + RunSets(rs[1..])
  }

  lemma {:induction false} RunsRead(rs: seq<Range>)
    requires forall i | 0 <= i < |rs| :: rs[i].0 <= rs[i].1 <= 65535
    ensures AllRead(Port, RunToks(rs), RunSets(rs)) && |RunSets(rs)| == |rs|
  {
    hide ReadsAs, RunTok, RunSet;
    if rs != [] {
      RunReads(rs[0]);
      RunsRead(rs[1..]);
    }
  }

  lemma {:induction false} RunSetsAt(rs: seq<Range>, i: nat)
    requires (forall j | 0 <= j < |rs| :: rs[j].0 <= rs[j].1 <= 65535) && i < |rs|
    ensures |RunSets(rs)| == |rs| && RunSets(rs)[i] == RunSet(rs[i])
  {
    hide RunSet;
    if i > 0 { RunSetsAt(rs[1..], i - 1); } else { RunsRead(rs); }
  }

  lemma PortSpecReads(s: IntervalSet, rest: seq<Tok>)
    requires s.bits == 16 && !IsEmpty(s) && Delimited(rest)
    ensures Spec(BracedToks(RunToks(s.ranges)) + rest, Port) == Got(s, rest)
  {
    var rs := s.ranges;
    Widths();
    RunsRead(rs);
    var values := RunSets(rs);
    ListReads(Port, RunToks(rs), values, rest);
    var back := if |values| == 1 then values[0] else UnionAll(Empty(16), values);
    forall i: nat | i < |rs|
      ensures forall v: nat :: Contains(values[i], v) <==> rs[i].0 <= v <= rs[i].1
    {
      RunSetsAt(rs, i);
      forall v: nat { RunSetMember(rs[i], v); }
    }
    hide Spec, BracedToks, RunToks, RunSets, UnionAll, AllRead;
    forall v: nat
      ensures Contains(back, v) <==> Contains(s, v)
    {
      ListMember(values, 16, v);
      RunsMember(s, values, v);
    }
    hide Contains;
    SetEquality(back, s);
  }

  lemma RunsMember(s: IntervalSet, values: seq<IntervalSet>, v: nat)
    requires |values| == |s.ranges|
    requires forall i: nat | i < |s.ranges| :: Contains(values[i], v) <==> s.ranges[i].0 <= v <= s.ranges[i].1
    ensures Contains(s, v) <==> exists i :: 0 <= i < |values| && Contains(values[i], v)
  {
    if i :| 0 <= i < |values| && Contains(values[i], v) { assert s.ranges[i].0 <= v <= s.ranges[i].1; }
    if Contains(s, v) {
      var i :| 0 <= i < |s.ranges| && s.ranges[i].0 <= v <= s.ranges[i].1;
      assert Contains(values[i], v);
    }
  }

  // -------------------------------------------------------------------- names

  /** Two sorted lists with the same names are the same list. */
  lemma {:induction false} SameNames(a: seq<string>, b: seq<string>)
    requires StrictlySorted(a) && StrictlySorted(b) && forall x :: x in a <==> x in b
    ensures a == b
  {
    assert b != [] ==> b[0] in b;
    if a != [] {
      assert a[0] in a && a[0] in b;
      assert b[0] in b && b[0] in a;
      SmallestName(a, b[0]);
      SmallestName(b, a[0]);
      NameOrder(a[0], b[0], a[0]);
      forall x
        ensures x in a[1..] <==> x in b[1..]
      {
        TailNames(a, x);
        TailNames(b, x);
      }
      SameNames(a[1..], b[1..]);
      assert a == [a[0]] + a[1..] && b == [b[0]] + b[1..];
    }
  }

  lemma SmallestName(a: seq<string>, x: string)
    requires StrictlySorted(a) && x in a
    ensures NameLe(a[0], x)
  {
    var i :| 0 <= i < |a| && a[i] == x;
    NameOrder(a[0], a[0], a[0]);
    if i > 0 { assert NameLess(a[0], a[i]); }
  }

  lemma TailNames(a: seq<string>, x: string)
    requires StrictlySorted(a) && a != []
    ensures x in a[1..] <==> x in a && x != a[0]
  {
    if x in a[1..] {
      var i :| 0 <= i < |a[1..]| && a[1..][i] == x;
      assert NameLess(a[0], a[i + 1]);
    }
  }

  function InsertAll(acc: NameSet, names: seq<string>): (r: NameSet)
    ensures forall x :: x in r <==> x in acc || x in names
    decreases |names|
  {
    if names == [] then acc else InsertAll(InsertName(acc, names[0]), names[1..])
  }

  lemma InsertAllSorted(names: NameSet)
    ensures InsertAll([], names) == names
  {
    SameNames(InsertAll([], names), names);
  }

  lemma OneIfName(n: string, after: seq<Tok>)
    requires PlainName(n) && Peek(after) != Sym('*')
    ensures IfName([Str(n)] + after) == Got(n, after) && SkipBreaks([Str(n)] + after) == [Str(n)] + after
  {
    BumpOne(Str(n), after);
  }

  lemma {:induction false} IfNamesRead(names: seq<string>, acc: NameSet, rest: seq<Tok>)
    requires names != [] && forall i | 0 <= i < |names| :: PlainName(names[i])
    ensures IfNames(JoinToks(NameToks(names), [Sym(',')]) + [Sym('}')] + rest, acc) == Got(InsertAll(acc, names), rest)
    decreases |names|
  {
    hide InsertName, StrictlySorted, IfName, PlainName;
    var ts := JoinToks(NameToks(names), [Sym(',')]) + [Sym('}')] + rest;
    NameToksSize(names);
    if |names| == 1 {
      var after := [Sym('}')] + rest;
      assert ts == [Str(names[0])] + after;
      OneIfName(names[0], after);
      BumpOne(Sym('}'), rest);
      assert InsertAll(InsertName(acc, names[0]), names[1..]) == InsertName(acc, names[0]);
    } else {
      var tail := JoinToks(NameToks(names[1..]), [Sym(',')]) + [Sym('}')] + rest;
      var after := [Sym(',')] + tail;
      assert NameToks(names)[1..] == NameToks(names[1..]);
      assert ts == [Str(names[0])] + after;
      OneIfName(names[0], after);
      BumpOne(Sym(','), tail);
      IfNamesRead(names[1..], InsertName(acc, names[0]), rest);
    }
  }

  lemma {:induction false} NameToksSize(names: seq<string>)
    ensures |NameToks(names)| == |names|
    ensures names != [] ==> NameToks(names)[0] == [Str(names[0])]
  {
    if names != [] { NameToksSize(names[1..]); }
  }

  lemma OneNameSpec(n: string, rest: seq<Tok>)
    requires PlainName(n) && Peek(rest) != Sym('*')
    ensures IfList([Str(n)] + rest) == Got(InsertName([], n), rest)
  {
    OneIfName(n, rest);
    hide IfName, InsertName, StrictlySorted, PlainName;
  }

  lemma NameListSpec(names: NameSet, inner: seq<Tok>, rest: seq<Tok>)
    requires IfNames(inner, []) == Got(names, rest)
    ensures IfList([Sym('{')] + inner) == Got(names, rest)
  {
    hide IfNames, StrictlySorted;
    BumpOne(Sym('{'), inner);
  }

  lemma IfSpecOf(ts: seq<Tok>, names: NameSet, rest: seq<Tok>)
    requires IfList(ts) == Got(names, rest) && Peek(ts) != Sym('!') && Peek(ts) != Sym('@')
    ensures IfSpec(ts) == Got(OneOf(names), rest)
  {
    hide IfList, StrictlySorted;
  }

  lemma SingleNameReads(names: NameSet, rest: seq<Tok>)
    requires |names| == 1 && PlainName(names[0]) && Peek(rest) != Sym('*')
    ensures IfList(BracedToks(NameToks(names)) + rest) == Got(names, rest)
  {
    NameToksSize(names);
    assert names == [names[0]];
    hide IfList, InsertName, NameToks, JoinToks, PlainName, StrictlySorted;
    OneNameSpec(names[0], rest);
    InsertFirst(names[0]);
  }

  lemma NameListReads(names: NameSet, rest: seq<Tok>)
    requires names != [] && (forall i | 0 <= i < |names| :: PlainName(names[i]))
    ensures IfNames(JoinToks(NameToks(names), [Sym(',')]) + [Sym('}')] + rest, []) == Got(names, rest)
  {
    hide JoinToks, NameToks, IfNames, PlainName, InsertName, NameLess;
    IfNamesRead(names, [], rest);
    InsertAllSorted(names);
  }

  lemma NameBracesRead(names: NameSet, rest: seq<Tok>)
    requires |names| > 1 && (forall i | 0 <= i < |names| :: PlainName(names[i]))
    ensures IfList(BracedToks(NameToks(names)) + rest) == Got(names, rest)
  {
    hide IfList, InsertName, NameToks, JoinToks, PlainName, IfNames, StrictlySorted, BracedToks;
    NameToksSize(names);
    NameListReads(names, rest);
    BracesAround(NameToks(names), rest);
    NameListSpec(names, JoinToks(NameToks(names), [Sym(',')]) + [Sym('}')] + rest, rest);
  }

  lemma IfSpecReads(names: NameSet, rest: seq<Tok>)
    requires names != [] && (forall i | 0 <= i < |names| :: PlainName(names[i])) && Peek(rest) != Sym('*')
    ensures IfSpec(BracedToks(NameToks(names)) + rest) == Got(OneOf(names), rest)
  {
    if |names| == 1 { SingleNameReads(names, rest); } else { NameBracesRead(names, rest); }
    ListStarts(names, rest);
    IfSpecOf(BracedToks(NameToks(names)) + rest, names, rest);
  }

  lemma ListStarts(names: seq<string>, rest: seq<Tok>)
    requires names != []
    ensures Peek(BracedToks(NameToks(names)) + rest) != Sym('!') && Peek(BracedToks(NameToks(names)) + rest) != Sym('@')
  {
    hide JoinToks, NameToks;
    NameToksSize(names);
  }

  lemma InsertFirst(n: string)
    ensures InsertName([], n) == [n]
  {
  }
}
