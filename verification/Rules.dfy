/** Header fields, match predicates, rules and chains, and what a packet's verdict is. */
module Rules {
  import opened Wrappers
  import opened Arith
  import opened Intervals
  import opened Sorting

  // ------------------------------------------------------------------ fields

  datatype Field = SrcAddr | DstAddr | SrcPort | DstPort | Proto | IfIn | IfOut {
    function Bits(): nat {
      match this
      case SrcAddr | DstAddr => 32
      case SrcPort | DstPort => 16
      case Proto | IfIn | IfOut => 8
    }

    function Index(): nat {
      match this
      case SrcAddr => 0
      case DstAddr => 1
      case SrcPort => 2
      case DstPort => 3
      case Proto => 4
      case IfIn => 5
      case IfOut => 6
    }

    predicate IsInterface() { IfIn? || IfOut? }
  }

  const ALL_FIELDS: seq<Field> := [SrcAddr, DstAddr, SrcPort, DstPort, Proto, IfIn, IfOut]

  lemma AllFields(f: Field)
    ensures |ALL_FIELDS| == 7 && f.Index() < 7 && ALL_FIELDS[f.Index()] == f
  {
  }

  datatype Packet = Packet(src: nat, dst: nat, sport: nat, dport: nat, proto: nat, iif: nat, oif: nat) {
    function Get(f: Field): nat {
      match f
      case SrcAddr => src
      case DstAddr => dst
      case SrcPort => sport
      case DstPort => dport
      case Proto => proto
      case IfIn => iif
      case IfOut => oif
    }

    /** Every field value fits its width. */
    ghost predicate InDomain() {
      forall f: Field :: Get(f) <= DomainMax(f.Bits())
    }
  }

  // -------------------------------------------------------------- interfaces

  const MAX_INTERFACES: nat := 256

  /** A sorted set of names, smallest first, no name twice. */
  type NameSet = ns: seq<string> | StrictlySorted(ns) witness []

  function Codes(s: string): seq<nat> {
    seq(|s|, i requires 0 <= i < |s| => s[i] as nat)
  }

  predicate NameLe(a: string, b: string) {
    LexLe(Codes(a), Codes(b))
  }

  predicate NameLess(a: string, b: string) {
    NameLe(a, b) && a != b
  }

  ghost predicate StrictlySorted(ns: seq<string>) {
    forall i, j | 0 <= i < j < |ns| :: NameLess(ns[i], ns[j])
  }

  lemma CodesInjective(a: string, b: string)
    requires Codes(a) == Codes(b)
    ensures a == b
  {
    assert |a| == |Codes(a)| == |b|;
    forall i | 0 <= i < |a|
      ensures a[i] == b[i]
    {
      assert Codes(a)[i] == Codes(b)[i];
    }
  }

  lemma NameOrder(a: string, b: string, c: string)
    ensures NameLe(a, b) || NameLe(b, a)
    ensures NameLe(a, b) && NameLe(b, a) ==> a == b
    ensures NameLe(a, b) && NameLe(b, c) ==> NameLe(a, c)
  {
    LexTotal(Codes(a), Codes(b));
    if NameLe(a, b) && NameLe(b, a) {
      LexAntisymmetric(Codes(a), Codes(b));
      CodesInjective(a, b);
    }
    if NameLe(a, b) && NameLe(b, c) { LexTransitive(Codes(a), Codes(b), Codes(c)); }
  }

  function InsertName(ns: NameSet, n: string): (r: NameSet)
    ensures forall x :: x in r <==> x in ns || x == n
  {
    if ns == [] then [n]
    else if ns[0] == n then ns
    else if NameLe(n, ns[0]) then
      InsertNameFront(ns, n);
      [n] + ns
    else
      var rest := InsertName(ns[1..], n);
      InsertNameTail(ns, n, rest);
      [ns[0]] + rest
  }

  lemma InsertNameFront(ns: seq<string>, n: string)
    requires StrictlySorted(ns) && ns != [] && ns[0] != n && NameLe(n, ns[0])
    ensures StrictlySorted([n] + ns)
  {
    forall j | 0 <= j < |ns|
      ensures NameLess(n, ns[j])
    {
      if j > 0 {
        assert NameLess(ns[0], ns[j]);
        NameOrder(n, ns[0], ns[j]);
        NameOrder(ns[0], n, n);
      }
    }
  }

  lemma InsertNameTail(ns: seq<string>, n: string, rest: seq<string>)
    requires StrictlySorted(ns) && ns != [] && ns[0] != n && !NameLe(n, ns[0])
    requires StrictlySorted(rest) && forall x :: x in rest <==> x in ns[1..] || x == n
    ensures StrictlySorted([ns[0]] + rest)
  {
    NameOrder(n, ns[0], n);
    forall j | 0 <= j < |rest|
      ensures NameLess(ns[0], rest[j])
    {
      assert rest[j] in rest;
      if rest[j] in ns[1..] {
        var i :| 0 <= i < |ns[1..]| && ns[1..][i] == rest[j];
        assert NameLess(ns[0], ns[i + 1]);
      }
    }
  }

  /** Interface names mapped to dimension values: the value of a name is its position. */
  datatype SymbolTable = SymbolTable(names: seq<string>) {
    ghost predicate Valid() {
      StrictlySorted(names) && |names| <= MAX_INTERFACES
    }

    function IndexOf(name: string): (r: Option<nat>)
      ensures r.Some? ==> r.value < |names| && names[r.value] == name
      ensures r.None? <==> name !in names
    {
      Find(names, name)
    }
  }

  function Find(ns: seq<string>, n: string): (r: Option<nat>)
    ensures r.Some? ==> r.value < |ns| && ns[r.value] == n
    ensures r.None? <==> n !in ns
  {
    if ns == [] then None
    else if ns[0] == n then Some(0)
    else
      match Find(ns[1..], n)
      case None => None
      case Some(i) => Some(i + 1)
  }

  function CollectNames(names: seq<string>): (r: NameSet)
    ensures forall x :: x in r <==> x in names
  {
    if names == [] then []
    else
      assert names == names[..|names| - 1] + [names[|names| - 1]];
      InsertName(CollectNames(names[..|names| - 1]), names[|names| - 1])
  }

  /** Build the table from every name that appears; more than 256 names is an error. */
  function FromNames(names: seq<string>): (r: Option<SymbolTable>)
    ensures r.Some? ==> r.value.Valid() && forall x :: x in r.value.names <==> x in names
    ensures r.None? <==> |set n | n in names| > MAX_INTERFACES
  {
    var collected := CollectNames(names);
    SortedSize(collected);
    assert (set n | n in collected) == set n | n in names;
    if |collected| > MAX_INTERFACES then None else Some(SymbolTable(collected))
  }

  /** A strictly sorted list is as long as the set of its names is large. */
  lemma {:induction false} SortedSize(ns: seq<string>)
    requires StrictlySorted(ns)
    ensures |set n | n in ns| == |ns|
  {
    if ns != [] {
      var init, last := ns[..|ns| - 1], ns[|ns| - 1];
      SortedSize(init);
      assert (set n | n in ns) == (set n | n in init) + {last};
      forall i | 0 <= i < |init|
        ensures init[i] != last
      {
        NamesDistinct(ns, i, |ns| - 1);
      }
    }
  }

  /** A strictly sorted list holds each name once. */
  lemma NamesDistinct(ns: seq<string>, i: nat, j: nat)
    requires StrictlySorted(ns) && i < |ns| && j < |ns|
    ensures ns[i] == ns[j] ==> i == j
  {
    if i < j {
      assert NameLess(ns[i], ns[j]);
    } else if j < i {
      assert NameLess(ns[j], ns[i]);
    }
  }

  datatype IfMatch = Any | OneOf(names: NameSet) | NoneOf(names: NameSet)

  /** The interface value `v` carries one of the names. */
  ghost predicate Named(names: seq<string>, syms: SymbolTable, v: nat) {
    exists n :: n in names && syms.IndexOf(n) == Some(v)
  }

  /** Which of the 256 interface values a match admits. */
  ghost predicate Admits(m: IfMatch, syms: SymbolTable, v: nat) {
    match m
    case Any => true
    case OneOf(names) => Named(names, syms, v)
    case NoneOf(names) => !Named(names, syms, v)
  }

  /** Resolve an interface match to the set of values it admits. */
  method Resolve(m: IfMatch, syms: SymbolTable) returns (s: IntervalSet)
    requires syms.Valid()
    ensures s.bits == 8
    ensures forall v: nat :: Contains(s, v) <==> v <= DomainMax(8) && Admits(m, syms, v)
  {
    match m
    case Any =>
      s := Full(8);
    case OneOf(names) =>
      s := ResolveNames(names, syms);
      forall v: nat
        ensures Contains(s, v) <==> v <= DomainMax(8) && Admits(m, syms, v)
      {
        FullAndEmpty(s);
      }
    case NoneOf(names) =>
      var excluded := ResolveNames(names, syms);
      s := ComplementOf(excluded);
  }

  /** The accumulating loop of `resolve`. */
  method ResolveNames(names: seq<string>, syms: SymbolTable) returns (acc: IntervalSet)
    requires syms.Valid()
    ensures acc.bits == 8
    ensures forall v: nat :: Contains(acc, v) <==> Named(names, syms, v)
  {
    acc := Empty(8);
    for k := 0 to |names|
      invariant acc.bits == 8
      invariant forall v: nat :: Contains(acc, v) <==> Named(names[..k], syms, v)
    {
      ghost var before := acc;
      match syms.IndexOf(names[k]) {
        case None =>
        case Some(i) =>
          IndexInDomain(i);
          acc := Union(acc, Point(8, i));
      }
      forall v: nat
        ensures Contains(acc, v) <==> Named(names[..k + 1], syms, v)
      {
        assert Contains(before, v) <==> Named(names[..k], syms, v);
        assert names[..k + 1] == names[..k] + [names[k]];
        if Named(names[..k], syms, v) {
          var n :| n in names[..k] && syms.IndexOf(n) == Some(v);
          assert n in names[..k + 1];
        }
      }
    }
    assert names[..|names|] == names;
  }

  lemma IndexInDomain(i: nat)
    requires i < MAX_INTERFACES
    ensures i <= DomainMax(8)
  {
    Pow2Table();
  }

  // ----------------------------------------------------------------- matches

  datatype Action = Accept | Drop | Reject {
    predicate Permits() { Accept? }
  }

  datatype Hook = Input | Output | Forward

  /** A conjunction over the seven dimensions. The interface dimensions keep their names. */
  datatype RawMatch = RawMatch(srcAddr: IntervalSet, dstAddr: IntervalSet, srcPort: IntervalSet,
                               dstPort: IntervalSet, proto: IntervalSet, iif: IfMatch, oif: IfMatch)
  {
    function Dim(f: Field): IntervalSet
      requires !f.IsInterface()
    {
      match f
      case SrcAddr => srcAddr
      case DstAddr => dstAddr
      case SrcPort => srcPort
      case DstPort => dstPort
      case Proto => proto
    }

    function WithDim(f: Field, s: IntervalSet): RawMatch
      requires !f.IsInterface()
    {
      match f
      case SrcAddr => this.(srcAddr := s)
      case DstAddr => this.(dstAddr := s)
      case SrcPort => this.(srcPort := s)
      case DstPort => this.(dstPort := s)
      case Proto => this.(proto := s)
    }
  }

  predicate WellSized(m: RawMatch) {
    && m.srcAddr.bits == m.dstAddr.bits == 32
    && m.srcPort.bits == m.dstPort.bits == 16
    && m.proto.bits == 8
  }

  type Match = m: RawMatch | WellSized(m) witness RawMatch(Empty(32), Empty(32), Empty(16), Empty(16), Empty(8), Any,
    Any)

  function AnyMatch(): Match {
    RawMatch(Full(32), Full(32), Full(16), Full(16), Full(8), Any, Any)
  }

  /** Narrow one packet dimension by intersection. */
  function Constrain(m: Match, f: Field, s: IntervalSet): Match
    requires !f.IsInterface() && s.bits == f.Bits()
  {
    m.WithDim(f, Meet(m.Dim(f), s))
  }

  /** Constraining intersects the one dimension and leaves the others alone. */
  lemma ConstrainNarrows(m: Match, f: Field, s: IntervalSet)
    requires !f.IsInterface() && s.bits == f.Bits()
    ensures var r := Constrain(m, f, s);
      && (forall v: nat :: Contains(r.Dim(f), v) <==> Contains(m.Dim(f), v) && Contains(s, v))
      && (forall g: Field :: g != f && !g.IsInterface() ==> r.Dim(g) == m.Dim(g))
      && r.iif == m.iif && r.oif == m.oif
  {
    hide Contains, Canonical;
    var met := Meet(m.Dim(f), s);
    assert Constrain(m, f, s) == m.WithDim(f, met);
    assert m.WithDim(f, met).Dim(f) == met;
  }

  /** Lift the constraint on one dimension. */
  function Relax(m: Match, f: Field): Match {
    match f
    case IfIn => m.(iif := Any)
    case IfOut => m.(oif := Any)
    case _ => m.WithDim(f, Full(f.Bits()))
  }

  /** Relaxing forgets exactly the constraint: what was put on the dimension before is gone. */
  lemma RelaxUndoesConstrain(m: Match, f: Field, s: IntervalSet)
    requires !f.IsInterface() && s.bits == f.Bits()
    ensures Relax(Constrain(m, f, s), f) == Relax(m, f)
    ensures Constrain(Relax(m, f), f, s).Dim(f) == s
  {
    hide Contains, Canonical;
    FullMeets(f.Bits(), s);
    var met := Meet(m.Dim(f), s);
    assert Constrain(m, f, s) == m.WithDim(f, met);
  }

  /** The same for the interfaces, which then admit every value; nothing else changes. */
  lemma RelaxForgetsInterface(m: Match, s: IfMatch, syms: SymbolTable, q: Packet)
    ensures Relax(m.(iif := s), IfIn) == Relax(m, IfIn) && Relax(m.(oif := s), IfOut) == Relax(m, IfOut)
    ensures Matches(m, syms, q) <==> Matches(Relax(m, IfIn), syms, q) && Admits(m.iif, syms, q.iif)
    ensures Matches(m, syms, q) <==> Matches(Relax(m, IfOut), syms, q) && Admits(m.oif, syms, q.oif)
  {
    hide Contains, Canonical, WellSized, Named, Relax;
    RelaxedInterfaces(m);
  }

  lemma RelaxedInterfaces(m: Match)
    ensures Relax(m, IfIn).iif == Any && Relax(m, IfIn).oif == m.oif
    ensures Relax(m, IfOut).oif == Any && Relax(m, IfOut).iif == m.iif
    ensures forall f: Field :: !f.IsInterface() ==> Relax(m, IfIn).Dim(f) == m.Dim(f) == Relax(m, IfOut).Dim(f)
    ensures forall s: IfMatch ::
      Relax(m.(iif := s), IfIn) == Relax(m, IfIn) && Relax(m.(oif := s), IfOut) == Relax(m, IfOut)
  {
    hide Contains, Canonical;
  }

  /** Intersecting with the full set changes nothing, down to the structure. */
  lemma FullMeets(bits: nat, s: IntervalSet)
    requires s.bits == bits
    ensures Meet(Full(bits), s) == s
  {
    FullAndEmpty(s);
    SetEquality(Meet(Full(bits), s), s);
  }

  /** The value sets decide the five packet fields, the names the two interfaces. */
  ghost predicate Matches(m: Match, syms: SymbolTable, q: Packet) {
    && (forall f: Field :: !f.IsInterface() ==> Contains(m.Dim(f), q.Get(f)))
    && Admits(m.iif, syms, q.iif)
    && Admits(m.oif, syms, q.oif)
  }

  /** A constrained match is the conjunction of the match and the constraint. */
  lemma ConstrainedMatches(m: Match, f: Field, s: IntervalSet, syms: SymbolTable, q: Packet)
    requires !f.IsInterface() && s.bits == f.Bits()
    ensures Matches(Constrain(m, f, s), syms, q) <==> Matches(m, syms, q) && Contains(s, q.Get(f))
  {
    hide Contains, Canonical, WellSized, Admits, Constrain;
    ConstrainNarrows(m, f, s);
    if Matches(Constrain(m, f, s), syms, q) {
      forall g: Field | !g.IsInterface()
        ensures Contains(m.Dim(g), q.Get(g))
      {
        assert Contains(Constrain(m, f, s).Dim(g), q.Get(g));
      }
    }
  }

  lemma AnyMatches(syms: SymbolTable, q: Packet)
    requires q.InDomain()
    ensures Matches(AnyMatch(), syms, q)
  {
    forall f: Field | !f.IsInterface()
      ensures Contains(AnyMatch().Dim(f), q.Get(f))
    {
      assert q.Get(f) <= DomainMax(f.Bits());
    }
  }

  predicate IsUnsatisfiable(m: Match) {
    IsEmpty(m.srcAddr) || IsEmpty(m.dstAddr) || IsEmpty(m.srcPort) || IsEmpty(m.dstPort) || IsEmpty(m.proto)
  }

  // ----------------------------------------------------- rules and verdicts

  datatype Rule = Rule(number: nat, matches: Match, action: Action)

  datatype Chain = Chain(name: string, hook: Hook, policy: Action, rules: seq<Rule>) {
    /** Append a rule; it gets the next number, counting from one. */
    function Push(m: Match, action: Action): Chain {
      this.(rules := rules + [Rule(|rules| + 1, m, action)])
    }

    predicate Numbered() {
      forall i | 0 <= i < |rules| :: rules[i].number == i + 1
    }
  }

  datatype Decider = ByRule(number: nat) | ByPolicy

  /** Position of the first rule that matches, or the number of rules when none does. */
  ghost function FirstMatch(rules: seq<Rule>, syms: SymbolTable, q: Packet): (k: nat)
    ensures k <= |rules|
  {
    if rules == [] then 0
    else if Matches(rules[0].matches, syms, q) then 0
    else 1 + FirstMatch(rules[1..], syms, q)
  }

  /** First match wins; the policy decides the rest. */
  ghost predicate Permitted(rules: seq<Rule>, policy: Action, syms: SymbolTable, q: Packet) {
    var k := FirstMatch(rules, syms, q);
    if k < |rules| then rules[k].action.Permits() else policy.Permits()
  }

  ghost function DeciderOf(chain: Chain, syms: SymbolTable, q: Packet): Decider {
    var k := FirstMatch(chain.rules, syms, q);
    if k < |chain.rules| then ByRule(chain.rules[k].number) else ByPolicy
  }

  lemma {:induction false} FirstMatchIs(rules: seq<Rule>, syms: SymbolTable, q: Packet, k: nat)
    requires k <= |rules|
    requires forall i | 0 <= i < k :: !Matches(rules[i].matches, syms, q)
    requires k < |rules| ==> Matches(rules[k].matches, syms, q)
    ensures FirstMatch(rules, syms, q) == k
  {
    hide Matches;
    if k > 0 { FirstMatchIs(rules[1..], syms, q, k - 1); }
  }

  /** Up to the first match, a rule matches exactly when it is the first match. */
  lemma {:induction false} FirstMatchSound(rules: seq<Rule>, syms: SymbolTable, q: Packet, i: nat)
    requires i <= FirstMatch(rules, syms, q) && i < |rules|
    ensures Matches(rules[i].matches, syms, q) <==> i == FirstMatch(rules, syms, q)
  {
    hide Matches, FirstMatch;
    FirstMatchStep(rules, syms, q);
    if i > 0 { FirstMatchSound(rules[1..], syms, q, i - 1); }
  }

  lemma FirstMatchStep(rules: seq<Rule>, syms: SymbolTable, q: Packet)
    requires rules != []
    ensures FirstMatch(rules, syms, q) ==
      if Matches(rules[0].matches, syms, q) then 0 else 1 + FirstMatch(rules[1..], syms, q)
  {
  }
}
