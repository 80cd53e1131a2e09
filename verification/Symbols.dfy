/** Nothing a report says depends on which interface gets which number.

The symbol table is built from all names of both revisions, so it changes when
a revision names one more interface. Any two tables that know the names of a
chain give the same answers up to one renaming of the interface values. */
module Symbols {
  import opened Wrappers
  import opened Arith
  import opened Intervals
  import opened Rules
  import opened Diagram
  import opened Header
  import opened Accept
  import opened Cardinality
  import opened Counting
  import opened Diff

  // ----------------------------------------------------------- permutations

  function Below(n: nat): (s: set<nat>)
    ensures forall i: nat :: i in s <==> i < n
  {
    if n == 0 then {} else Below(n - 1) + {n - 1}
  }

  ghost predicate Injection(f: map<nat, nat>, n: nat) {
    && (forall a | a in f :: a < n && f[a] < n)
    && (forall a, b | a in f && b in f && f[a] == f[b] :: a == b)
  }

  ghost predicate Permutation(f: map<nat, nat>, n: nat) {
    Injection(f, n) && f.Keys == Below(n)
  }

  lemma {:induction false} BelowSize(n: nat)
    ensures |Below(n)| == n
  {
    if n > 0 {
      BelowSize(n - 1);
    }
  }

  lemma ValuesSizeOf(f: map<nat, nat>, n: nat)
    requires Injection(f, n)
    ensures |f.Values| == |f.Keys| && f.Values <= Below(n)
  {
    forall y
      ensures y in f.Values <==> exists x :: x in f.Keys && f[x] == y
    {
    }
    InjectiveSize(f.Keys, f.Values, f);
  }

  /** An injection that leaves an argument out also leaves a value out. */
  lemma SpareValue(f: map<nat, nat>, n: nat, a: nat) returns (b: nat)
    requires Injection(f, n) && a < n && a !in f
    ensures b < n && b !in f.Values
  {
    hide Below;
    ValuesSizeOf(f, n);
    BelowSize(n);
    ProperSubsetSize(f.Keys, Below(n), a);
    assert f.Values != Below(n);
    b :| b in Below(n) && b !in f.Values;
  }

  /** Every injection of some values extends to a permutation of all. */
  lemma {:induction false} ExtendInjection(f: map<nat, nat>, n: nat) returns (g: map<nat, nat>)
    requires Injection(f, n)
    ensures Permutation(g, n) && forall a | a in f :: a in g && g[a] == f[a]
    decreases n - |f.Keys|
  {
    hide Below;
    assert f.Keys <= Below(n);
    if a :| a in Below(n) && a !in f {
      var b := SpareValue(f, n, a);
      BelowSize(n);
      ProperSubsetSize(f.Keys, Below(n), a);
      OneMore(f, n, a, b);
      g := ExtendInjection(f[a := b], n);
    } else {
      assert f.Keys == Below(n);
      g := f;
    }
  }

  lemma OneMore(f: map<nat, nat>, n: nat, a: nat, b: nat)
    requires Injection(f, n) && a < n && a !in f && b < n && b !in f.Values
    ensures Injection(f[a := b], n) && f[a := b].Keys == f.Keys + {a}
    ensures forall x | x in f :: x in f[a := b] && f[a := b][x] == f[x]
  {
  }

  lemma PermutationOnto(f: map<nat, nat>, n: nat, b: nat) returns (a: nat)
    requires Permutation(f, n) && b < n
    ensures a in f && f[a] == b
  {
    ValuesSizeOf(f, n);
    BelowSize(n);
    if b !in f.Values { ProperSubsetSize(f.Values, Below(n), b); }
    a :| a in f && f[a] == b;
  }

  // --------------------------------------------------------------- renaming

  /** A permutation of the interface values that takes the value of every name both tables know
  in the one to its value in the other. */
  ghost predicate Renames(f: map<nat, nat>, was: SymbolTable, now: SymbolTable) {
    Permutation(f, MAX_INTERFACES) && forall n :: RenamesName(f, was, now, n)
  }

  ghost predicate RenamesName(f: map<nat, nat>, was: SymbolTable, now: SymbolTable, n: string) {
    n in was.names && n in now.names ==> was.IndexOf(n).value in f && f[was.IndexOf(n).value] == now.IndexOf(n).value
  }

  /** Two tables always have one. */
  lemma RenamingExists(was: SymbolTable, now: SymbolTable) returns (f: map<nat, nat>)
    requires was.Valid() && now.Valid()
    ensures Renames(f, was, now)
  {
    var partial := map i: nat | 0 <= i < |was.names| && was.names[i] in now.names :: now.IndexOf(was.names[i]).value;
    forall a, b | a in partial && b in partial && partial[a] == partial[b]
      ensures a == b
    {
      NamesDistinct(was.names, a, b);
    }
    f := ExtendInjection(partial, MAX_INTERFACES);
    forall n
      ensures RenamesName(f, was, now, n)
    {
      if n in was.names && n in now.names { assert was.IndexOf(n).value in partial; }
    }
  }

  function NamesOf(m: IfMatch): seq<string> {
    if m.Any? then [] else m.names
  }

  ghost predicate Knows(syms: SymbolTable, m: IfMatch) {
    forall n | n in NamesOf(m) :: n in syms.names
  }

  /** The table has every interface name the rules mention. */
  ghost predicate KnowsRules(syms: SymbolTable, rules: seq<Rule>) {
    forall i | 0 <= i < |rules| :: Knows(syms, rules[i].matches.iif) && Knows(syms, rules[i].matches.oif)
  }

  lemma NamedRenamed(names: seq<string>, was: SymbolTable, now: SymbolTable, f: map<nat, nat>, v: nat)
    requires Renames(f, was, now) && v < MAX_INTERFACES
    requires forall n | n in names :: n in was.names && n in now.names
    ensures v in f && f[v] < MAX_INTERFACES && (Named(names, was, v) <==> Named(names, now, f[v]))
  {
    assert v in Below(MAX_INTERFACES);
    if Named(names, was, v) {
      var n :| n in names && was.IndexOf(n) == Some(v);
      assert RenamesName(f, was, now, n);
    }
    if Named(names, now, f[v]) {
      var n :| n in names && now.IndexOf(n) == Some(f[v]);
      assert RenamesName(f, was, now, n);
      assert was.IndexOf(n) == Some(v);
    }
  }

  lemma AdmitsRenamed(m: IfMatch, was: SymbolTable, now: SymbolTable, f: map<nat, nat>, v: nat)
    requires Renames(f, was, now) && v < MAX_INTERFACES && Knows(was, m) && Knows(now, m)
    ensures v in f && f[v] < MAX_INTERFACES && (Admits(m, was, v) <==> Admits(m, now, f[v]))
  {
    NamedRenamed(NamesOf(m), was, now, f, v);
  }

  ghost predicate InterfacesInDomain(q: Packet) {
    q.iif < MAX_INTERFACES && q.oif < MAX_INTERFACES
  }

  /** The packet with its interface values renamed. */
  ghost function Renamed(f: map<nat, nat>, q: Packet): (r: Packet)
    requires Permutation(f, MAX_INTERFACES) && InterfacesInDomain(q)
    ensures InterfacesInDomain(r)
  {
    assert q.iif in Below(MAX_INTERFACES) && q.oif in Below(MAX_INTERFACES);
    q.(iif := f[q.iif], oif := f[q.oif])
  }

  lemma MatchesRenamed(m: Match, was: SymbolTable, now: SymbolTable, f: map<nat, nat>, q: Packet)
    requires Renames(f, was, now) && InterfacesInDomain(q)
    requires Knows(was, m.iif) && Knows(now, m.iif) && Knows(was, m.oif) && Knows(now, m.oif)
    ensures Matches(m, was, q) <==> Matches(m, now, Renamed(f, q))
  {
    AdmitsRenamed(m.iif, was, now, f, q.iif);
    AdmitsRenamed(m.oif, was, now, f, q.oif);
    hide Admits, Renames, Contains, Knows;
    var r := Renamed(f, q);
    assert forall g: Field :: !g.IsInterface() ==> q.Get(g) == r.Get(g);
  }

  /** First-match evaluation commutes with renaming: the same rule decides. */
  lemma {:induction false} FirstMatchRenamed(rules: seq<Rule>, was: SymbolTable, now: SymbolTable, f: map<nat, nat>,
                                             q: Packet)
    requires Renames(f, was, now) && InterfacesInDomain(q) && KnowsRules(was, rules) && KnowsRules(now, rules)
    ensures FirstMatch(rules, was, q) == FirstMatch(rules, now, Renamed(f, q))
  {
    hide Renames, Matches, Knows, Renamed, Permutation, Below;
    if rules != [] {
      assert Permutation(f, MAX_INTERFACES) by { RenamesPermutes(f, was, now); }
      MatchesRenamed(rules[0].matches, was, now, f, q);
      FirstMatchRenamed(rules[1..], was, now, f, q);
    }
  }

  lemma RenamesPermutes(f: map<nat, nat>, was: SymbolTable, now: SymbolTable)
    requires Renames(f, was, now)
    ensures Permutation(f, MAX_INTERFACES)
  {
  }

  lemma PermittedRenamed(rules: seq<Rule>, policy: Action, was: SymbolTable, now: SymbolTable, f: map<nat, nat>,
                         q: Packet)
    requires Renames(f, was, now) && InterfacesInDomain(q) && KnowsRules(was, rules) && KnowsRules(now, rules)
    ensures Permitted(rules, policy, was, q) <==> Permitted(rules, policy, now, Renamed(f, q))
  {
    FirstMatchRenamed(rules, was, now, f, q);
  }

  // -------------------------------------------------------- compiled chains

  lemma PointInterfaces(l: Layout, p: Point)
    requires l.Valid()
    ensures InterfacesInDomain(PacketAt(l, p))
  {
    hide Layout.Valid, FieldValue;
    PacketInDomain(l, p);
    Pow2Table();
    var q := PacketAt(l, p);
    assert q.Get(IfIn) <= DomainMax(8) && q.Get(IfOut) <= DomainMax(8);
  }

  /** The point with its interface values renamed. */
  ghost function RenamedPoint(l: Layout, f: map<nat, nat>, p: Point): Point
    requires l.Valid() && Permutation(f, MAX_INTERFACES)
  {
    PointInterfaces(l, p);
    PointOf(l, Renamed(f, PacketAt(l, p)))
  }

  lemma RenamedInDomain(f: map<nat, nat>, q: Packet)
    requires Permutation(f, MAX_INTERFACES) && q.InDomain() && InterfacesInDomain(q)
    ensures Renamed(f, q).InDomain()
  {
    hide Permutation, Below, DomainMax;
    InterfaceMax();
    var r := Renamed(f, q);
    forall g: Field
      ensures r.Get(g) <= DomainMax(g.Bits())
    {
      assert q.Get(g) <= DomainMax(g.Bits());
    }
  }

  lemma RenamedPacket(l: Layout, f: map<nat, nat>, p: Point)
    requires l.Valid() && Permutation(f, MAX_INTERFACES)
    ensures InterfacesInDomain(PacketAt(l, p)) && PacketAt(l, RenamedPoint(l, f, p)) == Renamed(f, PacketAt(l, p))
  {
    hide Layout.Valid, Permutation, PacketAt, PointOf, InterfacesInDomain;
    PointInterfaces(l, p);
    PacketInDomain(l, p);
    RenamedInDomain(f, PacketAt(l, p));
    PacketOfPoint(l, Renamed(f, PacketAt(l, p)));
  }

  /** Renaming takes `s` to `t`. */
  ghost predicate Carried(l: Layout, f: map<nat, nat>, s: PacketSet, t: PacketSet)
    requires l.Valid() && Permutation(f, MAX_INTERFACES)
  {
    forall p: Point :: Has(s, p) <==> Has(t, RenamedPoint(l, f, p))
  }

  lemma RenamedPointInjective(l: Layout, f: map<nat, nat>, p: Point, q: Point)
    requires l.Valid() && Permutation(f, MAX_INTERFACES) && RenamedPoint(l, f, p) == RenamedPoint(l, f, q)
    ensures p == q
  {
    hide Layout.Valid, PacketAt, PointOf, RenamedPoint;
    RenamedPacket(l, f, p);
    RenamedPacket(l, f, q);
    RenamedInjective(f, PacketAt(l, p), PacketAt(l, q));
    PointOfPacket(l, p);
    PointOfPacket(l, q);
  }

  lemma RenamedInjective(f: map<nat, nat>, a: Packet, b: Packet)
    requires Permutation(f, MAX_INTERFACES) && InterfacesInDomain(a) && InterfacesInDomain(b)
    requires Renamed(f, a) == Renamed(f, b)
    ensures a == b
  {
    assert a.iif in f && b.iif in f && f[a.iif] == f[b.iif];
    assert a.oif in f && b.oif in f && f[a.oif] == f[b.oif];
  }

  lemma RenamedPointOnto(l: Layout, f: map<nat, nat>, q: Point) returns (p: Point)
    requires l.Valid() && Permutation(f, MAX_INTERFACES)
    ensures RenamedPoint(l, f, p) == q
  {
    hide Layout.Valid, PacketAt, PointOf;
    var k := PacketAt(l, q);
    PointInterfaces(l, q);
    PacketInDomain(l, q);
    var i := PermutationOnto(f, MAX_INTERFACES, k.iif);
    var o := PermutationOnto(f, MAX_INTERFACES, k.oif);
    var before := k.(iif := i, oif := o);
    InterfacesReplaced(k, i, o);
    p := PointOf(l, before);
    PacketOfPoint(l, before);
    PointOfPacket(l, q);
  }

  lemma InterfaceMax()
    ensures DomainMax(8) == MAX_INTERFACES - 1
  {
    Pow2Table();
  }

  lemma InterfacesReplaced(q: Packet, i: nat, o: nat)
    requires q.InDomain() && i < MAX_INTERFACES && o < MAX_INTERFACES
    ensures q.(iif := i, oif := o).InDomain()
  {
    InterfaceMax();
    hide DomainMax;
    var r := q.(iif := i, oif := o);
    forall g: Field
      ensures r.Get(g) <= DomainMax(g.Bits())
    {
      assert q.Get(g) <= DomainMax(g.Bits());
    }
  }

  /** Sets carried into each other are equally large and empty together. */
  lemma CarriedSize(l: Layout, f: map<nat, nat>, s: PacketSet, t: PacketSet)
    requires l.Valid() && Permutation(f, MAX_INTERFACES) && Carried(l, f, s, t)
    ensures ExactCardinality(s) == ExactCardinality(t) && (IsFalse(s) <==> IsFalse(t))
  {
    hide Layout.Valid, Permutation, RenamedPoint, Models;
    CardinalityIsSize(s);
    CardinalityIsSize(t);
    CarriedMembers(l, f, s, t);
    FalseIsEmpty(s);
    FalseIsEmpty(t);
    if p: Point :| Has(t, p) { var q := RenamedPointOnto(l, f, p); }
  }

  ghost function PointMap(l: Layout, f: map<nat, nat>, points: set<seq<bool>>): (g: map<seq<bool>, seq<bool>>)
    requires l.Valid() && Permutation(f, MAX_INTERFACES) && forall p | p in points :: |p| == VARIABLES
    ensures g.Keys == points
  {
    map p | p in points :: RenamedPoint(l, f, p)
  }

  lemma MemberIsPoint(s: PacketSet)
    ensures forall p :: p in Members(s) <==> |p| == VARIABLES && Eval(s, p)
  {
    forall p
      ensures p in Members(s) <==> |p| == VARIABLES && Eval(s, p)
    {
      AllPointsMember(VARIABLES, p);
    }
  }

  lemma CarriedMembers(l: Layout, f: map<nat, nat>, s: PacketSet, t: PacketSet)
    requires l.Valid() && Permutation(f, MAX_INTERFACES) && Carried(l, f, s, t)
    ensures |Members(s)| == |Members(t)|
  {
    MemberIsPoint(s);
    MemberIsPoint(t);
    hide Layout.Valid, Permutation, RenamedPoint, Members, Reduced, Eval;
    var g := PointMap(l, f, Members(s));
    forall q
      ensures q in Members(t) <==> exists p :: p in Members(s) && g[p] == q
    {
      if q in Members(t) {
        var p := RenamedPointOnto(l, f, q);
        assert Has(s, p);
        assert g[p] == q;
      }
      if p :| p in Members(s) && g[p] == q { assert Has(s, p); }
    }
    forall p, q | p in Members(s) && q in Members(s) && g[p] == g[q]
      ensures p == q
    {
      RenamedPointInjective(l, f, p, q);
    }
    InjectiveSize(Members(s), Members(t), g);
  }

  // -------------------------------------------------------- what is carried

  /** Both tables know the rules, and `f` renames between them. */
  ghost predicate Interchangeable(f: map<nat, nat>, was: SymbolTable, now: SymbolTable, rules: seq<Rule>) {
    Renames(f, was, now) && KnowsRules(was, rules) && KnowsRules(now, rules) && Permutation(f, MAX_INTERFACES)
  }

  lemma FirstRenamed(l: Layout, f: map<nat, nat>, was: SymbolTable, now: SymbolTable, rules: seq<Rule>,
                     policy: Action, p: Point)
    requires l.Valid() && Interchangeable(f, was, now, rules)
    ensures First(l, was, rules, p) == First(l, now, rules, RenamedPoint(l, f, p))
    ensures Permits(l, was, rules, policy, p) <==> Permits(l, now, rules, policy, RenamedPoint(l, f, p))
  {
    hide Layout.Valid, Permutation, RenamedPoint, Renames, KnowsRules, FirstMatch, Permitted, PacketAt, Renamed;
    RenamedPacket(l, f, p);
    FirstMatchRenamed(rules, was, now, f, PacketAt(l, p));
    PermittedRenamed(rules, policy, was, now, f, PacketAt(l, p));
  }

  lemma KnowsFewer(syms: SymbolTable, rules: seq<Rule>, i: nat)
    requires KnowsRules(syms, rules) && i < |rules|
    ensures KnowsRules(syms, Without(rules, i))
  {
  }

  /** A point where deleting rule `i` matters. */
  ghost predicate Matters(l: Layout, syms: SymbolTable, rules: seq<Rule>, policy: Action, i: nat, p: Point)
    requires l.Valid() && i < |rules|
  {
    Permits(l, syms, Without(rules, i), policy, p) != Permits(l, syms, rules, policy, p)
  }

  lemma MattersRenamed(l: Layout, f: map<nat, nat>, was: SymbolTable, now: SymbolTable, rules: seq<Rule>,
                       policy: Action, i: nat, p: Point)
    requires l.Valid() && Interchangeable(f, was, now, rules) && i < |rules|
    ensures Permutation(f, MAX_INTERFACES)
    ensures Matters(l, was, rules, policy, i, p) <==> Matters(l, now, rules, policy, i, RenamedPoint(l, f, p))
  {
    KnowsFewer(was, rules, i);
    KnowsFewer(now, rules, i);
    assert Interchangeable(f, was, now, Without(rules, i));
    hide Layout.Valid, RenamedPoint, Permits, Interchangeable, Permutation, Without;
    InterchangeablePermutes(f, was, now, rules);
    FirstRenamed(l, f, was, now, rules, policy, p);
    FirstRenamed(l, f, was, now, Without(rules, i), policy, p);
  }

  lemma DeletableRenamed(l: Layout, f: map<nat, nat>, was: SymbolTable, now: SymbolTable, rules: seq<Rule>,
                         policy: Action, i: nat)
    requires l.Valid() && Interchangeable(f, was, now, rules) && i < |rules|
    ensures Deletable(l, was, rules, policy, i) <==> Deletable(l, now, rules, policy, i)
  {
    DeletableIs(l, was, rules, policy, i);
    DeletableIs(l, now, rules, policy, i);
    hide Layout.Valid, RenamedPoint, Deletable, Interchangeable, Permutation, Matters;
    InterchangeablePermutes(f, was, now, rules);
    if p: Point :| Matters(l, was, rules, policy, i, p) {
      MattersRenamed(l, f, was, now, rules, policy, i, p);
    }
    if p: Point :| Matters(l, now, rules, policy, i, p) {
      var q := RenamedPointOnto(l, f, p);
      MattersRenamed(l, f, was, now, rules, policy, i, q);
    }
  }

  lemma DeletableIs(l: Layout, syms: SymbolTable, rules: seq<Rule>, policy: Action, i: nat)
    requires l.Valid() && i < |rules|
    ensures Deletable(l, syms, rules, policy, i) <==> forall p: Point :: !Matters(l, syms, rules, policy, i, p)
  {
    hide Layout.Valid, Permits, Without;
    if Deletable(l, syms, rules, policy, i) {
      forall p: Point
        ensures !Matters(l, syms, rules, policy, i, p)
      {
        assert Permits(l, syms, Without(rules, i), policy, p) <==> Permits(l, syms, rules, policy, p);
      }
    } else {
      var p: Point :| Permits(l, syms, Without(rules, i), policy, p) != Permits(l, syms, rules, policy, p);
      assert Matters(l, syms, rules, policy, i, p);
    }
  }

  lemma InterchangeablePermutes(f: map<nat, nat>, was: SymbolTable, now: SymbolTable, rules: seq<Rule>)
    requires Interchangeable(f, was, now, rules)
    ensures Permutation(f, MAX_INTERFACES)
  {
  }

  lemma EffectiveCarried(l: Layout, f: map<nat, nat>, was: SymbolTable, now: SymbolTable, rules: seq<Rule>,
                         s: PacketSet, t: PacketSet, i: nat)
    requires l.Valid() && Interchangeable(f, was, now, rules)
    requires forall p: Point :: Has(s, p) <==> First(l, was, rules, p) == i
    requires forall p: Point :: Has(t, p) <==> First(l, now, rules, p) == i
    ensures Permutation(f, MAX_INTERFACES) && Carried(l, f, s, t)
    ensures ExactCardinality(s) == ExactCardinality(t) && (IsFalse(s) <==> IsFalse(t))
  {
    hide Layout.Valid, RenamedPoint, Interchangeable, Permutation, First, Models;
    InterchangeablePermutes(f, was, now, rules);
    forall p: Point { FirstRenamed(l, f, was, now, rules, Drop, p); }
    CarriedSize(l, f, s, t);
  }

  lemma ShadowedIsEmpty(m: ChainModel, l: Layout, syms: SymbolTable, chain: Chain, i: nat)
    requires l.Valid() && ModelOf(m, l, syms, chain) && i < |chain.rules|
    ensures m.rules[i].shadowed <==> IsFalse(m.rules[i].effective)
    ensures forall p: Point :: Has(m.rules[i].effective, p) <==> First(l, syms, chain.rules, p) == i
    ensures m.rules[i].redundant <==> Deletable(l, syms, chain.rules, chain.policy, i)
  {
    hide Layout.Valid, Matches, First, Deletable;
    assert RuleModelOf(m.rules[i], l, syms, chain.rules, i);
    FalseIsEmpty(m.rules[i].effective);
  }

  /** One compiled rule under two tables. */
  lemma RuleCarried(l: Layout, f: map<nat, nat>, was: SymbolTable, now: SymbolTable, chain: Chain,
                    a: ChainModel, b: ChainModel, i: nat)
    requires l.Valid() && Interchangeable(f, was, now, chain.rules)
    requires ModelOf(a, l, was, chain) && ModelOf(b, l, now, chain) && i < |chain.rules|
    ensures Permutation(f, MAX_INTERFACES) && |a.rules| == |b.rules| == |chain.rules|
    ensures Carried(l, f, a.rules[i].effective, b.rules[i].effective)
    ensures a.rules[i].shadowed == b.rules[i].shadowed && a.rules[i].redundant == b.rules[i].redundant
    ensures ExactCardinality(a.rules[i].effective) == ExactCardinality(b.rules[i].effective)
  {
    SameLength(a, l, was, chain);
    SameLength(b, l, now, chain);
    hide *;
    ShadowedIsEmpty(a, l, was, chain, i);
    ShadowedIsEmpty(b, l, now, chain, i);
    DeletableRenamed(l, f, was, now, chain.rules, chain.policy, i);
    EffectiveCarried(l, f, was, now, chain.rules, a.rules[i].effective, b.rules[i].effective, i);
  }

  lemma SameLength(m: ChainModel, l: Layout, syms: SymbolTable, chain: Chain)
    requires l.Valid() && ModelOf(m, l, syms, chain)
    ensures |m.rules| == |chain.rules|
  {
  }

  /** The accept sets under two tables. */
  lemma AcceptCarried(l: Layout, f: map<nat, nat>, was: SymbolTable, now: SymbolTable, chain: Chain, a: ChainModel,
                      b: ChainModel)
    requires l.Valid() && Interchangeable(f, was, now, chain.rules)
    requires ModelOf(a, l, was, chain) && ModelOf(b, l, now, chain)
    ensures Permutation(f, MAX_INTERFACES) && Carried(l, f, a.accept, b.accept)
    ensures ExactCardinality(a.accept) == ExactCardinality(b.accept)
  {
    hide Layout.Valid, RenamedPoint, Interchangeable, Permutation, First, Models, Permits, RuleModelOf, Deletable;
    InterchangeablePermutes(f, was, now, chain.rules);
    forall p: Point { FirstRenamed(l, f, was, now, chain.rules, chain.policy, p); }
    CarriedSize(l, f, a.accept, b.accept);
  }

  /** A delta is carried when the two accept sets are. */
  lemma DeltaCarried(l: Layout, f: map<nat, nat>, x: PacketSet, y: PacketSet, delta: PacketSet,
                     x2: PacketSet, y2: PacketSet, delta2: PacketSet)
    requires l.Valid() && Permutation(f, MAX_INTERFACES) && Carried(l, f, x, x2) && Carried(l, f, y, y2)
    requires forall p: Point :: Has(delta, p) <==> Has(x, p) && !Has(y, p)
    requires forall p: Point :: Has(delta2, p) <==> Has(x2, p) && !Has(y2, p)
    ensures Carried(l, f, delta, delta2)
    ensures ExactCardinality(delta) == ExactCardinality(delta2) && (IsFalse(delta) <==> IsFalse(delta2))
  {
    hide Layout.Valid, RenamedPoint, Permutation, Models;
    assert Carried(l, f, delta, delta2);
    CarriedSize(l, f, delta, delta2);
  }
}
