/** Counting finite sets: interval sets, boxes and sets of points. */
module Cardinality {
  import opened Intervals

  // ------------------------------------------------------------ finite sets

  lemma ProperSubsetSize<T>(a: set<T>, b: set<T>, x: T)
    requires a <= b && x in b && x !in a
    ensures |a| < |b|
  {
    SubsetSize(a, b - {x});
  }

  lemma {:induction false} SubsetSize<T>(a: set<T>, b: set<T>)
    requires a <= b
    ensures |a| <= |b|
  {
    if a != {} {
      var x :| x in a;
      SubsetSize(a - {x}, b - {x});
    }
  }

  /** A set and its image under an injective map have the same size. */
  lemma {:induction false} InjectiveSize<A, B>(a: set<A>, b: set<B>, f: map<A, B>)
    requires f.Keys == a
    requires forall y :: y in b <==> exists x :: x in a && f[x] == y
    requires forall x, y | x in a && y in a && f[x] == f[y] :: x == y
    ensures |a| == |b|
  {
    if a == {} {
      assert b == {};
    } else {
      var x :| x in a;
      var rest := map k | k in a && k != x :: f[k];
      forall y
        ensures y in b - {f[x]} <==> exists k :: k in a - {x} && rest[k] == y
      {
        if y in b - {f[x]} {
          var k :| k in a && f[k] == y;
          assert k in a - {x} && rest[k] == y;
        }
        if k :| k in a - {x} && rest[k] == y {
          assert k in a && f[k] == y;
        }
      }
      InjectiveSize(a - {x}, b - {f[x]}, rest);
      assert f[x] in b;
    }
  }

  /** All pairs `[v] + q`. */
  function Prepend<T>(vs: set<T>, qs: set<seq<T>>): set<seq<T>> {
    set v, q | v in vs && q in qs :: [v] + q
  }

  lemma PrependMember<T>(vs: set<T>, qs: set<seq<T>>, s: seq<T>)
    ensures s in Prepend(vs, qs) <==> s != [] && s[0] in vs && s[1..] in qs
  {
    if s in Prepend(vs, qs) {
      var v, q :| v in vs && q in qs && s == [v] + q;
      assert s[1..] == q;
    }
    if s != [] { assert s == [s[0]] + s[1..]; }
  }

  lemma {:induction false} PrependSize<T>(vs: set<T>, qs: set<seq<T>>)
    ensures |Prepend(vs, qs)| == |vs| * |qs|
  {
    if vs == {} {
      assert Prepend(vs, qs) == {};
    } else {
      var v :| v in vs;
      var rest := vs - {v};
      PrependSize(rest, qs);
      PrependOne(v, qs);
      PrependSplit(vs, v, qs);
      hide Prepend;
      assert |vs| == |rest| + 1;
      Distribute(|rest|, |qs|);
    }
  }

  lemma PrependSplit<T>(vs: set<T>, v: T, qs: set<seq<T>>)
    requires v in vs
    ensures |Prepend(vs, qs)| == |Prepend({v}, qs)| + |Prepend(vs - {v}, qs)|
  {
    var one, rest := Prepend({v}, qs), Prepend(vs - {v}, qs);
    forall s
      ensures s in Prepend(vs, qs) <==> s in one || s in rest
      ensures !(s in one && s in rest)
    {
      PrependMember(vs, qs, s);
      PrependMember({v}, qs, s);
      PrependMember(vs - {v}, qs, s);
    }
    hide Prepend;
    assert Prepend(vs, qs) == one + rest;
    assert one !! rest;
  }

  lemma Distribute(n: nat, q: nat)
    ensures (n + 1) * q == n * q + q
  {
  }

  lemma PrependOne<T>(v: T, qs: set<seq<T>>)
    ensures |Prepend({v}, qs)| == |qs|
  {
    var f := map q | q in qs :: [v] + q;
    forall s
      ensures s in Prepend({v}, qs) <==> exists q :: q in qs && f[q] == s
    {
      PrependMember({v}, qs, s);
      if s in Prepend({v}, qs) { assert f[s[1..]] == s; }
    }
    forall a, b | a in qs && b in qs && f[a] == f[b]
      ensures a == b
    {
      assert a == ([v] + a)[1..] && b == ([v] + b)[1..];
    }
    InjectiveSize(qs, Prepend({v}, qs), f);
  }

  // ---------------------------------------------------------- interval sets

  function CountRanges(rs: seq<Range>): nat
    requires forall i | 0 <= i < |rs| :: rs[i].0 <= rs[i].1
  {
    if rs == [] then 0 else rs[0].1 - rs[0].0 + 1 + CountRanges(rs[1..])
  }

  /** Number of values in a set, summed over its ranges. */
  function Count(s: IntervalSet): nat {
    CountRanges(s.ranges)
  }

  function RangeValues(lo: nat, hi: nat): (s: set<nat>)
    requires lo <= hi
    ensures forall v: nat :: v in s <==> lo <= v <= hi
    decreases hi
  {
    if lo == hi then {hi} else RangeValues(lo, hi - 1) + {hi}
  }

  function ValuesOf(rs: seq<Range>): set<nat>
    requires forall i | 0 <= i < |rs| :: rs[i].0 <= rs[i].1
  {
    if rs == [] then {} else RangeValues(rs[0].0, rs[0].1) + ValuesOf(rs[1..])
  }

  lemma OneMoreValue(s: set<nat>, v: nat)
    requires v !in s
    ensures |s + {v}| == |s| + 1
  {
  }

  lemma {:induction false} RangeSize(lo: nat, hi: nat)
    requires lo <= hi
    ensures |RangeValues(lo, hi)| == hi - lo + 1
  {
    if lo < hi {
      RangeSize(lo, hi - 1);
      OneMoreValue(RangeValues(lo, hi - 1), hi);
    }
  }

  lemma {:induction false} ValuesMember(rs: seq<Range>, v: nat)
    requires forall i | 0 <= i < |rs| :: rs[i].0 <= rs[i].1
    ensures v in ValuesOf(rs) <==> InRanges(rs, v)
  {
    if rs != [] {
      InRangesCons(rs, v);
      ValuesMember(rs[1..], v);
    }
  }

  /** The count is the number of members. */
  lemma {:induction false} ValuesSize(rs: seq<Range>, max: nat)
    requires Canonical(rs, max)
    ensures |ValuesOf(rs)| == CountRanges(rs)
  {
    if rs != [] {
      ValuesSize(rs[1..], max);
      RangeSize(rs[0].0, rs[0].1);
      forall v: nat | v in ValuesOf(rs[1..])
        ensures v !in RangeValues(rs[0].0, rs[0].1)
      {
        ValuesMember(rs[1..], v);
        TailAbove(rs, max, v);
      }
    }
  }

  lemma {:induction false} EqualRangesCount(rs: seq<Range>, width: nat)
    requires forall i | 0 <= i < |rs| :: rs[i].0 <= rs[i].1
    requires forall r | r in rs :: r.1 - r.0 + 1 == width
    ensures CountRanges(rs) == |rs| * width
  {
    if rs != [] {
      assert rs[0] in rs;
      EqualRangesCount(rs[1..], width);
      Distribute(|rs| - 1, width);
    }
  }

  // ------------------------------------------------------------------ boxes

  /** A product of interval sets, one per dimension. */
  type Box = seq<IntervalSet>

  ghost predicate InBox(b: Box, c: seq<nat>) {
    |c| == |b| && forall i | 0 <= i < |b| :: Contains(b[i], c[i])
  }

  function BoxPoints(b: Box): set<seq<nat>> {
    if b == [] then {[]} else Prepend(ValuesOf(b[0].ranges), BoxPoints(b[1..]))
  }

  function Product(b: Box): nat {
    if b == [] then 1 else Count(b[0]) * Product(b[1..])
  }

  /** Number of points of a box, with the early answer for an empty dimension. */
  function BoxCount(b: Box): nat {
    if exists i :: 0 <= i < |b| && IsEmpty(b[i]) then 0 else Product(b)
  }

  lemma {:induction false} BoxMember(b: Box, c: seq<nat>)
    ensures c in BoxPoints(b) <==> InBox(b, c)
  {
    if b != [] {
      PrependMember(ValuesOf(b[0].ranges), BoxPoints(b[1..]), c);
      if c != [] {
        ValuesMember(b[0].ranges, c[0]);
        BoxMember(b[1..], c[1..]);
        InBoxCons(b, c);
      }
    }
  }

  lemma InBoxCons(b: Box, c: seq<nat>)
    requires b != [] && c != []
    ensures InBox(b, c) <==> Contains(b[0], c[0]) && InBox(b[1..], c[1..])
  {
    if Contains(b[0], c[0]) && InBox(b[1..], c[1..]) {
      forall i | 0 <= i < |b|
        ensures Contains(b[i], c[i])
      {
        if i > 0 { assert Contains(b[1..][i - 1], c[1..][i - 1]); }
      }
    }
  }

  lemma {:induction false} BoxSize(b: Box)
    ensures |BoxPoints(b)| == Product(b)
  {
    if b != [] {
      BoxSize(b[1..]);
      ValuesSize(b[0].ranges, DomainMax(b[0].bits));
      PrependSize(ValuesOf(b[0].ranges), BoxPoints(b[1..]));
    }
  }

  lemma {:induction false} EmptyDimension(b: Box, i: nat)
    requires i < |b| && IsEmpty(b[i])
    ensures Product(b) == 0
  {
    if i > 0 { EmptyDimension(b[1..], i - 1); }
  }

  /** The count of a box is the number of its points. */
  lemma BoxCountIsSize(b: Box)
    ensures BoxCount(b) == |BoxPoints(b)|
  {
    BoxSize(b);
    if i :| 0 <= i < |b| && IsEmpty(b[i]) { EmptyDimension(b, i); }
  }

  // ----------------------------------------------------------------- points

  /** All valuations of `n` variables. */
  function AllPoints(n: nat): set<seq<bool>> {
    if n == 0 then {[]} else Prepend({false, true}, AllPoints(n - 1))
  }

  lemma {:induction false} AllPointsMember(n: nat, p: seq<bool>)
    ensures p in AllPoints(n) <==> |p| == n
  {
    if n > 0 {
      PrependMember({false, true}, AllPoints(n - 1), p);
      if p != [] {
        AllPointsMember(n - 1, p[1..]);
        assert p[0] == false || p[0] == true;
      }
    }
  }
}
