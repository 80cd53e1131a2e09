/** The exact number of points of a packet set. */
module Counting {
  import opened Cardinality
  import opened Diagram

  /** Number of valuations of the variables `k` to `n` that satisfy `b`, one variable at a time. */
  function Models(b: Bdd, k: nat, n: nat): nat
    requires k <= n
    decreases n - k
  {
    if k == n then (if b == Leaf(true) then 1 else 0)
    else Models(Half(b, k, false), k + 1, n) + Models(Half(b, k, true), k + 1, n)
  }

  function ExactCardinality(s: PacketSet): nat {
    Models(s, 0, VARIABLES)
  }

  /** The members of a set. */
  ghost function Members(s: PacketSet): set<seq<bool>> {
    set p | p in AllPoints(VARIABLES) && Eval(s, p)
  }

  ghost function Solutions(b: Bdd, k: nat, n: nat): set<seq<bool>>
    requires k <= n
    decreases n - k
  {
    if k == n then (if b == Leaf(true) then {[]} else {})
    else
      Prepend({false}, Solutions(Half(b, k, false), k + 1, n)) + Prepend({true}, Solutions(Half(b, k, true), k + 1, n))
  }

  function Padding(k: nat): seq<bool> {
    seq(k, i => false)
  }

  lemma HalfReduced(b: Bdd, k: nat, n: nat, side: bool)
    requires Reduced(b, k, n) && k < n
    ensures Reduced(Half(b, k, side), k + 1, n)
  {
  }

  lemma HalfEval(b: Bdd, k: nat, n: nat, p: seq<bool>)
    requires Reduced(b, k, n) && k < n && |p| == n
    ensures Eval(b, p) <==> Eval(Half(b, k, p[k]), p)
  {
  }

  lemma SidesApart(los: set<seq<bool>>, his: set<seq<bool>>)
    ensures |Prepend({false}, los) + Prepend({true}, his)| == |los| + |his|
  {
    PrependOne(false, los);
    PrependOne(true, his);
    forall s | s in Prepend({false}, los)
      ensures s !in Prepend({true}, his)
    {
      PrependMember({false}, los, s);
      PrependMember({true}, his, s);
    }
    hide Prepend;
    assert Prepend({false}, los) !! Prepend({true}, his);
  }

  lemma {:induction false} SolutionsSize(b: Bdd, k: nat, n: nat)
    requires k <= n
    ensures |Solutions(b, k, n)| == Models(b, k, n)
    decreases n - k
  {
    if k < n {
      var lo, hi := Half(b, k, false), Half(b, k, true);
      SolutionsSize(lo, k + 1, n);
      SolutionsSize(hi, k + 1, n);
      SidesApart(Solutions(lo, k + 1, n), Solutions(hi, k + 1, n));
    }
  }

  lemma {:induction false} SolutionsMember(b: Bdd, k: nat, n: nat, s: seq<bool>)
    requires k <= n && Reduced(b, k, n)
    ensures s in Solutions(b, k, n) <==> |s| == n - k && Eval(b, Padding(k) + s)
    decreases n - k
  {
    hide Half, Eval, Reduced;
    if k == n {
      SolutionsEnd(b, k, s);
    } else {
      SolutionsSplit(b, k, n, s);
      hide Solutions;
      if |s| == n - k {
        var side := s[0];
        HalfReduced(b, k, n, side);
        SolutionsMember(Half(b, k, side), k + 1, n, s[1..]);
        HalfEval(b, k, n, Padding(k) + s);
        EvalIgnores(Half(b, k, side), k + 1, n, Padding(k) + s, Padding(k + 1) + s[1..]);
      } else if s != [] {
        HalfReduced(b, k, n, s[0]);
        SolutionsMember(Half(b, k, s[0]), k + 1, n, s[1..]);
      }
    }
  }

  lemma SolutionsEnd(b: Bdd, n: nat, s: seq<bool>)
    requires Reduced(b, n, n)
    ensures s in Solutions(b, n, n) <==> |s| == 0 && Eval(b, Padding(n) + s)
  {
  }

  lemma SolutionsSplit(b: Bdd, k: nat, n: nat, s: seq<bool>)
    requires k < n
    ensures s in Solutions(b, k, n) <==> s != [] && s[1..] in Solutions(Half(b, k, s[0]), k + 1, n)
  {
    PrependMember({false}, Solutions(Half(b, k, false), k + 1, n), s);
    PrependMember({true}, Solutions(Half(b, k, true), k + 1, n), s);
  }

  lemma SolutionIsMember(s: PacketSet, p: seq<bool>)
    ensures p in Solutions(s, 0, VARIABLES) <==> p in Members(s)
  {
    hide Solutions, Eval, Reduced;
    SolutionsMember(s, 0, VARIABLES, p);
    AllPointsMember(VARIABLES, p);
    assert Padding(0) + p == p;
  }

  /** The recursive count is the number of members. */
  lemma CardinalityIsSize(s: PacketSet)
    ensures ExactCardinality(s) == |Members(s)|
  {
    SolutionsSize(s, 0, VARIABLES);
    hide Solutions, Members, ExactCardinality;
    forall p: seq<bool>
      ensures p in Solutions(s, 0, VARIABLES) <==> p in Members(s)
    {
      SolutionIsMember(s, p);
    }
    assert Solutions(s, 0, VARIABLES) == Members(s);
  }
}
