/** The delta between two revisions: the two difference sets, their attribution to the rules
responsible on both sides, and the structural findings. */
module Diff {
  import opened Arith
  import opened Sorting
  import opened Rules
  import opened Diagram
  import opened Header
  import opened Accept
  import opened Explanation
  import opened Pairing

  datatype Attribution = Attribution(was: Decider, now: Decider, cell: PacketSet)

  datatype Structural =
    | NowUnreachable(number: nat, coveredBy: seq<nat>)
    | NowReachable(number: nat, previouslyCoveredBy: seq<nat>)
    | NowRedundant(number: nat)
    | NoLongerRedundant(number: nat)
    | Added(number: nat)
    | Removed(number: nat)
    | Modified(number: nat)

  datatype ChainDiff = ChainDiff(name: string, newlyAllowed: PacketSet, newlyBlocked: PacketSet,
    structural: seq<Structural>)

  method Compare(base: ChainModel, head: ChainModel) returns (d: ChainDiff)
    requires NumberedFromOne(base) && NumberedFromOne(head)
    ensures d.name == head.name
    ensures forall p: Point :: Has(d.newlyAllowed, p) <==> Has(head.accept, p) && !Has(base.accept, p)
    ensures forall p: Point :: Has(d.newlyBlocked, p) <==> Has(base.accept, p) && !Has(head.accept, p)
    ensures IsFalse(d.newlyAllowed) && IsFalse(d.newlyBlocked) <==> base.accept == head.accept
    ensures Findings(base, head, d.structural)
  {
    var allowed := AndNot(head.accept, base.accept);
    var blocked := AndNot(base.accept, head.accept);
    var structural := StructuralChanges(base, head);
    d := ChainDiff(head.name, allowed, blocked, structural);
    FalseIsEmpty(allowed);
    FalseIsEmpty(blocked);
    if IsFalse(allowed) && IsFalse(blocked) {
      SameSet(base.accept, head.accept);
    }
  }

  /** A packet is newly allowed, or blocked, exactly when first-match evaluation of the two
  revisions says so. */
  lemma DeltaIsFirstMatch(base: ChainModel, head: ChainModel, d: ChainDiff, l: Layout, syms: SymbolTable,
                          before: Chain, after: Chain, q: Packet)
    requires l.Valid() && ModelOf(base, l, syms, before) && ModelOf(head, l, syms, after) && q.InDomain()
    requires forall p: Point :: Has(d.newlyAllowed, p) <==> Has(head.accept, p) && !Has(base.accept, p)
    requires forall p: Point :: Has(d.newlyBlocked, p) <==> Has(base.accept, p) && !Has(head.accept, p)
    ensures Has(d.newlyAllowed, PointOf(l, q)) <==>
      Permitted(after.rules, after.policy, syms, q) && !Permitted(before.rules, before.policy, syms, q)
    ensures Has(d.newlyBlocked, PointOf(l, q)) <==>
      Permitted(before.rules, before.policy, syms, q) && !Permitted(after.rules, after.policy, syms, q)
  {
    AcceptIsFirstMatch(base, l, syms, before, q);
    AcceptIsFirstMatch(head, l, syms, after, q);
  }

  // -------------------------------------------------------------- attribution

  /** Pair the decider `was` with every cell of the head split of its part. */
  function Tagged(was: Decider, cells: seq<Cell>): seq<Attribution> {
    if cells == [] then [] else [Attribution(was, cells[0].0, cells[0].1)] + Tagged(was, cells[1..])
  }

  function AllCells(head: ChainModel, parts: seq<Cell>): seq<Attribution> {
    if parts == [] then []
    else Tagged(parts[0].0, Cells(head, parts[0].1, 0)) + AllCells(head, parts[1..])
  }

  /** Every cell of the delta, uncapped. */
  function DeltaCells(base: ChainModel, head: ChainModel, delta: PacketSet): seq<Attribution> {
    AllCells(head, Cells(base, delta, 0))
  }

  /** Split a delta by the rule responsible on each side, stopping at a cell budget. */
  method AttributeDelta(base: ChainModel, head: ChainModel, delta: PacketSet, maxCells: nat)
    returns (out: seq<Attribution>, truncated: bool)
    ensures |out| <= |DeltaCells(base, head, delta)| && out == DeltaCells(base, head, delta)[..|out|]
    ensures truncated <==> |DeltaCells(base, head, delta)| > maxCells
    ensures |out| == Min(maxCells, |DeltaCells(base, head, delta)|)
  {
    out, truncated := [], false;
    if IsFalse(delta) {
      NoCells(base, delta, 0);
      return;
    }
    var parts := Attribute(base, delta);
    ghost var all := DeltaCells(base, head, delta);
    hide Cells, Tagged;
    for i := 0 to |parts|
      invariant all == out + AllCells(head, parts[i..]) && |out| <= maxCells
    {
      var cells := Attribute(head, parts[i].1);
      assert parts[i..][1..] == parts[i + 1..];
      ghost var later := AllCells(head, parts[i + 1..]);
      ghost var here := Tagged(parts[i].0, cells);
      assert all == (out + here) + later;
      out, truncated := TagCells(parts[i].0, cells, out, maxCells);
      if truncated {
        return;
      }
    }
  }

  /** The inner loop of `attribute`, over the head cells of one base part. */
  method TagCells(was: Decider, cells: seq<Cell>, before: seq<Attribution>, maxCells: nat)
    returns (out: seq<Attribution>, truncated: bool)
    requires |before| <= maxCells
    ensures truncated <==> |before + Tagged(was, cells)| > maxCells
    ensures out == if truncated then (before + Tagged(was, cells))[..maxCells] else before + Tagged(was, cells)
  {
    out, truncated := before, false;
    ghost var all := before + Tagged(was, cells);
    assert cells[0..] == cells;
    for j := 0 to |cells|
      invariant all == out + Tagged(was, cells[j..]) && |out| <= maxCells
    {
      assert cells[j..][1..] == cells[j + 1..];
      if |out| >= maxCells {
        truncated := true;
        return;
      }
      out := out + [Attribution(was, cells[j].0, cells[j].1)];
    }
  }

  lemma {:induction false} NoCells(m: ChainModel, set_: PacketSet, k: nat)
    requires IsFalse(set_) && k <= |m.rules|
    ensures Cells(m, set_, k) == []
    decreases |m.rules| - k
  {
    if k < |m.rules| { NoCells(m, set_, k + 1); }
  }

  /** The cell is not empty and holds exactly the points of the delta its two deciders decide. */
  ghost predicate AttributionOf(base: ChainModel, head: ChainModel, delta: PacketSet, a: Attribution) {
    && !IsFalse(a.cell)
    && forall p: Point :: Has(a.cell, p) <==> Has(delta, p) && Decides(base, a.was, p) && Decides(head, a.now, p)
  }

  lemma {:induction false} TaggedAt(was: Decider, cells: seq<Cell>, i: nat)
    ensures |Tagged(was, cells)| == |cells|
    ensures i < |cells| ==> Tagged(was, cells)[i] == Attribution(was, cells[i].0, cells[i].1)
  {
    if cells != [] {
      TaggedAt(was, cells[1..], if i > 0 then i - 1 else 0);
    }
  }

  /** The cells of the head splits of some parts of the delta are what they say. */
  lemma {:induction false} AllCellsExact(base: ChainModel, head: ChainModel, delta: PacketSet, parts: seq<Cell>, i: nat)
    requires Tidy(head) && forall c | c in parts :: CellOf(base, delta, c)
    requires i < |AllCells(head, parts)|
    ensures AttributionOf(base, head, delta, AllCells(head, parts)[i])
    ensures exists c | c in parts :: c.0 == AllCells(head, parts)[i].was
  {
    var cells := Cells(head, parts[0].1, 0);
    TaggedAt(parts[0].0, cells, i);
    assert parts[0] in parts;
    if i < |cells| {
      CellsExact(head, parts[0].1, 0);
      assert cells[i] in cells;
    } else {
      AllCellsExact(base, head, delta, parts[1..], i - |cells|);
    }
  }

  lemma {:induction false} AllCellsDistinct(base: ChainModel, head: ChainModel, delta: PacketSet, parts: seq<Cell>,
                                            i: nat, j: nat)
    requires Tidy(head) && forall c | c in parts :: CellOf(base, delta, c)
    requires forall a, b | 0 <= a < b < |parts| :: parts[a].0 != parts[b].0
    requires i < j < |AllCells(head, parts)|
    ensures var all := AllCells(head, parts); all[i].was != all[j].was || all[i].now != all[j].now
  {
    hide Cells, CellOf, LaterDecider, Tidy, AttributionOf, Tagged;
    var cells := Cells(head, parts[0].1, 0);
    CellsExact(head, parts[0].1, 0);
    TaggedAt(parts[0].0, cells, i);
    TaggedAt(parts[0].0, cells, j);
    if i >= |cells| {
      AllCellsDistinct(base, head, delta, parts[1..], i - |cells|, j - |cells|);
    } else if j >= |cells| {
      AllCellsExact(base, head, delta, parts[1..], j - |cells|);
    }
  }

  lemma {:induction false} AllCellsComplete(head: ChainModel, parts: seq<Cell>, c: Cell, p: Point, now: Decider)
    requires Tidy(head) && c in parts && Has(c.1, p) && Decides(head, now, p)
    ensures exists a | a in AllCells(head, parts) :: a.was == c.0 && Has(a.cell, p)
  {
    var first := Tagged(parts[0].0, Cells(head, parts[0].1, 0));
    if c == parts[0] {
      var cells := Cells(head, c.1, 0);
      CellsComplete(head, c.1, 0, p, now);
      var d :| d in cells && d.0 == now && Has(d.1, p);
      var i :| 0 <= i < |cells| && cells[i] == d;
      TaggedAt(c.0, cells, i);
      assert first[i] in AllCells(head, parts);
    } else {
      AllCellsComplete(head, parts[1..], c, p, now);
      var a :| a in AllCells(head, parts[1..]) && a.was == c.0 && Has(a.cell, p);
      assert a in AllCells(head, parts);
    }
  }

  ghost predicate HasDecider(m: ChainModel, p: Point) {
    exists d :: Decides(m, d, p)
  }

  /** Every point has a decider, and only one. */
  ghost predicate OneDecider(m: ChainModel) {
    && (forall p: Point :: HasDecider(m, p))
    && (forall p: Point, d, e :: Decides(m, d, p) && Decides(m, e, p) ==> d == e)
  }

  lemma ModelHasOneDecider(m: ChainModel, l: Layout, syms: SymbolTable, chain: Chain)
    requires l.Valid() && ModelOf(m, l, syms, chain) && chain.Numbered()
    ensures OneDecider(m)
  {
    forall p: Point, d: Decider { DecidesIsFirstMatch(m, l, syms, chain, p, d); }
    hide DecidedBy, Decides, ModelOf, Layout.Valid;
    forall p: Point
      ensures HasDecider(m, p)
    {
      assert Decides(m, DecidedBy(l, syms, chain, p), p);
    }
  }

  /** The uncapped attribution: exact cells, pairwise disjoint, together the whole delta. */
  lemma DeltaCellsExact(base: ChainModel, head: ChainModel, delta: PacketSet)
    requires Tidy(base) && Tidy(head) && OneDecider(base) && OneDecider(head)
    ensures forall a | a in DeltaCells(base, head, delta) :: AttributionOf(base, head, delta, a)
    ensures forall i, j, p: Point | 0 <= i < j < |DeltaCells(base, head, delta)| ::
      !(Has(DeltaCells(base, head, delta)[i].cell, p) && Has(DeltaCells(base, head, delta)[j].cell, p))
    ensures forall p: Point | Has(delta, p) :: exists a | a in DeltaCells(base, head, delta) :: Has(a.cell, p)
  {
    var parts := Cells(base, delta, 0);
    var all := DeltaCells(base, head, delta);
    CellsExact(base, delta, 0);
    forall i | 0 <= i < |all|
      ensures AttributionOf(base, head, delta, all[i])
    {
      AllCellsExact(base, head, delta, parts, i);
    }
    forall i, j, p: Point | 0 <= i < j < |all|
      ensures !(Has(all[i].cell, p) && Has(all[j].cell, p))
    {
      AllCellsDistinct(base, head, delta, parts, i, j);
    }
    forall p: Point | Has(delta, p)
      ensures exists a | a in all :: Has(a.cell, p)
    {
      assert HasDecider(base, p) && HasDecider(head, p);
      var was :| Decides(base, was, p);
      var now :| Decides(head, now, p);
      CellsComplete(base, delta, 0, p, was);
      var c :| c in parts && c.0 == was && Has(c.1, p);
      AllCellsComplete(head, parts, c, p, now);
    }
  }

  /** The point is in none of the cells. */
  ghost predicate Missed(out: seq<Attribution>, p: Point) {
    forall i | 0 <= i < |out| :: !Has(out[i].cell, p)
  }

  /** The truncation flag is raised exactly when the cells returned miss part of the delta. */
  lemma TruncatedExactly(base: ChainModel, head: ChainModel, delta: PacketSet, out: seq<Attribution>, maxCells: nat)
    requires Tidy(base) && Tidy(head) && OneDecider(base) && OneDecider(head)
    requires |out| == Min(maxCells, |DeltaCells(base, head, delta)|) && out == DeltaCells(base, head, delta)[..|out|]
    ensures |DeltaCells(base, head, delta)| > maxCells <==> exists p: Point :: Has(delta, p) && Missed(out, p)
  {
    var all := DeltaCells(base, head, delta);
    DeltaCellsExact(base, head, delta);
    if |all| > maxCells {
      var missed := all[maxCells];
      assert AttributionOf(base, head, delta, missed);
      FalseIsEmpty(missed.cell);
      var p: Point :| Has(missed.cell, p);
      assert Has(delta, p) && Missed(out, p);
    } else {
      assert out == all;
      forall p: Point | Has(delta, p)
        ensures exists i :: 0 <= i < |out| && Has(out[i].cell, p)
      {
        var a :| a in all && Has(a.cell, p);
      }
    }
  }

  /** The cell is not empty and holds exactly the points of the delta that first-match evaluation
  of the two revisions gives to the two deciders. */
  ghost predicate DecidedCell(l: Layout, syms: SymbolTable, before: Chain, after: Chain, delta: PacketSet,
                              a: Attribution)
    requires l.Valid()
  {
    && (exists p: Point :: Has(a.cell, p))
    && forall p: Point :: Has(a.cell, p) <==>
         Has(delta, p) && DecidedBy(l, syms, before, p) == a.was && DecidedBy(l, syms, after, p) == a.now
  }

  /** Two-sided attribution of a delta between two chains, in terms of first match only: cells are
  exact and disjoint, and the flag is raised exactly when they miss part of the delta. */
  lemma AttributionIsFirstMatch(base: ChainModel, head: ChainModel, l: Layout, syms: SymbolTable, before: Chain,
                                after: Chain,
                                delta: PacketSet, out: seq<Attribution>, truncated: bool, maxCells: nat)
    requires l.Valid() && ModelOf(base, l, syms, before) && ModelOf(head, l, syms, after)
    requires before.Numbered() && after.Numbered()
    requires |out| == Min(maxCells, |DeltaCells(base, head, delta)|) && out == DeltaCells(base, head, delta)[..|out|]
    requires truncated <==> |DeltaCells(base, head, delta)| > maxCells
    ensures forall i | 0 <= i < |out| :: DecidedCell(l, syms, before, after, delta, out[i])
    ensures forall i, j, p: Point | 0 <= i < j < |out| :: !(Has(out[i].cell, p) && Has(out[j].cell, p))
    ensures truncated <==> exists p: Point :: Has(delta, p) && Missed(out, p)
  {
    hide Layout.Valid, ModelOf, DecidedBy, Decides, DeltaCells, Tidy, OneDecider, Has, Chain.Numbered;
    ModelIsTidy(base, l, syms, before);
    ModelIsTidy(head, l, syms, after);
    ModelHasOneDecider(base, l, syms, before);
    ModelHasOneDecider(head, l, syms, after);
    DeltaCellsExact(base, head, delta);
    TruncatedExactly(base, head, delta, out, maxCells);
    forall i | 0 <= i < |out|
      ensures DecidedCell(l, syms, before, after, delta, out[i])
    {
      assert AttributionOf(base, head, delta, out[i]);
      FalseIsEmpty(out[i].cell);
      forall p: Point
        ensures Decides(base, out[i].was, p) <==> DecidedBy(l, syms, before, p) == out[i].was
        ensures Decides(head, out[i].now, p) <==> DecidedBy(l, syms, after, p) == out[i].now
      {
        DecidesIsFirstMatch(base, l, syms, before, p, out[i].was);
        DecidesIsFirstMatch(head, l, syms, after, p, out[i].now);
      }
    }
  }

  // --------------------------------------------------------------- findings

  function Keys(m: ChainModel): seq<(Match, Action)> {
    seq(|m.rules|, i requires 0 <= i < |m.rules| => m.rules[i].contentKey)
  }

  /** Rule `b` of the base is paired with rule `h` of the head. */
  predicate PairedRules(base: ChainModel, head: ChainModel, b: nat, h: nat) {
    1 <= b <= |base.rules| && 1 <= h <= |head.rules| && IsPair(Keys(base), Keys(head), b, h)
  }

  /** A status change of the pair, as a finding about the head rule. */
  ghost predicate PairFinding(base: ChainModel, head: ChainModel, b: nat, h: nat, e: Structural) {
    && PairedRules(base, head, b, h)
    && var was, now := base.rules[b - 1], head.rules[h - 1];
       match e
       case NowUnreachable(n, who) => n == h && !was.shadowed && now.shadowed && Explained(head, h, who)
       case NowReachable(n, who) => n == h && was.shadowed && !now.shadowed && Explained(base, b, who)
       case NowRedundant(n) => n == h && !was.shadowed && !now.shadowed && !was.redundant && now.redundant
       case NoLongerRedundant(n) => n == h && !was.shadowed && !now.shadowed && was.redundant && !now.redundant
       case _ => false
  }

  /** The pair changed status, so something has to be said about it. */
  predicate PairChanged(base: ChainModel, head: ChainModel, b: nat, h: nat) {
    && PairedRules(base, head, b, h)
    && var was, now := base.rules[b - 1], head.rules[h - 1];
       was.shadowed != now.shadowed || (!was.shadowed && !now.shadowed && was.redundant != now.redundant)
  }

  ghost predicate Holds(base: ChainModel, head: ChainModel, e: Structural) {
    match e
    case Modified(n) => IsRemoved(Keys(base), Keys(head), n) && IsAdded(Keys(base), Keys(head), n)
    case Removed(n) => IsRemoved(Keys(base), Keys(head), n) && !IsAdded(Keys(base), Keys(head), n)
    case Added(n) => IsAdded(Keys(base), Keys(head), n) && !IsRemoved(Keys(base), Keys(head), n)
    case _ => exists b, h :: PairFinding(base, head, b, h, e)
  }

  /** The findings are true, complete, and sorted by rule number and kind, no two of one kind
  about one number. */
  ghost predicate Findings(base: ChainModel, head: ChainModel, out: seq<Structural>) {
    TrueAndComplete(base, head, out) && forall i, j | 0 <= i < j < |out| :: Code(out[i]) < Code(out[j])
  }

  ghost predicate TrueAndComplete(base: ChainModel, head: ChainModel, out: seq<Structural>) {
    && (forall e | e in out :: Holds(base, head, e))
    && (forall n: nat | IsRemoved(Keys(base), Keys(head), n) ::
          (if IsAdded(Keys(base), Keys(head), n) then Modified(n) else Removed(n)) in out)
    && (forall n: nat | IsAdded(Keys(base), Keys(head), n) && !IsRemoved(Keys(base), Keys(head), n) :: Added(n) in out)
    && (forall b, h | PairChanged(base, head, b, h) :: exists e | e in out :: PairFinding(base, head, b, h, e))
  }

  /** Rank of a finding's printed form, which begins with its constructor's name. */
  function TagRank(e: Structural): nat {
    match e
    case Added(_) => 0
    case Modified(_) => 1
    case NoLongerRedundant(_) => 2
    case NowReachable(_, _) => 3
    case NowRedundant(_) => 4
    case NowUnreachable(_, _) => 5
    case Removed(_) => 6
  }

  /** Number first, then kind. */
  function Code(e: Structural): nat { e.number * 7 + TagRank(e) }

  predicate FindingLe(a: Structural, b: Structural) {
    a.number < b.number || (a.number == b.number && TagRank(a) <= TagRank(b))
  }

  lemma CodeOrders(a: Structural, b: Structural)
    ensures FindingLe(a, b) <==> Code(a) <= Code(b)
    ensures Code(a) == Code(b) <==> a.number == b.number && TagRank(a) == TagRank(b)
  {
  }

  ghost predicate DistinctCodes(s: seq<Structural>) {
    forall i, j | 0 <= i < j < |s| :: Code(s[i]) != Code(s[j])
  }

  /** Sorting findings with distinct codes makes the codes increase. */
  lemma SortedCodes(s: seq<Structural>)
    requires DistinctCodes(s)
    ensures forall i, j | 0 <= i < j < |Sort(s, FindingLe)| :: Code(Sort(s, FindingLe)[i]) < Code(Sort(s, FindingLe)[j])
  {
    hide Code, FindingLe;
    var sorted := Sort(s, FindingLe);
    FindingOrder();
    SortSorted(s, FindingLe);
    SortKeeps(s, FindingLe);
    assert Distinct(s);
    SortKeepsDistinct(s, FindingLe);
    forall i, j | 0 <= i < j < |sorted|
      ensures Code(sorted[i]) < Code(sorted[j])
    {
      assert sorted[i] in s && sorted[j] in s;
      CodeOrders(sorted[i], sorted[j]);
    }
  }

  method PairFindings(base: ChainModel, head: ChainModel, b: nat, h: nat) returns (out: seq<Structural>)
    requires NumberedFromOne(base) && NumberedFromOne(head) && PairedRules(base, head, b, h)
    ensures forall e | e in out :: PairFinding(base, head, b, h, e)
    ensures PairChanged(base, head, b, h) ==> out != []
    ensures |out| <= 1 && forall e | e in out :: e.number == h && IsStatus(e)
  {
    hide Explained, NumberedFromOne, Keys;
    out := [];
    var was, now := base.rules[b - 1], head.rules[h - 1];
    if !was.shadowed && now.shadowed {
      var cover := ExplainShadow(head, h);
      out := out + [NowUnreachable(h, cover)];
    } else if was.shadowed && !now.shadowed {
      var cover := ExplainShadow(base, b);
      out := out + [NowReachable(h, cover)];
    }
    if !was.shadowed && !now.shadowed {
      if !was.redundant && now.redundant {
        out := out + [NowRedundant(h)];
      } else if was.redundant && !now.redundant {
        out := out + [NoLongerRedundant(h)];
      }
    }
  }

  predicate IsStatus(e: Structural) {
    !e.Modified? && !e.Removed? && !e.Added?
  }

  method AllPairFindings(base: ChainModel, head: ChainModel, paired: seq<(nat, nat)>) returns (out: seq<Structural>)
    requires NumberedFromOne(base) && NumberedFromOne(head)
    requires forall i, j | 0 <= i < j < |paired| :: paired[i].1 != paired[j].1
    requires forall i | 0 <= i < |paired| :: PairedRules(base, head, paired[i].0, paired[i].1)
    ensures forall e | e in out :: exists i :: 0 <= i < |paired| && PairFinding(base, head, paired[i].0, paired[i].1, e)
    ensures forall i | 0 <= i < |paired| && PairChanged(base, head, paired[i].0, paired[i].1) ::
      exists e | e in out :: PairFinding(base, head, paired[i].0, paired[i].1, e)
    ensures forall i, j | 0 <= i < j < |out| :: out[i].number != out[j].number
    ensures forall e | e in out :: IsStatus(e)
  {
    hide PairFinding, PairChanged, PairedRules, NumberedFromOne;
    out := [];
    for k := 0 to |paired|
      invariant forall e | e in out :: exists i :: 0 <= i < k && PairFinding(base, head, paired[i].0, paired[i].1, e)
      invariant forall i | 0 <= i < k && PairChanged(base, head, paired[i].0, paired[i].1) ::
        exists e | e in out :: PairFinding(base, head, paired[i].0, paired[i].1, e)
      invariant forall e | e in out :: IsStatus(e) && exists i :: 0 <= i < k && paired[i].1 == e.number
      invariant forall i, j | 0 <= i < j < |out| :: out[i].number != out[j].number
    {
      var more := PairFindings(base, head, paired[k].0, paired[k].1);
      ghost var before := out;
      out := out + more;
      if more != [] { assert more[0] in out; }
      forall i | 0 <= i < k && PairChanged(base, head, paired[i].0, paired[i].1)
        ensures exists e | e in out :: PairFinding(base, head, paired[i].0, paired[i].1, e)
      {
        var e :| e in before && PairFinding(base, head, paired[i].0, paired[i].1, e);
        assert e in out;
      }
    }
  }

  /** Drop one occurrence of `n`. */
  function Dropped(s: seq<nat>, n: nat): seq<nat> {
    if s == [] then [] else if s[0] == n then s[1..] else [s[0]] + Dropped(s[1..], n)
  }

  lemma {:induction false} DroppedMember(s: seq<nat>, n: nat, x: nat)
    requires forall i, j | 0 <= i < j < |s| :: s[i] < s[j]
    ensures x in Dropped(s, n) <==> x in s && x != n
    ensures forall i, j | 0 <= i < j < |Dropped(s, n)| :: Dropped(s, n)[i] < Dropped(s, n)[j]
  {
    if s != [] {
      DroppedMember(s[1..], n, x);
      if s[0] != n {
        var t := Dropped(s[1..], n);
        forall j | 0 <= j < |t|
          ensures s[0] < t[j]
        {
          DroppedMember(s[1..], n, t[j]);
          assert t[j] in s[1..];
        }
      }
    }
  }

  /** Pair removals and additions at the same position: an edited rule is one finding. */
  method MatchEdits(removed: seq<nat>, added: seq<nat>) returns (out: seq<Structural>)
    requires forall i, j | 0 <= i < j < |added| :: added[i] < added[j]
    requires forall i, j | 0 <= i < j < |removed| :: removed[i] != removed[j]
    ensures forall e | e in out :: e.Modified? || e.Removed? || e.Added?
    ensures forall n: nat :: Modified(n) in out <==> n in removed && n in added
    ensures forall n: nat :: Removed(n) in out <==> n in removed && n !in added
    ensures forall n: nat :: Added(n) in out <==> n in added && n !in removed
    ensures DistinctCodes(out)
  {
    hide Code;
    out := [];
    var addedLeft, removedLeft := added, [];
    for k := 0 to |removed|
      invariant forall i, j | 0 <= i < j < |addedLeft| :: addedLeft[i] < addedLeft[j]
      invariant forall n: nat :: n in addedLeft <==> n in added && n !in removed[..k]
      invariant forall n: nat :: n in removedLeft <==> n in removed[..k] && n !in added
      invariant forall e | e in out :: e.Modified?
      invariant forall n: nat :: Modified(n) in out <==> n in removed[..k] && n in added
      invariant forall i, j | 0 <= i < j < |removedLeft| :: removedLeft[i] != removedLeft[j]
      invariant forall i, j | 0 <= i < j < |out| :: out[i] != out[j]
    {
      var number := removed[k];
      assert removed[..k + 1] == removed[..k] + [number];
      assert number !in removed[..k];
      if number in addedLeft {
        forall x: nat { DroppedMember(addedLeft, number, x); }
        addedLeft := Dropped(addedLeft, number);
        out := out + [Modified(number)];
      } else {
        removedLeft := removedLeft + [number];
      }
    }
    assert removed[..|removed|] == removed;
    EditCodes(out, removedLeft, addedLeft);
    out := out + AllRemoved(removedLeft) + AllAdded(addedLeft);
  }

  lemma {:induction false} AllRemovedAt(ns: seq<nat>)
    ensures |AllRemoved(ns)| == |ns| && forall i | 0 <= i < |ns| :: AllRemoved(ns)[i] == Removed(ns[i])
  {
    if ns != [] { AllRemovedAt(ns[1..]); }
  }

  lemma {:induction false} AllAddedAt(ns: seq<nat>)
    ensures |AllAdded(ns)| == |ns| && forall i | 0 <= i < |ns| :: AllAdded(ns)[i] == Added(ns[i])
  {
    if ns != [] { AllAddedAt(ns[1..]); }
  }

  lemma EditCodes(modified: seq<Structural>, removed: seq<nat>, added: seq<nat>)
    requires (forall e | e in modified :: e.Modified?) && forall i, j | 0 <= i < j < |modified| ::
      modified[i] != modified[j]
    requires forall i, j | 0 <= i < j < |removed| :: removed[i] != removed[j]
    requires forall i, j | 0 <= i < j < |added| :: added[i] < added[j]
    ensures DistinctCodes(modified + AllRemoved(removed) + AllAdded(added))
  {
    hide Code, AllRemoved, AllAdded;
    var all := modified + AllRemoved(removed) + AllAdded(added);
    AllRemovedAt(removed);
    AllAddedAt(added);
    var m, n := |modified|, |modified| + |removed|;
    forall k | 0 <= k < |all|
      ensures all[k] == if k < m then modified[k] else if k < n then Removed(removed[k - m]) else Added(added[k - n])
      ensures k < m ==> all[k] in modified
    {
    }
    forall i, j | 0 <= i < j < |all|
      ensures Code(all[i]) != Code(all[j])
    {
      CodeOrders(all[i], all[j]);
      if m <= i && j < n { assert removed[i - m] != removed[j - m]; }
      if n <= i { assert added[i - n] < added[j - n]; }
    }
  }

  lemma ChangesAndEdits(changes: seq<Structural>, edits: seq<Structural>)
    requires forall i, j | 0 <= i < j < |changes| :: changes[i].number != changes[j].number
    requires forall e | e in changes :: IsStatus(e)
    requires forall e | e in edits :: e.Modified? || e.Removed? || e.Added?
    requires DistinctCodes(edits)
    ensures DistinctCodes(changes + edits)
  {
    hide Code;
    var all := changes + edits;
    forall i, j | 0 <= i < j < |all|
      ensures Code(all[i]) != Code(all[j])
    {
      CodeOrders(all[i], all[j]);
      var n := |changes|;
      if j < n {
        assert changes[i].number != changes[j].number;
      } else if n <= i {
        assert Code(edits[i - n]) != Code(edits[j - n]);
      } else {
        assert all[i] in changes && all[j] in edits;
      }
    }
  }

  function AllRemoved(ns: seq<nat>): (r: seq<Structural>)
    ensures forall e :: e in r <==> e.Removed? && e.number in ns
  {
    if ns == [] then [] else [Removed(ns[0])] + AllRemoved(ns[1..])
  }

  function AllAdded(ns: seq<nat>): (r: seq<Structural>)
    ensures forall e :: e in r <==> e.Added? && e.number in ns
  {
    if ns == [] then [] else [Added(ns[0])] + AllAdded(ns[1..])
  }

  method StructuralChanges(base: ChainModel, head: ChainModel) returns (out: seq<Structural>)
    requires NumberedFromOne(base) && NumberedFromOne(head)
    ensures Findings(base, head, out)
  {
    var bk, hk := Keys(base), Keys(head);
    var paired, removed, added := PairRules(bk, hk);
    forall b: nat, h: nat
      ensures (b, h) in paired <==> PairedRules(base, head, b, h)
    {
      PairedMember(bk, hk, |bk|, b, h);
      PairIs(bk, hk, b, h);
    }
    forall n: nat { RemovedMember(bk, hk, |bk|, n); }
    RemovedDistinct(bk, hk, |bk|);
    PairedDistinct(bk, hk, |bk|);
    hide Keys, NumberedFromOne, DistinctCodes, PairedUpTo, RemovedUpTo, IsRemoved, IsAdded, PairFinding, PairChanged;
    var changes := AllPairFindings(base, head, paired);
    var edits := MatchEdits(removed, added);
    var all := changes + edits;
    FindingsFrom(base, head, paired, removed, added, changes, edits);
    out := Sort(all, FindingLe);
    ChangesAndEdits(changes, edits);
    SortedCodes(all);
    SortKeeps(all, FindingLe);
    SameFindings(base, head, all, out);
  }

  lemma FindingOrder()
    ensures TotalPreorder(FindingLe)
  {
  }

  lemma SameFindings(base: ChainModel, head: ChainModel, a: seq<Structural>, b: seq<Structural>)
    requires TrueAndComplete(base, head, a) && forall e :: e in a <==> e in b
    ensures TrueAndComplete(base, head, b)
  {
    hide Keys, IsRemoved, IsAdded, PairFinding, PairChanged;
    forall x, y | PairChanged(base, head, x, y)
      ensures exists e | e in b :: PairFinding(base, head, x, y, e)
    {
      var e :| e in a && PairFinding(base, head, x, y, e);
      assert e in b;
    }
  }

  lemma FindingsFrom(base: ChainModel, head: ChainModel, paired: seq<(nat, nat)>, removed: seq<nat>, added: seq<nat>,
                     changes: seq<Structural>, edits: seq<Structural>)
    requires forall b: nat, h: nat :: (b, h) in paired <==> PairedRules(base, head, b, h)
    requires forall n: nat :: n in removed <==> IsRemoved(Keys(base), Keys(head), n)
    requires forall n: nat :: n in added <==> IsAdded(Keys(base), Keys(head), n)
    requires forall e | e in changes :: exists i ::
      0 <= i < |paired| && PairFinding(base, head, paired[i].0, paired[i].1, e)
    requires forall i | 0 <= i < |paired| && PairChanged(base, head, paired[i].0, paired[i].1) ::
      exists e | e in changes :: PairFinding(base, head, paired[i].0, paired[i].1, e)
    requires forall e | e in edits :: e.Modified? || e.Removed? || e.Added?
    requires forall n: nat :: Modified(n) in edits <==> n in removed && n in added
    requires forall n: nat :: Removed(n) in edits <==> n in removed && n !in added
    requires forall n: nat :: Added(n) in edits <==> n in added && n !in removed
    ensures TrueAndComplete(base, head, changes + edits)
  {
    var all := changes + edits;
    forall e | e in all
      ensures Holds(base, head, e)
    {
      if e in changes {
        var i :| 0 <= i < |paired| && PairFinding(base, head, paired[i].0, paired[i].1, e);
      }
    }
    forall b: nat, h: nat | PairChanged(base, head, b, h)
      ensures exists e | e in all :: PairFinding(base, head, b, h, e)
    {
      assert (b, h) in paired;
      var i :| 0 <= i < |paired| && paired[i] == (b, h);
      var e :| e in changes && PairFinding(base, head, paired[i].0, paired[i].1, e);
      assert e in all;
    }
  }

  // ---------------------------------------------------------- what they mean

  /** A pair of rules has one finding. */
  lemma PairFindingUnique(base: ChainModel, head: ChainModel, b: nat, h: nat, x: Structural, y: Structural)
    requires PairFinding(base, head, b, h, x) && PairFinding(base, head, b, h, y)
    ensures x == y && PairChanged(base, head, b, h)
  {
    hide Explained, PairedRules;
    match x
    case NowUnreachable(_, who) => ExplainedUnique(head, h, who, y.coveredBy);
    case NowReachable(_, who) => ExplainedUnique(base, b, who, y.previouslyCoveredBy);
    case _ =>
  }

  lemma FindingIsShared(base: ChainModel, head: ChainModel, x: seq<Structural>, y: seq<Structural>, e: Structural)
    requires TrueAndComplete(base, head, x) && TrueAndComplete(base, head, y) && e in x
    ensures e in y
  {
    hide PairFinding, PairChanged, Keys, IsRemoved, IsAdded;
    assert Holds(base, head, e);
    if IsStatus(e) {
      var b: nat, h: nat :| PairFinding(base, head, b, h, e);
      PairFindingUnique(base, head, b, h, e, e);
      var other :| other in y && PairFinding(base, head, b, h, other);
      PairFindingUnique(base, head, b, h, e, other);
    }
  }

  /** Two revisions have one list of findings. */
  lemma FindingsUnique(base: ChainModel, head: ChainModel, x: seq<Structural>, y: seq<Structural>)
    requires Findings(base, head, x) && Findings(base, head, y)
    ensures x == y
  {
    hide TrueAndComplete, Code;
    forall e: Structural
      ensures e in x <==> e in y
    {
      if e in x { FindingIsShared(base, head, x, y, e); }
      if e in y { FindingIsShared(base, head, y, x, e); }
    }
    SameIncreasing(x, y, (e: Structural) => Code(e));
  }

  /** Each base rule ends in exactly one of paired, modified or removed. */
  lemma BaseRuleFate(base: ChainModel, head: ChainModel, out: seq<Structural>, n: nat)
    requires Findings(base, head, out) && 1 <= n <= |base.rules|
    ensures var isPaired := exists h :: PairedRules(base, head, n, h);
      && (isPaired || Modified(n) in out || Removed(n) in out)
      && !(isPaired && Modified(n) in out) && !(isPaired && Removed(n) in out)
      && !(Modified(n) in out && Removed(n) in out)
  {
    hide Findings;
    var bk, hk := Keys(base), Keys(head);
    if PartnerOf(bk, hk, n).Paired? {
      PairIs(bk, hk, n, PartnerOf(bk, hk, n).number);
      assert PairedRules(base, head, n, PartnerOf(bk, hk, n).number);
    }
    FatesFound(base, head, out, n);
  }

  /** Each head rule ends in exactly one of paired, modified or added. */
  lemma HeadRuleFate(base: ChainModel, head: ChainModel, out: seq<Structural>, n: nat)
    requires Findings(base, head, out) && 1 <= n <= |head.rules|
    ensures var isPaired := exists b :: PairedRules(base, head, b, n);
      && (isPaired || Modified(n) in out || Added(n) in out)
      && !(isPaired && Modified(n) in out) && !(isPaired && Added(n) in out)
      && !(Modified(n) in out && Added(n) in out)
  {
    hide Findings;
    var bk, hk := Keys(base), Keys(head);
    AddedIffUnpaired(bk, hk, n);
    if !IsAdded(bk, hk, n) {
      var b: nat :| IsPair(bk, hk, b, n);
      assert PairedRules(base, head, b, n);
    }
    FatesFound(base, head, out, n);
  }

  lemma FatesFound(base: ChainModel, head: ChainModel, out: seq<Structural>, n: nat)
    requires Findings(base, head, out)
    ensures Modified(n) in out ==> Holds(base, head, Modified(n))
    ensures Added(n) in out ==> Holds(base, head, Added(n))
    ensures Removed(n) in out ==> Holds(base, head, Removed(n))
    ensures IsAdded(Keys(base), Keys(head), n) ==>
      (if IsRemoved(Keys(base), Keys(head), n) then Modified(n) else Added(n)) in out
    ensures IsRemoved(Keys(base), Keys(head), n) ==>
      (if IsAdded(Keys(base), Keys(head), n) then Modified(n) else Removed(n)) in out
  {
    hide Holds, PairFinding, PairChanged, Code;
  }

  /** A revision compared with itself has no structural finding. */
  lemma SelfDiffIsEmpty(m: ChainModel, out: seq<Structural>)
    requires Findings(m, m, out)
    ensures out == []
  {
    var keys := Keys(m);
    if out != [] {
      var e := out[0];
      assert e in out && Holds(m, m, e);
      if e.Modified? || e.Removed? || e.Added? {
        SelfPairing(keys, e.number);
      } else {
        var b, h :| PairFinding(m, m, b, h, e);
        SelfPairing(keys, b);
        PairsAreOneToOne(keys, keys, b, b, h, b);
      }
    }
  }
}
