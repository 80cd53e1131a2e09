/** Rectangles of packet space, and the pass that merges them. */
module Regions {
  import opened Sorting
  import opened Intervals
  import opened Cardinality

  /** How many of the boxes hold the point `c`. */
  ghost function Hits(boxes: seq<Box>, c: seq<nat>): nat {
    if boxes == [] then 0 else (if InBox(boxes[0], c) then 1 else 0) + Hits(boxes[1..], c)
  }

  /** Same union, and no point held more often than before. */
  ghost predicate Refines(after: seq<Box>, before: seq<Box>) {
    forall c :: HitsRefine(after, before, c)
  }

  ghost predicate HitsRefine(after: seq<Box>, before: seq<Box>, c: seq<nat>) {
    Hits(after, c) <= Hits(before, c) && (Hits(before, c) > 0 ==> Hits(after, c) > 0)
  }

  /** All boxes have the dimension widths `widths`. */
  ghost predicate Shaped(boxes: seq<Box>, widths: seq<nat>) {
    forall b | b in boxes :: ShapedBox(b, widths)
  }

  ghost predicate ShapedBox(b: Box, widths: seq<nat>) {
    |b| == |widths| && forall i | 0 <= i < |b| :: b[i].bits == widths[i]
  }

  /** The dimensions of a box other than `d`. */
  function Others(b: Box, d: nat): seq<IntervalSet>
    requires d < |b|
  {
    b[..d] + b[d + 1..]
  }

  /** No two boxes agree on all dimensions but `d`. */
  ghost predicate DistinctBut(boxes: seq<Box>, d: nat) {
    forall i, j | 0 <= i < j < |boxes| && d < |boxes[i]| && d < |boxes[j]| :: Others(boxes[i], d) != Others(boxes[j], d)
  }

  // --------------------------------------------------------------- hit counts

  lemma {:induction false} HitsAppend(a: seq<Box>, b: seq<Box>, c: seq<nat>)
    ensures Hits(a + b, c) == Hits(a, c) + Hits(b, c)
  {
    if a == [] {
      assert a + b == b;
    } else {
      assert (a + b)[1..] == a[1..] + b;
      HitsAppend(a[1..], b, c);
    }
  }

  lemma {:induction false} HitsUpdate(boxes: seq<Box>, k: nat, b: Box, c: seq<nat>)
    requires k < |boxes|
    ensures Hits(boxes[k := b], c) + (if InBox(boxes[k], c) then 1 else 0) ==
      Hits(boxes, c) + (if InBox(b, c) then 1 else 0)
  {
    if k > 0 {
      assert boxes[k := b][1..] == boxes[1..][k - 1 := b];
      HitsUpdate(boxes[1..], k - 1, b, c);
    } else {
      assert boxes[k := b][1..] == boxes[1..];
    }
  }

  lemma {:induction false} HitsAt(boxes: seq<Box>, k: nat, c: seq<nat>)
    requires k < |boxes| && InBox(boxes[k], c)
    ensures Hits(boxes, c) > 0
  {
    if k > 0 { HitsAt(boxes[1..], k - 1, c); }
  }

  lemma {:induction false} HitsWitness(boxes: seq<Box>, c: seq<nat>)
    requires Hits(boxes, c) > 0
    ensures exists i :: 0 <= i < |boxes| && InBox(boxes[i], c)
  {
    if !InBox(boxes[0], c) {
      HitsWitness(boxes[1..], c);
      var i :| 0 <= i < |boxes| - 1 && InBox(boxes[1..][i], c);
      assert InBox(boxes[i + 1], c);
    }
  }

  lemma {:induction false} HitsTwice(boxes: seq<Box>, i: nat, j: nat, c: seq<nat>)
    requires i < j < |boxes| && InBox(boxes[i], c) && InBox(boxes[j], c)
    ensures Hits(boxes, c) > 1
  {
    if i == 0 {
      HitsAt(boxes[1..], j - 1, c);
    } else {
      HitsTwice(boxes[1..], i - 1, j - 1, c);
    }
  }

  lemma {:induction false} HitsInsert(x: Box, boxes: seq<Box>, le: (Box, Box) -> bool, c: seq<nat>)
    ensures Hits(Insert(x, boxes, le), c) == Hits(boxes, c) + (if InBox(x, c) then 1 else 0)
  {
    if boxes != [] && !le(x, boxes[0]) { HitsInsert(x, boxes[1..], le, c); }
  }

  lemma {:induction false} HitsSort(boxes: seq<Box>, le: (Box, Box) -> bool, c: seq<nat>)
    ensures Hits(Sort(boxes, le), c) == Hits(boxes, c)
  {
    if boxes != [] {
      HitsSort(boxes[1..], le, c);
      HitsInsert(boxes[0], Sort(boxes[1..], le), le, c);
    }
  }

  /** The boxes are pairwise disjoint. */
  ghost predicate Disjoint(boxes: seq<Box>) {
    forall i, j, c | 0 <= i < j < |boxes| :: !(InBox(boxes[i], c) && InBox(boxes[j], c))
  }

  ghost predicate InSome(boxes: seq<Box>, c: seq<nat>) {
    exists i :: 0 <= i < |boxes| && InBox(boxes[i], c)
  }

  lemma InSomeIsHit(boxes: seq<Box>, c: seq<nat>)
    ensures InSome(boxes, c) <==> Hits(boxes, c) > 0
  {
    if Hits(boxes, c) > 0 { HitsWitness(boxes, c); }
    if i :| 0 <= i < |boxes| && InBox(boxes[i], c) { HitsAt(boxes, i, c); }
  }

  lemma {:induction false} DisjointHits(boxes: seq<Box>, c: seq<nat>)
    requires Disjoint(boxes)
    ensures Hits(boxes, c) <= 1
  {
    if boxes != [] {
      DisjointTail(boxes);
      DisjointHits(boxes[1..], c);
      if InBox(boxes[0], c) {
        forall i | 0 <= i < |boxes| - 1
          ensures !InBox(boxes[1..][i], c)
        {
          assert boxes[1..][i] == boxes[i + 1];
        }
        if Hits(boxes[1..], c) > 0 { HitsWitness(boxes[1..], c); }
      }
    }
  }

  lemma DisjointTail(boxes: seq<Box>)
    requires Disjoint(boxes) && boxes != []
    ensures Disjoint(boxes[1..])
  {
    forall i, j, c | 0 <= i < j < |boxes| - 1
      ensures !(InBox(boxes[1..][i], c) && InBox(boxes[1..][j], c))
    {
      assert boxes[1..][i] == boxes[i + 1] && boxes[1..][j] == boxes[j + 1];
    }
  }

  /** What refinement means: the union is kept, and disjoint boxes stay disjoint. */
  lemma RefinesMeans(after: seq<Box>, before: seq<Box>)
    requires Refines(after, before)
    ensures forall c :: InSome(after, c) <==> InSome(before, c)
    ensures Disjoint(before) ==> Disjoint(after)
  {
    forall c
      ensures InSome(after, c) <==> InSome(before, c)
    {
      assert HitsRefine(after, before, c);
      InSomeIsHit(after, c);
      InSomeIsHit(before, c);
    }
    if Disjoint(before) {
      forall i, j, c | 0 <= i < j < |after|
        ensures !(InBox(after[i], c) && InBox(after[j], c))
      {
        assert HitsRefine(after, before, c);
        DisjointHits(before, c);
        if InBox(after[i], c) && InBox(after[j], c) { HitsTwice(after, i, j, c); }
      }
    }
  }

  lemma RefinesTransitive(x: seq<Box>, y: seq<Box>, z: seq<Box>)
    requires Refines(x, y) && Refines(y, z)
    ensures Refines(x, z)
  {
    forall c
      ensures HitsRefine(x, z, c)
    {
      assert HitsRefine(x, y, c) && HitsRefine(y, z, c);
    }
  }

  // ------------------------------------------------------------ one dimension

  /** Box `a` with dimension `d` widened by that of `b`. */
  function Joined(a: Box, b: Box, d: nat): Box
    requires d < |a| && d < |b| && a[d].bits == b[d].bits
  {
    a[d := Union(a[d], b[d])]
  }

  /** Two boxes that agree on every dimension but `d` union cleanly on `d`. */
  lemma UnionIsBox(a: Box, b: Box, d: nat, c: seq<nat>)
    requires |a| == |b| && d < |a| && Others(a, d) == Others(b, d) && a[d].bits == b[d].bits
    ensures InBox(Joined(a, b, d), c) <==> InBox(a, c) || InBox(b, c)
  {
    forall i | 0 <= i < |a| && i != d
      ensures a[i] == b[i]
    {
      assert a[i] == Others(a, d)[if i < d then i else i - 1];
      assert b[i] == Others(b, d)[if i < d then i else i - 1];
    }
    var u := Joined(a, b, d);
    if InBox(u, c) {
      assert Contains(u[d], c[d]);
      assert forall i | 0 <= i < |a| && i != d :: Contains(u[i], c[i]);
    }
  }

  /** The table maps the other dimensions of every box to its position. */
  ghost predicate Indexed(out: seq<Box>, seen: map<seq<IntervalSet>, nat>, d: nat) {
    && (forall k | k in seen :: seen[k] < |out| && d < |out[seen[k]]| && Others(out[seen[k]], d) == k)
    && (forall i | 0 <= i < |out| :: d < |out[i]| && Others(out[i], d) in seen && seen[Others(out[i], d)] == i)
  }

  method MergeAlong(boxes: seq<Box>, d: nat, ghost widths: seq<nat>) returns (out: seq<Box>)
    requires Shaped(boxes, widths) && d < |widths|
    ensures Shaped(out, widths) && Refines(out, boxes)
    ensures Proper(boxes) ==> Proper(out)
    ensures |out| <= |boxes| && (|out| == |boxes| ==> out == boxes)
    ensures DistinctBut(out, d)
  {
    hide Merged;
    var seen: map<seq<IntervalSet>, nat> := map[];
    out := [];
    NothingMerged(boxes, d, widths);
    for n := 0 to |boxes|
      invariant Merged(out, seen, boxes, n, d, widths)
    {
      var r := boxes[n];
      MergedKey(out, seen, boxes, n, d, widths);
      var key := Others(r, d);
      if key in seen {
        var k := seen[key];
        MergedInto(out, seen, boxes, n, d, widths);
        out := out[k := Joined(out[k], r, d)];
      } else {
        MergedAfter(out, seen, boxes, n, d, widths);
        seen := seen[key := |out|];
        out := out + [r];
      }
    }
    AllMerged(out, seen, boxes, d, widths);
  }

  /** The first `n` boxes are merged into `out`. */
  ghost predicate Merged(out: seq<Box>, seen: map<seq<IntervalSet>, nat>, boxes: seq<Box>, n: nat, d: nat,
                         widths: seq<nat>)
  {
    && n <= |boxes| && d < |widths|
    && |out| <= n && (|out| == n ==> out == boxes[..n])
    && Shaped(boxes, widths) && Shaped(out, widths) && Refines(out, boxes[..n])
    && Indexed(out, seen, d) && (Proper(boxes) ==> Proper(out))
  }

  lemma NothingMerged(boxes: seq<Box>, d: nat, widths: seq<nat>)
    requires Shaped(boxes, widths) && d < |widths|
    ensures Merged([], map[], boxes, 0, d, widths)
  {
    hide Refines, Shaped, Others;
    RefinesNothing();
    NothingShaped(widths);
    assert boxes[..0] == [];
  }

  /** What the loop looks up is there. */
  lemma MergedKey(out: seq<Box>, seen: map<seq<IntervalSet>, nat>, boxes: seq<Box>, n: nat, d: nat, widths: seq<nat>)
    requires Merged(out, seen, boxes, n, d, widths) && n < |boxes|
    ensures d < |boxes[n]|
    ensures Others(boxes[n], d) in seen ==>
      var k := seen[Others(boxes[n], d)];
      k < |out| && |out[k]| == |boxes[n]| && d < |out[k]| && out[k][d].bits == boxes[n][d].bits
  {
    hide Refines, Shaped, Others;
    MemberShaped(boxes, boxes[n], widths);
    if Others(boxes[n], d) in seen { MemberShaped(out, out[seen[Others(boxes[n], d)]], widths); }
  }

  lemma MergedInto(out: seq<Box>, seen: map<seq<IntervalSet>, nat>, boxes: seq<Box>, n: nat, d: nat, widths: seq<nat>)
    requires Merged(out, seen, boxes, n, d, widths) && n < |boxes| && d < |boxes[n]|
    requires Others(boxes[n], d) in seen
    requires var k := seen[Others(boxes[n], d)];
      k < |out| && |out[k]| == |boxes[n]| && d < |out[k]| && out[k][d].bits == boxes[n][d].bits
    ensures var k := seen[Others(boxes[n], d)];
      Merged(out[k := Joined(out[k], boxes[n], d)], seen, boxes, n + 1, d, widths)
  {
    hide InBox, Refines, Shaped, ShapedBox, HasEmptyDim, Others, Joined;
    var r := boxes[n];
    var k := seen[Others(r, d)];
    MemberShaped(boxes, r, widths);
    MemberShaped(out, out[k], widths);
    assert boxes[..n + 1] == boxes[..n] + [r];
    MergeStep(out, boxes[..n], k, r, d, widths);
    MergeIndexed(out, seen, k, r, d);
    JoinedProper(out[k], r, d);
  }

  lemma MergedAfter(out: seq<Box>, seen: map<seq<IntervalSet>, nat>, boxes: seq<Box>, n: nat, d: nat, widths: seq<nat>)
    requires Merged(out, seen, boxes, n, d, widths) && n < |boxes| && d < |boxes[n]|
    requires Others(boxes[n], d) !in seen
    ensures Merged(out + [boxes[n]], seen[Others(boxes[n], d) := |out|], boxes, n + 1, d, widths)
  {
    hide InBox, Refines, Shaped, ShapedBox, HasEmptyDim, Others;
    var r := boxes[n];
    MemberShaped(boxes, r, widths);
    assert boxes[..n + 1] == boxes[..n] + [r];
    AppendStep(out, boxes[..n], r, widths);
    AppendIndexed(out, seen, r, d);
  }

  lemma AllMerged(out: seq<Box>, seen: map<seq<IntervalSet>, nat>, boxes: seq<Box>, d: nat, widths: seq<nat>)
    requires Merged(out, seen, boxes, |boxes|, d, widths)
    ensures Shaped(out, widths) && Refines(out, boxes) && (Proper(boxes) ==> Proper(out))
    ensures |out| <= |boxes| && (|out| == |boxes| ==> out == boxes)
    ensures DistinctBut(out, d)
  {
    hide InBox, Refines, Shaped, Others;
    assert boxes[..|boxes|] == boxes;
  }

  lemma MergeStep(out: seq<Box>, done: seq<Box>, k: nat, r: Box, d: nat, widths: seq<nat>)
    requires k < |out| && d < |widths| && Shaped(out, widths) && ShapedBox(out[k], widths) && ShapedBox(r, widths)
    requires Others(out[k], d) == Others(r, d) && Refines(out, done)
    ensures var merged := Joined(out[k], r, d);
      && Shaped(out[k := merged], widths) && Refines(out[k := merged], done + [r])
      && Others(merged, d) == Others(out[k], d) && |merged| == |out[k]|
  {
    var merged := Joined(out[k], r, d);
    var next, more := out[k := merged], done + [r];
    forall c
      ensures HitsRefine(next, more, c)
    {
      assert HitsRefine(out, done, c);
      HitsUpdate(out, k, merged, c);
      HitsAppend(done, [r], c);
      UnionIsBox(out[k], r, d, c);
      assert Hits([r], c) == if InBox(r, c) then 1 else 0;
      if InBox(out[k], c) { HitsAt(out, k, c); }
    }
  }

  lemma JoinedProper(a: Box, b: Box, d: nat)
    requires d < |a| && d < |b| && a[d].bits == b[d].bits
    ensures !HasEmptyDim(a) ==> !HasEmptyDim(Joined(a, b, d))
  {
    var u := Union(a[d], b[d]);
    if !IsEmpty(a[d]) {
      assert Contains(a[d], a[d].ranges[0].0);
      assert Contains(u, a[d].ranges[0].0);
      FullAndEmpty(u);
    }
  }

  lemma MemberShaped(boxes: seq<Box>, b: Box, widths: seq<nat>)
    requires Shaped(boxes, widths) && b in boxes
    ensures ShapedBox(b, widths) && |b| == |widths| && forall i | 0 <= i < |b| :: b[i].bits == widths[i]
  {
  }

  lemma NothingShaped(widths: seq<nat>)
    ensures Shaped([], widths)
  {
  }

  lemma RefinesNothing()
    ensures Refines([], [])
  {
    forall c
      ensures HitsRefine([], [], c)
    {
    }
  }

  lemma MergeIndexed(out: seq<Box>, seen: map<seq<IntervalSet>, nat>, k: nat, r: Box, d: nat)
    requires Indexed(out, seen, d) && k < |out| && d < |r| && d < |out[k]| && out[k][d].bits == r[d].bits
    ensures Others(Joined(out[k], r, d), d) == Others(out[k], d)
    ensures Indexed(out[k := Joined(out[k], r, d)], seen, d)
  {
    hide Others, Joined;
    OthersJoined(out[k], r, d);
  }

  lemma OthersJoined(a: Box, b: Box, d: nat)
    requires d < |a| && d < |b| && a[d].bits == b[d].bits
    ensures |Joined(a, b, d)| == |a| && Others(Joined(a, b, d), d) == Others(a, d)
  {
    hide Union;
  }

  lemma AppendStep(out: seq<Box>, done: seq<Box>, r: Box, widths: seq<nat>)
    requires Shaped(out, widths) && ShapedBox(r, widths) && Refines(out, done)
    ensures Shaped(out + [r], widths) && Refines(out + [r], done + [r])
  {
    forall c
      ensures HitsRefine(out + [r], done + [r], c)
    {
      assert HitsRefine(out, done, c);
      HitsAppend(out, [r], c);
      HitsAppend(done, [r], c);
    }
  }

  lemma AppendIndexed(out: seq<Box>, seen: map<seq<IntervalSet>, nat>, r: Box, d: nat)
    requires Indexed(out, seen, d) && d < |r| && Others(r, d) !in seen
    ensures Indexed(out + [r], seen[Others(r, d) := |out|], d)
  {
  }

  // ------------------------------------------------------------- fixed point

  /** Ranges flattened so that list order is the derived order of the vectors: a vector that
  ends comes before one that goes on. */
  function RangesKey(rs: seq<Range>): seq<nat> {
    if rs == [] then [0] else [rs[0].0 + 1, rs[0].1 + 1] + RangesKey(rs[1..])
  }

  function BoxKey(b: Box): seq<nat> {
    if b == [] then [] else [b[0].bits] + RangesKey(b[0].ranges) + BoxKey(b[1..])
  }

  predicate BoxLe(a: Box, b: Box) {
    LexLe(BoxKey(a), BoxKey(b))
  }

  predicate HasEmptyDim(b: Box) {
    exists i :: 0 <= i < |b| && IsEmpty(b[i])
  }

  /** No box is empty in any dimension. */
  ghost predicate Proper(boxes: seq<Box>) {
    forall b | b in boxes :: !HasEmptyDim(b)
  }

  function NonEmpty(boxes: seq<Box>): seq<Box> {
    if boxes == [] then []
    else if HasEmptyDim(boxes[0]) then NonEmpty(boxes[1..])
    else [boxes[0]] + NonEmpty(boxes[1..])
  }

  /** Drop each box equal to the one before it. */
  function Dedup(boxes: seq<Box>): seq<Box> {
    if |boxes| < 2 then boxes
    else if boxes[0] == boxes[1] then Dedup(boxes[1..])
    else [boxes[0]] + Dedup(boxes[1..])
  }

  lemma {:induction false} NonEmptyKeeps(boxes: seq<Box>, widths: seq<nat>, c: seq<nat>)
    requires Shaped(boxes, widths)
    ensures Hits(NonEmpty(boxes), c) == Hits(boxes, c) && |NonEmpty(boxes)| <= |boxes|
    ensures forall b | b in NonEmpty(boxes) :: b in boxes && !HasEmptyDim(b)
  {
    if boxes != [] {
      NonEmptyKeeps(boxes[1..], widths, c);
      if i :| 0 <= i < |boxes[0]| && IsEmpty(boxes[0][i]) {
        FullAndEmpty(boxes[0][i]);
      }
    }
  }

  lemma {:induction false} DedupKeeps(boxes: seq<Box>, c: seq<nat>)
    ensures HitsRefine(Dedup(boxes), boxes, c) && |Dedup(boxes)| <= |boxes|
    ensures forall b | b in Dedup(boxes) :: b in boxes
  {
    if |boxes| >= 2 {
      DedupKeeps(boxes[1..], c);
    }
  }

  method Prepare(boxes: seq<Box>, ghost widths: seq<nat>) returns (out: seq<Box>)
    requires Shaped(boxes, widths)
    ensures Shaped(out, widths) && Refines(out, boxes) && |out| <= |boxes|
    ensures Proper(out)
  {
    var kept := NonEmpty(boxes);
    var sorted := Sort(kept, BoxLe);
    out := Dedup(sorted);
    SortKeeps(kept, BoxLe);
    forall c
      ensures HitsRefine(out, boxes, c)
    {
      NonEmptyKeeps(boxes, widths, c);
      HitsSort(kept, BoxLe, c);
      DedupKeeps(sorted, c);
    }
    NonEmptyKeeps(boxes, widths, []);
    DedupKeeps(sorted, []);
  }

  /** One round: merge along every dimension in turn. */
  method MergeRound(boxes: seq<Box>, ghost widths: seq<nat>, dims: nat) returns (out: seq<Box>)
    requires Shaped(boxes, widths) && dims == |widths|
    ensures Shaped(out, widths) && Refines(out, boxes) && |out| <= |boxes|
    ensures Proper(boxes) ==> Proper(out)
    ensures |out| == |boxes| ==> out == boxes && forall d: nat | d < dims :: DistinctBut(out, d)
  {
    hide Proper;
    out := boxes;
    for d := 0 to dims
      invariant Shaped(out, widths) && Refines(out, boxes) && |out| <= |boxes|
      invariant Proper(boxes) ==> Proper(out)
      invariant |out| == |boxes| ==> out == boxes && forall e: nat | e < d :: DistinctBut(out, e)
    {
      ghost var before := out;
      out := MergeAlong(out, d, widths);
      RefinesTransitive(out, before, boxes);
    }
  }

  /** Merge to a fixed point, at most `maxPasses` rounds. The union is kept, disjoint boxes stay
  disjoint, and no box of the result is empty. With as many rounds as boxes no two boxes of the
  result agree on all dimensions but one. */
  method Merge(boxes: seq<Box>, maxPasses: nat, ghost widths: seq<nat>, dims: nat) returns (out: seq<Box>)
    requires Shaped(boxes, widths) && dims == |widths|
    ensures Shaped(out, widths) && Refines(out, boxes) && |out| <= |boxes| && Proper(out)
    ensures maxPasses >= |boxes| ==> forall d: nat | d < dims :: DistinctBut(out, d)
  {
    out := Prepare(boxes, widths);
    for pass := 0 to maxPasses
      invariant Shaped(out, widths) && Refines(out, boxes) && Proper(out)
      invariant |out| + pass <= |boxes|
    {
      var before := out;
      out := MergeRound(out, widths, dims);
      RefinesTransitive(out, before, boxes);
      if |out| == |before| {
        break;
      }
    }
  }

  // ------------------------------------------------------------------ counts

  function TotalCount(boxes: seq<Box>): nat {
    if boxes == [] then 0 else BoxCount(boxes[0]) + TotalCount(boxes[1..])
  }

  ghost function UnionPoints(boxes: seq<Box>): set<seq<nat>> {
    if boxes == [] then {} else BoxPoints(boxes[0]) + UnionPoints(boxes[1..])
  }

  lemma {:induction false} UnionMember(boxes: seq<Box>, c: seq<nat>)
    ensures c in UnionPoints(boxes) <==> Hits(boxes, c) > 0
  {
    if boxes != [] {
      BoxMember(boxes[0], c);
      UnionMember(boxes[1..], c);
    }
  }

  /** The counts of disjoint boxes add up to the size of their union. */
  lemma {:induction false} DisjointTotal(boxes: seq<Box>)
    requires Disjoint(boxes)
    ensures TotalCount(boxes) == |UnionPoints(boxes)|
  {
    if boxes != [] {
      DisjointTail(boxes);
      DisjointTotal(boxes[1..]);
      BoxCountIsSize(boxes[0]);
      forall c | c in BoxPoints(boxes[0])
        ensures c !in UnionPoints(boxes[1..])
      {
        BoxMember(boxes[0], c);
        UnionMember(boxes[1..], c);
        DisjointHits(boxes, c);
      }
    }
  }

  /** Merging disjoint boxes keeps the total count. */
  lemma RefinesKeepsTotal(after: seq<Box>, before: seq<Box>)
    requires Refines(after, before) && Disjoint(before)
    ensures TotalCount(after) == TotalCount(before)
  {
    RefinesMeans(after, before);
    DisjointTotal(before);
    DisjointTotal(after);
    forall c
      ensures c in UnionPoints(after) <==> c in UnionPoints(before)
    {
      assert HitsRefine(after, before, c);
      UnionMember(after, c);
      UnionMember(before, c);
    }
    assert UnionPoints(after) == UnionPoints(before);
  }
}
