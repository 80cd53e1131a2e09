/** From a packet set to a short list of disjoint rectangles, with exact books.

The walk turns each path of the diagram into one rectangle, merges the
rectangles, sorts them and keeps the largest. Work limits may stop it early;
what is shown and what is left out always add up to the exact size of the set. */
module Enumerate {
  import opened Arith
  import opened Sorting
  import opened Intervals
  import opened Rules
  import opened Diagram
  import opened Header
  import opened Cardinality
  import opened Counting
  import opened Regions
  import opened Cubes

  datatype EnumOptions = EnumOptions(maxCubes: nat, maskExpandCap: nat, maxRegions: nat, mergePasses: nat)

  datatype Enumeration = Enumeration(
    regions: seq<Box>,
    totalPackets: nat,
    shownPackets: nat,
    omittedRegions: nat,
    omittedPackets: nat,
    unrenderablePackets: nat,
    cubesVisited: nat,
    regionsBeforeMerge: nat,
    incomplete: bool)

  // ------------------------------------------------------ points and boxes

  /** Every member of a box with the field widths is the field values of a point. */
  lemma PointWith(l: Layout, b: Box, c: seq<nat>) returns (p: Point)
    requires l.Valid() && ShapedBox(b, FIELD_WIDTHS) && InBox(b, c)
    ensures CoordsAt(l, p) == c
  {
    assert |c| == 7;
    var q := Packet(c[0], c[1], c[2], c[3], c[4], c[5], c[6]);
    hide Layout.Valid, Canonical, DomainMax, Contains;
    forall f: Field
      ensures q.Get(f) <= DomainMax(f.Bits())
    {
      MemberFits(b, c, f.Index());
    }
    p := PointOf(l, q);
    PacketOfPoint(l, q);
    CoordsOfPacket(l, p, q, c);
  }

  lemma MemberFits(b: Box, c: seq<nat>, k: nat)
    requires ShapedBox(b, FIELD_WIDTHS) && InBox(b, c) && k < 7
    ensures |c| == 7 && c[k] <= DomainMax(FIELD_WIDTHS[k])
  {
    assert Contains(b[k], c[k]) && b[k].bits == FIELD_WIDTHS[k];
    FullAndEmpty(b[k]);
  }

  lemma CoordsOfPacket(l: Layout, p: Point, q: Packet, c: seq<nat>)
    requires l.Valid() && PacketAt(l, p) == q && |c| == 7
    requires q == Packet(c[0], c[1], c[2], c[3], c[4], c[5], c[6])
    ensures CoordsAt(l, p) == c
  {
    hide Layout.Valid, FieldValue;
    forall k | 0 <= k < 7
      ensures CoordsAt(l, p)[k] == c[k]
    {
      assert PacketAt(l, p).Get(ALL_FIELDS[k]) == FieldValue(l, p, ALL_FIELDS[k]);
    }
  }

  /** The points whose field values lie in some box. */
  ghost function PointsIn(l: Layout, boxes: seq<Box>): set<seq<bool>>
    requires l.Valid()
  {
    set p | p in AllPoints(VARIABLES) && Holds(l, boxes, p)
  }

  ghost predicate Holds(l: Layout, boxes: seq<Box>, p: seq<bool>)
    requires l.Valid()
  {
    |p| == VARIABLES && InSome(boxes, CoordsAt(l, p))
  }

  /** Disjoint boxes count the points they hold. */
  lemma TotalIsPoints(l: Layout, boxes: seq<Box>)
    requires l.Valid() && Shaped(boxes, FIELD_WIDTHS) && Disjoint(boxes)
    ensures TotalCount(boxes) == |PointsIn(l, boxes)|
  {
    hide *;
    DisjointTotal(boxes);
    var points := PointsIn(l, boxes);
    PointsAreLong(l, boxes);
    var f := CoordMap(l, points);
    CoordMapInjective(l, points);
    forall c: seq<nat>
      ensures c in UnionPoints(boxes) <==> exists p :: p in points && f[p] == c
    {
      CoordMapImage(l, boxes, c);
    }
    InjectiveSize(points, UnionPoints(boxes), f);
  }

  lemma PointsAreLong(l: Layout, boxes: seq<Box>)
    requires l.Valid()
    ensures forall p | p in PointsIn(l, boxes) :: |p| == VARIABLES
  {
  }

  lemma CoordMapImage(l: Layout, boxes: seq<Box>, c: seq<nat>)
    requires l.Valid() && Shaped(boxes, FIELD_WIDTHS)
    requires forall p | p in PointsIn(l, boxes) :: |p| == VARIABLES
    ensures var f := CoordMap(l, PointsIn(l, boxes));
      f.Keys == PointsIn(l, boxes) && (c in UnionPoints(boxes) <==> exists p :: p in PointsIn(l, boxes) && f[p] == c)
  {
    hide PointsIn, UnionPoints, Layout.Valid, Shaped, CoordsAt;
    var points := PointsIn(l, boxes);
    var f := CoordMap(l, points);
    if c in UnionPoints(boxes) {
      var p := PointOfMember(l, boxes, c);
      assert f[p] == c;
    }
    if p :| p in points && f[p] == c { MemberOfPoint(l, boxes, p); }
  }

  lemma CoordMapInjective(l: Layout, points: set<seq<bool>>)
    requires l.Valid() && forall p | p in points :: |p| == VARIABLES
    ensures var f := CoordMap(l, points);
      f.Keys == points && forall p, q | p in points && q in points && f[p] == f[q] :: p == q
  {
    var f := CoordMap(l, points);
    forall p, q | p in points && q in points && f[p] == f[q]
      ensures p == q
    {
      CoordsInjective(l, p, q);
    }
  }

  ghost function CoordMap(l: Layout, points: set<seq<bool>>): map<seq<bool>, seq<nat>>
    requires l.Valid() && forall p | p in points :: |p| == VARIABLES
  {
    map p | p in points :: CoordsAt(l, p)
  }

  lemma PointOfMember(l: Layout, boxes: seq<Box>, c: seq<nat>) returns (p: Point)
    requires l.Valid() && Shaped(boxes, FIELD_WIDTHS) && c in UnionPoints(boxes)
    ensures p in PointsIn(l, boxes) && CoordsAt(l, p) == c
  {
    hide Layout.Valid, CoordsAt, Shaped, InBox;
    UnionMember(boxes, c);
    HitsWitness(boxes, c);
    var i :| 0 <= i < |boxes| && InBox(boxes[i], c);
    MemberShaped(boxes, boxes[i], FIELD_WIDTHS);
    p := PointWith(l, boxes[i], c);
    AllPointsMember(VARIABLES, p);
  }

  lemma MemberOfPoint(l: Layout, boxes: seq<Box>, p: Point)
    requires l.Valid() && p in PointsIn(l, boxes)
    ensures CoordsAt(l, p) in UnionPoints(boxes)
  {
    InSomeIsHit(boxes, CoordsAt(l, p));
    UnionMember(boxes, CoordsAt(l, p));
  }

  // ------------------------------------------------------------- the books

  /** Disjoint rectangles inside the set. */
  ghost predicate Inside(l: Layout, boxes: seq<Box>, s: PacketSet)
    requires l.Valid()
  {
    && Shaped(boxes, FIELD_WIDTHS) && Disjoint(boxes)
    && forall p: Point :: Holds(l, boxes, p) ==> Has(s, p)
  }

  /** Every member of the set lies in a rectangle. */
  ghost predicate Covers(l: Layout, boxes: seq<Box>, s: PacketSet)
    requires l.Valid()
  {
    forall p: Point :: Has(s, p) ==> Holds(l, boxes, p)
  }

  /** Rectangles inside the set count at most its size, and exactly its size when they cover it. */
  lemma InsideTotal(l: Layout, boxes: seq<Box>, s: PacketSet)
    requires l.Valid() && Inside(l, boxes, s)
    ensures TotalCount(boxes) <= |Members(s)|
    ensures TotalCount(boxes) == |Members(s)| <==> Covers(l, boxes, s)
  {
    hide Layout.Valid, CoordsAt, InSome, Shaped, Disjoint, TotalCount, Reduced, Eval;
    TotalIsPoints(l, boxes);
    var points, members := PointsIn(l, boxes), Members(s);
    forall p | p in points
      ensures p in members
    {
      assert Has(s, p);
    }
    SubsetSize(points, members);
    if Covers(l, boxes, s) {
      forall p | p in members
        ensures p in points
      {
        AllPointsMember(VARIABLES, p);
        assert Has(s, p);
      }
      assert points == members;
    } else {
      var p: Point :| Has(s, p) && !Holds(l, boxes, p);
      AllPointsMember(VARIABLES, p);
      ProperSubsetSize(points, members, p);
    }
  }

  lemma RefinesInside(l: Layout, after: seq<Box>, before: seq<Box>, s: PacketSet)
    requires l.Valid() && Inside(l, before, s) && Refines(after, before) && Shaped(after, FIELD_WIDTHS)
    ensures Inside(l, after, s)
    ensures Covers(l, after, s) <==> Covers(l, before, s)
  {
    RefinesMeans(after, before);
    hide Refines, Shaped, Layout.Valid;
    forall p: Point
      ensures Holds(l, after, p) <==> Holds(l, before, p)
    {
    }
  }

  lemma {:induction false} TotalSplit(a: seq<Box>, b: seq<Box>)
    ensures TotalCount(a + b) == TotalCount(a) + TotalCount(b)
  {
    if a == [] {
      assert a + b == b;
    } else {
      assert (a + b)[1..] == a[1..] + b;
      TotalSplit(a[1..], b);
    }
  }

  lemma InsidePart(l: Layout, a: seq<Box>, b: seq<Box>, s: PacketSet)
    requires l.Valid() && Inside(l, a + b, s)
    ensures Inside(l, a, s)
    ensures Covers(l, a, s) ==> Covers(l, a + b, s)
  {
    hide Layout.Valid;
    var all := a + b;
    assert forall i | 0 <= i < |a| :: all[i] == a[i];
    forall i, j, c | 0 <= i < j < |a|
      ensures !(InBox(a[i], c) && InBox(a[j], c))
    {
      assert all[i] == a[i] && all[j] == a[j];
    }
    forall x | x in a
      ensures ShapedBox(x, FIELD_WIDTHS)
    {
      assert x in all;
    }
    forall p: Point
      ensures Holds(l, a, p) ==> Holds(l, all, p)
    {
      if Holds(l, a, p) {
        var i :| 0 <= i < |a| && InBox(a[i], CoordsAt(l, p));
        assert InBox(all[i], CoordsAt(l, p));
      }
    }
  }

  lemma ProperCount(boxes: seq<Box>)
    requires Proper(boxes) && boxes != []
    ensures TotalCount(boxes) > 0
  {
    var b := boxes[0];
    assert b in boxes;
    forall i | 0 <= i < |b|
      ensures Count(b[i]) > 0
    {
      assert !IsEmpty(b[i]);
    }
    ProductPositive(b);
  }

  /** What the shown, dropped and refused rectangles add up to. */
  lemma Books(l: Layout, s: PacketSet, shown: seq<Box>, dropped: seq<Box>, refused: seq<Box>, finished: bool)
    requires l.Valid() && Inside(l, shown + (dropped + refused), s)
    requires Proper(dropped) && Proper(refused)
    requires finished <==> Covers(l, shown + (dropped + refused), s)
    ensures Inside(l, shown, s)
    ensures TotalCount(shown) + TotalCount(refused) <= |Members(s)|
    ensures TotalCount(shown) == |Members(s)| <==> Covers(l, shown, s)
    ensures TotalCount(shown) == |Members(s)| <==> finished && refused == [] && dropped == []
  {
    hide Layout.Valid, Inside, Covers, Proper;
    var all := shown + (dropped + refused);
    TotalSplit(shown, dropped + refused);
    TotalSplit(dropped, refused);
    InsideTotal(l, all, s);
    InsidePart(l, shown, dropped + refused, s);
    InsideTotal(l, shown, s);
    if dropped != [] { ProperCount(dropped); }
    if refused != [] { ProperCount(refused); }
    if finished && refused == [] && dropped == [] { assert all == shown; }
  }

  // -------------------------------------------------------- cubes to boxes

  /** The rectangles of the cubes that can be rendered within the cap. */
  ghost function Rendered(l: Layout, cubes: seq<Cube>, cap: nat): seq<Box>
    requires l.Valid()
  {
    if cubes == [] then []
    else if Renderable(l, cubes[|cubes| - 1], cap) then
      Rendered(l, cubes[..|cubes| - 1], cap) + [CubeBox(l, cubes[|cubes| - 1])]
    else Rendered(l, cubes[..|cubes| - 1], cap)
  }

  /** The rectangles of the others. */
  ghost function Refused(l: Layout, cubes: seq<Cube>, cap: nat): seq<Box>
    requires l.Valid()
  {
    if cubes == [] then []
    else if Renderable(l, cubes[|cubes| - 1], cap) then Refused(l, cubes[..|cubes| - 1], cap)
    else Refused(l, cubes[..|cubes| - 1], cap) + [CubeBox(l, cubes[|cubes| - 1])]
  }

  /** The packets counted for the refused cubes. */
  ghost function Skipped(l: Layout, cubes: seq<Cube>, cap: nat): nat
    requires l.Valid()
  {
    if cubes == [] then 0
    else
      Skipped(l, cubes[..|cubes| - 1], cap)
      + if Renderable(l, cubes[|cubes| - 1], cap) then 0 else Counted(l, cubes[|cubes| - 1], cap)
  }

  /** Every refused cube fixes all the fields that are not counted for it. */
  ghost predicate RefusedAreFixed(l: Layout, cubes: seq<Cube>, cap: nat)
    requires l.Valid()
  {
    forall i | 0 <= i < |cubes| && !Renderable(l, cubes[i], cap) :: FixedAfter(l, cubes[i], cap)
  }

  /** The count of skipped packets is never too large, and it is right exactly when every refused
  cube fixes the fields behind the first one that is beyond the cap. */
  lemma {:induction false} SkippedExactly(l: Layout, cubes: seq<Cube>, cap: nat)
    requires l.Valid()
    ensures Skipped(l, cubes, cap) <= TotalCount(Refused(l, cubes, cap))
    ensures Skipped(l, cubes, cap) == TotalCount(Refused(l, cubes, cap)) <==> RefusedAreFixed(l, cubes, cap)
  {
    hide Layout.Valid, Renderable, CubeBox, TotalCount, FixedAfter, Counted;
    if cubes == [] {
      NoBoxes();
    } else {
      var init, last := cubes[..|cubes| - 1], cubes[|cubes| - 1];
      SkippedExactly(l, init, cap);
      CountedExactly(l, last, cap);
      CubeBoxShaped(l, last);
      TotalSplit(Refused(l, init, cap), [CubeBox(l, last)]);
      OneBoxTotal(CubeBox(l, last));
      FixedSnoc(l, cubes, cap);
    }
  }

  lemma NoBoxes()
    ensures TotalCount([]) == 0
  {
  }

  lemma FixedSnoc(l: Layout, cubes: seq<Cube>, cap: nat)
    requires l.Valid() && cubes != []
    ensures var init, last := cubes[..|cubes| - 1], cubes[|cubes| - 1];
      RefusedAreFixed(l, cubes, cap) <==>
        RefusedAreFixed(l, init, cap) && (!Renderable(l, last, cap) ==> FixedAfter(l, last, cap))
  {
    hide Layout.Valid, Renderable, FixedAfter;
    var init := cubes[..|cubes| - 1];
    assert forall i | 0 <= i < |init| :: init[i] == cubes[i];
    if RefusedAreFixed(l, init, cap) && RefusedAreFixed(l, [cubes[|init|]], cap) {
      forall i | 0 <= i < |cubes| && !Renderable(l, cubes[i], cap)
        ensures FixedAfter(l, cubes[i], cap)
      {
        if i == |init| { assert [cubes[|init|]][0] == cubes[i]; } else { assert init[i] == cubes[i]; }
      }
    }
  }

  lemma CubeBoxShaped(l: Layout, cube: Cube)
    requires l.Valid()
    ensures ShapedBox(CubeBox(l, cube), FIELD_WIDTHS) && !HasEmptyDim(CubeBox(l, cube))
    ensures BoxCount(CubeBox(l, cube)) == Product(CubeBox(l, cube)) > 0
  {
    hide Layout.Valid, CubeDim, Product;
    var b := CubeBox(l, cube);
    forall i | 0 <= i < 7
      ensures Count(b[i]) > 0
    {
      DimCount(l, cube, ALL_FIELDS[i]);
    }
    ProductPositive(b);
    forall i | 0 <= i < 7
      ensures !IsEmpty(b[i])
    {
      assert Count(b[i]) > 0;
    }
  }

  lemma {:induction false} CubeBoxesShaped(l: Layout, cubes: seq<Cube>, cap: nat)
    requires l.Valid()
    ensures Shaped(Rendered(l, cubes, cap), FIELD_WIDTHS) && Shaped(Refused(l, cubes, cap), FIELD_WIDTHS)
    ensures Proper(Refused(l, cubes, cap))
    ensures Refused(l, cubes, cap) != [] <==> exists i :: 0 <= i < |cubes| && !Renderable(l, cubes[i], cap)
  {
    hide Layout.Valid, ShapedBox, HasEmptyDim, Renderable, CubeBox;
    if cubes != [] {
      CubeBoxesShaped(l, cubes[..|cubes| - 1], cap);
      CubeBoxShaped(l, cubes[|cubes| - 1]);
    }
  }

  /** A point lies in as many rectangles as it agrees with cubes. */
  lemma {:induction false} CubeBoxHits(l: Layout, cubes: seq<Cube>, cap: nat, p: Point)
    requires l.Valid() && CubesWithin(cubes, 0, VARIABLES)
    ensures Hits(Rendered(l, cubes, cap), CoordsAt(l, p)) + Hits(Refused(l, cubes, cap), CoordsAt(l, p)) ==
      CubeHits(cubes, p)
  {
    hide Layout.Valid, Renderable, CubeBox, InBox, AgreesWith, CoordsAt;
    if cubes != [] {
      var init, last := cubes[..|cubes| - 1], cubes[|cubes| - 1];
      CubeBoxHits(l, init, cap, p);
      CubeBoxExact(l, last, p);
      assert cubes == init + [last];
      CubeHitsAppend(init, [last], p);
      OneCubeHit(last, p);
      var c, box := CoordsAt(l, p), CubeBox(l, last);
      OneBoxHit(box, c);
      HitsAppend(Rendered(l, init, cap), [box], c);
      HitsAppend(Refused(l, init, cap), [box], c);
    }
  }

  lemma OneCubeHit(cube: Cube, p: seq<bool>)
    ensures CubeHits([cube], p) == if AgreesWith(cube, p) then 1 else 0
  {
    assert [cube][1..] == [];
  }

  lemma OneBoxHit(box: Box, c: seq<nat>)
    ensures Hits([box], c) == if InBox(box, c) then 1 else 0
  {
    assert [box][1..] == [];
  }

  /** The rectangles of the visited cubes are disjoint and inside the set; they cover it exactly
  when every cube was visited. */
  lemma VisitedInside(l: Layout, s: PacketSet, cap: nat, k: nat)
    requires l.Valid() && k <= |Paths(s)|
    ensures var boxes := Rendered(l, Paths(s)[..k], cap) + Refused(l, Paths(s)[..k], cap);
      Inside(l, boxes, s) && (Covers(l, boxes, s) <==> k == |Paths(s)|)
  {
    hide Layout.Valid, Paths, Rendered, Refused, CoordsAt, AgreesWith;
    var cubes := Paths(s);
    var raw, refused := Rendered(l, cubes[..k], cap), Refused(l, cubes[..k], cap);
    var boxes := raw + refused;
    CubeBoxesShaped(l, cubes[..k], cap);
    forall p: Point
      ensures Hits(boxes, CoordsAt(l, p)) <= (if Has(s, p) then 1 else 0)
      ensures Hits(boxes, CoordsAt(l, p)) + CubeHits(cubes[k..], p) == if Has(s, p) then 1 else 0
    {
      VisitedHits(l, s, cap, k, p);
    }
    HitsAreDisjoint(l, boxes, s);
    if k < |cubes| {
      var p := CubePoint(s, k);
      InSomeIsHit(boxes, CoordsAt(l, p));
      assert Has(s, p) && !Holds(l, boxes, p);
    } else {
      assert cubes[k..] == [];
      forall p: Point | Has(s, p)
        ensures Holds(l, boxes, p)
      {
        InSomeIsHit(boxes, CoordsAt(l, p));
      }
    }
  }

  lemma VisitedHits(l: Layout, s: PacketSet, cap: nat, k: nat, p: Point)
    requires l.Valid() && k <= |Paths(s)|
    ensures var boxes := Rendered(l, Paths(s)[..k], cap) + Refused(l, Paths(s)[..k], cap);
      Hits(boxes, CoordsAt(l, p)) + CubeHits(Paths(s)[k..], p) == if Has(s, p) then 1 else 0
  {
    hide Layout.Valid, Paths, Rendered, Refused, CoordsAt, AgreesWith, Hits, CubeHits;
    var cubes := Paths(s);
    PathsExact(s, 0, p);
    assert cubes == cubes[..k] + cubes[k..];
    CubeHitsAppend(cubes[..k], cubes[k..], p);
    CubeBoxHits(l, cubes[..k], cap, p);
    HitsAppend(Rendered(l, cubes[..k], cap), Refused(l, cubes[..k], cap), CoordsAt(l, p));
  }

  lemma HitsAreDisjoint(l: Layout, boxes: seq<Box>, s: PacketSet)
    requires l.Valid() && Shaped(boxes, FIELD_WIDTHS)
    requires forall p: Point :: Hits(boxes, CoordsAt(l, p)) <= (if Has(s, p) then 1 else 0)
    ensures Inside(l, boxes, s)
  {
    hide Layout.Valid, CoordsAt, InBox;
    forall i, j, c | 0 <= i < j < |boxes|
      ensures !(InBox(boxes[i], c) && InBox(boxes[j], c))
    {
      if InBox(boxes[i], c) {
        MemberShaped(boxes, boxes[i], FIELD_WIDTHS);
        var p := PointWith(l, boxes[i], c);
        assert Hits(boxes, CoordsAt(l, p)) <= 1;
        if InBox(boxes[j], c) { HitsTwice(boxes, i, j, c); }
      }
    }
    forall p: Point
      ensures Holds(l, boxes, p) ==> Has(s, p)
    {
      InSomeIsHit(boxes, CoordsAt(l, p));
    }
  }

  /** Every cube has a point, and no other cube agrees with it. */
  lemma CubePoint(s: PacketSet, k: nat) returns (p: Point)
    requires k < |Paths(s)|
    ensures Has(s, p) && CubeHits(Paths(s)[k..], p) == 1
  {
    var cubes := Paths(s);
    var cube := cubes[k];
    p := seq(VARIABLES, i requires 0 <= i < VARIABLES => i in cube && cube[i]);
    PathsExact(s, 0, p);
    assert AgreesWith(cube, p);
    assert cubes == cubes[..k] + cubes[k..];
    CubeHitsAppend(cubes[..k], cubes[k..], p);
  }

  // ------------------------------------------------------------------ order

  function ConstrainedDims(b: Box): nat {
    if b == [] then 0 else if IsFull(b[0]) then ConstrainedDims(b[1..]) else 1 + ConstrainedDims(b[1..])
  }

  /** Largest first, then fewest constrained dimensions, then the derived order. */
  predicate ShowLe(a: Box, b: Box) {
    if BoxCount(a) != BoxCount(b) then BoxCount(a) > BoxCount(b)
    else if ConstrainedDims(a) != ConstrainedDims(b) then ConstrainedDims(a) < ConstrainedDims(b)
    else BoxLe(a, b)
  }

  lemma ShowOrder()
    ensures TotalPreorder(ShowLe)
  {
    hide BoxCount, ConstrainedDims, BoxKey, LexLe;
    forall a, b
      ensures ShowLe(a, b) || ShowLe(b, a)
    {
      LexTotal(BoxKey(a), BoxKey(b));
    }
    forall a, b, c | ShowLe(a, b) && ShowLe(b, c)
      ensures ShowLe(a, c)
    {
      if BoxLe(a, b) && BoxLe(b, c) { LexTransitive(BoxKey(a), BoxKey(b), BoxKey(c)); }
    }
  }

  function SaturatingSub(a: nat, b: nat): nat {
    if a < b then 0 else a - b
  }

  // --------------------------------------------------------------- the walk

  /** Visit the cubes in order, up to the budget, and render each one. */
  method Walk(l: Layout, cubes: seq<Cube>, opts: EnumOptions)
    returns (raw: seq<Box>, visited: nat, skipped: nat, incomplete: bool)
    requires l.Valid()
    ensures visited == Min(|cubes|, opts.maxCubes) <= |cubes|
    ensures raw == Rendered(l, cubes[..visited], opts.maskExpandCap)
    ensures skipped == Skipped(l, cubes[..visited], opts.maskExpandCap)
    ensures incomplete <==> visited < |cubes| || Refused(l, cubes[..visited], opts.maskExpandCap) != []
  {
    hide Layout.Valid, Renderable, CubeBox, TotalCount;
    raw, visited, skipped, incomplete := [], 0, 0, false;
    var cap := opts.maskExpandCap;
    for k := 0 to |cubes|
      invariant visited == k <= opts.maxCubes
      invariant raw == Rendered(l, cubes[..k], cap)
      invariant skipped == Skipped(l, cubes[..k], cap)
      invariant incomplete <==> Refused(l, cubes[..k], cap) != []
    {
      if visited >= opts.maxCubes {
        incomplete := true;
        break;
      }
      visited := visited + 1;
      WalkStep(l, cubes, k, cap);
      var box, packets := RenderCube(l, cubes[k], cap);
      match box {
        case Some(b) =>
          raw := raw + [b];
        case None =>
          skipped := skipped + packets;
          incomplete := true;
      }
    }
    assert cubes[..|cubes|] == cubes;
  }

  lemma WalkStep(l: Layout, cubes: seq<Cube>, k: nat, cap: nat)
    requires l.Valid() && k < |cubes|
    ensures var box, before, after := CubeBox(l, cubes[k]), cubes[..k], cubes[..k + 1];
      if Renderable(l, cubes[k], cap) then
        && Rendered(l, after, cap) == Rendered(l, before, cap) + [box]
        && Refused(l, after, cap) == Refused(l, before, cap)
        && Skipped(l, after, cap) == Skipped(l, before, cap)
      else
        && Rendered(l, after, cap) == Rendered(l, before, cap)
        && Refused(l, after, cap) == Refused(l, before, cap) + [box]
        && Skipped(l, after, cap) == Skipped(l, before, cap) + Counted(l, cubes[k], cap)
  {
    hide Layout.Valid, Renderable, CubeBox, Counted;
    assert cubes[..k + 1][..k] == cubes[..k];
  }

  lemma OneBoxTotal(box: Box)
    ensures TotalCount([box]) == BoxCount(box)
  {
    assert [box][1..] == [];
  }

  /** What the list of rectangles of a result says. */
  ghost predicate Listed(r: Enumeration, all: seq<Box>, maxRegions: nat) {
    && Sorted(all, ShowLe)
    && |r.regions| == Min(|all|, maxRegions) && r.regions == all[..|r.regions|]
    && r.omittedRegions == |all| - |r.regions|
  }

  /** What the counts of a result say: shown and omitted packets add up to the exact size of the
  set, and nothing is omitted exactly when the rectangles are the whole set. */
  ghost predicate Balanced(l: Layout, s: PacketSet, r: Enumeration)
    requires l.Valid()
  {
    && Inside(l, r.regions, s)
    && r.totalPackets == |Members(s)|
    && r.shownPackets == TotalCount(r.regions)
    && r.shownPackets + r.omittedPackets == r.totalPackets
    && r.unrenderablePackets <= r.omittedPackets
    && (r.omittedPackets == 0 <==> Covers(l, r.regions, s))
    && (r.omittedPackets == 0 <==> !r.incomplete && r.omittedRegions == 0)
  }

  /** What the count of packets that could not be rendered says: it never counts too many, and it
  counts all of them exactly when each refused cube fixes the fields the count leaves out. */
  ghost predicate SkippedRight(l: Layout, s: PacketSet, opts: EnumOptions, r: Enumeration)
    requires l.Valid()
  {
    && r.cubesVisited <= |Paths(s)|
    && var cubes := Paths(s)[..r.cubesVisited];
       var refused := TotalCount(Refused(l, cubes, opts.maskExpandCap));
       && r.unrenderablePackets == Skipped(l, cubes, opts.maskExpandCap) <= refused
       && (r.unrenderablePackets == refused <==> RefusedAreFixed(l, cubes, opts.maskExpandCap))
  }

  ghost predicate SomeRefused(l: Layout, cubes: seq<Cube>, cap: nat)
    requires l.Valid()
  {
    exists i :: 0 <= i < |cubes| && !Renderable(l, cubes[i], cap)
  }

  /** When the walk is marked incomplete. */
  ghost predicate StoppedExactly(l: Layout, s: PacketSet, opts: EnumOptions, r: Enumeration)
    requires l.Valid()
  {
    && r.cubesVisited == Min(|Paths(s)|, opts.maxCubes)
    && (r.incomplete <==> (|Paths(s)| > opts.maxCubes || SomeRefused(l, Paths(s), opts.maskExpandCap)))
  }

  lemma NothingToShow(l: Layout, s: PacketSet)
    requires l.Valid() && IsFalse(s)
    ensures Members(s) == {} && Paths(s) == [] && Inside(l, [], s) && Covers(l, [], s)
  {
    hide Layout.Valid, CoordsAt;
    forall p: Point
      ensures !Has(s, p) && !Holds(l, [], p)
    {
    }
  }

  /** Appending the same boxes on both sides keeps a refinement. */
  lemma RefinesAppend(after: seq<Box>, before: seq<Box>, more: seq<Box>)
    requires Refines(after, before)
    ensures Refines(after + more, before + more)
  {
    forall c
      ensures HitsRefine(after + more, before + more, c)
    {
      assert HitsRefine(after, before, c);
      HitsAppend(after, more, c);
      HitsAppend(before, more, c);
    }
  }

  lemma SortRefines(boxes: seq<Box>, le: (Box, Box) -> bool)
    ensures Refines(Sort(boxes, le), boxes)
    ensures forall b :: b in Sort(boxes, le) <==> b in boxes
  {
    SortKeeps(boxes, le);
    forall c
      ensures HitsRefine(Sort(boxes, le), boxes, c)
    {
      HitsSort(boxes, le, c);
    }
  }

  /** Merging and sorting keep the rectangles disjoint, inside the set, and as covering as the
  walk was. */
  lemma MergedInside(l: Layout, s: PacketSet, cap: nat, visited: nat, merged: seq<Box>)
    requires l.Valid() && visited <= |Paths(s)|
    requires Refines(merged, Rendered(l, Paths(s)[..visited], cap)) && Shaped(merged, FIELD_WIDTHS) && Proper(merged)
    ensures var refused, all := Refused(l, Paths(s)[..visited], cap), Sort(merged, ShowLe);
      && Inside(l, all + refused, s) && Proper(all) && Proper(refused)
      && (Covers(l, all + refused, s) <==> visited == |Paths(s)|)
  {
    hide Layout.Valid, Inside, Covers, Rendered, Refused, Paths, Refines, ShapedBox, HasEmptyDim, ShowLe;
    var raw, refused := Rendered(l, Paths(s)[..visited], cap), Refused(l, Paths(s)[..visited], cap);
    var all := Sort(merged, ShowLe);
    VisitedInside(l, s, cap, visited);
    CubeBoxesShaped(l, Paths(s)[..visited], cap);
    SortRefines(merged, ShowLe);
    RefinesTransitive(all, merged, raw);
    RefinesAppend(all, raw, refused);
    RefinesInside(l, all + refused, raw + refused, s);
  }

  /** Sorting keeps boxes apart that differ in two dimensions. */
  lemma SortKeepsDistinctBut(boxes: seq<Box>, d: nat)
    requires DistinctBut(boxes, d) && forall b | b in boxes :: d < |b|
    ensures DistinctBut(Sort(boxes, ShowLe), d)
  {
    hide ShowLe;
    var sorted := Sort(boxes, ShowLe);
    SortKeeps(boxes, ShowLe);
    assert Distinct(boxes);
    SortKeepsDistinct(boxes, ShowLe);
    forall i, j | 0 <= i < j < |sorted| && d < |sorted[i]| && d < |sorted[j]|
      ensures Others(sorted[i], d) != Others(sorted[j], d)
    {
      assert sorted[i] in boxes && sorted[j] in boxes;
      var a :| 0 <= a < |boxes| && boxes[a] == sorted[i];
      var b :| 0 <= b < |boxes| && boxes[b] == sorted[j];
      assert a != b;
    }
  }

  lemma ShapedDims(boxes: seq<Box>)
    requires Shaped(boxes, FIELD_WIDTHS)
    ensures forall b | b in boxes :: |b| == 7
  {
    assert forall b | b in boxes :: ShapedBox(b, FIELD_WIDTHS);
  }

  /** Keep the largest rectangles and count the dropped ones. */
  method Truncate(all: seq<Box>, maxRegions: nat) returns (regions: seq<Box>, omitted: nat)
    ensures |regions| == Min(|all|, maxRegions) && regions == all[..|regions|] && omitted == |all| - |regions|
  {
    regions, omitted := all, 0;
    if |all| > maxRegions {
      omitted := |all| - maxRegions;
      regions := all[..maxRegions];
    }
  }

  lemma ProperPart(all: seq<Box>, k: nat)
    requires Proper(all) && k <= |all|
    ensures Proper(all[k..])
  {
  }

  lemma Settle(l: Layout, s: PacketSet, cap: nat, visited: nat, all: seq<Box>, r: Enumeration)
    requires l.Valid() && visited <= |Paths(s)|
    requires var refused := Refused(l, Paths(s)[..visited], cap);
      && Inside(l, all + refused, s) && Proper(all) && Proper(refused)
      && (Covers(l, all + refused, s) <==> visited == |Paths(s)|)
      && (r.incomplete <==> visited < |Paths(s)| || refused != [])
      && r.unrenderablePackets <= TotalCount(refused)
    requires |r.regions| <= |all| && r.regions == all[..|r.regions|] && r.omittedRegions == |all| - |r.regions|
    requires r.totalPackets == |Members(s)| && r.shownPackets == TotalCount(r.regions)
    requires r.omittedPackets == SaturatingSub(r.totalPackets, r.shownPackets)
    ensures Balanced(l, s, r)
  {
    hide Layout.Valid, Inside, Covers, Refused, Proper, Paths, Members, TotalCount;
    var refused := Refused(l, Paths(s)[..visited], cap);
    var k := |r.regions|;
    assert all == all[..k] + all[k..];
    assert all[..k] + (all[k..] + refused) == all + refused;
    ProperPart(all, k);
    Books(l, s, all[..k], all[k..], refused, visited == |Paths(s)|);
  }

  /** Enumerate a packet set as readable rectangles. `all` is the merged list in display order,
  before the display cap. */
  method Enumerate(l: Layout, s: PacketSet, opts: EnumOptions) returns (r: Enumeration, ghost all: seq<Box>)
    requires l.Valid()
    ensures Balanced(l, s, r) && StoppedExactly(l, s, opts, r) && Listed(r, all, opts.maxRegions)
    ensures SkippedRight(l, s, opts, r)
    ensures opts.mergePasses >= r.regionsBeforeMerge ==> forall d: nat | d < 7 :: DistinctBut(all, d)
  {
    hide *;
    var total := ExactCardinality(s);
    CardinalityIsSize(s);
    if IsFalse(s) {
      all := [];
      r := Enumeration([], total, 0, 0, 0, 0, 0, 0, false);
      NothingFound(l, s, opts, r);
      return;
    }
    var paths := Paths(s);
    var raw, visited, skipped, incomplete := Walk(l, paths, opts);
    RenderedShaped(l, paths[..visited], opts.maskExpandCap);
    var merged := Merge(raw, opts.mergePasses, FIELD_WIDTHS, 7);
    MergedInside(l, s, opts.maskExpandCap, visited, merged);
    SortedList(merged);
    all := Sort(merged, ShowLe);
    var sorted := Sort(merged, ShowLe);
    var regions, omitted := Truncate(sorted, opts.maxRegions);
    var shown := TotalCount(regions);
    r := Enumeration(regions, total, shown, omitted, SaturatingSub(total, shown), skipped, visited, |raw|, incomplete);
    SkippedExactly(l, paths[..visited], opts.maskExpandCap);
    SkippedIs(l, s, opts, r);
    Settle(l, s, opts.maskExpandCap, visited, all, r);
    WalkStopped(l, s, opts, r, visited);
    ListedIs(r, all, opts.maxRegions);
  }

  lemma NothingFound(l: Layout, s: PacketSet, opts: EnumOptions, r: Enumeration)
    requires l.Valid() && IsFalse(s) && r == Enumeration([], |Members(s)|, 0, 0, 0, 0, 0, 0, false)
    ensures Balanced(l, s, r) && StoppedExactly(l, s, opts, r) && Listed(r, [], opts.maxRegions)
    ensures SkippedRight(l, s, opts, r)
    ensures forall d: nat | d < 7 :: DistinctBut([], d)
  {
    hide Layout.Valid, Inside, Covers, Members, Paths;
    NothingToShow(l, s);
    NoBoxes();
  }

  lemma SkippedIs(l: Layout, s: PacketSet, opts: EnumOptions, r: Enumeration)
    requires l.Valid() && r.cubesVisited <= |Paths(s)|
    requires var cubes := Paths(s)[..r.cubesVisited];
      var refused := TotalCount(Refused(l, cubes, opts.maskExpandCap));
      && r.unrenderablePackets == Skipped(l, cubes, opts.maskExpandCap) <= refused
      && (Skipped(l, cubes, opts.maskExpandCap) == refused <==> RefusedAreFixed(l, cubes, opts.maskExpandCap))
    ensures SkippedRight(l, s, opts, r)
  {
  }

  lemma RenderedShaped(l: Layout, cubes: seq<Cube>, cap: nat)
    requires l.Valid()
    ensures Shaped(Rendered(l, cubes, cap), FIELD_WIDTHS) && |FIELD_WIDTHS| == 7
  {
    CubeBoxesShaped(l, cubes, cap);
  }

  lemma SortedList(merged: seq<Box>)
    requires Shaped(merged, FIELD_WIDTHS)
    ensures Sorted(Sort(merged, ShowLe), ShowLe)
    ensures forall d: nat | d < 7 && DistinctBut(merged, d) :: DistinctBut(Sort(merged, ShowLe), d)
  {
    hide ShowLe, Sort, Shaped, DistinctBut, Sorted;
    ShowOrder();
    SortSorted(merged, ShowLe);
    ShapedDims(merged);
    forall d: nat | d < 7 && DistinctBut(merged, d)
      ensures DistinctBut(Sort(merged, ShowLe), d)
    {
      SortKeepsDistinctBut(merged, d);
    }
  }

  lemma WalkStopped(l: Layout, s: PacketSet, opts: EnumOptions, r: Enumeration, visited: nat)
    requires l.Valid() && visited == Min(|Paths(s)|, opts.maxCubes) == r.cubesVisited
    requires r.incomplete <==> visited < |Paths(s)| || Refused(l, Paths(s)[..visited], opts.maskExpandCap) != []
    ensures StoppedExactly(l, s, opts, r)
  {
    hide Layout.Valid, Refused, Paths, Renderable;
    CubeBoxesShaped(l, Paths(s)[..visited], opts.maskExpandCap);
    if visited == |Paths(s)| { assert Paths(s)[..visited] == Paths(s); }
  }

  lemma ListedIs(r: Enumeration, all: seq<Box>, maxRegions: nat)
    requires Sorted(all, ShowLe)
    requires |r.regions| == Min(|all|, maxRegions) && r.regions == all[..|r.regions|]
    requires r.omittedRegions == |all| - |r.regions|
    ensures Listed(r, all, maxRegions)
  {
  }

  // ------------------------------------------------------------ rebuilding

  /** Rebuild a rectangle as a packet set. */
  method RegionSet(l: Layout, box: Box) returns (acc: PacketSet)
    requires l.Valid() && ShapedBox(box, FIELD_WIDTHS)
    ensures forall p: Point :: Has(acc, p) <==> InBox(box, CoordsAt(l, p))
  {
    hide Layout.Valid, FieldValue, Contains;
    acc := Constant(true);
    for k := 0 to 7
      invariant forall p: Point :: Has(acc, p) <==> InBoxUpTo(l, box, p, k)
    {
      ghost var before := acc;
      var dim := SetOf(l, ALL_FIELDS[k], box[k]);
      acc := And(acc, dim);
      forall p: Point
        ensures Has(acc, p) <==> InBoxUpTo(l, box, p, k + 1)
      {
        assert Has(before, p) <==> InBoxUpTo(l, box, p, k);
      }
    }
  }

  ghost predicate InBoxUpTo(l: Layout, box: Box, p: Point, k: nat)
    requires l.Valid() && |box| == 7 && k <= 7
  {
    forall i | 0 <= i < k :: Contains(box[i], CoordsAt(l, p)[i])
  }

  /** When nothing is omitted, rebuilding the rectangles gives back the very diagram. */
  method Rebuild(l: Layout, s: PacketSet, r: Enumeration) returns (acc: PacketSet)
    requires l.Valid() && Balanced(l, s, r)
    ensures r.omittedPackets == 0 <==> acc == s
  {
    hide Layout.Valid, CoordsAt, InBox, ShapedBox, Members, TotalCount;
    acc := Constant(false);
    for k := 0 to |r.regions|
      invariant forall p: Point :: Has(acc, p) <==> Holds(l, r.regions[..k], p)
    {
      ghost var before := acc;
      MemberShaped(r.regions, r.regions[k], FIELD_WIDTHS);
      var piece := RegionSet(l, r.regions[k]);
      acc := Or(acc, piece);
      forall p: Point
        ensures Has(acc, p) <==> Holds(l, r.regions[..k + 1], p)
      {
        assert Has(before, p) <==> Holds(l, r.regions[..k], p);
        HoldsSnoc(l, r.regions, k, p);
      }
    }
    assert r.regions[..|r.regions|] == r.regions;
    CoversIsSame(l, r.regions, s, acc);
  }

  lemma HoldsSnoc(l: Layout, boxes: seq<Box>, k: nat, p: Point)
    requires l.Valid() && k < |boxes|
    ensures Holds(l, boxes[..k + 1], p) <==> Holds(l, boxes[..k], p) || InBox(boxes[k], CoordsAt(l, p))
  {
    var c := CoordsAt(l, p);
    var fewer, more := boxes[..k], boxes[..k + 1];
    if i :| 0 <= i < |fewer| && InBox(fewer[i], c) { assert InBox(more[i], c); }
    if InBox(boxes[k], c) { assert InBox(more[k], c); }
    if i :| 0 <= i < |more| && InBox(more[i], c) {
      if i < k { assert InBox(fewer[i], c); }
    }
  }

  lemma CoversIsSame(l: Layout, boxes: seq<Box>, s: PacketSet, acc: PacketSet)
    requires l.Valid() && Inside(l, boxes, s)
    requires forall p: Point :: Has(acc, p) <==> Holds(l, boxes, p)
    ensures Covers(l, boxes, s) <==> acc == s
  {
    hide Layout.Valid, Holds;
    if Covers(l, boxes, s) {
      forall p: Point
        ensures Has(acc, p) <==> Has(s, p)
      {
        assert Holds(l, boxes, p) ==> Has(s, p);
      }
      SameSet(acc, s);
    }
  }
}
