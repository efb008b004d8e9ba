/** The search of one bounce of the tracer (src/main.cpp:80-113): over every edge of
    every prism, the nearest crossing at least a unit away, with the outward normal
    of the edge it lies on. */
module NearestHit {
  import opened VectorOps
  import opened Scene

  /** The initial `closestDist` (main.cpp:80): hits this far away or further are
      never taken. */
  const FarAway: real := 100000.0

  /** Hits nearer than this to the current position are ignored (main.cpp:93-94). */
  const MinHitDist: real := 1.0

  // ------------------------------------------------------------ one edge

  /** Edge `i` of prism `p` runs from vertex `i` to vertex `(i + 1) % 3`. */
  function EdgeStart(p: Prism, i: nat): Vec2
    requires i < 3
  {
    Vertex(p, i)
  }

  function EdgeEnd(p: Prism, i: nat): Vec2
    requires i < 3
  {
    Vertex(p, (i + 1) % 3)
  }

  /** `rayLineIntersect(currPos, currDir, p1, p2, hit, param)` for edge `i` of `p`.
      `hit` starts at (0, 0), as `sf::Vector2f`'s default constructor sets it; the
      uninitialised `param` starts at zero here. A miss leaves both unread. */
  function Candidate(pos: Vec2, dir: Vec2, p: Prism, i: nat): Crossing
    requires i < 3
  {
    RayLineIntersect(pos, dir, EdgeStart(p, i), EdgeEnd(p, i), Zero(), 0.0)
  }

  /** `len(hit - currPos)` for the candidate hit. */
  function HitDist(pos: Vec2, dir: Vec2, p: Prism, i: nat, sqrt: real -> real): real
    requires i < 3 && IsSqrt(sqrt)
  {
    Len(Sub(Candidate(pos, dir, p, i).hit, pos), sqrt)
  }

  /** The edge is crossed, and not so close that it is the surface just left. */
  predicate Accepted(pos: Vec2, dir: Vec2, p: Prism, i: nat, sqrt: real -> real)
    requires i < 3 && IsSqrt(sqrt)
  {
    Candidate(pos, dir, p, i).found && !(HitDist(pos, dir, p, i, sqrt) < MinHitDist)
  }

  function Midpoint(p: Prism, i: nat): Vec2
    requires i < 3
  {
    Scale(Add(EdgeStart(p, i), EdgeEnd(p, i)), 0.5)
  }

  /** `normal`, flipped when it makes a negative dot product with `offset`
      (main.cpp:104-105), so that it never points against `offset`. */
  function FacingAway(normal: Vec2, offset: Vec2): (f: Vec2)
    ensures f == normal || f == Neg(normal)
    ensures Dot(f, offset) >= 0.0
  {
    DotNeg(normal, offset);
    if Dot(normal, offset) < 0.0 then Neg(normal) else normal
  }

  /** Flipping keeps a unit vector a unit vector. */
  lemma FacingAwayUnit(normal: Vec2, offset: Vec2)
    requires IsUnit(normal)
    ensures IsUnit(FacingAway(normal, offset))
  {
    UnitNeg(normal);
  }

  /** Flipping keeps a vector perpendicular to whatever it was perpendicular to. */
  lemma FacingAwayPerpendicular(normal: Vec2, offset: Vec2, e: Vec2)
    requires Dot(normal, e) == 0.0
    ensures Dot(FacingAway(normal, offset), e) == 0.0
  {
    DotNeg(normal, e);
  }

  lemma UnitNeg(n: Vec2)
    requires IsUnit(n)
    ensures IsUnit(Neg(n))
  {
  }

  /** `norm(Vector2f(-edge.y, edge.x))` for `edge = p2 - p1` (main.cpp:99-100). */
  function QuarterTurnNormal(p: Prism, i: nat, sqrt: real -> real): Vec2
    requires i < 3 && IsSqrt(sqrt)
  {
    var edge := Sub(EdgeEnd(p, i), EdgeStart(p, i));
    Norm(Vec2(-edge.y, edge.x), sqrt)
  }

  /** The normal stored for a hit on edge `i` (main.cpp:99-107): the edge turned a
      quarter and normalised, flipped so that it points outwards, away from the
      prism's centre, as seen from the edge's midpoint. */
  function OutwardNormal(p: Prism, i: nat, sqrt: real -> real): (n: Vec2)
    requires i < 3 && IsSqrt(sqrt)
    ensures n == QuarterTurnNormal(p, i, sqrt) || n == Neg(QuarterTurnNormal(p, i, sqrt))
    ensures Dot(n, Sub(Midpoint(p, i), p.pos)) >= 0.0
  {
    FacingAway(QuarterTurnNormal(p, i, sqrt), Sub(Midpoint(p, i), p.pos))
  }

  /** The stored normal is a unit vector. */
  lemma NormalIsUnit(p: Prism, i: nat, sqrt: real -> real)
    requires i < 3 && IsSqrt(sqrt)
    ensures IsUnit(OutwardNormal(p, i, sqrt))
  {
    var edge := Sub(EdgeEnd(p, i), EdgeStart(p, i));
    NormIsUnit(Vec2(-edge.y, edge.x), sqrt);
    FacingAwayUnit(QuarterTurnNormal(p, i, sqrt), Sub(Midpoint(p, i), p.pos));
  }

  /** Unless the edge is degenerate (shorter than the fallback threshold of `norm`),
      the stored normal is perpendicular to it. */
  lemma NormalPerpendicular(p: Prism, i: nat, sqrt: real -> real)
    requires i < 3 && IsSqrt(sqrt)
    ensures Len(Sub(EdgeEnd(p, i), EdgeStart(p, i)), sqrt) > 0.001 ==>
              Dot(OutwardNormal(p, i, sqrt), Sub(EdgeEnd(p, i), EdgeStart(p, i))) == 0.0
  {
    var edge := Sub(EdgeEnd(p, i), EdgeStart(p, i));
    if Len(edge, sqrt) > 0.001 {
      QuarterTurnPerpendicular(edge, sqrt);
      FacingAwayPerpendicular(QuarterTurnNormal(p, i, sqrt), Sub(Midpoint(p, i), p.pos), edge);
    }
  }

  /** The normalised quarter turn of a vector longer than the fallback threshold is
      perpendicular to it. */
  lemma QuarterTurnPerpendicular(edge: Vec2, sqrt: real -> real)
    requires IsSqrt(sqrt) && Len(edge, sqrt) > 0.001
    ensures Dot(Norm(Vec2(-edge.y, edge.x), sqrt), edge) == 0.0
  {
    var v := Vec2(-edge.y, edge.x);
    LenQuarterTurn(edge, sqrt);
    NormAlong(v, sqrt);
    Perpendicular(edge, Norm(v, sqrt), Len(v, sqrt));
  }

  /** Turning a vector a quarter keeps its length. */
  lemma LenQuarterTurn(v: Vec2, sqrt: real -> real)
    requires IsSqrt(sqrt)
    ensures Len(Vec2(-v.y, v.x), sqrt) == Len(v, sqrt)
  {
    var w := Vec2(-v.y, v.x);
    assert Dot(w, w) == Dot(v, v);
    SquareRootUnique(Len(w, sqrt), Len(v, sqrt));
  }

  /** A positive multiple of the quarter-turned edge is perpendicular to the edge. */
  lemma Perpendicular(edge: Vec2, u: Vec2, l: real)
    requires 0.0 < l && Scale(u, l) == Vec2(-edge.y, edge.x)
    ensures Dot(u, edge) == 0.0
  {
    calc {
      Dot(u, edge) * l;
      (u.x * l) * edge.x + (u.y * l) * edge.y;
      -edge.y * edge.x + edge.x * edge.y;
      0.0;
    }
    MulCancel(Dot(u, edge), 0.0, l);
  }

  // ------------------------------------------------------- nearest hit

  /** What one edge contributes to the search: nothing, or an accepted hit with its
      distance, the hit point and the outward normal. */
  datatype EdgeHit = Miss | EdgeHit(dist: real, point: Vec2, normal: Vec2)

  /** The tests of main.cpp:92-95 for edge `i` of `p`: the edge must be crossed, and
      then the crossing must lie at least `MinHitDist` away. */
  function EdgeHitOf(pos: Vec2, dir: Vec2, p: Prism, i: nat, sqrt: real -> real): EdgeHit
    requires i < 3 && IsSqrt(sqrt)
  {
    var c := Candidate(pos, dir, p, i);
    if !c.found then Miss
    else
      var dist := Len(Sub(c.hit, pos), sqrt);
      if dist < MinHitDist then Miss else EdgeHit(dist, c.hit, OutwardNormal(p, i, sqrt))
  }

  /** An edge contributes a hit exactly when it is accepted, and then at the distance
      of its crossing. */
  lemma EdgeHitOfAccepted(pos: Vec2, dir: Vec2, p: Prism, i: nat, sqrt: real -> real)
    requires i < 3 && IsSqrt(sqrt)
    ensures EdgeHitOf(pos, dir, p, i, sqrt).EdgeHit? <==> Accepted(pos, dir, p, i, sqrt)
    ensures EdgeHitOf(pos, dir, p, i, sqrt).EdgeHit? ==>
              EdgeHitOf(pos, dir, p, i, sqrt).dist == HitDist(pos, dir, p, i, sqrt)
  {
  }

  /** What edge `i` of prism `j` contributes, for every pair of indices. The search
      below is stated over any such table. */
  type HitTable = (nat, nat) -> EdgeHit

  /** The table of the scene `prisms` for the ray at `pos` heading along `dir`. */
  function SceneHits(prisms: seq<Prism>, pos: Vec2, dir: Vec2, sqrt: real -> real): HitTable
    requires IsSqrt(sqrt)
  {
    (j: nat, i: nat) => if j < |prisms| && i < 3 then EdgeHitOf(pos, dir, prisms[j], i, sqrt) else Miss
  }

  /** The locals `closestDist`, `closestHit`, `closestNormal` and `hitFound` of one
      bounce (main.cpp:80-83): `NoHit` while `hitFound` is false (the distance is then
      still the initial one and the point and normal are unread), `Hit` after. */
  datatype Closest = NoHit | Hit(dist: real, hit: Vec2, normal: Vec2)

  /** `closestDist`. */
  function ClosestDist(c: Closest): real {
    if c.NoHit? then FarAway else c.dist
  }

  /** The body of the edge loop (main.cpp:92-111): a strictly nearer accepted hit
      replaces the one kept so far. */
  function Consider(c: Closest, h: EdgeHit): Closest {
    if h.EdgeHit? && h.dist < ClosestDist(c) then Hit(h.dist, h.point, h.normal) else c
  }

  /** The closest-hit locals after the edge loop has looked at the first `i` edges of
      prism `j`, starting from `c`. */
  function EdgeLoop(c: Closest, t: HitTable, j: nat, i: nat): Closest
    requires i <= 3
  {
    if i == 0 then c else Consider(EdgeLoop(c, t, j, i - 1), t(j, i - 1))
  }

  /** The closest-hit locals after the prism loop has looked at the first `j` prisms. */
  function PrismLoop(t: HitTable, j: nat): Closest {
    if j == 0 then NoHit else EdgeLoop(PrismLoop(t, j - 1), t, j - 1, 3)
  }

  /** The closest-hit locals once every edge of every prism has been looked at. */
  function Nearest(prisms: seq<Prism>, pos: Vec2, dir: Vec2, sqrt: real -> real): Closest
    requires IsSqrt(sqrt)
  {
    PrismLoop(SceneHits(prisms, pos, dir, sqrt), |prisms|)
  }

  // ------------------------------------- the search in enumeration order

  /** The `e`-th edge in the order the two loops visit them: edge `e % 3` of prism
      `e / 3`. */
  function EdgeAt(t: HitTable, e: nat): EdgeHit {
    t(e / 3, e % 3)
  }

  /** The closest-hit locals after the first `e` edges in enumeration order. */
  function Scan(t: HitTable, e: nat): Closest {
    if e == 0 then NoHit else Consider(Scan(t, e - 1), EdgeAt(t, e - 1))
  }

  /** The edge loop over prism `j` continues the scan of the edges before it. */
  lemma {:induction false} EdgeLoopScans(t: HitTable, j: nat, i: nat)
    requires i <= 3
    ensures EdgeLoop(Scan(t, 3 * j), t, j, i) == Scan(t, 3 * j + i)
  {
    if i > 0 {
      EdgeLoopScans(t, j, i - 1);
      var e := 3 * j + i - 1;
      assert e / 3 == j && e % 3 == i - 1;
    }
  }

  /** The nested loops visit the edges in enumeration order. */
  lemma {:induction false} PrismLoopScans(t: HitTable, j: nat)
    ensures PrismLoop(t, j) == Scan(t, 3 * j)
  {
    if j > 0 {
      PrismLoopScans(t, j - 1);
      EdgeLoopScans(t, j - 1, 3);
    }
  }

  /** The edge whose hit is kept after the first `e` edges, or -1 if there is none. */
  function Chosen(t: HitTable, e: nat): int {
    if e == 0 then -1
    else if EdgeAt(t, e - 1).EdgeHit? && EdgeAt(t, e - 1).dist < ClosestDist(Scan(t, e - 1)) then e - 1
    else Chosen(t, e - 1)
  }

  /** The kept distance is at most that of every accepted edge seen so far, and
      below the initial one once something is kept. */
  lemma {:induction false} ScanIsMinimal(t: HitTable, e: nat)
    ensures ClosestDist(Scan(t, e)) <= FarAway
    ensures Scan(t, e).Hit? ==> Scan(t, e).dist < FarAway
    ensures forall k :: 0 <= k < e && EdgeAt(t, k).EdgeHit? ==> ClosestDist(Scan(t, e)) <= EdgeAt(t, k).dist
  {
    if e > 0 {
      ScanIsMinimal(t, e - 1);
    }
  }

  /** `c` holds the hit of accepted edge `k`, and no earlier accepted edge is as near. */
  predicate ChosenHit(t: HitTable, k: nat, c: Closest) {
    && EdgeAt(t, k).EdgeHit?
    && c == Hit(EdgeAt(t, k).dist, EdgeAt(t, k).point, EdgeAt(t, k).normal)
    && forall k' :: 0 <= k' < k && EdgeAt(t, k').EdgeHit? ==> EdgeAt(t, k').dist > c.dist
  }

  /** What is kept is the hit of an accepted edge, and of the first one at that
      distance: an earlier accepted edge is strictly further away, so ties go to the
      edge enumerated first. */
  lemma {:induction false} ScanKeepsFirstNearest(t: HitTable, e: nat)
    ensures Scan(t, e).Hit? <==> 0 <= Chosen(t, e)
    ensures Chosen(t, e) < e
    ensures 0 <= Chosen(t, e) ==> ChosenHit(t, Chosen(t, e), Scan(t, e))
  {
    if e > 0 {
      ScanKeepsFirstNearest(t, e - 1);
      ScanIsMinimal(t, e - 1);
    }
  }

  // ------------------------------------------------ the search of a scene

  /** The hit kept for a scene is the first nearest one in enumeration order. */
  lemma NearestIsFirstNearest(prisms: seq<Prism>, pos: Vec2, dir: Vec2, sqrt: real -> real)
    requires IsSqrt(sqrt)
    ensures var t, n := SceneHits(prisms, pos, dir, sqrt), 3 * |prisms|;
      && (Nearest(prisms, pos, dir, sqrt).Hit? <==> 0 <= Chosen(t, n) < n)
      && (0 <= Chosen(t, n) ==> ChosenHit(t, Chosen(t, n), Nearest(prisms, pos, dir, sqrt)))
  {
    var t, n := SceneHits(prisms, pos, dir, sqrt), 3 * |prisms|;
    PrismLoopScans(t, |prisms|);
    ScanKeepsFirstNearest(t, n);
  }

  /** No accepted edge of the scene is nearer than the kept hit. */
  lemma NearestIsMinimal(prisms: seq<Prism>, pos: Vec2, dir: Vec2, sqrt: real -> real, j: nat, i: nat)
    requires IsSqrt(sqrt) && j < |prisms| && i < 3
    requires Accepted(pos, dir, prisms[j], i, sqrt)
    ensures ClosestDist(Nearest(prisms, pos, dir, sqrt)) <= HitDist(pos, dir, prisms[j], i, sqrt)
  {
    var t := SceneHits(prisms, pos, dir, sqrt);
    PrismLoopScans(t, |prisms|);
    ScanIsMinimal(t, 3 * |prisms|);
    var e := 3 * j + i;
    assert e / 3 == j && e % 3 == i;
    assert EdgeAt(t, e) == EdgeHitOf(pos, dir, prisms[j], i, sqrt);
  }

  /** A hit is kept exactly when some edge of the scene is accepted at a distance
      below the initial `closestDist`; an accepted crossing `100000` or more away is
      never kept. */
  lemma NearestHitIff(prisms: seq<Prism>, pos: Vec2, dir: Vec2, sqrt: real -> real)
    requires IsSqrt(sqrt)
    ensures Nearest(prisms, pos, dir, sqrt).Hit? <==>
              exists j, i :: 0 <= j < |prisms| && 0 <= i < 3 && Accepted(pos, dir, prisms[j], i, sqrt)
                             && HitDist(pos, dir, prisms[j], i, sqrt) < FarAway
  {
    var t, n := SceneHits(prisms, pos, dir, sqrt), 3 * |prisms|;
    PrismLoopScans(t, |prisms|);
    if Nearest(prisms, pos, dir, sqrt).Hit? {
      ScanKeepsFirstNearest(t, n);
      ScanIsMinimal(t, n);
      var k := Chosen(t, n);
      var j, i := k / 3, k % 3;
      assert EdgeAt(t, k) == EdgeHitOf(pos, dir, prisms[j], i, sqrt);
      EdgeHitOfAccepted(pos, dir, prisms[j], i, sqrt);
      assert Accepted(pos, dir, prisms[j], i, sqrt) && HitDist(pos, dir, prisms[j], i, sqrt) < FarAway;
    }
    if exists j, i :: 0 <= j < |prisms| && 0 <= i < 3 && Accepted(pos, dir, prisms[j], i, sqrt)
                      && HitDist(pos, dir, prisms[j], i, sqrt) < FarAway {
      var j, i :| 0 <= j < |prisms| && 0 <= i < 3 && Accepted(pos, dir, prisms[j], i, sqrt)
                  && HitDist(pos, dir, prisms[j], i, sqrt) < FarAway;
      NearestIsMinimal(prisms, pos, dir, sqrt, j, i);
    }
  }

  /** A kept hit is at distance in `[1, 100000)` and its normal is a unit vector. */
  lemma NearestInRange(prisms: seq<Prism>, pos: Vec2, dir: Vec2, sqrt: real -> real)
    requires IsSqrt(sqrt)
    ensures Nearest(prisms, pos, dir, sqrt).Hit? ==>
              MinHitDist <= Nearest(prisms, pos, dir, sqrt).dist < FarAway
    ensures Nearest(prisms, pos, dir, sqrt).Hit? ==>
              IsUnit(Nearest(prisms, pos, dir, sqrt).normal)
  {
    var t, n := SceneHits(prisms, pos, dir, sqrt), 3 * |prisms|;
    PrismLoopScans(t, |prisms|);
    ScanKeepsFirstNearest(t, n);
    ScanIsMinimal(t, n);
    var k := Chosen(t, n);
    if 0 <= k {
      var j, i := k / 3, k % 3;
      assert EdgeAt(t, k) == EdgeHitOf(pos, dir, prisms[j], i, sqrt);
      NormalIsUnit(prisms[j], i, sqrt);
    }
  }

  /** With no prism there is nothing to hit. */
  lemma NearestInEmptyScene(pos: Vec2, dir: Vec2, sqrt: real -> real)
    requires IsSqrt(sqrt)
    ensures Nearest([], pos, dir, sqrt) == NoHit
  {
  }

  // ------------------------------------------------------------ the loops

  /** One pass of the edge loop (main.cpp:88-111) for edge `i` of prism `p`, on the
      closest-hit locals `c`. */
  method ConsiderEdge(currPos: Vec2, currDir: Vec2, sqrt: real -> real, p: Prism, i: nat, c: Closest)
    returns (c': Closest)
    requires IsSqrt(sqrt) && i < 3
    ensures c' == Consider(c, EdgeHitOf(currPos, currDir, p, i, sqrt))
  {
    c' := c;
    var p1 := Vertex(p, i);
    var p2 := Vertex(p, (i + 1) % 3);
    var hit := Zero();
    var param := 0.0;
    var crossing := RayLineIntersect(currPos, currDir, p1, p2, hit, param);
    hit, param := crossing.hit, crossing.param;
    if crossing.found {
      if Len(Sub(hit, currPos), sqrt) < MinHitDist {
        return;
      }
      var dist := Len(Sub(hit, currPos), sqrt);
      if dist < ClosestDist(c') {
        c' := Hit(dist, hit, OutwardNormal(p, i, sqrt));
      }
    }
  }

  /** The edge loop (main.cpp:86-112) over the three edges of prism `j`. */
  method ScanPrism(prisms: seq<Prism>, currPos: Vec2, currDir: Vec2, sqrt: real -> real, j: nat, c: Closest)
    returns (c': Closest)
    requires IsSqrt(sqrt) && j < |prisms|
    ensures c' == EdgeLoop(c, SceneHits(prisms, currPos, currDir, sqrt), j, 3)
  {
    ghost var t := SceneHits(prisms, currPos, currDir, sqrt);
    var p := prisms[j];
    c' := c;
    for i := 0 to 3
      invariant c' == EdgeLoop(c, t, j, i)
    {
      assert t(j, i) == EdgeHitOf(currPos, currDir, p, i, sqrt);
      c' := ConsiderEdge(currPos, currDir, sqrt, p, i, c');
    }
  }

  /** The prism and edge loops of one bounce (main.cpp:80-113). */
  method FindNearest(prisms: seq<Prism>, currPos: Vec2, currDir: Vec2, sqrt: real -> real)
    returns (closest: Closest)
    requires IsSqrt(sqrt)
    ensures closest == Nearest(prisms, currPos, currDir, sqrt)
  {
    closest := NoHit;
    for j := 0 to |prisms|
      invariant closest == PrismLoop(SceneHits(prisms, currPos, currDir, sqrt), j)
    {
      closest := ScanPrism(prisms, currPos, currDir, sqrt, j, closest);
    }
  }
}
