// The Sutherland-Hodgman clipping of d3.geom.polygon, with exact coordinates.
module Clip {
  import opened Geometry

  // ---------------------------------------------------------------- one clip edge

  // Negative on the side of the line a, b that clipping keeps.
  function Side(a: Point, b: Point, p: Point): real {
    Cross(a, b, p)
  }

  predicate Inside(p: Point, a: Point, b: Point) {
    (b.x - a.x) * (p.y - a.y) < (b.y - a.y) * (p.x - a.x)
  }

  function Divisor(c: Point, d: Point, a: Point, b: Point): real {
    (b.y - a.y) * (d.x - c.x) - (b.x - a.x) * (d.y - c.y)
  }

  // Where the lines c, d and a, b meet.
  function Intersect(c: Point, d: Point, a: Point, b: Point): Point
    requires Divisor(c, d, a, b) != 0.0
  {
    var ua := ((b.x - a.x) * (c.y - a.y) - (b.y - a.y) * (c.x - a.x)) / Divisor(c, d, a, b);
    Point(c.x + ua * (d.x - c.x), c.y + ua * (d.y - c.y))
  }

  lemma InsideIsNegativeSide(p: Point, a: Point, b: Point)
    ensures Inside(p, a, b) <==> Side(a, b, p) < 0.0
  {
  }

  // The intersection is only taken between points of different sides, where the divisor is not zero.
  lemma DivisorIsSideDifference(c: Point, d: Point, a: Point, b: Point)
    ensures Divisor(c, d, a, b) == Side(a, b, c) - Side(a, b, d)
    ensures Inside(c, a, b) != Inside(d, a, b) ==> Divisor(c, d, a, b) != 0.0
  {
  }

  // What one corner d, coming after c, adds to the clipped ring.
  function Emit(c: Point, d: Point, a: Point, b: Point): seq<Point> {
    DivisorIsSideDifference(c, d, a, b);
    if Inside(d, a, b) then
      if !Inside(c, a, b) then [Intersect(c, d, a, b), d] else [d]
    else if Inside(c, a, b) then [Intersect(c, d, a, b)] else []
  }

  function ClipFrom(c: Point, ds: seq<Point>, a: Point, b: Point): seq<Point>
    decreases |ds|
  {
    if ds == [] then [] else Emit(c, ds[0], a, b) + ClipFrom(ds[0], ds[1..], a, b)
  }

  function ClipEdge(ring: seq<Point>, a: Point, b: Point): seq<Point> {
    if ring == [] then [] else ClipFrom(ring[|ring| - 1], ring, a, b)
  }

  // Edge k of a closed ring ends in corner k.
  function EdgeStart(ring: seq<Point>, k: int): Point
    requires 0 <= k < |ring|
  {
    if k == 0 then ring[|ring| - 1] else ring[k - 1]
  }

  // The ring left after the first n edges of the clip polygon.
  function ClipEdges(ring: seq<Point>, clip: seq<Point>, n: nat): seq<Point>
    requires n <= |clip|
    decreases n
  {
    if n == 0 then ring else ClipEdge(ClipEdges(ring, clip, n - 1), EdgeStart(clip, n - 1), clip[n - 1])
  }

  // ---------------------------------------------------------------- the program

  class Ring {
    var points: seq<Point>
  }

  method ClipRing(clip: seq<Point>, subject: Ring)
    modifies subject
    ensures subject.points == ClipEdges(old(subject.points), clip, |clip|)
  {
    hide Inside, Intersect, Side, Divisor, Cross, Emit, ClipFrom;
    if |clip| == 0 {
      return;
    }
    var i, n := 0, |clip|;
    var a := clip[n - 1];
    while i < n
      invariant 0 <= i <= n
      invariant subject.points == ClipEdges(old(subject.points), clip, i)
      invariant i < n ==> a == EdgeStart(clip, i)
    {
      var b := clip[i];
      ClipRingByEdge(subject, a, b);
      a := b;
      i := i + 1;
    }
  }

  method ClipRingByEdge(subject: Ring, a: Point, b: Point)
    modifies subject
    ensures subject.points == ClipEdge(old(subject.points), a, b)
  {
    hide Inside, Intersect, Side, Divisor, Cross, ClipFrom;
    var input := subject.points;
    subject.points := [];
    var m := |input|;
    if m == 0 {
      return;
    }
    var c := input[m - 1];
    var j := 0;
    while j < m
      invariant 0 <= j <= m
      invariant subject.points + ClipFrom(c, input[j..], a, b) == ClipEdge(input, a, b)
    {
      var d := input[j];
      DivisorIsSideDifference(c, d, a, b);
      ghost var before := subject.points;
      if Inside(d, a, b) {
        if !Inside(c, a, b) {
          subject.points := subject.points + [Intersect(c, d, a, b)];
        }
        subject.points := subject.points + [d];
      } else if Inside(c, a, b) {
        subject.points := subject.points + [Intersect(c, d, a, b)];
      }
      assert subject.points == before + Emit(c, d, a, b);
      ClipFromStep(before, c, input, j, a, b);
      c := d;
      j := j + 1;
    }
    assert input[m..] == [];
    ClipFromNothing(c, a, b);
  }

  lemma ClipFromNothing(c: Point, a: Point, b: Point)
    ensures ClipFrom(c, [], a, b) == []
  {
  }

  lemma ClipFromStep(done: seq<Point>, c: Point, input: seq<Point>, j: nat, a: Point, b: Point)
    requires j < |input|
    ensures done + ClipFrom(c, input[j..], a, b) == done + Emit(c, input[j], a, b) + ClipFrom(input[j], input[j + 1..], a, b)
  {
    hide Emit;
    assert input[j..][0] == input[j] && input[j..][1..] == input[j + 1..];
  }

  // ---------------------------------------------------------------- intersections lie on the edge

  // The share of the way from c to d at which the side turns to zero.
  function Share(c: Point, d: Point, a: Point, b: Point): real
    requires Side(a, b, c) != Side(a, b, d)
  {
    Side(a, b, c) / (Side(a, b, c) - Side(a, b, d))
  }

  function Between(c: Point, d: Point, u: real): Point {
    Point(c.x + u * (d.x - c.x), c.y + u * (d.y - c.y))
  }

  lemma CrossBetween(s: Point, t: Point, c: Point, d: Point, u: real)
    ensures Cross(s, t, Between(c, d, u)) == Cross(s, t, c) + u * (Cross(s, t, d) - Cross(s, t, c))
  {
    var p := Between(c, d, u);
    assert 1.0 * p.x == (1.0 - u) * c.x + u * d.x + 0.0 * c.x;
    assert 1.0 * p.y == (1.0 - u) * c.y + u * d.y + 0.0 * c.y;
    AffineCombination(1.0, 1.0 - u, u, 0.0, s, t, c, d, c, p);
  }

  lemma IntersectIsBetween(c: Point, d: Point, a: Point, b: Point)
    requires Inside(c, a, b) != Inside(d, a, b)
    ensures Divisor(c, d, a, b) != 0.0 && Side(a, b, c) != Side(a, b, d)
    ensures Intersect(c, d, a, b) == Between(c, d, Share(c, d, a, b))
    ensures 0.0 <= Share(c, d, a, b) <= 1.0
    ensures Inside(c, a, b) ==> 0.0 < Share(c, d, a, b)
    ensures Inside(d, a, b) ==> Share(c, d, a, b) < 1.0
    ensures Side(a, b, Intersect(c, d, a, b)) == 0.0
  {
    DivisorIsSideDifference(c, d, a, b);
    InsideIsNegativeSide(c, a, b);
    InsideIsNegativeSide(d, a, b);
    ShareIsProper(Side(a, b, c), Side(a, b, d), Share(c, d, a, b));
    CrossBetween(a, b, c, d, Share(c, d, a, b));
  }

  lemma ShareIsProper(sc: real, sd: real, u: real)
    requires sc != sd && u == sc / (sc - sd)
    requires sc < 0.0 <= sd || sd < 0.0 <= sc
    ensures 0.0 <= u <= 1.0
    ensures sc < 0.0 ==> 0.0 < u
    ensures sd < 0.0 ==> u < 1.0
    ensures sc + u * (sd - sc) == 0.0
  {
    if sc < 0.0 {
      Ratio(-sc, sd - sc, u);
    } else {
      Ratio(sc, sc - sd, u);
    }
  }

  lemma Ratio(n: real, d: real, u: real)
    requires 0.0 <= n <= d && 0.0 < d && u * d == n
    ensures 0.0 <= u <= 1.0 && (0.0 < n ==> 0.0 < u) && (n < d ==> u < 1.0)
  {
    assert u < 0.0 ==> u * d < 0.0;
    assert u > 1.0 ==> u * d > d;
  }

  // ---------------------------------------------------------------- half-planes: the clip edges and the hull

  // The points p with a * p.x + b * p.y <= c.
  datatype HalfPlane = HalfPlane(a: real, b: real, c: real)

  predicate Holds(h: HalfPlane, p: Point) {
    h.a * p.x + h.b * p.y <= h.c
  }

  ghost predicate AllHold(h: HalfPlane, ps: seq<Point>) {
    forall k :: 0 <= k < |ps| ==> Holds(h, ps[k])
  }

  function EdgePlane(a: Point, b: Point): HalfPlane {
    HalfPlane(a.y - b.y, b.x - a.x, (a.y - b.y) * a.x + (b.x - a.x) * a.y)
  }

  lemma EdgePlaneIsSide(a: Point, b: Point, p: Point)
    ensures Holds(EdgePlane(a, b), p) <==> Side(a, b, p) <= 0.0
  {
  }

  lemma BetweenHolds(h: HalfPlane, c: Point, d: Point, u: real)
    requires Holds(h, c) && Holds(h, d) && 0.0 <= u <= 1.0
    ensures Holds(h, Between(c, d, u))
  {
    Mix(h.a * c.x + h.b * c.y, h.a * d.x + h.b * d.y, h.c, u);
    var p := Between(c, d, u);
    assert h.a * p.x + h.b * p.y == (1.0 - u) * (h.a * c.x + h.b * c.y) + u * (h.a * d.x + h.b * d.y);
  }

  lemma Mix(v: real, w: real, bound: real, u: real)
    requires v <= bound && w <= bound && 0.0 <= u <= 1.0
    ensures (1.0 - u) * v + u * w <= bound
  {
    assert (1.0 - u) * v <= (1.0 - u) * bound;
    assert u * w <= u * bound;
  }

  // A half-plane that holds the corners before clipping holds them after: no corner leaves the
  // convex hull, and a clip edge once satisfied stays satisfied.
  lemma {:induction false} ClipFromHolds(h: HalfPlane, c: Point, ds: seq<Point>, a: Point, b: Point)
    requires Holds(h, c) && AllHold(h, ds)
    ensures AllHold(h, ClipFrom(c, ds, a, b))
    decreases |ds|
  {
    hide Holds, Inside, Intersect, Divisor, Side, Cross;
    if ds != [] {
      var d := ds[0];
      if Inside(c, a, b) != Inside(d, a, b) {
        IntersectIsBetween(c, d, a, b);
        BetweenHolds(h, c, d, Share(c, d, a, b));
      }
      assert AllHold(h, Emit(c, d, a, b));
      ClipFromHolds(h, d, ds[1..], a, b);
    }
  }

  lemma {:induction false} ClipFromIsOnSide(c: Point, ds: seq<Point>, a: Point, b: Point)
    ensures AllHold(EdgePlane(a, b), ClipFrom(c, ds, a, b))
    decreases |ds|
  {
    hide Holds, Inside, Intersect, Divisor, Side, Cross, EdgePlane;
    if ds != [] {
      var d := ds[0];
      if Inside(c, a, b) != Inside(d, a, b) {
        IntersectIsBetween(c, d, a, b);
        EdgePlaneIsSide(a, b, Intersect(c, d, a, b));
      }
      EdgePlaneIsSide(a, b, d);
      InsideIsNegativeSide(d, a, b);
      assert AllHold(EdgePlane(a, b), Emit(c, d, a, b));
      ClipFromIsOnSide(d, ds[1..], a, b);
    }
  }

  // Every corner of the clipped ring lies in the convex hull of the original ring.
  lemma {:induction false} ClippedInConvexHull(h: HalfPlane, ring: seq<Point>, clip: seq<Point>, n: nat)
    requires n <= |clip| && AllHold(h, ring)
    ensures AllHold(h, ClipEdges(ring, clip, n))
    decreases n
  {
    hide Holds, ClipFrom;
    if n > 0 {
      ClippedInConvexHull(h, ring, clip, n - 1);
      var before, a, b := ClipEdges(ring, clip, n - 1), EdgeStart(clip, n - 1), clip[n - 1];
      if before != [] {
        ClipFromHolds(h, before[|before| - 1], before, a, b);
      }
    }
  }

  // Every corner of the clipped ring is on the kept side, or on the line, of every clip edge.
  lemma {:induction false} ClippedSatisfiesEveryEdge(ring: seq<Point>, clip: seq<Point>, n: nat, k: nat)
    requires k < n <= |clip|
    ensures AllHold(EdgePlane(EdgeStart(clip, k), clip[k]), ClipEdges(ring, clip, n))
    decreases n
  {
    hide Holds, ClipFrom, EdgePlane;
    var before, a, b := ClipEdges(ring, clip, n - 1), EdgeStart(clip, n - 1), clip[n - 1];
    if before != [] {
      if k == n - 1 {
        ClipFromIsOnSide(before[|before| - 1], before, a, b);
      } else {
        ClippedSatisfiesEveryEdge(ring, clip, n - 1, k);
        ClipFromHolds(EdgePlane(EdgeStart(clip, k), clip[k]), before[|before| - 1], before, a, b);
      }
    }
  }

  // ---------------------------------------------------------------- corners strictly inside

  ghost predicate InsideAll(clip: seq<Point>, n: nat, p: Point)
    requires n <= |clip|
  {
    forall k :: 0 <= k < n ==> Inside(p, EdgeStart(clip, k), clip[k])
  }

  ghost function Interior(ps: seq<Point>, clip: seq<Point>, n: nat): seq<Point>
    requires n <= |clip|
  {
    if ps == [] then [] else (if InsideAll(clip, n, ps[0]) then [ps[0]] else []) + Interior(ps[1..], clip, n)
  }

  lemma {:induction false} InteriorConcat(ps: seq<Point>, qs: seq<Point>, clip: seq<Point>, n: nat)
    requires n <= |clip|
    ensures Interior(ps + qs, clip, n) == Interior(ps, clip, n) + Interior(qs, clip, n)
    decreases |ps|
  {
    hide InsideAll;
    if ps == [] {
      assert ps + qs == qs;
      assert [] + Interior(qs, clip, n) == Interior(qs, clip, n);
    } else {
      var first := if InsideAll(clip, n, ps[0]) then [ps[0]] else [];
      InteriorOfFirst(ps, clip, n);
      InteriorOfFirst(ps + qs, clip, n);
      assert (ps + qs)[0] == ps[0] && (ps + qs)[1..] == ps[1..] + qs;
      hide Interior;
      InteriorConcat(ps[1..], qs, clip, n);
      assert first + (Interior(ps[1..], clip, n) + Interior(qs, clip, n)) == first + Interior(ps[1..], clip, n) + Interior(qs, clip, n);
    }
  }

  lemma InteriorOfFirst(ps: seq<Point>, clip: seq<Point>, n: nat)
    requires n <= |clip| && ps != []
    ensures Interior(ps, clip, n) == (if InsideAll(clip, n, ps[0]) then [ps[0]] else []) + Interior(ps[1..], clip, n)
  {
  }

  lemma {:induction false} ClipFromKeepsInterior(c: Point, ds: seq<Point>, clip: seq<Point>, n: nat, k: nat)
    requires k < n <= |clip|
    ensures Interior(ClipFrom(c, ds, EdgeStart(clip, k), clip[k]), clip, n) == Interior(ds, clip, n)
    decreases |ds|
  {
    hide Inside, Intersect, Divisor, Side, Cross;
    if ds != [] {
      var d, a, b := ds[0], EdgeStart(clip, k), clip[k];
      ClipFromKeepsInterior(d, ds[1..], clip, n, k);
      InteriorConcat(Emit(c, d, a, b), ClipFrom(d, ds[1..], a, b), clip, n);
      if Inside(c, a, b) != Inside(d, a, b) {
        IntersectIsBetween(c, d, a, b);
        var p := Intersect(c, d, a, b);
        InsideIsNegativeSide(p, a, b);
        assert !InsideAll(clip, n, p);
        assert Interior([p], clip, n) == [] && ([p, d])[1..] == [d];
      }
      assert Interior([d], clip, n) == if InsideAll(clip, n, d) then [d] else [];
    }
  }

  // The corners strictly inside the clip polygon are exactly the original ones, in order.
  lemma {:induction false} ClippedKeepsInterior(ring: seq<Point>, clip: seq<Point>, n: nat)
    requires n <= |clip|
    ensures Interior(ClipEdges(ring, clip, n), clip, |clip|) == Interior(ring, clip, |clip|)
    decreases n
  {
    hide Interior, ClipFrom;
    if n > 0 {
      ClippedKeepsInterior(ring, clip, n - 1);
      var before := ClipEdges(ring, clip, n - 1);
      if before != [] {
        ClipFromKeepsInterior(before[|before| - 1], before, clip, |clip|, n - 1);
      }
    }
  }
}
