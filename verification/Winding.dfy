// Clipping seen as an operation on regions: the winding number of a ring around a point.
module Winding {
  import opened Geometry
  import opened Clip

  // x lies on the closed segment c, d.
  ghost predicate OnSegment(x: Point, c: Point, d: Point) {
    Cross(x, c, d) == 0.0 && Dot(x, c, d) <= 0.0
  }

  function Dot(x: Point, c: Point, d: Point): real {
    (c.x - x.x) * (d.x - x.x) + (c.y - x.y) * (d.y - x.y)
  }

  // How the step from c to d crosses the ray from x through r: 1 counter-clockwise, -1 clockwise.
  function Crossing(x: Point, r: Point, c: Point, d: Point): int {
    if Cross(x, r, c) < 0.0 <= Cross(x, r, d) && Cross(x, c, d) > 0.0 then 1
    else if Cross(x, r, d) < 0.0 <= Cross(x, r, c) && Cross(x, c, d) < 0.0 then -1
    else 0
  }

  function PathWinding(x: Point, r: Point, c: Point, ds: seq<Point>): int
    decreases |ds|
  {
    if ds == [] then 0 else Crossing(x, r, c, ds[0]) + PathWinding(x, r, ds[0], ds[1..])
  }

  // The winding number of a closed ring around x, counted on the ray through r.
  function WindingNumber(x: Point, r: Point, ring: seq<Point>): int {
    if ring == [] then 0 else PathWinding(x, r, ring[|ring| - 1], ring)
  }

  ghost predicate PathAvoids(x: Point, c: Point, ds: seq<Point>)
    decreases |ds|
  {
    ds != [] ==> !OnSegment(x, c, ds[0]) && PathAvoids(x, ds[0], ds[1..])
  }

  ghost predicate RingAvoids(x: Point, ring: seq<Point>) {
    ring != [] ==> PathAvoids(x, ring[|ring| - 1], ring)
  }

  // ---------------------------------------------------------------- the ray does not matter

  // 1 for the points in the sector swept from the ray through r up to the ray through s.
  function InSector(x: Point, r: Point, s: Point, p: Point): int {
    if Cross(x, r, p) >= 0.0 && Cross(x, s, p) < 0.0 then 1 else 0
  }

  lemma ProductSign(a: real, b: real, p: real)
    requires p == a * b
    ensures (a > 0.0 && b > 0.0) || (a < 0.0 && b < 0.0) ==> p > 0.0
    ensures (a > 0.0 && b < 0.0) || (a < 0.0 && b > 0.0) ==> p < 0.0
    ensures a == 0.0 || b == 0.0 ==> p == 0.0
  {
  }

  function CrossingBySigns(rc: real, rd: real, cd: real): int {
    if rc < 0.0 <= rd && cd > 0.0 then 1 else if rd < 0.0 <= rc && cd < 0.0 then -1 else 0
  }

  function SectorBySigns(rp: real, sp: real): int {
    if rp >= 0.0 && sp < 0.0 then 1 else 0
  }

  lemma SectorSigns(rs: real, rc: real, rd: real, sc: real, sd: real, cd: real)
    requires rs > 0.0 && cd != 0.0 && rs * cd == rc * sd - rd * sc
    ensures CrossingBySigns(rc, rd, cd) - CrossingBySigns(sc, sd, cd) == SectorBySigns(rd, sd) - SectorBySigns(rc, sc)
  {
    var p, q := rc * sd, rd * sc;
    ProductSign(rc, sd, p);
    ProductSign(rd, sc, q);
    ProductSign(rs, cd, p - q);
  }

  // Two points on one ray from x lie on the same side of every other ray.
  lemma SameRay(x: Point, c: Point, d: Point, p: Point)
    requires Cross(x, c, d) == 0.0 && Dot(x, c, d) > 0.0
    ensures Cross(x, p, c) < 0.0 <==> Cross(x, p, d) < 0.0
  {
    var k, dd := Dot(x, c, d), Dot(x, d, d);
    assert dd * Cross(x, p, c) == k * Cross(x, p, d) + Cross(x, c, d) * Dot(x, p, d);
    SquaresAreNotNegative(d.x - x.x, d.y - x.y, dd);
    if dd == 0.0 {
      NoLength(x, c, d);
      assert false;
    }
    ProductSign(dd, Cross(x, p, c), dd * Cross(x, p, c));
    ProductSign(k, Cross(x, p, d), dd * Cross(x, p, c));
  }

  lemma SquaresAreNotNegative(a: real, b: real, s: real)
    requires s == a * a + b * b
    ensures s >= 0.0 && (s == 0.0 ==> a == 0.0 && b == 0.0)
  {
    ProductSign(a, a, a * a);
    ProductSign(b, b, b * b);
  }

  lemma NoLength(x: Point, c: Point, d: Point)
    requires Dot(x, d, d) == 0.0
    ensures Dot(x, c, d) == 0.0
  {
    SquaresAreNotNegative(d.x - x.x, d.y - x.y, Dot(x, d, d));
  }

  lemma StepShift(x: Point, r: Point, s: Point, c: Point, d: Point)
    requires Cross(x, r, s) > 0.0 && !OnSegment(x, c, d)
    ensures Crossing(x, r, c, d) - Crossing(x, s, c, d) == InSector(x, r, s, d) - InSector(x, r, s, c)
  {
    hide Cross, Dot;
    if Cross(x, c, d) == 0.0 {
      SameRay(x, c, d, r);
      SameRay(x, c, d, s);
    } else {
      Pluecker(x, r, s, c, d);
      SectorSigns(Cross(x, r, s), Cross(x, r, c), Cross(x, r, d), Cross(x, s, c), Cross(x, s, d), Cross(x, c, d));
    }
  }

  function LastOf(c: Point, ds: seq<Point>): Point {
    if ds == [] then c else ds[|ds| - 1]
  }

  lemma {:induction false} PathShift(x: Point, r: Point, s: Point, c: Point, ds: seq<Point>)
    requires Cross(x, r, s) > 0.0 && PathAvoids(x, c, ds)
    ensures PathWinding(x, r, c, ds) - PathWinding(x, s, c, ds) == InSector(x, r, s, LastOf(c, ds)) - InSector(x, r, s, c)
    decreases |ds|
  {
    hide Cross, Crossing, InSector, OnSegment;
    if ds != [] {
      StepShift(x, r, s, c, ds[0]);
      PathShift(x, r, s, ds[0], ds[1..]);
    }
  }

  // Seen from a point off the ring, all rays count the same winding number.
  lemma AnyRayCountsTheSame(x: Point, r: Point, s: Point, ring: seq<Point>)
    requires r != x && s != x && RingAvoids(x, ring)
    ensures WindingNumber(x, r, ring) == WindingNumber(x, s, ring)
  {
    hide Cross, InSector, PathWinding, PathAvoids;
    if ring != [] {
      var c := ring[|ring| - 1];
      if Cross(x, r, s) > 0.0 {
        PathShift(x, r, s, c, ring);
      } else if Cross(x, r, s) < 0.0 {
        CrossCyclic(x, s, r);
        PathShift(x, s, r, c, ring);
      } else {
        var t := QuarterTurn(x, r);
        QuarterTurnSplits(x, r, s);
        PathShift(x, r, t, c, ring);
        if Cross(x, s, t) > 0.0 {
          PathShift(x, s, t, c, ring);
        } else {
          CrossCyclic(x, t, s);
          PathShift(x, t, s, c, ring);
        }
      }
    }
  }

  function QuarterTurn(x: Point, r: Point): Point {
    Point(x.x - (r.y - x.y), x.y + (r.x - x.x))
  }

  lemma CrossQuarterTurn(x: Point, r: Point, s: Point)
    ensures Cross(x, s, QuarterTurn(x, r)) == Dot(x, r, s)
  {
  }

  lemma QuarterTurnSplits(x: Point, r: Point, s: Point)
    requires r != x && s != x && Cross(x, r, s) == 0.0
    ensures Cross(x, r, QuarterTurn(x, r)) > 0.0
    ensures Cross(x, s, QuarterTurn(x, r)) != 0.0
  {
    var t, rr, ss, rs := QuarterTurn(x, r), Dot(x, r, r), Dot(x, s, s), Dot(x, r, s);
    CrossQuarterTurn(x, r, r);
    CrossQuarterTurn(x, r, s);
    SquaresAreNotNegative(r.x - x.x, r.y - x.y, rr);
    SquaresAreNotNegative(s.x - x.x, s.y - x.y, ss);
    assert rr * ss == rs * rs + Cross(x, r, s) * Cross(x, r, s);
    ProductSign(rr, ss, rr * ss);
    ProductSign(rs, rs, rs * rs);
  }

  // ---------------------------------------------------------------- one clip edge

  // The ray used for the clip edge a, b: from x, in the direction of the edge.
  function Along(x: Point, a: Point, b: Point): Point {
    Point(x.x + (b.x - a.x), x.y + (b.y - a.y))
  }

  lemma CrossAlong(x: Point, a: Point, b: Point, p: Point)
    ensures Cross(x, Along(x, a, b), p) == Side(a, b, p) - Side(a, b, x)
  {
  }

  // e is where the pen of the clipped ring stands when the original ring has reached c.
  ghost predicate PenAt(a: Point, b: Point, c: Point, e: Point) {
    if Inside(c, a, b) then e == c else Side(a, b, e) == 0.0
  }

  lemma CrossToEnd(x: Point, c: Point, d: Point, u: real)
    ensures Cross(x, Between(c, d, u), d) == (1.0 - u) * Cross(x, c, d)
    ensures Cross(x, c, Between(c, d, u)) == u * Cross(x, c, d)
  {
    hide Between;
    var p := Between(c, d, u);
    CrossBetween(d, x, c, d, u);
    CrossBetween(x, c, c, d, u);
    CrossCyclic(x, p, d);
    CrossCyclic(x, c, d);
    assert Cross(d, x, d) == 0.0 && Cross(x, c, c) == 0.0;
  }

  lemma DotToEnd(x: Point, c: Point, d: Point, u: real)
    ensures Dot(x, Between(c, d, u), d) == (1.0 - u) * Dot(x, c, d) + u * Dot(x, d, d)
    ensures Dot(x, c, Between(c, d, u)) == (1.0 - u) * Dot(x, c, c) + u * Dot(x, c, d)
  {
    hide Dot, Between;
    DotBetween(x, c, d, u, d);
    DotBetween(x, c, d, u, c);
    DotSymmetric(x, c, d);
    DotSymmetric(x, c, Between(c, d, u));
  }

  lemma DotSymmetric(x: Point, c: Point, d: Point)
    ensures Dot(x, c, d) == Dot(x, d, c)
  {
  }

  lemma DotBetween(x: Point, c: Point, d: Point, u: real, q: Point)
    ensures Dot(x, Between(c, d, u), q) == (1.0 - u) * Dot(x, c, q) + u * Dot(x, d, q)
  {
    var qx, qy := q.x - x.x, q.y - x.y;
    DotAffine(x, c, q, qx, qy);
    DotAffine(x, d, q, qx, qy);
    DotAffine(x, Between(c, d, u), q, qx, qy);
    AffineMix(qx, qy, -(x.x * qx) - x.y * qy, c.x, c.y, d.x, d.y, u);
  }

  lemma DotAffine(x: Point, p: Point, q: Point, qx: real, qy: real)
    requires qx == q.x - x.x && qy == q.y - x.y
    ensures Dot(x, p, q) == p.x * qx + p.y * qy + (-(x.x * qx) - x.y * qy)
  {
  }

  lemma AffineMix(qx: real, qy: real, k: real, cx: real, cy: real, dx: real, dy: real, u: real)
    ensures (cx + u * (dx - cx)) * qx + (cy + u * (dy - cy)) * qy + k
         == (1.0 - u) * (cx * qx + cy * qy + k) + u * (dx * qx + dy * qy + k)
  {
  }

  // Cutting a step short at a point strictly between does not put x on it.
  lemma PartAvoids(x: Point, c: Point, d: Point, u: real)
    requires !OnSegment(x, c, d) && 0.0 <= u <= 1.0
    ensures u < 1.0 ==> !OnSegment(x, Between(c, d, u), d)
    ensures u > 0.0 ==> !OnSegment(x, c, Between(c, d, u))
  {
    hide Cross, Dot, Between;
    CrossToEnd(x, c, d, u);
    DotToEnd(x, c, d, u);
    ProductSign(1.0 - u, Cross(x, c, d), (1.0 - u) * Cross(x, c, d));
    ProductSign(u, Cross(x, c, d), u * Cross(x, c, d));
    DotNotNegative(x, c);
    DotNotNegative(x, d);
    ProductSign(1.0 - u, Dot(x, c, d), (1.0 - u) * Dot(x, c, d));
    ProductSign(u, Dot(x, c, d), u * Dot(x, c, d));
    ProductSign(u, Dot(x, d, d), u * Dot(x, d, d));
    ProductSign(1.0 - u, Dot(x, c, c), (1.0 - u) * Dot(x, c, c));
  }

  lemma DotNotNegative(x: Point, c: Point)
    ensures Dot(x, c, c) >= 0.0
  {
    SquaresAreNotNegative(c.x - x.x, c.y - x.y, Dot(x, c, c));
  }

  // Two points strictly on one side of a line through x do not have x between them.
  lemma OneSideAvoids(x: Point, r: Point, p: Point, q: Point)
    requires (Cross(x, r, p) > 0.0 && Cross(x, r, q) > 0.0) || (Cross(x, r, p) < 0.0 && Cross(x, r, q) < 0.0)
    ensures !OnSegment(x, p, q)
  {
    if Cross(x, p, q) == 0.0 {
      var rr, pq := Dot(x, r, r), Dot(x, p, q);
      var dp, dq, cp, cq := Dot(x, r, p), Dot(x, r, q), Cross(x, r, p), Cross(x, r, q);
      assert rr * pq == dp * dq + cp * cq;
      assert rr * Cross(x, p, q) == dp * cq - cp * dq;
      DotNotNegative(x, r);
      OneSideSigns(rr, pq, dp, dq, cp, cq);
    }
  }

  lemma OneSideSigns(rr: real, pq: real, dp: real, dq: real, cp: real, cq: real)
    requires rr >= 0.0 && rr * pq == dp * dq + cp * cq && dp * cq == cp * dq
    requires (cp > 0.0 && cq > 0.0) || (cp < 0.0 && cq < 0.0)
    ensures pq > 0.0
  {
    var m, n := dp * dq, cp * cq;
    assert m * n == (dp * cq) * (cp * dq);
    SameProduct(dp * cq, cp * dq, m * n);
    ProductSign(cp, cq, n);
    ProductSign(m, n, m * n);
    ProductSign(rr, pq, m + n);
  }

  lemma SameProduct(a: real, b: real, p: real)
    requires a == b && p == a * b
    ensures p >= 0.0
  {
    ProductSign(a, b, p);
  }

  lemma EnterStep(x: Point, a: Point, b: Point, c: Point, d: Point)
    requires Side(a, b, x) < 0.0 && !OnSegment(x, c, d) && !Inside(c, a, b) && Inside(d, a, b)
    ensures Divisor(c, d, a, b) != 0.0
    ensures Crossing(x, Along(x, a, b), Intersect(c, d, a, b), d) == Crossing(x, Along(x, a, b), c, d)
    ensures !OnSegment(x, Intersect(c, d, a, b), d)
  {
    hide Cross, Dot, Between, Divisor, Intersect, Side, Share, Inside, Along;
    IntersectIsBetween(c, d, a, b);
    var u, p := Share(c, d, a, b), Intersect(c, d, a, b);
    PartAvoids(x, c, d, u);
    CrossAlong(x, a, b, p);
    CrossAlong(x, a, b, c);
    InsideIsNegativeSide(c, a, b);
    CrossToEnd(x, c, d, u);
    ProductSign(1.0 - u, Cross(x, c, d), Cross(x, p, d));
  }

  lemma ExitStep(x: Point, a: Point, b: Point, c: Point, d: Point)
    requires Side(a, b, x) < 0.0 && !OnSegment(x, c, d) && Inside(c, a, b) && !Inside(d, a, b)
    ensures Divisor(c, d, a, b) != 0.0
    ensures Crossing(x, Along(x, a, b), c, Intersect(c, d, a, b)) == Crossing(x, Along(x, a, b), c, d)
    ensures !OnSegment(x, c, Intersect(c, d, a, b))
  {
    hide Cross, Dot, Between, Divisor, Intersect, Side, Share, Inside, Along;
    IntersectIsBetween(c, d, a, b);
    var u, p := Share(c, d, a, b), Intersect(c, d, a, b);
    PartAvoids(x, c, d, u);
    CrossAlong(x, a, b, p);
    CrossAlong(x, a, b, d);
    InsideIsNegativeSide(d, a, b);
    CrossToEnd(x, c, d, u);
    ProductSign(u, Cross(x, c, d), Cross(x, c, p));
  }

  // One corner of the original ring is crossed by the clipped ring in the same way.
  lemma EmitKeepsCrossing(x: Point, a: Point, b: Point, c: Point, d: Point, e: Point)
    requires Side(a, b, x) < 0.0 && !OnSegment(x, c, d) && PenAt(a, b, c, e)
    ensures PathWinding(x, Along(x, a, b), e, Emit(c, d, a, b)) == Crossing(x, Along(x, a, b), c, d)
    ensures PathAvoids(x, e, Emit(c, d, a, b)) && PenAt(a, b, d, LastOf(e, Emit(c, d, a, b)))
  {
    hide Cross, Dot, Divisor, Intersect, Side, Inside, Along;
    var r := Along(x, a, b);
    CrossAlong(x, a, b, e);
    CrossAlong(x, a, b, c);
    CrossAlong(x, a, b, d);
    InsideIsNegativeSide(c, a, b);
    InsideIsNegativeSide(d, a, b);
    if Inside(d, a, b) {
      if !Inside(c, a, b) {
        EnterStep(x, a, b, c, d);
        var p := Intersect(c, d, a, b);
        IntersectIsBetween(c, d, a, b);
        CrossAlong(x, a, b, p);
        OneSideAvoids(x, r, e, p);
        assert Emit(c, d, a, b) == [p, d];
        assert PathWinding(x, r, p, [d]) == Crossing(x, r, p, d) + PathWinding(x, r, d, []);
        assert [p, d][1..] == [d];
        assert PathAvoids(x, p, [d]);
      }
    } else if Inside(c, a, b) {
      ExitStep(x, a, b, c, d);
      IntersectIsBetween(c, d, a, b);
    }
  }

  lemma {:induction false} PathConcat(x: Point, r: Point, e: Point, ps: seq<Point>, qs: seq<Point>)
    ensures PathWinding(x, r, e, ps + qs) == PathWinding(x, r, e, ps) + PathWinding(x, r, LastOf(e, ps), qs)
    ensures PathAvoids(x, e, ps + qs) <==> PathAvoids(x, e, ps) && PathAvoids(x, LastOf(e, ps), qs)
    ensures LastOf(e, ps + qs) == LastOf(LastOf(e, ps), qs)
    decreases |ps|
  {
    hide Crossing, OnSegment;
    if ps == [] {
      assert ps + qs == qs;
    } else {
      assert (ps + qs)[0] == ps[0] && (ps + qs)[1..] == ps[1..] + qs;
      PathConcat(x, r, ps[0], ps[1..], qs);
    }
  }

  lemma {:induction false} ClipFromKeepsWinding(x: Point, a: Point, b: Point, c: Point, ds: seq<Point>, e: Point)
    requires Side(a, b, x) < 0.0 && PathAvoids(x, c, ds) && PenAt(a, b, c, e)
    ensures PathWinding(x, Along(x, a, b), e, ClipFrom(c, ds, a, b)) == PathWinding(x, Along(x, a, b), c, ds)
    ensures PathAvoids(x, e, ClipFrom(c, ds, a, b))
    ensures PenAt(a, b, LastOf(c, ds), LastOf(e, ClipFrom(c, ds, a, b)))
    decreases |ds|
  {
    hide Crossing, OnSegment, Side, Inside, PenAt, Emit, Along;
    if ds != [] {
      var d, now := ds[0], Emit(c, ds[0], a, b);
      EmitKeepsCrossing(x, a, b, c, d, e);
      ClipFromKeepsWinding(x, a, b, d, ds[1..], LastOf(e, now));
      PathConcat(x, Along(x, a, b), e, now, ClipFrom(d, ds[1..], a, b));
    }
  }

  lemma ClipEdgeKeepsWinding(x: Point, a: Point, b: Point, ring: seq<Point>)
    requires Side(a, b, x) < 0.0 && RingAvoids(x, ring)
    ensures RingAvoids(x, ClipEdge(ring, a, b))
    ensures WindingNumber(x, Along(x, a, b), ClipEdge(ring, a, b)) == WindingNumber(x, Along(x, a, b), ring)
  {
    hide Side, Inside, Along, PathWinding, PathAvoids, ClipFrom;
    if ring != [] {
      var c, out := ring[|ring| - 1], ClipEdge(ring, a, b);
      OnOwnLine(a, b);
      var e := if Inside(c, a, b) then c else a;
      ClipFromKeepsWinding(x, a, b, c, ring, e);
      if out == [] {
        PathNothing(x, Along(x, a, b), e);
      } else {
        ClipFromKeepsWinding(x, a, b, c, ring, out[|out| - 1]);
      }
    }
  }

  lemma OnOwnLine(a: Point, b: Point)
    ensures Side(a, b, a) == 0.0
  {
  }

  lemma PathNothing(x: Point, r: Point, e: Point)
    ensures PathWinding(x, r, e, []) == 0
  {
  }

  // ---------------------------------------------------------------- the region a clipped ring winds around

  lemma AlongIsARay(x: Point, a: Point, b: Point)
    requires Side(a, b, x) != 0.0
    ensures Along(x, a, b) != x
  {
    assert Along(x, a, b) == x ==> a == b;
    assert a == b ==> Side(a, b, x) == 0.0;
  }

  // Strictly inside every clip edge, the clipped ring winds around x exactly as the original did.
  lemma {:induction false} ClippedWindsAlikeInside(x: Point, r: Point, ring: seq<Point>, clip: seq<Point>, n: nat)
    requires n <= |clip| && r != x && RingAvoids(x, ring) && InsideAll(clip, n, x)
    ensures RingAvoids(x, ClipEdges(ring, clip, n))
    ensures WindingNumber(x, r, ClipEdges(ring, clip, n)) == WindingNumber(x, r, ring)
    decreases n
  {
    hide Side, Inside, Along, WindingNumber, RingAvoids, ClipEdge;
    if n > 0 {
      var a, b, before := EdgeStart(clip, n - 1), clip[n - 1], ClipEdges(ring, clip, n - 1);
      ClippedWindsAlikeInside(x, r, ring, clip, n - 1);
      InsideIsNegativeSide(x, a, b);
      AlongIsARay(x, a, b);
      ClipEdgeKeepsWinding(x, a, b, before);
      AnyRayCountsTheSame(x, r, Along(x, a, b), before);
      AnyRayCountsTheSame(x, r, Along(x, a, b), ClipEdge(before, a, b));
    }
  }

  lemma {:induction false} OneSidedPath(x: Point, r: Point, c: Point, ds: seq<Point>)
    requires Cross(x, r, c) < 0.0 && forall k :: 0 <= k < |ds| ==> Cross(x, r, ds[k]) < 0.0
    ensures PathWinding(x, r, c, ds) == 0 && PathAvoids(x, c, ds)
    decreases |ds|
  {
    hide Cross, OnSegment;
    if ds != [] {
      OneSideAvoids(x, r, c, ds[0]);
      OneSidedPath(x, r, ds[0], ds[1..]);
    }
  }

  // Strictly outside some clip edge, the clipped ring does not wind around x at all.
  lemma ClippedDoesNotWindOutside(x: Point, r: Point, ring: seq<Point>, clip: seq<Point>, k: nat)
    requires k < |clip| && r != x && Side(EdgeStart(clip, k), clip[k], x) > 0.0
    ensures RingAvoids(x, ClipEdges(ring, clip, |clip|))
    ensures WindingNumber(x, r, ClipEdges(ring, clip, |clip|)) == 0
  {
    hide Cross, Side, Along, ClipEdges, EdgePlane, Holds, PathWinding, PathAvoids;
    var a, b, out := EdgeStart(clip, k), clip[k], ClipEdges(ring, clip, |clip|);
    var s := Along(x, a, b);
    ClippedSatisfiesEveryEdge(ring, clip, |clip|, k);
    AlongIsARay(x, a, b);
    if out != [] {
      forall i | 0 <= i < |out| ensures Cross(x, s, out[i]) < 0.0 {
        EdgePlaneIsSide(a, b, out[i]);
        CrossAlong(x, a, b, out[i]);
      }
      OneSidedPath(x, s, out[|out| - 1], out);
      AnyRayCountsTheSame(x, r, s, out);
    }
  }
}
