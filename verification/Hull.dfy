// Graham's scan as d3.geom.hull runs it. Polar angles are compared exactly, by the sign of a cross
// product, where the program compares values of atan2.
module Hull {
  import opened Geometry

  datatype Result = Polygon(points: seq<Point>) | TypeError

  // ---------------------------------------------------------------- polar angles

  // The direction of p seen from o; a point on top of o gets angle 0, as atan2(0, 0) does.
  function Direction(o: Point, p: Point): Point {
    if p == o then Point(1.0, 0.0) else Point(p.x - o.x, p.y - o.y)
  }

  function Det(u: Point, v: Point): real {
    u.x * v.y - u.y * v.x
  }

  // Directions seen from the lowest-leftmost point: angles in [0, pi).
  predicate Upper(u: Point) {
    u.y > 0.0 || (u.y == 0.0 && u.x > 0.0)
  }

  function Square(x: real): real {
    x * x
  }

  function SquaredDistance(o: Point, p: Point): real {
    Square(p.x - o.x) + Square(p.y - o.y)
  }

  lemma AnglesAreOrdered(a: Point, b: Point, c: Point)
    requires Upper(a) && Upper(b) && Upper(c)
    requires Det(a, b) >= 0.0 && Det(b, c) >= 0.0
    ensures Det(a, c) >= 0.0
    ensures Det(a, b) > 0.0 || Det(b, c) > 0.0 ==> Det(a, c) > 0.0
  {
    assert Det(a, c) * b.y == Det(a, b) * c.y + Det(b, c) * a.y;
    if b.y == 0.0 {
      assert Det(a, b) == -(a.y * b.x);
      assert a.y == 0.0 by {
        assert a.y > 0.0 ==> a.y * b.x > 0.0;
      }
      assert Det(b, c) == b.x * c.y;
      assert Det(a, c) == a.x * c.y;
    } else {
      assert Det(a, b) * c.y >= 0.0 && Det(b, c) * a.y >= 0.0;
      if Det(a, b) > 0.0 {
        assert c.y == 0.0 ==> Det(b, c) == -(b.y * c.x) && b.y * c.x > 0.0;
        assert Det(a, b) * c.y > 0.0;
      } else if Det(b, c) > 0.0 {
        assert a.y == 0.0 ==> Det(a, b) == a.x * b.y && a.x * b.y > 0.0;
        assert Det(b, c) * a.y > 0.0;
      }
    }
  }

  // A farther point at the same angle leaves the nearer one on the segment to the origin, so
  // whatever edge has both ends of the segment on its left has the nearer point on its left.
  lemma NearerPointOnSegment(o: Point, p: Point, q: Point, s: Point, t: Point)
    requires p != o && Upper(Direction(o, p)) && Upper(Direction(o, q))
    requires Det(Direction(o, p), Direction(o, q)) == 0.0
    requires SquaredDistance(o, q) <= SquaredDistance(o, p)
    requires Cross(s, t, o) >= 0.0 && Cross(s, t, p) >= 0.0
    ensures Cross(s, t, q) >= 0.0
  {
    if q != o {
      var u, v := Direction(o, p), Direction(o, q);
      var dd, dot := SquaredDistance(o, p), u.x * v.x + u.y * v.y;
      SameDirection(u, v);
      Shrink(s, t, o, p, q, dd, dot);
    }
  }

  lemma SameDirection(u: Point, v: Point)
    requires Upper(u) && Upper(v) && Det(u, v) == 0.0
    requires v.x * v.x + v.y * v.y <= u.x * u.x + u.y * u.y
    ensures 0.0 < u.x * u.x + u.y * u.y
    ensures 0.0 <= u.x * v.x + u.y * v.y <= u.x * u.x + u.y * u.y
    ensures (u.x * u.x + u.y * u.y) * v.x == (u.x * v.x + u.y * v.y) * u.x
    ensures (u.x * u.x + u.y * u.y) * v.y == (u.x * v.x + u.y * v.y) * u.y
  {
    var uu, vv, uv := u.x * u.x + u.y * u.y, v.x * v.x + v.y * v.y, u.x * v.x + u.y * v.y;
    assert uu > 0.0;
    assert uu * v.x == uv * u.x - u.y * Det(u, v);
    assert uu * v.y == uv * u.y + u.x * Det(u, v);
    assert (u.x - v.x) * (u.x - v.x) + (u.y - v.y) * (u.y - v.y) >= 0.0;
    assert 2.0 * uv <= uu + vv;
    if u.y > 0.0 {
      assert v.y == 0.0 ==> Det(u, v) == -(u.y * v.x) && u.y * v.x > 0.0;
      assert uu * v.y > 0.0;
      assert uv * u.y > 0.0;
      assert uv < 0.0 ==> uv * u.y < 0.0;
    } else {
      assert v.y > 0.0 ==> u.x * v.y > 0.0;
      assert uv == u.x * v.x;
    }
  }

  lemma Shrink(s: Point, t: Point, o: Point, p: Point, q: Point, dd: real, dot: real)
    requires dd > 0.0 && 0.0 <= dot <= dd
    requires dd * (q.x - o.x) == dot * (p.x - o.x)
    requires dd * (q.y - o.y) == dot * (p.y - o.y)
    requires Cross(s, t, o) >= 0.0 && Cross(s, t, p) >= 0.0
    ensures Cross(s, t, q) >= 0.0
  {
    assert dd * q.x == dot * p.x + 0.0 * p.x + (dd - dot) * o.x;
    assert dd * q.y == dot * p.y + 0.0 * p.y + (dd - dot) * o.y;
    AffineCombination(dd, dot, 0.0, dd - dot, s, t, p, p, o, q);
    NonNegativeSum(dd, Cross(s, t, q), dot, Cross(s, t, p), 0.0, Cross(s, t, p), dd - dot, Cross(s, t, o));
  }

  // ---------------------------------------------------------------- convex chains seen from o

  // ps turns strictly counter-clockwise around o and every triple of it turns left.
  ghost predicate ConvexChain(o: Point, ps: seq<Point>) {
    && (forall i, j :: 0 <= i < j < |ps| ==> Cross(o, ps[i], ps[j]) > 0.0)
    && (forall i, j, k :: 0 <= i < j < k < |ps| ==> Cross(ps[i], ps[j], ps[k]) > 0.0)
  }

  lemma TurnsCompose(ab: real, ac: real, ad: real, bc: real, bd: real, cd: real)
    requires ab > 0.0 && ac > 0.0 && bc > 0.0 && bd > 0.0 && cd > 0.0
    requires ad * bc == ac * bd - ab * cd
    requires ab + bc - ac > 0.0 && bc + cd - bd > 0.0
    ensures ac + cd - ad > 0.0 && ab + bd - ad > 0.0
  {
    PositiveFactor(ac + cd - ad, bc, ac, bc + cd - bd, cd, ab + bc - ac);
    PositiveFactor(ab + bd - ad, bc, ab, bc + cd - bd, bd, ab + bc - ac);
  }

  lemma PositiveFactor(x: real, k: real, a: real, p: real, b: real, q: real)
    requires k > 0.0 && a > 0.0 && p > 0.0 && b > 0.0 && q > 0.0
    requires x * k == a * p + b * q
    ensures x > 0.0
  {
    assert a * p > 0.0 && b * q > 0.0;
    assert x <= 0.0 ==> x * k <= 0.0;
  }

  // If a, b, c and b, c, d both turn left then so do a, c, d and a, b, d.
  lemma TurnsAreTransitive(o: Point, a: Point, b: Point, c: Point, d: Point)
    requires Cross(o, a, b) > 0.0 && Cross(o, a, c) > 0.0
    requires Cross(o, b, c) > 0.0 && Cross(o, b, d) > 0.0 && Cross(o, c, d) > 0.0
    requires Cross(a, b, c) > 0.0 && Cross(b, c, d) > 0.0
    ensures Cross(a, c, d) > 0.0 && Cross(a, b, d) > 0.0
  {
    CrossSplit(o, a, b, c);
    CrossSplit(o, b, c, d);
    CrossSplit(o, a, c, d);
    CrossSplit(o, a, b, d);
    Pluecker(o, a, b, c, d);
    TurnsCompose(Cross(o, a, b), Cross(o, a, c), Cross(o, a, d), Cross(o, b, c), Cross(o, b, d), Cross(o, c, d));
  }

  // The test of the scan keeps the chain convex when the new point is pushed.
  lemma PushKeepsChain(o: Point, ps: seq<Point>, r: Point)
    requires ConvexChain(o, ps)
    requires forall i :: 0 <= i < |ps| ==> Cross(o, ps[i], r) > 0.0
    requires |ps| >= 2 ==> Cross(ps[|ps| - 2], ps[|ps| - 1], r) > 0.0
    ensures ConvexChain(o, ps + [r])
  {
    var n := |ps|;
    forall i, j | 0 <= i < j < n ensures Cross(ps[i], ps[j], r) > 0.0 {
      PushTurn(o, ps, r, i, j);
    }
    var qs := ps + [r];
    forall i, j, k | 0 <= i < j < k < |qs| ensures Cross(qs[i], qs[j], qs[k]) > 0.0 {
      if k < n {
        assert Cross(ps[i], ps[j], ps[k]) > 0.0;
      } else {
        assert Cross(ps[i], ps[j], r) > 0.0;
      }
    }
  }

  lemma PushTurn(o: Point, ps: seq<Point>, r: Point, i: nat, j: nat)
    requires ConvexChain(o, ps)
    requires forall i :: 0 <= i < |ps| ==> Cross(o, ps[i], r) > 0.0
    requires |ps| >= 2 ==> Cross(ps[|ps| - 2], ps[|ps| - 1], r) > 0.0
    requires i < j < |ps|
    ensures Cross(ps[i], ps[j], r) > 0.0
    decreases |ps| - j, |ps| - i
  {
    var n := |ps|;
    if j < n - 1 {
      PushTurn(o, ps, r, j, n - 1);
      TurnsAreTransitive(o, ps[i], ps[j], ps[n - 1], r);
    } else if i < n - 2 {
      TurnsAreTransitive(o, ps[i], ps[n - 2], ps[n - 1], r);
    }
  }

  // q lies in the fan of triangles that o spans with the edges of ps.
  ghost predicate InFan(o: Point, ps: seq<Point>, q: Point) {
    || (|ps| > 0 && q == ps[0])
    || exists i :: 0 <= i < |ps| - 1 && InTriangle(o, ps[i], ps[i + 1], q)
  }

  // Dropping a middle corner that does not turn left only grows the fan.
  lemma DropGrowsFan(o: Point, ps: seq<Point>, b: Point, c: Point, q: Point)
    requires |ps| > 0
    requires var a := ps[|ps| - 1]; Cross(o, a, b) > 0.0 && Cross(o, b, c) > 0.0 && Cross(o, a, c) > 0.0 && Cross(a, b, c) <= 0.0
    requires InFan(o, ps + [b, c], q)
    ensures InFan(o, ps + [c], q)
  {
    var n := |ps|;
    var a := ps[n - 1];
    var old_, new_ := ps + [b, c], ps + [c];
    if q == ps[0] {
      assert q == new_[0];
    } else {
      var i :| 0 <= i < |old_| - 1 && InTriangle(o, old_[i], old_[i + 1], q);
      if i < n - 1 {
        assert InTriangle(o, new_[i], new_[i + 1], q);
      } else {
        CrossCyclic(a, b, c);
        CrossCyclic(o, b, c);
        CrossCyclic(c, o, q);
        CrossCyclic(o, a, a);
        assert Cross(a, c, b) >= 0.0 && Cross(c, o, b) >= 0.0;
        var s := if i == n - 1 then a else b;
        var t := if i == n - 1 then b else c;
        Degenerate(o, a, c);
        CrossCyclic(o, a, c);
        TriangleInHalfPlane(o, a, o, s, t, q);
        TriangleInHalfPlane(c, o, o, s, t, q);
        TriangleInHalfPlane(a, c, o, s, t, q);
        assert InTriangle(o, new_[n - 1], new_[n], q);
      }
    }
  }

  lemma Degenerate(a: Point, b: Point, c: Point)
    ensures Cross(a, b, a) == 0.0 && Cross(a, b, b) == 0.0
    ensures Cross(b, c, b) == 0.0 && Cross(b, c, c) == 0.0
    ensures Cross(c, a, c) == 0.0 && Cross(c, a, a) == 0.0
  {
  }

  // ---------------------------------------------------------------- convex hulls

  function Next(i: nat, n: nat): nat
    requires i < n
  {
    if i + 1 == n then 0 else i + 1
  }

  // Every corner off an edge lies strictly to the left of that edge.
  ghost predicate StrictlyConvex(poly: seq<Point>) {
    && |poly| >= 3
    && forall i, m :: 0 <= i < |poly| && 0 <= m < |poly| && m != i && m != Next(i, |poly|)
         ==> Cross(poly[i], poly[Next(i, |poly|)], poly[m]) > 0.0
  }

  ghost predicate Contains(poly: seq<Point>, q: Point) {
    forall i :: 0 <= i < |poly| ==> Cross(poly[i], poly[Next(i, |poly|)], q) >= 0.0
  }

  // poly is the convex hull of vs, with no redundant corner, counter-clockwise.
  ghost predicate IsHull(poly: seq<Point>, vs: seq<Point>) {
    && StrictlyConvex(poly)
    && (forall p :: p in poly ==> p in vs)
    && (forall q :: q in vs ==> Contains(poly, q))
  }

  lemma ChainIsStrictlyConvex(o: Point, ps: seq<Point>)
    requires |ps| >= 2 && ConvexChain(o, ps)
    ensures StrictlyConvex([o] + ps)
  {
    var poly := [o] + ps;
    var n := |poly|;
    forall i, m | 0 <= i < n && 0 <= m < n && m != i && m != Next(i, n)
      ensures Cross(poly[i], poly[Next(i, n)], poly[m]) > 0.0
    {
      if i == 0 {
        assert poly[m] == ps[m - 1];
      } else if i == n - 1 {
        CrossCyclic(poly[i], o, poly[m]);
        assert poly[m] == ps[m - 1];
      } else {
        CrossCyclic(poly[i], poly[i + 1], poly[m]);
        assert poly[i] == ps[i - 1] && poly[i + 1] == ps[i];
        if m > 0 {
          assert poly[m] == ps[m - 1];
        }
      }
    }
  }

  // A half-plane that holds o and the chain holds the whole fan.
  lemma FanInHalfPlane(s: Point, t: Point, o: Point, ps: seq<Point>, q: Point)
    requires InFan(o, ps, q)
    requires Cross(s, t, o) >= 0.0
    requires forall k :: 0 <= k < |ps| ==> Cross(s, t, ps[k]) >= 0.0
    ensures Cross(s, t, q) >= 0.0
  {
    if q != ps[0] {
      var k :| 0 <= k < |ps| - 1 && InTriangle(o, ps[k], ps[k + 1], q);
      TriangleInHalfPlane(s, t, o, ps[k], ps[k + 1], q);
    }
  }

  lemma FanIsContained(o: Point, ps: seq<Point>, q: Point)
    requires |ps| >= 2 && ConvexChain(o, ps) && InFan(o, ps, q)
    ensures Contains([o] + ps, q)
  {
    var poly := [o] + ps;
    var n := |poly|;
    ChainIsStrictlyConvex(o, ps);
    forall i | 0 <= i < n ensures Cross(poly[i], poly[Next(i, n)], q) >= 0.0 {
      CornerIsLeft(poly, i, 0);
      forall k | 0 <= k < |ps| ensures Cross(poly[i], poly[Next(i, n)], ps[k]) >= 0.0 {
        CornerIsLeft(poly, i, k + 1);
      }
      FanInHalfPlane(poly[i], poly[Next(i, n)], o, ps, q);
    }
  }

  lemma CornerIsLeft(poly: seq<Point>, i: nat, m: nat)
    requires StrictlyConvex(poly) && i < |poly| && m < |poly|
    ensures Cross(poly[i], poly[Next(i, |poly|)], poly[m]) >= 0.0
  {
    Degenerate(poly[i], poly[Next(i, |poly|)], poly[i]);
  }

  // ---------------------------------------------------------------- the program

  // h is the first of the lowest-leftmost points.
  ghost predicate IsReference(vs: seq<Point>, h: int) {
    && 0 <= h < |vs|
    && (forall i :: 0 <= i < |vs| ==> vs[h].y < vs[i].y || (vs[h].y == vs[i].y && vs[h].x <= vs[i].x))
    && (forall i :: 0 <= i < h ==> vs[i] != vs[h])
  }

  method FindReference(vs: seq<Point>) returns (h: nat)
    requires |vs| > 0
    ensures IsReference(vs, h)
  {
    h := 0;
    for i := 1 to |vs|
      invariant 0 <= h < i
      invariant forall k :: 0 <= k < i ==> vs[h].y < vs[k].y || (vs[h].y == vs[k].y && vs[h].x <= vs[k].x)
      invariant forall k :: 0 <= k < h ==> vs[k] != vs[h]
    {
      if vs[i].y < vs[h].y {
        h := i;
      } else if vs[i].y == vs[h].y {
        h := if vs[i].x < vs[h].x then i else h;
      }
    }
  }

  // A point waiting for the scan: its polar angle, and its index or -1 once it is tossed out.
  datatype Entry = Entry(angle: Point, index: int)

  predicate Kept(e: Entry) {
    e.index != -1
  }

  ghost predicate IsEntry(vs: seq<Point>, h: int, e: Entry)
    requires 0 <= h < |vs|
  {
    0 <= e.index < |vs| && e.index != h && e.angle == Direction(vs[h], vs[e.index]) && Upper(e.angle)
  }

  // es lists the angles of all points but the reference.
  ghost predicate IsPolar(vs: seq<Point>, h: int, es: seq<Entry>) {
    && IsReference(vs, h)
    && (forall k :: 0 <= k < |es| ==> IsEntry(vs, h, es[k]))
    && (forall i :: 0 <= i < |vs| && i != h ==> Entry(Direction(vs[h], vs[i]), i) in es)
  }

  ghost predicate SortedByAngle(es: seq<Entry>) {
    forall i, j :: 0 <= i < j < |es| ==> Det(es[i].angle, es[j].angle) >= 0.0
  }

  method PolarAngles(vs: seq<Point>, h: nat) returns (es: seq<Entry>)
    requires IsReference(vs, h)
    ensures IsPolar(vs, h, es) && |es| == |vs| - 1
  {
    es := [];
    for i := 0 to |vs|
      invariant |es| == if i <= h then i else i - 1
      invariant forall k :: 0 <= k < |es| ==> IsEntry(vs, h, es[k])
      invariant forall k :: 0 <= k < i && k != h ==> Entry(Direction(vs[h], vs[k]), k) in es
    {
      if i != h {
        es := es + [Entry(Direction(vs[h], vs[i]), i)];
      }
    }
  }

  lemma DetAntisymmetric(a: Point, b: Point)
    ensures Det(a, b) == -Det(b, a)
  {
  }

  // Stands for the library sort: any permutation sorted by angle will do.
  method SortByAngle(es: seq<Entry>) returns (sorted: seq<Entry>)
    requires forall e :: e in es ==> Upper(e.angle)
    ensures multiset(sorted) == multiset(es)
    ensures SortedByAngle(sorted)
  {
    hide Det, Upper;
    sorted := [];
    for i := 0 to |es|
      invariant multiset(sorted) == multiset(es[..i])
      invariant SortedByAngle(sorted)
    {
      assert es[..i + 1] == es[..i] + [es[i]];
      forall e | e in sorted ensures Upper(e.angle) {
        assert e in multiset(sorted);
      }
      sorted := InsertByAngle(sorted, es[i]);
    }
    assert es[..|es|] == es;
  }

  method InsertByAngle(sorted: seq<Entry>, e: Entry) returns (r: seq<Entry>)
    requires SortedByAngle(sorted) && Upper(e.angle) && forall f :: f in sorted ==> Upper(f.angle)
    ensures multiset(r) == multiset(sorted) + multiset{e}
    ensures SortedByAngle(r)
  {
    hide Det, Upper;
    var k := |sorted|;
    while k > 0 && Det(e.angle, sorted[k - 1].angle) > 0.0
      invariant 0 <= k <= |sorted|
      invariant k < |sorted| ==> Det(e.angle, sorted[k].angle) > 0.0
    {
      k := k - 1;
    }
    InsertionIsSorted(sorted, e, k);
    r := sorted[..k] + [e] + sorted[k..];
    assert sorted == sorted[..k] + sorted[k..];
  }

  lemma InsertionIsSorted(sorted: seq<Entry>, e: Entry, k: nat)
    requires SortedByAngle(sorted) && Upper(e.angle) && forall f :: f in sorted ==> Upper(f.angle)
    requires k <= |sorted|
    requires k > 0 ==> Det(e.angle, sorted[k - 1].angle) <= 0.0
    requires k < |sorted| ==> Det(e.angle, sorted[k].angle) > 0.0
    ensures SortedByAngle(sorted[..k] + [e] + sorted[k..])
  {
    hide Det, Upper;
    var r := sorted[..k] + [e] + sorted[k..];
    forall j | 0 <= j < k ensures Det(sorted[j].angle, e.angle) >= 0.0 {
      DetAntisymmetric(e.angle, sorted[k - 1].angle);
      if j < k - 1 {
        AnglesAreOrdered(sorted[j].angle, sorted[k - 1].angle, e.angle);
      }
    }
    forall j | k <= j < |sorted| ensures Det(e.angle, sorted[j].angle) >= 0.0 {
      if j > k {
        AnglesAreOrdered(e.angle, sorted[k].angle, sorted[j].angle);
      }
    }
    forall i, j | 0 <= i < j < |r| ensures Det(r[i].angle, r[j].angle) >= 0.0 {
      assert r[i] == if i < k then sorted[i] else if i == k then e else sorted[i - 1];
      assert r[j] == if j < k then sorted[j] else if j == k then e else sorted[j - 1];
    }
  }

  // Entry k has the angle of entry i and is no nearer to the reference.
  ghost predicate Covers(vs: seq<Point>, h: int, es: seq<Entry>, k: int, i: int)
    requires IsPolar(vs, h, es) && 0 <= k < |es| && 0 <= i < |es|
  {
    && Det(es[k].angle, es[i].angle) == 0.0
    && SquaredDistance(vs[h], vs[es[i].index]) <= SquaredDistance(vs[h], vs[es[k].index])
  }

  ghost predicate IsCovered(vs: seq<Point>, h: int, es: seq<Entry>, points: seq<Entry>, n: int, i: int)
    requires IsPolar(vs, h, es) && 0 <= n <= |es| == |points| && 0 <= i < |es|
  {
    exists k :: 0 <= k < n && Kept(points[k]) && Covers(vs, h, es, k, i)
  }

  // Entries still in order of strictly increasing angle once the marked ones are left out.
  ghost predicate Increasing(es: seq<Entry>, points: seq<Entry>, n: int)
    requires 0 <= n <= |es| == |points|
  {
    forall k, l :: 0 <= k < l < n && Kept(points[k]) && Kept(points[l]) ==> Det(es[k].angle, es[l].angle) > 0.0
  }

  ghost predicate AllCovered(vs: seq<Point>, h: int, es: seq<Entry>, points: seq<Entry>, n: int)
    requires IsPolar(vs, h, es) && 0 <= n <= |es| == |points|
  {
    forall l :: 0 <= l < n ==> IsCovered(vs, h, es, points, n, l)
  }

  ghost predicate IsMarked(es: seq<Entry>, points: seq<Entry>, n: int)
    requires 0 <= n <= |es| == |points|
  {
    && (forall k :: 0 <= k < n ==> points[k] == es[k] || points[k] == es[k].(index := -1))
    && (forall k :: n <= k < |es| ==> points[k] == es[k])
  }

  // points is es with some entries marked -1: of each angle only one farthest point is kept.
  ghost predicate IsTossed(vs: seq<Point>, h: int, es: seq<Entry>, points: seq<Entry>)
    requires IsPolar(vs, h, es)
  {
    && |points| == |es|
    && IsMarked(es, points, |es|) && Increasing(es, points, |es|) && AllCovered(vs, h, es, points, |es|)
  }

  // The first i entries are done and u is the last entry kept among them.
  ghost predicate TossedPrefix(vs: seq<Point>, h: int, es: seq<Entry>, points: seq<Entry>, i: int, u: int)
    requires IsPolar(vs, h, es)
  {
    && |points| == |es| && 0 <= u < i <= |es| && points[u] == es[u]
    && (forall k :: u < k < i ==> !Kept(points[k]))
    && IsMarked(es, points, i) && Increasing(es, points, i) && AllCovered(vs, h, es, points, i)
  }

  method TossDuplicates(vs: seq<Point>, h: nat, es: seq<Entry>) returns (points: seq<Entry>)
    requires IsPolar(vs, h, es) && SortedByAngle(es) && |es| > 0
    ensures IsTossed(vs, h, es, points)
  {
    hide Det, SquaredDistance, Direction;
    points := es;
    var a, v, u := points[0].angle, points[0].index, 0;
    EntryCoversItself(vs, h, es, points, 0, 1);
    for i := 1 to |es|
      invariant TossedPrefix(vs, h, es, points, i, u)
      invariant a == es[u].angle && v == es[u].index
    {
      var j := points[i].index;
      if Det(a, points[i].angle) == 0.0 {
        if SquaredDistance(vs[h], vs[v]) >= SquaredDistance(vs[h], vs[j]) {
          TossNewcomer(vs, h, es, points, i, u);
          points := points[i := points[i].(index := -1)];
        } else {
          DetAntisymmetric(es[i].angle, es[u].angle);
          TossPrevious(vs, h, es, points, i, u);
          points := points[u := points[u].(index := -1)];
          a, u, v := points[i].angle, i, j;
        }
      } else {
        KeepNewcomer(vs, h, es, points, i, u);
        a, u, v := points[i].angle, i, j;
      }
    }
  }

  lemma EntryCoversItself(vs: seq<Point>, h: int, es: seq<Entry>, points: seq<Entry>, i: nat, n: nat)
    requires IsPolar(vs, h, es) && i < n <= |es| == |points| && Kept(points[i])
    ensures Covers(vs, h, es, i, i) && IsCovered(vs, h, es, points, n, i)
  {
    assert Covers(vs, h, es, i, i);
  }

  lemma TossNewcomer(vs: seq<Point>, h: int, es: seq<Entry>, points: seq<Entry>, i: int, u: int)
    requires IsPolar(vs, h, es) && i < |es| && TossedPrefix(vs, h, es, points, i, u)
    requires Covers(vs, h, es, u, i)
    ensures TossedPrefix(vs, h, es, points[i := points[i].(index := -1)], i + 1, u)
  {
    hide Det, SquaredDistance, Direction, Upper, Covers;
    assert IsEntry(vs, h, es[u]);
    var next := points[i := points[i].(index := -1)];
    EntryCoversItself(vs, h, es, next, u, i + 1);
    KeepCovered(vs, h, es, points, next, i, u, u);
  }

  lemma TossPrevious(vs: seq<Point>, h: int, es: seq<Entry>, points: seq<Entry>, i: int, u: int)
    requires IsPolar(vs, h, es) && i < |es| && TossedPrefix(vs, h, es, points, i, u)
    requires Covers(vs, h, es, i, u) && Det(es[u].angle, es[i].angle) == 0.0
    ensures TossedPrefix(vs, h, es, points[u := points[u].(index := -1)], i + 1, i)
  {
    hide Det, SquaredDistance, Direction, Upper, Covers, IsCovered;
    assert IsEntry(vs, h, es[u]) && IsEntry(vs, h, es[i]);
    var next := points[u := points[u].(index := -1)];
    EntryCoversItself(vs, h, es, next, i, i + 1);
    KeepCovered(vs, h, es, points, next, i, u, i);
    KeepIncreasing(vs, h, es, points, next, i, u);
  }

  lemma KeepNewcomer(vs: seq<Point>, h: int, es: seq<Entry>, points: seq<Entry>, i: int, u: int)
    requires IsPolar(vs, h, es) && i < |es| && TossedPrefix(vs, h, es, points, i, u)
    requires Det(es[u].angle, es[i].angle) > 0.0
    ensures TossedPrefix(vs, h, es, points, i + 1, i)
  {
    hide Det, SquaredDistance, Direction, Upper, Covers, IsCovered;
    assert IsEntry(vs, h, es[u]) && IsEntry(vs, h, es[i]);
    EntryCoversItself(vs, h, es, points, u, i + 1);
    EntryCoversItself(vs, h, es, points, i, i + 1);
    KeepCovered(vs, h, es, points, points, i, u, u);
    KeepIncreasing(vs, h, es, points, points, i, u);
  }

  // The newcomer i comes after all entries kept before it.
  lemma KeepIncreasing(vs: seq<Point>, h: int, es: seq<Entry>, was: seq<Entry>, points: seq<Entry>, i: nat, u: nat)
    requires IsPolar(vs, h, es) && |was| == |points| == |es| && u < i < |es|
    requires Kept(was[u]) && Increasing(es, was, i) && forall k :: u < k < i ==> !Kept(was[k])
    requires forall k :: 0 <= k < i && Kept(points[k]) ==> Kept(was[k])
    requires Det(es[u].angle, es[i].angle) > 0.0 || (Det(es[u].angle, es[i].angle) == 0.0 && !Kept(points[u]))
    ensures Increasing(es, points, i + 1)
  {
    hide Det, Direction, Upper;
    forall k | 0 <= k < i && Kept(points[k]) ensures Det(es[k].angle, es[i].angle) > 0.0 {
      if k != u {
        assert IsEntry(vs, h, es[k]) && IsEntry(vs, h, es[u]) && IsEntry(vs, h, es[i]);
        AnglesAreOrdered(es[k].angle, es[u].angle, es[i].angle);
      }
    }
  }

  // Whatever entry u covered among the first entries is covered after its replacement by w.
  lemma KeepCovered(vs: seq<Point>, h: int, es: seq<Entry>, was: seq<Entry>, points: seq<Entry>, i: nat, u: nat, w: nat)
    requires IsPolar(vs, h, es) && |was| == |points| == |es| && u < i < |es| && w <= i
    requires forall k :: 0 <= k < i && k != u ==> points[k] == was[k]
    requires Kept(points[w]) && Covers(vs, h, es, w, u)
    requires AllCovered(vs, h, es, was, i) && exists k :: 0 <= k <= i && Kept(points[k]) && Covers(vs, h, es, k, i)
    ensures AllCovered(vs, h, es, points, i + 1)
  {
    hide Det, SquaredDistance, Direction, Upper;
    var m := i + 1;
    forall l | 0 <= l < i ensures IsCovered(vs, h, es, points, m, l) {
      assert IsCovered(vs, h, es, was, i, l);
      var k :| 0 <= k < i && Kept(was[k]) && Covers(vs, h, es, k, l);
      if k == u {
        assert IsEntry(vs, h, es[w]) && IsEntry(vs, h, es[u]) && IsEntry(vs, h, es[l]);
        SameAngle(es[w].angle, es[u].angle, es[l].angle);
        assert Covers(vs, h, es, w, l);
      } else {
        assert Kept(points[k]);
      }
    }
  }

  lemma SameAngle(a: Point, b: Point, c: Point)
    requires Upper(a) && Upper(b) && Upper(c) && Det(a, b) == 0.0 && Det(b, c) == 0.0
    ensures Det(a, c) == 0.0
  {
    AnglesAreOrdered(a, b, c);
    assert Det(c, b) == -Det(b, c) && Det(b, a) == -Det(a, b) && Det(c, a) == -Det(a, c);
    AnglesAreOrdered(c, b, a);
  }

  // The point of entry k.
  function At(vs: seq<Point>, es: seq<Entry>, k: int): Point
    requires 0 <= k < |es| && 0 <= es[k].index < |vs|
  {
    vs[es[k].index]
  }

  // Two kept entries, neither on top of the reference, turn counter-clockwise around it.
  lemma KeptPairTurns(vs: seq<Point>, h: int, es: seq<Entry>, points: seq<Entry>, k: int, l: int)
    requires IsPolar(vs, h, es) && IsTossed(vs, h, es, points)
    requires 0 <= k < l < |es| && Kept(points[k]) && Kept(points[l])
    ensures At(vs, es, l) != vs[h]
    ensures At(vs, es, k) != vs[h] ==> Cross(vs[h], At(vs, es, k), At(vs, es, l)) > 0.0
    ensures At(vs, es, k) == vs[h] ==> forall m :: 0 <= m < k ==> !Kept(points[m])
  {
    assert IsEntry(vs, h, es[k]) && IsEntry(vs, h, es[l]);
    assert Det(es[k].angle, es[l].angle) > 0.0;
    forall m | 0 <= m < k && Kept(points[m]) ensures At(vs, es, k) != vs[h] {
      assert IsEntry(vs, h, es[m]);
      assert Det(es[m].angle, es[k].angle) > 0.0;
    }
  }

  // stack[base..sp] holds the corners ps of a convex chain around the point of stack[base - 1].
  ghost predicate IsStack(vs: seq<Point>, stack: seq<int>, sp: int, base: int, ps: seq<Point>) {
    && 1 <= base < sp <= |stack| && |ps| == sp - base
    && (forall i :: 0 <= i < sp ==> 0 <= stack[i] < |vs|)
    && (forall i :: 0 <= i < |ps| ==> ps[i] == vs[stack[base + i]])
    && vs[stack[base - 1]] == vs[stack[0]]
    && ConvexChain(vs[stack[0]], ps)
  }

  // Every entry kept among the first n is in the fan, or on top of the reference.
  ghost predicate AllInFan(vs: seq<Point>, h: int, es: seq<Entry>, points: seq<Entry>, n: int, ps: seq<Point>)
    requires IsPolar(vs, h, es) && 0 <= n <= |es| == |points|
  {
    forall k :: 0 <= k < n && Kept(points[k]) ==> At(vs, es, k) == vs[h] || InFan(vs[h], ps, At(vs, es, k))
  }

  // Every entry kept from n on lies beyond the corners of the chain.
  ghost predicate AllBeyond(vs: seq<Point>, h: int, es: seq<Entry>, points: seq<Entry>, n: int, ps: seq<Point>)
    requires IsPolar(vs, h, es) && 0 <= n <= |es| == |points|
  {
    forall i, k :: 0 <= i < |ps| && n <= k < |es| && Kept(points[k]) ==> Cross(vs[h], ps[i], At(vs, es, k)) > 0.0
  }

  ghost predicate IsBefore(o: Point, ps: seq<Point>, r: Point) {
    forall i :: 0 <= i < |ps| ==> Cross(o, ps[i], r) > 0.0
  }

  // The scan from entry j0 on: the three corners pushed first are on the stack.
  method Scan(vs: seq<Point>, h: nat, ghost es: seq<Entry>, points: seq<Entry>,
              stack0: seq<int>, j0: nat, ghost base: nat, ghost ps0: seq<Point>)
      returns (stack: seq<int>, sp: nat, ghost ps: seq<Point>)
    requires IsPolar(vs, h, es) && IsTossed(vs, h, es, points) && j0 <= |points| == |es|
    requires |stack0| == 3 && stack0[0] == h && IsStack(vs, stack0, 3, base, ps0)
    requires AllInFan(vs, h, es, points, j0, ps0) && AllBeyond(vs, h, es, points, j0, ps0)
    ensures IsStack(vs, stack, sp, base, ps) && stack[0] == h && sp >= 3
    ensures stack[1] == stack0[1]
    ensures AllInFan(vs, h, es, points, |points|, ps)
  {
    hide Cross, Det, Direction, Upper, ConvexChain, InFan, AllInFan, AllBeyond, IsTossed, IsBefore;
    stack, sp, ps := stack0, |stack0|, ps0;
    for j := j0 to |points|
      invariant IsStack(vs, stack, sp, base, ps) && stack[0] == h && sp >= 3
      invariant stack[1] == stack0[1]
      invariant AllInFan(vs, h, es, points, j, ps) && AllBeyond(vs, h, es, points, j, ps)
    {
      if points[j].index == -1 {
        SkipEntry(vs, h, es, points, j, ps);
        continue;
      }
      KeptIndex(vs, h, es, points, j);
      ghost var r := At(vs, es, j);
      ghost var top := ps;
      StartEntry(vs, h, es, points, j, ps, r);
      while !(Cross(vs[stack[sp - 2]], vs[stack[sp - 1]], vs[points[j].index]) > 0.0)
        invariant sp >= 2 && IsStack(vs, stack, sp, base, ps) && ps == top[..sp - base] && sp - base <= |top|
        invariant AllInFan(vs, h, es, points, j, ps + [r]) && IsBefore(vs[h], ps, r)
        decreases sp
      {
        OneCornerTurns(vs[h], ps, r);
        assert ps[|ps| - 1] == vs[stack[sp - 1]];
        Pop(vs, h, es, points, j, ps, r);
        sp := sp - 1;
        ps := ps[..|ps| - 1];
      }
      Push(vs, h, es, points, j, top, ps, r);
      stack := if sp < |stack| then stack[sp := points[j].index] else stack + [points[j].index];
      sp := sp + 1;
      ps := ps + [r];
    }
  }

  lemma KeptIndex(vs: seq<Point>, h: int, es: seq<Entry>, points: seq<Entry>, j: nat)
    requires IsPolar(vs, h, es) && IsTossed(vs, h, es, points) && j < |es| && Kept(points[j])
    ensures points[j].index == es[j].index
  {
  }

  lemma NotOnReference(o: Point, a: Point, r: Point)
    requires Cross(o, a, r) > 0.0
    ensures r != o
  {
  }

  lemma OneCornerTurns(o: Point, ps: seq<Point>, r: Point)
    requires |ps| > 0 && IsBefore(o, ps, r)
    ensures Cross(o, ps[0], r) > 0.0
  {
  }

  lemma SkipEntry(vs: seq<Point>, h: int, es: seq<Entry>, points: seq<Entry>, j: nat, ps: seq<Point>)
    requires IsPolar(vs, h, es) && j < |es| == |points| && !Kept(points[j])
    requires AllInFan(vs, h, es, points, j, ps) && AllBeyond(vs, h, es, points, j, ps)
    ensures AllInFan(vs, h, es, points, j + 1, ps) && AllBeyond(vs, h, es, points, j + 1, ps)
  {
  }

  lemma StartEntry(vs: seq<Point>, h: int, es: seq<Entry>, points: seq<Entry>, j: nat, ps: seq<Point>, r: Point)
    requires IsPolar(vs, h, es) && j < |es| == |points| && Kept(points[j]) && r == At(vs, es, j)
    requires AllInFan(vs, h, es, points, j, ps) && AllBeyond(vs, h, es, points, j, ps)
    ensures AllInFan(vs, h, es, points, j, ps + [r]) && IsBefore(vs[h], ps, r)
  {
    hide Cross, InFan;
    forall k | 0 <= k < j && Kept(points[k]) && At(vs, es, k) != vs[h] ensures InFan(vs[h], ps + [r], At(vs, es, k)) {
      FanGrows(vs[h], ps, r, At(vs, es, k));
    }
  }

  // Popping a corner at which r does not turn left keeps everything in the fan up to r.
  lemma Pop(vs: seq<Point>, h: int, es: seq<Entry>, points: seq<Entry>, j: nat, ps: seq<Point>, r: Point)
    requires IsPolar(vs, h, es) && j < |es| == |points|
    requires |ps| >= 2 && ConvexChain(vs[h], ps) && IsBefore(vs[h], ps, r)
    requires Cross(ps[|ps| - 2], ps[|ps| - 1], r) <= 0.0
    requires AllInFan(vs, h, es, points, j, ps + [r])
    ensures var qs := ps[..|ps| - 1];
      AllInFan(vs, h, es, points, j, qs + [r]) && IsBefore(vs[h], qs, r) && ConvexChain(vs[h], qs)
  {
    hide Cross, InFan;
    var n := |ps| - 1;
    assert ps + [r] == ps[..n] + [ps[n], r];
    forall k | 0 <= k < j && Kept(points[k]) && At(vs, es, k) != vs[h] ensures InFan(vs[h], ps[..n] + [r], At(vs, es, k)) {
      DropGrowsFan(vs[h], ps[..n], ps[n], r, At(vs, es, k));
    }
  }

  lemma Push(vs: seq<Point>, h: int, es: seq<Entry>, points: seq<Entry>, j: nat, top: seq<Point>, ps: seq<Point>, r: Point)
    requires IsPolar(vs, h, es) && IsTossed(vs, h, es, points) && j < |es| && Kept(points[j]) && r == At(vs, es, j)
    requires |ps| > 0 && ps <= top && AllBeyond(vs, h, es, points, j, top)
    requires ConvexChain(vs[h], ps) && IsBefore(vs[h], ps, r) && AllInFan(vs, h, es, points, j, ps + [r])
    requires |ps| >= 2 ==> Cross(ps[|ps| - 2], ps[|ps| - 1], r) > 0.0
    ensures ConvexChain(vs[h], ps + [r])
    ensures AllInFan(vs, h, es, points, j + 1, ps + [r]) && AllBeyond(vs, h, es, points, j + 1, ps + [r])
  {
    hide Cross, InFan, ConvexChain;
    PushKeepsChain(vs[h], ps, r);
    NewestInFan(vs[h], ps, r);
    NotOnReference(vs[h], ps[0], r);
    var qs := ps + [r];
    forall i, k | 0 <= i < |qs| && j + 1 <= k < |es| && Kept(points[k]) ensures Cross(vs[h], qs[i], At(vs, es, k)) > 0.0 {
      if i == |ps| {
        KeptPairTurns(vs, h, es, points, j, k);
      } else {
        assert qs[i] == top[i];
      }
    }
  }

  lemma FanGrows(o: Point, ps: seq<Point>, r: Point, q: Point)
    requires InFan(o, ps, q)
    ensures InFan(o, ps + [r], q)
  {
    var qs := ps + [r];
    if q == ps[0] {
      assert q == qs[0];
    } else {
      var i :| 0 <= i < |ps| - 1 && InTriangle(o, ps[i], ps[i + 1], q);
      assert InTriangle(o, qs[i], qs[i + 1], q);
    }
  }

  lemma NewestInFan(o: Point, ps: seq<Point>, r: Point)
    requires |ps| > 0 && Cross(o, ps[|ps| - 1], r) > 0.0
    ensures InFan(o, ps + [r], r)
  {
    var qs := ps + [r];
    var i := |ps| - 1;
    assert InTriangle(o, qs[i], qs[i + 1], r);
  }

  // ---------------------------------------------------------------- what the caller gets

  // All the other points are seen from the reference under one angle.
  ghost predicate OneDirection(vs: seq<Point>, h: int)
    requires 0 <= h < |vs|
  {
    forall i, j :: 0 <= i < |vs| && 0 <= j < |vs| && i != h && j != h
      ==> Det(Direction(vs[h], vs[i]), Direction(vs[h], vs[j])) == 0.0
  }

  // The points span a triangle with the reference, and a second point on top of the reference is
  // harmless because another point lies level with it, to its right.
  ghost predicate Suitable(vs: seq<Point>, h: int)
    requires 0 <= h < |vs|
  {
    && (exists i, j :: 0 <= i < |vs| && 0 <= j < |vs| && Cross(vs[h], vs[i], vs[j]) != 0.0)
    && ((forall i :: 0 <= i < |vs| && i != h ==> vs[i] != vs[h])
        || exists i :: 0 <= i < |vs| && vs[i].y == vs[h].y && vs[i].x > vs[h].x)
  }

  method ConvexHull(vs: seq<Point>) returns (r: Result, ghost h: nat)
    ensures |vs| < 3 ==> r == Polygon([])
    ensures |vs| >= 3 ==> IsReference(vs, h)
    ensures |vs| >= 3 ==> (r.TypeError? <==> OneDirection(vs, h))
    ensures |vs| >= 3 ==> (r.Polygon? && IsHull(r.points, vs) <==> Suitable(vs, h))
    ensures r.Polygon? ==> forall p :: p in r.points ==> p in vs
  {
    hide Cross, Det, SquaredDistance, Direction, Upper, ConvexChain, InFan, AllInFan, AllBeyond, IsHull, Suitable,
      OneDirection, IsTossed, IsPolar, SortedByAngle;
    if |vs| < 3 {
      return Polygon([]), 0;
    }
    var ref := FindReference(vs);
    h := ref;
    var polar := PolarAngles(vs, ref);
    EntriesAreUpper(vs, ref, polar);
    var es := SortByAngle(polar);
    PermutationIsPolar(vs, ref, polar, es);
    var points := TossDuplicates(vs, ref, es);
    TossedLength(vs, ref, es, points);
    var ok, stack, j; ghost var f, g;
    ok, stack, j, f, g := PushFirstTwo(vs, ref, es, points);
    if !ok {
      OneDirectionIsUnsuitable(vs, ref);
      return TypeError, ref;
    }
    ghost var base := if At(vs, es, f) == vs[ref] then 2 else 1;
    ghost var ps := if base == 2 then [At(vs, es, g)] else [At(vs, es, f), At(vs, es, g)];
    StartIsStack(vs, ref, es, points, f, g, j, stack, base, ps);
    var sp: nat;
    stack, sp, ps := Scan(vs, ref, es, points, stack, j, base, ps);

    var poly := [];
    for i := 0 to sp
      invariant |poly| == i && forall k :: 0 <= k < i ==> poly[k] == vs[stack[k]]
    {
      poly := poly + [vs[stack[i]]];
    }
    TwoKeptIsNotOneDirection(vs, ref, es, points, f, g);
    BaseDecidesSuitability(vs, ref, es, points, f, g);
    if base == 1 {
      assert poly == [vs[ref]] + ps;
      StackIsHull(vs, ref, es, points, ps);
    } else {
      RepeatedCornerIsNotHull(poly, vs);
    }
    r := Polygon(poly);
  }

  // The reference and the first two kept entries go on the stack unchecked; reading past the last
  // entry is the program's TypeError.
  method PushFirstTwo(vs: seq<Point>, h: nat, ghost es: seq<Entry>, points: seq<Entry>)
      returns (ok: bool, stack: seq<int>, j: nat, ghost f: int, ghost g: int)
    requires IsPolar(vs, h, es) && IsTossed(vs, h, es, points)
    ensures !ok ==> OneDirection(vs, h)
    ensures ok ==> 0 <= f < g < j <= |es| && Kept(points[f]) && Kept(points[g])
    ensures ok ==> stack == [h, es[f].index, es[g].index]
    ensures ok ==> forall k :: 0 <= k < j && Kept(points[k]) ==> k == f || k == g
  {
    hide Det, SquaredDistance, Direction, Upper, OneDirection;
    stack, j, f, g := [h], 0, -1, -1;
    var i := 0;
    while i < 2
      invariant 0 <= i <= 2 && 0 <= j <= |points|
      invariant i == 0 ==> stack == [h] && forall k :: 0 <= k < j ==> !Kept(points[k])
      invariant i >= 1 ==> 0 <= f < j && Kept(points[f])
      invariant i == 1 ==> stack == [h, es[f].index] && forall k :: 0 <= k < j && Kept(points[k]) ==> k == f
      invariant i == 2 ==> f < g < j && Kept(points[g]) && stack == [h, es[f].index, es[g].index]
      invariant i == 2 ==> forall k :: 0 <= k < j && Kept(points[k]) ==> k == f || k == g
      decreases |points| - j
    {
      if j == |points| {
        FewKeptIsOneDirection(vs, h, es, points, f);
        ok := false;
        return;
      }
      if points[j].index != -1 {
        KeptIndex(vs, h, es, points, j);
        stack := stack + [points[j].index];
        if i == 0 { f := j; } else { g := j; }
        i := i + 1;
      }
      j := j + 1;
    }
    ok := true;
  }

  lemma EntriesAreUpper(vs: seq<Point>, h: int, es: seq<Entry>)
    requires IsPolar(vs, h, es)
    ensures forall e :: e in es ==> Upper(e.angle)
  {
    forall e | e in es ensures Upper(e.angle) {
      var k :| 0 <= k < |es| && es[k] == e;
      assert IsEntry(vs, h, es[k]);
    }
  }

  lemma TossedLength(vs: seq<Point>, h: int, es: seq<Entry>, points: seq<Entry>)
    requires IsPolar(vs, h, es) && IsTossed(vs, h, es, points)
    ensures |points| == |es| && forall k :: 0 <= k < |es| ==> 0 <= es[k].index < |vs|
  {
    forall k | 0 <= k < |es| ensures 0 <= es[k].index < |vs| {
      assert IsEntry(vs, h, es[k]);
    }
  }

  lemma PermutationIsPolar(vs: seq<Point>, h: int, polar: seq<Entry>, es: seq<Entry>)
    requires IsPolar(vs, h, polar) && multiset(polar) == multiset(es)
    ensures IsPolar(vs, h, es) && |es| == |polar|
  {
    hide Direction, Upper;
    assert |multiset(polar)| == |multiset(es)|;
    forall k | 0 <= k < |es| ensures IsEntry(vs, h, es[k]) {
      assert es[k] in multiset(es);
      assert es[k] in multiset(polar);
    }
    forall i | 0 <= i < |vs| && i != h ensures Entry(Direction(vs[h], vs[i]), i) in es {
      assert Entry(Direction(vs[h], vs[i]), i) in multiset(polar);
    }
  }

  lemma FewKeptIsOneDirection(vs: seq<Point>, h: int, es: seq<Entry>, points: seq<Entry>, f: int)
    requires IsPolar(vs, h, es) && IsTossed(vs, h, es, points)
    requires forall k :: 0 <= k < |points| && Kept(points[k]) ==> k == f
    ensures OneDirection(vs, h)
  {
    hide Det, Upper, Direction, IsTossed;
    forall i, j | 0 <= i < |vs| && 0 <= j < |vs| && i != h && j != h
      ensures Det(Direction(vs[h], vs[i]), Direction(vs[h], vs[j])) == 0.0
    {
      OnlyAngle(vs, h, es, points, f, i);
      OnlyAngle(vs, h, es, points, f, j);
      DetAntisymmetric(es[f].angle, Direction(vs[h], vs[i]));
      SameAngle(Direction(vs[h], vs[i]), es[f].angle, Direction(vs[h], vs[j]));
    }
  }

  lemma OnlyAngle(vs: seq<Point>, h: int, es: seq<Entry>, points: seq<Entry>, f: int, i: int)
    requires IsPolar(vs, h, es) && IsTossed(vs, h, es, points) && 0 <= i < |vs| && i != h
    requires forall k :: 0 <= k < |points| && Kept(points[k]) ==> k == f
    ensures 0 <= f < |es| && Upper(es[f].angle) && Upper(Direction(vs[h], vs[i]))
    ensures Det(es[f].angle, Direction(vs[h], vs[i])) == 0.0
  {
    hide Det, Upper, Direction, SquaredDistance;
    var k := EntryOf(vs, h, es, i);
    assert IsCovered(vs, h, es, points, |es|, k);
    var c :| 0 <= c < |es| && Kept(points[c]) && Covers(vs, h, es, c, k);
    assert IsEntry(vs, h, es[k]) && IsEntry(vs, h, es[c]);
  }

  lemma EntryOf(vs: seq<Point>, h: int, es: seq<Entry>, i: int) returns (k: int)
    requires IsPolar(vs, h, es) && 0 <= i < |vs| && i != h
    ensures 0 <= k < |es| && es[k] == Entry(Direction(vs[h], vs[i]), i)
  {
    assert Entry(Direction(vs[h], vs[i]), i) in es;
    k :| 0 <= k < |es| && es[k] == Entry(Direction(vs[h], vs[i]), i);
  }

  lemma OneDirectionIsUnsuitable(vs: seq<Point>, h: int)
    requires IsReference(vs, h) && OneDirection(vs, h)
    ensures !Suitable(vs, h)
  {
    forall i, j | 0 <= i < |vs| && 0 <= j < |vs| ensures Cross(vs[h], vs[i], vs[j]) == 0.0 {
      if i != h && j != h && vs[i] != vs[h] && vs[j] != vs[h] {
        assert Det(Direction(vs[h], vs[i]), Direction(vs[h], vs[j])) == 0.0;
      }
    }
  }

  lemma TwoKeptIsNotOneDirection(vs: seq<Point>, h: int, es: seq<Entry>, points: seq<Entry>, f: int, g: int)
    requires IsPolar(vs, h, es) && IsTossed(vs, h, es, points)
    requires 0 <= f < g < |es| && Kept(points[f]) && Kept(points[g])
    ensures !OneDirection(vs, h)
  {
    hide Det, Direction, Upper;
    assert IsEntry(vs, h, es[f]) && IsEntry(vs, h, es[g]);
    assert Det(es[f].angle, es[g].angle) > 0.0;
    assert es[f].index != h && es[g].index != h;
  }

  lemma StartIsStack(vs: seq<Point>, h: int, es: seq<Entry>, points: seq<Entry>, f: int, g: int, j: int,
                     stack: seq<int>, base: nat, ps: seq<Point>)
    requires IsPolar(vs, h, es) && IsTossed(vs, h, es, points)
    requires 0 <= f < g < j <= |es| && Kept(points[f]) && Kept(points[g])
    requires forall k :: 0 <= k < j && Kept(points[k]) ==> k == f || k == g
    requires stack == [h, es[f].index, es[g].index]
    requires base == if At(vs, es, f) == vs[h] then 2 else 1
    requires ps == if base == 2 then [At(vs, es, g)] else [At(vs, es, f), At(vs, es, g)]
    ensures IsStack(vs, stack, 3, base, ps)
    ensures AllInFan(vs, h, es, points, j, ps) && AllBeyond(vs, h, es, points, j, ps)
  {
    hide Cross, AllInFan, AllBeyond, IsTossed;
    assert IsEntry(vs, h, es[f]) && IsEntry(vs, h, es[g]);
    KeptPairTurns(vs, h, es, points, f, g);
    StartIsInFan(vs, h, es, points, f, g, j, ps);
    StartIsBefore(vs, h, es, points, f, g, j, ps);
  }

  lemma StartIsInFan(vs: seq<Point>, h: int, es: seq<Entry>, points: seq<Entry>, f: int, g: int, j: int, ps: seq<Point>)
    requires IsPolar(vs, h, es) && IsTossed(vs, h, es, points)
    requires 0 <= f < g < j <= |es| && Kept(points[f]) && Kept(points[g])
    requires forall k :: 0 <= k < j && Kept(points[k]) ==> k == f || k == g
    requires ps == if At(vs, es, f) == vs[h] then [At(vs, es, g)] else [At(vs, es, f), At(vs, es, g)]
    ensures AllInFan(vs, h, es, points, j, ps)
  {
    hide Cross, InTriangle;
    if At(vs, es, f) != vs[h] {
      KeptPairTurns(vs, h, es, points, f, g);
      NewestInFan(vs[h], [At(vs, es, f)], At(vs, es, g));
      assert [At(vs, es, f)] + [At(vs, es, g)] == ps;
    }
  }

  lemma StartIsBefore(vs: seq<Point>, h: int, es: seq<Entry>, points: seq<Entry>, f: int, g: int, j: int, ps: seq<Point>)
    requires IsPolar(vs, h, es) && IsTossed(vs, h, es, points)
    requires 0 <= f < g < j <= |es| && Kept(points[f]) && Kept(points[g])
    requires ps == if At(vs, es, f) == vs[h] then [At(vs, es, g)] else [At(vs, es, f), At(vs, es, g)]
    ensures AllBeyond(vs, h, es, points, j, ps)
  {
    hide Cross;
    forall i, k | 0 <= i < |ps| && j <= k < |es| && Kept(points[k]) ensures Cross(vs[h], ps[i], At(vs, es, k)) > 0.0 {
      KeptPairTurns(vs, h, es, points, f, g);
      KeptPairTurns(vs, h, es, points, f, k);
      KeptPairTurns(vs, h, es, points, g, k);
    }
  }

  // A direction of angle 0 belongs to the first entry kept.
  lemma LevelIsFirst(vs: seq<Point>, h: int, es: seq<Entry>, points: seq<Entry>, f: int, i: int) returns (k: int)
    requires IsPolar(vs, h, es) && IsTossed(vs, h, es, points)
    requires 0 <= f < |es| && Kept(points[f]) && forall k :: 0 <= k < f ==> !Kept(points[k])
    requires 0 <= i < |vs| && i != h && Direction(vs[h], vs[i]).y == 0.0
    ensures es[f].angle.y == 0.0
    ensures SquaredDistance(vs[h], vs[i]) <= SquaredDistance(vs[h], At(vs, es, f))
  {
    k := EntryOf(vs, h, es, i);
    assert IsCovered(vs, h, es, points, |es|, k);
    var c :| 0 <= c < |es| && Kept(points[c]) && Covers(vs, h, es, c, k);
    assert IsEntry(vs, h, es[k]) && IsEntry(vs, h, es[c]) && IsEntry(vs, h, es[f]);
    assert c > f ==> Det(es[f].angle, es[c].angle) > 0.0;
    FlatAngles(es[c].angle, es[k].angle, es[f].angle);
  }

  lemma FlatAngles(c: Point, k: Point, f: Point)
    requires Upper(c) && Upper(k) && Upper(f) && k.y == 0.0 && Det(c, k) == 0.0
    ensures c.y == 0.0 && Det(f, c) <= 0.0
  {
    assert Det(c, k) == -(c.y * k.x);
    assert c.y > 0.0 ==> c.y * k.x > 0.0;
    assert Det(f, c) == -(f.y * c.x);
  }

  lemma BaseDecidesSuitability(vs: seq<Point>, h: int, es: seq<Entry>, points: seq<Entry>, f: int, g: int)
    requires IsPolar(vs, h, es) && IsTossed(vs, h, es, points)
    requires 0 <= f < g < |es| && Kept(points[f]) && Kept(points[g])
    requires forall k :: 0 <= k < f ==> !Kept(points[k])
    ensures At(vs, es, f) != vs[h] <==> Suitable(vs, h)
  {
    hide Cross, Det, Upper;
    assert IsEntry(vs, h, es[f]) && IsEntry(vs, h, es[g]);
    if At(vs, es, f) != vs[h] {
      KeptPairTurns(vs, h, es, points, f, g);
      assert Cross(vs[h], vs[es[f].index], vs[es[g].index]) != 0.0;
      if i :| 0 <= i < |vs| && i != h && vs[i] == vs[h] {
        var _ := LevelIsFirst(vs, h, es, points, f, i);
        LevelIsRight(vs, h, es[f].index);
      }
    } else {
      if i :| 0 <= i < |vs| && vs[i].y == vs[h].y && vs[i].x > vs[h].x {
        var _ := LevelIsFirst(vs, h, es, points, f, i);
        FartherIsOff(vs[h], At(vs, es, f), vs[i]);
      }
    }
  }

  lemma LevelIsRight(vs: seq<Point>, h: int, i: int)
    requires IsReference(vs, h) && 0 <= i < |vs| && vs[i] != vs[h] && Direction(vs[h], vs[i]).y == 0.0
    ensures vs[i].y == vs[h].y && vs[i].x > vs[h].x
  {
  }

  lemma StackIsHull(vs: seq<Point>, h: int, es: seq<Entry>, points: seq<Entry>, ps: seq<Point>)
    requires IsPolar(vs, h, es) && IsTossed(vs, h, es, points)
    requires |ps| >= 2 && ConvexChain(vs[h], ps) && AllInFan(vs, h, es, points, |points|, ps)
    requires forall i :: 0 <= i < |ps| ==> ps[i] in vs
    ensures IsHull([vs[h]] + ps, vs)
  {
    hide Cross, Det, Direction, Upper, InFan, ConvexChain, StrictlyConvex;
    var poly := [vs[h]] + ps;
    ChainIsStrictlyConvex(vs[h], ps);
    forall q | q in vs ensures Contains(poly, q) {
      ReferenceIsContained(poly);
      if q != vs[h] {
        var i :| 0 <= i < |vs| && vs[i] == q;
        var k := EntryOf(vs, h, es, i);
        assert IsCovered(vs, h, es, points, |es|, k);
        var c :| 0 <= c < |es| && Kept(points[c]) && Covers(vs, h, es, c, k);
        assert IsEntry(vs, h, es[k]) && IsEntry(vs, h, es[c]);
        FartherIsOff(vs[h], At(vs, es, c), q);
        FanIsContained(vs[h], ps, At(vs, es, c));
        forall e | 0 <= e < |poly| ensures Cross(poly[e], poly[Next(e, |poly|)], q) >= 0.0 {
          NearerPointOnSegment(vs[h], At(vs, es, c), q, poly[e], poly[Next(e, |poly|)]);
        }
      }
    }
  }

  lemma ReferenceIsContained(poly: seq<Point>)
    requires StrictlyConvex(poly)
    ensures Contains(poly, poly[0])
  {
    hide Cross;
    forall i | 0 <= i < |poly| ensures Cross(poly[i], poly[Next(i, |poly|)], poly[0]) >= 0.0 {
      CornerIsLeft(poly, i, 0);
    }
  }

  lemma FartherIsOff(o: Point, p: Point, q: Point)
    requires q != o && SquaredDistance(o, q) <= SquaredDistance(o, p)
    ensures p != o
  {
    hide SquaredDistance;
    NoDistance(o);
    SomeDistance(o, q);
  }

  lemma SomeDistance(o: Point, q: Point)
    requires q != o
    ensures SquaredDistance(o, q) > 0.0
  {
    assert q.x != o.x || q.y != o.y;
    SquareIsPositive(q.x - o.x);
    SquareIsPositive(q.y - o.y);
  }

  lemma SquareIsPositive(x: real)
    ensures Square(x) >= 0.0 && (x != 0.0 ==> Square(x) > 0.0)
  {
    SignedProduct(x, x, Square(x));
  }

  lemma SignedProduct(x: real, y: real, p: real)
    requires p == x * y
    ensures (x > 0.0 && y > 0.0) || (x < 0.0 && y < 0.0) ==> p > 0.0
  {
  }

  lemma NoDistance(o: Point)
    ensures SquaredDistance(o, o) == 0.0
  {
  }

  lemma RepeatedCornerIsNotHull(poly: seq<Point>, vs: seq<Point>)
    requires |poly| >= 3 && poly[0] == poly[1]
    ensures !IsHull(poly, vs)
  {
    assert Next(0, |poly|) == 1;
    Degenerate(poly[0], poly[2], poly[2]);
    CrossCyclic(poly[0], poly[0], poly[2]);
  }

  // Distinct points that do not all lie on one line always have their hull computed.
  lemma DistinctIsSuitable(vs: seq<Point>, h: int, a: int, b: int, c: int)
    requires 0 <= h < |vs| && 0 <= a < |vs| && 0 <= b < |vs| && 0 <= c < |vs|
    requires forall i, j :: 0 <= i < j < |vs| ==> vs[i] != vs[j]
    requires Cross(vs[a], vs[b], vs[c]) != 0.0
    ensures Suitable(vs, h)
  {
    CrossSplit(vs[h], vs[a], vs[b], vs[c]);
    assert Cross(vs[h], vs[a], vs[b]) != 0.0 || Cross(vs[h], vs[b], vs[c]) != 0.0 || Cross(vs[h], vs[a], vs[c]) != 0.0;
  }

  // With a second point on top of the reference, the hull is right exactly when the points span a
  // triangle and some other point lies level with the reference.
  lemma DuplicateReferenceSuitsIff(vs: seq<Point>, h: int, twin: int)
    requires IsReference(vs, h) && 0 <= twin < |vs| && twin != h && vs[twin] == vs[h]
    ensures Suitable(vs, h) <==>
      && (exists i, j :: 0 <= i < |vs| && 0 <= j < |vs| && Cross(vs[h], vs[i], vs[j]) != 0.0)
      && (exists i :: 0 <= i < |vs| && vs[i] != vs[h] && vs[i].y == vs[h].y)
  {
    hide Cross;
    forall i | 0 <= i < |vs| ensures vs[i].x > vs[h].x && vs[i].y == vs[h].y <==> vs[i] != vs[h] && vs[i].y == vs[h].y {
    }
  }

  // A square that stands on a corner given twice: the scan keeps the corner twice.
  lemma DuplicateReferenceIsUnsuitable()
    ensures var vs := [Point(0.0, 0.0), Point(0.0, 0.0), Point(1.0, 1.0), Point(-1.0, 1.0), Point(0.0, 2.0)];
      IsReference(vs, 0) && !Suitable(vs, 0)
  {
    var vs := [Point(0.0, 0.0), Point(0.0, 0.0), Point(1.0, 1.0), Point(-1.0, 1.0), Point(0.0, 2.0)];
    DuplicateReferenceSuitsIff(vs, 0, 1);
  }
}
