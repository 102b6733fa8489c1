// Exact plane geometry shared by the hull and the clipping models.
module Geometry {
  datatype Point = Point(x: real, y: real)

  // Twice the signed area of the triangle o, a, b: positive when it turns counter-clockwise.
  function Cross(o: Point, a: Point, b: Point): real {
    (b.y - o.y) * (a.x - o.x) - (a.y - o.y) * (b.x - o.x)
  }

  lemma CrossCyclic(a: Point, b: Point, c: Point)
    ensures Cross(a, b, c) == Cross(b, c, a) == Cross(c, a, b)
    ensures Cross(a, c, b) == -Cross(a, b, c)
  {
  }

  // Every triangle splits into three triangles around a fourth point.
  lemma CrossSplit(o: Point, a: Point, b: Point, c: Point)
    ensures Cross(a, b, c) == Cross(o, a, b) + Cross(o, b, c) - Cross(o, a, c)
  {
  }

  // The Grassmann-Pluecker relation between the triangles at o.
  lemma Pluecker(o: Point, a: Point, b: Point, c: Point, d: Point)
    ensures Cross(o, a, d) * Cross(o, b, c) == Cross(o, a, c) * Cross(o, b, d) - Cross(o, a, b) * Cross(o, c, d)
  {
  }

  // q lies in the closed triangle o, a, b, which turns counter-clockwise.
  predicate InTriangle(o: Point, a: Point, b: Point, q: Point) {
    Cross(o, a, b) > 0.0 && Cross(o, a, q) >= 0.0 && Cross(o, q, b) >= 0.0 && Cross(a, b, q) >= 0.0
  }

  // Barycentric coordinates of q in the triangle o, a, b.
  lemma Barycentric(o: Point, a: Point, b: Point, q: Point)
    ensures Cross(o, a, b) == Cross(o, q, b) + Cross(o, a, q) + Cross(a, b, q)
    ensures Cross(o, a, b) * q.x == Cross(o, q, b) * a.x + Cross(o, a, q) * b.x + Cross(a, b, q) * o.x
    ensures Cross(o, a, b) * q.y == Cross(o, q, b) * a.y + Cross(o, a, q) * b.y + Cross(a, b, q) * o.y
  {
  }

  // The signed area on a fixed edge is affine in the third point.
  lemma CrossAffine(s: Point, t: Point, q: Point)
    ensures Cross(s, t, q) == (t.x - s.x) * q.y - (t.y - s.y) * q.x + (s.x * t.y - s.y * t.x)
  {
  }

  // A half-plane that holds the corners of a triangle holds the triangle.
  lemma TriangleInHalfPlane(s: Point, t: Point, o: Point, a: Point, b: Point, q: Point)
    requires InTriangle(o, a, b, q)
    requires Cross(s, t, o) >= 0.0 && Cross(s, t, a) >= 0.0 && Cross(s, t, b) >= 0.0
    ensures Cross(s, t, q) >= 0.0
  {
    var area, wa, wb, wo := Cross(o, a, b), Cross(o, q, b), Cross(o, a, q), Cross(a, b, q);
    CrossCombination(s, t, o, a, b, q);
    NonNegativeSum(area, Cross(s, t, q), wa, Cross(s, t, a), wb, Cross(s, t, b), wo, Cross(s, t, o));
  }

  lemma CrossCombination(s: Point, t: Point, o: Point, a: Point, b: Point, q: Point)
    ensures Cross(o, a, b) * Cross(s, t, q)
         == Cross(o, q, b) * Cross(s, t, a) + Cross(o, a, q) * Cross(s, t, b) + Cross(a, b, q) * Cross(s, t, o)
  {
    Barycentric(o, a, b, q);
    AffineCombination(Cross(o, a, b), Cross(o, q, b), Cross(o, a, q), Cross(a, b, q), s, t, a, b, o, q);
  }

  lemma AffineCombination(k: real, wa: real, wb: real, wo: real, s: Point, t: Point, a: Point, b: Point, o: Point, q: Point)
    requires k == wa + wb + wo
    requires k * q.x == wa * a.x + wb * b.x + wo * o.x
    requires k * q.y == wa * a.y + wb * b.y + wo * o.y
    ensures k * Cross(s, t, q) == wa * Cross(s, t, a) + wb * Cross(s, t, b) + wo * Cross(s, t, o)
  {
    var dx, dy, c := t.x - s.x, t.y - s.y, s.x * t.y - s.y * t.x;
    CrossAffine(s, t, q);
    CrossAffine(s, t, a);
    CrossAffine(s, t, b);
    CrossAffine(s, t, o);
    Distribute(k, wa, wb, wo, dx, dy, c, q.x, q.y, a.x, a.y, b.x, b.y, o.x, o.y);
  }

  lemma Distribute(k: real, wa: real, wb: real, wo: real, dx: real, dy: real, c: real,
                   qx: real, qy: real, ax: real, ay: real, bx: real, by_: real, ox: real, oy: real)
    requires k == wa + wb + wo
    requires k * qx == wa * ax + wb * bx + wo * ox
    requires k * qy == wa * ay + wb * by_ + wo * oy
    ensures k * (dx * qy - dy * qx + c)
         == wa * (dx * ay - dy * ax + c) + wb * (dx * by_ - dy * bx + c) + wo * (dx * oy - dy * ox + c)
  {
    assert k * (dx * qy - dy * qx + c) == dx * (k * qy) - dy * (k * qx) + k * c;
  }

  lemma NonNegativeSum(k: real, v: real, wa: real, a: real, wb: real, b: real, wo: real, o: real)
    requires k > 0.0 && k * v == wa * a + wb * b + wo * o
    requires wa >= 0.0 && a >= 0.0 && wb >= 0.0 && b >= 0.0 && wo >= 0.0 && o >= 0.0
    ensures v >= 0.0
  {
    assert wa * a >= 0.0 && wb * b >= 0.0 && wo * o >= 0.0;
    assert v < 0.0 ==> k * v < 0.0;
  }
}
