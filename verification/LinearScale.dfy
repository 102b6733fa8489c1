// The linear scale: piecewise linear interpolation between a domain and a range, and its inverse.
module LinearScale {
  // ---------------------------------------------------------------- bisection

  // The insertion point after any entries equal to x, by binary search.
  function BisectRight(a: seq<real>, x: real, lo: nat, hi: nat): (i: nat)
    requires hi <= |a|
    ensures lo <= hi ==> lo <= i <= hi
    decreases hi - lo
  {
    if lo < hi then
      var mid := (lo + hi) / 2;
      if x < a[mid] then BisectRight(a, x, lo, mid) else BisectRight(a, x, mid + 1, hi)
    else lo
  }

  method Bisect(a: seq<real>, x: real, from: nat, to: nat) returns (i: nat)
    requires to <= |a|
    ensures i == BisectRight(a, x, from, to)
  {
    var lo: nat, hi: nat := from, to;
    while lo < hi
      invariant hi <= |a| && BisectRight(a, x, lo, hi) == BisectRight(a, x, from, to)
    {
      var mid := (lo + hi) / 2;
      if x < a[mid] {
        hi := mid;
      } else {
        lo := mid + 1;
      }
    }
    return lo;
  }

  predicate Ascending(a: seq<real>) {
    forall i, j :: 0 <= i < j < |a| ==> a[i] < a[j]
  }

  // Entries may repeat.
  predicate Sorted(a: seq<real>) {
    forall i, j :: 0 <= i < j < |a| ==> a[i] <= a[j]
  }

  predicate Descending(a: seq<real>) {
    forall i, j :: 0 <= i < j < |a| ==> a[i] > a[j]
  }

  lemma {:induction false} BisectPartitions(a: seq<real>, x: real, lo: nat, hi: nat)
    requires Sorted(a) && lo <= hi <= |a|
    ensures var i := BisectRight(a, x, lo, hi);
      (forall j :: lo <= j < i ==> a[j] <= x) && (forall j :: i <= j < hi ==> x < a[j])
    decreases hi - lo
  {
    if lo < hi {
      var mid := (lo + hi) / 2;
      AroundMiddle(a, mid);
      hide Sorted;
      if x < a[mid] {
        BisectPartitions(a, x, lo, mid);
      } else {
        BisectPartitions(a, x, mid + 1, hi);
      }
    }
  }

  lemma AroundMiddle(a: seq<real>, mid: nat)
    requires Sorted(a) && mid < |a|
    ensures forall j :: 0 <= j <= mid ==> a[j] <= a[mid]
    ensures forall j :: mid <= j < |a| ==> a[mid] <= a[j]
  {
  }

  // ---------------------------------------------------------------- one piece

  // What uninterpolating from a to b keeps: the start and the factor.
  function Factor(a: real, b: real): (real, real) {
    (a, if b - a != 0.0 then 1.0 / (b - a) else 0.0)
  }

  // What interpolating from a to b keeps: the start and the span.
  function Span(a: real, b: real): (real, real) {
    (a, b - a)
  }

  function Uninterpolate(u: (real, real), x: real): real {
    (x - u.0) * u.1
  }

  function Interpolate(i: (real, real), t: real): real {
    i.0 + i.1 * t
  }

  // The line through (a, p) and (b, q).
  function Line(a: real, b: real, p: real, q: real, x: real): real {
    Interpolate(Span(p, q), Uninterpolate(Factor(a, b), x))
  }

  lemma LineAtEnds(a: real, b: real, p: real, q: real)
    requires a != b
    ensures Line(a, b, p, q, a) == p && Line(a, b, p, q, b) == q
  {
    assert (b - a) * (1.0 / (b - a)) == 1.0;
  }

  // The rise of the line above p, by cross-multiplication.
  lemma LineIs(a: real, b: real, p: real, q: real, x: real, y: real)
    requires a != b
    ensures y == Line(a, b, p, q, x) <==> (y - p) * (b - a) == (q - p) * (x - a)
  {
    var w, u := b - a, x - a;
    var t := u * (1.0 / w);
    assert t * w == u;
    Scaled(y - p, q - p, t, w, u);
  }

  lemma Scaled(rise: real, h: real, t: real, w: real, u: real)
    requires w != 0.0 && t * w == u
    ensures rise == h * t <==> rise * w == h * u
  {
    assert h * u == (h * t) * w;
    assert (rise - h * t) * w == rise * w - h * u;
  }

  lemma LineReversed(a: real, b: real, p: real, q: real, x: real)
    requires a != b
    ensures Line(b, a, q, p, x) == Line(a, b, p, q, x)
  {
    hide Line;
    var y := Line(a, b, p, q, x);
    LineIs(a, b, p, q, x, y);
    LineIs(b, a, q, p, x, y);
    Turned(a, b, p, q, x, y);
  }

  lemma Turned(a: real, b: real, p: real, q: real, x: real, y: real)
    requires (y - p) * (b - a) == (q - p) * (x - a)
    ensures (y - q) * (a - b) == (p - q) * (x - b)
  {
    assert (y - q) * (a - b) == (q - p) * (b - a) - (y - p) * (b - a);
    assert (p - q) * (x - b) == (q - p) * (b - a) - (q - p) * (x - a);
  }

  lemma LineInverts(a: real, b: real, p: real, q: real, x: real)
    requires a != b && p != q
    ensures Line(p, q, a, b, Line(a, b, p, q, x)) == x
  {
    hide Line;
    var y := Line(a, b, p, q, x);
    LineIs(a, b, p, q, x, y);
    LineIs(p, q, a, b, y, x);
  }

  // To the right of x the line is on q's side of its value at x.
  lemma LineRises(a: real, b: real, p: real, q: real, x: real, x': real)
    requires a < b && x < x'
    ensures p < q ==> Line(a, b, p, q, x) < Line(a, b, p, q, x')
    ensures p > q ==> Line(a, b, p, q, x) > Line(a, b, p, q, x')
  {
    var s := 1.0 / (b - a);
    assert s > 0.0;
    Times(x' - x, s);
    var t, t' := (x - a) * s, (x' - a) * s;
    assert t' - t == (x' - x) * s;
    if p < q {
      Times(q - p, t' - t);
    } else if p > q {
      Times(p - q, t' - t);
    }
  }

  lemma Times(u: real, v: real)
    requires u > 0.0 && v > 0.0
    ensures u * v > 0.0
  {
  }

  // A domain without length is mapped to the start of the range.
  lemma LineOfPoint(a: real, p: real, q: real, x: real)
    ensures Line(a, a, p, q, x) == p
  {
    assert (x - a) * 0.0 == 0.0 && (q - p) * 0.0 == 0.0;
  }

  // ---------------------------------------------------------------- all pieces

  function Reverse(a: seq<real>): (r: seq<real>)
    ensures |r| == |a| && forall i :: 0 <= i < |a| ==> r[i] == a[|a| - 1 - i]
  {
    seq(|a|, i requires 0 <= i < |a| => a[|a| - 1 - i])
  }

  // Descending domains are turned around, and the range with them.
  function Oriented(domain: seq<real>, a: seq<real>): (r: seq<real>)
    requires domain != []
    ensures |r| == |a|
  {
    if domain[|domain| - 1] < domain[0] then Reverse(a) else a
  }

  // One scale from domain to range; two knots give a single line.
  function Scale(domain: seq<real>, range: seq<real>, x: real): real
    requires |domain| == |range| >= 2
  {
    if |domain| == 2 then Line(domain[0], domain[1], range[0], range[1], x)
    else
      var k := |domain| - 1;
      var d, r := Oriented(domain, domain), Oriented(domain, range);
      var j := BisectRight(d, x, 1, k) - 1;
      Line(d[j], d[j + 1], r[j], r[j + 1], x)
  }

  // The pieces as the program keeps them: start and factor of each domain piece, start and span of
  // each range piece.
  class Polylinear {
    const knots: seq<real>
    const u: seq<(real, real)>
    const i: seq<(real, real)>
    ghost const domain: seq<real>
    ghost const range: seq<real>

    ghost predicate Valid() {
      && |domain| == |range| >= 2 && |u| == |i| == |domain| - 1 && knots == Oriented(domain, domain)
      && (forall j :: 0 <= j < |u| ==> u[j] == Factor(knots[j], knots[j + 1]))
      && (forall j :: 0 <= j < |i| ==> i[j] == Span(Oriented(domain, range)[j], Oriented(domain, range)[j + 1]))
    }

    constructor (domain: seq<real>, range: seq<real>)
      requires |domain| == |range| >= 2
      ensures Valid() && this.domain == domain && this.range == range
    {
      var k := |domain| - 1;
      var d, r := domain, range;
      if domain[k] < domain[0] {
        d, r := Reverse(domain), Reverse(range);
      }
      var us: seq<(real, real)>, vs: seq<(real, real)> := [], [];
      for j := 1 to k + 1
        invariant |us| == |vs| == j - 1
        invariant forall m :: 0 <= m < j - 1 ==> us[m] == Factor(d[m], d[m + 1]) && vs[m] == Span(r[m], r[m + 1])
      {
        us := us + [Factor(d[j - 1], d[j])];
        vs := vs + [Span(r[j - 1], r[j])];
      }
      knots, u, i := d, us, vs;
      this.domain, this.range := domain, range;
    }

    method At(x: real) returns (y: real)
      requires Valid() && |domain| > 2
      ensures y == Scale(domain, range, x)
    {
      hide BisectRight, Oriented, Factor, Span, Uninterpolate, Interpolate;
      var n := Bisect(knots, x, 1, |knots| - 1);
      var j := n - 1;
      y := Interpolate(i[j], Uninterpolate(u[j], x));
    }
  }

  // The scale picks the form by the number of knots; invert is the same with domain and range exchanged.
  method Output(domain: seq<real>, range: seq<real>, x: real) returns (y: real)
    requires |domain| == |range| >= 2
    ensures y == Scale(domain, range, x)
  {
    if |domain| == 2 {
      y := Interpolate(Span(range[0], range[1]), Uninterpolate(Factor(domain[0], domain[1]), x));
    } else {
      var scale := new Polylinear(domain, range);
      y := scale.At(x);
    }
  }

  // ---------------------------------------------------------------- what the scale computes

  predicate Monotone(a: seq<real>) {
    |a| >= 2 && (Ascending(a) || Descending(a))
  }

  // a comes no later than b in the direction of the knots.
  predicate NotAfter(up: bool, a: real, b: real) {
    if up then a <= b else a >= b
  }

  // x lies in piece j; the first and the last piece go on without end.
  predicate On(d: seq<real>, j: nat, x: real) {
    && j + 1 < |d|
    && (j > 0 ==> NotAfter(d[0] < d[1], d[j], x))
    && (j + 2 < |d| ==> NotAfter(d[0] < d[1], x, d[j + 1]))
  }

  function Piece(d: seq<real>, r: seq<real>, j: nat, x: real): real
    requires |d| == |r| && j + 1 < |d|
  {
    Line(d[j], d[j + 1], r[j], r[j + 1], x)
  }

  // The pieces agree where they meet.
  lemma PieceUnique(d: seq<real>, r: seq<real>, i: nat, j: nat, x: real)
    requires |d| == |r| && Monotone(d) && i < j && On(d, i, x) && On(d, j, x)
    ensures Piece(d, r, i, x) == Piece(d, r, j, x)
  {
    hide Line;
    assert j == i + 1;
    assert x == d[j];
    LineAtEnds(d[i], d[j], r[i], r[j]);
    LineAtEnds(d[j], d[j + 1], r[j], r[j + 1]);
  }

  // The piece that the scale chooses.
  lemma Chosen(d: seq<real>, r: seq<real>, x: real) returns (j: nat)
    requires |d| == |r| && Monotone(d)
    ensures On(d, j, x) && Scale(d, r, x) == Piece(d, r, j, x)
  {
    hide Line, BisectRight;
    var k := |d| - 1;
    if k == 1 {
      j := 0;
    } else if Ascending(d) {
      assert Sorted(d);
      BisectPartitions(d, x, 1, k);
      j := BisectRight(d, x, 1, k) - 1;
    } else {
      var d', r' := Reverse(d), Reverse(r);
      assert Sorted(d');
      BisectPartitions(d', x, 1, k);
      var m := BisectRight(d', x, 1, k) - 1;
      j := k - 1 - m;
      assert d'[m] == d[j + 1] && d'[m + 1] == d[j] && r'[m] == r[j + 1] && r'[m + 1] == r[j];
      LineReversed(d[j], d[j + 1], r[j], r[j + 1], x);
    }
  }

  lemma ScaleIs(d: seq<real>, r: seq<real>, j: nat, x: real)
    requires |d| == |r| && Monotone(d) && On(d, j, x)
    ensures Scale(d, r, x) == Piece(d, r, j, x)
  {
    hide Line, Scale, On;
    var i := Chosen(d, r, x);
    if i < j {
      PieceUnique(d, r, i, j, x);
    } else if j < i {
      PieceUnique(d, r, j, i, x);
    }
  }

  lemma AgreesAtKnots(d: seq<real>, r: seq<real>, i: nat)
    requires |d| == |r| && Monotone(d) && i < |d|
    ensures Scale(d, r, d[i]) == r[i]
  {
    hide Line, Scale;
    var j := if i + 1 < |d| then i else i - 1;
    assert On(d, j, d[i]);
    ScaleIs(d, r, j, d[i]);
    LineAtEnds(d[j], d[j + 1], r[j], r[j + 1]);
  }

  // The value lies in the piece of the range.
  lemma ValueOnPiece(d: seq<real>, r: seq<real>, j: nat, x: real)
    requires |d| == |r| && Monotone(d) && Monotone(r) && On(d, j, x)
    ensures On(r, j, Piece(d, r, j, x))
  {
    hide Line;
    var a, b, p, q := d[j], d[j + 1], r[j], r[j + 1];
    LineAtEnds(a, b, p, q);
    if j > 0 {
      LineOrder(a, b, p, q, a, x);
    }
    if j + 2 < |d| {
      LineOrder(a, b, p, q, x, b);
    }
  }

  // Moving x in the direction from a to b moves the value in the direction from p to q.
  lemma LineOrder(a: real, b: real, p: real, q: real, x: real, x': real)
    requires a != b && p != q && (if a < b then x <= x' else x >= x')
    ensures if p < q then Line(a, b, p, q, x) <= Line(a, b, p, q, x') else Line(a, b, p, q, x) >= Line(a, b, p, q, x')
    ensures x != x' ==> Line(a, b, p, q, x) != Line(a, b, p, q, x')
  {
    hide Line;
    if x != x' {
      if a < b {
        LineRises(a, b, p, q, x, x');
      } else {
        LineReversed(a, b, p, q, x);
        LineReversed(a, b, p, q, x');
        LineRises(b, a, q, p, x', x);
      }
    }
  }

  // invert undoes scale, also beyond the ends of the domain.
  lemma InvertUndoesScale(d: seq<real>, r: seq<real>, x: real)
    requires |d| == |r| && Monotone(d) && Monotone(r)
    ensures Scale(r, d, Scale(d, r, x)) == x
  {
    hide Line, Scale, On;
    var j := Chosen(d, r, x);
    ValueOnPiece(d, r, j, x);
    ScaleIs(r, d, j, Scale(d, r, x));
    assert d[j] != d[j + 1] && r[j] != r[j + 1] by {
      Strict(d, r, j, x);
    }
    LineInverts(d[j], d[j + 1], r[j], r[j + 1], x);
  }

  lemma Strict(d: seq<real>, r: seq<real>, j: nat, x: real)
    requires |d| == |r| && Monotone(d) && Monotone(r) && On(d, j, x)
    ensures j + 1 < |d| && d[j] != d[j + 1] && r[j] != r[j + 1]
  {
  }

  // Strictly monotone on all reals: rising when domain and range go the same way, falling when not.
  lemma ScaleIsMonotone(d: seq<real>, r: seq<real>, x: real, x': real)
    requires |d| == |r| && Monotone(d) && Monotone(r) && x < x'
    ensures Ascending(d) == Ascending(r) ==> Scale(d, r, x) < Scale(d, r, x')
    ensures Ascending(d) != Ascending(r) ==> Scale(d, r, x) > Scale(d, r, x')
  {
    hide Line, Scale;
    if Ascending(d) {
      MovesForward(d, r, x, x');
    } else {
      MovesForward(d, r, x', x);
    }
  }

  lemma MovesForward(d: seq<real>, r: seq<real>, x: real, x': real)
    requires |d| == |r| && Monotone(d) && Monotone(r) && x != x' && NotAfter(d[0] < d[1], x, x')
    ensures Scale(d, r, x) != Scale(d, r, x') && NotAfter(r[0] < r[1], Scale(d, r, x), Scale(d, r, x'))
  {
    hide Line, Scale;
    var i := Chosen(d, r, x);
    var j := Chosen(d, r, x');
    assert i <= j;
    LineOrder(d[i], d[i + 1], r[i], r[i + 1], x, if i == j then x' else d[i + 1]);
    if i < j {
      LineAtEnds(d[i], d[i + 1], r[i], r[i + 1]);
      LineAtEnds(d[j], d[j + 1], r[j], r[j + 1]);
      LineOrder(d[j], d[j + 1], r[j], r[j + 1], d[j], x');
      assert i + 1 < j ==> r[i + 1] != r[j] && NotAfter(r[0] < r[1], r[i + 1], r[j]);
    }
  }

  // Two equal knots: every value becomes the first of the range, and the inverse of a constant range is the
  // start of the domain.
  lemma FlatIsConstant(d: seq<real>, r: seq<real>, x: real)
    requires |d| == |r| == 2 && d[0] == d[1]
    ensures Scale(d, r, x) == r[0]
  {
    LineOfPoint(d[0], r[0], r[1], x);
  }

  // Knots that never go down but may repeat: a knot below the next one is mapped to its own value, so of
  // several equal knots the last one counts.
  lemma RepeatedKnot(d: seq<real>, r: seq<real>, j: nat)
    requires |d| == |r| >= 2 && Sorted(d) && j + 1 < |d| && d[j] < d[j + 1]
    ensures Scale(d, r, d[j]) == r[j]
  {
    hide Line;
    if |d| > 2 {
      BisectPartitions(d, d[j], 1, |d| - 1);
    }
    LineAtEnds(d[j], d[j + 1], r[j], r[j + 1]);
  }
}
