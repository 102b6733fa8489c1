// What a row's score measures, by which rule squarify ends its rows, and that rounded lengths give
// rectangles with integer edges.
module TreemapGreedy {
  import opened TreemapRows
  import opened Wrappers

  // ---------------------------------------------------------------- aspect ratios

  // A row with the areas a along a side of length u has the thickness v, and area k the length w in it:
  // how far w is from v over the target ratio, above or below.
  function Stretch(c: Config, area: real, total: real, u: real): real
    requires area > 0.0 && total > 0.0 && u > 0.0 && c.ratio > 0.0
  {
    var v := total / u;
    Positive(total, u);
    var w := area / v;
    Positive(area, v);
    PositiveProduct(c.ratio, w);
    Max(c.ratio * w / v, v / (c.ratio * w))
  }

  lemma Positive(n: real, d: real)
    requires n > 0.0 && d > 0.0
    ensures n / d > 0.0
  {
  }

  lemma PositiveProduct(x: real, y: real)
    requires x > 0.0 && y > 0.0
    ensures x * y > 0.0
  {
  }

  function Times(x: real, y: real): real {
    x * y
  }

  lemma TimesIsPositive(x: real, y: real)
    requires x > 0.0 && y > 0.0
    ensures Times(x, y) > 0.0
  {
  }

  ghost predicate AllZero(a: seq<real>) {
    forall k :: 0 <= k < |a| ==> a[k] == 0.0
  }

  // The worst aspect ratio among the areas that are not zero. A row without any scores Infinity, as
  // does a row along a side without length.
  ghost predicate IsWorst(c: Config, a: seq<real>, u: real, score: Score)
    requires c.ratio > 0.0 && u >= 0.0 && NonNegative(a)
  {
    if u == 0.0 || AllZero(a) then score == Infinity
    else
      && Sum(a) > 0.0 && score.Finite?
      && (forall k :: 0 <= k < |a| && a[k] > 0.0 ==> Stretch(c, a[k], Sum(a), u) <= score.value)
      && (exists k :: 0 <= k < |a| && a[k] > 0.0 && Stretch(c, a[k], Sum(a), u) == score.value)
  }

  // The least and the greatest of the areas that are not zero.
  ghost predicate IsExtent(a: seq<real>, e: Extent) {
    if AllZero(a) then e == Extent(Infinity, 0.0)
    else
      && e.rmin.Finite? && 0.0 < e.rmin.value <= e.rmax
      && (forall k :: 0 <= k < |a| && a[k] > 0.0 ==> e.rmin.value <= a[k] <= e.rmax)
      && e.rmin.value in a && e.rmax in a
  }

  lemma {:induction false} ExtentIs(a: seq<real>)
    requires NonNegative(a)
    ensures IsExtent(a, ExtentOf(a))
    decreases |a|
  {
    if a != [] {
      var n := |a| - 1;
      ExtentIs(a[..n]);
      assert a == a[..n] + [a[n]];
      assert AllZero(a) <==> AllZero(a[..n]) && a[n] == 0.0;
    }
  }

  lemma {:induction false} SumIsPositive(a: seq<real>, k: nat)
    requires NonNegative(a) && k < |a| && a[k] > 0.0
    ensures Sum(a) > 0.0
    decreases |a|
  {
    var n := |a| - 1;
    SumNonNegative(a[..n]);
    if k < n {
      SumIsPositive(a[..n], k);
    }
  }

  lemma StretchUnfolds(c: Config, area: real, total: real, u: real) returns (v: real, w: real, x: real)
    requires area > 0.0 && total > 0.0 && u > 0.0 && c.ratio > 0.0
    ensures v > 0.0 && x > 0.0 && v == total / u && w == area / v && x == c.ratio * w
    ensures Stretch(c, area, total, u) == Max(x / v, v / x)
  {
    v := total / u;
    Positive(total, u);
    w := area / v;
    Positive(area, v);
    x := c.ratio * w;
    PositiveProduct(c.ratio, w);
  }

  // The two sides of an aspect ratio in terms of the areas.
  lemma StretchIs(c: Config, area: real, total: real, u: real, m: real, s: real)
    requires area > 0.0 && total > 0.0 && u > 0.0 && c.ratio > 0.0 && m == Weight(c.ratio, area, u) && s == Times(total, total)
    ensures m > 0.0 && s > 0.0
    ensures Stretch(c, area, total, u) == Max(m / s, s / m)
  {
    hide Stretch, Max, Weight, Times;
    var v, w, x := StretchUnfolds(c, area, total, u);
    TimesIsPositive(total, total);
    WeightIsPositive(c.ratio, area, u);
    QuotientsAre(c.ratio, area, total, u, v, w, x, m, s);
  }

  function Weight(ratio: real, area: real, u: real): real {
    Times(Times(Times(u, u), area), ratio)
  }

  lemma WeightIsPositive(ratio: real, area: real, u: real)
    requires ratio > 0.0 && area > 0.0 && u > 0.0
    ensures Weight(ratio, area, u) > 0.0
  {
    hide Times;
    TimesIsPositive(u, u);
    TimesIsPositive(Times(u, u), area);
    TimesIsPositive(Times(Times(u, u), area), ratio);
  }

  lemma WeightsAdd(ratio: real, a: real, b: real, u: real)
    ensures Weight(ratio, a + b, u) == Weight(ratio, a, u) + Weight(ratio, b, u)
  {
  }

  lemma QuotientsAre(ratio: real, area: real, total: real, u: real, v: real, w: real, x: real, m: real, s: real)
    requires v > 0.0 && u > 0.0 && x > 0.0 && m > 0.0 && s > 0.0
    requires v == total / u && w == area / v && x == ratio * w && m == Weight(ratio, area, u) && s == Times(total, total)
    ensures x / v == m / s && v / x == s / m
  {
    Divided(total, u, v);
    Divided(area, v, w);
    LengthsMultiply(ratio, w, v, u, area, total);
    SameQuotient(x, v, m, s);
    assert v * m == x * s;
    SameQuotient(v, x, s, m);
  }

  lemma Divided(n: real, d: real, q: real)
    requires d != 0.0
    ensures q == n / d <==> q * d == n
  {
    assert (n / d) * d == n;
    if q * d == n {
      CancelFactor(q, n / d, d);
    }
  }

  lemma CancelFactor(x: real, y: real, d: real)
    requires d != 0.0 && x * d == y * d
    ensures x == y
  {
    assert (x - y) * d == 0.0;
  }

  lemma LengthsMultiply(ratio: real, w: real, v: real, u: real, area: real, total: real)
    requires v * u == total && w * v == area
    ensures (ratio * w) * Times(total, total) == v * Weight(ratio, area, u)
  {
    Rearranged(ratio, w, v, u);
  }

  lemma Rearranged(ratio: real, w: real, v: real, u: real)
    ensures (ratio * w) * ((v * u) * (v * u)) == v * (u * u * (w * v) * ratio)
  {
  }

  lemma SameQuotient(x: real, v: real, m: real, s: real)
    requires v > 0.0 && s > 0.0 && x * s == v * m
    ensures x / v == m / s
  {
    var q := x / v;
    Divided(x, v, q);
    assert (q * s) * v == (q * v) * s;
    assert m * v == v * m;
    CancelFactor(q * s, m, v);
    Divided(m, s, q);
  }

  lemma QuotientsOrdered(m: real, n: real, s: real)
    requires 0.0 < m <= n && s > 0.0
    ensures m / s <= n / s && s / n <= s / m
  {
    var x, y, p, q := m / s, n / s, s / n, s / m;
    Divided(m, s, x);
    Divided(n, s, y);
    Divided(s, n, p);
    Divided(s, m, q);
    CancelOrder(x, y, s);
    Positive(s, m);
    NotNegative(q, n - m);
    assert q * (n - m) == q * n - q * m;
    CancelOrder(p, q, n);
  }

  lemma CancelOrder(x: real, y: real, d: real)
    requires d > 0.0 && x * d <= y * d
    ensures x <= y
  {
    if x > y {
      PositiveProduct(x - y, d);
    }
  }

  lemma NotNegative(x: real, y: real)
    requires x >= 0.0 && y >= 0.0
    ensures x * y >= 0.0
  {
  }

  lemma WeightsOrdered(c: Config, a: real, b: real, u: real)
    requires 0.0 < a <= b && u > 0.0 && c.ratio > 0.0
    ensures 0.0 < Weight(c.ratio, a, u) <= Weight(c.ratio, b, u)
  {
    hide Weight;
    WeightIsPositive(c.ratio, a, u);
    if a < b {
      WeightIsPositive(c.ratio, b - a, u);
      WeightsAdd(c.ratio, a, b - a, u);
    }
  }

  // Between the two ends of an extent the stretch is at most what the ends give.
  lemma StretchWithin(c: Config, lo: real, area: real, hi: real, total: real, u: real)
    requires 0.0 < lo <= area <= hi && total > 0.0 && u > 0.0 && c.ratio > 0.0
    ensures Times(total, total) > 0.0 && Weight(c.ratio, lo, u) > 0.0
    ensures var most := Max(Weight(c.ratio, hi, u) / (Times(total, total)), Times(total, total) / Weight(c.ratio, lo, u));
      && Stretch(c, area, total, u) <= most
      && (area == hi && most == Weight(c.ratio, hi, u) / (Times(total, total)) ==> Stretch(c, area, total, u) == most)
      && (area == lo && most == Times(total, total) / Weight(c.ratio, lo, u) ==> Stretch(c, area, total, u) == most)
  {
    var m, s := Weight(c.ratio, area, u), Times(total, total);
    StretchIs(c, area, total, u, m, s);
    WeightsOrdered(c, lo, area, u);
    WeightsOrdered(c, area, hi, u);
    hide Stretch, Weight;
    QuotientsOrdered(Weight(c.ratio, lo, u), m, s);
    QuotientsOrdered(m, Weight(c.ratio, hi, u), s);
  }

  // The score of a row is its worst aspect ratio.
  lemma RowScoreIsWorst(c: Config, a: seq<real>, u: real)
    requires c.ratio > 0.0 && u >= 0.0 && NonNegative(a)
    ensures IsWorst(c, a, u, RowScore(c, a, u))
  {
    ExtentIs(a);
    var e, total := ExtentOf(a), Sum(a);
    if u == 0.0 || AllZero(a) {
      assert u == 0.0 && e.rmin.Finite? ==> u * u * e.rmin.value * c.ratio == 0.0;
    } else {
      var i := IndexOf(a, e.rmin.value);
      var j := IndexOf(a, e.rmax);
      SumIsPositive(a, i);
      StretchWithin(c, e.rmin.value, e.rmin.value, e.rmax, total, u);
      StretchWithin(c, e.rmin.value, e.rmax, e.rmax, total, u);
      ScoreIs(c, total, e, u);
      hide Stretch, RowScore, Sum, ExtentOf, Weight;
      forall k | 0 <= k < |a| && a[k] > 0.0 ensures Stretch(c, a[k], total, u) <= RowScore(c, a, u).value {
        StretchWithin(c, e.rmin.value, a[k], e.rmax, total, u);
      }
      assert Stretch(c, a[i], total, u) == RowScore(c, a, u).value || Stretch(c, a[j], total, u) == RowScore(c, a, u).value;
    }
  }

  lemma IndexOf(a: seq<real>, x: real) returns (k: nat)
    requires x in a
    ensures k < |a| && a[k] == x
  {
    k :| k < |a| && a[k] == x;
  }

  lemma ScoreIs(c: Config, total: real, e: Extent, u: real)
    requires total > 0.0 && e.rmin.Finite? && e.rmin.value > 0.0 && u > 0.0 && c.ratio > 0.0
    requires Times(total, total) != 0.0 && Weight(c.ratio, e.rmin.value, u) != 0.0
    ensures ScoreOf(c, total, e, u)
      == Finite(Max(Weight(c.ratio, e.rmax, u) / (Times(total, total)), Times(total, total) / Weight(c.ratio, e.rmin.value, u)))
  {
  }

  // ---------------------------------------------------------------- where rows end

  lemma WorstIsUnique(c: Config, a: seq<real>, u: real, s: Score, t: Score)
    requires c.ratio > 0.0 && u >= 0.0 && NonNegative(a) && IsWorst(c, a, u, s) && IsWorst(c, a, u, t)
    ensures s == t
  {
    hide Stretch, Sum;
    if s.Finite? {
      var i :| 0 <= i < |a| && a[i] > 0.0 && Stretch(c, a[i], Sum(a), u) == s.value;
      var j :| 0 <= j < |a| && a[j] > 0.0 && Stretch(c, a[j], Sum(a), u) == t.value;
      assert s.value <= t.value && t.value <= s.value;
    }
  }

  // Adding area q to the row that starts with area p does not make the worst aspect ratio of the row worse.
  ghost predicate Keeps(c: Config, a: seq<real>, p: nat, q: nat, u: real)
    requires c.ratio > 0.0 && u >= 0.0 && NonNegative(a) && p <= q < |a|
  {
    var row, longer := a[p..q], a[p..q + 1];
    exists before, after :: IsWorst(c, row, u, before) && IsWorst(c, longer, u, after) && AtMost(after, before)
  }

  lemma KeepsIff(c: Config, a: seq<real>, p: nat, q: nat, u: real)
    requires c.ratio > 0.0 && u >= 0.0 && NonNegative(a) && p <= q < |a|
    ensures Keeps(c, a, p, q, u) <==> AtMost(RowScore(c, a[p..q + 1], u), RowScore(c, a[p..q], u))
  {
    hide IsWorst, RowScore;
    var row, longer := a[p..q], a[p..q + 1];
    var before, after := RowScore(c, row, u), RowScore(c, longer, u);
    RowScoreIsWorst(c, row, u);
    RowScoreIsWorst(c, longer, u);
    forall s | IsWorst(c, row, u, s) ensures s == before {
      WorstIsUnique(c, row, u, s, before);
    }
    forall t | IsWorst(c, longer, u, t) ensures t == after {
      WorstIsUnique(c, longer, u, t, after);
    }
  }

  // No area of the row from p to e made its worst aspect ratio worse, and the next one would have.
  ghost predicate RowIsGreedy(c: Config, a: seq<real>, p: nat, e: nat, u: real)
    requires c.ratio > 0.0 && u >= 0.0 && NonNegative(a)
  {
    && p < e <= |a|
    && (forall q :: p < q < e ==> Keeps(c, a, p, q, u))
    && (e < |a| ==> !Keeps(c, a, p, e, u))
  }

  // The cells are rows of that kind, one after the other, each along the shorter side of what is left.
  ghost predicate Greedy(c: Config, a: seq<real>, p: nat, r: Rect, cells: seq<Cell>)
    requires c.ratio > 0.0 && NonNegative(a) && p <= |a|
    decreases |a| - p
  {
    if p == |a| then cells == []
    else
      Proper(r) && exists e: nat ::
        && RowIsGreedy(c, a, p, e, Min(r.dx, r.dy))
        && e - p <= |cells| && cells[..e - p] == RowCells(c, a[p..e], Min(r.dx, r.dy), r, e == |a|)
        && Greedy(c, a, e, RowRest(c, a[p..e], Min(r.dx, r.dy), r, e == |a|), cells[e - p..])
  }

  lemma {:induction false} RowEnds(c: Config, a: seq<real>, p: nat, q: nat, r: Rect, u: real) returns (e: nat)
    requires c.ratio > 0.0 && u >= 0.0 && NonNegative(a) && p < q <= |a|
    requires forall i :: p < i < q ==> Keeps(c, a, p, i, u)
    ensures q <= e && RowIsGreedy(c, a, p, e, u)
    ensures var rest := RowRest(c, a[p..e], u, r, e == |a|);
      SquarifyFrom(c, a, p, q, r, u, RowScore(c, a[p..q], u))
      == RowCells(c, a[p..e], u, r, e == |a|) + SquarifyFrom(c, a, e, e, rest, Min(rest.dx, rest.dy), Infinity)
    decreases |a| - q
  {
    hide RowScore, RowCells, RowRest, Keeps;
    e := q;
    if q < |a| {
      KeepsIff(c, a, p, q, u);
      if Keeps(c, a, p, q, u) {
        e := RowEnds(c, a, p, q + 1, r, u);
      }
    }
  }

  lemma NothingLeft(c: Config, a: seq<real>, r: Rect)
    ensures SquarifyFrom(c, a, |a|, |a|, r, Min(r.dx, r.dy), Infinity) == []
  {
  }

  // A first area is always taken.
  lemma FirstIsTaken(c: Config, a: seq<real>, p: nat, r: Rect, u: real)
    requires p < |a|
    ensures SquarifyFrom(c, a, p, p, r, u, Infinity) == SquarifyFrom(c, a, p, p + 1, r, u, RowScore(c, a[p..p + 1], u))
  {
    hide RowScore, RowCells, RowRest;
  }

  lemma {:induction false} RowsAreGreedy(c: Config, a: seq<real>, p: nat, r: Rect)
    requires c.ratio > 0.0 && RoundsNonNegative(c) && NonNegative(a) && p <= |a| && Proper(r)
    ensures Greedy(c, a, p, r, SquarifyFrom(c, a, p, p, r, Min(r.dx, r.dy), Infinity))
    decreases |a| - p
  {
    hide RowCells, RowRest, RowScore, RowIsGreedy, SquarifyFrom, RoundsNonNegative;
    var u := Min(r.dx, r.dy);
    if p < |a| {
      FirstIsTaken(c, a, p, r, u);
      var e := RowEnds(c, a, p, p + 1, r, u);
      RowBounds(c, a, p, e, u);
      var row, rest := RowCells(c, a[p..e], u, r, e == |a|), RowRest(c, a[p..e], u, r, e == |a|);
      AreaIsAdditive();
      RowConserves(c, Area, a[p..e], u, r, e == |a|);
      RowsAreGreedy(c, a, e, rest);
      var cells, more := SquarifyFrom(c, a, p, p, r, u, Infinity), SquarifyFrom(c, a, e, e, rest, Min(rest.dx, rest.dy), Infinity);
      assert cells == row + more && cells[..e - p] == row && cells[e - p..] == more;
    } else {
      NothingLeft(c, a, r);
    }
  }

  lemma RowBounds(c: Config, a: seq<real>, p: nat, e: nat, u: real)
    requires c.ratio > 0.0 && u >= 0.0 && NonNegative(a) && RowIsGreedy(c, a, p, e, u)
    ensures p < e <= |a|
  {
  }

  // For every list of areas and every rectangle the rows of squarify end by that rule.
  lemma SquarifyIsGreedy(c: Config, a: seq<real>, r: Rect)
    requires c.ratio > 0.0 && RoundsNonNegative(c) && NonNegative(a) && Proper(r)
    ensures Greedy(c, a, 0, r, SquarifyCells(c, a, r))
  {
    hide Greedy, SquarifyFrom;
    RowsAreGreedy(c, a, 0, r);
  }

  // ---------------------------------------------------------------- rounded lengths

  predicate Whole(x: real) {
    x == x.Floor as real
  }

  lemma WholeSums(x: real, y: real)
    requires Whole(x) && Whole(y)
    ensures Whole(x + y) && Whole(x - y)
  {
    hide Whole;
    WholeIs(x);
    WholeIs(y);
    SumOfWhole(x.Floor, y.Floor);
    SumOfWhole(x.Floor, -y.Floor);
  }

  lemma WholeIs(x: real)
    requires Whole(x)
    ensures x == x.Floor as real
  {
  }

  lemma SumOfWhole(i: int, j: int)
    ensures Whole(i as real + j as real) && i as real + j as real == (i + j) as real && (-j) as real == -(j as real)
  {
    assert (i + j) as real == i as real + j as real;
  }

  ghost predicate RoundsToWhole(c: Config) {
    forall v: real :: Whole(c.round(v))
  }

  ghost predicate WholeRect(r: Rect) {
    Whole(r.x) && Whole(r.y) && Whole(r.dx) && Whole(r.dy)
  }

  ghost predicate AllWhole(cells: seq<Cell>) {
    forall k :: 0 <= k < |cells| ==> WholeRect(cells[k].rect)
  }

  lemma {:induction false} RowXIsWhole(c: Config, areas: seq<real>, x: real, right: real, y: real, v: real)
    requires RoundsToWhole(c) && Whole(x) && Whole(right) && Whole(y) && Whole(v)
    ensures AllWhole(RowX(c, areas, x, right, y, v))
    decreases |areas|
  {
    hide Whole;
    WholeZero();
    WholeSums(right, x);
    if |areas| > 1 {
      var w := Extend(c, areas[0], v, right - x);
      assert v != 0.0 ==> Whole(c.round(areas[0] / v));
      WholeSums(x, w);
      RowXIsWhole(c, areas[1..], x + w, right, y, v);
    }
  }

  lemma {:induction false} RowYIsWhole(c: Config, areas: seq<real>, y: real, bottom: real, x: real, v: real)
    requires RoundsToWhole(c) && Whole(y) && Whole(bottom) && Whole(x) && Whole(v)
    ensures AllWhole(RowY(c, areas, y, bottom, x, v))
    decreases |areas|
  {
    hide Whole;
    WholeZero();
    WholeSums(bottom, y);
    if |areas| > 1 {
      var w := Extend(c, areas[0], v, bottom - y);
      assert v != 0.0 ==> Whole(c.round(areas[0] / v));
      WholeSums(y, w);
      RowYIsWhole(c, areas[1..], y + w, bottom, x, v);
    }
  }

  lemma WholeZero()
    ensures Whole(0.0)
  {
  }

  lemma RowIsWhole(c: Config, areas: seq<real>, u: real, r: Rect, flush: bool)
    requires RoundsToWhole(c) && WholeRect(r)
    ensures AllWhole(RowCells(c, areas, u, r, flush)) && WholeRect(RowRest(c, areas, u, r, flush))
  {
    hide Whole, RowX, RowY, Sum;
    var v := RowThickness(c, areas, u, r, flush);
    WholeZero();
    assert u != 0.0 ==> Whole(c.round(Sum(areas) / u));
    assert Whole(v);
    WholeSums(r.x, r.dx);
    WholeSums(r.y, r.dy);
    WholeSums(r.x, v);
    WholeSums(r.y, v);
    WholeSums(r.dx, v);
    WholeSums(r.dy, v);
    RowXIsWhole(c, areas, r.x, r.x + r.dx, r.y, v);
    RowYIsWhole(c, areas, r.y, r.y + r.dy, r.x, v);
  }

  // With lengths rounded to integers, a rectangle with integer edges is divided into such rectangles.
  lemma {:induction false} SquarifyIsWhole(c: Config, a: seq<real>, p: nat, q: nat, r: Rect, u: real, best: Score)
    requires p <= q <= |a| && (best.Infinity? || p < q) && RoundsToWhole(c) && WholeRect(r)
    ensures AllWhole(SquarifyFrom(c, a, p, q, r, u, best))
    decreases |a| - p, |a| - q
  {
    hide RowScore, RowCells, RowRest, WholeRect, RoundsToWhole;
    if q == |a| {
      RowIsWhole(c, a[p..q], u, r, true);
    } else {
      var score := RowScore(c, a[p..q + 1], u);
      if AtMost(score, best) {
        SquarifyIsWhole(c, a, p, q + 1, r, u, score);
      } else {
        RowIsWhole(c, a[p..q], u, r, false);
        var rest := RowRest(c, a[p..q], u, r, false);
        SquarifyIsWhole(c, a, q, q, rest, Min(rest.dx, rest.dy), Infinity);
      }
    }
  }

  // The same for a sticky layout, whatever marks it follows.
  lemma {:induction false} StickifyIsWhole(c: Config, a: seq<real>, z: seq<Option<bool>>, p: nat, q: nat, r: Rect)
    requires p <= q <= |a| == |z| && RoundsToWhole(c) && WholeRect(r)
    ensures AllWhole(StickifyFrom(c, a, z, p, q, r))
    decreases |a| - q
  {
    hide RowCells, RowRest, WholeRect, RoundsToWhole;
    if q < |a| {
      if z[q].None? {
        StickifyIsWhole(c, a, z, p, q + 1, r);
      } else {
        var u, row, flush := if z[q].value then r.dx else r.dy, a[p..q + 1], q + 1 == |a|;
        RowIsWhole(c, row, u, r, flush);
        StickifyIsWhole(c, a, z, q + 1, q + 1, RowRest(c, row, u, r, flush));
      }
    }
  }
}
