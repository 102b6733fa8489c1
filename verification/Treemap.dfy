// The rows of a squarified treemap as values: where one node's children are put, and why the
// rectangles tile the rectangle of the node.
module TreemapRows {
  import opened Wrappers

  datatype Rect = Rect(x: real, y: real, dx: real, dy: real)

  // Where a child is put. The last child of a row remembers the row's orientation.
  datatype Cell = Cell(rect: Rect, z: Option<bool>)

  // A row's score; an empty or degenerate row scores Infinity.
  datatype Score = Finite(value: real) | Infinity

  predicate AtMost(a: Score, b: Score) {
    b.Infinity? || (a.Finite? && a.value <= b.value)
  }

  function Min(a: real, b: real): real {
    if a < b then a else b
  }

  function Max(a: real, b: real): real {
    if a < b then b else a
  }

  // What the layout is configured with: the rounding of lengths and the target aspect ratio.
  datatype Config = Config(round: real -> real, ratio: real)

  ghost predicate RoundsNonNegative(c: Config) {
    forall v: real :: v >= 0.0 ==> c.round(v) >= 0.0
  }

  function Sum(areas: seq<real>): real {
    if areas == [] then 0.0 else Sum(areas[..|areas| - 1]) + areas[|areas| - 1]
  }

  // ---------------------------------------------------------------- the score of a row

  // The least and the greatest area of a row that are not zero.
  datatype Extent = Extent(rmin: Score, rmax: real)

  function ExtentOf(areas: seq<real>): Extent {
    if areas == [] then Extent(Infinity, 0.0)
    else
      var e, r := ExtentOf(areas[..|areas| - 1]), areas[|areas| - 1];
      if r == 0.0 then e
      else Extent(if e.rmin.Infinity? || r < e.rmin.value then Finite(r) else e.rmin, if r > e.rmax then r else e.rmax)
  }

  function ScoreOf(c: Config, s: real, e: Extent, u: real): Score {
    if s * s == 0.0 || e.rmin.Infinity? || u * u * e.rmin.value * c.ratio == 0.0 then Infinity
    else Finite(Max(u * u * e.rmax * c.ratio / (s * s), s * s / (u * u * e.rmin.value * c.ratio)))
  }

  function RowScore(c: Config, areas: seq<real>, u: real): Score {
    ScoreOf(c, Sum(areas), ExtentOf(areas), u)
  }

  // ---------------------------------------------------------------- one row

  // The thickness of a row laid along a side of length u.
  function Thickness(c: Config, total: real, u: real, limit: real, flush: bool): real {
    var v := if u != 0.0 then c.round(total / u) else 0.0;
    if flush || v > limit then limit else v
  }

  function Extend(c: Config, area: real, v: real, room: real): real {
    Min(room, if v != 0.0 then c.round(area / v) else 0.0)
  }

  // The cells of a row that starts at x and must end at right; the last cell takes what is left.
  function RowX(c: Config, areas: seq<real>, x: real, right: real, y: real, v: real): seq<Cell> {
    if areas == [] then []
    else if |areas| == 1 then [Cell(Rect(x, y, right - x, v), Some(true))]
    else
      var w := Extend(c, areas[0], v, right - x);
      [Cell(Rect(x, y, w, v), None)] + RowX(c, areas[1..], x + w, right, y, v)
  }

  function RowY(c: Config, areas: seq<real>, y: real, bottom: real, x: real, v: real): seq<Cell> {
    if areas == [] then []
    else if |areas| == 1 then [Cell(Rect(x, y, v, bottom - y), Some(false))]
    else
      var w := Extend(c, areas[0], v, bottom - y);
      [Cell(Rect(x, y, v, w), None)] + RowY(c, areas[1..], y + w, bottom, x, v)
  }

  function RowThickness(c: Config, areas: seq<real>, u: real, r: Rect, flush: bool): real {
    Thickness(c, Sum(areas), u, if u == r.dx then r.dy else r.dx, flush)
  }

  function RowCells(c: Config, areas: seq<real>, u: real, r: Rect, flush: bool): seq<Cell> {
    var v := RowThickness(c, areas, u, r, flush);
    if u == r.dx then RowX(c, areas, r.x, r.x + r.dx, r.y, v) else RowY(c, areas, r.y, r.y + r.dy, r.x, v)
  }

  function RowRest(c: Config, areas: seq<real>, u: real, r: Rect, flush: bool): Rect {
    var v := RowThickness(c, areas, u, r, flush);
    if u == r.dx then Rect(r.x, r.y + v, r.dx, r.dy - v) else Rect(r.x + v, r.y, r.dx - v, r.dy)
  }

  // ---------------------------------------------------------------- all rows

  // Areas p to q are in the current row, which is laid along the side of length u and scored best.
  function SquarifyFrom(c: Config, a: seq<real>, p: nat, q: nat, r: Rect, u: real, best: Score): seq<Cell>
    requires p <= q <= |a| && (best.Infinity? || p < q)
    decreases |a| - p, |a| - q
  {
    if q == |a| then
      if p < q then RowCells(c, a[p..q], u, r, true) else []
    else
      var score := RowScore(c, a[p..q + 1], u);
      if AtMost(score, best) then SquarifyFrom(c, a, p, q + 1, r, u, score)
      else
        var rest := RowRest(c, a[p..q], u, r, false);
        RowCells(c, a[p..q], u, r, false) + SquarifyFrom(c, a, q, q, rest, Min(rest.dx, rest.dy), Infinity)
  }

  function SquarifyCells(c: Config, a: seq<real>, r: Rect): seq<Cell> {
    SquarifyFrom(c, a, 0, 0, r, Min(r.dx, r.dy), Infinity)
  }

  // The same from the marks z of an earlier layout: a row ends at every mark. Areas after the last
  // mark are not put anywhere.
  function StickifyFrom(c: Config, a: seq<real>, z: seq<Option<bool>>, p: nat, q: nat, r: Rect): seq<Cell>
    requires p <= q <= |a| == |z|
    decreases |a| - q
  {
    if q == |a| then []
    else if z[q].None? then StickifyFrom(c, a, z, p, q + 1, r)
    else
      var u, row, flush := if z[q].value then r.dx else r.dy, a[p..q + 1], q + 1 == |a|;
      RowCells(c, row, u, r, flush) + StickifyFrom(c, a, z, q + 1, q + 1, RowRest(c, row, u, r, flush))
  }

  function Marks(cells: seq<Cell>): seq<Option<bool>> {
    seq(|cells|, k requires 0 <= k < |cells| => cells[k].z)
  }

  // ---------------------------------------------------------------- what every split conserves

  function LeftPart(r: Rect, w: real): Rect {
    Rect(r.x, r.y, w, r.dy)
  }

  function RightPart(r: Rect, w: real): Rect {
    Rect(r.x + w, r.y, r.dx - w, r.dy)
  }

  function TopPart(r: Rect, w: real): Rect {
    Rect(r.x, r.y, r.dx, w)
  }

  function BottomPart(r: Rect, w: real): Rect {
    Rect(r.x, r.y + w, r.dx, r.dy - w)
  }

  // m gives every rectangle the sum of what it gives to the two parts of any straight cut.
  ghost predicate Additive(m: Rect -> real) {
    && (forall r: Rect, w: real :: 0.0 <= w <= r.dx ==> m(r) == m(LeftPart(r, w)) + m(RightPart(r, w)))
    && (forall r: Rect, w: real :: 0.0 <= w <= r.dy ==> m(r) == m(TopPart(r, w)) + m(BottomPart(r, w)))
  }

  ghost function Total(m: Rect -> real, cells: seq<Cell>): real {
    if cells == [] then 0.0 else m(cells[0].rect) + Total(m, cells[1..])
  }

  lemma {:induction false} TotalConcat(m: Rect -> real, a: seq<Cell>, b: seq<Cell>)
    ensures Total(m, a + b) == Total(m, a) + Total(m, b)
    decreases |a|
  {
    if a == [] {
      assert a + b == b;
    } else {
      assert (a + b)[0] == a[0] && (a + b)[1..] == a[1..] + b;
      TotalConcat(m, a[1..], b);
    }
  }

  predicate Within(inner: Rect, outer: Rect) {
    && 0.0 <= inner.dx && 0.0 <= inner.dy
    && outer.x <= inner.x && inner.x + inner.dx <= outer.x + outer.dx
    && outer.y <= inner.y && inner.y + inner.dy <= outer.y + outer.dy
  }

  ghost predicate AllWithin(cells: seq<Cell>, outer: Rect) {
    forall k :: 0 <= k < |cells| ==> Within(cells[k].rect, outer)
  }

  ghost predicate NonNegative(a: seq<real>) {
    forall k :: 0 <= k < |a| ==> a[k] >= 0.0
  }

  lemma ExtendFits(c: Config, area: real, v: real, room: real)
    requires RoundsNonNegative(c) && area >= 0.0 && v >= 0.0 && room >= 0.0
    ensures 0.0 <= Extend(c, area, v, room) <= room
  {
    if v != 0.0 {
      QuotientNonNegative(area, v);
      assert c.round(area / v) >= 0.0;
    }
  }

  lemma QuotientNonNegative(n: real, d: real)
    requires n >= 0.0 && d > 0.0
    ensures n / d >= 0.0
  {
  }

  lemma {:induction false} RowXConserves(c: Config, m: Rect -> real, areas: seq<real>, x: real, right: real, y: real, v: real)
    requires RoundsNonNegative(c) && Additive(m) && NonNegative(areas) && areas != [] && x <= right && v >= 0.0
    ensures var cells, strip := RowX(c, areas, x, right, y, v), Rect(x, y, right - x, v);
      |cells| == |areas| && Total(m, cells) == m(strip) && AllWithin(cells, strip)
    decreases |areas|
  {
    if |areas| > 1 {
      var w, strip := Extend(c, areas[0], v, right - x), Rect(x, y, right - x, v);
      ExtendFits(c, areas[0], v, right - x);
      RowXConserves(c, m, areas[1..], x + w, right, y, v);
      assert LeftPart(strip, w) == Rect(x, y, w, v) && RightPart(strip, w) == Rect(x + w, y, right - (x + w), v);
      TotalConcat(m, [Cell(Rect(x, y, w, v), None)], RowX(c, areas[1..], x + w, right, y, v));
    }
  }

  lemma {:induction false} RowYConserves(c: Config, m: Rect -> real, areas: seq<real>, y: real, bottom: real, x: real, v: real)
    requires RoundsNonNegative(c) && Additive(m) && NonNegative(areas) && areas != [] && y <= bottom && v >= 0.0
    ensures var cells, strip := RowY(c, areas, y, bottom, x, v), Rect(x, y, v, bottom - y);
      |cells| == |areas| && Total(m, cells) == m(strip) && AllWithin(cells, strip)
    decreases |areas|
  {
    if |areas| > 1 {
      var w, strip := Extend(c, areas[0], v, bottom - y), Rect(x, y, v, bottom - y);
      ExtendFits(c, areas[0], v, bottom - y);
      RowYConserves(c, m, areas[1..], y + w, bottom, x, v);
      assert TopPart(strip, w) == Rect(x, y, v, w) && BottomPart(strip, w) == Rect(x, y + w, v, bottom - (y + w));
      TotalConcat(m, [Cell(Rect(x, y, v, w), None)], RowY(c, areas[1..], y + w, bottom, x, v));
    }
  }

  lemma {:induction false} SumNonNegative(areas: seq<real>)
    requires NonNegative(areas)
    ensures Sum(areas) >= 0.0
    decreases |areas|
  {
    if areas != [] {
      SumNonNegative(areas[..|areas| - 1]);
    }
  }

  lemma ThicknessFits(c: Config, total: real, u: real, limit: real, flush: bool)
    requires RoundsNonNegative(c) && total >= 0.0 && u >= 0.0 && limit >= 0.0
    ensures 0.0 <= Thickness(c, total, u, limit, flush) <= limit
    ensures flush ==> Thickness(c, total, u, limit, flush) == limit
  {
    if u != 0.0 {
      QuotientNonNegative(total, u);
      assert c.round(total / u) >= 0.0;
    }
  }

  predicate Proper(r: Rect) {
    r.dx >= 0.0 && r.dy >= 0.0
  }

  // A row and the rectangle left after it divide the rectangle; a flush row leaves nothing.
  lemma RowConserves(c: Config, m: Rect -> real, areas: seq<real>, u: real, r: Rect, flush: bool)
    requires RoundsNonNegative(c) && Additive(m) && NonNegative(areas) && areas != [] && Proper(r) && u >= 0.0
    ensures var cells, rest := RowCells(c, areas, u, r, flush), RowRest(c, areas, u, r, flush);
      && |cells| == |areas| && AllWithin(cells, r) && Within(rest, r)
      && m(r) == Total(m, cells) + m(rest)
      && (flush ==> m(r) == Total(m, cells))
  {
    var v, cells := RowThickness(c, areas, u, r, flush), RowCells(c, areas, u, r, flush);
    SumNonNegative(areas);
    ThicknessFits(c, Sum(areas), u, if u == r.dx then r.dy else r.dx, flush);
    if u == r.dx {
      RowXConserves(c, m, areas, r.x, r.x + r.dx, r.y, v);
      assert TopPart(r, v) == Rect(r.x, r.y, r.x + r.dx - r.x, v);
      assert BottomPart(r, v) == RowRest(c, areas, u, r, flush);
      assert flush ==> TopPart(r, v) == r;
    } else {
      RowYConserves(c, m, areas, r.y, r.y + r.dy, r.x, v);
      assert LeftPart(r, v) == Rect(r.x, r.y, v, r.y + r.dy - r.y);
      assert RightPart(r, v) == RowRest(c, areas, u, r, flush);
      assert flush ==> LeftPart(r, v) == r;
    }
  }

  lemma WithinIsTransitive(cells: seq<Cell>, rest: Rect, r: Rect)
    requires AllWithin(cells, rest) && Within(rest, r)
    ensures AllWithin(cells, r)
  {
  }

  lemma {:induction false} SquarifyConserves(c: Config, m: Rect -> real, a: seq<real>, p: nat, q: nat, r: Rect, u: real, best: Score)
    requires p <= q <= |a| && (best.Infinity? || p < q)
    requires RoundsNonNegative(c) && Additive(m) && NonNegative(a) && Proper(r) && u >= 0.0
    ensures var cells := SquarifyFrom(c, a, p, q, r, u, best);
      |cells| == |a| - p && AllWithin(cells, r) && (p < |a| ==> Total(m, cells) == m(r))
    decreases |a| - p, |a| - q
  {
    hide Additive, RoundsNonNegative, RowScore, RowCells, RowRest, Within;
    if q == |a| {
      if p < q {
        RowConserves(c, m, a[p..q], u, r, true);
      }
    } else {
      var score := RowScore(c, a[p..q + 1], u);
      if AtMost(score, best) {
        SquarifyConserves(c, m, a, p, q + 1, r, u, score);
      } else {
        var row, rest := RowCells(c, a[p..q], u, r, false), RowRest(c, a[p..q], u, r, false);
        RowConserves(c, m, a[p..q], u, r, false);
        WithinIsProper(rest, r);
        SquarifyConserves(c, m, a, q, q, rest, Min(rest.dx, rest.dy), Infinity);
        var more := SquarifyFrom(c, a, q, q, rest, Min(rest.dx, rest.dy), Infinity);
        WithinIsTransitive(more, rest, r);
        TotalConcat(m, row, more);
      }
    }
  }

  lemma WithinIsProper(inner: Rect, outer: Rect)
    requires Within(inner, outer)
    ensures Proper(inner)
  {
  }

  // ---------------------------------------------------------------- tiling

  function Area(r: Rect): real {
    r.dx * r.dy
  }

  // Whether a point lies in the rectangle, left and top edges included, right and bottom not.
  predicate Covers(r: Rect, px: real, py: real) {
    r.x <= px < r.x + r.dx && r.y <= py < r.y + r.dy
  }

  function Cover(px: real, py: real): Rect -> real {
    r => if Covers(r, px, py) then 1.0 else 0.0
  }

  lemma AreaIsAdditive()
    ensures Additive(Area)
  {
    forall r: Rect, w: real | 0.0 <= w <= r.dx ensures Area(r) == Area(LeftPart(r, w)) + Area(RightPart(r, w)) {
      assert r.dx * r.dy == w * r.dy + (r.dx - w) * r.dy;
    }
    forall r: Rect, w: real | 0.0 <= w <= r.dy ensures Area(r) == Area(TopPart(r, w)) + Area(BottomPart(r, w)) {
      assert r.dx * r.dy == r.dx * w + r.dx * (r.dy - w);
    }
  }

  lemma CoverIsAdditive(px: real, py: real)
    ensures Additive(Cover(px, py))
  {
  }

  // How many of the cells cover a point.
  function Covering(cells: seq<Cell>, px: real, py: real): nat {
    if cells == [] then 0 else (if Covers(cells[0].rect, px, py) then 1 else 0) + Covering(cells[1..], px, py)
  }

  lemma {:induction false} CoveringIsTotal(cells: seq<Cell>, px: real, py: real)
    ensures Total(Cover(px, py), cells) == Covering(cells, px, py) as real
    decreases |cells|
  {
    if cells != [] {
      CoveringIsTotal(cells[1..], px, py);
    }
  }

  // The cells of a node's children tile its rectangle: every point of it is covered by exactly one
  // child, no other point by any, every cell lies within it, and the areas add up to its area.
  lemma SquarifyTiles(c: Config, a: seq<real>, r: Rect, px: real, py: real)
    requires RoundsNonNegative(c) && NonNegative(a) && a != [] && Proper(r)
    ensures var cells := SquarifyCells(c, a, r);
      && |cells| == |a| && AllWithin(cells, r)
      && Covering(cells, px, py) == (if Covers(r, px, py) then 1 else 0)
      && Total(Area, cells) == Area(r)
  {
    hide Additive, SquarifyFrom, RoundsNonNegative;
    var u := Min(r.dx, r.dy);
    AreaIsAdditive();
    CoverIsAdditive(px, py);
    SquarifyConserves(c, Area, a, 0, 0, r, u, Infinity);
    SquarifyConserves(c, Cover(px, py), a, 0, 0, r, u, Infinity);
    CoveringIsTotal(SquarifyCells(c, a, r), px, py);
  }

  lemma {:induction false} CoveredTwice(cells: seq<Cell>, i: nat, j: nat, px: real, py: real)
    requires i < j < |cells| && Covers(cells[i].rect, px, py) && Covers(cells[j].rect, px, py)
    ensures Covering(cells, px, py) >= 2
    decreases i
  {
    if i == 0 {
      CoveredOnce(cells[1..], j - 1, px, py);
    } else {
      CoveredTwice(cells[1..], i - 1, j - 1, px, py);
    }
  }

  lemma {:induction false} CoveredOnce(cells: seq<Cell>, j: nat, px: real, py: real)
    requires j < |cells| && Covers(cells[j].rect, px, py)
    ensures Covering(cells, px, py) >= 1
    decreases j
  {
    if j > 0 {
      CoveredOnce(cells[1..], j - 1, px, py);
    }
  }

  lemma {:induction false} CoveredBySome(cells: seq<Cell>, px: real, py: real) returns (k: nat)
    requires Covering(cells, px, py) >= 1
    ensures k < |cells| && Covers(cells[k].rect, px, py)
    decreases |cells|
  {
    if Covers(cells[0].rect, px, py) {
      k := 0;
    } else {
      k := CoveredBySome(cells[1..], px, py);
      k := k + 1;
    }
  }

  // The cells are in r, no two of them overlap, and together they cover r.
  ghost predicate Partition(cells: seq<Cell>, r: Rect, px: real, py: real) {
    && AllWithin(cells, r)
    && (forall i, j :: 0 <= i < j < |cells| ==> !(Covers(cells[i].rect, px, py) && Covers(cells[j].rect, px, py)))
    && (Covers(r, px, py) <==> exists i :: 0 <= i < |cells| && Covers(cells[i].rect, px, py))
  }

  lemma SquarifyPartitions(c: Config, a: seq<real>, r: Rect, px: real, py: real)
    requires RoundsNonNegative(c) && NonNegative(a) && a != [] && Proper(r)
    ensures |SquarifyCells(c, a, r)| == |a| && Partition(SquarifyCells(c, a, r), r, px, py)
  {
    hide SquarifyCells, Covers, AllWithin, RoundsNonNegative;
    SquarifyTiles(c, a, r, px, py);
    var cells := SquarifyCells(c, a, r);
    forall i, j | 0 <= i < j < |cells| ensures !(Covers(cells[i].rect, px, py) && Covers(cells[j].rect, px, py)) {
      if Covers(cells[i].rect, px, py) && Covers(cells[j].rect, px, py) {
        CoveredTwice(cells, i, j, px, py);
      }
    }
    if Covers(r, px, py) {
      var k := CoveredBySome(cells, px, py);
    }
    forall i | 0 <= i < |cells| && Covers(cells[i].rect, px, py) ensures Covers(r, px, py) {
      CoveredOnce(cells, i, px, py);
    }
  }

  // ---------------------------------------------------------------- sticky layouts

  lemma {:induction false} RowXMarks(c: Config, areas: seq<real>, x: real, right: real, y: real, v: real, k: nat)
    requires k < |areas|
    ensures var cells := RowX(c, areas, x, right, y, v);
      |cells| == |areas| && cells[k].z == if k == |areas| - 1 then Some(true) else None
    decreases |areas|
  {
    if |areas| > 1 {
      RowXMarks(c, areas[1..], x + Extend(c, areas[0], v, right - x), right, y, v, if k == 0 then 0 else k - 1);
    }
  }

  lemma {:induction false} RowYMarks(c: Config, areas: seq<real>, y: real, bottom: real, x: real, v: real, k: nat)
    requires k < |areas|
    ensures var cells := RowY(c, areas, y, bottom, x, v);
      |cells| == |areas| && cells[k].z == if k == |areas| - 1 then Some(false) else None
    decreases |areas|
  {
    if |areas| > 1 {
      RowYMarks(c, areas[1..], y + Extend(c, areas[0], v, bottom - y), bottom, x, v, if k == 0 then 0 else k - 1);
    }
  }

  // Only the last cell of a row is marked, with the row's orientation.
  lemma RowMarks(c: Config, areas: seq<real>, u: real, r: Rect, flush: bool, k: nat)
    requires k < |areas|
    ensures var cells := RowCells(c, areas, u, r, flush);
      |cells| == |areas| && cells[k].z == if k == |areas| - 1 then Some(u == r.dx) else None
  {
    var v := RowThickness(c, areas, u, r, flush);
    RowXMarks(c, areas, r.x, r.x + r.dx, r.y, v, k);
    RowYMarks(c, areas, r.y, r.y + r.dy, r.x, v, k);
  }

  // Without a mark the row goes on.
  lemma {:induction false} StickifySkips(c: Config, a: seq<real>, z: seq<Option<bool>>, p: nat, q: nat, e: nat, r: Rect)
    requires p <= q <= e <= |a| == |z| && forall k :: q <= k < e ==> z[k].None?
    ensures StickifyFrom(c, a, z, p, q, r) == StickifyFrom(c, a, z, p, e, r)
    decreases e - q
  {
    if q < e {
      StickifySkips(c, a, z, p, q + 1, e, r);
    }
  }

  lemma StickifyRow(c: Config, a: seq<real>, z: seq<Option<bool>>, p: nat, q: nat, r: Rect, u: real, flush: bool)
    requires p < q <= |a| == |z| && u == Min(r.dx, r.dy) && flush == (q == |a|)
    requires |RowCells(c, a[p..q], u, r, flush)| == q - p
    requires forall k :: p <= k < q ==> z[k] == RowCells(c, a[p..q], u, r, flush)[k - p].z
    ensures StickifyFrom(c, a, z, p, p, r)
         == RowCells(c, a[p..q], u, r, flush) + StickifyFrom(c, a, z, q, q, RowRest(c, a[p..q], u, r, flush))
  {
    hide RowCells, RowRest;
    forall k | p <= k < q ensures z[k] == if k == q - 1 then Some(u == r.dx) else None {
      RowMarks(c, a[p..q], u, r, flush, k - p);
    }
    StickifySkips(c, a, z, p, p, q - 1, r);
  }

  lemma {:induction false} StickifyFollows(c: Config, a: seq<real>, z: seq<Option<bool>>, p: nat, q: nat, r: Rect, u: real, best: Score)
    requires p <= q <= |a| == |z| && (best.Infinity? || p < q) && u == Min(r.dx, r.dy)
    requires |SquarifyFrom(c, a, p, q, r, u, best)| == |a| - p
    requires forall k :: p <= k < |a| ==> z[k] == SquarifyFrom(c, a, p, q, r, u, best)[k - p].z
    ensures StickifyFrom(c, a, z, p, p, r) == SquarifyFrom(c, a, p, q, r, u, best)
    decreases |a| - p, |a| - q
  {
    hide RowScore, RowCells, RowRest, StickifyFrom;
    if q == |a| {
      if p < q {
        StickifyRow(c, a, z, p, q, r, u, true);
      }
      StickifyNothing(c, a, z, RowRest(c, a[p..q], u, r, true));
      StickifyNothing(c, a, z, r);
    } else {
      var score := RowScore(c, a[p..q + 1], u);
      if AtMost(score, best) {
        StickifyFollows(c, a, z, p, q + 1, r, u, score);
      } else {
        var row, rest := RowCells(c, a[p..q], u, r, false), RowRest(c, a[p..q], u, r, false);
        var more := SquarifyFrom(c, a, q, q, rest, Min(rest.dx, rest.dy), Infinity);
        RowMarks(c, a[p..q], u, r, false, 0);
        forall k | p <= k < q ensures z[k] == row[k - p].z {
          assert (row + more)[k - p] == row[k - p];
        }
        forall k | q <= k < |a| ensures z[k] == more[k - q].z {
          assert (row + more)[k - p] == more[k - q];
        }
        StickifyRow(c, a, z, p, q, r, u, false);
        StickifyFollows(c, a, z, q, q, rest, Min(rest.dx, rest.dy), Infinity);
      }
    }
  }

  lemma StickifyNothing(c: Config, a: seq<real>, z: seq<Option<bool>>, r: Rect)
    requires |a| == |z|
    ensures StickifyFrom(c, a, z, |a|, |a|, r) == []
  {
  }

  lemma {:induction false} SquarifyLength(c: Config, a: seq<real>, p: nat, q: nat, r: Rect, u: real, best: Score)
    requires p <= q <= |a| && (best.Infinity? || p < q)
    ensures |SquarifyFrom(c, a, p, q, r, u, best)| == |a| - p
    decreases |a| - p, |a| - q
  {
    hide RowScore, RowCells, RowRest;
    if q == |a| {
      if p < q {
        RowMarks(c, a[p..q], u, r, true, 0);
      }
    } else {
      var score := RowScore(c, a[p..q + 1], u);
      if AtMost(score, best) {
        SquarifyLength(c, a, p, q + 1, r, u, score);
      } else {
        var rest := RowRest(c, a[p..q], u, r, false);
        RowMarks(c, a[p..q], u, r, false, 0);
        SquarifyLength(c, a, q, q, rest, Min(rest.dx, rest.dy), Infinity);
      }
    }
  }

  // The marks of a squarified layout determine its rows, orientations and flushes: the sticky
  // layout of the same areas in the same rectangle is the same layout, marks included.
  lemma StickifyReproduces(c: Config, a: seq<real>, r: Rect)
    ensures |SquarifyCells(c, a, r)| == |a|
    ensures StickifyFrom(c, a, Marks(SquarifyCells(c, a, r)), 0, 0, r) == SquarifyCells(c, a, r)
  {
    hide SquarifyFrom, StickifyFrom;
    var u := Min(r.dx, r.dy);
    SquarifyLength(c, a, 0, 0, r, u, Infinity);
    StickifyFollows(c, a, Marks(SquarifyCells(c, a, r)), 0, 0, r, u, Infinity);
  }

  // ---------------------------------------------------------------- marks of earlier layouts

  // A layout writes marks only at the ends of its rows and never clears one, so a node may still
  // carry the mark of an earlier layout.
  function MarkLeft(mark: Option<bool>, stale: Option<bool>): Option<bool> {
    if mark.Some? then mark else stale
  }

  function MarksOver(cells: seq<Cell>, stale: seq<Option<bool>>): (z: seq<Option<bool>>)
    requires |cells| == |stale|
    ensures |z| == |cells| && forall k :: 0 <= k < |z| ==> z[k] == MarkLeft(cells[k].z, stale[k])
  {
    seq(|cells|, k requires 0 <= k < |cells| => MarkLeft(cells[k].z, stale[k]))
  }

  // When the last child is marked, the sticky layout puts every child somewhere, and ends a row at
  // every mark and nowhere else.
  lemma {:induction false} StickifyEndsRows(c: Config, a: seq<real>, z: seq<Option<bool>>, p: nat, q: nat, r: Rect)
    requires p <= q <= |a| == |z| && (p < |a| ==> q < |a| && z[|a| - 1].Some?) && forall k :: p <= k < q ==> z[k].None?
    ensures |StickifyFrom(c, a, z, p, q, r)| == |a| - p
    ensures forall k :: p <= k < |a| ==> (StickifyFrom(c, a, z, p, q, r)[k - p].z.Some? <==> z[k].Some?)
    decreases |a| - q
  {
    hide RowCells, RowRest;
    if q < |a| {
      if z[q].None? {
        StickifyEndsRows(c, a, z, p, q + 1, r);
      } else {
        var u, row, flush := if z[q].value then r.dx else r.dy, a[p..q + 1], q + 1 == |a|;
        RowMarks(c, row, u, r, flush, q - p);
        forall k | 0 <= k < |row| ensures RowCells(c, row, u, r, flush)[k].z.Some? <==> k == q - p {
          RowMarks(c, row, u, r, flush, k);
        }
        StickifyEndsRows(c, a, z, q + 1, q + 1, RowRest(c, row, u, r, flush));
        forall k | p <= k < |a| ensures StickifyFrom(c, a, z, p, q, r)[k - p].z.Some? <==> z[k].Some? {
          if k <= q {
            assert StickifyFrom(c, a, z, p, q, r)[k - p] == RowCells(c, row, u, r, flush)[k - p];
          }
        }
      }
    }
  }

  lemma {:induction false} LastIsMarked(c: Config, a: seq<real>, p: nat, q: nat, r: Rect, u: real, best: Score)
    requires p <= q <= |a| && p < |a| && (best.Infinity? || p < q)
    ensures var cells := SquarifyFrom(c, a, p, q, r, u, best); |cells| == |a| - p && cells[|a| - p - 1].z.Some?
    decreases |a| - p, |a| - q
  {
    hide RowScore, RowCells, RowRest;
    if q == |a| {
      RowMarks(c, a[p..q], u, r, true, q - p - 1);
    } else {
      var score := RowScore(c, a[p..q + 1], u);
      if AtMost(score, best) {
        LastIsMarked(c, a, p, q + 1, r, u, score);
      } else {
        var rest := RowRest(c, a[p..q], u, r, false);
        RowMarks(c, a[p..q], u, r, false, 0);
        LastIsMarked(c, a, q, q, rest, Min(rest.dx, rest.dy), Infinity);
      }
    }
  }

  // With marks left by an earlier layout, the sticky layout is the squarified one again exactly
  // when none of them is off a row end.
  lemma StickifyReproducesIff(c: Config, a: seq<real>, r: Rect, stale: seq<Option<bool>>)
    requires |stale| == |a|
    ensures var cells := SquarifyCells(c, a, r);
      && |cells| == |a|
      && (StickifyFrom(c, a, MarksOver(cells, stale), 0, 0, r) == cells <==>
          forall k :: 0 <= k < |a| && stale[k].Some? ==> cells[k].z.Some?)
  {
    hide SquarifyFrom, StickifyFrom, MarksOver;
    StickifyReproduces(c, a, r);
    var cells := SquarifyCells(c, a, r);
    var z := MarksOver(cells, stale);
    if forall k :: 0 <= k < |a| && stale[k].Some? ==> cells[k].z.Some? {
      assert z == Marks(cells);
    } else {
      LastIsMarked(c, a, 0, 0, r, Min(r.dx, r.dy), Infinity);
      StickifyEndsRows(c, a, z, 0, 0, r);
      var k :| 0 <= k < |a| && stale[k].Some? && !cells[k].z.Some?;
      assert z[k].Some? && StickifyFrom(c, a, z, 0, 0, r)[k - 0].z.Some?;
    }
  }

  // Whatever marks a sticky layout follows, as long as the last child has one: its cells divide
  // the rectangle as those of squarify do.
  lemma {:induction false} StickifyConserves(c: Config, m: Rect -> real, a: seq<real>, z: seq<Option<bool>>, p: nat, q: nat, r: Rect)
    requires p <= q <= |a| == |z| && (p < |a| ==> q < |a| && z[|a| - 1].Some?)
    requires RoundsNonNegative(c) && Additive(m) && NonNegative(a) && Proper(r)
    ensures var cells := StickifyFrom(c, a, z, p, q, r);
      |cells| == |a| - p && AllWithin(cells, r) && (p < |a| ==> Total(m, cells) == m(r))
    decreases |a| - q
  {
    hide Additive, RoundsNonNegative, RowCells, RowRest, Within;
    if q < |a| {
      if z[q].None? {
        StickifyConserves(c, m, a, z, p, q + 1, r);
      } else {
        var u, row, flush := if z[q].value then r.dx else r.dy, a[p..q + 1], q + 1 == |a|;
        var cells, rest := RowCells(c, row, u, r, flush), RowRest(c, row, u, r, flush);
        RowConserves(c, m, row, u, r, flush);
        WithinIsProper(rest, r);
        StickifyConserves(c, m, a, z, q + 1, q + 1, rest);
        var more := StickifyFrom(c, a, z, q + 1, q + 1, rest);
        WithinIsTransitive(more, rest, r);
        TotalConcat(m, cells, more);
      }
    }
  }

  // ---------------------------------------------------------------- any new size and areas

  // Whether some row marked vertical starts in a square, where it is laid horizontally.
  predicate MeetsSquare(c: Config, a: seq<real>, z: seq<Option<bool>>, p: nat, q: nat, r: Rect)
    requires p <= q <= |a| == |z|
    decreases |a| - q
  {
    q < |a| &&
    if z[q].None? then MeetsSquare(c, a, z, p, q + 1, r)
    else
      var u, row, flush := if z[q].value then r.dx else r.dy, a[p..q + 1], q + 1 == |a|;
      (!z[q].value && r.dx == r.dy) || MeetsSquare(c, a, z, q + 1, q + 1, RowRest(c, row, u, r, flush))
  }

  // Whatever the new areas and the new rectangle: the rows stay, and every row stays horizontal or
  // vertical, except that a vertical one that starts in a square turns horizontal.
  lemma {:induction false} StickifyKeepsMarks(c: Config, a: seq<real>, z: seq<Option<bool>>, p: nat, q: nat, r: Rect)
    requires p <= q <= |a| == |z| && (p < |a| ==> q < |a| && z[|a| - 1].Some?) && forall k :: p <= k < q ==> z[k].None?
    ensures |StickifyFrom(c, a, z, p, q, r)| == |a| - p
    ensures forall k :: p <= k < |a| ==> MarkKept(StickifyFrom(c, a, z, p, q, r)[k - p].z, z[k])
    ensures (forall k :: p <= k < |a| ==> StickifyFrom(c, a, z, p, q, r)[k - p].z == z[k]) <==> !MeetsSquare(c, a, z, p, q, r)
    decreases |a| - q
  {
    hide RowCells, RowRest;
    var full := StickifyFrom(c, a, z, p, q, r);
    StickifyEndsRows(c, a, z, p, q, r);
    if q < |a| {
      if z[q].None? {
        StickifyKeepsMarks(c, a, z, p, q + 1, r);
      } else {
        var u, row, flush := if z[q].value then r.dx else r.dy, a[p..q + 1], q + 1 == |a|;
        var cells, rest := RowCells(c, row, u, r, flush), RowRest(c, row, u, r, flush);
        RowMarks(c, row, u, r, flush, q - p);
        StickifyKeepsMarks(c, a, z, q + 1, q + 1, rest);
        var more := StickifyFrom(c, a, z, q + 1, q + 1, rest);
        assert full == cells + more;
        forall k | p <= k < |a|
          ensures MarkAt(full, p, k) == if k < q then None else if k == q then Some(u == r.dx) else MarkAt(more, q + 1, k)
        {
          if k <= q {
            RowMarks(c, row, u, r, flush, k - p);
            assert full[k - p] == cells[k - p];
          } else {
            assert full[k - p] == more[k - (q + 1)];
          }
        }
        assert full[q - p].z == z[q] <==> z[q].value || r.dx != r.dy;
        assert forall k :: p <= k < |a| ==> (full[k - p].z == z[k] <==> MarkAt(full, p, k) == z[k]);
      }
    }
  }

  // The mark of area k when cells start with area p.
  function MarkAt(cells: seq<Cell>, p: nat, k: nat): Option<bool>
    requires p <= k < p + |cells|
  {
    cells[k - p].z
  }

  // A mark stays, or turns from vertical to horizontal.
  predicate MarkKept(mark: Option<bool>, before: Option<bool>) {
    mark == before || (before == Some(false) && mark == Some(true))
  }

  // From its own marks a sticky layout makes itself again, also where a row has turned.
  lemma {:induction false} StickifyRepeats(c: Config, a: seq<real>, z: seq<Option<bool>>, m: seq<Option<bool>>, p: nat, q: nat, r: Rect)
    requires p <= q <= |a| == |z| == |m| && (p < |a| ==> q < |a| && z[|a| - 1].Some?) && forall k :: p <= k < q ==> z[k].None?
    requires |StickifyFrom(c, a, z, p, q, r)| == |a| - p
    requires forall k :: p <= k < |a| ==> m[k] == StickifyFrom(c, a, z, p, q, r)[k - p].z
    ensures StickifyFrom(c, a, m, p, q, r) == StickifyFrom(c, a, z, p, q, r)
    decreases |a| - q
  {
    hide RowCells, RowRest;
    if q < |a| {
      StickifyEndsRows(c, a, z, p, q, r);
      assert z[q].Some? <==> m[q].Some?;
      if z[q].None? {
        StickifyRepeats(c, a, z, m, p, q + 1, r);
      } else {
        var u, row, flush := if z[q].value then r.dx else r.dy, a[p..q + 1], q + 1 == |a|;
        var cells, rest := RowCells(c, row, u, r, flush), RowRest(c, row, u, r, flush);
        RowMarks(c, row, u, r, flush, q - p);
        StickifyEndsRows(c, a, z, q + 1, q + 1, rest);
        var more := StickifyFrom(c, a, z, q + 1, q + 1, rest);
        assert StickifyFrom(c, a, z, p, q, r) == cells + more;
        assert m[q] == cells[q - p].z == Some(u == r.dx);
        forall k | q + 1 <= k < |a| ensures m[k] == more[k - (q + 1)].z {
          assert (cells + more)[k - p] == more[k - (q + 1)];
        }
        StickifyRepeats(c, a, z, m, q + 1, q + 1, rest);
        assert (if m[q].value then r.dx else r.dy) == u;
      }
    }
  }

  lemma StickifyIdempotent(c: Config, a: seq<real>, z: seq<Option<bool>>, r: Rect)
    requires |a| == |z| && (a != [] ==> z[|a| - 1].Some?)
    ensures var full := StickifyFrom(c, a, z, 0, 0, r); |full| == |a| && StickifyFrom(c, a, Marks(full), 0, 0, r) == full
  {
    hide StickifyFrom;
    StickifyEndsRows(c, a, z, 0, 0, r);
    var full := StickifyFrom(c, a, z, 0, 0, r);
    assert forall k :: 0 <= k < |a| ==> Marks(full)[k] == full[k - 0].z;
    StickifyRepeats(c, a, z, Marks(full), 0, 0, r);
  }

  // The rows of two equal areas: both in one row when that row scores no worse than one alone.
  lemma TwoInOneRow(c: Config, w: real, r: Rect)
    requires AtMost(RowScore(c, [w, w], Min(r.dx, r.dy)), RowScore(c, [w], Min(r.dx, r.dy)))
    ensures SquarifyCells(c, [w, w], r) == RowCells(c, [w, w], Min(r.dx, r.dy), r, true)
  {
    hide RowScore, RowCells, RowRest;
    var a, u := [w, w], Min(r.dx, r.dy);
    assert a[0..1] == [w] && a[0..2] == a;
    assert SquarifyFrom(c, a, 0, 1, r, u, RowScore(c, [w], u)) == SquarifyFrom(c, a, 0, 2, r, u, RowScore(c, a, u));
  }

  lemma TwoInTwoRows(c: Config, w: real, r: Rect)
    requires !AtMost(RowScore(c, [w, w], Min(r.dx, r.dy)), RowScore(c, [w], Min(r.dx, r.dy)))
    ensures var u, rest := Min(r.dx, r.dy), RowRest(c, [w], Min(r.dx, r.dy), r, false);
      SquarifyCells(c, [w, w], r) == RowCells(c, [w], u, r, false) + RowCells(c, [w], Min(rest.dx, rest.dy), rest, true)
  {
    hide RowScore, RowCells, RowRest;
    var a, u, rest := [w, w], Min(r.dx, r.dy), RowRest(c, [w], Min(r.dx, r.dy), r, false);
    var u2 := Min(rest.dx, rest.dy);
    assert a[0..1] == [w] && a[0..2] == a && a[1..2] == [w];
    assert SquarifyFrom(c, a, 0, 0, r, u, Infinity) == SquarifyFrom(c, a, 0, 1, r, u, RowScore(c, [w], u));
    assert SquarifyFrom(c, a, 1, 1, rest, u2, Infinity) == SquarifyFrom(c, a, 1, 2, rest, u2, RowScore(c, [w], u2));
  }

  // The scores of one and of two equal areas along a side of length 1.
  lemma ScoresOfTwo(c: Config, w: real)
    requires 0.0 < w && c.ratio >= 1.0
    ensures Sum([w]) == w && Sum([w, w]) == 2.0 * w
    ensures RowScore(c, [w], 1.0) == ScoreOf(c, w, Extent(Finite(w), w), 1.0)
    ensures RowScore(c, [w, w], 1.0) == ScoreOf(c, 2.0 * w, Extent(Finite(w), w), 1.0)
  {
    assert [w][..0] == [] && [w, w][..1] == [w];
    assert Sum([w]) == w;
    assert ExtentOf([w]) == Extent(Finite(w), w);
  }

  lemma RowOfOne(c: Config, w: real, r: Rect, flush: bool)
    requires 0.0 < w <= r.dy && r.dx == 1.0 && c.round(w) == w
    ensures var v := if flush then r.dy else w;
      && RowCells(c, [w], 1.0, r, flush) == [Cell(Rect(r.x, r.y, 1.0, v), Some(true))]
      && RowRest(c, [w], 1.0, r, flush) == Rect(r.x, r.y + v, 1.0, r.dy - v)
  {
    assert Sum([w]) == w;
    assert w / 1.0 == w;
  }

  lemma RowOfTwo(c: Config, w: real, r: Rect)
    requires 2.0 * w == 1.0 == r.dx == r.dy && c.round(w) == w
    ensures RowCells(c, [w, w], 1.0, r, true)
         == [Cell(Rect(r.x, r.y, w, 1.0), None), Cell(Rect(r.x + w, r.y, w, 1.0), Some(true))]
  {
    assert [w, w][1..] == [w];
    assert w / 1.0 == w;
    assert Extend(c, w, 1.0, r.x + r.dx - r.x) == w;
    assert RowX(c, [w], r.x + w, r.x + r.dx, r.y, 1.0) == [Cell(Rect(r.x + w, r.y, w, 1.0), Some(true))];
    assert RowX(c, [w, w], r.x, r.x + r.dx, r.y, 1.0)
        == [Cell(Rect(r.x, r.y, w, 1.0), None)] + RowX(c, [w], r.x + w, r.x + r.dx, r.y, 1.0);
  }

  lemma StickyFirst(c: Config, a: seq<real>, z: seq<Option<bool>>, r: Rect)
    requires |a| == |z| == 2 && z[0] == Some(true)
    requires |RowCells(c, [a[0]], r.dx, r, false)| == 1
    ensures |StickifyFrom(c, a, z, 0, 0, r)| >= 1
    ensures StickifyFrom(c, a, z, 0, 0, r)[0] == RowCells(c, [a[0]], r.dx, r, false)[0]
  {
    hide RowCells, RowRest;
    assert a[0..1] == [a[0]];
  }

  // Two children of equal value in one row. The first still carries the mark of a layout in a
  // taller rectangle, where it had a row of its own; the sticky layout gives it one again.
  lemma StaleMarkMovesNode(c: Config)
    requires 1.0 <= c.ratio < 2.0 && forall v: real :: c.round(v) == v
    ensures Marks(SquarifyCells(c, [1.0, 1.0], Rect(0.0, 0.0, 1.0, 2.0))) == [Some(true), Some(true)]
    ensures var a, r, stale := [0.5, 0.5], Rect(0.0, 0.0, 1.0, 1.0), [Some(true), Some(true)];
      && SquarifyCells(c, a, r) == [Cell(Rect(0.0, 0.0, 0.5, 1.0), None), Cell(Rect(0.5, 0.0, 0.5, 1.0), Some(true))]
      && MarksOver(SquarifyCells(c, a, r), stale) == stale
      && StickifyFrom(c, a, stale, 0, 0, r)[0].rect == Rect(0.0, 0.0, 1.0, 0.5)
  {
    hide RowScore, SquarifyFrom, StickifyFrom, RowCells, RowRest;
    ScoresOfTwo(c, 1.0);
    ScoresOfTwo(c, 0.5);
    var tall, square, low := Rect(0.0, 0.0, 1.0, 2.0), Rect(0.0, 0.0, 1.0, 1.0), Rect(0.0, 1.0, 1.0, 1.0);
    TwoInTwoRows(c, 1.0, tall);
    RowOfOne(c, 1.0, tall, false);
    RowOfOne(c, 1.0, low, true);
    TwoInOneRow(c, 0.5, square);
    RowOfTwo(c, 0.5, square);
    var a, stale := [0.5, 0.5], [Some(true), Some(true)];
    RowOfOne(c, 0.5, square, false);
    StickyFirst(c, a, stale, square);
  }
}
