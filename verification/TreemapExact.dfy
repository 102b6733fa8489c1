// Treemap rows without rounding: every area gets a cell of its size, and a stale mark leaves the
// rectangles alone only in the last row.
module TreemapExact {
  import opened TreemapRows
  import opened Wrappers

  ghost predicate Exact(c: Config) {
    forall v: real :: c.round(v) == v
  }

  ghost predicate Positive(a: seq<real>) {
    forall k :: 0 <= k < |a| ==> a[k] > 0.0
  }

  predicate Roomy(r: Rect) {
    r.dx > 0.0 && r.dy > 0.0
  }

  ghost predicate SameRects(s: seq<Cell>, t: seq<Cell>) {
    |s| == |t| && forall k :: 0 <= k < |s| ==> s[k].rect == t[k].rect
  }

  // ---------------------------------------------------------------- arithmetic

  lemma SumFirst(a: seq<real>)
    requires a != []
    ensures Sum(a) == a[0] + Sum(a[1..])
    decreases |a|
  {
    if |a| == 1 {
      assert a[..0] == [] && a[1..] == [];
    } else {
      var m := |a| - 1;
      SumFirst(a[..m]);
      assert a[..m][1..] == a[1..][..m - 1];
    }
  }

  lemma {:induction false} SumPositive(a: seq<real>)
    requires Positive(a)
    ensures Sum(a) >= 0.0 && (a != [] ==> Sum(a) > 0.0)
    decreases |a|
  {
    if a != [] {
      SumPositive(a[..|a| - 1]);
    }
  }

  lemma {:induction false} SumConcat(a: seq<real>, b: seq<real>)
    ensures Sum(a + b) == Sum(a) + Sum(b)
    decreases |b|
  {
    if b == [] {
      assert a + b == a;
    } else {
      assert (a + b)[..|a + b| - 1] == a + b[..|b| - 1];
      SumConcat(a, b[..|b| - 1]);
    }
  }

  // Products and quotients by name, to be compared without multiplying out.
  function Product(x: real, y: real): real {
    x * y
  }

  function Share(n: real, d: real): real
    requires d != 0.0
  {
    n / d
  }

  lemma ShareTimes(n: real, d: real)
    requires d > 0.0
    ensures Product(Share(n, d), d) == n && (n > 0.0 ==> Share(n, d) > 0.0)
  {
  }

  lemma LessFactor(x: real, y: real, d: real)
    requires d > 0.0
    ensures x < y <==> Product(x, d) < Product(y, d)
    ensures x == y <==> Product(x, d) == Product(y, d)
  {
    assert (y - x) * d == y * d - x * d;
  }

  lemma Commute(x: real, y: real)
    ensures Product(x, y) == Product(y, x)
  {
  }

  lemma Distribute(x: real, y: real, d: real)
    ensures Product(x - y, d) == Product(x, d) - Product(y, d)
  {
  }

  // ---------------------------------------------------------------- one row

  // The share of a row that its first area takes.
  lemma ExactShare(c: Config, area: real, v: real, room: real, more: real)
    requires Exact(c) && area > 0.0 && v > 0.0 && more >= 0.0 && area + more == Product(room, v)
    ensures var w := Share(area, v); Extend(c, area, v, room) == w && w > 0.0 && more == Product(room - w, v)
    ensures more == 0.0 ==> room == Share(area, v)
  {
    var w := Share(area, v);
    assert c.round(area / v) == w;
    hide Product;
    ShareTimes(area, v);
    Distribute(room, w, v);
    LessFactor(room, w, v);
  }

  // The first cell of a row that its areas fill, and where the next one starts.
  lemma FirstOfX(c: Config, a: seq<real>, x: real, right: real, y: real, v: real)
    requires Exact(c) && a != [] && Positive(a) && v > 0.0 && Sum(a) == Product(right - x, v)
    ensures var cells, w := RowX(c, a, x, right, y, v), Share(a[0], v);
      && |cells| == |a| && w > 0.0 && cells[0].rect == Rect(x, y, w, v)
      && (|a| >= 2 ==> cells == [Cell(Rect(x, y, w, v), None)] + RowX(c, a[1..], x + w, right, y, v)
                       && cells[1].rect.x == x + w && cells[1].rect.y == y && Sum(a[1..]) == Product(right - (x + w), v))
  {
    hide Product, Share, Extend, Sum;
    SumFirst(a);
    SumPositive(a[1..]);
    ExactShare(c, a[0], v, right - x, Sum(a[1..]));
    RowXMarks(c, a, x, right, y, v, 0);
    if |a| >= 2 {
      RowXMarks(c, a[1..], x + Share(a[0], v), right, y, v, 0);
      assert right - (x + Share(a[0], v)) == right - x - Share(a[0], v);
    } else {
      assert a[1..] == [];
      SumOfNone();
    }
  }

  lemma SumOfNone()
    ensures Sum([]) == 0.0
  {
  }

  lemma FirstOfY(c: Config, a: seq<real>, y: real, bottom: real, x: real, v: real)
    requires Exact(c) && a != [] && Positive(a) && v > 0.0 && Sum(a) == Product(bottom - y, v)
    ensures var cells, w := RowY(c, a, y, bottom, x, v), Share(a[0], v);
      && |cells| == |a| && w > 0.0 && cells[0].rect == Rect(x, y, v, w)
      && (|a| >= 2 ==> cells == [Cell(Rect(x, y, v, w), None)] + RowY(c, a[1..], y + w, bottom, x, v)
                       && cells[1].rect.x == x && cells[1].rect.y == y + w && Sum(a[1..]) == Product(bottom - (y + w), v))
  {
    hide Product, Share, Extend, Sum;
    SumFirst(a);
    SumPositive(a[1..]);
    ExactShare(c, a[0], v, bottom - y, Sum(a[1..]));
    RowYMarks(c, a, y, bottom, x, v, 0);
    if |a| >= 2 {
      RowYMarks(c, a[1..], y + Share(a[0], v), bottom, x, v, 0);
      assert bottom - (y + Share(a[0], v)) == bottom - y - Share(a[0], v);
    } else {
      assert a[1..] == [];
      SumOfNone();
    }
  }

  // The length across a row along the side u.
  function Across(r: Rect, u: real): real {
    if u == r.dx then r.dy else r.dx
  }

  predicate IsSide(r: Rect, u: real) {
    u == r.dx || u == r.dy
  }

  lemma AreaIs(r: Rect, u: real)
    requires IsSide(r, u)
    ensures Area(r) == Product(Across(r, u), u)
  {
  }

  // The areas fit into r, and fill it when the row is flush.
  ghost predicate FitsIn(a: seq<real>, r: Rect, flush: bool) {
    a != [] && Positive(a) && Roomy(r) && Sum(a) <= Area(r) && (flush ==> Sum(a) == Area(r))
  }

  lemma ThicknessIs(c: Config, total: real, u: real, limit: real, flush: bool)
    requires Exact(c) && total > 0.0 && u > 0.0 && total <= Product(limit, u) && (flush ==> total == Product(limit, u))
    ensures var v := Thickness(c, total, u, limit, flush);
      0.0 < v <= limit && Product(v, u) == total && (v == limit <==> total == Product(limit, u))
  {
    assert c.round(total / u) == Share(total, u);
    hide Product;
    ShareTimes(total, u);
    LessFactor(limit, Share(total, u), u);
  }

  // A row's thickness is what its areas need, up to the whole rectangle.
  lemma ExactThickness(c: Config, a: seq<real>, u: real, r: Rect, flush: bool)
    requires Exact(c) && FitsIn(a, r, flush) && IsSide(r, u)
    ensures var v := RowThickness(c, a, u, r, flush);
      0.0 < v <= Across(r, u) && Product(v, u) == Sum(a) && (v == Across(r, u) <==> Sum(a) == Area(r))
  {
    hide Product, Area, Sum, Thickness;
    SumPositive(a);
    AreaIs(r, u);
    ThicknessIs(c, Sum(a), u, Across(r, u), flush);
  }

  // What the proofs need of a row: how thick it is, its first cell, and where its second one starts.
  lemma ExactRow(c: Config, a: seq<real>, u: real, r: Rect, flush: bool) returns (v: real)
    requires Exact(c) && FitsIn(a, r, flush) && IsSide(r, u)
    ensures v == RowThickness(c, a, u, r, flush) && 0.0 < v <= Across(r, u) && Product(v, u) == Sum(a) && Share(a[0], v) > 0.0
    ensures v == Across(r, u) <==> Sum(a) == Area(r)
    ensures var cells, w := RowCells(c, a, u, r, flush), Share(a[0], v);
      && |cells| == |a|
      && cells[0].rect == (if u == r.dx then Rect(r.x, r.y, w, v) else Rect(r.x, r.y, v, w))
      && (|a| >= 2 && u == r.dx ==> cells[1].rect.x == r.x + w && cells[1].rect.y == r.y)
      && (|a| >= 2 && u != r.dx ==> cells[1].rect.x == r.x && cells[1].rect.y == r.y + w)
  {
    hide Product, Share, Area, Sum, RowThickness, RowX, RowY, Exact, Positive;
    v := RowThickness(c, a, u, r, flush);
    ExactThickness(c, a, u, r, flush);
    Commute(v, u);
    if u == r.dx {
      assert r.x + r.dx - r.x == u;
      FirstOfX(c, a, r.x, r.x + r.dx, r.y, v);
    } else {
      assert r.y + r.dy - r.y == u;
      FirstOfY(c, a, r.y, r.y + r.dy, r.x, v);
    }
  }

  // ---------------------------------------------------------------- a row cut short

  // A shorter row along the same side is thinner: its first cell is another.
  lemma AlongMoves(c: Config, a: seq<real>, e: nat, u: real, r: Rect, flush: bool)
    requires Exact(c) && FitsIn(a, r, flush) && e + 1 < |a| && IsSide(r, u)
    ensures RowCells(c, a, u, r, flush) != [] && RowCells(c, a[..e + 1], u, r, false) != []
    ensures RowCells(c, a[..e + 1], u, r, false)[0].rect != RowCells(c, a, u, r, flush)[0].rect
  {
    hide RowCells, Product, Share, Area, Sum, RowThickness, Exact, Positive;
    ShorterFits(a, e + 1, r, flush);
    var v := ExactRow(c, a, u, r, flush);
    var v' := ExactRow(c, a[..e + 1], u, r, false);
    LessFactor(v', v, u);
  }

  lemma ShorterFits(a: seq<real>, n: nat, r: Rect, flush: bool)
    requires FitsIn(a, r, flush) && 0 < n < |a|
    ensures Sum(a[..n]) < Sum(a) && FitsIn(a[..n], r, false)
  {
    hide Sum, Area;
    SumConcat(a[..n], a[n..]);
    SumPositive(a[n..]);
    assert a == a[..n] + a[n..];
  }

  // A shorter row of two cells or more across starts its second cell elsewhere.
  lemma AcrossMoves(c: Config, a: seq<real>, e: nat, u: real, u': real, r: Rect, flush: bool)
    requires Exact(c) && FitsIn(a, r, flush) && 1 <= e && e + 1 < |a| && u != u' && IsSide(r, u) && IsSide(r, u')
    ensures |RowCells(c, a, u, r, flush)| >= 2 && |RowCells(c, a[..e + 1], u', r, false)| >= 2
    ensures RowCells(c, a[..e + 1], u', r, false)[1].rect != RowCells(c, a, u, r, flush)[1].rect
  {
    hide RowCells, Product, Share, Area, Sum, RowThickness, Exact, Positive;
    ShorterFits(a, e + 1, r, flush);
    var v := ExactRow(c, a, u, r, flush);
    var v' := ExactRow(c, a[..e + 1], u', r, false);
  }

  // A single cell across is the first cell of the row exactly when the row fills the rectangle.
  lemma SingleAcross(c: Config, a: seq<real>, u: real, u': real, r: Rect, flush: bool)
    requires Exact(c) && FitsIn(a, r, flush) && |a| >= 2 && u != u' && IsSide(r, u) && IsSide(r, u')
    ensures RowCells(c, a, u, r, flush) != [] && |RowCells(c, a[..1], u', r, false)| == 1
    ensures RowCells(c, a[..1], u', r, false)[0].rect == RowCells(c, a, u, r, flush)[0].rect <==> Sum(a) == Area(r)
  {
    SumOfOne(a);
    hide RowCells, Product, Share, Area, Sum, RowThickness, Exact, Positive;
    ShorterFits(a, 1, r, flush);
    var v := ExactRow(c, a, u, r, flush);
    var v' := ExactRow(c, a[..1], u', r, false);
    ShareIs(a[0], v', u');
    ShareIs(a[0], u', v');
  }

  lemma SumOfOne(a: seq<real>)
    requires a != []
    ensures a[..1] == [a[0]] && Sum(a[..1]) == a[0]
  {
    assert a[..1][..0] == [];
  }

  // The cell across is as long as the side u.
  lemma ShareIs(n: real, v: real, u: real)
    requires v > 0.0 && (Product(v, u) == n || Product(u, v) == n)
    ensures Share(n, v) == u
  {
  }

  // ---------------------------------------------------------------- areas

  lemma {:induction false} RowXAreas(c: Config, a: seq<real>, x: real, right: real, y: real, v: real, k: nat)
    requires Exact(c) && Positive(a) && v > 0.0 && Sum(a) == Product(right - x, v) && k < |a|
    ensures |RowX(c, a, x, right, y, v)| == |a| && Area(RowX(c, a, x, right, y, v)[k].rect) == a[k]
    decreases |a|
  {
    hide RowX, Sum;
    FirstOfX(c, a, x, right, y, v);
    ShareTimes(a[0], v);
    if k > 0 {
      RowXAreas(c, a[1..], x + Share(a[0], v), right, y, v, k - 1);
    }
  }

  lemma {:induction false} RowYAreas(c: Config, a: seq<real>, y: real, bottom: real, x: real, v: real, k: nat)
    requires Exact(c) && Positive(a) && v > 0.0 && Sum(a) == Product(bottom - y, v) && k < |a|
    ensures |RowY(c, a, y, bottom, x, v)| == |a| && Area(RowY(c, a, y, bottom, x, v)[k].rect) == a[k]
    decreases |a|
  {
    hide RowY, Sum;
    FirstOfY(c, a, y, bottom, x, v);
    ShareTimes(a[0], v);
    if k > 0 {
      RowYAreas(c, a[1..], y + Share(a[0], v), bottom, x, v, k - 1);
    }
  }

  lemma RowAreas(c: Config, a: seq<real>, u: real, r: Rect, flush: bool, k: nat)
    requires Exact(c) && FitsIn(a, r, flush) && IsSide(r, u) && k < |a|
    ensures |RowCells(c, a, u, r, flush)| == |a| && Area(RowCells(c, a, u, r, flush)[k].rect) == a[k]
  {
    hide Product, Sum, Area, RowThickness, RowX, RowY, Exact, Positive;
    var v := RowThickness(c, a, u, r, flush);
    ExactThickness(c, a, u, r, flush);
    Commute(v, u);
    if u == r.dx {
      assert r.x + r.dx - r.x == u;
      RowXAreas(c, a, r.x, r.x + r.dx, r.y, v, k);
    } else {
      assert r.y + r.dy - r.y == u;
      RowYAreas(c, a, r.y, r.y + r.dy, r.x, v, k);
    }
  }

  // The areas from q on fill what the row of the areas p to q leaves.
  lemma RestFills(c: Config, a: seq<real>, p: nat, q: nat, u: real, r: Rect)
    requires Exact(c) && p < q < |a| && FitsIn(a[p..], r, true) && IsSide(r, u)
    ensures FitsIn(a[p..q], r, false) && Sum(a[p..q]) < Area(r)
    ensures FitsIn(a[q..], RowRest(c, a[p..q], u, r, false), true)
  {
    hide Sum, Area, RowThickness, Exact, Positive, Product;
    var row, v, rest := a[p..q], RowThickness(c, a[p..q], u, r, false), RowRest(c, a[p..q], u, r, false);
    assert a[p..][..q - p] == row && a[p..] == row + a[q..];
    ShorterFits(a[p..], q - p, r, true);
    ExactThickness(c, row, u, r, false);
    SumConcat(row, a[q..]);
    PositiveParts(a, p, q);
    RestArea(r, u, v);
  }

  lemma PositiveParts(a: seq<real>, p: nat, q: nat)
    requires p <= q <= |a| && Positive(a[p..])
    ensures Positive(a[q..])
  {
    assert a[q..] == a[p..][q - p..];
  }

  lemma RestArea(r: Rect, u: real, v: real)
    requires IsSide(r, u)
    ensures Area(if u == r.dx then Rect(r.x, r.y + v, r.dx, r.dy - v) else Rect(r.x + v, r.y, r.dx - v, r.dy)) == Area(r) - Product(v, u)
  {
  }

  lemma RowFits(a: seq<real>, p: nat, q: nat, r: Rect)
    requires p < q <= |a| && FitsIn(a[p..], r, true)
    ensures FitsIn(a[p..q], r, q == |a|)
  {
    hide Sum, Area;
    assert a[p..][..q - p] == a[p..q];
    if q < |a| {
      ShorterFits(a[p..], q - p, r, true);
    } else {
      assert a[p..q] == a[p..];
    }
  }

  // Without rounding every child gets a cell of exactly its area.
  lemma {:induction false} SquarifyAreas(c: Config, a: seq<real>, p: nat, q: nat, r: Rect, u: real, best: Score, k: nat)
    requires p <= q <= |a| && (best.Infinity? || p < q) && p <= k < |a|
    requires Exact(c) && FitsIn(a[p..], r, true) && IsSide(r, u)
    ensures |SquarifyFrom(c, a, p, q, r, u, best)| == |a| - p && Area(SquarifyFrom(c, a, p, q, r, u, best)[k - p].rect) == a[k]
    decreases |a| - p, |a| - q
  {
    hide RowScore, RowCells, RowRest, Area, Sum, Exact, FitsIn;
    if q == |a| {
      RowFits(a, p, q, r);
      RowAreas(c, a[p..q], u, r, true, k - p);
    } else {
      var score := RowScore(c, a[p..q + 1], u);
      if AtMost(score, best) {
        SquarifyAreas(c, a, p, q + 1, r, u, score, k);
      } else {
        var rest := RowRest(c, a[p..q], u, r, false);
        RestFills(c, a, p, q, u, r);
        RowMarks(c, a[p..q], u, r, false, 0);
        SquarifyLength(c, a, q, q, rest, Min(rest.dx, rest.dy), Infinity);
        if k < q {
          RowAreas(c, a[p..q], u, r, false, k - p);
        } else {
          SquarifyAreas(c, a, q, q, rest, Min(rest.dx, rest.dy), Infinity, k);
        }
      }
    }
  }

  // The same for a sticky layout, whatever marks it follows.
  lemma {:induction false} StickifyAreas(c: Config, a: seq<real>, z: seq<Option<bool>>, p: nat, q: nat, r: Rect, k: nat)
    requires p <= q < |a| == |z| && z[|a| - 1].Some? && (forall j :: p <= j < q ==> z[j].None?) && p <= k < |a|
    requires Exact(c) && FitsIn(a[p..], r, true)
    ensures |StickifyFrom(c, a, z, p, q, r)| == |a| - p && Area(StickifyFrom(c, a, z, p, q, r)[k - p].rect) == a[k]
    decreases |a| - q
  {
    hide RowCells, RowRest, Area, Sum, Exact, FitsIn;
    StickifyEndsRows(c, a, z, p, q, r);
    if z[q].None? {
      StickifyAreas(c, a, z, p, q + 1, r, k);
    } else {
      var u, row, flush := if z[q].value then r.dx else r.dy, a[p..q + 1], q + 1 == |a|;
      RowFits(a, p, q + 1, r);
      RowMarks(c, row, u, r, flush, 0);
      if k <= q {
        RowAreas(c, row, u, r, flush, k - p);
      } else {
        RestFills(c, a, p, q + 1, u, r);
        StickifyAreas(c, a, z, q + 1, q + 1, RowRest(c, row, u, r, flush), k);
      }
    }
  }

  // ---------------------------------------------------------------- stale marks and rectangles

  // The row from area p on, horizontal when o: first a run of areas with crossing marks, each cut off
  // as a row of its own, and then no mark up to the last. In a square there are no crossing marks.
  predicate Crossing(z: seq<Option<bool>>, p: nat, o: bool, square: bool)
    requires p < |z|
    decreases |z| - p
  {
    || (forall k :: p <= k < |z| - 1 ==> z[k].None?)
    || (p < |z| - 1 && z[p] == Some(!o) && !square && Crossing(z, p + 1, o, square))
  }

  lemma {:induction false} FirstMark(z: seq<Option<bool>>, p: nat) returns (e: nat)
    requires p < |z| && z[|z| - 1].Some?
    ensures p <= e < |z| && z[e].Some? && forall k :: p <= k < e ==> z[k].None?
    decreases |z| - p
  {
    if z[p].Some? {
      e := p;
    } else {
      e := FirstMark(z, p + 1);
    }
  }

  lemma StickyAt(c: Config, a: seq<real>, z: seq<Option<bool>>, p: nat, e: nat, r: Rect)
    requires p <= e < |a| == |z| && z[e].Some? && forall k :: p <= k < e ==> z[k].None?
    ensures var u, flush := if z[e].value then r.dx else r.dy, e + 1 == |a|;
      StickifyFrom(c, a, z, p, p, r)
      == RowCells(c, a[p..e + 1], u, r, flush) + StickifyFrom(c, a, z, e + 1, e + 1, RowRest(c, a[p..e + 1], u, r, flush))
  {
    hide RowCells, RowRest;
    StickifySkips(c, a, z, p, p, e, r);
  }

  // A row that a stale mark cuts short: something moves, unless a single cell is cut off across the last row.
  lemma CutMoves(c: Config, a: seq<real>, z: seq<Option<bool>>, p: nat, q: nat, e: nat, r: Rect, u: real, cells: seq<Cell>)
    requires p <= e && e + 1 < q <= |a| == |z| && z[e].Some? && forall k :: p <= k < e ==> z[k].None?
    requires Exact(c) && FitsIn(a[p..q], r, q == |a|) && IsSide(r, u)
    requires RowCells(c, a[p..q], u, r, q == |a|) <= cells
    ensures var u' := if z[e].value then r.dx else r.dy;
      u' == u || e > p || Sum(a[p..q]) < Area(r) ==> !SameRects(StickifyFrom(c, a, z, p, p, r), cells)
  {
    hide RowCells, RowRest, StickifyFrom, Sum, Area, Exact;
    var row, u' := a[p..q], if z[e].value then r.dx else r.dy;
    StickyAt(c, a, z, p, e, r);
    assert a[p..e + 1] == row[..e - p + 1];
    var full := StickifyFrom(c, a, z, p, p, r);
    if u' == u {
      AlongMoves(c, row, e - p, u, r, q == |a|);
      assert full[0] == RowCells(c, row[..e - p + 1], u, r, false)[0];
    } else if e > p {
      AcrossMoves(c, row, e - p, u, u', r, q == |a|);
      assert full[1] == RowCells(c, row[..e - p + 1], u', r, false)[1];
    } else {
      SingleAcross(c, row, u, u', r, q == |a|);
      assert full[0] == RowCells(c, row[..1], u', r, false)[0];
    }
  }

  // The last row without its first cell is the last row of the rectangle beside that cell.
  lemma ShiftRow(c: Config, a: seq<real>, u: real, u': real, r: Rect)
    requires Exact(c) && FitsIn(a, r, true) && |a| >= 2 && u == Min(r.dx, r.dy) && u != u' && IsSide(r, u')
    ensures var rest, cells := RowRest(c, a[..1], u', r, false), RowCells(c, a, u, r, true);
      var w := Min(rest.dx, rest.dy);
      && |cells| == |a| && cells == [cells[0]] + RowCells(c, a[1..], w, rest, true)
      && (w == rest.dx <==> u == r.dx) && rest.dx != rest.dy
  {
    SumOfOne(a);
    hide Product, Share, Area, Sum, RowThickness, RowX, RowY, Exact, Positive;
    ShorterFits(a, 1, r, true);
    var v := RowThickness(c, a, u, r, true);
    ExactThickness(c, a, u, r, true);
    ExactThickness(c, a[..1], u', r, false);
    var v' := RowThickness(c, a[..1], u', r, false);
    ShareIs(a[0], u', v');
    FlushThickness(c, a, u, r);
    var rest := RowRest(c, a[..1], u', r, false);
    var w := Min(rest.dx, rest.dy);
    FlushThickness(c, a[1..], w, rest);
    Commute(v, u);
    if u == r.dx {
      assert r.x + r.dx - r.x == u;
      FirstOfX(c, a, r.x, r.x + r.dx, r.y, v);
      assert rest.x + rest.dx == r.x + r.dx;
    } else {
      assert r.y + r.dy - r.y == u;
      FirstOfY(c, a, r.y, r.y + r.dy, r.x, v);
      assert rest.y + rest.dy == r.y + r.dy;
    }
  }

  lemma FlushThickness(c: Config, a: seq<real>, u: real, r: Rect)
    ensures RowThickness(c, a, u, r, true) == Across(r, u)
  {
  }

  // Putting one more cell first changes nothing about the others.
  lemma SameAfterFirst(f: Cell, more: seq<Cell>, g: Cell, others: seq<Cell>)
    requires f.rect == g.rect
    ensures SameRects([f] + more, [g] + others) <==> SameRects(more, others)
  {
    assert forall k :: 0 <= k < |more| ==> ([f] + more)[k + 1] == more[k];
    assert forall k :: 0 <= k < |others| ==> ([g] + others)[k + 1] == others[k];
    if SameRects([f] + more, [g] + others) {
      forall k | 0 <= k < |more| ensures more[k].rect == others[k].rect {
        assert ([f] + more)[k + 1].rect == ([g] + others)[k + 1].rect;
      }
    }
  }

  // The marks from area p on are those of the cells.
  ghost predicate KeepsMarks(cells: seq<Cell>, z: seq<Option<bool>>, p: nat) {
    p + |cells| == |z| && forall k :: p <= k < |z| ==> cells[k - p].z == z[k]
  }

  lemma KeepsAfterFirst(f: Cell, more: seq<Cell>, z: seq<Option<bool>>, p: nat)
    requires p < |z| && f.z == z[p] && KeepsMarks(more, z, p + 1)
    ensures KeepsMarks([f] + more, z, p)
  {
    assert forall k :: p < k < |z| ==> ([f] + more)[k - p] == more[k - (p + 1)] && z[k] == z[k];
  }

  lemma {:induction false} LastRow(c: Config, a: seq<real>, z: seq<Option<bool>>, p: nat, r: Rect, u: real)
    requires p < |a| == |z| && Exact(c) && FitsIn(a[p..], r, true) && u == Min(r.dx, r.dy) && z[|z| - 1] == Some(u == r.dx)
    ensures SameRects(StickifyFrom(c, a, z, p, p, r), RowCells(c, a[p..], u, r, true)) <==> Crossing(z, p, u == r.dx, r.dx == r.dy)
    ensures Crossing(z, p, u == r.dx, r.dx == r.dy) ==> KeepsMarks(StickifyFrom(c, a, z, p, p, r), z, p)
    decreases |a| - p
  {
    hide RowCells, RowRest, StickifyFrom, Sum, Area, Exact, FitsIn, SameRects, KeepsMarks;
    var e := FirstMark(z, p);
    assert a[p..|a|] == a[p..];
    if e == |a| - 1 {
      WholeRow(c, a, z, p, r, u);
    } else {
      var u' := if z[e].value then r.dx else r.dy;
      CutMoves(c, a, z, p, |a|, e, r, u, RowCells(c, a[p..], u, r, true));
      if e == p && u' != u {
        CutAcross(c, a, z, p, r, u, u');
      }
    }
  }

  lemma WholeRow(c: Config, a: seq<real>, z: seq<Option<bool>>, p: nat, r: Rect, u: real)
    requires p < |a| == |z| && u == Min(r.dx, r.dy) && z[|z| - 1] == Some(u == r.dx) && forall k :: p <= k < |z| - 1 ==> z[k].None?
    ensures StickifyFrom(c, a, z, p, p, r) == RowCells(c, a[p..], u, r, true) && KeepsMarks(StickifyFrom(c, a, z, p, p, r), z, p)
    ensures SameRects(StickifyFrom(c, a, z, p, p, r), RowCells(c, a[p..], u, r, true))
  {
    hide RowCells, RowRest, StickifyFrom;
    StickyAt(c, a, z, p, |a| - 1, r);
    assert a[p..|a|] == a[p..];
    StickifyNothing(c, a, z, RowRest(c, a[p..], u, r, true));
    RowMarks(c, a[p..], u, r, true, 0);
    forall k | p <= k < |z| ensures RowCells(c, a[p..], u, r, true)[k - p].z == z[k] {
      RowMarks(c, a[p..], u, r, true, k - p);
    }
  }

  lemma {:induction false} CutAcross(c: Config, a: seq<real>, z: seq<Option<bool>>, p: nat, r: Rect, u: real, u': real)
    requires p + 1 < |a| == |z| && Exact(c) && FitsIn(a[p..], r, true) && u == Min(r.dx, r.dy) && z[|z| - 1] == Some(u == r.dx)
    requires z[p].Some? && u' == (if z[p].value then r.dx else r.dy) && u' != u
    ensures SameRects(StickifyFrom(c, a, z, p, p, r), RowCells(c, a[p..], u, r, true)) <==> Crossing(z, p + 1, u == r.dx, r.dx == r.dy)
    ensures Crossing(z, p + 1, u == r.dx, r.dx == r.dy) ==> KeepsMarks(StickifyFrom(c, a, z, p, p, r), z, p)
    decreases |a| - p, 0
  {
    hide RowCells, RowRest, StickifyFrom, Sum, Area, Exact, FitsIn, SameRects, KeepsMarks, Crossing;
    var row := a[p..];
    FilledSum(row, r);
    assert a[p..p + 1] == row[..1] && row[1..] == a[p + 1..];
    StickyAt(c, a, z, p, p, r);
    SingleAcross(c, row, u, u', r, true);
    ShiftRow(c, row, u, u', r);
    RestFills(c, a, p, p + 1, u', r);
    var first, rest := RowCells(c, row[..1], u', r, false), RowRest(c, row[..1], u', r, false);
    var w := Min(rest.dx, rest.dy);
    LastRow(c, a, z, p + 1, rest, w);
    var more, others := StickifyFrom(c, a, z, p + 1, p + 1, rest), RowCells(c, a[p + 1..], w, rest, true);
    assert first == [first[0]];
    SameAfterFirst(first[0], more, RowCells(c, row, u, r, true)[0], others);
    RowMarks(c, row[..1], u', r, false, 0);
    if Crossing(z, p + 1, u == r.dx, r.dx == r.dy) {
      KeepsAfterFirst(first[0], more, z, p);
    }
  }

  lemma FilledSum(a: seq<real>, r: Rect)
    requires FitsIn(a, r, true)
    ensures Sum(a) == Area(r)
  {
  }

  // ---------------------------------------------------------------- all rows

  // Along the rows of squarify: no stale mark but crossing ones at the start of the last row.
  predicate Mild(c: Config, a: seq<real>, z: seq<Option<bool>>, p: nat, q: nat, r: Rect, u: real, best: Score)
    requires p <= q <= |a| == |z| && p < |a| && (best.Infinity? || p < q)
    decreases |a| - p, |a| - q
  {
    if q == |a| then Crossing(z, p, u == r.dx, r.dx == r.dy)
    else
      var score := RowScore(c, a[p..q + 1], u);
      if AtMost(score, best) then Mild(c, a, z, p, q + 1, r, u, score)
      else
        var rest := RowRest(c, a[p..q], u, r, false);
        (forall k :: p <= k < q - 1 ==> z[k].None?) && Mild(c, a, z, q, q, rest, Min(rest.dx, rest.dy), Infinity)
  }

  // Every row end of the cells is marked as its cell is.
  ghost predicate EndsAgree(cells: seq<Cell>, z: seq<Option<bool>>, p: nat) {
    p + |cells| == |z| && forall k :: p <= k < |z| && cells[k - p].z.Some? ==> z[k] == cells[k - p].z
  }

  lemma {:induction false} RectsFollow(c: Config, a: seq<real>, z: seq<Option<bool>>, p: nat, q: nat, r: Rect, u: real, best: Score)
    requires p <= q <= |a| == |z| && p < |a| && (best.Infinity? || p < q) && u == Min(r.dx, r.dy)
    requires Exact(c) && FitsIn(a[p..], r, true) && EndsAgree(SquarifyFrom(c, a, p, q, r, u, best), z, p)
    ensures SameRects(StickifyFrom(c, a, z, p, p, r), SquarifyFrom(c, a, p, q, r, u, best)) <==> Mild(c, a, z, p, q, r, u, best)
    ensures Mild(c, a, z, p, q, r, u, best) ==> KeepsMarks(StickifyFrom(c, a, z, p, p, r), z, p)
    decreases |a| - p, |a| - q
  {
    hide RowScore, RowCells, RowRest, StickifyFrom, Sum, Area, Exact, FitsIn, SameRects, KeepsMarks, EndsAgree, Crossing;
    if q == |a| {
      assert a[p..q] == a[p..];
      assert RowCells(c, a[p..], u, r, true) + [] == RowCells(c, a[p..], u, r, true);
      EndOfCells(c, a[p..], u, r, true, [], z, p);
      LastRow(c, a, z, p, r, u);
    } else {
      var score := RowScore(c, a[p..q + 1], u);
      if AtMost(score, best) {
        RectsFollow(c, a, z, p, q + 1, r, u, score);
      } else {
        var rest := RowRest(c, a[p..q], u, r, false);
        var more := SquarifyFrom(c, a, q, q, rest, Min(rest.dx, rest.dy), Infinity);
        RestFills(c, a, p, q, u, r);
        EndOfCells(c, a[p..q], u, r, false, more, z, p);
        if e :| p <= e < q - 1 && z[e].Some? {
          RowIsCut(c, a, z, p, q, e, r, u, more);
        } else {
          RectsFollow(c, a, z, q, q, rest, Min(rest.dx, rest.dy), Infinity);
          RowIsWhole(c, a, z, p, q, r, u, more);
        }
      }
    }
  }

  // The row that comes first, and the rows after it.
  lemma EndOfCells(c: Config, row: seq<real>, u: real, r: Rect, flush: bool, more: seq<Cell>, z: seq<Option<bool>>, p: nat)
    requires row != [] && EndsAgree(RowCells(c, row, u, r, flush) + more, z, p)
    ensures p + |row| + |more| == |z| && z[p + |row| - 1] == Some(u == r.dx) && EndsAgree(more, z, p + |row|)
  {
    hide RowCells;
    var cells, q := RowCells(c, row, u, r, flush), p + |row|;
    RowMarks(c, row, u, r, flush, |row| - 1);
    assert (cells + more)[q - 1 - p] == cells[|row| - 1];
    forall k | q <= k < |z| && more[k - q].z.Some? ensures z[k] == more[k - q].z {
      assert (cells + more)[k - p] == more[k - q];
    }
  }

  // A row that is not the last and has a stale mark in it.
  lemma RowIsCut(c: Config, a: seq<real>, z: seq<Option<bool>>, p: nat, q: nat, e: nat, r: Rect, u: real, more: seq<Cell>)
    requires p <= e && e + 1 < q < |a| == |z| && z[e].Some? && Exact(c) && FitsIn(a[p..q], r, false) && IsSide(r, u)
    requires Sum(a[p..q]) < Area(r)
    ensures !SameRects(StickifyFrom(c, a, z, p, p, r), RowCells(c, a[p..q], u, r, false) + more)
  {
    hide RowCells, RowRest, StickifyFrom, Sum, Area, Exact, FitsIn, SameRects;
    var first := FirstMark(z[..e + 1], p);
    CutMoves(c, a, z, p, q, first, r, u, RowCells(c, a[p..q], u, r, false) + more);
  }

  // A row that is not the last and has none.
  lemma RowIsWhole(c: Config, a: seq<real>, z: seq<Option<bool>>, p: nat, q: nat, r: Rect, u: real, more: seq<Cell>)
    requires p < q < |a| == |z| && u == Min(r.dx, r.dy) && z[q - 1] == Some(u == r.dx) && forall k :: p <= k < q - 1 ==> z[k].None?
    ensures var row, full := RowCells(c, a[p..q], u, r, false), StickifyFrom(c, a, z, q, q, RowRest(c, a[p..q], u, r, false));
      && (SameRects(StickifyFrom(c, a, z, p, p, r), row + more) <==> SameRects(full, more))
      && (KeepsMarks(full, z, q) ==> KeepsMarks(StickifyFrom(c, a, z, p, p, r), z, p))
  {
    hide RowCells, RowRest, StickifyFrom;
    StickyAt(c, a, z, p, q - 1, r);
    var row, full := RowCells(c, a[p..q], u, r, false), StickifyFrom(c, a, z, q, q, RowRest(c, a[p..q], u, r, false));
    RowMarks(c, a[p..q], u, r, false, 0);
    SameAfterRow(row, full, more);
    if KeepsMarks(full, z, q) {
      forall k | p <= k < |z| ensures (row + full)[k - p].z == z[k] {
        if k < q {
          RowMarks(c, a[p..q], u, r, false, k - p);
        } else {
          assert (row + full)[k - p] == full[k - q];
        }
      }
    }
  }

  lemma SameAfterRow(row: seq<Cell>, more: seq<Cell>, others: seq<Cell>)
    ensures SameRects(row + more, row + others) <==> SameRects(more, others)
  {
    assert forall k :: 0 <= k < |more| ==> (row + more)[k + |row|] == more[k];
    assert forall k :: 0 <= k < |others| ==> (row + others)[k + |row|] == others[k];
    if SameRects(row + more, row + others) {
      forall k | 0 <= k < |more| ensures more[k].rect == others[k].rect {
        assert (row + more)[k + |row|].rect == (row + others)[k + |row|].rect;
      }
    }
  }

  // ---------------------------------------------------------------- the condition on cells and marks

  // Where the row of cell n starts.
  function RowStart(cells: seq<Cell>, n: nat): (s: nat)
    requires n < |cells|
    ensures s <= n
  {
    if n == 0 || cells[n - 1].z.Some? then n else RowStart(cells, n - 1)
  }

  // Whether the last row, which starts with cell s, fills a square.
  predicate LastIsSquare(cells: seq<Cell>, s: nat)
    requires s < |cells|
  {
    var f, l := cells[s].rect, cells[|cells| - 1].rect;
    if cells[|cells| - 1].z == Some(true) then l.x + l.dx - f.x == f.dy else l.y + l.dy - f.y == f.dx
  }

  // The first s cells are marked at row ends only.
  predicate MarkedAtEnds(cells: seq<Cell>, stale: seq<Option<bool>>, p: nat, s: nat)
    requires p + |cells| == |stale| && s <= |cells|
  {
    forall k :: p <= k < p + s && stale[k].Some? ==> cells[k - p].z.Some?
  }

  // All stale marks off the row ends are at the start of the last row, in a run, and turned against it;
  // and then that row does not fill a square. The cells are those of the areas from p on.
  predicate HarmlessFrom(cells: seq<Cell>, stale: seq<Option<bool>>, p: nat)
    requires p + |cells| == |stale| && cells != []
  {
    var n := |cells| - 1;
    var s := RowStart(cells, n);
    && MarkedAtEnds(cells, stale, p, s)
    && Crossing(stale, p + s, cells[n].z == Some(true), LastIsSquare(cells, s))
  }

  predicate Harmless(cells: seq<Cell>, stale: seq<Option<bool>>)
    requires |cells| == |stale|
  {
    cells != [] ==> HarmlessFrom(cells, stale, 0)
  }

  lemma {:induction false} RowXEnds(c: Config, a: seq<real>, x: real, right: real, y: real, v: real)
    requires a != []
    ensures var cells := RowX(c, a, x, right, y, v);
      |cells| == |a| && cells[0].rect.x == x && cells[0].rect.dy == v && cells[|a| - 1].rect.x + cells[|a| - 1].rect.dx == right
    decreases |a|
  {
    hide Extend;
    if |a| > 1 {
      RowXEnds(c, a[1..], x + Extend(c, a[0], v, right - x), right, y, v);
    }
  }

  lemma {:induction false} RowYEnds(c: Config, a: seq<real>, y: real, bottom: real, x: real, v: real)
    requires a != []
    ensures var cells := RowY(c, a, y, bottom, x, v);
      |cells| == |a| && cells[0].rect.y == y && cells[0].rect.dx == v && cells[|a| - 1].rect.y + cells[|a| - 1].rect.dy == bottom
    decreases |a|
  {
    hide Extend;
    if |a| > 1 {
      RowYEnds(c, a[1..], y + Extend(c, a[0], v, bottom - y), bottom, x, v);
    }
  }

  lemma LastRowSquare(c: Config, a: seq<real>, u: real, r: Rect)
    requires a != [] && u == Min(r.dx, r.dy)
    ensures var cells := RowCells(c, a, u, r, true);
      |cells| == |a| && RowStart(cells, |a| - 1) == 0 && cells[|a| - 1].z == Some(u == r.dx) && (LastIsSquare(cells, 0) <==> r.dx == r.dy)
  {
    hide RowThickness, RowX, RowY;
    var v, cells := RowThickness(c, a, u, r, true), RowCells(c, a, u, r, true);
    FlushThickness(c, a, u, r);
    RowXEnds(c, a, r.x, r.x + r.dx, r.y, v);
    RowYEnds(c, a, r.y, r.y + r.dy, r.x, v);
    forall k | 0 <= k < |a| ensures cells[k].z == if k == |a| - 1 then Some(u == r.dx) else None {
      RowMarks(c, a, u, r, true, k);
    }
    OneRowStart(cells, |a| - 1);
  }

  lemma {:induction false} OneRowStart(cells: seq<Cell>, n: nat)
    requires n < |cells| && forall k :: 0 <= k < n ==> cells[k].z.None?
    ensures RowStart(cells, n) == 0
  {
    if n > 0 {
      OneRowStart(cells, n - 1);
    }
  }

  lemma {:induction false} RowStartAfter(row: seq<Cell>, more: seq<Cell>, n: nat)
    requires row != [] && row[|row| - 1].z.Some? && n < |more|
    ensures RowStart(row + more, |row| + n) == |row| + RowStart(more, n)
    decreases n
  {
    if n > 0 {
      assert (row + more)[|row| + n - 1] == more[n - 1];
      RowStartAfter(row, more, n - 1);
    } else {
      assert (row + more)[|row| - 1] == row[|row| - 1];
    }
  }

  lemma {:induction false} MildIsHarmless(c: Config, a: seq<real>, z: seq<Option<bool>>, p: nat, q: nat, r: Rect, u: real, best: Score)
    requires p <= q <= |a| == |z| && p < |a| && (best.Infinity? || p < q) && u == Min(r.dx, r.dy)
    ensures |SquarifyFrom(c, a, p, q, r, u, best)| == |a| - p
    ensures Mild(c, a, z, p, q, r, u, best) <==> HarmlessFrom(SquarifyFrom(c, a, p, q, r, u, best), z, p)
    decreases |a| - p, |a| - q
  {
    hide RowScore, RowCells, RowRest, Crossing, LastIsSquare;
    SquarifyLength(c, a, p, q, r, u, best);
    if q == |a| {
      LastRowSquare(c, a[p..q], u, r);
    } else {
      var score := RowScore(c, a[p..q + 1], u);
      if AtMost(score, best) {
        MildIsHarmless(c, a, z, p, q + 1, r, u, score);
      } else {
        var rest := RowRest(c, a[p..q], u, r, false);
        var row, more := RowCells(c, a[p..q], u, r, false), SquarifyFrom(c, a, q, q, rest, Min(rest.dx, rest.dy), Infinity);
        MildIsHarmless(c, a, z, q, q, rest, Min(rest.dx, rest.dy), Infinity);
        forall k | 0 <= k < q - p ensures |row| == q - p && row[k].z == if k == q - p - 1 then Some(u == r.dx) else None {
          RowMarks(c, a[p..q], u, r, false, k);
        }
        HarmlessAfterRow(row, more, z, p);
      }
    }
  }

  lemma HarmlessAfterRow(row: seq<Cell>, more: seq<Cell>, z: seq<Option<bool>>, p: nat)
    requires row != [] && more != [] && p + |row| + |more| == |z|
    requires row[|row| - 1].z.Some? && forall k :: 0 <= k < |row| - 1 ==> row[k].z.None?
    ensures HarmlessFrom(row + more, z, p)
      <==> (forall k :: p <= k < p + |row| - 1 ==> z[k].None?) && HarmlessFrom(more, z, p + |row|)
  {
    hide Crossing, RowStart, MarkedAtEnds, LastIsSquare;
    var all, n, m := row + more, |row| + |more| - 1, |row|;
    var s := RowStart(more, |more| - 1);
    RowStartAfter(row, more, |more| - 1);
    MarkedAtEndsAfter(row, more, z, p, s);
    SquareAfter(row, more, s);
    assert all[n] == more[|more| - 1];
  }

  lemma SquareAfter(row: seq<Cell>, more: seq<Cell>, s: nat)
    requires s < |more|
    ensures LastIsSquare(row + more, |row| + s) == LastIsSquare(more, s)
  {
    assert (row + more)[|row| + s] == more[s] && (row + more)[|row| + |more| - 1] == more[|more| - 1];
  }

  lemma MarkedAtEndsAfter(row: seq<Cell>, more: seq<Cell>, z: seq<Option<bool>>, p: nat, s: nat)
    requires row != [] && s <= |more| && p + |row| + |more| == |z|
    requires row[|row| - 1].z.Some? && forall k :: 0 <= k < |row| - 1 ==> row[k].z.None?
    ensures MarkedAtEnds(row + more, z, p, |row| + s)
      <==> (forall k :: p <= k < p + |row| - 1 ==> z[k].None?) && MarkedAtEnds(more, z, p + |row|, s)
  {
    var all, m := row + more, |row|;
    forall k | p <= k < p + m + s && z[k].Some?
      ensures all[k - p].z.Some? <==> if k < p + m then k == p + m - 1 else more[k - (p + m)].z.Some?
    {
      if k < p + m {
        assert all[k - p] == row[k - p];
      } else {
        assert all[k - p] == more[k - (p + m)];
      }
    }
  }

  lemma {:induction false} CrossingSame(z: seq<Option<bool>>, y: seq<Option<bool>>, p: nat, o: bool, square: bool)
    requires p < |z| == |y| && forall k :: p <= k < |z| - 1 ==> z[k] == y[k]
    ensures Crossing(z, p, o, square) <==> Crossing(y, p, o, square)
    decreases |z| - p
  {
    if p < |z| - 1 {
      CrossingSame(z, y, p + 1, o, square);
    }
  }

  // Behind the last row end the marks over the cells are the stale ones.
  lemma {:induction false} RowStartIs(cells: seq<Cell>, n: nat)
    requires n < |cells|
    ensures forall k :: RowStart(cells, n) <= k < n ==> cells[k].z.None?
    decreases n
  {
    if n > 0 && cells[n - 1].z.None? {
      RowStartIs(cells, n - 1);
    }
  }

  lemma HarmlessOver(cells: seq<Cell>, stale: seq<Option<bool>>)
    requires |cells| == |stale| && cells != []
    ensures HarmlessFrom(cells, MarksOver(cells, stale), 0) <==> HarmlessFrom(cells, stale, 0)
  {
    hide Crossing;
    var n, z := |cells| - 1, MarksOver(cells, stale);
    var s := RowStart(cells, n);
    RowStartIs(cells, n);
    CrossingSame(z, stale, s, cells[n].z == Some(true), LastIsSquare(cells, s));
    assert forall k :: 0 <= k < s ==> z[k] == MarkLeft(cells[k - 0].z, stale[k]);
  }

  // Without rounding, and with positive areas that fill the rectangle: over marks of an earlier layout
  // the sticky layout puts every child where squarify put it exactly when those marks are harmless,
  // and then it leaves every mark as it is, too.
  lemma RectsReproducedIff(c: Config, a: seq<real>, r: Rect, stale: seq<Option<bool>>)
    requires Exact(c) && FitsIn(a, r, true) && |stale| == |a|
    ensures var cells := SquarifyCells(c, a, r);
      && |cells| == |a|
      && var full := StickifyFrom(c, a, MarksOver(cells, stale), 0, 0, r);
         && (SameRects(full, cells) <==> Harmless(cells, stale))
         && (Harmless(cells, stale) ==> Marks(full) == MarksOver(cells, stale))
  {
    hide SquarifyFrom, StickifyFrom, Mild, HarmlessFrom, Exact, FitsIn;
    var u, cells := Min(r.dx, r.dy), SquarifyCells(c, a, r);
    SquarifyLength(c, a, 0, 0, r, u, Infinity);
    var z := MarksOver(cells, stale);
    assert a[0..] == a;
    assert EndsAgree(cells, z, 0);
    NotEmpty(a, r);
    RectsFollow(c, a, z, 0, 0, r, u, Infinity);
    MildIsHarmless(c, a, z, 0, 0, r, u, Infinity);
    HarmlessOver(cells, stale);
    if Harmless(cells, stale) {
      var full := StickifyFrom(c, a, z, 0, 0, r);
      assert forall k :: 0 <= k < |z| ==> full[k - 0].z == z[k];
    }
  }

  lemma NotEmpty(a: seq<real>, r: Rect)
    requires FitsIn(a, r, true)
    ensures a != []
  {
  }

  // Two equal children in one row of a rectangle that is no square. The first carries a vertical mark of
  // a layout in a wider rectangle, off the row end and against the row: nothing at all changes.
  lemma CrossingMarkMovesNothing(c: Config)
    requires 1.5 <= c.ratio < 2.0 && Exact(c)
    ensures Marks(SquarifyCells(c, [1.0, 1.0], Rect(0.0, 0.0, 2.0, 1.0))) == [Some(false), Some(true)]
    ensures var a, r, stale := [0.75, 0.75], Rect(0.0, 0.0, 1.0, 1.5), [Some(false), Some(true)];
      var cells := SquarifyCells(c, a, r);
      && cells == [Cell(Rect(0.0, 0.0, 0.5, 1.5), None), Cell(Rect(0.5, 0.0, 0.5, 1.5), Some(true))]
      && MarksOver(cells, stale) == stale
      && SameRects(StickifyFrom(c, a, stale, 0, 0, r), cells) && Marks(StickifyFrom(c, a, stale, 0, 0, r)) == stale
  {
    hide RowScore, SquarifyFrom, StickifyFrom, RowCells, RowRest;
    ScoresOfTwo(c, 1.0);
    ScoresOfTwo(c, 0.75);
    var wide, r := Rect(0.0, 0.0, 2.0, 1.0), Rect(0.0, 0.0, 1.0, 1.5);
    TwoInTwoRows(c, 1.0, wide);
    RowOfOneAcross(c, wide);
    RowMarks(c, [1.0], 1.0, wide, false, 0);
    RowMarks(c, [1.0], 1.0, Rect(1.0, 0.0, 1.0, 1.0), true, 0);
    TwoInOneRow(c, 0.75, r);
    RowOfHalves(c, r);
    var a, stale := [0.75, 0.75], [Some(false), Some(true)];
    var cells := SquarifyCells(c, a, r);
    assert Sum(a) == 1.5 == Area(r);
    RectsReproducedIff(c, a, r, stale);
    assert RowStart(cells, 1) == 0 && !LastIsSquare(cells, 0);
    assert Crossing(stale, 1, true, false);
  }

  lemma RowOfOneAcross(c: Config, r: Rect)
    requires Exact(c) && r == Rect(0.0, 0.0, 2.0, 1.0)
    ensures RowRest(c, [1.0], 1.0, r, false) == Rect(1.0, 0.0, 1.0, 1.0)
  {
    assert Sum([1.0]) == 1.0;
    assert c.round(1.0 / 1.0) == 1.0;
  }

  lemma RowOfHalves(c: Config, r: Rect)
    requires Exact(c) && r == Rect(0.0, 0.0, 1.0, 1.5)
    ensures RowCells(c, [0.75, 0.75], 1.0, r, true)
         == [Cell(Rect(0.0, 0.0, 0.5, 1.5), None), Cell(Rect(0.5, 0.0, 0.5, 1.5), Some(true))]
  {
    assert [0.75, 0.75][1..] == [0.75];
    assert c.round(0.75 / 1.5) == 0.5;
    assert Extend(c, 0.75, 1.5, 1.0) == 0.5;
    assert RowX(c, [0.75], 0.5, 1.0, 0.0, 1.5) == [Cell(Rect(0.5, 0.0, 0.5, 1.5), Some(true))];
    assert RowX(c, [0.75, 0.75], 0.0, 1.0, 0.0, 1.5) == [Cell(Rect(0.0, 0.0, 0.5, 1.5), None)] + RowX(c, [0.75], 0.5, 1.0, 0.0, 1.5);
  }
}
