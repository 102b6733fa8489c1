// The point quadtree as a value: inserting points, what every insertion keeps, and visiting.
module Quadtree {
  import opened Wrappers

  // A point object; the index tells objects at the same place apart.
  datatype Pt = Pt(x: real, y: real, index: nat)

  datatype Box = Box(x1: real, y1: real, x2: real, y2: real)

  datatype Quad = Absent | Node(leaf: bool, point: Option<Pt>, nodes: seq<Quad>)

  const NO_NODES: seq<Quad> := [Absent, Absent, Absent, Absent]

  const EMPTY_LEAF := Node(true, None, NO_NODES)

  // ---------------------------------------------------------------- cells

  predicate InBox(p: Pt, b: Box) {
    b.x1 <= p.x <= b.x2 && b.y1 <= p.y <= b.y2
  }

  function MidX(b: Box): real {
    (b.x1 + b.x2) * 0.5
  }

  function MidY(b: Box): real {
    (b.y1 + b.y2) * 0.5
  }

  // The quadrant a point belongs to: 1 for right, plus 2 for bottom.
  function Quadrant(p: Pt, b: Box): (i: nat)
    ensures i < 4
  {
    (if p.y >= MidY(b) then 2 else 0) + if p.x >= MidX(b) then 1 else 0
  }

  function SubBox(b: Box, i: nat): Box
    requires i < 4
  {
    var x, y := MidX(b), MidY(b);
    Box(if i % 2 == 1 then x else b.x1, if i >= 2 then y else b.y1, if i % 2 == 1 then b.x2 else x, if i >= 2 then b.y2 else y)
  }

  lemma PointInQuadrant(p: Pt, b: Box)
    requires InBox(p, b)
    ensures InBox(p, SubBox(b, Quadrant(p, b)))
  {
  }

  function Abs(x: real): real {
    if x < 0.0 then -x else x
  }

  // Points this near each other share a node instead of splitting its cell.
  predicate Coincident(v: Pt, p: Pt) {
    Abs(v.x - p.x) + Abs(v.y - p.y) < 0.01
  }

  // How often a cell can be split before its points are coincident.
  function Splits(b: Box): nat {
    var s := ((b.x2 - b.x1 + (b.y2 - b.y1)) * 100.0).Floor;
    if s < 0 then 0 else s
  }

  lemma SplittingHalves(b: Box, i: nat, v: Pt, p: Pt)
    requires i < 4 && InBox(v, b) && InBox(p, b) && !Coincident(v, p)
    ensures Splits(SubBox(b, i)) < Splits(b)
  {
    var s, t := b.x2 - b.x1 + (b.y2 - b.y1), SubBox(b, i);
    assert t.x2 - t.x1 + (t.y2 - t.y1) == s * 0.5;
    assert s >= 0.01;
    assert (s * 0.5) * 100.0 == (s * 100.0) * 0.5;
  }

  // ---------------------------------------------------------------- well-formed trees

  ghost predicate WellFormed(n: Quad) {
    n.Node? ==>
      && |n.nodes| == 4
      && (n.leaf <==> forall i :: 0 <= i < 4 ==> n.nodes[i].Absent?)
      && forall i :: 0 <= i < 4 ==> WellFormed(n.nodes[i])
  }

  function Max(a: nat, b: nat): nat {
    if a < b then b else a
  }

  ghost function Height(n: Quad): nat
    requires WellFormed(n)
  {
    if n.Absent? then 0
    else if n.leaf then 1
    else 2 + Max(Max(Height(n.nodes[0]), Height(n.nodes[1])), Max(Height(n.nodes[2]), Height(n.nodes[3])))
  }

  // Every point below n lies in the cell that its node has when n has the cell b.
  ghost predicate Fits(n: Quad, b: Box)
    requires WellFormed(n)
  {
    n.Node? ==>
      && (n.point.Some? ==> InBox(n.point.value, b))
      && forall i :: 0 <= i < 4 ==> Fits(n.nodes[i], SubBox(b, i))
  }

  // The child that the next insertion enters: a new leaf when there is none.
  function Enter(n: Quad, i: nat): Quad
    requires n.Node? && i < |n.nodes|
  {
    if n.nodes[i].Absent? then EMPTY_LEAF else n.nodes[i]
  }

  function Filled(n: Quad): nat {
    if n.Node? && n.point.Some? then 1 else 0
  }

  // A node that may receive points inside the cell b.
  ghost predicate Ready(n: Quad, b: Box) {
    n.Node? && WellFormed(n) && Fits(n, b)
  }

  lemma EnterIsReady(n: Quad, b: Box, i: nat)
    requires n.Node? && WellFormed(n) && Fits(n, b) && i < 4
    ensures Ready(Enter(n, i), SubBox(b, i))
  {
  }

  // ---------------------------------------------------------------- insertion

  // Terminates because the subtree gets lower, or the cell holds two points that are not coincident
  // and its half does so fewer times, or an empty leaf takes the point.
  ghost function Insert(n: Quad, p: Pt, b: Box): (r: Quad)
    requires Ready(n, b) && InBox(p, b)
    ensures Ready(r, b)
    ensures n.leaf && n.point.None? ==> r == n.(point := Some(p))
    decreases Height(n), Splits(b), Filled(n), 0
  {
    if n.leaf then
      match n.point
      case None => n.(point := Some(p))
      case Some(v) =>
        if Coincident(v, p) then InsertChild(n, p, b)
        else
          SplittingHalves(b, Quadrant(p, b), v, p);
          var split := InsertChild(n.(point := None), v, b);
          InsertChild(split, p, b)
    else InsertChild(n, p, b)
  }

  ghost function InsertChild(n: Quad, p: Pt, b: Box): (r: Quad)
    requires n.Node? && WellFormed(n) && Fits(n, b) && InBox(p, b)
    ensures Ready(r, b) && !r.leaf
    ensures n.nodes[Quadrant(p, b)].Absent? ==>
      r == Node(false, n.point, n.nodes[Quadrant(p, b) := EMPTY_LEAF.(point := Some(p))])
    decreases Height(Enter(n, Quadrant(p, b))), Splits(SubBox(b, Quadrant(p, b))), Filled(Enter(n, Quadrant(p, b))), 1
  {
    var i := Quadrant(p, b);
    EnterIsReady(n, b, i);
    PointInQuadrant(p, b);
    var c := Insert(Enter(n, i), p, SubBox(b, i));
    assert n.nodes[i := c][i].Node?;
    Node(false, n.point, n.nodes[i := c])
  }

  // ---------------------------------------------------------------- what insertion stores

  // The sum of f over all the points stored in n and below.
  ghost function Total(f: Pt -> real, n: Quad): real
    decreases n, 0
  {
    if n.Absent? then 0.0
    else (if n.point.Some? then f(n.point.value) else 0.0) + TotalOf(f, n.nodes)
  }

  ghost function TotalOf(f: Pt -> real, nodes: seq<Quad>): real
    decreases nodes, 0
  {
    if nodes == [] then 0.0 else Total(f, nodes[0]) + TotalOf(f, nodes[1..])
  }

  lemma {:induction false} ReplaceTotal(f: Pt -> real, nodes: seq<Quad>, i: nat, c: Quad)
    requires i < |nodes|
    ensures TotalOf(f, nodes[i := c]) == TotalOf(f, nodes) - Total(f, nodes[i]) + Total(f, c)
    decreases i
  {
    hide Total;
    if i == 0 {
      assert nodes[0 := c][1..] == nodes[1..];
    } else {
      assert nodes[i := c][1..] == nodes[1..][i - 1 := c];
      ReplaceTotal(f, nodes[1..], i - 1, c);
    }
  }

  // What makes an insertion that does not split a leaf terminate.
  lemma Descends(n: Quad, p: Pt, b: Box)
    requires Ready(n, b) && InBox(p, b) && (!n.leaf || (n.point.Some? && Coincident(n.point.value, p)))
    ensures Height(Enter(n, Quadrant(p, b))) < Height(n)
      || (Height(Enter(n, Quadrant(p, b))) == Height(n) && Splits(SubBox(b, Quadrant(p, b))) <= Splits(b)
          && Filled(Enter(n, Quadrant(p, b))) < Filled(n))
  {
    if n.leaf {
      var s, t := b.x2 - b.x1 + (b.y2 - b.y1), SubBox(b, Quadrant(p, b));
      assert t.x2 - t.x1 + (t.y2 - t.y1) == s * 0.5;
    } else {
      EnterIsLower(n, Quadrant(p, b));
    }
  }

  lemma EnterIsLower(n: Quad, i: nat)
    requires n.Node? && WellFormed(n) && !n.leaf && i < 4
    ensures Height(Enter(n, i)) < Height(n)
  {
    if i == 0 {} else if i == 1 {} else if i == 2 {} else {}
  }

  // A leaf with a point that is not coincident: its point moves down, then the new point follows.
  lemma SplitLeaf(n: Quad, p: Pt, b: Box)
    requires Ready(n, b) && InBox(p, b) && n.leaf && n.point.Some? && !Coincident(n.point.value, p)
    ensures var v, bare := n.point.value, n.(point := None);
      && InBox(v, b) && WellFormed(bare) && Fits(bare, b)
      && var split := InsertChild(bare, v, b);
         && split.Node? && WellFormed(split) && Fits(split, b)
         && Insert(n, p, b) == InsertChild(split, p, b)
         && Height(Enter(bare, Quadrant(v, b))) <= Height(n) && Height(Enter(split, Quadrant(p, b))) <= Height(n)
         && Splits(SubBox(b, Quadrant(v, b))) < Splits(b) && Splits(SubBox(b, Quadrant(p, b))) < Splits(b)
  {
    var v := n.point.value;
    SplittingHalves(b, Quadrant(v, b), v, p);
    SplittingHalves(b, Quadrant(p, b), v, p);
  }

  // Every point is stored exactly once: whatever is summed over the points grows by the new one.
  lemma {:induction false} InsertStores(f: Pt -> real, n: Quad, p: Pt, b: Box)
    requires Ready(n, b) && InBox(p, b)
    ensures Total(f, Insert(n, p, b)) == Total(f, n) + f(p)
    decreases Height(n), Splits(b), Filled(n), 0
  {
    hide Coincident, InBox, Quadrant, SubBox, Fits, TotalOf;
    if n.leaf && n.point.Some? && !Coincident(n.point.value, p) {
      SplitLeaf(n, p, b);
      InsertChildStores(f, n.(point := None), n.point.value, b);
      InsertChildStores(f, InsertChild(n.(point := None), n.point.value, b), p, b);
    } else if !n.leaf || n.point.Some? {
      Descends(n, p, b);
      InsertChildStores(f, n, p, b);
    }
  }

  lemma {:induction false} InsertChildStores(f: Pt -> real, n: Quad, p: Pt, b: Box)
    requires n.Node? && WellFormed(n) && Fits(n, b) && InBox(p, b)
    ensures Total(f, InsertChild(n, p, b)) == Total(f, n) + f(p)
    decreases Height(Enter(n, Quadrant(p, b))), Splits(SubBox(b, Quadrant(p, b))), Filled(Enter(n, Quadrant(p, b))), 1
  {
    hide Height, Splits, InBox, Quadrant, SubBox, Fits, TotalOf, Insert;
    var i := Quadrant(p, b);
    EnterIsReady(n, b, i);
    PointInQuadrant(p, b);
    InsertStores(f, Enter(n, i), p, SubBox(b, i));
    EnterStores(f, n, i);
    ReplaceTotal(f, n.nodes, i, Insert(Enter(n, i), p, SubBox(b, i)));
  }

  lemma EnterStores(f: Pt -> real, n: Quad, i: nat)
    requires n.Node? && WellFormed(n) && i < 4
    ensures Total(f, Enter(n, i)) == Total(f, n.nodes[i])
  {
    var a := NO_NODES;
    assert TotalOf(f, a) == 0.0 by {
      assert a[1..] == [Absent, Absent, Absent] && a[1..][1..] == [Absent, Absent] && a[1..][1..][1..] == [Absent];
      assert TotalOf(f, [Absent]) == 0.0;
      assert TotalOf(f, [Absent, Absent]) == 0.0;
      assert TotalOf(f, [Absent, Absent, Absent]) == 0.0;
    }
  }

  // ---------------------------------------------------------------- the whole tree

  ghost function Build(points: seq<Pt>, b: Box): (r: Quad)
    requires forall k :: 0 <= k < |points| ==> InBox(points[k], b)
    ensures Ready(r, b)
  {
    if points == [] then EMPTY_LEAF else Insert(Build(points[..|points| - 1], b), points[|points| - 1], b)
  }

  ghost function ListTotal(f: Pt -> real, points: seq<Pt>): real {
    if points == [] then 0.0 else ListTotal(f, points[..|points| - 1]) + f(points[|points| - 1])
  }

  lemma {:induction false} BuildStores(f: Pt -> real, points: seq<Pt>, b: Box)
    requires forall k :: 0 <= k < |points| ==> InBox(points[k], b)
    ensures Total(f, Build(points, b)) == ListTotal(f, points)
    decreases |points|
  {
    hide InBox, Insert, Total;
    if points == [] {
      EmptyTotal(f);
    } else {
      var n := |points| - 1;
      BuildStores(f, points[..n], b);
      InsertStores(f, Build(points[..n], b), points[n], b);
    }
  }

  lemma EmptyTotal(f: Pt -> real)
    ensures Total(f, EMPTY_LEAF) == 0.0
  {
    EnterStores(f, EMPTY_LEAF, 0);
  }

  // The square bounds that are computed when none are given.
  function Lower(points: seq<Pt>, coordinate: Pt -> real): real
    requires points != []
  {
    var c := coordinate(points[|points| - 1]);
    if |points| == 1 then c
    else var m := Lower(points[..|points| - 1], coordinate); if c < m then c else m
  }

  function Upper(points: seq<Pt>, coordinate: Pt -> real): real
    requires points != []
  {
    var c := coordinate(points[|points| - 1]);
    if |points| == 1 then c
    else var m := Upper(points[..|points| - 1], coordinate); if c > m then c else m
  }

  lemma {:induction false} BetweenBounds(points: seq<Pt>, coordinate: Pt -> real, k: nat)
    requires k < |points|
    ensures Lower(points, coordinate) <= coordinate(points[k]) <= Upper(points, coordinate)
    decreases |points|
  {
    if k < |points| - 1 {
      BetweenBounds(points[..|points| - 1], coordinate, k);
    } else if |points| > 1 {
      BetweenBounds(points[..|points| - 1], coordinate, 0);
    }
  }

  lemma {:induction false} BoundsAreMet(points: seq<Pt>, coordinate: Pt -> real)
    requires points != []
    ensures exists k :: 0 <= k < |points| && coordinate(points[k]) == Lower(points, coordinate)
    ensures exists k :: 0 <= k < |points| && coordinate(points[k]) == Upper(points, coordinate)
    decreases |points|
  {
    var n := |points| - 1;
    if |points| > 1 {
      BoundsAreMet(points[..n], coordinate);
      var i :| 0 <= i < n && coordinate(points[..n][i]) == Lower(points[..n], coordinate);
      var j :| 0 <= j < n && coordinate(points[..n][j]) == Upper(points[..n], coordinate);
      assert points[..n][i] == points[i] && points[..n][j] == points[j];
      assert coordinate(points[i]) == Lower(points, coordinate) || coordinate(points[n]) == Lower(points, coordinate);
      assert coordinate(points[j]) == Upper(points, coordinate) || coordinate(points[n]) == Upper(points, coordinate);
    } else {
      assert coordinate(points[0]) == Lower(points, coordinate) == Upper(points, coordinate);
    }
  }

  // Every edge but one touches a point: the bounds are the least square with this low corner. Without
  // points they are no finite numbers.
  method SquareBounds(points: seq<Pt>) returns (b: Option<Box>)
    ensures b.None? <==> points == []
    ensures b.Some? ==> forall k :: 0 <= k < |points| ==> InBox(points[k], b.value)
    ensures b.Some? ==> b.value.x2 - b.value.x1 == b.value.y2 - b.value.y1 >= 0.0
    ensures b.Some? ==> exists k :: 0 <= k < |points| && points[k].x == b.value.x1
    ensures b.Some? ==> exists k :: 0 <= k < |points| && points[k].y == b.value.y1
    ensures b.Some? ==> exists k :: 0 <= k < |points| && (points[k].x == b.value.x2 || points[k].y == b.value.y2)
  {
    if |points| == 0 {
      return None;
    }
    var getX, getY := (p: Pt) => p.x, (p: Pt) => p.y;
    var x1, y1, x2, y2 := points[0].x, points[0].y, points[0].x, points[0].y;
    assert points[..1][0] == points[0];
    for i := 1 to |points|
      invariant x1 == Lower(points[..i], getX) && x2 == Upper(points[..i], getX)
      invariant y1 == Lower(points[..i], getY) && y2 == Upper(points[..i], getY)
    {
      var p := points[i];
      assert points[..i + 1][..i] == points[..i];
      if p.x < x1 {
        x1 := p.x;
      }
      if p.y < y1 {
        y1 := p.y;
      }
      if p.x > x2 {
        x2 := p.x;
      }
      if p.y > y2 {
        y2 := p.y;
      }
    }
    assert points[..|points|] == points;
    forall k | 0 <= k < |points| ensures x1 <= points[k].x <= x2 && y1 <= points[k].y <= y2 {
      BetweenBounds(points, getX, k);
      BetweenBounds(points, getY, k);
    }
    BoundsAreMet(points, getX);
    BoundsAreMet(points, getY);
    var dx, dy := x2 - x1, y2 - y1;
    BetweenBounds(points, getX, 0);
    if dx > dy {
      y2 := y1 + dx;
    } else {
      x2 := x1 + dy;
    }
    b := Some(Box(x1, y1, x2, y2));
  }

  // ---------------------------------------------------------------- visiting

  // Visits n before its children; the children are skipped when the callback says so. The callback's
  // own state is passed along.
  ghost function Visit<S>(f: (S, Quad, Box) -> (S, bool), s: S, n: Quad, b: Box): S
    decreases n, 0
  {
    if n.Absent? || |n.nodes| != 4 then s
    else
      var (t, skip) := f(s, n, b);
      if skip then t else VisitFrom(f, t, n.nodes, b, 0)
  }

  ghost function VisitFrom<S>(f: (S, Quad, Box) -> (S, bool), s: S, nodes: seq<Quad>, b: Box, i: nat): S
    requires i + |nodes| == 4
    decreases nodes, 0
  {
    if nodes == [] then s
    else VisitFrom(f, Visit(f, s, nodes[0], SubBox(b, i)), nodes[1..], b, i + 1)
  }

  predicate Disjoint(a: Box, b: Box) {
    a.x2 < b.x1 || b.x2 < a.x1 || a.y2 < b.y1 || b.y2 < a.y1
  }

  // A callback that collects the points of a region and skips the cells that do not meet it.
  function Collect(region: Box): (seq<Pt>, Quad, Box) -> (seq<Pt>, bool) {
    (found: seq<Pt>, n: Quad, b: Box) =>
      if Disjoint(b, region) then (found, true)
      else (if n.Node? && n.point.Some? && InBox(n.point.value, region) then found + [n.point.value] else found, false)
  }

  function OnlyIn(region: Box, g: Pt -> real): Pt -> real {
    p => if InBox(p, region) then g(p) else 0.0
  }

  lemma {:induction false} NothingIn(region: Box, g: Pt -> real, n: Quad, b: Box)
    requires WellFormed(n) && Fits(n, b) && Disjoint(b, region) && b.x1 <= b.x2 && b.y1 <= b.y2
    ensures Total(OnlyIn(region, g), n) == 0.0
    decreases n, 1
  {
    if n.Node? {
      NothingInNodes(region, g, n.nodes, b, 0);
    }
  }

  lemma {:induction false} NothingInNodes(region: Box, g: Pt -> real, nodes: seq<Quad>, b: Box, i: nat)
    requires i + |nodes| == 4 && forall k :: 0 <= k < |nodes| ==> WellFormed(nodes[k]) && Fits(nodes[k], SubBox(b, i + k))
    requires Disjoint(b, region) && b.x1 <= b.x2 && b.y1 <= b.y2
    ensures TotalOf(OnlyIn(region, g), nodes) == 0.0
    decreases nodes, 0
  {
    if nodes != [] {
      assert WellFormed(nodes[0]) && Fits(nodes[0], SubBox(b, i + 0));
      NothingIn(region, g, nodes[0], SubBox(b, i));
      NothingInNodes(region, g, nodes[1..], b, i + 1);
    }
  }

  // Skipping the cells outside the region loses nothing: the visit collects what a scan of all
  // points would.
  lemma {:induction false} VisitCollects(region: Box, g: Pt -> real, found: seq<Pt>, n: Quad, b: Box)
    requires WellFormed(n) && Fits(n, b) && b.x1 <= b.x2 && b.y1 <= b.y2
    ensures ListTotal(g, Visit(Collect(region), found, n, b)) == ListTotal(g, found) + Total(OnlyIn(region, g), n)
    decreases n, 1
  {
    hide Disjoint, InBox, SubBox;
    if n.Node? {
      if Disjoint(b, region) {
        NothingIn(region, g, n, b);
      } else {
        var (t, skip) := Collect(region)(found, n, b);
        assert n.point.Some? && InBox(n.point.value, region) ==> t == found + [n.point.value] && t[..|found|] == found;
        VisitFromCollects(region, g, t, n.nodes, b, 0);
      }
    }
  }

  lemma {:induction false} VisitFromCollects(region: Box, g: Pt -> real, found: seq<Pt>, nodes: seq<Quad>, b: Box, i: nat)
    requires i + |nodes| == 4 && forall k :: 0 <= k < |nodes| ==> WellFormed(nodes[k]) && Fits(nodes[k], SubBox(b, i + k))
    requires b.x1 <= b.x2 && b.y1 <= b.y2
    ensures ListTotal(g, VisitFrom(Collect(region), found, nodes, b, i)) == ListTotal(g, found) + TotalOf(OnlyIn(region, g), nodes)
    decreases nodes, 0
  {
    if nodes != [] {
      assert WellFormed(nodes[0]) && Fits(nodes[0], SubBox(b, i + 0));
      VisitCollects(region, g, found, nodes[0], SubBox(b, i));
      VisitFromCollects(region, g, Visit(Collect(region), found, nodes[0], SubBox(b, i)), nodes[1..], b, i + 1);
    }
  }

  lemma SearchAgreesWithScan(region: Box, g: Pt -> real, points: seq<Pt>, b: Box)
    requires (forall k :: 0 <= k < |points| ==> InBox(points[k], b)) && b.x1 <= b.x2 && b.y1 <= b.y2
    ensures ListTotal(g, Visit(Collect(region), [], Build(points, b), b)) == ListTotal(OnlyIn(region, g), points)
  {
    hide InBox;
    VisitCollects(region, g, [], Build(points, b), b);
    BuildStores(OnlyIn(region, g), points, b);
  }

  // The listed points of a region, in order.
  function PointsIn(region: Box, points: seq<Pt>): seq<Pt> {
    if points == [] then []
    else
      var n := |points| - 1;
      PointsIn(region, points[..n]) + if InBox(points[n], region) then [points[n]] else []
  }

  function IsPoint(p: Pt): Pt -> real {
    q => if q == p then 1.0 else 0.0
  }

  lemma {:induction false} TotalIsCount(points: seq<Pt>, p: Pt)
    ensures ListTotal(IsPoint(p), points) == multiset(points)[p] as real
    decreases |points|
  {
    if points != [] {
      var n := |points| - 1;
      TotalIsCount(points[..n], p);
      assert points == points[..n] + [points[n]];
    }
  }

  lemma {:induction false} ScanIsTotal(region: Box, g: Pt -> real, points: seq<Pt>)
    ensures ListTotal(OnlyIn(region, g), points) == ListTotal(g, PointsIn(region, points))
    decreases |points|
  {
    if points != [] {
      var n := |points| - 1;
      ScanIsTotal(region, g, points[..n]);
      var found := PointsIn(region, points[..n]);
      assert InBox(points[n], region) ==> (found + [points[n]])[..|found|] == found;
      assert !InBox(points[n], region) ==> found + [] == found;
    }
  }

  // The points found are those of the region, each as often as it is listed.
  lemma SearchFindsRegion(region: Box, points: seq<Pt>, b: Box)
    requires (forall k :: 0 <= k < |points| ==> InBox(points[k], b)) && b.x1 <= b.x2 && b.y1 <= b.y2
    ensures multiset(Visit(Collect(region), [], Build(points, b), b)) == multiset(PointsIn(region, points))
  {
    hide InBox, Visit, Collect, PointsIn, ListTotal, OnlyIn;
    var found, scanned := Visit(Collect(region), [], Build(points, b), b), PointsIn(region, points);
    forall p: Pt ensures multiset(found)[p] == multiset(scanned)[p] {
      SearchAgreesWithScan(region, IsPoint(p), points, b);
      ScanIsTotal(region, IsPoint(p), points);
      TotalIsCount(found, p);
      TotalIsCount(scanned, p);
    }
  }
}
