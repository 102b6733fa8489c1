// The treemap layout as it runs on the nodes of a tree: squarify, stickify and position.
module TreemapLayout {
  import opened TreemapRows
  import opened Wrappers

  datatype Padding = Padding(top: real, right: real, bottom: real, left: real)

  // A node's rectangle less its padding; what would be negative becomes an empty line in the middle.
  function Pad(padding: Option<Padding>, r: Rect): Rect {
    match padding
    case None => r
    case Some(p) =>
      var x, y, dx, dy := r.x + p.left, r.y + p.top, r.dx - p.right - p.left, r.dy - p.top - p.bottom;
      Rect(if dx < 0.0 then x + dx / 2.0 else x, if dy < 0.0 then y + dy / 2.0 else y, Max(dx, 0.0), Max(dy, 0.0))
  }

  class Node {
    const children: seq<Node>
    const padding: Option<Padding>
    ghost const height: nat
    ghost const below: set<Node>
    var x: real
    var y: real
    var dx: real
    var dy: real
    var area: real
    var z: Option<bool>

    // What hierarchy builds: a tree.
    ghost predicate IsTree()
      decreases height
    {
      && (forall d :: d in below ==> d.height < height)
      && (forall i :: 0 <= i < |children| ==> children[i].height < height && children[i].IsTree())
      && below == FamilyUnion(children)
      && (forall i, j :: 0 <= i < j < |children| ==> children[i].Family() !! children[j].Family())
    }

    ghost function Family(): set<Node> {
      {this} + below
    }

    function Rectangle(): Rect
      reads this
    {
      Rect(x, y, dx, dy)
    }

    method Place(r: Rect)
      modifies `x, `y, `dx, `dy
      ensures Rectangle() == r
    {
      x, y, dx, dy := r.x, r.y, r.dx, r.dy;
    }

    constructor (children: seq<Node>, padding: Option<Padding>)
      requires forall i :: 0 <= i < |children| ==> children[i].IsTree()
      requires forall i, j :: 0 <= i < j < |children| ==> children[i].Family() !! children[j].Family()
      ensures IsTree() && z.None? && this.children == children && this.padding == padding
      ensures below == FamilyUnion(children)
    {
      this.children, this.padding := children, padding;
      FamilyHeight(children, HeightBound(children));
      height := HeightBound(children);
      below := FamilyUnion(children);
      z := None;
    }
  }

  // A height above that of all the nodes.
  ghost function HeightBound(nodes: seq<Node>): (h: nat)
    ensures forall i :: 0 <= i < |nodes| ==> nodes[i].height < h
  {
    if nodes == [] then 0 else
      var h := HeightBound(nodes[1..]);
      if nodes[0].height < h then h else nodes[0].height + 1
  }

  ghost function FamilyUnion(nodes: seq<Node>): (f: set<Node>)
    ensures forall i :: 0 <= i < |nodes| ==> nodes[i] in f && nodes[i].below <= f
  {
    if nodes == [] then {} else nodes[0].Family() + FamilyUnion(nodes[1..])
  }

  lemma {:induction false} FamilyHeight(nodes: seq<Node>, h: nat)
    requires forall i :: 0 <= i < |nodes| ==> nodes[i].IsTree() && nodes[i].height < h
    ensures forall d :: d in FamilyUnion(nodes) ==> d.height < h
    decreases |nodes|
  {
    if nodes != [] {
      FamilyHeight(nodes[1..], h);
      assert nodes[0].IsTree();
    }
  }

  // ---------------------------------------------------------------- rows of nodes

  ghost predicate Distinct(nodes: seq<Node>) {
    forall i, j :: 0 <= i < j < |nodes| ==> nodes[i] != nodes[j]
  }

  ghost predicate HaveAreas(nodes: seq<Node>, a: seq<real>)
    reads nodes
  {
    |nodes| == |a| && forall k :: 0 <= k < |nodes| ==> nodes[k].area == a[k]
  }

  // The nodes lie where the cells say; marked ones also carry the mark.
  ghost predicate LieIn(nodes: seq<Node>, cells: seq<Cell>)
    reads nodes
  {
    |nodes| == |cells| && forall k :: 0 <= k < |nodes| ==> nodes[k].Rectangle() == cells[k].rect
  }

  // Only the last node of the row is marked, with z.
  twostate predicate MarksLast(row: seq<Node>, z: bool)
    requires row != []
    reads row
  {
    && row[|row| - 1].z == Some(z)
    && forall k :: 0 <= k < |row| - 1 ==> row[k].z == old(row[k].z)
  }

  method Worst(c: Config, row: seq<Node>, rowArea: real, u: real, ghost a: seq<real>) returns (score: Score)
    requires HaveAreas(row, a) && rowArea == Sum(a)
    ensures score == RowScore(c, a, u)
  {
    hide ScoreOf, Sum;
    var s, rmax, rmin := rowArea, 0.0, Infinity;
    for i := 0 to |row|
      invariant ExtentOf(a[..i]) == Extent(rmin, rmax)
    {
      assert a[..i + 1][..i] == a[..i] && a[..i + 1][i] == row[i].area;
      var r := row[i].area;
      if r == 0.0 {
        continue;
      }
      if rmin.Infinity? || r < rmin.value {
        rmin := Finite(r);
      }
      if r > rmax {
        rmax := r;
      }
    }
    assert a[..|row|] == a;
    score := ScoreOf(c, s, Extent(rmin, rmax), u);
  }

  method PositionX(c: Config, row: seq<Node>, v: real, rect: Rect, ghost a: seq<real>)
    requires row != [] && Distinct(row) && HaveAreas(row, a)
    modifies row
    ensures LieIn(row, RowX(c, a, rect.x, rect.x + rect.dx, rect.y, v))
    ensures HaveAreas(row, a) && MarksLast(row, true)
  {
    hide RowX, Extend;
    var n, x, y := |row|, rect.x, rect.y;
    ghost var right := rect.x + rect.dx;
    ghost var full := RowX(c, a, x, right, y, v);
    RowXMarks(c, a, x, right, y, v, 0);
    assert a[0..] == a;
    var i := 0;
    while i < n
      invariant 0 <= i <= n && |full| == n
      invariant i < n ==> full[i..] == RowX(c, a[i..], x, right, y, v)
      invariant forall k :: 0 <= k < n ==> row[k].area == a[k] && row[k].z == old(row[k].z)
      invariant forall k :: 0 <= k < i && k < n - 1 ==> row[k].Rectangle() == full[k].rect
      invariant i == n ==> full[n - 1].rect == Rect(row[n - 1].x, y, right - row[n - 1].x, v)
      invariant i == n ==> row[n - 1].Rectangle() == Rect(row[n - 1].x, y, x - row[n - 1].x, v)
    {
      var o := row[i];
      RowXStep(c, a, i, x, right, y, v, full);
      o.Place(Rect(x, y, Extend(c, o.area, v, rect.x + rect.dx - x), v));
      x := x + o.dx;
      i := i + 1;
    }
    var o := row[n - 1];
    o.z := Some(true);
    o.dx := o.dx + (rect.x + rect.dx - x);
  }

  lemma RowXStep(c: Config, a: seq<real>, i: nat, x: real, right: real, y: real, v: real, full: seq<Cell>)
    requires i < |a| == |full| && full[i..] == RowX(c, a[i..], x, right, y, v)
    ensures i == |a| - 1 ==> full[i].rect == Rect(x, y, right - x, v)
    ensures i < |a| - 1 ==> full[i].rect == Rect(x, y, Extend(c, a[i], v, right - x), v)
    ensures i < |a| - 1 ==> full[i + 1..] == RowX(c, a[i + 1..], x + Extend(c, a[i], v, right - x), right, y, v)
  {
    assert full[i] == full[i..][0] && full[i..][1..] == full[i + 1..] && a[i..][1..] == a[i + 1..] && a[i..][0] == a[i];
  }

  method PositionY(c: Config, row: seq<Node>, v: real, rect: Rect, ghost a: seq<real>)
    requires row != [] && Distinct(row) && HaveAreas(row, a)
    modifies row
    ensures LieIn(row, RowY(c, a, rect.y, rect.y + rect.dy, rect.x, v))
    ensures HaveAreas(row, a) && MarksLast(row, false)
  {
    hide RowY, Extend;
    var n, x, y := |row|, rect.x, rect.y;
    ghost var bottom := rect.y + rect.dy;
    ghost var full := RowY(c, a, y, bottom, x, v);
    RowYMarks(c, a, y, bottom, x, v, 0);
    assert a[0..] == a;
    var i := 0;
    while i < n
      invariant 0 <= i <= n && |full| == n
      invariant i < n ==> full[i..] == RowY(c, a[i..], y, bottom, x, v)
      invariant forall k :: 0 <= k < n ==> row[k].area == a[k] && row[k].z == old(row[k].z)
      invariant forall k :: 0 <= k < i && k < n - 1 ==> row[k].Rectangle() == full[k].rect
      invariant i == n ==> full[n - 1].rect == Rect(x, row[n - 1].y, v, bottom - row[n - 1].y)
      invariant i == n ==> row[n - 1].Rectangle() == Rect(x, row[n - 1].y, v, y - row[n - 1].y)
    {
      var o := row[i];
      RowYStep(c, a, i, y, bottom, x, v, full);
      o.Place(Rect(x, y, v, Extend(c, o.area, v, rect.y + rect.dy - y)));
      y := y + o.dy;
      i := i + 1;
    }
    var o := row[n - 1];
    o.z := Some(false);
    o.dy := o.dy + (rect.y + rect.dy - y);
  }

  lemma RowYStep(c: Config, a: seq<real>, i: nat, y: real, bottom: real, x: real, v: real, full: seq<Cell>)
    requires i < |a| == |full| && full[i..] == RowY(c, a[i..], y, bottom, x, v)
    ensures i == |a| - 1 ==> full[i].rect == Rect(x, y, v, bottom - y)
    ensures i < |a| - 1 ==> full[i].rect == Rect(x, y, v, Extend(c, a[i], v, bottom - y))
    ensures i < |a| - 1 ==> full[i + 1..] == RowY(c, a[i + 1..], y + Extend(c, a[i], v, bottom - y), bottom, x, v)
  {
    assert full[i] == full[i..][0] && full[i..][1..] == full[i + 1..] && a[i..][1..] == a[i + 1..] && a[i..][0] == a[i];
  }

  // Puts one row along the side of length u and returns what is left of the rectangle. Calling it
  // with an empty row would be an error: the program writes to the last node of the row.
  method Position(c: Config, row: seq<Node>, rowArea: real, u: real, rect: Rect, flush: bool, ghost a: seq<real>) returns (rest: Rect)
    requires row != [] && Distinct(row) && HaveAreas(row, a) && rowArea == Sum(a)
    modifies row
    ensures LieIn(row, RowCells(c, a, u, rect, flush)) && rest == RowRest(c, a, u, rect, flush)
    ensures HaveAreas(row, a) && MarksLast(row, u == rect.dx)
  {
    var v := if u != 0.0 then c.round(rowArea / u) else 0.0;
    if u == rect.dx {
      if flush || v > rect.dy {
        v := rect.dy;
      }
      PositionX(c, row, v, rect, a);
      rest := Rect(rect.x, rect.y + v, rect.dx, rect.dy - v);
    } else {
      if flush || v > rect.dx {
        v := rect.dx;
      }
      PositionY(c, row, v, rect, a);
      rest := Rect(rect.x + v, rect.y, rect.dx - v, rect.dy);
    }
  }

  // ---------------------------------------------------------------- the children of one node

  // Children are taken from the end.
  function Reversed(nodes: seq<Node>): (r: seq<Node>)
    ensures |r| == |nodes| && forall k :: 0 <= k < |nodes| ==> r[k] == nodes[|nodes| - 1 - k]
  {
    seq(|nodes|, k requires 0 <= k < |nodes| => nodes[|nodes| - 1 - k])
  }

  // What a node carries when no row has ended at it: the mark of an earlier layout, if any.
  ghost function Older(stale: map<Node, bool>, n: Node): Option<bool> {
    if n in stale then Some(stale[n]) else None
  }

  // Row ends carry their marks, other nodes what they carried before.
  ghost predicate CarryMarks(nodes: seq<Node>, cells: seq<Cell>, stale: map<Node, bool>)
    reads nodes
  {
    && |nodes| == |cells|
    && forall k :: 0 <= k < |nodes| ==> nodes[k].z == MarkLeft(cells[k].z, Older(stale, nodes[k]))
  }

  ghost predicate HoldMarks(nodes: seq<Node>, stale: map<Node, bool>)
    reads nodes
  {
    forall k :: 0 <= k < |nodes| ==> nodes[k].z == Older(stale, nodes[k])
  }

  lemma SumSnoc(a: seq<real>, p: nat, q: nat)
    requires p <= q < |a|
    ensures Sum(a[p..q + 1]) == Sum(a[p..q]) + a[q]
  {
    assert a[p..q + 1][..q - p] == a[p..q];
  }

  // Putting the row of nodes p to q in place extends the part of the layout that is done.
  method PlaceRow(c: Config, row: seq<Node>, rowArea: real, u: real, rect: Rect, flush: bool,
                  ghost order: seq<Node>, ghost p: nat, ghost q: nat, ghost a: seq<real>, ghost done: seq<Cell>,
                  ghost stale: map<Node, bool>)
      returns (rest: Rect)
    requires p < q <= |order| && row == order[p..q] && Distinct(order) && HaveAreas(order, a) && rowArea == Sum(a[p..q])
    requires LieIn(order[..p], done)
    modifies row
    ensures HaveAreas(order, a) && rest == RowRest(c, a[p..q], u, rect, flush)
    ensures LieIn(order[..q], done + RowCells(c, a[p..q], u, rect, flush))
    ensures old(CarryMarks(order[..p], done, stale) && HoldMarks(order[p..], stale)) ==>
      CarryMarks(order[..q], done + RowCells(c, a[p..q], u, rect, flush), stale) && HoldMarks(order[q..], stale)
    ensures forall k :: 0 <= k < |order| && !(p <= k < q) ==> unchanged(order[k])
    ensures MarksLast(order[p..q], u == rect.dx)
  {
    hide RowCells, RowRest, Sum, LieIn, CarryMarks, HoldMarks;
    ghost var cells := RowCells(c, a[p..q], u, rect, flush);
    ghost var carried := CarryMarks(order[..p], done, stale) && HoldMarks(order[p..], stale);
    OthersAreElsewhere(order, p, q);
    if carried {
      PartsHold(order, p, q, stale);
    }
    rest := Position(c, row, rowArea, u, rect, flush, a[p..q]);
    assert forall k :: 0 <= k < |order| && !(p <= k < q) ==> unchanged(order[k]);
    RowLies(order, p, q, a, done, cells);
    if carried {
      assert HoldMarks(order[q..], stale);
      MarksOfRow(c, row, a[p..q], u, rect, flush, stale);
      RowIsMarked(order, p, q, done, cells, stale);
    }
  }

  lemma PartsHold(order: seq<Node>, p: nat, q: nat, stale: map<Node, bool>)
    requires p < q <= |order| && HoldMarks(order[p..], stale)
    ensures HoldMarks(order[q..], stale) && forall k :: 0 <= k < q - p ==> order[p..q][k].z == Older(stale, order[p..q][k])
  {
    assert forall k :: 0 <= k < q - p ==> order[p..q][k] == order[p..][k];
    assert forall k :: 0 <= k < |order| - q ==> order[q..][k] == order[p..][k + (q - p)];
  }

  lemma MarksOfRow(c: Config, row: seq<Node>, a: seq<real>, u: real, rect: Rect, flush: bool, stale: map<Node, bool>)
    requires row != [] && |a| == |row| && row[|row| - 1].z == Some(u == rect.dx)
    requires forall k :: 0 <= k < |row| - 1 ==> row[k].z == Older(stale, row[k])
    ensures CarryMarks(row, RowCells(c, a, u, rect, flush), stale)
  {
    hide RowCells;
    var cells := RowCells(c, a, u, rect, flush);
    RowMarks(c, a, u, rect, flush, 0);
    forall k | 0 <= k < |row| ensures row[k].z == MarkLeft(cells[k].z, Older(stale, row[k])) {
      RowMarks(c, a, u, rect, flush, k);
    }
  }

  lemma OthersAreElsewhere(order: seq<Node>, p: nat, q: nat)
    requires p <= q <= |order| && Distinct(order)
    ensures forall k :: 0 <= k < |order| && !(p <= k < q) ==> order[k] !in order[p..q]
    ensures forall d :: d in order[q..] ==> d !in order[p..q]
    ensures forall d :: d in order[..p] ==> d !in order[p..q]
  {
  }

  lemma RowLies(order: seq<Node>, p: nat, q: nat, a: seq<real>, done: seq<Cell>, cells: seq<Cell>)
    requires p < q <= |order| == |a| && forall k :: 0 <= k < |order| && !(p <= k < q) ==> order[k].area == a[k]
    requires LieIn(order[..p], done) && HaveAreas(order[p..q], a[p..q]) && LieIn(order[p..q], cells)
    ensures HaveAreas(order, a) && LieIn(order[..q], done + cells)
  {
    forall k | 0 <= k < |order| ensures order[k].area == a[k] {
      if p <= k < q {
        assert order[k] == order[p..q][k - p];
      }
    }
    forall k | 0 <= k < q ensures order[..q][k].Rectangle() == (done + cells)[k].rect {
      if k < p {
        assert order[k] == order[..p][k];
      } else {
        assert order[k] == order[p..q][k - p];
      }
    }
  }

  lemma RowIsMarked(order: seq<Node>, p: nat, q: nat, done: seq<Cell>, cells: seq<Cell>, stale: map<Node, bool>)
    requires p < q <= |order| && CarryMarks(order[..p], done, stale) && CarryMarks(order[p..q], cells, stale)
    ensures CarryMarks(order[..q], done + cells, stale)
  {
    forall k | 0 <= k < q ensures order[..q][k].z == MarkLeft((done + cells)[k].z, Older(stale, order[k])) {
      if k < p {
        assert order[k] == order[..p][k];
      } else {
        assert order[k] == order[p..q][k - p];
      }
    }
  }

  // The loop of squarify: nodes up to p are in place, those from p to q are in the current row.
  ghost predicate RowOpen(c: Config, order: seq<Node>, a: seq<real>, full: seq<Cell>, stale: map<Node, bool>, done: seq<Cell>,
                          p: nat, q: nat, row: seq<Node>, rowArea: real, rect: Rect, u: real, best: Score)
    reads order
  {
    && p <= q <= |order| && row == order[p..q] && (best.Infinity? || p < q)
    && HaveAreas(order, a) && rowArea == Sum(a[p..q])
    && LieIn(order[..p], done) && full == done + SquarifyFrom(c, a, p, q, rect, u, best)
    && CarryMarks(order[..p], done, stale) && HoldMarks(order[p..], stale)
  }

  method SquarifyRows(c: Config, children: seq<Node>, rect0: Rect, ghost a: seq<real>, ghost stale: map<Node, bool>)
    requires Distinct(children) && HaveAreas(Reversed(children), a) && HoldMarks(Reversed(children), stale)
    modifies children
    ensures LieIn(Reversed(children), SquarifyCells(c, a, rect0))
    ensures CarryMarks(Reversed(children), SquarifyCells(c, a, rect0), stale)
  {
    hide RowCells, RowRest, RowScore, Sum, SquarifyFrom, HaveAreas, LieIn, CarryMarks, HoldMarks, Min, Distinct, RowOpen;
    ghost var order, full := Reversed(children), SquarifyCells(c, a, rect0);
    var remaining, row, rowArea: real, rect := children, [], 0.0, rect0;
    var u, best := Min(rect.dx, rect.dy), Infinity;
    ghost var p, q, done := 0, 0, [];
    StartRows(c, children, a, rect0, stale);
    while |remaining| > 0
      invariant q <= |children| && remaining == children[..|children| - q]
      invariant |remaining| == 0 ==> p < q || |children| == 0
      invariant RowOpen(c, order, a, full, stale, done, p, q, row, rowArea, rect, u, best)
      decreases |children| - p, |children| - q
    {
      var child := remaining[|remaining| - 1];
      assert child == order[q];
      AddToRow(c, order, a, full, stale, done, p, q, row, rowArea, rect, u, best);
      row := row + [child];
      rowArea := rowArea + child.area;
      var score := Worst(c, row, rowArea, u, a[p..q + 1]);
      if AtMost(score, best) {
        remaining := remaining[..|remaining| - 1];
        best := score;
        q := q + 1;
      } else {
        rowArea := rowArea - row[|row| - 1].area;
        row := row[..|row| - 1];
        ghost var cells := RowCells(c, a[p..q], u, rect, false);
        rect := PlaceRow(c, row, rowArea, u, rect, false, order, p, q, a, done, stale);
        u := Min(rect.dx, rect.dy);
        NextRow(c, order, a, full, stale, done, cells, q, rect, u);
        row, rowArea, best := [], 0.0, Infinity;
        done := done + cells;
        p := q;
      }
    }
    if |row| > 0 {
      EndRows(c, order, a, full, stale, done, p, row, rowArea, rect, u, best);
      rect := PlaceRow(c, row, rowArea, u, rect, true, order, p, |order|, a, done, stale);
      assert order[..|order|] == order;
    } else {
      RowIsOpen(c, order, a, full, stale, done, p, q, row, rowArea, rect, u, best);
      NoRows(c, order, a, rect0, stale);
    }
  }

  lemma RowIsOpen(c: Config, order: seq<Node>, a: seq<real>, full: seq<Cell>, stale: map<Node, bool>, done: seq<Cell>,
                  p: nat, q: nat, row: seq<Node>, rowArea: real, rect: Rect, u: real, best: Score)
    requires RowOpen(c, order, a, full, stale, done, p, q, row, rowArea, rect, u, best)
    ensures p <= q <= |order| && |row| == q - p && HaveAreas(order, a)
  {
  }

  lemma AddToRow(c: Config, order: seq<Node>, a: seq<real>, full: seq<Cell>, stale: map<Node, bool>, done: seq<Cell>,
                 p: nat, q: nat, row: seq<Node>, rowArea: real, rect: Rect, u: real, best: Score)
    requires RowOpen(c, order, a, full, stale, done, p, q, row, rowArea, rect, u, best) && q < |order|
    ensures |a| == |order| && p <= q && |row| == q - p && HaveAreas(order, a)
    ensures HaveAreas(row + [order[q]], a[p..q + 1]) && rowArea + order[q].area == Sum(a[p..q + 1])
    ensures row == order[p..q] && rowArea == Sum(a[p..q]) && LieIn(order[..p], done)
    ensures CarryMarks(order[..p], done, stale) && HoldMarks(order[p..], stale)
    ensures var score := RowScore(c, a[p..q + 1], u);
      if AtMost(score, best) then
        RowOpen(c, order, a, full, stale, done, p, q + 1, row + [order[q]], rowArea + order[q].area, rect, u, score)
      else
        p < q && full == done + (RowCells(c, a[p..q], u, rect, false) + MoreRows(c, a, q, RowRest(c, a[p..q], u, rect, false)))
  {
    hide RowScore, RowCells, RowRest, SquarifyFrom, Sum, LieIn, CarryMarks, HoldMarks;
    SumSnoc(a, p, q);
    assert row + [order[q]] == order[p..q + 1];
    SquarifyStep(c, a, p, q, rect, u, best);
  }

  ghost function MoreRows(c: Config, a: seq<real>, q: nat, rest: Rect): seq<Cell>
    requires q <= |a|
  {
    SquarifyFrom(c, a, q, q, rest, Min(rest.dx, rest.dy), Infinity)
  }

  lemma NextRow(c: Config, order: seq<Node>, a: seq<real>, full: seq<Cell>, stale: map<Node, bool>, done: seq<Cell>, cells: seq<Cell>,
                q: nat, rect: Rect, u: real)
    requires q <= |order| && HaveAreas(order, a) && u == Min(rect.dx, rect.dy)
    requires LieIn(order[..q], done + cells) && full == done + (cells + MoreRows(c, a, q, rect))
    requires CarryMarks(order[..q], done + cells, stale) && HoldMarks(order[q..], stale)
    ensures RowOpen(c, order, a, full, stale, done + cells, q, q, [], 0.0, rect, u, Infinity)
  {
    hide SquarifyFrom, LieIn, CarryMarks, HoldMarks;
    assert a[q..q] == [] && order[q..q] == [];
    SumOfNothing();
  }

  lemma EndRows(c: Config, order: seq<Node>, a: seq<real>, full: seq<Cell>, stale: map<Node, bool>, done: seq<Cell>,
                p: nat, row: seq<Node>, rowArea: real, rect: Rect, u: real, best: Score)
    requires RowOpen(c, order, a, full, stale, done, p, |order|, row, rowArea, rect, u, best) && |row| > 0
    ensures p < |order| == |a| && row == order[p..] && HaveAreas(order, a) && rowArea == Sum(a[p..|order|])
    ensures LieIn(order[..p], done) && full == done + RowCells(c, a[p..|order|], u, rect, true)
    ensures CarryMarks(order[..p], done, stale) && HoldMarks(order[p..], stale)
  {
    hide RowCells, Sum, LieIn, CarryMarks, HoldMarks;
    SquarifyEnd(c, a, p, rect, u, best);
  }

  lemma StartRows(c: Config, children: seq<Node>, a: seq<real>, rect: Rect, stale: map<Node, bool>)
    requires Distinct(children) && HaveAreas(Reversed(children), a) && HoldMarks(Reversed(children), stale)
    ensures var order, u := Reversed(children), Min(rect.dx, rect.dy);
      && Distinct(order)
      && RowOpen(c, order, a, SquarifyCells(c, a, rect), stale, [], 0, 0, [], 0.0, rect, u, Infinity)
  {
    hide SquarifyFrom;
    assert Reversed(children)[0..] == Reversed(children);
  }

  lemma NoRows(c: Config, order: seq<Node>, a: seq<real>, r: Rect, stale: map<Node, bool>)
    requires order == [] && HaveAreas(order, a)
    ensures LieIn(order, SquarifyCells(c, a, r)) && CarryMarks(order, SquarifyCells(c, a, r), stale)
  {
  }

  lemma SumOfNothing()
    ensures Sum([]) == 0.0
  {
  }

  lemma SquarifyStep(c: Config, a: seq<real>, p: nat, q: nat, r: Rect, u: real, best: Score)
    requires p <= q < |a| && (best.Infinity? || p < q)
    ensures var score, rest := RowScore(c, a[p..q + 1], u), RowRest(c, a[p..q], u, r, false);
      && (AtMost(score, best) ==> SquarifyFrom(c, a, p, q, r, u, best) == SquarifyFrom(c, a, p, q + 1, r, u, score))
      && (!AtMost(score, best) ==> p < q && SquarifyFrom(c, a, p, q, r, u, best) == RowCells(c, a[p..q], u, r, false)
                                   + SquarifyFrom(c, a, q, q, rest, Min(rest.dx, rest.dy), Infinity))
  {
    hide RowScore, RowCells, RowRest;
  }

  lemma SquarifyEnd(c: Config, a: seq<real>, p: nat, r: Rect, u: real, best: Score)
    requires p < |a|
    ensures SquarifyFrom(c, a, p, |a|, r, u, best) == RowCells(c, a[p..|a|], u, r, true)
  {
    hide RowCells;
  }

  ghost function OlderMarks(stale: map<Node, bool>, nodes: seq<Node>): (z: seq<Option<bool>>)
    ensures |z| == |nodes| && forall k :: 0 <= k < |nodes| ==> z[k] == Older(stale, nodes[k])
  {
    seq(|nodes|, k requires 0 <= k < |nodes| => Older(stale, nodes[k]))
  }

  ghost predicate HaveMarks(nodes: seq<Node>, zs: seq<Option<bool>>)
    reads nodes
  {
    |nodes| == |zs| && forall k :: 0 <= k < |nodes| ==> nodes[k].z == zs[k]
  }

  // The loop of stickify: nodes up to p are in place, those from p to q wait for the end of their row.
  ghost predicate StickyOpen(c: Config, order: seq<Node>, a: seq<real>, zs: seq<Option<bool>>, full: seq<Cell>,
                             done: seq<Cell>, p: nat, q: nat, row: seq<Node>, rowArea: real, rect: Rect)
    reads order
  {
    && p <= q <= |order| && row == order[p..q] && |zs| == |order|
    && HaveAreas(order, a) && rowArea == Sum(a[p..q])
    && (forall k :: p <= k < |order| ==> order[k].z == zs[k]) && (forall k :: p <= k < q ==> zs[k].None?)
    && LieIn(order[..p], done) && CarryMarks(order[..p], done, map[])
    && full == done + StickifyFrom(c, a, zs, p, q, rect)
  }

  method StickifyRows(c: Config, children: seq<Node>, rect0: Rect, ghost order: seq<Node>, ghost a: seq<real>,
                      ghost zs: seq<Option<bool>>, ghost full: seq<Cell>)
    requires order == Reversed(children) && Distinct(children) && HaveAreas(order, a) && HaveMarks(order, zs)
    requires |a| == |zs| == |children| && full == StickifyFrom(c, a, zs, 0, 0, rect0)
    modifies children
    ensures |full| <= |order| && LieIn(order[..|full|], full) && CarryMarks(order[..|full|], full, map[])
  {
    hide RowCells, RowRest, Sum, StickifyFrom, HaveAreas, LieIn, CarryMarks, Distinct, StickyOpen, Reversed, HaveMarks;
    var remaining, row, rowArea: real, rect := children, [], 0.0, rect0;
    ghost var p: nat, q: nat, done := 0, 0, [];
    StartSticky(c, children, a, zs, rect0);
    while |remaining| > 0
      invariant p <= q <= |children| && remaining == children[..|children| - q] && row == order[p..q]
      invariant StickyOpen(c, order, a, zs, full, done, p, q, row, rowArea, rect)
      decreases |remaining|
    {
      var child := remaining[|remaining| - 1];
      remaining := remaining[..|remaining| - 1];
      assert child == order[q];
      row, rowArea, rect, p, done :=
        AddStickyNode(c, row, rowArea, rect, child, |remaining| == 0, order, p, q, a, zs, full, done);
      q := q + 1;
    }
    EndSticky(c, order, a, zs, full, done, p, row, rowArea, rect);
  }

  // One turn of the loop: node q joins the row, and ends it if it is marked.
  method AddStickyNode(c: Config, row: seq<Node>, rowArea: real, rect: Rect, child: Node, flush: bool, ghost order: seq<Node>,
                       ghost p: nat, ghost q: nat, ghost a: seq<real>, ghost zs: seq<Option<bool>>, ghost full: seq<Cell>,
                       ghost done: seq<Cell>)
      returns (row': seq<Node>, rowArea': real, rect': Rect, ghost p': nat, ghost done': seq<Cell>)
    requires p <= q < |order| && row == order[p..q] && child == order[q] && flush == (q + 1 == |order|) && Distinct(order)
    requires StickyOpen(c, order, a, zs, full, done, p, q, row, rowArea, rect)
    modifies order
    ensures p' <= q + 1 && row' == order[p'..q + 1]
    ensures StickyOpen(c, order, a, zs, full, done', p', q + 1, row', rowArea', rect')
  {
    hide RowCells, RowRest, Sum, StickifyFrom, HaveAreas, LieIn, CarryMarks, Distinct, StickyOpen;
    AddToSticky(c, order, a, zs, full, done, p, q, row, rowArea, rect);
    row' := row + [child];
    assert row' == order[p..q + 1] && row'[..|row'| - 1] == row;
    if child.z.Some? {
      var z := child.z.value;
      done' := done + RowCells(c, a[p..q + 1], if z then rect.dx else rect.dy, rect, flush);
      rect' := PlaceStickyRow(c, row', rowArea, rect, z, flush, order, p, q, a, zs, full, done);
      row', rowArea', p' := [], 0.0, q + 1;
    } else {
      rowArea', rect', p', done' := rowArea + child.area, rect, p, done;
    }
  }

  // Node q ends the row that starts at node p.
  method PlaceStickyRow(c: Config, row: seq<Node>, before: real, rect: Rect, z: bool, flush: bool, ghost order: seq<Node>,
                        ghost p: nat, ghost q: nat, ghost a: seq<real>, ghost zs: seq<Option<bool>>, ghost full: seq<Cell>,
                        ghost done: seq<Cell>) returns (rest: Rect)
    requires q < |order| && Distinct(order) && row != [] && row[|row| - 1] == order[q] && flush == (q + 1 == |order|)
    requires StickyOpen(c, order, a, zs, full, done, p, q, row[..|row| - 1], before, rect) && order[q].z == Some(z)
    modifies row
    ensures p <= q + 1 <= |a| && var cells := RowCells(c, a[p..q + 1], if z then rect.dx else rect.dy, rect, flush);
      StickyOpen(c, order, a, zs, full, done + cells, q + 1, q + 1, [], 0.0, rest)
  {
    hide RowCells, RowRest, Sum, StickifyFrom, HaveAreas, LieIn, StickyOpen, CarryMarks, Reversed, Distinct;
    AddToSticky(c, order, a, zs, full, done, p, q, row[..|row| - 1], before, rect);
    EndOfRow(c, order, a, zs, full, done, p, q, row[..|row| - 1], before, rect);
    assert row[..|row| - 1] + [order[q]] == row;
    var rowArea := before + row[|row| - 1].area;
    var u := if z then rect.dx else rect.dy;
    ghost var cells := RowCells(c, a[p..q + 1], u, rect, flush);
    assert forall k :: 0 <= k < |row| ==> row[k] == order[p + k];
    rest := PlaceRow(c, row, rowArea, u, rect, flush, order, p, q + 1, a, done, map[]);
    NextSticky(c, order, a, zs, full, done, cells, p, q + 1, rest, u, rect, flush);
  }

  lemma StartSticky(c: Config, children: seq<Node>, a: seq<real>, zs: seq<Option<bool>>, rect: Rect)
    requires Distinct(children) && HaveAreas(Reversed(children), a) && HaveMarks(Reversed(children), zs) && |a| == |zs|
    ensures Distinct(Reversed(children))
    ensures StickyOpen(c, Reversed(children), a, zs, StickifyFrom(c, a, zs, 0, 0, rect), [], 0, 0, [], 0.0, rect)
  {
    hide StickifyFrom;
    SumOfNothing();
    assert a[0..0] == [];
  }

  lemma AddToSticky(c: Config, order: seq<Node>, a: seq<real>, zs: seq<Option<bool>>, full: seq<Cell>,
                    done: seq<Cell>, p: nat, q: nat, row: seq<Node>, rowArea: real, rect: Rect)
    requires StickyOpen(c, order, a, zs, full, done, p, q, row, rowArea, rect) && q < |order|
    ensures order[q].z == zs[q] && |a| == |order| == |zs| && p <= q && row == order[p..q]
    ensures zs[q].None? ==>
      StickyOpen(c, order, a, zs, full, done, p, q + 1, row + [order[q]], rowArea + order[q].area, rect)
  {
    hide RowCells, RowRest, Sum, LieIn, CarryMarks;
    SumSnoc(a, p, q);
    assert row + [order[q]] == order[p..q + 1];
  }

  lemma EndOfRow(c: Config, order: seq<Node>, a: seq<real>, zs: seq<Option<bool>>, full: seq<Cell>,
                 done: seq<Cell>, p: nat, q: nat, row: seq<Node>, rowArea: real, rect: Rect)
    requires StickyOpen(c, order, a, zs, full, done, p, q, row, rowArea, rect) && q < |order| && zs[q].Some?
    ensures |a| == |order| == |zs| && HaveAreas(order, a) && LieIn(order[..p], done) && CarryMarks(order[..p], done, map[])
    ensures row + [order[q]] == order[p..q + 1] && rowArea + order[q].area == Sum(a[p..q + 1])
    ensures (forall k :: p <= k < |order| ==> order[k].z == zs[k]) && (forall k :: p <= k < q ==> zs[k].None?)
    ensures var u, flush := if zs[q].value then rect.dx else rect.dy, q + 1 == |a|;
      full == done + (RowCells(c, a[p..q + 1], u, rect, flush)
                      + StickifyFrom(c, a, zs, q + 1, q + 1, RowRest(c, a[p..q + 1], u, rect, flush)))
  {
    hide RowCells, RowRest, Sum, LieIn, CarryMarks;
    SumSnoc(a, p, q);
    assert row + [order[q]] == order[p..q + 1];
  }

  lemma NextSticky(c: Config, order: seq<Node>, a: seq<real>, zs: seq<Option<bool>>, full: seq<Cell>, done: seq<Cell>,
                   cells: seq<Cell>, p: nat, q: nat, rect: Rect, u: real, before: Rect, flush: bool)
    requires p < q <= |order| == |a| == |zs| && HaveAreas(order, a) && cells == RowCells(c, a[p..q], u, before, flush)
    requires LieIn(order[..q], done + cells) && CarryMarks(order[..p], done, map[])
    requires (forall k :: q <= k < |order| ==> order[k].z == zs[k]) && (forall k :: p <= k < q - 1 ==> order[k].z.None?)
    requires order[q - 1].z == Some(u == before.dx)
    requires full == done + (cells + StickifyFrom(c, a, zs, q, q, rect))
    ensures StickyOpen(c, order, a, zs, full, done + cells, q, q, [], 0.0, rect)
  {
    hide RowCells, StickifyFrom, LieIn;
    assert a[q..q] == [] && order[q..q] == [];
    SumOfNothing();
    forall k | 0 <= k < q - p ensures |cells| == q - p && order[p..q][k].z == MarkLeft(cells[k].z, None) {
      RowMarks(c, a[p..q], u, before, flush, k);
      assert order[p..q][k] == order[p + k];
    }
    RowIsMarked(order, p, q, done, cells, map[]);
  }

  lemma EndSticky(c: Config, order: seq<Node>, a: seq<real>, zs: seq<Option<bool>>, full: seq<Cell>, done: seq<Cell>,
                  p: nat, row: seq<Node>, rowArea: real, rect: Rect)
    requires StickyOpen(c, order, a, zs, full, done, p, |order|, row, rowArea, rect)
    ensures |full| == p <= |order| && LieIn(order[..p], full) && CarryMarks(order[..p], full, map[])
  {
    assert full == done;
  }

  // ---------------------------------------------------------------- the whole tree

  // The configured layout, and the values of the nodes.
  datatype Setup = Setup(rows: Config, value: Node -> real)

  function ValueOf(c: Setup, n: Node): real {
    c.value(n)
  }

  ghost function ValueSum(c: Setup, nodes: seq<Node>): real {
    if nodes == [] then 0.0 else ValueOf(c, nodes[0]) + ValueSum(c, nodes[1..])
  }

  // What hierarchy computes: no value is negative, and a parent has the sum of its children.
  ghost predicate Valued(c: Setup, node: Node)
    requires node.IsTree()
    decreases node.height
  {
    && ValueOf(c, node) >= 0.0 && (node.children != [] ==> ValueOf(c, node) == ValueSum(c, node.children))
    && forall i :: 0 <= i < |node.children| ==> Valued(c, node.children[i])
  }

  // A child's area, its share of the room. A node of value 0 has only children of value 0.
  function ScaledArea(value: real, room: real, total: real): (area: real)
    ensures area >= 0.0
  {
    if total == 0.0 then 0.0
    else
      var k := room / total;
      Max(0.0, value * if k < 0.0 then 0.0 else k)
  }

  ghost function ScaledAreas(c: Setup, nodes: seq<Node>, room: real, total: real): (a: seq<real>)
    ensures |a| == |nodes| && NonNegative(a)
    ensures forall k :: 0 <= k < |nodes| ==> a[k] == ScaledArea(ValueOf(c, nodes[k]), room, total)
  {
    seq(|nodes|, k requires 0 <= k < |nodes| => ScaledArea(ValueOf(c, nodes[k]), room, total))
  }

  method Scale(c: Setup, nodes: seq<Node>, room: real, total: real)
    requires Distinct(nodes)
    modifies nodes
    ensures HaveAreas(Reversed(nodes), ScaledAreas(c, Reversed(nodes), room, total))
    ensures forall n :: n in nodes ==> n.Rectangle() == old(n.Rectangle()) && n.z == old(n.z)
  {
    hide ScaledArea;
    for i := 0 to |nodes|
      invariant forall k :: 0 <= k < i ==> nodes[k].area == ScaledArea(ValueOf(c, nodes[k]), room, total)
      invariant forall n :: n in nodes ==> n.Rectangle() == old(n.Rectangle()) && n.z == old(n.z)
    {
      nodes[i].area := ScaledArea(ValueOf(c, nodes[i]), room, total);
    }
  }

  // The cells of node's children, last child first, when node itself has the rectangle r.
  ghost function ChildCells(c: Setup, node: Node, r: Rect): (cells: seq<Cell>)
    ensures |cells| == |node.children|
  {
    var pad := Pad(node.padding, r);
    var a := ScaledAreas(c, Reversed(node.children), Area(pad), ValueOf(c, node));
    SquarifyLength(c.rows, a, 0, 0, pad, Min(pad.dx, pad.dy), Infinity);
    SquarifyCells(c.rows, a, pad)
  }

  // The same when the rows end where marked says.
  ghost function StickyCells(c: Setup, node: Node, r: Rect, marked: map<Node, bool>): seq<Cell> {
    var order, pad := Reversed(node.children), Pad(node.padding, r);
    StickifyFrom(c.rows, ScaledAreas(c, order, Area(pad), ValueOf(c, node)), OlderMarks(marked, order), 0, 0, pad)
  }

  // Everything below node lies where squarify puts it. Row ends carry their marks and other nodes
  // what stale says: nothing when it is empty.
  ghost predicate LaidOut(c: Setup, node: Node, r: Rect, stale: map<Node, bool>)
    requires node.IsTree()
    reads node.below
    decreases node.height
  {
    && LieIn(Reversed(node.children), ChildCells(c, node, r))
    && CarryMarks(Reversed(node.children), ChildCells(c, node, r), stale)
    && forall i :: 0 <= i < |node.children| ==> LaidOut(c, node.children[i], node.children[i].Rectangle(), stale)
  }

  // Everything below node lies, and is marked, as stickify does it from these marks.
  ghost predicate Relaid(c: Setup, node: Node, r: Rect, marked: map<Node, bool>)
    requires node.IsTree()
    reads node.below
    decreases node.height
  {
    && LieIn(Reversed(node.children), StickyCells(c, node, r, marked))
    && CarryMarks(Reversed(node.children), StickyCells(c, node, r, marked), map[])
    && forall i :: 0 <= i < |node.children| ==> Relaid(c, node.children[i], node.children[i].Rectangle(), marked)
  }

  // In the layout that squarify makes of node in r, every marked node ends its row. This can be
  // told before any layout: it depends on the values, the paddings and the marks alone.
  ghost predicate OnRowEnds(c: Setup, node: Node, r: Rect, marked: set<Node>)
    requires node.IsTree()
    decreases node.height
  {
    var order, cells := Reversed(node.children), ChildCells(c, node, r);
    forall k :: 0 <= k < |order| ==>
      && (order[k] in marked ==> cells[k].z.Some?)
      && order[k].IsTree() && order[k].height < node.height && OnRowEnds(c, order[k], cells[k].rect, marked)
  }

  // The last row of every node's children has an end.
  ghost predicate RowsEnd(node: Node, marked: set<Node>)
    requires node.IsTree()
    decreases node.height
  {
    && (node.children != [] ==> node.children[0] in marked)
    && forall i :: 0 <= i < |node.children| ==> RowsEnd(node.children[i], marked)
  }

  ghost function MarksBelow(nodes: set<Node>): map<Node, bool>
    reads nodes
  {
    map d | d in nodes && d.z.Some? :: d.z.value
  }

  ghost predicate Remembers(stale: map<Node, bool>, nodes: set<Node>)
    reads nodes
  {
    forall d :: d in nodes ==> d.z == Older(stale, d)
  }

  lemma ChildrenAreDistinct(node: Node)
    requires node.IsTree()
    ensures Distinct(node.children) && Distinct(Reversed(node.children))
    ensures forall i :: 0 <= i < |node.children| ==> node.children[i] in node.below
    ensures forall i, j :: 0 <= i < |node.children| && 0 <= j < |node.children| ==> node.children[i] !in node.children[j].below
    ensures forall i, j :: 0 <= i < |node.children| && 0 <= j < |node.children| && i != j ==> node.children[i].below !! node.children[j].below
  {
    forall i, j | 0 <= i < |node.children| && 0 <= j < |node.children|
      ensures node.children[i] !in node.children[j].below && (i < j ==> node.children[i] != node.children[j])
      ensures i != j ==> node.children[i].below !! node.children[j].below
    {
      assert node.children[j].IsTree();
      if i < j {
        assert node.children[i].Family() !! node.children[j].Family();
      } else if j < i {
        assert node.children[j].Family() !! node.children[i].Family();
      }
    }
  }

  lemma ChildrenAreTrees(node: Node)
    requires node.IsTree()
    ensures forall i :: 0 <= i < |node.children| ==> node.children[i].IsTree() && node.children[i].height < node.height
    ensures forall i :: 0 <= i < |node.children| ==> node.children[i].Family() <= node.below
    ensures forall k :: 0 <= k < |node.children| ==>
      Reversed(node.children)[k].IsTree() && Reversed(node.children)[k].height < node.height
  {
  }

  lemma NotBelowItself(node: Node)
    requires node.IsTree()
    ensures node !in node.below
  {
  }

  lemma {:induction false} InFamily(nodes: seq<Node>, d: Node) returns (i: nat)
    requires d in FamilyUnion(nodes)
    ensures i < |nodes| && d in nodes[i].Family()
    decreases |nodes|
  {
    if d in nodes[0].Family() {
      i := 0;
    } else {
      i := InFamily(nodes[1..], d);
      i := i + 1;
    }
  }

  lemma NothingBelow(c: Setup, node: Node, r: Rect, stale: map<Node, bool>)
    requires node.IsTree() && node.children == []
    ensures LaidOut(c, node, r, stale)
  {
  }

  method SquarifyChildren(c: Setup, node: Node, ghost stale: map<Node, bool>)
    requires node.IsTree() && HoldMarks(Reversed(node.children), stale)
    modifies node.children
    ensures LieIn(Reversed(node.children), ChildCells(c, node, node.Rectangle()))
    ensures CarryMarks(Reversed(node.children), ChildCells(c, node, node.Rectangle()), stale)
  {
    hide SquarifyCells, ScaledArea, Area, Pad;
    ChildrenAreDistinct(node);
    var rect := Pad(node.padding, node.Rectangle());
    Scale(c, node.children, Area(rect), ValueOf(c, node));
    SquarifyRows(c.rows, node.children, rect, ScaledAreas(c, Reversed(node.children), Area(rect), ValueOf(c, node)), stale);
  }

  // Lays out everything below node; the marks of earlier layouts stay where no row ends.
  method Squarify(c: Setup, node: Node, ghost stale: map<Node, bool>)
    requires node.IsTree() && Remembers(stale, node.below)
    modifies node.below
    ensures LaidOut(c, node, node.Rectangle(), stale)
    decreases node.height
  {
    hide ChildCells, LieIn, CarryMarks;
    ChildrenAreDistinct(node);
    var children := node.children;
    if |children| > 0 {
      SquarifyChildren(c, node, stale);
      for i := 0 to |children|
        invariant unchanged(node)
        invariant LieIn(Reversed(children), ChildCells(c, node, node.Rectangle()))
        invariant CarryMarks(Reversed(children), ChildCells(c, node, node.Rectangle()), stale)
        invariant forall k :: 0 <= k < i ==> LaidOut(c, children[k], children[k].Rectangle(), stale)
        invariant forall k :: i <= k < |children| ==> Remembers(stale, children[k].below)
      {
        Squarify(c, children[i], stale);
      }
    } else {
      NothingBelow(c, node, node.Rectangle(), stale);
    }
  }

  lemma StickyEndsAtMarks(c: Setup, node: Node, r: Rect, marked: map<Node, bool>)
    requires node.children != [] ==> node.children[0] in marked
    ensures var order, full := Reversed(node.children), StickyCells(c, node, r, marked);
      |full| == |order| && forall k :: 0 <= k < |order| ==> (full[k].z.Some? <==> order[k] in marked)
  {
    hide StickifyFrom;
    var order, pad := Reversed(node.children), Pad(node.padding, r);
    StickifyEndsRows(c.rows, ScaledAreas(c, order, Area(pad), ValueOf(c, node)), OlderMarks(marked, order), 0, 0, pad);
  }

  method StickifyChildren(c: Setup, node: Node, ghost marked: map<Node, bool>)
    requires node.IsTree() && HoldMarks(Reversed(node.children), marked)
    requires node.children != [] ==> node.children[0] in marked
    modifies node.children
    ensures LieIn(Reversed(node.children), StickyCells(c, node, node.Rectangle(), marked))
    ensures CarryMarks(Reversed(node.children), StickyCells(c, node, node.Rectangle(), marked), map[])
  {
    hide ScaledArea, Area, Pad, StickifyFrom, LieIn, CarryMarks;
    ChildrenAreDistinct(node);
    var rect := Pad(node.padding, node.Rectangle());
    ghost var order := Reversed(node.children);
    ghost var a, zs := ScaledAreas(c, order, Area(rect), ValueOf(c, node)), OlderMarks(marked, order);
    StickyEndsAtMarks(c, node, node.Rectangle(), marked);
    Scale(c, node.children, Area(rect), ValueOf(c, node));
    StickifyRows(c.rows, node.children, rect, order, a, zs, StickifyFrom(c.rows, a, zs, 0, 0, rect));
    assert order[..|order|] == order;
  }

  // Lays out everything below node again from the marks.
  method Stickify(c: Setup, node: Node, ghost marked: map<Node, bool>)
    requires node.IsTree() && Remembers(marked, node.below) && RowsEnd(node, marked.Keys)
    modifies node.below
    ensures Relaid(c, node, node.Rectangle(), marked)
    decreases node.height
  {
    hide StickyCells, LieIn, CarryMarks;
    ChildrenAreDistinct(node);
    var children := node.children;
    StickifyChildren(c, node, marked);
    for i := 0 to |children|
      invariant unchanged(node)
      invariant LieIn(Reversed(children), StickyCells(c, node, node.Rectangle(), marked))
      invariant CarryMarks(Reversed(children), StickyCells(c, node, node.Rectangle(), marked), map[])
      invariant forall k :: 0 <= k < i ==> Relaid(c, children[k], children[k].Rectangle(), marked)
      invariant forall k :: i <= k < |children| ==> Remembers(marked, children[k].below)
    {
      Stickify(c, children[i], marked);
    }
  }
}
