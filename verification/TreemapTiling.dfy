// How the nodes of a laid-out tree tile its rectangle.
module TreemapTiling {
  import opened TreemapLayout
  import opened TreemapRows
  import opened Wrappers

  // Whatever squarify laid out: the children of a node divide its padded rectangle among
  // themselves without gap or overlap.
  lemma ChildrenTile(c: Setup, node: Node, r: Rect, stale: map<Node, bool>, px: real, py: real)
    requires node.IsTree() && node.children != [] && LaidOut(c, node, r, stale)
    requires RoundsNonNegative(c.rows) && Proper(r)
    ensures var pad, kids := Pad(node.padding, r), Reversed(node.children);
      && (forall i :: 0 <= i < |kids| ==> Within(kids[i].Rectangle(), pad))
      && (forall i, j :: 0 <= i < j < |kids| ==>
            !(Covers(kids[i].Rectangle(), px, py) && Covers(kids[j].Rectangle(), px, py)))
      && (Covers(pad, px, py) <==> exists i :: 0 <= i < |kids| && Covers(kids[i].Rectangle(), px, py))
  {
    hide Pad, SquarifyCells, RoundsNonNegative, Covers, Within, CarryMarks, ScaledArea;
    var kids, pad := Reversed(node.children), Pad(node.padding, r);
    PadIsProper(node.padding, r);
    SquarifyPartitions(c.rows, ScaledAreas(c, kids, Area(pad), ValueOf(c, node)), pad, px, py);
  }

  lemma PadIsProper(padding: Option<Padding>, r: Rect)
    requires Proper(r)
    ensures Proper(Pad(padding, r))
  {
  }

  // Every edge moves in by its own padding. Where the paddings of two edges leave nothing, both are put
  // in the middle between the places they would have.
  lemma PadMovesEdges(p: Padding, r: Rect)
    ensures var q := Pad(Some(p), r);
      && (p.left + p.right <= r.dx ==> q.x == r.x + p.left && q.x + q.dx == r.x + r.dx - p.right)
      && (p.left + p.right > r.dx ==> q.dx == 0.0 && q.x - (r.x + p.left) == (r.x + r.dx - p.right) - q.x)
      && (p.top + p.bottom <= r.dy ==> q.y == r.y + p.top && q.y + q.dy == r.y + r.dy - p.bottom)
      && (p.top + p.bottom > r.dy ==> q.dy == 0.0 && q.y - (r.y + p.top) == (r.y + r.dy - p.bottom) - q.y)
  {
  }

  // What m gives to the rectangles of node's children, from the k-th of them on, last child first.
  ghost function ChildTotal(m: Rect -> real, node: Node, k: nat): real
    requires k <= |node.children|
    reads node.children
    decreases |node.children| - k
  {
    if k == |node.children| then 0.0
    else m(Reversed(node.children)[k].Rectangle()) + ChildTotal(m, node, k + 1)
  }

  // At every node below, the children lie in the padded rectangle of their parent and divide it.
  ghost predicate TilesBelow(m: Rect -> real, node: Node, r: Rect)
    requires node.IsTree()
    reads node.below
    decreases node.height
  {
    var pad := Pad(node.padding, r);
    && (node.children != [] ==> ChildTotal(m, node, 0) == m(pad))
    && forall i :: 0 <= i < |node.children| ==>
      Within(node.children[i].Rectangle(), pad) && TilesBelow(m, node.children[i], node.children[i].Rectangle())
  }

  lemma {:induction false} ChildTotalIs(m: Rect -> real, node: Node, cells: seq<Cell>, k: nat)
    requires LieIn(Reversed(node.children), cells) && k <= |cells|
    ensures ChildTotal(m, node, k) == Total(m, cells[k..])
    decreases |cells| - k
  {
    if k < |cells| {
      ChildTotalIs(m, node, cells, k + 1);
      assert cells[k..][0] == cells[k] && cells[k..][1..] == cells[k + 1..];
    }
  }

  lemma ChildrenDivide(m: Rect -> real, node: Node, cells: seq<Cell>, pad: Rect)
    requires LieIn(Reversed(node.children), cells) && AllWithin(cells, pad) && (cells != [] ==> Total(m, cells) == m(pad))
    ensures node.children != [] ==> ChildTotal(m, node, 0) == m(pad)
    ensures forall i :: 0 <= i < |node.children| ==>
      Within(node.children[i].Rectangle(), pad) && Proper(node.children[i].Rectangle())
  {
    ChildTotalIs(m, node, cells, 0);
    assert cells[0..] == cells;
    forall i | 0 <= i < |node.children|
      ensures Within(node.children[i].Rectangle(), pad) && Proper(node.children[i].Rectangle())
    {
      assert node.children[i] == Reversed(node.children)[|cells| - 1 - i];
    }
  }

  // The tree that squarify laid out.
  lemma {:induction false} SquarifiedTiles(c: Setup, m: Rect -> real, node: Node, r: Rect, stale: map<Node, bool>)
    requires node.IsTree() && LaidOut(c, node, r, stale) && RoundsNonNegative(c.rows) && Additive(m) && Proper(r)
    ensures TilesBelow(m, node, r)
    decreases node.height
  {
    hide Additive, RoundsNonNegative, SquarifyFrom, Pad, LieIn, CarryMarks, Within, Proper;
    var order, pad := Reversed(node.children), Pad(node.padding, r);
    var a := ScaledAreas(c, order, Area(pad), ValueOf(c, node));
    PadIsProper(node.padding, r);
    MinIsNonNegative(pad);
    SquarifyConserves(c.rows, m, a, 0, 0, pad, Min(pad.dx, pad.dy), Infinity);
    ChildrenDivide(m, node, SquarifyCells(c.rows, a, pad), pad);
    forall i | 0 <= i < |node.children| ensures TilesBelow(m, node.children[i], node.children[i].Rectangle()) {
      SquarifiedTiles(c, m, node.children[i], node.children[i].Rectangle(), stale);
    }
  }

  // The tree after a sticky layout, whatever marks it followed.
  lemma {:induction false} StickyTiles(c: Setup, m: Rect -> real, node: Node, r: Rect, marked: map<Node, bool>)
    requires node.IsTree() && Relaid(c, node, r, marked) && RowsEnd(node, marked.Keys)
    requires RoundsNonNegative(c.rows) && Additive(m) && Proper(r)
    ensures TilesBelow(m, node, r)
    decreases node.height
  {
    hide Additive, RoundsNonNegative, StickifyFrom, Pad, LieIn, CarryMarks, Within, Proper;
    var order, pad := Reversed(node.children), Pad(node.padding, r);
    var a := ScaledAreas(c, order, Area(pad), ValueOf(c, node));
    PadIsProper(node.padding, r);
    StickifyConserves(c.rows, m, a, OlderMarks(marked, order), 0, 0, pad);
    ChildrenDivide(m, node, StickyCells(c, node, r, marked), pad);
    forall i | 0 <= i < |node.children| ensures TilesBelow(m, node.children[i], node.children[i].Rectangle()) {
      StickyTiles(c, m, node.children[i], node.children[i].Rectangle(), marked);
    }
  }

  lemma MinIsNonNegative(r: Rect)
    requires Proper(r)
    ensures Min(r.dx, r.dy) >= 0.0
  {
  }

  ghost predicate Unpadded(node: Node)
    requires node.IsTree()
    decreases node.height
  {
    node.padding.None? && forall i :: 0 <= i < |node.children| ==> Unpadded(node.children[i])
  }

  // What m gives to the leaves of node, when node itself has the rectangle r.
  ghost function LeafTotal(m: Rect -> real, node: Node, r: Rect): real
    requires node.IsTree()
    reads node.below
    decreases node.height, |node.children| + 1
  {
    if node.children == [] then m(r) else LeafTotalFrom(m, node, 0)
  }

  ghost function LeafTotalFrom(m: Rect -> real, node: Node, k: nat): real
    requires node.IsTree() && k <= |node.children|
    reads node.below
    decreases node.height, |node.children| - k
  {
    if k == |node.children| then 0.0
    else
      var child := Reversed(node.children)[k];
      assert child == node.children[|node.children| - 1 - k];
      LeafTotal(m, child, child.Rectangle()) + LeafTotalFrom(m, node, k + 1)
  }

  // Without padding the leaves divide the whole rectangle.
  lemma {:induction false} LeavesConserve(m: Rect -> real, node: Node, r: Rect)
    requires node.IsTree() && TilesBelow(m, node, r) && Unpadded(node)
    ensures LeafTotal(m, node, r) == m(r)
    decreases node.height, |node.children| + 1
  {
    if node.children != [] {
      LeavesConserveFrom(m, node, r, 0);
    }
  }

  lemma {:induction false} LeavesConserveFrom(m: Rect -> real, node: Node, r: Rect, k: nat)
    requires node.IsTree() && TilesBelow(m, node, r) && Unpadded(node) && k <= |node.children|
    ensures LeafTotalFrom(m, node, k) == ChildTotal(m, node, k)
    decreases node.height, |node.children| - k
  {
    if k < |node.children| {
      var child := Reversed(node.children)[k];
      assert child == node.children[|node.children| - 1 - k];
      LeavesConserve(m, child, child.Rectangle());
      LeavesConserveFrom(m, node, r, k + 1);
    }
  }

  // Every point of the rectangle lies in exactly one leaf, no other point in any, and the areas of the
  // leaves add up to its area.
  ghost predicate LeavesCover(node: Node, r: Rect)
    requires node.IsTree()
    reads node.below
  {
    && LeafTotal(Area, node, r) == Area(r)
    && forall px, py :: LeafTotal(Cover(px, py), node, r) == if Covers(r, px, py) then 1.0 else 0.0
  }

  // Without padding they do, after squarify and after a sticky layout.
  lemma LeavesTile(c: Setup, node: Node, r: Rect, stale: map<Node, bool>)
    requires node.IsTree() && Unpadded(node) && RoundsNonNegative(c.rows) && Proper(r)
    requires LaidOut(c, node, r, stale) || (Relaid(c, node, r, stale) && RowsEnd(node, stale.Keys))
    ensures LeavesCover(node, r)
  {
    hide LaidOut, Relaid, RowsEnd, Unpadded, TilesBelow, LeafTotal, Covers;
    AreaIsAdditive();
    LeavesConserveEach(c, Area, node, r, stale);
    forall px, py ensures LeafTotal(Cover(px, py), node, r) == if Covers(r, px, py) then 1.0 else 0.0 {
      CoverIsAdditive(px, py);
      LeavesConserveEach(c, Cover(px, py), node, r, stale);
    }
  }

  lemma LeavesConserveEach(c: Setup, m: Rect -> real, node: Node, r: Rect, stale: map<Node, bool>)
    requires node.IsTree() && Unpadded(node) && RoundsNonNegative(c.rows) && Proper(r) && Additive(m)
    requires LaidOut(c, node, r, stale) || (Relaid(c, node, r, stale) && RowsEnd(node, stale.Keys))
    ensures LeafTotal(m, node, r) == m(r)
  {
    hide LaidOut, Relaid, RowsEnd, Unpadded, TilesBelow, LeafTotal, Additive, RoundsNonNegative;
    if LaidOut(c, node, r, stale) {
      SquarifiedTiles(c, m, node, r, stale);
    } else {
      StickyTiles(c, m, node, r, stale);
    }
    LeavesConserve(m, node, r);
  }
}
