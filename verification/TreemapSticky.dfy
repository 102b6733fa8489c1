// What a treemap keeps between calls: marks of earlier layouts, and sticky layouts from them.
module TreemapSticky {
  import opened TreemapExact
  import opened TreemapLayout
  import opened TreemapRows
  import opened TreemapTiling
  import opened Wrappers

  // ---------------------------------------------------------------- what the marks decide

  // A squarified layout carries its own marks and no others exactly when no stale mark is off a row end.
  lemma {:induction false} StaleMarksDecide(c: Setup, node: Node, r: Rect, stale: map<Node, bool>)
    requires node.IsTree() && LaidOut(c, node, r, stale)
    ensures LaidOut(c, node, r, map[]) <==> OnRowEnds(c, node, r, stale.Keys)
    decreases node.height
  {
    hide ChildCells, Node.IsTree, MarkLeft, Older;
    ChildrenAreTrees(node);
    var order, cells, n := Reversed(node.children), ChildCells(c, node, r), |node.children|;
    forall k | 0 <= k < n
      ensures order[k].z == MarkLeft(cells[k].z, Older(map[], order[k])) <==> (order[k] in stale ==> cells[k].z.Some?)
      ensures LaidOut(c, order[k], order[k].Rectangle(), map[]) <==> OnRowEnds(c, order[k], cells[k].rect, stale.Keys)
    {
      assert order[k] == node.children[n - 1 - k];
      MarkDecides(cells[k].z, stale, order[k]);
      StaleMarksDecide(c, order[k], order[k].Rectangle(), stale);
    }
    assert forall i :: 0 <= i < n ==> node.children[i] == order[n - 1 - i];
  }

  lemma MarkDecides(mark: Option<bool>, stale: map<Node, bool>, d: Node)
    ensures MarkLeft(mark, Older(stale, d)) == MarkLeft(mark, Older(map[], d)) <==> (d in stale ==> mark.Some?)
  {
  }

  // After a sticky layout from these marks: if it is a squarified one, no mark was off a row end.
  lemma {:induction false} RelaidOnRowEnds(c: Setup, node: Node, r: Rect, marked: map<Node, bool>)
    requires node.IsTree() && RowsEnd(node, marked.Keys)
    requires Relaid(c, node, r, marked) && LaidOut(c, node, r, map[])
    ensures OnRowEnds(c, node, r, marked.Keys)
    decreases node.height
  {
    hide ChildCells, StickyCells;
    var order, cells := Reversed(node.children), ChildCells(c, node, r);
    StickyEndsAtMarks(c, node, r, marked);
    forall k | 0 <= k < |order|
      ensures order[k] in marked ==> cells[k].z.Some?
      ensures order[k].IsTree() && order[k].height < node.height && OnRowEnds(c, order[k], cells[k].rect, marked.Keys)
    {
      assert order[k] == node.children[|order| - 1 - k];
      assert order[k].z == MarkLeft(cells[k].z, None) == MarkLeft(StickyCells(c, node, r, marked)[k].z, None);
      RelaidOnRowEnds(c, order[k], order[k].Rectangle(), marked);
    }
  }

  // A sticky layout clears no mark and makes no new one.
  lemma {:induction false} RelaidMarks(c: Setup, node: Node, r: Rect, marked: map<Node, bool>, d: Node)
    requires node.IsTree() && RowsEnd(node, marked.Keys) && Relaid(c, node, r, marked) && d in node.below
    ensures d.z.Some? <==> d in marked
    decreases node.height
  {
    hide StickyCells;
    StickyEndsAtMarks(c, node, r, marked);
    var i := InFamily(node.children, d);
    var child := node.children[i];
    assert child == Reversed(node.children)[|node.children| - 1 - i];
    if d != child {
      RelaidMarks(c, child, child.Rectangle(), marked, d);
    }
  }

  // In a squarified layout the stale marks are still there, and the last row of all children ends.
  lemma {:induction false} LaidOutMarks(c: Setup, node: Node, r: Rect, stale: map<Node, bool>, d: Node)
    requires node.IsTree() && LaidOut(c, node, r, stale) && d in node.below && d in stale
    ensures d.z.Some?
    decreases node.height
  {
    hide ChildCells;
    var i := InFamily(node.children, d);
    var child := node.children[i];
    assert child == Reversed(node.children)[|node.children| - 1 - i];
    if d != child {
      LaidOutMarks(c, child, child.Rectangle(), stale, d);
    }
  }

  lemma {:induction false} LaidOutRowsEnd(c: Setup, node: Node, r: Rect, stale: map<Node, bool>, marked: set<Node>)
    requires node.IsTree() && LaidOut(c, node, r, stale) && forall d :: d in node.below && d.z.Some? ==> d in marked
    ensures RowsEnd(node, marked)
    decreases node.height
  {
    hide ChildCells;
    ChildrenAreDistinct(node);
    forall i | 0 <= i < |node.children| ensures RowsEnd(node.children[i], marked) {
      LaidOutRowsEnd(c, node.children[i], node.children[i].Rectangle(), stale, marked);
    }
    if node.children != [] {
      LastCellIsMarked(c, node, r);
      assert node.children[0] == Reversed(node.children)[|node.children| - 1];
    }
  }

  lemma LastCellIsMarked(c: Setup, node: Node, r: Rect)
    requires node.children != []
    ensures ChildCells(c, node, r)[|node.children| - 1].z.Some?
  {
    hide SquarifyFrom;
    var order, pad := Reversed(node.children), Pad(node.padding, r);
    LastIsMarked(c.rows, ScaledAreas(c, order, Area(pad), ValueOf(c, node)), 0, 0, pad, Min(pad.dx, pad.dy), Infinity);
  }

  lemma {:induction false} FewerMarks(c: Setup, node: Node, r: Rect, marked: set<Node>, fewer: set<Node>)
    requires node.IsTree() && OnRowEnds(c, node, r, marked) && forall d :: d in node.below && d in fewer ==> d in marked
    ensures OnRowEnds(c, node, r, fewer)
    decreases node.height
  {
    hide ChildCells;
    ChildrenAreDistinct(node);
    var order, cells := Reversed(node.children), ChildCells(c, node, r);
    forall k | 0 <= k < |order|
      ensures (order[k] in fewer ==> cells[k].z.Some?) && OnRowEnds(c, order[k], cells[k].rect, fewer)
    {
      assert order[k] == node.children[|order| - 1 - k];
      FewerMarks(c, order[k], cells[k].rect, marked, fewer);
    }
  }

  lemma {:induction false} MoreRowsEnd(node: Node, marked: set<Node>, more: set<Node>)
    requires node.IsTree() && RowsEnd(node, marked) && forall d :: d in node.below && d in marked ==> d in more
    ensures RowsEnd(node, more)
    decreases node.height
  {
    ChildrenAreDistinct(node);
    forall i | 0 <= i < |node.children| ensures RowsEnd(node.children[i], more) {
      MoreRowsEnd(node.children[i], marked, more);
    }
  }

  // From these marks stickify makes the layout of squarify.
  ghost predicate SameRows(c: Setup, node: Node, r: Rect, marked: map<Node, bool>)
    requires node.IsTree()
    decreases node.height
  {
    var order, cells := Reversed(node.children), ChildCells(c, node, r);
    && StickyCells(c, node, r, marked) == cells
    && forall k :: 0 <= k < |order| ==>
      order[k].IsTree() && order[k].height < node.height && SameRows(c, order[k], cells[k].rect, marked)
  }

  lemma {:induction false} OwnMarksRemakeRows(c: Setup, node: Node, r: Rect, marked: map<Node, bool>)
    requires node.IsTree() && LaidOut(c, node, r, map[]) && Remembers(marked, node.below)
    ensures SameRows(c, node, r, marked)
    decreases node.height
  {
    hide ChildCells, StickyCells;
    ChildrenAreDistinct(node);
    var order, cells := Reversed(node.children), ChildCells(c, node, r);
    StickyIsSquarified(c, node, r, marked);
    forall k | 0 <= k < |order|
      ensures order[k].IsTree() && order[k].height < node.height && SameRows(c, order[k], cells[k].rect, marked)
    {
      assert order[k] == node.children[|order| - 1 - k];
      OwnMarksRemakeRows(c, order[k], order[k].Rectangle(), marked);
    }
  }

  lemma StickyIsSquarified(c: Setup, node: Node, r: Rect, marked: map<Node, bool>)
    requires CarryMarks(Reversed(node.children), ChildCells(c, node, r), map[])
    requires HoldMarks(Reversed(node.children), marked)
    ensures StickyCells(c, node, r, marked) == ChildCells(c, node, r)
  {
    hide SquarifyFrom, StickifyFrom;
    var order, pad := Reversed(node.children), Pad(node.padding, r);
    var a := ScaledAreas(c, order, Area(pad), ValueOf(c, node));
    StickifyReproduces(c.rows, a, pad);
    assert OlderMarks(marked, order) == Marks(SquarifyCells(c.rows, a, pad));
  }

  lemma {:induction false} SameRowsAreLaidOut(c: Setup, node: Node, r: Rect, marked: map<Node, bool>)
    requires node.IsTree() && SameRows(c, node, r, marked) && Relaid(c, node, r, marked)
    ensures LaidOut(c, node, r, map[])
    decreases node.height
  {
    hide ChildCells, StickyCells;
    var order := Reversed(node.children);
    forall i | 0 <= i < |node.children| ensures LaidOut(c, node.children[i], node.children[i].Rectangle(), map[]) {
      assert node.children[i] == order[|order| - 1 - i];
      SameRowsAreLaidOut(c, node.children[i], node.children[i].Rectangle(), marked);
    }
  }

  // ---------------------------------------------------------------- where the nodes are put

  // A layout puts every node where squarify does, or where the marks say.
  datatype Plan = Squarified | Marked(marks: map<Node, bool>)

  ghost predicate Follows(plan: Plan, node: Node)
    requires node.IsTree()
  {
    plan.Marked? ==> RowsEnd(node, plan.marks.Keys)
  }

  ghost function PlanCells(c: Setup, plan: Plan, node: Node, r: Rect): (cells: seq<Cell>)
    requires node.IsTree() && Follows(plan, node)
    ensures |cells| == |node.children|
  {
    match plan
    case Squarified => ChildCells(c, node, r)
    case Marked(marks) =>
      StickyEndsAtMarks(c, node, r, marks);
      StickyCells(c, node, r, marks)
  }

  ghost predicate Lies(c: Setup, plan: Plan, node: Node, r: Rect)
    requires node.IsTree() && Follows(plan, node)
    reads node.below
    decreases node.height
  {
    && LieIn(Reversed(node.children), PlanCells(c, plan, node, r))
    && forall i :: 0 <= i < |node.children| ==> Lies(c, plan, node.children[i], node.children[i].Rectangle())
  }

  lemma {:induction false} LaidOutLies(c: Setup, node: Node, r: Rect, stale: map<Node, bool>)
    requires node.IsTree() && LaidOut(c, node, r, stale)
    ensures Lies(c, Squarified, node, r)
    decreases node.height
  {
    hide ChildCells, CarryMarks;
    forall i | 0 <= i < |node.children| ensures Lies(c, Squarified, node.children[i], node.children[i].Rectangle()) {
      LaidOutLies(c, node.children[i], node.children[i].Rectangle(), stale);
    }
  }

  lemma {:induction false} RelaidLies(c: Setup, node: Node, r: Rect, marked: map<Node, bool>)
    requires node.IsTree() && RowsEnd(node, marked.Keys) && Relaid(c, node, r, marked)
    ensures Lies(c, Marked(marked), node, r)
    decreases node.height
  {
    hide StickyCells, CarryMarks;
    forall i | 0 <= i < |node.children| ensures Lies(c, Marked(marked), node.children[i], node.children[i].Rectangle()) {
      RelaidLies(c, node.children[i], node.children[i].Rectangle(), marked);
    }
  }

  // The cell of a node at any depth: it depends on the values, the paddings and the plan alone.
  ghost function CellBelow(c: Setup, plan: Plan, node: Node, r: Rect, d: Node): Cell
    requires node.IsTree() && Follows(plan, node) && d in node.below
    decreases node.height
  {
    InSomeFamily(node, d);
    var order, cells := Reversed(node.children), PlanCells(c, plan, node, r);
    var k :| 0 <= k < |order| && d in order[k].Family();
    assert order[k] == node.children[|order| - 1 - k];
    if d == order[k] then cells[k] else CellBelow(c, plan, order[k], cells[k].rect, d)
  }

  lemma InSomeFamily(node: Node, d: Node)
    requires node.IsTree() && d in node.below
    ensures exists k :: 0 <= k < |node.children| && d in Reversed(node.children)[k].Family()
  {
    var i := InFamily(node.children, d);
    assert Reversed(node.children)[|node.children| - 1 - i] == node.children[i];
  }

  lemma CellBelowIs(c: Setup, plan: Plan, node: Node, r: Rect, d: Node) returns (k: nat)
    requires node.IsTree() && Follows(plan, node) && d in node.below
    ensures k < |node.children| && var child := Reversed(node.children)[k];
      && child.IsTree() && child.height < node.height && Follows(plan, child) && (d == child || d in child.below)
      && CellBelow(c, plan, node, r, d)
         == if d == child then PlanCells(c, plan, node, r)[k] else CellBelow(c, plan, child, PlanCells(c, plan, node, r)[k].rect, d)
  {
    hide PlanCells, Node.IsTree, FamilyUnion;
    InSomeFamily(node, d);
    ChildrenAreTrees(node);
    var order, cells := Reversed(node.children), PlanCells(c, plan, node, r);
    k :| 0 <= k < |order| && d in order[k].Family()
      && CellBelow(c, plan, node, r, d) == if d == order[k] then cells[k] else CellBelow(c, plan, order[k], cells[k].rect, d);
    assert order[k] == node.children[|order| - 1 - k];
  }

  // The cell of a node is that which its own parent's layout gives it.
  lemma CellBelowChild(c: Setup, plan: Plan, node: Node, r: Rect, k: nat, d: Node)
    requires node.IsTree() && Follows(plan, node) && k < |node.children|
    requires d == Reversed(node.children)[k] || d in Reversed(node.children)[k].below
    ensures var child, cells := Reversed(node.children)[k], PlanCells(c, plan, node, r);
      && child.IsTree() && Follows(plan, child) && d in node.below
      && CellBelow(c, plan, node, r, d) == if d == child then cells[k] else CellBelow(c, plan, child, cells[k].rect, d)
  {
    hide PlanCells, CellBelow;
    ChildrenAreDistinct(node);
    assert Reversed(node.children)[k] == node.children[|node.children| - 1 - k];
    var j := CellBelowIs(c, plan, node, r, d);
    assert Reversed(node.children)[j] == node.children[|node.children| - 1 - j];
  }

  lemma {:induction false} LiesAt(c: Setup, plan: Plan, node: Node, r: Rect, d: Node)
    requires node.IsTree() && Follows(plan, node) && Lies(c, plan, node, r) && d in node.below
    ensures d.Rectangle() == CellBelow(c, plan, node, r, d).rect
    decreases node.height
  {
    hide PlanCells, CellBelow, Node.IsTree;
    var order := Reversed(node.children);
    var k := CellBelowIs(c, plan, node, r, d);
    assert order[k] == node.children[|order| - 1 - k];
    if d != order[k] {
      LiesAt(c, plan, order[k], order[k].Rectangle(), d);
    }
  }

  lemma {:induction false} RelaidMarkIs(c: Setup, node: Node, r: Rect, marked: map<Node, bool>, d: Node)
    requires node.IsTree() && RowsEnd(node, marked.Keys) && Relaid(c, node, r, marked) && d in node.below
    ensures d.z == CellBelow(c, Marked(marked), node, r, d).z
    decreases node.height
  {
    hide StickyCells, CellBelow, Node.IsTree;
    var order := Reversed(node.children);
    var k := CellBelowIs(c, Marked(marked), node, r, d);
    assert order[k] == node.children[|order| - 1 - k];
    if d != order[k] {
      RelaidMarkIs(c, order[k], order[k].Rectangle(), marked, d);
    }
  }

  // ---------------------------------------------------------------- repeating a sticky layout

  // A sticky layout lies where its own marks say, also when rows have turned.
  lemma {:induction false} RelaidRepeats(c: Setup, node: Node, r: Rect, marked: map<Node, bool>, now: map<Node, bool>)
    requires node.IsTree() && RowsEnd(node, marked.Keys) && Relaid(c, node, r, marked) && Remembers(now, node.below)
    ensures Relaid(c, node, r, now)
    decreases node.height
  {
    hide StickyCells;
    ChildrenAreDistinct(node);
    StickyRepeats(c, node, r, marked, now);
    forall i | 0 <= i < |node.children| ensures Relaid(c, node.children[i], node.children[i].Rectangle(), now) {
      RelaidRepeats(c, node.children[i], node.children[i].Rectangle(), marked, now);
    }
  }

  lemma StickyRepeats(c: Setup, node: Node, r: Rect, marked: map<Node, bool>, now: map<Node, bool>)
    requires node.children != [] ==> node.children[0] in marked
    requires CarryMarks(Reversed(node.children), StickyCells(c, node, r, marked), map[])
    requires HoldMarks(Reversed(node.children), now)
    ensures StickyCells(c, node, r, now) == StickyCells(c, node, r, marked)
  {
    hide StickifyFrom, ScaledArea, Area, Pad;
    var order, pad := Reversed(node.children), Pad(node.padding, r);
    var a, z := ScaledAreas(c, order, Area(pad), ValueOf(c, node)), OlderMarks(marked, order);
    StickifyIdempotent(c.rows, a, z, pad);
    assert OlderMarks(now, order) == Marks(StickifyFrom(c.rows, a, z, 0, 0, pad));
  }

  // Whatever the new size and the new values, every mark stays, or turns from vertical to horizontal.
  lemma {:induction false} RelaidKeepsMark(c: Setup, node: Node, r: Rect, marked: map<Node, bool>, d: Node)
    requires node.IsTree() && RowsEnd(node, marked.Keys) && Relaid(c, node, r, marked) && d in node.below
    ensures MarkKept(d.z, Older(marked, d))
    decreases node.height
  {
    hide StickyCells;
    StickyKeepsMarks(c, node, r, marked);
    var i := InFamily(node.children, d);
    var child := node.children[i];
    assert child == Reversed(node.children)[|node.children| - 1 - i];
    if d != child {
      RelaidKeepsMark(c, child, child.Rectangle(), marked, d);
    }
  }

  lemma StickyKeepsMarks(c: Setup, node: Node, r: Rect, marked: map<Node, bool>)
    requires node.children != [] ==> node.children[0] in marked
    ensures var order, full := Reversed(node.children), StickyCells(c, node, r, marked);
      |full| == |order| && forall k :: 0 <= k < |order| ==> MarkKept(full[k].z, Older(marked, order[k]))
  {
    hide StickifyFrom;
    var order, pad := Reversed(node.children), Pad(node.padding, r);
    var a, z := ScaledAreas(c, order, Area(pad), ValueOf(c, node)), OlderMarks(marked, order);
    StickifyKeepsMarks(c.rows, a, z, 0, 0, pad);
    var full := StickifyFrom(c.rows, a, z, 0, 0, pad);
    forall k | 0 <= k < |order| ensures MarkKept(full[k].z, Older(marked, order[k])) {
      assert MarkKept(full[k - 0].z, z[k]);
    }
  }

  // ---------------------------------------------------------------- harmless marks

  // Every node below has a positive value, and padding leaves every parent some room.
  ghost predicate RoomyBelow(c: Setup, node: Node, r: Rect)
    requires node.IsTree()
    decreases node.height
  {
    var order, cells := Reversed(node.children), ChildCells(c, node, r);
    && (order != [] ==> Roomy(Pad(node.padding, r)))
    && forall k :: 0 <= k < |order| ==>
      && ValueOf(c, order[k]) > 0.0
      && order[k].IsTree() && order[k].height < node.height && RoomyBelow(c, order[k], cells[k].rect)
  }

  // In the layout that squarify makes of node in r, the stale marks are harmless at every node.
  ghost predicate HarmlessBelow(c: Setup, node: Node, r: Rect, stale: map<Node, bool>)
    requires node.IsTree()
    decreases node.height
  {
    var order, cells := Reversed(node.children), ChildCells(c, node, r);
    && Harmless(cells, OlderMarks(stale, order))
    && forall k :: 0 <= k < |order| ==>
      order[k].IsTree() && order[k].height < node.height && HarmlessBelow(c, order[k], cells[k].rect, stale)
  }

  lemma {:induction false} SharesSum(c: Setup, nodes: seq<Node>, k: real, a: seq<real>)
    requires |a| == |nodes| && forall i :: 0 <= i < |nodes| ==> a[i] == Product(ValueOf(c, nodes[i]), k)
    ensures Sum(a) == Product(ValueSum(c, nodes), k)
    decreases |nodes|
  {
    hide Sum;
    if nodes == [] {
      assert a == [];
      SumOfNone();
    } else {
      SharesSum(c, nodes[1..], k, a[1..]);
      SumFirst(a);
    }
  }

  lemma {:induction false} ReversedSum(c: Setup, nodes: seq<Node>)
    ensures ValueSum(c, Reversed(nodes)) == ValueSum(c, nodes)
    decreases |nodes|
  {
    if nodes == [] {
      assert Reversed(nodes) == [];
    } else {
      ReversedSum(c, nodes[1..]);
      assert Reversed(nodes) == Reversed(nodes[1..]) + [nodes[0]];
      ValueSumSnoc(c, Reversed(nodes[1..]), nodes[0]);
    }
  }

  lemma {:induction false} ValueSumSnoc(c: Setup, nodes: seq<Node>, n: Node)
    ensures ValueSum(c, nodes + [n]) == ValueSum(c, nodes) + ValueOf(c, n)
    decreases |nodes|
  {
    if nodes == [] {
      assert [n][1..] == [];
    } else {
      assert (nodes + [n])[1..] == nodes[1..] + [n];
      ValueSumSnoc(c, nodes[1..], n);
    }
  }

  // The children of a node fill its padded rectangle with their areas.
  lemma AreasFill(c: Setup, node: Node, r: Rect)
    requires node.IsTree() && Valued(c, node) && RoomyBelow(c, node, r) && node.children != []
    ensures var order, pad := Reversed(node.children), Pad(node.padding, r);
      FitsIn(ScaledAreas(c, order, Area(pad), ValueOf(c, node)), pad, true)
  {
    hide ChildCells, Pad, Sum, ValueSum, Product, ScaledArea, Area;
    var order, pad, total := Reversed(node.children), Pad(node.padding, r), ValueOf(c, node);
    ReversedSum(c, node.children);
    assert forall i :: 0 <= i < |order| ==> ValueOf(c, order[i]) > 0.0;
    PositiveSum(c, order);
    RoomyArea(pad);
    var k, a := Share(Area(pad), total), ScaledAreas(c, order, Area(pad), total);
    ShareTimes(Area(pad), total);
    Commute(k, total);
    forall i | 0 <= i < |order| ensures a[i] == Product(ValueOf(c, order[i]), k) && a[i] > 0.0 {
      PositiveArea(ValueOf(c, order[i]), Area(pad), total);
    }
    SharesSum(c, order, k, a);
  }

  lemma RoomyArea(r: Rect)
    requires Roomy(r)
    ensures Area(r) > 0.0
  {
  }

  lemma PositiveArea(value: real, room: real, total: real)
    requires value > 0.0 && room > 0.0 && total > 0.0
    ensures ScaledArea(value, room, total) == Product(value, Share(room, total)) > 0.0
  {
    ShareTimes(room, total);
    PositiveProduct(value, Share(room, total));
  }

  lemma PositiveProduct(x: real, y: real)
    requires x > 0.0 && y > 0.0
    ensures Product(x, y) > 0.0
  {
  }

  lemma {:induction false} PositiveSum(c: Setup, nodes: seq<Node>)
    requires nodes != [] && forall i :: 0 <= i < |nodes| ==> ValueOf(c, nodes[i]) > 0.0
    ensures ValueSum(c, nodes) > 0.0
    decreases |nodes|
  {
    if |nodes| == 1 {
      assert nodes[1..] == [];
    } else {
      PositiveSum(c, nodes[1..]);
    }
  }

  // Without rounding every child of a squarified node has its share of the padded rectangle.
  lemma ExactAreas(c: Setup, node: Node, r: Rect, stale: map<Node, bool>, i: nat)
    requires node.IsTree() && Valued(c, node) && Exact(c.rows) && RoomyBelow(c, node, r) && LaidOut(c, node, r, stale)
    requires i < |node.children|
    ensures Product(Area(node.children[i].Rectangle()), ValueOf(c, node))
         == Product(ValueOf(c, node.children[i]), Area(Pad(node.padding, r)))
  {
    hide SquarifyFrom, Sum, Pad, Area, FitsIn, Exact, ScaledArea;
    var order, pad, k := Reversed(node.children), Pad(node.padding, r), |node.children| - 1 - i;
    var a := ScaledAreas(c, order, Area(pad), ValueOf(c, node));
    AreasFill(c, node, r);
    assert a[0..] == a;
    SquarifyAreas(c.rows, a, 0, 0, pad, Min(pad.dx, pad.dy), Infinity, k);
    assert SquarifyCells(c.rows, a, pad)[k - 0] == SquarifyCells(c.rows, a, pad)[k];
    PositiveValue(c, node, r);
    PadArea(c, node, r);
    ShareOfRoom(ValueOf(c, order[k]), Area(pad), ValueOf(c, node));
  }

  lemma PositiveValue(c: Setup, node: Node, r: Rect)
    requires node.IsTree() && Valued(c, node) && RoomyBelow(c, node, r) && node.children != []
    ensures ValueOf(c, node) > 0.0
  {
    hide ChildCells, ValueSum;
    assert forall i :: 0 <= i < |node.children| ==> node.children[i] == Reversed(node.children)[|node.children| - 1 - i];
    PositiveSum(c, node.children);
  }

  lemma PadArea(c: Setup, node: Node, r: Rect)
    requires node.IsTree() && RoomyBelow(c, node, r) && node.children != []
    ensures Area(Pad(node.padding, r)) > 0.0
  {
    hide Pad;
    RoomyArea(Pad(node.padding, r));
  }

  lemma ShareOfRoom(value: real, room: real, total: real)
    requires value > 0.0 && room > 0.0 && total > 0.0
    ensures Product(ScaledArea(value, room, total), total) == Product(value, room)
  {
    PositiveArea(value, room, total);
    ShareTimes(room, total);
    assert value * Share(room, total) * total == value * (Share(room, total) * total);
  }

  // From these marks stickify puts every node where squarify does.
  ghost predicate SamePlaces(c: Setup, node: Node, r: Rect, marked: map<Node, bool>)
    requires node.IsTree() && RowsEnd(node, marked.Keys)
  {
    forall d :: d in node.below ==> CellBelow(c, Squarified, node, r, d).rect == CellBelow(c, Marked(marked), node, r, d).rect
  }

  lemma SamePlacesParts(c: Setup, node: Node, r: Rect, marked: map<Node, bool>)
    requires node.IsTree() && RowsEnd(node, marked.Keys)
    ensures var order, cells := Reversed(node.children), ChildCells(c, node, r);
      SamePlaces(c, node, r, marked) <==>
        && SameRects(StickyCells(c, node, r, marked), cells)
        && forall k :: 0 <= k < |order| ==>
          order[k].IsTree() && RowsEnd(order[k], marked.Keys) && SamePlaces(c, order[k], cells[k].rect, marked)
  {
    hide CellBelow, ChildCells, StickyCells, Node.IsTree, FamilyUnion;
    ChildrenAreTrees(node);
    var order, cells, full := Reversed(node.children), ChildCells(c, node, r), StickyCells(c, node, r, marked);
    StickyEndsAtMarks(c, node, r, marked);
    assert forall k :: 0 <= k < |order| ==> order[k] == node.children[|order| - 1 - k];
    if SamePlaces(c, node, r, marked) {
      forall k | 0 <= k < |order| ensures full[k].rect == cells[k].rect {
        CellBelowChild(c, Squarified, node, r, k, order[k]);
        CellBelowChild(c, Marked(marked), node, r, k, order[k]);
      }
      forall k | 0 <= k < |order| ensures SamePlaces(c, order[k], cells[k].rect, marked) {
        forall d | d in order[k].below
          ensures CellBelow(c, Squarified, order[k], cells[k].rect, d).rect == CellBelow(c, Marked(marked), order[k], cells[k].rect, d).rect
        {
          NotBelowItself(order[k]);
          CellBelowChild(c, Squarified, node, r, k, d);
          CellBelowChild(c, Marked(marked), node, r, k, d);
        }
      }
    }
    if SameRects(full, cells) && forall k :: 0 <= k < |order| ==> SamePlaces(c, order[k], cells[k].rect, marked) {
      forall d | d in node.below
        ensures CellBelow(c, Squarified, node, r, d).rect == CellBelow(c, Marked(marked), node, r, d).rect
      {
        var k := CellBelowIs(c, Squarified, node, r, d);
        CellBelowChild(c, Marked(marked), node, r, k, d);
      }
    }
  }

  // After a first layout without rounding: stickify puts every node where squarify put it exactly when
  // the stale marks are harmless.
  lemma {:induction false} HarmlessDecides(c: Setup, node: Node, r: Rect, stale: map<Node, bool>, marked: map<Node, bool>)
    requires node.IsTree() && Valued(c, node) && Exact(c.rows) && RoomyBelow(c, node, r) && RowsEnd(node, marked.Keys)
    requires LaidOut(c, node, r, stale) && Remembers(marked, node.below)
    ensures SamePlaces(c, node, r, marked) <==> HarmlessBelow(c, node, r, stale)
    decreases node.height
  {
    hide CellBelow, ChildCells, StickyCells, SamePlaces, Harmless, SameRects, Node.IsTree;
    ChildrenAreTrees(node);
    ChildrenAreDistinct(node);
    SamePlacesParts(c, node, r, marked);
    ChildrenHarmless(c, node, r, stale, marked);
    var order, cells := Reversed(node.children), ChildCells(c, node, r);
    forall k | 0 <= k < |order|
      ensures order[k].IsTree() && RowsEnd(order[k], marked.Keys)
      ensures SamePlaces(c, order[k], cells[k].rect, marked) <==> HarmlessBelow(c, order[k], cells[k].rect, stale)
    {
      assert order[k] == node.children[|order| - 1 - k] && order[k].Rectangle() == cells[k].rect;
      assert node.children[|order| - 1 - k].below <= node.below;
      HarmlessDecides(c, order[k], order[k].Rectangle(), stale, marked);
    }
  }

  lemma ChildrenHarmless(c: Setup, node: Node, r: Rect, stale: map<Node, bool>, marked: map<Node, bool>)
    requires node.IsTree() && Valued(c, node) && Exact(c.rows) && RoomyBelow(c, node, r)
    requires CarryMarks(Reversed(node.children), ChildCells(c, node, r), stale) && HoldMarks(Reversed(node.children), marked)
    ensures var order, full, cells := Reversed(node.children), StickyCells(c, node, r, marked), ChildCells(c, node, r);
      && (SameRects(full, cells) <==> Harmless(cells, OlderMarks(stale, order)))
      && (Harmless(cells, OlderMarks(stale, order)) ==> Marks(full) == OlderMarks(marked, order))
  {
    hide SquarifyFrom, StickifyFrom, Harmless, Sum, Area, Pad, ScaledArea, Exact;
    var order, pad := Reversed(node.children), Pad(node.padding, r);
    var a := ScaledAreas(c, order, Area(pad), ValueOf(c, node));
    var cells := ChildCells(c, node, r);
    assert OlderMarks(marked, order) == MarksOver(cells, OlderMarks(stale, order));
    if node.children == [] {
      NothingHarmful(c.rows, a, OlderMarks(marked, order), pad, cells, OlderMarks(stale, order));
    } else {
      AreasFill(c, node, r);
      RectsReproducedIff(c.rows, a, pad, OlderMarks(stale, order));
    }
  }

  lemma NothingHarmful(c: Config, a: seq<real>, z: seq<Option<bool>>, r: Rect, cells: seq<Cell>, stale: seq<Option<bool>>)
    requires a == [] && z == [] && cells == [] && stale == []
    ensures StickifyFrom(c, a, z, 0, 0, r) == [] && Harmless(cells, stale) && Marks([]) == z && SameRects([], cells)
  {
  }

  // And when they are, every mark stays as it is.
  lemma {:induction false} HarmlessKeepsMark(c: Setup, node: Node, r: Rect, stale: map<Node, bool>, marked: map<Node, bool>, d: Node)
    requires node.IsTree() && Valued(c, node) && Exact(c.rows) && RoomyBelow(c, node, r) && RowsEnd(node, marked.Keys)
    requires LaidOut(c, node, r, stale) && Remembers(marked, node.below) && HarmlessBelow(c, node, r, stale) && d in node.below
    ensures CellBelow(c, Marked(marked), node, r, d).z == Older(marked, d)
    decreases node.height
  {
    hide CellBelow, ChildCells, StickyCells, Harmless;
    ChildrenAreDistinct(node);
    ChildrenHarmless(c, node, r, stale, marked);
    var order, full := Reversed(node.children), StickyCells(c, node, r, marked);
    var k := CellBelowIs(c, Marked(marked), node, r, d);
    assert order[k] == node.children[|order| - 1 - k];
    if d == order[k] {
      assert full[k].z == Marks(full)[k] == OlderMarks(marked, order)[k];
    } else {
      HarmlessKeepsMark(c, order[k], order[k].Rectangle(), stale, marked, d);
    }
  }

  // ---------------------------------------------------------------- over all runs

  // Over all runs of a sticky treemap: the remembered tree lies where squarify puts it, and carries
  // its marks and no others, exactly when no stale mark was off a row end.
  ghost predicate Settled(c: Setup, node: Node, r: Rect, stale: set<Node>)
    requires node.IsTree()
    reads node.below
  {
    && RowsEnd(node, MarksBelow(node.below).Keys) && stale <= MarksBelow(node.below).Keys
    && (LaidOut(c, node, r, map[]) <==> OnRowEnds(c, node, r, stale))
  }

  lemma FirstSettles(c: Setup, node: Node, r: Rect, stale: map<Node, bool>)
    requires node.IsTree() && LaidOut(c, node, r, stale) && stale.Keys <= node.below
    ensures Settled(c, node, r, stale.Keys) && RowsEnd(node, MarksBelow(node.below).Keys) && stale.Keys <= MarksBelow(node.below).Keys
    ensures LaidOut(c, node, r, map[]) <==> OnRowEnds(c, node, r, stale.Keys)
  {
    hide LaidOut, OnRowEnds, RowsEnd;
    StaleMarksDecide(c, node, r, stale);
    LaidOutRowsEnd(c, node, r, stale, MarksBelow(node.below).Keys);
    forall d | d in stale ensures d in MarksBelow(node.below) {
      LaidOutMarks(c, node, r, stale, d);
    }
  }

  lemma AgainSettles(c: Setup, node: Node, r: Rect, marked: map<Node, bool>, stale: set<Node>)
    requires node.IsTree() && RowsEnd(node, marked.Keys) && stale <= marked.Keys <= node.below
    requires Relaid(c, node, r, marked) && (OnRowEnds(c, node, r, stale) ==> LaidOut(c, node, r, map[]))
    ensures Settled(c, node, r, stale)
  {
    hide LaidOut, OnRowEnds, RowsEnd, Relaid;
    forall d | d in node.below ensures d in MarksBelow(node.below) <==> d in marked {
      RelaidMarks(c, node, r, marked, d);
    }
    MoreRowsEnd(node, marked.Keys, MarksBelow(node.below).Keys);
    if LaidOut(c, node, r, map[]) {
      RelaidOnRowEnds(c, node, r, marked);
      FewerMarks(c, node, r, marked.Keys, stale);
    }
  }

  twostate predicate AsBefore(nodes: set<Node>)
    reads nodes
  {
    forall d :: d in nodes ==> d.Rectangle() == old(d.Rectangle()) && d.z == old(d.z)
  }

  twostate predicate RectsAsBefore(nodes: set<Node>)
    reads nodes
  {
    forall d :: d in nodes ==> d.Rectangle() == old(d.Rectangle())
  }

  // What was squarified, with its own marks and no others, lies where its marks say.
  lemma {:induction false} LaidOutIsRelaid(c: Setup, node: Node, r: Rect, marked: map<Node, bool>)
    requires node.IsTree() && LaidOut(c, node, r, map[]) && Remembers(marked, node.below)
    ensures Relaid(c, node, r, marked)
    decreases node.height
  {
    hide ChildCells, StickyCells;
    ChildrenAreDistinct(node);
    StickyIsSquarified(c, node, r, marked);
    forall i | 0 <= i < |node.children| ensures Relaid(c, node.children[i], node.children[i].Rectangle(), marked) {
      LaidOutIsRelaid(c, node.children[i], node.children[i].Rectangle(), marked);
    }
  }

  lemma EachLies(c: Setup, plan: Plan, node: Node, r: Rect)
    requires node.IsTree() && Follows(plan, node) && Lies(c, plan, node, r)
    ensures forall d :: d in node.below ==> d.Rectangle() == CellBelow(c, plan, node, r, d).rect
  {
    hide CellBelow, Lies;
    forall d | d in node.below ensures d.Rectangle() == CellBelow(c, plan, node, r, d).rect {
      LiesAt(c, plan, node, r, d);
    }
  }

  // A sticky layout puts and marks every node as its plan says.
  lemma EachRelaid(c: Setup, node: Node, r: Rect, marked: map<Node, bool>)
    requires node.IsTree() && RowsEnd(node, marked.Keys) && Relaid(c, node, r, marked)
    ensures forall d :: d in node.below ==> InCell(d, CellBelow(c, Marked(marked), node, r, d))
  {
    hide CellBelow, Relaid;
    RelaidLies(c, node, r, marked);
    EachLies(c, Marked(marked), node, r);
    forall d | d in node.below ensures InCell(d, CellBelow(c, Marked(marked), node, r, d)) {
      RelaidMarkIs(c, node, r, marked, d);
    }
  }

  ghost predicate InCell(n: Node, cell: Cell)
    reads n
  {
    n.Rectangle() == cell.rect && n.z == cell.z
  }

  // No rounding, values that are sums of positive ones, and room for every parent.
  ghost predicate ExactBelow(c: Setup, node: Node, r: Rect)
    requires node.IsTree()
  {
    Exact(c.rows) && Valued(c, node) && RoomyBelow(c, node, r)
  }

  // Where squarify put the nodes below, and that harmless marks keep them there and keep themselves.
  lemma EachHarmless(c: Setup, node: Node, r: Rect, stale: map<Node, bool>, marked: map<Node, bool>)
    requires node.IsTree() && RowsEnd(node, marked.Keys) && LaidOut(c, node, r, stale) && Remembers(marked, node.below)
    ensures forall d :: d in node.below ==> d.Rectangle() == CellBelow(c, Squarified, node, r, d).rect
    ensures ExactBelow(c, node, r) ==> (SamePlaces(c, node, r, marked) <==> HarmlessBelow(c, node, r, stale))
    ensures ExactBelow(c, node, r) && HarmlessBelow(c, node, r, stale) ==>
      forall d :: d in node.below ==> CellBelow(c, Marked(marked), node, r, d).z == d.z
  {
    hide CellBelow, LaidOut, HarmlessBelow, RowsEnd, SamePlaces, Exact, Valued, RoomyBelow;
    LaidOutLies(c, node, r, stale);
    EachLies(c, Squarified, node, r);
    if ExactBelow(c, node, r) {
      HarmlessDecides(c, node, r, stale, marked);
      if HarmlessBelow(c, node, r, stale) {
        forall d | d in node.below ensures CellBelow(c, Marked(marked), node, r, d).z == d.z {
          HarmlessKeepsMark(c, node, r, stale, marked, d);
        }
      }
    }
  }

  lemma SettledLaidOut(c: Setup, node: Node, r: Rect, stale: set<Node>)
    requires node.IsTree() && Settled(c, node, r, stale) && OnRowEnds(c, node, r, stale)
    ensures LaidOut(c, node, r, map[])
  {
  }

  lemma AfterSettles(c: Setup, node: Node, r: Rect, marked: map<Node, bool>, stale: set<Node>, settled: bool)
    requires node.IsTree() && RowsEnd(node, marked.Keys) && stale <= marked.Keys <= node.below && Relaid(c, node, r, marked)
    requires settled && OnRowEnds(c, node, r, stale) ==> LaidOut(c, node, r, map[])
    ensures Relaid(c, node, r, MarksBelow(node.below)) && RowsEnd(node, MarksBelow(node.below).Keys)
    ensures stale <= MarksBelow(node.below).Keys && (settled ==> Settled(c, node, r, stale))
    ensures forall d :: d in node.below ==> MarkKept(d.z, Older(marked, d))
  {
    hide LaidOut, OnRowEnds, RowsEnd, Relaid, Settled, MarkKept;
    RelaidRepeats(c, node, r, marked, MarksBelow(node.below));
    forall d | d in node.below ensures (d in MarksBelow(node.below) <==> d in marked) && MarkKept(d.z, Older(marked, d)) {
      RelaidMarks(c, node, r, marked, d);
      RelaidKeepsMark(c, node, r, marked, d);
    }
    MoreRowsEnd(node, marked.Keys, MarksBelow(node.below).Keys);
    if settled {
      AgainSettles(c, node, r, marked, stale);
    }
  }

  // ---------------------------------------------------------------- one call

  method PlaceRoot(c: Setup, root: Node, r: Rect)
    modifies root
    ensures root.Rectangle() == r && root.z == old(root.z)
  {
    root.Place(r);
    Scale(c, [root], Area(r), ValueOf(c, root));
  }

  method LayoutFirst(c: Setup, root: Node, r: Rect, ghost marked: map<Node, bool>)
    requires root.IsTree() && marked == MarksBelow(root.below)
    modifies root.Family()
    ensures root.Rectangle() == r && LaidOut(c, root, r, marked) && Settled(c, root, r, marked.Keys)
    ensures RowsEnd(root, MarksBelow(root.below).Keys) && marked.Keys <= MarksBelow(root.below).Keys
    ensures LaidOut(c, root, r, map[]) <==> OnRowEnds(c, root, r, marked.Keys)
    ensures RoundsNonNegative(c.rows) && Proper(r) && Unpadded(root) ==> LeavesCover(root, r)
  {
    hide LaidOut, OnRowEnds, RowsEnd, Settled, LeavesCover, Unpadded, RoundsNonNegative;
    NotBelowItself(root);
    PlaceRoot(c, root, r);
    Squarify(c, root, marked);
    FirstSettles(c, root, r, marked);
    if RoundsNonNegative(c.rows) && Proper(r) && Unpadded(root) {
      LeavesTile(c, root, r, marked);
    }
  }

  // A later sticky layout follows the marks. It moves nothing that an earlier sticky layout made, and
  // moves what squarify made exactly when the stale marks are not harmless.
  method LayoutAgain(c: Setup, root: Node, r: Rect, ghost marked: map<Node, bool>, ghost stale: map<Node, bool>, ghost settled: bool)
    requires root.IsTree() && RowsEnd(root, marked.Keys) && marked == MarksBelow(root.below) && stale.Keys <= marked.Keys
    requires settled ==> Settled(c, root, r, stale.Keys)
    modifies root.Family()
    ensures root.Rectangle() == r && Relaid(c, root, r, marked) && Relaid(c, root, r, MarksBelow(root.below))
    ensures RowsEnd(root, MarksBelow(root.below).Keys) && stale.Keys <= MarksBelow(root.below).Keys
    ensures forall n :: n in root.below ==> MarkKept(n.z, old(n.z))
    ensures old(Relaid(c, root, r, marked)) ==> AsBefore(root.below)
    ensures settled ==> Settled(c, root, r, stale.Keys)
    ensures settled && OnRowEnds(c, root, r, stale.Keys) ==> AsBefore(root.below) && LaidOut(c, root, r, map[])
    ensures old(LaidOut(c, root, r, stale)) && ExactBelow(c, root, r) ==>
      && (RectsAsBefore(root.below) <==> HarmlessBelow(c, root, r, stale))
      && (HarmlessBelow(c, root, r, stale) ==> AsBefore(root.below))
    ensures RoundsNonNegative(c.rows) && Proper(r) && Unpadded(root) ==> LeavesCover(root, r)
  {
    hide LaidOut, OnRowEnds, RowsEnd, Relaid, CellBelow, SameRows, Settled, HarmlessBelow, ExactBelow, MarkKept, LeavesCover, Unpadded,
      RoundsNonNegative, Proper, Node.IsTree;
    NotBelowItself(root);
    ghost var same := settled && OnRowEnds(c, root, r, stale.Keys);
    if same {
      SettledLaidOut(c, root, r, stale.Keys);
      OwnMarksRemakeRows(c, root, r, marked);
      LaidOutIsRelaid(c, root, r, marked);
    }
    if Relaid(c, root, r, marked) {
      EachRelaid(c, root, r, marked);
    }
    if LaidOut(c, root, r, stale) {
      EachHarmless(c, root, r, stale, marked);
    }
    PlaceRoot(c, root, r);
    Stickify(c, root, marked);
    EachRelaid(c, root, r, marked);
    if same {
      SameRowsAreLaidOut(c, root, r, marked);
    }
    AfterSettles(c, root, r, marked, stale.Keys, settled);
    if RoundsNonNegative(c.rows) && Proper(r) && Unpadded(root) {
      LeavesTile(c, root, r, marked);
    }
  }

  // ---------------------------------------------------------------- the layout object

  // The layout function d3.layout.treemap returns, with what it keeps between calls.
  class Treemap {
    var config: Setup
    var width: real
    var height: real
    const sticky: bool
    var stickies: Node?
    // the marks that nodes carried when stickies was laid out first
    ghost var stale: map<Node, bool>
    // whether the size or the values have been set since then
    ghost var changed: bool

    function Size(): Rect
      reads `width, `height
    {
      Rect(0.0, 0.0, width, height)
    }

    // The remembered tree can be laid out from its marks; while nothing was set, it is squarify's, marks
    // included, exactly when no stale mark was off a row end.
    ghost predicate Valid()
      reads this, if stickies == null then {} else stickies.below
    {
      stickies != null ==>
        && stickies.IsTree() && RowsEnd(stickies, MarksBelow(stickies.below).Keys)
        && stale.Keys <= MarksBelow(stickies.below).Keys
        && (!changed ==> Settled(config, stickies, Size(), stale.Keys))
    }

    constructor (config: Setup, width: real, height: real, sticky: bool)
      ensures Valid() && stickies == null
      ensures this.config == config && this.width == width && this.height == height && this.sticky == sticky
    {
      this.config, this.width, this.height, this.sticky := config, width, height, sticky;
      stickies, stale, changed := null, map[], false;
    }

    method SetSize(w: real, h: real)
      requires Valid()
      modifies `width, `height, `changed
      ensures Valid() && width == w && height == h && changed
    {
      width, height, changed := w, h, true;
    }

    method SetValue(value: Node -> real)
      requires Valid()
      modifies `config, `changed
      ensures Valid() && config == old(config).(value := value) && changed
    {
      config, changed := config.(value := value), true;
    }

    // The first layout is squarify's, over the marks that are there. Every later sticky layout follows the
    // marks, for whatever size and values are set then; done again, it moves nothing. While nothing is set,
    // it keeps the first layout when no stale mark was off a row end, and without rounding it keeps its
    // rectangles exactly when the stale marks were harmless.
    method Layout(d: Node) returns (root: Node)
      requires Valid() && d.IsTree() && Valued(config, if stickies == null then d else stickies)
      modifies `stickies, `stale, `changed, (if stickies == null then d else stickies).Family()
      ensures root == (if old(stickies) == null then d else old(stickies)) && root.Rectangle() == Size() && root.IsTree()
      ensures Valid() && stickies == if sticky then root else old(stickies)
      ensures stale == if old(stickies) == null && sticky then old(MarksBelow(d.below)) else old(stale)
      ensures changed <==> old(changed) && !(old(stickies) == null && sticky)
      ensures old(stickies) == null ==> LaidOut(config, root, Size(), old(MarksBelow(d.below)))
      ensures old(stickies) == null ==>
        (LaidOut(config, root, Size(), map[]) <==> OnRowEnds(config, root, Size(), old(MarksBelow(d.below).Keys)))
      ensures old(stickies) != null ==>
        && Relaid(config, root, Size(), old(MarksBelow(stickies.below))) && Relaid(config, root, Size(), MarksBelow(root.below))
        && forall n :: n in root.below ==> MarkKept(n.z, old(n.z))
      ensures old(stickies != null && Relaid(config, stickies, Size(), MarksBelow(stickies.below))) ==> AsBefore(root.below)
      ensures old(stickies) != null && !changed && OnRowEnds(config, root, Size(), stale.Keys) ==>
        AsBefore(root.below) && LaidOut(config, root, Size(), map[])
      ensures old(stickies != null && LaidOut(config, stickies, Size(), stale)) && ExactBelow(config, root, Size()) ==>
        && (RectsAsBefore(root.below) <==> HarmlessBelow(config, root, Size(), stale))
        && (HarmlessBelow(config, root, Size(), stale) ==> AsBefore(root.below))
      ensures RoundsNonNegative(config.rows) && Proper(Size()) && Unpadded(root) ==> LeavesCover(root, Size())
    {
      hide LaidOut, Relaid, OnRowEnds, RowsEnd, Settled, Node.IsTree, ExactBelow, HarmlessBelow, MarkKept, LeavesCover, Unpadded,
        RoundsNonNegative, Valued, AsBefore, RectsAsBefore, MarksBelow, Proper;
      if stickies != null {
        root := stickies;
        LayoutAgain(config, root, Size(), MarksBelow(root.below), stale, !changed);
      } else {
        root := d;
        LayoutFirst(config, root, Size(), MarksBelow(root.below));
        if sticky {
          stale, changed := old(MarksBelow(d.below)), false;
        }
      }
      if sticky {
        stickies := root;
      }
    }
  }
}
