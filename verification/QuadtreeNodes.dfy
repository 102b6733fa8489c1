// The quadtree as the program builds it: node objects that insert and insertChild change in place.
module QuadtreeNodes {
  import opened Coordinates
  import opened Quadtree
  import opened Wrappers

  class QuadNode {
    var leaf: bool
    var point: Option<Pt>
    var nodes: seq<QuadNode?>
    // written by the force layout, once the tree is built
    var charge: real
    var pointCharge: real
    var cx: Coordinate
    var cy: Coordinate
    ghost var repr: set<QuadNode>
    ghost var model: Quad

    ghost predicate Valid()
      reads this, repr
      decreases repr
    {
      && this in repr && |nodes| == 4
      && (forall i :: 0 <= i < 4 && nodes[i] != null ==>
            nodes[i] in repr && nodes[i].repr < repr && this !in nodes[i].repr && nodes[i].Valid())
      && (forall i, j :: 0 <= i < j < 4 && nodes[i] != null && nodes[j] != null ==> nodes[i].repr !! nodes[j].repr)
      && model.Node? && model.leaf == leaf && model.point == point && |model.nodes| == 4
      && (forall i :: 0 <= i < 4 ==> model.nodes[i] == if nodes[i] == null then Absent else nodes[i].model)
    }

    constructor ()
      ensures Valid() && fresh(repr) && repr == {this} && model == EMPTY_LEAF
    {
      leaf, point, nodes := true, None, [null, null, null, null];
      repr, model := {this}, EMPTY_LEAF;
    }

    method SetPoint(p: Option<Pt>)
      requires Valid()
      modifies this`point, this`model
      ensures Valid() && point == p && model == old(model).(point := p)
    {
      point := p;
      model := model.(point := p);
    }

    method SetCharges(c: real, own: real)
      requires Valid()
      modifies this`charge, this`pointCharge
      ensures Valid() && charge == c && pointCharge == own
    {
      charge, pointCharge := c, own;
    }

    method SetCentre(x: Coordinate, y: Coordinate)
      requires Valid()
      modifies this`cx, this`cy
      ensures Valid() && cx == x && cy == y
    {
      cx, cy := x, y;
    }

    // The child that the next insertion enters.
    method EnterChild(i: nat) returns (c: QuadNode)
      requires Valid() && i < 4
      modifies this
      ensures Valid() && fresh(repr - old(repr)) && nodes[i] == c
      ensures c.model == Enter(old(model), i)
      ensures model == Node(false, old(model.point), old(model.nodes)[i := c.model])
    {
      leaf := false;
      var old_ := nodes[i];
      if old_ == null {
        c := new QuadNode();
        nodes := nodes[i := c];
        repr := repr + {c};
      } else {
        c := old_;
      }
      model := Node(false, point, model.nodes[i := c.model]);
    }
  }

  method Insert(n: QuadNode, p: Pt, b: Box)
    requires n.Valid() && Ready(n.model, b) && InBox(p, b)
    modifies n.repr
    ensures n.Valid() && fresh(n.repr - old(n.repr))
    ensures n.model == Quadtree.Insert(old(n.model), p, b)
    decreases Height(n.model), Splits(b), Filled(n.model), 0
  {
    hide Height, Splits, InBox, Coincident, Quadrant, SubBox, Fits, WellFormed, Quadtree.InsertChild, Enter, Filled;
    if n.leaf {
      if n.point.Some? {
        var v := n.point.value;
        if Coincident(v, p) {
          Descends(n.model, p, b);
          InsertChild(n, p, b);
        } else {
          SplitLeaf(n.model, p, b);
          n.SetPoint(None);
          InsertChild(n, v, b);
          InsertChild(n, p, b);
        }
      } else {
        n.SetPoint(Some(p));
      }
    } else {
      Descends(n.model, p, b);
      InsertChild(n, p, b);
    }
  }

  method InsertChild(n: QuadNode, p: Pt, b: Box)
    requires n.Valid() && WellFormed(n.model) && Fits(n.model, b) && InBox(p, b)
    modifies n.repr
    ensures n.Valid() && fresh(n.repr - old(n.repr))
    ensures n.model == Quadtree.InsertChild(old(n.model), p, b)
    decreases Height(Enter(n.model, Quadrant(p, b))), Splits(SubBox(b, Quadrant(p, b))), Filled(Enter(n.model, Quadrant(p, b))), 2
  {
    var sx, sy := MidX(b), MidY(b);
    var right, bottom := p.x >= sx, p.y >= sy;
    var i := (if bottom then 2 else 0) + if right then 1 else 0;
    var sub := Box(if right then sx else b.x1, if bottom then sy else b.y1, if right then b.x2 else sx, if bottom then b.y2 else sy);
    assert i == Quadrant(p, b) && sub == SubBox(b, i);
    EnterIsReady(n.model, b, i);
    PointInQuadrant(p, b);
    hide Height, Splits, InBox, Quadrant, SubBox, Fits, WellFormed, Ready, Enter, Filled, Quadtree.Insert, MidX, MidY, QuadNode.Valid;
    ghost var before := n.model;
    var c := n.EnterChild(i);
    InsertBelow(n, i, c, p, sub);
    InsertChildIs(before, p, b);
  }

  lemma InsertChildIs(n: Quad, p: Pt, b: Box)
    requires n.Node? && WellFormed(n) && Fits(n, b) && InBox(p, b)
    ensures var i := Quadrant(p, b);
      && Ready(Enter(n, i), SubBox(b, i)) && InBox(p, SubBox(b, i))
      && Quadtree.InsertChild(n, p, b) == Node(false, n.point, n.nodes[i := Quadtree.Insert(Enter(n, i), p, SubBox(b, i))])
  {
  }

  // Inserting into child i of n, whose own fields do not change.
  method InsertBelow(n: QuadNode, i: nat, c: QuadNode, p: Pt, sub: Box)
    requires n.Valid() && i < 4 && n.nodes[i] == c && c.Valid() && Ready(c.model, sub) && InBox(p, sub)
    modifies n.repr
    ensures n.Valid() && fresh(n.repr - old(n.repr))
    ensures n.model == old(n.model).(nodes := old(n.model.nodes)[i := Quadtree.Insert(old(c.model), p, sub)])
    decreases Height(c.model), Splits(sub), Filled(c.model), 1
  {
    hide Height, Splits, InBox, Fits, WellFormed, Ready, Filled, Quadtree.Insert;
    ghost var before := n.model.nodes;
    Insert(c, p, sub);
    n.repr := n.repr + c.repr;
    n.model := n.model.(nodes := before[i := c.model]);
  }

  method BuildTree(points: seq<Pt>, b: Box) returns (root: QuadNode)
    requires forall k :: 0 <= k < |points| ==> InBox(points[k], b)
    ensures root.Valid() && fresh(root.repr)
    ensures root.model == Build(points, b)
  {
    hide InBox, Quadtree.Insert;
    root := new QuadNode();
    for i := 0 to |points|
      invariant root.Valid() && fresh(root.repr)
      invariant root.model == Build(points[..i], b)
    {
      assert points[..i + 1][..i] == points[..i];
      Insert(root, points[i], b);
    }
    assert points[..|points|] == points;
  }
}
