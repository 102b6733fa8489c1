// The charge forces of the force layout over a quadtree. k gives the charge of a point by its
// index: alpha times the charge of the node.
module Force {
  import opened Coordinates
  import opened Quadtree
  import QuadtreeNodes
  import opened Wrappers

  // ---------------------------------------------------------------- the shape of built trees

  // No leaf below is without a point. When tidy, no inner node holds one: no two points coincide.
  ghost predicate Shaped(n: Quad, tidy: bool) {
    n.Node? ==>
      && (n.leaf ==> n.point.Some?) && (tidy && !n.leaf ==> n.point.None?)
      && forall i :: 0 <= i < |n.nodes| ==> Shaped(n.nodes[i], tidy)
  }

  // A count of the points that coincide with p.
  function Near(p: Pt): Pt -> real {
    q => if Coincident(q, p) then 1.0 else 0.0
  }

  lemma {:induction false} TotalNonNegative(f: Pt -> real, n: Quad)
    requires forall q :: f(q) >= 0.0
    ensures Total(f, n) >= 0.0
    decreases n, 1
  {
    if n.Node? {
      PartOfTotal(f, n.nodes);
    }
  }

  lemma {:induction false} PartOfTotal(f: Pt -> real, nodes: seq<Quad>)
    requires forall q :: f(q) >= 0.0
    ensures TotalOf(f, nodes) >= 0.0 && forall i :: 0 <= i < |nodes| ==> 0.0 <= Total(f, nodes[i]) <= TotalOf(f, nodes)
    decreases nodes, 0
  {
    if nodes != [] {
      TotalNonNegative(f, nodes[0]);
      PartOfTotal(f, nodes[1..]);
      forall i | 0 <= i < |nodes| ensures 0.0 <= Total(f, nodes[i]) <= TotalOf(f, nodes) {
        if i > 0 {
          assert nodes[i] == nodes[1..][i - 1];
        }
      }
    }
  }

  predicate IsEmptyLeaf(n: Quad) {
    n.Node? && n.leaf && n.point.None?
  }

  lemma {:induction false} InsertKeepsShape(n: Quad, p: Pt, b: Box, tidy: bool)
    requires Ready(n, b) && InBox(p, b) && (IsEmptyLeaf(n) || Shaped(n, tidy))
    requires tidy ==> Total(Near(p), n) == 0.0
    ensures Shaped(Insert(n, p, b), tidy)
    decreases Height(n), Splits(b), Filled(n), 0
  {
    hide InBox, Quadrant, SubBox, Fits, Coincident;
    if n.leaf && n.point.Some? && !Coincident(n.point.value, p) {
      var v := n.point.value;
      SplitLeaf(n, p, b);
      var split := InsertChild(n.(point := None), v, b);
      SplitIsShaped(n.(point := None), v, b, tidy);
      if tidy {
        InsertChildStores(Near(p), n.(point := None), v, b);
      }
      InsertChildKeepsShape(split, p, b, tidy);
    } else if !n.leaf || n.point.Some? {
      Descends(n, p, b);
      if tidy && n.leaf {
        PartOfTotal(Near(p), n.nodes);
      }
      InsertChildKeepsShape(n, p, b, tidy);
    }
  }

  lemma SplitIsShaped(n: Quad, v: Pt, b: Box, tidy: bool)
    requires Ready(n, b) && InBox(v, b) && IsEmptyLeaf(n)
    ensures Shaped(InsertChild(n, v, b), tidy) && !InsertChild(n, v, b).leaf
  {
    var r := InsertChild(n, v, b);
    var c := EMPTY_LEAF.(point := Some(v));
    assert Shaped(c, tidy);
    assert r == Node(false, None, n.nodes[Quadrant(v, b) := c]);
  }

  lemma {:induction false} InsertChildKeepsShape(n: Quad, p: Pt, b: Box, tidy: bool)
    requires n.Node? && WellFormed(n) && Fits(n, b) && InBox(p, b) && Shaped(n, tidy)
    requires tidy ==> Total(Near(p), n) == 0.0 && n.point.None?
    ensures Shaped(InsertChild(n, p, b), tidy)
    decreases Height(Enter(n, Quadrant(p, b))), Splits(SubBox(b, Quadrant(p, b))), Filled(Enter(n, Quadrant(p, b))), 1
  {
    hide InBox, Quadrant, SubBox, Fits, Coincident, Height, Splits;
    var i := Quadrant(p, b);
    var c := Enter(n, i);
    EnterIsReady(n, b, i);
    PointInQuadrant(p, b);
    if tidy {
      PartOfTotal(Near(p), n.nodes);
      EnterStores(Near(p), n, i);
    }
    InsertKeepsShape(c, p, SubBox(b, i), tidy);
    var nodes := n.nodes[i := Insert(c, p, SubBox(b, i))];
    assert forall j :: 0 <= j < |nodes| ==> Shaped(nodes[j], tidy);
  }

  ghost predicate Apart(points: seq<Pt>) {
    forall i, j :: 0 <= i < j < |points| ==> Abs(points[i].x - points[j].x) + Abs(points[i].y - points[j].y) >= 0.01
  }

  lemma NoneCoincident(points: seq<Pt>)
    requires Apart(points)
    ensures forall i, j :: 0 <= i < j < |points| ==> !Coincident(points[i], points[j])
  {
  }

  lemma {:induction false} NoneNear(points: seq<Pt>, p: Pt)
    requires forall k :: 0 <= k < |points| ==> !Coincident(points[k], p)
    ensures ListTotal(Near(p), points) == 0.0
    decreases |points|
  {
    if points != [] {
      NoneNear(points[..|points| - 1], p);
    }
  }

  lemma {:induction false} BuildIsShaped(points: seq<Pt>, b: Box, tidy: bool)
    requires points != [] && (forall k :: 0 <= k < |points| ==> InBox(points[k], b)) && (tidy ==> Apart(points))
    ensures Shaped(Build(points, b), tidy)
    decreases |points|
  {
    hide InBox, Insert, Coincident;
    var n := |points| - 1;
    var before, p := Build(points[..n], b), points[n];
    if n > 0 {
      BuildIsShaped(points[..n], b, tidy);
    }
    if tidy {
      NoneCoincident(points);
      NoneNear(points[..n], p);
      BuildStores(Near(p), points[..n], b);
    }
    InsertKeepsShape(before, p, b, tidy);
  }

  // ---------------------------------------------------------------- accumulation

  function At(k: nat -> real, i: nat): real {
    k(i)
  }

  function Charge(k: nat -> real): Pt -> real {
    (p: Pt) => At(k, p.index)
  }

  function MomentX(k: nat -> real): Pt -> real {
    (p: Pt) => Product(At(k, p.index), p.x)
  }

  function MomentY(k: nat -> real): Pt -> real {
    (p: Pt) => Product(At(k, p.index), p.y)
  }

  // No node at or below n has charges that cancel out.
  ghost predicate Charging(k: nat -> real, n: Quad) {
    n.Node? ==> Total(Charge(k), n) != 0.0 && forall i :: 0 <= i < |n.nodes| ==> Charging(k, n.nodes[i])
  }

  // The charge-weighted centre: infinite when only the charges at n itself cancel out, and not a number
  // when some below do.
  ghost function Centre(k: nat -> real, moment: Pt -> real, n: Quad): Coordinate
    requires n.Node?
  {
    if AllCharging(k, n.nodes) then Over(Finite(Total(moment, n)), Total(Charge(k), n)) else NaN
  }

  // A node has a centre exactly when nothing at or below it cancels out.
  lemma CentreIsFiniteIff(k: nat -> real, moment: Pt -> real, n: Quad)
    requires n.Node?
    ensures Centre(k, moment, n).Finite? <==> Charging(k, n)
    ensures Charging(k, n) ==> Product(Total(Charge(k), n), Centre(k, moment, n).value) == Total(moment, n)
  {
    hide Total;
    TimesOver(Total(Charge(k), n), Total(moment, n));
  }

  // Points that coincide with others lie on inner nodes; they are moved by the jitter of their index.
  function Moved(p: Pt, jitter: nat -> (real, real)): Pt {
    Pt(p.x + jitter(p.index).0, p.y + jitter(p.index).1, p.index)
  }

  ghost function Jittered(n: Quad, jitter: nat -> (real, real)): Quad {
    if n.Absent? then n
    else
      Node(n.leaf, if !n.leaf && n.point.Some? then Some(Moved(n.point.value, jitter)) else n.point,
           seq(|n.nodes|, i requires 0 <= i < |n.nodes| => Jittered(n.nodes[i], jitter)))
  }

  // Where the point objects are, by their index, once p has been moved.
  function WithPlace(places: seq<Pt>, p: Pt): (t: seq<Pt>)
    ensures |t| == |places|
  {
    if p.index < |places| then places[p.index := p] else places
  }

  function PlacedOwn(leaf: bool, own: Option<Pt>, jitter: nat -> (real, real), places: seq<Pt>): (t: seq<Pt>)
    ensures |t| == |places|
  {
    if !leaf && own.Some? then WithPlace(places, Moved(own.value, jitter)) else places
  }

  // The same after the points on all inner nodes have been moved, those below first.
  ghost function Placed(n: Quad, jitter: nat -> (real, real), places: seq<Pt>): (t: seq<Pt>)
    ensures |t| == |places|
    decreases n, 1
  {
    if n.Absent? then places else PlacedOwn(n.leaf, n.point, jitter, PlacedOf(n.nodes, jitter, places))
  }

  ghost function PlacedOf(nodes: seq<Quad>, jitter: nat -> (real, real), places: seq<Pt>): (t: seq<Pt>)
    ensures |t| == |places|
    decreases nodes, 0
  {
    if nodes == [] then places
    else
      var m := |nodes| - 1;
      Placed(nodes[m], jitter, PlacedOf(nodes[..m], jitter, places))
  }

  lemma PlacedOfNext(nodes: seq<Quad>, i: nat, jitter: nat -> (real, real), places: seq<Pt>)
    requires i < |nodes|
    ensures PlacedOf(nodes[..i + 1], jitter, places) == Placed(nodes[i], jitter, PlacedOf(nodes[..i], jitter, places))
  {
    hide Placed;
    assert nodes[..i + 1][..i] == nodes[..i];
  }

  lemma {:induction false} NoneMoves(nodes: seq<Quad>, jitter: nat -> (real, real), places: seq<Pt>)
    requires forall i :: 0 <= i < |nodes| ==> Placed(nodes[i], jitter, places) == places
    ensures PlacedOf(nodes, jitter, places) == places
    decreases |nodes|
  {
    hide Placed;
    if nodes != [] {
      NoneMoves(nodes[..|nodes| - 1], jitter, places);
    }
  }

  // In a tidy tree nothing moves.
  lemma {:induction false} TidyStays(n: Quad, jitter: nat -> (real, real), places: seq<Pt>)
    requires WellFormed(n) && Shaped(n, true)
    ensures Placed(n, jitter, places) == places
    decreases n
  {
    if n.Node? {
      forall i | 0 <= i < |n.nodes| ensures Placed(n.nodes[i], jitter, places) == places {
        TidyStays(n.nodes[i], jitter, places);
      }
      NoneMoves(n.nodes, jitter, places);
    }
  }

  // ---------------------------------------------------------------- which points are moved

  // The point lies on a node that has children, where only points that coincide with others do.
  ghost predicate OnInner(n: Quad, p: Pt) {
    n.Node? && ((!n.leaf && n.point == Some(p)) || exists i :: 0 <= i < |n.nodes| && OnInner(n.nodes[i], p))
  }

  // Counts the points that are not in the list under their index.
  function Stray(points: seq<Pt>): Pt -> real {
    (p: Pt) => if p.index < |points| && points[p.index] == p then 0.0 else 1.0
  }

  // Every point below is the listed one with its index.
  ghost predicate Listed(n: Quad, points: seq<Pt>) {
    n.Node? ==>
      && (n.point.Some? ==> n.point.value.index < |points| && points[n.point.value.index] == n.point.value)
      && forall i :: 0 <= i < |n.nodes| ==> Listed(n.nodes[i], points)
  }

  lemma {:induction false} NoStrayIsListed(n: Quad, points: seq<Pt>)
    requires Total(Stray(points), n) == 0.0
    ensures Listed(n, points)
    decreases n
  {
    if n.Node? {
      PartOfTotal(Stray(points), n.nodes);
      forall i | 0 <= i < |n.nodes| ensures Listed(n.nodes[i], points) {
        NoStrayIsListed(n.nodes[i], points);
      }
    }
  }

  lemma {:induction false} NoneStray(points: seq<Pt>, all: seq<Pt>)
    requires forall i :: 0 <= i < |points| ==> points[i].index < |all| && all[points[i].index] == points[i]
    ensures ListTotal(Stray(all), points) == 0.0
    decreases |points|
  {
    if points != [] {
      NoneStray(points[..|points| - 1], all);
    }
  }

  lemma {:induction false} MovedBelow(n: Quad, points: seq<Pt>, jitter: nat -> (real, real), places: seq<Pt>, i: nat)
    requires Listed(n, points) && |places| == |points| && i < |points| && points[i].index == i
    ensures Placed(n, jitter, places)[i] == if OnInner(n, points[i]) then Moved(points[i], jitter) else places[i]
    decreases n, 1
  {
    if n.Node? {
      MovedIn(n.nodes, points, jitter, places, i);
    }
  }

  lemma {:induction false} MovedIn(nodes: seq<Quad>, points: seq<Pt>, jitter: nat -> (real, real), places: seq<Pt>, i: nat)
    requires (forall j :: 0 <= j < |nodes| ==> Listed(nodes[j], points)) && |places| == |points| && i < |points| && points[i].index == i
    ensures PlacedOf(nodes, jitter, places)[i]
      == if exists j :: 0 <= j < |nodes| && OnInner(nodes[j], points[i]) then Moved(points[i], jitter) else places[i]
    decreases nodes, 0
  {
    hide Placed, OnInner, Listed, Moved;
    if nodes != [] {
      var m := |nodes| - 1;
      MovedIn(nodes[..m], points, jitter, places, i);
      MovedBelow(nodes[m], points, jitter, PlacedOf(nodes[..m], jitter, places), i);
      assert forall j :: 0 <= j < m ==> nodes[..m][j] == nodes[j];
    }
  }

  // A tick moves exactly the points that lie on inner nodes, each by the jitter of its own index.
  lemma JitterMoves(points: seq<Pt>, b: Box, jitter: nat -> (real, real), i: nat)
    requires forall j :: 0 <= j < |points| ==> InBox(points[j], b) && points[j].index == j
    requires i < |points|
    ensures var q := Placed(Build(points, b), jitter, points)[i];
      if OnInner(Build(points, b), points[i]) then
        q.index == i && q.x - points[i].x == jitter(i).0 && q.y - points[i].y == jitter(i).1
      else q == points[i]
  {
    hide InBox, Build, OnInner, Placed, Listed;
    BuildStores(Stray(points), points, b);
    NoneStray(points, points);
    NoStrayIsListed(Build(points, b), points);
    MovedBelow(Build(points, b), points, jitter, points, i);
  }

  // Of two points less than .01 apart the first stays on the node and is moved; further apart, and in a
  // cell that parts them, neither is.
  lemma NearPairIsMoved(p: Pt, q: Pt, b: Box)
    requires InBox(p, b) && InBox(q, b) && Abs(q.x - p.x) + Abs(q.y - p.y) < 0.01 && p != q
    ensures Build([p, q], b).point == Some(p) && OnInner(Build([p, q], b), p) && !OnInner(Build([p, q], b), q)
  {
    assert [p, q][..1] == [p] && [p][..0] == [];
    var one := EMPTY_LEAF.(point := Some(p));
    OneIsBuilt(p, b);
    assert Coincident(p, q);
    assert Build([p, q], b) == InsertChild(one, q, b);
    var leaf := EMPTY_LEAF.(point := Some(q));
    assert InsertChild(one, q, b) == Node(false, Some(p), NO_NODES[Quadrant(q, b) := leaf]);
    hide Build, Insert, InsertChild, Quadrant, InBox;
    assert !OnInner(leaf, q);
    assert !OnInner(Absent, q);
  }

  lemma ApartStays(points: seq<Pt>, b: Box, i: nat)
    requires forall j :: 0 <= j < |points| ==> InBox(points[j], b)
    requires Apart(points) && i < |points|
    ensures !OnInner(Build(points, b), points[i])
  {
    hide InBox, Apart, OnInner;
    BuildIsShaped(points, b, true);
    TidyHoldsNone(Build(points, b), points[i]);
  }

  lemma {:induction false} TidyHoldsNone(n: Quad, p: Pt)
    requires Shaped(n, true)
    ensures !OnInner(n, p)
  {
    if n.Node? {
      forall i | 0 <= i < |n.nodes| ensures !OnInner(n.nodes[i], p) {
        TidyHoldsNone(n.nodes[i], p);
      }
    }
  }

  ghost predicate OwnCharged(k: nat -> real, n: QuadtreeNodes.QuadNode)
    requires n.model.Node?
    reads n
  {
    && n.charge == Total(Charge(k), n.model)
    && (n.model.point.Some? ==> n.pointCharge == At(k, n.model.point.value.index))
    && n.cx == Centre(k, MomentX(k), n.model) && n.cy == Centre(k, MomentY(k), n.model)
  }

  // Every node object holds the charge and the centre of the points at and below it.
  ghost predicate Charged(k: nat -> real, n: QuadtreeNodes.QuadNode)
    requires n.Valid()
    reads n, n.repr
    decreases n.repr
  {
    && OwnCharged(k, n)
    && forall i :: 0 <= i < 4 && n.nodes[i] != null ==> Charged(k, n.nodes[i])
  }

  lemma {:induction false} TotalOfLast(f: Pt -> real, nodes: seq<Quad>, last: Quad)
    ensures TotalOf(f, nodes + [last]) == TotalOf(f, nodes) + Total(f, last)
    decreases |nodes|
  {
    hide Total;
    if nodes == [] {
      assert [last][1..] == [];
    } else {
      assert (nodes + [last])[1..] == nodes[1..] + [last];
      TotalOfLast(f, nodes[1..], last);
    }
  }

  lemma NothingTotal(f: Pt -> real)
    ensures Total(f, Absent) == 0.0
  {
  }

  ghost predicate AllCharging(k: nat -> real, nodes: seq<Quad>) {
    forall i :: 0 <= i < |nodes| ==> Charging(k, nodes[i])
  }

  // The running sum over the children.
  ghost function Summed(k: nat -> real, moment: Pt -> real, nodes: seq<Quad>): Coordinate {
    if AllCharging(k, nodes) then Finite(TotalOf(moment, nodes)) else NaN
  }

  lemma SummedLast(k: nat -> real, moment: Pt -> real, nodes: seq<Quad>, c: Quad)
    ensures Summed(k, moment, nodes + [c])
      == if c.Absent? then Summed(k, moment, nodes) else Plus(Summed(k, moment, nodes), Times(Total(Charge(k), c), Centre(k, moment, c)))
  {
    hide Total, TotalOf, Times, Over;
    TotalOfLast(moment, nodes, c);
    var all := nodes + [c];
    assert all[|nodes|] == c && forall i :: 0 <= i < |nodes| ==> all[i] == nodes[i];
    if c.Absent? {
      assert c == Absent;
      NothingTotal(moment);
    } else {
      TimesOver(Total(Charge(k), c), Total(moment, c));
      TimesNothing(Total(Charge(k), c));
    }
  }

  // The product restores the dividend, unless it was divided by zero.
  lemma TimesOver(x: real, m: real)
    ensures Times(x, Over(Finite(m), x)) == if x != 0.0 then Finite(m) else NaN
  {
    if x != 0.0 {
      assert Product(x, Quotient(m, x)) == m;
    }
  }

  lemma TimesNothing(x: real)
    ensures Times(x, NaN) == NaN
  {
  }

  lemma OverTimes(x: real, a: real, m: real)
    requires x != 0.0 && m == Product(x, a)
    ensures Over(Finite(m), x) == Finite(a)
  {
    assert Quotient(m, x) == a;
  }

  // A sum with a node's own point added to it.
  ghost function WithOwn(moment: Pt -> real, sum: Coordinate, own: Option<Pt>): Coordinate {
    if own.Some? then Plus(sum, Finite(moment(own.value))) else sum
  }

  lemma OwnMoment(k: nat -> real, p: Pt, charge: real, sumX: Coordinate, sumY: Coordinate)
    requires charge == At(k, p.index)
    ensures WithOwn(MomentX(k), sumX, Some(p)) == Plus(sumX, Times(charge, Finite(p.x)))
    ensures WithOwn(MomentY(k), sumY, Some(p)) == Plus(sumY, Times(charge, Finite(p.y)))
  {
    hide Product;
  }

  lemma NoOwnMoment(k: nat -> real, sumX: Coordinate, sumY: Coordinate)
    ensures WithOwn(MomentX(k), sumX, None) == sumX && WithOwn(MomentY(k), sumY, None) == sumY
  {
  }

  // The sums at a node are complete once its own point is added.
  lemma CentreIs(k: nat -> real, n: Quad, sumX: Coordinate, sumY: Coordinate)
    requires n.Node? && sumX == Summed(k, MomentX(k), n.nodes) && sumY == Summed(k, MomentY(k), n.nodes)
    ensures Total(Charge(k), n) == TotalOf(Charge(k), n.nodes) + if n.point.Some? then At(k, n.point.value.index) else 0.0
    ensures Over(WithOwn(MomentX(k), sumX, n.point), Total(Charge(k), n)) == Centre(k, MomentX(k), n)
    ensures Over(WithOwn(MomentY(k), sumY, n.point), Total(Charge(k), n)) == Centre(k, MomentY(k), n)
  {
    hide TotalOf;
  }

  lemma SumsStep(k: nat -> real, nodes: seq<Quad>, i: nat)
    requires i < |nodes|
    ensures var done, c := nodes[..i], nodes[i];
      if c.Absent? then
        && TotalOf(Charge(k), nodes[..i + 1]) == TotalOf(Charge(k), done)
        && Summed(k, MomentX(k), nodes[..i + 1]) == Summed(k, MomentX(k), done)
        && Summed(k, MomentY(k), nodes[..i + 1]) == Summed(k, MomentY(k), done)
      else
        && TotalOf(Charge(k), nodes[..i + 1]) == TotalOf(Charge(k), done) + Total(Charge(k), c)
        && Summed(k, MomentX(k), nodes[..i + 1]) == Plus(Summed(k, MomentX(k), done), Times(Total(Charge(k), c), Centre(k, MomentX(k), c)))
        && Summed(k, MomentY(k), nodes[..i + 1]) == Plus(Summed(k, MomentY(k), done), Times(Total(Charge(k), c), Centre(k, MomentY(k), c)))
  {
    hide Summed, Centre, TotalOf;
    assert nodes[..i + 1] == nodes[..i] + [nodes[i]];
    TotalOfLast(Charge(k), nodes[..i], nodes[i]);
    SummedLast(k, MomentX(k), nodes[..i], nodes[i]);
    SummedLast(k, MomentY(k), nodes[..i], nodes[i]);
  }

  lemma NoSums(k: nat -> real, nodes: seq<Quad>)
    requires forall i :: 0 <= i < |nodes| ==> nodes[i].Absent?
    ensures TotalOf(Charge(k), nodes) == 0.0
    ensures Summed(k, MomentX(k), nodes) == Finite(0.0) == Summed(k, MomentY(k), nodes)
  {
    NoTotal(Charge(k), nodes);
    NoTotal(MomentX(k), nodes);
    NoTotal(MomentY(k), nodes);
  }

  lemma {:induction false} NoTotal(f: Pt -> real, nodes: seq<Quad>)
    requires forall i :: 0 <= i < |nodes| ==> nodes[i].Absent?
    ensures TotalOf(f, nodes) == 0.0
  {
    if nodes != [] {
      NoTotal(f, nodes[1..]);
    }
  }

  // In a tidy tree there is nothing to jitter.
  lemma {:induction false} NothingJittered(n: Quad, jitter: nat -> (real, real))
    requires WellFormed(n) && Shaped(n, true)
    ensures Jittered(n, jitter) == n
  {
    if n.Node? {
      forall i | 0 <= i < |n.nodes| ensures Jittered(n.nodes[i], jitter) == n.nodes[i] {
        NothingJittered(n.nodes[i], jitter);
      }
    }
  }

  lemma JitteredIs(before: Quad, after: Quad, jitter: nat -> (real, real))
    requires before.Node? && after.Node? && after.leaf == before.leaf && |after.nodes| == |before.nodes|
    requires after.point == if !before.leaf && before.point.Some? then Some(Moved(before.point.value, jitter)) else before.point
    requires forall j :: 0 <= j < |before.nodes| ==> after.nodes[j] == Jittered(before.nodes[j], jitter)
    ensures after == Jittered(before, jitter)
  {
  }

  // The first i children are done: charged, and added to the sums.
  ghost predicate Partly(k: nat -> real, n: QuadtreeNodes.QuadNode, i: nat, cx: Coordinate, cy: Coordinate)
    requires n.Valid() && i <= 4
    reads n, n.repr
  {
    && (forall j :: 0 <= j < i && n.nodes[j] != null ==> Charged(k, n.nodes[j]))
    && n.charge == TotalOf(Charge(k), n.model.nodes[..i])
    && cx == Summed(k, MomentX(k), n.model.nodes[..i]) && cy == Summed(k, MomentY(k), n.model.nodes[..i])
  }

  // The charges of a tree. Points on inner nodes coincide with others and are moved; places says where
  // every point is.
  method ForceAccumulate(n: QuadtreeNodes.QuadNode, k: nat -> real, jitter: nat -> (real, real), places: seq<Pt>) returns (after: seq<Pt>)
    requires n.Valid() && WellFormed(n.model)
    modifies n.repr
    ensures n.Valid() && n.repr == old(n.repr) && n.model == Jittered(old(n.model), jitter)
    ensures Charged(k, n) && after == Placed(old(n.model), jitter, places)
    decreases n.repr, 1
  {
    hide WellFormed, Jittered, Partly, Charged, OwnCharged, Total, TotalOf, Summed, Centre, PlacedOf, PlacedOwn;
    n.SetCharges(0.0, n.pointCharge);
    var cx, cy;
    cx, cy, after := AccumulateChildren(n, k, jitter, places);
    PartlyCharged(n, k, cx, cy);
    after := AccumulatePoint(n, k, jitter, cx, cy, after);
    AllCharged(n, k);
    JitteredIs(old(n.model), n.model, jitter);
  }

  // The first half: the sums over the children, when there are any.
  method AccumulateChildren(n: QuadtreeNodes.QuadNode, k: nat -> real, jitter: nat -> (real, real), places: seq<Pt>)
      returns (cx: Coordinate, cy: Coordinate, after: seq<Pt>)
    requires n.Valid() && WellFormed(n.model) && n.charge == 0.0
    modifies n.repr
    ensures n.Valid() && n.repr == old(n.repr) && n.leaf == old(n.leaf) && n.point == old(n.point) && n.nodes == old(n.nodes)
    ensures forall j :: 0 <= j < 4 ==> n.model.nodes[j] == Jittered(old(n.model.nodes[j]), jitter)
    ensures Partly(k, n, 4, cx, cy) && after == PlacedOf(old(n.model.nodes), jitter, places)
    decreases n.repr, 0, 2
  {
    hide WellFormed, Jittered, Partly, Charged, OwnCharged, Total, TotalOf, Summed, Centre, Placed, PlacedOf;
    cx, cy, after := Finite(0.0), Finite(0.0), places;
    ghost var before := n.model.nodes;
    NothingPlaced(before, jitter, places);
    NoneYet(n, k);
    if !n.leaf {
      for i := 0 to 4
        invariant n.Valid() && n.repr == old(n.repr) && n.leaf == old(n.leaf) && n.point == old(n.point) && n.nodes == old(n.nodes)
        invariant forall j :: 0 <= j < i ==> n.model.nodes[j] == Jittered(old(n.model.nodes[j]), jitter)
        invariant forall j :: i <= j < 4 ==> n.model.nodes[j] == old(n.model.nodes[j])
        invariant Partly(k, n, i, cx, cy) && after == PlacedOf(before[..i], jitter, places)
      {
        PlacedOfNext(before, i, jitter, places);
        var c := n.nodes[i];
        if c == null {
          AbsentChild(n, k, jitter, i, cx, cy);
          AbsentStays(jitter, after);
          continue;
        }
        ChildIsWellFormed(old(n.model), i);
        cx, cy, after := AccumulateChild(n, i, c, k, jitter, cx, cy, after);
      }
      assert before[..4] == before;
    } else {
      LeafIsDone(n, k, jitter);
      LeafStays(n.model, jitter, places);
    }
  }

  lemma NothingPlaced(nodes: seq<Quad>, jitter: nat -> (real, real), places: seq<Pt>)
    ensures PlacedOf(nodes[..0], jitter, places) == places
  {
  }

  lemma AbsentStays(jitter: nat -> (real, real), places: seq<Pt>)
    ensures Placed(Absent, jitter, places) == places
  {
  }

  lemma LeafStays(n: Quad, jitter: nat -> (real, real), places: seq<Pt>)
    requires n.Node? && n.leaf && WellFormed(n)
    ensures PlacedOf(n.nodes, jitter, places) == places
  {
    NoneMoves(n.nodes, jitter, places);
  }

  lemma ChildIsWellFormed(n: Quad, i: nat)
    requires n.Node? && WellFormed(n) && i < 4
    ensures WellFormed(n.nodes[i])
  {
  }

  lemma NoneYet(n: QuadtreeNodes.QuadNode, k: nat -> real)
    requires n.Valid() && n.charge == 0.0
    ensures Partly(k, n, 0, Finite(0.0), Finite(0.0))
  {
    NoSums(k, n.model.nodes[..0]);
  }

  lemma AbsentChild(n: QuadtreeNodes.QuadNode, k: nat -> real, jitter: nat -> (real, real), i: nat, cx: Coordinate, cy: Coordinate)
    requires n.Valid() && i < 4 && n.nodes[i] == null && Partly(k, n, i, cx, cy)
    ensures Partly(k, n, i + 1, cx, cy) && n.model.nodes[i] == Jittered(n.model.nodes[i], jitter)
  {
    hide Summed, TotalOf, Charged;
    SumsStep(k, n.model.nodes, i);
  }

  lemma LeafIsDone(n: QuadtreeNodes.QuadNode, k: nat -> real, jitter: nat -> (real, real))
    requires n.Valid() && WellFormed(n.model) && n.leaf && n.charge == 0.0
    ensures Partly(k, n, 4, Finite(0.0), Finite(0.0))
    ensures forall j :: 0 <= j < 4 ==> Jittered(n.model.nodes[j], jitter) == n.model.nodes[j]
  {
    hide Charged, Summed;
    assert n.model.nodes[..4] == n.model.nodes;
    NoSums(k, n.model.nodes);
    assert forall j :: 0 <= j < 4 ==> n.nodes[j] != null ==> !n.model.nodes[j].Absent?;
  }

  lemma AddChild(n: QuadtreeNodes.QuadNode, i: nat, c: QuadtreeNodes.QuadNode, k: nat -> real, cx: Coordinate, cy: Coordinate)
    requires n.Valid() && i < 4 && n.nodes[i] == c && Charged(k, c) && Partly(k, n, i, cx, cy)
    ensures n.charge + c.charge == TotalOf(Charge(k), n.model.nodes[..i + 1])
    ensures Plus(cx, Times(c.charge, c.cx)) == Summed(k, MomentX(k), n.model.nodes[..i + 1])
    ensures Plus(cy, Times(c.charge, c.cy)) == Summed(k, MomentY(k), n.model.nodes[..i + 1])
  {
    hide Total, TotalOf, Summed, Centre, Plus, Times, Charge, MomentX, MomentY;
    SumsStep(k, n.model.nodes, i);
  }

  // Charges child c and adds its charge and moments to the sums. The other fields of n do not change.
  method AccumulateChild(n: QuadtreeNodes.QuadNode, i: nat, c: QuadtreeNodes.QuadNode, k: nat -> real, jitter: nat -> (real, real),
                         cx: Coordinate, cy: Coordinate, places: seq<Pt>) returns (sumX: Coordinate, sumY: Coordinate, after: seq<Pt>)
    requires n.Valid() && i < 4 && n.nodes[i] == c && WellFormed(n.model.nodes[i]) && Partly(k, n, i, cx, cy)
    modifies n.repr
    ensures n.Valid() && n.repr == old(n.repr) && n.leaf == old(n.leaf) && n.point == old(n.point) && n.nodes == old(n.nodes)
    ensures n.model == old(n.model).(nodes := old(n.model.nodes)[i := Jittered(old(n.model.nodes[i]), jitter)])
    ensures Partly(k, n, i + 1, sumX, sumY) && after == Placed(old(n.model.nodes[i]), jitter, places)
    decreases n.repr, 0, 1
  {
    hide WellFormed, Jittered, Partly, Charged, Plus, Times, Placed;
    after := ChargeChild(n, i, c, k, jitter, cx, cy, places);
    AddChild(n, i, c, k, cx, cy);
    sumX := Plus(cx, Times(c.charge, c.cx));
    sumY := Plus(cy, Times(c.charge, c.cy));
    n.SetCharges(n.charge + c.charge, n.pointCharge);
    PartlyNext(n, i, c, k, sumX, sumY);
  }

  lemma PartlyNext(n: QuadtreeNodes.QuadNode, i: nat, c: QuadtreeNodes.QuadNode, k: nat -> real, sumX: Coordinate, sumY: Coordinate)
    requires n.Valid() && i < 4 && n.nodes[i] == c && Charged(k, c)
    requires forall j :: 0 <= j < i && n.nodes[j] != null ==> Charged(k, n.nodes[j])
    requires n.charge == TotalOf(Charge(k), n.model.nodes[..i + 1])
    requires sumX == Summed(k, MomentX(k), n.model.nodes[..i + 1]) && sumY == Summed(k, MomentY(k), n.model.nodes[..i + 1])
    ensures Partly(k, n, i + 1, sumX, sumY)
  {
    hide Charged, TotalOf, Summed;
  }

  // The recursive call; nothing but child i and what is below it changes.
  method ChargeChild(n: QuadtreeNodes.QuadNode, i: nat, c: QuadtreeNodes.QuadNode, k: nat -> real, jitter: nat -> (real, real),
                     ghost cx: Coordinate, ghost cy: Coordinate, places: seq<Pt>) returns (after: seq<Pt>)
    requires n.Valid() && i < 4 && n.nodes[i] == c && WellFormed(n.model.nodes[i]) && Partly(k, n, i, cx, cy)
    modifies n.repr
    ensures n.Valid() && n.repr == old(n.repr) && n.leaf == old(n.leaf) && n.point == old(n.point) && n.nodes == old(n.nodes)
    ensures n.model == old(n.model).(nodes := old(n.model.nodes)[i := Jittered(old(n.model.nodes[i]), jitter)])
    ensures Partly(k, n, i, cx, cy) && Charged(k, c)
    ensures forall j :: 0 <= j < i && n.nodes[j] != null ==> Charged(k, n.nodes[j])
    ensures after == Placed(old(n.model.nodes[i]), jitter, places)
    decreases n.repr, 0, 0
  {
    hide WellFormed, Jittered, TotalOf, Summed, Charged, Placed;
    ghost var before := n.model.nodes;
    after := ForceAccumulate(c, k, jitter, places);
    n.model := n.model.(nodes := before[i := c.model]);
    assert n.model.nodes[..i] == before[..i];
  }

  lemma PointsAgree(n: QuadtreeNodes.QuadNode)
    requires n.Valid()
    ensures n.model.Node? && n.model.point == n.point && n.model.leaf == n.leaf
  {
  }

  lemma PartlySums(n: QuadtreeNodes.QuadNode, k: nat -> real, sumX: Coordinate, sumY: Coordinate)
    requires n.Valid() && Partly(k, n, 4, sumX, sumY)
    ensures n.charge == TotalOf(Charge(k), n.model.nodes)
    ensures sumX == Summed(k, MomentX(k), n.model.nodes) && sumY == Summed(k, MomentY(k), n.model.nodes)
  {
    hide TotalOf, Summed, Charged;
    assert n.model.nodes[..4] == n.model.nodes;
  }

  lemma PartlyCharged(n: QuadtreeNodes.QuadNode, k: nat -> real, sumX: Coordinate, sumY: Coordinate)
    requires n.Valid() && Partly(k, n, 4, sumX, sumY)
    ensures forall i :: 0 <= i < 4 && n.nodes[i] != null ==> Charged(k, n.nodes[i])
  {
    hide TotalOf, Summed, Charged;
  }

  lemma AllCharged(n: QuadtreeNodes.QuadNode, k: nat -> real)
    requires n.Valid() && OwnCharged(k, n) && forall i :: 0 <= i < 4 && n.nodes[i] != null ==> Charged(k, n.nodes[i])
    ensures Charged(k, n)
  {
    hide OwnCharged;
  }

  // Adds the node's own point to the sums and sets the centre.
  method AccumulatePoint(n: QuadtreeNodes.QuadNode, k: nat -> real, jitter: nat -> (real, real), sumX: Coordinate, sumY: Coordinate,
                         places: seq<Pt>) returns (after: seq<Pt>)
    requires n.Valid() && Partly(k, n, 4, sumX, sumY)
    modifies n`point, n`model, n`charge, n`pointCharge, n`cx, n`cy
    ensures n.Valid() && OwnCharged(k, n)
    ensures n.model == old(n.model).(point := if !n.leaf && old(n.point).Some? then Some(Moved(old(n.point).value, jitter)) else old(n.point))
    ensures after == PlacedOwn(n.leaf, old(n.point), jitter, places)
  {
    PartlySums(n, k, sumX, sumY);
    hide Total, TotalOf, Summed, Centre, Partly, Charge, MomentX, MomentY, Plus, Times, Over, At, Moved, WithOwn, PlacedOwn;
    PointsAgree(n);
    hide QuadtreeNodes.QuadNode.Valid;
    var cx, cy := sumX, sumY;
    after := PlacedOwn(n.leaf, n.point, jitter, places);
    if n.point.Some? {
      if !n.leaf {
        n.SetPoint(Some(Moved(n.point.value, jitter)));
      }
      var p := n.point.value;
      var own := At(k, p.index);
      n.SetCharges(n.charge + own, own);
      cx := Plus(cx, Times(own, Finite(p.x)));
      cy := Plus(cy, Times(own, Finite(p.y)));
      OwnMoment(k, p, own, sumX, sumY);
      assert n.model.point == Some(p);
    } else {
      NoOwnMoment(k, sumX, sumY);
    }
    assert cx == WithOwn(MomentX(k), sumX, n.model.point) && cy == WithOwn(MomentY(k), sumY, n.model.point);
    n.SetCentre(Over(cx, n.charge), Over(cy, n.charge));
    CentreIs(k, n.model, sumX, sumY);
  }

  // ---------------------------------------------------------------- repulsion

  // The previous position of the node, which is where forces are applied; Lost once it is not a number.
  datatype Previous = Previous(px: real, py: real) | Lost

  function Square(dx: real, dy: real): real {
    dx * dx + dy * dy
  }

  // The part along d of the force of a charge; none at distance zero.
  function ForcePart(d: real, charge: real, square: real): real {
    if square == 0.0 then 0.0 else d * (charge / square)
  }

  function Push(s: Previous, dx: real, dy: real, charge: real): Previous {
    Pulled(s, ForcePart(dx, charge, Square(dx, dy)), ForcePart(dy, charge, Square(dx, dy)))
  }

  function Pulled(s: Previous, x: real, y: real): Previous {
    if s.Lost? then Lost else Previous(s.px - x, s.py - y)
  }

  // The width of the cell over the distance is below theta.
  predicate FarEnough(b: Box, dx: real, dy: real, theta: real) {
    theta > 0.0 && Square(dx, dy) != 0.0 && (b.x2 - b.x1) * (b.x2 - b.x1) < theta * theta * Square(dx, dy)
  }

  // What visiting a charged node does: push with all its charge at once when it is far enough, else with
  // the charge of its own point. The children are skipped in the first case, and when there is no charge.
  // From an infinite centre, zero times infinity is taken off the position.
  function Pushed(node: Pt, theta: real, s: Previous, point: Option<Pt>, charge: real, pointCharge: real, cx: Coordinate, cy: Coordinate, b: Box): (Previous, bool) {
    if point == Some(node) || cx.NaN? || cy.NaN? then (s, charge == 0.0)
    else if cx.Infinite? || cy.Infinite? then
      if theta > 0.0 then (Lost, true) else (if point.Some? then Lost else s, charge == 0.0)
    else
      var dx, dy := cx.value - node.x, cy.value - node.y;
      if FarEnough(b, dx, dy, theta) then (Push(s, dx, dy, charge), true)
      else (if point.Some? && Square(dx, dy) != 0.0 then Push(s, dx, dy, pointCharge) else s, charge == 0.0)
  }

  ghost function Repulse(k: nat -> real, node: Pt, theta: real): (Previous, Quad, Box) -> (Previous, bool) {
    (s: Previous, n: Quad, b: Box) =>
      if n.Absent? then (s, true)
      else
        var pointCharge := if n.point.Some? then At(k, n.point.value.index) else 0.0;
        Pushed(node, theta, s, n.point, Total(Charge(k), n), pointCharge, Centre(k, MomentX(k), n), Centre(k, MomentY(k), n), b)
  }

  // Whether the visit meets an infinite centre. Below a node without charge it does not go on, and
  // with theta 0 only a node with a point of its own is asked for its distance.
  ghost predicate LosesBelow(k: nat -> real, node: Pt, theta: real, n: Quad) {
    n.Node? &&
    if AllCharging(k, n.nodes) then LosesAt(k, node, theta, n)
    else Total(Charge(k), n) != 0.0 && exists i :: 0 <= i < |n.nodes| && LosesBelow(k, node, theta, n.nodes[i])
  }

  // The charges at n cancel out, but the moments do not in either direction.
  ghost predicate LosesAt(k: nat -> real, node: Pt, theta: real, n: Quad)
    requires n.Node?
  {
    && n.point != Some(node) && (theta > 0.0 || n.point.Some?)
    && Total(Charge(k), n) == 0.0 && Total(MomentX(k), n) != 0.0 && Total(MomentY(k), n) != 0.0
  }

  lemma {:induction false} ChargingLosesNot(k: nat -> real, node: Pt, theta: real, n: Quad)
    requires Charging(k, n)
    ensures !LosesBelow(k, node, theta, n)
  {
    hide Total;
  }

  // What one step of the visit does to the position.
  lemma StepLosesIff(k: nat -> real, node: Pt, theta: real, s: Previous, n: Quad, b: Box)
    requires n.Node?
    ensures var (t, skip) := Repulse(k, node, theta)(s, n, b);
      && (t == Lost <==> s == Lost || (AllCharging(k, n.nodes) && LosesAt(k, node, theta, n)))
      && (Total(Charge(k), n) == 0.0 ==> skip)
      && (!AllCharging(k, n.nodes) && Total(Charge(k), n) != 0.0 ==> !skip)
  {
    hide Total, AllCharging, FarEnough, Square, ForcePart;
    forall charge, dx, dy ensures Push(s, dx, dy, charge) == Lost <==> s == Lost {
    }
  }

  // For every tree, theta and cell: the visit makes the position NaN exactly when it meets such a node.
  lemma {:induction false} VisitLosesIff(k: nat -> real, node: Pt, theta: real, s: Previous, n: Quad, b: Box)
    requires WellFormed(n)
    ensures Visit(Repulse(k, node, theta), s, n, b) == Lost <==> s == Lost || LosesBelow(k, node, theta, n)
    decreases n, 1
  {
    hide Repulse, Total, LosesAt;
    if n.Node? {
      var f := Repulse(k, node, theta);
      var (t, skip) := f(s, n, b);
      StepLosesIff(k, node, theta, s, n, b);
      VisitFromLosesIff(k, node, theta, t, n.nodes, b, 0);
      if AllCharging(k, n.nodes) {
        forall i | 0 <= i < |n.nodes| ensures !LosesBelow(k, node, theta, n.nodes[i]) {
          ChargingLosesNot(k, node, theta, n.nodes[i]);
        }
      }
    }
  }

  lemma {:induction false} VisitFromLosesIff(k: nat -> real, node: Pt, theta: real, s: Previous, nodes: seq<Quad>, b: Box, i: nat)
    requires i + |nodes| == 4 && forall j :: 0 <= j < |nodes| ==> WellFormed(nodes[j])
    ensures VisitFrom(Repulse(k, node, theta), s, nodes, b, i) == Lost
      <==> s == Lost || exists j :: 0 <= j < |nodes| && LosesBelow(k, node, theta, nodes[j])
    decreases nodes, 0
  {
    hide Repulse, SubBox, LosesBelow, WellFormed, Visit;
    if nodes != [] {
      VisitLosesIff(k, node, theta, s, nodes[0], SubBox(b, i));
      VisitFromLosesIff(k, node, theta, Visit(Repulse(k, node, theta), s, nodes[0], SubBox(b, i)), nodes[1..], b, i + 1);
      assert forall j :: 0 < j < |nodes| ==> nodes[j] == nodes[1..][j - 1];
      assert forall j :: 0 <= j < |nodes| - 1 ==> nodes[1..][j] == nodes[j + 1];
    }
  }

  // The force between node and one other point; none on the node itself, nor from its very place.
  function PairX(k: nat -> real, node: Pt): Pt -> real {
    (q: Pt) => ForcePart(q.x - node.x, At(k, q.index), Square(q.x - node.x, q.y - node.y))
  }

  function PairY(k: nat -> real, node: Pt): Pt -> real {
    (q: Pt) => ForcePart(q.y - node.y, At(k, q.index), Square(q.x - node.x, q.y - node.y))
  }

  ghost predicate SameSign(k: nat -> real) {
    (forall i: nat :: At(k, i) > 0.0) || (forall i: nat :: At(k, i) < 0.0)
  }

  // At no inner node do the charges cancel out; single points may be without charge.
  ghost predicate NoneCancels(k: nat -> real, n: Quad) {
    n.Node? && !n.leaf ==> Total(Charge(k), n) != 0.0 && forall i :: 0 <= i < |n.nodes| ==> NoneCancels(k, n.nodes[i])
  }

  lemma {:induction false} ChargingNoneCancels(k: nat -> real, n: Quad)
    requires Charging(k, n)
    ensures NoneCancels(k, n)
  {
    hide Total;
    if n.Node? {
      forall i | 0 <= i < |n.nodes| ensures NoneCancels(k, n.nodes[i]) {
        ChargingNoneCancels(k, n.nodes[i]);
      }
    }
  }

  // With charges of one sign nothing cancels out.
  lemma {:induction false} SameSignCharges(k: nat -> real, n: Quad)
    requires SameSign(k) && WellFormed(n) && Shaped(n, true)
    ensures Charging(k, n)
    ensures n.Node? && At(k, 0) > 0.0 ==> Total(Charge(k), n) > 0.0
    ensures n.Node? && At(k, 0) < 0.0 ==> Total(Charge(k), n) < 0.0
    ensures n.Absent? ==> Total(Charge(k), n) == 0.0
  {
    if n.Node? {
      var a, b, c, d := n.nodes[0], n.nodes[1], n.nodes[2], n.nodes[3];
      SameSignCharges(k, a);
      SameSignCharges(k, b);
      SameSignCharges(k, c);
      SameSignCharges(k, d);
      FourChildren(Charge(k), n.nodes);
      assert At(k, 0) > 0.0 || At(k, 0) < 0.0;
    }
  }

  lemma FourChildren(f: Pt -> real, nodes: seq<Quad>)
    requires |nodes| == 4
    ensures TotalOf(f, nodes) == Total(f, nodes[0]) + Total(f, nodes[1]) + Total(f, nodes[2]) + Total(f, nodes[3])
  {
    hide Total;
    assert nodes[1..][0] == nodes[1] && nodes[1..][1..] == nodes[2..] && nodes[2..][0] == nodes[2] && nodes[2..][1..] == nodes[3..]
      && nodes[3..][0] == nodes[3] && nodes[3..][1..] == [];
    assert TotalOf(f, nodes[3..]) == Total(f, nodes[3]) + TotalOf(f, []);
    assert TotalOf(f, nodes[2..]) == Total(f, nodes[2]) + TotalOf(f, nodes[3..]);
    assert TotalOf(f, nodes[1..]) == Total(f, nodes[1]) + TotalOf(f, nodes[2..]);
  }

  // A charged leaf's centre is its point; one without charge has none.
  lemma LeafCentre(k: nat -> real, n: Quad, charge: real)
    requires WellFormed(n) && n.Node? && n.leaf && n.point.Some? && charge == At(k, n.point.value.index)
    ensures Total(Charge(k), n) == charge
    ensures charge != 0.0 ==>
      Centre(k, MomentX(k), n) == Finite(n.point.value.x) && Centre(k, MomentY(k), n) == Finite(n.point.value.y)
    ensures charge == 0.0 ==> Centre(k, MomentX(k), n) == NaN == Centre(k, MomentY(k), n)
  {
    var p := n.point.value;
    NoTotal(Charge(k), n.nodes);
    NoTotal(MomentX(k), n.nodes);
    NoTotal(MomentY(k), n.nodes);
    if charge != 0.0 {
      OverTimes(charge, p.x, Product(charge, p.x));
      OverTimes(charge, p.y, Product(charge, p.y));
    } else {
      assert Product(charge, p.x) == 0.0 == Product(charge, p.y);
    }
    hide Product, Over;
    assert Total(Charge(k), n) == charge;
    assert Total(MomentX(k), n) == Product(charge, p.x) && Total(MomentY(k), n) == Product(charge, p.y);
  }

  lemma NearPush(node: Pt, s: Previous, p: Pt, charge: real, b: Box)
    requires charge != 0.0
    ensures var dx, dy := p.x - node.x, p.y - node.y;
      Pushed(node, 0.0, s, Some(p), charge, charge, Finite(p.x), Finite(p.y), b)
      == (Pulled(s, ForcePart(dx, charge, Square(dx, dy)), ForcePart(dy, charge, Square(dx, dy))), false)
  {
    var dx, dy := p.x - node.x, p.y - node.y;
    assert !FarEnough(b, dx, dy, 0.0);
    if p == node {
      assert Square(dx, dy) == 0.0;
    }
  }

  lemma LeafPushes(k: nat -> real, node: Pt, s: Previous, n: Quad, b: Box)
    requires WellFormed(n) && n.Node? && n.leaf && n.point.Some?
    ensures Repulse(k, node, 0.0)(s, n, b).0 == Pulled(s, PairX(k, node)(n.point.value), PairY(k, node)(n.point.value))
  {
    hide Centre, Total, At, WellFormed, Pushed, ForcePart, Square, Pulled, Charge, MomentX, MomentY;
    var p := n.point.value;
    var charge := At(k, p.index);
    LeafCentre(k, n, charge);
    if charge != 0.0 {
      NearPush(node, s, p, charge, b);
      assert Repulse(k, node, 0.0)(s, n, b) == Pushed(node, 0.0, s, Some(p), charge, charge, Finite(p.x), Finite(p.y), b);
    } else {
      NoPush(node, 0.0, s, p, b);
      assert Repulse(k, node, 0.0)(s, n, b) == Pushed(node, 0.0, s, Some(p), charge, charge, NaN, NaN, b);
    }
  }

  // A point without charge pushes nothing, and its force is zero.
  lemma NoPush(node: Pt, theta: real, s: Previous, p: Pt, b: Box)
    ensures Pushed(node, theta, s, Some(p), 0.0, 0.0, NaN, NaN, b) == (s, true)
    ensures var dx, dy := p.x - node.x, p.y - node.y; Pulled(s, ForcePart(dx, 0.0, Square(dx, dy)), ForcePart(dy, 0.0, Square(dx, dy))) == s
  {
    var dx, dy := p.x - node.x, p.y - node.y;
    NoCharge(dx, Square(dx, dy));
    NoCharge(dy, Square(dx, dy));
  }

  lemma NoCharge(d: real, square: real)
    ensures ForcePart(d, 0.0, square) == 0.0
  {
    if square != 0.0 {
      var q := 0.0 / square;
      assert q * square == 0.0;
      assert q == 0.0;
      assert ForcePart(d, 0.0, square) == d * q == 0.0;
    }
  }

  // With theta 0 the visit of a tidy tree in which nothing cancels out applies every pair force once.
  lemma {:induction false} VisitRepulses(k: nat -> real, node: Pt, s: Previous, n: Quad, b: Box)
    requires NoneCancels(k, n) && WellFormed(n) && Shaped(n, true)
    ensures Visit(Repulse(k, node, 0.0), s, n, b) == Pulled(s, Total(PairX(k, node), n), Total(PairY(k, node), n))
    decreases n, 1
  {
    hide Repulse, PairX, PairY, Charge, NoneCancels;
    if n.Node? {
      if n.leaf {
        LeafPushes(k, node, s, n, b);
        NothingVisited(Repulse(k, node, 0.0), Repulse(k, node, 0.0)(s, n, b).0, n.nodes, b, 0);
        NoTotal(PairX(k, node), n.nodes);
        NoTotal(PairY(k, node), n.nodes);
      } else {
        InnerPushesNot(k, node, s, n, b);
        ChildrenNoneCancel(k, n);
        VisitFromRepulses(k, node, s, n.nodes, b, 0);
        assert Visit(Repulse(k, node, 0.0), s, n, b) == VisitFrom(Repulse(k, node, 0.0), s, n.nodes, b, 0);
      }
    }
  }

  lemma ChildrenNoneCancel(k: nat -> real, n: Quad)
    requires NoneCancels(k, n) && n.Node? && !n.leaf
    ensures forall i :: 0 <= i < |n.nodes| ==> NoneCancels(k, n.nodes[i])
  {
  }

  lemma InnerPushesNot(k: nat -> real, node: Pt, s: Previous, n: Quad, b: Box)
    requires NoneCancels(k, n) && WellFormed(n) && Shaped(n, true) && n.Node? && !n.leaf
    ensures Repulse(k, node, 0.0)(s, n, b) == (s, false)
  {
    hide Centre, Total;
    forall dx, dy ensures !FarEnough(b, dx, dy, 0.0) {
    }
  }

  lemma {:induction false} VisitFromRepulses(k: nat -> real, node: Pt, s: Previous, nodes: seq<Quad>, b: Box, i: nat)
    requires i + |nodes| == 4 && forall j :: 0 <= j < |nodes| ==> NoneCancels(k, nodes[j]) && WellFormed(nodes[j]) && Shaped(nodes[j], true)
    ensures VisitFrom(Repulse(k, node, 0.0), s, nodes, b, i) == Pulled(s, TotalOf(PairX(k, node), nodes), TotalOf(PairY(k, node), nodes))
    decreases nodes, 0
  {
    hide Repulse, PairX, PairY, Charge, NoneCancels, SubBox, Total, Shaped, WellFormed, Visit;
    if nodes != [] {
      VisitRepulses(k, node, s, nodes[0], SubBox(b, i));
      VisitFromRepulses(k, node, Visit(Repulse(k, node, 0.0), s, nodes[0], SubBox(b, i)), nodes[1..], b, i + 1);
    }
  }

  lemma EmptyPushesNot(k: nat -> real, node: Pt, s: Previous, b: Box)
    ensures Repulse(k, node, 0.0)(s, EMPTY_LEAF, b) == (s, true)
  {
    EmptyTotal(Charge(k));
  }

  // On points that do not coincide and cancel out nowhere, the traversal of the built tree is the
  // all-pairs repulsion.
  lemma RepulsionIsAllPairs(k: nat -> real, node: Pt, s: Previous, points: seq<Pt>, b: Box)
    requires (forall i :: 0 <= i < |points| ==> InBox(points[i], b)) && Apart(points) && NoneCancels(k, Build(points, b))
    ensures Visit(Repulse(k, node, 0.0), s, Build(points, b), b) == Pulled(s, ListTotal(PairX(k, node), points), ListTotal(PairY(k, node), points))
  {
    hide InBox, Apart, Insert, Repulse, PairX, PairY, NoneCancels;
    if points == [] {
      EmptyTotal(PairX(k, node));
      EmptyPushesNot(k, node, s, b);
    } else {
      BuildIsShaped(points, b, true);
      VisitRepulses(k, node, s, Build(points, b), b);
      BuildStores(PairX(k, node), points, b);
      BuildStores(PairY(k, node), points, b);
    }
  }

  // Two points on a diagonal in one cell: a root with two leaves.
  lemma PairIsBuilt(p: Pt, q: Pt, b: Box)
    requires b == Box(0.0, 0.0, 1.0, 1.0) && p.x == p.y == 0.0 && q.x == q.y == 1.0
    ensures InBox(p, b) && InBox(q, b)
    ensures Build([p, q], b)
      == Node(false, None, [EMPTY_LEAF.(point := Some(p)), Absent, Absent, EMPTY_LEAF.(point := Some(q))])
  {
    var leaf := EMPTY_LEAF.(point := Some(p));
    assert Quadrant(p, b) == 0 && Quadrant(q, b) == 3 && InBox(p, b) && InBox(q, b) && !Coincident(p, q);
    hide Splits, Height, Insert, InsertChild, InBox, Quadrant, Coincident, SubBox, WellFormed, Fits;
    assert [p, q][..1] == [p];
    OneIsBuilt(p, b);
    SplitLeaf(leaf, q, b);
    assert leaf.(point := None) == EMPTY_LEAF;
    assert InsertChild(EMPTY_LEAF, p, b) == Node(false, None, [leaf, Absent, Absent, Absent]);
  }

  lemma OneIsBuilt(p: Pt, b: Box)
    requires InBox(p, b)
    ensures Build([p], b) == EMPTY_LEAF.(point := Some(p)) && Ready(Build([p], b), b)
    ensures WellFormed(EMPTY_LEAF) && Fits(EMPTY_LEAF, b)
  {
    hide Insert;
    assert [p][..0] == [];
  }

  // Opposite charges at two such points cancel out at the root, whose centre is infinite. With a
  // positive theta both positions are lost; with theta 0 no force is applied at all.
  lemma OppositePairIsLost(k: nat -> real, theta: real, s: Previous)
    requires k(0) == 1.0 && k(1) == -1.0 && s != Lost
    ensures var p, q, b := Pt(0.0, 0.0, 0), Pt(1.0, 1.0, 1), Box(0.0, 0.0, 1.0, 1.0);
      && InBox(p, b) && InBox(q, b) && !NoneCancels(k, Build([p, q], b))
      && (theta > 0.0 ==> Visit(Repulse(k, p, theta), s, Build([p, q], b), b) == Lost == Visit(Repulse(k, q, theta), s, Build([p, q], b), b))
      && (theta == 0.0 ==> Visit(Repulse(k, p, theta), s, Build([p, q], b), b) == s)
      && Pulled(s, ListTotal(PairX(k, p), [p, q]), ListTotal(PairY(k, p), [p, q])) != s
  {
    var p, q, b := Pt(0.0, 0.0, 0), Pt(1.0, 1.0, 1), Box(0.0, 0.0, 1.0, 1.0);
    PairIsBuilt(p, q, b);
    var a, c := EMPTY_LEAF.(point := Some(p)), EMPTY_LEAF.(point := Some(q));
    var root := Build([p, q], b);
    PairCancels(k, p, q, a, c, root);
    hide Total, TotalOf, Build, Insert, InsertChild, Centre, AllCharging, NoneCancels, InBox;
    VisitLosesIff(k, p, theta, s, root, b);
    VisitLosesIff(k, q, theta, s, root, b);
    if theta == 0.0 {
      StepAtRoot(k, p, s, root, b);
    }
    PairPulls(k, p, q, s);
  }

  lemma PairCancels(k: nat -> real, p: Pt, q: Pt, a: Quad, c: Quad, root: Quad)
    requires k(p.index) == 1.0 && k(q.index) == -1.0 && p.x == p.y == 0.0 && q.x == q.y == 1.0
    requires a == EMPTY_LEAF.(point := Some(p)) && c == EMPTY_LEAF.(point := Some(q)) && root == Node(false, None, [a, Absent, Absent, c])
    ensures AllCharging(k, root.nodes) && Total(Charge(k), root) == 0.0 && !NoneCancels(k, root)
    ensures Total(MomentX(k), root) == -1.0 == Total(MomentY(k), root)
  {
    PairTotal(Charge(k), p, q, root);
    PairTotal(MomentX(k), p, q, root);
    PairTotal(MomentY(k), p, q, root);
    ChargedLeaf(k, a);
    ChargedLeaf(k, c);
    hide Total, TotalOf, Charging;
    AbsentCharges(k);
    assert forall i :: 0 <= i < 4 ==> Charging(k, root.nodes[i]);
  }

  lemma ChargedLeaf(k: nat -> real, n: Quad)
    requires n.Node? && n.point.Some? && n.nodes == NO_NODES && At(k, n.point.value.index) != 0.0
    ensures Charging(k, n)
  {
    LeafTotal(Charge(k), n);
    hide Total;
  }

  lemma AbsentCharges(k: nat -> real)
    ensures Charging(k, Absent)
  {
  }

  lemma PairTotal(f: Pt -> real, p: Pt, q: Pt, root: Quad)
    requires root == Node(false, None, [EMPTY_LEAF.(point := Some(p)), Absent, Absent, EMPTY_LEAF.(point := Some(q))])
    ensures Total(f, root) == f(p) + f(q)
  {
    LeafTotal(f, root.nodes[0]);
    LeafTotal(f, root.nodes[3]);
    FourChildren(f, root.nodes);
    NothingTotal(f);
    hide TotalOf;
  }

  lemma StepAtRoot(k: nat -> real, p: Pt, s: Previous, root: Quad, b: Box)
    requires root.Node? && |root.nodes| == 4 && root.point.None? && AllCharging(k, root.nodes) && Total(Charge(k), root) == 0.0
    ensures Visit(Repulse(k, p, 0.0), s, root, b) == s
  {
    hide Total, AllCharging;
    assert Repulse(k, p, 0.0)(s, root, b) == (s, true);
  }

  lemma PairPulls(k: nat -> real, p: Pt, q: Pt, s: Previous)
    requires k(p.index) == 1.0 && k(q.index) == -1.0 && p.x == p.y == 0.0 && q.x == q.y == 1.0 && s != Lost
    ensures Pulled(s, ListTotal(PairX(k, p), [p, q]), ListTotal(PairY(k, p), [p, q])) != s
  {
    assert [p, q][..1] == [p] && [p][..0] == [];
    assert PairX(k, p)(p) == 0.0;
    assert PairX(k, p)(q) == ForcePart(1.0, -1.0, 2.0) == -0.5;
    assert ListTotal(PairX(k, p), []) == 0.0;
    assert ListTotal(PairX(k, p), [p]) == PairX(k, p)(p);
    assert ListTotal(PairX(k, p), [p, q]) == ListTotal(PairX(k, p), [p]) + PairX(k, p)(q);
  }

  lemma LeafTotal(f: Pt -> real, n: Quad)
    requires n.Node? && n.point.Some? && forall i :: 0 <= i < |n.nodes| ==> n.nodes[i].Absent?
    ensures Total(f, n) == f(n.point.value)
  {
    NoTotal(f, n.nodes);
  }

  // ---------------------------------------------------------------- any theta

  // The nodes that push as a whole: a leaf, or an inner node that is far enough.
  ghost function Clusters(k: nat -> real, node: Pt, theta: real, n: Quad, b: Box): seq<Quad>
    decreases n, 0
  {
    if n.Absent? || |n.nodes| != 4 then []
    else if n.leaf || IsFar(k, node, theta, n, b) then [n]
    else ClustersFrom(k, node, theta, n.nodes, b, 0)
  }

  ghost function ClustersFrom(k: nat -> real, node: Pt, theta: real, nodes: seq<Quad>, b: Box, i: nat): seq<Quad>
    requires i + |nodes| == 4
    decreases nodes, 0
  {
    if nodes == [] then []
    else Clusters(k, node, theta, nodes[0], SubBox(b, i)) + ClustersFrom(k, node, theta, nodes[1..], b, i + 1)
  }

  ghost predicate IsFar(k: nat -> real, node: Pt, theta: real, n: Quad, b: Box)
    requires n.Node?
  {
    var cx, cy := Centre(k, MomentX(k), n), Centre(k, MomentY(k), n);
    cx.Finite? && cy.Finite? && FarEnough(b, cx.value - node.x, cy.value - node.y, theta)
  }

  // The pull of a cluster: all its charge at its centre.
  ghost function ClusterPull(k: nat -> real, node: Pt, c: Quad): (real, real) {
    if c.Absent? then (0.0, 0.0)
    else
      var cx, cy := Centre(k, MomentX(k), c), Centre(k, MomentY(k), c);
      if !cx.Finite? || !cy.Finite? then (0.0, 0.0)
      else
        var dx, dy := cx.value - node.x, cy.value - node.y;
        (ForcePart(dx, Total(Charge(k), c), Square(dx, dy)), ForcePart(dy, Total(Charge(k), c), Square(dx, dy)))
  }

  ghost function Pulls(k: nat -> real, node: Pt, clusters: seq<Quad>): (real, real) {
    if clusters == [] then (0.0, 0.0)
    else
      var p, rest := ClusterPull(k, node, clusters[0]), Pulls(k, node, clusters[1..]);
      (p.0 + rest.0, p.1 + rest.1)
  }

  lemma {:induction false} PullsOfBoth(k: nat -> real, node: Pt, a: seq<Quad>, b: seq<Quad>)
    ensures Pulls(k, node, a + b) == (Pulls(k, node, a).0 + Pulls(k, node, b).0, Pulls(k, node, a).1 + Pulls(k, node, b).1)
  {
    hide ClusterPull;
    if a == [] {
      assert a + b == b;
    } else {
      assert (a + b)[1..] == a[1..] + b;
      PullsOfBoth(k, node, a[1..], b);
    }
  }

  lemma {:induction false} TotalOfBoth(f: Pt -> real, a: seq<Quad>, b: seq<Quad>)
    ensures TotalOf(f, a + b) == TotalOf(f, a) + TotalOf(f, b)
  {
    hide Total;
    if a == [] {
      assert a + b == b;
    } else {
      assert (a + b)[1..] == a[1..] + b;
      TotalOfBoth(f, a[1..], b);
    }
  }

  // The clusters hold every point exactly once.
  lemma {:induction false} ClustersPartition(k: nat -> real, node: Pt, theta: real, n: Quad, b: Box, f: Pt -> real)
    requires WellFormed(n) && Shaped(n, true)
    ensures TotalOf(f, Clusters(k, node, theta, n, b)) == Total(f, n)
    decreases n, 1
  {
    hide IsFar;
    if n.Node? {
      if n.leaf || IsFar(k, node, theta, n, b) {
        TotalOfOne(f, n);
      } else {
        ClustersFromPartition(k, node, theta, n.nodes, b, 0, f);
      }
    }
  }

  lemma TotalOfOne(f: Pt -> real, n: Quad)
    ensures TotalOf(f, [n]) == Total(f, n)
  {
    hide Total;
    assert [n][1..] == [];
  }

  lemma {:induction false} ClustersFromPartition(k: nat -> real, node: Pt, theta: real, nodes: seq<Quad>, b: Box, i: nat, f: Pt -> real)
    requires i + |nodes| == 4 && forall j :: 0 <= j < |nodes| ==> WellFormed(nodes[j]) && Shaped(nodes[j], true)
    ensures TotalOf(f, ClustersFrom(k, node, theta, nodes, b, i)) == TotalOf(f, nodes)
    decreases nodes, 0
  {
    hide Total, Shaped, WellFormed, SubBox, Clusters;
    if nodes != [] {
      ClustersPartition(k, node, theta, nodes[0], SubBox(b, i), f);
      ClustersFromPartition(k, node, theta, nodes[1..], b, i + 1, f);
      TotalOfBoth(f, Clusters(k, node, theta, nodes[0], SubBox(b, i)), ClustersFrom(k, node, theta, nodes[1..], b, i + 1));
    }
  }

  // A node that pushes as a whole pulls with its cluster, and its children are not needed.
  lemma ClusterPushes(k: nat -> real, node: Pt, theta: real, s: Previous, n: Quad, b: Box)
    requires NoneCancels(k, n) && WellFormed(n) && Shaped(n, true) && n.Node? && (n.leaf || IsFar(k, node, theta, n, b))
    ensures var p := ClusterPull(k, node, n); Repulse(k, node, theta)(s, n, b).0 == Pulled(s, p.0, p.1)
    ensures !n.leaf ==> Repulse(k, node, theta)(s, n, b).1
  {
    hide Total, At, WellFormed, ForcePart, Charge, MomentX, MomentY, FarEnough;
    if n.leaf {
      LeafCentre(k, n, At(k, n.point.value.index));
      hide Centre;
      var p := n.point.value;
      if p == node {
        NoForce(p.x - node.x, At(k, p.index));
        assert Square(p.x - node.x, p.y - node.y) == 0.0;
      }
      NoForceAt(At(k, p.index), p.x - node.x, p.y - node.y);
    }
  }

  lemma NoForce(d: real, charge: real)
    ensures ForcePart(d, charge, 0.0) == 0.0
  {
  }

  lemma NoForceAt(charge: real, dx: real, dy: real)
    ensures Square(dx, dy) == 0.0 ==> ForcePart(dx, charge, Square(dx, dy)) == 0.0 == ForcePart(dy, charge, Square(dx, dy))
  {
  }

  // For every theta the traversal of a tidy tree pushes once with each cluster.
  lemma {:induction false} VisitPushesClusters(k: nat -> real, node: Pt, theta: real, s: Previous, n: Quad, b: Box)
    requires NoneCancels(k, n) && WellFormed(n) && Shaped(n, true)
    ensures var p := Pulls(k, node, Clusters(k, node, theta, n, b)); Visit(Repulse(k, node, theta), s, n, b) == Pulled(s, p.0, p.1)
    decreases n, 1
  {
    hide Repulse, Charge, NoneCancels, IsFar, ClusterPull;
    if n.Node? {
      if n.leaf || IsFar(k, node, theta, n, b) {
        ClusterPushes(k, node, theta, s, n, b);
        assert [n][1..] == [];
        if n.leaf {
          NothingVisited(Repulse(k, node, theta), Repulse(k, node, theta)(s, n, b).0, n.nodes, b, 0);
        }
      } else {
        NearPushesNot(k, node, theta, s, n, b);
        ChildrenNoneCancel(k, n);
        VisitFromPushesClusters(k, node, theta, s, n.nodes, b, 0);
      }
    }
  }

  lemma {:induction false} NothingVisited<S>(f: (S, Quad, Box) -> (S, bool), s: S, nodes: seq<Quad>, b: Box, i: nat)
    requires i + |nodes| == 4 && forall j :: 0 <= j < |nodes| ==> nodes[j].Absent?
    ensures VisitFrom(f, s, nodes, b, i) == s
    decreases |nodes|
  {
    if nodes != [] {
      NothingVisited(f, s, nodes[1..], b, i + 1);
    }
  }

  lemma NearPushesNot(k: nat -> real, node: Pt, theta: real, s: Previous, n: Quad, b: Box)
    requires NoneCancels(k, n) && WellFormed(n) && Shaped(n, true) && n.Node? && !n.leaf && !IsFar(k, node, theta, n, b)
    ensures Repulse(k, node, theta)(s, n, b) == (s, false)
  {
    hide Total, FarEnough;
  }

  lemma {:induction false} VisitFromPushesClusters(k: nat -> real, node: Pt, theta: real, s: Previous, nodes: seq<Quad>, b: Box, i: nat)
    requires i + |nodes| == 4 && forall j :: 0 <= j < |nodes| ==> NoneCancels(k, nodes[j]) && WellFormed(nodes[j]) && Shaped(nodes[j], true)
    ensures var p := Pulls(k, node, ClustersFrom(k, node, theta, nodes, b, i));
      VisitFrom(Repulse(k, node, theta), s, nodes, b, i) == Pulled(s, p.0, p.1)
    decreases nodes, 0
  {
    hide Repulse, NoneCancels, SubBox, Total, Shaped, WellFormed, Visit, Clusters, Pulls, Pulled;
    NoPulls(k, node, s);
    if nodes != [] {
      var first := Clusters(k, node, theta, nodes[0], SubBox(b, i));
      VisitPushesClusters(k, node, theta, s, nodes[0], SubBox(b, i));
      VisitFromPushesClusters(k, node, theta, Visit(Repulse(k, node, theta), s, nodes[0], SubBox(b, i)), nodes[1..], b, i + 1);
      PullsOfBoth(k, node, first, ClustersFrom(k, node, theta, nodes[1..], b, i + 1));
      var p, q := Pulls(k, node, first), Pulls(k, node, ClustersFrom(k, node, theta, nodes[1..], b, i + 1));
      PulledTwice(s, p.0, p.1, q.0, q.1);
    }
  }

  lemma NoPulls(k: nat -> real, node: Pt, s: Previous)
    ensures var p := Pulls(k, node, []); Pulled(s, p.0, p.1) == s
  {
  }

  lemma PulledTwice(s: Previous, x: real, y: real, x': real, y': real)
    ensures Pulled(Pulled(s, x, y), x', y') == Pulled(s, x + x', y + y')
  {
  }

  // On points that do not coincide, and for every theta: the built tree pushes once with each of some
  // clusters that hold every listed point exactly once.
  lemma RepulsionByClusters(k: nat -> real, node: Pt, theta: real, s: Previous, points: seq<Pt>, b: Box, f: Pt -> real)
    requires (forall i :: 0 <= i < |points| ==> InBox(points[i], b)) && Apart(points) && points != []
    requires NoneCancels(k, Build(points, b))
    ensures var clusters := Clusters(k, node, theta, Build(points, b), b);
      && TotalOf(f, clusters) == ListTotal(f, points)
      && var p := Pulls(k, node, clusters);
         Visit(Repulse(k, node, theta), s, Build(points, b), b) == Pulled(s, p.0, p.1)
  {
    hide InBox, Apart, Insert, Repulse, NoneCancels, Clusters, Pulls;
    BuildIsShaped(points, b, true);
    VisitPushesClusters(k, node, theta, s, Build(points, b), b);
    ClustersPartition(k, node, theta, Build(points, b), b, f);
    BuildStores(f, points, b);
  }

  // ---------------------------------------------------------------- the law of the force

  // The step that is taken off a position: along d, with the charge over the distance.
  ghost predicate StepIs(s: Previous, t: Previous, dx: real, dy: real, charge: real) {
    && s.Previous? && t.Previous?
    && (s.px - t.px) * (dx * dx + dy * dy) == charge * dx && (s.py - t.py) * (dx * dx + dy * dy) == charge * dy
    && (dx == 0.0 && dy == 0.0 ==> t == s)
  }

  lemma PartIs(d: real, charge: real, square: real)
    ensures square != 0.0 ==> ForcePart(d, charge, square) * square == charge * d
    ensures square == 0.0 ==> ForcePart(d, charge, square) == 0.0
  {
    if square != 0.0 {
      var q := charge / square;
      assert q * square == charge;
      assert (d * q) * square == d * (q * square);
    }
  }

  lemma SquareIsPositive(dx: real, dy: real)
    requires dx != 0.0 || dy != 0.0
    ensures Square(dx, dy) > 0.0
  {
    var x, y := dx * dx, dy * dy;
    SquareSign(dx, x);
    SquareSign(dy, y);
    assert Square(dx, dy) == x + y;
  }

  lemma SquareSign(d: real, square: real)
    requires square == d * d
    ensures square >= 0.0 && (d != 0.0 ==> square > 0.0)
  {
    if d > 0.0 {
      PositiveProduct(d, d);
    } else if d < 0.0 {
      PositiveProduct(-d, -d);
      NegatedProduct(d, d);
    }
  }

  lemma PositiveProduct(x: real, y: real)
    requires x > 0.0 && y > 0.0
    ensures Product(x, y) > 0.0
  {
  }

  lemma NegatedProduct(x: real, y: real)
    ensures Product(-x, -y) == Product(x, y)
  {
  }

  lemma PullIsStep(s: Previous, dx: real, dy: real, charge: real)
    requires s.Previous?
    ensures StepIs(s, Pulled(s, ForcePart(dx, charge, Square(dx, dy)), ForcePart(dy, charge, Square(dx, dy))), dx, dy, charge)
  {
    PartIs(dx, charge, Square(dx, dy));
    PartIs(dy, charge, Square(dx, dy));
    if dx != 0.0 || dy != 0.0 {
      SquareIsPositive(dx, dy);
    }
    assert Square(dx, dy) == dx * dx + dy * dy;
    hide ForcePart, Square;
  }

  // A negative charge draws the previous position towards itself, so that the node moves away from it:
  // the step times the distance is the charge, with the sign changed.
  lemma NegativeChargesRepel(s: Previous, t: Previous, dx: real, dy: real, charge: real)
    requires StepIs(s, t, dx, dy, charge) && (dx != 0.0 || dy != 0.0)
    ensures (t.px - s.px) * dx + (t.py - s.py) * dy == -charge
    ensures charge < 0.0 ==> (dx > 0.0 ==> t.px > s.px) && (dx < 0.0 ==> t.px < s.px)
    ensures charge < 0.0 ==> (dy > 0.0 ==> t.py > s.py) && (dy < 0.0 ==> t.py < s.py)
  {
    SquareIsPositive(dx, dy);
    var x, y, square := s.px - t.px, s.py - t.py, dx * dx + dy * dy;
    assert (x * dx + y * dy) * square == (x * square) * dx + (y * square) * dy;
    assert (x * square) * dx + (y * square) * dy == charge * square;
    CancelFactor(x * dx + y * dy, charge, square);
    if charge < 0.0 {
      SignOfStep(x, dx, charge, square);
      SignOfStep(y, dy, charge, square);
    }
  }

  lemma CancelFactor(a: real, b: real, c: real)
    requires c != 0.0 && a * c == b * c
    ensures a == b
  {
    assert (a - b) * c == 0.0;
  }

  lemma SignOfStep(x: real, d: real, charge: real, square: real)
    requires charge < 0.0 && square > 0.0 && x * square == charge * d
    ensures (d > 0.0 ==> x < 0.0) && (d < 0.0 ==> x > 0.0)
  {
    if d > 0.0 {
      assert charge * d < 0.0;
      assert x >= 0.0 ==> x * square >= 0.0;
    } else if d < 0.0 {
      assert charge * d > 0.0;
      assert x <= 0.0 ==> x * square <= 0.0;
    }
  }

  // A leaf pushes every node but its own point, whatever theta is.
  lemma LeafRepels(k: nat -> real, node: Pt, theta: real, s: Previous, n: Quad, q: Pt, b: Box)
    requires WellFormed(n) && n.Node? && n.leaf && n.point == Some(q) && s.Previous?
    ensures var t := Visit(Repulse(k, node, theta), s, n, b);
      if q == node then t == s else StepIs(s, t, q.x - node.x, q.y - node.y, k(q.index))
  {
    var f := Repulse(k, node, theta);
    var charge, dx, dy := k(q.index), q.x - node.x, q.y - node.y;
    NothingVisited(f, f(s, n, b).0, n.nodes, b, 0);
    LeafCentre(k, n, charge);
    PullIsStep(s, dx, dy, charge);
    hide Centre, Total, WellFormed, Charge, MomentX, MomentY, VisitFrom;
    if charge == 0.0 {
      NoPush(node, theta, s, q, b);
      assert f(s, n, b) == Pushed(node, theta, s, Some(q), charge, charge, NaN, NaN, b);
    } else {
      assert f(s, n, b) == Pushed(node, theta, s, Some(q), charge, charge, Finite(q.x), Finite(q.y), b);
      hide Repulse, StepIs, ForcePart;
      if q != node && !FarEnough(b, dx, dy, theta) && Square(dx, dy) == 0.0 {
        NoForceAt(charge, dx, dy);
      }
    }
  }

  // The criterion in terms of the distance r: the width of the cell over the distance is below theta.
  // A point at distance zero is never far enough.
  lemma FarEnoughIff(b: Box, dx: real, dy: real, theta: real, r: real)
    requires b.x1 <= b.x2 && r >= 0.0 && r * r == dx * dx + dy * dy
    ensures FarEnough(b, dx, dy, theta) <==> theta > 0.0 && r > 0.0 && (b.x2 - b.x1) / r < theta
  {
    var w := b.x2 - b.x1;
    if theta > 0.0 && r > 0.0 {
      RatioIff(w, r, theta);
      SquaresCompare(w, theta * r);
      assert (theta * r) * (theta * r) == theta * theta * (r * r);
    } else if r == 0.0 {
      assert Square(dx, dy) == 0.0;
    }
  }

  lemma RatioIff(w: real, r: real, theta: real)
    requires r > 0.0
    ensures w / r < theta <==> w < theta * r
  {
    var ratio := w / r;
    assert ratio * r == w;
    assert theta * r - w == (theta - ratio) * r;
    assert ratio < theta ==> (theta - ratio) * r > 0.0;
    assert ratio >= theta ==> (theta - ratio) * r <= 0.0;
  }

  lemma SquaresCompare(a: real, c: real)
    requires a >= 0.0 && c >= 0.0
    ensures a * a < c * c <==> a < c
  {
    assert c * c - a * a == (c - a) * (c + a);
    if a < c {
      PositiveProduct(c - a, c + a);
    } else if a > c {
      PositiveProduct(a - c, c + a);
      assert a * a - c * c == (a - c) * (c + a);
    }
  }

  // An inner node with charges that cancel out nowhere, its whole charge at its centre. When it is far
  // enough it pushes as a whole and its children are skipped; when not, only the children push.
  lemma InnerRepels(k: nat -> real, node: Pt, theta: real, s: Previous, n: Quad, b: Box, cx: real, cy: real, r: real)
    requires Charging(k, n) && n.Node? && |n.nodes| == 4 && n.point.None? && s.Previous? && b.x1 <= b.x2
    requires Total(Charge(k), n) * cx == Total(MomentX(k), n) && Total(Charge(k), n) * cy == Total(MomentY(k), n)
    requires r >= 0.0 && r * r == (cx - node.x) * (cx - node.x) + (cy - node.y) * (cy - node.y)
    ensures var t := Visit(Repulse(k, node, theta), s, n, b);
      if theta > 0.0 && r > 0.0 && (b.x2 - b.x1) / r < theta then StepIs(s, t, cx - node.x, cy - node.y, Total(Charge(k), n))
      else t == VisitFrom(Repulse(k, node, theta), s, n.nodes, b, 0)
  {
    var charge, dx, dy := Total(Charge(k), n), cx - node.x, cy - node.y;
    assert Centre(k, MomentX(k), n) == Finite(cx) by {
      OverTimes(charge, cx, Total(MomentX(k), n));
    }
    assert Centre(k, MomentY(k), n) == Finite(cy) by {
      OverTimes(charge, cy, Total(MomentY(k), n));
    }
    FarEnoughIff(b, dx, dy, theta, r);
    PullIsStep(s, dx, dy, charge);
    hide Centre, Total, FarEnough, StepIs, Charge, MomentX, MomentY, VisitFrom, ForcePart;
    assert Repulse(k, node, theta)(s, n, b) == Pushed(node, theta, s, None, charge, 0.0, Finite(cx), Finite(cy), b);
  }

  // What is summed over all pairs and over the clusters is that law.
  lemma PairLaw(k: nat -> real, node: Pt, q: Pt, s: Previous)
    requires s.Previous?
    ensures StepIs(s, Pulled(s, PairX(k, node)(q), PairY(k, node)(q)), q.x - node.x, q.y - node.y, k(q.index))
  {
    PullIsStep(s, q.x - node.x, q.y - node.y, k(q.index));
    hide StepIs, ForcePart, Square;
  }

  lemma ClusterLaw(k: nat -> real, node: Pt, s: Previous, n: Quad, cx: real, cy: real)
    requires Charging(k, n) && n.Node? && s.Previous?
    requires Total(Charge(k), n) * cx == Total(MomentX(k), n) && Total(Charge(k), n) * cy == Total(MomentY(k), n)
    ensures var p := ClusterPull(k, node, n);
      StepIs(s, Pulled(s, p.0, p.1), cx - node.x, cy - node.y, Total(Charge(k), n))
  {
    var charge := Total(Charge(k), n);
    assert Centre(k, MomentX(k), n) == Finite(cx) by {
      OverTimes(charge, cx, Total(MomentX(k), n));
    }
    assert Centre(k, MomentY(k), n) == Finite(cy) by {
      OverTimes(charge, cy, Total(MomentY(k), n));
    }
    PullIsStep(s, cx - node.x, cy - node.y, charge);
    hide Centre, Total, StepIs, Charge, MomentX, MomentY, ForcePart, Square;
  }

  // ---------------------------------------------------------------- the traversal of the node objects

  // Visits the objects and reads the charges and centres that the accumulation left in them.
  method RepulseFrom(n: QuadtreeNodes.QuadNode, ghost k: nat -> real, node: Pt, theta: real, s: Previous, b: Box) returns (t: Previous)
    requires n.Valid() && Charged(k, n)
    ensures t == Visit(Repulse(k, node, theta), s, n.model, b)
    decreases n.repr
  {
    hide Visit, VisitFrom, Repulse, SubBox, OwnCharged;
    var pointCharge := if n.point.Some? then n.pointCharge else 0.0;
    var pushed := Pushed(node, theta, s, n.point, n.charge, pointCharge, n.cx, n.cy, b);
    t := pushed.0;
    RepulseReadsFields(n, k, node, theta, s, b, pointCharge);
    VisitUnfold(Repulse(k, node, theta), s, n.model, b);
    if pushed.1 {
      return;
    }
    ghost var f := Repulse(k, node, theta);
    for i := 0 to 4
      invariant VisitFrom(f, t, n.model.nodes[i..], b, i) == Visit(f, s, n.model, b)
    {
      VisitFromUnfold(f, t, n.model.nodes, b, i);
      var c := n.nodes[i];
      if c != null {
        t := RepulseFrom(c, k, node, theta, t, SubBox(b, i));
      }
    }
    VisitFromNone(f, t, n.model.nodes[4..], b);
  }

  lemma RepulseReadsFields(n: QuadtreeNodes.QuadNode, k: nat -> real, node: Pt, theta: real, s: Previous, b: Box, pointCharge: real)
    requires n.Valid() && OwnCharged(k, n) && pointCharge == if n.point.Some? then n.pointCharge else 0.0
    ensures Repulse(k, node, theta)(s, n.model, b) == Pushed(node, theta, s, n.point, n.charge, pointCharge, n.cx, n.cy, b)
  {
    hide Pushed, Total, Centre;
  }

  lemma VisitUnfold<S>(f: (S, Quad, Box) -> (S, bool), s: S, n: Quad, b: Box)
    requires n.Node? && |n.nodes| == 4
    ensures Visit(f, s, n, b) == if f(s, n, b).1 then f(s, n, b).0 else VisitFrom(f, f(s, n, b).0, n.nodes[0..], b, 0)
  {
    assert n.nodes[0..] == n.nodes;
  }

  lemma VisitFromUnfold<S>(f: (S, Quad, Box) -> (S, bool), s: S, nodes: seq<Quad>, b: Box, i: nat)
    requires |nodes| == 4 && i < 4
    ensures var next := if nodes[i].Absent? then s else Visit(f, s, nodes[i], SubBox(b, i));
      VisitFrom(f, s, nodes[i..], b, i) == VisitFrom(f, next, nodes[i + 1..], b, i + 1)
  {
    assert nodes[i..][1..] == nodes[i + 1..];
  }

  lemma VisitFromNone<S>(f: (S, Quad, Box) -> (S, bool), s: S, nodes: seq<Quad>, b: Box)
    requires nodes == []
    ensures VisitFrom(f, s, nodes, b, 4) == s
  {
  }

  // ---------------------------------------------------------------- the charge forces of a tick

  // What the charges of all other points make of the previous position s of a node.
  ghost function AllPairs(k: nat -> real, node: Pt, s: Previous, points: seq<Pt>): Previous {
    Pulled(s, ListTotal(PairX(k, node), points), ListTotal(PairY(k, node), points))
  }

  lemma {:induction false} JitteredWellFormed(n: Quad, jitter: nat -> (real, real))
    requires WellFormed(n)
    ensures WellFormed(Jittered(n, jitter))
  {
    if n.Node? {
      forall i | 0 <= i < |n.nodes| ensures WellFormed(Jittered(n.nodes[i], jitter)) && (Jittered(n.nodes[i], jitter).Absent? <==> n.nodes[i].Absent?) {
        JitteredWellFormed(n.nodes[i], jitter);
      }
      var m := Jittered(n, jitter);
      assert forall i :: 0 <= i < 4 ==> m.nodes[i] == Jittered(n.nodes[i], jitter);
      assert forall i :: 0 <= i < 4 ==> (m.nodes[i].Absent? <==> n.nodes[i].Absent?);
    }
  }

  // Builds the tree, accumulates the charges in its nodes and visits them for every node that is not
  // fixed. Points that coincide are moved first.
  method ApplyCharges(points: seq<Pt>, fixed: seq<bool>, previous: array<Previous>, k: nat -> real, theta: real, jitter: nat -> (real, real))
      returns (ghost b: Box)
    requires |fixed| == previous.Length == |points| && forall i :: 0 <= i < |points| ==> points[i].index == i
    modifies previous
    ensures forall i :: 0 <= i < |points| ==> InBox(points[i], b)
    ensures var tree, places := Jittered(Build(points, b), jitter), Placed(Build(points, b), jitter, points);
      forall i :: 0 <= i < |points| ==>
        previous[i] == if fixed[i] then old(previous[i]) else Visit(Repulse(k, places[i], theta), old(previous[i]), tree, b)
    ensures var tree, places := Jittered(Build(points, b), jitter), Placed(Build(points, b), jitter, points);
      forall i :: 0 <= i < |points| && !fixed[i] ==>
        (previous[i] == Lost <==> old(previous[i]) == Lost || LosesBelow(k, places[i], theta, tree))
    ensures Apart(points) && points != [] && SameSign(k) ==> NoneCancels(k, Build(points, b))
    ensures Apart(points) && theta == 0.0 && NoneCancels(k, Build(points, b)) ==> forall i :: 0 <= i < |points| && !fixed[i] ==>
      previous[i] == AllPairs(k, points[i], old(previous[i]), points)
  {
    hide InBox, Charged, Repulse, LosesBelow, Jittered, Placed, Visit, Build, WellFormed, Apart, SameSign, NoneCancels, AllPairs;
    var square := SquareBounds(points);
    if square.None? {
      return Box(0.0, 0.0, 0.0, 0.0);
    }
    var bounds := square.value;
    b := bounds;
    var root := QuadtreeNodes.BuildTree(points, bounds);
    var places := ForceAccumulate(root, k, jitter, points);
    ghost var tree := root.model;
    for n := 0 to |points|
      invariant root.Valid() && Charged(k, root) && root.model == tree
      invariant forall i :: 0 <= i < n ==>
        previous[i] == if fixed[i] then old(previous[i]) else Visit(Repulse(k, places[i], theta), old(previous[i]), tree, b)
      invariant forall i :: n <= i < |points| ==> previous[i] == old(previous[i])
    {
      if !fixed[n] {
        previous[n] := RepulseFrom(root, k, places[n], theta, previous[n], bounds);
      }
    }
    JitteredWellFormed(Build(points, b), jitter);
    forall i | 0 <= i < |points| && !fixed[i]
      ensures previous[i] == Lost <==> old(previous[i]) == Lost || LosesBelow(k, places[i], theta, tree)
    {
      VisitLosesIff(k, places[i], theta, old(previous[i]), tree, b);
    }
    if Apart(points) {
      forall i | 0 <= i < |points| ensures TickAgrees(points, b, k, jitter, points[i], old(previous[i])) {
        TickIsAllPairs(points, b, k, jitter, points[i], old(previous[i]));
      }
      assert TickAgrees(points, b, k, jitter, points[0], old(previous[0]));
    }
  }

  // With theta 0 the visit of the accumulated tree is the all-pairs repulsion unless something cancels out.
  ghost predicate TickAgrees(points: seq<Pt>, b: Box, k: nat -> real, jitter: nat -> (real, real), node: Pt, s: Previous)
    requires forall i :: 0 <= i < |points| ==> InBox(points[i], b)
  {
    var tree := Build(points, b);
    && Jittered(tree, jitter) == tree && Placed(tree, jitter, points) == points
    && (NoneCancels(k, tree) ==> Visit(Repulse(k, node, 0.0), s, tree, b) == AllPairs(k, node, s, points))
    && (SameSign(k) ==> NoneCancels(k, tree))
  }

  // For points that do not coincide: nothing is moved, and with theta 0 the visit is the all-pairs
  // repulsion unless charges cancel out at some inner node, which charges of one sign never do.
  lemma TickIsAllPairs(points: seq<Pt>, b: Box, k: nat -> real, jitter: nat -> (real, real), node: Pt, s: Previous)
    requires points != [] && Apart(points) && forall i :: 0 <= i < |points| ==> InBox(points[i], b)
    ensures TickAgrees(points, b, k, jitter, node, s)
  {
    hide InBox, Apart, SameSign, NoneCancels, Build, WellFormed, Shaped, Visit, Repulse, Jittered, Placed;
    BuildIsShaped(points, b, true);
    NothingJittered(Build(points, b), jitter);
    TidyStays(Build(points, b), jitter, points);
    if NoneCancels(k, Build(points, b)) {
      RepulsionIsAllPairs(k, node, s, points, b);
    }
    if SameSign(k) {
      SameSignCharges(k, Build(points, b));
      ChargingNoneCancels(k, Build(points, b));
    }
  }

  // The sum over a list of nodes of what the points take off the position of each.
  ghost function Taken(g: Pt -> Pt -> real, nodes: seq<Pt>, points: seq<Pt>): real {
    if nodes == [] then 0.0
    else
      var n := |nodes| - 1;
      Taken(g, nodes[..n], points) + ListTotal(g(nodes[n]), points)
  }

  ghost predicate Opposite(g: Pt -> Pt -> real) {
    forall p, q :: g(p)(q) == -g(q)(p)
  }

  lemma {:induction false} TakenByLast(g: Pt -> Pt -> real, nodes: seq<Pt>, points: seq<Pt>, q: Pt)
    requires Opposite(g) && points != [] && q == points[|points| - 1]
    ensures Taken(g, nodes, points) == Taken(g, nodes, points[..|points| - 1]) - ListTotal(g(q), nodes)
    decreases |nodes|
  {
    if nodes != [] {
      var n := |nodes| - 1;
      TakenByLast(g, nodes[..n], points, q);
      assert g(nodes[n])(q) == -g(q)(nodes[n]);
    }
  }

  lemma {:induction false} NothingTaken(g: Pt -> Pt -> real, points: seq<Pt>)
    requires Opposite(g)
    ensures Taken(g, points, points) == 0.0
    decreases |points|
  {
    if points != [] {
      var n := |points| - 1;
      NothingTaken(g, points[..n]);
      TakenByLast(g, points[..n], points, points[n]);
      assert g(points[n])(points[n]) == 0.0;
    }
  }

  ghost function AllX(k: nat -> real): Pt -> Pt -> real {
    node => PairX(k, node)
  }

  ghost function AllY(k: nat -> real): Pt -> Pt -> real {
    node => PairY(k, node)
  }

  lemma EqualChargesOppose(k: nat -> real, c: real)
    requires forall i: nat :: k(i) == c
    ensures Opposite(AllX(k)) && Opposite(AllY(k))
  {
    forall p: Pt, q: Pt ensures AllX(k)(p)(q) == -AllX(k)(q)(p) && AllY(k)(p)(q) == -AllY(k)(q)(p) {
      var dx, dy := q.x - p.x, q.y - p.y;
      NegatedProduct(dx, dx);
      NegatedProduct(dy, dy);
      assert Square(dx, dy) == Product(dx, dx) + Product(dy, dy) == Square(p.x - q.x, p.y - q.y);
      NegatedPart(dx, c, Square(dx, dy));
      NegatedPart(dy, c, Square(dx, dy));
      hide ForcePart, Square;
    }
  }

  lemma NegatedPart(d: real, charge: real, square: real)
    ensures ForcePart(-d, charge, square) == -ForcePart(d, charge, square)
  {
  }

  // The sums of the previous positions of all nodes.
  ghost function SumX(all: seq<Previous>): real
    requires forall i :: 0 <= i < |all| ==> all[i].Previous?
  {
    if all == [] then 0.0 else SumX(all[..|all| - 1]) + all[|all| - 1].px
  }

  ghost function SumY(all: seq<Previous>): real
    requires forall i :: 0 <= i < |all| ==> all[i].Previous?
  {
    if all == [] then 0.0 else SumY(all[..|all| - 1]) + all[|all| - 1].py
  }

  lemma {:induction false} SumsAfter(k: nat -> real, nodes: seq<Pt>, points: seq<Pt>, before: seq<Previous>, after: seq<Previous>)
    requires |before| == |after| == |nodes| && forall i :: 0 <= i < |before| ==> before[i].Previous? && after[i].Previous?
    requires forall i :: 0 <= i < |nodes| ==> after[i] == AllPairs(k, nodes[i], before[i], points)
    ensures SumX(after) == SumX(before) - Taken(AllX(k), nodes, points) && SumY(after) == SumY(before) - Taken(AllY(k), nodes, points)
    decreases |nodes|
  {
    hide ListTotal, PairX, PairY;
    if nodes != [] {
      var n := |nodes| - 1;
      SumsAfter(k, nodes[..n], points, before[..n], after[..n]);
    }
  }

  // When all nodes have the same charge, which is the default, the charge forces of a tick with theta 0
  // leave the sum of the previous positions, and so the total momentum, as it was.
  lemma EqualChargesConserve(points: seq<Pt>, b: Box, k: nat -> real, c: real, before: seq<Previous>, after: seq<Previous>)
    requires (forall i :: 0 <= i < |points| ==> InBox(points[i], b)) && Apart(points) && points != []
    requires c != 0.0 && forall i: nat :: k(i) == c
    requires |before| == |after| == |points| && forall i :: 0 <= i < |before| ==> before[i].Previous?
    requires forall i :: 0 <= i < |points| ==> after[i] == Visit(Repulse(k, points[i], 0.0), before[i], Build(points, b), b)
    ensures (forall i :: 0 <= i < |after| ==> after[i].Previous?) && SumX(after) == SumX(before) && SumY(after) == SumY(before)
  {
    assert SameSign(k) by {
      assert forall i: nat :: At(k, i) == c;
    }
    hide InBox, Apart, Build, Visit, Repulse, SameSign, NoneCancels, PairX, PairY, Opposite, Shaped;
    forall i | 0 <= i < |points| ensures after[i] == AllPairs(k, points[i], before[i], points) {
      TickIsAllPairs(points, b, k, i => (0.0, 0.0), points[i], before[i]);
    }
    SumsAfter(k, points, points, before, after);
    EqualChargesOppose(k, c);
    NothingTaken(AllX(k), points);
    NothingTaken(AllY(k), points);
  }
}
