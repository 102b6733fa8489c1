// Bundling links: the path between two nodes of a tree through their least common ancestor.
module Bundle {
  class Node {
    const parent: Node?
    ghost const level: nat

    constructor (parent: Node?)
      requires parent != null ==> parent.Valid()
      ensures this.parent == parent && Valid()
    {
      this.parent := parent;
      level := if parent == null then 0 else parent.level + 1;
    }

    // Following parents ends at a root.
    ghost predicate Valid()
      decreases level
    {
      if parent == null then level == 0 else level == parent.level + 1 && parent.Valid()
    }
  }

  // ---------------------------------------------------------------- ancestors

  // The node, its parent, and so on up to the root.
  ghost function Ancestors(n: Node): (s: seq<Node>)
    requires n.Valid()
    ensures |s| == n.level + 1 && s[0] == n
    decreases n.level
  {
    if n.parent == null then [n] else [n] + Ancestors(n.parent)
  }

  ghost function Root(n: Node): Node
    requires n.Valid()
  {
    Ancestors(n)[n.level]
  }

  lemma {:induction false} AncestorsOfAncestor(n: Node, k: nat)
    requires n.Valid() && k <= n.level
    ensures var m := Ancestors(n)[k]; m.Valid() && m.level == n.level - k && Ancestors(n)[k..] == Ancestors(m)
    decreases k
  {
    if k > 0 {
      AncestorsOfAncestor(n.parent, k - 1);
      assert Ancestors(n)[k..] == Ancestors(n.parent)[k - 1..];
    }
  }

  lemma ParentOfAncestor(n: Node, k: nat)
    requires n.Valid() && k < n.level
    ensures Ancestors(n)[k].parent == Ancestors(n)[k + 1]
  {
    AncestorsOfAncestor(n, k);
    var m := Ancestors(n)[k];
    assert Ancestors(n)[k..][1] == Ancestors(m)[1];
  }

  lemma AncestorsDiffer(n: Node, i: nat, j: nat)
    requires n.Valid() && i < j <= n.level
    ensures Ancestors(n)[i] != Ancestors(n)[j]
  {
    AncestorsOfAncestor(n, i);
    AncestorsOfAncestor(n, j);
  }

  method BundleAncestors(n: Node) returns (ancestors: seq<Node>)
    requires n.Valid()
    ensures ancestors == Ancestors(n)
  {
    ancestors := [];
    var node: Node, parent: Node? := n, n.parent;
    while parent != null
      invariant node.Valid() && parent == node.parent
      invariant ancestors + Ancestors(node) == Ancestors(n)
      decreases node.level
    {
      assert ancestors + ([node] + Ancestors(parent)) == ancestors + [node] + Ancestors(parent);
      ancestors := ancestors + [node];
      node := parent;
      parent := parent.parent;
    }
    ancestors := ancestors + [node];
  }

  // ---------------------------------------------------------------- the least common ancestor

  ghost function FromEnd(a: seq<Node>, i: nat): Node
    requires i < |a|
  {
    a[|a| - 1 - i]
  }

  // The last s nodes of both lists are the same.
  ghost predicate EndAlike(a: seq<Node>, b: seq<Node>, s: nat) {
    s <= |a| && s <= |b| && forall i: nat :: i < s ==> FromEnd(a, i) == FromEnd(b, i)
  }

  // How many nodes the ends of both lists share, when they share s.
  ghost function CommonEnd(a: seq<Node>, b: seq<Node>, s: nat): (t: nat)
    requires EndAlike(a, b, s)
    ensures s <= t && EndAlike(a, b, t)
    ensures t < |a| && t < |b| ==> FromEnd(a, t) != FromEnd(b, t)
    decreases |a| - s
  {
    if s < |a| && s < |b| && FromEnd(a, s) == FromEnd(b, s) then CommonEnd(a, b, s + 1) else s
  }

  ghost predicate SameTree(a: Node, b: Node) {
    a.Valid() && b.Valid() && Root(a) == Root(b)
  }

  // How far above a the two lines of ancestors meet.
  ghost function Turn(a: Node, b: Node): (u: nat)
    requires SameTree(a, b)
    ensures u <= a.level
  {
    a.level + 1 - CommonEnd(Ancestors(a), Ancestors(b), 0)
  }

  ghost function Lca(a: Node, b: Node): Node
    requires SameTree(a, b)
  {
    Ancestors(a)[Turn(a, b)]
  }

  lemma Meet(a: Node, b: Node)
    requires SameTree(a, b)
    ensures a.level - Turn(a, b) == b.level - Turn(b, a) && Lca(a, b) == Lca(b, a)
  {
    hide Ancestors;
    var s := CommonEnd(Ancestors(a), Ancestors(b), 0);
    EndUnique(Ancestors(a), Ancestors(b), CommonEnd(Ancestors(b), Ancestors(a), 0));
    assert FromEnd(Ancestors(a), s - 1) == FromEnd(Ancestors(b), s - 1);
  }

  // A shared end is no longer than the longest, and the longest is unique.
  lemma EndUnique(a: seq<Node>, b: seq<Node>, s: nat)
    requires EndAlike(a, b, s)
    ensures s <= CommonEnd(a, b, 0)
    ensures (s < |a| && s < |b| ==> FromEnd(a, s) != FromEnd(b, s)) ==> s == CommonEnd(a, b, 0)
  {
  }

  // Any node above both is above the turning point, or is it.
  lemma CommonAncestor(a: Node, b: Node, i: nat, j: nat)
    requires SameTree(a, b) && i <= a.level && j <= b.level && Ancestors(a)[i] == Ancestors(b)[j]
    ensures Turn(a, b) <= i && Turn(b, a) <= j && a.level - i == b.level - j
  {
    AncestorsOfAncestor(a, i);
    AncestorsOfAncestor(b, j);
    hide Ancestors;
    var s := a.level + 1 - i;
    forall k: nat | k < s ensures FromEnd(Ancestors(a), k) == FromEnd(Ancestors(b), k) {
      assert Ancestors(a)[i..][s - 1 - k] == Ancestors(b)[j..][s - 1 - k];
    }
    EndUnique(Ancestors(a), Ancestors(b), s);
    Meet(a, b);
  }

  // The turning point is an ancestor of both, and the deepest such.
  lemma LcaIsDeepest(a: Node, b: Node, d: Node)
    requires SameTree(a, b)
    ensures Lca(a, b) in Ancestors(a) && Lca(a, b) in Ancestors(b)
    ensures d in Ancestors(a) && d in Ancestors(b) ==> d.level <= Lca(a, b).level
  {
    Meet(a, b);
    assert Lca(b, a) == Ancestors(b)[Turn(b, a)];
    AncestorsOfAncestor(a, Turn(a, b));
    if d in Ancestors(a) && d in Ancestors(b) {
      var i :| 0 <= i < |Ancestors(a)| && Ancestors(a)[i] == d;
      var j :| 0 <= j < |Ancestors(b)| && Ancestors(b)[j] == d;
      CommonAncestor(a, b, i, j);
      AncestorsOfAncestor(a, i);
    }
  }

  method LeastCommonAncestor(a: Node, b: Node) returns (shared: Node?)
    requires SameTree(a, b)
    ensures shared == Lca(a, b)
  {
    if a == b {
      SelfMeets(a);
      return a;
    }
    hide *;
    var aNodes := BundleAncestors(a);
    var bNodes := BundleAncestors(b);
    ghost var all, bll, s := aNodes, bNodes, 0;
    NothingPopped(all, bll);
    var aNode, bNode := Last(aNodes), Last(bNodes);
    aNodes, bNodes := Popped(aNodes), Popped(bNodes);
    shared := null;
    while aNode == bNode
      invariant s <= |all| && s <= |bll| && EndAlike(all, bll, s) && (s < |all| || s < |bll|)
      invariant aNode == Last(all[..|all| - s]) && aNodes == Popped(all[..|all| - s])
      invariant bNode == Last(bll[..|bll| - s]) && bNodes == Popped(bll[..|bll| - s])
      invariant s > 0 ==> s <= |all| && shared == FromEnd(all, s - 1)
      decreases |all| - s
    {
      PoppedAlike(all, bll, s);
      shared := aNode;
      s := s + 1;
      aNode, aNodes := Last(aNodes), Popped(aNodes);
      bNode, bNodes := Last(bNodes), Popped(bNodes);
    }
    PoppedUnlike(a, b, s);
  }

  lemma NothingPopped(a: seq<Node>, b: seq<Node>)
    ensures EndAlike(a, b, 0) && a[..|a| - 0] == a && b[..|b| - 0] == b
  {
  }

  // Equal nodes were popped from both lists, so both had some left; not both are empty now, because
  // their first nodes differ.
  lemma PoppedAlike(a: seq<Node>, b: seq<Node>, s: nat)
    requires a != [] && b != [] && a[0] != b[0] && EndAlike(a, b, s) && (s < |a| || s < |b|)
    requires Last(a[..|a| - s]) == Last(b[..|b| - s])
    ensures s < |a| && s < |b| && EndAlike(a, b, s + 1) && (s + 1 < |a| || s + 1 < |b|)
    ensures Popped(a[..|a| - s]) == a[..|a| - (s + 1)] && Popped(b[..|b| - s]) == b[..|b| - (s + 1)]
    ensures Last(a[..|a| - s]) == FromEnd(a, s)
  {
    assert FromEnd(a, |a| - 1) == a[0] && FromEnd(b, |b| - 1) == b[0];
  }

  lemma PoppedUnlike(a: Node, b: Node, s: nat)
    requires SameTree(a, b) && EndAlike(Ancestors(a), Ancestors(b), s)
    requires Last(Ancestors(a)[..|Ancestors(a)| - s]) != Last(Ancestors(b)[..|Ancestors(b)| - s])
    ensures 0 < s <= |Ancestors(a)| && FromEnd(Ancestors(a), s - 1) == Lca(a, b)
  {
    hide Ancestors;
    EndUnique(Ancestors(a), Ancestors(b), s);
  }

  // What pop gives, and what it leaves; there is nothing to take from an empty list.
  function Last(nodes: seq<Node>): Node? {
    if nodes == [] then null else nodes[|nodes| - 1]
  }

  function Popped(nodes: seq<Node>): seq<Node> {
    if nodes == [] then [] else nodes[..|nodes| - 1]
  }

  lemma SelfMeets(a: Node)
    requires a.Valid()
    ensures Lca(a, a) == a
  {
    EndUnique(Ancestors(a), Ancestors(a), a.level + 1);
  }

  // ---------------------------------------------------------------- the path

  ghost function Reverse(s: seq<Node>): (r: seq<Node>)
    ensures |r| == |s| && forall i :: 0 <= i < |s| ==> r[i] == s[|s| - 1 - i]
  {
    seq(|s|, i requires 0 <= i < |s| => s[|s| - 1 - i])
  }

  ghost function Path(a: Node, b: Node): (p: seq<Node>)
    requires SameTree(a, b)
  {
    Ancestors(a)[..Turn(a, b) + 1] + Reverse(Ancestors(b)[..Turn(b, a)])
  }

  // The nodes from start up to the u-th ancestor.
  method Climb(start: Node, lca: Node, ghost u: nat) returns (points: seq<Node>)
    requires start.Valid() && u <= start.level && lca == Ancestors(start)[u]
    ensures points == Ancestors(start)[..u + 1]
  {
    hide Ancestors, Node.Valid;
    ghost var i, a := 0, Ancestors(start);
    var node := start;
    points := [node];
    while node != lca
      invariant i <= u && node == a[i] && points == a[..i + 1]
      decreases u - i
    {
      ParentOfAncestor(start, i);
      assert a[..i + 1 + 1] == a[..i + 1] + [a[i + 1]];
      node := node.parent;
      points := points + [node];
      i := i + 1;
    }
    if i < u {
      AncestorsDiffer(start, i, u);
    }
  }

  // A link is replaced by the path from its source up to the turning point and down to its target.
  method BundlePath(source: Node, target: Node) returns (points: seq<Node>)
    requires SameTree(source, target)
    ensures points == Path(source, target)
  {
    hide Ancestors, Node.Valid, Reverse, CommonEnd;
    var lca := LeastCommonAncestor(source, target);
    Meet(source, target);
    ghost var up, b, v, j := Ancestors(source)[..Turn(source, target) + 1], Ancestors(target), Turn(target, source), 0;
    points := Climb(source, lca, Turn(source, target));
    var end := target;
    var k := |points|;
    NothingReversed(up, b);
    while end != lca
      invariant j <= v && end == b[j] && points == up + Reverse(b[..j])
      decreases v - j
    {
      ParentOfAncestor(target, j);
      OneMoreReversed(b, j);
      assert points[..k] == up && points[k..] == Reverse(b[..j]);
      assert up + [end] + Reverse(b[..j]) == up + ([end] + Reverse(b[..j]));
      points := points[..k] + [end] + points[k..];
      end := end.parent;
      j := j + 1;
    }
    if j < v {
      AncestorsDiffer(target, j, v);
    }
  }

  lemma NothingReversed(s: seq<Node>, b: seq<Node>)
    ensures s + Reverse(b[..0]) == s
  {
    assert b[..0] == [];
  }

  lemma OneMoreReversed(b: seq<Node>, j: nat)
    requires j < |b|
    ensures Reverse(b[..j + 1]) == [b[j]] + Reverse(b[..j])
  {
  }

  // ---------------------------------------------------------------- simple paths

  predicate Adjacent(m: Node, n: Node) {
    m.parent == n || n.parent == m
  }

  // Leads from a to b along parents and children, with no node twice.
  predicate SimplePath(p: seq<Node>, a: Node, b: Node) {
    && p != [] && p[0] == a && p[|p| - 1] == b
    && (forall i, j :: 0 <= i && j == i + 1 < |p| ==> Adjacent(p[i], p[j]))
    && (forall i, j :: 0 <= i < j < |p| ==> p[i] != p[j])
  }

  // Up the line of a to the turning point, then down the line of b.
  lemma PathAt(a: Node, b: Node)
    requires SameTree(a, b)
    ensures var p, u, v := Path(a, b), Turn(a, b), Turn(b, a);
      && v <= b.level && |p| == u + 1 + v && p[0] == a && p[u + v] == b
      && (forall i :: 0 <= i <= u ==> p[i] == Ancestors(a)[i])
      && (forall i :: u < i <= u + v ==> p[i] == Ancestors(b)[u + v - i])
      && Ancestors(a)[u] == Ancestors(b)[v]
  {
    hide Ancestors;
    Meet(a, b);
  }

  lemma PathIsSimple(a: Node, b: Node)
    requires SameTree(a, b)
    ensures SimplePath(Path(a, b), a, b)
  {
    hide Ancestors, Path, Turn, Node.Valid;
    var p, u, v := Path(a, b), Turn(a, b), Turn(b, a);
    PathAt(a, b);
    forall i, j | 0 <= i && j == i + 1 < |p| ensures Adjacent(p[i], p[j]) {
      if i < u {
        ParentOfAncestor(a, i);
      } else {
        ParentOfAncestor(b, u + v - j);
      }
    }
    forall i, j | 0 <= i < j < |p| ensures p[i] != p[j] {
      if j <= u {
        AncestorsDiffer(a, i, j);
      } else if i > u {
        AncestorsDiffer(b, u + v - j, u + v - i);
      } else if p[i] == p[j] {
        CommonAncestor(a, b, i, u + v - j);
      }
    }
  }

  // Once a simple path goes down it does not go up again.
  lemma {:induction false} GoesOnDown(p: seq<Node>, a: Node, b: Node, u: nat, i: nat)
    requires SimplePath(p, a, b) && u <= i < |p| - 1 && p[u].parent != p[u + 1]
    ensures p[i + 1].parent == p[i]
    decreases i
  {
    assert Adjacent(p[i], p[i + 1]);
    if i > u {
      GoesOnDown(p, a, b, u, i - 1);
    }
  }

  lemma {:induction false} UpPart(p: seq<Node>, a: Node, b: Node, u: nat, i: nat)
    requires SimplePath(p, a, b) && a.Valid() && i <= u < |p| && forall j :: 0 <= j < u ==> p[j].parent == p[j + 1]
    ensures i <= a.level && p[i] == Ancestors(a)[i]
    decreases i
  {
    if i > 0 {
      UpPart(p, a, b, u, i - 1);
      AncestorsOfAncestor(a, i - 1);
      assert p[i - 1].parent == p[i] && p[i - 1].level > 0;
      ParentOfAncestor(a, i - 1);
    }
  }

  lemma {:induction false} DownPart(p: seq<Node>, a: Node, b: Node, u: nat, i: nat)
    requires SimplePath(p, a, b) && b.Valid() && u + i < |p| && (u + 1 < |p| ==> p[u].parent != p[u + 1])
    ensures i <= b.level && p[|p| - 1 - i] == Ancestors(b)[i]
    decreases i
  {
    if i > 0 {
      DownPart(p, a, b, u, i - 1);
      GoesOnDown(p, a, b, u, |p| - 1 - i);
      AncestorsOfAncestor(b, i - 1);
      ParentOfAncestor(b, i - 1);
    }
  }

  lemma {:induction false} FirstNotUp(p: seq<Node>) returns (u: nat)
    requires p != []
    ensures u < |p| && (u + 1 < |p| ==> p[u].parent != p[u + 1]) && forall j :: 0 <= j < u ==> p[j].parent == p[j + 1]
  {
    u := 0;
    while u + 1 < |p| && p[u].parent == p[u + 1]
      invariant u < |p| && forall j :: 0 <= j < u ==> p[j].parent == p[j + 1]
    {
      u := u + 1;
    }
  }

  // The path turns at the least common ancestor: any other one would put that on both its parts.
  lemma TurnIs(a: Node, b: Node, p: seq<Node>, u: nat, v: nat)
    requires SameTree(a, b) && SimplePath(p, a, b) && u + v == |p| - 1 && Turn(a, b) <= u && Turn(b, a) <= v
    requires (u + 1 < |p| ==> p[u].parent != p[u + 1]) && forall j :: 0 <= j < u ==> p[j].parent == p[j + 1]
    requires a.level - u == b.level - v
    ensures u == Turn(a, b) && v == Turn(b, a)
  {
    hide Ancestors;
    var s, t := Turn(a, b), Turn(b, a);
    Meet(a, b);
    UpPart(p, a, b, u, s);
    DownPart(p, a, b, u, t);
    assert p[s] == p[|p| - 1 - t];
  }

  // The bundle path is the only simple path between the two nodes.
  lemma PathIsUnique(a: Node, b: Node, p: seq<Node>)
    requires SameTree(a, b) && SimplePath(p, a, b)
    ensures p == Path(a, b)
  {
    var u := FirstNotUp(p);
    var v := |p| - 1 - u;
    UpPart(p, a, b, u, u);
    DownPart(p, a, b, u, v);
    CommonAncestor(a, b, u, v);
    Meet(a, b);
    TurnIs(a, b, p, u, v);
    hide Ancestors;
    forall i | 0 <= i <= u ensures p[i] == Ancestors(a)[i] {
      UpPart(p, a, b, u, i);
    }
    forall i | u < i < |p| ensures p[i] == Ancestors(b)[|p| - 1 - i] {
      DownPart(p, a, b, u, |p| - 1 - i);
    }
    assert forall i :: 0 <= i < |p| ==> p[i] == Path(a, b)[i];
  }
}
