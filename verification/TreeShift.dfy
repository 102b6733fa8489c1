// Lazy shifting of subtrees in the tree layout: moves only leave notes, one pass carries them out.
module TreeShift {
  // The temporary layout variables of a node.
  class Node {
    const number: nat
    var prelim: real
    var mod: real
    var change: real
    var shift: real

    constructor (number: nat, prelim: real, mod: real)
      ensures this.number == number && this.prelim == prelim && this.mod == mod && change == 0.0 == shift
    {
      this.number, this.prelim, this.mod := number, prelim, mod;
      change, shift := 0.0, 0.0;
    }
  }

  // Sibling j moves s to the right, the ones between i and j in proportion.
  datatype Move = Move(i: nat, j: nat, s: real)

  predicate MoveFits(m: Move, n: nat) {
    m.i < m.j < n
  }

  predicate MovesFit(moves: seq<Move>, n: nat) {
    forall k :: 0 <= k < |moves| ==> MoveFits(moves[k], n)
  }

  // ---------------------------------------------------------------- what a move means for sibling k

  function Step(m: Move): real
    requires m.i < m.j
  {
    m.s / (m.j - m.i) as real
  }

  // The part-th of all equal parts of s, counted from zero.
  function Share(s: real, part: int, all: int): real
    requires all != 0
  {
    s * part as real / all as real
  }

  function EagerOne(m: Move, k: int): real
    requires m.i < m.j
  {
    if m.i < k <= m.j then Share(m.s, k - m.i, m.j - m.i) else 0.0
  }

  function Eager(moves: seq<Move>, n: nat, k: int): real
    requires MovesFit(moves, n)
  {
    if moves == [] then 0.0 else Eager(moves[..|moves| - 1], n, k) + EagerOne(moves[|moves| - 1], k)
  }

  // ---------------------------------------------------------------- the notes and the pass, as values

  function ChangeOne(m: Move, k: int): real
    requires m.i < m.j
  {
    if k == m.i then Step(m) else if k == m.j then -Step(m) else 0.0
  }

  function ShiftOne(m: Move, k: int): real {
    if k == m.j then m.s else 0.0
  }

  // Shift and change accumulated by the pass over the siblings from k on.
  ghost function Changes(change: int -> real, k: nat, n: nat): real
    requires k <= n
    decreases n - k
  {
    if k == n then 0.0 else Changes(change, k + 1, n) + change(k)
  }

  ghost function Shifts(shift: int -> real, change: int -> real, k: nat, n: nat): real
    requires k <= n
    decreases n - k
  {
    if k == n then 0.0 else Shifts(shift, change, k + 1, n) + (shift(k) + Changes(change, k, n))
  }

  ghost function ChangeOf(moves: seq<Move>, n: nat, k: int): real
    requires MovesFit(moves, n)
  {
    if moves == [] then 0.0 else ChangeOf(moves[..|moves| - 1], n, k) + ChangeOne(moves[|moves| - 1], k)
  }

  ghost function ShiftOf(moves: seq<Move>, n: nat, k: int): real
    requires MovesFit(moves, n)
  {
    if moves == [] then 0.0 else ShiftOf(moves[..|moves| - 1], n, k) + ShiftOne(moves[|moves| - 1], k)
  }

  ghost function ChangesOf(moves: seq<Move>, n: nat): int -> real
    requires MovesFit(moves, n)
  {
    k => ChangeOf(moves, n, k)
  }

  ghost function ShiftsOf(moves: seq<Move>, n: nat): int -> real
    requires MovesFit(moves, n)
  {
    k => ShiftOf(moves, n, k)
  }

  ghost function MoveChanges(m: Move): int -> real
    requires m.i < m.j
  {
    k => ChangeOne(m, k)
  }

  ghost function MoveShifts(m: Move): int -> real {
    k => ShiftOne(m, k)
  }

  // ---------------------------------------------------------------- one move

  lemma {:induction false} OneChange(m: Move, n: nat, k: nat, c: real)
    requires MoveFits(m, n) && k <= n && c == Step(m)
    ensures Changes(MoveChanges(m), k, n) == if m.i < k <= m.j then -c else 0.0
    decreases n - k
  {
    hide Step;
    if k < n {
      OneChange(m, n, k + 1, c);
    }
  }

  lemma {:induction false} OneShift(m: Move, n: nat, k: nat, c: real)
    requires MoveFits(m, n) && k <= n && c == Step(m)
    ensures Shifts(MoveShifts(m), MoveChanges(m), k, n)
      == if m.i < k <= m.j then m.s - Steps(m.j - k + 1, c) else 0.0
    decreases n - k
  {
    hide Step;
    if k < n {
      OneShift(m, n, k + 1, c);
      OneChange(m, n, k, c);
      WholeStep(m, c);
      assert Steps(m.j - k + 1, c) == Steps(m.j - k, c) + c;
      assert k == m.j ==> Steps(1, c) == c;
    }
  }

  function Steps(count: int, c: real): real {
    count as real * c
  }

  lemma WholeStep(m: Move, c: real)
    requires m.i < m.j && c == Step(m)
    ensures Steps(m.j - m.i, c) == m.s
  {
  }

  // What the pass adds to sibling k, and what the move itself added.
  lemma OneMoveIsEager(m: Move, n: nat, k: nat)
    requires MoveFits(m, n) && k < n
    ensures ShiftOne(m, k) + Shifts(MoveShifts(m), MoveChanges(m), k + 1, n) == EagerOne(m, k)
  {
    hide Steps, Share, Step;
    var c := Step(m);
    OneShift(m, n, k + 1, c);
    WholeStep(m, c);
    Proportion(m.s, c, k - m.i, m.j - k, m.j - m.i);
  }

  lemma Proportion(s: real, c: real, before: int, after: int, all: int)
    requires all == before + after && Steps(all, c) == s && all != 0
    ensures s - Steps(after, c) == Share(s, before, all)
    ensures Share(s, all, all) == s && Steps(0, c) == 0.0
  {
    var x, y := before as real, after as real;
    assert s - y * c == x * c;
    assert s * x == (x + y) * (x * c);
    Divided(x + y, x * c);
    Divided(x + y, s);
  }

  lemma Divided(d: real, v: real)
    requires d != 0.0
    ensures d * v / d == v
  {
  }

  // ---------------------------------------------------------------- all moves

  lemma {:induction false} ChangesAdd(f: int -> real, g: int -> real, h: int -> real, k: nat, n: nat)
    requires k <= n && forall i :: h(i) == f(i) + g(i)
    ensures Changes(h, k, n) == Changes(f, k, n) + Changes(g, k, n)
    decreases n - k
  {
    if k < n {
      ChangesAdd(f, g, h, k + 1, n);
    }
  }

  lemma {:induction false} ShiftsAdd(s: int -> real, f: int -> real, t: int -> real, g: int -> real, u: int -> real, h: int -> real, k: nat, n: nat)
    requires k <= n && (forall i :: h(i) == f(i) + g(i)) && forall i :: u(i) == s(i) + t(i)
    ensures Shifts(u, h, k, n) == Shifts(s, f, k, n) + Shifts(t, g, k, n)
    decreases n - k
  {
    hide Changes;
    if k < n {
      ShiftsAdd(s, f, t, g, u, h, k + 1, n);
      ChangesAdd(f, g, h, k, n);
    }
  }

  lemma {:induction false} NothingShifts(k: nat, n: nat)
    requires k <= n
    ensures Changes(ChangesOf([], n), k, n) == 0.0 && Shifts(ShiftsOf([], n), ChangesOf([], n), k, n) == 0.0
    decreases n - k
  {
    if k < n {
      NothingShifts(k + 1, n);
    }
  }

  lemma {:induction false} LazyIsEager(moves: seq<Move>, n: nat, k: nat)
    requires MovesFit(moves, n) && k < n
    ensures ShiftOf(moves, n, k) + Shifts(ShiftsOf(moves, n), ChangesOf(moves, n), k + 1, n) == Eager(moves, n, k)
    decreases |moves|
  {
    hide Shifts, EagerOne, Step;
    if moves == [] {
      NothingShifts(k + 1, n);
    } else {
      var init, m := moves[..|moves| - 1], moves[|moves| - 1];
      LazyIsEager(init, n, k);
      OneMoveIsEager(m, n, k);
      ShiftsAdd(ShiftsOf(init, n), ChangesOf(init, n), MoveShifts(m), MoveChanges(m), ShiftsOf(moves, n), ChangesOf(moves, n), k + 1, n);
    }
  }

  // ---------------------------------------------------------------- the program

  ghost predicate Siblings(children: seq<Node>) {
    && (forall k :: 0 <= k < |children| ==> children[k].number == k)
    && (forall j, k :: 0 <= j < k < |children| ==> children[j] != children[k])
  }

  method TreeMove(ancestor: Node, node: Node, shift: real)
    requires ancestor.number != node.number
    modifies ancestor`change, node
    ensures var change := shift / (node.number - ancestor.number) as real;
      && ancestor.change == old(ancestor.change) + change && node.change == old(node.change) - change
      && node.shift == old(node.shift) + shift && node.prelim == old(node.prelim) + shift && node.mod == old(node.mod) + shift
  {
    var change := shift / (node.number - ancestor.number) as real;
    ancestor.change := ancestor.change + change;
    node.change := node.change - change;
    node.shift := node.shift + shift;
    node.prelim := node.prelim + shift;
    node.mod := node.mod + shift;
  }

  ghost function NodeShifts(children: seq<Node>): seq<real>
    reads children
  {
    seq(|children|, k requires 0 <= k < |children| reads children => children[k].shift)
  }

  ghost function NodeChanges(children: seq<Node>): seq<real>
    reads children
  {
    seq(|children|, k requires 0 <= k < |children| reads children => children[k].change)
  }

  ghost function From(s: seq<real>): int -> real {
    k => if 0 <= k < |s| then s[k] else 0.0
  }

  // The pass over the children of a node, from the last to the first.
  method TreeShift(children: seq<Node>)
    requires Siblings(children)
    modifies children
    ensures forall k :: 0 <= k < |children| ==>
      var lazy := Shifts(From(old(NodeShifts(children))), From(old(NodeChanges(children))), k + 1, |children|);
      children[k].prelim == old(children[k].prelim) + lazy && children[k].mod == old(children[k].mod) + lazy
  {
    var n := |children|;
    ghost var s, c := From(NodeShifts(children)), From(NodeChanges(children));
    var shift, change := 0.0, 0.0;
    var i := n;
    while i > 0
      invariant 0 <= i <= n
      invariant shift == Shifts(s, c, i, n) && change == Changes(c, i, n)
      invariant forall k :: 0 <= k < n ==> children[k].shift == old(children[k].shift) && children[k].change == old(children[k].change)
      invariant forall k :: 0 <= k < i ==> children[k].prelim == old(children[k].prelim) && children[k].mod == old(children[k].mod)
      invariant forall k :: i <= k < n ==>
        children[k].prelim == old(children[k].prelim) + Shifts(s, c, k + 1, n) && children[k].mod == old(children[k].mod) + Shifts(s, c, k + 1, n)
    {
      i := i - 1;
      var child := children[i];
      child.prelim := child.prelim + shift;
      child.mod := child.mod + shift;
      change := change + child.change;
      shift := shift + (child.shift + change);
    }
  }

  lemma {:induction false} SameNotes(s: int -> real, t: int -> real, c: int -> real, d: int -> real, k: nat, n: nat)
    requires k <= n && forall i :: k <= i < n ==> s(i) == t(i) && c(i) == d(i)
    ensures Changes(c, k, n) == Changes(d, k, n) && Shifts(s, c, k, n) == Shifts(t, d, k, n)
    decreases n - k
  {
    if k < n {
      SameNotes(s, t, c, d, k + 1, n);
    }
  }

  // The notes that the moves so far have left on fresh siblings.
  ghost predicate Noted(children: seq<Node>, moves: seq<Move>, prelim: seq<real>, mod: seq<real>)
    requires |prelim| == |mod| == |children|
    reads children
  {
    MovesFit(moves, |children|) && forall k :: 0 <= k < |children| ==>
      && children[k].change == ChangeOf(moves, |children|, k) && children[k].shift == ShiftOf(moves, |children|, k)
      && children[k].prelim == prelim[k] + ShiftOf(moves, |children|, k) && children[k].mod == mod[k] + ShiftOf(moves, |children|, k)
  }

  lemma MoveNoted(moves: seq<Move>, n: nat, m: Move, k: nat)
    requires MovesFit(moves, n) && MoveFits(m, n)
    ensures MovesFit(moves + [m], n)
    ensures ChangeOf(moves + [m], n, k) == ChangeOf(moves, n, k) + ChangeOne(m, k)
    ensures ShiftOf(moves + [m], n, k) == ShiftOf(moves, n, k) + ShiftOne(m, k)
  {
    assert (moves + [m])[..|moves|] == moves;
  }

  method MoveOne(children: seq<Node>, ghost moves: seq<Move>, m: Move, ghost prelim: seq<real>, ghost mod: seq<real>)
    requires Siblings(children) && |prelim| == |mod| == |children|
    requires Noted(children, moves, prelim, mod) && MoveFits(m, |children|)
    modifies children
    ensures Noted(children, moves + [m], prelim, mod)
  {
    hide ChangeOf, ShiftOf, Step;
    forall k | 0 <= k < |children| {
      MoveNoted(moves, |children|, m, k);
    }
    StepIs(m);
    TreeMove(children[m.i], children[m.j], m.s);
  }

  lemma StepIs(m: Move)
    requires m.i < m.j
    ensures Step(m) == m.s / (m.j - m.i) as real
  {
  }

  // What the pass is going to add to sibling k.
  lemma PassIsEager(children: seq<Node>, moves: seq<Move>, prelim: seq<real>, mod: seq<real>, k: nat)
    requires |prelim| == |mod| == |children| && k < |children| && Noted(children, moves, prelim, mod)
    ensures var n := |children|;
      ShiftOf(moves, n, k) + Shifts(From(NodeShifts(children)), From(NodeChanges(children)), k + 1, n) == Eager(moves, n, k)
  {
    hide ChangeOf, ShiftOf, Shifts, Eager;
    var n := |children|;
    LazyIsEager(moves, n, k);
    SameNotes(From(NodeShifts(children)), ShiftsOf(moves, n), From(NodeChanges(children)), ChangesOf(moves, n), k + 1, n);
  }

  // Any moves among fresh siblings, then one pass: every sibling has moved as if each move had shifted
  // it at once.
  method MoveAndShift(children: seq<Node>, moves: seq<Move>)
    requires Siblings(children) && MovesFit(moves, |children|)
    requires forall k :: 0 <= k < |children| ==> children[k].change == 0.0 == children[k].shift
    modifies children
    ensures forall k :: 0 <= k < |children| ==>
      && children[k].prelim == old(children[k].prelim) + Eager(moves, |children|, k)
      && children[k].mod == old(children[k].mod) + Eager(moves, |children|, k)
  {
    var n := |children|;
    ghost var prelim := seq(n, k requires 0 <= k < n reads children => children[k].prelim);
    ghost var mod := seq(n, k requires 0 <= k < n reads children => children[k].mod);
    hide Eager, Shifts;
    for i := 0 to |moves|
      invariant Noted(children, moves[..i], prelim, mod)
    {
      assert moves[..i + 1] == moves[..i] + [moves[i]];
      assert MoveFits(moves[i], n);
      MoveOne(children, moves[..i], moves[i], prelim, mod);
    }
    assert moves[..|moves|] == moves;
    hide ChangeOf, ShiftOf;
    forall k | 0 <= k < n {
      PassIsEager(children, moves, prelim, mod, k);
    }
    TreeShift(children);
  }
}
