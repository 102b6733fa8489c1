// The keyed data join of a group of nodes with a list of data.
module DataJoin {
  import opened Wrappers

  // Keys are names of properties.
  type Key = string

  class Node<D> {
    var data: D

    constructor (data: D)
      ensures this.data == data
    {
      this.data := data;
    }
  }

  // ---------------------------------------------------------------- where the join puts nodes and data

  // The first index of k; the length when there is none.
  function IndexOf(keys: seq<Key>, k: Key): (i: nat)
    ensures i <= |keys| && (i < |keys| <==> k in keys) && (i < |keys| ==> keys[i] == k)
    ensures forall j :: 0 <= j < i ==> keys[j] != k
  {
    if keys == [] || keys[0] == k then 0 else 1 + IndexOf(keys[1..], k)
  }

  predicate Repeats(keys: seq<Key>, i: nat)
    requires i < |keys|
  {
    IndexOf(keys, keys[i]) < i
  }

  // The indices of the nodes whose key an earlier node has, in order.
  function Repeaters(keys: seq<Key>): (s: seq<nat>)
    ensures forall d :: 0 <= d < |s| ==> s[d] < |keys|
    ensures |s| <= |keys|
  {
    if keys == [] then []
    else
      var n := |keys| - 1;
      Repeaters(keys[..n]) + if Repeats(keys, n) then [n] else []
  }

  // The node that datum i is bound to: the first with its key, unless an earlier datum took it.
  function UpdateAt(keys: seq<Key>, dataKeys: seq<Key>, i: nat): Option<nat>
    requires i < |dataKeys|
  {
    if dataKeys[i] in keys && IndexOf(dataKeys, dataKeys[i]) == i then Some(IndexOf(keys, dataKeys[i])) else None
  }

  // The slots of the exit array: nodes without a datum at their own index, repeated keys from slot m on.
  predicate HasExit(keys: seq<Key>, dataKeys: seq<Key>, s: nat) {
    s < |dataKeys| || s < |dataKeys| + |Repeaters(keys)| || (s < |keys| && keys[s] !in dataKeys)
  }

  function ExitAt(keys: seq<Key>, dataKeys: seq<Key>, s: nat): (r: Option<nat>)
    ensures r.Some? ==> r.value < |keys|
  {
    if s < |keys| && keys[s] !in dataKeys then Some(s)
    else if |dataKeys| <= s < |dataKeys| + |Repeaters(keys)| then Some(Repeaters(keys)[s - |dataKeys|])
    else None
  }

  // The datum bound to node p once the first i data are bound: the first one with its key.
  function DatumOf(keys: seq<Key>, dataKeys: seq<Key>, p: nat, i: nat): (d: Option<nat>)
    requires p < |keys| && i <= |dataKeys|
    ensures d.Some? ==> d.value < |dataKeys|
  {
    if keys[p] in dataKeys[..i] && !Repeats(keys, p) then Some(IndexOf(dataKeys, keys[p])) else None
  }

  // ---------------------------------------------------------------- the join as the program runs it

  ghost function KeysOf<D>(group: seq<Node<D>>, join: (D, nat) -> Key): (keys: seq<Key>)
    reads group
    ensures |keys| == |group|
  {
    seq(|group|, i requires 0 <= i < |group| reads group => join(group[i].data, i))
  }

  ghost function DataKeysOf<D>(groupData: seq<D>, join: (D, nat) -> Key): (keys: seq<Key>)
    ensures |keys| == |groupData|
  {
    seq(|groupData|, i requires 0 <= i < |groupData| => join(groupData[i], i))
  }

  function NodeAt<D>(group: seq<Node<D>>, p: Option<nat>): Node?<D>
    requires p.Some? ==> p.value < |group|
  {
    if p.Some? then group[p.value] else null
  }

  // ---------------------------------------------------------------- first pass: the keys of the nodes

  // Each key not yet taken by a datum leads to the first node that has it.
  ghost predicate Indexes<D>(nodeByKey: map<Key, Node<D>>, group: seq<Node<D>>, keys: seq<Key>, taken: seq<Key>)
    requires |keys| <= |group|
  {
    && (forall k :: k in nodeByKey <==> k in keys && k !in taken)
    && (forall k :: k in nodeByKey ==> nodeByKey[k] == group[IndexOf(keys, k)])
  }

  // Nodes with a repeated key are in the slots from m on.
  ghost predicate Overflows<D>(exit: map<nat, Node?<D>>, group: seq<Node<D>>, keys: seq<Key>, m: nat)
    requires |keys| <= |group|
  {
    && (forall s: nat :: s in exit <==> m <= s < m + |Repeaters(keys)|)
    && (forall s: nat :: s in exit ==> exit[s] == group[Repeaters(keys)[s - m]])
  }

  lemma IndexOfAppended(keys: seq<Key>, key: Key, k: Key)
    ensures k in keys ==> IndexOf(keys + [key], k) == IndexOf(keys, k)
    ensures k !in keys && k == key ==> IndexOf(keys + [key], k) == |keys|
  {
    var all := keys + [key];
    assert all[|keys|] == key && forall j :: 0 <= j < |keys| ==> all[j] == keys[j];
    var i := IndexOf(all, k);
    if k in keys {
      assert all[IndexOf(keys, k)] == k;
    }
  }

  lemma RepeatersAppended(keys: seq<Key>, key: Key)
    ensures Repeaters(keys + [key]) == Repeaters(keys) + if key in keys then [|keys|] else []
  {
    var all := keys + [key];
    assert all[..|keys|] == keys;
    IndexOfAppended(keys, key, key);
  }

  lemma IndexesNext<D>(nodeByKey: map<Key, Node<D>>, group: seq<Node<D>>, keys: seq<Key>, key: Key)
    requires |keys| < |group| && Indexes(nodeByKey, group, keys, [])
    ensures Indexes(if key in nodeByKey then nodeByKey else nodeByKey[key := group[|keys|]], group, keys + [key], [])
  {
    hide IndexOf;
    forall k ensures k in keys ==> IndexOf(keys + [key], k) == IndexOf(keys, k) {
      IndexOfAppended(keys, key, k);
    }
    IndexOfAppended(keys, key, key);
    assert forall k :: k in keys + [key] <==> k in keys || k == key;
  }

  method IndexNodes<D>(group: seq<Node<D>>, m: nat, join: (D, nat) -> Key)
    returns (keys: seq<Key>, nodeByKey: map<Key, Node<D>>, exit: map<nat, Node?<D>>)
    ensures keys == KeysOf(group, join)
    ensures Indexes(nodeByKey, group, keys, []) && Overflows(exit, group, keys, m)
  {
    hide Indexes, Repeaters;
    keys, nodeByKey, exit := [], map[], map[];
    var j := m;
    NothingYet<D>(group, m);
    for i := 0 to |group|
      invariant keys == KeysOf(group, join)[..i]
      invariant Indexes(nodeByKey, group, keys, []) && Overflows(exit, group, keys, m)
      invariant j == m + |Repeaters(keys)|
    {
      var node := group[i];
      var key := join(node.data, i);
      IndexesNext(nodeByKey, group, keys, key);
      RepeatersAppended(keys, key);
      KeyIsIndexed(nodeByKey, group, keys, [], key);
      if key in nodeByKey {
        exit := exit[j := node];
        j := j + 1;
      } else {
        nodeByKey := nodeByKey[key := node];
      }
      keys := keys + [key];
    }
  }

  lemma NothingYet<D>(group: seq<Node<D>>, m: nat)
    ensures Indexes(map[], group, [], []) && Overflows(map[], group, [], m) && Repeaters([]) == []
  {
  }

  lemma KeyIsIndexed<D>(nodeByKey: map<Key, Node<D>>, group: seq<Node<D>>, keys: seq<Key>, taken: seq<Key>, k: Key)
    requires |keys| <= |group| && Indexes(nodeByKey, group, keys, taken)
    ensures k in nodeByKey <==> k in keys && k !in taken
    ensures k in nodeByKey ==> nodeByKey[k] == group[IndexOf(keys, k)]
  {
  }

  // ---------------------------------------------------------------- second pass: the data

  // The first i data are bound.
  ghost predicate Bound<D>(update: seq<Node?<D>>, enter: seq<Option<D>>, group: seq<Node<D>>, groupData: seq<D>, keys: seq<Key>, dataKeys: seq<Key>, i: nat)
    requires |keys| == |group| && |dataKeys| == |groupData| && i <= |groupData|
  {
    && |update| == |enter| == i
    && (forall k :: 0 <= k < i ==> update[k] == NodeAt(group, UpdateAt(keys, dataKeys, k)))
    && (forall k :: 0 <= k < i ==> enter[k] == if update[k] == null then Some(groupData[k]) else None)
  }

  function Carried<D>(was: D, groupData: seq<D>, d: Option<nat>): D
    requires d.Some? ==> d.value < |groupData|
  {
    if d.Some? then groupData[d.value] else was
  }

  lemma TakenAppended(dataKeys: seq<Key>, i: nat, k: Key)
    requires i < |dataKeys|
    ensures k in dataKeys[..i + 1] <==> k in dataKeys[..i] || k == dataKeys[i]
    ensures k == dataKeys[i] && k !in dataKeys[..i] ==> IndexOf(dataKeys, k) == i
    ensures k == dataKeys[i] && k in dataKeys[..i] ==> IndexOf(dataKeys, k) < i
  {
    assert dataKeys[..i + 1] == dataKeys[..i] + [dataKeys[i]];
    var f := IndexOf(dataKeys, k);
    if k in dataKeys[..i] {
      var j :| 0 <= j < i && dataKeys[..i][j] == k;
      assert dataKeys[j] == k;
    } else if k == dataKeys[i] {
      assert forall j :: 0 <= j < i ==> dataKeys[..i][j] == dataKeys[j];
    }
  }

  lemma IndexesTaken<D>(nodeByKey: map<Key, Node<D>>, group: seq<Node<D>>, keys: seq<Key>, dataKeys: seq<Key>, i: nat)
    requires |keys| == |group| && i < |dataKeys| && Indexes(nodeByKey, group, keys, dataKeys[..i])
    ensures Indexes(nodeByKey - {dataKeys[i]}, group, keys, dataKeys[..i + 1])
  {
    forall k ensures k in dataKeys[..i + 1] <==> k in dataKeys[..i] || k == dataKeys[i] {
      TakenAppended(dataKeys, i, k);
    }
  }

  method BindData<D>(group: seq<Node<D>>, groupData: seq<D>, join: (D, nat) -> Key, ghost keys: seq<Key>, index: map<Key, Node<D>>, overflow: map<nat, Node?<D>>)
    returns (update: seq<Node?<D>>, enter: seq<Option<D>>, exit: map<nat, Node?<D>>, nodeByKey: map<Key, Node<D>>)
    requires |keys| == |group| && Indexes(index, group, keys, [])
    requires forall p, q :: 0 <= p < q < |group| ==> group[p] != group[q]
    modifies group
    ensures var dataKeys := DataKeysOf(groupData, join);
      && Bound(update, enter, group, groupData, keys, dataKeys, |groupData|)
      && Indexes(nodeByKey, group, keys, dataKeys)
      && (forall p :: 0 <= p < |group| ==> group[p].data == Carried(old(group[p].data), groupData, DatumOf(keys, dataKeys, p, |groupData|)))
    ensures forall s: nat :: s in exit <==> s < |groupData| || s in overflow
    ensures forall s: nat :: s in exit ==> exit[s] == if s < |groupData| then null else overflow[s]
  {
    hide Indexes, IndexOf, UpdateAt, Repeats;
    ghost var dataKeys := DataKeysOf(groupData, join);
    update, enter, exit, nodeByKey := [], [], overflow, index;
    assert dataKeys[..0] == [];
    NothingBound(keys, dataKeys);
    for i := 0 to |groupData|
      invariant Bound(update, enter, group, groupData, keys, dataKeys, i)
      invariant Indexes(nodeByKey, group, keys, dataKeys[..i])
      invariant forall p :: 0 <= p < |group| ==> group[p].data == Carried(old(group[p].data), groupData, DatumOf(keys, dataKeys, p, i))
      invariant forall s: nat :: s in exit <==> s < i || s in overflow
      invariant forall s: nat :: s in exit ==> exit[s] == if s < i then null else overflow[s]
    {
      var nodeData := groupData[i];
      var key := join(nodeData, i);
      KeyIsIndexed(nodeByKey, group, keys, dataKeys[..i], key);
      IndexesTaken(nodeByKey, group, keys, dataKeys, i);
      UpdateIs(keys, dataKeys, i);
      forall p | 0 <= p < |keys| {
        DatumStep(keys, dataKeys, i, p, i + 1);
      }
      if key in nodeByKey {
        var node := nodeByKey[key];
        node.data := nodeData;
        update := update + [node];
        enter := enter + [None];
      } else {
        enter := enter + [Some(nodeData)];
        update := update + [null];
      }
      exit := exit[i := null];
      nodeByKey := nodeByKey - {key};
    }
    assert dataKeys[..|groupData|] == dataKeys;
  }

  lemma UpdateIs(keys: seq<Key>, dataKeys: seq<Key>, i: nat)
    requires i < |dataKeys|
    ensures var key := dataKeys[i];
      UpdateAt(keys, dataKeys, i) == if key in keys && key !in dataKeys[..i] then Some(IndexOf(keys, key)) else None
  {
    TakenAppended(dataKeys, i, dataKeys[i]);
  }

  lemma NothingBound(keys: seq<Key>, dataKeys: seq<Key>)
    ensures forall p :: 0 <= p < |keys| ==> DatumOf(keys, dataKeys, p, 0).None?
  {
  }

  // One more datum is bound to the first node with its key, when no earlier datum was, and to no other node.
  lemma DatumStep(keys: seq<Key>, dataKeys: seq<Key>, i: nat, p: nat, next: nat)
    requires i < |dataKeys| && next == i + 1 && p < |keys|
    ensures DatumOf(keys, dataKeys, p, next)
      == if dataKeys[i] in keys && dataKeys[i] !in dataKeys[..i] && p == IndexOf(keys, dataKeys[i]) then Some(i)
         else DatumOf(keys, dataKeys, p, i)
  {
    TakenAppended(dataKeys, i, keys[p]);
  }

  // ---------------------------------------------------------------- the whole join

  method Bind<D>(group: seq<Node<D>>, groupData: seq<D>, join: (D, nat) -> Key)
    returns (update: seq<Node?<D>>, enter: seq<Option<D>>, exit: map<nat, Node?<D>>)
    requires forall p, q :: 0 <= p < q < |group| ==> group[p] != group[q]
    modifies group
    ensures |update| == |enter| == |groupData|
    ensures var keys, dataKeys := old(KeysOf(group, join)), DataKeysOf(groupData, join);
      && (forall i :: 0 <= i < |groupData| ==> update[i] == NodeAt(group, UpdateAt(keys, dataKeys, i)))
      && (forall s: nat :: s in exit <==> HasExit(keys, dataKeys, s))
      && (forall s: nat :: s in exit ==> exit[s] == NodeAt(group, ExitAt(keys, dataKeys, s)))
    ensures forall i :: 0 <= i < |groupData| ==> enter[i] == if update[i] == null then Some(groupData[i]) else None
    ensures var keys, dataKeys := old(KeysOf(group, join)), DataKeysOf(groupData, join);
      forall p :: 0 <= p < |group| ==>
        group[p].data == Carried(old(group[p].data), groupData, DatumOf(keys, dataKeys, p, |groupData|))
  {
    hide Indexes, IndexOf, Repeats, Repeaters, UpdateAt, DatumOf, Overflows, HasExit, ExitAt, NodeAt, Carried;
    var keys, index, overflow := IndexNodes(group, |groupData|, join);
    ghost var dataKeys := DataKeysOf(groupData, join);
    var bound: map<nat, Node?<D>>, nodeByKey: map<Key, Node<D>>;
    update, enter, bound, nodeByKey := BindData(group, groupData, join, keys, index, overflow);
    exit := CollectExits(group, keys, dataKeys, bound, nodeByKey);
    ExitIs(group, keys, dataKeys, overflow, exit);
  }

  // The exit array once all three passes are over.
  lemma ExitIs<D>(group: seq<Node<D>>, keys: seq<Key>, dataKeys: seq<Key>, overflow: map<nat, Node?<D>>, exit: map<nat, Node?<D>>)
    requires |keys| == |group| && Overflows(overflow, group, keys, |dataKeys|)
    requires forall s: nat :: s in exit <==> s < |dataKeys| || s in overflow || (s < |keys| && keys[s] !in dataKeys)
    requires forall s: nat :: s in exit ==>
      exit[s] == if s < |keys| && keys[s] !in dataKeys then group[s] else if s < |dataKeys| then null else overflow[s]
    ensures forall s: nat :: s in exit <==> HasExit(keys, dataKeys, s)
    ensures forall s: nat :: s in exit ==> exit[s] == NodeAt(group, ExitAt(keys, dataKeys, s))
  {
    hide Repeaters;
  }

  // ---------------------------------------------------------------- third pass: the nodes without a datum

  method CollectExits<D>(group: seq<Node<D>>, keys: seq<Key>, ghost dataKeys: seq<Key>, bound: map<nat, Node?<D>>, nodeByKey: map<Key, Node<D>>)
    returns (exit: map<nat, Node?<D>>)
    requires |keys| == |group| && Indexes(nodeByKey, group, keys, dataKeys)
    ensures forall s: nat :: s in exit <==> s in bound || (s < |keys| && keys[s] !in dataKeys)
    ensures forall s: nat :: s in exit ==> exit[s] == if s < |keys| && keys[s] !in dataKeys then group[s] else bound[s]
  {
    hide Indexes, IndexOf;
    exit := bound;
    for i := 0 to |group|
      invariant forall s: nat :: s in exit <==> s in bound || (s < i && keys[s] !in dataKeys)
      invariant forall s: nat :: s in exit ==> exit[s] == if s < i && keys[s] !in dataKeys then group[s] else bound[s]
    {
      KeyIsIndexed(nodeByKey, group, keys, dataKeys, keys[i]);
      if keys[i] in nodeByKey {
        exit := exit[i := group[i]];
      }
    }
  }

  // ---------------------------------------------------------------- where every node ends up

  ghost predicate InUpdate(keys: seq<Key>, dataKeys: seq<Key>, p: nat) {
    exists i: nat :: i < |dataKeys| && UpdateAt(keys, dataKeys, i) == Some(p)
  }

  ghost predicate InExit(keys: seq<Key>, dataKeys: seq<Key>, p: nat) {
    exists s: nat :: HasExit(keys, dataKeys, s) && ExitAt(keys, dataKeys, s) == Some(p)
  }

  // Node p is in exactly one of the two, and there only once.
  ghost predicate ExactlyOnce(keys: seq<Key>, dataKeys: seq<Key>, p: nat) {
    && InUpdate(keys, dataKeys, p) != InExit(keys, dataKeys, p)
    && (forall i: nat, j: nat | i < |dataKeys| && j < |dataKeys| ::
          UpdateAt(keys, dataKeys, i) == Some(p) == UpdateAt(keys, dataKeys, j) ==> i == j)
    && (forall s: nat, t: nat :: ExitAt(keys, dataKeys, s) == Some(p) && ExitAt(keys, dataKeys, t) == Some(p) ==> s == t)
  }

  predicate Distinct(keys: seq<Key>) {
    forall p, q :: 0 <= p < q < |keys| ==> keys[p] != keys[q]
  }

  lemma {:induction false} RepeatersAre(keys: seq<Key>)
    ensures forall d :: 0 <= d < |Repeaters(keys)| ==> Repeats(keys, Repeaters(keys)[d])
    ensures forall d, e :: 0 <= d < e < |Repeaters(keys)| ==> Repeaters(keys)[d] < Repeaters(keys)[e]
    ensures forall p :: 0 <= p < |keys| && Repeats(keys, p) ==> p in Repeaters(keys)
    decreases |keys|
  {
    hide IndexOf;
    if keys != [] {
      var n := |keys| - 1;
      RepeatersAre(keys[..n]);
      assert keys == keys[..n] + [keys[n]];
      forall p | 0 <= p < n ensures Repeats(keys, p) == Repeats(keys[..n], p) {
        IndexOfAppended(keys[..n], keys[n], keys[p]);
      }
    }
  }

  lemma UpdateIff(keys: seq<Key>, dataKeys: seq<Key>, p: nat)
    requires p < |keys|
    ensures InUpdate(keys, dataKeys, p) <==> keys[p] in dataKeys && !Repeats(keys, p)
    ensures forall i: nat :: i < |dataKeys| && UpdateAt(keys, dataKeys, i) == Some(p) ==> i == IndexOf(dataKeys, keys[p])
  {
    if keys[p] in dataKeys && !Repeats(keys, p) {
      var i := IndexOf(dataKeys, keys[p]);
      assert UpdateAt(keys, dataKeys, i) == Some(p);
    }
  }

  // The d-th repeater is written to slot m + d; the third pass writes node s over slot s when it has no datum.
  predicate Overwritten(keys: seq<Key>, dataKeys: seq<Key>, s: nat) {
    s < |keys| && keys[s] !in dataKeys
  }

  // A repeater is written over exactly when its key has no datum.
  predicate SlotFits(keys: seq<Key>, dataKeys: seq<Key>, d: nat)
    requires d < |Repeaters(keys)|
  {
    keys[Repeaters(keys)[d]] in dataKeys <==> !Overwritten(keys, dataKeys, |dataKeys| + d)
  }

  lemma ExitOfFirst(keys: seq<Key>, dataKeys: seq<Key>, p: nat)
    requires p < |keys| && !Repeats(keys, p)
    ensures forall s: nat :: ExitAt(keys, dataKeys, s) == Some(p) <==> s == p && keys[p] !in dataKeys
  {
    RepeatersAre(keys);
  }

  lemma ExitOfRepeater(keys: seq<Key>, dataKeys: seq<Key>, d: nat)
    requires d < |Repeaters(keys)|
    ensures var p, slot := Repeaters(keys)[d], |dataKeys| + d;
      forall s: nat :: ExitAt(keys, dataKeys, s) == Some(p)
        <==> (s == p && keys[p] !in dataKeys) || (s == slot && !Overwritten(keys, dataKeys, slot))
  {
    hide Repeaters;
    RepeatersAre(keys);
  }

  lemma FirstOnce(keys: seq<Key>, dataKeys: seq<Key>, p: nat)
    requires p < |keys| && !Repeats(keys, p)
    ensures ExactlyOnce(keys, dataKeys, p)
  {
    hide UpdateAt, ExitAt, Repeats, Repeaters;
    UpdateIff(keys, dataKeys, p);
    ExitOfFirst(keys, dataKeys, p);
    assert keys[p] !in dataKeys ==> HasExit(keys, dataKeys, p);
  }

  lemma RepeaterOnceIff(keys: seq<Key>, dataKeys: seq<Key>, d: nat)
    requires d < |Repeaters(keys)|
    ensures ExactlyOnce(keys, dataKeys, Repeaters(keys)[d]) <==> SlotFits(keys, dataKeys, d)
  {
    var p, slot := Repeaters(keys)[d], |dataKeys| + d;
    RepeatersAre(keys);
    UpdateIff(keys, dataKeys, p);
    ExitOfRepeater(keys, dataKeys, d);
    hide UpdateAt, ExitAt, Repeats, Repeaters;
    assert HasExit(keys, dataKeys, slot);
    if keys[p] !in dataKeys {
      assert HasExit(keys, dataKeys, p) && ExitAt(keys, dataKeys, p) == Some(p);
      if !Overwritten(keys, dataKeys, slot) {
        assert ExitAt(keys, dataKeys, slot) == Some(p) && slot != p;
      }
    } else if !Overwritten(keys, dataKeys, slot) {
      assert ExitAt(keys, dataKeys, slot) == Some(p);
    }
  }

  // Every node is in exactly one of update and exit, once, exactly when each repeated key that has a
  // datum keeps its overflow slot, and each that has none loses it.
  lemma PartitionIff(keys: seq<Key>, dataKeys: seq<Key>)
    ensures (forall p: nat :: p < |keys| ==> ExactlyOnce(keys, dataKeys, p))
      <==> (forall d: nat :: d < |Repeaters(keys)| ==> SlotFits(keys, dataKeys, d))
  {
    hide ExactlyOnce, SlotFits, Repeaters;
    RepeatersAre(keys);
    forall d: nat | d < |Repeaters(keys)|
      ensures SlotFits(keys, dataKeys, d) <==> ExactlyOnce(keys, dataKeys, Repeaters(keys)[d])
    {
      RepeaterOnceIff(keys, dataKeys, d);
    }
    forall p: nat | p < |keys| && !Repeats(keys, p) ensures ExactlyOnce(keys, dataKeys, p) {
      FirstOnce(keys, dataKeys, p);
    }
    if forall d: nat :: d < |Repeaters(keys)| ==> SlotFits(keys, dataKeys, d) {
      forall p: nat | p < |keys| ensures ExactlyOnce(keys, dataKeys, p) {
        if Repeats(keys, p) {
          var d :| 0 <= d < |Repeaters(keys)| && Repeaters(keys)[d] == p;
          assert SlotFits(keys, dataKeys, d);
        }
      }
    }
  }

  // No node is ever in both.
  lemma NeverBoth(keys: seq<Key>, dataKeys: seq<Key>, p: nat)
    requires p < |keys|
    ensures !(InUpdate(keys, dataKeys, p) && InExit(keys, dataKeys, p))
  {
    hide UpdateAt, ExitAt, Repeaters;
    UpdateIff(keys, dataKeys, p);
    if !Repeats(keys, p) {
      ExitOfFirst(keys, dataKeys, p);
    }
  }

  // With distinct keys each node is in exactly one of update and exit, and update holds the nodes that
  // have a datum, bound to the first datum of their key.
  lemma DistinctKeysPartition(keys: seq<Key>, dataKeys: seq<Key>, p: nat)
    requires Distinct(keys) && p < |keys|
    ensures ExactlyOnce(keys, dataKeys, p)
    ensures InUpdate(keys, dataKeys, p) <==> keys[p] in dataKeys
    ensures DatumOf(keys, dataKeys, p, |dataKeys|) == if keys[p] in dataKeys then Some(IndexOf(dataKeys, keys[p])) else None
  {
    hide ExactlyOnce, InUpdate;
    assert dataKeys[..|dataKeys|] == dataKeys;
    FirstOnce(keys, dataKeys, p);
    UpdateIff(keys, dataKeys, p);
  }

  // A repeater is in neither array exactly when its key has a datum, so that it is not an exit of its
  // own, and a node without one is written over its slot.
  lemma RepeatedKeyLosesNodeIff(keys: seq<Key>, dataKeys: seq<Key>, d: nat)
    requires d < |Repeaters(keys)|
    ensures var p := Repeaters(keys)[d];
      && p < |keys| && Repeats(keys, p)
      && (!InUpdate(keys, dataKeys, p) && !InExit(keys, dataKeys, p)
          <==> keys[p] in dataKeys && Overwritten(keys, dataKeys, |dataKeys| + d))
  {
    var p, slot := Repeaters(keys)[d], |dataKeys| + d;
    RepeatersAre(keys);
    UpdateIff(keys, dataKeys, p);
    ExitOfRepeater(keys, dataKeys, d);
    hide UpdateAt, ExitAt, Repeats, Repeaters;
    if keys[p] !in dataKeys {
      assert HasExit(keys, dataKeys, p) && ExitAt(keys, dataKeys, p) == Some(p);
    } else if !Overwritten(keys, dataKeys, slot) {
      assert HasExit(keys, dataKeys, slot) && ExitAt(keys, dataKeys, slot) == Some(p);
    }
  }

  // One such input: three nodes with the keys a, a, b and the data a, c.
  lemma RepeatedKeyLosesNode()
    ensures var keys, dataKeys := ["a", "a", "b"], ["a", "c"];
      !InUpdate(keys, dataKeys, 1) && !InExit(keys, dataKeys, 1)
  {
    var keys, dataKeys := ["a", "a", "b"], ["a", "c"];
    assert keys[..2] == ["a", "a"] && keys[..2][..1] == ["a"] && keys[..2][..1][..0] == [];
    assert IndexOf(keys, "a") == 0 && IndexOf(["a", "a"], "a") == 0 && IndexOf(["a"], "a") == 0;
    assert keys[2] == "b" && IndexOf(keys, "b") == 2;
    assert Repeaters(["a"]) == [];
    assert Repeaters(["a", "a"]) == [1];
    assert Repeaters(keys) == [1];
    assert "a" in dataKeys && "b" !in dataKeys;
    assert Overwritten(keys, dataKeys, 2);
    RepeatedKeyLosesNodeIff(keys, dataKeys, 0);
  }
}
