// The timer queue as the program keeps it: a linked list that callbacks extend while it is visited.
module TimerList {
  import opened TimerQueue
  import opened Wrappers

  class Node {
    const callback: Callback
    var time: real
    var delay: real
    var flush: bool
    var next: Node?

    constructor (callback: Callback, time: real, delay: real, next: Node?)
      ensures this.callback == callback && this.time == time && this.delay == delay && !flush && this.next == next
    {
      this.callback, this.time, this.delay, this.next := callback, time, delay, next;
      flush := false;
    }

    function Value(): Entry
      reads this
    {
      Entry(callback, time, delay, flush)
    }
  }

  function NodeAt(nodes: seq<Node>, i: nat): Node? {
    if i < |nodes| then nodes[i] else null
  }

  ghost function Values(nodes: seq<Node>): (q: seq<Entry>)
    reads nodes
    ensures |q| == |nodes|
  {
    seq(|nodes|, i requires 0 <= i < |nodes| reads nodes => nodes[i].Value())
  }

  ghost predicate EndsWith(c: seq<Node>, a: seq<Node>) {
    |a| <= |c| && c[|c| - |a|..] == a
  }

  lemma EndsWithItself(a: seq<Node>)
    ensures EndsWith(a, a)
  {
  }

  lemma EndOfEnd(a: seq<Node>, b: seq<Node>, c: seq<Node>)
    requires EndsWith(b, a) && EndsWith(c, b)
    ensures EndsWith(c, a)
  {
    assert c[|c| - |a|..] == c[|c| - |b|..][|b| - |a|..];
  }

  // The k-th node from the end.
  function Back(ns: seq<Node>, k: nat): Node
    requires 0 < k <= |ns|
  {
    ns[|ns| - k]
  }

  lemma EndAt(c: seq<Node>, a: seq<Node>, k: nat)
    requires EndsWith(c, a) && 0 < k <= |a|
    ensures k <= |c| && Back(c, k) == Back(a, k)
  {
    assert c[|c| - k] == c[|c| - |a|..][|a| - k];
  }

  // Links carry no part of the entries.
  method Relink(t: Node, next: Node?, ghost nodes: seq<Node>)
    modifies t`next
    ensures t.next == next && Values(nodes) == old(Values(nodes))
  {
    t.next := next;
    assert forall i :: 0 <= i < |nodes| ==> Values(nodes)[i] == old(Values(nodes)[i]);
  }

  // The flush has looked at d of the entries of q and kept a of them.
  ghost predicate Progress(q: seq<Entry>, d: nat, a: nat, entries: seq<Entry>, time: Option<real>) {
    d <= |q| && a == |Kept(q[..d])| && entries == Kept(q[..d]) + q[d..] && time == Earliest(q[..d])
  }

  lemma Started(q: seq<Entry>)
    ensures Progress(q, 0, 0, q, None)
  {
    assert q[..0] == [] && q == [] + q[0..];
  }

  lemma Skipped(q: seq<Entry>, d: nat, a: nat, entries: seq<Entry>, time: Option<real>)
    requires Progress(q, d, a, entries, time) && a < |entries| && entries[a].flush
    ensures Progress(q, d + 1, a, entries[..a] + entries[a + 1..], time)
  {
    hide Kept, Earliest;
    KeptOfOneMore(q, d);
    var kept := Kept(q[..d]);
    assert (kept + q[d..])[a] == q[d];
    assert (kept + q[d..])[..a] + (kept + q[d..])[a + 1..] == kept + q[d + 1..];
  }

  lemma Taken(q: seq<Entry>, d: nat, a: nat, entries: seq<Entry>, time: Option<real>, due: real, next: Option<real>)
    requires Progress(q, d, a, entries, time) && a < |entries| && !entries[a].flush
    requires due == entries[a].time + entries[a].delay && next == if time.None? || due < time.value then Some(due) else time
    ensures Progress(q, d + 1, a + 1, entries, next)
  {
    hide Kept, Earliest;
    KeptOfOneMore(q, d);
    var kept := Kept(q[..d]);
    assert (kept + q[d..])[a] == q[d];
    assert kept + q[d..] == kept + [q[d]] + q[d + 1..];
  }

  lemma Finished(q: seq<Entry>, d: nat, a: nat, entries: seq<Entry>, time: Option<real>)
    requires Progress(q, d, a, entries, time) && a >= |entries|
    ensures entries == Kept(q) && time == Earliest(q)
  {
    assert q[..|q|] == q;
  }

  class Timers {
    var queue: Node?
    var interval: bool
    var frames: nat
    var timeout: Option<real>
    ghost var nodes: seq<Node>
    // the nodes that were ever in the list
    ghost var repr: set<Node>

    // The list has no cycle: following next from the head gives these nodes, each once, then null.
    ghost predicate Valid()
      reads this, nodes
    {
      && queue == NodeAt(nodes, 0) && (forall i :: 0 <= i < |nodes| ==> nodes[i] in repr)
      && (forall i :: 0 <= i < |nodes| ==> nodes[i].next == NodeAt(nodes, i + 1))
      && (forall i, j :: 0 <= i < j < |nodes| ==> nodes[i] != nodes[j])
    }

    ghost function Entries(): (q: seq<Entry>)
      reads this, nodes
      ensures |q| == |nodes|
    {
      Values(nodes)
    }

    function Alarms(): Alarm
      reads this
    {
      Alarm(interval, frames, timeout)
    }

    constructor ()
      ensures Valid() && nodes == [] && repr == {} && Alarms() == Alarm(false, 0, None)
    {
      queue, nodes, repr := null, [], {};
      interval, frames, timeout := false, 0, None;
    }

    method Prepend(callback: Callback, time: real, delay: real)
      requires Valid()
      modifies this
      ensures Valid() && EndsWith(nodes, old(nodes)) && fresh(repr - old(repr))
      ensures Entries() == [Entry(callback, time, delay, false)] + old(Entries()) && Alarms() == old(Alarms())
    {
      var n := new Node(callback, time, delay, queue);
      queue := n;
      nodes := [n] + nodes;
      repr := repr + {n};
    }

    method Add(r: Registration)
      requires Valid()
      modifies this, repr
      ensures Valid() && Entries() == Register(old(Entries()), r) && Alarms() == Woken(old(Alarms()))
      ensures EndsWith(nodes, old(nodes))
      ensures fresh(repr - old(repr))
    {
      hide EndsWith, Valid, Entries, IndexOf;
      EndsWithItself(nodes);
      var found := Update(r);
      ghost var before := nodes;
      if !found {
        Prepend(r.callback, r.time, r.delay);
        EndOfEnd(old(nodes), before, nodes);
      }
      if !interval {
        Wake();
      }
    }

    // The next frame runs a step; a timeout is not needed any more.
    method Wake()
      requires Valid()
      modifies this`interval, this`frames, this`timeout
      ensures Valid() && Alarms() == Alarm(true, old(frames) + 1, None) && Entries() == old(Entries())
    {
      timeout := None;
      interval := true;
      frames := frames + 1;
    }

    // Looks for the callback in the queue and sets its time and delay.
    method Update(r: Registration) returns (found: bool)
      requires Valid()
      modifies repr
      ensures Valid() && EndsWith(nodes, old(nodes))
      ensures found == (IndexOf(old(Entries()), r.callback) < |old(Entries())|)
      ensures Entries() == if found then Register(old(Entries()), r) else old(Entries())
    {
      hide IndexOf;
      EndsWithItself(nodes);
      hide EndsWith;
      ghost var q := Entries();
      var t1 := queue;
      ghost var i := 0;
      found := false;
      while t1 != null
        invariant i <= |nodes| && t1 == NodeAt(nodes, i)
        invariant Valid() && Entries() == q
        invariant forall j :: 0 <= j < i ==> q[j].callback != r.callback
        decreases |nodes| - i
      {
        if t1.callback == r.callback {
          IndexIs(q, r.callback, i);
          t1.time := r.time;
          t1.delay := r.delay;
          assert Entries() == q[i := q[i].(time := r.time, delay := r.delay)];
          return true;
        }
        assert q[i] == t1.Value();
        t1 := t1.next;
        i := i + 1;
      }
      IndexIs(q, r.callback, |q|);
    }

    // Answers a call: the callback registers its timers one after the other.
    method AddAll(rs: seq<Registration>)
      requires Valid()
      modifies this, repr
      ensures Valid() && Entries() == RegisterAll(old(Entries()), rs) && Alarms() == WokenIf(old(Alarms()), rs != [])
      ensures EndsWith(nodes, old(nodes))
      ensures fresh(repr - old(repr))
    {
      EndsWithItself(nodes);
      hide EndsWith, Valid, Entries;
      for i := 0 to |rs|
        invariant Valid() && Entries() == RegisterAll(old(Entries()), rs[..i]) && Alarms() == WokenIf(old(Alarms()), i > 0)
        invariant EndsWith(nodes, old(nodes))
        invariant fresh(repr - old(repr))
      {
        assert rs[..i + 1][..i] == rs[..i];
        ghost var before := nodes;
        Add(rs[i]);
        EndOfEnd(old(nodes), before, nodes);
      }
      assert rs[..|rs|] == rs;
    }

    lemma LinkAt(i: nat)
      requires Valid() && i < |nodes|
      ensures nodes[i].next == NodeAt(nodes, i + 1) && Entries()[i] == nodes[i].Value()
    {
    }

    method Mark(t: Node, done: bool, ghost k: nat)
      requires Valid() && 0 < k <= |nodes| && Back(nodes, k) == t
      modifies t`flush
      ensures Valid() && Entries() == Marked(old(Entries()), k, done)
    {
      ghost var q, i: nat := Entries(), |nodes| - k;
      t.flush := done;
      hide Marked;
      MarkIs(q, k, done, i);
    }

    lemma MarkIs(q: seq<Entry>, k: nat, done: bool, i: nat)
      requires 0 < k <= |nodes| == |q| && i == |nodes| - k
      requires forall j :: 0 <= j < |q| ==> nodes[j].Value() == if j == i then q[j].(flush := done) else q[j]
      ensures Entries() == Marked(q, k, done)
    {
    }

    // Calls the callback of the k-th entry from the end and marks the entry as it answers.
    method Call(t: Node, ghost k: nat, a: Response)
      requires Valid() && 0 < k <= |nodes| && Back(nodes, k) == t
      modifies this, repr
      ensures Valid() && Entries() == Marked(RegisterAll(old(Entries()), a.registrations), k, a.done)
      ensures k <= |nodes| && Back(nodes, k) == t && Alarms() == WokenIf(old(Alarms()), a.registrations != [])
      ensures fresh(repr - old(repr))
    {
      assert t in repr;
      hide *;
      AddAll(a.registrations);
      EndAt(nodes, old(nodes), k);
      Mark(t, a.done, k);
    }

    // Calls the callbacks that are due, in the order of the list, and marks the ones that are done.
    method Visit(pass: Pass, now: real, respond: Oracle)
      requires Valid()
      modifies this, repr
      ensures Valid() && Entries() == Visited(old(Entries()), pass, now, respond).0
      ensures Alarms() == WokenIf(old(Alarms()), AnyRegistered(Visited(old(Entries()), pass, now, respond).1))
      ensures fresh(repr - old(repr))
    {
      var t1 := queue;
      hide Valid, Entries, PassOver, Marked, RegisterAll, Due, AnyRegistered;
      ghost var k: nat := |nodes|;
      var n: nat := 0;
      HeadIs();
      while t1 != null
        invariant Valid() && k <= |nodes| && t1 == NodeAt(nodes, |nodes| - k)
        invariant PassOver(Entries(), k, pass, now, respond, n).0 == Visited(old(Entries()), pass, now, respond).0
        invariant WokenIf(Alarms(), AnyRegistered(PassOver(Entries(), k, pass, now, respond, n).1))
          == WokenIf(old(Alarms()), AnyRegistered(Visited(old(Entries()), pass, now, respond).1))
        invariant fresh(repr - old(repr))
        decreases k
      {
        PassNext(Entries(), k, pass, now, respond, n);
        LinkAt(|nodes| - k);
        var elapsed := now - t1.time;
        if Due(pass, t1.Value(), now) {
          var a := respond(n, t1.callback, elapsed);
          Call(t1, k, a);
          n := n + 1;
        }
        LinkAt(|nodes| - k);
        t1 := t1.next;
        k := k - 1;
      }
      NoneLeft(Entries(), pass, now, respond, n);
    }

    lemma HeadIs()
      requires Valid()
      ensures queue == NodeAt(nodes, 0)
    {
    }

    // t1 is the a-th node, or the end of the list, and t0 the one before it.
    ghost predicate Between(t0: Node?, t1: Node?, a: nat)
      reads this, nodes
    {
      Valid() && a <= |nodes| && t1 == NodeAt(nodes, a) && t0 == if a == 0 then null else nodes[a - 1]
    }

    lemma Advance(t0: Node?, t1: Node, a: nat, next: nat)
      requires Between(t0, t1, a) && next == a + 1
      ensures a < |nodes| && Between(t1, t1.next, next) && Entries()[a] == t1.Value()
    {
    }

    lemma Ends(t0: Node?, a: nat)
      requires Between(t0, null, a)
      ensures a == |nodes|
    {
    }

    // Takes t1 out of the list.
    method Unlink(t0: Node?, t1: Node, ghost a: nat)
      requires Between(t0, t1, a)
      modifies this, repr
      ensures Between(t0, t1.next, a) && repr == old(repr) && |nodes| == |old(nodes)| - 1 && Alarms() == old(Alarms())
      ensures Entries() == old(Entries())[..a] + old(Entries())[a + 1..]
    {
      hide Values;
      ghost var q, before := Entries(), nodes;
      if t0 != null {
        Relink(t0, t1.next, nodes);
      } else {
        queue := t1.next;
      }
      nodes := nodes[..a] + nodes[a + 1..];
      Skips(before, t0, t1, a);
      SameValues(before, q, a);
    }

    // The list without its a-th node, once the links lead past it.
    lemma Skips(before: seq<Node>, t0: Node?, t1: Node, a: nat)
      requires a < |before| && before[a] == t1 && nodes == before[..a] + before[a + 1..]
      requires t0 == if a == 0 then null else before[a - 1]
      requires queue == if a == 0 then NodeAt(before, 1) else before[0]
      requires forall i :: 0 <= i < |before| ==> before[i] in repr
      requires forall i :: 0 <= i < |before| ==> before[i].next == if before[i] == t0 then NodeAt(before, a + 1) else NodeAt(before, i + 1)
      requires forall i, j :: 0 <= i < j < |before| ==> before[i] != before[j]
      ensures Between(t0, t1.next, a)
    {
      assert forall i :: 0 <= i < a ==> nodes[i] == before[i];
      assert forall i :: a <= i < |nodes| ==> nodes[i] == before[i + 1];
    }

    // Entries are as they were, but for the missing one.
    lemma SameValues(before: seq<Node>, q: seq<Entry>, a: nat)
      requires a < |before| && nodes == before[..a] + before[a + 1..] && q == Values(before)
      ensures Entries() == q[..a] + q[a + 1..]
    {
    }

    // Unlinks the marked entries and finds the time of the next one that is due.
    method Flush() returns (time: Option<real>)
      requires Valid()
      modifies this, repr
      ensures Valid() && Entries() == Kept(old(Entries())) && time == Earliest(old(Entries()))
      ensures repr == old(repr) && Alarms() == old(Alarms())
    {
      ghost var q, d: nat, a: nat := Entries(), 0, 0;
      var t0: Node? := null;
      var t1 := queue;
      time := None;
      Started(q);
      assert Between(t0, t1, 0);
      hide Valid, Entries, Kept, Earliest, Progress, Between;
      while t1 != null
        invariant Between(t0, t1, a) && Progress(q, d, a, Entries(), time) && repr == old(repr) && Alarms() == old(Alarms())
        decreases |nodes| - a
      {
        ghost var next := a + 1;
        Advance(t0, t1, a, next);
        if t1.flush {
          Skipped(q, d, a, Entries(), time);
          Unlink(t0, t1, a);
          t1 := t1.next;
        } else {
          ghost var before := time;
          var due := t1.time + t1.delay;
          if time.None? || due < time.value {
            time := Some(due);
          }
          Taken(q, d, a, Entries(), before, due, time);
          t0 := t1;
          t1 := t1.next;
          a := next;
        }
        d := d + 1;
      }
      Ends(t0, a);
      Finished(q, d, a, Entries(), time);
      IsValid(t0, t1, a);
    }

    lemma IsValid(t0: Node?, t1: Node?, a: nat)
      requires Between(t0, t1, a)
      ensures Valid()
    {
    }

    lemma NoneLeft(q: seq<Entry>, pass: Pass, now: real, respond: Oracle, n: nat)
      ensures PassOver(q, 0, pass, now, respond, n).0 == q && !AnyRegistered(PassOver(q, 0, pass, now, respond, n).1)
    {
    }

    // A step: the due callbacks, the flush, and then the next step is arranged.
    method Step(trigger: Trigger, now: real, respond: Oracle)
      requires Valid()
      modifies this, repr
      ensures Valid() && Entries() == Apply(old(Entries()), TimerQueue.Step(now, respond))
      ensures Alarms() == Ring(old(Entries()), old(Alarms()), TimerQueue.Step(now, respond), trigger)
      ensures fresh(repr - old(repr))
    {
      Consume(trigger);
      hide Valid, Entries, PassOver, Kept, Earliest, AnyRegistered, WokenIf;
      Visit(Elapsed, now, respond);
      var time := Flush();
      Rearm(now, time);
    }

    method Consume(trigger: Trigger)
      requires Valid()
      modifies this`frames, this`timeout
      ensures Valid() && Entries() == old(Entries()) && Alarms() == Triggered(old(Alarms()), trigger)
    {
      match trigger {
        case Frame => {
          if frames > 0 {
            frames := frames - 1;
          }
        }
        case Timeout => {
          timeout := None;
        }
      }
    }

    method Rearm(now: real, time: Option<real>)
      requires Valid()
      modifies this`interval, this`frames, this`timeout
      ensures Valid() && Entries() == old(Entries()) && Alarms() == Rearmed(old(Alarms()), now, time)
    {
      if time.None? {
        interval := false;
      } else if time.value - now > 24.0 {
        timeout := time;
        interval := false;
      } else {
        interval := true;
        frames := frames + 1;
      }
    }

    method FlushNow(now: real, respond: Oracle)
      requires Valid()
      modifies this, repr
      ensures Valid() && Entries() == Apply(old(Entries()), TimerQueue.FlushNow(now, respond))
      ensures Alarms() == Ring(old(Entries()), old(Alarms()), TimerQueue.FlushNow(now, respond), Frame)
      ensures fresh(repr - old(repr))
    {
      hide Valid, Entries, PassOver, Kept, Earliest, AnyRegistered, WokenIf;
      Visit(Immediate, now, respond);
      var _ := Flush();
    }
  }
}
