// The timer queue as a value: registrations, passes over the queue, flushes, and whole runs.
module TimerQueue {
  import opened Wrappers

  type Callback = nat

  datatype Entry = Entry(callback: Callback, time: real, delay: real, flush: bool)

  datatype Registration = Registration(callback: Callback, delay: real, time: real)

  // What a callback does when it is called: register timers, then return.
  datatype Response = Response(registrations: seq<Registration>, done: bool)

  // Callbacks may answer differently every time: the answer depends on the number of the call.
  type Oracle = (nat, Callback, real) -> Response

  // A pass calls the entries whose time has come, or, for an immediate flush, those without delay.
  datatype Pass = Elapsed | Immediate

  datatype Event = Called(callback: Callback, elapsed: real, done: bool) | Registered(callback: Callback)

  // ---------------------------------------------------------------- registering

  function IndexOf(q: seq<Entry>, c: Callback): (i: nat)
    ensures i <= |q| && (i < |q| ==> q[i].callback == c) && forall j :: 0 <= j < i ==> q[j].callback != c
  {
    if q == [] || q[0].callback == c then 0 else 1 + IndexOf(q[1..], c)
  }

  lemma IndexIs(q: seq<Entry>, c: Callback, i: nat)
    requires i <= |q| && (i < |q| ==> q[i].callback == c) && forall j :: 0 <= j < i ==> q[j].callback != c
    ensures IndexOf(q, c) == i
  {
  }

  function Register(q: seq<Entry>, r: Registration): seq<Entry> {
    var i := IndexOf(q, r.callback);
    if i < |q| then q[i := q[i].(time := r.time, delay := r.delay)]
    else [Entry(r.callback, r.time, r.delay, false)] + q
  }

  function RegisterAll(q: seq<Entry>, rs: seq<Registration>): (r: seq<Entry>)
    ensures |q| <= |r|
  {
    if rs == [] then q else Register(RegisterAll(q, rs[..|rs| - 1]), rs[|rs| - 1])
  }

  // ---------------------------------------------------------------- a pass

  predicate Due(pass: Pass, e: Entry, now: real) {
    match pass
    case Elapsed => now - e.time >= e.delay
    case Immediate => e.delay == 0.0
  }

  function EventsOf(rs: seq<Registration>): seq<Event> {
    seq(|rs|, i requires 0 <= i < |rs| => Event.Registered(rs[i].callback))
  }

  // Visits the last k entries in order; entries registered meanwhile go in front and are not visited.
  // The n-th call is answered first, with its registrations, and then the entry is marked.
  ghost function PassOver(q: seq<Entry>, k: nat, pass: Pass, now: real, respond: Oracle, n: nat): (r: (seq<Entry>, seq<Event>))
    requires k <= |q|
    ensures |q| <= |r.0|
    decreases k
  {
    if k == 0 then (q, [])
    else
      var e := q[|q| - k];
      if Due(pass, e, now) then
        var a := respond(n, e.callback, now - e.time);
        var q' := Marked(RegisterAll(q, a.registrations), k, a.done);
        var (r, events) := PassOver(q', k - 1, pass, now, respond, n + 1);
        (r, EventsOf(a.registrations) + [Called(e.callback, now - e.time, a.done)] + events)
      else PassOver(q, k - 1, pass, now, respond, n)
  }

  lemma PassNext(q: seq<Entry>, k: nat, pass: Pass, now: real, respond: Oracle, n: nat)
    requires 0 < k <= |q|
    ensures var e := q[|q| - k];
      PassOver(q, k, pass, now, respond, n).0
      == if Due(pass, e, now) then
           var a := respond(n, e.callback, now - e.time);
           PassOver(Marked(RegisterAll(q, a.registrations), k, a.done), k - 1, pass, now, respond, n + 1).0
         else PassOver(q, k - 1, pass, now, respond, n).0
    ensures var e := q[|q| - k];
      AnyRegistered(PassOver(q, k, pass, now, respond, n).1)
      <==> if Due(pass, e, now) then
             var a := respond(n, e.callback, now - e.time);
             a.registrations != [] || AnyRegistered(PassOver(Marked(RegisterAll(q, a.registrations), k, a.done), k - 1, pass, now, respond, n + 1).1)
           else AnyRegistered(PassOver(q, k - 1, pass, now, respond, n).1)
  {
    var e := q[|q| - k];
    if Due(pass, e, now) {
      var a := respond(n, e.callback, now - e.time);
      AnyRegisteredIn(a.registrations, Called(e.callback, now - e.time, a.done), PassOver(Marked(RegisterAll(q, a.registrations), k, a.done), k - 1, pass, now, respond, n + 1).1);
    }
  }

  predicate AnyRegistered(events: seq<Event>) {
    exists i :: 0 <= i < |events| && events[i].Registered?
  }

  lemma AnyRegisteredIn(rs: seq<Registration>, call: Event, events: seq<Event>)
    requires call.Called?
    ensures AnyRegistered(EventsOf(rs) + [call] + events) <==> rs != [] || AnyRegistered(events)
  {
    var first, all := EventsOf(rs), EventsOf(rs) + [call] + events;
    if rs != [] {
      assert all[0] == first[0];
    }
    if AnyRegistered(events) {
      var i :| 0 <= i < |events| && events[i].Registered?;
      assert all[|first| + 1 + i] == events[i];
    }
    if i :| 0 <= i < |all| && all[i].Registered? {
      assert i > |first| ==> all[i] == events[i - |first| - 1];
    }
  }

  function Marked(q: seq<Entry>, k: nat, done: bool): seq<Entry>
    requires 0 < k <= |q|
  {
    q[|q| - k := q[|q| - k].(flush := done)]
  }

  // ---------------------------------------------------------------- a flush

  function Kept(q: seq<Entry>): seq<Entry> {
    if q == [] then [] else Kept(q[..|q| - 1]) + if q[|q| - 1].flush then [] else [q[|q| - 1]]
  }

  lemma KeptOfOneMore(q: seq<Entry>, d: nat)
    requires d < |q|
    ensures Kept(q[..d + 1]) == Kept(q[..d]) + if q[d].flush then [] else [q[d]]
    ensures Earliest(q[..d + 1])
      == var m, e := Earliest(q[..d]), q[d];
         if e.flush then m else if m.None? || e.time + e.delay < m.value then Some(e.time + e.delay) else m
  {
    assert q[..d + 1][..d] == q[..d];
  }

  // The least time at which an entry is due; None when there is none.
  function Earliest(q: seq<Entry>): Option<real> {
    if q == [] then None
    else
      var m, e := Earliest(q[..|q| - 1]), q[|q| - 1];
      if e.flush then m
      else if m.None? || e.time + e.delay < m.value then Some(e.time + e.delay) else m
  }

  lemma {:induction false} EarliestIsLeast(q: seq<Entry>)
    ensures Earliest(q).None? <==> Kept(q) == []
    ensures forall e :: e in Kept(q) ==> Earliest(q).Some? && Earliest(q).value <= e.time + e.delay
    ensures Earliest(q).Some? ==> exists e :: e in Kept(q) && Earliest(q).value == e.time + e.delay
    decreases |q|
  {
    if q != [] {
      EarliestIsLeast(q[..|q| - 1]);
      var last := q[|q| - 1];
      if !last.flush {
        assert last in Kept(q);
      }
      assert forall e :: e in Kept(q[..|q| - 1]) ==> e in Kept(q);
    }
  }

  // ---------------------------------------------------------------- what every operation keeps

  ghost predicate Distinct(q: seq<Entry>) {
    forall i, j :: 0 <= i < j < |q| ==> q[i].callback != q[j].callback
  }

  predicate HasEntry(q: seq<Entry>, c: Callback) {
    exists i :: 0 <= i < |q| && q[i].callback == c
  }

  ghost predicate FlushIs(q: seq<Entry>, c: Callback, flush: bool) {
    forall i :: 0 <= i < |q| && q[i].callback == c ==> q[i].flush == flush
  }

  // The callbacks of q are those of the end of r, in the same order.
  predicate SuffixOf(q: seq<Entry>, r: seq<Entry>) {
    |q| <= |r| && forall i :: 0 <= i < |q| ==> r[|r| - |q| + i].callback == q[i].callback
  }

  lemma RegisterKeeps(q: seq<Entry>, r: Registration)
    requires Distinct(q)
    ensures Distinct(Register(q, r)) && SuffixOf(q, Register(q, r))
  {
    var q' := Register(q, r);
    var d := |q'| - |q|;
    assert forall j :: 0 <= j < |q| ==> q'[d + j].callback == q[j].callback;
    assert d == 1 ==> q'[0].callback == r.callback;
    forall j, k | 0 <= j < k < |q'| ensures q'[j].callback != q'[k].callback {
      assert q'[k].callback == q[k - d].callback;
      assert j >= d ==> q'[j].callback == q[j - d].callback;
    }
  }

  lemma RegisterKeepsEntry(q: seq<Entry>, r: Registration, c: Callback, b: bool)
    ensures HasEntry(Register(q, r), c) <==> HasEntry(q, c) || c == r.callback
    ensures FlushIs(q, c, b) && (HasEntry(q, c) || !b) ==> FlushIs(Register(q, r), c, b)
  {
    var i, e := IndexOf(q, r.callback), Entry(r.callback, r.time, r.delay, false);
    assert !HasEntry(q, r.callback) <== i == |q|;
    if i < |q| {
      UpdateKeepsEntry(q, Register(q, r), i, c, b);
    } else {
      assert Register(q, r) == [e] + q;
      hide IndexOf, Register, HasEntry, FlushIs;
      PrependKeepsEntry(q, e, c, b);
    }
  }

  lemma UpdateKeepsEntry(q: seq<Entry>, q': seq<Entry>, i: nat, c: Callback, b: bool)
    requires i < |q| == |q'| && forall j :: 0 <= j < |q| ==> q'[j].callback == q[j].callback && q'[j].flush == q[j].flush
    ensures HasEntry(q', c) <==> HasEntry(q, c)
    ensures HasEntry(q, q[i].callback)
    ensures FlushIs(q, c, b) ==> FlushIs(q', c, b)
  {
    if HasEntry(q, c) {
      var j :| 0 <= j < |q| && q[j].callback == c;
      assert q'[j].callback == c;
    }
  }

  lemma PrependKeepsEntry(q: seq<Entry>, e: Entry, c: Callback, b: bool)
    requires !e.flush
    ensures HasEntry([e] + q, c) <==> HasEntry(q, c) || c == e.callback
    ensures FlushIs(q, c, b) && (HasEntry(q, c) || !b) && (e.callback == c ==> !HasEntry(q, c)) ==> FlushIs([e] + q, c, b)
  {
    var q' := [e] + q;
    assert forall j :: 0 <= j < |q| ==> q'[j + 1] == q[j];
    if HasEntry(q, c) {
      var j :| 0 <= j < |q| && q[j].callback == c;
      assert q'[j + 1].callback == c;
    }
    assert q'[0] == e;
  }

  lemma {:induction false} RegisterAllKeeps(q: seq<Entry>, rs: seq<Registration>)
    requires Distinct(q)
    ensures Distinct(RegisterAll(q, rs)) && SuffixOf(q, RegisterAll(q, rs))
    decreases |rs|
  {
    hide Distinct, Register;
    if rs != [] {
      var init := RegisterAll(q, rs[..|rs| - 1]);
      RegisterAllKeeps(q, rs[..|rs| - 1]);
      RegisterKeeps(init, rs[|rs| - 1]);
      SuffixTrans(q, init, Register(init, rs[|rs| - 1]));
    }
  }

  lemma {:induction false} RegisterAllKeepsEntry(q: seq<Entry>, rs: seq<Registration>, c: Callback, b: bool)
    ensures HasEntry(RegisterAll(q, rs), c) <==> HasEntry(q, c) || Event.Registered(c) in EventsOf(rs)
    ensures FlushIs(q, c, b) && (HasEntry(q, c) || !b) ==> FlushIs(RegisterAll(q, rs), c, b)
    decreases |rs|
  {
    hide HasEntry, FlushIs, Register;
    if rs != [] {
      var init, last := rs[..|rs| - 1], rs[|rs| - 1];
      RegisterAllKeepsEntry(q, init, c, b);
      RegisterKeepsEntry(RegisterAll(q, init), last, c, b);
      assert EventsOf(rs) == EventsOf(init) + [Event.Registered(last.callback)];
    }
  }

  // The answer of the last call of c.
  function LastDone(events: seq<Event>, c: Callback): Option<bool> {
    if events == [] then None
    else
      var e := events[|events| - 1];
      if e.Called? && e.callback == c then Some(e.done) else LastDone(events[..|events| - 1], c)
  }

  lemma {:induction false} LastDoneOfBoth(a: seq<Event>, b: seq<Event>, c: Callback)
    ensures LastDone(a + b, c) == if LastDone(b, c).Some? then LastDone(b, c) else LastDone(a, c)
    decreases |b|
  {
    if b == [] {
      assert a + b == a;
    } else {
      assert (a + b)[..|a + b| - 1] == a + b[..|b| - 1];
      LastDoneOfBoth(a, b[..|b| - 1], c);
    }
  }

  lemma {:induction false} NoCallIn(rs: seq<Registration>, c: Callback)
    ensures LastDone(EventsOf(rs), c) == None
    decreases |rs|
  {
    if rs != [] {
      assert EventsOf(rs)[..|rs| - 1] == EventsOf(rs[..|rs| - 1]);
      NoCallIn(rs[..|rs| - 1], c);
    }
  }

  lemma LastDoneOfCall(rs: seq<Registration>, call: Event, events: seq<Event>, c: Callback)
    requires call.Called?
    ensures LastDone(EventsOf(rs) + [call] + events, c)
      == if LastDone(events, c).Some? then LastDone(events, c) else if call.callback == c then Some(call.done) else None
  {
    hide LastDone, EventsOf;
    LastDoneOfBoth(EventsOf(rs) + [call], events, c);
    LastDoneOfBoth(EventsOf(rs), [call], c);
    NoCallIn(rs, c);
    OneCall(call, c);
  }

  lemma OneCall(call: Event, c: Callback)
    requires call.Called?
    ensures LastDone([call], c) == if call.callback == c then Some(call.done) else None
  {
    assert [call][..0] == [];
  }

  // The callbacks and their order.
  predicate SameCallbacks(q: seq<Entry>, q': seq<Entry>) {
    |q| == |q'| && forall i :: 0 <= i < |q| ==> q'[i].callback == q[i].callback
  }

  lemma SameCallbacksKeep(q: seq<Entry>, q': seq<Entry>, c: Callback)
    requires Distinct(q) && SameCallbacks(q, q')
    ensures Distinct(q') && SuffixOf(q, q') && (HasEntry(q', c) <==> HasEntry(q, c))
  {
    forall i, j | 0 <= i < j < |q| ensures q'[i].callback != q'[j].callback {
      assert q[i].callback != q[j].callback;
    }
    if HasEntry(q, c) {
      var j :| 0 <= j < |q| && q[j].callback == c;
      assert q'[j].callback == c;
    }
  }

  lemma MarkedKeeps(q: seq<Entry>, k: nat, done: bool, c: Callback, b: bool)
    requires 0 < k <= |q| && Distinct(q)
    ensures Distinct(Marked(q, k, done)) && SuffixOf(q, Marked(q, k, done))
    ensures HasEntry(Marked(q, k, done), c) <==> HasEntry(q, c)
    ensures c == q[|q| - k].callback ==> FlushIs(Marked(q, k, done), c, done) && HasEntry(q, c)
    ensures c != q[|q| - k].callback && FlushIs(q, c, b) ==> FlushIs(Marked(q, k, done), c, b)
  {
    hide *;
    MarkIsSame(q, k, done);
    SameCallbacksKeep(q, Marked(q, k, done), c);
    MarkIsSet(q, k, done, c, b);
  }

  lemma MarkIsSame(q: seq<Entry>, k: nat, done: bool)
    requires 0 < k <= |q|
    ensures SameCallbacks(q, Marked(q, k, done))
  {
  }

  lemma MarkIsSet(q: seq<Entry>, k: nat, done: bool, c: Callback, b: bool)
    requires 0 < k <= |q| && Distinct(q)
    ensures c == q[|q| - k].callback ==> FlushIs(Marked(q, k, done), c, done) && HasEntry(q, c)
    ensures c != q[|q| - k].callback && FlushIs(q, c, b) ==> FlushIs(Marked(q, k, done), c, b)
  {
    var d, q' := |q| - k, Marked(q, k, done);
    assert forall i :: 0 <= i < |q| && i != d ==> q'[i] == q[i] && q[i].callback != q[d].callback;
  }

  function FlushAfter(events: seq<Event>, c: Callback, before: bool): bool {
    var d := LastDone(events, c);
    if d.Some? then d.value else before
  }

  // One visited entry that is due: its callback registers timers, then it is marked.
  lemma CallKeeps(q: seq<Entry>, k: nat, a: Response, c: Callback, before: bool)
    requires Distinct(q) && 0 < k <= |q|
    ensures var q', called := Marked(RegisterAll(q, a.registrations), k, a.done), q[|q| - k].callback;
      && Distinct(q') && SuffixOf(q, q') && |q| <= |q'|
      && (HasEntry(q', c) <==> HasEntry(q, c) || Event.Registered(c) in EventsOf(a.registrations))
      && (FlushIs(q, c, before) && (HasEntry(q, c) || !before) ==> FlushIs(q', c, if called == c then a.done else before))
      && (called == c ==> HasEntry(q, c))
  {
    hide Distinct, HasEntry, FlushIs, RegisterAll, EventsOf, Marked;
    var q1 := RegisterAll(q, a.registrations);
    RegisterAllKeeps(q, a.registrations);
    RegisterAllKeepsEntry(q, a.registrations, c, before);
    MarkedKeeps(q1, k, a.done, c, before);
    assert q1[|q1| - |q| + (|q| - k)].callback == q[|q| - k].callback;
    EntryIsThere(q, |q| - k);
    SuffixTrans(q, q1, Marked(q1, k, a.done));
  }

  lemma RegisteredIn(rs: seq<Registration>, call: Event, events: seq<Event>, c: Callback)
    requires call.Called?
    ensures Event.Registered(c) in EventsOf(rs) + [call] + events
      <==> Event.Registered(c) in EventsOf(rs) || Event.Registered(c) in events
  {
    hide EventsOf;
  }

  // After a pass each entry is marked as its last call answered, or as before when it was not called.
  lemma {:induction false} PassKeeps(q: seq<Entry>, k: nat, pass: Pass, now: real, respond: Oracle, n: nat, c: Callback, before: bool)
    requires Distinct(q) && k <= |q|
    ensures var (r, events) := PassOver(q, k, pass, now, respond, n);
      && Distinct(r) && SuffixOf(q, r)
      && (HasEntry(r, c) <==> HasEntry(q, c) || Event.Registered(c) in events)
      && (FlushIs(q, c, before) && (HasEntry(q, c) || !before) ==> FlushIs(r, c, FlushAfter(events, c, before)))
    decreases k
  {
    hide Distinct, HasEntry, FlushIs, RegisterAll, EventsOf, Marked, Due, SuffixOf, LastDone;
    if k == 0 {
      SuffixOfItself(q);
      NoEvents(c);
    } else {
      var e := q[|q| - k];
      if Due(pass, e, now) {
        var a := respond(n, e.callback, now - e.time);
        var q' := Marked(RegisterAll(q, a.registrations), k, a.done);
        CallKeeps(q, k, a, c, before);
        var (r, events) := PassOver(q', k - 1, pass, now, respond, n + 1);
        PassKeeps(q', k - 1, pass, now, respond, n + 1, c, if e.callback == c then a.done else before);
        var call := Called(e.callback, now - e.time, a.done);
        LastDoneOfCall(a.registrations, call, events, c);
        RegisteredIn(a.registrations, call, events, c);
        SuffixTrans(q, q', r);
      } else {
        PassKeeps(q, k - 1, pass, now, respond, n, c, before);
      }
    }
  }

  lemma SuffixOfItself(q: seq<Entry>)
    ensures SuffixOf(q, q)
  {
  }

  lemma NoEvents(c: Callback)
    ensures LastDone([], c) == None
  {
  }

  lemma EntryIsThere(q: seq<Entry>, i: nat)
    requires i < |q|
    ensures HasEntry(q, q[i].callback)
  {
  }

  lemma SuffixTrans(q: seq<Entry>, r: seq<Entry>, s: seq<Entry>)
    requires SuffixOf(q, r) && SuffixOf(r, s)
    ensures SuffixOf(q, s)
  {
    forall i | 0 <= i < |q| ensures s[|s| - |q| + i].callback == q[i].callback {
      assert r[|r| - |q| + i].callback == q[i].callback;
      assert s[|s| - |r| + (|r| - |q| + i)].callback == r[|r| - |q| + i].callback;
    }
  }

  // ---------------------------------------------------------------- which callbacks a pass calls

  // Registering sets the time and the delay of the callback's entry, which is the first when it is new.
  // All other entries stay as they are.
  lemma RegisterIs(q: seq<Entry>, r: Registration)
    requires Distinct(q)
    ensures var q' := Register(q, r);
      && SuffixOf(q, q') && |q'| == (if HasEntry(q, r.callback) then |q| else |q| + 1)
      && (forall e :: e in q' && e.callback == r.callback ==> e.time == r.time && e.delay == r.delay)
      && (forall i :: 0 <= i < |q| && q[i].callback != r.callback ==> EntryFromEnd(q', |q| - i) == q[i])
      && (!HasEntry(q, r.callback) ==> q'[0] == Entry(r.callback, r.time, r.delay, false))
  {
    RegisterKeeps(q, r);
    var i := IndexOf(q, r.callback);
    assert HasEntry(q, r.callback) <==> i < |q|;
  }

  function EntryFromEnd(q: seq<Entry>, k: nat): Entry
    requires 0 < k <= |q|
  {
    q[|q| - k]
  }

  // A callback's entry is as it was unless the callback is registered.
  lemma {:induction false} RegisterAllKeepsOthers(q: seq<Entry>, rs: seq<Registration>, k: nat)
    requires Distinct(q) && 0 < k <= |q| && Event.Registered(EntryFromEnd(q, k).callback) !in EventsOf(rs)
    ensures EntryFromEnd(RegisterAll(q, rs), k) == EntryFromEnd(q, k)
    decreases |rs|
  {
    hide Distinct, Register;
    if rs != [] {
      var n := |rs| - 1;
      var init := RegisterAll(q, rs[..n]);
      assert EventsOf(rs)[n] == Event.Registered(rs[n].callback);
      assert forall i :: 0 <= i < n ==> EventsOf(rs)[i] == EventsOf(rs[..n])[i];
      RegisterAllKeepsOthers(q, rs[..n], k);
      RegisterAllKeeps(q, rs[..n]);
      RegisterIs(init, rs[n]);
      assert EntryFromEnd(init, k) == init[|init| - k];
    }
  }

  // Of several registrations of a callback the last decides.
  lemma {:induction false} LastRegistrationDecides(q: seq<Entry>, rs: seq<Registration>, i: nat)
    requires Distinct(q) && i < |rs| && forall j :: i < j < |rs| ==> rs[j].callback != rs[i].callback
    ensures forall e :: e in RegisterAll(q, rs) && e.callback == rs[i].callback ==> e.time == rs[i].time && e.delay == rs[i].delay
    decreases |rs|
  {
    hide Distinct, Register, HasEntry;
    var n := |rs| - 1;
    var init := RegisterAll(q, rs[..n]);
    RegisterAllKeeps(q, rs[..n]);
    RegisterIs(init, rs[n]);
    if i < n {
      LastRegistrationDecides(q, rs[..n], i);
      OthersStay(init, Register(init, rs[n]), rs[n].callback, rs[i].callback);
    }
  }

  lemma OthersStay(q: seq<Entry>, q': seq<Entry>, registered: Callback, c: Callback)
    requires SuffixOf(q, q') && |q'| <= |q| + 1 && (|q'| > |q| ==> q'[0].callback == registered) && c != registered
    requires forall i :: 0 <= i < |q| && q[i].callback != registered ==> EntryFromEnd(q', |q| - i) == q[i]
    ensures forall e :: e in q' && e.callback == c ==> e in q
  {
    forall j | 0 <= j < |q'| && q'[j].callback == c ensures q'[j] in q {
      var i := j - (|q'| - |q|);
      assert q'[|q'| - |q| + i].callback == q[i].callback;
      assert EntryFromEnd(q', |q| - i) == q[i];
    }
  }

  // New callbacks go in front of the list, the last registered first.
  lemma {:induction false} NewGoInFront(q: seq<Entry>, rs: seq<Registration>, i: nat)
    requires (forall j :: 0 <= j < |rs| ==> !HasEntry(q, rs[j].callback)) && i < |rs|
    requires forall j, k :: 0 <= j < k < |rs| ==> rs[j].callback != rs[k].callback
    ensures var r := RegisterAll(q, rs);
      && |r| == |rs| + |q| && r[|rs|..] == q
      && r[|rs| - 1 - i] == Entry(rs[i].callback, rs[i].time, rs[i].delay, false)
    decreases |rs|
  {
    hide IndexOf;
    var n := |rs| - 1;
    if n > 0 {
      NewGoInFront(q, rs[..n], if i < n then i else 0);
    }
    var init := RegisterAll(q, rs[..n]);
    forall k | 0 <= k < |init| ensures init[k].callback != rs[n].callback {
      if k < n {
        NewGoInFront(q, rs[..n], n - 1 - k);
      } else {
        assert init[k] == init[n..][k - n];
      }
    }
    IndexIs(init, rs[n].callback, |init|);
    var e := Entry(rs[n].callback, rs[n].time, rs[n].delay, false);
    assert RegisterAll(q, rs) == [e] + init;
    assert ([e] + init)[n + 1..] == init[n..];
  }

  // The calls among the events, in order.
  function Calls(events: seq<Event>): (calls: seq<Event>)
    ensures forall i :: 0 <= i < |calls| ==> calls[i].Called?
  {
    if events == [] then [] else (if events[0].Called? then [events[0]] else []) + Calls(events[1..])
  }

  lemma {:induction false} CallsAfterRegistrations(rs: seq<Registration>, events: seq<Event>)
    ensures Calls(EventsOf(rs) + events) == Calls(events)
    decreases |rs|
  {
    var all := EventsOf(rs) + events;
    if rs == [] {
      assert all == events;
    } else {
      assert all[0] == Event.Registered(rs[0].callback);
      assert all[1..] == EventsOf(rs[1..]) + events;
      CallsAfterRegistrations(rs[1..], events);
    }
  }

  lemma CallsOfAnswer(rs: seq<Registration>, call: Event, events: seq<Event>)
    requires call.Called?
    ensures Calls(EventsOf(rs) + [call] + events) == [call] + Calls(events)
  {
    hide EventsOf;
    assert EventsOf(rs) + [call] + events == EventsOf(rs) + ([call] + events);
    CallsAfterRegistrations(rs, [call] + events);
    assert ([call] + events)[1..] == events;
  }

  // A call was made for the entry that is k-th from the end, with the time that had passed for it.
  ghost predicate CalledFor(calls: seq<Event>, e: Entry, now: real) {
    exists i :: 0 <= i < |calls| && calls[i].Called? && calls[i].callback == e.callback && calls[i].elapsed == now - e.time
  }

  ghost predicate NotCalled(calls: seq<Event>, c: Callback) {
    forall i :: 0 <= i < |calls| ==> calls[i].Called? && calls[i].callback != c
  }

  // Calls are answered one after the other, with the number of calls before them; the first is number n.
  ghost predicate Answered(calls: seq<Event>, respond: Oracle, n: nat) {
    forall i :: 0 <= i < |calls| ==> calls[i].Called? && calls[i].done == respond(n + i, calls[i].callback, calls[i].elapsed).done
  }

  lemma AnsweredNext(call: Event, calls: seq<Event>, respond: Oracle, n: nat)
    requires call.Called? && call.done == respond(n, call.callback, call.elapsed).done && Answered(calls, respond, n + 1)
    ensures Answered([call] + calls, respond, n)
  {
    var all := [call] + calls;
    forall i | 0 <= i < |all| ensures all[i].Called? && all[i].done == respond(n + i, all[i].callback, all[i].elapsed).done {
      if i > 0 {
        assert all[i] == calls[i - 1];
        assert calls[i - 1].done == respond(n + 1 + (i - 1), calls[i - 1].callback, calls[i - 1].elapsed).done;
      }
    }
  }

  lemma {:induction false} PassAnswers(q: seq<Entry>, k: nat, pass: Pass, now: real, respond: Oracle, n: nat)
    requires k <= |q|
    ensures Answered(Calls(PassOver(q, k, pass, now, respond, n).1), respond, n)
    decreases k
  {
    hide Answered, RegisterAll, Due, EventsOf;
    if k == 0 {
      NothingAnswered(respond, n);
    } else {
      var e := q[|q| - k];
      if Due(pass, e, now) {
        var a := respond(n, e.callback, now - e.time);
        var q' := Marked(RegisterAll(q, a.registrations), k, a.done);
        var (_, events) := PassOver(q', k - 1, pass, now, respond, n + 1);
        PassAnswers(q', k - 1, pass, now, respond, n + 1);
        CallsOfAnswer(a.registrations, Called(e.callback, now - e.time, a.done), events);
        AnsweredNext(Called(e.callback, now - e.time, a.done), Calls(events), respond, n);
      } else {
        PassAnswers(q, k - 1, pass, now, respond, n);
      }
    }
  }

  lemma NothingAnswered(respond: Oracle, n: nat)
    ensures Calls([]) == [] && Answered([], respond, n)
  {
  }

  // Calls go down the list: each is for an entry of the last k, and further towards the end than the one before.
  ghost predicate DownTheList(q: seq<Entry>, k: nat, calls: seq<Event>) {
    calls != [] ==>
      exists j :: 0 < j <= k && j <= |q| && calls[0].callback == EntryFromEnd(q, j).callback && DownTheList(q, j - 1, calls[1..])
  }

  lemma {:induction false} DownTheLonger(q: seq<Entry>, q': seq<Entry>, k: nat, k': nat, calls: seq<Event>)
    requires SuffixOf(q, q') && k <= |q| && k <= k' && DownTheList(q', k, calls)
    ensures DownTheList(q, k', calls)
    decreases |calls|
  {
    if calls != [] {
      var j :| 0 < j <= k && j <= |q'| && calls[0].callback == EntryFromEnd(q', j).callback && DownTheList(q', j - 1, calls[1..]);
      DownTheLonger(q, q', j - 1, j - 1, calls[1..]);
      assert q'[|q'| - |q| + (|q| - j)].callback == q[|q| - j].callback;
      assert calls[0].callback == EntryFromEnd(q, j).callback;
    }
  }

  lemma {:induction false} PassGoesDown(q: seq<Entry>, k: nat, pass: Pass, now: real, respond: Oracle, n: nat)
    requires Distinct(q) && k <= |q|
    ensures DownTheList(q, k, Calls(PassOver(q, k, pass, now, respond, n).1))
    decreases k
  {
    hide Distinct, Marked, RegisterAll, Due, EventsOf, HasEntry, FlushIs, SuffixOf, DownTheList;
    if k == 0 {
      NothingGoesDown(q);
    } else {
      var e := q[|q| - k];
      SuffixOfItself(q);
      if Due(pass, e, now) {
        var a := respond(n, e.callback, now - e.time);
        var q' := Marked(RegisterAll(q, a.registrations), k, a.done);
        CallKeeps(q, k, a, e.callback, false);
        var (_, events) := PassOver(q', k - 1, pass, now, respond, n + 1);
        var call := Called(e.callback, now - e.time, a.done);
        PassGoesDown(q', k - 1, pass, now, respond, n + 1);
        DownTheLonger(q, q', k - 1, k - 1, Calls(events));
        CallsOfAnswer(a.registrations, call, events);
        FirstGoesDown(q, k, call, Calls(events));
      } else {
        PassGoesDown(q, k - 1, pass, now, respond, n);
        DownTheLonger(q, q, k - 1, k, Calls(PassOver(q, k - 1, pass, now, respond, n).1));
      }
    }
  }

  lemma NothingGoesDown(q: seq<Entry>)
    ensures Calls([]) == [] && DownTheList(q, 0, [])
  {
  }

  lemma FirstGoesDown(q: seq<Entry>, k: nat, call: Event, calls: seq<Event>)
    requires 0 < k <= |q| && call.Called? && call.callback == EntryFromEnd(q, k).callback && DownTheList(q, k - 1, calls)
    ensures DownTheList(q, k, [call] + calls)
  {
    assert ([call] + calls)[1..] == calls;
  }

  // The time of e has come, or, in an immediate flush, it has no delay.
  predicate HasCome(pass: Pass, e: Entry, now: real) {
    if pass.Immediate? then e.delay == 0.0 else e.time + e.delay <= now
  }

  // In what is left of the pass, the entry that is i-th from the end is called if it is still to come and
  // its time has come, and not otherwise.
  lemma {:induction false} PassCallsIff(q: seq<Entry>, k: nat, i: nat, pass: Pass, now: real, respond: Oracle, n: nat)
    requires Distinct(q) && k <= |q| && 0 < i <= |q|
    requires Event.Registered(EntryFromEnd(q, i).callback) !in PassOver(q, k, pass, now, respond, n).1
    ensures var calls, e := Calls(PassOver(q, k, pass, now, respond, n).1), EntryFromEnd(q, i);
      if i <= k && HasCome(pass, e, now) then CalledFor(calls, e, now) else NotCalled(calls, e.callback)
    decreases k
  {
    hide Distinct, RegisterAll, EventsOf, SuffixOf, CalledFor, NotCalled, HasEntry, FlushIs, Marked;
    var e := EntryFromEnd(q, i);
    if k == 0 {
      NothingCalled(e.callback);
    } else {
      var v := q[|q| - k];
      if Due(pass, v, now) {
        var a := respond(n, v.callback, now - v.time);
        var q' := Marked(RegisterAll(q, a.registrations), k, a.done);
        CallKeeps(q, k, a, e.callback, false);
        var (_, events) := PassOver(q', k - 1, pass, now, respond, n + 1);
        var call := Called(v.callback, now - v.time, a.done);
        RegisteredIn(a.registrations, call, events, e.callback);
        RegisterAllKeepsOthers(q, a.registrations, i);
        MarkedKeepsOthers(RegisterAll(q, a.registrations), k, a.done, i);
        CallsOfAnswer(a.registrations, call, events);
        PassCallsIff(q', k - 1, i, pass, now, respond, n + 1);
        OneMoreCall(call, Calls(events), e, now, EntryFromEnd(q', i));
        if i != k {
          OtherCallback(q, i, k);
        }
      } else {
        PassCallsIff(q, k - 1, i, pass, now, respond, n);
      }
    }
  }

  lemma NothingCalled(c: Callback)
    ensures Calls([]) == [] && NotCalled([], c)
  {
  }

  lemma OtherCallback(q: seq<Entry>, i: nat, k: nat)
    requires Distinct(q) && 0 < i <= |q| && 0 < k <= |q| && i != k
    ensures EntryFromEnd(q, i).callback != EntryFromEnd(q, k).callback
  {
  }

  lemma MarkedKeepsOthers(q: seq<Entry>, k: nat, done: bool, i: nat)
    requires 0 < k <= |q| && 0 < i <= |q|
    ensures var e, e' := EntryFromEnd(q, i), EntryFromEnd(Marked(q, k, done), i);
      e'.callback == e.callback && e'.time == e.time && e'.delay == e.delay
  {
  }

  lemma OneMoreCall(call: Event, calls: seq<Event>, e: Entry, now: real, e': Entry)
    requires call.Called? && e'.callback == e.callback && e'.time == e.time
    ensures CalledFor(calls, e', now) ==> CalledFor([call] + calls, e, now)
    ensures call.callback == e.callback && call.elapsed == now - e.time ==> CalledFor([call] + calls, e, now)
    ensures call.callback != e.callback && NotCalled(calls, e'.callback) ==> NotCalled([call] + calls, e.callback)
  {
    var all := [call] + calls;
    assert all[0] == call;
    assert forall i :: 0 <= i < |calls| ==> all[i + 1] == calls[i];
  }

  // A callback that is not registered during the pass is called exactly when its time has come; then once,
  // and it is given the time that has passed since.
  lemma CalledIff(q: seq<Entry>, pass: Pass, now: real, respond: Oracle, i: nat)
    requires Distinct(q) && i < |q| && Event.Registered(q[i].callback) !in Visited(q, pass, now, respond).1
    ensures var calls, e := Calls(Visited(q, pass, now, respond).1), q[i];
      && (pass.Elapsed? ==> (e.time + e.delay <= now <==> CalledFor(calls, e, now)))
      && (pass.Immediate? ==> (e.delay == 0.0 <==> CalledFor(calls, e, now)))
      && (CalledFor(calls, e, now) || NotCalled(calls, e.callback))
  {
    hide Distinct, PassOver;
    PassCallsIff(q, |q|, |q| - i, pass, now, respond, 0);
  }

  // The calls of a pass are made in the order of the list, at most one for every entry and none for a
  // callback that was not in it, and answered in that order.
  lemma CalledInOrder(q: seq<Entry>, pass: Pass, now: real, respond: Oracle, i: nat, j: nat)
    requires Distinct(q) && i < j < |Calls(Visited(q, pass, now, respond).1)|
    ensures var calls := Calls(Visited(q, pass, now, respond).1);
      && HasEntry(q, calls[i].callback) && HasEntry(q, calls[j].callback)
      && IndexOf(q, calls[i].callback) < IndexOf(q, calls[j].callback)
      && calls[i].done == respond(i, calls[i].callback, calls[i].elapsed).done
      && calls[j].done == respond(j, calls[j].callback, calls[j].elapsed).done
  {
    hide Distinct, PassOver, HasEntry, IndexOf, DownTheList;
    var calls := Calls(Visited(q, pass, now, respond).1);
    PassAnswers(q, |q|, pass, now, respond, 0);
    PassGoesDown(q, |q|, pass, now, respond, 0);
    var k := PlaceOfCall(q, |q|, calls, i);
    assert calls[i..][1..] == calls[i + 1..];
    var l := PlaceOfCall(q, k - 1, calls[i + 1..], j - i - 1);
    assert calls[i + 1..][j - i - 1] == calls[j];
    PlaceIsIndex(q, k);
    PlaceIsIndex(q, l);
    assert calls[0 + i].done == respond(0 + i, calls[i].callback, calls[i].elapsed).done;
    assert calls[0 + j].done == respond(0 + j, calls[j].callback, calls[j].elapsed).done;
  }

  lemma {:induction false} PlaceOfCall(q: seq<Entry>, k: nat, calls: seq<Event>, i: nat) returns (j: nat)
    requires DownTheList(q, k, calls) && i < |calls| && forall m :: 0 <= m < |calls| ==> calls[m].Called?
    ensures 0 < j <= k && j <= |q| && calls[i].callback == EntryFromEnd(q, j).callback && DownTheList(q, j - 1, calls[i + 1..])
    decreases i
  {
    j :| 0 < j <= k && j <= |q| && calls[0].callback == EntryFromEnd(q, j).callback && DownTheList(q, j - 1, calls[1..]);
    if i > 0 {
      j := PlaceOfCall(q, j - 1, calls[1..], i - 1);
      assert calls[1..][i - 1] == calls[i] && calls[1..][i..] == calls[i + 1..];
    }
  }

  lemma PlaceIsIndex(q: seq<Entry>, k: nat)
    requires Distinct(q) && 0 < k <= |q|
    ensures IndexOf(q, EntryFromEnd(q, k).callback) == |q| - k && HasEntry(q, EntryFromEnd(q, k).callback)
  {
    IndexIs(q, q[|q| - k].callback, |q| - k);
  }

  // ---------------------------------------------------------------- what a flush keeps

  // How many of the first i entries stay.
  function KeptIndex(q: seq<Entry>, i: nat): nat
    requires i <= |q|
  {
    if i == 0 then 0 else KeptIndex(q, i - 1) + if q[i - 1].flush then 0 else 1
  }

  // Where the j-th entry that stays comes from.
  function Origin(q: seq<Entry>, n: nat, j: nat): (i: nat)
    requires n <= |q| && j < KeptIndex(q, n)
    ensures i < n && !q[i].flush && KeptIndex(q, i) == j
  {
    if KeptIndex(q, n - 1) == j then n - 1 else Origin(q, n - 1, j)
  }

  lemma {:induction false} KeptLength(q: seq<Entry>, n: nat)
    requires n <= |q|
    ensures |Kept(q[..n])| == KeptIndex(q, n)
  {
    hide Kept;
    KeptNext(q, n);
    if n > 0 {
      KeptLength(q, n - 1);
    }
  }

  // Exactly the entries that are not marked stay, unchanged and in the same order.
  lemma {:induction false} KeptIs(q: seq<Entry>, n: nat, i: nat)
    requires i < n <= |q| && !q[i].flush
    ensures KeptIndex(q, i) < |Kept(q[..n])| && Kept(q[..n])[KeptIndex(q, i)] == q[i]
    decreases n
  {
    hide Kept, KeptIndex;
    KeptNext(q, n);
    KeptLength(q, n - 1);
    if i < n - 1 {
      KeptIs(q, n - 1, i);
    }
  }

  lemma KeptNext(q: seq<Entry>, n: nat)
    requires n <= |q|
    ensures Kept(q[..n]) == if n == 0 then [] else Kept(q[..n - 1]) + if q[n - 1].flush then [] else [q[n - 1]]
  {
    if n > 0 {
      assert q[..n][..n - 1] == q[..n - 1];
    }
  }

  lemma {:induction false} KeptInOrder(q: seq<Entry>, i: nat, j: nat)
    requires i < j <= |q|
    ensures KeptIndex(q, i) <= KeptIndex(q, j) && (!q[i].flush ==> KeptIndex(q, i) < KeptIndex(q, j))
    decreases j
  {
    if i < j - 1 {
      KeptInOrder(q, i, j - 1);
    }
  }

  lemma KeptComesFrom(q: seq<Entry>, j: nat)
    requires j < |Kept(q)|
    ensures |Kept(q)| == KeptIndex(q, |q|) && Kept(q)[j] == q[Origin(q, |q|, j)]
  {
    hide Kept, KeptIndex;
    KeptLength(q, |q|);
    assert q[..|q|] == q;
    KeptIs(q, |q|, Origin(q, |q|, j));
  }

  lemma KeptKeeps(q: seq<Entry>)
    requires Distinct(q)
    ensures AtRest(Kept(q))
  {
    hide Kept, KeptIndex;
    var r := Kept(q);
    forall j | 0 <= j < |r| ensures !r[j].flush {
      KeptComesFrom(q, j);
    }
    forall j, k | 0 <= j < k < |r| ensures r[j].callback != r[k].callback {
      KeptComesFrom(q, j);
      KeptComesFrom(q, k);
    }
  }

  lemma KeptKeepsEntry(q: seq<Entry>, c: Callback)
    requires Distinct(q)
    ensures HasEntry(Kept(q), c) <==> HasEntry(q, c) && FlushIs(q, c, false)
  {
    hide Kept, KeptIndex;
    var r := Kept(q);
    assert q[..|q|] == q;
    if HasEntry(q, c) && FlushIs(q, c, false) {
      var i :| 0 <= i < |q| && q[i].callback == c;
      KeptIs(q, |q|, i);
      assert r[KeptIndex(q, i)].callback == c;
    }
    if HasEntry(r, c) {
      var j :| 0 <= j < |r| && r[j].callback == c;
      KeptComesFrom(q, j);
    }
  }

  // ---------------------------------------------------------------- runs

  // Between operations callbacks are distinct and nothing is marked.
  ghost predicate AtRest(q: seq<Entry>) {
    Distinct(q) && forall i :: 0 <= i < |q| ==> !q[i].flush
  }

  datatype Operation = Timer(registration: Registration) | Step(now: real, respond: Oracle) | FlushNow(now: real, respond: Oracle)

  ghost function Visited(q: seq<Entry>, pass: Pass, now: real, respond: Oracle): (seq<Entry>, seq<Event>) {
    PassOver(q, |q|, pass, now, respond, 0)
  }

  ghost function Apply(q: seq<Entry>, op: Operation): seq<Entry> {
    match op
    case Timer(r) => Register(q, r)
    case Step(now, respond) => Kept(Visited(q, Elapsed, now, respond).0)
    case FlushNow(now, respond) => Kept(Visited(q, Immediate, now, respond).0)
  }

  ghost function Run(ops: seq<Operation>): seq<Entry> {
    if ops == [] then [] else Apply(Run(ops[..|ops| - 1]), ops[|ops| - 1])
  }

  // A pass and its flush: a callback is in the queue afterwards exactly when it was there or was
  // registered meanwhile, and its last call in this pass did not return true.
  lemma SurvivesIff(q: seq<Entry>, pass: Pass, now: real, respond: Oracle, c: Callback)
    requires AtRest(q)
    ensures var (r, events) := Visited(q, pass, now, respond);
      && AtRest(Kept(r))
      && (HasEntry(Kept(r), c) <==> (HasEntry(q, c) || Event.Registered(c) in events) && LastDone(events, c) != Some(true))
  {
    hide Distinct, HasEntry, PassOver, Kept;
    var (r, events) := Visited(q, pass, now, respond);
    assert FlushIs(q, c, false);
    PassKeeps(q, |q|, pass, now, respond, 0, c, false);
    KeptKeeps(r);
    KeptKeepsEntry(r, c);
    BothMarks(r, c);
  }

  lemma BothMarks(q: seq<Entry>, c: Callback)
    ensures HasEntry(q, c) && FlushIs(q, c, true) ==> !FlushIs(q, c, false)
  {
  }

  lemma {:induction false} RunIsAtRest(ops: seq<Operation>)
    ensures AtRest(Run(ops))
    decreases |ops|
  {
    hide Distinct, Register, PassOver, Kept;
    if ops == [] {
      NothingIsAtRest();
    } else {
      var q, op := Run(ops[..|ops| - 1]), ops[|ops| - 1];
      RunIsAtRest(ops[..|ops| - 1]);
      match op {
        case Timer(r) => RegisterAtRest(q, r);
        case Step(now, respond) => SurvivesIff(q, Elapsed, now, respond, 0);
        case FlushNow(now, respond) => SurvivesIff(q, Immediate, now, respond, 0);
      }
    }
  }

  lemma NothingIsAtRest()
    ensures AtRest([])
  {
  }

  lemma RegisterAtRest(q: seq<Entry>, r: Registration)
    requires AtRest(q)
    ensures AtRest(Register(q, r))
  {
    RegisterKeeps(q, r);
  }

  // Once a callback's last call in a pass has returned true it is gone after the flush, even when
  // it was registered again in the same pass, by itself or by another.
  lemma RegisteringWhileDoneIsLost(q: seq<Entry>, pass: Pass, now: real, respond: Oracle, c: Callback)
    requires AtRest(q)
    ensures var (r, events) := Visited(q, pass, now, respond);
      LastDone(events, c) == Some(true) ==> !HasEntry(Kept(r), c)
  {
    hide AtRest, PassOver, Kept;
    SurvivesIff(q, pass, now, respond, c);
  }

  // One such input: a single timer that registers itself for later and returns true.
  lemma RegisteringItselfIsLost(time: real, now: real)
    requires now >= time
    ensures var q := [Entry(7, time, 0.0, false)];
      var again := Response([Registration(7, 1000.0, now)], true);
      Apply(q, Step(now, (n, c, elapsed) => again)) == []
  {
    var q, again := [Entry(7, time, 0.0, false)], Response([Registration(7, 1000.0, now)], true);
    var respond: Oracle := (n, c, elapsed) => again;
    assert again.registrations[..0] == [];
    assert RegisterAll(q, again.registrations) == [Entry(7, now, 1000.0, false)];
    var q' := [Entry(7, now, 1000.0, true)];
    assert Marked(RegisterAll(q, again.registrations), 1, true) == q';
    assert PassOver(q', 0, Elapsed, now, respond, 1) == (q', []);
    assert respond(0, 7, now - time) == again;
    assert PassOver(q, 1, Elapsed, now, respond, 0).0 == q';
    assert Visited(q, Elapsed, now, respond).0 == q';
    assert q'[..0] == [];
    assert Kept(q') == Kept(q'[..0]) + [];
    assert Apply(q, Step(now, respond)) == [];
  }

  // ---------------------------------------------------------------- waking up

  // Whether frames are requested step by step, how many frames are pending, and when the timeout is due.
  datatype Alarm = Alarm(interval: bool, frames: nat, timeout: Option<real>)

  // Registering wakes a sleeping queue with the next frame.
  function Woken(a: Alarm): Alarm {
    if a.interval then a else Alarm(true, a.frames + 1, None)
  }

  function WokenIf(a: Alarm, registered: bool): Alarm {
    if registered then Woken(a) else a
  }

  // Steps are more than 24 ms apart only when no timer is due earlier.
  function Rearmed(a: Alarm, now: real, earliest: Option<real>): Alarm {
    if earliest.None? then a.(interval := false)
    else if earliest.value - now > 24.0 then Alarm(false, a.frames, Some(earliest.value))
    else Alarm(true, a.frames + 1, a.timeout)
  }

  // A step runs because a frame or the timeout has come.
  datatype Trigger = Frame | Timeout

  function Triggered(a: Alarm, t: Trigger): Alarm {
    match t
    case Frame => a.(frames := if a.frames > 0 then a.frames - 1 else 0)
    case Timeout => a.(timeout := None)
  }

  ghost function Ring(q: seq<Entry>, a: Alarm, op: Operation, t: Trigger): Alarm {
    match op
    case Timer(_) => Woken(a)
    case Step(now, respond) =>
      var (r, events) := Visited(q, Elapsed, now, respond);
      Rearmed(WokenIf(Triggered(a, t), AnyRegistered(events)), now, Earliest(r))
    case FlushNow(now, respond) => WokenIf(a, AnyRegistered(Visited(q, Immediate, now, respond).1))
  }

  // A queue with timers in it has a frame pending, or a timeout no later than any of them is due.
  ghost predicate Awake(q: seq<Entry>, a: Alarm) {
    if a.interval then a.frames > 0
    else q != [] ==> a.timeout.Some? && forall i :: 0 <= i < |q| ==> a.timeout.value <= q[i].time + q[i].delay
  }

  // The alarm after a run; triggers[i] is what made operation i run, if it is a step.
  ghost function RunAlarm(ops: seq<Operation>, triggers: seq<Trigger>): Alarm
    requires |ops| == |triggers|
  {
    if ops == [] then Alarm(false, 0, None)
    else
      var n := |ops| - 1;
      Ring(Run(ops[..n]), RunAlarm(ops[..n], triggers[..n]), ops[n], triggers[n])
  }

  lemma {:induction false} QuietPassKeepsTimes(q: seq<Entry>, k: nat, pass: Pass, now: real, respond: Oracle, n: nat)
    requires k <= |q| && !AnyRegistered(PassOver(q, k, pass, now, respond, n).1)
    ensures var r := PassOver(q, k, pass, now, respond, n).0;
      |r| == |q| && forall i :: 0 <= i < |q| ==> r[i].time == q[i].time && r[i].delay == q[i].delay
    decreases k
  {
    hide PassOver, Due;
    if k == 0 {
      EmptyPass(q, pass, now, respond, n);
    } else {
      PassNext(q, k, pass, now, respond, n);
      var e := q[|q| - k];
      if Due(pass, e, now) {
        var a := respond(n, e.callback, now - e.time);
        assert RegisterAll(q, a.registrations) == q;
        QuietPassKeepsTimes(Marked(q, k, a.done), k - 1, pass, now, respond, n + 1);
      } else {
        QuietPassKeepsTimes(q, k - 1, pass, now, respond, n);
      }
    }
  }

  lemma EmptyPass(q: seq<Entry>, pass: Pass, now: real, respond: Oracle, n: nat)
    ensures PassOver(q, 0, pass, now, respond, n) == (q, [])
  {
  }

  lemma RingKeepsAwake(q: seq<Entry>, a: Alarm, op: Operation, t: Trigger)
    requires Awake(q, a)
    ensures Awake(Apply(q, op), Ring(q, a, op, t))
  {
    hide PassOver, Kept, Earliest, Register, AnyRegistered, KeptIndex;
    match op {
      case Timer(_) => {}
      case Step(now, respond) => {
        var r := Visited(q, Elapsed, now, respond).0;
        EarliestIsLeast(r);
        assert forall i :: 0 <= i < |Kept(r)| ==> Kept(r)[i] in Kept(r);
      }
      case FlushNow(now, respond) => {
        var (r, events) := Visited(q, Immediate, now, respond);
        if !AnyRegistered(events) && !a.interval && Kept(r) != [] {
          QuietPassKeepsTimes(q, |q|, Immediate, now, respond, 0);
          QuietFlush(q, r, a);
        }
      }
    }
  }

  lemma QuietFlush(q: seq<Entry>, r: seq<Entry>, a: Alarm)
    requires Awake(q, a) && !a.interval && Kept(r) != []
    requires |r| == |q| && forall i :: 0 <= i < |q| ==> r[i].time == q[i].time && r[i].delay == q[i].delay
    ensures Awake(Kept(r), a)
  {
    hide Kept, KeptIndex;
    KeptComesFrom(r, 0);
    assert q != [];
    forall j | 0 <= j < |Kept(r)| ensures a.timeout.value <= Kept(r)[j].time + Kept(r)[j].delay {
      KeptComesFrom(r, j);
      var i := Origin(r, |r|, j);
      assert r[i].time == q[i].time;
    }
  }

  // What a step arranges: the next frame when some timer is due within 24 ms, else the time at which the
  // first one is, and nothing when there are none.
  lemma StepArranges(q: seq<Entry>, a: Alarm, now: real, respond: Oracle, t: Trigger)
    ensures var op := Step(now, respond);
      var left, after := Apply(q, op), Ring(q, a, op, t);
      var asked := WokenIf(Triggered(a, t), AnyRegistered(Visited(q, Elapsed, now, respond).1));
      if exists e :: e in left && e.time + e.delay <= now + 24.0 then
        after.interval && after.frames == asked.frames + 1 && after.timeout == asked.timeout
      else
        && !after.interval && after.frames == asked.frames
        && (left == [] ==> after.timeout == asked.timeout)
        && (left != [] ==> after.timeout.Some?)
        && (forall e :: e in left ==> after.timeout.value <= e.time + e.delay)
        && (left != [] ==> exists e :: e in left && after.timeout.value == e.time + e.delay)
  {
    hide PassOver, Kept, Earliest, AnyRegistered, WokenIf, Triggered;
    var r := Visited(q, Elapsed, now, respond).0;
    EarliestIsLeast(r);
    if Earliest(r).None? {
      assert Kept(r) == [];
    } else {
      assert exists e :: e in Kept(r) && Earliest(r).value == e.time + e.delay;
    }
  }

  // At most one frame is pending, and only while frames are requested step by step.
  ghost predicate Single(a: Alarm) {
    a.frames == (if a.interval then 1 else 0) && (a.interval ==> a.timeout.None?)
  }

  // Only what is pending can make a step run.
  ghost predicate CanCome(a: Alarm, op: Operation, t: Trigger) {
    op.Step? ==> if t.Frame? then a.frames > 0 else a.timeout.Some?
  }

  ghost predicate RegistersInTimeout(q: seq<Entry>, op: Operation, t: Trigger) {
    op.Step? && t.Timeout? && AnyRegistered(Visited(q, Elapsed, op.now, op.respond).1)
  }

  // One frame too many is requested exactly when a callback registers a timer in a step that a timeout
  // has made run: once for the registration, and once more after the step.
  lemma SingleIff(q: seq<Entry>, a: Alarm, op: Operation, t: Trigger)
    requires Single(a) && CanCome(a, op, t)
    ensures Single(Ring(q, a, op, t)) <==> !RegistersInTimeout(q, op, t)
  {
    hide PassOver, Earliest, AnyRegistered;
  }

  // The alarm before operation i of a run, and what operation i does.
  ghost predicate SingleAt(ops: seq<Operation>, triggers: seq<Trigger>, i: nat)
    requires |ops| == |triggers| && i <= |ops|
  {
    Single(RunAlarm(ops[..i], triggers[..i]))
  }

  ghost predicate CanComeAt(ops: seq<Operation>, triggers: seq<Trigger>, i: nat)
    requires |ops| == |triggers| && i < |ops|
  {
    CanCome(RunAlarm(ops[..i], triggers[..i]), ops[i], triggers[i])
  }

  ghost predicate RegistersAt(ops: seq<Operation>, triggers: seq<Trigger>, i: nat)
    requires |ops| == |triggers| && i < |ops|
  {
    RegistersInTimeout(Run(ops[..i]), ops[i], triggers[i])
  }

  lemma SingleNext(ops: seq<Operation>, triggers: seq<Trigger>, i: nat)
    requires |ops| == |triggers| && i < |ops| && CanComeAt(ops, triggers, i) && SingleAt(ops, triggers, i)
    ensures SingleAt(ops, triggers, i + 1) <==> !RegistersAt(ops, triggers, i)
  {
    hide Single, CanCome, Ring, RegistersInTimeout, Apply;
    assert ops[..i + 1][..i] == ops[..i] && triggers[..i + 1][..i] == triggers[..i];
    SingleIff(Run(ops[..i]), RunAlarm(ops[..i], triggers[..i]), ops[i], triggers[i]);
  }

  lemma SingleFirst(ops: seq<Operation>, triggers: seq<Trigger>)
    requires |ops| == |triggers|
    ensures SingleAt(ops, triggers, 0)
  {
    hide Single;
    NothingIsSingle();
  }

  // A run never has two frames pending exactly when no step of it does so.
  lemma {:induction false} RunIsSingleIff(ops: seq<Operation>, triggers: seq<Trigger>, n: nat)
    requires |ops| == |triggers| && n <= |ops| && forall i :: 0 <= i < n ==> CanComeAt(ops, triggers, i)
    ensures (forall i :: 0 <= i <= n ==> SingleAt(ops, triggers, i)) <==> forall i :: 0 <= i < n ==> !RegistersAt(ops, triggers, i)
  {
    hide SingleAt, CanComeAt, RegistersAt;
    SingleFirst(ops, triggers);
    if n > 0 {
      RunIsSingleIff(ops, triggers, n - 1);
      if SingleAt(ops, triggers, n - 1) {
        SingleNext(ops, triggers, n - 1);
      }
    }
  }

  lemma NothingIsSingle()
    ensures Single(Alarm(false, 0, None))
  {
  }

  // One such run: a timer is due in a second; when the timeout comes, it registers another one.
  lemma TwoFramesPending()
    ensures var first, other := Registration(1, 1000.0, 0.0), Registration(2, 0.0, 1000.0);
      var wait: Operation := Step(0.0, (n, c, elapsed) => Response([], false));
      var come: Operation := Step(1000.0, (n, c, elapsed) => Response([other], true));
      RunAlarm([Timer(first), wait, come], [Frame, Frame, Timeout]).frames == 2
  {
    var first, other := Registration(1, 1000.0, 0.0), Registration(2, 0.0, 1000.0);
    var idle: Oracle := (n, c, elapsed) => Response([], false);
    var more: Oracle := (n, c, elapsed) => Response([other], true);
    var wait, come := Step(0.0, idle), Step(1000.0, more);
    var ops, triggers := [Timer(first), wait, come], [Frame, Frame, Timeout];
    assert ops[..2] == [Timer(first), wait] && ops[..2][..1] == [Timer(first)] && ops[..2][..1][..0] == [];
    assert triggers[..2] == [Frame, Frame] && triggers[..2][..1] == [Frame] && triggers[..2][..1][..0] == [];
    var e, f := Entry(1, 0.0, 1000.0, false), Entry(2, 1000.0, 0.0, false);
    assert Run(ops[..2][..1]) == [e] && RunAlarm(ops[..2][..1], triggers[..2][..1]) == Alarm(true, 1, None);
    LateTimerWaits(e, idle);
    assert Run(ops[..2]) == [e] && RunAlarm(ops[..2], triggers[..2]) == Alarm(false, 0, Some(1000.0));
    TimerAddsTimer(e, other, more);
  }

  lemma LateTimerWaits(e: Entry, respond: Oracle)
    requires e == Entry(1, 0.0, 1000.0, false)
    ensures Apply([e], Step(0.0, respond)) == [e]
    ensures Ring([e], Alarm(true, 1, None), Step(0.0, respond), Frame) == Alarm(false, 0, Some(1000.0))
  {
    assert PassOver([e], 0, Elapsed, 0.0, respond, 0) == ([e], []);
    assert Visited([e], Elapsed, 0.0, respond) == ([e], []);
    assert [e][..0] == [];
    assert Kept([e][..0]) == [] && Earliest([e][..0]) == None;
    assert Kept([e]) == [] + [e] && Earliest([e]) == Some(1000.0);
  }

  lemma TimerAddsTimer(e: Entry, other: Registration, respond: Oracle)
    requires e == Entry(1, 0.0, 1000.0, false) && other == Registration(2, 0.0, 1000.0)
    requires respond(0, 1, 1000.0) == Response([other], true)
    ensures Ring([e], Alarm(false, 0, Some(1000.0)), Step(1000.0, respond), Timeout).frames == 2
  {
    var f, done := Entry(2, 1000.0, 0.0, false), Entry(1, 0.0, 1000.0, true);
    assert [other][..0] == [] && RegisterAll([e], [other]) == [f, e];
    assert Marked([f, e], 1, true) == [f, done];
    assert PassOver([f, done], 0, Elapsed, 1000.0, respond, 1) == ([f, done], []);
    var events := EventsOf([other]) + [Called(1, 1000.0, true)] + [];
    assert Visited([e], Elapsed, 1000.0, respond) == ([f, done], events);
    assert events[0].Registered?;
    assert [f, done][..1] == [f] && [f][..0] == [];
    assert Earliest([f][..0]) == None && Earliest([f]) == Some(1000.0);
    assert Earliest([f, done]) == Earliest([f]);
  }

  // In every run, whatever wakes the steps and whenever: no timer is slept past.
  lemma {:induction false} RunIsAwake(ops: seq<Operation>, triggers: seq<Trigger>)
    requires |ops| == |triggers|
    ensures Awake(Run(ops), RunAlarm(ops, triggers))
    decreases |ops|
  {
    hide Awake, Apply, Ring;
    if ops == [] {
      NothingToWake();
    } else {
      var n := |ops| - 1;
      RunIsAwake(ops[..n], triggers[..n]);
      RingKeepsAwake(Run(ops[..n]), RunAlarm(ops[..n], triggers[..n]), ops[n], triggers[n]);
    }
  }

  lemma NothingToWake()
    ensures Awake([], Alarm(false, 0, None))
  {
  }
}
