// The generator of version-1 UUIDs and the uniqueness of what it generates.
module UuidGenerator {
  import opened Uuid
  import opened Wrappers

  const TICKS := 0x1000_0000_0000_0000
  const CLOCKS := 0x4000

  // The class variables.
  datatype State = State(lastTimestamp: Option<int>, lastNodeId: Option<nat>, lastClockSequence: Option<nat>)

  const FRESH := State(None, None, None)

  // What one call reads: the clock in ticks of 100 ns, the octets of the address, and a random number.
  datatype Reading = Reading(time: int, mac: Option<seq<nat>>, random: nat)

  datatype Outcome = Created(uuid: Uuid) | NoMacAddress | NoMethodError | ArgumentError

  // The node id is put together from the first six octets.
  function NodeId(mac: seq<nat>): nat
    requires |mac| >= 6
  {
    BigEndian(mac[..6])
  }

  predicate IsMac(mac: seq<nat>) {
    |mac| == 6 && Octets(mac)
  }

  // ---------------------------------------------------------------- one call

  function NextClock(s: State, time: int, node: nat, random: nat): nat {
    var clock := if s.lastClockSequence.Some? then s.lastClockSequence.value else random;
    if s.lastNodeId.Some? && s.lastNodeId.value != node then random
    else if s.lastTimestamp.Some? && time <= s.lastTimestamp.value then clock + 1
    else clock
  }

  // Time and clock sequence are cut to 60 and 14 bits; the version and the variant take the bits above.
  function Stamp(time: int, clock: nat, nodes: seq<nat>): Uuid {
    Uuid(time % 0x1_0000_0000, time / 0x1_0000_0000 % 0x1_0000, time / 0x1_0000_0000_0000 % 0x1000 + 0x1000,
         clock / 0x100 % 0x40 + 0x80, clock % 0x100, nodes)
  }

  function Issued(time: int, clock: nat, nodes: seq<nat>): Outcome {
    if IsMac(nodes) then Created(Stamp(time, clock, nodes)) else ArgumentError
  }

  lemma StampFits(time: int, clock: nat, nodes: seq<nat>)
    ensures Valid(Stamp(time, clock, nodes)) <==> IsMac(nodes)
  {
  }

  function Call(s: State, r: Reading): (State, Outcome) {
    if r.mac.None? then (s, NoMacAddress)
    else if |r.mac.value| < 6 then (s, NoMethodError)
    else
      var node := NodeId(r.mac.value);
      var clock := NextClock(s, r.time, node, r.random);
      (State(Some(r.time), Some(node), Some(clock)), Issued(r.time, clock, r.mac.value))
  }

  class Generator {
    var lastTimestamp: Option<int>
    var lastNodeId: Option<nat>
    var lastClockSequence: Option<nat>

    constructor ()
      ensures Now() == FRESH
    {
      lastTimestamp, lastNodeId, lastClockSequence := None, None, None;
    }

    function Now(): State
      reads this
    {
      State(lastTimestamp, lastNodeId, lastClockSequence)
    }

    method TimestampCreate(r: Reading) returns (outcome: Outcome)
      modifies this
      ensures (Now(), outcome) == Call(old(Now()), r)
      ensures outcome.Created? ==> Valid(outcome.uuid)
    {
      if r.mac.None? {
        return NoMacAddress;
      }
      var nodes := r.mac.value;
      if |nodes| < 6 {
        return NoMethodError;
      }
      var nodeId := 0;
      for i := 0 to 6
        invariant nodeId == BigEndian(nodes[..i]) * Pow256(6 - i)
        invariant Now() == old(Now())
      {
        ShiftIn(nodes, i, 6);
        nodeId := nodeId + nodes[i] * Pow256(5 - i);
      }
      assert nodeId == NodeId(nodes);
      hide BigEndian, Pow256, NodeId;
      var clockSequence := lastClockSequence;
      if clockSequence == None {
        clockSequence := Some(r.random);
      }
      if lastNodeId != None && lastNodeId != Some(nodeId) {
        clockSequence := Some(r.random);
      } else if lastTimestamp != None && r.time <= lastTimestamp.value {
        clockSequence := Some(clockSequence.value + 1);
      }
      assert clockSequence.value == NextClock(Now(), r.time, nodeId, r.random);
      lastTimestamp := Some(r.time);
      lastNodeId := Some(nodeId);
      lastClockSequence := clockSequence;

      var timeLow := r.time % 0x1_0000_0000;
      var timeMid := r.time / 0x1_0000_0000 % 0x1_0000;
      var timeHiAndVersion := r.time / 0x1_0000_0000_0000 % 0x1000;
      timeHiAndVersion := timeHiAndVersion + 0x1000;
      var clockSeqLow := clockSequence.value % 0x100;
      var clockSeqHi := clockSequence.value / 0x100 % 0x40;
      clockSeqHi := clockSeqHi + 0x80;
      var u := Uuid(timeLow, timeMid, timeHiAndVersion, clockSeqHi, clockSeqLow, nodes);
      assert u == Stamp(r.time, clockSequence.value, nodes);
      StampFits(r.time, clockSequence.value, nodes);
      outcome := if Valid(u) then Created(u) else ArgumentError;
      assert outcome == Issued(r.time, clockSequence.value, nodes);
    }
  }

  // ---------------------------------------------------------------- what a stamp says

  function Version(u: Uuid): nat {
    u.timeHiAndVersion / 0x1000
  }

  // As the program computes it from the three highest bits.
  function Variant(u: Uuid): nat {
    var raw := u.clockSeqHi / 0x20;
    (if raw / 4 == 0 then 0 else if raw / 2 == 2 then 0x100 else raw) / 0x40
  }

  function Timestamp(u: Uuid): nat {
    u.timeHiAndVersion % 0x1000 * 0x1_0000_0000_0000 + u.timeMid * 0x1_0000_0000 + u.timeLow
  }

  function ClockSequence(u: Uuid): int {
    (u.clockSeqHi - 0x80) * 0x100 + u.clockSeqLow
  }

  // The variant is reported as 4 exactly when the two highest bits are 1 and 0.
  lemma VariantIsRfc(u: Uuid)
    requires Valid(u)
    ensures Variant(u) == 4 <==> u.clockSeqHi / 0x40 == 2
  {
  }

  lemma ModOfMod(x: int, a: nat, m: nat)
    requires a > 0 && m > 0
    ensures a * m > 0 && x % (a * m) == (x / a % m) * a + x % a
  {
    var q, r := x / a, x % a;
    var s, t := q / m, q % m;
    IntTwoDigits(x, a, m, q, r, s, t);
    IntModUnique(x, a * m, s, a * t + r);
  }

  lemma IntTwoDigits(x: int, a: nat, m: nat, q: int, r: nat, s: int, t: nat)
    requires x == a * q + r && r < a && q == m * s + t && t < m
    ensures x == (a * m) * s + (a * t + r) && 0 <= a * t && a * t + r < a * m
  {
    assert a * (m * s + t) == (a * m) * s + a * t;
    assert a * m == a * t + a * (m - t);
    AtLeastOnce(a, m - t);
  }

  lemma IntModUnique(x: int, d: nat, q: int, r: int)
    requires x == d * q + r && 0 <= r < d
    ensures x % d == r
  {
    var q', r' := x / d, x % d;
    if q > q' {
      assert d * q == d * q' + d * (q - q');
      AtLeastOnce(d, q - q');
    } else if q < q' {
      assert d * q' == d * q + d * (q' - q);
      AtLeastOnce(d, q' - q);
    }
  }

  lemma StampSays(time: int, clock: nat, nodes: seq<nat>)
    requires IsMac(nodes)
    ensures var u := Stamp(time, clock, nodes);
      Valid(u) && Version(u) == 1 && Variant(u) == 4 && Timestamp(u) == time % TICKS && ClockSequence(u) == clock % CLOCKS
  {
    ModOfMod(time, 0x1_0000_0000, 0x1_0000);
    ModOfMod(time, 0x1_0000_0000_0000, 0x1000);
    ModOfMod(clock, 0x100, 0x40);
  }

  lemma SameStampIff(t: int, c: nat, t': int, c': nat, nodes: seq<nat>)
    requires IsMac(nodes)
    ensures Stamp(t, c, nodes) == Stamp(t', c', nodes) <==> t % TICKS == t' % TICKS && c % CLOCKS == c' % CLOCKS
  {
    StampSays(t, c, nodes);
    StampSays(t', c', nodes);
    var u, v := Stamp(t, c, nodes), Stamp(t', c', nodes);
    if t % TICKS == t' % TICKS && c % CLOCKS == c' % CLOCKS {
      SameParts(u, v);
    }
  }

  lemma SameParts(u: Uuid, v: Uuid)
    requires Valid(u) && Valid(v) && Version(u) == 1 == Version(v) && u.nodes == v.nodes
    requires Timestamp(u) == Timestamp(v) && ClockSequence(u) == ClockSequence(v)
    ensures u == v
  {
  }

  // ---------------------------------------------------------------- runs

  // The clock sequences of a run on one node: they only grow, by one whenever the time does not.
  function Clock(s: State, readings: seq<Reading>, node: nat, i: nat): nat
    requires i < |readings|
  {
    var before := if i == 0 then s else State(Some(readings[i - 1].time), Some(node), Some(Clock(s, readings, node, i - 1)));
    NextClock(before, readings[i].time, node, readings[i].random)
  }

  // The outcomes of a run of calls.
  function Run(s: State, readings: seq<Reading>): (outcomes: seq<Outcome>)
    ensures |outcomes| == |readings|
    decreases |readings|
  {
    if readings == [] then []
    else
      var n := |readings| - 1;
      Run(s, readings[..n]) + [Call(After(s, readings[..n]), readings[n]).1]
  }

  function After(s: State, readings: seq<Reading>): State
    decreases |readings|
  {
    if readings == [] then s else Call(After(s, readings[..|readings| - 1]), readings[|readings| - 1]).0
  }

  predicate OnOneNode(readings: seq<Reading>, mac: seq<nat>) {
    IsMac(mac) && forall i :: 0 <= i < |readings| ==> readings[i].mac == Some(mac)
  }

  // How often the clock did not advance in readings i+1 to j.
  function Bumps(readings: seq<Reading>, i: nat, j: nat): nat
    requires i <= j < |readings|
  {
    if i == j then 0 else Bumps(readings, i, j - 1) + if readings[j].time <= readings[j - 1].time then 1 else 0
  }

  lemma {:induction false} RunIsStamps(s: State, readings: seq<Reading>, mac: seq<nat>, i: nat)
    requires OnOneNode(readings, mac) && i < |readings|
    ensures Run(s, readings)[i] == Created(Stamp(readings[i].time, Clock(s, readings, NodeId(mac), i), mac))
    ensures i == |readings| - 1 ==>
      After(s, readings) == State(Some(readings[i].time), Some(NodeId(mac)), Some(Clock(s, readings, NodeId(mac), i)))
    decreases |readings|
  {
    hide NextClock, Stamp, NodeId;
    var n := |readings| - 1;
    var init := readings[..n];
    ClockOfPrefix(s, readings, NodeId(mac), n, i);
    if i < n {
      RunIsStamps(s, init, mac, i);
    } else if n > 0 {
      RunIsStamps(s, init, mac, n - 1);
      ClockOfPrefix(s, readings, NodeId(mac), n, n - 1);
    }
  }

  lemma {:induction false} ClockOfPrefix(s: State, readings: seq<Reading>, node: nat, n: nat, i: nat)
    requires i < |readings| && n <= |readings|
    ensures i < n ==> Clock(s, readings[..n], node, i) == Clock(s, readings, node, i)
  {
    if 0 < i < n {
      ClockOfPrefix(s, readings, node, n, i - 1);
    }
  }

  lemma {:induction false} ClockCountsBumps(s: State, readings: seq<Reading>, node: nat, i: nat, j: nat)
    requires i <= j < |readings|
    ensures Clock(s, readings, node, j) == Clock(s, readings, node, i) + Bumps(readings, i, j)
    decreases j
  {
    if i < j {
      ClockCountsBumps(s, readings, node, i, j - 1);
    }
  }

  // Two UUIDs of a run on one node are equal exactly when they carry the same time and the clock
  // sequence has gone around between them.
  lemma SameIff(s: State, readings: seq<Reading>, mac: seq<nat>, i: nat, j: nat)
    requires OnOneNode(readings, mac) && i <= j < |readings|
    ensures Run(s, readings)[i] == Run(s, readings)[j]
      <==> readings[i].time % TICKS == readings[j].time % TICKS && Bumps(readings, i, j) % CLOCKS == 0
  {
    hide Run, Stamp, Clock;
    RunIsStamps(s, readings, mac, i);
    RunIsStamps(s, readings, mac, j);
    ClockCountsBumps(s, readings, NodeId(mac), i, j);
    var c := Clock(s, readings, NodeId(mac), i);
    SameStampIff(readings[i].time, c, readings[j].time, c + Bumps(readings, i, j), mac);
  }

  lemma {:induction false} RepeatedTimeBumps(readings: seq<Reading>, i: nat, j: nat)
    requires i < j < |readings|
    ensures Bumps(readings, i, j) == 0 ==> readings[i].time < readings[j].time
    decreases j
  {
    if i < j - 1 {
      RepeatedTimeBumps(readings, i, j - 1);
    }
  }

  lemma {:induction false} BumpsWithin(readings: seq<Reading>, i: nat, j: nat)
    requires i <= j < |readings|
    ensures Bumps(readings, i, j) <= Bumps(readings, 0, |readings| - 1)
    decreases i, |readings| - j
  {
    if j < |readings| - 1 {
      BumpsWithin(readings, i, j + 1);
    } else if i > 0 {
      BumpsFrom(readings, i, j);
      BumpsWithin(readings, i - 1, j);
    }
  }

  lemma {:induction false} BumpsFrom(readings: seq<Reading>, i: nat, j: nat)
    requires 0 < i <= j < |readings|
    ensures Bumps(readings, i, j) <= Bumps(readings, i - 1, j)
    decreases j
  {
    if i < j {
      BumpsFrom(readings, i, j - 1);
    }
  }

  // With readings below 2^60 ticks, in any order, and fewer than 2^14 bumps, nothing repeats.
  lemma RunIsUnique(s: State, readings: seq<Reading>, mac: seq<nat>, i: nat, j: nat)
    requires OnOneNode(readings, mac) && i < j < |readings|
    requires forall k :: 0 <= k < |readings| ==> 0 <= readings[k].time < TICKS
    requires Bumps(readings, 0, |readings| - 1) < CLOCKS
    ensures Run(s, readings)[i].Created? && Run(s, readings)[j].Created?
    ensures Run(s, readings)[i].uuid != Run(s, readings)[j].uuid
  {
    hide Run, Stamp, Clock;
    RunIsStamps(s, readings, mac, i);
    RunIsStamps(s, readings, mac, j);
    SameIff(s, readings, mac, i, j);
    BumpsWithin(readings, i, j);
    RepeatedTimeBumps(readings, i, j);
  }

  // The bound is sharp: a clock that stands still repeats itself after 2^14 more calls.
  lemma StandingClockRepeats(s: State, readings: seq<Reading>, mac: seq<nat>, i: nat)
    requires OnOneNode(readings, mac) && i + CLOCKS < |readings|
    requires forall k :: 0 <= k < |readings| ==> readings[k].time == readings[0].time
    ensures Run(s, readings)[i] == Run(s, readings)[i + CLOCKS]
  {
    hide Run;
    BumpsOfStandingClock(readings, i, i + CLOCKS);
    SameIff(s, readings, mac, i, i + CLOCKS);
  }

  lemma {:induction false} BumpsOfStandingClock(readings: seq<Reading>, i: nat, j: nat)
    requires i <= j < |readings| && forall k :: 0 <= k < |readings| ==> readings[k].time == readings[0].time
    ensures Bumps(readings, i, j) == j - i
    decreases j
  {
    if i < j {
      BumpsOfStandingClock(readings, i, j - 1);
    }
  }
}
