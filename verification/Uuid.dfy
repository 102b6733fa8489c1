// UUIDs: their integer, octet and field forms.
module Uuid {
  datatype Uuid = Uuid(timeLow: nat, timeMid: nat, timeHiAndVersion: nat, clockSeqHi: nat, clockSeqLow: nat, nodes: seq<nat>)

  predicate Octets(s: seq<nat>) {
    forall i :: 0 <= i < |s| ==> s[i] < 256
  }

  // What the constructor accepts.
  predicate Valid(u: Uuid) {
    && u.timeLow < 0x1_0000_0000 && u.timeMid < 0x1_0000 && u.timeHiAndVersion < 0x1_0000
    && u.clockSeqHi < 256 && u.clockSeqLow < 256 && |u.nodes| == 6 && Octets(u.nodes)
  }

  // ---------------------------------------------------------------- octet strings as integers

  function Pow256(k: nat): (r: nat)
    ensures r > 0
  {
    if k == 0 then 1 else 256 * Pow256(k - 1)
  }

  // Shifting right by k octets.
  function Right(n: nat, k: nat): nat {
    if k == 0 then n else Right(n / 256, k - 1)
  }

  function BigEndian(s: seq<nat>): nat {
    if s == [] then 0 else BigEndian(s[..|s| - 1]) * 256 + s[|s| - 1]
  }

  function OctetsOf(n: nat, size: nat): (s: seq<nat>)
    ensures |s| == size && Octets(s)
  {
    if size == 0 then [] else OctetsOf(n / 256, size - 1) + [n % 256]
  }

  lemma {:induction false} OctetsReadBack(s: seq<nat>)
    requires Octets(s)
    ensures OctetsOf(BigEndian(s), |s|) == s
    decreases |s|
  {
    if s != [] {
      var n := |s| - 1;
      OctetsReadBack(s[..n]);
      assert BigEndian(s) / 256 == BigEndian(s[..n]) && BigEndian(s) % 256 == s[n];
      assert s == s[..n] + [s[n]];
    }
  }

  lemma {:induction false} OctetsSplitOff(n: nat, size: nat)
    ensures n == BigEndian(OctetsOf(n, size)) + Pow256(size) * Right(n, size)
  {
    if size > 0 {
      OctetsSplitOff(n / 256, size - 1);
      var s := OctetsOf(n, size);
      assert s[..size - 1] == OctetsOf(n / 256, size - 1);
      Shifted(n / 256, BigEndian(s[..size - 1]), Pow256(size - 1), Right(n / 256, size - 1));
      assert n == 256 * (n / 256) + n % 256;
    }
  }

  lemma Shifted(n: nat, b: nat, p: nat, r: nat)
    requires n == b + p * r
    ensures 256 * n == b * 256 + 256 * p * r
  {
  }

  lemma {:induction false} BigEndianIsBelow(s: seq<nat>)
    requires Octets(s)
    ensures BigEndian(s) < Pow256(|s|)
    decreases |s|
  {
    if s != [] {
      BigEndianIsBelow(s[..|s| - 1]);
    }
  }

  lemma {:induction false} BigEndianOfBoth(s: seq<nat>, t: seq<nat>)
    ensures BigEndian(s + t) == BigEndian(s) * Pow256(|t|) + BigEndian(t)
    decreases |t|
  {
    if t == [] {
      assert s + t == s;
    } else {
      var n := |t| - 1;
      assert (s + t)[..|s + t| - 1] == s + t[..n];
      BigEndianOfBoth(s, t[..n]);
      var a, p, b := BigEndian(s), Pow256(n), BigEndian(t[..n]);
      assert (a * p + b) * 256 == a * (256 * p) + b * 256;
    }
  }

  lemma {:induction false} OctetAt(n: nat, size: nat, i: nat)
    requires i < size
    ensures OctetsOf(n, size)[i] == Right(n, size - 1 - i) % 256
  {
    if i < size - 1 {
      OctetAt(n / 256, size - 1, i);
    }
  }

  method ConvertByteStringToInt(bytes: seq<nat>) returns (integer: nat)
    ensures integer == BigEndian(bytes)
  {
    integer := 0;
    for i := 0 to |bytes|
      invariant integer == BigEndian(bytes[..i]) * Pow256(|bytes| - i)
    {
      ShiftIn(bytes, i, |bytes|);
      integer := integer + bytes[i] * Pow256(|bytes| - 1 - i);
    }
    assert bytes[..|bytes|] == bytes;
  }

  lemma ShiftIn(s: seq<nat>, i: nat, size: nat)
    requires i < |s| && i < size
    ensures BigEndian(s[..i]) * Pow256(size - i) + s[i] * Pow256(size - 1 - i) == BigEndian(s[..i + 1]) * Pow256(size - 1 - i)
  {
    assert s[..i + 1][..i] == s[..i];
    Distributes(BigEndian(s[..i]), s[i], Pow256(size - 1 - i));
  }

  lemma Distributes(a: nat, b: nat, p: nat)
    ensures a * (256 * p) + b * p == (a * 256 + b) * p
  {
  }

  method ConvertIntToByteString(integer: nat, size: nat) returns (bytes: seq<nat>)
    ensures bytes == OctetsOf(integer, size)
  {
    bytes := [];
    for i := 0 to size
      invariant bytes == OctetsOf(integer, size)[..i]
    {
      OctetAt(integer, size, i);
      bytes := bytes + [Right(integer, size - 1 - i) % 256];
    }
  }

  // ---------------------------------------------------------------- the integer form

  // The sixteen octets of a UUID, most significant first.
  function Layout(u: Uuid): seq<nat> {
    OctetsOf(u.timeLow, 4) + OctetsOf(u.timeMid, 2) + OctetsOf(u.timeHiAndVersion, 2) + [u.clockSeqHi, u.clockSeqLow] + u.nodes
  }

  lemma LayoutIsOctets(u: Uuid)
    requires Valid(u)
    ensures |Layout(u)| == 16 && Octets(Layout(u))
  {
    hide OctetsOf;
  }

  function FieldSum(u: Uuid): nat {
    u.timeLow * 0x1_0000_0000_0000_0000_0000_0000 + u.timeMid * 0x1_0000_0000_0000_0000_0000
    + u.timeHiAndVersion * 0x1_0000_0000_0000_0000 + u.clockSeqHi * 0x100_0000_0000_0000 + u.clockSeqLow * 0x1_0000_0000_0000
  }

  lemma PowersOf256()
    ensures Pow256(2) == 0x1_0000 && Pow256(4) == 0x1_0000_0000 && Pow256(6) == 0x1_0000_0000_0000
  {
    assert Pow256(1) == 256 && Pow256(3) == 0x100_0000 && Pow256(5) == 0x100_0000_0000;
  }

  lemma OctetsOfSmall(n: nat, size: nat)
    requires n < Pow256(size)
    ensures BigEndian(OctetsOf(n, size)) == n
  {
    OctetsSplitOff(n, size);
    NothingAbove(BigEndian(OctetsOf(n, size)), Pow256(size), Right(n, size));
  }

  lemma NothingAbove(b: nat, p: nat, r: nat)
    requires b + p * r < p
    ensures p * r == 0
  {
    if r > 0 {
      AtLeastOnce(p, r);
    }
  }

  lemma LayoutIsFieldSum(u: Uuid)
    requires Valid(u)
    ensures BigEndian(Layout(u)) == FieldSum(u) + BigEndian(u.nodes)
  {
    PowersOf256();
    OctetsOfSmall(u.timeLow, 4);
    OctetsOfSmall(u.timeMid, 2);
    OctetsOfSmall(u.timeHiAndVersion, 2);
    var clock := [u.clockSeqHi, u.clockSeqLow];
    assert clock[..1] == [u.clockSeqHi] && [u.clockSeqHi][..0] == [];
    assert BigEndian([u.clockSeqHi]) == u.clockSeqHi;
    assert BigEndian(clock) == u.clockSeqHi * 256 + u.clockSeqLow;
    hide BigEndian, OctetsOf, Pow256;
    var a, b, c := OctetsOf(u.timeLow, 4), OctetsOf(u.timeMid, 2), OctetsOf(u.timeHiAndVersion, 2);
    BigEndianOfBoth(a, b);
    BigEndianOfBoth(a + b, c);
    BigEndianOfBoth(a + b + c, clock);
    BigEndianOfBoth(a + b + c + clock, u.nodes);
  }

  // The integer of a UUID is the big-endian value of its octets.
  method ToI(u: Uuid) returns (integer: nat)
    requires Valid(u)
    ensures integer == BigEndian(Layout(u))
  {
    hide FieldSum, Layout;
    integer := FieldSum(u);
    ghost var fields := integer;
    for i := 0 to 6
      invariant integer == fields + BigEndian(u.nodes[..i]) * Pow256(6 - i)
    {
      ShiftIn(u.nodes, i, 6);
      integer := integer + u.nodes[i] * Pow256(5 - i);
    }
    assert u.nodes[..6] == u.nodes;
    LayoutIsFieldSum(u);
  }

  method Raw(u: Uuid) returns (raw: seq<nat>)
    requires Valid(u)
    ensures raw == Layout(u)
  {
    var integer := ToI(u);
    raw := ConvertIntToByteString(integer, 16);
    LayoutIsOctets(u);
    OctetsReadBack(Layout(u));
  }

  // One field of width m above the bits below a.
  lemma SplitField(x: nat, a: nat, m: nat)
    requires a > 0 && m > 0
    ensures a * m > 0 && x % (a * m) == (x / a % m) * a + x % a
  {
    var q, r := x / a, x % a;
    var s, t := q / m, q % m;
    TwoDigits(x, a, m, q, r, s, t);
    ModUnique(x, a * m, s, a * t + r);
  }

  lemma TwoDigits(x: nat, a: nat, m: nat, q: nat, r: nat, s: nat, t: nat)
    requires x == a * q + r && r < a && q == m * s + t && t < m
    ensures x == (a * m) * s + (a * t + r) && 0 <= a * t && a * t + r < a * m
  {
    assert a * (m * s + t) == (a * m) * s + a * t;
    assert a * m == a * t + a * (m - t);
    assert a * (m - t) >= a by {
      AtLeastOnce(a, m - t);
    }
  }

  lemma AtLeastOnce(d: nat, k: nat)
    requires k >= 1
    ensures d * k >= d
  {
  }

  lemma ModUnique(x: nat, d: nat, q: nat, r: nat)
    requires x == d * q + r && r < d
    ensures x % d == r
  {
    DigitsUnique(d, q, r, x / d, x % d);
  }

  lemma DigitsUnique(d: nat, q: nat, r: nat, q': nat, r': nat)
    requires d * q + r == d * q' + r' && r < d && r' < d
    ensures r == r'
  {
    if q > q' {
      assert d * q == d * q' + d * (q - q');
      AtLeastOnce(d, q - q');
    } else if q < q' {
      assert d * q' == d * q + d * (q' - q);
      AtLeastOnce(d, q' - q);
    }
  }

  // The UUID with the low 128 bits of an integer.
  function FromInt(integer: nat): (u: Uuid)
    ensures Valid(u)
  {
    Uuid(integer / 0x1_0000_0000_0000_0000_0000_0000 % 0x1_0000_0000, integer / 0x1_0000_0000_0000_0000_0000 % 0x1_0000,
         integer / 0x1_0000_0000_0000_0000 % 0x1_0000, integer / 0x100_0000_0000_0000 % 0x100,
         integer / 0x1_0000_0000_0000 % 0x100, OctetsOf(integer, 6))
  }

  lemma FieldsOfInt(x: nat)
    ensures FieldSum(FromInt(x)) + x % 0x1_0000_0000_0000 == x % 0x1_0000_0000_0000_0000_0000_0000_0000_0000
  {
    SplitField(x, 0x1_0000_0000_0000, 0x100);
    SplitField(x, 0x100_0000_0000_0000, 0x100);
    SplitField(x, 0x1_0000_0000_0000_0000, 0x1_0000);
    SplitField(x, 0x1_0000_0000_0000_0000_0000, 0x1_0000);
    SplitField(x, 0x1_0000_0000_0000_0000_0000_0000, 0x1_0000_0000);
  }

  lemma FromIntIs(x: nat)
    ensures BigEndian(Layout(FromInt(x))) == x % 0x1_0000_0000_0000_0000_0000_0000_0000_0000
  {
    hide FieldSum, BigEndian, Layout, Pow256;
    var u := FromInt(x);
    LayoutIsFieldSum(u);
    FieldsOfInt(x);
    PowersOf256();
    OctetsSplitOff(x, 6);
    BigEndianIsBelow(OctetsOf(x, 6));
    ModUnique(x, 0x1_0000_0000_0000, Right(x, 6), BigEndian(OctetsOf(x, 6)));
  }

  // Octet strings of any length are accepted; only the last sixteen octets count.
  method ParseRaw(raw: seq<nat>) returns (u: Uuid)
    requires Octets(raw)
    ensures Valid(u) && BigEndian(Layout(u)) == BigEndian(raw) % 0x1_0000_0000_0000_0000_0000_0000_0000_0000
    ensures u == FromInt(BigEndian(raw))
  {
    var integer := ConvertByteStringToInt(raw);
    var nodes := [];
    for i := 0 to 6
      invariant nodes == OctetsOf(integer, 6)[..i]
    {
      OctetAt(integer, 6, i);
      nodes := nodes + [Right(integer, 5 - i) % 256];
    }
    u := FromInt(integer).(nodes := nodes);
    assert nodes == OctetsOf(integer, 6);
    FromIntIs(integer);
  }

  lemma {:induction false} BigEndianInjective(s: seq<nat>, t: seq<nat>)
    requires Octets(s) && Octets(t) && |s| == |t| && BigEndian(s) == BigEndian(t)
    ensures s == t
  {
    OctetsReadBack(s);
    OctetsReadBack(t);
  }

  lemma LayoutInjective(u: Uuid, v: Uuid)
    requires Valid(u) && Valid(v) && Layout(u) == Layout(v)
    ensures u == v
  {
    PowersOf256();
    OctetsOfSmall(u.timeLow, 4);
    OctetsOfSmall(v.timeLow, 4);
    OctetsOfSmall(u.timeMid, 2);
    OctetsOfSmall(v.timeMid, 2);
    OctetsOfSmall(u.timeHiAndVersion, 2);
    OctetsOfSmall(v.timeHiAndVersion, 2);
    hide OctetsOf, BigEndian, Pow256, Layout;
    LayoutParts(u);
    LayoutParts(v);
  }

  lemma LayoutParts(u: Uuid)
    ensures |Layout(u)| == 10 + |u.nodes|
    ensures Layout(u)[..4] == OctetsOf(u.timeLow, 4) && Layout(u)[4..6] == OctetsOf(u.timeMid, 2)
    ensures Layout(u)[6..8] == OctetsOf(u.timeHiAndVersion, 2) && Layout(u)[8] == u.clockSeqHi && Layout(u)[9] == u.clockSeqLow
    ensures Layout(u)[10..] == u.nodes
  {
    hide OctetsOf;
  }

  // Parsing the raw form gives the UUID back, and the raw form of a parsed string is the string.
  lemma RawRoundTrips(u: Uuid)
    requires Valid(u)
    ensures FromInt(BigEndian(Layout(u))) == u
  {
    hide Layout, FromInt, Pow256;
    var x := BigEndian(Layout(u));
    LayoutIsOctets(u);
    BigEndianIsBelow(Layout(u));
    Pow256Of16();
    FromIntIs(x);
    var v := FromInt(x);
    LayoutIsOctets(v);
    BigEndianInjective(Layout(u), Layout(v));
    LayoutInjective(u, v);
  }

  lemma Pow256Of16()
    ensures Pow256(16) == 0x1_0000_0000_0000_0000_0000_0000_0000_0000
  {
    assert Pow256(4) == 0x1_0000_0000;
    assert Pow256(8) == 0x1_0000_0000_0000_0000;
    assert Pow256(12) == 0x1_0000_0000_0000_0000_0000_0000;
  }

  lemma RawOfParsed(raw: seq<nat>)
    requires Octets(raw) && |raw| == 16
    ensures Layout(FromInt(BigEndian(raw))) == raw
  {
    hide Layout, FromInt, Pow256;
    BigEndianIsBelow(raw);
    Pow256Of16();
    FromIntIs(BigEndian(raw));
    LayoutIsOctets(FromInt(BigEndian(raw)));
    BigEndianInjective(Layout(FromInt(BigEndian(raw))), raw);
  }

  lemma IntegersTellApart(u: Uuid, v: Uuid)
    requires Valid(u) && Valid(v) && BigEndian(Layout(u)) == BigEndian(Layout(v))
    ensures u == v
  {
    RawRoundTrips(u);
    RawRoundTrips(v);
  }

  // ---------------------------------------------------------------- order

  function Sign(d: int): int {
    if d < 0 then -1 else if d > 0 then 1 else 0
  }

  lemma {:induction false} FirstDifferenceDecides(s: seq<nat>, t: seq<nat>, i: nat)
    requires Octets(s) && Octets(t) && |s| == |t| && i < |s| && s[..i] == t[..i] && s[i] < t[i]
    ensures BigEndian(s) < BigEndian(t)
    decreases |s|
  {
    var n := |s| - 1;
    if i < n {
      assert s[..n][..i] == s[..i] && t[..n][..i] == t[..i];
      FirstDifferenceDecides(s[..n], t[..n], i);
    }
  }

  // The spaceship operator orders UUIDs as their integers are ordered.
  method Compare(u: Uuid, v: Uuid) returns (check: int)
    requires Valid(u) && Valid(v)
    ensures check == Sign(BigEndian(Layout(u)) - BigEndian(Layout(v)))
  {
    hide BigEndian, Layout, Pow256;
    LayoutIsFieldSum(u);
    LayoutIsFieldSum(v);
    BigEndianIsBelow(u.nodes);
    BigEndianIsBelow(v.nodes);
    PowersOf256();
    check := Sign(u.timeLow - v.timeLow);
    if check != 0 {
      return;
    }
    check := Sign(u.timeMid - v.timeMid);
    if check != 0 {
      return;
    }
    check := Sign(u.timeHiAndVersion - v.timeHiAndVersion);
    if check != 0 {
      return;
    }
    check := Sign(u.clockSeqHi - v.clockSeqHi);
    if check != 0 {
      return;
    }
    check := Sign(u.clockSeqLow - v.clockSeqLow);
    if check != 0 {
      return;
    }
    for i := 0 to 6
      invariant u.nodes[..i] == v.nodes[..i]
    {
      if u.nodes[i] < v.nodes[i] {
        FirstDifferenceDecides(u.nodes, v.nodes, i);
        return -1;
      }
      if u.nodes[i] > v.nodes[i] {
        FirstDifferenceDecides(v.nodes, u.nodes, i);
        return 1;
      }
    }
    assert u.nodes == v.nodes;
    return 0;
  }
}
