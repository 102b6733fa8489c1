// Interpolating between two strings with numbers in them: the template and the holes left in it.
module InterpolateString {
  // A piece of the template: a constant, or a hole for a number.
  datatype Part = Text(text: string) | Hole

  // What fills a hole: the number of b as written, or the interpolation from a number of a.
  datatype Filler = Token(text: string) | Number(from: string, to: string)

  datatype Slot = Slot(i: nat, x: Filler)

  // A match of the number pattern in b.
  datatype Match = Match(index: nat, text: string)

  // ---------------------------------------------------------------- meaning

  function Count(s: seq<Part>): nat {
    if s == [] then 0 else Count(s[..|s| - 1]) + if s[|s| - 1].Hole? then 1 else 0
  }

  // The text with the holes filled in order.
  function Fill(s: seq<Part>, vals: seq<string>): string
    requires |vals| == Count(s)
  {
    if s == [] then ""
    else
      var n := |s| - 1;
      if s[n].Hole? then Fill(s[..n], vals[..|vals| - 1]) + vals[|vals| - 1] else Fill(s[..n], vals) + s[n].text
  }

  // The matches are in order and do not overlap, as those of one regular expression are.
  ghost predicate MatchesFrom(b: string, at: nat, matches: seq<Match>)
    decreases |matches|
  {
    if matches == [] then at <= |b|
    else
      var m := matches[0];
      && m.text != "" && at <= m.index <= m.index + |m.text| <= |b| && b[m.index..m.index + |m.text|] == m.text
      && MatchesFrom(b, m.index + |m.text|, matches[1..])
  }

  // b from position at on, with its numbers replaced.
  ghost function Replace(b: string, at: nat, matches: seq<Match>, vals: seq<string>): string
    requires MatchesFrom(b, at, matches) && |vals| == |matches|
    decreases |matches|
  {
    if matches == [] then b[at..]
    else
      var m := matches[0];
      b[at..m.index] + vals[0] + Replace(b, m.index + |m.text|, matches[1..], vals[1..])
  }

  function Texts(matches: seq<Match>): (s: seq<string>)
    ensures |s| == |matches|
  {
    seq(|matches|, i requires 0 <= i < |matches| => matches[i].text)
  }

  lemma {:induction false} ReplaceByItself(b: string, at: nat, matches: seq<Match>)
    requires MatchesFrom(b, at, matches)
    ensures Replace(b, at, matches, Texts(matches)) == b[at..]
    decreases |matches|
  {
    if matches != [] {
      var m := matches[0];
      assert Texts(matches)[1..] == Texts(matches[1..]);
      ReplaceByItself(b, m.index + |m.text|, matches[1..]);
      assert b[at..] == b[at..m.index] + m.text + b[m.index + |m.text|..];
    }
  }

  // ---------------------------------------------------------------- templates

  // No two holes are adjacent.
  predicate Separated(s: seq<Part>) {
    forall p :: 0 < p < |s| && s[p].Hole? ==> s[p - 1].Text?
  }

  // q lists exactly the holes of s, in order.
  predicate Template(s: seq<Part>, q: seq<Slot>) {
    && Separated(s) && Count(s) == |q|
    && (forall k :: 0 <= k < |q| ==> q[k].i < |s| && s[q[k].i].Hole? && Count(s[..q[k].i]) == k)
  }

  lemma {:induction false} CountOfBoth(a: seq<Part>, b: seq<Part>)
    ensures Count(a + b) == Count(a) + Count(b)
    decreases |b|
  {
    if b == [] {
      assert a + b == a;
    } else {
      assert (a + b)[..|a + b| - 1] == a + b[..|b| - 1];
      CountOfBoth(a, b[..|b| - 1]);
    }
  }

  lemma FillOfLast(s: seq<Part>, last: Part, vals: seq<string>)
    requires |vals| == Count(s) + if last.Hole? then 1 else 0
    ensures Count(s + [last]) == |vals|
    ensures last.Hole? ==> Fill(s + [last], vals) == Fill(s, vals[..|vals| - 1]) + vals[|vals| - 1]
    ensures last.Text? ==> Fill(s + [last], vals) == Fill(s, vals) + last.text
  {
    assert (s + [last])[..|s|] == s;
  }

  lemma {:induction false} FillOfBoth(a: seq<Part>, b: seq<Part>, vals: seq<string>)
    requires |vals| == Count(a) + Count(b)
    ensures Count(a + b) == |vals| && Fill(a + b, vals) == Fill(a, vals[..Count(a)]) + Fill(b, vals[Count(a)..])
    decreases |b|
  {
    if b == [] {
      FillOfNone();
      assert a + b == a;
      assert vals[..Count(a)] == vals;
    } else {
      var init, last := b[..|b| - 1], b[|b| - 1];
      assert b == init + [last] && a + b == (a + init) + [last];
      hide Fill, Count;
      CountOfBoth(init, [last]);
      CountOfText([last]);
      var v := if last.Hole? then vals[..|vals| - 1] else vals;
      FillOfBoth(a, init, v);
      FillOfBothLast(a, init, last, vals, v);
    }
  }

  lemma FillOfNone()
    ensures Count([]) == 0 && Fill([], []) == ""
  {
  }

  lemma FillOfBothLast(a: seq<Part>, init: seq<Part>, last: Part, vals: seq<string>, v: seq<string>)
    requires |v| == Count(a) + Count(init) && Count(a + init) == |v|
    requires last.Hole? ==> |vals| > 0
    requires vals == if last.Hole? then v + [vals[|vals| - 1]] else v
    requires Fill(a + init, v) == Fill(a, v[..Count(a)]) + Fill(init, v[Count(a)..])
    ensures Count(init + [last]) == |vals| - Count(a) && Count((a + init) + [last]) == |vals|
    ensures Fill((a + init) + [last], vals) == Fill(a, vals[..Count(a)]) + Fill(init + [last], vals[Count(a)..])
  {
    hide Fill, Count;
    var n := Count(a);
    var front, back := vals[..n], vals[n..];
    FillOfLast(a + init, last, vals);
    FillOfLast(init, last, back);
    assert v[..n] == front;
    if last.Hole? {
      assert vals[..|vals| - 1] == v && v[n..] == back[..|back| - 1];
      Assoc(Fill(a, front), Fill(init, v[n..]), vals[|vals| - 1]);
    } else {
      Assoc(Fill(a, front), Fill(init, v[n..]), last.text);
    }
  }

  lemma SlotAt(s: seq<Part>, q: seq<Slot>, k: nat)
    requires Template(s, q) && k < |q|
    ensures q[k].i < |s| && s[q[k].i] == Hole && Count(s[..q[k].i]) == k && Count(s) == |q|
  {
  }

  // The holes are listed in increasing order.
  lemma HolesIncrease(s: seq<Part>, q: seq<Slot>, j: nat, k: nat)
    requires Template(s, q) && j < k < |q|
    ensures q[j].i < q[k].i
  {
    hide Count, Template;
    SlotAt(s, q, j);
    SlotAt(s, q, k);
    var a, b := q[j].i, q[k].i;
    if b <= a {
      assert s[..a] == s[..b] + s[b..a];
      CountOfBoth(s[..b], s[b..a]);
    }
  }

  function Without<T>(s: seq<T>, i: nat): seq<T>
    requires i < |s|
  {
    s[..i] + s[i + 1..]
  }

  function With<T>(s: seq<T>, i: nat, x: T): seq<T>
    requires i <= |s|
  {
    s[..i] + [x] + s[i..]
  }

  // Replacing a stretch with one hole by one without, whose text is that of the stretch with x in the hole.
  lemma FillMiddle(a: seq<Part>, m: seq<Part>, m': seq<Part>, c: seq<Part>, x: string, vals: seq<string>)
    requires Count(m) == 1 && Count(m') == 0 && Fill(m, [x]) == Fill(m', [])
    requires |vals| == Count(a) + Count(c)
    ensures Count(a + m + c) == |vals| + 1 && Count(a + m' + c) == |vals|
    ensures Fill(a + m' + c, vals) == Fill(a + m + c, With(vals, Count(a), x))
  {
    hide Fill, Count;
    var i := Count(a);
    var all := With(vals, i, x);
    CountOfBoth(a, m);
    CountOfBoth(a, m');
    FillOfBoth(a + m, c, all);
    FillOfBoth(a, m, all[..i + 1]);
    FillOfBoth(a + m', c, vals);
    FillOfBoth(a, m', vals[..i]);
    assert all[..i + 1][..i] == vals[..i] && all[..i + 1][i..] == [x] && all[i + 1..] == vals[i..];
    assert vals[..i][..i] == vals[..i] && vals[..i][i..] == [];
  }

  lemma CountOfText(m: seq<Part>)
    requires |m| == 1
    ensures Count(m) == if m[0].Hole? then 1 else 0
  {
    assert m[..0] == [];
  }

  lemma CountAround(m: seq<Part>, p: nat)
    requires p < |m| && m[p].Hole?
    ensures Count(m) == Count(m[..p]) + 1 + Count(m[p + 1..])
  {
    hide Count;
    assert m == m[..p] + [m[p]] + m[p + 1..];
    CountOfBoth(m[..p] + [m[p]], m[p + 1..]);
    CountOfBoth(m[..p], [m[p]]);
    CountOfText([m[p]]);
  }

  // The stretch m of s holds one hole, the i-th.
  ghost predicate Holds(s: seq<Part>, q: seq<Slot>, i: nat, a: seq<Part>, m: seq<Part>, c: seq<Part>) {
    Template(s, q) && i < |q| && s == a + m + c && |a| <= q[i].i < |a| + |m| && Count(m) == 1
  }

  lemma CountBefore(s: seq<Part>, q: seq<Slot>, i: nat, a: seq<Part>, m: seq<Part>, c: seq<Part>)
    requires Holds(s, q, i, a, m, c)
    ensures Count(a) == i
  {
    hide Count, Template;
    SlotAt(s, q, i);
    var p := q[i].i - |a|;
    assert m[p] == Hole;
    assert s[..q[i].i] == a + m[..p];
    CountOfBoth(a, m[..p]);
    CountAround(m, p);
  }

  lemma HoleBefore(s: seq<Part>, q: seq<Slot>, i: nat, k: nat, a: seq<Part>, m: seq<Part>, c: seq<Part>)
    requires Holds(s, q, i, a, m, c) && k < i
    ensures q[k].i < |a|
  {
    hide Count, Template;
    CountBefore(s, q, i, a, m, c);
    HolesIncrease(s, q, k, i);
    SlotAt(s, q, k);
    if |a| <= q[k].i {
      var p := q[k].i - |a|;
      assert s[..q[k].i] == a + m[..p];
      CountOfBoth(a, m[..p]);
    }
  }

  lemma HoleAfter(s: seq<Part>, q: seq<Slot>, i: nat, k: nat, a: seq<Part>, m: seq<Part>, c: seq<Part>)
    requires Holds(s, q, i, a, m, c) && i < k < |q|
    ensures |a| + |m| <= q[k].i
  {
    hide Count, Template;
    CountBefore(s, q, i, a, m, c);
    HolesIncrease(s, q, i, k);
    SlotAt(s, q, k);
    if q[k].i < |a| + |m| {
      var p := q[k].i - |a|;
      assert m[p] == Hole;
      assert s[..q[k].i] == a + m[..p];
      CountOfBoth(a, m[..p]);
      CountAround(m, p);
    }
  }

  lemma SeparatedMiddle(a: seq<Part>, m: seq<Part>, t: Part, c: seq<Part>)
    requires Separated(a + m + c) && t.Text?
    ensures Separated(a + [t] + c)
  {
    var s, s' := a + m + c, a + [t] + c;
    forall p | 0 < p < |s'| && s'[p].Hole? ensures s'[p - 1].Text? {
      if p < |a| {
        assert s[p].Hole? && s[p - 1] == s'[p - 1];
      } else if p > |a| + 1 {
        var r := p - 1 + |m|;
        assert s[r] == s'[p] && s[r - 1] == s'[p - 1];
      }
    }
  }

  lemma SlotKept(s: seq<Part>, q: seq<Slot>, i: nat, a: seq<Part>, m: seq<Part>, t: Part, c: seq<Part>, k: nat)
    requires Holds(s, q, i, a, m, c) && t.Text? && k < |q| - 1
    ensures var s', p := a + [t] + c, if k < i then q[k].i else q[k + 1].i - |m| + 1;
      0 <= p < |s'| && s'[p].Hole? && Count(s'[..p]) == k
  {
    hide Count, Template;
    var s' := a + [t] + c;
    if k < i {
      SlotAt(s, q, k);
      HoleBefore(s, q, i, k, a, m, c);
      assert s'[..q[k].i] == s[..q[k].i];
    } else {
      SlotAt(s, q, k + 1);
      HoleAfter(s, q, i, k + 1, a, m, c);
      var r := q[k + 1].i - |a| - |m|;
      assert s[..q[k + 1].i] == a + m + c[..r] && s'[..|a| + 1 + r] == a + [t] + c[..r];
      CountOfBoth(a + m, c[..r]);
      CountOfBoth(a, m);
      CountOfBoth(a + [t], c[..r]);
      CountOfBoth(a, [t]);
      CountOfText([t]);
    }
  }

  // The slots once the stretch with hole i has become one constant.
  predicate Moved(q: seq<Slot>, i: nat, d: nat, q': seq<Slot>)
    requires i < |q|
  {
    && |q'| == |q| - 1
    && (forall k :: 0 <= k < |q'| ==> q'[k].x == Without(q, i)[k].x)
    && (forall k :: 0 <= k < |q'| ==> q'[k].i == Without(q, i)[k].i - if k < i then 0 else d)
  }

  lemma TemplateMiddle(s: seq<Part>, q: seq<Slot>, i: nat, a: seq<Part>, m: seq<Part>, t: Part, c: seq<Part>, q': seq<Slot>)
    requires Holds(s, q, i, a, m, c) && t.Text? && Moved(q, i, |m| - 1, q')
    ensures Template(a + [t] + c, q')
  {
    hide Count;
    var s' := a + [t] + c;
    SeparatedMiddle(a, m, t, c);
    CountOfBoth(a, m);
    CountOfBoth(a + m, c);
    CountOfBoth(a, [t]);
    CountOfBoth(a + [t], c);
    CountOfText([t]);
    forall k | 0 <= k < |q'| ensures q'[k].i < |s'| && s'[q'[k].i].Hole? && Count(s'[..q'[k].i]) == k {
      SlotKept(s, q, i, a, m, t, c, k);
    }
  }

  lemma Merge(s: seq<Part>, q: seq<Slot>, i: nat, a: seq<Part>, m: seq<Part>, t: Part, c: seq<Part>, q': seq<Slot>, x: string)
    requires Holds(s, q, i, a, m, c) && t.Text? && Moved(q, i, |m| - 1, q') && Fill(m, [x]) == t.text
    ensures Template(a + [t] + c, q')
    ensures forall vals: seq<string> | |vals| == |q'| :: Fill(a + [t] + c, vals) == Fill(s, With(vals, i, x))
  {
    hide Fill, Count;
    TemplateMiddle(s, q, i, a, m, t, c, q');
    CountBefore(s, q, i, a, m, c);
    CountOfBoth(a, m);
    CountOfBoth(a + m, c);
    FillOfText(t);
    forall vals: seq<string> | |vals| == |q'| ensures Fill(a + [t] + c, vals) == Fill(s, With(vals, i, x)) {
      FillMiddle(a, m, [t], c, x, vals);
    }
  }

  lemma FillOfText(t: Part)
    requires t.Text?
    ensures Count([t]) == 0 && Fill([t], []) == t.text
  {
    assert [t][..0] == [];
  }

  // The stretches that are merged.
  lemma FillOfStretch(u: string, x: string, w: string)
    ensures Count([Hole]) == 1 && Fill([Hole], [x]) == x
    ensures Count([Text(u), Hole]) == 1 && Fill([Text(u), Hole], [x]) == u + x
    ensures Count([Hole, Text(w)]) == 1 && Fill([Hole, Text(w)], [x]) == x + w
    ensures Count([Text(u), Hole, Text(w)]) == 1 && Fill([Text(u), Hole, Text(w)], [x]) == u + (x + w)
  {
    assert [Hole][..0] == [] && [x][..0] == [] && [Text(u), Hole][..1] == [Text(u)] && [Text(u)][..0] == [];
    assert [Hole, Text(w)][..1] == [Hole] && [Text(u), Hole, Text(w)][..2] == [Text(u), Hole];
    assert u + x + w == u + (x + w);
  }

  // ---------------------------------------------------------------- the program

  // Whether the hole at p is followed by another number, or by nothing.
  predicate NoTextAfter(s: seq<Part>, p: nat) {
    p + 1 >= |s| || s[p + 1].Hole?
  }

  // The slots from i + 1 on move d places down, then slot i is removed.
  method RemoveSlot(q: seq<Slot>, i: nat, d: nat) returns (r: seq<Slot>)
    requires i < |q| && forall k :: i < k < |q| ==> q[k].i >= d
    ensures Moved(q, i, d, r)
  {
    r := q;
    for j := i + 1 to |q|
      invariant |r| == |q|
      invariant forall k :: 0 <= k < |q| ==> r[k] == if i < k < j then q[k].(i := q[k].i - d) else q[k]
    {
      r := r[j := r[j].(i := r[j].i - d)];
    }
    r := r[..i] + r[i + 1..];
  }

  // Hole i is gone: filling the other holes gives what filling all of them gave with the number in hole i.
  ghost predicate Dropped(s: seq<Part>, q: seq<Slot>, i: nat, s': seq<Part>, q': seq<Slot>)
    requires i < |q| && Count(s) == |q| && q[i].x.Token?
  {
    && Template(s', q') && |q'| == |q| - 1 && (forall k :: 0 <= k < |q'| ==> q'[k].x == Without(q, i)[k].x)
    && (forall vals: seq<string> | |vals| == |q'| :: Fill(s', vals) == Fill(s, With(vals, i, q[i].x.text)))
  }

  // The number at hole i of both strings is the same: the hole becomes part of the text around it.
  method Coalesce(s: seq<Part>, q: seq<Slot>, i: nat) returns (s': seq<Part>, q': seq<Slot>)
    requires Template(s, q) && i < |q| && q[i].x.Token?
    ensures Dropped(s, q, i, s', q')
  {
    hide Fill, Count, Template, Moved;
    var p, x := q[i].i, q[i].x.text;
    SlotAt(s, q, i);
    TextsAround(s, q, i);
    LaterSlots(s, q, i);
    if p > 0 {
      var u := s[p - 1].text;
      if NoTextAfter(s, p) {
        FillOfStretch(u, x, "");
        s' := s[p - 1 := Text(u + x)];
        s' := s'[..p] + s'[p + 1..];
        q' := RemoveSlot(q, i, 1);
        assert s == s[..p - 1] + [Text(u), Hole] + s[p + 1..] && s' == s[..p - 1] + [Text(u + x)] + s[p + 1..];
        Merge(s, q, i, s[..p - 1], [Text(u), Hole], Text(u + x), s[p + 1..], q', x);
      } else {
        var w := s[p + 1].text;
        FillOfStretch(u, x, w);
        s' := s[p - 1 := Text(u + (x + w))];
        s' := s'[..p] + s'[p + 2..];
        q' := RemoveSlot(q, i, 2);
        assert s == s[..p - 1] + [Text(u), Hole, Text(w)] + s[p + 2..] && s' == s[..p - 1] + [Text(u + (x + w))] + s[p + 2..];
        Merge(s, q, i, s[..p - 1], [Text(u), Hole, Text(w)], Text(u + (x + w)), s[p + 2..], q', x);
      }
    } else {
      if NoTextAfter(s, p) {
        FillOfStretch("", x, "");
        s' := s[p := Text(x)];
        q' := RemoveSlot(q, i, 0);
        assert s == [] + [Hole] + s[1..] && s' == [] + [Text(x)] + s[1..];
        Merge(s, q, i, [], [Hole], Text(x), s[1..], q', x);
      } else {
        var w := s[p + 1].text;
        FillOfStretch("", x, w);
        s' := s[p := Text(x + w)];
        s' := s'[..p + 1] + s'[p + 2..];
        q' := RemoveSlot(q, i, 1);
        assert s == [] + [Hole, Text(w)] + s[2..] && s' == [] + [Text(x + w)] + s[2..];
        Merge(s, q, i, [], [Hole, Text(w)], Text(x + w), s[2..], q', x);
      }
    }
    MovedIs(q, i, q');
  }

  lemma MovedIs(q: seq<Slot>, i: nat, q': seq<Slot>)
    requires i < |q| && exists d: nat :: Moved(q, i, d, q')
    ensures |q'| == |q| - 1 && forall k :: 0 <= k < |q'| ==> q'[k].x == Without(q, i)[k].x
  {
  }

  lemma TextsAround(s: seq<Part>, q: seq<Slot>, i: nat)
    requires Template(s, q) && i < |q|
    ensures q[i].i > 0 ==> s[q[i].i - 1].Text?
    ensures NoTextAfter(s, q[i].i) ==> q[i].i + 1 == |s|
  {
  }

  lemma LaterSlots(s: seq<Part>, q: seq<Slot>, i: nat)
    requires Template(s, q) && i < |q|
    ensures forall k :: i < k < |q| ==> q[k].i >= q[i].i + 2
  {
    hide Count;
    forall k | i < k < |q| ensures q[k].i >= q[i].i + 2 {
      HolesIncrease(s, q, i, k);
    }
  }

  // A number of b that a has no counterpart for: the last hole becomes text.
  method Pop(s: seq<Part>, q: seq<Slot>) returns (s': seq<Part>, q': seq<Slot>)
    requires Template(s, q) && q != [] && q[|q| - 1].x.Token?
    ensures Dropped(s, q, |q| - 1, s', q') && q' == q[..|q| - 1]
  {
    hide Fill, Count, Template;
    var i := |q| - 1;
    var p, x := q[i].i, q[i].x.text;
    SlotAt(s, q, i);
    q' := q[..i];
    if NoTextAfter(s, p) {
      FillOfStretch("", x, "");
      s' := s[p := Text(x)];
      assert s == s[..p] + [Hole] + s[p + 1..] && s' == s[..p] + [Text(x)] + s[p + 1..];
      Merge(s, q, i, s[..p], [Hole], Text(x), s[p + 1..], q', x);
    } else {
      var w := s[p + 1].text;
      FillOfStretch("", x, w);
      s' := s[p := Text(x + w)];
      s' := s'[..p + 1] + s'[p + 2..];
      assert s == s[..p] + [Hole, Text(w)] + s[p + 2..] && s' == s[..p] + [Text(x + w)] + s[p + 2..];
      Merge(s, q, i, s[..p], [Hole, Text(w)], Text(x + w), s[p + 2..], q', x);
    }
  }

  // The first i numbers of b are in the template, up to position at of b.
  ghost predicate Parsed(s: seq<Part>, b: string, matches: seq<Match>, i: nat, at: nat) {
    && i <= |matches| && at <= |b| && MatchesFrom(b, 0, matches) && MatchesFrom(b, at, matches[i..]) && Count(s) == i
    && forall vals: seq<string> | |vals| == |matches| :: Fill(s, vals[..i]) + Replace(b, at, matches[i..], vals[i..]) == Replace(b, 0, matches, vals)
  }

  lemma ParsedNone(b: string, matches: seq<Match>)
    requires MatchesFrom(b, 0, matches)
    ensures Parsed([], b, matches, 0, 0)
  {
    assert matches[0..] == matches;
    forall vals: seq<string> | |vals| == |matches|
      ensures Fill([], vals[..0]) + Replace(b, 0, matches[0..], vals[0..]) == Replace(b, 0, matches, vals)
    {
      assert vals[0..] == vals;
    }
  }

  lemma ReplaceFirst(b: string, at: nat, ms: seq<Match>, vs: seq<string>)
    requires ms != [] && MatchesFrom(b, at, ms) && |vs| == |ms|
    ensures at <= ms[0].index && MatchesFrom(b, ms[0].index, ms)
    ensures Replace(b, at, ms, vs) == b[at..ms[0].index] + Replace(b, ms[0].index, ms, vs)
    ensures Replace(b, ms[0].index, ms, vs) == vs[0] + Replace(b, ms[0].index + |ms[0].text|, ms[1..], vs[1..])
  {
    var m := ms[0];
    assert b[m.index..m.index] == [];
    var rest := Replace(b, m.index + |m.text|, ms[1..], vs[1..]);
    assert b[at..m.index] + vs[0] + rest == b[at..m.index] + (vs[0] + rest);
    assert [] + vs[0] + rest == vs[0] + rest;
  }

  lemma Assoc(u: string, v: string, w: string)
    ensures u + (v + w) == u + v + w
  {
  }

  lemma ParsedText(s: seq<Part>, b: string, matches: seq<Match>, i: nat, at: nat)
    requires Parsed(s, b, matches, i, at) && i < |matches|
    ensures at <= matches[i].index
    ensures Parsed(s + [Text(b[at..matches[i].index])], b, matches, i, matches[i].index)
  {
    hide Count, Fill, Replace;
    var m, ms := matches[i], matches[i..];
    assert ms[0] == m;
    ReplaceFirst(b, at, ms, Texts(ms));
    var t := Text(b[at..m.index]);
    CountOfBoth(s, [t]);
    CountOfText([t]);
    forall vals: seq<string> | |vals| == |matches|
      ensures Fill(s + [t], vals[..i]) + Replace(b, m.index, ms, vals[i..]) == Replace(b, 0, matches, vals)
    {
      FillOfLast(s, t, vals[..i]);
      ReplaceFirst(b, at, ms, vals[i..]);
      Assoc(Fill(s, vals[..i]), t.text, Replace(b, m.index, ms, vals[i..]));
    }
  }

  lemma ParsedHole(s: seq<Part>, b: string, matches: seq<Match>, i: nat)
    requires i < |matches| && Parsed(s, b, matches, i, matches[i].index)
    ensures matches[i].index + |matches[i].text| <= |b|
    ensures Parsed(s + [Hole], b, matches, i + 1, matches[i].index + |matches[i].text|)
  {
    hide Count, Fill, Replace;
    var m, ms := matches[i], matches[i..];
    var next := m.index + |m.text|;
    assert ms[0] == m && ms[1..] == matches[i + 1..];
    CountOfBoth(s, [Hole]);
    CountOfText([Hole]);
    forall vals: seq<string> | |vals| == |matches|
      ensures Fill(s + [Hole], vals[..i + 1]) + Replace(b, next, matches[i + 1..], vals[i + 1..]) == Replace(b, 0, matches, vals)
    {
      FillOfLast(s, Hole, vals[..i + 1]);
      assert vals[..i + 1][..i] == vals[..i] && vals[i..][1..] == vals[i + 1..];
      ReplaceFirst(b, m.index, ms, vals[i..]);
      Assoc(Fill(s, vals[..i]), vals[i], Replace(b, next, matches[i + 1..], vals[i + 1..]));
    }
  }

  lemma ParsedAll(s: seq<Part>, b: string, matches: seq<Match>, at: nat)
    requires Parsed(s, b, matches, |matches|, at)
    ensures Parsed(s + [Text(b[at..])], b, matches, |matches|, |b|)
    ensures at == |b| ==> forall vals: seq<string> | |vals| == |matches| :: Fill(s, vals) == Replace(b, 0, matches, vals)
  {
    hide Count, Fill;
    var t := Text(b[at..]);
    CountOfBoth(s, [t]);
    CountOfText([t]);
    forall vals: seq<string> | |vals| == |matches|
      ensures Fill(s + [t], vals[..|matches|]) + Replace(b, |b|, matches[|matches|..], vals[|matches|..]) == Replace(b, 0, matches, vals)
      ensures at == |b| ==> Fill(s, vals) == Replace(b, 0, matches, vals)
    {
      FillOfLast(s, t, vals[..|matches|]);
      assert vals[..|matches|] == vals;
      assert Fill(s, vals) + b[at..] == Replace(b, 0, matches, vals);
      assert Fill(s + [t], vals) + b[|b|..] == Fill(s, vals) + b[at..];
    }
  }

  lemma AppendText(s: seq<Part>, q: seq<Slot>, t: Part)
    requires Template(s, q) && t.Text?
    ensures Template(s + [t], q)
  {
    hide Count;
    CountOfBoth(s, [t]);
    CountOfText([t]);
    assert forall k :: 0 <= k < |q| ==> (s + [t])[..q[k].i] == s[..q[k].i];
  }

  lemma AppendHole(s: seq<Part>, q: seq<Slot>, x: Filler)
    requires Template(s, q) && (s != [] ==> s[|s| - 1].Text?)
    ensures Template(s + [Hole], q + [Slot(|s|, x)])
  {
    hide Count;
    CountOfBoth(s, [Hole]);
    CountOfText([Hole]);
    assert (s + [Hole])[..|s|] == s;
    assert forall k :: 0 <= k < |q| ==> (s + [Hole])[..q[k].i] == s[..q[k].i];
  }

  // The constants and numbers of b.
  method FindNumbers(b: string, matches: seq<Match>) returns (s: seq<Part>, q: seq<Slot>)
    requires MatchesFrom(b, 0, matches)
    ensures Template(s, q) && |q| == |matches| && forall k :: 0 <= k < |q| ==> q[k].x == Token(matches[k].text)
    ensures forall vals: seq<string> | |vals| == |matches| :: Fill(s, vals) == Replace(b, 0, matches, vals)
  {
    hide Fill, Replace, Template;
    s, q := [], [];
    var s0: nat, s1: nat := 0, 0;
    EmptyTemplate();
    ParsedNone(b, matches);
    hide Parsed, MatchesFrom;
    for i := 0 to |matches|
      invariant Template(s, q) && Parsed(s, b, matches, i, s0) && (i > 0 ==> s0 > 0) && (i == 0 ==> s == [] && s0 == 0)
      invariant |q| == i && forall k :: 0 <= k < i ==> q[k].x == Token(matches[k].text)
    {
      var m := matches[i];
      MatchAt(s, b, matches, i, s0);
      if m.index != 0 {
        ParsedText(s, b, matches, i, s0);
        s1 := m.index;
        AppendText(s, q, Text(b[s0..s1]));
        s := s + [Text(b[s0..s1])];
      }
      AppendHole(s, q, Token(m.text));
      ParsedHole(s, b, matches, i);
      q := q + [Slot(|s|, Token(m.text))];
      s := s + [Hole];
      s0 := m.index + |m.text|;
    }
    AtInText(s, b, matches, s0);
    if s0 < |b| {
      ParsedAll(s, b, matches, s0);
      AppendText(s, q, Text(b[s0..]));
      s := s + [Text(b[s0..])];
    }
    ParsedAll(s, b, matches, |b|);
  }

  lemma EmptyTemplate()
    ensures Template([], [])
  {
  }

  lemma MatchAt(s: seq<Part>, b: string, matches: seq<Match>, i: nat, at: nat)
    requires i < |matches| && Parsed(s, b, matches, i, at)
    ensures at <= matches[i].index <= matches[i].index + |matches[i].text| <= |b| && matches[i].text != ""
  {
    assert matches[i..][0] == matches[i];
  }

  lemma AtInText(s: seq<Part>, b: string, matches: seq<Match>, at: nat)
    requires Parsed(s, b, matches, |matches|, at)
    ensures at <= |b|
  {
  }

  // ---------------------------------------------------------------- the whole interpolation

  // The indices below k at which the numbers of a and b differ, in order.
  function Differing(a: seq<string>, t: seq<string>, k: nat): seq<nat>
    requires k <= |a| && k <= |t|
  {
    if k == 0 then [] else Differing(a, t, k - 1) + if a[k - 1] != t[k - 1] then [k - 1] else []
  }

  predicate Increasing(s: seq<nat>) {
    forall i, j :: 0 <= i < j < |s| ==> s[i] < s[j]
  }

  lemma {:induction false} DifferingIs(a: seq<string>, t: seq<string>, k: nat)
    requires k <= |a| && k <= |t|
    ensures forall j: nat :: j in Differing(a, t, k) <==> j < k && a[j] != t[j]
    ensures Increasing(Differing(a, t, k))
  {
    if k > 0 {
      DifferingIs(a, t, k - 1);
      var s := Differing(a, t, k - 1);
      assert forall j :: 0 <= j < |s| ==> s[j] in s;
    }
  }

  function Range(k: nat, n: nat): (s: seq<nat>)
    requires k <= n
    ensures |s| == n - k
  {
    seq(n - k, j requires 0 <= j < n - k => k + j)
  }

  // The numbers of b with those at the kept indices replaced by vals.
  ghost predicate Agrees(all: seq<string>, texts: seq<string>, kept: seq<nat>, vals: seq<string>) {
    && |all| == |texts| && |vals| == |kept|
    && (forall k :: 0 <= k < |kept| ==> kept[k] < |all| && all[kept[k]] == vals[k])
    && (forall j :: 0 <= j < |all| && j !in kept ==> all[j] == texts[j])
  }

  // Filling the holes of s gives b with the numbers at the kept indices replaced.
  ghost predicate Means(s: seq<Part>, b: string, matches: seq<Match>, kept: seq<nat>) {
    && MatchesFrom(b, 0, matches) && Count(s) == |kept|
    && forall vals, all | Agrees(all, Texts(matches), kept, vals) :: Fill(s, vals) == Replace(b, 0, matches, all)
  }

  lemma MeansAll(s: seq<Part>, b: string, matches: seq<Match>)
    requires MatchesFrom(b, 0, matches) && Count(s) == |matches|
    requires forall vals: seq<string> | |vals| == |matches| :: Fill(s, vals) == Replace(b, 0, matches, vals)
    ensures Means(s, b, matches, Range(0, |matches|))
  {
    hide Fill, Count, Replace;
    var kept := Range(0, |matches|);
    forall vals, all | Agrees(all, Texts(matches), kept, vals) ensures Fill(s, vals) == Replace(b, 0, matches, all) {
      assert forall k :: 0 <= k < |matches| ==> all[kept[k]] == vals[k];
      assert all == vals;
    }
  }

  // The hole of a number that goes back into the text is dropped.
  lemma MeansWithout(s: seq<Part>, s': seq<Part>, b: string, matches: seq<Match>, kept: seq<nat>, i: nat, x: string)
    requires Means(s, b, matches, kept) && i < |kept| && kept[i] < |matches| && x == matches[kept[i]].text && Increasing(kept)
    requires Count(s') == |kept| - 1
    requires forall vals: seq<string> | |vals| == |kept| - 1 :: Fill(s', vals) == Fill(s, With(vals, i, x))
    ensures Means(s', b, matches, Without(kept, i)) && Increasing(Without(kept, i))
  {
    hide Fill, Count, Replace;
    var kept' := Without(kept, i);
    forall vals', all | Agrees(all, Texts(matches), kept', vals') ensures Fill(s', vals') == Replace(b, 0, matches, all) {
      AgreesWith(all, Texts(matches), kept, i, vals');
    }
  }

  lemma AgreesWith(all: seq<string>, texts: seq<string>, kept: seq<nat>, i: nat, vals: seq<string>)
    requires i < |kept| && kept[i] < |texts| && Agrees(all, texts, Without(kept, i), vals) && Increasing(kept)
    ensures Agrees(all, texts, kept, With(vals, i, texts[kept[i]]))
  {
    var without, with_ := Without(kept, i), With(vals, i, texts[kept[i]]);
    assert kept[i] !in without;
    forall k | 0 <= k < |kept| ensures kept[k] < |all| && all[kept[k]] == with_[k] {
      if k != i {
        assert kept[k] == without[if k < i then k else k - 1];
      }
    }
    forall j | 0 <= j < |all| && j !in kept ensures all[j] == texts[j] {
      assert j !in without;
    }
  }

  datatype Interpolator = Constant(text: string) | Single(number: Filler) | Filling(template: seq<Part>, holes: seq<Slot>)

  // The first i holes are interpolated, the others still have the numbers of b.
  ghost predicate Progress(s: seq<Part>, q: seq<Slot>, kept: seq<nat>, b: string, matches: seq<Match>, a: seq<string>, i: nat) {
    && i <= |q| == |kept| && Template(s, q) && Increasing(kept) && Means(s, b, matches, kept)
    && (forall j :: 0 <= j < |kept| ==> kept[j] < |matches|)
    && (forall j :: 0 <= j < i ==> kept[j] < |a| && q[j].x == Number(a[kept[j]], matches[kept[j]].text))
    && (forall j :: i <= j < |q| ==> q[j].x == Token(matches[kept[j]].text))
  }

  lemma ProgressWithout(s: seq<Part>, q: seq<Slot>, kept: seq<nat>, b: string, matches: seq<Match>, a: seq<string>, i: nat, j: nat, s': seq<Part>, q': seq<Slot>)
    requires Progress(s, q, kept, b, matches, a, i) && i <= j < |q| && q[j].x.Token? && Dropped(s, q, j, s', q')
    ensures |q'| == |q| - 1 == |Without(kept, j)| && Progress(s', q', Without(kept, j), b, matches, a, i)
  {
    hide Fill, Count, Replace, Template, Means, Increasing;
    CountIs(s', q');
    MeansWithout(s, s', b, matches, kept, j, q[j].x.text);
  }

  lemma ProgressNext(s: seq<Part>, q: seq<Slot>, kept: seq<nat>, b: string, matches: seq<Match>, a: seq<string>, i: nat)
    requires Progress(s, q, kept, b, matches, a, i) && i < |q| && kept[i] < |a|
    ensures Progress(s, q[i := q[i].(x := Number(a[kept[i]], q[i].x.text))], kept, b, matches, a, i + 1)
  {
    hide Fill, Count, Replace, Template, Means, Increasing;
    SameHoles(s, q, i, Number(a[kept[i]], q[i].x.text));
  }

  lemma FillerAt(s: seq<Part>, q: seq<Slot>, kept: seq<nat>, b: string, matches: seq<Match>, a: seq<string>, i: nat, j: nat)
    requires Progress(s, q, kept, b, matches, a, i) && i <= j < |q|
    ensures |q| == |kept| && Template(s, q) && Count(s) == |q| && kept[j] < |matches| && q[j].x == Token(matches[kept[j]].text)
  {
  }

  // The numbers below k are compared: of them the differing ones are kept, and all from k on.
  ghost predicate Compared(a: seq<string>, matches: seq<Match>, k: nat, kept: seq<nat>, i: nat) {
    && k <= |a| && k <= |matches|
    && i == |Differing(a, Texts(matches), k)| && kept == Differing(a, Texts(matches), k) + Range(k, |matches|)
  }

  lemma ComparedNext(a: seq<string>, matches: seq<Match>, k: nat, kept: seq<nat>, i: nat)
    requires Compared(a, matches, k, kept, i) && k < |a| && i < |kept|
    ensures k < |matches| && kept[i] == k
    ensures a[k] == matches[k].text ==> Compared(a, matches, k + 1, Without(kept, i), i)
    ensures a[k] != matches[k].text ==> Compared(a, matches, k + 1, kept, i + 1)
  {
    assert Range(k, |matches|) == [k] + Range(k + 1, |matches|);
  }

  lemma ComparedAll(a: seq<string>, matches: seq<Match>, k: nat, kept: seq<nat>, i: nat)
    requires Compared(a, matches, k, kept, i) && (k == |a| || i >= |kept|)
    ensures i <= |kept| && kept[..i] == Differing(a, Texts(matches), if |a| < |matches| then |a| else |matches|)
  {
  }

  lemma ComparedNone(a: seq<string>, matches: seq<Match>)
    ensures Compared(a, matches, 0, Range(0, |matches|), 0)
  {
  }

  // What is left of the template once the numbers of a and b are compared.
  method MakeTemplate(b: string, matches: seq<Match>, a: seq<string>) returns (s: seq<Part>, q: seq<Slot>, ghost kept: seq<nat>)
    requires MatchesFrom(b, 0, matches)
    ensures kept == Differing(a, Texts(matches), if |a| < |matches| then |a| else |matches|)
    ensures Progress(s, q, kept, b, matches, a, |q|)
  {
    hide *;
    s, q := StartTemplate(b, matches, a);
    kept := Range(0, |matches|);
    var i, n, k := 0, |q|, 0;
    ComparedNone(a, matches);
    while k < |a| && i < n
      invariant n == |q| == |kept| && i <= n && k <= |a|
      invariant Progress(s, q, kept, b, matches, a, i) && Compared(a, matches, k, kept, i)
    {
      var o := q[i];
      ComparedNext(a, matches, k, kept, i);
      FillerAt(s, q, kept, b, matches, a, i, i);
      if o.x.text == a[k] {
        ghost var s', q' := s, q;
        s, q := Coalesce(s, q, i);
        ProgressWithout(s', q', kept, b, matches, a, i, i, s, q);
        kept := Without(kept, i);
        n := n - 1;
      } else {
        ProgressNext(s, q, kept, b, matches, a, i);
        q := q[i := o.(x := Number(a[k], o.x.text))];
        i := i + 1;
      }
      k := k + 1;
    }
    ComparedAll(a, matches, k, kept, i);
    s, q, kept := PopRest(s, q, kept, b, matches, a, i);
  }

  // Removes the numbers of b that a has no counterpart for.
  method PopRest(s0: seq<Part>, q0: seq<Slot>, ghost kept0: seq<nat>, ghost b: string, ghost matches: seq<Match>, ghost a: seq<string>, i: nat)
    returns (s: seq<Part>, q: seq<Slot>, ghost kept: seq<nat>)
    requires i <= |q0| && Progress(s0, q0, kept0, b, matches, a, i)
    ensures |q| == i <= |kept0| && kept == kept0[..i] && Progress(s, q, kept, b, matches, a, i)
  {
    hide Fill, Replace, Template, Count;
    s, q, kept := s0, q0, kept0;
    var n := |q|;
    while i < n
      invariant i <= n == |q| == |kept| <= |kept0| && kept == kept0[..n]
      invariant Progress(s, q, kept, b, matches, a, i)
    {
      ghost var s', q' := s, q;
      FillerAt(s, q, kept, b, matches, a, i, n - 1);
      hide Progress, Dropped;
      s, q := Pop(s, q);
      ProgressWithout(s', q', kept, b, matches, a, i, n - 1, s, q);
      kept := Without(kept, n - 1);
      n := n - 1;
    }
  }

  method StartTemplate(b: string, matches: seq<Match>, ghost a: seq<string>) returns (s: seq<Part>, q: seq<Slot>)
    requires MatchesFrom(b, 0, matches)
    ensures |q| == |Range(0, |matches|)| && Progress(s, q, Range(0, |matches|), b, matches, a, 0)
  {
    hide *;
    s, q := FindNumbers(b, matches);
    StartOfProgress(s, q, b, matches, a);
  }

  lemma StartOfProgress(s: seq<Part>, q: seq<Slot>, b: string, matches: seq<Match>, a: seq<string>)
    requires MatchesFrom(b, 0, matches)
    requires Template(s, q) && |q| == |matches| && forall k :: 0 <= k < |q| ==> q[k].x == Token(matches[k].text)
    requires forall vals: seq<string> | |vals| == |matches| :: Fill(s, vals) == Replace(b, 0, matches, vals)
    ensures |q| == |Range(0, |matches|)| && Progress(s, q, Range(0, |matches|), b, matches, a, 0)
  {
    hide Fill, Replace, Count;
    MeansAll(s, b, matches);
  }

  lemma CountIs(s: seq<Part>, q: seq<Slot>)
    requires Template(s, q)
    ensures Count(s) == |q|
  {
  }

  lemma SameHoles(s: seq<Part>, q: seq<Slot>, i: nat, x: Filler)
    requires Template(s, q) && i < |q|
    ensures Template(s, q[i := q[i].(x := x)])
  {
  }

  // Filling the template with the numbers of b gives b, and filling it with any numbers gives b with
  // just the differing numbers replaced.
  lemma TemplateGivesTarget(b: string, matches: seq<Match>, a: seq<string>, s: seq<Part>, q: seq<Slot>, kept: seq<nat>)
    requires Progress(s, q, kept, b, matches, a, |q|) && MatchesFrom(b, 0, matches)
    ensures |q| == Count(s) == |kept|
    ensures Fill(s, seq(|kept|, k requires 0 <= k < |kept| => matches[kept[k]].text)) == b
    ensures forall vals, all | Agrees(all, Texts(matches), kept, vals) :: Fill(s, vals) == Replace(b, 0, matches, all)
    ensures forall k :: 0 <= k < |q| ==> q[k].i < |s| && s[q[k].i].Hole?
    ensures forall j, k :: 0 <= j < k < |q| ==> q[j].i < q[k].i
  {
    hide Fill, Count, Replace;
    var vals := seq(|kept|, k requires 0 <= k < |kept| => matches[kept[k]].text);
    assert Agrees(Texts(matches), Texts(matches), kept, vals);
    ReplaceByItself(b, 0, matches);
    forall j, k | 0 <= j < k < |q| ensures q[j].i < q[k].i {
      HolesIncrease(s, q, j, k);
    }
  }

  // One hole for each pair of numbers that differ.
  lemma OneHolePerDifference(b: string, matches: seq<Match>, a: seq<string>, s: seq<Part>, q: seq<Slot>, kept: seq<nat>)
    requires Progress(s, q, kept, b, matches, a, |q|)
    requires kept == Differing(a, Texts(matches), if |a| < |matches| then |a| else |matches|)
    ensures forall k: nat :: k in kept <==> k < |a| && k < |matches| && a[k] != matches[k].text
    ensures forall k :: 0 <= k < |q| ==> q[k].x == Number(a[kept[k]], matches[kept[k]].text)
  {
    hide Template, Means;
    DifferingIs(a, Texts(matches), if |a| < |matches| then |a| else |matches|);
  }

  lemma {:induction false} MatchLength(b: string, at: nat, matches: seq<Match>, k: nat)
    requires MatchesFrom(b, at, matches) && k < |matches|
    ensures |matches[k].text| + |matches| - 1 <= |b| - at
    decreases |matches|
  {
    var next := matches[0].index + |matches[0].text|;
    if k > 0 {
      MatchLength(b, next, matches[1..], k - 1);
    } else if |matches| > 1 {
      MatchLength(b, next, matches[1..], 0);
    }
  }

  // A template that is one hole stands for a b that is one number.
  lemma OnlyNumber(s: seq<Part>, q: seq<Slot>, kept: seq<nat>, b: string, matches: seq<Match>, a: seq<string>)
    requires Progress(s, q, kept, b, matches, a, |q|) && MatchesFrom(b, 0, matches) && s == [Hole]
    ensures kept == [0] && |matches| == 1 && b == matches[0].text
  {
    hide Fill, Replace;
    CountOfHoleOnly();
    TemplateGivesTarget(b, matches, a, s, q, kept);
    var vals := seq(|kept|, k requires 0 <= k < |kept| => matches[kept[k]].text);
    FillOfStretch("", matches[kept[0]].text, "");
    assert vals == [matches[kept[0]].text];
    MatchLength(b, 0, matches, kept[0]);
    assert kept == [0];
  }

  lemma CountOfHoleOnly()
    ensures Count([Hole]) == 1
  {
    CountOfText([Hole]);
  }

  // A template that is one piece is answered at once.
  method Interpolate(b: string, matches: seq<Match>, a: seq<string>) returns (f: Interpolator)
    requires MatchesFrom(b, 0, matches)
    ensures var kept := Differing(a, Texts(matches), if |a| < |matches| then |a| else |matches|);
      match f
      case Constant(text) => text == b && kept == []
      case Single(x) => kept == [0] && |matches| == 1 && b == matches[0].text && x == Number(a[0], b)
      case Filling(s, q) => Progress(s, q, kept, b, matches, a, |q|)
  {
    var s, q, kept := MakeTemplate(b, matches, a);
    TemplateGivesTarget(b, matches, a, s, q, kept);
    OneHolePerDifference(b, matches, a, s, q, kept);
    if |s| == 1 {
      assert s[..0] == [];
      if s[0].Hole? {
        OnlyNumber(s, q, kept, b, matches, a);
        return Single(q[0].x);
      }
      return Constant(b);
    }
    return Filling(s, q);
  }

  // ---------------------------------------------------------------- calling the interpolator

  function Joined(s: seq<Part>): string
    requires forall p :: 0 <= p < |s| ==> s[p].Text?
  {
    if s == [] then "" else Joined(s[..|s| - 1]) + s[|s| - 1].text
  }

  lemma HoleIsListed(s: seq<Part>, q: seq<Slot>, p: nat)
    requires Template(s, q) && p < |s| && s[p].Hole?
    ensures Count(s[..p]) < |q| && q[Count(s[..p])].i == p
  {
    hide Count, Template;
    CountAround(s, p);
    CountIs(s, q);
    var k := Count(s[..p]);
    SlotAt(s, q, k);
    var r := q[k].i;
    if r < p {
      assert s[..p][..r] == s[..r];
      CountAround(s[..p], r);
    } else if p < r {
      assert s[..r][..p] == s[..p];
      CountAround(s[..r], p);
    }
  }

  // s is the template with vals in its holes.
  ghost predicate Filled(s: seq<Part>, template: seq<Part>, q: seq<Slot>, vals: seq<string>) {
    && Template(template, q) && |s| == |template| && |vals| == |q|
    && (forall p :: 0 <= p < |s| && template[p].Text? ==> s[p] == template[p])
    && (forall k :: 0 <= k < |q| ==> q[k].i < |s| && s[q[k].i] == Text(vals[k]))
  }

  lemma {:induction false} JoinedIsFill(s: seq<Part>, template: seq<Part>, q: seq<Slot>, vals: seq<string>, n: nat)
    requires Filled(s, template, q, vals) && n <= |s|
    ensures Count(template[..n]) <= |vals| && forall p :: 0 <= p < n ==> s[p].Text?
    ensures Joined(s[..n]) == Fill(template[..n], vals[..Count(template[..n])])
  {
    hide Template, Fill, Count;
    if n == 0 {
      FillOfNone();
      assert template[..0] == [] && vals[..0] == [];
    } else {
      JoinedIsFill(s, template, q, vals, n - 1);
      assert template[..n] == template[..n - 1] + [template[n - 1]] && s[..n][..n - 1] == s[..n - 1];
      CountOfBoth(template[..n - 1], [template[n - 1]]);
      CountOfText([template[n - 1]]);
      var c := Count(template[..n]);
      if template[n - 1].Hole? {
        HoleIsListed(template, q, n - 1);
        assert vals[..c][..c - 1] == vals[..c - 1];
      }
      FillOfLast(template[..n - 1], template[n - 1], vals[..c]);
    }
  }

  // The function that interpolation returns. It keeps writing to the same pieces, so that the values of
  // an earlier call are in the holes when the next one starts.
  class Rejoiner {
    const template: seq<Part>
    const holes: seq<Slot>
    var s: seq<Part>

    ghost predicate Valid()
      reads this
    {
      Template(template, holes) && |s| == |template| && forall p :: 0 <= p < |s| && template[p].Text? ==> s[p] == template[p]
    }

    constructor (template: seq<Part>, holes: seq<Slot>)
      requires Template(template, holes)
      ensures Valid() && this.template == template && this.holes == holes
    {
      this.template, this.holes := template, holes;
      s := template;
    }

    method At(vals: seq<string>) returns (r: string)
      requires Valid() && |vals| == |holes|
      modifies this
      ensures Valid() && |vals| == Count(template) && r == Fill(template, vals)
    {
      hide Fill, Count;
      for i := 0 to |holes|
        invariant Valid()
        invariant forall k :: 0 <= k < i ==> holes[k].i < |s| && s[holes[k].i] == Text(vals[k])
      {
        SlotAt(template, holes, i);
        forall k | 0 <= k < i ensures holes[k].i < holes[i].i {
          HolesIncrease(template, holes, k, i);
        }
        s := s[holes[i].i := Text(vals[i])];
      }
      JoinedIsFill(s, template, holes, vals, |s|);
      assert template[..|s|] == template && s[..|s|] == s;
      CountIs(template, holes);
      assert vals[..|vals|] == vals;
      r := Joined(s);
    }
  }
}
