// What the printed text looks like: the pretty text is the compact one with line breaks put in, and a
// quoted string holds no byte that could end it early.
module JsonLayout {
  import opened Json

  // ---------------------------------------------------------------- line breaks by brackets alone

  function Spaces(depth: nat): string {
    if depth == 0 then "" else Spaces(depth - 1) + "  "
  }

  function NewLine(depth: nat): string {
    "\n" + Spaces(depth)
  }

  predicate Opens(c: char) {
    c == '[' || c == '{'
  }

  predicate Closes(c: char) {
    c == ']' || c == '}'
  }

  // Lays out compact text without knowing the value: depth brackets are open. Strings stay as they are,
  // brackets with nothing between them too.
  function Laid(s: string, depth: nat, quoted: bool): string {
    if s == "" then ""
    else if quoted then
      if s[0] == '\\' && |s| > 1 then s[..2] + Laid(s[2..], depth, true) else [s[0]] + Laid(s[1..], depth, s[0] != '"')
    else if s[0] == '"' then [s[0]] + Laid(s[1..], depth, true)
    else if Opens(s[0]) then
      if |s| > 1 && Closes(s[1]) then s[..2] + Laid(s[2..], depth, false)
      else [s[0]] + NewLine(depth + 1) + Laid(s[1..], depth + 1, false)
    else if Closes(s[0]) && depth > 0 then NewLine(depth - 1) + [s[0]] + Laid(s[1..], depth - 1, false)
    else if s[0] == ',' then "," + NewLine(depth) + Laid(s[1..], depth, false)
    else if s[0] == ':' then ": " + Laid(s[1..], depth, false)
    else [s[0]] + Laid(s[1..], depth, false)
  }

  function At(depth: nat): Layout {
    Pretty(Spaces(depth))
  }

  // ---------------------------------------------------------------- strings

  lemma EscapeIsLaid(c: char, rest: string, depth: nat)
    ensures Laid(EscapeByte(c) + rest, depth, true) == EscapeByte(c) + Laid(rest, depth, true)
  {
    var e, s := EscapeByte(c), EscapeByte(c) + rest;
    if e[0] == '\\' {
      assert s[..2] == e[..2] && s[2..] == e[2..] + rest;
      if |e| == 3 {
        assert e[2..] == [e[2]] && e == e[..2] + [e[2]];
        assert ([e[2]] + rest)[1..] == rest;
        assert e[..2] + ([e[2]] + Laid(rest, depth, true)) == e + Laid(rest, depth, true);
      } else {
        assert e[2..] + rest == rest && e[..2] == e;
      }
    } else {
      assert e == [c] && s[1..] == rest;
    }
  }

  lemma {:induction false} TextIsLaid(t: string, rest: string, depth: nat)
    ensures Laid(Escape(t) + rest, depth, true) == Escape(t) + Laid(rest, depth, true)
    decreases |t|
  {
    hide EscapeByte, Laid;
    if t == "" {
      assert Escape(t) + rest == rest;
      assert "" + Laid(rest, depth, true) == Laid(rest, depth, true);
    } else {
      Assoc(EscapeByte(t[0]), Escape(t[1..]), rest);
      EscapeIsLaid(t[0], Escape(t[1..]) + rest, depth);
      TextIsLaid(t[1..], rest, depth);
      Assoc(EscapeByte(t[0]), Escape(t[1..]), Laid(rest, depth, true));
    }
  }

  lemma QuoteIsLaid(t: string, rest: string, depth: nat)
    ensures Laid(Quote(t) + rest, depth, false) == Quote(t) + Laid(rest, depth, false)
  {
    var e := Escape(t);
    Assoc("\"", e, "\"");
    Assoc("\"", e + "\"", rest);
    Assoc(e, "\"", rest);
    FirstQuote(e + ("\"" + rest), depth, false);
    TextIsLaid(t, "\"" + rest, depth);
    FirstQuote(rest, depth, true);
    hide Laid, Escape;
    var l := Laid(rest, depth, false);
    Assoc("\"", e, "\"" + l);
    Assoc("\"" + e, "\"", l);
  }

  lemma FirstQuote(rest: string, depth: nat, quoted: bool)
    ensures Laid("\"" + rest, depth, quoted) == "\"" + Laid(rest, depth, !quoted)
  {
    assert ("\"" + rest)[1..] == rest;
  }

  // ---------------------------------------------------------------- words

  predicate IsPlain(c: char) {
    c != '"' && !Opens(c) && !Closes(c) && c != ',' && c != ':'
  }

  lemma {:induction false} WordIsLaid(w: string, rest: string, depth: nat)
    requires forall k :: 0 <= k < |w| ==> IsPlain(w[k])
    ensures Laid(w + rest, depth, false) == w + Laid(rest, depth, false)
    decreases |w|
  {
    if w == "" {
      assert w + rest == rest;
      assert "" + Laid(rest, depth, false) == Laid(rest, depth, false);
    } else {
      assert (w + rest)[1..] == w[1..] + rest && (w + rest)[0] == w[0];
      WordIsLaid(w[1..], rest, depth);
      assert [w[0]] + (w[1..] + Laid(rest, depth, false)) == w + Laid(rest, depth, false);
    }
  }

  lemma {:induction false} NatIsPlain(n: nat)
    ensures forall k :: 0 <= k < |NatText(n)| ==> IsPlain(NatText(n)[k])
  {
    if n >= 10 {
      NatIsPlain(n / 10);
    }
  }

  // ---------------------------------------------------------------- brackets

  lemma OpenIsLaid(c: char, rest: string, depth: nat)
    requires Opens(c) && rest != "" && !Closes(rest[0])
    ensures Laid([c] + rest, depth, false) == [c] + (NewLine(depth + 1) + Laid(rest, depth + 1, false))
  {
    var s := [c] + rest;
    assert s[1..] == rest && s[1] == rest[0];
    Assoc([c], NewLine(depth + 1), Laid(rest, depth + 1, false));
  }

  lemma CloseIsLaid(c: char, rest: string, depth: nat)
    requires Closes(c)
    ensures Laid([c] + rest, depth + 1, false) == NewLine(depth) + ([c] + Laid(rest, depth, false))
  {
    assert ([c] + rest)[1..] == rest;
    Assoc(NewLine(depth), [c], Laid(rest, depth, false));
  }

  lemma EmptyIsLaid(e: string, rest: string, depth: nat)
    requires e == "[]" || e == "{}"
    ensures Laid(e + rest, depth, false) == e + Laid(rest, depth, false)
  {
    assert (e + rest)[..2] == e && (e + rest)[2..] == rest;
  }

  lemma CommaIsLaid(rest: string, depth: nat)
    ensures Laid("," + rest, depth, false) == "," + (NewLine(depth) + Laid(rest, depth, false))
  {
    assert ("," + rest)[1..] == rest;
    Assoc(",", NewLine(depth), Laid(rest, depth, false));
  }

  lemma ColonIsLaid(rest: string, depth: nat)
    ensures Laid(":" + rest, depth, false) == ": " + Laid(rest, depth, false)
  {
    assert (":" + rest)[1..] == rest;
  }

  // ---------------------------------------------------------------- values

  lemma FirstIsNoClose(v: Json)
    ensures Render(v, Compact) != "" && !Closes(Render(v, Compact)[0])
  {
    if v.Int? {
      NatTextNotEmpty(if v.n < 0 then -v.n else v.n);
      NatIsPlain(if v.n < 0 then -v.n else v.n);
    }
  }

  // Laying out the compact text of a value, with any text behind it, gives its pretty text.
  lemma {:induction false} ValueIsLaid(v: Json, rest: string, depth: nat)
    ensures Laid(Render(v, Compact) + rest, depth, false) == Render(v, At(depth)) + Laid(rest, depth, false)
    decreases v, 2
  {
    match v
    case Null => WordIsLaid("null", rest, depth);
    case Bool(b) => WordIsLaid(if b then "true" else "false", rest, depth);
    case Int(n) =>
      NatIsPlain(if n < 0 then -n else n);
      WordIsLaid(IntText(n), rest, depth);
    case Str(s) => QuoteIsLaid(s, rest, depth);
    case Arr(items) =>
      if items == [] {
        EmptyIsLaid("[]", rest, depth);
      } else {
        ArrayIsLaid(items, rest, depth);
      }
    case Obj(members) =>
      if members == [] {
        EmptyIsLaid("{}", rest, depth);
      } else {
        HashIsLaid(members, rest, depth);
      }
  }

  lemma Wrapped(a: string, b: string, c: string, d: string, e: string)
    ensures a + b + c + d + e == a + (b + (c + (d + e)))
  {
    Assoc(a + b + c, d, e);
    Assoc(a + b, c, d + e);
    Assoc(a, b, c + (d + e));
  }

  lemma {:induction false} ArrayIsLaid(items: seq<Json>, rest: string, depth: nat)
    requires items != []
    ensures Laid("[" + RenderItems(items, Compact) + "" + "]" + rest, depth, false)
      == "[" + RenderItems(items, At(depth + 1)) + NewLine(depth) + "]" + Laid(rest, depth, false)
    decreases items, 2
  {
    var text := RenderItems(items, Compact);
    ItemsStart(items);
    hide Laid, Render, RenderItems, NewLine;
    Wrapped("[", text, "", "]", rest);
    assert "" + ("]" + rest) == "]" + rest;
    OpenIsLaid('[', text + ("]" + rest), depth);
    ItemsAreLaid(items, "]" + rest, depth + 1);
    CloseIsLaid(']', rest, depth);
    var l := Laid(rest, depth, false);
    var pretty := RenderItems(items, At(depth + 1));
    Wrapped("[", pretty, NewLine(depth), "]", l);
  }

  lemma ItemsStart(items: seq<Json>)
    requires items != []
    ensures RenderItems(items, Compact) != "" && !Closes(RenderItems(items, Compact)[0])
  {
    FirstIsNoClose(items[0]);
  }

  lemma {:induction false} ItemsAreLaid(items: seq<Json>, rest: string, depth: nat)
    requires items != []
    ensures NewLine(depth) + Laid(RenderItems(items, Compact) + rest, depth, false) == RenderItems(items, At(depth)) + Laid(rest, depth, false)
    decreases items, 1
  {
    ItemsUnfold(items, Compact);
    ItemsUnfold(items, At(depth));
    assert Break(At(depth)) == NewLine(depth);
    hide Laid, Render, RenderItems, NewLine, MoreItems;
    var v, more := Render(items[0], Compact), MoreItems(items, Compact);
    var pretty, l := Render(items[0], At(depth)), Laid(rest, depth, false);
    assert "" + (v + more) == v + more;
    Assoc(v, more, rest);
    ValueIsLaid(items[0], more + rest, depth);
    MoreIsLaid(items, rest, depth);
    Assoc(pretty, MoreItems(items, At(depth)), l);
    Assoc(NewLine(depth), pretty + MoreItems(items, At(depth)), l);
  }

  ghost function MoreItems(items: seq<Json>, l: Layout): string
    requires items != []
  {
    if |items| == 1 then "" else "," + RenderItems(items[1..], l)
  }

  lemma ItemsUnfold(items: seq<Json>, l: Layout)
    requires items != []
    ensures RenderItems(items, l) == Break(l) + (Render(items[0], l) + MoreItems(items, l))
  {
    Assoc(Break(l), Render(items[0], l), MoreItems(items, l));
  }

  lemma {:induction false} MoreIsLaid(items: seq<Json>, rest: string, depth: nat)
    requires items != []
    ensures Laid(MoreItems(items, Compact) + rest, depth, false) == MoreItems(items, At(depth)) + Laid(rest, depth, false)
    decreases items, 0
  {
    hide Laid, Render, RenderItems, NewLine;
    if |items| == 1 {
      assert "" + rest == rest && "" + Laid(rest, depth, false) == Laid(rest, depth, false);
    } else {
      var next, pretty := RenderItems(items[1..], Compact), RenderItems(items[1..], At(depth));
      Assoc(",", next, rest);
      CommaIsLaid(next + rest, depth);
      ItemsAreLaid(items[1..], rest, depth);
      Assoc(",", pretty, Laid(rest, depth, false));
    }
  }

  lemma {:induction false} HashIsLaid(members: seq<Member>, rest: string, depth: nat)
    requires members != []
    ensures Laid("{" + RenderMembers(members, Compact) + "" + "}" + rest, depth, false)
      == "{" + RenderMembers(members, At(depth + 1)) + NewLine(depth) + "}" + Laid(rest, depth, false)
    decreases members, 1
  {
    var text := RenderMembers(members, Compact);
    MembersStart(members);
    hide Laid, RenderMember, RenderMembers, NewLine;
    Wrapped("{", text, "", "}", rest);
    assert "" + ("}" + rest) == "}" + rest;
    OpenIsLaid('{', text + ("}" + rest), depth);
    MembersAreLaid(members, "}" + rest, depth + 1);
    CloseIsLaid('}', rest, depth);
    var l := Laid(rest, depth, false);
    var pretty := RenderMembers(members, At(depth + 1));
    Wrapped("{", pretty, NewLine(depth), "}", l);
  }

  lemma MembersStart(members: seq<Member>)
    requires members != []
    ensures RenderMembers(members, Compact) != "" && !Closes(RenderMembers(members, Compact)[0])
  {
    hide Escape, Render;
    assert RenderMember(members[0], Compact)[0] == '"';
  }

  lemma {:induction false} MembersAreLaid(members: seq<Member>, rest: string, depth: nat)
    requires members != []
    ensures NewLine(depth) + Laid(RenderMembers(members, Compact) + rest, depth, false)
      == RenderMembers(members, At(depth)) + Laid(rest, depth, false)
    decreases members, 0
  {
    hide Laid, Render, RenderMember, NewLine;
    var m, more := RenderMember(members[0], Compact), if |members| == 1 then "" else "," + RenderMembers(members[1..], Compact);
    var pretty, l := RenderMember(members[0], At(depth)), Laid(rest, depth, false);
    assert RenderMembers(members, Compact) + rest == m + (more + rest);
    MemberIsLaid(members[0], more + rest, depth);
    if |members| == 1 {
      assert more + rest == rest;
      assert pretty + "" == pretty;
    } else {
      var next := RenderMembers(members[1..], Compact);
      assert more + rest == "," + (next + rest);
      CommaIsLaid(next + rest, depth);
      MembersAreLaid(members[1..], rest, depth);
      var prettyNext := RenderMembers(members[1..], At(depth));
      assert pretty + ("," + (prettyNext + l)) == pretty + ("," + prettyNext) + l;
    }
  }

  lemma {:induction false} MemberIsLaid(m: Member, rest: string, depth: nat)
    ensures NewLine(depth) + Laid(RenderMember(m, Compact) + rest, depth, false) == RenderMember(m, At(depth)) + Laid(rest, depth, false)
    decreases m, 3
  {
    hide Laid, Render, Quote;
    var k, v := Quote(m.key), Render(m.value, Compact);
    var pretty, l := Render(m.value, At(depth)), Laid(rest, depth, false);
    assert "" + k + ":" + v + rest == k + (":" + (v + rest));
    QuoteIsLaid(m.key, ":" + (v + rest), depth);
    ColonIsLaid(v + rest, depth);
    ValueIsLaid(m.value, rest, depth);
    assert NewLine(depth) + (k + (": " + (pretty + l))) == NewLine(depth) + k + ": " + pretty + l;
  }

  // The pretty text of any value is its compact text laid out.
  lemma PrettyIsLaidCompact(v: Json)
    ensures Render(v, Pretty("")) == Laid(Render(v, Compact), 0, false)
  {
    hide Render;
    ValueIsLaid(v, "", 0);
    assert Render(v, Compact) + "" == Render(v, Compact);
    assert Render(v, At(0)) + "" == Render(v, At(0));
  }

  // ---------------------------------------------------------------- what a quoted string may hold

  // A quote or a slash only behind a backslash, and no control byte.
  ghost predicate SafeAt(s: string, k: int)
    requires 0 <= k < |s|
  {
    s[k] >= ' ' && (s[k] == '"' || s[k] == '/' ==> k > 0 && s[k - 1] == '\\')
  }

  lemma {:induction false} EscapedIsSafe(s: string)
    ensures forall k :: 0 <= k < |Escape(s)| ==> SafeAt(Escape(s), k)
    decreases |s|
  {
    if s != "" {
      EscapedIsSafe(s[1..]);
      var e, r := EscapeByte(s[0]), Escape(s[1..]);
      assert forall k :: 0 <= k < |e| ==> SafeAt(e, k);
      forall k | 0 <= k < |e + r| ensures SafeAt(e + r, k) {
        if k < |e| {
          assert SafeAt(e, k);
        } else {
          assert SafeAt(r, k - |e|);
        }
      }
    }
  }
}
