// Reading back what the printers print.
module JsonRoundTrip {
  import opened Json
  import opened JsonLexer

  // ---------------------------------------------------------------- text at a place in the source

  ghost predicate At(src: string, i: nat, text: string) {
    i + |text| <= |src| && src[i..i + |text|] == text
  }

  lemma AtParts(src: string, i: nat, a: string, b: string)
    requires At(src, i, a + b)
    ensures At(src, i, a) && At(src, i + |a|, b)
  {
    var t := src[i..i + |a + b|];
    assert a == t[..|a|] && b == t[|a|..];
  }

  lemma AtChar(src: string, i: nat, text: string, k: nat)
    requires At(src, i, text) && k < |text|
    ensures i + k < |src| && CharAt(src, i + k) == text[k]
  {
    assert src[i..i + |text|][k] == src[i + k];
  }

  // ---------------------------------------------------------------- white space

  predicate IsSpace(c: char) {
    '\0' < c <= ' '
  }

  ghost predicate AllSpace(s: string) {
    forall k :: 0 <= k < |s| ==> IsSpace(s[k])
  }

  lemma {:induction false} CleanSkips(src: string, i: nat, gap: string)
    requires At(src, i, gap) && AllSpace(gap)
    ensures Clean(src, i) == Clean(src, i + |gap|)
    decreases |gap|
  {
    if gap != "" {
      AtChar(src, i, gap, 0);
      assert gap == gap[..1] + gap[1..];
      AtParts(src, i, gap[..1], gap[1..]);
      CleanSkips(src, i + 1, gap[1..]);
    }
  }

  lemma CleanFinds(src: string, i: nat)
    requires CharAt(src, i) > ' ' && CharAt(src, i) != '/'
    ensures Clean(src, i) == Ok(CharAt(src, i), i + 1)
  {
  }

  // ---------------------------------------------------------------- strings

  // What the printer can print and read back: no control byte but those with an escape of their own.
  predicate PrintableByte(c: char) {
    c >= ' ' || c == BACKSPACE || c == '\t' || c == '\n' || c == FORM_FEED || c == '\r'
  }

  predicate Printable(s: string) {
    forall k :: 0 <= k < |s| ==> PrintableByte(s[k])
  }

  // The escape of one printable byte is read as that byte.
  lemma EscapeReadsBack(src: string, i: nat, c: char, buf: string)
    requires PrintableByte(c) && At(src, i, EscapeByte(c))
    ensures StringFrom(src, i, '"', buf) == StringFrom(src, i + |EscapeByte(c)|, '"', buf + [c])
  {
    var e := EscapeByte(c);
    AtChar(src, i, e, 0);
    if |e| == 2 {
      AtChar(src, i, e, 1);
    }
  }

  lemma SplitEscape(src: string, i: nat, s: string)
    requires s != "" && At(src, i, Escape(s) + "\"")
    ensures var e := EscapeByte(s[0]);
      At(src, i, e) && At(src, i + |e|, Escape(s[1..]) + "\"") && |Escape(s)| == |e| + |Escape(s[1..])|
  {
    hide At, EscapeByte;
    Assoc(EscapeByte(s[0]), Escape(s[1..]), "\"");
    AtParts(src, i, EscapeByte(s[0]), Escape(s[1..]) + "\"");
  }

  lemma {:induction false} StringFromEscape(src: string, i: nat, s: string, buf: string)
    requires Printable(s) && At(src, i, Escape(s) + "\"")
    ensures StringFrom(src, i, '"', buf) == Ok(buf + s, i + |Escape(s)| + 1)
    decreases |s|
  {
    hide At, EscapeByte;
    if s == "" {
      AtChar(src, i, Escape(s) + "\"", 0);
      assert buf + s == buf;
    } else {
      SplitEscape(src, i, s);
      EscapeReadsBack(src, i, s[0], buf);
      StringFromEscape(src, i + |EscapeByte(s[0])|, s[1..], buf + [s[0]]);
      assert buf + [s[0]] + s[1..] == buf + s;
    }
  }

  // A run of characters of an escaped string that are no quotes and no backslashes stands for itself.
  lemma {:induction false} RunIsPlain(src: string, i: nat, s: string, m: nat)
    requires At(src, i, Escape(s) + "\"") && i + m <= |src|
    requires forall k :: i <= k < i + m ==> src[k] != '"' && src[k] != '\\'
    ensures m <= |s| && At(src, i + m, Escape(s[m..]) + "\"") && |Escape(s)| == m + |Escape(s[m..])|
    decreases m
  {
    hide At;
    if m == 0 {
      assert s[0..] == s;
    } else {
      AtChar(src, i, Escape(s) + "\"", 0);
      assert CharAt(src, i) == src[i];
      if s != "" {
        SplitEscape(src, i, s);
        AtChar(src, i, EscapeByte(s[0]), 0);
        RunIsPlain(src, i + 1, s[1..], m - 1);
        assert s[1..][m - 1..] == s[m..];
      }
    }
  }

  // Neither quotes nor backslashes are read as a number.
  lemma {:induction false} TrimmedIsBlank(s: string)
    ensures TrimEnd(s) <= s && forall k :: |TrimEnd(s)| <= k < |s| ==> IsBlank(s[k])
    decreases |s|
  {
    if s != "" && IsBlank(s[|s| - 1]) {
      TrimmedIsBlank(s[..|s| - 1]);
    }
  }

  lemma HexIsPlain(s: string)
    requires |s| == 4 && Hex4(s).Ok?
    ensures forall k :: 0 <= k < 4 ==> s[k] != '"' && s[k] != '\\'
  {
    var t := TrimEnd(s);
    TrimmedIsBlank(s);
    assert IsHex(t);
    forall k | 0 <= k < 4 ensures s[k] != '"' && s[k] != '\\' {
      assert k < |t| ==> s[k] == t[k] && HexAt(t, k);
      assert k >= |t| ==> IsBlank(s[k]);
    }
  }

  // A string that can be read ends where its text ends, and every control byte without an escape of
  // its own makes it shorter.
  lemma {:induction false} ControlBytesShrink(src: string, i: nat, s: string, buf: string)
    requires At(src, i, Escape(s) + "\"")
    ensures var r := StringFrom(src, i, '"', buf); !r.Unmodelled?
    ensures var r := StringFrom(src, i, '"', buf); r.Ok? ==> |r.value| <= |buf| + |s| && r.next == i + |Escape(s)| + 1
    ensures var r := StringFrom(src, i, '"', buf); r.Ok? && !Printable(s) ==> |r.value| < |buf| + |s|
    decreases |s|
  {
    hide At, EscapeByte, Utf8, Hex4;
    if s == "" {
      AtChar(src, i, Escape(s) + "\"", 0);
    } else {
      SplitEscape(src, i, s);
      var e := EscapeByte(s[0]);
      if PrintableByte(s[0]) {
        EscapeReadsBack(src, i, s[0], buf);
        ControlBytesShrink(src, i + |e|, s[1..], buf + [s[0]]);
        assert !Printable(s) ==> !Printable(s[1..]);
      } else {
        ControlIsU(src, i, s[0]);
        if i + 6 <= |src| && Hex4(src[i + 2..i + 6]).Ok? {
          var m := 6 - |e|;
          HexIsPlain(src[i + 2..i + 6]);
          assert forall x :: i + 2 <= x < i + 6 ==> src[x] == src[i + 2..i + 6][x - (i + 2)];
          RunIsPlain(src, i + |e|, s[1..], m);
          ControlBytesShrink(src, i + 6, s[1..][m..], buf + Utf8(Hex4(src[i + 2..i + 6]).value));
        }
      }
    }
  }

  lemma ControlIsU(src: string, i: nat, c: char)
    requires !PrintableByte(c) && At(src, i, EscapeByte(c))
    ensures 2 <= |EscapeByte(c)| <= 3 && CharAt(src, i) == '\\' && CharAt(src, i + 1) == 'u'
  {
    AtChar(src, i, EscapeByte(c), 0);
    AtChar(src, i, EscapeByte(c), 1);
  }

  // A printed string is read back as itself exactly when it holds no such control byte.
  lemma StringRoundTripsIff(s: string)
    ensures Value(Quote(s), 0) == Ok(Str(s), |Quote(s)|) <==> Printable(s)
  {
    var src := Quote(s);
    assert src[..|src|] == src;
    Assoc("\"", Escape(s), "\"");
    AtParts(src, 0, "\"", Escape(s) + "\"");
    AtChar(src, 0, "\"", 0);
    CleanFinds(src, 0);
    if Printable(s) {
      StringReadsBack(s, src, 0);
    } else {
      ControlBytesShrink(src, 1, s, "");
    }
  }

  // ---------------------------------------------------------------- bare words

  // A word may be followed by a line break, which the lexer takes for part of the word.
  ghost predicate EndsWord(src: string, k: nat) {
    Stops(CharAt(src, k)) || (CharAt(src, k) == '\n' && Stops(CharAt(src, k + 1)))
  }

  function AfterWord(src: string, k: nat): nat {
    if CharAt(src, k) == '\n' then k + 1 else k
  }

  predicate WordByte(c: char) {
    ('0' <= c <= '9') || c == '-' || ('a' <= c <= 'z')
  }

  ghost predicate IsWord(w: string) {
    w != "" && forall k :: 0 <= k < |w| ==> WordByte(w[k])
  }

  lemma {:induction false} WordEndSkips(src: string, i: nat, w: string)
    requires At(src, i, w) && forall k :: 0 <= k < |w| ==> WordByte(w[k])
    ensures WordEnd(src, i) == WordEnd(src, i + |w|)
    decreases |w|
  {
    if w != "" {
      AtChar(src, i, w, 0);
      assert w == w[..1] + w[1..];
      AtParts(src, i, w[..1], w[1..]);
      WordEndSkips(src, i + 1, w[1..]);
    }
  }

  lemma ReadWord(src: string, i: nat, w: string)
    requires IsWord(w) && At(src, i, w) && EndsWord(src, i + |w|)
    ensures Value(src, i) == WordValue(w, AfterWord(src, i + |w|))
  {
    hide Chomp, WordValue;
    var k := i + |w|;
    AtChar(src, i, w, 0);
    CleanFinds(src, i);
    WordEndSkips(src, i, w);
    assert WordEnd(src, i) == AfterWord(src, k);
    ChompWord(w);
    assert Word(src, i) == if CharAt(src, k) == '\n' then w + "\n" else w;
  }

  lemma ChompWord(w: string)
    requires IsWord(w)
    ensures Chomp(w) == w && Chomp(w + "\n") == w
  {
    assert WordByte(w[|w| - 1]);
    ChompNeedsLineEnd(w);
    ChompLineEnd(w);
  }

  lemma ChompLineEnd(w: string)
    requires w != "" && w[|w| - 1] != '\r'
    ensures Chomp(w + "\n") == w
  {
    var t := w + "\n";
    assert t[|t| - 2] == w[|w| - 1];
    assert t[|t| - 2..][0] == t[|t| - 2] && "\r\n"[0] == '\r';
    assert t[..|t| - 1] == w;
  }

  lemma {:induction false} NatTextReadsBack(n: nat)
    ensures IsPlain(NatText(n)) && DigitsValue(NatText(n)) == n && IsWord(NatText(n))
    ensures n > 0 ==> NatText(n)[0] != '0'
  {
    DigitReadsBack(n % 10);
    if n < 10 {
      assert [DigitChar(n)] == "" + [DigitChar(n)];
      AppendDigit("", n);
    } else {
      NatTextReadsBack(n / 10);
      AppendDigit(NatText(n / 10), n % 10);
    }
  }

  lemma DigitReadsBack(d: nat)
    requires d < 10
    ensures IsDigit(DigitChar(d)) && DigitValue(DigitChar(d)) == d && (d > 0 ==> DigitChar(d) != '0')
  {
  }

  lemma AppendDigit(t: string, d: nat)
    requires d < 10 && forall k :: 0 <= k < |t| ==> IsDigit(t[k])
    ensures var u := t + [DigitChar(d)];
      && (forall k :: 0 <= k < |u| ==> IsDigit(u[k]) && WordByte(u[k]))
      && DigitsValue(u) == DigitsValue(t) * 10 + d
  {
    DigitReadsBack(d);
    var u := t + [DigitChar(d)];
    assert u[..|t|] == t;
  }

  lemma NumericStart(t: string)
    requires t != "" && (t[0] == '-' || IsDigit(t[0]))
    ensures LooksNumeric(t)
  {
    assert NumericAt(t, 0);
  }

  lemma IntTextReadsBack(n: int, next: nat)
    ensures IsWord(IntText(n)) && WordValue(IntText(n), next) == Ok(Int(n), next)
  {
    var t := IntText(n);
    NatTextReadsBack(if n < 0 then -n else n);
    assert n < 0 ==> t[0] == '-' && t[1..] == NatText(-n);
    NumericStart(t);
    assert "true"[0] == 't' && "false"[0] == 'f' && "null"[0] == 'n';
  }

  // ---------------------------------------------------------------- the values that are read back

  ghost predicate Readable(v: Json)
    decreases v
  {
    match v
    case Str(s) => Printable(s)
    case Arr(items) => forall k :: 0 <= k < |items| ==> Readable(items[k])
    case Obj(members) =>
      && (forall k :: 0 <= k < |members| ==> Printable(members[k].key) && Readable(members[k].value))
      && DistinctKeys(members)
    case _ => true
  }

  ghost predicate DistinctKeys(members: seq<Member>) {
    forall i, j :: 0 <= i < j < |members| ==> members[i].key != members[j].key
  }

  predicate IsBare(v: Json) {
    v.Null? || v.Bool? || v.Int?
  }

  // Only a bare word needs something after it to end it.
  ghost predicate EndsValue(v: Json, src: string, k: nat) {
    IsBare(v) ==> EndsWord(src, k)
  }

  function AfterValue(v: Json, src: string, k: nat): nat {
    if IsBare(v) then AfterWord(src, k) else k
  }

  ghost predicate IsLayout(l: Layout) {
    l.Pretty? ==> forall k :: 0 <= k < |l.indent| ==> l.indent[k] == ' '
  }

  lemma {:induction false} PutNew(members: seq<Member>, key: string, v: Json)
    requires forall k :: 0 <= k < |members| ==> members[k].key != key
    ensures Put(members, key, v) == members + [Member(key, v)]
    decreases |members|
  {
    if members != [] {
      PutNew(members[1..], key, v);
      assert members == [members[0]] + members[1..];
    }
  }

  // The first byte of a printed value.
  lemma FirstByte(v: Json, l: Layout)
    ensures var t := Render(v, l); t != "" && t[0] > ' ' && t[0] !in "/]},:'"
  {
    if v.Int? {
      NatTextReadsBack(if v.n < 0 then -v.n else v.n);
    }
  }

  lemma ValueSkips(src: string, i: nat, gap: string)
    requires At(src, i, gap) && AllSpace(gap)
    ensures Value(src, i) == Value(src, i + |gap|)
  {
    CleanSkips(src, i, gap);
  }

  // The character after a value decides the next step, whether or not a line break was taken along.
  lemma CleanAfterValue(v: Json, src: string, k: nat)
    ensures Clean(src, AfterValue(v, src, k)) == Clean(src, k)
  {
  }

  lemma StringReadsBack(s: string, src: string, i: nat)
    requires Printable(s) && At(src, i, Quote(s))
    ensures Value(src, i) == Ok(Str(s), i + |Quote(s)|)
  {
    Assoc("\"", Escape(s), "\"");
    AtParts(src, i, "\"", Escape(s) + "\"");
    AtChar(src, i, Quote(s), 0);
    CleanFinds(src, i);
    StringFromEscape(src, i + 1, s, "");
    assert "" + s == s && |Quote(s)| == |Escape(s)| + 2;
  }

  lemma BareReadsBack(v: Json, l: Layout, src: string, i: nat)
    requires IsBare(v) && At(src, i, Render(v, l)) && EndsWord(src, i + |Render(v, l)|)
    ensures Value(src, i) == Ok(v, AfterWord(src, i + |Render(v, l)|))
  {
    hide Value, WordEnd, EndsWord, At;
    BareIsWord(v, l, AfterWord(src, i + |Render(v, l)|));
    ReadWord(src, i, Render(v, l));
  }

  lemma BareIsWord(v: Json, l: Layout, next: nat)
    requires IsBare(v)
    ensures IsWord(Render(v, l)) && WordValue(Render(v, l), next) == Ok(v, next)
  {
    match v {
      case Int(n) => IntTextReadsBack(n, next);
      case _ =>
    }
  }

  // ---------------------------------------------------------------- the round trip

  // The end of an array or object: the line break of its own level, then the bracket.
  ghost predicate IsClose(close: string, bracket: char) {
    exists l: Layout :: IsLayout(l) && close == Break(l) + [bracket]
  }

  lemma CloseIsFound(src: string, k: nat, close: string, bracket: char)
    requires IsClose(close, bracket) && At(src, k, close) && bracket > ' ' && bracket != '/' && Stops(bracket)
    ensures EndsWord(src, k) && Clean(src, k) == Ok(bracket, k + |close|)
  {
    hide Clean, At;
    var l: Layout :| IsLayout(l) && close == Break(l) + [bracket];
    BreakIsSpace(l);
    AtParts(src, k, Break(l), [bracket]);
    AtChar(src, k + |Break(l)|, [bracket], 0);
    CleanSkips(src, k, Break(l));
    CleanFinds(src, k + |Break(l)|);
    if l.Pretty? {
      AtChar(src, k, close, 0);
      AtChar(src, k, close, 1);
    }
  }

  lemma {:induction false} ValueReadsBack(v: Json, l: Layout, src: string, i: nat)
    requires Readable(v) && IsLayout(l) && At(src, i, Render(v, l)) && EndsValue(v, src, i + |Render(v, l)|)
    ensures Value(src, i) == Ok(v, AfterValue(v, src, i + |Render(v, l)|))
    decreases v, 1
  {
    hide At, Value, Clean, ArrayFrom, HashFrom, RenderItems, RenderMembers, Break, Quote, IntText, EndsWord;
    match v {
      case Str(s) => StringReadsBack(s, src, i);
      case Arr(items) =>
        if items == [] {
          EmptyReadsBack(src, i, "[]");
        } else {
          var text, close := RenderItems(items, Deeper(l)), Break(l) + "]";
          Assoc("[" + text, Break(l), "]");
          Assoc("[", text, close);
          AtParts(src, i, "[", text + close);
          assert IsClose(close, ']');
          ItemsReadBack(items, Deeper(l), close, src, i + 1, []);
          OpenArray(items, Deeper(l), close, src, i);
          assert [] + items == items;
        }
      case Obj(members) =>
        if members == [] {
          EmptyReadsBack(src, i, "{}");
        } else {
          var text, close := RenderMembers(members, Deeper(l)), Break(l) + "}";
          Assoc("{" + text, Break(l), "}");
          Assoc("{", text, close);
          AtParts(src, i, "{", text + close);
          assert IsClose(close, '}');
          assert [] + members == members;
          MembersReadBack(members, Deeper(l), close, src, i + 1, []);
          OpenHash(src, i);
        }
      case _ => BareReadsBack(v, l, src, i);
    }
  }

  lemma EmptyReadsBack(src: string, i: nat, t: string)
    requires (t == "[]" || t == "{}") && At(src, i, t)
    ensures Value(src, i) == Ok(if t == "[]" then Arr([]) else Obj([]), i + 2)
  {
    AtChar(src, i, t, 0);
    AtChar(src, i, t, 1);
    CleanFinds(src, i);
    CleanFinds(src, i + 1);
    assert t == "[]" ==> ArrayValue(src, i) == Ok(Arr([]), i + 2);
    assert t == "{}" ==> HashFrom(src, i + 1, []) == Ok(Obj([]), i + 2);
  }

  lemma OpenHash(src: string, i: nat)
    requires At(src, i, "{")
    ensures Value(src, i) == HashFrom(src, i + 1, [])
  {
    hide HashFrom, Clean;
    AtChar(src, i, "{", 0);
    CleanFinds(src, i);
  }

  // Behind the opening bracket the reader looks one character ahead and backs up.
  lemma OpenArray(items: seq<Json>, l: Layout, close: string, src: string, i: nat)
    requires items != [] && IsLayout(l) && At(src, i, "[") && At(src, i + 1, RenderItems(items, l) + close)
    ensures Value(src, i) == ArrayFrom(src, i + 1, [])
  {
    hide ArrayFrom, Clean, RenderItems;
    AtChar(src, i, "[", 0);
    CleanFinds(src, i);
    LookAhead(items, l, close, src, i + 1, []);
  }

  lemma LookAhead(items: seq<Json>, l: Layout, close: string, src: string, i: nat, acc: seq<Json>)
    requires items != [] && IsLayout(l) && At(src, i, RenderItems(items, l) + close)
    ensures Clean(src, i).Ok? && Clean(src, i).value != ']'
    ensures ArrayFrom(src, Before(Clean(src, i).next), acc) == ArrayFrom(src, i, acc)
  {
    hide At, ArrayFrom, Value, Clean, RenderItems, Render, EndsWord, Break, ItemsTail, IsLayout, AllSpace;
    var b, r, tail := Break(l), Render(items[0], l), ItemsTail(items, l, close);
    SplitItems(items, l, close);
    AtParts(src, i, b, r + tail);
    AtParts(src, i + |b|, r, tail);
    FirstByte(items[0], l);
    AtChar(src, i + |b|, r, 0);
    BreakIsSpace(l);
    CleanSkips(src, i, b);
    CleanFinds(src, i + |b|);
    ValueSkips(src, i, b);
    SameFirstElement(src, i, i + |b|, acc);
  }

  lemma BreakIsSpace(l: Layout)
    requires IsLayout(l)
    ensures AllSpace(Break(l)) && IsLayout(Deeper(l))
  {
  }

  lemma SameFirstElement(src: string, i: nat, j: nat, acc: seq<Json>)
    requires Value(src, i) == Value(src, j)
    ensures ArrayFrom(src, i, acc) == ArrayFrom(src, j, acc)
  {
    hide Value, Clean;
  }

  ghost function ItemsTail(items: seq<Json>, l: Layout, close: string): string
    requires items != []
  {
    if |items| == 1 then close else "," + (RenderItems(items[1..], l) + close)
  }

  lemma SplitItems(items: seq<Json>, l: Layout, close: string)
    requires items != []
    ensures RenderItems(items, l) + close == Break(l) + (Render(items[0], l) + ItemsTail(items, l, close))
  {
    hide Break, Render;
    SplitRest(Break(l), Render(items[0], l), if |items| == 1 then "" else RenderItems(items[1..], l), close, |items| == 1);
  }

  lemma SplitRest(b: string, r: string, rest: string, close: string, last: bool)
    ensures ((b + r) + (if last then "" else "," + rest)) + close == b + (r + if last then close else "," + (rest + close))
  {
    if last {
      assert (b + r) + "" == b + r;
      Assoc(b, r, close);
    } else {
      Assoc(b + r, "," + rest, close);
      Assoc(",", rest, close);
      Assoc(b, r, "," + (rest + close));
    }
  }

  // Either the closing bracket or a comma ends the element before it.
  lemma TailIsFound(src: string, k: nat, tail: string, rest: string, close: string, bracket: char, last: bool)
    requires IsClose(close, bracket) && bracket > ' ' && bracket != '/' && Stops(bracket)
    requires tail == (if last then close else "," + rest) && At(src, k, tail)
    ensures EndsWord(src, k)
    ensures Clean(src, k) == if last then Ok(bracket, k + |close|) else Ok(',', k + 1)
    ensures !last ==> At(src, k + 1, rest)
  {
    hide Clean;
    if last {
      CloseIsFound(src, k, close, bracket);
    } else {
      AtParts(src, k, ",", rest);
      AtChar(src, k, tail, 0);
      CleanFinds(src, k);
    }
  }

  lemma {:induction false} ItemsReadBack(items: seq<Json>, l: Layout, close: string, src: string, i: nat, acc: seq<Json>)
    requires items != [] && (forall k :: 0 <= k < |items| ==> Readable(items[k])) && IsLayout(l) && IsClose(close, ']')
    requires At(src, i, RenderItems(items, l) + close)
    ensures ArrayFrom(src, i, acc) == Ok(Arr(acc + items), i + |RenderItems(items, l) + close|)
    decreases items, 1
  {
    hide At, Value, Clean, ArrayFrom, RenderItems, Render, EndsWord, Break, IsClose, Readable, IsLayout, AllSpace;
    var v := items[0];
    var k := ItemReadsBack(items, l, close, src, i);
    ArrayStep(src, i, acc, v, AfterValue(v, src, k));
    if |items| == 1 {
      assert acc + items == acc + [v];
    } else {
      LookAhead(items[1..], l, close, src, k + 1, acc + [v]);
      ItemsReadBack(items[1..], l, close, src, k + 1, acc + [v]);
      assert acc + items == (acc + [v]) + items[1..];
    }
  }

  // Reading one element: k is the index behind its text.
  lemma {:induction false} ItemReadsBack(items: seq<Json>, l: Layout, close: string, src: string, i: nat) returns (k: nat)
    requires items != [] && Readable(items[0]) && IsLayout(l) && IsClose(close, ']')
    requires At(src, i, RenderItems(items, l) + close)
    ensures Value(src, i) == Ok(items[0], AfterValue(items[0], src, k))
    ensures Clean(src, AfterValue(items[0], src, k)) == Clean(src, k)
    ensures |items| == 1 ==> Clean(src, k) == Ok(']', i + |RenderItems(items, l) + close|)
    ensures |items| > 1 ==> Clean(src, k) == Ok(',', k + 1) && At(src, k + 1, RenderItems(items[1..], l) + close)
    ensures |items| > 1 ==> k + 1 + |RenderItems(items[1..], l) + close| == i + |RenderItems(items, l) + close|
    decreases items, 0
  {
    hide At, Value, Clean, ArrayFrom, RenderItems, Render, EndsWord, Break, IsClose, Readable, IsLayout, AllSpace;
    var v, b, tail := items[0], Break(l), ItemsTail(items, l, close);
    k := ItemPlaces(items, l, close, src, i);
    var rest := if |items| == 1 then "" else RenderItems(items[1..], l) + close;
    TailIsFound(src, k, tail, rest, close, ']', |items| == 1);
    BreakIsSpace(l);
    ValueSkips(src, i, b);
    ValueReadsBack(v, l, src, i + |b|);
    CleanAfterValue(v, src, k);
  }

  lemma ItemPlaces(items: seq<Json>, l: Layout, close: string, src: string, i: nat) returns (k: nat)
    requires items != [] && At(src, i, RenderItems(items, l) + close)
    ensures k == i + |Break(l)| + |Render(items[0], l)|
    ensures At(src, i, Break(l)) && At(src, i + |Break(l)|, Render(items[0], l)) && At(src, k, ItemsTail(items, l, close))
    ensures k + |ItemsTail(items, l, close)| == i + |RenderItems(items, l) + close|
  {
    hide At, RenderItems, Render, Break, ItemsTail;
    var b, r, tail := Break(l), Render(items[0], l), ItemsTail(items, l, close);
    k := i + |b| + |r|;
    SplitItems(items, l, close);
    AtParts(src, i, b, r + tail);
    AtParts(src, i + |b|, r, tail);
  }

  // One turn of the loop that reads an array.
  lemma ArrayStep(src: string, i: nat, acc: seq<Json>, v: Json, j: nat)
    requires Value(src, i) == Ok(v, j) && Clean(src, j).Ok?
    ensures var c := Clean(src, j);
      && (c.value == ']' ==> ArrayFrom(src, i, acc) == Ok(Arr(acc + [v]), c.next))
      && (c.value == ',' && Clean(src, c.next).Ok? && Clean(src, c.next).value != ']'
          ==> ArrayFrom(src, i, acc) == ArrayFrom(src, Before(Clean(src, c.next).next), acc + [v]))
  {
    hide Value, Clean;
  }

  // One turn of the loop that reads an object.
  lemma HashStep(src: string, i: nat, acc: seq<Member>, key: string, v: Json, k: nat, m: nat)
    requires Clean(src, i).Ok? && Clean(src, i).value != '}'
    requires Value(src, Before(Clean(src, i).next)) == Ok(Str(key), k)
    requires Clean(src, k) == Ok(':', k + 1) && Value(src, k + 1) == Ok(v, m) && Clean(src, m).Ok?
    ensures var c := Clean(src, m);
      && (c.value == '}' ==> HashFrom(src, i, acc) == Ok(Obj(Put(acc, key, v)), c.next))
      && (c.value == ',' && Clean(src, c.next).Ok? && Clean(src, c.next).value != '}'
          ==> HashFrom(src, i, acc) == HashFrom(src, Before(Clean(src, c.next).next), Put(acc, key, v)))
  {
    hide Value, Clean, Put;
  }

  ghost function MembersTail(members: seq<Member>, l: Layout, close: string): string
    requires members != []
  {
    if |members| == 1 then close else "," + (RenderMembers(members[1..], l) + close)
  }

  lemma SplitMembers(members: seq<Member>, l: Layout, close: string)
    requires members != []
    ensures RenderMembers(members, l) + close == Break(l) + (Quote(members[0].key)
            + (Colon(l) + (Render(members[0].value, l) + MembersTail(members, l, close))))
  {
    hide Break, Render, Colon, Quote;
    var m := members[0];
    var rest := if |members| == 1 then "" else RenderMembers(members[1..], l);
    SplitRest(Break(l) + Quote(m.key) + Colon(l), Render(m.value, l), rest, close, |members| == 1);
    var end := Render(m.value, l) + MembersTail(members, l, close);
    Assoc(Break(l) + Quote(m.key), Colon(l), end);
    Assoc(Break(l), Quote(m.key), Colon(l) + end);
  }

  // A colon, perhaps with a space behind it, and then the value.
  lemma ColonIsFound(l: Layout, src: string, i: nat)
    requires At(src, i, Colon(l))
    ensures Clean(src, i) == Ok(':', i + 1) && Value(src, i + 1) == Value(src, i + |Colon(l)|)
  {
    hide Value, Clean;
    AtChar(src, i, Colon(l), 0);
    CleanFinds(src, i);
    if l.Pretty? {
      assert Colon(l) == ":" + " ";
      AtParts(src, i, ":", " ");
      ValueSkips(src, i + 1, " ");
    }
  }

  lemma {:induction false} MembersReadBack(members: seq<Member>, l: Layout, close: string, src: string, i: nat, acc: seq<Member>)
    requires members != [] && IsLayout(l) && IsClose(close, '}')
    requires forall k :: 0 <= k < |members| ==> Printable(members[k].key) && Readable(members[k].value)
    requires DistinctKeys(acc + members)
    requires At(src, i, RenderMembers(members, l) + close)
    ensures HashFrom(src, i, acc) == Ok(Obj(acc + members), i + |RenderMembers(members, l) + close|)
    decreases members, 2
  {
    hide At, Value, Clean, HashFrom, RenderMembers, Render, EndsWord, Break, Quote, Colon, IsClose, Readable, Put;
    var m, last := members[0], |members| == 1;
    var p, k := MemberReadsBack(members, l, close, src, i);
    FreshKey(acc, members);
    PutNew(acc, m.key, m.value);
    HashStep(src, i, acc, m.key, m.value, p, AfterValue(m.value, src, k));
    if last {
      assert acc + members == acc + [m];
    } else {
      NextMember(members[1..], l, close, src, k + 1, acc + [m]);
      assert acc + members == (acc + [m]) + members[1..];
      MembersReadBack(members[1..], l, close, src, k + 1, acc + [m]);
    }
  }

  lemma FreshKey(acc: seq<Member>, members: seq<Member>)
    requires members != [] && DistinctKeys(acc + members)
    ensures forall j :: 0 <= j < |acc| ==> acc[j].key != members[0].key
  {
    var all := acc + members;
    assert forall j :: 0 <= j < |acc| ==> all[j] == acc[j] && all[|acc|] == members[0];
  }

  // Reading one member: p is the index behind its key, k the index behind its text.
  lemma {:induction false} MemberReadsBack(members: seq<Member>, l: Layout, close: string, src: string, i: nat) returns (p: nat, k: nat)
    requires members != [] && IsLayout(l) && IsClose(close, '}')
    requires Printable(members[0].key) && Readable(members[0].value)
    requires At(src, i, RenderMembers(members, l) + close)
    ensures Clean(src, i) == Ok('"', i + |Break(l)| + 1)
    ensures Value(src, i + |Break(l)|) == Ok(Str(members[0].key), p)
    ensures Clean(src, p) == Ok(':', p + 1) && Value(src, p + 1) == Ok(members[0].value, AfterValue(members[0].value, src, k))
    ensures Clean(src, AfterValue(members[0].value, src, k)) == Clean(src, k)
    ensures |members| == 1 ==> Clean(src, k) == Ok('}', i + |RenderMembers(members, l) + close|)
    ensures |members| > 1 ==> Clean(src, k) == Ok(',', k + 1) && At(src, k + 1, RenderMembers(members[1..], l) + close)
    ensures |members| > 1 ==> k + 1 + |RenderMembers(members[1..], l) + close| == i + |RenderMembers(members, l) + close|
    decreases members, 1
  {
    hide At, Value, Clean, HashFrom, RenderMembers, Render, EndsWord, Break, Quote, Colon, IsClose, Readable, IsLayout, AllSpace, Printable;
    p, k := MemberPlaces(members, l, close, src, i);
    KeyReadsBack(members[0].key, l, src, i);
    ColonIsFound(l, src, p);
    MemberValueReadsBack(members, l, close, src, p + |Colon(l)|, k);
  }

  lemma {:induction false} MemberValueReadsBack(members: seq<Member>, l: Layout, close: string, src: string, j: nat, k: nat)
    requires members != [] && IsLayout(l) && IsClose(close, '}') && Readable(members[0].value)
    requires k == j + |Render(members[0].value, l)|
    requires At(src, j, Render(members[0].value, l)) && At(src, k, MembersTail(members, l, close))
    ensures Value(src, j) == Ok(members[0].value, AfterValue(members[0].value, src, k))
    ensures Clean(src, AfterValue(members[0].value, src, k)) == Clean(src, k)
    ensures |members| == 1 ==> Clean(src, k) == Ok('}', k + |close|)
    ensures |members| > 1 ==> Clean(src, k) == Ok(',', k + 1) && At(src, k + 1, RenderMembers(members[1..], l) + close)
    decreases members, 0
  {
    hide At, Value, Clean, RenderMembers, Render, EndsWord, IsClose, Readable, IsLayout;
    var rest := if |members| == 1 then "" else RenderMembers(members[1..], l) + close;
    TailIsFound(src, k, MembersTail(members, l, close), rest, close, '}', |members| == 1);
    ValueReadsBack(members[0].value, l, src, j);
    CleanAfterValue(members[0].value, src, k);
  }

  lemma MemberPlaces(members: seq<Member>, l: Layout, close: string, src: string, i: nat) returns (p: nat, k: nat)
    requires members != [] && At(src, i, RenderMembers(members, l) + close)
    ensures p == i + |Break(l)| + |Quote(members[0].key)| && k == p + |Colon(l)| + |Render(members[0].value, l)|
    ensures At(src, i, Break(l)) && At(src, i + |Break(l)|, Quote(members[0].key)) && At(src, p, Colon(l))
    ensures At(src, p + |Colon(l)|, Render(members[0].value, l)) && At(src, k, MembersTail(members, l, close))
    ensures k + |MembersTail(members, l, close)| == i + |RenderMembers(members, l) + close|
  {
    hide At, RenderMembers, Render, Break, Quote, Colon, MembersTail;
    var b, q, c := Break(l), Quote(members[0].key), Colon(l);
    var r, tail := Render(members[0].value, l), MembersTail(members, l, close);
    p := i + |b| + |q|;
    k := p + |c| + |r|;
    SplitMembers(members, l, close);
    AtParts(src, i, b, q + (c + (r + tail)));
    AtParts(src, i + |b|, q, c + (r + tail));
    AtParts(src, p, c, r + tail);
    AtParts(src, p + |c|, r, tail);
  }

  // The quote that opens a key is found.
  lemma KeyIsFound(key: string, l: Layout, src: string, i: nat)
    requires IsLayout(l) && At(src, i, Break(l)) && At(src, i + |Break(l)|, Quote(key))
    ensures Clean(src, i) == Ok('"', i + |Break(l)| + 1)
    ensures Clean(src, i) == Clean(src, i + |Break(l)|)
  {
    hide At, Clean, Break;
    var j := i + |Break(l)|;
    BreakIsSpace(l);
    CleanSkips(src, i, Break(l));
    AtChar(src, j, Quote(key), 0);
    CleanFinds(src, j);
  }

  lemma KeyReadsBack(key: string, l: Layout, src: string, i: nat)
    requires Printable(key) && IsLayout(l) && At(src, i, Break(l)) && At(src, i + |Break(l)|, Quote(key))
    ensures Clean(src, i) == Ok('"', i + |Break(l)| + 1)
    ensures Value(src, i + |Break(l)|) == Ok(Str(key), i + |Break(l)| + |Quote(key)|)
  {
    hide At, Value, Clean, Break;
    KeyIsFound(key, l, src, i);
    StringReadsBack(key, src, i + |Break(l)|);
  }

  // Behind a comma the reader looks one character ahead and backs up.
  lemma NextMember(members: seq<Member>, l: Layout, close: string, src: string, i: nat, acc: seq<Member>)
    requires members != [] && IsLayout(l) && At(src, i, RenderMembers(members, l) + close)
    ensures Clean(src, i).Ok? && Clean(src, i).value != '}'
    ensures HashFrom(src, Before(Clean(src, i).next), acc) == HashFrom(src, i, acc)
  {
    hide At, Value, Clean, RenderMembers, Render, Break, Quote, Colon;
    var m := members[0];
    SplitMembers(members, l, close);
    var end := Colon(l) + (Render(m.value, l) + MembersTail(members, l, close));
    AtParts(src, i, Break(l), Quote(m.key) + end);
    AtParts(src, i + |Break(l)|, Quote(m.key), end);
    KeyIsFound(m.key, l, src, i);
    var j := i + |Break(l)|;
    SameFirstMember(src, i, j, acc);
  }

  lemma SameFirstMember(src: string, i: nat, j: nat, acc: seq<Member>)
    requires Clean(src, i) == Clean(src, j)
    ensures HashFrom(src, i, acc) == HashFrom(src, j, acc)
  {
    hide Value, Clean;
  }

  // parse(to_json(v)) and parse(pretty_generate(v)) give back v and leave the lexer at the end.
  lemma ParseRoundTrip(v: Json)
    requires Readable(v)
    ensures Value(Render(v, Compact), 0) == Ok(v, |Render(v, Compact)|)
    ensures Value(Render(v, Pretty("")), 0) == Ok(v, |Render(v, Pretty(""))|)
  {
    TextReadsBack(v, Compact);
    TextReadsBack(v, Pretty(""));
  }

  lemma TextReadsBack(v: Json, l: Layout)
    requires Readable(v) && IsLayout(l)
    ensures Value(Render(v, l), 0) == Ok(v, |Render(v, l)|)
  {
    hide Value, Render;
    var t := Render(v, l);
    assert t[..|t|] == t && CharAt(t, |t|) == '\0';
    ValueReadsBack(v, l, t, 0);
  }

  // ---------------------------------------------------------------- nothing else is read back

  // At any place of a text: a printed string that can be read at all ends where its text ends, and is
  // itself only when it is printable.
  lemma StringReadsOnlyPrintable(s: string, src: string, i: nat)
    requires At(src, i, Quote(s))
    ensures var r := Value(src, i); !r.Unmodelled? && (r.Ok? ==> r.next == i + |Quote(s)| && r.value.Str? && (r.value == Str(s) ==> Printable(s)))
  {
    Assoc("\"", Escape(s), "\"");
    AtParts(src, i, "\"", Escape(s) + "\"");
    AtChar(src, i, Quote(s), 0);
    CleanFinds(src, i);
    ControlBytesShrink(src, i + 1, s, "");
    assert |Quote(s)| == |Escape(s)| + 2;
  }

  // The same for values: the structure is always kept, only strings get shorter.
  lemma {:induction false} ValueReadsOnlyReadable(v: Json, l: Layout, src: string, i: nat)
    requires IsLayout(l) && At(src, i, Render(v, l)) && EndsValue(v, src, i + |Render(v, l)|)
    ensures var r := Value(src, i);
      !r.Unmodelled? && (r.Ok? ==> r.next == AfterValue(v, src, i + |Render(v, l)|) && (r.value == v ==> Readable(v)))
    decreases v, 1
  {
    hide At, Value, Clean, ArrayFrom, HashFrom, RenderItems, RenderMembers, Break, Quote, IntText, EndsWord;
    match v {
      case Str(s) => StringReadsOnlyPrintable(s, src, i);
      case Arr(items) =>
        if items != [] {
          var text, close := RenderItems(items, Deeper(l)), Break(l) + "]";
          Assoc("[" + text, Break(l), "]");
          Assoc("[", text, close);
          AtParts(src, i, "[", text + close);
          assert IsClose(close, ']');
          ItemsReadOnlyReadable(items, Deeper(l), close, src, i + 1, []);
          OpenArray(items, Deeper(l), close, src, i);
          assert [] + items == items;
        } else {
          EmptyReadsBack(src, i, "[]");
        }
      case Obj(members) =>
        if members != [] {
          var text, close := RenderMembers(members, Deeper(l)), Break(l) + "}";
          Assoc("{" + text, Break(l), "}");
          Assoc("{", text, close);
          AtParts(src, i, "{", text + close);
          assert IsClose(close, '}');
          assert [] + members == members;
          MembersReadOnlyReadable(members, Deeper(l), close, src, i + 1, []);
          OpenHash(src, i);
        } else {
          EmptyReadsBack(src, i, "{}");
        }
      case _ => BareReadsBack(v, l, src, i);
    }
  }

  lemma {:induction false} ItemsReadOnlyReadable(items: seq<Json>, l: Layout, close: string, src: string, i: nat, acc: seq<Json>)
    requires items != [] && IsLayout(l) && IsClose(close, ']') && At(src, i, RenderItems(items, l) + close)
    ensures !ArrayFrom(src, i, acc).Unmodelled?
    ensures var r := ArrayFrom(src, i, acc); r.Ok? ==>
      && r.next == i + |RenderItems(items, l) + close| && r.value.Arr? && |r.value.items| == |acc| + |items|
      && r.value.items[..|acc|] == acc
      && (r.value.items == acc + items ==> forall k :: 0 <= k < |items| ==> Readable(items[k]))
    decreases items, 1
  {
    hide At, Value, Clean, ArrayFrom, RenderItems, Render, EndsWord, Break, IsClose, Readable, IsLayout, AllSpace;
    var k := ItemReadsOnlyReadable(items, l, close, src, i);
    var x := Value(src, i);
    if !x.Ok? {
      ArrayNeedsValue(src, i, acc);
    } else {
      ArrayStep(src, i, acc, x.value, x.next);
      if |items| > 1 {
        var next := acc + [x.value];
        LookAhead(items[1..], l, close, src, k + 1, next);
        ItemsReadOnlyReadable(items[1..], l, close, src, k + 1, next);
        ArrayPrefix(ArrayFrom(src, i, acc), items, acc, x.value);
      }
    }
  }

  lemma ArrayNeedsValue(src: string, i: nat, acc: seq<Json>)
    requires Value(src, i).Raise?
    ensures ArrayFrom(src, i, acc).Raise?
  {
    hide Value, Clean;
  }

  // What the rest of an array says of its first element.
  lemma ArrayPrefix(r: Parsed<Json>, items: seq<Json>, acc: seq<Json>, x: Json)
    requires items != [] && (r.Ok? ==> r.value.Arr? && |r.value.items| == |acc| + |items| && r.value.items[..|acc| + 1] == acc + [x])
    ensures r.Ok? ==> r.value.items[..|acc|] == acc
    ensures r.Ok? && r.value.items == acc + items ==> x == items[0] && r.value.items == acc + [x] + items[1..]
  {
    if r.Ok? {
      var all := r.value.items;
      assert all[..|acc| + 1][..|acc|] == all[..|acc|] && all[..|acc| + 1][|acc|] == all[|acc|];
    }
  }

  lemma {:induction false} ItemReadsOnlyReadable(items: seq<Json>, l: Layout, close: string, src: string, i: nat) returns (k: nat)
    requires items != [] && IsLayout(l) && IsClose(close, ']') && At(src, i, RenderItems(items, l) + close)
    ensures var r := Value(src, i);
      !r.Unmodelled? && (r.Ok? ==> r.next == AfterValue(items[0], src, k) && (r.value == items[0] ==> Readable(items[0])))
    ensures Clean(src, AfterValue(items[0], src, k)) == Clean(src, k)
    ensures |items| == 1 ==> Clean(src, k) == Ok(']', i + |RenderItems(items, l) + close|)
    ensures |items| > 1 ==> Clean(src, k) == Ok(',', k + 1) && At(src, k + 1, RenderItems(items[1..], l) + close)
    ensures |items| > 1 ==> k + 1 + |RenderItems(items[1..], l) + close| == i + |RenderItems(items, l) + close|
    decreases items, 0
  {
    hide At, Value, Clean, ArrayFrom, RenderItems, Render, EndsWord, Break, IsClose, Readable, IsLayout, AllSpace;
    var v, b, tail := items[0], Break(l), ItemsTail(items, l, close);
    k := ItemPlaces(items, l, close, src, i);
    var rest := if |items| == 1 then "" else RenderItems(items[1..], l) + close;
    TailIsFound(src, k, tail, rest, close, ']', |items| == 1);
    BreakIsSpace(l);
    ValueSkips(src, i, b);
    ValueReadsOnlyReadable(v, l, src, i + |b|);
    CleanAfterValue(v, src, k);
  }

  ghost predicate MembersReadable(members: seq<Member>) {
    forall k :: 0 <= k < |members| ==> Printable(members[k].key) && Readable(members[k].value)
  }

  // Keys only get shorter, too: one that changes is put at another place, or leaves a member out.
  lemma {:induction false} MembersReadOnlyReadable(members: seq<Member>, l: Layout, close: string, src: string, i: nat, acc: seq<Member>)
    requires members != [] && IsLayout(l) && IsClose(close, '}') && At(src, i, RenderMembers(members, l) + close)
    requires DistinctKeys(acc)
    ensures !HashFrom(src, i, acc).Unmodelled?
    ensures var r := HashFrom(src, i, acc); r.Ok? ==>
      && r.next == i + |RenderMembers(members, l) + close| && r.value.Obj? && HashReads(r.value.members, acc, members)
    decreases members, 2
  {
    hide At, Value, Clean, HashFrom, RenderMembers, Render, EndsWord, Break, Quote, Colon, IsClose, Readable, Put, HashReads, DistinctKeys;
    var m := members[0];
    var p, k := MemberReadsOnlyReadable(members, l, close, src, i);
    var key, x := Value(src, i + |Break(l)|), Value(src, p + 1);
    if !key.Ok? || !x.Ok? {
      HashNeedsValues(src, i, acc, i + |Break(l)|, p);
    } else {
      var next := Put(acc, key.value.s, x.value);
      HashStep(src, i, acc, key.value.s, x.value, p, x.next);
      PutKeepsKeys(acc, key.value.s, x.value);
      if |members| == 1 {
        LastHashReads(acc, m, key.value.s, x.value);
        assert members == [m];
      } else {
        NextMember(members[1..], l, close, src, k + 1, next);
        MembersReadOnlyReadable(members[1..], l, close, src, k + 1, next);
        var r := HashFrom(src, i, acc);
        if r.Ok? {
          NextHashReads(r.value.members, acc, members, key.value.s, x.value);
        }
      }
    }
  }

  // What the members read into all say of those printed: all has no more of them, and when it is what
  // was to be read, they are readable and their keys differ.
  ghost predicate HashReads(all: seq<Member>, acc: seq<Member>, members: seq<Member>) {
    && |acc| <= |all| <= |acc| + |members| && DistinctKeys(all)
    && (forall j :: 0 <= j < |acc| ==> all[j].key == acc[j].key)
    && (|all| == |acc| + |members| ==> all[..|acc|] == acc)
    && (all == acc + members ==> MembersReadable(members))
  }

  lemma HashNeedsValues(src: string, i: nat, acc: seq<Member>, j: nat, p: nat)
    requires Clean(src, i) == Ok('"', j + 1) && (Value(src, j).Ok? ==> Value(src, j).next == p && Clean(src, p) == Ok(':', p + 1))
    requires Value(src, j).Raise? || (Value(src, j).Ok? && Value(src, j).value.Str? && Value(src, p + 1).Raise?)
    ensures HashFrom(src, i, acc).Raise?
  {
    hide Value, Clean;
  }

  lemma PutKeepsKeys(acc: seq<Member>, key: string, v: Json)
    requires DistinctKeys(acc)
    ensures var next := Put(acc, key, v);
      && DistinctKeys(next) && |acc| <= |next| <= |acc| + 1 && (forall j :: 0 <= j < |acc| ==> next[j].key == acc[j].key)
      && (|next| == |acc| + 1 ==> next == acc + [Member(key, v)])
  {
    hide Put;
    if j :| 0 <= j < |acc| && acc[j].key == key {
      PutOld(acc, key, v, j);
    } else {
      PutNew(acc, key, v);
    }
  }

  lemma {:induction false} PutOld(acc: seq<Member>, key: string, v: Json, j: nat)
    requires DistinctKeys(acc) && j < |acc| && acc[j].key == key
    ensures Put(acc, key, v) == acc[j := Member(key, v)]
    decreases j
  {
    if j > 0 {
      PutOld(acc[1..], key, v, j - 1);
      assert acc == [acc[0]] + acc[1..];
    }
  }

  lemma LastHashReads(acc: seq<Member>, m: Member, key: string, v: Json)
    requires DistinctKeys(acc) && (key == m.key ==> Printable(m.key)) && (v == m.value ==> Readable(m.value))
    ensures HashReads(Put(acc, key, v), acc, [m])
  {
    hide Put, Printable, Readable;
    PutKeepsKeys(acc, key, v);
    var all := Put(acc, key, v);
    if all == acc + [m] {
      assert all[|acc|] == m;
    }
  }

  lemma NextHashReads(all: seq<Member>, acc: seq<Member>, members: seq<Member>, key: string, v: Json)
    requires DistinctKeys(acc) && members != [] && HashReads(all, Put(acc, key, v), members[1..])
    requires (key == members[0].key ==> Printable(key)) && (v == members[0].value ==> Readable(v))
    ensures HashReads(all, acc, members)
  {
    hide Put, Printable, Readable;
    PutKeepsKeys(acc, key, v);
    var next := Put(acc, key, v);
    if |all| == |acc| + |members| {
      assert all[..|acc| + 1] == next;
      assert all[..|acc|] == next[..|acc|] == acc;
      assert all[|acc|] == next[|acc|] == Member(key, v);
      if all == acc + members {
        assert all == next + members[1..];
      }
    }
  }

  // Reading one member, as far as it can be read.
  lemma {:induction false} MemberReadsOnlyReadable(members: seq<Member>, l: Layout, close: string, src: string, i: nat) returns (p: nat, k: nat)
    requires members != [] && IsLayout(l) && IsClose(close, '}') && At(src, i, RenderMembers(members, l) + close)
    ensures Clean(src, i) == Ok('"', i + |Break(l)| + 1) && Clean(src, p) == Ok(':', p + 1)
    ensures var key, m := Value(src, i + |Break(l)|), members[0];
      !key.Unmodelled? && (key.Ok? ==> key.next == p && key.value.Str? && (key.value.s == m.key ==> Printable(m.key)))
    ensures var r, v := Value(src, p + 1), members[0].value;
      !r.Unmodelled? && (r.Ok? ==> r.next == AfterValue(v, src, k) && (r.value == v ==> Readable(v)))
    ensures Clean(src, AfterValue(members[0].value, src, k)) == Clean(src, k)
    ensures |members| == 1 ==> Clean(src, k) == Ok('}', i + |RenderMembers(members, l) + close|)
    ensures |members| > 1 ==> Clean(src, k) == Ok(',', k + 1) && At(src, k + 1, RenderMembers(members[1..], l) + close)
    ensures |members| > 1 ==> k + 1 + |RenderMembers(members[1..], l) + close| == i + |RenderMembers(members, l) + close|
    decreases members, 1
  {
    hide At, Value, Clean, HashFrom, RenderMembers, Render, EndsWord, Break, Quote, Colon, IsClose, Readable, IsLayout, AllSpace, Printable;
    p, k := MemberPlaces(members, l, close, src, i);
    KeyIsFound(members[0].key, l, src, i);
    StringReadsOnlyPrintable(members[0].key, src, i + |Break(l)|);
    ColonIsFound(l, src, p);
    var rest := if |members| == 1 then "" else RenderMembers(members[1..], l) + close;
    TailIsFound(src, k, MembersTail(members, l, close), rest, close, '}', |members| == 1);
    ValueReadsOnlyReadable(members[0].value, l, src, p + |Colon(l)|);
    CleanAfterValue(members[0].value, src, k);
  }

  // Every value, in every layout: reading its text gives it back exactly when it is readable, that is
  // when its strings are printable and the keys of its objects differ.
  lemma RoundTripsIff(v: Json, l: Layout)
    requires IsLayout(l)
    ensures Value(Render(v, l), 0) == Ok(v, |Render(v, l)|) <==> Readable(v)
    ensures !Value(Render(v, l), 0).Unmodelled?
  {
    hide Value, Render, Readable;
    var t := Render(v, l);
    assert t[..|t|] == t && CharAt(t, |t|) == '\0';
    ValueReadsOnlyReadable(v, l, t, 0);
    if Readable(v) {
      TextReadsBack(v, l);
    }
  }
}
