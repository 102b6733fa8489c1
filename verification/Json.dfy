// JSON values and the two printers of the Ruby client. A string is a sequence of bytes, one per char.
module Json {
  datatype Json =
    | Null
    | Bool(b: bool)
    | Int(n: int)
    | Str(s: string)
    | Arr(items: seq<Json>)
    | Obj(members: seq<Member>)

  datatype Member = Member(key: string, value: Json)

  const BACKSPACE := 8 as char
  const FORM_FEED := 12 as char

  // ---------------------------------------------------------------- what the printers print

  function HexDigit(n: nat): char
    requires n < 16
  {
    "0123456789abcdef"[n]
  }

  // Ruby keeps the first (length - 4) characters of "000" followed by the hexadecimal byte, so the
  // escape of a control byte never has four digits.
  function ControlEscape(c: char): string
    requires c < ' '
  {
    "\\u" + if c as int < 16 then "" else "0"
  }

  function EscapeByte(c: char): string {
    if c == '\\' || c == '"' || c == '/' then ['\\', c]
    else if c == BACKSPACE then "\\b"
    else if c == '\t' then "\\t"
    else if c == '\n' then "\\n"
    else if c == FORM_FEED then "\\f"
    else if c == '\r' then "\\r"
    else if c < ' ' then ControlEscape(c)
    else [c]
  }

  function Escape(s: string): string {
    if s == "" then "" else EscapeByte(s[0]) + Escape(s[1..])
  }

  function Quote(s: string): string {
    "\"" + Escape(s) + "\""
  }

  function DigitChar(n: nat): char
    requires n < 10
  {
    "0123456789"[n]
  }

  function NatText(n: nat): string {
    if n < 10 then [DigitChar(n)] else NatText(n / 10) + [DigitChar(n % 10)]
  }

  function IntText(n: int): string {
    if n < 0 then "-" + NatText(-n) else NatText(n)
  }

  // to_json prints compact text; pretty_generate starts every element on a line of its own.
  datatype Layout = Compact | Pretty(indent: string)

  function Break(l: Layout): string {
    if l.Compact? then "" else "\n" + l.indent
  }

  function Colon(l: Layout): string {
    if l.Compact? then ":" else ": "
  }

  function Deeper(l: Layout): Layout {
    if l.Compact? then Compact else Pretty(l.indent + "  ")
  }

  // The text of both printers.
  function Render(v: Json, l: Layout): string
    decreases v, 1
  {
    match v
    case Null => "null"
    case Bool(b) => if b then "true" else "false"
    case Int(n) => IntText(n)
    case Str(s) => Quote(s)
    case Arr(items) =>
      if items == [] then "[]" else "[" + RenderItems(items, Deeper(l)) + Break(l) + "]"
    case Obj(members) =>
      if members == [] then "{}" else "{" + RenderMembers(members, Deeper(l)) + Break(l) + "}"
  }

  function RenderItems(items: seq<Json>, l: Layout): string
    requires items != []
    decreases items, 0
  {
    Break(l) + Render(items[0], l) + if |items| == 1 then "" else "," + RenderItems(items[1..], l)
  }

  function RenderMember(m: Member, l: Layout): string
    decreases m, 2
  {
    Break(l) + Quote(m.key) + Colon(l) + Render(m.value, l)
  }

  function RenderMembers(members: seq<Member>, l: Layout): string
    requires members != []
    decreases members, 0
  {
    RenderMember(members[0], l) + if |members| == 1 then "" else "," + RenderMembers(members[1..], l)
  }

  lemma Assoc(a: string, b: string, c: string)
    ensures (a + b) + c == a + (b + c)
  {
  }

  lemma NatTextNotEmpty(n: nat)
    ensures NatText(n) != ""
  {
  }

  lemma RenderNotEmpty(v: Json, l: Layout)
    ensures Render(v, l) != ""
  {
    if v.Int? {
      NatTextNotEmpty(if v.n < 0 then -v.n else v.n);
    }
  }

  lemma RenderItemsNotEmpty(items: seq<Json>, l: Layout)
    ensures items != [] ==> RenderItems(items, l) != ""
  {
    if items != [] {
      RenderNotEmpty(items[0], l);
    }
  }

  // The printers add one element at a time at the end.
  lemma {:induction false} RenderItemsSnoc(items: seq<Json>, v: Json, l: Layout)
    ensures RenderItems(items + [v], l) == BeforeNext(if items == [] then "" else RenderItems(items, l)) + (Break(l) + Render(v, l))
    decreases |items|
  {
    hide Render, Break;
    if items == [] {
      assert items + [v] == [v];
    } else {
      assert (items + [v])[0] == items[0] && (items + [v])[1..] == items[1..] + [v];
      RenderItemsSnoc(items[1..], v, l);
      var head, rest, tail := Break(l) + Render(items[0], l), if |items| == 1 then "" else RenderItems(items[1..], l), Break(l) + Render(v, l);
      RenderNotEmpty(items[0], l);
      RenderItemsNotEmpty(items[1..], l);
      AppendAfter(head, rest, tail);
    }
  }

  lemma {:induction false} RenderMembersSnoc(members: seq<Member>, m: Member, l: Layout)
    ensures RenderMembers(members + [m], l) == BeforeNext(if members == [] then "" else RenderMembers(members, l)) + RenderMember(m, l)
    decreases |members|
  {
    hide RenderMember;
    if members == [] {
      assert members + [m] == [m];
    } else {
      assert (members + [m])[0] == members[0] && (members + [m])[1..] == members[1..] + [m];
      RenderMembersSnoc(members[1..], m, l);
      var head, rest, tail := RenderMember(members[0], l), if |members| == 1 then "" else RenderMembers(members[1..], l), RenderMember(m, l);
      RenderMemberNotEmpty(members[0], l);
      assert |members| > 1 ==> RenderMembers(members[1..], l) != "" by {
        if |members| > 1 { RenderMemberNotEmpty(members[1], l); }
      }
      AppendAfter(head, rest, tail);
    }
  }

  lemma RenderMemberNotEmpty(m: Member, l: Layout)
    ensures RenderMember(m, l) != ""
  {
  }

  // A comma comes between elements, none before the first.
  function BeforeNext(done: string): string {
    if done == "" then "" else done + ","
  }

  lemma AppendAfter(head: string, rest: string, tail: string)
    requires head != ""
    ensures head + ("," + (BeforeNext(rest) + tail)) == BeforeNext(head + if rest == "" then "" else "," + rest) + tail
  {
    if rest == "" {
      assert BeforeNext("") + tail == tail;
      assert head + "" == head;
      Assoc(head, ",", tail);
    } else {
      assert (head + ("," + rest) + ",") + tail == head + ("," + ((rest + ",") + tail));
    }
  }

  // ---------------------------------------------------------------- the program: to_json

  method StringToJson(str: string) returns (newstr: string)
    ensures newstr == Quote(str)
  {
    hide Escape;
    EscapeNothing();
    if |str| == 0 {
      return "\"\"";
    }
    newstr := "\"";
    for i := 0 to |str|
      invariant newstr + Escape(str[i..]) == "\"" + Escape(str)
    {
      EscapeStep(newstr, str, i);
      var c := str[i];
      if c == '\\' || c == '"' || c == '/' {
        newstr := newstr + ['\\', c];
      } else if c == BACKSPACE {
        newstr := newstr + "\\b";
      } else if c == '\t' {
        newstr := newstr + "\\t";
      } else if c == '\n' {
        newstr := newstr + "\\n";
      } else if c == FORM_FEED {
        newstr := newstr + "\\f";
      } else if c == '\r' {
        newstr := newstr + "\\r";
      } else if c < ' ' {
        var b := c as int;
        var t := "000" + if b < 16 then [HexDigit(b)] else [HexDigit(b / 16), HexDigit(b % 16)];
        assert "\\u" + t[..|t| - 4] == ControlEscape(c);
        newstr := newstr + ("\\u" + t[..|t| - 4]);
      } else {
        newstr := newstr + [c];
      }
    }
    assert str[|str|..] == "";
    newstr := newstr + "\"";
  }

  lemma EscapeNothing()
    ensures Escape("") == ""
  {
  }

  lemma EscapeStep(done: string, str: string, i: nat)
    requires i < |str|
    ensures done + Escape(str[i..]) == (done + EscapeByte(str[i])) + Escape(str[i + 1..])
  {
    hide EscapeByte;
    assert str[i..][0] == str[i] && str[i..][1..] == str[i + 1..];
    Assoc(done, EscapeByte(str[i]), Escape(str[i + 1..]));
  }

  method ToJson(v: Json) returns (text: string)
    ensures text == Render(v, Compact)
    decreases v
  {
    hide RenderItems, RenderMembers, Quote, IntText;
    match v
    case Null => text := "null";
    case Bool(b) => text := if b then "true" else "false";
    case Int(n) => text := IntText(n);
    case Str(s) => text := StringToJson(s);
    case Arr(items) =>
      text := "[";
      var first := true;
      for k := 0 to |items|
        invariant first == (k == 0)
        invariant text == "[" + ItemsText(items[..k], Compact)
      {
        if !first {
          text := text + ",";
        }
        var part := ToJson(items[k]);
        ItemStep("[", items, k, Compact, text, part);
        text := text + part;
        first := false;
      }
      text := text + "]";
      assert items[..|items|] == items;
    case Obj(members) =>
      text := "{";
      var first := true;
      for k := 0 to |members|
        invariant first == (k == 0)
        invariant text == "{" + MembersText(members[..k], Compact)
      {
        if !first {
          text := text + ",";
        }
        ghost var before := text;
        var key := StringToJson(members[k].key);
        text := text + (key + ":");
        var part := ToJson(members[k].value);
        text := text + part;
        assert text == before + RenderMember(members[k], Compact);
        MemberStep("{", members, k, Compact, before, RenderMember(members[k], Compact));
        first := false;
      }
      text := text + "}";
      assert members[..|members|] == members;
  }

  ghost function ItemsText(items: seq<Json>, l: Layout): string {
    if items == [] then "" else RenderItems(items, l)
  }

  ghost function MembersText(members: seq<Member>, l: Layout): string {
    if members == [] then "" else RenderMembers(members, l)
  }

  lemma StepText(open: string, done: string, text: string, part: string)
    requires text == open + done + if done == "" then "" else ","
    ensures text + part == open + (BeforeNext(done) + part)
  {
    if done == "" {
      assert open + "" + "" == open && "" + part == part;
    } else {
      Assoc(open, done, ",");
      Assoc(open, done + ",", part);
    }
  }

  // Printing element k after the first k leaves the text of the first k + 1.
  lemma ItemStep(open: string, items: seq<Json>, k: nat, l: Layout, text: string, part: string)
    requires k < |items| && part == Break(l) + Render(items[k], l)
    requires text == open + ItemsText(items[..k], l) + if k == 0 then "" else ","
    ensures text + part == open + ItemsText(items[..k + 1], l)
  {
    hide Render, Break, RenderItems, BeforeNext;
    assert items[..k + 1] == items[..k] + [items[k]];
    RenderItemsSnoc(items[..k], items[k], l);
    RenderItemsNotEmpty(items[..k], l);
    StepText(open, ItemsText(items[..k], l), text, part);
  }

  lemma MemberStep(open: string, members: seq<Member>, k: nat, l: Layout, text: string, part: string)
    requires k < |members| && part == RenderMember(members[k], l)
    requires text == open + MembersText(members[..k], l) + if k == 0 then "" else ","
    ensures text + part == open + MembersText(members[..k + 1], l)
  {
    hide RenderMember, RenderMembers, BeforeNext;
    assert members[..k + 1] == members[..k] + [members[k]];
    RenderMembersSnoc(members[..k], members[k], l);
    RenderMembersNotEmpty(members[..k], l);
    StepText(open, MembersText(members[..k], l), text, part);
  }

  lemma RenderMembersNotEmpty(members: seq<Member>, l: Layout)
    ensures members != [] ==> RenderMembers(members, l) != ""
  {
    if members != [] {
      RenderMemberNotEmpty(members[0], l);
    }
  }

  // ---------------------------------------------------------------- the program: pretty_generate

  function Join(parts: seq<string>): string {
    if parts == [] then "" else Join(parts[..|parts| - 1]) + parts[|parts| - 1]
  }

  lemma JoinSnoc(parts: seq<string>, part: string)
    ensures Join(parts + [part]) == Join(parts) + part
  {
    assert (parts + [part])[..|parts|] == parts;
  }

  // The array of strings that the recursion appends to.
  class Stream {
    var parts: seq<string>

    constructor ()
      ensures parts == []
    {
      parts := [];
    }

    method Append(part: string)
      modifies this
      ensures parts == old(parts) + [part] && Join(parts) == Join(old(parts)) + part
    {
      JoinSnoc(parts, part);
      parts := parts + [part];
    }
  }

  // Ruby's chomp: one line ending at the end of the string is dropped.
  function Chomp(s: string): string {
    var n := |s|;
    if n >= 2 && s[n - 2..] == "\r\n" then s[..n - 2]
    else if n >= 1 && (s[n - 1] == '\n' || s[n - 1] == '\r') then s[..n - 1]
    else s
  }

  lemma ChompNeedsLineEnd(s: string)
    requires s != "" && s[|s| - 1] != '\n' && s[|s| - 1] != '\r'
    ensures Chomp(s) == s
  {
    assert |s| >= 2 ==> s[|s| - 2..][1] == s[|s| - 1];
  }

  lemma ChompKeepsScalars(v: Json)
    requires !v.Arr? && !v.Obj?
    ensures Chomp(Render(v, Compact)) == Render(v, Compact)
  {
    var t := Render(v, Compact);
    match v {
      case Null => assert t[3] == 'l';
      case Bool(b) => assert t[|t| - 1] == 'e';
      case Int(n) => NatTextEndsInDigit(if n < 0 then -n else n);
      case Str(s) => assert t[|t| - 1] == '"';
    }
    ChompNeedsLineEnd(t);
  }

  lemma NatTextEndsInDigit(n: nat)
    ensures var t := NatText(n); t != "" && '0' <= t[|t| - 1] <= '9'
  {
  }

  method PrettyGenerateRecursive(v: Json, stream: Stream, indent: string)
    modifies stream
    ensures Join(stream.parts) == Join(old(stream.parts)) + Render(v, Pretty(indent))
    decreases v, 1
  {
    hide RenderItems, RenderMembers, Join, Chomp;
    match v
    case Obj(members) =>
      if |members| == 0 {
        stream.Append("{}");
      } else {
        PrettyGenerateMembers(members, stream, indent);
      }
    case Arr(items) =>
      if |items| == 0 {
        stream.Append("[]");
      } else {
        PrettyGenerateItems(items, stream, indent);
      }
    case _ =>
      var text := ToJson(v);
      ChompKeepsScalars(v);
      stream.Append(Chomp(text));
  }

  method PrettyGenerateMembers(members: seq<Member>, stream: Stream, indent: string)
    requires members != []
    modifies stream
    ensures Join(stream.parts) == Join(old(stream.parts))
      + ("{" + RenderMembers(members, Deeper(Pretty(indent))) + Break(Pretty(indent)) + "}")
    decreases members, 0
  {
    hide RenderMembers, RenderMember, Join, Chomp, Render, Quote, Break;
    ghost var open, l := Join(stream.parts) + "{", Deeper(Pretty(indent));
    stream.Append("{\n");
    assert Join(stream.parts) == open + "" + "" + "\n";
    var first := true;
    for k := 0 to |members|
      invariant first == (k == 0)
      invariant Join(stream.parts) == open + MembersText(members[..k], l) + if k == 0 then "\n" else ""
    {
      ghost var done := open + MembersText(members[..k], l) + if k == 0 then "" else ",";
      if first {
        first := false;
      } else {
        stream.Append(",");
        stream.Append("\n");
      }
      assert Join(stream.parts) == done + "\n";
      stream.Append(indent);
      stream.Append("  ");
      ChompKeepsScalars(Str(members[k].key));
      var key := StringToJson(members[k].key);
      assert Chomp(key) == key by { QuoteIsRender(members[k].key); }
      stream.Append(Chomp(key));
      stream.Append(": ");
      PrettyGenerateRecursive(members[k].value, stream, indent + "  ");
      MemberPieces(done, indent, key, members[k], l);
      MemberStep(open, members, k, l, done, RenderMember(members[k], l));
    }
    ghost var body := Join(stream.parts);
    stream.Append("\n");
    stream.Append(indent);
    stream.Append("}");
    assert members[..|members|] == members;
    ClosePieces(body, "\n", indent, "}");
    BreakIs(indent);
  }

  lemma QuoteIsRender(s: string)
    ensures Quote(s) == Render(Str(s), Compact)
  {
  }

  lemma MemberPieces(done: string, indent: string, key: string, m: Member, l: Layout)
    requires l == Pretty(indent + "  ") && key == Quote(m.key)
    ensures (((((done + "\n") + indent) + "  ") + key) + ": ") + Render(m.value, l) == done + RenderMember(m, l)
  {
    hide Render, Quote;
    Assoc(done, "\n", indent);
    Assoc(done, "\n" + indent, "  ");
    Assoc("\n", indent, "  ");
    Assoc(done, Break(l), key);
    Assoc(done, Break(l) + key, ": ");
    Assoc(done, Break(l) + key + ": ", Render(m.value, l));
  }

  lemma ClosePieces(body: string, b: string, indent: string, close: string)
    ensures ((body + b) + indent) + close == body + (b + indent) + close
  {
    Assoc(body, b, indent);
  }

  method PrettyGenerateItems(items: seq<Json>, stream: Stream, indent: string)
    requires items != []
    modifies stream
    ensures Join(stream.parts) == Join(old(stream.parts))
      + ("[" + RenderItems(items, Deeper(Pretty(indent))) + Break(Pretty(indent)) + "]")
    decreases items, 0
  {
    hide RenderItems, Join, Render, Break;
    ghost var open, l := Join(stream.parts) + "[", Deeper(Pretty(indent));
    stream.Append("[\n");
    var first := true;
    for k := 0 to |items|
      invariant first == (k == 0)
      invariant Join(stream.parts) == open + ItemsText(items[..k], l) + if k == 0 then "\n" else ""
    {
      ghost var done := open + ItemsText(items[..k], l) + if k == 0 then "" else ",";
      if first {
        first := false;
      } else {
        stream.Append(",");
        stream.Append("\n");
      }
      assert Join(stream.parts) == done + "\n";
      stream.Append(indent + "  ");
      PrettyGenerateRecursive(items[k], stream, indent + "  ");
      ItemPieces(done, indent + "  ", Render(items[k], l), l);
      ItemStep(open, items, k, l, done, Break(l) + Render(items[k], l));
    }
    ghost var body := Join(stream.parts);
    stream.Append("\n");
    stream.Append(indent);
    stream.Append("]");
    assert items[..|items|] == items;
    ClosePieces(body, "\n", indent, "]");
    BreakIs(indent);
  }

  lemma BreakIs(indent: string)
    ensures Break(Pretty(indent)) == "\n" + indent
  {
  }

  lemma ItemPieces(done: string, indent: string, r: string, l: Layout)
    requires l == Pretty(indent)
    ensures ((done + "\n") + indent) + r == done + (Break(l) + r)
  {
    Assoc(done, "\n", indent);
    Assoc(done, "\n" + indent, r);
  }

  method PrettyGenerate(v: Json) returns (text: string)
    ensures text == Render(v, Pretty(""))
  {
    var s := new Stream();
    PrettyGenerateRecursive(v, s, "");
    text := "";
    for k := 0 to |s.parts|
      invariant text == Join(s.parts[..k])
    {
      assert s.parts[..k + 1][..k] == s.parts[..k];
      text := text + s.parts[k];
    }
    assert s.parts[..|s.parts|] == s.parts;
  }
}
