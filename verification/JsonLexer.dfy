// The index-based JSON lexer, and the readers of arrays and objects that drive it.
module JsonLexer {
  import opened Json

  // A value and the index after it; an exception; or an input whose reading is not modelled
  // (floats, and numbers not in plain decimal form).
  datatype Parsed<+T> = Ok(value: T, next: nat) | Raise(message: string) | Unmodelled {
    predicate IsFailure() {
      !Ok?
    }

    function PropagateFailure<U>(): Parsed<U>
      requires IsFailure()
    {
      if Raise? then Raise(message) else Unmodelled
    }

    function Extract(): (T, nat)
      requires Ok?
    {
      (value, next)
    }
  }

  // ---------------------------------------------------------------- characters

  function CharAt(src: string, i: nat): char {
    if i < |src| then src[i] else '\0'
  }

  function Before(i: nat): nat {
    if i > 0 then i - 1 else 0
  }

  // How much is left to read from index i on.
  function Left(src: string, i: nat): nat {
    if i < |src| then |src| - i else 0
  }

  // The index after a line comment whose text starts at i.
  function LineEnd(src: string, i: nat): (j: nat)
    ensures j > i
    decreases Left(src, i)
  {
    var c := CharAt(src, i);
    if c == '\n' || c == '\r' || c == '\0' then i + 1 else LineEnd(src, i + 1)
  }

  // The index after a block comment whose text starts at i.
  function BlockEnd(src: string, i: nat): (r: Parsed<()>)
    ensures r.Ok? ==> r.next > i
    decreases Left(src, i)
  {
    var c := CharAt(src, i);
    if c == '\0' then Raise("unclosed comment")
    else if c == '*' && CharAt(src, i + 1) == '/' then Ok((), i + 2)
    else BlockEnd(src, i + 1)
  }

  // The next character that is neither white space nor part of a comment.
  function Clean(src: string, i: nat): (r: Parsed<char>)
    ensures r.Ok? ==> r.next > i
    ensures r.Ok? ==> r.value == CharAt(src, r.next - 1)
    decreases Left(src, i)
  {
    var c := CharAt(src, i);
    if c == '/' then
      if CharAt(src, i + 1) == '/' then Clean(src, LineEnd(src, i + 2))
      else if CharAt(src, i + 1) == '*' then
        var (_, j) :- BlockEnd(src, i + 2);
        Clean(src, j)
      else Ok('/', i + 1)
    else if c == '\0' || c > ' ' then Ok(c, i + 1)
    else Clean(src, i + 1)
  }

  // ---------------------------------------------------------------- strings

  function HexValue(c: char): int {
    if '0' <= c <= '9' then c as int - '0' as int
    else if 'a' <= c <= 'f' then c as int - 'a' as int + 10
    else if 'A' <= c <= 'F' then c as int - 'A' as int + 10
    else -1
  }

  predicate IsBlank(c: char) {
    c == ' ' || '\t' <= c <= '\r'
  }

  // Ruby's Integer ignores blanks at the end.
  function TrimEnd(s: string): (r: string)
    ensures |r| <= |s|
  {
    if s != "" && IsBlank(s[|s| - 1]) then TrimEnd(s[..|s| - 1]) else s
  }

  // Hexadecimal digits, perhaps with single underscores between them.
  predicate IsHex(s: string) {
    s != "" && HexValue(s[0]) >= 0 && forall k :: 0 <= k < |s| ==> HexAt(s, k)
  }

  predicate HexAt(s: string, k: int)
    requires 0 <= k < |s|
  {
    HexValue(s[k]) >= 0 || (s[k] == '_' && k + 1 < |s| && HexValue(s[k + 1]) >= 0)
  }

  // The greatest number of k digits, plus one.
  function HexLimit(k: nat): nat {
    if k == 0 then 1 else 16 * HexLimit(k - 1)
  }

  function HexNumber(s: string): (n: nat)
    ensures n < HexLimit(|s|)
  {
    if s == "" then 0
    else
      var n, d := HexNumber(s[..|s| - 1]), HexValue(s[|s| - 1]);
      if d >= 0 then n * 16 + d else n
  }

  // What Ruby makes of four characters behind \u.
  function Hex4(s: string): (r: Parsed<nat>)
    requires |s| == 4
    ensures !r.Unmodelled? && (r.Ok? ==> r.value < 0x1_0000)
  {
    var t := TrimEnd(s);
    if !IsHex(t) then Raise("invalid value for Integer")
    else
      assert HexLimit(1) == 16 && HexLimit(2) == 256 && HexLimit(3) == 4096 && HexLimit(4) == 0x1_0000;
      Ok(HexNumber(t), 4)
  }

  // The bytes of a 16-bit code point. The last byte of three keeps only five bits of the code.
  function Utf8(code: nat): (s: string)
    requires code < 0x1_0000
    ensures 1 <= |s| <= 3
  {
    if code < 0x80 then [code as char]
    else if code < 0x800 then [(0xC0 + code / 64) as char, (0x80 + code % 64) as char]
    else [(0xE0 + code / 4096) as char, (0x80 + code / 64 % 64) as char, (0x80 + code % 32) as char]
  }

  // The byte an escape other than \u stands for.
  function Unescape(c: char): char {
    if c == 'b' then BACKSPACE
    else if c == 't' then '\t'
    else if c == 'n' then '\n'
    else if c == 'f' then FORM_FEED
    else if c == 'r' then '\r'
    else c
  }

  // The rest of a string from index i up to the closing quote, after the bytes in buf.
  function StringFrom(src: string, i: nat, quot: char, buf: string): (r: Parsed<string>)
    ensures r.Ok? ==> r.next > i
    decreases Left(src, i)
  {
    var c := CharAt(src, i);
    if c == '\0' then Raise("Unterminated string")
    else if c == '\\' then
      if CharAt(src, i + 1) == 'u' then
        if i + 6 > |src| then Raise("substring bounds error")
        else
          var (code, _) :- Hex4(src[i + 2..i + 6]);
          StringFrom(src, i + 6, quot, buf + Utf8(code))
      else StringFrom(src, i + 2, quot, buf + [Unescape(CharAt(src, i + 1))])
    else if c == quot then Ok(buf, i + 1)
    else StringFrom(src, i + 1, quot, buf + [c])
  }

  // ---------------------------------------------------------------- bare words

  predicate Stops(c: char) {
    c == '"' || c == ' ' || c == ':' || c == ',' || c == ']' || c == '}' || c == '/' || c == '\0'
  }

  // The end of the bare word that starts at i. A line break does not end it.
  function WordEnd(src: string, i: nat): (j: nat)
    ensures j >= i && (i <= |src| ==> j <= |src|)
    decreases Left(src, i)
  {
    if Stops(CharAt(src, i)) then i else WordEnd(src, i + 1)
  }

  function Word(src: string, i: nat): string {
    if i < |src| then src[i..WordEnd(src, i)] else ""
  }

  predicate IsDigit(c: char) {
    '0' <= c <= '9'
  }

  // A digit at the start of a line, or a point or a sign anywhere.
  predicate LooksNumeric(s: string) {
    exists k :: 0 <= k < |s| && NumericAt(s, k)
  }

  predicate NumericAt(s: string, k: int)
    requires 0 <= k < |s|
  {
    s[k] == '.' || s[k] == '-' || s[k] == '+' || (IsDigit(s[k]) && (k == 0 || s[k - 1] == '\n'))
  }

  function DigitValue(c: char): nat
    requires IsDigit(c)
  {
    c as int - '0' as int
  }

  function DigitsValue(s: string): nat
    requires forall k :: 0 <= k < |s| ==> IsDigit(s[k])
  {
    if s == "" then 0 else DigitsValue(s[..|s| - 1]) * 10 + DigitValue(s[|s| - 1])
  }

  // Decimal digits without a leading zero.
  predicate IsPlain(s: string) {
    s != "" && (forall k :: 0 <= k < |s| ==> IsDigit(s[k])) && (|s| == 1 || s[0] != '0')
  }

  // The value of a word. Numbers other than plain decimal integers are not modelled.
  function WordValue(s: string, next: nat): Parsed<Json> {
    if s == "true" then Ok(Bool(true), next)
    else if s == "false" then Ok(Bool(false), next)
    else if s == "null" then Ok(Null, next)
    else if LooksNumeric(s) then
      if IsPlain(s) then Ok(Int(DigitsValue(s)), next)
      else if s[0] == '-' && IsPlain(s[1..]) then Ok(Int(-(DigitsValue(s[1..]) as int)), next)
      else if s[0] == '+' && IsPlain(s[1..]) then Ok(Int(DigitsValue(s[1..])), next)
      else Unmodelled
    else if s == "" then Ok(Null, next)
    else Ok(Str(s), next)
  }

  // ---------------------------------------------------------------- values

  // Ruby's to_s of a key; the printed forms of arrays and hashes are not modelled.
  function KeyText(v: Json, next: nat): Parsed<string> {
    match v
    case Null => Ok("", next)
    case Bool(b) => Ok(if b then "true" else "false", next)
    case Int(n) => Ok(IntText(n), next)
    case Str(s) => Ok(s, next)
    case _ => Unmodelled
  }

  // Storing in a hash: an old key keeps its place, a new one comes last.
  function Put(members: seq<Member>, key: string, value: Json): seq<Member> {
    if members == [] then [Member(key, value)]
    else if members[0].key == key then [Member(key, value)] + members[1..]
    else [members[0]] + Put(members[1..], key, value)
  }

  function Value(src: string, i: nat): (r: Parsed<Json>)
    ensures r.Ok? ==> r.next >= i
    decreases Left(src, i), 2
  {
    var (c, j) :- Clean(src, i);
    if c == '"' || c == '\'' then
      var (s, k) :- StringFrom(src, j, c, "");
      Ok(Str(s), k)
    else if c == '{' then HashValue(src, Before(j))
    else if c == '[' then ArrayValue(src, Before(j))
    else WordValue(Chomp(Word(src, Before(j))), WordEnd(src, Before(j)))
  }

  function ArrayValue(src: string, i: nat): (r: Parsed<Json>)
    ensures r.Ok? ==> r.next >= i
    decreases Left(src, i), 1
  {
    var (c, j) :- Clean(src, i);
    if c != '[' then Raise("A JSON Array must begin with '['")
    else
      var (d, k) :- Clean(src, j);
      if d == ']' then Ok(Arr([]), k) else ArrayFrom(src, Before(k), [])
  }

  // The rest of an array, the next element starting at i, after the elements in items.
  function ArrayFrom(src: string, i: nat, items: seq<Json>): (r: Parsed<Json>)
    ensures r.Ok? ==> r.next >= i
    decreases Left(src, i), 3
  {
    var (v, j) :- Value(src, i);
    var (c, k) :- Clean(src, j);
    if c == ',' then
      var (d, m) :- Clean(src, k);
      if d == ']' then Ok(Arr(items + [v]), m) else ArrayFrom(src, Before(m), items + [v])
    else if c == ']' then Ok(Arr(items + [v]), k)
    else Raise("Expected a ',' or ']'")
  }

  function HashValue(src: string, i: nat): (r: Parsed<Json>)
    ensures r.Ok? ==> r.next >= i
    decreases Left(src, i), 1
  {
    var (c, j) :- Clean(src, i);
    if c != '{' then Raise("A JSON Object must begin with '{'") else HashFrom(src, j, [])
  }

  // The rest of an object, the next member starting at i, after the members read so far.
  function HashFrom(src: string, i: nat, members: seq<Member>): (r: Parsed<Json>)
    ensures r.Ok? ==> r.next >= i
    decreases Left(src, i), 3
  {
    var (c, j) :- Clean(src, i);
    if c == '}' then Ok(Obj(members), j)
    else
      var (kv, k) :- Value(src, Before(j));
      var (key, _) :- KeyText(kv, k);
      var (colon, l) :- Clean(src, k);
      if colon != ':' then Raise("Expected a ':' after a key")
      else
        var (v, m) :- Value(src, l);
        var (d, n) :- Clean(src, m);
        if d == ',' then
          var (e, o) :- Clean(src, n);
          if e == '}' then Ok(Obj(Put(members, key, v)), o) else HashFrom(src, Before(o), Put(members, key, v))
        else if d == '}' then Ok(Obj(Put(members, key, v)), n)
        else Raise("Expected a ',' or '}'")
  }

  // ---------------------------------------------------------------- the program

  class Lexer {
    const source: string
    var index: nat

    constructor (s: string)
      ensures source == s && index == 0
    {
      source := s;
      index := 0;
    }

    method Back()
      modifies this
      ensures index == Before(old(index))
    {
      if index > 0 {
        index := index - 1;
      }
    }

    method NextChar() returns (c: char)
      modifies this
      ensures c == CharAt(source, old(index)) && index == old(index) + 1
    {
      c := if index < |source| then source[index] else '\0';
      index := index + 1;
    }

    // The loop over a line comment.
    method SkipLine()
      modifies this
      ensures index == LineEnd(source, old(index))
    {
      var c := NextChar();
      while c != '\n' && c != '\r' && c != '\0'
        invariant index > old(index) && c == CharAt(source, index - 1)
        invariant LineEnd(source, index - 1) == LineEnd(source, old(index))
        decreases Left(source, index - 1)
      {
        c := NextChar();
      }
    }

    // The loop over a block comment.
    method SkipBlock() returns (r: Parsed<()>)
      modifies this
      ensures r == BlockEnd(source, old(index))
      ensures r.Ok? ==> index == r.next
    {
      while true
        invariant index >= old(index) && BlockEnd(source, index) == BlockEnd(source, old(index))
        decreases Left(source, index)
      {
        var c := NextChar();
        if c == '\0' {
          return Raise("unclosed comment");
        }
        if c == '*' {
          var e := NextChar();
          if e == '/' {
            return Ok((), index);
          }
          Back();
        }
      }
    }

    method NextClean() returns (r: Parsed<char>)
      modifies this
      ensures r == Clean(source, old(index))
      ensures r.Ok? ==> index == r.next
    {
      while true
        invariant Clean(source, index) == Clean(source, old(index))
        decreases Left(source, index)
      {
        var c := NextChar();
        if c == '/' {
          var d := NextChar();
          if d == '/' {
            SkipLine();
          } else if d == '*' {
            var closed := SkipBlock();
            if closed.IsFailure() {
              return closed.PropagateFailure();
            }
          } else {
            Back();
            return Ok('/', index);
          }
        } else if c == '\0' || c > ' ' {
          return Ok(c, index);
        }
      }
    }

    method NextString(quot: char) returns (r: Parsed<string>)
      modifies this
      ensures r == StringFrom(source, old(index), quot, "")
      ensures r.Ok? ==> index == r.next
    {
      var buf := "";
      while true
        invariant StringFrom(source, index, quot, buf) == StringFrom(source, old(index), quot, "")
        decreases Left(source, index)
      {
        var c := NextChar();
        if c == '\0' {
          return Raise("Unterminated string");
        } else if c == '\\' {
          var d := NextChar();
          if d == 'u' {
            if index + 4 > |source| {
              return Raise("substring bounds error");
            }
            var hex := Hex4(source[index..index + 4]);
            index := index + 4;
            if hex.IsFailure() {
              return hex.PropagateFailure();
            }
            buf := buf + Utf8(hex.value);
          } else {
            buf := buf + [Unescape(d)];
          }
        } else if c == quot {
          return Ok(buf, index);
        } else {
          buf := buf + [c];
        }
      }
    }

    method NextValue() returns (r: Parsed<Json>)
      modifies this
      ensures r == Value(source, old(index))
      ensures r.Ok? ==> index == r.next
      decreases Left(source, index), 2
    {
      hide Clean, StringFrom, HashValue, ArrayValue, WordEnd, Word, LooksNumeric, IsPlain, DigitsValue, Chomp;
      var clean := NextClean();
      if clean.IsFailure() {
        return clean.PropagateFailure();
      }
      var c := clean.value;
      if c == '"' || c == '\'' {
        var s := NextString(c);
        if s.IsFailure() {
          return s.PropagateFailure();
        }
        return Ok(Str(s.value), index);
      } else if c == '{' {
        Back();
        r := HashFromJson();
      } else if c == '[' {
        Back();
        r := ArrayFromJson();
      } else {
        var buf := NextWord(c);
        return WordValue(Chomp(buf), index);
      }
    }

    // The loop over a bare word, whose first character c is read.
    method NextWord(c: char) returns (buf: string)
      requires index > 0 && c == CharAt(source, index - 1)
      modifies this
      ensures buf == Word(source, old(index) - 1) && index == WordEnd(source, old(index) - 1)
    {
      ghost var start := index - 1;
      var d := c;
      buf := "";
      while !Stops(d)
        invariant index > start && d == CharAt(source, index - 1)
        invariant WordEnd(source, index - 1) == WordEnd(source, start)
        invariant start < |source| ==> index - 1 <= |source| && buf == source[start..index - 1]
        invariant start >= |source| ==> buf == ""
        decreases Left(source, index - 1)
      {
        buf := buf + [d];
        d := NextChar();
      }
      Back();
    }

    method ArrayFromJson() returns (r: Parsed<Json>)
      modifies this
      ensures r == ArrayValue(source, old(index))
      ensures r.Ok? ==> index == r.next
      decreases Left(source, index), 1
    {
      var open := NextClean();
      if open.IsFailure() {
        return open.PropagateFailure();
      }
      if open.value != '[' {
        return Raise("A JSON Array must begin with '['");
      }
      var c := NextClean();
      if c.IsFailure() {
        return c.PropagateFailure();
      }
      if c.value == ']' {
        return Ok(Arr([]), index);
      }
      Back();
      var items: seq<Json> := [];
      while true
        invariant Left(source, index) < Left(source, old(index))
        invariant ArrayFrom(source, index, items) == ArrayValue(source, old(index))
        decreases Left(source, index)
      {
        var v := NextValue();
        if v.IsFailure() {
          return v;
        }
        items := items + [v.value];
        c := NextClean();
        if c.IsFailure() {
          return c.PropagateFailure();
        }
        if c.value == ',' {
          c := NextClean();
          if c.IsFailure() {
            return c.PropagateFailure();
          }
          if c.value == ']' {
            return Ok(Arr(items), index);
          }
          Back();
        } else if c.value == ']' {
          return Ok(Arr(items), index);
        } else {
          return Raise("Expected a ',' or ']'");
        }
      }
    }

    method HashFromJson() returns (r: Parsed<Json>)
      modifies this
      ensures r == HashValue(source, old(index))
      ensures r.Ok? ==> index == r.next
      decreases Left(source, index), 1
    {
      var open := NextClean();
      if open.IsFailure() {
        return open.PropagateFailure();
      }
      if open.value != '{' {
        return Raise("A JSON Object must begin with '{'");
      }
      var members: seq<Member> := [];
      while true
        invariant Left(source, index) < Left(source, old(index))
        invariant HashFrom(source, index, members) == HashValue(source, old(index))
        decreases Left(source, index)
      {
        var c := NextClean();
        if c.IsFailure() {
          return c.PropagateFailure();
        }
        if c.value == '}' {
          return Ok(Obj(members), index);
        }
        Back();
        var kv := NextValue();
        if kv.IsFailure() {
          return kv;
        }
        var key := KeyText(kv.value, index);
        if key.IsFailure() {
          return key.PropagateFailure();
        }
        c := NextClean();
        if c.IsFailure() {
          return c.PropagateFailure();
        }
        if c.value != ':' {
          return Raise("Expected a ':' after a key");
        }
        var v := NextValue();
        if v.IsFailure() {
          return v;
        }
        members := Put(members, key.value, v.value);
        c := NextClean();
        if c.IsFailure() {
          return c.PropagateFailure();
        }
        if c.value == ',' {
          c := NextClean();
          if c.IsFailure() {
            return c.PropagateFailure();
          }
          if c.value == '}' {
            return Ok(Obj(members), index);
          }
          Back();
        } else if c.value == '}' {
          return Ok(Obj(members), index);
        } else {
          return Raise("Expected a ',' or '}'");
        }
      }
    }
  }

  method Parse(str: string) returns (r: Parsed<Json>)
    ensures r == Value(str, 0)
  {
    var lexer := new Lexer(str);
    r := lexer.NextValue();
  }
}
