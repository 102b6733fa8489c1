// Reading text that the printers do not print: escapes by code point, strings in single quotes, comments.
module JsonReading {
  import opened Json
  import opened JsonLexer
  import opened JsonRoundTrip

  // ---------------------------------------------------------------- code points

  function HexDigit(d: nat, upper: bool): char
    requires d < 16
  {
    if upper then "0123456789ABCDEF"[d] else "0123456789abcdef"[d]
  }

  // The four digits of a code.
  function HexText(code: nat, upper: bool): (s: string)
    requires code < 0x1_0000
    ensures |s| == 4
  {
    [HexDigit(code / 4096, upper), HexDigit(code / 256 % 16, upper), HexDigit(code / 16 % 16, upper), HexDigit(code % 16, upper)]
  }

  lemma DigitIsRead(d: nat, upper: bool)
    requires d < 16
    ensures HexValue(HexDigit(d, upper)) == d && !IsBlank(HexDigit(d, upper))
  {
    assert "0123456789ABCDEF"[d] == if d < 10 then ('0' as int + d) as char else ('A' as int + d - 10) as char;
    assert "0123456789abcdef"[d] == if d < 10 then ('0' as int + d) as char else ('a' as int + d - 10) as char;
  }

  // The code is read back from its digits, in either case.
  lemma HexTextReadsBack(code: nat, upper: bool)
    requires code < 0x1_0000
    ensures Hex4(HexText(code, upper)) == Ok(code, 4)
  {
    var a, b, c, d := code / 4096, code / 256 % 16, code / 16 % 16, code % 16;
    DigitIsRead(a, upper);
    DigitIsRead(b, upper);
    DigitIsRead(c, upper);
    DigitIsRead(d, upper);
    var s := HexText(code, upper);
    HexNumberIs(s, a, b, c, d);
    CodeIs(code, a, b, c, d);
    hide HexDigit, HexValue, HexNumber, IsBlank, HexLimit, HexText;
    FourDigits(s);
  }

  lemma CodeIs(code: nat, a: nat, b: nat, c: nat, d: nat)
    requires code < 0x1_0000 && a == code / 4096 && b == code / 256 % 16 && c == code / 16 % 16 && d == code % 16
    ensures ((a * 16 + b) * 16 + c) * 16 + d == code
  {
  }

  lemma FourDigits(s: string)
    requires |s| == 4 && HexValue(s[0]) >= 0 && HexValue(s[1]) >= 0 && HexValue(s[2]) >= 0 && HexValue(s[3]) >= 0
    requires !IsBlank(s[3])
    ensures TrimEnd(s) == s && IsHex(s)
  {
    hide HexValue;
    forall k | 0 <= k < 4 ensures HexAt(s, k) {
      assert k == 0 || k == 1 || k == 2 || k == 3;
    }
  }

  lemma HexNumberIs(s: string, a: nat, b: nat, c: nat, d: nat)
    requires |s| == 4 && HexValue(s[0]) == a && HexValue(s[1]) == b && HexValue(s[2]) == c && HexValue(s[3]) == d
    ensures HexNumber(s) == ((a * 16 + b) * 16 + c) * 16 + d
  {
    hide HexValue;
    assert s[..3][..2] == s[..2] && s[..3][..2][..1] == s[..1] && s[..3][..2][..1][..0] == "";
    assert HexNumber(s[..1]) == a;
    assert HexNumber(s[..2]) == a * 16 + b;
    assert HexNumber(s[..3]) == (a * 16 + b) * 16 + c;
  }

  // Whether the bytes are those of the code, as section 3 of RFC 3629 has it: the lead byte tells how many
  // follow, and the others hold six bits each.
  predicate IsUtf8(s: string, code: nat) {
    match |s|
    case 1 => code < 0x80 && s[0] as int == code
    case 2 => 0x80 <= code < 0x800 && LeadBits(s[0], 0xC0, 32) * 64 + TailBits(s[1]) == code && IsTail(s[1])
    case 3 =>
      && 0x800 <= code < 0x1_0000 && IsTail(s[1]) && IsTail(s[2])
      && LeadBits(s[0], 0xE0, 16) * 4096 + TailBits(s[1]) * 64 + TailBits(s[2]) == code
    case _ => false
  }

  // What a lead byte holds behind its mark.
  function LeadBits(c: char, mark: int, limit: int): int {
    if mark <= c as int < mark + limit then c as int - mark else -0x1_0000
  }

  predicate IsTail(c: char) {
    0x80 <= c as int < 0xC0
  }

  function TailBits(c: char): int {
    c as int - 0x80
  }

  // The last of three bytes lacks one bit of the code, so what is read may be another code.
  lemma Utf8Is(code: nat)
    requires code < 0x1_0000
    ensures IsUtf8(Utf8(code), if code < 0x800 || code % 64 < 32 then code else code - 32)
  {
    if code >= 0x800 {
      assert code == code / 4096 * 4096 + code / 64 % 64 * 64 + code % 64;
      assert code % 32 == if code % 64 < 32 then code % 64 else code % 64 - 32;
    }
  }

  lemma Utf8IsUnique(s: string, code: nat, other: nat)
    requires IsUtf8(s, code) && IsUtf8(s, other)
    ensures code == other
  {
  }

  // The bytes are right exactly when that bit is not set.
  lemma Utf8IsRightIff(code: nat)
    requires code < 0x1_0000
    ensures IsUtf8(Utf8(code), code) <==> code < 0x800 || code % 64 < 32
  {
    Utf8Is(code);
    hide IsUtf8, Utf8;
    if IsUtf8(Utf8(code), code) {
      Utf8IsUnique(Utf8(code), code, if code < 0x800 || code % 64 < 32 then code else code - 32);
    }
  }

  lemma CodeIsRead(src: string, i: nat, code: nat, upper: bool, quot: char, buf: string)
    requires code < 0x1_0000 && At(src, i, "\\u" + HexText(code, upper)) && quot != '\\'
    ensures StringFrom(src, i, quot, buf) == StringFrom(src, i + 6, quot, buf + Utf8(code))
  {
    var t := "\\u" + HexText(code, upper);
    AtChar(src, i, t, 0);
    AtChar(src, i, t, 1);
    AtParts(src, i, "\\u", HexText(code, upper));
    HexTextReadsBack(code, upper);
    hide Hex4, HexText, Utf8;
    assert src[i + 2..i + 6] == HexText(code, upper);
  }

  // A backslash makes any other character stand for itself.
  lemma EscapedIsRead(src: string, i: nat, c: char, quot: char, buf: string)
    requires At(src, i, "\\" + [c]) && quot != '\\' && c !in "btnfru"
    ensures StringFrom(src, i, quot, buf) == StringFrom(src, i + 2, quot, buf + [c])
  {
    var t := "\\" + [c];
    AtChar(src, i, t, 0);
    AtChar(src, i, t, 1);
    assert "btnfru"[0] == 'b' && "btnfru"[1] == 't' && "btnfru"[2] == 'n' && "btnfru"[3] == 'f' && "btnfru"[4] == 'r' && "btnfru"[5] == 'u';
  }

  // ---------------------------------------------------------------- strings in either kind of quotes

  predicate IsQuote(c: char) {
    c == '"' || c == '\''
  }

  ghost predicate IsVerbatim(s: string, quot: char) {
    forall k :: 0 <= k < |s| ==> s[k] != quot && s[k] != '\\' && s[k] != '\0'
  }

  lemma {:induction false} VerbatimIsRead(src: string, i: nat, s: string, quot: char, buf: string)
    requires At(src, i, s) && IsVerbatim(s, quot)
    ensures StringFrom(src, i, quot, buf) == StringFrom(src, i + |s|, quot, buf + s)
    decreases |s|
  {
    hide At;
    if s == "" {
      assert buf + s == buf;
    } else {
      AtChar(src, i, s, 0);
      assert s == s[..1] + s[1..];
      AtParts(src, i, s[..1], s[1..]);
      VerbatimIsRead(src, i + 1, s[1..], quot, buf + [s[0]]);
      assert buf + [s[0]] + s[1..] == buf + s;
    }
  }

  // Some text as it is, a code point, and so on.
  datatype Chunk = Chunk(text: string, code: nat, upper: bool)

  ghost predicate AreChunks(chunks: seq<Chunk>, quot: char) {
    forall k :: 0 <= k < |chunks| ==> chunks[k].code < 0x1_0000 && IsVerbatim(chunks[k].text, quot)
  }

  ghost function ChunkText(c: Chunk): string
    requires c.code < 0x1_0000
  {
    c.text + ("\\u" + HexText(c.code, c.upper))
  }

  // How a string of such chunks is written, up to its closing quote, and what it stands for.
  ghost function Written(chunks: seq<Chunk>, quot: char): string
    requires AreChunks(chunks, quot)
  {
    if chunks == [] then [quot] else ChunkText(chunks[0]) + Written(chunks[1..], quot)
  }

  ghost function Meant(chunks: seq<Chunk>, quot: char): string
    requires AreChunks(chunks, quot)
  {
    if chunks == [] then "" else chunks[0].text + (Utf8(chunks[0].code) + Meant(chunks[1..], quot))
  }

  lemma {:induction false} ChunksAreRead(src: string, i: nat, chunks: seq<Chunk>, quot: char, buf: string)
    requires IsQuote(quot) && AreChunks(chunks, quot)
    requires At(src, i, Written(chunks, quot))
    ensures StringFrom(src, i, quot, buf) == Ok(buf + Meant(chunks, quot), i + |Written(chunks, quot)|)
    decreases |chunks|
  {
    hide At, IsVerbatim, HexText, Utf8;
    if chunks == [] {
      AtChar(src, i, [quot], 0);
      assert buf + "" == buf;
    } else {
      var c, rest := chunks[0], chunks[1..];
      ChunkIsRead(src, i, c, Written(rest, quot), quot, buf);
      ChunksAreRead(src, i + |c.text| + 6, rest, quot, buf + c.text + Utf8(c.code));
      assert buf + c.text + Utf8(c.code) + Meant(rest, quot) == buf + Meant(chunks, quot);
    }
  }

  lemma ChunkIsRead(src: string, i: nat, c: Chunk, rest: string, quot: char, buf: string)
    requires IsQuote(quot) && c.code < 0x1_0000 && IsVerbatim(c.text, quot) && At(src, i, ChunkText(c) + rest)
    ensures StringFrom(src, i, quot, buf) == StringFrom(src, i + |c.text| + 6, quot, buf + c.text + Utf8(c.code))
    ensures At(src, i + |c.text| + 6, rest)
  {
    hide At, IsVerbatim, HexText, Utf8, StringFrom;
    var code := "\\u" + HexText(c.code, c.upper);
    AtParts(src, i, c.text + code, rest);
    AtParts(src, i, c.text, code);
    VerbatimIsRead(src, i, c.text, quot, buf);
    CodeIsRead(src, i + |c.text|, c.code, c.upper, quot, buf + c.text);
  }

  // A string in either kind of quotes stands for its text, with the bytes of each code point in place.
  lemma StringIsRead(src: string, i: nat, chunks: seq<Chunk>, quot: char)
    requires IsQuote(quot) && AreChunks(chunks, quot)
    requires At(src, i, [quot] + Written(chunks, quot))
    ensures Value(src, i) == Ok(Str(Meant(chunks, quot)), i + 1 + |Written(chunks, quot)|)
  {
    hide At, StringFrom, Written, Meant;
    AtParts(src, i, [quot], Written(chunks, quot));
    AtChar(src, i, [quot], 0);
    CleanFinds(src, i);
    ChunksAreRead(src, i + 1, chunks, quot, "");
    assert "" + Meant(chunks, quot) == Meant(chunks, quot);
  }

  // ---------------------------------------------------------------- comments

  ghost predicate IsLine(s: string) {
    forall k :: 0 <= k < |s| ==> s[k] != '\n' && s[k] != '\r' && s[k] != '\0'
  }

  lemma {:induction false} LineEndIs(src: string, i: nat, s: string)
    requires At(src, i, s) && IsLine(s)
    ensures LineEnd(src, i) == LineEnd(src, i + |s|)
    decreases |s|
  {
    if s != "" {
      AtChar(src, i, s, 0);
      assert s == s[..1] + s[1..];
      AtParts(src, i, s[..1], s[1..]);
      LineEndIs(src, i + 1, s[1..]);
    }
  }

  // The reader goes on behind a comment as if it were not there.
  ghost predicate SameFrom(src: string, i: nat, j: nat) {
    Clean(src, i) == Clean(src, j) && Value(src, i) == Value(src, j)
  }

  lemma SameClean(src: string, i: nat, j: nat)
    requires Clean(src, i) == Clean(src, j)
    ensures SameFrom(src, i, j)
  {
    hide Clean, StringFrom;
  }

  lemma LineCommentIsSkipped(src: string, i: nat, s: string, end: char)
    requires IsLine(s) && (end == '\n' || end == '\r') && At(src, i, "//" + (s + [end]))
    ensures SameFrom(src, i, i + |s| + 3)
  {
    hide At, Value, Clean, IsLine, LineEnd, StringFrom;
    AtParts(src, i, "//", s + [end]);
    AtParts(src, i + 2, s, [end]);
    AtChar(src, i, "//", 0);
    AtChar(src, i, "//", 1);
    AtChar(src, i + 2 + |s|, [end], 0);
    LineEndIs(src, i + 2, s);
    BreakEndsLine(src, i + 2 + |s|);
    CleanOfLine(src, i);
    SameClean(src, i, i + |s| + 3);
  }

  lemma BreakEndsLine(src: string, i: nat)
    requires CharAt(src, i) == '\n' || CharAt(src, i) == '\r'
    ensures LineEnd(src, i) == i + 1
  {
  }

  lemma CleanOfLine(src: string, i: nat)
    requires CharAt(src, i) == '/' && CharAt(src, i + 1) == '/'
    ensures Clean(src, i) == Clean(src, LineEnd(src, i + 2))
  {
    hide LineEnd;
  }

  // No end of a comment starts in s when t follows it.
  ghost predicate IsOpen(s: string, t: string) {
    forall k :: 0 <= k < |s| ==> s[k] != '\0' && !(s[k] == '*' && (s + t + "\0")[k + 1] == '/')
  }

  lemma OpenRest(s: string, t: string)
    requires s != "" && IsOpen(s, t)
    ensures IsOpen(s[1..], t)
  {
    var r := s[1..];
    forall k | 0 <= k < |r| ensures r[k] != '\0' && !(r[k] == '*' && (r + t + "\0")[k + 1] == '/') {
      assert r[k] == s[k + 1] && (r + t + "\0")[k + 1] == (s + t + "\0")[k + 2];
    }
  }

  lemma {:induction false} BlockEndIs(src: string, i: nat, s: string, t: string)
    requires At(src, i, s + t) && IsOpen(s, t) && (t == "" ==> i + |s| == |src|)
    ensures BlockEnd(src, i) == BlockEnd(src, i + |s|)
    decreases |s|
  {
    hide At;
    if s != "" {
      AtChar(src, i, s + t, 0);
      assert CharAt(src, i + 1) == (s + t + "\0")[1] by {
        if |s + t| > 1 {
          AtChar(src, i, s + t, 1);
        }
      }
      assert s[0] != '\0' && !(s[0] == '*' && (s + t + "\0")[0 + 1] == '/');
      assert s + t == s[..1] + (s[1..] + t);
      AtParts(src, i, s[..1], s[1..] + t);
      OpenRest(s, t);
      BlockEndIs(src, i + 1, s[1..], t);
    }
  }

  lemma BlockCommentIsSkipped(src: string, i: nat, s: string)
    requires IsOpen(s, "*/") && At(src, i, "/*" + (s + "*/"))
    ensures SameFrom(src, i, i + |s| + 4)
  {
    hide At, Value, Clean, IsOpen, BlockEnd, StringFrom;
    AtParts(src, i, "/*", s + "*/");
    AtChar(src, i, "/*", 0);
    AtChar(src, i, "/*", 1);
    BlockEndIs(src, i + 2, s, "*/");
    AtParts(src, i + 2, s, "*/");
    AtChar(src, i + 2 + |s|, "*/", 0);
    AtChar(src, i + 2 + |s|, "*/", 1);
    CloseEndsBlock(src, i + 2 + |s|);
    CleanOfBlock(src, i, i + |s| + 4);
    SameClean(src, i, i + |s| + 4);
  }

  lemma CloseEndsBlock(src: string, i: nat)
    requires CharAt(src, i) == '*' && CharAt(src, i + 1) == '/'
    ensures BlockEnd(src, i) == Ok((), i + 2)
  {
  }

  lemma CleanOfBlock(src: string, i: nat, j: nat)
    requires CharAt(src, i) == '/' && CharAt(src, i + 1) == '*' && BlockEnd(src, i + 2) == Ok((), j)
    ensures Clean(src, i) == Clean(src, j)
  {
    hide BlockEnd;
  }

  // A block comment that reaches to the end of the text is an error.
  lemma OpenCommentRaises(src: string, i: nat, s: string)
    requires IsOpen(s, "") && At(src, i, "/*" + s) && i + |s| + 2 == |src|
    ensures Value(src, i) == Raise("unclosed comment")
  {
    AtParts(src, i, "/*", s);
    AtChar(src, i, "/*", 0);
    AtChar(src, i, "/*", 1);
    assert s + "" == s;
    BlockEndIs(src, i + 2, s, "");
    hide At, IsOpen;
    assert BlockEnd(src, i + 2) == Raise("unclosed comment");
  }

  // ---------------------------------------------------------------- values that are not written as such

  // Where a value is missing, null is read, and what ends it is left.
  lemma MissingIsNull(src: string, i: nat, j: nat, c: char)
    requires Clean(src, i) == Ok(c, j + 1) && (c == ',' || c == ':' || c == ']' || c == '}' || c == '\0')
    ensures Value(src, i) == Ok(Null, j)
  {
    assert c == CharAt(src, j);
    assert WordEnd(src, j) == j && Word(src, j) == "";
    assert Chomp("") == "";
  }

  // A word without quotes is a string, but for the three constants and what looks like a number.
  ghost predicate IsBareWord(w: string) {
    && w != "" && w[0] > ' ' && w[0] != '\'' && w[0] != '{' && w[0] != '['
    && (forall k :: 0 <= k < |w| ==> !Stops(w[k])) && w[|w| - 1] != '\n' && w[|w| - 1] != '\r'
    && w != "true" && w != "false" && w != "null" && !LooksNumeric(w)
  }

  lemma {:induction false} WordEndIs(src: string, i: nat, w: string)
    requires At(src, i, w) && forall k :: 0 <= k < |w| ==> !Stops(w[k])
    ensures WordEnd(src, i) == WordEnd(src, i + |w|)
    decreases |w|
  {
    if w != "" {
      AtChar(src, i, w, 0);
      assert w == w[..1] + w[1..];
      AtParts(src, i, w[..1], w[1..]);
      WordEndIs(src, i + 1, w[1..]);
    }
  }

  lemma BareWordIsRead(src: string, i: nat, w: string)
    requires IsBareWord(w) && At(src, i, w) && Stops(CharAt(src, i + |w|))
    ensures Value(src, i) == Ok(Str(w), i + |w|)
  {
    AtChar(src, i, w, 0);
    CleanFinds(src, i);
    WordIs(src, i, w);
    ChompNeedsLineEnd(w);
    hide Clean, Chomp, LooksNumeric, At, Word, WordEnd, Stops, HashValue, ArrayValue, StringFrom;
  }

  lemma WordIs(src: string, i: nat, w: string)
    requires w != "" && At(src, i, w) && Stops(CharAt(src, i + |w|)) && forall k :: 0 <= k < |w| ==> !Stops(w[k])
    ensures WordEnd(src, i) == i + |w| && Word(src, i) == w
  {
    hide Stops;
    WordEndIs(src, i, w);
    assert WordEnd(src, i + |w|) == i + |w|;
  }

  // A sign before the digits is taken as it is meant, also a plus.
  lemma PlusIsRead(n: nat, next: nat)
    ensures WordValue("+" + NatText(n), next) == Ok(Int(n), next)
  {
    var t := "+" + NatText(n);
    NatTextReadsBack(n);
    assert t[0] == '+' && t[1..] == NatText(n) && NumericAt(t, 0);
    assert "true"[0] == 't' && "false"[0] == 'f' && "null"[0] == 'n';
    assert !IsPlain(t);
  }

  // A comma before the closing bracket adds no element.
  lemma TrailingCommaEndsArray(src: string, i: nat, acc: seq<Json>, v: Json, j: nat, k: nat, m: nat)
    requires Value(src, i) == Ok(v, j) && Clean(src, j) == Ok(',', k) && Clean(src, k) == Ok(']', m)
    ensures ArrayFrom(src, i, acc) == Ok(Arr(acc + [v]), m)
  {
    hide Value, Clean;
  }

  // The same for an object; a key that was there before keeps its place and takes the later value.
  lemma TrailingCommaEndsHash(src: string, i: nat, acc: seq<Member>, key: string, v: Json, p: nat, q: nat, j: nat, k: nat, m: nat)
    requires DistinctKeys(acc) && CharAt(src, i) == '"' && Value(src, i) == Ok(Str(key), p)
    requires Clean(src, p) == Ok(':', q) && Value(src, q) == Ok(v, j) && Clean(src, j) == Ok(',', k) && Clean(src, k) == Ok('}', m)
    ensures HashFrom(src, i, acc).Ok? && HashFrom(src, i, acc).next == m && HashFrom(src, i, acc).value.Obj?
    ensures var after := HashFrom(src, i, acc).value.members;
      && (forall n :: 0 <= n < |acc| && acc[n].key == key ==> after == acc[n := Member(key, v)])
      && ((forall n :: 0 <= n < |acc| ==> acc[n].key != key) ==> after == acc + [Member(key, v)])
  {
    CleanFinds(src, i);
    hide Value, Clean, Put, DistinctKeys;
    if forall n :: 0 <= n < |acc| ==> acc[n].key != key {
      PutNew(acc, key, v);
    }
    forall n | 0 <= n < |acc| && acc[n].key == key ensures Put(acc, key, v) == acc[n := Member(key, v)] {
      PutOld(acc, key, v, n);
    }
  }
}
