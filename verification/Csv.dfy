// Comma-separated values: the printer, and the parser with its token scanner.
module Csv {
  datatype Token = Eof | Eol | Field(text: string)

  // ---------------------------------------------------------------- printing

  function Double(s: string): string {
    if s == "" then "" else (if s[0] == '"' then "\"\"" else [s[0]]) + Double(s[1..])
  }

  predicate IsSpecial(c: char) {
    c == '"' || c == ',' || c == '\n'
  }

  predicate NeedsQuotes(s: string) {
    exists i :: 0 <= i < |s| && IsSpecial(s[i])
  }

  function FormatValue(s: string): string {
    if NeedsQuotes(s) then "\"" + Double(s) + "\"" else s
  }

  function FormatRow(row: seq<string>): string {
    if row == [] then ""
    else if |row| == 1 then FormatValue(row[0])
    else FormatValue(row[0]) + "," + FormatRow(row[1..])
  }

  function Format(rows: seq<seq<string>>): string {
    if rows == [] then ""
    else if |rows| == 1 then FormatRow(rows[0])
    else FormatRow(rows[0]) + "\n" + Format(rows[1..])
  }

  // ---------------------------------------------------------------- the scanner as functions of the text left

  // The text from i on; nothing when i is past the end.
  function Drop(s: string, i: nat): string {
    if i <= |s| then s[i..] else ""
  }

  // How far the content of a quoted field reaches: up to a quote that is not doubled, or to the end.
  function QuoteLength(s: string): (n: nat)
    ensures n <= |s|
  {
    if s == "" then 0
    else if s[0] != '"' then 1 + QuoteLength(s[1..])
    else if |s| > 1 && s[1] == '"' then 2 + QuoteLength(s[2..])
    else 0
  }

  function Undouble(s: string): string {
    if s == "" then ""
    else if |s| > 1 && s[0] == '"' && s[1] == '"' then "\"" + Undouble(s[2..])
    else [s[0]] + Undouble(s[1..])
  }

  predicate IsSeparator(c: char) {
    c == ',' || c == '\r' || c == '\n'
  }

  function SeparatorIndex(s: string): (n: nat)
    ensures n <= |s|
  {
    if s == "" || IsSeparator(s[0]) then 0 else 1 + SeparatorIndex(s[1..])
  }

  predicate CharIs(s: string, i: nat, c: char) {
    i < |s| && s[i] == c
  }

  // The next token, the text after it, and whether a line ended with it.
  function Next(s: string, eol: bool): (r: (Token, string, bool))
    ensures r.0.Field? ==> |r.1| < |s|
    ensures r.0.Eol? ==> r.1 == s && eol && !r.2
    ensures (r.0.Eof? <==> s == "") && (r.0.Eof? ==> r == (Eof, s, eol))
  {
    if s == "" then (Eof, s, eol)
    else if eol then (Eol, s, false)
    else if s[0] == '"' then
      var q := s[1..];
      var n := QuoteLength(q);
      var field := Field(Undouble(q[..n]));
      if CharIs(q, n + 1, '\r') then (field, Drop(q, if CharIs(q, n + 2, '\n') then n + 3 else n + 2), true)
      else (field, Drop(q, n + 2), CharIs(q, n + 1, '\n'))
    else
      var n := SeparatorIndex(s);
      if n == |s| then (Field(s), "", false)
      else (Field(s[..n]), s[if CharIs(s, n, '\r') && CharIs(s, n + 1, '\n') then n + 2 else n + 1..], s[n] != ',')
  }

  // The fields up to the end of the line or of the text.
  function Fields(s: string, eol: bool): (r: (seq<string>, string, bool))
    ensures |r.1| <= |s|
    ensures r.0 != [] ==> |r.1| < |s|
    decreases |s|, eol
  {
    var (t, rest, e) := Next(s, eol);
    if t.Field? then var (row, s', e') := Fields(rest, e); ([t.text] + row, s', e') else ([], rest, e)
  }

  function Rows(s: string, eol: bool): seq<seq<string>>
    decreases |s|, eol
  {
    if s == "" then []
    else var (row, rest, e) := Fields(s, eol); [row] + Rows(rest, e)
  }

  function Parsed(text: string): seq<seq<string>> {
    Rows(text, false)
  }

  // Between rows no line end is pending, unless nothing is left.
  lemma {:induction false} FieldsLeaveNoLineEnd(s: string, eol: bool)
    ensures var (row, rest, e) := Fields(s, eol); rest == "" || !e
    decreases |s|, eol
  {
    hide Next;
    var (t, rest, e) := Next(s, eol);
    if t.Field? {
      FieldsLeaveNoLineEnd(rest, e);
    }
  }

  lemma {:induction false} RowsAreNonempty(s: string, eol: bool)
    requires s == "" || !eol
    ensures forall row :: row in Rows(s, eol) ==> row != []
    decreases |s|
  {
    hide Next;
    if s != "" {
      var (row, rest, e) := Fields(s, eol);
      FieldsLeaveNoLineEnd(s, eol);
      RowsAreNonempty(rest, e);
    }
  }

  // A quoted token that starts at j and whose closing quote is at i, or missing.
  lemma NextQuoted(text: string, j: nat, i: nat)
    requires CharIs(text, j, '"') && var n := QuoteLength(text[j + 1..]); i == if j + 1 + n < |text| then j + 1 + n else |text| + 1
    ensures var crlf := CharIs(text, i + 1, '\r') && CharIs(text, i + 2, '\n');
      Next(Drop(text, j), false)
      == (Field(Undouble(text[j + 1..if i < |text| then i else |text|])), Drop(text, if crlf then i + 3 else i + 2),
          CharIs(text, i + 1, '\r') || CharIs(text, i + 1, '\n'))
  {
    hide QuoteLength, Undouble, SeparatorIndex;
    var s, q := text[j..], text[j + 1..];
    assert s[1..] == q;
    var n := QuoteLength(q);
    assert text[j + 1..if i < |text| then i else |text|] == q[..n];
    assert CharIs(q, n + 1, '\r') == CharIs(text, i + 1, '\r') && CharIs(q, n + 1, '\n') == CharIs(text, i + 1, '\n');
    assert CharIs(q, n + 1, '\r') ==> CharIs(q, n + 2, '\n') == CharIs(text, i + 2, '\n');
    assert Drop(q, n + 2) == Drop(text, i + 2) && Drop(q, n + 3) == Drop(text, i + 3);
  }

  // ---------------------------------------------------------------- the scanner as the program runs it

  class Scanner {
    const text: string
    var lastIndex: nat
    var eol: bool

    constructor (text: string)
      ensures this.text == text && lastIndex == 0 && !eol
    {
      this.text := text;
      lastIndex, eol := 0, false;
    }

    function Rest(): string
      reads this
    {
      Drop(text, lastIndex)
    }

    // The index of the quote that closes the field opened at j; past the end when there is none.
    method CloseQuote(j: nat) returns (i: nat)
      requires CharIs(text, j, '"')
      ensures var n := QuoteLength(text[j + 1..]);
        i == if j + 1 + n < |text| then j + 1 + n else |text| + 1
    {
      var closed := false;
      i := j;
      while i < |text| && !closed
        invariant j <= i <= |text|
        invariant if closed then i < |text| && i == j + 1 + QuoteLength(text[j + 1..])
                  else i < |text| ==> QuoteLength(text[j + 1..]) == i - j + QuoteLength(text[i + 1..])
        invariant !closed && i == |text| ==> QuoteLength(text[j + 1..]) == |text| - j - 1
        decreases |text| - i, !closed
      {
        ghost var left := text[i + 1..];
        i := i + 1;
        if CharIs(text, i, '"') {
          if !CharIs(text, i + 1, '"') {
            closed := true;
          } else {
            assert left[2..] == text[i + 2..];
            i := i + 1;
          }
        } else if i < |text| {
          assert left[1..] == text[i + 1..];
        }
      }
      if !closed {
        i := i + 1;
      }
    }

    method NextToken() returns (t: Token)
      modifies this`lastIndex, this`eol
      ensures (t, Rest(), eol) == Next(old(Rest()), old(eol))
    {
      hide QuoteLength, Undouble, SeparatorIndex;
      if lastIndex >= |text| {
        return Eof;
      }
      if eol {
        eol := false;
        return Eol;
      }
      if text[lastIndex] == '"' {
        t := QuotedToken();
      } else {
        t := PlainToken();
      }
    }

    method QuotedToken() returns (t: Token)
      requires CharIs(text, lastIndex, '"') && !eol
      modifies this`lastIndex, this`eol
      ensures (t, Rest(), eol) == Next(old(Rest()), false)
    {
      hide Next, QuoteLength, Undouble;
      var j := lastIndex;
      var i := CloseQuote(j);
      lastIndex := i + 2;
      if CharIs(text, i + 1, '\r') {
        eol := true;
        if CharIs(text, i + 2, '\n') {
          lastIndex := lastIndex + 1;
        }
      } else if CharIs(text, i + 1, '\n') {
        eol := true;
      }
      NextQuoted(text, j, i);
      t := Field(Undouble(text[j + 1..if i < |text| then i else |text|]));
    }

    method PlainToken() returns (t: Token)
      requires lastIndex < |text| && text[lastIndex] != '"' && !eol
      modifies this`lastIndex, this`eol
      ensures (t, Rest(), eol) == Next(old(Rest()), false)
    {
      ghost var rest := Rest();
      var j := lastIndex;
      var m := j;
      while m < |text| && !IsSeparator(text[m])
        invariant j <= m <= |text|
        invariant SeparatorIndex(rest) == m - j + SeparatorIndex(text[m..])
      {
        assert text[m..][1..] == text[m + 1..];
        m := m + 1;
      }
      assert SeparatorIndex(rest) == m - j;
      if m < |text| {
        lastIndex := if CharIs(text, m, '\r') && CharIs(text, m + 1, '\n') then m + 2 else m + 1;
        eol := text[m] != ',';
        assert text[j..m] == rest[..m - j];
        return Field(text[j..m]);
      }
      lastIndex := |text|;
      return Field(text[j..]);
    }
  }

  // What is left to read of a row whose first fields are a.
  ghost predicate RowLeft(s: string, e: bool, a: seq<string>, s': string, e': bool) {
    Fields(s, e) == (a + Fields(s', e').0, Fields(s', e').1, Fields(s', e').2)
  }

  lemma FieldRead(s: string, e: bool, a: seq<string>, s': string, e': bool)
    requires RowLeft(s, e, a, s', e') && Next(s', e').0.Field?
    ensures var (t, s'', e'') := Next(s', e'); RowLeft(s, e, a + [t.text], s'', e'')
  {
    hide Next;
    var (t, s'', e'') := Next(s', e');
    assert a + ([t.text] + Fields(s'', e'').0) == a + [t.text] + Fields(s'', e'').0;
  }

  lemma RowRead(s: string, e: bool, a: seq<string>, s': string, e': bool, rows: seq<seq<string>>)
    requires s != "" && RowLeft(s, e, a, s', e') && !Next(s', e').0.Field?
    ensures rows + Rows(s, e) == rows + [a] + Rows(Next(s', e').1, Next(s', e').2)
  {
    hide Next;
    assert a + [] == a;
  }

  method ParseRows(text: string) returns (rows: seq<seq<string>>)
    ensures rows == Parsed(text)
  {
    hide Next, Fields, Rows, RowLeft;
    rows := [];
    var scanner := new Scanner(text);
    ghost var s, e := text, false;
    var t := scanner.NextToken();
    while t != Eof
      invariant Rows(text, false) == rows + Rows(s, e)
      invariant (t, scanner.Rest(), scanner.eol) == Next(s, e)
      decreases |s|, e
    {
      var a := [];
      ghost var s', e' := s, e;
      assert RowLeft(s, e, a, s', e') by {
        NothingRead(s, e);
      }
      while t != Eol && t != Eof
        invariant (t, scanner.Rest(), scanner.eol) == Next(s', e')
        invariant RowLeft(s, e, a, s', e')
        invariant if a == [] then s' == s && e' == e else |s'| < |s|
        decreases |s'|
      {
        FieldRead(s, e, a, s', e');
        a := a + [t.text];
        s', e' := scanner.Rest(), scanner.eol;
        t := scanner.NextToken();
      }
      RowRead(s, e, a, s', e', rows);
      rows := rows + [a];
      s, e := scanner.Rest(), scanner.eol;
      t := scanner.NextToken();
    }
    NothingLeft(e);
  }

  lemma NothingLeft(e: bool)
    ensures Rows("", e) == []
  {
  }

  lemma NothingRead(s: string, e: bool)
    ensures RowLeft(s, e, [], s, e)
  {
    hide Fields;
    assert [] + Fields(s, e).0 == Fields(s, e).0;
  }
}
