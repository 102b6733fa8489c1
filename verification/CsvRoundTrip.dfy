// Parsing what the printer wrote gives the rows back, exactly when they are printable. The same holds
// when the rows are put on lines that end with a carriage return, or with both characters, as section 2
// of RFC 4180 has it.
module CsvRoundTrip {
  import opened Csv

  // A carriage return alone does not make the printer quote a field, but it ends the field when parsed.
  predicate FieldReadsBack(s: string) {
    '\r' in s ==> NeedsQuotes(s)
  }

  predicate RowReadsBack(row: seq<string>) {
    forall i :: 0 <= i < |row| ==> FieldReadsBack(row[i])
  }

  predicate Printable(rows: seq<seq<string>>) {
    && (forall i :: 0 <= i < |rows| ==> rows[i] != [] && RowReadsBack(rows[i]))
    && (rows != [] ==> EndsVisibly(rows[|rows| - 1]))
  }

  // An empty field at the very end leaves no trace.
  predicate EndsVisibly(row: seq<string>) {
    row != [] ==> row[|row| - 1] != ""
  }

  // What may follow a field: the end, a comma, or the end of a line.
  predicate IsTail(tail: string) {
    tail == "" || IsSeparator(tail[0])
  }

  predicate IsLineTail(tail: string) {
    tail == "" || tail[0] == '\r' || tail[0] == '\n'
  }

  predicate IsLineEnd(end: string) {
    end == "\n" || end == "\r" || end == "\r\n"
  }

  // The rows with line ends between them.
  function Lines(rows: seq<seq<string>>, end: string): string {
    if rows == [] then ""
    else if |rows| == 1 then FormatRow(rows[0])
    else FormatRow(rows[0]) + (end + Lines(rows[1..], end))
  }

  lemma {:induction false} FormatIsLines(rows: seq<seq<string>>)
    ensures Format(rows) == Lines(rows, "\n")
    decreases |rows|
  {
    hide FormatRow;
    if |rows| > 1 {
      FormatIsLines(rows[1..]);
      assert FormatRow(rows[0]) + "\n" + Lines(rows[1..], "\n") == FormatRow(rows[0]) + ("\n" + Lines(rows[1..], "\n"));
    }
  }

  // ---------------------------------------------------------------- one field

  lemma {:induction false} DoubleReadsBack(s: string, tail: string)
    requires !CharIs(tail, 0, '"')
    ensures QuoteLength(Double(s) + "\"" + tail) == |Double(s)|
    ensures Undouble(Double(s)) == s
  {
    if s == "" {
      assert Double(s) + "\"" + tail == "\"" + tail;
    } else {
      DoubleReadsBack(s[1..], tail);
      var rest := Double(s[1..]) + "\"" + tail;
      if s[0] == '"' {
        assert Double(s) + "\"" + tail == "\"\"" + rest;
        assert ("\"\"" + rest)[2..] == rest && Double(s)[2..] == Double(s[1..]);
      } else {
        assert Double(s) + "\"" + tail == [s[0]] + rest;
        assert ([s[0]] + rest)[1..] == rest && Double(s)[1..] == Double(s[1..]);
      }
    }
  }

  lemma {:induction false} PlainReadsBack(s: string, tail: string)
    requires (forall i :: 0 <= i < |s| ==> !IsSeparator(s[i])) && IsTail(tail)
    ensures SeparatorIndex(s + tail) == |s|
  {
    if s == "" {
      assert s + tail == tail;
    } else {
      assert (s + tail)[1..] == s[1..] + tail;
      PlainReadsBack(s[1..], tail);
    }
  }

  lemma {:induction false} SeparatorComesFirst(s: string, tail: string, i: nat)
    requires i < |s| && IsSeparator(s[i])
    ensures SeparatorIndex(s + tail) <= i
  {
    if !IsSeparator(s[0]) {
      assert (s + tail)[1..] == s[1..] + tail;
      SeparatorComesFirst(s[1..], tail, i - 1);
    }
  }

  // The text after the field, with its comma or line end removed.
  function AfterTail(tail: string): string {
    if tail == "" then ""
    else if CharIs(tail, 0, '\r') && CharIs(tail, 1, '\n') then tail[2..]
    else tail[1..]
  }

  predicate EndsLine(tail: string) {
    tail != "" && tail[0] != ','
  }

  function Quoted(s: string): string {
    "\"" + Double(s) + "\""
  }

  // A field in quotes, whether it needs them or not.
  lemma QuotedFieldIsNext(s: string, tail: string)
    requires IsTail(tail)
    ensures Next(Quoted(s) + tail, false) == (Field(s), AfterTail(tail), EndsLine(tail))
  {
    hide QuoteLength, Undouble, SeparatorIndex, Double;
    DoubleReadsBack(s, tail);
    var text, q := Quoted(s) + tail, Double(s) + "\"" + tail;
    assert text == "\"" + q;
    assert text[1..] == q;
    var n := |Double(s)|;
    assert q[..n] == Double(s);
    assert tail != "" ==> q[n + 1] == tail[0];
    assert |tail| > 1 ==> q[n + 2] == tail[1];
    assert |tail| > 0 ==> Drop(q, n + 2) == tail[1..];
    assert |tail| > 1 ==> Drop(q, n + 3) == tail[2..];
  }

  // Malformed text: a character between the closing quote and the separator is dropped, and the text after
  // it is the next field of the line. Without a closing quote the field reaches to the end.
  lemma StrayCharacterIsDropped(s: string, c: char, rest: string)
    requires c != '"' && !IsSeparator(c)
    ensures Next(Quoted(s) + ([c] + rest), false) == (Field(s), rest, false)
  {
    hide QuoteLength, Undouble, SeparatorIndex, Double;
    var tail := [c] + rest;
    DoubleReadsBack(s, tail);
    var text, q := Quoted(s) + tail, Double(s) + "\"" + tail;
    assert text == "\"" + q;
    assert text[1..] == q;
    var n := |Double(s)|;
    assert q[..n] == Double(s);
    assert q[n + 1] == c && Drop(q, n + 2) == rest;
  }

  lemma OpenQuoteReachesEnd(s: string)
    ensures Next("\"" + Double(s), false) == (Field(s), "", false)
  {
    hide QuoteLength, Undouble, SeparatorIndex, Double;
    OpenDoubleReadsBack(s);
    var q := Double(s);
    assert ("\"" + q)[1..] == q && q[..|q|] == q;
  }

  lemma {:induction false} OpenDoubleReadsBack(s: string)
    ensures QuoteLength(Double(s)) == |Double(s)| && Undouble(Double(s)) == s
  {
    if s != "" {
      OpenDoubleReadsBack(s[1..]);
      if s[0] == '"' {
        assert Double(s)[2..] == Double(s[1..]);
      } else {
        assert Double(s)[1..] == Double(s[1..]);
      }
    }
  }

  lemma PlainFieldIsNext(s: string, tail: string)
    requires !NeedsQuotes(s) && '\r' !in s && IsTail(tail) && s + tail != ""
    ensures Next(FormatValue(s) + tail, false) == (Field(s), AfterTail(tail), EndsLine(tail))
  {
    hide QuoteLength, Undouble, SeparatorIndex;
    assert forall i :: 0 <= i < |s| ==> !IsSpecial(s[i]);
    PlainReadsBack(s, tail);
    var text := s + tail;
    assert text[0] == if s != "" then s[0] else tail[0];
    assert text[..|s|] == s;
    assert tail == "" ==> text == s;
    assert tail != "" ==> text[|s|] == tail[0] && text[|s| + 1..] == tail[1..];
    assert |tail| > 1 ==> text[|s| + 1] == tail[1] && text[|s| + 2..] == tail[2..];
  }

  lemma FieldIsNext(s: string, tail: string)
    requires FieldReadsBack(s) && IsTail(tail) && FormatValue(s) + tail != ""
    ensures Next(FormatValue(s) + tail, false) == (Field(s), AfterTail(tail), EndsLine(tail))
  {
    hide Next;
    if NeedsQuotes(s) {
      QuotedFieldIsNext(s, tail);
    } else {
      PlainFieldIsNext(s, tail);
    }
  }

  lemma BrokenFieldIsNotNext(s: string, tail: string)
    requires !FieldReadsBack(s) && IsTail(tail)
    ensures Next(FormatValue(s) + tail, false).0.Field? && Next(FormatValue(s) + tail, false).0.text != s
  {
    hide QuoteLength, Undouble, SeparatorIndex;
    var i :| 0 <= i < |s| && s[i] == '\r';
    SeparatorComesFirst(s, tail, i);
    assert (s + tail)[0] == s[0] && !IsSpecial(s[0]);
  }

  // ---------------------------------------------------------------- which fields are quoted

  ghost predicate HoldsSpecial(s: string) {
    '"' in s || ',' in s || '\n' in s
  }

  lemma QuotedIff(s: string)
    ensures FormatValue(s) == if HoldsSpecial(s) then Quoted(s) else s
    ensures '"' in FormatValue(s) <==> HoldsSpecial(s)
  {
    hide Double;
    assert NeedsQuotes(s) <==> HoldsSpecial(s);
    assert Quoted(s)[0] == '"';
  }

  lemma {:induction false} QuotedInRow(row: seq<string>)
    ensures '"' in FormatRow(row) <==> exists i :: 0 <= i < |row| && HoldsSpecial(row[i])
    decreases |row|
  {
    hide FormatValue, HoldsSpecial;
    if row != [] {
      QuotedIff(row[0]);
      QuotedInRow(row[1..]);
      assert forall i :: 0 < i < |row| ==> row[i] == row[1..][i - 1];
      assert forall i :: 0 <= i < |row| - 1 ==> row[1..][i] == row[i + 1];
    }
  }

  // There are quotes in the text exactly when some field holds a quote, a comma or a line feed.
  lemma {:induction false} QuotedOnlyWhenNeeded(rows: seq<seq<string>>)
    ensures '"' in Format(rows) <==> exists i :: 0 <= i < |rows| && exists j :: 0 <= j < |rows[i]| && HoldsSpecial(rows[i][j])
    decreases |rows|
  {
    hide FormatRow, HoldsSpecial;
    if rows != [] {
      QuotedInRow(rows[0]);
      QuotedOnlyWhenNeeded(rows[1..]);
      assert forall i :: 0 < i < |rows| ==> rows[i] == rows[1..][i - 1];
      assert forall i :: 0 <= i < |rows| - 1 ==> rows[1..][i] == rows[i + 1];
    }
  }

  // ---------------------------------------------------------------- one row

  lemma AfterComma(rest: string)
    ensures AfterTail("," + rest) == rest && !EndsLine("," + rest) && IsTail("," + rest)
  {
  }

  lemma {:induction false} RowIsRead(row: seq<string>, tail: string)
    requires row != [] && RowReadsBack(row) && IsLineTail(tail) && FormatRow(row) + tail != ""
    requires tail == "" ==> EndsVisibly(row)
    ensures Fields(FormatRow(row) + tail, false).0 == row
    ensures Fields(FormatRow(row) + tail, false).1 == AfterTail(tail)
    ensures AfterTail(tail) != "" ==> !Fields(FormatRow(row) + tail, false).2
    decreases |row|
  {
    hide Next, FormatValue, FieldReadsBack, AfterTail, EndsLine, IsTail, IsLineTail;
    assert FieldReadsBack(row[0]);
    if |row| == 1 {
      LineIsEnded(tail);
      FieldIsNext(row[0], tail);
      NoFieldIsNext(AfterTail(tail), EndsLine(tail));
    } else {
      var rest := FormatRow(row[1..]) + tail;
      assert FormatRow(row) + tail == FormatValue(row[0]) + ("," + rest);
      AfterComma(rest);
      FieldIsNext(row[0], "," + rest);
      assert rest != "" by {
        if rest == "" {
          LastFieldShows(row[1..]);
        }
      }
      RowIsRead(row[1..], tail);
    }
  }

  lemma LineIsEnded(tail: string)
    requires IsLineTail(tail)
    ensures IsTail(tail) && (AfterTail(tail) == "" || EndsLine(tail))
  {
  }

  lemma NoFieldIsNext(s: string, eol: bool)
    requires s == "" || eol
    ensures Fields(s, eol).0 == [] && Fields(s, eol).1 == s && (s != "" ==> !Fields(s, eol).2)
  {
  }

  lemma {:induction false} LastFieldShows(row: seq<string>)
    requires row != [] && FormatRow(row) == ""
    ensures row == [""]
  {
  }

  lemma {:induction false} BrokenRowIsNotRead(row: seq<string>, tail: string)
    requires row != [] && !RowReadsBack(row) && IsLineTail(tail)
    ensures FormatRow(row) + tail != "" && Fields(FormatRow(row) + tail, false).0 != row
    decreases |row|
  {
    hide Next, FormatValue, FieldReadsBack;
    var rest := if |row| == 1 then tail else "," + (FormatRow(row[1..]) + tail);
    assert FormatRow(row) + tail == FormatValue(row[0]) + rest;
    if !FieldReadsBack(row[0]) {
      BrokenFieldIsNotNext(row[0], rest);
    } else {
      var i :| 0 <= i < |row| && !FieldReadsBack(row[i]);
      assert row[i] == row[1..][i - 1];
      BrokenRowIsNotRead(row[1..], tail);
      FieldIsNext(row[0], rest);
      assert AfterTail(rest) == FormatRow(row[1..]) + tail;
    }
  }

  // A row that ends the text with an empty field is read without that field, if at all.
  lemma {:induction false} InvisibleEndIsLost(row: seq<string>)
    requires row != [] && RowReadsBack(row) && !EndsVisibly(row)
    ensures Rows(FormatRow(row), false) != [row]
    decreases |row|
  {
    hide Next, FormatValue, FieldReadsBack;
    if FormatRow(row) != "" {
      FieldsDropLast(row);
      RowsStartWith(FormatRow(row), false);
    }
  }

  lemma RowsStartWith(s: string, eol: bool)
    requires s != "" && !eol
    ensures var (row, rest, e) := Fields(s, eol);
      Rows(s, eol) == [row] + Rows(rest, false) && Rows(s, eol)[0] == row && Rows(s, eol)[1..] == Rows(rest, false)
  {
    hide Fields;
    FieldsLeaveNoLineEnd(s, eol);
  }

  lemma {:induction false} FieldsDropLast(row: seq<string>)
    requires row != [] && RowReadsBack(row) && !EndsVisibly(row) && FormatRow(row) != ""
    ensures |Fields(FormatRow(row), false).0| < |row|
    decreases |row|
  {
    hide Next, FieldReadsBack, FormatValue;
    assert FieldReadsBack(row[0]);
    EmptyIsPlain();
    var rest := FormatRow(row[1..]);
    assert FormatRow(row) == FormatValue(row[0]) + ("," + rest);
    FieldIsNext(row[0], "," + rest);
    assert AfterTail("," + rest) == rest;
    if rest != "" {
      FieldsDropLast(row[1..]);
    }
  }

  lemma EmptyIsPlain()
    ensures FormatValue("") == ""
  {
  }

  // ---------------------------------------------------------------- all rows

  // No row is written with a line feed in front, which would be taken with a carriage return before it.
  lemma LineFeedIsNotFirst(rows: seq<seq<string>>, end: string)
    requires rows != [] && rows[0] != [] && IsLineEnd(end) && end != "\n"
    ensures !CharIs(Lines(rows, end), 0, '\n')
  {
    hide FormatRow;
    RowStarts(rows[0]);
  }

  lemma RowStarts(row: seq<string>)
    requires row != []
    ensures !CharIs(FormatRow(row), 0, '\n')
  {
    hide FormatValue;
    ValueStarts(row[0]);
    assert |row| > 1 ==> FormatRow(row) == FormatValue(row[0]) + ("," + FormatRow(row[1..]));
  }

  lemma ValueStarts(s: string)
    ensures !CharIs(FormatValue(s), 0, '\n')
  {
    hide Double;
    assert !NeedsQuotes(s) && s != "" ==> !IsSpecial(s[0]);
  }

  // What follows the first row.
  function LinesTail(rows: seq<seq<string>>, end: string): string
    requires rows != []
  {
    if |rows| == 1 then "" else end + Lines(rows[1..], end)
  }

  lemma TailOfLines(rows: seq<seq<string>>, end: string)
    requires rows != [] && IsLineEnd(end) && (|rows| > 1 ==> rows[1] != [])
    ensures Lines(rows, end) == FormatRow(rows[0]) + LinesTail(rows, end) && IsLineTail(LinesTail(rows, end))
    ensures AfterTail(LinesTail(rows, end)) == if |rows| == 1 then "" else Lines(rows[1..], end)
    ensures LinesTail(rows, end) == "" <==> |rows| == 1
  {
    assert AfterTail("") == "";
    hide FormatRow, Lines, AfterTail, IsLineEnd;
    LinesUnfold(rows, end);
    if |rows| > 1 {
      var rest := Lines(rows[1..], end);
      if end != "\n" {
        LineFeedIsNotFirst(rows[1..], end);
      }
      AfterLineEnd(rest, end);
    }
  }

  lemma LinesUnfold(rows: seq<seq<string>>, end: string)
    requires rows != []
    ensures Lines(rows, end) == FormatRow(rows[0]) + LinesTail(rows, end)
  {
    hide FormatRow;
    assert FormatRow(rows[0]) + "" == FormatRow(rows[0]);
  }

  lemma AfterLineEnd(rest: string, end: string)
    requires IsLineEnd(end) && (end != "\n" ==> !CharIs(rest, 0, '\n'))
    ensures AfterTail(end + rest) == rest && IsLineTail(end + rest) && end + rest != ""
  {
    var tail := end + rest;
    if end == "\r\n" {
      assert tail[1] == '\n' && tail[2..] == rest;
    } else {
      assert tail[1..] == rest && tail[0] == end[0];
    }
  }

  lemma PrintableRest(rows: seq<seq<string>>, end: string)
    requires Printable(rows) && rows != [] && IsLineEnd(end)
    ensures rows[0] != [] && RowReadsBack(rows[0]) && Printable(rows[1..]) && (|rows| > 1 ==> rows[1] != [])
    ensures |rows| == 1 ==> EndsVisibly(rows[0])
    ensures Lines(rows, end) != "" && (|rows| > 1 ==> Lines(rows[1..], end) != "")
  {
    hide RowReadsBack, Lines, FormatRow;
    VisibleIsNotEmpty(rows, end);
    if |rows| > 1 {
      assert rows[1..][|rows| - 2] == rows[|rows| - 1];
      VisibleIsNotEmpty(rows[1..], end);
    }
  }

  lemma {:induction false} LinesRoundTrip(rows: seq<seq<string>>, end: string)
    requires Printable(rows) && IsLineEnd(end)
    ensures Parsed(Lines(rows, end)) == rows
    decreases |rows|
  {
    hide Fields, FormatRow, RowReadsBack, EndsVisibly, Rows, Printable, LinesTail, AfterTail;
    NothingLeft(false);
    if rows != [] {
      PrintableRest(rows, end);
      TailOfLines(rows, end);
      RowsStartWith(Lines(rows, end), false);
      RowIsRead(rows[0], LinesTail(rows, end));
      LinesRoundTrip(rows[1..], end);
    }
  }

  lemma VisibleIsNotEmpty(rows: seq<seq<string>>, end: string)
    requires rows != [] && rows[|rows| - 1] != [] && EndsVisibly(rows[|rows| - 1]) && IsLineEnd(end)
    ensures Lines(rows, end) != ""
  {
    if |rows| == 1 && Lines(rows, end) == "" {
      LastFieldShows(rows[0]);
    }
  }

  lemma {:induction false} OnlyPrintableLinesRoundTrip(rows: seq<seq<string>>, end: string)
    requires Parsed(Lines(rows, end)) == rows && IsLineEnd(end)
    ensures Printable(rows)
    decreases |rows|
  {
    hide Fields, FormatRow, RowReadsBack, Rows, EndsVisibly, LinesTail, AfterTail;
    NothingLeft(false);
    if rows != [] {
      RowsAreNonempty(Lines(rows, end), false);
      assert rows[0] in rows && (|rows| > 1 ==> rows[1] in rows);
      TailOfLines(rows, end);
      var tail := LinesTail(rows, end);
      if !RowReadsBack(rows[0]) {
        BrokenRowIsNotRead(rows[0], tail);
        RowsStartWith(Lines(rows, end), false);
      } else if |rows| == 1 {
        assert Lines(rows, end) == FormatRow(rows[0]);
        if !EndsVisibly(rows[0]) {
          InvisibleEndIsLost(rows[0]);
        }
      } else {
        RowsStartWith(Lines(rows, end), false);
        RowIsRead(rows[0], tail);
        assert Parsed(Lines(rows, end))[1..] == rows[1..];
        OnlyPrintableLinesRoundTrip(rows[1..], end);
        assert forall i :: 1 <= i < |rows| ==> rows[i] == rows[1..][i - 1];
      }
    }
  }

  // Whichever of the three line ends is written between the rows: they are read back exactly when they
  // are printable.
  lemma LinesRoundTripIff(rows: seq<seq<string>>, end: string)
    requires IsLineEnd(end)
    ensures Parsed(Lines(rows, end)) == rows <==> Printable(rows)
  {
    hide Printable, Lines, Parsed;
    if Printable(rows) {
      LinesRoundTrip(rows, end);
    }
    if Parsed(Lines(rows, end)) == rows {
      OnlyPrintableLinesRoundTrip(rows, end);
    }
  }

  // The printer writes a line feed.
  lemma RoundTripsIff(rows: seq<seq<string>>)
    ensures Parsed(Format(rows)) == rows <==> Printable(rows)
  {
    FormatIsLines(rows);
    LinesRoundTripIff(rows, "\n");
    hide Printable, Lines, Parsed, Format;
  }

  // The rows with a line end after each of them, the last one too.
  function Terminated(rows: seq<seq<string>>, end: string): string {
    if rows == [] then "" else FormatRow(rows[0]) + (end + Terminated(rows[1..], end))
  }

  lemma TerminatedStarts(rows: seq<seq<string>>, end: string)
    requires (rows != [] ==> rows[0] != []) && IsLineEnd(end) && end != "\n"
    ensures !CharIs(Terminated(rows, end), 0, '\n')
  {
    hide FormatRow;
    if rows != [] {
      RowStarts(rows[0]);
    }
  }

  // With a line end after every row nothing is lost at the end, and an empty last field counts.
  lemma {:induction false} TerminatedRoundTripsIff(rows: seq<seq<string>>, end: string)
    requires IsLineEnd(end)
    ensures Parsed(Terminated(rows, end)) == rows <==> forall i :: 0 <= i < |rows| ==> rows[i] != [] && RowReadsBack(rows[i])
    decreases |rows|
  {
    hide Fields, FormatRow, RowReadsBack, Rows, AfterTail, IsLineTail;
    NothingLeft(false);
    if rows != [] {
      var rest := Terminated(rows[1..], end);
      TerminatedRoundTripsIff(rows[1..], end);
      assert forall i :: 1 <= i < |rows| ==> rows[i] == rows[1..][i - 1];
      RowsAreNonempty(Terminated(rows, end), false);
      assert Parsed(Terminated(rows, end)) == rows ==> rows[0] in rows && (|rows| > 1 ==> rows[1] in rows);
      if rows[0] != [] && (|rows| > 1 ==> rows[1] != []) {
        if end != "\n" {
          TerminatedStarts(rows[1..], end);
        }
        AfterLineEnd(rest, end);
        RowsStartWith(Terminated(rows, end), false);
        if RowReadsBack(rows[0]) {
          RowIsRead(rows[0], end + rest);
        } else {
          BrokenRowIsNotRead(rows[0], end + rest);
        }
      }
    }
  }
}
