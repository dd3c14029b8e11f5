/**
 * The recipient spreadsheet reader of the schedule form: delimiter
 * detection, the quote-aware field splitter, header normalisation, line
 * splitting and `parseCsvText`, together with the writer of the downloadable
 * template, whose rows the reader must read back.
 *
 * The field splitter is a simplified form of the quoting in section 2 of
 * RFC 4180: a field may be enclosed in double quotes, a delimiter inside the
 * quotes is data, and inside a quoted field a doubled quote `""` stands for
 * one literal quote.
 */
module Csv {
  import opened Text

  // ---------------------------------------------------------------------------
  // detectDelimiter
  // ---------------------------------------------------------------------------

  /** How often `c` occurs in `s`: `(s.match(/c/g) || []).length`. */
  function Count(s: string, c: char): (n: nat)
    ensures n <= |s|
    ensures n == 0 <==> c !in s
  {
    if s == [] then 0
    else
      assert c in s <==> s[0] == c || c in s[1..];
      (if s[0] == c then 1 else 0) + Count(s[1..], c)
  }

  lemma {:induction false} CountConcat(a: string, b: string, c: char)
    ensures Count(a + b, c) == Count(a, c) + Count(b, c)
  {
    if a == [] {
      assert a + b == b;
    } else {
      assert (a + b)[1..] == a[1..] + b;
      CountConcat(a[1..], b, c);
    }
  }

  /** `;` when the header line holds strictly more semicolons than commas, `,` otherwise. */
  function DetectDelimiter(headerLine: string): (d: char)
    ensures d == ';' || d == ','
    ensures d == ';' <==> Count(headerLine, ';') > Count(headerLine, ',')
  {
    if Count(headerLine, ';') > Count(headerLine, ',') then ';' else ','
  }

  // ---------------------------------------------------------------------------
  // Writing a row
  // ---------------------------------------------------------------------------

  /** `cells.join(d)`. */
  function JoinWith(cells: seq<string>, d: char): (r: string)
    decreases |cells|
  {
    if cells == [] then []
    else if |cells| == 1 then cells[0]
    else cells[0] + [d] + JoinWith(cells[1..], d)
  }

  /** `String(value).replace(/"/g, '""')`: every quote doubled. */
  function Escape(v: string): (r: string)
    ensures |r| >= |v|
    ensures v != [] && v[0] == '"' ==> r != [] && r[0] == '"'
  {
    if v == [] then []
    else if v[0] == '"' then "\"\"" + Escape(v[1..])
    else [v[0]] + Escape(v[1..])
  }

  /** A cell of the template writer: always enclosed in quotes. */
  function QuoteCell(v: string): (r: string)
    ensures |r| >= 2 && r[0] == '"' && r[|r| - 1] == '"'
  {
    "\"" + Escape(v) + "\""
  }

  function QuoteAll(cells: seq<string>): (r: seq<string>)
    ensures |r| == |cells|
    ensures forall i :: 0 <= i < |cells| ==> r[i] == QuoteCell(cells[i])
  {
    if cells == [] then [] else [QuoteCell(cells[0])] + QuoteAll(cells[1..])
  }

  /** One data row of the downloadable template: every cell quoted, joined by `d`. */
  function WriteRow(cells: seq<string>, d: char): (r: string)
    ensures cells != [] ==> r != [] && r[0] == '"'
  {
    JoinWith(QuoteAll(cells), d)
  }

  // ---------------------------------------------------------------------------
  // The field splitter
  // ---------------------------------------------------------------------------

  /**
   * When a doubled quote `""` counts as one literal quote: anywhere in the
   * line (the reader as written) or only inside a quoted field (section 2 of
   * RFC 4180).
   */
  datatype QuoteRule = EscapeAnywhere | EscapeInQuotes

  /**
   * The character loop of the splitter from the rest `s` of the line, with
   * the quote state and the cell read so far: a quote either stands for a
   * doubled quote or toggles the state, an unquoted delimiter closes the
   * cell, and the end of the line closes the last one.
   */
  function Cells(s: string, d: char, rule: QuoteRule, inQuotes: bool, buffer: string): (r: seq<string>)
    ensures |r| >= 1
    decreases |s|
  {
    if s == [] then [buffer]
    else if s[0] == '"' then
      if |s| > 1 && s[1] == '"' && (rule == EscapeAnywhere || inQuotes) then
        Cells(s[2..], d, rule, inQuotes, buffer + "\"")
      else Cells(s[1..], d, rule, !inQuotes, buffer)
    else if s[0] == d && !inQuotes then [buffer] + Cells(s[1..], d, rule, false, [])
    else Cells(s[1..], d, rule, inQuotes, buffer + [s[0]])
  }

  /** `output.map(cell => cell.trim())`. */
  function TrimAll(cells: seq<string>): (r: seq<string>)
    ensures |r| == |cells|
    ensures forall i :: 0 <= i < |cells| ==> r[i] == Trim(cells[i])
  {
    if cells == [] then [] else [Trim(cells[0])] + TrimAll(cells[1..])
  }

  /** The splitter as written: `""` is read as a literal quote even outside a quoted field. */
  function SplitRecordAsWritten(line: string, d: char): (r: seq<string>)
    ensures |r| >= 1
  {
    TrimAll(Cells(line, d, EscapeAnywhere, false, []))
  }

  /** The splitter with `""` read as a literal quote only inside a quoted field. */
  function SplitRecord(line: string, d: char): (r: seq<string>)
    ensures |r| >= 1
  {
    TrimAll(Cells(line, d, EscapeInQuotes, false, []))
  }

  // ---------------------------------------------------------------------------
  // Reading back what the writer wrote
  // ---------------------------------------------------------------------------

  /** The escaped content and the closing quote of a quoted cell read back as the content. */
  lemma {:induction false} QuotedContentScan(v: string, rest: string, d: char, buffer: string)
    requires rest == [] || rest[0] != '"'
    ensures Cells(Escape(v) + "\"" + rest, d, EscapeInQuotes, true, buffer)
         == Cells(rest, d, EscapeInQuotes, false, buffer + v)
  {
    var s := Escape(v) + "\"" + rest;
    if v == [] {
      assert s == "\"" + rest;
      assert s[1..] == rest;
      assert buffer + v == buffer;
    } else if v[0] == '"' {
      assert s == "\"\"" + (Escape(v[1..]) + "\"" + rest);
      assert s[2..] == Escape(v[1..]) + "\"" + rest;
      QuotedContentScan(v[1..], rest, d, buffer + "\"");
      assert buffer + "\"" + v[1..] == buffer + v;
    } else {
      assert s == [v[0]] + (Escape(v[1..]) + "\"" + rest);
      assert s[1..] == Escape(v[1..]) + "\"" + rest;
      QuotedContentScan(v[1..], rest, d, buffer + [v[0]]);
      assert buffer + [v[0]] + v[1..] == buffer + v;
    }
  }

  /** A quoted cell at the start of a field reads back as its content. */
  lemma QuotedCellScan(v: string, rest: string, d: char)
    requires rest == [] || rest[0] != '"'
    ensures Cells(QuoteCell(v) + rest, d, EscapeInQuotes, false, [])
         == Cells(rest, d, EscapeInQuotes, false, v)
  {
    var s := QuoteCell(v) + rest;
    assert s == "\"" + (Escape(v) + "\"" + rest);
    assert s[1..] == Escape(v) + "\"" + rest;
    QuotedContentScan(v, rest, d, []);
    assert [] + v == v;
  }

  lemma {:induction false} WrittenCellsScan(cells: seq<string>, d: char)
    requires cells != [] && d != '"'
    ensures Cells(WriteRow(cells, d), d, EscapeInQuotes, false, []) == cells
    decreases |cells|
  {
    var q := QuoteAll(cells);
    if |cells| == 1 {
      assert WriteRow(cells, d) == QuoteCell(cells[0]) + [];
      QuotedCellScan(cells[0], [], d);
    } else {
      var tail := WriteRow(cells[1..], d);
      assert QuoteAll(cells[1..]) == q[1..];
      assert WriteRow(cells, d) == QuoteCell(cells[0]) + ([d] + tail);
      QuotedCellScan(cells[0], [d] + tail, d);
      assert ([d] + tail)[1..] == tail;
      WrittenCellsScan(cells[1..], d);
      assert cells == [cells[0]] + cells[1..];
    }
  }

  /**
   * The reader reads every row the template writer writes back cell by cell,
   * whatever quotes and delimiters the cells hold (up to the trim every cell
   * gets).
   */
  lemma WriteThenSplit(cells: seq<string>, d: char)
    requires cells != [] && d != '"'
    ensures SplitRecord(WriteRow(cells, d), d) == TrimAll(cells)
  {
    WrittenCellsScan(cells, d);
  }

  /** The characters of the row `"c",""` for a single character `c`. */
  predicate IsQuotedEmptyRow(line: string, c: char) {
    |line| == 6 && line[0] == '"' && line[1] == c && line[2] == '"' && line[3] == ','
    && line[4] == '"' && line[5] == '"'
  }

  lemma WrittenEmptyCellRow(cells: seq<string>)
    requires |cells| == 2 && |cells[0]| == 1 && cells[0][0] != '"' && cells[1] == []
    ensures IsQuotedEmptyRow(WriteRow(cells, ','), cells[0][0])
  {
    var q := QuoteAll(cells);
    assert q[1..] == [q[1]];
    assert Escape(cells[0]) == cells[0];
    assert Escape(cells[1]) == [];
    assert JoinWith(q[1..], ',') == q[1];
    assert WriteRow(cells, ',') == q[0] + [','] + q[1];
  }

  /** A one-character string that is not white space trims to itself. */
  lemma TrimOfChar(s: string)
    requires |s| == 1 && !IsSpace(s[0])
    ensures Trim(s) == s
  {
  }

  lemma AsWrittenQuotedEmptyRow(line: string, c: char)
    requires IsQuotedEmptyRow(line, c) && c != '"' && c != ',' && !IsSpace(c)
    ensures SplitRecordAsWritten(line, ',') == [[c], "\""]
  {
    var r := EscapeAnywhere;
    var t1, t2, t3, t4 := line[1..], line[2..], line[3..], line[4..];
    assert t4 == "\"\"" && t4[2..] == [];
    assert t3 == [','] + t4 && t3[1..] == t4;
    assert t2[0] == '"' && t2[1] == ',' && t2[1..] == t3;
    assert t1[0] == c && t1[1..] == t2;
    assert line[0] == '"' && line[1] == c && line[1..] == t1;
    assert Cells([], ',', r, false, "\"") == ["\""];
    assert [] + "\"" == "\"";
    assert Cells(t4, ',', r, false, []) == ["\""];
    assert Cells(t3, ',', r, false, [c]) == [[c], "\""];
    assert Cells(t2, ',', r, true, [c]) == [[c], "\""];
    assert [] + [c] == [c];
    assert Cells(t1, ',', r, true, []) == [[c], "\""];
    assert Cells(line, ',', r, false, []) == [[c], "\""];
    TrimOfChar([c]);
    TrimOfChar("\"");
  }

  /**
   * The reader as written fails that round trip: the row `"c",""` the writer
   * writes for a one-character cell `c` and an empty cell reads back as `c`
   * and a lone quote, where the corrected reader reads `c` and the empty cell.
   */
  lemma AsWrittenMisreadsEmptyCell(cells: seq<string>)
    requires |cells| == 2 && |cells[0]| == 1 && cells[1] == []
    requires cells[0][0] != '"' && cells[0][0] != ',' && !IsSpace(cells[0][0])
    ensures SplitRecordAsWritten(WriteRow(cells, ','), ',') == [cells[0], "\""]
    ensures SplitRecord(WriteRow(cells, ','), ',') == cells
  {
    var line := WriteRow(cells, ',');
    WrittenEmptyCellRow(cells);
    AsWrittenQuotedEmptyRow(line, cells[0][0]);
    assert [cells[0][0]] == cells[0];
    WriteThenSplit(cells, ',');
    TrimOfChar(cells[0]);
    assert TrimAll(cells) == cells;
  }

  // ---------------------------------------------------------------------------
  // Lines without quotes
  // ---------------------------------------------------------------------------

  lemma JoinWithCons(x: string, rest: seq<string>, d: char)
    requires rest != []
    ensures JoinWith([x] + rest, d) == x + [d] + JoinWith(rest, d)
  {
    assert ([x] + rest)[1..] == rest;
  }

  /** The string holds no double quote. */
  predicate Unquoted(s: string) {
    forall i :: 0 <= i < |s| ==> s[i] != '"'
  }

  /** An unquoted delimiter closes the cell read so far. */
  lemma CellsAtDelimiter(s: string, d: char, rule: QuoteRule, buffer: string)
    requires s != [] && s[0] == d && d != '"'
    ensures Cells(s, d, rule, false, buffer) == [buffer] + Cells(s[1..], d, rule, false, [])
  {
  }

  /** Any other character other than a quote joins the cell read so far. */
  lemma CellsAtOther(s: string, d: char, rule: QuoteRule, buffer: string)
    requires s != [] && s[0] != d && s[0] != '"'
    ensures Cells(s, d, rule, false, buffer) == Cells(s[1..], d, rule, false, buffer + [s[0]])
  {
  }

  /** Without quotes, joining the cells again gives back the line. */
  lemma {:induction false} PlainCellsJoin(s: string, d: char, rule: QuoteRule, buffer: string)
    requires Unquoted(s)
    ensures JoinWith(Cells(s, d, rule, false, buffer), d) == buffer + s
    decreases |s|
  {
    if s == [] {
      assert buffer + s == buffer;
    } else {
      assert Unquoted(s[1..]);
      if s[0] == d {
        var rest := Cells(s[1..], d, rule, false, []);
        CellsAtDelimiter(s, d, rule, buffer);
        PlainCellsJoin(s[1..], d, rule, []);
        JoinWithCons(buffer, rest, d);
        PlainJoinStep(buffer, d, s);
      } else {
        CellsAtOther(s, d, rule, buffer);
        PlainCellsJoin(s[1..], d, rule, buffer + [s[0]]);
        assert buffer + [s[0]] + s[1..] == buffer + s;
      }
    }
  }

  lemma PlainJoinStep(buffer: string, d: char, s: string)
    requires s != [] && s[0] == d
    ensures buffer + [d] + ([] + s[1..]) == buffer + s
  {
    assert [] + s[1..] == s[1..];
    assert s == [d] + s[1..];
  }

  /** Without quotes, no cell holds the delimiter. */
  lemma {:induction false} PlainCellsCut(s: string, d: char, rule: QuoteRule, buffer: string)
    requires Unquoted(s) && d !in buffer
    ensures var r := Cells(s, d, rule, false, buffer); forall i :: 0 <= i < |r| ==> d !in r[i]
    decreases |s|
  {
    if s != [] {
      assert Unquoted(s[1..]);
      if s[0] == d {
        var rest := Cells(s[1..], d, rule, false, []);
        PlainCellsCut(s[1..], d, rule, []);
        CellsAtDelimiter(s, d, rule, buffer);
        var r := [buffer] + rest;
        forall i | 0 <= i < |r| ensures d !in r[i] {
          if i > 0 {
            assert r[i] == rest[i - 1];
          }
        }
      } else {
        CellsAtOther(s, d, rule, buffer);
        PlainCellsCut(s[1..], d, rule, buffer + [s[0]]);
      }
    }
  }

  /** On a line without quotes the two splitters agree and cut at every delimiter. */
  lemma PlainLineSplit(line: string, d: char)
    requires Unquoted(line)
    ensures Cells(line, d, EscapeAnywhere, false, []) == Cells(line, d, EscapeInQuotes, false, [])
    ensures var r := Cells(line, d, EscapeInQuotes, false, []);
      JoinWith(r, d) == line && forall i :: 0 <= i < |r| ==> d !in r[i]
  {
    PlainCellsJoin(line, d, EscapeInQuotes, []);
    PlainCellsCut(line, d, EscapeInQuotes, []);
    PlainRulesAgree(line, d, []);
    assert [] + line == line;
  }

  lemma {:induction false} PlainRulesAgree(s: string, d: char, buffer: string)
    requires Unquoted(s)
    ensures Cells(s, d, EscapeAnywhere, false, buffer) == Cells(s, d, EscapeInQuotes, false, buffer)
    decreases |s|
  {
    if s != [] {
      assert Unquoted(s[1..]);
      if s[0] == d {
        PlainRulesAgree(s[1..], d, []);
      } else {
        PlainRulesAgree(s[1..], d, buffer + [s[0]]);
      }
    }
  }

  /** A row of two or more cells joined by `;` or `,`, with neither in any cell, is read with the delimiter it was written with. */
  lemma {:induction false} DetectJoinedDelimiter(cells: seq<string>, d: char)
    requires d == ';' || d == ','
    requires |cells| >= 1
    requires forall i :: 0 <= i < |cells| ==> ';' !in cells[i] && ',' !in cells[i]
    ensures Count(JoinWith(cells, d), d) == |cells| - 1
    ensures Count(JoinWith(cells, d), if d == ';' then ',' else ';') == 0
    decreases |cells|
  {
    var other := if d == ';' then ',' else ';';
    if |cells| > 1 {
      DetectJoinedDelimiter(cells[1..], d);
      CountConcat(cells[0] + [d], JoinWith(cells[1..], d), d);
      CountConcat(cells[0], [d], d);
      CountConcat(cells[0] + [d], JoinWith(cells[1..], d), other);
      CountConcat(cells[0], [d], other);
    }
  }

  lemma DetectDelimiterOfJoined(cells: seq<string>, d: char)
    requires d == ';' || d == ','
    requires |cells| >= 2
    requires forall i :: 0 <= i < |cells| ==> ';' !in cells[i] && ',' !in cells[i]
    ensures DetectDelimiter(JoinWith(cells, d)) == d
  {
    DetectJoinedDelimiter(cells, d);
  }

  // ---------------------------------------------------------------------------
  // normalizeHeader
  // ---------------------------------------------------------------------------

  /** `[a-z0-9_ -]`: a character a normalised header keeps. */
  predicate IsHeaderChar(c: char) {
    ('a' <= c <= 'z') || IsDigit(c) || c == '_' || c == ' ' || c == '-'
  }

  predicate AllHeaderChars(s: string) {
    forall i :: 0 <= i < |s| ==> IsHeaderChar(s[i])
  }

  /** `.replace(/[^a-z0-9_ -]/g, '')`. */
  function KeepHeaderChars(s: string): (r: string)
    ensures |r| <= |s|
    ensures AllHeaderChars(r)
    ensures AllHeaderChars(s) ==> r == s
  {
    if s == [] then []
    else if IsHeaderChar(s[0]) then [s[0]] + KeepHeaderChars(s[1..])
    else KeepHeaderChars(s[1..])
  }

  /**
   * `normalizeHeader`: trimmed, lower-cased, and with every character outside
   * `[a-z0-9_ -]` removed.
   */
  function NormalizeHeader(value: string): (r: string)
    ensures AllHeaderChars(r) && |r| <= |value|
  {
    KeepHeaderChars(LowerString(Trim(value)))
  }

  /** A string free of spaces at both ends. */
  predicate Trimmed(s: string) {
    s == [] || (!IsSpace(s[0]) && !IsSpace(s[|s| - 1]))
  }

  lemma TrimOfTrimmed(s: string)
    requires Trimmed(s)
    ensures Trim(s) == s
  {
    assert TrimStart(s) == s;
  }

  lemma LowerOfHeaderChars(s: string)
    requires AllHeaderChars(s)
    ensures LowerString(s) == s
  {
  }

  /** A header is left as it is exactly when it already holds header characters only and no outer space. */
  lemma NormalizeHeaderFixedIff(value: string)
    ensures NormalizeHeader(value) == value <==> AllHeaderChars(value) && Trimmed(value)
  {
    if AllHeaderChars(value) && Trimmed(value) {
      TrimOfTrimmed(value);
      LowerOfHeaderChars(value);
    }
    if NormalizeHeader(value) == value {
      var t := Trim(value);
      assert |t| == |value|;
      assert TrimStart(value) == value;
      assert TrimEnd(value) == value;
    }
  }

  // ---------------------------------------------------------------------------
  // Lines
  // ---------------------------------------------------------------------------

  /** The first position of `c` in `s`. */
  function IndexOf(s: string, c: char): (i: nat)
    requires c in s
    ensures i < |s| && s[i] == c
    ensures forall j :: 0 <= j < i ==> s[j] != c
  {
    if s[0] == c then 0
    else
      assert c in s[1..] by { assert s == [s[0]] + s[1..]; }
      1 + IndexOf(s[1..], c)
  }

  /** A carriage return ending a line belongs to the separator `\r\n`. */
  function DropReturn(s: string): (r: string)
    ensures r == s || (s != [] && s[|s| - 1] == '\r' && r == s[..|s| - 1])
  {
    if s != [] && s[|s| - 1] == '\r' then s[..|s| - 1] else s
  }

  /** `text.split(/\r?\n/)`. */
  function SplitLines(s: string): (r: seq<string>)
    ensures |r| >= 1
    decreases |s|
  {
    if '\n' in s then
      var i := IndexOf(s, '\n');
      [DropReturn(s[..i])] + SplitLines(s[i + 1..])
    else [s]
  }

  /** No line holds a line break. */
  lemma {:induction false} SplitLinesBreakFree(s: string)
    ensures forall k :: 0 <= k < |SplitLines(s)| ==> '\n' !in SplitLines(s)[k]
    decreases |s|
  {
    if '\n' in s {
      var i := IndexOf(s, '\n');
      SplitLinesBreakFree(s[i + 1..]);
      var first := DropReturn(s[..i]);
      assert forall j :: 0 <= j < |first| ==> first[j] == s[j];
      assert '\n' !in first;
      var r := SplitLines(s);
      assert r == [first] + SplitLines(s[i + 1..]);
      forall k | 0 <= k < |r| ensures '\n' !in r[k] {
        if k > 0 {
          assert r[k] == SplitLines(s[i + 1..])[k - 1];
        }
      }
    }
  }

  /** The line separator of a writer: `\n` or `\r\n`. */
  function Separator(crlf: bool): string {
    if crlf then "\r\n" else "\n"
  }

  /** `lines.join(separator)`. */
  function JoinLines(lines: seq<string>, crlf: bool): string
    decreases |lines|
  {
    if lines == [] then []
    else if |lines| == 1 then lines[0]
    else lines[0] + Separator(crlf) + JoinLines(lines[1..], crlf)
  }

  /** A line that holds neither a line feed nor a carriage return. */
  predicate IsBareLine(l: string) {
    '\n' !in l && '\r' !in l
  }

  /** The first line break of a joined text ends the first line. */
  lemma FirstBreak(l: string, crlf: bool, rest: string)
    requires IsBareLine(l)
    ensures var s := l + Separator(crlf) + rest;
      '\n' in s && IndexOf(s, '\n') == |l| + |Separator(crlf)| - 1
    ensures var s := l + Separator(crlf) + rest;
      s[..|l| + |Separator(crlf)| - 1] == (if crlf then l + "\r" else l)
      && s[|l| + |Separator(crlf)|..] == rest
  {
    var s := l + Separator(crlf) + rest;
    var k := |l| + |Separator(crlf)| - 1;
    assert s[k] == '\n';
    assert forall j :: 0 <= j < |l| ==> s[j] == l[j];
    assert forall j :: 0 <= j < k ==> s[j] != '\n';
  }

  /** Splitting a joined text cuts off the first line. */
  lemma SplitLinesStep(l: string, crlf: bool, rest: string)
    requires IsBareLine(l)
    ensures SplitLines(l + Separator(crlf) + rest) == [l] + SplitLines(rest)
  {
    var s := l + Separator(crlf) + rest;
    FirstBreak(l, crlf, rest);
    var i := IndexOf(s, '\n');
    assert crlf ==> (l + "\r")[..|l|] == l;
    assert !crlf ==> l == [] || l[|l| - 1] in l;
    assert DropReturn(s[..i]) == l;
  }

  /**
   * Splitting the text a writer joins with `\n` or `\r\n` gives back its
   * lines, whichever separator it used.
   */
  lemma {:induction false} SplitJoinedLines(lines: seq<string>, crlf: bool)
    requires lines != []
    requires forall k :: 0 <= k < |lines| ==> IsBareLine(lines[k])
    ensures SplitLines(JoinLines(lines, crlf)) == lines
    decreases |lines|
  {
    if |lines| == 1 {
      assert JoinLines(lines, crlf) == lines[0];
      assert '\n' !in lines[0];
    } else {
      var rest := JoinLines(lines[1..], crlf);
      assert JoinLines(lines, crlf) == lines[0] + Separator(crlf) + rest;
      SplitLinesStep(lines[0], crlf, rest);
      SplitJoinedLines(lines[1..], crlf);
      assert lines == [lines[0]] + lines[1..];
    }
  }

  /** `.filter(line => line.trim() !== '')`: the non-blank lines, in order. */
  function NonBlankLines(lines: seq<string>): (r: seq<string>)
    ensures |r| <= |lines|
    ensures forall k :: 0 <= k < |r| ==> !IsBlank(r[k]) && r[k] in lines
    ensures forall l :: l in lines && !IsBlank(l) ==> l in r
  {
    if lines == [] then []
    else
      var rest := NonBlankLines(lines[1..]);
      assert forall l :: l in lines ==> l == lines[0] || l in lines[1..];
      if IsBlank(lines[0]) then rest else [lines[0]] + rest
  }

  // ---------------------------------------------------------------------------
  // parseCsvText
  // ---------------------------------------------------------------------------

  /** What `parseCsvText` returns: normalised headers, the data rows and the headers as written. */
  datatype CsvTable = CsvTable(headers: seq<string>, rows: seq<seq<string>>, originalHeaders: seq<string>)

  /**
   * The table of the non-blank lines: the first is the header row and fixes
   * the delimiter; every later line is one data row.
   */
  function ParseLines(lines: seq<string>): (r: CsvTable)
    ensures lines == [] ==> r == CsvTable([], [], [])
    ensures lines != [] ==>
      && r.originalHeaders == SplitRecord(lines[0], DetectDelimiter(lines[0]))
      && |r.rows| == |lines| - 1
      && forall k :: 0 <= k < |r.rows| ==> r.rows[k] == SplitRecord(lines[k + 1], DetectDelimiter(lines[0]))
    ensures |r.headers| == |r.originalHeaders|
    ensures forall k :: 0 <= k < |r.headers| ==> r.headers[k] == NormalizeHeader(r.originalHeaders[k])
  {
    if lines == [] then CsvTable([], [], [])
    else
      var d := DetectDelimiter(lines[0]);
      var original := SplitRecord(lines[0], d);
      var rows := lines[1..];
      CsvTable(
        seq(|original|, k requires 0 <= k < |original| => NormalizeHeader(original[k])),
        seq(|rows|, k requires 0 <= k < |rows| => SplitRecord(rows[k], d)),
        original)
  }

  /**
   * `parseCsvText`: blank lines are dropped and the rest read as a table; a
   * text of blank lines only gives the empty table, and every data row comes
   * from a non-blank line after the header.
   */
  function ParseCsvText(text: string): (r: CsvTable)
    ensures var lines := NonBlankLines(SplitLines(text));
      && (lines == [] <==> r.originalHeaders == [])
      && (lines == [] ==> r == CsvTable([], [], []))
      && (lines != [] ==> |r.rows| == |lines| - 1)
    ensures (forall k :: 0 <= k < |SplitLines(text)| ==> IsBlank(SplitLines(text)[k])) <==> r == CsvTable([], [], [])
    ensures |r.rows| < |SplitLines(text)|
  {
    var lines := NonBlankLines(SplitLines(text));
    var all := SplitLines(text);
    assert lines == [] <==> forall k :: 0 <= k < |all| ==> IsBlank(all[k]) by {
      if lines != [] {
        assert lines[0] in all;
      }
      assert forall k :: 0 <= k < |all| && !IsBlank(all[k]) ==> all[k] in lines;
    }
    ParseLines(lines)
  }

  // ---------------------------------------------------------------------------
  // Reading back the downloadable template
  // ---------------------------------------------------------------------------

  /** An unquoted cell free of the delimiter is read up to the character after it. */
  lemma {:induction false} PlainCellScan(c: string, rest: string, d: char, rule: QuoteRule, buffer: string)
    requires Unquoted(c) && d !in c
    ensures Cells(c + rest, d, rule, false, buffer) == Cells(rest, d, rule, false, buffer + c)
    decreases |c|
  {
    if c == [] {
      assert c + rest == rest && buffer + c == buffer;
    } else {
      assert c[0] in c && Unquoted(c[1..]) && d !in c[1..];
      assert (c + rest)[1..] == c[1..] + rest;
      CellsAtOther(c + rest, d, rule, buffer);
      PlainCellScan(c[1..], rest, d, rule, buffer + [c[0]]);
      assert buffer + [c[0]] + c[1..] == buffer + c;
    }
  }

  /** Unquoted cells free of the delimiter, joined by it, are read back one by one. */
  lemma {:induction false} PlainJoinScan(cells: seq<string>, d: char, rule: QuoteRule)
    requires cells != [] && d != '"'
    requires forall k :: 0 <= k < |cells| ==> Unquoted(cells[k]) && d !in cells[k]
    ensures Cells(JoinWith(cells, d), d, rule, false, []) == cells
    decreases |cells|
  {
    if |cells| == 1 {
      PlainCellScan(cells[0], [], d, rule, []);
      assert cells[0] + [] == cells[0] && [] + cells[0] == cells[0];
    } else {
      var tail := JoinWith(cells[1..], d);
      assert JoinWith(cells, d) == cells[0] + ([d] + tail);
      PlainCellScan(cells[0], [d] + tail, d, rule, []);
      assert [] + cells[0] == cells[0];
      CellsAtDelimiter([d] + tail, d, rule, cells[0]);
      assert ([d] + tail)[1..] == tail;
      PlainJoinScan(cells[1..], d, rule);
      assert cells == [cells[0]] + cells[1..];
    }
  }

  /** `rows.map(row => row.map(quote).join(','))`. */
  function WrittenRows(rows: seq<seq<string>>): (r: seq<string>)
    ensures |r| == |rows|
    ensures forall k :: 0 <= k < |rows| ==> r[k] == WriteRow(rows[k], ',')
  {
    seq(|rows|, k requires 0 <= k < |rows| => WriteRow(rows[k], ','))
  }

  /** The lines of the downloadable template: the header row joined by `,`, then the quoted data rows. */
  function TemplateLines(headers: seq<string>, rows: seq<seq<string>>): (r: seq<string>)
    ensures |r| == |rows| + 1 && r[0] == JoinWith(headers, ',')
    ensures forall k :: 0 <= k < |rows| ==> r[k + 1] == WriteRow(rows[k], ',')
  {
    [JoinWith(headers, ',')] + WrittenRows(rows)
  }

  /** The downloadable template: its lines joined by `\n`. */
  function WriteTable(headers: seq<string>, rows: seq<seq<string>>): string {
    JoinLines(TemplateLines(headers, rows), false)
  }

  lemma {:induction false} EscapeBare(v: string)
    requires IsBareLine(v)
    ensures IsBareLine(Escape(v))
  {
    if v != [] {
      assert v[0] in v;
      EscapeBare(v[1..]);
    }
  }

  lemma {:induction false} JoinWithBare(cells: seq<string>, d: char)
    requires d != '\n' && d != '\r'
    requires forall k :: 0 <= k < |cells| ==> IsBareLine(cells[k])
    ensures IsBareLine(JoinWith(cells, d))
    decreases |cells|
  {
    if |cells| > 1 {
      JoinWithBare(cells[1..], d);
    }
  }

  lemma WriteRowBare(cells: seq<string>)
    requires forall k :: 0 <= k < |cells| ==> IsBareLine(cells[k])
    ensures IsBareLine(WriteRow(cells, ','))
  {
    var q := QuoteAll(cells);
    forall k | 0 <= k < |q| ensures IsBareLine(q[k]) {
      EscapeBare(cells[k]);
    }
    JoinWithBare(q, ',');
  }

  /** A string with a character other than white space is not blank. */
  lemma NotBlankAt(s: string, i: nat)
    requires i < |s| && !IsSpace(s[i])
    ensures !IsBlank(s)
  {
  }

  lemma {:induction false} NonBlankLinesOfNonBlank(lines: seq<string>)
    requires forall k :: 0 <= k < |lines| ==> !IsBlank(lines[k])
    ensures NonBlankLines(lines) == lines
  {
    if lines != [] {
      NonBlankLinesOfNonBlank(lines[1..]);
      assert lines == [lines[0]] + lines[1..];
    }
  }

  /** The plain header cells of the template. */
  predicate PlainHeaders(headers: seq<string>) {
    forall k :: 0 <= k < |headers| ==>
      Unquoted(headers[k]) && IsBareLine(headers[k]) && ',' !in headers[k] && ';' !in headers[k]
  }

  /** Data rows of one or more cells, free of line breaks. */
  predicate BareRows(rows: seq<seq<string>>) {
    && (forall k :: 0 <= k < |rows| ==> rows[k] != [])
    && (forall k, j :: 0 <= k < |rows| && 0 <= j < |rows[k]| ==> IsBareLine(rows[k][j]))
  }

  /** The header line holds no line break and, holding a comma, is not blank. */
  lemma HeaderLineShape(headers: seq<string>)
    requires |headers| >= 2 && PlainHeaders(headers)
    ensures IsBareLine(JoinWith(headers, ',')) && !IsBlank(JoinWith(headers, ','))
  {
    var h := JoinWith(headers, ',');
    JoinWithBare(headers, ',');
    assert h == headers[0] + [','] + JoinWith(headers[1..], ',');
    assert h[|headers[0]|] == ',';
    NotBlankAt(h, |headers[0]|);
  }

  /** A data line holds no line break and, starting with a quote, is not blank. */
  lemma RowLineShape(cells: seq<string>)
    requires cells != [] && forall j :: 0 <= j < |cells| ==> IsBareLine(cells[j])
    ensures IsBareLine(WriteRow(cells, ',')) && !IsBlank(WriteRow(cells, ','))
  {
    WriteRowBare(cells);
    NotBlankAt(WriteRow(cells, ','), 0);
  }

  /** No template line holds a line break or is blank. */
  lemma TemplateLinesShape(headers: seq<string>, rows: seq<seq<string>>)
    requires |headers| >= 2 && PlainHeaders(headers) && BareRows(rows)
    ensures var lines := TemplateLines(headers, rows);
      forall k :: 0 <= k < |lines| ==> IsBareLine(lines[k]) && !IsBlank(lines[k])
  {
    var lines := TemplateLines(headers, rows);
    forall k | 0 <= k < |lines| ensures IsBareLine(lines[k]) && !IsBlank(lines[k]) {
      if k == 0 {
        HeaderLineShape(headers);
      } else {
        RowLineShape(rows[k - 1]);
      }
    }
  }

  /** The template's lines are split apart again and none of them is dropped. */
  lemma WrittenLines(headers: seq<string>, rows: seq<seq<string>>)
    requires |headers| >= 2 && PlainHeaders(headers) && BareRows(rows)
    ensures NonBlankLines(SplitLines(WriteTable(headers, rows))) == TemplateLines(headers, rows)
  {
    var lines := TemplateLines(headers, rows);
    TemplateLinesShape(headers, rows);
    SplitJoinedLines(lines, false);
    NonBlankLinesOfNonBlank(lines);
  }

  /**
   * The reader reads back the template the writer writes: with two or more
   * plain header cells and data cells free of line breaks, the headers as
   * written and every data row come back cell by cell, up to the trim every
   * cell gets, whatever quotes or commas the data cells hold.
   */
  lemma ReadWrittenTable(headers: seq<string>, rows: seq<seq<string>>)
    requires |headers| >= 2 && PlainHeaders(headers) && BareRows(rows)
    ensures var r := ParseCsvText(WriteTable(headers, rows));
      && r.originalHeaders == TrimAll(headers)
      && |r.rows| == |rows|
      && forall k :: 0 <= k < |rows| ==> r.rows[k] == TrimAll(rows[k])
  {
    var h := JoinWith(headers, ',');
    WrittenLines(headers, rows);
    DetectJoinedDelimiter(headers, ',');
    assert DetectDelimiter(h) == ',';
    PlainJoinScan(headers, ',', EscapeInQuotes);
    forall k | 0 <= k < |rows| ensures SplitRecord(WriteRow(rows[k], ','), ',') == TrimAll(rows[k]) {
      WriteThenSplit(rows[k], ',');
    }
  }
}
