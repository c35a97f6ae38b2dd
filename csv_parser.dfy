/**
 * The delimited-text parser: line-ending normalisation, separator detection
 * from the first line, a quote-aware scanner that splits the text into rows of
 * cells, and the header / data-row split that drops blank rows.
 *
 * Quoting follows section 2 (rule 7) of RFC 4180 for doubled quotes, with
 * these departures: `;` is chosen instead of `,` when the first line has a
 * `;` and no `,`; a `"` opens quoting anywhere in a field; CR and CRLF are
 * turned into LF; and the whole text is trimmed before scanning.
 */
module CsvParser {
  import opened Text

  type Row = seq<string>

  /** The scanner's variables: finished rows, the row being built, the field being built, and whether a quote is open. */
  datatype ScanState = ScanState(rows: seq<Row>, row: Row, current: string, inQuotes: bool)

  const Start := ScanState([], [], "", false)

  /** `row.some(cell => cell.trim() !== "")`. */
  predicate HasContent(row: Row) {
    exists k | 0 <= k < |row| :: !IsBlank(row[k])
  }

  /** End of text: the last field is pushed, and the last row is kept only if it has content. */
  function Finish(st: ScanState): (rows: seq<Row>)
    ensures |st.rows| <= |rows| <= |st.rows| + 1
    ensures rows[..|st.rows|] == st.rows
  {
    var last := st.row + [st.current];
    if HasContent(last) then st.rows + [last] else st.rows
  }

  /** The last row is added exactly when its last field or one of its earlier fields is not blank. */
  lemma {:induction false} FinishFlush(st: ScanState)
    ensures |Finish(st)| == |st.rows| + 1
      <==> !IsBlank(st.current) || exists k | 0 <= k < |st.row| :: !IsBlank(st.row[k])
    ensures |Finish(st)| == |st.rows| + 1 ==> Finish(st)[|st.rows|] == st.row + [st.current]
  {
    var last := st.row + [st.current];
    assert last[|st.row|] == st.current;
    assert forall k | 0 <= k < |st.row| :: last[k] == st.row[k];
  }

  /** The rows the scanner returns when it meets `rest` in state `st` (the loop of `parseCSVRows`, one character at a time). */
  function Scan(rest: string, sep: char, st: ScanState): seq<Row>
    decreases |rest|
  {
    if rest == [] then Finish(st)
    else
      var c := rest[0];
      if st.inQuotes then
        if c == '"' then
          if |rest| > 1 && rest[1] == '"' then
            Scan(rest[2..], sep, st.(current := st.current + ['"']))
          else
            Scan(rest[1..], sep, st.(inQuotes := false))
        else
          Scan(rest[1..], sep, st.(current := st.current + [c]))
      else if c == '"' then
        Scan(rest[1..], sep, st.(inQuotes := true))
      else if c == sep then
        Scan(rest[1..], sep, st.(row := st.row + [st.current], current := ""))
      else if c == '\n' then
        Scan(rest[1..], sep, ScanState(st.rows + [st.row + [st.current]], [], "", false))
      else
        Scan(rest[1..], sep, st.(current := st.current + [c]))
  }

  /** `parseCSVRows`: the quote-aware scanner. */
  method ParseCsvRows(text: string, sep: char) returns (rows: seq<Row>)
    ensures rows == Scan(text, sep, Start)
  {
    rows := [];
    var row: Row := [];
    var current := "";
    var inQuotes := false;
    var i := 0;
    while i < |text|
      invariant 0 <= i <= |text|
      invariant Scan(text[i..], sep, ScanState(rows, row, current, inQuotes)) == Scan(text, sep, Start)
      decreases |text| - i
    {
      var c := text[i];
      ghost var rest := text[i..];
      assert rest[0] == c && rest[1..] == text[i + 1..];
      if inQuotes {
        if c == '"' {
          if i + 1 < |text| && text[i + 1] == '"' {
            assert rest[2..] == text[i + 2..];
            current := current + ['"'];
            i := i + 1;
          } else {
            inQuotes := false;
          }
        } else {
          current := current + [c];
        }
      } else {
        if c == '"' {
          inQuotes := true;
        } else if c == sep {
          row := row + [current];
          current := "";
        } else if c == '\n' {
          row := row + [current];
          current := "";
          rows := rows + [row];
          row := [];
        } else {
          current := current + [c];
        }
      }
      i := i + 1;
    }
    assert text[i..] == [];
    row := row + [current];
    if HasContent(row) {
      rows := rows + [row];
    }
  }

  // ---------------------------------------------------------------------
  // Normalisation and separator detection

  /** `replace(/\r\n/g, "\n")`. */
  function CrLfToLf(s: string): (r: string)
    ensures '\r' !in s ==> r == s
    ensures |r| <= |s|
    decreases |s|
  {
    if |s| >= 2 && s[0] == '\r' && s[1] == '\n' then "\n" + CrLfToLf(s[2..])
    else if s == [] then []
    else [s[0]] + CrLfToLf(s[1..])
  }

  /** The first CRLF of a text becomes one LF; what comes before it is kept and what follows is rewritten in turn. */
  lemma {:induction false} CrLfToLfPair(a: string, b: string)
    requires '\r' !in a
    ensures CrLfToLf(a + "\r\n" + b) == a + "\n" + CrLfToLf(b)
  {
    var t := ['\r', '\n'] + b;
    assert t[2..] == b;
    assert a + "\r\n" + b == a + t;
    CrLfToLfPrefix(a, t);
  }

  /** A CR that is not followed by LF is left for the second replacement. */
  lemma {:induction false} CrLfToLfLone(a: string, b: string)
    requires '\r' !in a
    requires b == [] || b[0] != '\n'
    ensures CrLfToLf(a + "\r" + b) == a + "\r" + CrLfToLf(b)
  {
    var t, x := ['\r'] + b, CrLfToLf(b);
    assert a + "\r" + b == a + t;
    CrLfToLfPrefix(a, t);
    LoneHead(b);
    assert a + (['\r'] + x) == a + "\r" + x;
  }

  lemma {:induction false} LoneHead(b: string)
    requires b == [] || b[0] != '\n'
    ensures CrLfToLf(['\r'] + b) == ['\r'] + CrLfToLf(b)
  {
    var t := ['\r'] + b;
    assert t[1..] == b;
    assert !(|t| >= 2 && t[1] == '\n');
  }

  /** A CR-free prefix passes through the CRLF replacement unchanged. */
  lemma {:induction false} CrLfToLfPrefix(p: string, b: string)
    requires '\r' !in p
    ensures CrLfToLf(p + b) == p + CrLfToLf(b)
    decreases |p|
  {
    if p != [] {
      var s := p + b;
      assert s[0] == p[0] != '\r';
      assert s[1..] == p[1..] + b;
      CrLfToLfPrefix(p[1..], b);
      assert p == [p[0]] + p[1..];
    } else {
      assert p + b == b;
    }
  }

  /** `replace(/\r/g, "\n")`. */
  function CrToLf(s: string): (r: string)
    ensures '\r' !in r
    ensures '\r' !in s ==> r == s
    ensures |r| == |s|
    ensures forall k | 0 <= k < |s| :: r[k] == if s[k] == '\r' then '\n' else s[k]
  {
    if s == [] then [] else [if s[0] == '\r' then '\n' else s[0]] + CrToLf(s[1..])
  }

  /** The replacement works character by character, so it distributes over concatenation. */
  lemma {:induction false} CrToLfAppend(x: string, y: string)
    ensures CrToLf(x + y) == CrToLf(x) + CrToLf(y)
  {
    var l, r := CrToLf(x + y), CrToLf(x) + CrToLf(y);
    forall k | 0 <= k < |l|
      ensures l[k] == r[k]
    {
      if k < |x| {
        assert (x + y)[k] == x[k] && r[k] == CrToLf(x)[k];
      } else {
        assert (x + y)[k] == y[k - |x|] && r[k] == CrToLf(y)[k - |x|];
      }
    }
  }

  /** Both replacements together: the first CRLF of the text becomes one LF. */
  lemma {:induction false} LineBreakPair(a: string, b: string)
    requires '\r' !in a
    ensures CrToLf(CrLfToLf(a + "\r\n" + b)) == a + "\n" + CrToLf(CrLfToLf(b))
  {
    CrLfToLfPair(a, b);
    CrToLfAppend(a + "\n", CrLfToLf(b));
  }

  /** Both replacements together: the first CR, when no LF follows it, becomes one LF. */
  lemma {:induction false} LineBreakLone(a: string, b: string)
    requires '\r' !in a
    requires b == [] || b[0] != '\n'
    ensures CrToLf(CrLfToLf(a + "\r" + b)) == a + "\n" + CrToLf(CrLfToLf(b))
  {
    var x := CrLfToLf(b);
    CrLfToLfLone(a, b);
    CrToLfAppend(a + "\r", x);
    CrToLfAppend(a, "\r");
    assert CrToLf("\r") == "\n" by { assert CrToLf("\r")[0] == '\n'; }
    assert CrToLf(a + "\r") == a + "\n";
  }

  /** The text the scanner sees: line endings turned into LF, then trimmed. */
  function Normalize(text: string): (lines: string)
    ensures '\r' !in lines
    ensures '\r' !in text ==> lines == Trim(text)
  {
    var lines := Trim(CrToLf(CrLfToLf(text)));
    assert '\r' !in lines by { TrimSubset(CrToLf(CrLfToLf(text)), '\r'); }
    lines
  }

  /** Normalising sees the first CRLF of a text as one LF. */
  lemma {:induction false} NormalizeCrLf(a: string, b: string)
    requires '\r' !in a
    ensures Normalize(a + "\r\n" + b) == Normalize(a + "\n" + b)
  {
    LineBreakPair(a, b);
    CrLfToLfPrefix(a + "\n", b);
    CrToLfAppend(a + "\n", CrLfToLf(b));
  }

  /** Normalising sees the first CR of a text, when no LF follows it, as one LF. */
  lemma {:induction false} NormalizeCr(a: string, b: string)
    requires '\r' !in a
    requires b == [] || b[0] != '\n'
    ensures Normalize(a + "\r" + b) == Normalize(a + "\n" + b)
  {
    LineBreakLone(a, b);
    CrLfToLfPrefix(a + "\n", b);
    CrToLfAppend(a + "\n", CrLfToLf(b));
  }

  /** Trimming does not introduce characters. */
  lemma TrimSubset(s: string, x: char)
    requires x !in s
    ensures x !in Trim(s)
  {
    TrimStartSubset(s, x);
    TrimEndSubset(TrimStart(s), x);
  }

  lemma TrimStartSubset(s: string, x: char)
    requires x !in s
    ensures x !in TrimStart(s)
  {
  }

  lemma TrimEndSubset(s: string, x: char)
    requires x !in s
    ensures x !in TrimEnd(s)
  {
  }

  /** `lines.split("\n")[0]`: the text before the first newline. */
  function FirstLine(s: string): (r: string)
    ensures '\n' !in r
    ensures StartsWith(s, r)
    ensures |r| < |s| ==> s[|r|] == '\n'
  {
    if s == [] || s[0] == '\n' then []
    else
      var r := [s[0]] + FirstLine(s[1..]);
      assert s[..|r|] == [s[0]] + s[1..][..|r| - 1];
      r
  }

  /** The separator: `;` exactly when the first line has a `;` and no `,`; otherwise `,`. */
  function Separator(lines: string): (sep: char)
    ensures sep == ';' || sep == ','
    ensures sep == ';' <==> ';' in FirstLine(lines) && ',' !in FirstLine(lines)
  {
    var first := FirstLine(lines);
    if ';' in first && ',' !in first then ';' else ','
  }

  // ---------------------------------------------------------------------
  // Headers and data rows

  /** The header row: every header cell trimmed. */
  function TrimCells(row: Row): (r: Row)
    ensures |r| == |row|
    ensures forall k | 0 <= k < |row| :: r[k] == Trim(row[k])
  {
    if row == [] then [] else [Trim(row[0])] + TrimCells(row[1..])
  }

  /** `rows.filter(row => row.some(cell => cell.trim() !== ""))`. */
  function DropBlankRows(rows: seq<Row>): (r: seq<Row>)
    ensures |r| <= |rows|
    ensures forall k | 0 <= k < |r| :: HasContent(r[k]) && r[k] in rows
    ensures forall row | row in rows && HasContent(row) :: row in r
  {
    if rows == [] then []
    else if HasContent(rows[0]) then [rows[0]] + DropBlankRows(rows[1..])
    else DropBlankRows(rows[1..])
  }

  datatype Csv = Csv(headers: Row, rows: seq<Row>)

  /** What `parseCSV` returns for `text`. */
  function Parsed(text: string): Csv {
    var lines := Normalize(text);
    var all := Scan(lines, Separator(lines), Start);
    if all == [] then Csv([], []) else Csv(TrimCells(all[0]), DropBlankRows(all[1..]))
  }

  /** `parseCSV`: normalise, pick the separator, scan, split off the trimmed header and drop blank data rows. */
  method ParseCsv(text: string) returns (csv: Csv)
    ensures csv == Parsed(text)
  {
    var lines := Normalize(text);
    var sep := Separator(lines);
    var all := ParseCsvRows(lines, sep);
    if |all| == 0 {
      return Csv([], []);
    }
    csv := Csv(TrimCells(all[0]), DropBlankRows(all[1..]));
  }

  // ---------------------------------------------------------------------
  // Properties of the scanner

  /**
   * `s.replace(/"/g, '""')`: every quote doubled, the RFC 4180 escape for text inside quotes.
   * The export writes its quoted cells with it (components/reports/export-csv.tsx:21-28); it
   * lives with the scanner because the lemmas below state what the scanner reads from doubled
   * text, and the export module imports this one.
   */
  function DoubleQuotes(s: string): (r: string)
    ensures |r| == |s| + Count(s, '"')
  {
    if s == [] then []
    else if s[0] == '"' then "\"\"" + DoubleQuotes(s[1..])
    else [s[0]] + DoubleQuotes(s[1..])
  }

  /**
   * Inside an open quote, a doubled quote yields one literal `"` and every other character
   * (separators and newlines included) is kept as text, up to the closing quote.
   */
  lemma {:induction false} QuotedRun(s: string, rest: string, sep: char, st: ScanState)
    requires st.inQuotes
    requires rest == [] || rest[0] != '"'
    ensures Scan(DoubleQuotes(s) + "\"" + rest, sep, st)
         == Scan(rest, sep, st.(current := st.current + s, inQuotes := false))
    decreases |s|
  {
    if s == [] {
      assert DoubleQuotes(s) + "\"" + rest == "\"" + rest;
      ScanCloses(rest, sep, st);
      assert st.current + s == st.current;
    } else {
      var st' := st.(current := st.current + [s[0]]);
      QuotedStep(s, "\"" + rest, sep, st);
      assert DoubleQuotes(s) + "\"" + rest == DoubleQuotes(s) + ("\"" + rest);
      assert DoubleQuotes(s[1..]) + "\"" + rest == DoubleQuotes(s[1..]) + ("\"" + rest);
      QuotedRun(s[1..], rest, sep, st');
      HeadThenTail(st.current, s);
    }
  }

  /** Appending the first element and then the rest appends the whole. */
  lemma {:induction false} HeadThenTail<T>(a: seq<T>, s: seq<T>)
    requires s != []
    ensures (a + [s[0]]) + s[1..] == a + s
  {
    assert s == [s[0]] + s[1..];
  }

  /** Inside an open quote, the first character of `s`, doubled if it is a quote, is read as that one character. */
  lemma {:induction false} QuotedStep(s: string, rest: string, sep: char, st: ScanState)
    requires st.inQuotes && s != []
    ensures Scan(DoubleQuotes(s) + rest, sep, st)
         == Scan(DoubleQuotes(s[1..]) + rest, sep, st.(current := st.current + [s[0]]))
  {
    var tail := DoubleQuotes(s[1..]) + rest;
    DoubledHead(s, rest);
    if s[0] == '"' {
      ScanDoubled(tail, sep, st);
    } else {
      ScanQuotedChar(s[0], tail, sep, st);
    }
  }

  /** One step of the doubling, with the text that follows it. */
  lemma {:induction false} DoubledHead(s: string, rest: string)
    requires s != []
    ensures DoubleQuotes(s) + rest
         == (if s[0] == '"' then "\"\"" else [s[0]]) + (DoubleQuotes(s[1..]) + rest)
  {
  }

  /** Inside quotes, a quote not followed by another closes the quote. */
  lemma ScanCloses(rest: string, sep: char, st: ScanState)
    requires st.inQuotes && (rest == [] || rest[0] != '"')
    ensures Scan("\"" + rest, sep, st) == Scan(rest, sep, st.(inQuotes := false))
  {
    assert ("\"" + rest)[1..] == rest;
  }

  /** Inside quotes, a doubled quote is one literal quote. */
  lemma ScanDoubled(rest: string, sep: char, st: ScanState)
    requires st.inQuotes
    ensures Scan("\"\"" + rest, sep, st) == Scan(rest, sep, st.(current := st.current + ['"']))
  {
    assert ("\"\"" + rest)[2..] == rest;
  }

  /** Inside quotes, any other character is text. */
  lemma ScanQuotedChar(c: char, rest: string, sep: char, st: ScanState)
    requires st.inQuotes && c != '"'
    ensures Scan([c] + rest, sep, st) == Scan(rest, sep, st.(current := st.current + [c]))
  {
    assert ([c] + rest)[1..] == rest;
  }

  /** A quoted field (`"` + the text with its quotes doubled + `"`) contributes exactly the text to the current field. */
  lemma QuotedField(s: string, rest: string, sep: char, st: ScanState)
    requires !st.inQuotes && sep != '"'
    requires rest == [] || rest[0] != '"'
    ensures Scan("\"" + DoubleQuotes(s) + "\"" + rest, sep, st)
         == Scan(rest, sep, st.(current := st.current + s))
  {
    var text := "\"" + DoubleQuotes(s) + "\"" + rest;
    assert text[1..] == DoubleQuotes(s) + "\"" + rest;
    QuotedRun(s, rest, sep, st.(inQuotes := true));
  }

  /** Text without quotes, separators or newlines goes into the current field unchanged. */
  lemma {:induction false} PlainText(p: string, rest: string, sep: char, st: ScanState)
    requires !st.inQuotes
    requires '"' !in p && sep !in p && '\n' !in p
    ensures Scan(p + rest, sep, st) == Scan(rest, sep, st.(current := st.current + p))
    decreases |p|
  {
    if p == [] {
      assert p + rest == rest;
      assert st.current + p == st.current;
    } else {
      assert (p + rest)[1..] == p[1..] + rest;
      PlainText(p[1..], rest, sep, st.(current := st.current + [p[0]]));
      assert st.current + [p[0]] + p[1..] == st.current + p;
    }
  }

  /** The cells of a quote-free line: each separator ends a field (`row` and `cur` are what came before). */
  function SplitFrom(line: string, sep: char, row: Row, cur: string): (cells: Row)
    ensures |cells| == |row| + Count(line, sep) + 1
  {
    if line == [] then row + [cur]
    else if line[0] == sep then SplitFrom(line[1..], sep, row + [cur], "")
    else SplitFrom(line[1..], sep, row, cur + [line[0]])
  }

  /** The cells of a quote-free line. */
  function Split(line: string, sep: char): (cells: Row)
    ensures |cells| == Count(line, sep) + 1
  {
    SplitFrom(line, sep, [], "")
  }

  /**
   * Outside quotes, each separator ends a field and the newline ends the row: a quote-free
   * line followed by `\n` becomes one row whose cells are the line split at the separators,
   * so it has one more cell than the line has separators.
   */
  lemma {:induction false} UnquotedLine(line: string, rest: string, sep: char, rows: seq<Row>, row: Row, cur: string)
    requires '"' !in line && '\n' !in line && sep != '\n' && sep != '"'
    ensures Scan(line + "\n" + rest, sep, ScanState(rows, row, cur, false))
         == Scan(rest, sep, ScanState(rows + [SplitFrom(line, sep, row, cur)], [], "", false))
    decreases |line|
  {
    var text := line + "\n" + rest;
    if line == [] {
      assert text == "\n" + rest && text[1..] == rest;
    } else {
      assert text[1..] == line[1..] + "\n" + rest;
      if line[0] == sep {
        UnquotedLine(line[1..], rest, sep, rows, row + [cur], "");
      } else {
        UnquotedLine(line[1..], rest, sep, rows, row, cur + [line[0]]);
      }
    }
  }

  /** A quote-free last line without a trailing newline is a row exactly when one of its cells has content. */
  lemma {:induction false} UnquotedLastLine(line: string, sep: char, rows: seq<Row>, row: Row, cur: string)
    requires '"' !in line && '\n' !in line && sep != '\n' && sep != '"'
    ensures var cells := SplitFrom(line, sep, row, cur);
      Scan(line, sep, ScanState(rows, row, cur, false))
      == if HasContent(cells) then rows + [cells] else rows
    decreases |line|
  {
    if line != [] {
      if line[0] == sep {
        UnquotedLastLine(line[1..], sep, rows, row + [cur], "");
      } else {
        UnquotedLastLine(line[1..], sep, rows, row, cur + [line[0]]);
      }
    }
  }

  /** No cell of these rows contains `x`. */
  predicate RowsAvoid(rows: seq<Row>, x: char) {
    forall r, k | 0 <= r < |rows| && 0 <= k < |rows[r]| :: x !in rows[r][k]
  }

  predicate RowAvoids(row: Row, x: char) {
    forall k | 0 <= k < |row| :: x !in row[k]
  }

  /** The scanner only copies characters of its input into cells: a character absent from the text is absent from every cell. */
  lemma {:induction false} ScanAvoids(rest: string, sep: char, st: ScanState, x: char)
    requires x !in rest && x !in st.current && RowAvoids(st.row, x) && RowsAvoid(st.rows, x)
    ensures RowsAvoid(Scan(rest, sep, st), x)
    decreases |rest|
  {
    if rest == [] {
      var last := st.row + [st.current];
      assert RowAvoids(last, x);
    } else {
      var c := rest[0];
      if st.inQuotes {
        if c == '"' {
          if |rest| > 1 && rest[1] == '"' {
            ScanAvoids(rest[2..], sep, st.(current := st.current + ['"']), x);
          } else {
            ScanAvoids(rest[1..], sep, st.(inQuotes := false), x);
          }
        } else {
          ScanAvoids(rest[1..], sep, st.(current := st.current + [c]), x);
        }
      } else if c == '"' {
        ScanAvoids(rest[1..], sep, st.(inQuotes := true), x);
      } else if c == sep {
        ScanAvoids(rest[1..], sep, st.(row := st.row + [st.current], current := ""), x);
      } else if c == '\n' {
        assert RowAvoids(st.row + [st.current], x);
        ScanAvoids(rest[1..], sep, ScanState(st.rows + [st.row + [st.current]], [], "", false), x);
      } else {
        ScanAvoids(rest[1..], sep, st.(current := st.current + [c]), x);
      }
    }
  }

  /** After normalisation no header and no data cell contains a carriage return. */
  lemma NoCarriageReturn(text: string)
    ensures var csv := Parsed(text);
      RowAvoids(csv.headers, '\r') && RowsAvoid(csv.rows, '\r')
  {
    var lines := Normalize(text);
    var all := Scan(lines, Separator(lines), Start);
    ScanAvoids(lines, Separator(lines), Start, '\r');
    if all != [] {
      TrimmedAvoids(all[0], '\r');
      KeptAvoid(all[1..], '\r');
    }
  }

  lemma {:induction false} TrimmedAvoids(row: Row, x: char)
    requires RowAvoids(row, x)
    ensures RowAvoids(TrimCells(row), x)
  {
    forall k | 0 <= k < |row| ensures x !in Trim(row[k]) {
      TrimSubset(row[k], x);
    }
  }

  lemma {:induction false} KeptAvoid(rows: seq<Row>, x: char)
    requires RowsAvoid(rows, x)
    ensures RowsAvoid(DropBlankRows(rows), x)
  {
    var kept := DropBlankRows(rows);
    forall r, k | 0 <= r < |kept| && 0 <= k < |kept[r]| ensures x !in kept[r][k] {
      assert kept[r] in rows;
    }
  }

  lemma BlankNormalizes(text: string)
    requires IsBlank(text)
    ensures IsBlank(CrToLf(CrLfToLf(text)))
  {
    BlankCrLf(text);
    BlankCr(CrLfToLf(text));
  }

  lemma {:induction false} BlankCrLf(s: string)
    requires IsBlank(s)
    ensures IsBlank(CrLfToLf(s))
    decreases |s|
  {
    if |s| >= 2 && s[0] == '\r' && s[1] == '\n' {
      BlankCrLf(s[2..]);
    } else if s != [] {
      BlankCrLf(s[1..]);
    }
  }

  lemma {:induction false} BlankCr(s: string)
    requires IsBlank(s)
    ensures IsBlank(CrToLf(s))
  {
    if s != [] {
      BlankCr(s[1..]);
    }
  }

  /** Text with no content yields no headers and no rows. */
  lemma BlankText(text: string)
    requires IsBlank(text)
    ensures Parsed(text) == Csv([], [])
  {
    BlankNormalizes(text);
    var lines := Normalize(text);
    assert lines == [];
    EmptyScan(Separator(lines));
  }

  /** Scanning no text yields no row: the one empty field has no content. */
  lemma EmptyScan(sep: char)
    ensures Scan([], sep, Start) == []
  {
    assert !IsBlank("") ==> false;
    assert Start.row + [Start.current] == [""];
    assert !HasContent([""]);
  }

  /** The data rows are the scanned rows after the header that have content, in input order. */
  lemma {:induction false} DropBlankRowsOrder(rows: seq<Row>, more: seq<Row>)
    ensures DropBlankRows(rows + more) == DropBlankRows(rows) + DropBlankRows(more)
  {
    if rows == [] {
      assert rows + more == more;
    } else {
      var all := rows + more;
      assert all[0] == rows[0];
      assert all[1..] == rows[1..] + more;
      DropBlankRowsOrder(rows[1..], more);
      if HasContent(rows[0]) {
        assert DropBlankRows(all) == [rows[0]] + DropBlankRows(all[1..]);
      } else {
        assert DropBlankRows(all) == DropBlankRows(all[1..]);
      }
    }
  }
}
