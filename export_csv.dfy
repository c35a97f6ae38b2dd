/**
 * The report export: every listed transaction becomes one line of nine
 * comma-separated cells under a fixed header row. Free text (description,
 * merchant, notes) is quoted with inner quotes doubled; the other cells are
 * written as they are. The main result is the round trip: the importer's
 * parser reads the exported text back cell for cell, and its column
 * detector maps every field to the column the exporter wrote it in.
 */
module ExportCsv {
  import opened Wrappers
  import opened Text
  import opened Domain
  import opened CsvParser
  import CsvImport

  /** A transaction as the report lists it: its fields plus the names of its joined category and account. */
  datatype Listed = Listed(
    date: string,
    description: string,
    merchant: Option<string>,
    txType: TxType,
    amount: real,
    currency: Currency,
    categoryName: Option<string>,
    accountName: Option<string>,
    notes: Option<string>)

  /** The header row of the export. */
  const Header: seq<string> :=
    ["Fecha", "Descripcion", "Comercio", "Tipo", "Monto", "Moneda", "Categoria", "Cuenta", "Notas"]

  /** A free-text cell: wrapped in quotes, every inner quote doubled. */
  function Quote(s: string): (r: string)
    ensures |r| == |s| + Count(s, '"') + 2
  {
    "\"" + DoubleQuotes(s) + "\""
  }

  /**
   * The nine cells of one transaction, in header order. `show` is the number-to-text
   * conversion used for the amount (`toString` of a JavaScript number).
   */
  function ExportRow(tx: Listed, show: real -> string): (row: seq<string>)
    ensures |row| == |Header|
  {
    [ tx.date,
      Quote(tx.description),
      Quote(tx.merchant.GetOr("")),
      TypeName(tx.txType),
      show(tx.amount),
      CurrencyCode(tx.currency),
      tx.categoryName.GetOr(""),
      tx.accountName.GetOr(""),
      Quote(tx.notes.GetOr("")) ]
  }

  /** A document: the header line, then one line per row, cells joined by commas and lines by newlines (no trailing newline). */
  function Document(header: seq<string>, rows: seq<seq<string>>): string {
    Join([Join(header, ",")] + seq(|rows|, i requires 0 <= i < |rows| => Join(rows[i], ",")), "\n")
  }

  function ExportRows(txs: seq<Listed>, show: real -> string): (rows: seq<seq<string>>)
    ensures |rows| == |txs|
    ensures forall i | 0 <= i < |txs| :: rows[i] == ExportRow(txs[i], show)
  {
    seq(|txs|, i requires 0 <= i < |txs| => ExportRow(txs[i], show))
  }

  /** The exported text. */
  function ExportText(txs: seq<Listed>, show: real -> string): string {
    Document(Header, ExportRows(txs, show))
  }

  // ---------------------------------------------------------------------
  // Cells as written and as read back

  /** How a cell is written: as it is, or quoted. */
  datatype Cell = Plain(text: string) | Quoted(text: string)

  function Render(c: Cell): string {
    match c
    case Plain(s) => s
    case Quoted(s) => Quote(s)
  }

  function Rendered(cells: seq<Cell>): (r: seq<string>)
    ensures |r| == |cells|
  {
    seq(|cells|, i requires 0 <= i < |cells| => Render(cells[i]))
  }

  /** The texts the cells carry: what a reader should get back. */
  function Values(cells: seq<Cell>): (r: seq<string>)
    ensures |r| == |cells|
  {
    seq(|cells|, i requires 0 <= i < |cells| => cells[i].text)
  }

  /** A cell can be read back: a plain cell has no quote, separator or newline; no cell has a carriage return. */
  predicate Readable(c: Cell, sep: char) {
    && '\r' !in c.text
    && (c.Plain? ==> '"' !in c.text && sep !in c.text && '\n' !in c.text)
  }

  predicate ReadableLine(cells: seq<Cell>, sep: char) {
    && cells != []
    && (forall k | 0 <= k < |cells| :: Readable(cells[k], sep))
    && HasContent(Values(cells))
  }

  /** The cells of one transaction, with how each one is written. */
  function ExportCells(tx: Listed, show: real -> string): (cells: seq<Cell>)
    ensures |cells| == |Header| && cells[|cells| - 1].Quoted?
  {
    [ Plain(tx.date),
      Quoted(tx.description),
      Quoted(tx.merchant.GetOr("")),
      Plain(TypeName(tx.txType)),
      Plain(show(tx.amount)),
      Plain(CurrencyCode(tx.currency)),
      Plain(tx.categoryName.GetOr("")),
      Plain(tx.accountName.GetOr("")),
      Quoted(tx.notes.GetOr("")) ]
  }

  /** Writing the cells gives the exported row. */
  lemma ExportCellsRendered(tx: Listed, show: real -> string)
    ensures Rendered(ExportCells(tx, show)) == ExportRow(tx, show)
  {
  }

  /** A line of plain cells, such as the header row. */
  function PlainCells(texts: seq<string>): (cells: seq<Cell>)
    ensures |cells| == |texts|
    ensures forall k | 0 <= k < |texts| :: cells[k] == Plain(texts[k])
    ensures Values(cells) == texts && Rendered(cells) == texts
  {
    var cells := seq(|texts|, i requires 0 <= i < |texts| => Plain(texts[i]));
    assert Values(cells) == texts;
    assert Rendered(cells) == texts;
    cells
  }

  // ---------------------------------------------------------------------
  // The scanner over written cells

  /** One written cell, followed by text that does not start with a quote, fills the (empty) current field with its text. */
  lemma CellScan(c: Cell, rest: string, sep: char, rows: seq<Row>, row: Row)
    requires Readable(c, sep) && sep != '"' && sep != '\n'
    requires rest == [] || rest[0] != '"'
    ensures Scan(Render(c) + rest, sep, ScanState(rows, row, "", false))
         == Scan(rest, sep, ScanState(rows, row, c.text, false))
  {
    var st := ScanState(rows, row, "", false);
    assert st.current + c.text == c.text;
    match c
    case Plain(s) =>
      PlainText(s, rest, sep, st);
    case Quoted(s) =>
      QuotedField(s, rest, sep, st);
  }

  /**
   * A line of written cells joined by the separator, followed by text that does not start
   * with a quote, leaves every cell but the last in the row and the last one as the current field.
   */
  lemma {:induction false} CellsScan(cells: seq<Cell>, rest: string, sep: char, rows: seq<Row>, row: Row)
    requires cells != [] && sep != '"' && sep != '\n'
    requires forall k | 0 <= k < |cells| :: Readable(cells[k], sep)
    requires rest == [] || rest[0] != '"'
    ensures Scan(Join(Rendered(cells), [sep]) + rest, sep, ScanState(rows, row, "", false))
         == Scan(rest, sep, ScanState(rows, row + Values(cells[..|cells| - 1]), cells[|cells| - 1].text, false))
    decreases |cells|
  {
    var c := cells[0];
    if |cells| == 1 {
      assert Join(Rendered(cells), [sep]) == Render(c);
      assert row + Values(cells[..0]) == row;
      CellScan(c, rest, sep, rows, row);
    } else {
      var more := cells[1..];
      ValuesInit(cells, row);
      assert more[|more| - 1] == cells[|cells| - 1];
      var end := ScanState(rows, row + Values(cells[..|cells| - 1]), cells[|cells| - 1].text, false);
      assert ScanState(rows, row + [c.text] + Values(more[..|more| - 1]), more[|more| - 1].text, false) == end;
      forall k | 0 <= k < |more| ensures Readable(more[k], sep) {
        assert more[k] == cells[k + 1];
      }
      RenderedTail(cells);
      var tail := Join(Rendered(more), [sep]) + rest;
      JoinCons(Rendered(cells), [sep]);
      assert Join(Rendered(cells), [sep]) + rest == Render(c) + ([sep] + tail);
      CellThenSep(c, tail, sep, rows, row);
      CellsScan(more, rest, sep, rows, row + [c.text]);
    }
  }

  /** A written cell and the separator after it move the cell's text into the row. */
  lemma {:induction false} CellThenSep(c: Cell, tail: string, sep: char, rows: seq<Row>, row: Row)
    requires Readable(c, sep) && sep != '"' && sep != '\n'
    ensures Scan(Render(c) + ([sep] + tail), sep, ScanState(rows, row, "", false))
         == Scan(tail, sep, ScanState(rows, row + [c.text], "", false))
  {
    CellScan(c, [sep] + tail, sep, rows, row);
    SepStep(tail, sep, rows, row, c.text);
  }

  lemma {:induction false} JoinCons(parts: seq<string>, sep: string)
    requires |parts| >= 2
    ensures Join(parts, sep) == parts[0] + sep + Join(parts[1..], sep)
  {
  }

  lemma RenderedTail(cells: seq<Cell>)
    requires cells != []
    ensures Rendered(cells)[1..] == Rendered(cells[1..]) && Rendered(cells)[0] == Render(cells[0])
  {
  }

  lemma ValuesInit(cells: seq<Cell>, row: Row)
    requires |cells| >= 2
    ensures row + [cells[0].text] + Values(cells[1..][..|cells| - 2]) == row + Values(cells[..|cells| - 1])
  {
    assert [cells[0].text] + Values(cells[1..][..|cells| - 2]) == Values(cells[..|cells| - 1]);
  }

  /** Outside quotes, the separator ends the current field. */
  lemma SepStep(tail: string, sep: char, rows: seq<Row>, row: Row, cur: string)
    requires sep != '"' && sep != '\n'
    ensures Scan([sep] + tail, sep, ScanState(rows, row, cur, false)) == Scan(tail, sep, ScanState(rows, row + [cur], "", false))
  {
    assert ([sep] + tail)[1..] == tail;
  }

  /** A readable line followed by a newline becomes one row holding exactly the cells' texts. */
  lemma LineScan(cells: seq<Cell>, rest: string, sep: char, rows: seq<Row>)
    requires ReadableLine(cells, sep) && sep != '"' && sep != '\n'
    ensures Scan(Join(Rendered(cells), [sep]) + "\n" + rest, sep, ScanState(rows, [], "", false))
         == Scan(rest, sep, ScanState(rows + [Values(cells)], [], "", false))
  {
    var n := |cells|;
    CellsScan(cells, "\n" + rest, sep, rows, []);
    assert Join(Rendered(cells), [sep]) + "\n" + rest == Join(Rendered(cells), [sep]) + ("\n" + rest);
    assert ("\n" + rest)[1..] == rest;
    assert [] + Values(cells[..n - 1]) + [cells[n - 1].text] == Values(cells);
  }

  /** A readable last line becomes the final row. */
  lemma LastLineScan(cells: seq<Cell>, sep: char, rows: seq<Row>)
    requires ReadableLine(cells, sep) && sep != '"' && sep != '\n'
    ensures Scan(Join(Rendered(cells), [sep]), sep, ScanState(rows, [], "", false)) == rows + [Values(cells)]
  {
    var n := |cells|;
    CellsScan(cells, "", sep, rows, []);
    assert Join(Rendered(cells), [sep]) + "" == Join(Rendered(cells), [sep]);
    assert [] + Values(cells[..n - 1]) + [cells[n - 1].text] == Values(cells);
  }

  function LineTexts(lines: seq<seq<Cell>>, sep: char): (r: seq<string>)
    ensures |r| == |lines|
  {
    seq(|lines|, i requires 0 <= i < |lines| => Join(Rendered(lines[i]), [sep]))
  }

  function LineValues(lines: seq<seq<Cell>>): (r: seq<Row>)
    ensures |r| == |lines|
  {
    seq(|lines|, i requires 0 <= i < |lines| => Values(lines[i]))
  }

  lemma LineTextsTail(lines: seq<seq<Cell>>, sep: char)
    requires lines != []
    ensures LineTexts(lines, sep)[1..] == LineTexts(lines[1..], sep)
    ensures LineTexts(lines, sep)[0] == Join(Rendered(lines[0]), [sep])
  {
  }

  lemma LinesTextSplit(lines: seq<seq<Cell>>, sep: char)
    requires |lines| >= 2
    ensures Join(LineTexts(lines, sep), "\n") == Join(Rendered(lines[0]), [sep]) + "\n" + Join(LineTexts(lines[1..], sep), "\n")
  {
    LineTextsTail(lines, sep);
    JoinCons(LineTexts(lines, sep), "\n");
  }

  lemma LinesValuesSplit(lines: seq<seq<Cell>>, rows: seq<Row>)
    requires lines != []
    ensures rows + [Values(lines[0])] + LineValues(lines[1..]) == rows + LineValues(lines)
  {
    LineValuesTail(lines);
    assert LineValues(lines) == [Values(lines[0])] + LineValues(lines[1..]);
  }

  /** Readable lines joined by newlines scan to one row per line, each holding its cells' texts. */
  lemma {:induction false} LinesScan(lines: seq<seq<Cell>>, sep: char, rows: seq<Row>)
    requires lines != [] && sep != '"' && sep != '\n'
    requires forall i | 0 <= i < |lines| :: ReadableLine(lines[i], sep)
    ensures Scan(Join(LineTexts(lines, sep), "\n"), sep, ScanState(rows, [], "", false)) == rows + LineValues(lines)
    decreases |lines|
  {
    if |lines| == 1 {
      LastLineScan(lines[0], sep, rows);
    } else {
      var more := lines[1..];
      LinesTextSplit(lines, sep);
      LineScan(lines[0], Join(LineTexts(more, sep), "\n"), sep, rows);
      LinesScan(more, sep, rows + [Values(lines[0])]);
      LinesValuesSplit(lines, rows);
    }
  }

  // ---------------------------------------------------------------------
  // Joined text

  lemma {:induction false} JoinStart(parts: seq<string>, sep: string)
    requires parts != [] && parts[0] != []
    ensures Join(parts, sep) != [] && Join(parts, sep)[0] == parts[0][0]
  {
  }

  lemma {:induction false} JoinEnd(parts: seq<string>, sep: string)
    requires parts != [] && parts[|parts| - 1] != []
    ensures var j := Join(parts, sep); j != [] && j[|j| - 1] == parts[|parts| - 1][|parts[|parts| - 1]| - 1]
  {
    if |parts| > 1 {
      JoinEnd(parts[1..], sep);
    }
  }

  lemma {:induction false} JoinAvoids(parts: seq<string>, sep: string, x: char)
    requires x !in sep && forall i | 0 <= i < |parts| :: x !in parts[i]
    ensures x !in Join(parts, sep)
  {
    if |parts| > 1 {
      JoinAvoids(parts[1..], sep, x);
    }
  }

  lemma DoubleQuotesAvoid(s: string, x: char)
    requires x !in s && x != '"'
    ensures x !in DoubleQuotes(s)
  {
  }

  /** The first line of `p + "\n" + rest`, or of `p` alone, is `p` when `p` has no newline. */
  lemma {:induction false} FirstLineOf(p: string, rest: string)
    requires '\n' !in p
    ensures FirstLine(p + rest) == p <== (rest == [] || rest[0] == '\n')
  {
    if p != [] {
      assert (p + rest)[1..] == p[1..] + rest;
      FirstLineOf(p[1..], rest);
    }
  }

  // ---------------------------------------------------------------------
  // ---------------------------------------------------------------------
  // Reading a document back

  /** Text that trimming leaves alone: non-empty, with a visible first and last character. */
  predicate Visible(s: string) {
    s != [] && !IsSpace(s[0]) && !IsSpace(s[|s| - 1])
  }

  /** A header line the parser reads back as it is: plain, visible cells without `;`. */
  predicate CleanHeader(cells: seq<Cell>) {
    forall k | 0 <= k < |cells| :: cells[k].Plain? && Visible(cells[k].text) && ';' !in cells[k].text
  }

  /** The last character of a line is visible: its last cell is quoted, or plain and visible. */
  predicate EndsVisibly(cells: seq<Cell>) {
    cells != [] && (cells[|cells| - 1].Quoted? || Visible(cells[|cells| - 1].text))
  }

  lemma RenderAvoids(cells: seq<Cell>, x: char)
    requires x != '"' && forall k | 0 <= k < |cells| :: x !in cells[k].text
    ensures forall k | 0 <= k < |cells| :: x !in Rendered(cells)[k]
  {
    forall k | 0 <= k < |cells| ensures x !in Rendered(cells)[k] {
      if cells[k].Quoted? {
        DoubleQuotesAvoid(cells[k].text, x);
      }
    }
  }

  /** Lines whose cells carry no carriage return are written without one. */
  lemma DocumentNoCr(lines: seq<seq<Cell>>)
    requires forall i, k | 0 <= i < |lines| && 0 <= k < |lines[i]| :: '\r' !in lines[i][k].text
    ensures '\r' !in Join(LineTexts(lines, ','), "\n")
  {
    var texts := LineTexts(lines, ',');
    forall i | 0 <= i < |texts| ensures '\r' !in texts[i] {
      RenderAvoids(lines[i], '\r');
      JoinAvoids(Rendered(lines[i]), ",", '\r');
    }
    JoinAvoids(texts, "\n", '\r');
  }

  /** A document whose first cell is visible starts with a visible character. */
  lemma DocumentStart(lines: seq<seq<Cell>>)
    requires lines != [] && lines[0] != [] && lines[0][0].Plain? && Visible(lines[0][0].text)
    ensures var j := Join(LineTexts(lines, ','), "\n"); j != [] && !IsSpace(j[0])
  {
    var texts := LineTexts(lines, ',');
    var first := lines[0];
    assert Rendered(first)[0] == first[0].text;
    assert texts[0] == Join(Rendered(first), ",");
    JoinStart(Rendered(first), ",");
    JoinStart(texts, "\n");
  }

  /** A quoted cell, or a plain visible one, is written with a visible last character. */
  lemma RenderEnd(c: Cell)
    requires c.Quoted? || Visible(c.text)
    ensures var t := Render(c); t != [] && !IsSpace(t[|t| - 1])
  {
  }

  /** Joined parts end as their last part does. */
  lemma {:induction false} JoinEndVisible(parts: seq<string>, sep: string)
    requires parts != [] && var p := parts[|parts| - 1]; p != [] && !IsSpace(p[|p| - 1])
    ensures var j := Join(parts, sep); j != [] && !IsSpace(j[|j| - 1])
  {
    JoinEnd(parts, sep);
  }

  /** A document whose last line ends visibly ends with a visible character. */
  lemma DocumentEnd(lines: seq<seq<Cell>>)
    requires lines != [] && EndsVisibly(lines[|lines| - 1])
    ensures var j := Join(LineTexts(lines, ','), "\n"); j != [] && !IsSpace(j[|j| - 1])
  {
    var texts := LineTexts(lines, ',');
    var last := lines[|lines| - 1];
    var parts := Rendered(last);
    RenderEnd(last[|last| - 1]);
    assert parts[|parts| - 1] == Render(last[|last| - 1]);
    JoinEndVisible(parts, ",");
    assert texts[|texts| - 1] == Join(parts, ",");
    JoinEndVisible(texts, "\n");
  }

  /** A document of readable lines has no carriage return and visible ends, so normalisation leaves it as it is. */
  lemma DocumentNormal(lines: seq<seq<Cell>>)
    requires lines != [] && forall i | 0 <= i < |lines| :: ReadableLine(lines[i], ',')
    requires CleanHeader(lines[0]) && EndsVisibly(lines[|lines| - 1])
    ensures Normalize(Join(LineTexts(lines, ','), "\n")) == Join(LineTexts(lines, ','), "\n")
  {
    forall i, k | 0 <= i < |lines| && 0 <= k < |lines[i]| ensures '\r' !in lines[i][k].text {
      assert ReadableLine(lines[i], ',');
    }
    DocumentNoCr(lines);
    assert ReadableLine(lines[0], ',');
    DocumentStart(lines);
    DocumentEnd(lines);
    TrimNoSpace(Join(LineTexts(lines, ','), "\n"));
  }

  /** The separator detected for such a document is the comma. */
  lemma DocumentSeparator(lines: seq<seq<Cell>>)
    requires lines != [] && forall i | 0 <= i < |lines| :: ReadableLine(lines[i], ',')
    requires CleanHeader(lines[0]) && |lines[0]| >= 2
    ensures Separator(Join(LineTexts(lines, ','), "\n")) == ','
  {
    var texts := LineTexts(lines, ',');
    var text := Join(texts, "\n");
    var header := Rendered(lines[0]);
    assert ReadableLine(lines[0], ',');
    assert forall k | 0 <= k < |header| :: header[k] == lines[0][k].text;
    JoinAvoids(header, ",", '\n');
    JoinAvoids(header, ",", ';');
    if |texts| == 1 {
      FirstLineOf(texts[0], "");
      assert texts[0] + "" == texts[0];
    } else {
      FirstLineOf(texts[0], "\n" + Join(texts[1..], "\n"));
      assert texts[0] + "\n" + Join(texts[1..], "\n") == texts[0] + ("\n" + Join(texts[1..], "\n"));
    }
    assert FirstLine(text) == Join(header, ",");
    assert Join(header, ",") == header[0] + "," + Join(header[1..], ",");
    assert Join(header, ",")[|header[0]|] == ',';
  }

  lemma LineValuesTail(lines: seq<seq<Cell>>)
    requires lines != []
    ensures LineValues(lines)[1..] == LineValues(lines[1..])
  {
    forall i | 0 <= i < |lines| - 1 ensures LineValues(lines)[1..][i] == LineValues(lines[1..])[i] {
      assert lines[1..][i] == lines[i + 1];
    }
  }

  /** The header line's cells come back trimmed as they are. */
  lemma HeaderTrimmed(cells: seq<Cell>)
    requires CleanHeader(cells)
    ensures TrimCells(Values(cells)) == Values(cells)
  {
    forall k | 0 <= k < |cells| ensures Trim(Values(cells)[k]) == Values(cells)[k] {
      TrimNoSpace(cells[k].text);
    }
  }

  /** Rows with content survive the blank-row filter. */
  lemma LinesContent(lines: seq<seq<Cell>>)
    requires forall i | 0 <= i < |lines| :: ReadableLine(lines[i], ',')
    ensures DropBlankRows(LineValues(lines)) == LineValues(lines)
  {
    forall i | 0 <= i < |lines| ensures HasContent(LineValues(lines)[i]) {
      assert ReadableLine(lines[i], ',');
    }
    AllContent(LineValues(lines));
  }

  /** Such a document is normalised as it is, split at commas, and scanned into one row per line. */
  lemma ScanDocument(lines: seq<seq<Cell>>)
    requires lines != [] && forall i | 0 <= i < |lines| :: ReadableLine(lines[i], ',')
    requires CleanHeader(lines[0]) && |lines[0]| >= 2 && EndsVisibly(lines[|lines| - 1])
    ensures var text := Join(LineTexts(lines, ','), "\n");
      && Normalize(text) == text
      && Separator(text) == ','
      && Scan(text, ',', Start) == LineValues(lines)
  {
    DocumentNormal(lines);
    DocumentSeparator(lines);
    LinesScan(lines, ',', []);
    assert [] + LineValues(lines) == LineValues(lines);
  }

  /**
   * The parser reads a document of readable lines back line for line: the first line's plain
   * cells become the headers and every other line becomes one data row of its cells' texts.
   */
  lemma ReadBack(lines: seq<seq<Cell>>)
    requires lines != [] && forall i | 0 <= i < |lines| :: ReadableLine(lines[i], ',')
    requires CleanHeader(lines[0]) && |lines[0]| >= 2 && EndsVisibly(lines[|lines| - 1])
    ensures Parsed(Join(LineTexts(lines, ','), "\n")) == Csv(Values(lines[0]), LineValues(lines[1..]))
  {
    ScanDocument(lines);
    ParsedScan(Join(LineTexts(lines, ','), "\n"), LineValues(lines));
    RowsBack(lines);
  }

  /** What the parser returns for text that normalisation leaves alone and that has a comma-separated first line. */
  lemma ParsedScan(text: string, all: seq<Row>)
    requires Normalize(text) == text && Separator(text) == ',' && Scan(text, ',', Start) == all && all != []
    ensures Parsed(text) == Csv(TrimCells(all[0]), DropBlankRows(all[1..]))
  {
  }

  /** The scanned rows of a readable document come through trimming and the blank-row filter unchanged. */
  lemma RowsBack(lines: seq<seq<Cell>>)
    requires lines != [] && forall i | 0 <= i < |lines| :: ReadableLine(lines[i], ',')
    requires CleanHeader(lines[0])
    ensures TrimCells(LineValues(lines)[0]) == Values(lines[0])
    ensures DropBlankRows(LineValues(lines)[1..]) == LineValues(lines[1..])
  {
    HeaderTrimmed(lines[0]);
    LineValuesTail(lines);
    LinesContent(lines[1..]);
  }

  lemma {:induction false} AllContent(rows: seq<Row>)
    requires forall i | 0 <= i < |rows| :: HasContent(rows[i])
    ensures DropBlankRows(rows) == rows
  {
    if rows != [] {
      AllContent(rows[1..]);
    }
  }

  // ---------------------------------------------------------------------
  // The round trip of the export

  /** The conditions under which the export reads back: no carriage return anywhere, and no quote, comma or newline in an unquoted cell. */
  predicate Exportable(tx: Listed, show: real -> string) {
    forall k | 0 <= k < |ExportCells(tx, show)| :: Readable(ExportCells(tx, show)[k], ',')
  }

  /** The lines of the transactions as written cells. */
  function TxLines(txs: seq<Listed>, show: real -> string): (lines: seq<seq<Cell>>)
    ensures |lines| == |txs|
    ensures forall i | 0 <= i < |txs| :: lines[i] == ExportCells(txs[i], show)
  {
    seq(|txs|, i requires 0 <= i < |txs| => ExportCells(txs[i], show))
  }

  lemma DocumentLines(header: seq<string>, rows: seq<seq<Cell>>)
    ensures Document(header, seq(|rows|, i requires 0 <= i < |rows| => Rendered(rows[i])))
         == Join(LineTexts([PlainCells(header)] + rows, ','), "\n")
  {
    var lines := [PlainCells(header)] + rows;
    var texts := [Join(header, ",")] + seq(|rows|, i requires 0 <= i < |rows| => Join(Rendered(rows[i]), ","));
    forall i | 0 <= i < |lines| ensures texts[i] == LineTexts(lines, ',')[i] {
      if i == 0 {
        assert Rendered(lines[0]) == header;
      } else {
        assert lines[i] == rows[i - 1];
      }
    }
    assert texts == LineTexts(lines, ',');
    var rs := seq(|rows|, i requires 0 <= i < |rows| => Rendered(rows[i]));
    assert [Join(header, ",")] + seq(|rs|, i requires 0 <= i < |rs| => Join(rs[i], ",")) == texts;
  }

  /** A word of ASCII letters, such as every header. */
  predicate Word(w: string) {
    w != [] && forall i | 0 <= i < |w| :: 'A' <= w[i] <= 'Z' || 'a' <= w[i] <= 'z'
  }

  lemma WordFacts(w: string)
    requires Word(w)
    ensures Visible(w) && !IsBlank(w)
    ensures '"' !in w && ',' !in w && ';' !in w && '\n' !in w && '\r' !in w
    ensures forall i | 0 <= i < |w| :: w[i] < '\U{00C0}'
  {
  }

  /** A line of plain words is a clean, readable header line. */
  lemma WordsLine(h: seq<string>)
    requires h != [] && forall k | 0 <= k < |h| :: Word(h[k])
    ensures CleanHeader(PlainCells(h)) && ReadableLine(PlainCells(h), ',')
  {
    var cells := PlainCells(h);
    forall k | 0 <= k < |h| ensures cells[k].Plain? && Visible(cells[k].text) && ';' !in cells[k].text && Readable(cells[k], ',') {
      WordFacts(h[k]);
    }
    WordFacts(h[0]);
    assert Values(cells)[0] == h[0];
  }

  lemma HeaderWords()
    ensures |Header| == 9 && forall k | 0 <= k < |Header| :: Word(Header[k])
  {
    assert Word("Fecha") && Word("Descripcion") && Word("Comercio");
    assert Word("Tipo") && Word("Monto") && Word("Moneda");
    assert Word("Categoria") && Word("Cuenta") && Word("Notas");
  }

  /** An exportable transaction is written as a readable line: its type cell is never blank. */
  lemma ExportCellsReadable(tx: Listed, show: real -> string)
    requires Exportable(tx, show)
    ensures ReadableLine(ExportCells(tx, show), ',')
  {
    var cells := ExportCells(tx, show);
    var w := TypeName(tx.txType);
    assert Values(cells)[3] == w;
    assert !IsSpace(w[0]);
  }

  /** Under a header of words, every line of the export is readable when each transaction is exportable. */
  lemma ExportLinesReadable(header: seq<string>, txs: seq<Listed>, show: real -> string)
    requires header != [] && forall k | 0 <= k < |header| :: Word(header[k])
    requires forall i | 0 <= i < |txs| :: Exportable(txs[i], show)
    ensures forall i | 0 <= i < |txs| + 1 :: ReadableLine(([PlainCells(header)] + TxLines(txs, show))[i], ',')
  {
    var tl := TxLines(txs, show);
    forall i | 0 <= i < |txs| ensures ReadableLine(tl[i], ',') {
      ExportCellsReadable(txs[i], show);
    }
    WordsLine(header);
    ReadableLines(PlainCells(header), tl);
  }

  lemma ReadableLines(first: seq<Cell>, more: seq<seq<Cell>>)
    requires ReadableLine(first, ',') && forall i | 0 <= i < |more| :: ReadableLine(more[i], ',')
    ensures forall i | 0 <= i < |more| + 1 :: ReadableLine(([first] + more)[i], ',')
  {
    forall i | 0 <= i < |more| + 1 ensures ReadableLine(([first] + more)[i], ',') {
      if i > 0 {
        assert ([first] + more)[i] == more[i - 1];
      }
    }
  }

  /** The texts of a transaction's nine cells: what the round trip reads back. */
  function ExportValues(tx: Listed, show: real -> string): (row: seq<string>)
    ensures |row| == |Header|
    ensures row[1] == tx.description && row[2] == tx.merchant.GetOr("") && row[8] == tx.notes.GetOr("")
    ensures row[6] == tx.categoryName.GetOr("") && row[7] == tx.accountName.GetOr("")
    ensures row[0] == tx.date && row[3] == TypeName(tx.txType) && row[4] == show(tx.amount)
    ensures row[5] == CurrencyCode(tx.currency)
  {
    [ tx.date, tx.description, tx.merchant.GetOr(""), TypeName(tx.txType), show(tx.amount),
      CurrencyCode(tx.currency), tx.categoryName.GetOr(""), tx.accountName.GetOr(""), tx.notes.GetOr("") ]
  }

  lemma TxRendered(txs: seq<Listed>, show: real -> string)
    ensures var cellRows := TxLines(txs, show);
      ExportRows(txs, show) == seq(|cellRows|, i requires 0 <= i < |cellRows| => Rendered(cellRows[i]))
  {
    forall i | 0 <= i < |txs| ensures ExportRows(txs, show)[i] == Rendered(TxLines(txs, show)[i]) {
      ExportCellsRendered(txs[i], show);
    }
  }

  lemma TxValues(txs: seq<Listed>, show: real -> string)
    ensures LineValues(TxLines(txs, show)) == seq(|txs|, i requires 0 <= i < |txs| => ExportValues(txs[i], show))
  {
    forall i | 0 <= i < |txs| ensures LineValues(TxLines(txs, show))[i] == ExportValues(txs[i], show) {
      ExportCellsValues(txs[i], show);
    }
  }

  /** The export ends visibly: with the closing quote of the last notes cell, or with the last header word. */
  lemma ExportEndsVisibly(header: seq<string>, txs: seq<Listed>, show: real -> string)
    requires header != [] && Word(header[|header| - 1])
    ensures var lines := [PlainCells(header)] + TxLines(txs, show); EndsVisibly(lines[|lines| - 1])
  {
    var lines := [PlainCells(header)] + TxLines(txs, show);
    var last := lines[|lines| - 1];
    if txs == [] {
      assert last[|last| - 1].text == header[|header| - 1];
      WordFacts(header[|header| - 1]);
    } else {
      var tl := TxLines(txs, show);
      var cells := ExportCells(txs[|txs| - 1], show);
      assert EndsVisibly(cells);
      assert tl[|txs| - 1] == cells;
    }
  }

  /** A document of exportable transactions under a header of words reads back as that header and the transactions' cells. */
  lemma DocumentRoundTrip(header: seq<string>, txs: seq<Listed>, show: real -> string)
    requires |header| >= 2 && forall k | 0 <= k < |header| :: Word(header[k])
    requires forall i | 0 <= i < |txs| :: Exportable(txs[i], show)
    ensures Parsed(Document(header, ExportRows(txs, show)))
         == Csv(header, seq(|txs|, i requires 0 <= i < |txs| => ExportValues(txs[i], show)))
  {
    var cellRows := TxLines(txs, show);
    var lines := [PlainCells(header)] + cellRows;
    TxRendered(txs, show);
    DocumentLines(header, cellRows);
    ExportLinesReadable(header, txs, show);
    WordsLine(header);
    ExportEndsVisibly(header, txs, show);
    ReadBack(lines);
    assert lines[1..] == cellRows;
    TxValues(txs, show);
  }

  /** The cells' texts are the exported values. */
  lemma ExportCellsValues(tx: Listed, show: real -> string)
    ensures Values(ExportCells(tx, show)) == ExportValues(tx, show)
  {
  }

  /**
   * The round trip: parsing the export of exportable transactions gives back the header row
   * and, per transaction in order, its nine cells, so the free-text cells come back exactly.
   */
  lemma ExportRoundTrip(txs: seq<Listed>, show: real -> string)
    requires forall i | 0 <= i < |txs| :: Exportable(txs[i], show)
    ensures var csv := Parsed(ExportText(txs, show));
      && csv.headers == Header
      && |csv.rows| == |txs|
      && (forall i | 0 <= i < |txs| :: csv.rows[i] == ExportValues(txs[i], show))
  {
    HeaderWords();
    DocumentRoundTrip(Header, txs, show);
  }

  /** The column each field is exported in. */
  function ExportColumn(f: CsvImport.Field): (col: nat)
    ensures col < |Header|
  {
    match f
    case DateCol => 0
    case DescriptionCol => 1
    case MerchantCol => 2
    case TypeCol => 3
    case AmountCol => 4
    case CurrencyCol => 5
    case CategoryCol => 6
    case AccountCol => 7
    case NotesCol => 8
  }

  lemma ColumnRoundTrip(f: CsvImport.Field)
    ensures ColumnField(ExportColumn(f)) == f
  {
  }

  /** The field exported in a column. */
  function ColumnField(col: nat): (f: CsvImport.Field)
    requires col < |Header|
    ensures ExportColumn(f) == col
  {
    if col == 0 then CsvImport.DateCol
    else if col == 1 then CsvImport.DescriptionCol
    else if col == 2 then CsvImport.MerchantCol
    else if col == 3 then CsvImport.TypeCol
    else if col == 4 then CsvImport.AmountCol
    else if col == 5 then CsvImport.CurrencyCol
    else if col == 6 then CsvImport.CategoryCol
    else if col == 7 then CsvImport.AccountCol
    else CsvImport.NotesCol
  }

  /** Lower-casing of an ASCII letter. */
  function AsciiLower(c: char): char {
    if 'A' <= c <= 'Z' then (c as int + 32) as char else c
  }

  /** A word whose lower-case spelling is an alias names the alias's field. */
  lemma WordAlias(w: string, lower: string, f: CsvImport.Field)
    requires Word(w) && |lower| == |w| && forall i | 0 <= i < |w| :: lower[i] == AsciiLower(w[i])
    requires lower in CsvImport.HeaderAliases && CsvImport.HeaderAliases[lower] == f
    ensures CsvImport.HeaderField(w) == Some(f)
  {
    WordNormalized(w, lower);
  }

  /** A word is normalized to its ASCII lower-case spelling: no space to trim, no accent to strip. */
  lemma WordNormalized(w: string, lower: string)
    requires Word(w) && |lower| == |w| && forall i | 0 <= i < |w| :: lower[i] == AsciiLower(w[i])
    ensures CsvImport.NormalizeHeader(w) == lower
  {
    WordFacts(w);
    TrimNoSpace(w);
    forall i | 0 <= i < |w| ensures ToLower(w)[i] == lower[i] {
      assert LowerChar(w[i]) == AsciiLower(w[i]);
    }
    assert ToLower(w) == lower;
    CsvImport.StripAccentsPlain(lower);
  }

  /** Each header names the field exported under it (one lemma per column keeps each literal computation separate). */
  lemma HeaderNames(col: nat)
    requires col < |Header|
    ensures CsvImport.HeaderField(Header[col]) == Some(ColumnField(col))
  {
    if col == 0 { DateHeader(); }
    else if col == 1 { DescriptionHeader(); }
    else if col == 2 { MerchantHeader(); }
    else if col == 3 { TypeHeader(); }
    else if col == 4 { AmountHeader(); }
    else if col == 5 { CurrencyHeader(); }
    else if col == 6 { CategoryHeader(); }
    else if col == 7 { AccountHeader(); }
    else { NotesHeader(); }
  }

  lemma DateHeader()
    ensures CsvImport.HeaderField(Header[0]) == Some(CsvImport.DateCol)
  {
    assert Word(Header[0]);
    WordAlias(Header[0], "fecha", CsvImport.DateCol);
  }

  lemma DescriptionHeader()
    ensures CsvImport.HeaderField(Header[1]) == Some(CsvImport.DescriptionCol)
  {
    assert Word(Header[1]);
    WordAlias(Header[1], "descripcion", CsvImport.DescriptionCol);
  }

  lemma MerchantHeader()
    ensures CsvImport.HeaderField(Header[2]) == Some(CsvImport.MerchantCol)
  {
    assert Word(Header[2]);
    WordAlias(Header[2], "comercio", CsvImport.MerchantCol);
  }

  lemma TypeHeader()
    ensures CsvImport.HeaderField(Header[3]) == Some(CsvImport.TypeCol)
  {
    assert Word(Header[3]);
    WordAlias(Header[3], "tipo", CsvImport.TypeCol);
  }

  lemma AmountHeader()
    ensures CsvImport.HeaderField(Header[4]) == Some(CsvImport.AmountCol)
  {
    assert Word(Header[4]);
    WordAlias(Header[4], "monto", CsvImport.AmountCol);
  }

  lemma CurrencyHeader()
    ensures CsvImport.HeaderField(Header[5]) == Some(CsvImport.CurrencyCol)
  {
    assert Word(Header[5]);
    WordAlias(Header[5], "moneda", CsvImport.CurrencyCol);
  }

  lemma CategoryHeader()
    ensures CsvImport.HeaderField(Header[6]) == Some(CsvImport.CategoryCol)
  {
    assert Word(Header[6]);
    WordAlias(Header[6], "categoria", CsvImport.CategoryCol);
  }

  lemma AccountHeader()
    ensures CsvImport.HeaderField(Header[7]) == Some(CsvImport.AccountCol)
  {
    assert Word(Header[7]);
    WordAlias(Header[7], "cuenta", CsvImport.AccountCol);
  }

  lemma NotesHeader()
    ensures CsvImport.HeaderField(Header[8]) == Some(CsvImport.NotesCol)
  {
    assert Word(Header[8]);
    WordAlias(Header[8], "notas", CsvImport.NotesCol);
  }

  /** A header row naming, column by column, the exported fields is detected as the export's mapping. */
  lemma DetectsHeader(header: seq<string>)
    requires |header| == |Header|
    requires forall col | 0 <= col < |Header| :: CsvImport.HeaderField(header[col]) == Some(ColumnField(col))
    ensures var m := CsvImport.DetectedMapping(header);
      forall f: CsvImport.Field :: f in m && m[f] == ExportColumn(f)
  {
    var m := CsvImport.DetectedMapping(header);
    CsvImport.DetectedFirstMatch(header);
    forall f: CsvImport.Field ensures f in m && m[f] == ExportColumn(f) {
      var col := ExportColumn(f);
      ColumnRoundTrip(f);
      assert CsvImport.HeaderField(header[col]) == Some(f);
      assert f in m;
      var j := m[f];
      assert CsvImport.HeaderField(header[j]) == Some(f);
      assert CsvImport.HeaderField(header[j]) == Some(ColumnField(j));
    }
  }

  /** The column detector maps every field to the column the exporter wrote it in. */
  lemma DetectsExportHeader()
    ensures var m := CsvImport.DetectedMapping(Header);
      forall f: CsvImport.Field :: f in m && m[f] == ExportColumn(f)
  {
    forall col | 0 <= col < |Header| ensures CsvImport.HeaderField(Header[col]) == Some(ColumnField(col)) {
      HeaderNames(col);
    }
    DetectsHeader(Header);
  }

  /** The type and currency cells read back through the importer's coercers. */
  lemma ExportedCodesRead(tx: Listed, show: real -> string)
    ensures var row := ExportValues(tx, show);
      CsvImport.ParseType(row[3]) == Some(tx.txType) && CsvImport.ParseCurrency(row[5]) == Some(tx.currency)
  {
    CsvImport.TypeNamesRoundTrip(tx.txType);
    CsvImport.CurrencyCodesRoundTrip(tx.currency);
  }
}
