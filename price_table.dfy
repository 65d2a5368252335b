/** The price table of script.js: `parseCSV` turns delimited text into rows by column
    position, `getPrice` finds the first row for a product, size and quantity, and
    `updateDropdowns` derives its quantity and size lists from the rows. */
module PriceTable {
  import opened Wrappers
  import opened Seqs
  import opened JsText

  /** One priced variant, as `parseCSV` builds it from the eight columns of a line. */
  datatype Row = Row(productType: string, size: string, paperColor: string, parts: int,
                     sides: string, inkColor: string, quantity: int, price: real)

  /** The global `parseFloat`, left abstract: None stands for NaN. */
  type FloatParser = string -> Option<real>

  /** The two tables that `loadCSVFiles` fills: one per ink colour. */
  datatype Tables = Tables(black: seq<Row>, fullColor: seq<Row>)

  /** A trimmed line takes part in parsing when it is non-empty and not a `//` comment. */
  predicate Kept(line: string) {
    line != "" && !StartsWith(line, "//")
  }

  function TrimAll(xs: seq<string>): seq<string> {
    seq(|xs|, i requires 0 <= i < |xs| => Trim(xs[i]))
  }

  lemma TrimAllCons(x: string, xs: seq<string>)
    ensures TrimAll([x] + xs) == [Trim(x)] + TrimAll(xs)
  {
    var l, r := TrimAll([x] + xs), [Trim(x)] + TrimAll(xs);
    forall i | 0 <= i < |l| ensures l[i] == r[i] {
      if i > 0 {
        assert ([x] + xs)[i] == xs[i - 1];
        assert r[i] == TrimAll(xs)[i - 1];
      }
    }
  }

  /** Strings that are their own trim are left alone. */
  lemma TrimAllFixed(xs: seq<string>)
    requires forall i :: 0 <= i < |xs| ==> Trim(xs[i]) == xs[i]
    ensures TrimAll(xs) == xs
  {
  }

  /** The trimmed, non-blank, non-comment lines of the text, header included. */
  function CleanLines(content: string): seq<string> {
    Filter(TrimAll(Split(content, '\n')), Kept)
  }

  /** The trimmed comma-separated values of one line. */
  function Values(line: string): seq<string> {
    TrimAll(Split(line, ','))
  }

  /** `values[i] || ''`. */
  function TextAt(values: seq<string>, i: nat): string {
    if i < |values| then values[i] else ""
  }

  /** `parseInt(values[i])`, where a missing value reads as NaN. */
  function IntAt(values: seq<string>, i: nat): Option<int> {
    if i < |values| then ParseInt(values[i]) else None
  }

  /** The record `parseCSV` builds from one data line; `parts` falls back to 2 whenever
      `parseInt` gives NaN or zero. */
  function ParseRow(line: string, parseFloat: FloatParser): (row: Row)
    ensures row.parts != 0
  {
    RowOf(Values(line), parseFloat)
  }

  /** The record built from the trimmed values of a line, by position. */
  function RowOf(values: seq<string>, parseFloat: FloatParser): (row: Row)
    ensures row.parts != 0
  {
    Row(productType := TextAt(values, 0),
        size := TextAt(values, 1),
        paperColor := TextAt(values, 2),
        parts := (match IntAt(values, 3) case Some(n) => if n != 0 then n else 2 case None => 2),
        sides := TextAt(values, 4),
        inkColor := TextAt(values, 5),
        quantity := (match IntAt(values, 6) case Some(n) => n case None => 0),
        price := if 7 < |values| then (match parseFloat(values[7]) case Some(x) => x case None => 0.0)
                 else 0.0)
  }

  /** `parseCSV`: the first clean line is the header and is dropped; every later clean line
      becomes one row. Without any clean line the header check throws, and the catch around
      the whole parse returns no rows (the console diagnostic it writes is not modelled).
      The per-line catch can never fire, because splitting a string does not throw. */
  function ParseCsv(content: string, parseFloat: FloatParser): seq<Row> {
    var lines := CleanLines(content);
    if |lines| == 0 then [] else DataRows(lines[1..], parseFloat)
  }

  /** One row per data line, in order. */
  function DataRows(lines: seq<string>, parseFloat: FloatParser): seq<Row> {
    seq(|lines|, i requires 0 <= i < |lines| => ParseRow(lines[i], parseFloat))
  }

  /** The rows correspond one to one, in input order, to the kept lines after the first:
      `kept` lists the positions of the lines that are non-blank and not comments once
      trimmed, in increasing order, and row `j` is parsed from the line at `kept[j + 1]`. */
  lemma ParseCsvLines(content: string, parseFloat: FloatParser)
    ensures var lines := Split(content, '\n');
      var kept := FilterIndices(TrimAll(lines), Kept);
      var rows := ParseCsv(content, parseFloat);
      && (forall k :: 0 <= k < |lines| ==> (k in kept <==> Kept(Trim(lines[k]))))
      && (forall j1, j2 :: 0 <= j1 < j2 < |kept| ==> kept[j1] < kept[j2])
      && |rows| == (if |kept| == 0 then 0 else |kept| - 1)
      && forall j :: 0 <= j < |rows| ==>
           kept[j + 1] < |lines| && rows[j] == ParseRow(Trim(lines[kept[j + 1]]), parseFloat)
  {
    var lines := Split(content, '\n');
    var trimmed := TrimAll(lines);
    FilterCorrespond(trimmed, Kept);
    var kept := FilterIndices(trimmed, Kept);
    var clean := Filter(trimmed, Kept);
    assert clean == CleanLines(content);
    var rows := ParseCsv(content, parseFloat);
    if |clean| > 0 {
      assert rows == DataRows(clean[1..], parseFloat);
      forall j | 0 <= j < |rows|
        ensures kept[j + 1] < |lines| && rows[j] == ParseRow(Trim(lines[kept[j + 1]]), parseFloat)
      {
        assert rows[j] == ParseRow(clean[1..][j], parseFloat);
        assert clean[1..][j] == clean[j + 1] == trimmed[kept[j + 1]];
      }
    }
  }

  /** Text whose every line is blank or a comment has no header and yields no rows. */
  lemma NoHeaderNoRows(content: string, parseFloat: FloatParser)
    requires forall line :: line in Split(content, '\n') ==> !Kept(Trim(line))
    ensures ParseCsv(content, parseFloat) == []
  {
    var lines := Split(content, '\n');
    var trimmed := TrimAll(lines);
    forall i | 0 <= i < |trimmed| ensures !Kept(trimmed[i]) {
      assert lines[i] in lines;
    }
    FilterNone(trimmed, Kept);
  }

  /** The content of the header line never matters: two texts that differ only in their
      header line parse to the same rows, whatever blank or comment lines come before it. */
  lemma HeaderIgnored(pre: seq<string>, header1: string, header2: string, body: string,
                      parseFloat: FloatParser)
    requires forall i :: 0 <= i < |pre| ==> '\n' !in pre[i] && !Kept(Trim(pre[i]))
    requires '\n' !in header1 && '\n' !in header2
    requires Kept(Trim(header1)) && Kept(Trim(header2))
    ensures ParseCsv(Join(pre + [header1, body], '\n'), parseFloat)
         == ParseCsv(Join(pre + [header2, body], '\n'), parseFloat)
  {
    LeadingSkipped(pre, header1, body);
    LeadingSkipped(pre, header2, body);
  }

  /** Blank and comment lines in front of the header are dropped before the header is
      taken, so the clean lines are the trimmed header followed by those of the body. */
  lemma {:induction false} LeadingSkipped(pre: seq<string>, header: string, body: string)
    requires forall i :: 0 <= i < |pre| ==> '\n' !in pre[i] && !Kept(Trim(pre[i]))
    requires '\n' !in header && Kept(Trim(header))
    ensures CleanLines(Join(pre + [header, body], '\n')) == [Trim(header)] + CleanLines(body)
  {
    var all := pre + [header, body];
    if |pre| == 0 {
      assert all == [header, body];
      assert Join(all, '\n') == header + "\n" + body;
      HeaderLine(header, body);
    } else {
      assert all[1..] == pre[1..] + [header, body];
      LeadingSkipped(pre[1..], header, body);
      SkippedLine(pre[0], Join(all[1..], '\n'));
    }
  }

  /** A blank or comment line contributes nothing to the clean lines. */
  lemma SkippedLine(line: string, rest: string)
    requires '\n' !in line && !Kept(Trim(line))
    ensures CleanLines(line + ['\n'] + rest) == CleanLines(rest)
  {
    SplitPrefix(line, '\n', rest);
    TrimAllCons(line, Split(rest, '\n'));
    FilterConsDropped(Trim(line), TrimAll(Split(rest, '\n')), Kept);
  }

  lemma HeaderLine(header: string, body: string)
    requires '\n' !in header && Kept(Trim(header))
    ensures CleanLines(header + "\n" + body) == [Trim(header)] + CleanLines(body)
  {
    assert header + "\n" + body == header + ['\n'] + body;
    SplitPrefix(header, '\n', body);
    var rest := Split(body, '\n');
    TrimAllCons(header, rest);
    FilterConsKept(Trim(header), TrimAll(rest), Kept);
  }

  /** A value as `parseCSV` leaves it: trimmed and free of the column separator. */
  predicate CleanValue(f: string) {
    ',' !in f && IsTrimmed(f)
  }

  /** Every text field of a parsed row is trimmed and contains no comma. */
  lemma ParseRowClean(line: string, parseFloat: FloatParser)
    ensures var row := ParseRow(line, parseFloat);
      && CleanValue(row.productType) && CleanValue(row.size) && CleanValue(row.paperColor)
      && CleanValue(row.sides) && CleanValue(row.inkColor)
  {
    ValuesClean(line);
    RowOfClean(Values(line), parseFloat);
  }

  lemma ValuesClean(line: string)
    ensures forall i :: 0 <= i < |Values(line)| ==> CleanValue(Values(line)[i])
  {
    var pieces := Split(line, ',');
    forall i | 0 <= i < |pieces| ensures CleanValue(Values(line)[i]) {
      assert Values(line)[i] == Trim(pieces[i]);
      TrimChars(pieces[i]);
    }
  }

  lemma RowOfClean(values: seq<string>, parseFloat: FloatParser)
    requires forall i :: 0 <= i < |values| ==> CleanValue(values[i])
    ensures var row := RowOf(values, parseFloat);
      && CleanValue(row.productType) && CleanValue(row.size) && CleanValue(row.paperColor)
      && CleanValue(row.sides) && CleanValue(row.inkColor)
  {
    forall i: nat ensures CleanValue(TextAt(values, i)) { }
  }

  /** Each field of a parsed line comes from the comma-separated piece at its position,
      trimmed; a missing piece reads as the empty string, and its number as NaN (None).
      `parts` is the `parseInt` of its piece, or 2 when that is NaN or 0; `quantity` is the
      `parseInt` of its piece, or 0 when that is NaN; `price` is the `parseFloat` of its
      piece, or 0 when that is NaN. */
  lemma ParseRowFields(line: string, parseFloat: FloatParser)
    ensures var pieces, row := Split(line, ','), ParseRow(line, parseFloat);
      var parts := if |pieces| > 3 then ParseInt(Trim(pieces[3])) else None;
      var quantity := if |pieces| > 6 then ParseInt(Trim(pieces[6])) else None;
      var price := if |pieces| > 7 then parseFloat(Trim(pieces[7])) else None;
      && row.productType == Trim(pieces[0])
      && row.size == (if |pieces| > 1 then Trim(pieces[1]) else "")
      && row.paperColor == (if |pieces| > 2 then Trim(pieces[2]) else "")
      && row.sides == (if |pieces| > 4 then Trim(pieces[4]) else "")
      && row.inkColor == (if |pieces| > 5 then Trim(pieces[5]) else "")
      && (parts.Some? && parts.value != 0 ==> row.parts == parts.value)
      && (parts == None || parts == Some(0) ==> row.parts == 2)
      && (quantity.Some? ==> row.quantity == quantity.value)
      && (quantity == None ==> row.quantity == 0)
      && (price.Some? ==> row.price == price.value)
      && (price == None ==> row.price == 0.0)
  {
  }

  /** The text of a row in the column order `parseCSV` expects, with the price column
      written as `priceText`. */
  function FormatRow(row: Row, priceText: string): string {
    Join(Columns(row, priceText), ',')
  }

  function Columns(row: Row, priceText: string): seq<string> {
    [row.productType, row.size, row.paperColor, DecimalString(row.parts),
     row.sides, row.inkColor, DecimalString(row.quantity), priceText]
  }

  lemma DecimalStringChars(n: int)
    ensures forall k :: 0 <= k < |DecimalString(n)| ==>
      DecimalString(n)[k] == '-' || IsDigit(DecimalString(n)[k], 10)
  {
  }

  lemma DecimalStringClean(n: int)
    ensures CleanValue(DecimalString(n))
  {
    DecimalStringChars(n);
  }

  /** Parsing a formatted row gives the row back, provided its text fields and price text
      are trimmed and comma-free, `parts` is not the 0 that `|| 2` replaces, and
      `parseFloat` reads the price text as the price. */
  lemma RowRoundTrip(row: Row, priceText: string, parseFloat: FloatParser)
    requires CleanValue(row.productType) && CleanValue(row.size) && CleanValue(row.paperColor)
    requires CleanValue(row.sides) && CleanValue(row.inkColor) && CleanValue(priceText)
    requires row.parts != 0
    requires parseFloat(priceText) == Some(row.price)
    ensures ParseRow(FormatRow(row, priceText), parseFloat) == row
  {
    var columns := Columns(row, priceText);
    ColumnsClean(row, priceText);
    SplitJoin(columns, ',');
    TrimAllClean(columns);
    RowOfColumns(row, priceText, parseFloat);
  }

  lemma ColumnsClean(row: Row, priceText: string)
    requires CleanValue(row.productType) && CleanValue(row.size) && CleanValue(row.paperColor)
    requires CleanValue(row.sides) && CleanValue(row.inkColor) && CleanValue(priceText)
    ensures forall i :: 0 <= i < |Columns(row, priceText)| ==> CleanValue(Columns(row, priceText)[i])
  {
    DecimalStringClean(row.parts);
    DecimalStringClean(row.quantity);
    var columns := Columns(row, priceText);
    assert columns[3] == DecimalString(row.parts) && columns[6] == DecimalString(row.quantity);
  }

  lemma TrimAllClean(xs: seq<string>)
    requires forall i :: 0 <= i < |xs| ==> CleanValue(xs[i])
    ensures TrimAll(xs) == xs
  {
    forall i | 0 <= i < |xs| ensures Trim(xs[i]) == xs[i] {
      TrimOfTrimmed(xs[i]);
    }
  }

  lemma RowOfColumns(row: Row, priceText: string, parseFloat: FloatParser)
    requires row.parts != 0
    requires parseFloat(priceText) == Some(row.price)
    ensures RowOf(Columns(row, priceText), parseFloat) == row
  {
    ParseIntRoundTrip(row.parts);
    ParseIntRoundTrip(row.quantity);
  }

  /** The last piece of a join follows the last separator. */
  lemma {:induction false} JoinLast(parts: seq<string>, sep: char)
    requires |parts| >= 2
    ensures Join(parts, sep) == Join(parts[..|parts| - 1], sep) + [sep] + parts[|parts| - 1]
  {
    if |parts| > 2 {
      JoinLast(parts[1..], sep);
      assert parts[1..][..|parts| - 2] == parts[..|parts| - 1][1..];
    }
  }

  /** What a row must satisfy to be written as one line of a table and read back. */
  predicate Writable(row: Row, priceText: string) {
    && CleanValue(row.productType) && CleanValue(row.size) && CleanValue(row.paperColor)
    && CleanValue(row.sides) && CleanValue(row.inkColor) && CleanValue(priceText)
    && '\n' !in row.productType && '\n' !in row.size && '\n' !in row.paperColor
    && '\n' !in row.sides && '\n' !in row.inkColor && '\n' !in priceText
    && row.parts != 0
    && !StartsWith(row.productType, "//")
  }

  /** A writable row formats to a single trimmed line that `parseCSV` keeps. */
  lemma FormatRowLine(row: Row, priceText: string)
    requires Writable(row, priceText)
    ensures '\n' !in FormatRow(row, priceText)
    ensures Trim(FormatRow(row, priceText)) == FormatRow(row, priceText)
    ensures Kept(FormatRow(row, priceText))
  {
    FormatRowSingleLine(row, priceText);
    FormatRowTrimmed(row, priceText);
    FormatRowKept(row, priceText);
  }

  lemma FormatRowTrimmed(row: Row, priceText: string)
    requires row.productType == [] || !IsSpace(row.productType[0])
    requires priceText == [] || !IsSpace(priceText[|priceText| - 1])
    ensures Trim(FormatRow(row, priceText)) == FormatRow(row, priceText)
  {
    FormatRowEnds(row, priceText);
    TrimOfTrimmed(FormatRow(row, priceText));
  }

  lemma FormatRowKept(row: Row, priceText: string)
    requires !StartsWith(row.productType, "//")
    ensures Kept(FormatRow(row, priceText))
  {
    var line := FormatRow(row, priceText);
    FormatRowEnds(row, priceText);
    if |row.productType| >= 2 {
      assert line[..2] == row.productType[..2];
    } else {
      assert line[|row.productType|] == ',';
    }
  }

  lemma FormatRowSingleLine(row: Row, priceText: string)
    requires '\n' !in row.productType && '\n' !in row.size && '\n' !in row.paperColor
    requires '\n' !in row.sides && '\n' !in row.inkColor && '\n' !in priceText
    ensures '\n' !in FormatRow(row, priceText)
  {
    DecimalStringChars(row.parts);
    DecimalStringChars(row.quantity);
    JoinAvoids(Columns(row, priceText), ',', '\n');
  }

  /** A formatted row starts with its product type and ends with its price text, each
      followed or preceded by a comma. */
  lemma FormatRowEnds(row: Row, priceText: string)
    ensures var line, p := FormatRow(row, priceText), row.productType;
      && |line| > |p| && line[|p|] == ','
      && (|p| >= 2 ==> line[..2] == p[..2])
      && line[0] == (if p == [] then ',' else p[0])
      && line[|line| - 1] == (if priceText == [] then ',' else priceText[|priceText| - 1])
  {
    var columns := Columns(row, priceText);
    var line := FormatRow(row, priceText);
    assert line == row.productType + [','] + Join(columns[1..], ',');
    JoinLast(columns, ',');
    assert line == Join(columns[..7], ',') + [','] + priceText;
  }

  /** The formatted lines of the rows, one per row. */
  function RowLines(rows: seq<Row>, priceTexts: seq<string>): seq<string>
    requires |priceTexts| == |rows|
  {
    seq(|rows|, i requires 0 <= i < |rows| => FormatRow(rows[i], priceTexts[i]))
  }

  /** The text of a table: a header line, then one formatted line per row. */
  function FormatCsv(header: string, rows: seq<Row>, priceTexts: seq<string>): string
    requires |priceTexts| == |rows|
  {
    Join([header] + RowLines(rows, priceTexts), '\n')
  }

  /** Lines that are already single, trimmed and kept come out of `CleanLines` unchanged,
      behind the header. */
  lemma JoinedLines(header: string, lines: seq<string>)
    requires '\n' !in header && Kept(Trim(header))
    requires forall i :: 0 <= i < |lines| ==>
      '\n' !in lines[i] && Trim(lines[i]) == lines[i] && Kept(lines[i])
    ensures CleanLines(Join([header] + lines, '\n')) == [Trim(header)] + lines
  {
    SplitJoinedLines(header, lines);
    KeptLines(header, lines);
  }

  lemma SplitJoinedLines(header: string, lines: seq<string>)
    requires '\n' !in header
    requires forall i :: 0 <= i < |lines| ==> '\n' !in lines[i]
    ensures Split(Join([header] + lines, '\n'), '\n') == [header] + lines
  {
    var all := [header] + lines;
    forall i | 0 <= i < |all| ensures '\n' !in all[i] {
      if i > 0 {
        assert all[i] == lines[i - 1];
      }
    }
    SplitJoin(all, '\n');
  }

  lemma KeptLines(header: string, lines: seq<string>)
    requires Kept(Trim(header))
    requires forall i :: 0 <= i < |lines| ==> Trim(lines[i]) == lines[i] && Kept(lines[i])
    ensures Filter(TrimAll([header] + lines), Kept) == [Trim(header)] + lines
  {
    TrimAllCons(header, lines);
    TrimAllFixed(lines);
    FilterKeepsAll(lines, Kept);
    FilterConsKept(Trim(header), lines, Kept);
  }

  /** Each row line of writable rows is a single trimmed line that `parseCSV` keeps. */
  lemma RowLinesKept(rows: seq<Row>, priceTexts: seq<string>)
    requires |priceTexts| == |rows|
    requires forall i :: 0 <= i < |rows| ==> Writable(rows[i], priceTexts[i])
    ensures var lines := RowLines(rows, priceTexts);
      forall i :: 0 <= i < |lines| ==> '\n' !in lines[i] && Trim(lines[i]) == lines[i] && Kept(lines[i])
  {
    forall i | 0 <= i < |rows|
      ensures var line := RowLines(rows, priceTexts)[i];
        '\n' !in line && Trim(line) == line && Kept(line)
    {
      FormatRowLine(rows[i], priceTexts[i]);
    }
  }

  /** Parsing the text of a table gives back its rows, whatever its header says. */
  lemma TableRoundTrip(header: string, rows: seq<Row>, priceTexts: seq<string>, parseFloat: FloatParser)
    requires |priceTexts| == |rows|
    requires '\n' !in header && Kept(Trim(header))
    requires forall i :: 0 <= i < |rows| ==> Writable(rows[i], priceTexts[i])
    requires forall i :: 0 <= i < |rows| ==> parseFloat(priceTexts[i]) == Some(rows[i].price)
    ensures ParseCsv(FormatCsv(header, rows, priceTexts), parseFloat) == rows
  {
    RowLinesKept(rows, priceTexts);
    JoinedLines(header, RowLines(rows, priceTexts));
    var clean := CleanLines(FormatCsv(header, rows, priceTexts));
    assert clean[1..] == RowLines(rows, priceTexts);
    var parsed := ParseCsv(FormatCsv(header, rows, priceTexts), parseFloat);
    assert parsed == DataRows(RowLines(rows, priceTexts), parseFloat);
    forall i | 0 <= i < |rows| ensures parsed[i] == rows[i] {
      RowRoundTrip(rows[i], priceTexts[i], parseFloat);
    }
  }

  /** A one-line text is the header alone: it has no rows, so every price lookup is null
      and both dropdown lists are empty. */
  lemma HeaderOnly(header: string, inkColor: string, productType: string, size: string,
                   quantity: string, parseFloat: FloatParser)
    requires '\n' !in header
    ensures ParseCsv(header, parseFloat) == []
    ensures var rows := ParseCsv(header, parseFloat);
      var tables := Tables(rows, rows);
      && GetPrice(tables, inkColor, productType, size, quantity) == None
      && QuantityChoices(tables, inkColor, productType) == []
      && SizeChoices(tables, inkColor, productType) == []
  {
    SplitWhole(header, '\n');
    assert TrimAll([header]) == [Trim(header)];
    assert |CleanLines(header)| <= 1;
  }

  /** `inkColor === 'black' ? blackInkData : fullColorData`. */
  function TableFor(tables: Tables, inkColor: string): seq<Row> {
    if inkColor == "black" then tables.black else tables.fullColor
  }

  /** The row test of `getPrice`, with the quantity already parsed. */
  predicate Matches(row: Row, productType: string, size: string, quantity: int) {
    row.productType == productType && row.size == size && row.quantity == quantity
  }

  /** `getPrice`: the price of the first row of the ink colour's table that has the product
      type, size and `parseInt` of the quantity, or None (null). A quantity that parses to
      NaN equals no number, so it matches no row. */
  function GetPrice(tables: Tables, inkColor: string, productType: string, size: string,
                    quantity: string): Option<real>
  {
    var data := TableFor(tables, inkColor);
    match ParseInt(quantity)
    case None => None
    case Some(q) =>
      match First(data, (row: Row) => Matches(row, productType, size, q))
      case None => None
      case Some(i) => Some(data[i].price)
  }

  /** When row `i` is the first match, `getPrice` returns its price. */
  lemma GetPriceFirstMatch(tables: Tables, inkColor: string, productType: string, size: string,
                           quantity: string, q: int, i: nat)
    requires ParseInt(quantity) == Some(q)
    requires i < |TableFor(tables, inkColor)|
    requires Matches(TableFor(tables, inkColor)[i], productType, size, q)
    requires forall j :: 0 <= j < i ==> !Matches(TableFor(tables, inkColor)[j], productType, size, q)
    ensures GetPrice(tables, inkColor, productType, size, quantity) == Some(TableFor(tables, inkColor)[i].price)
  {
    var data := TableFor(tables, inkColor);
    FirstIsUnique(data, (row: Row) => Matches(row, productType, size, q), i);
  }

  /** `getPrice` returns null exactly when the quantity is not a number or no row matches. */
  lemma GetPriceNull(tables: Tables, inkColor: string, productType: string, size: string,
                     quantity: string)
    ensures GetPrice(tables, inkColor, productType, size, quantity) == None <==>
      || ParseInt(quantity) == None
      || forall j :: 0 <= j < |TableFor(tables, inkColor)| ==>
           !Matches(TableFor(tables, inkColor)[j], productType, size, ParseInt(quantity).value)
  {
  }

  /** A table of one writable row, written out and parsed back: asking the black table for
      the row's product type, size and the decimal text of a quantity gives the row's price
      when the quantity is the row's, and null otherwise. */
  lemma SingleRowLookup(header: string, row: Row, priceText: string, parseFloat: FloatParser,
                        fullColor: seq<Row>, quantity: int)
    requires '\n' !in header && Kept(Trim(header))
    requires Writable(row, priceText) && parseFloat(priceText) == Some(row.price)
    ensures var tables := Tables(ParseCsv(FormatCsv(header, [row], [priceText]), parseFloat), fullColor);
      GetPrice(tables, "black", row.productType, row.size, DecimalString(quantity)) ==
        (if quantity == row.quantity then Some(row.price) else None)
  {
    TableRoundTrip(header, [row], [priceText], parseFloat);
    SingleRowPrice(row, fullColor, quantity);
  }

  lemma SingleRowPrice(row: Row, fullColor: seq<Row>, quantity: int)
    ensures GetPrice(Tables([row], fullColor), "black", row.productType, row.size, DecimalString(quantity)) ==
      (if quantity == row.quantity then Some(row.price) else None)
  {
    ParseIntRoundTrip(quantity);
    if quantity == row.quantity {
      GetPriceFirstMatch(Tables([row], fullColor), "black", row.productType, row.size,
                         DecimalString(quantity), quantity, 0);
    }
  }

  /** Two tables that agree on product type, size, quantity and price, row by row. */
  predicate SameKeys(a: seq<Row>, b: seq<Row>) {
    && |a| == |b|
    && forall i :: 0 <= i < |a| ==>
         && a[i].productType == b[i].productType && a[i].size == b[i].size
         && a[i].quantity == b[i].quantity && a[i].price == b[i].price
  }

  /** `getPrice` ignores the paper colour, parts, sides and ink colour columns. */
  lemma GetPriceIgnoresOtherColumns(a: Tables, b: Tables, inkColor: string, productType: string,
                                    size: string, quantity: string)
    requires SameKeys(TableFor(a, inkColor), TableFor(b, inkColor))
    ensures GetPrice(a, inkColor, productType, size, quantity) == GetPrice(b, inkColor, productType, size, quantity)
  {
    if ParseInt(quantity).Some? {
      var q := ParseInt(quantity).value;
      var da, db := TableFor(a, inkColor), TableFor(b, inkColor);
      var r := First(da, (row: Row) => Matches(row, productType, size, q));
      if r.Some? {
        GetPriceFirstMatch(a, inkColor, productType, size, quantity, q, r.value);
        GetPriceFirstMatch(b, inkColor, productType, size, quantity, q, r.value);
      }
    }
  }

  const CarbonlessForm: string := "Carbonless Form"

  predicate IsCarbonless(row: Row) {
    row.productType == CarbonlessForm
  }

  /** `rows.map(f)`. */
  function Project<U>(rows: seq<Row>, f: Row -> U): seq<U> {
    seq(|rows|, i requires 0 <= i < |rows| => f(rows[i]))
  }

  function QuantityOf(row: Row): int {
    row.quantity
  }

  function SizeOf(row: Row): string {
    row.size
  }

  function Quantities(rows: seq<Row>): seq<int> {
    Project(rows, QuantityOf)
  }

  function Sizes(rows: seq<Row>): seq<string> {
    Project(rows, SizeOf)
  }

  /** The quantity list of `updateDropdowns`: the distinct quantities of the
      'Carbonless Form' rows, sorted ascending. The product type argument is not used. */
  function QuantityChoices(tables: Tables, inkColor: string, productType: string): seq<int> {
    Sort(Dedupe(Quantities(Filter(TableFor(tables, inkColor), IsCarbonless))))
  }

  /** The size list of `updateDropdowns`: the distinct sizes of the 'Carbonless Form' rows,
      in order of first appearance. The product type argument is not used. */
  function SizeChoices(tables: Tables, inkColor: string, productType: string): seq<string> {
    Dedupe(Sizes(Filter(TableFor(tables, inkColor), IsCarbonless)))
  }

  /** A value occurs among the projections of the 'Carbonless Form' rows of `data` exactly
      when some such row projects to it. */
  lemma ProjectCarbonless<U>(data: seq<Row>, f: Row -> U, v: U)
    ensures v in Project(Filter(data, IsCarbonless), f) <==>
      exists i :: 0 <= i < |data| && IsCarbonless(data[i]) && f(data[i]) == v
  {
    var projected := Project(Filter(data, IsCarbonless), f);
    if v in projected {
      var k :| 0 <= k < |projected| && projected[k] == v;
      ProjectedFrom(data, f, k);
    }
    if exists i :: 0 <= i < |data| && IsCarbonless(data[i]) && f(data[i]) == v {
      var i :| 0 <= i < |data| && IsCarbonless(data[i]) && f(data[i]) == v;
      ProjectedTo(data, f, i);
    }
  }

  lemma ProjectedFrom<U>(data: seq<Row>, f: Row -> U, k: nat)
    requires k < |Filter(data, IsCarbonless)|
    ensures exists i ::
      && 0 <= i < |data| && IsCarbonless(data[i])
      && f(data[i]) == Project(Filter(data, IsCarbonless), f)[k]
  {
    var idx := FilterIndices(data, IsCarbonless);
    FilterIndicesLength(data, IsCarbonless);
    FilterIndicesAt(data, IsCarbonless);
    FilterIndicesMember(data, IsCarbonless);
    assert idx[k] in idx;
  }

  lemma ProjectedTo<U>(data: seq<Row>, f: Row -> U, i: nat)
    requires i < |data| && IsCarbonless(data[i])
    ensures f(data[i]) in Project(Filter(data, IsCarbonless), f)
  {
    var idx := FilterIndices(data, IsCarbonless);
    FilterIndicesLength(data, IsCarbonless);
    FilterIndicesAt(data, IsCarbonless);
    FilterIndicesMember(data, IsCarbonless);
    var k :| 0 <= k < |idx| && idx[k] == i;
    assert Project(Filter(data, IsCarbonless), f)[k] == f(data[i]);
  }

  /** The quantity list is strictly ascending, and holds exactly the quantities of the
      'Carbonless Form' rows of the ink colour's table, whatever product type is asked for. */
  lemma QuantityChoicesSpec(tables: Tables, inkColor: string, productType: string)
    ensures StrictlyAscending(QuantityChoices(tables, inkColor, productType))
    ensures forall q :: q in QuantityChoices(tables, inkColor, productType) <==>
      exists i :: 0 <= i < |TableFor(tables, inkColor)| &&
        IsCarbonless(TableFor(tables, inkColor)[i]) && TableFor(tables, inkColor)[i].quantity == q
  {
    var data := TableFor(tables, inkColor);
    var quantities := Quantities(Filter(data, IsCarbonless));
    var distinct := Dedupe(quantities);
    SortDistinct(distinct);
    forall q ensures q in Sort(distinct) <==>
      exists i :: 0 <= i < |data| && IsCarbonless(data[i]) && data[i].quantity == q
    {
      assert q in Sort(distinct) <==> q in multiset(Sort(distinct));
      assert q in distinct <==> q in multiset(distinct);
      assert q in distinct <==> q in quantities;
      ProjectCarbonless(data, QuantityOf, q);
    }
  }

  /** The size list has no repetitions, holds exactly the sizes of the 'Carbonless Form'
      rows, and lists them in the order they first appear among those rows. */
  lemma SizeChoicesSpec(tables: Tables, inkColor: string, productType: string)
    ensures Distinct(SizeChoices(tables, inkColor, productType))
    ensures forall s :: s in SizeChoices(tables, inkColor, productType) <==>
      exists i :: 0 <= i < |TableFor(tables, inkColor)| &&
        IsCarbonless(TableFor(tables, inkColor)[i]) && TableFor(tables, inkColor)[i].size == s
    ensures var seen := Sizes(Filter(TableFor(tables, inkColor), IsCarbonless));
      var r := SizeChoices(tables, inkColor, productType);
      forall i, j :: 0 <= i < j < |r| ==> FirstIndexOf(seen, r[i]) < FirstIndexOf(seen, r[j])
  {
    var data := TableFor(tables, inkColor);
    DedupeOrder(Sizes(Filter(data, IsCarbonless)));
    forall s ensures s in Sizes(Filter(data, IsCarbonless)) <==>
      exists i :: 0 <= i < |data| && IsCarbonless(data[i]) && data[i].size == s
    {
      ProjectCarbonless(data, SizeOf, s);
    }
  }
}
