/**
 * The CSV export of the sorted results: one header row of ten fixed names, then one
 * ten-cell row per item, cells escaped by `escapeCsv` and joined with commas, rows joined
 * with newlines. A quote-aware reader recovers every cell, which is what the escaping is for.
 */
module CsvExport {
  import opened Wrappers
  import opened Strings
  import opened ArchiveTypes
  import Ranker

  /** A value handed to `escapeCsv`: `undefined`, a string or a number. */
  datatype Cell = Missing | Str(text: string) | Number(n: int)

  /** `String(value)`. */
  function CellText(cell: Cell): string
  {
    match cell
    case Missing => ""
    case Str(text) => text
    case Number(n) => IntToString(n)
  }

  /** The characters that force a cell into quotes. */
  predicate NeedsQuoting(s: string)
  {
    ',' in s || '"' in s || '\n' in s
  }

  /** `str.replace(/"/g, '""')`. */
  function DoubleQuotes(s: string): string
    decreases |s|
  {
    if |s| == 0 then ""
    else EscapeChar(s[0]) + DoubleQuotes(s[1..])
  }

  /** One character of a quoted cell: a quote is doubled, anything else kept. */
  function EscapeChar(ch: char): string
  {
    if ch == '"' then "\"\"" else [ch]
  }

  /** The escaping of a present value's text. */
  function EscapeText(s: string): string
  {
    if NeedsQuoting(s) then "\"" + DoubleQuotes(s) + "\"" else s
  }

  /** `escapeCsv(value)`: the empty cell for `undefined`, the escaped text otherwise. */
  function EscapeCsv(cell: Cell): string
  {
    match cell
    case Missing => ""
    case _ => EscapeText(CellText(cell))
  }

  /** `formatArray(value)`: a list is joined with "; ", a string or `undefined` passes through. */
  function FormatArray(value: Multi): Cell
  {
    match value
    case Absent => Missing
    case One(text) => Str(text)
    case Many(texts) => Str(Join(texts, "; "))
  }

  /** `formatDate(dateString)`: '' for a missing or empty date, else the part before the first 'T'. */
  function FormatDate(date: Option<string>): Cell
  {
    if date.None? || |date.value| == 0 then Str("") else Str(Split(date.value, 'T')[0])
  }

  function OptionalText(value: Option<string>): Cell
  {
    if value.Some? then Str(value.value) else Missing
  }

  function OptionalNumber(value: Option<int>): Cell
  {
    if value.Some? then Number(value.value) else Missing
  }

  /** The title of each of the ten columns. */
  function HeaderName(column: nat): string
  {
    match column
    case 0 => "Identifier"
    case 1 => "Title"
    case 2 => "Year"
    case 3 => "Date Uploaded"
    case 4 => "Creator"
    case 5 => "Language"
    case 6 => "Downloads"
    case 7 => "Pages"
    case 8 => "Collection"
    case _ => "Lostness Index"
  }

  /** `headers`. */
  function Headers(): seq<string>
  {
    seq(10, column requires 0 <= column < 10 => HeaderName(column))
  }

  /** `headers.join(',')`. */
  function HeaderLine(): string
  {
    Join(Headers(), ",")
  }

  /** The ten values of an item's row, in header order. */
  function RowCells(item: ArchiveItem): seq<Cell>
  {
    [ Str(item.identifier), Str(item.title), OptionalText(item.year), FormatDate(item.publicdate),
      FormatArray(item.creator), OptionalText(item.language), OptionalNumber(item.downloads),
      OptionalNumber(item.pages), FormatArray(item.collection), OptionalNumber(item.lostnessIndex) ]
  }

  /** `[escapeCsv(...), ...].join(',')`. */
  function RowLine(item: ArchiveItem): string
  {
    var cells := RowCells(item);
    Join(seq(|cells|, i requires 0 <= i < |cells| => EscapeCsv(cells[i])), ",")
  }

  /** The row lines of `items`, in order. */
  function RowLines(items: seq<ArchiveItem>): (lines: seq<string>)
    ensures |lines| == |items|
    decreases |items|
  {
    if |items| == 0 then [] else RowLines(items[..|items| - 1]) + [RowLine(items[|items| - 1])]
  }

  /** `csvRows.join('\n')` once every item has been pushed. */
  function CsvDocument(items: seq<ArchiveItem>): string
  {
    Join([HeaderLine()] + RowLines(items), "\n")
  }

  /** The texts a reader should find in the file: the header row, then each item's cell texts. */
  function ExpectedRecords(items: seq<ArchiveItem>): seq<seq<string>>
  {
    [Headers()] + ItemRecords(items)
  }

  /** The texts of one item's row, one per column. */
  function ItemTexts(item: ArchiveItem): (texts: seq<string>)
    ensures |texts| == 10
  {
    CellTexts(RowCells(item))
  }

  /** The cell texts of each item, in order. */
  function ItemRecords(items: seq<ArchiveItem>): (records: seq<seq<string>>)
    ensures |records| == |items|
    decreases |items|
  {
    if |items| == 0 then [] else ItemRecords(items[..|items| - 1]) + [ItemTexts(items[|items| - 1])]
  }

  function CellTexts(cells: seq<Cell>): seq<string>
  {
    seq(|cells|, i requires 0 <= i < |cells| => CellText(cells[i]))
  }

  /** The file the browser is asked to save. */
  datatype Download = Download(fileName: string, mimeType: string, content: string)

  const FileName := "lost-finder-results.csv"
  const MimeType := "text/csv;charset=utf-8;"

  /** `handleExport`: nothing for no results, otherwise the CSV built row by row. */
  method HandleExport(sortedResults: seq<ArchiveItem>) returns (download: Option<Download>)
    ensures |sortedResults| == 0 ==> download.None?
    ensures |sortedResults| > 0 ==> download == Some(Download(FileName, MimeType, CsvDocument(sortedResults)))
  {
    if |sortedResults| == 0 {
      return None;
    }
    var csvRows := PushRows([HeaderLine()], sortedResults);
    var csvString := Join(csvRows, "\n");
    download := Some(Download(FileName, MimeType, csvString));
  }

  /** The loop of `handleExport`: pushes the row line of each item, in order. */
  method PushRows(csvRows0: seq<string>, items: seq<ArchiveItem>) returns (csvRows: seq<string>)
    ensures csvRows == csvRows0 + RowLines(items)
  {
    csvRows := csvRows0;
    for i := 0 to |items|
      invariant csvRows == csvRows0 + RowLines(items[..i])
    {
      csvRows := csvRows + [RowLine(items[i])];
      assert items[..i + 1][..i] == items[..i];
    }
    assert items[..|items|] == items;
  }

  /** The export of what the table shows: the sorted view of the ranker's results. */
  method ExportView(ranker: Ranker.RankerState) returns (download: Option<Download>)
    ensures var view := Ranker.SortedView(ranker.results, ranker.config);
            download == if |view| == 0 then None else Some(Download(FileName, MimeType, CsvDocument(view)))
  {
    var sorted := ranker.SortedResults();
    download := HandleExport(sorted);
  }

  // ---------------------------------------------------------------------------
  // A reader for the written format

  /** Reads the inside of a quoted cell up to its closing quote; a doubled quote stands for one quote. */
  function ReadQuoted(s: string): (read: (string, string))
    ensures |read.1| <= |s|
    decreases |s|
  {
    if |s| == 0 then ("", "")
    else if s[0] == '"' then
      if |s| > 1 && s[1] == '"' then var (text, rest) := ReadQuoted(s[2..]); (['"'] + text, rest)
      else ("", s[1..])
    else var (text, rest) := ReadQuoted(s[1..]); ([s[0]] + text, rest)
  }

  /** Reads an unquoted cell up to the next comma or newline. */
  function ReadPlain(s: string): (read: (string, string))
    ensures |read.1| <= |s|
    decreases |s|
  {
    if |s| == 0 || s[0] == ',' || s[0] == '\n' then ("", s)
    else var (text, rest) := ReadPlain(s[1..]); ([s[0]] + text, rest)
  }

  /** Reads one cell, quoted or not, and returns its text and what follows it. */
  function ReadField(s: string): (read: (string, string))
    ensures |read.1| <= |s|
  {
    if |s| > 0 && s[0] == '"' then ReadQuoted(s[1..]) else ReadPlain(s)
  }

  /** A record read off the front of the input; `next` is the input after its newline, None at the end. */
  datatype Parsed = Parsed(fields: seq<string>, next: Option<string>)

  /** Reads the cells of one record; None when a cell is followed by something other than a comma or newline. */
  function ParseRecord(s: string): (parsed: Option<Parsed>)
    ensures parsed.Some? && parsed.value.next.Some? ==> |parsed.value.next.value| < |s|
    decreases |s|
  {
    var (text, rest) := ReadField(s);
    if |rest| == 0 then Some(Parsed([text], None))
    else if rest[0] == '\n' then Some(Parsed([text], Some(rest[1..])))
    else if rest[0] == ',' then
      match ParseRecord(rest[1..])
      case None => None
      case Some(more) => Some(Parsed([text] + more.fields, more.next))
    else None
  }

  /** Reads every record of a CSV text. */
  function ParseDocument(s: string): (records: Option<seq<seq<string>>>)
    decreases |s|
  {
    match ParseRecord(s)
    case None => None
    case Some(Parsed(fields, None)) => Some([fields])
    case Some(Parsed(fields, Some(next))) =>
      match ParseDocument(next)
      case None => None
      case Some(more) => Some([fields] + more)
  }

  /** The writer for arbitrary records of texts, each cell escaped like a present string. */
  function EncodeRecord(texts: seq<string>): string
  {
    Join(seq(|texts|, i requires 0 <= i < |texts| => EscapeText(texts[i])), ",")
  }

  /** The line of each record, in order. */
  function EncodeLines(records: seq<seq<string>>): (lines: seq<string>)
    ensures |lines| == |records|
    decreases |records|
  {
    if |records| == 0 then [] else [EncodeRecord(records[0])] + EncodeLines(records[1..])
  }

  function Encode(records: seq<seq<string>>): string
  {
    Join(EncodeLines(records), "\n")
  }

  // ---------------------------------------------------------------------------
  // Round trip

  /** Reading a doubled-quote body and its closing quote gives back the text. */
  lemma {:induction false} ReadQuotedBack(text: string, rest: string)
    requires |rest| == 0 || rest[0] != '"'
    ensures ReadQuoted(DoubleQuotes(text) + "\"" + rest) == (text, rest)
    decreases |text|
  {
    var s := DoubleQuotes(text) + "\"" + rest;
    if |text| == 0 {
      assert s == "\"" + rest;
      assert s[1..] == rest;
    } else {
      ReadQuotedBack(text[1..], rest);
      var tail := DoubleQuotes(text[1..]) + "\"" + rest;
      AppendRegroup(EscapeChar(text[0]), DoubleQuotes(text[1..]), "\"", rest);
      if text[0] == '"' {
        assert ("\"\"" + tail)[2..] == tail;
      } else {
        assert ([text[0]] + tail)[1..] == tail;
      }
      assert text == [text[0]] + text[1..];
    }
  }

  /** Reading an unquoted cell stops exactly at its end. */
  lemma {:induction false} ReadPlainBack(text: string, rest: string)
    requires ',' !in text && '\n' !in text
    requires |rest| == 0 || rest[0] == ',' || rest[0] == '\n'
    ensures ReadPlain(text + rest) == (text, rest)
    decreases |text|
  {
    if |text| == 0 {
      assert text + rest == rest;
    } else {
      ReadPlainBack(text[1..], rest);
      assert (text + rest)[1..] == text[1..] + rest;
      assert text == [text[0]] + text[1..];
    }
  }

  /** Unescaping recovers the text of an escaped cell, whatever separator follows it. */
  lemma ReadFieldBack(text: string, rest: string)
    requires |rest| == 0 || rest[0] == ',' || rest[0] == '\n'
    ensures ReadField(EscapeText(text) + rest) == (text, rest)
  {
    if NeedsQuoting(text) {
      var body := DoubleQuotes(text) + "\"" + rest;
      AppendRegroup("\"", DoubleQuotes(text), "\"", rest);
      assert ("\"" + body)[1..] == body;
      ReadQuotedBack(text, rest);
    } else {
      ReadPlainBack(text, rest);
      if |text| > 0 {
        assert (text + rest)[0] == text[0];
      }
    }
  }

  /** Reading an encoded record gives back its cells, and what follows its newline. */
  lemma {:induction false} ParseRecordBack(texts: seq<string>, rest: string)
    requires |texts| >= 1
    requires |rest| == 0 || rest[0] == '\n'
    ensures ParseRecord(EncodeRecord(texts) + rest)
            == Some(Parsed(texts, if |rest| == 0 then None else Some(rest[1..])))
    decreases |texts|
  {
    EncodeRecordCons(texts);
    if |texts| == 1 {
      ReadFieldBack(texts[0], rest);
      ParseRecordAfterField(EscapeText(texts[0]) + rest, texts[0], rest);
      assert texts == [texts[0]];
    } else {
      var tail := texts[1..];
      ParseRecordBack(tail, rest);
      ParseRecordCons(texts[0], EncodeRecord(tail) + rest);
      AppendAssoc(EscapeText(texts[0]) + ",", EncodeRecord(tail), rest);
      assert texts == [texts[0]] + tail;
    }
  }

  /** A cell and a comma in front of a readable record add the cell's text in front of its cells. */
  lemma ParseRecordCons(text: string, tail: string)
    requires ParseRecord(tail).Some?
    ensures ParseRecord(EscapeText(text) + "," + tail)
            == Some(Parsed([text] + ParseRecord(tail).value.fields, ParseRecord(tail).value.next))
  {
    var after := "," + tail;
    AppendAssoc(EscapeText(text), ",", tail);
    ReadFieldBack(text, after);
    ParseRecordAfterField(EscapeText(text) + after, text, after);
    assert after[1..] == tail;
  }

  /** An encoded record is its first escaped cell, then a comma and the encoding of the others. */
  lemma EncodeRecordCons(texts: seq<string>)
    requires |texts| >= 1
    ensures EncodeRecord(texts)
            == if |texts| == 1 then EscapeText(texts[0]) else EscapeText(texts[0]) + "," + EncodeRecord(texts[1..])
  {
    if |texts| > 1 {
      var escaped := seq(|texts|, i requires 0 <= i < |texts| => EscapeText(texts[i]));
      var tail := texts[1..];
      assert escaped[1..] == seq(|tail|, i requires 0 <= i < |tail| => EscapeText(tail[i]));
    }
  }

  /** How the record reader goes on after its first cell. */
  lemma ParseRecordAfterField(s: string, text: string, rest: string)
    requires ReadField(s) == (text, rest)
    ensures |rest| == 0 ==> ParseRecord(s) == Some(Parsed([text], None))
    ensures |rest| > 0 && rest[0] == '\n' ==> ParseRecord(s) == Some(Parsed([text], Some(rest[1..])))
    ensures |rest| > 0 && rest[0] == ',' && ParseRecord(rest[1..]).Some? ==>
              ParseRecord(s) == Some(Parsed([text] + ParseRecord(rest[1..]).value.fields, ParseRecord(rest[1..]).value.next))
  {
  }

  /** Reading an encoded document gives back its records. */
  lemma {:induction false} ParseDocumentBack(records: seq<seq<string>>)
    requires |records| >= 1
    requires forall i :: 0 <= i < |records| ==> |records[i]| >= 1
    ensures ParseDocument(Encode(records)) == Some(records)
    decreases |records|
  {
    EncodeCons(records);
    if |records| == 1 {
      ParseRecordBack(records[0], "");
      assert EncodeRecord(records[0]) + "" == EncodeRecord(records[0]);
      assert records == [records[0]];
    } else {
      var tail := records[1..];
      ParseDocumentBack(tail);
      ParseDocumentCons(records[0], Encode(tail));
      assert records == [records[0]] + tail;
    }
  }

  /** A record and a newline in front of a readable document add the record in front of its records. */
  lemma ParseDocumentCons(texts: seq<string>, tail: string)
    requires |texts| >= 1
    requires ParseDocument(tail).Some?
    ensures ParseDocument(EncodeRecord(texts) + "\n" + tail) == Some([texts] + ParseDocument(tail).value)
  {
    var after := "\n" + tail;
    AppendAssoc(EncodeRecord(texts), "\n", tail);
    ParseRecordBack(texts, after);
    assert after[1..] == tail;
  }

  /** An encoded document is its first record's line, then a newline and the encoding of the others. */
  lemma EncodeCons(records: seq<seq<string>>)
    requires |records| >= 1
    ensures Encode(records)
            == if |records| == 1 then EncodeRecord(records[0]) else EncodeRecord(records[0]) + "\n" + Encode(records[1..])
  {
    var lines := EncodeLines(records);
    assert lines[0] == EncodeRecord(records[0]);
    if |records| > 1 {
      assert lines[1..] == EncodeLines(records[1..]);
    }
  }

  /** A record none of whose cells needs quoting is encoded as its cells joined with commas. */
  lemma PlainRecordEncoded(texts: seq<string>)
    requires forall i :: 0 <= i < |texts| ==> !NeedsQuoting(texts[i])
    ensures EncodeRecord(texts) == Join(texts, ",")
  {
    var escaped := seq(|texts|, i requires 0 <= i < |texts| => EscapeText(texts[i]));
    assert escaped == texts;
  }

  /** No column title holds a comma, a quote or a newline. */
  lemma HeaderNamesPlain()
    ensures forall i :: 0 <= i < |Headers()| ==> !NeedsQuoting(Headers()[i])
  {
    forall column | 0 <= column < 10 ensures !NeedsQuoting(HeaderName(column)) {
      HeaderNamePlain(column);
    }
  }

  /** Each row line is the encoding of its cells' texts. */
  lemma RowLineEncoded(item: ArchiveItem)
    ensures RowLine(item) == EncodeRecord(ItemTexts(item))
  {
    var cells := RowCells(item);
    var texts := CellTexts(cells);
    assert seq(|cells|, i requires 0 <= i < |cells| => EscapeCsv(cells[i]))
        == seq(|texts|, i requires 0 <= i < |texts| => EscapeText(texts[i]));
  }

  /** One column title needs no quoting. */
  lemma HeaderNamePlain(column: nat)
    ensures !NeedsQuoting(HeaderName(column))
  {
    if column == 0 {
      assert !NeedsQuoting("Identifier");
    } else if column == 1 {
      assert !NeedsQuoting("Title");
    } else if column == 2 {
      assert !NeedsQuoting("Year");
    } else if column == 3 {
      assert !NeedsQuoting("Date Uploaded");
    } else if column == 4 {
      assert !NeedsQuoting("Creator");
    } else if column == 5 {
      assert !NeedsQuoting("Language");
    } else if column == 6 {
      assert !NeedsQuoting("Downloads");
    } else if column == 7 {
      assert !NeedsQuoting("Pages");
    } else if column == 8 {
      assert !NeedsQuoting("Collection");
    } else {
      assert !NeedsQuoting("Lostness Index");
    }
  }

  /** The exported file, read back, holds the header row and, per item, the text of each of its ten cells. */
  lemma ExportRoundTrip(items: seq<ArchiveItem>)
    ensures ParseDocument(CsvDocument(items)) == Some(ExpectedRecords(items))
  {
    var records := ExpectedRecords(items);
    HeaderNamesPlain();
    LinesEncoded(Headers(), items);
    ExpectedRecordsWidth(items);
    ParseDocumentBack(records);
  }

  /** Every expected record, the header row included, has one cell per column. */
  lemma ExpectedRecordsWidth(items: seq<ArchiveItem>)
    ensures forall i :: 0 <= i < |ExpectedRecords(items)| ==> |ExpectedRecords(items)[i]| == 10
  {
    var records := ExpectedRecords(items);
    ItemRecordsAt(items);
    forall i | 0 <= i < |records| ensures |records[i]| == 10 {
      if i > 0 {
        assert records[i] == ItemRecords(items)[i - 1];
      }
    }
  }

  /** The written lines are the encodings of the expected records. */
  lemma LinesEncoded(header: seq<string>, items: seq<ArchiveItem>)
    requires forall i :: 0 <= i < |header| ==> !NeedsQuoting(header[i])
    ensures Encode([header] + ItemRecords(items)) == Join([Join(header, ",")] + RowLines(items), "\n")
  {
    var records := [header] + ItemRecords(items);
    PlainRecordEncoded(header);
    RowsEncoded(items);
    assert records[1..] == ItemRecords(items);
    assert EncodeLines(records) == [EncodeRecord(header)] + EncodeLines(ItemRecords(items));
  }

  /** The row lines are the encodings of the items' cell texts. */
  lemma {:induction false} RowsEncoded(items: seq<ArchiveItem>)
    ensures EncodeLines(ItemRecords(items)) == RowLines(items)
    decreases |items|
  {
    var n := |items|;
    if n > 0 {
      var init := items[..n - 1];
      RowsEncoded(init);
      EncodeLinesAppend(ItemRecords(init), ItemTexts(items[n - 1]));
      RowLineEncoded(items[n - 1]);
    }
  }

  lemma {:induction false} EncodeLinesAppend(records: seq<seq<string>>, record: seq<string>)
    ensures EncodeLines(records + [record]) == EncodeLines(records) + [EncodeRecord(record)]
    decreases |records|
  {
    if |records| == 0 {
      assert records + [record] == [record];
    } else {
      EncodeLinesAppend(records[1..], record);
      assert (records + [record])[1..] == records[1..] + [record];
      assert (records + [record])[0] == records[0];
      AppendAssoc([EncodeRecord(records[0])], EncodeLines(records[1..]), [EncodeRecord(record)]);
    }
  }

  lemma {:induction false} ItemRecordsAt(items: seq<ArchiveItem>)
    ensures forall i :: 0 <= i < |items| ==> ItemRecords(items)[i] == ItemTexts(items[i])
    decreases |items|
  {
    if |items| > 0 {
      var init := items[..|items| - 1];
      ItemRecordsAt(init);
      assert forall i :: 0 <= i < |init| ==> items[i] == init[i];
    }
  }

  // ---------------------------------------------------------------------------
  // Cells

  /**
   * A text with a comma and a quoted word, `a"b"` with `a` holding a comma and no quotes in `a`
   * or `b`, is wrapped in quotes with both of its quotes doubled.
   */
  lemma EscapeQuotedWord(a: string, b: string)
    requires ',' in a && '"' !in a && '"' !in b
    ensures EscapeText(a + "\"" + b + "\"") == "\"" + a + "\"\"" + b + "\"\"" + "\""
  {
    var text := a + "\"" + b + "\"";
    assert NeedsQuoting(text) by {
      var k :| 0 <= k < |a| && a[k] == ',';
      assert text[k] == ',';
    }
    assert DoubleQuotes("\"") == "\"\"";
    DoubleQuotesAppend(a + "\"" + b, "\"");
    DoubleQuotesAppend(a + "\"", b);
    DoubleQuotesAppend(a, "\"");
    DoubleQuotesPlain(a);
    DoubleQuotesPlain(b);
    assert DoubleQuotes(text) == a + "\"\"" + b + "\"\"";
    WrapRegroup("\"", a, "\"\"", b, "\"\"");
  }

  lemma WrapRegroup(q: string, x1: string, x2: string, x3: string, x4: string)
    ensures q + (x1 + x2 + x3 + x4) + q == q + x1 + x2 + x3 + x4 + q
  {
  }

  /** The documented escape: `Report, "Final"` becomes `"Report, ""Final"""`. */
  lemma EscapeExample()
    ensures EscapeText("Report, " + "\"" + "Final" + "\"") == "\"" + "Report, " + "\"\"" + "Final" + "\"\"" + "\""
  {
    assert "Report, "[6] == ',';
    EscapeQuotedWord("Report, ", "Final");
  }

  lemma {:induction false} DoubleQuotesAppend(a: string, b: string)
    ensures DoubleQuotes(a + b) == DoubleQuotes(a) + DoubleQuotes(b)
    decreases |a|
  {
    if |a| == 0 {
      assert a + b == b;
    } else {
      DoubleQuotesAppend(a[1..], b);
      assert (a + b)[0] == a[0] && (a + b)[1..] == a[1..] + b;
      AppendAssoc(EscapeChar(a[0]), DoubleQuotes(a[1..]), DoubleQuotes(b));
    }
  }

  /** A text without quotes is left as it is. */
  lemma {:induction false} DoubleQuotesPlain(s: string)
    requires '"' !in s
    ensures DoubleQuotes(s) == s
    decreases |s|
  {
    if |s| > 0 {
      DoubleQuotesPlain(s[1..]);
      assert s == [s[0]] + s[1..];
    }
  }
  /** An absent year, downloads count or list field is an empty cell, never a placeholder. */
  lemma AbsentFieldsAreEmptyCells(item: ArchiveItem)
    requires item.year.None? && item.downloads.None? && item.creator.Absent?
    ensures var cells := RowCells(item);
            EscapeCsv(cells[2]) == "" && EscapeCsv(cells[4]) == "" && EscapeCsv(cells[6]) == ""
  {
  }

  /** The upload date cell is the part of the timestamp before its first 'T': a prefix with no 'T', stopping at one. */
  lemma FormatDatePrefix(date: string)
    ensures var cell := FormatDate(Some(date));
            cell.Str? && 'T' !in cell.text && |cell.text| <= |date| && cell.text == date[..|cell.text|]
            && (|cell.text| < |date| ==> date[|cell.text|] == 'T')
  {
    if |date| > 0 {
      var pieces := Split(date, 'T');
      SplitJoin(date, 'T');
      SplitPiecesFree(date, 'T');
      if |pieces| > 1 {
        assert date == pieces[0] + "T" + Join(pieces[1..], "T");
      }
    }
  }

  /** A list cell is the entries joined with "; ", and one entry is its own cell. */
  lemma FormatArrayList(texts: seq<string>, text: string)
    ensures FormatArray(Many(texts)) == Str(Join(texts, "; "))
    ensures FormatArray(Many([text])) == FormatArray(One(text))
  {
  }

  /** Every row has exactly one cell per header. */
  lemma RowMatchesHeaders(item: ArchiveItem)
    ensures |RowCells(item)| == |Headers()| == 10
  {
  }
}
