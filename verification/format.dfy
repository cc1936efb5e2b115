/**
 `format_output` of `isocodes/cli.py`: turning one record or a list of records
 into CSV or an aligned text table. The JSON branch is a call into
 `json.dumps` and is not modelled; `Render` returns `None` for it.
 */
module Format {
  import opened Records
  import opened LexOrder
  import opened Text

  const NoResults: string := "No results found."

  /** What the search handlers pass in: a list of records, or one record. */
  datatype Payload = Many(items: seq<Record>) | One(item: Record)

  /** `not data`: an empty list or an empty dict. */
  predicate Falsy(p: Payload) {
    match p
    case Many(items) => |items| == 0
    case One(r) => |r| == 0
  }

  // ---------------------------------------------------------------------------
  // Header selection.

  /** The union of the keys of all records. */
  function AllKeys(items: seq<Record>): (r: set<string>)
    ensures forall k :: k in r <==> exists i :: 0 <= i < |items| && k in items[i]
    decreases |items|
  {
    if |items| == 0 then {}
    else
      var n := |items| - 1;
      assert forall i :: 0 <= i < n ==> items[..n][i] == items[i];
      AllKeys(items[..n]) + items[n].Keys
  }

  /** `[key for key in fields if key in keys]`. */
  function Requested(fields: seq<string>, keys: set<string>): (r: seq<string>)
    ensures forall h :: h in r <==> h in fields && h in keys
    ensures |r| <= |fields|
    decreases |fields|
  {
    if |fields| == 0 then []
    else if fields[0] in keys then [fields[0]] + Requested(fields[1..], keys)
    else Requested(fields[1..], keys)
  }

  /** The requested fields keep their given order: the filter splits over
      concatenation. */
  lemma {:induction false} RequestedKeepsOrder(a: seq<string>, b: seq<string>, keys: set<string>)
    ensures Requested(a + b, keys) == Requested(a, keys) + Requested(b, keys)
    decreases |a|
  {
    if |a| > 0 {
      assert (a + b)[1..] == a[1..] + b;
      RequestedKeepsOrder(a[1..], b, keys);
    } else {
      assert a + b == b;
    }
  }

  /** The column headers: the requested fields that occur, in the requested
      order, or, with no `--fields`, every key in sorted order. An empty
      `fields` list is falsy in Python, so it counts as "not given". */
  function Headers(fields: seq<string>, keys: set<string>): (r: seq<string>)
    ensures forall h :: h in r ==> h in keys
    ensures |fields| > 0 ==> forall h :: h in r <==> h in fields && h in keys
    ensures |fields| == 0 ==> StrictlySorted(r) && forall k :: k in keys <==> k in r
  {
    if |fields| > 0 then Requested(fields, keys) else SortedSet(keys)
  }

  // ---------------------------------------------------------------------------
  // CSV.

  /** `str(item.get(header, "")).replace(",", ";")`. */
  function CsvCell(r: Record, h: string): (c: string)
    ensures ',' !in c
    ensures h !in r ==> c == ""
    ensures |c| == |Cell(r, h)|
    ensures forall i :: 0 <= i < |c| ==> c[i] == if Cell(r, h)[i] == ',' then ';' else Cell(r, h)[i]
  {
    Replace(Cell(r, h), ',', ';')
  }

  function CsvCells(r: Record, hs: seq<string>): (cs: seq<string>)
    ensures |cs| == |hs|
    ensures forall i :: 0 <= i < |hs| ==> cs[i] == CsvCell(r, hs[i])
  {
    seq(|hs|, i requires 0 <= i < |hs| => CsvCell(r, hs[i]))
  }

  /** `",".join(values)` for one record. */
  function CsvRow(r: Record, hs: seq<string>): (line: string) {
    Join(CsvCells(r, hs), ",")
  }

  /** The header line followed by one line per record. */
  function CsvLines(items: seq<Record>, hs: seq<string>): (lines: seq<string>)
    ensures |lines| == 1 + |items|
    ensures lines[0] == Join(hs, ",")
    ensures forall i :: 0 <= i < |items| ==> lines[i + 1] == CsvRow(items[i], hs)
  {
    [Join(hs, ",")] + seq(|items|, i requires 0 <= i < |items| => CsvRow(items[i], hs))
  }

  /** Each CSV data row splits on `","` back into exactly one cell per header,
      holding that header's escaped value; a missing field is an empty cell. */
  lemma CsvRowSplits(r: Record, hs: seq<string>)
    requires |hs| > 0
    ensures |Split(CsvRow(r, hs), ',')| == |hs|
    ensures forall i :: 0 <= i < |hs| ==> Split(CsvRow(r, hs), ',')[i] == CsvCell(r, hs[i])
    ensures forall i :: 0 <= i < |hs| && hs[i] !in r ==> Split(CsvRow(r, hs), ',')[i] == ""
  {
    SplitJoin(CsvCells(r, hs), ',');
  }

  /** With comma-free field names the header line splits back into the headers. */
  lemma CsvHeaderSplits(hs: seq<string>)
    requires |hs| > 0
    requires forall i :: 0 <= i < |hs| ==> ',' !in hs[i]
    ensures Split(CsvLines([], hs)[0], ',') == hs
  {
    SplitJoin(hs, ',');
  }

  // ---------------------------------------------------------------------------
  // Table of several records.

  function Max(a: nat, b: nat): (m: nat) {
    if a < b then b else a
  }

  /** `col_widths[header]`: the header's length or the longest value in the
      column, whichever is larger. */
  function ColWidth(items: seq<Record>, h: string): (w: nat)
    ensures w >= |h|
    ensures forall i :: 0 <= i < |items| ==> |Cell(items[i], h)| <= w
    ensures w == |h| || exists i :: 0 <= i < |items| && w == |Cell(items[i], h)|
    decreases |items|
  {
    if |items| == 0 then |h|
    else
      var n := |items| - 1;
      assert forall i :: 0 <= i < n ==> items[..n][i] == items[i];
      Max(ColWidth(items[..n], h), |Cell(items[n], h)|)
  }

  /** The padded cells of one line of the table. */
  function PaddedCells(texts: seq<string>, items: seq<Record>, hs: seq<string>): (cs: seq<string>)
    requires |texts| == |hs|
    ensures |cs| == |hs|
    ensures forall i :: 0 <= i < |hs| ==> cs[i] == LJust(texts[i], ColWidth(items, hs[i]))
  {
    seq(|hs|, i requires 0 <= i < |hs| => LJust(texts[i], ColWidth(items, hs[i])))
  }

  function RowTexts(r: Record, hs: seq<string>): (ts: seq<string>)
    ensures |ts| == |hs|
    ensures forall i :: 0 <= i < |hs| ==> ts[i] == Cell(r, hs[i])
  {
    seq(|hs|, i requires 0 <= i < |hs| => Cell(r, hs[i]))
  }

  /** `header_line`. */
  function TableHeader(items: seq<Record>, hs: seq<string>): (line: string) {
    Join(PaddedCells(hs, items, hs), " | ")
  }

  /** One data row. */
  function TableRow(r: Record, items: seq<Record>, hs: seq<string>): (line: string) {
    Join(PaddedCells(RowTexts(r, hs), items, hs), " | ")
  }

  /** Header line, a rule of dashes as long as the header line, then one row
      per record. */
  function TableLines(items: seq<Record>, hs: seq<string>): (lines: seq<string>)
    ensures |lines| == 2 + |items|
    ensures lines[0] == TableHeader(items, hs)
    ensures lines[1] == Repeat('-', |lines[0]|)
    ensures forall i :: 0 <= i < |items| ==> lines[i + 2] == TableRow(items[i], items, hs)
  {
    var header := TableHeader(items, hs);
    [header, Repeat('-', |header|)] +
      seq(|items|, i requires 0 <= i < |items| => TableRow(items[i], items, hs))
  }

  /** Every padded cell is exactly as wide as its column. */
  lemma PaddedCellWidths(texts: seq<string>, items: seq<Record>, hs: seq<string>)
    requires |texts| == |hs|
    requires forall i :: 0 <= i < |hs| ==> |texts[i]| <= ColWidth(items, hs[i])
    ensures forall i :: 0 <= i < |hs| ==> |PaddedCells(texts, items, hs)[i]| == ColWidth(items, hs[i])
  {
  }

  /** A data row is exactly as long as the header line. */
  lemma TableRowWidth(r: Record, items: seq<Record>, hs: seq<string>)
    requires r in items
    ensures |TableRow(r, items, hs)| == |TableHeader(items, hs)|
  {
    var ts := RowTexts(r, hs);
    PaddedCellWidths(hs, items, hs);
    PaddedCellWidths(ts, items, hs);
    JoinLengthByShape(PaddedCells(ts, items, hs), PaddedCells(hs, items, hs), " | ");
  }

  /** All lines of the table have the same length, the rule included. */
  lemma TableLinesEqualWidth(items: seq<Record>, hs: seq<string>)
    ensures forall i :: 0 <= i < |TableLines(items, hs)| ==>
      |TableLines(items, hs)[i]| == |TableHeader(items, hs)|
  {
    var lines := TableLines(items, hs);
    forall j | 2 <= j < |lines|
      ensures |lines[j]| == |TableHeader(items, hs)|
    {
      TableRowWidth(items[j - 2], items, hs);
    }
  }

  /** A record without a header's field shows a blank cell of the column's width. */
  lemma TableMissingFieldBlank(r: Record, items: seq<Record>, hs: seq<string>, i: nat)
    requires i < |hs| && hs[i] !in r
    ensures PaddedCells(RowTexts(r, hs), items, hs)[i] == Repeat(' ', ColWidth(items, hs[i]))
  {
  }

  // ---------------------------------------------------------------------------
  // Table of one record.

  /** `max(len(h) for h in headers) if headers else 0`. */
  function MaxLen(hs: seq<string>): (m: nat)
    ensures forall i :: 0 <= i < |hs| ==> |hs[i]| <= m
    ensures |hs| == 0 ==> m == 0
    ensures |hs| > 0 ==> exists i :: 0 <= i < |hs| && m == |hs[i]|
    decreases |hs|
  {
    if |hs| == 0 then 0
    else
      var rest := MaxLen(hs[1..]);
      assert forall i :: 1 <= i < |hs| ==> hs[i] == hs[1..][i - 1];
      Max(|hs[0]|, rest)
  }

  /** One `key : value` line per header. */
  function SingleLines(r: Record, hs: seq<string>): (lines: seq<string>)
    ensures |lines| == |hs|
  {
    var m := MaxLen(hs);
    seq(|hs|, i requires 0 <= i < |hs| => LJust(hs[i], m) + " : " + Cell(r, hs[i]))
  }

  /** One `key : value` line: the key padded to width `m`, the separator,
      the value. */
  lemma KeyValueLineShape(key: string, m: nat, value: string)
    requires |key| <= m
    ensures var line := LJust(key, m) + " : " + value;
      |line| == m + 3 + |value| &&
      line[..|key|] == key &&
      (forall k :: |key| <= k < m ==> line[k] == ' ') &&
      line[m..m + 3] == " : " &&
      line[m + 3..] == value
  {
    var padded := LJust(key, m);
    var line := padded + " : " + value;
    assert line[..|key|] == padded[..|key|];
    assert forall k :: |key| <= k < m ==> line[k] == padded[k];
  }

  /** The `" : "` separators line up: every line is its key padded to the
      longest key, the separator, then the value (empty when missing). */
  lemma SingleLinesAligned(r: Record, hs: seq<string>)
    ensures forall i :: 0 <= i < |hs| ==>
      var line, m := SingleLines(r, hs)[i], MaxLen(hs);
      |line| == m + 3 + |Cell(r, hs[i])| &&
      line[..|hs[i]|] == hs[i] &&
      (forall k :: |hs[i]| <= k < m ==> line[k] == ' ') &&
      line[m..m + 3] == " : " &&
      line[m + 3..] == Cell(r, hs[i])
  {
    forall i | 0 <= i < |hs| {
      KeyValueLineShape(hs[i], MaxLen(hs), Cell(r, hs[i]));
    }
  }

  // ---------------------------------------------------------------------------
  // `format_output`.

  /** The headers `format_output` picks for a payload. */
  function PayloadHeaders(data: Payload, fields: seq<string>): (hs: seq<string>) {
    match data
    case Many(items) => Headers(fields, AllKeys(items))
    case One(r) => Headers(fields, r.Keys)
  }

  function CsvText(data: Payload, fields: seq<string>): (text: string) {
    var hs := PayloadHeaders(data, fields);
    match data
    case Many(items) => Join(CsvLines(items, hs), "\n")
    case One(r) => Join(CsvLines([r], hs), "\n")
  }

  function TableText(data: Payload, fields: seq<string>): (text: string) {
    var hs := PayloadHeaders(data, fields);
    match data
    case Many(items) => Join(TableLines(items, hs), "\n")
    case One(r) => Join(SingleLines(r, hs), "\n")
  }

  /** `format_output(data, output_format, fields)`; `None` stands for the
      JSON text. Any format other than `"json"` and `"csv"` is a table. */
  function Render(data: Payload, format: string, fields: seq<string>): (r: Option<string>)
    ensures Falsy(data) ==> r == Some(NoResults)
    ensures r == None <==> !Falsy(data) && format == "json"
    ensures !Falsy(data) && format == "csv" ==> r == Some(CsvText(data, fields))
    ensures !Falsy(data) && format != "csv" && format != "json" ==> r == Some(TableText(data, fields))
  {
    if Falsy(data) then Some(NoResults)
    else if format == "json" then None
    else if format == "csv" then Some(CsvText(data, fields))
    else Some(TableText(data, fields))
  }

  // ---------------------------------------------------------------------------
  // Properties of the rendered text.

  /** No field name and no field value of the record contains a newline. */
  predicate CleanRecord(r: Record) {
    forall k :: k in r ==> '\n' !in k && '\n' !in r[k]
  }

  predicate NoNewlines(items: seq<Record>) {
    forall i :: 0 <= i < |items| ==> CleanRecord(items[i])
  }

  predicate CleanTexts(ts: seq<string>) {
    forall i :: 0 <= i < |ts| ==> '\n' !in ts[i]
  }

  lemma CleanHeaders(items: seq<Record>, hs: seq<string>)
    requires NoNewlines(items)
    requires forall h :: h in hs ==> h in AllKeys(items)
    ensures CleanTexts(hs)
  {
    forall j | 0 <= j < |hs|
      ensures '\n' !in hs[j]
    {
      assert hs[j] in AllKeys(items);
      var i :| 0 <= i < |items| && hs[j] in items[i];
      assert CleanRecord(items[i]);
    }
  }

  lemma CsvRowAvoidsNewline(r: Record, hs: seq<string>)
    requires CleanRecord(r)
    ensures '\n' !in CsvRow(r, hs)
  {
    var cs := CsvCells(r, hs);
    forall j | 0 <= j < |hs|
      ensures '\n' !in cs[j]
    {
      ReplaceAvoids(Cell(r, hs[j]), ',', ';', '\n');
    }
    JoinAvoids(cs, ",", '\n');
  }

  lemma CsvLinesAvoidNewline(items: seq<Record>, hs: seq<string>)
    requires NoNewlines(items) && CleanTexts(hs)
    ensures forall j :: 0 <= j < |CsvLines(items, hs)| ==> '\n' !in CsvLines(items, hs)[j]
  {
    var lines := CsvLines(items, hs);
    JoinAvoids(hs, ",", '\n');
    forall j | 1 <= j < |lines|
      ensures '\n' !in lines[j]
    {
      assert CleanRecord(items[j - 1]);
      CsvRowAvoidsNewline(items[j - 1], hs);
    }
  }

  /** Splitting the joined CSV lines on newlines gives the lines back. */
  lemma CsvLinesRoundTrip(items: seq<Record>, hs: seq<string>)
    requires NoNewlines(items) && CleanTexts(hs)
    ensures Split(Join(CsvLines(items, hs), "\n"), '\n') == CsvLines(items, hs)
  {
    CsvLinesAvoidNewline(items, hs);
    SplitJoin(CsvLines(items, hs), '\n');
  }

  /** The CSV text of a list is the header line and one line per record, each
      data line splitting into one cell per header. */
  lemma CsvListShape(items: seq<Record>, fields: seq<string>)
    requires |items| > 0 && NoNewlines(items)
    ensures var hs := Headers(fields, AllKeys(items));
      Split(Render(Many(items), "csv", fields).value, '\n') == CsvLines(items, hs)
  {
    var hs := Headers(fields, AllKeys(items));
    assert Render(Many(items), "csv", fields) == Some(Join(CsvLines(items, hs), "\n"));
    CleanHeaders(items, hs);
    CsvLinesRoundTrip(items, hs);
  }

  lemma PaddedLineAvoidsNewline(texts: seq<string>, items: seq<Record>, hs: seq<string>)
    requires |texts| == |hs| && CleanTexts(texts)
    ensures '\n' !in Join(PaddedCells(texts, items, hs), " | ")
  {
    var cs := PaddedCells(texts, items, hs);
    forall j | 0 <= j < |hs|
      ensures '\n' !in cs[j]
    {
      LJustAvoids(texts[j], ColWidth(items, hs[j]), '\n');
    }
    JoinAvoids(cs, " | ", '\n');
  }

  lemma TableRowAvoidsNewline(r: Record, items: seq<Record>, hs: seq<string>)
    requires CleanRecord(r)
    ensures '\n' !in TableRow(r, items, hs)
  {
    PaddedLineAvoidsNewline(RowTexts(r, hs), items, hs);
  }

  lemma TableLinesAvoidNewline(items: seq<Record>, hs: seq<string>)
    requires NoNewlines(items) && CleanTexts(hs)
    ensures forall j :: 0 <= j < |TableLines(items, hs)| ==> '\n' !in TableLines(items, hs)[j]
  {
    var lines := TableLines(items, hs);
    PaddedLineAvoidsNewline(hs, items, hs);
    forall j | 2 <= j < |lines|
      ensures '\n' !in lines[j]
    {
      assert CleanRecord(items[j - 2]);
      TableRowAvoidsNewline(items[j - 2], items, hs);
    }
  }

  /** Splitting the joined table lines on newlines gives the lines back. */
  lemma TableLinesRoundTrip(items: seq<Record>, hs: seq<string>)
    requires NoNewlines(items) && CleanTexts(hs)
    ensures Split(Join(TableLines(items, hs), "\n"), '\n') == TableLines(items, hs)
  {
    TableLinesAvoidNewline(items, hs);
    SplitJoin(TableLines(items, hs), '\n');
  }

  /** The table text of a list has a header line, a rule and one line per
      record, all of the same length. */
  lemma TableListShape(items: seq<Record>, fields: seq<string>)
    requires |items| > 0 && NoNewlines(items)
    ensures var hs := Headers(fields, AllKeys(items));
      var lines := Split(Render(Many(items), "table", fields).value, '\n');
      lines == TableLines(items, hs) &&
      forall i :: 0 <= i < |lines| ==> |lines[i]| == |lines[0]|
  {
    var hs := Headers(fields, AllKeys(items));
    assert Render(Many(items), "table", fields) == Some(Join(TableLines(items, hs), "\n"));
    CleanHeaders(items, hs);
    TableLinesEqualWidth(items, hs);
    TableLinesRoundTrip(items, hs);
  }

  /** Field names taken from a clean record are newline-free. */
  lemma CleanKeysOf(r: Record, hs: seq<string>)
    requires CleanRecord(r)
    requires forall h :: h in hs ==> h in r
    ensures CleanTexts(hs)
  {
    forall j | 0 <= j < |hs|
      ensures '\n' !in hs[j]
    {
      assert hs[j] in r;
    }
  }

  /** The CSV text of one record is its header line and its value line. */
  lemma CsvSingleShape(r: Record, fields: seq<string>)
    requires |r| > 0 && CleanRecord(r)
    ensures var hs := Headers(fields, r.Keys);
      Split(Render(One(r), "csv", fields).value, '\n') == [Join(hs, ","), CsvRow(r, hs)]
  {
    var hs := Headers(fields, r.Keys);
    assert Render(One(r), "csv", fields) == Some(Join(CsvLines([r], hs), "\n"));
    assert CsvLines([r], hs) == [Join(hs, ","), CsvRow(r, hs)];
    assert NoNewlines([r]);
    CleanKeysOf(r, hs);
    CsvLinesRoundTrip([r], hs);
  }

  lemma SingleLinesRoundTrip(r: Record, hs: seq<string>)
    requires CleanRecord(r) && CleanTexts(hs) && |hs| > 0
    ensures Split(Join(SingleLines(r, hs), "\n"), '\n') == SingleLines(r, hs)
  {
    var lines := SingleLines(r, hs);
    var m := MaxLen(hs);
    forall i | 0 <= i < |lines|
      ensures '\n' !in lines[i]
    {
      LJustAvoids(hs[i], m, '\n');
      assert '\n' !in Cell(r, hs[i]);
    }
    SplitJoin(lines, '\n');
  }

  /** The table text of one record is one aligned `key : value` line per header. */
  lemma SingleTableShape(r: Record, fields: seq<string>)
    requires |r| > 0 && CleanRecord(r)
    requires |Headers(fields, r.Keys)| > 0
    ensures Split(Render(One(r), "table", fields).value, '\n') == SingleLines(r, Headers(fields, r.Keys))
  {
    var hs := Headers(fields, r.Keys);
    assert Render(One(r), "table", fields) == Some(Join(SingleLines(r, hs), "\n"));
    CleanKeysOf(r, hs);
    SingleLinesRoundTrip(r, hs);
  }

  /** With `--fields`, no column outside the requested ones is ever shown,
      whatever the format and payload. */
  lemma OnlyRequestedFields(data: Payload, fields: seq<string>)
    requires |fields| > 0
    ensures forall h :: h in PayloadHeaders(data, fields) ==> h in fields
  {
  }
}
