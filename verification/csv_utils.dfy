/** `src/lib/csv-utils.ts`: turning row records into CSV text, and the `.csv`
    suffix rule applied to download names. */
module CsvUtils {
  import opened Text

  /** A JavaScript cell value, reduced to what the serializer and the table look at.
      `Scalar` carries `String(v)` of a string, number or boolean; `Composite`
      carries both `JSON.stringify(v)` and `String(v)` of an object or array. */
  datatype Value = Null | Undefined | Scalar(text: string) | Composite(json: string, display: string)

  /** One own property of a row record. */
  datatype Field = Field(key: string, value: Value)

  /** A row record: its own properties in `Object.keys` order. */
  type Row = seq<Field>

  /** `Object.keys(row)`. */
  function Keys(row: Row): (ks: seq<string>)
    ensures |ks| == |row|
    ensures forall i :: 0 <= i < |row| ==> ks[i] == row[i].key
  {
    if |row| == 0 then [] else [row[0].key] + Keys(row[1..])
  }

  /** `row[key]` for a key among the row's own properties: the value of the first
      field with that key, `undefined` when absent. A key naming a member the
      object inherits from `Object.prototype` is read as absent too. */
  function Lookup(row: Row, key: string): Value {
    if |row| == 0 then Undefined
    else if row[0].key == key then row[0].value
    else Lookup(row[1..], key)
  }

  /** The cell coercion of the serializer: `null`/`undefined` become `''`, objects
      go through `JSON.stringify`, everything else through `String`. */
  function CellText(v: Value): string {
    match v
    case Null => ""
    case Undefined => ""
    case Composite(json, _) => json
    case Scalar(text) => text
  }

  /** `s.replace(/"/g, '""')`. */
  function DoubleQuotes(s: string): string {
    if |s| == 0 then ""
    else if s[0] == '"' then "\"\"" + DoubleQuotes(s[1..])
    else [s[0]] + DoubleQuotes(s[1..])
  }

  /** Doubling quotes leaves quote-free text unchanged, and the result holds a
      comma, a line feed or a quote exactly when the original does. */
  lemma {:induction false} DoubleQuotesSpec(s: string)
    ensures '"' !in s ==> DoubleQuotes(s) == s
    ensures var r := DoubleQuotes(s);
      (',' in r <==> ',' in s) && ('\n' in r <==> '\n' in s) && ('"' in r <==> '"' in s)
    decreases |s|
  {
    if |s| > 0 {
      DoubleQuotesSpec(s[1..]);
      assert s == [s[0]] + s[1..];
    }
  }

  predicate NeedsQuotes(s: string) {
    ',' in s || '\n' in s || '"' in s
  }

  /** The escaping applied to every header and every cell. */
  function Escape(s: string): string {
    var e := DoubleQuotes(s);
    if NeedsQuotes(e) then "\"" + e + "\"" else e
  }

  /** The quoting rule: a field is wrapped exactly when the ORIGINAL text holds a
      comma, a line feed or a double quote; otherwise it is left as it is. */
  lemma EscapeQuoting(s: string)
    ensures NeedsQuotes(s) ==> Escape(s) == "\"" + DoubleQuotes(s) + "\""
    ensures !NeedsQuotes(s) ==> Escape(s) == s
  {
    DoubleQuotesSpec(s);
  }

  /** Collapse every `""` to `"`, reading left to right. */
  function CollapseQuotes(s: string): string
    decreases |s|
  {
    if |s| >= 2 && s[0] == '"' && s[1] == '"' then "\"" + CollapseQuotes(s[2..])
    else if |s| == 0 then ""
    else [s[0]] + CollapseQuotes(s[1..])
  }

  /** The inverse of `Escape`: strip the wrapping quotes when present, then collapse `""`. */
  function Unescape(s: string): string {
    if |s| >= 2 && s[0] == '"' && s[|s| - 1] == '"' then CollapseQuotes(s[1..|s| - 1])
    else CollapseQuotes(s)
  }

  lemma {:induction false} CollapseDoubled(s: string)
    ensures CollapseQuotes(DoubleQuotes(s)) == s
    decreases |s|
  {
    if |s| > 0 {
      CollapseDoubled(s[1..]);
      var e := DoubleQuotes(s[1..]);
      if s[0] == '"' {
        assert ("\"\"" + e)[2..] == e;
      } else {
        assert ([s[0]] + e)[1..] == e;
      }
      assert s == [s[0]] + s[1..];
    }
  }

  /** Field escaping loses nothing: `Unescape` recovers every original cell text. */
  lemma UnescapeEscape(s: string)
    ensures Unescape(Escape(s)) == s
  {
    var e := DoubleQuotes(s);
    DoubleQuotesSpec(s);
    CollapseDoubled(s);
    if NeedsQuotes(e) {
      assert ("\"" + e + "\"")[1..|e| + 1] == e;
    } else if |e| >= 2 {
      assert e[0] != '"';
    }
  }

  function EscapeAll(fields: seq<string>): (r: seq<string>)
    ensures |r| == |fields|
    ensures forall i :: 0 <= i < |fields| ==> r[i] == Escape(fields[i])
  {
    if |fields| == 0 then [] else [Escape(fields[0])] + EscapeAll(fields[1..])
  }

  /** One CSV record: its escaped fields joined with commas. */
  function EncodeRecord(fields: seq<string>): string {
    Join(EscapeAll(fields), ',')
  }

  function EncodeRecords(records: seq<seq<string>>): (r: seq<string>)
    ensures |r| == |records|
    ensures forall i :: 0 <= i < |records| ==> r[i] == EncodeRecord(records[i])
  {
    if |records| == 0 then [] else [EncodeRecord(records[0])] + EncodeRecords(records[1..])
  }

  /** A whole document: its records joined with line feeds, no trailing line feed. */
  function EncodeDocument(records: seq<seq<string>>): string {
    Join(EncodeRecords(records), '\n')
  }

  /** The columns: the keys of the first row. */
  function Columns(data: seq<Row>): seq<string> {
    if |data| == 0 then [] else Keys(data[0])
  }

  /** The cell texts of one row, one per column. */
  function RowCells(headers: seq<string>, row: Row): (cells: seq<string>)
    ensures |cells| == |headers|
    ensures forall j :: 0 <= j < |headers| ==> cells[j] == CellText(Lookup(row, headers[j]))
  {
    if |headers| == 0 then [] else [CellText(Lookup(row, headers[0]))] + RowCells(headers[1..], row)
  }

  function DataRecords(headers: seq<string>, data: seq<Row>): (records: seq<seq<string>>)
    ensures |records| == |data|
    ensures forall i :: 0 <= i < |data| ==> records[i] == RowCells(headers, data[i])
  {
    if |data| == 0 then [] else [RowCells(headers, data[0])] + DataRecords(headers, data[1..])
  }

  /** The records `convertToCSV` writes: the header record, then one record per row. */
  function Records(data: seq<Row>): seq<seq<string>> {
    [Columns(data)] + DataRecords(Columns(data), data)
  }

  /** `convertToCSV(data)`. */
  function ConvertToCsv(data: seq<Row>): string {
    if |data| == 0 then "" else EncodeDocument(Records(data))
  }

  /** When the first row has no keys every record is empty, the header included:
      the document is one line feed per row. */
  lemma ConvertToCsvNoColumns(data: seq<Row>)
    requires |data| > 0 && Keys(data[0]) == []
    ensures ConvertToCsv(data) == seq(|data|, _ => '\n')
  {
    var records := Records(data);
    var lines := EncodeRecords(records);
    forall i | 0 <= i < |lines|
      ensures lines[i] == ""
    {
      assert records[i] == [];
    }
    JoinEmpties(lines, '\n');
  }

  /** The name `downloadCSV` gives the file. */
  function DownloadName(filename: string): (r: string)
    ensures EndsWith(r, ".csv")
    ensures EndsWith(filename, ".csv") ==> r == filename
    ensures !EndsWith(filename, ".csv") ==> r == filename + ".csv"
  {
    if EndsWith(filename, ".csv") then filename
    else
      assert (filename + ".csv")[|filename|..] == ".csv";
      filename + ".csv"
  }

  /** Applying the suffix rule twice gives the same name as applying it once. */
  lemma DownloadNameIdempotent(filename: string)
    ensures DownloadName(DownloadName(filename)) == DownloadName(filename)
  {
  }
}
