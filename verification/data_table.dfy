/** `src/components/data-table.tsx`: the header captions and cell texts of the
    on-screen table. */
module DataTable {
  import opened Wrappers
  import opened CsvUtils
  import CsvReader

  /** A character of the regular-expression class `\w` (ASCII letters, digits, `_`). */
  predicate IsWordChar(c: char) {
    ('a' <= c <= 'z') || ('A' <= c <= 'Z') || ('0' <= c <= '9') || c == '_'
  }

  /** `c.toUpperCase()` for a character of `\w`: only `a`..`z` change. */
  function ToUpper(c: char): (u: char)
    ensures IsWordChar(u) <==> IsWordChar(c)
    ensures u != '_' || c == '_'
  {
    if 'a' <= c <= 'z' then (c as int - 32) as char else c
  }

  /** `s.replace(/_/g, ' ')`. */
  function Spaced(s: string): (r: string)
    ensures |r| == |s|
  {
    if |s| == 0 then "" else [if s[0] == '_' then ' ' else s[0]] + Spaced(s[1..])
  }

  /** `s.replace(/\b\w/g, char => char.toUpperCase())`, scanning left to right;
      `afterWord` says whether the character before `s` was a `\w` character. */
  function Capitalize(s: string, afterWord: bool): (r: string)
    ensures |r| == |s|
  {
    if |s| == 0 then ""
    else [if IsWordChar(s[0]) && !afterWord then ToUpper(s[0]) else s[0]] + Capitalize(s[1..], IsWordChar(s[0]))
  }

  /** `formatHeader(header)`. */
  function FormatHeader(header: string): string {
    if header == "" then "" else Capitalize(Spaced(header), false)
  }

  /** A character that is still a `\w` character once `_` has become a space. */
  predicate IsLetterOrDigit(c: char) {
    IsWordChar(c) && c != '_'
  }

  /** Position `i` of `h` begins a word of the caption. */
  predicate StartsWord(h: string, i: int)
    requires 0 <= i < |h|
  {
    IsLetterOrDigit(h[i]) && (i == 0 || !IsLetterOrDigit(h[i - 1]))
  }

  lemma {:induction false} SpacedAt(s: string)
    ensures forall i :: 0 <= i < |s| ==> Spaced(s)[i] == if s[i] == '_' then ' ' else s[i]
  {
    if |s| > 0 {
      SpacedAt(s[1..]);
      assert forall i :: 1 <= i < |s| ==> Spaced(s)[i] == Spaced(s[1..])[i - 1];
    }
  }

  lemma {:induction false} CapitalizeAt(s: string, afterWord: bool)
    ensures forall i :: 0 <= i < |s| ==>
      Capitalize(s, afterWord)[i] ==
        if IsWordChar(s[i]) && (if i == 0 then !afterWord else !IsWordChar(s[i - 1]))
        then ToUpper(s[i]) else s[i]
  {
    if |s| > 0 {
      CapitalizeAt(s[1..], IsWordChar(s[0]));
      forall i | 0 <= i < |s|
        ensures Capitalize(s, afterWord)[i] ==
          if IsWordChar(s[i]) && (if i == 0 then !afterWord else !IsWordChar(s[i - 1]))
          then ToUpper(s[i]) else s[i]
      {
        if i >= 1 {
          assert Capitalize(s, afterWord)[i] == Capitalize(s[1..], IsWordChar(s[0]))[i - 1];
          assert s[1..][i - 1] == s[i];
          if i >= 2 {
            assert s[1..][i - 2] == s[i - 1];
          }
        }
      }
    }
  }

  /** What the caption is, character by character: `_` becomes a space, a letter or
      digit that starts a word is upper-cased, and everything else is kept. */
  lemma FormatHeaderSpec(h: string)
    ensures |FormatHeader(h)| == |h|
    ensures forall i :: 0 <= i < |h| ==>
      FormatHeader(h)[i] ==
        if h[i] == '_' then ' '
        else if StartsWord(h, i) then ToUpper(h[i])
        else h[i]
  {
    if h != "" {
      var sp := Spaced(h);
      SpacedAt(h);
      CapitalizeAt(sp, false);
      forall i | 0 <= i < |h|
        ensures FormatHeader(h)[i] ==
          if h[i] == '_' then ' '
          else if StartsWord(h, i) then ToUpper(h[i])
          else h[i]
      {
        assert IsWordChar(sp[i]) <==> IsLetterOrDigit(h[i]);
        if i > 0 {
          assert IsWordChar(sp[i - 1]) <==> IsLetterOrDigit(h[i - 1]);
        }
      }
    }
  }

  /** No caption contains `_`. */
  lemma FormatHeaderNoUnderscore(h: string)
    ensures '_' !in FormatHeader(h)
  {
    FormatHeaderSpec(h);
    var r := FormatHeader(h);
    forall i | 0 <= i < |r|
      ensures r[i] != '_'
    {
    }
  }

  /** Formatting a caption again changes nothing. */
  lemma FormatHeaderIdempotent(h: string)
    ensures FormatHeader(FormatHeader(h)) == FormatHeader(h)
  {
    var r := FormatHeader(h);
    FormatHeaderSpec(h);
    FormatHeaderSpec(r);
    assert forall i :: 0 <= i < |h| ==> (IsLetterOrDigit(r[i]) <==> IsLetterOrDigit(h[i]));
    assert forall i :: 0 <= i < |h| ==> (StartsWord(r, i) <==> StartsWord(h, i));
  }

  lemma CapitalizeExample()
    ensures Capitalize("college name", false) == "College Name"
  {
    var s := "college name";
    CapitalizeAt(s, false);
    var r := Capitalize(s, false);
    assert ToUpper('c') == 'C' && ToUpper('n') == 'N';
    assert s[7] == ' ' && s[8] == 'n';
    assert !IsWordChar(' ') && IsWordChar('n');
    assert r[8] == 'N';
    forall i | 0 <= i < 12 && i != 0 && i != 8
      ensures r[i] == s[i]
    {
      assert i == 7 || IsWordChar(s[i - 1]);
    }
    assert r == "College Name";
  }

  lemma SpacedExample(s: string)
    requires s == "college_name"
    ensures Spaced(s) == "college name"
  {
    SpacedAt(s);
    var r := Spaced(s);
    assert s[7] == '_';
    forall i | 0 <= i < 12 && i != 7
      ensures r[i] == s[i]
    {
      assert s[i] != '_';
    }
    assert r == "college name";
  }

  /** The empty header gives the empty caption, and the example the source
      documents, `college_name`, gives `College Name`. */
  lemma FormatHeaderExamples()
    ensures FormatHeader("") == ""
    ensures FormatHeader("college_name") == "College Name"
  {
    SpacedExample("college_name");
    CapitalizeExample();
  }

  /** The text of one table cell: `String(v)`, with `null`/`undefined` shown as `''`. */
  function RenderCell(v: Value): (t: string)
    ensures !v.Composite? ==> t == CellText(v)
    ensures v.Null? || v.Undefined? ==> t == ""
  {
    match v
    case Null => ""
    case Undefined => ""
    case Scalar(text) => text
    case Composite(_, display) => display
  }

  function RenderRow(headers: seq<string>, row: Row): (cells: seq<string>)
    ensures |cells| == |headers|
    ensures forall j :: 0 <= j < |headers| ==> cells[j] == RenderCell(Lookup(row, headers[j]))
  {
    if |headers| == 0 then [] else [RenderCell(Lookup(row, headers[0]))] + RenderRow(headers[1..], row)
  }

  function RenderRows(headers: seq<string>, data: seq<Row>): (rows: seq<seq<string>>)
    ensures |rows| == |data|
    ensures forall i :: 0 <= i < |data| ==> rows[i] == RenderRow(headers, data[i])
  {
    if |data| == 0 then [] else [RenderRow(headers, data[0])] + RenderRows(headers, data[1..])
  }

  function FormatHeaders(headers: seq<string>): (captions: seq<string>)
    ensures |captions| == |headers|
    ensures forall j :: 0 <= j < |headers| ==> captions[j] == FormatHeader(headers[j])
  {
    if |headers| == 0 then [] else [FormatHeader(headers[0])] + FormatHeaders(headers[1..])
  }

  /** What the table shows: its captions and its rows of cell texts. */
  datatype View = View(captions: seq<string>, rows: seq<seq<string>>)

  /** `DataTable({ data })`: nothing for an empty list; otherwise one column per key
      of the first row, in order, and one line per row. */
  function Render(data: seq<Row>): (v: Option<View>)
    ensures v.None? <==> |data| == 0
    ensures v.Some? ==> |v.value.captions| == |Keys(data[0])| && |v.value.rows| == |data|
    ensures v.Some? ==> forall j :: 0 <= j < |Keys(data[0])| ==> v.value.captions[j] == FormatHeader(Keys(data[0])[j])
    ensures v.Some? ==> forall i :: 0 <= i < |data| ==> |v.value.rows[i]| == |Keys(data[0])|
    ensures v.Some? ==> forall i, j :: 0 <= i < |data| && 0 <= j < |Keys(data[0])| ==>
      v.value.rows[i][j] == RenderCell(Lookup(data[i], Keys(data[0])[j]))
  {
    if |data| == 0 then None
    else Some(View(FormatHeaders(Keys(data[0])), RenderRows(Keys(data[0]), data)))
  }

  /** A row with no object-valued cell. */
  predicate NoCompositeCells(data: seq<Row>) {
    forall i, j :: 0 <= i < |data| && 0 <= j < |data[i]| ==> !data[i][j].value.Composite?
  }

  lemma LookupFrom(row: Row, key: string)
    ensures Lookup(row, key).Undefined? || exists j :: 0 <= j < |row| && row[j].value == Lookup(row, key)
  {
    if |row| > 0 && row[0].key != key {
      LookupFrom(row[1..], key);
      if !Lookup(row, key).Undefined? {
        var j :| 0 <= j < |row[1..]| && row[1..][j].value == Lookup(row, key);
        assert row[j + 1].value == Lookup(row, key);
      }
    }
  }

  /** A row's exported fields are its cell texts on screen when no cell is an object. */
  lemma {:induction false} RowCellsShown(headers: seq<string>, row: Row)
    requires forall j :: 0 <= j < |row| ==> !row[j].value.Composite?
    ensures RowCells(headers, row) == RenderRow(headers, row)
    decreases |headers|
  {
    if |headers| > 0 {
      LookupFrom(row, headers[0]);
      RowCellsShown(headers[1..], row);
    }
  }

  lemma {:induction false} DataRecordsShown(headers: seq<string>, data: seq<Row>)
    requires NoCompositeCells(data)
    ensures DataRecords(headers, data) == RenderRows(headers, data)
    decreases |data|
  {
    if |data| > 0 {
      assert forall j :: 0 <= j < |data[0]| ==> !data[0][j].value.Composite?;
      RowCellsShown(headers, data[0]);
      assert NoCompositeCells(data[1..]) by {
        forall i, j | 0 <= i < |data[1..]| && 0 <= j < |data[1..][i]|
          ensures !data[1..][i][j].value.Composite?
        {
          assert data[1..][i] == data[i + 1];
        }
      }
      DataRecordsShown(headers, data[1..]);
    }
  }

  /** What the table shows is what the export writes: for rows without object-valued
      cells, reading the exported CSV back gives the raw keys followed by exactly the
      rows of cell texts on screen. Object-valued cells differ (`String(v)` on
      screen, `JSON.stringify(v)` in the file). */
  lemma ExportMatchesView(data: seq<Row>)
    requires |data| > 0 && |Keys(data[0])| > 0
    requires NoCompositeCells(data)
    ensures CsvReader.ReadDocument(ConvertToCsv(data)) == Some([Keys(data[0])] + Render(data).value.rows)
  {
    var hs := Keys(data[0]);
    var records := Records(data);
    assert forall i :: 0 <= i < |records| ==> |records[i]| > 0;
    CsvReader.ReadDocumentEncode(records);
    DataRecordsShown(hs, data);
  }
}
