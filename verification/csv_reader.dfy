/** A reader for the CSV dialect `convertToCSV` writes (rules 6 and 7 of section 2
    of RFC 4180, with LF record separators). The application has no such reader;
    this one exists to state what the serializer's output means: reading it back
    gives the header record and the cell texts, field for field. */
module CsvReader {
  import opened Wrappers
  import opened Text
  import opened CsvUtils

  /** The body of a quoted field, `s` starting just after its opening quote:
      the unescaped content and the text after the closing quote. */
  function ReadQuoted(s: string): (r: Option<(string, string)>)
    ensures r.Some? ==> |r.value.1| < |s|
    decreases |s|
  {
    if |s| == 0 then None
    else if s[0] == '"' then
      if |s| >= 2 && s[1] == '"' then
        match ReadQuoted(s[2..])
        case None => None
        case Some((c, rest)) => Some(("\"" + c, rest))
      else Some(("", s[1..]))
    else
      match ReadQuoted(s[1..])
      case None => None
      case Some((c, rest)) => Some(([s[0]] + c, rest))
  }

  /** An unquoted field: everything up to the next comma or line feed. */
  function ReadPlain(s: string): (r: (string, string))
    ensures |r.1| <= |s|
    ensures |r.1| == 0 || r.1[0] == ',' || r.1[0] == '\n'
    decreases |s|
  {
    if |s| == 0 || s[0] == ',' || s[0] == '\n' then ("", s)
    else
      var (c, rest) := ReadPlain(s[1..]);
      ([s[0]] + c, rest)
  }

  function ReadField(s: string): (r: Option<(string, string)>)
    ensures r.Some? ==> |r.value.1| <= |s|
  {
    if |s| > 0 && s[0] == '"' then ReadQuoted(s[1..]) else Some(ReadPlain(s))
  }

  /** The fields of one record, and the text from the line feed that ends it
      (empty at the end of the document). */
  function ReadRecord(s: string): (r: Option<(seq<string>, string)>)
    ensures r.Some? ==> |r.value.1| <= |s|
    ensures r.Some? ==> |r.value.1| == 0 || r.value.1[0] == '\n'
    decreases |s|
  {
    match ReadField(s)
    case None => None
    case Some((f, rest)) =>
      if |rest| == 0 || rest[0] == '\n' then Some(([f], rest))
      else if rest[0] == ',' then
        match ReadRecord(rest[1..])
        case None => None
        case Some((fs, rest')) => Some(([f] + fs, rest'))
      else None
  }

  function ReadDocument(s: string): Option<seq<seq<string>>>
    decreases |s|
  {
    match ReadRecord(s)
    case None => None
    case Some((fs, rest)) =>
      if |rest| == 0 then Some([fs])
      else
        match ReadDocument(rest[1..])
        case None => None
        case Some(records) => Some([fs] + records)
  }

  /** Text that may follow a field: the end, a comma or a line feed. */
  predicate FieldBoundary(rest: string) {
    |rest| == 0 || rest[0] == ',' || rest[0] == '\n'
  }

  /** One step of `ReadQuotedDoubled`, for a text starting with a quote. */
  lemma ReadQuotedPairStep(f: string, rest: string)
    requires |f| > 0 && f[0] == '"'
    requires ReadQuoted(DoubleQuotes(f[1..]) + "\"" + rest) == Some((f[1..], rest))
    ensures ReadQuoted(DoubleQuotes(f) + "\"" + rest) == Some((f, rest))
  {
    var tail := DoubleQuotes(f[1..]) + "\"" + rest;
    assert DoubleQuotes(f) + "\"" + rest == "\"\"" + tail;
    assert ("\"\"" + tail)[2..] == tail;
    assert f == "\"" + f[1..];
  }

  /** One step of `ReadQuotedDoubled`, for a text starting with another character. */
  lemma ReadQuotedCharStep(f: string, rest: string)
    requires |f| > 0 && f[0] != '"'
    requires ReadQuoted(DoubleQuotes(f[1..]) + "\"" + rest) == Some((f[1..], rest))
    ensures ReadQuoted(DoubleQuotes(f) + "\"" + rest) == Some((f, rest))
  {
    var tail := DoubleQuotes(f[1..]) + "\"" + rest;
    assert DoubleQuotes(f) + "\"" + rest == [f[0]] + tail;
    assert ([f[0]] + tail)[1..] == tail;
    assert f == [f[0]] + f[1..];
  }

  lemma {:induction false} ReadQuotedDoubled(f: string, rest: string)
    requires FieldBoundary(rest)
    ensures ReadQuoted(DoubleQuotes(f) + "\"" + rest) == Some((f, rest))
    decreases |f|
  {
    if |f| == 0 {
      assert (DoubleQuotes(f) + "\"" + rest)[1..] == rest;
    } else {
      ReadQuotedDoubled(f[1..], rest);
      if f[0] == '"' {
        ReadQuotedPairStep(f, rest);
      } else {
        ReadQuotedCharStep(f, rest);
      }
    }
  }

  lemma {:induction false} ReadPlainUnquoted(f: string, rest: string)
    requires ',' !in f && '\n' !in f
    requires FieldBoundary(rest)
    ensures ReadPlain(f + rest) == (f, rest)
    decreases |f|
  {
    if |f| == 0 {
      assert f + rest == rest;
    } else {
      ReadPlainUnquoted(f[1..], rest);
      assert (f + rest)[1..] == f[1..] + rest;
      assert f == [f[0]] + f[1..];
    }
  }

  /** Reading an escaped field gives back the original text, whatever follows. */
  lemma ReadFieldEscape(f: string, rest: string)
    requires FieldBoundary(rest)
    ensures ReadField(Escape(f) + rest) == Some((f, rest))
  {
    var e := DoubleQuotes(f);
    DoubleQuotesSpec(f);
    if NeedsQuotes(e) {
      ReadQuotedDoubled(f, rest);
      assert ("\"" + e + "\"" + rest)[1..] == e + "\"" + rest;
    } else {
      ReadPlainUnquoted(f, rest);
      if |f| > 0 {
        assert (f + rest)[0] == f[0];
      }
    }
  }

  lemma ReadRecordLast(s: string, f: string, rest: string)
    requires ReadField(s) == Some((f, rest))
    requires |rest| == 0 || rest[0] == '\n'
    ensures ReadRecord(s) == Some(([f], rest))
  {
  }

  lemma ReadRecordMore(s: string, f: string, rest: string, fs: seq<string>, rest': string)
    requires ReadField(s) == Some((f, rest))
    requires |rest| > 0 && rest[0] == ','
    requires ReadRecord(rest[1..]) == Some((fs, rest'))
    ensures ReadRecord(s) == Some(([f] + fs, rest'))
  {
  }

  lemma EncodeRecordCons(fields: seq<string>)
    requires |fields| >= 2
    ensures EncodeRecord(fields) == Escape(fields[0]) + "," + EncodeRecord(fields[1..])
  {
    var escaped := EscapeAll(fields);
    assert EscapeAll(fields[1..]) == escaped[1..];
    JoinCons(escaped[0], escaped[1..], ',');
    assert escaped == [escaped[0]] + escaped[1..];
  }

  lemma Associate(a: string, b: string, rest: string)
    ensures a + "," + b + rest == a + ("," + (b + rest))
  {
  }

  lemma {:induction false} ReadRecordEncode(fields: seq<string>, rest: string)
    requires |fields| > 0
    requires |rest| == 0 || rest[0] == '\n'
    ensures ReadRecord(EncodeRecord(fields) + rest) == Some((fields, rest))
    decreases |fields|
  {
    if |fields| == 1 {
      var escaped := EscapeAll(fields);
      assert escaped == [escaped[0]];
      ReadFieldEscape(fields[0], rest);
      ReadRecordLast(EncodeRecord(fields) + rest, fields[0], rest);
      assert fields == [fields[0]];
    } else {
      var tail := EncodeRecord(fields[1..]) + rest;
      var comma := "," + tail;
      EncodeRecordCons(fields);
      Associate(Escape(fields[0]), EncodeRecord(fields[1..]), rest);
      ReadFieldEscape(fields[0], comma);
      assert comma[1..] == tail;
      ReadRecordEncode(fields[1..], rest);
      ReadRecordMore(EncodeRecord(fields) + rest, fields[0], comma, fields[1..], rest);
      assert fields == [fields[0]] + fields[1..];
    }
  }

  lemma ReadDocumentLast(s: string, fs: seq<string>)
    requires ReadRecord(s) == Some((fs, ""))
    ensures ReadDocument(s) == Some([fs])
  {
  }

  lemma ReadDocumentMore(s: string, fs: seq<string>, rest: string, records: seq<seq<string>>)
    requires ReadRecord(s) == Some((fs, rest))
    requires |rest| > 0
    requires ReadDocument(rest[1..]) == Some(records)
    ensures ReadDocument(s) == Some([fs] + records)
  {
  }

  lemma EncodeDocumentCons(records: seq<seq<string>>)
    requires |records| >= 2
    ensures EncodeDocument(records) == EncodeRecord(records[0]) + "\n" + EncodeDocument(records[1..])
  {
    var lines := EncodeRecords(records);
    assert EncodeRecords(records[1..]) == lines[1..];
    JoinCons(lines[0], lines[1..], '\n');
    assert lines == [lines[0]] + lines[1..];
  }

  /** Reading an encoded document gives back its records, provided every record
      has at least one field (a record with none encodes to the empty line, which
      reads back as one empty field). */
  lemma {:induction false} ReadDocumentEncode(records: seq<seq<string>>)
    requires |records| > 0
    requires forall i :: 0 <= i < |records| ==> |records[i]| > 0
    ensures ReadDocument(EncodeDocument(records)) == Some(records)
    decreases |records|
  {
    if |records| == 1 {
      var lines := EncodeRecords(records);
      assert lines == [lines[0]];
      ReadRecordEncode(records[0], "");
      assert EncodeRecord(records[0]) + "" == EncodeDocument(records);
      ReadDocumentLast(EncodeDocument(records), records[0]);
      assert records == [records[0]];
    } else {
      var tail := EncodeDocument(records[1..]);
      var newline := "\n" + tail;
      EncodeDocumentCons(records);
      assert EncodeDocument(records) == EncodeRecord(records[0]) + newline;
      ReadRecordEncode(records[0], newline);
      assert newline[1..] == tail;
      ReadDocumentEncode(records[1..]);
      ReadDocumentMore(EncodeDocument(records), records[0], newline, records[1..]);
      assert records == [records[0]] + records[1..];
    }
  }

  /** What the serializer's output says: one header record holding the keys of
      the first row, then one record per row, in order, each with one field per
      column holding that row's cell text (`''` for a missing key, `null` or
      `undefined`). Keys that only later rows have are not written. */
  lemma ConvertToCsvRoundTrip(data: seq<Row>)
    requires |data| > 0 && |Columns(data)| > 0
    ensures var doc := ReadDocument(ConvertToCsv(data));
      && doc.Some?
      && |doc.value| == 1 + |data|
      && doc.value[0] == Keys(data[0])
      && (forall i :: 1 <= i < |doc.value| ==> |doc.value[i]| == |Keys(data[0])|)
      && (forall i, j :: 0 <= i < |data| && 0 <= j < |Keys(data[0])| ==>
            doc.value[i + 1][j] == CellText(Lookup(data[i], Keys(data[0])[j])))
  {
    var records := Records(data);
    assert forall i :: 0 <= i < |data| ==> records[i + 1] == RowCells(Columns(data), data[i]);
    ReadDocumentEncode(records);
  }

  /** An empty row list produces no text at all, not even a header line. */
  lemma ConvertToCsvEmpty()
    ensures ConvertToCsv([]) == ""
  {
  }
}
