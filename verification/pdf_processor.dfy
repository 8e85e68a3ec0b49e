/** `src/components/pdf-processor-client.tsx`: the page that takes a PDF (an upload
    or a URL), asks the extraction service for its table, shows the result or a
    classified error, and exports the rows as a CSV download. The component's
    React state is one record; each handler is a function from record to record. */
module PdfProcessor {
  import opened Wrappers
  import opened Text
  import opened CsvUtils
  import CsvReader

  /** 10 MiB, the largest accepted upload. */
  const MaxFileSize := 10 * 1024 * 1024
  const PdfMimeType := "application/pdf"
  const DataUriPrefix := "data:application/pdf;base64,"

  const InvalidJsonError :=
    "AI returned invalid JSON. Could not parse extracted data. The PDF might be complex or not machine-readable."
  const NotTableError :=
    "Extracted data is not in a table format. AI might have struggled with this PDF structure."
  const BadItemsError :=
    "Extracted data items are not structured correctly. AI might have struggled with this PDF."
  const TimeoutError :=
    "Processing timed out. The PDF might be too large/complex or the URL inaccessible. Please try a smaller PDF or upload the file directly."
  const InvalidInputError :=
    "Invalid PDF or URL. Please check your input, ensure the PDF is not corrupted and the URL is correct and publicly accessible."
  const UnknownError := "An unknown error occurred during PDF processing."

  const UrlFallbackName := "url_extracted_data"
  const DefaultName := "extracted_data"

  datatype Tab = Upload | Url

  /** What the browser reports about a picked file. */
  datatype PdfFile = PdfFile(name: string, mimeType: string, size: nat)

  /** The component's state: active tab, URL text, picked file and its name,
      extracted rows, the in-flight flag and the error text. */
  datatype State = State(
    tab: Tab,
    urlInput: string,
    file: Option<PdfFile>,
    fileName: Option<string>,
    data: Option<seq<Row>>,
    loading: bool,
    error: Option<string>)

  const Initial := State(Upload, "", None, None, None, false, None)

  /** The state facts every handler keeps: the file name is the picked file's, a
      picked file passed validation, and an error and a result are never shown
      together. */
  predicate Consistent(s: State) {
    && (s.file.Some? <==> s.fileName.Some?)
    && (s.file.Some? ==> s.fileName.value == s.file.value.name && Accepted(s.file.value))
    && (s.data.None? || s.error.None?)
  }

  // ---------------------------------------------------------------------------
  // Input selection

  predicate Accepted(f: PdfFile) {
    f.mimeType == PdfMimeType && f.size <= MaxFileSize
  }

  /** `handleFileChange`: keep the picked file only when it is a PDF of at most
      10 MiB; a rejected or absent file clears both file and name. */
  function ChooseFile(s: State, picked: Option<PdfFile>): (r: State)
    ensures picked.Some? && Accepted(picked.value) ==> r.file == picked && r.fileName == Some(picked.value.name)
    ensures !(picked.Some? && Accepted(picked.value)) ==> r.file.None? && r.fileName.None?
    ensures r.(file := s.file, fileName := s.fileName) == s
  {
    match picked
    case Some(f) =>
      if f.mimeType != PdfMimeType then s.(file := None, fileName := None)
      else if f.size > MaxFileSize then s.(file := None, fileName := None)
      else s.(file := Some(f), fileName := Some(f.name))
    case None => s.(file := None, fileName := None)
  }

  /** The size limit is inclusive: exactly 10 MiB passes, one byte more does not. */
  lemma SizeLimitBoundary(name: string)
    ensures Accepted(PdfFile(name, PdfMimeType, 10485760))
    ensures !Accepted(PdfFile(name, PdfMimeType, 10485761))
  {
  }

  /** Typing in the URL field. */
  function EditUrl(s: State, text: string): State {
    s.(urlInput := text)
  }

  /** The effect on `activeTab`: switching tabs clears file, name, URL and error
      but keeps the extracted rows; choosing the current tab changes nothing. */
  function SelectTab(s: State, t: Tab): (r: State)
    ensures t == s.tab ==> r == s
    ensures t != s.tab ==> r.tab == t && r.file.None? && r.fileName.None? && r.urlInput == "" && r.error.None?
    ensures r.data == s.data && r.loading == s.loading
  {
    if t == s.tab then s
    else s.(tab := t, file := None, fileName := None, urlInput := "", error := None)
  }

  /** The "Process PDF" button is enabled: not busy, and the active tab has input. */
  predicate CanProcess(s: State) {
    && !s.loading
    && !(s.tab == Upload && s.file.None?)
    && !(s.tab == Url && Trim(s.urlInput) == "")
  }

  /** After a tab switch there is nothing to process until new input arrives. */
  lemma SwitchingTabDisablesProcessing(s: State, t: Tab)
    requires t != s.tab
    ensures !CanProcess(SelectTab(s, t))
  {
    assert Trim("") == "";
  }

  /** Where input selection in `handleProcessPdf` ends up. */
  datatype Choice =
    | Send(pdfDataUri: string)    // a request is made with this input
    | NoPdf                       // "No PDF Provided"
    | InvalidUrl                  // "Invalid URL"
    | NoPdfData                   // the file read gave an empty data URI
    | Unreadable                  // the file read was rejected

  /** The input for the extraction request. `read` is what reading the picked file
      as a data URI yields, `None` when the read is rejected; it is consulted only
      on the upload tab. A rejected read settles with the reader's error event,
      which carries no message. */
  function SelectInput(s: State, read: Option<string>): Choice {
    if s.tab == Upload && s.file.Some? then
      match read
      case None => Unreadable
      case Some(uri) => if uri == "" then NoPdfData else Send(uri)
    else if s.tab == Url && Trim(s.urlInput) != "" then
      var url := Trim(s.urlInput);
      if StartsWith(url, DataUriPrefix) || StartsWith(url, "http://") || StartsWith(url, "https://") then Send(url)
      else InvalidUrl
    else NoPdf
  }

  /** Input selection: the upload tab sends the file's data URI; the URL tab sends
      the trimmed URL exactly when it starts with the PDF data-URI prefix,
      `http://` or `https://`; anything else sends nothing. */
  lemma SelectInputSpec(s: State, read: Option<string>)
    ensures s.tab == Upload && s.file.Some? && read.Some? && read.value != "" ==>
      SelectInput(s, read) == Send(read.value)
    ensures s.tab == Url ==>
      (SelectInput(s, read).Send? <==>
        var url := Trim(s.urlInput);
        url != "" && (StartsWith(url, DataUriPrefix) || StartsWith(url, "http://") || StartsWith(url, "https://")))
    ensures s.tab == Url && SelectInput(s, read).Send? ==> SelectInput(s, read).pdfDataUri == Trim(s.urlInput)
    ensures SelectInput(s, read).Send? ==> SelectInput(s, read).pdfDataUri != ""
    ensures (s.tab == Upload && s.file.None?) || (s.tab == Url && Trim(s.urlInput) == "") ==>
      SelectInput(s, read) == NoPdf
  {
    if s.tab == Url {
      var url := Trim(s.urlInput);
      var sent := StartsWith(url, DataUriPrefix) || StartsWith(url, "http://") || StartsWith(url, "https://");
      assert SelectInput(s, read) == if url != "" && sent then Send(url) else if url != "" then InvalidUrl else NoPdf;
    }
  }

  /** An enabled button never lands in "No PDF Provided". */
  lemma EnabledMeansInput(s: State, read: Option<string>)
    requires CanProcess(s)
    ensures SelectInput(s, read) != NoPdf
  {
  }

  // ---------------------------------------------------------------------------
  // The extraction reply

  /** An element of the parsed array: a non-null object (its own properties),
      `null`, or another primitive (a string, a number, a boolean). */
  datatype Item = RecordItem(row: Row) | NullItem | PrimitiveItem

  /** What `JSON.parse` makes of the extracted text. */
  datatype Parsed = ParseError | NonArray | JsonArray(items: seq<Item>)

  /** The extraction request either resolves with text (seen through its parse)
      or rejects with an error message (`""` when the error has none). */
  datatype Reply = Extracted(parsed: Parsed) | Rejected(message: string)

  /** `typeof item === 'object' && item !== null`. */
  predicate IsObject(item: Item) {
    item.RecordItem?
  }

  /** Reading a property of the element (`row[header]` in the table and in the
      CSV export) throws a `TypeError`: only `null` does. */
  predicate ReadThrows(item: Item) {
    item.NullItem?
  }

  /** Every element can be read without throwing. */
  predicate NoneThrow(items: seq<Item>) {
    forall i :: 0 <= i < |items| ==> !ReadThrows(items[i])
  }

  /** The row an element reads as: an object's own properties; a primitive has
      none of its own, so every column reads `undefined`. */
  function ItemRow(item: Item): Row
    requires !ReadThrows(item)
  {
    if item.RecordItem? then item.row else []
  }

  /** The rows an item list without `null` stands for, one per element, in order. */
  function ItemRows(items: seq<Item>): (rows: seq<Row>)
    requires NoneThrow(items)
    ensures |rows| == |items|
    ensures forall i :: 0 <= i < |items| ==> rows[i] == ItemRow(items[i])
  {
    if |items| == 0 then [] else [ItemRow(items[0])] + ItemRows(items[1..])
  }

  datatype Classified = Classified(data: Option<seq<Row>>, error: Option<string>)

  /** The checks on a resolved reply, in source order, with the element check
      extended to reject an array any of whose elements is `null`, so that no
      accepted element makes a column read throw (see `ClassifyReplyAsWritten`
      for the check as the component writes it). */
  function ClassifyReply(p: Parsed): (r: Classified)
    ensures r.data.Some? <==> r.error.None?
  {
    match p
    case ParseError => Classified(None, Some(InvalidJsonError))
    case NonArray => Classified(None, Some(NotTableError))
    case JsonArray(items) =>
      if |items| == 0 then Classified(Some([]), None)
      else if !IsObject(items[0]) || !NoneThrow(items) then Classified(None, Some(BadItemsError))
      else Classified(Some(ItemRows(items)), None)
  }

  /** Result classification: an unparsable reply, a non-array, an array whose
      first element is not an object, or one holding a `null` is an error with no
      rows; an empty array is success with no rows; otherwise the rows are the
      array's elements, one per element, and no element's property read throws. */
  lemma ClassifyReplySpec(p: Parsed)
    ensures p.ParseError? ==> ClassifyReply(p) == Classified(None, Some(InvalidJsonError))
    ensures p.NonArray? ==> ClassifyReply(p) == Classified(None, Some(NotTableError))
    ensures ClassifyReply(p).data == Some([]) <==> p == JsonArray([])
    ensures p.JsonArray? && |p.items| > 0 && (!IsObject(p.items[0]) || !NoneThrow(p.items)) ==>
      ClassifyReply(p) == Classified(None, Some(BadItemsError))
    ensures p.JsonArray? && |p.items| > 0 && IsObject(p.items[0]) && NoneThrow(p.items) ==>
      && ClassifyReply(p).error.None?
      && |ClassifyReply(p).data.value| == |p.items|
      && forall i :: 0 <= i < |p.items| ==>
           ClassifyReply(p).data.value[i] == if IsObject(p.items[i]) then p.items[i].row else []
    ensures ClassifyReply(p).data.Some? ==>
      p.JsonArray? && forall i :: 0 <= i < |p.items| ==> !ReadThrows(p.items[i])
  {
  }

  /** The outcome of the element check as the component writes it: on success it
      keeps the parsed array itself, whatever its elements are. */
  datatype ClassifiedItems = ClassifiedItems(items: Option<seq<Item>>, error: Option<string>)

  /** The checks as written: only element 0 is tested for being a non-null
      object, and the whole array is accepted when it passes. */
  function ClassifyReplyAsWritten(p: Parsed): (r: ClassifiedItems)
    ensures r.items.Some? <==> r.error.None?
    ensures r.items.Some? ==> p.JsonArray? && r.items.value == p.items
    ensures r.items.Some? && |p.items| > 0 ==> IsObject(p.items[0])
  {
    match p
    case ParseError => ClassifiedItems(None, Some(InvalidJsonError))
    case NonArray => ClassifiedItems(None, Some(NotTableError))
    case JsonArray(items) =>
      if |items| == 0 then ClassifiedItems(Some([]), None)
      else if !IsObject(items[0]) then ClassifiedItems(None, Some(BadItemsError))
      else ClassifiedItems(Some(items), None)
  }

  /** As written, only element 0 is inspected: two arrays that agree on it are
      classified alike, whatever their other elements are. */
  lemma OnlyFirstItemChecked(a: seq<Item>, b: seq<Item>)
    requires |a| > 0 && |b| > 0 && a[0] == b[0]
    ensures ClassifyReplyAsWritten(JsonArray(a)).error == ClassifyReplyAsWritten(JsonArray(b)).error
  {
  }

  /** `[{"a": 1}, null]` passes the check as written and becomes the table's data,
      although reading a column of its second element throws; the corrected check
      rejects it. */
  lemma LaterNullAccepted()
    ensures var items := [RecordItem([Field("a", Scalar("1"))]), NullItem];
      && ClassifyReplyAsWritten(JsonArray(items)) == ClassifiedItems(Some(items), None)
      && ReadThrows(items[1])
      && ClassifyReply(JsonArray(items)) == Classified(None, Some(BadItemsError))
  {
    var items := [RecordItem([Field("a", Scalar("1"))]), NullItem];
    assert ReadThrows(items[1]);
  }

  /** `[{"a": 1}, 5]` is accepted by both checks: reading a column of the number
      gives `undefined` without throwing, so its row shows and exports as empty
      cells. */
  lemma LaterPrimitiveAccepted()
    ensures var items := [RecordItem([Field("a", Scalar("1"))]), PrimitiveItem];
      && ClassifyReplyAsWritten(JsonArray(items)) == ClassifiedItems(Some(items), None)
      && ClassifyReply(JsonArray(items)) == Classified(Some([[Field("a", Scalar("1"))], []]), None)
  {
    var items := [RecordItem([Field("a", Scalar("1"))]), PrimitiveItem];
    assert NoneThrow(items);
    assert ItemRows(items) == [[Field("a", Scalar("1"))], []];
  }

  /** The corrected check and the check as written disagree exactly on arrays
      whose element 0 is an object but some later element is `null`; on every
      other reply they give the same error, and whatever the correction accepts
      the check as written accepts too. */
  lemma CorrectionOnlyAffectsLaterItems(p: Parsed)
    ensures ClassifyReply(p).error != ClassifyReplyAsWritten(p).error <==>
      p.JsonArray? && |p.items| > 0 && IsObject(p.items[0]) && exists i :: 0 <= i < |p.items| && ReadThrows(p.items[i])
    ensures ClassifyReply(p).data.Some? ==> ClassifyReplyAsWritten(p).items == Some(p.items)
  {
  }

  /** The user-facing text for a rejected request. */
  function ClassifyError(message: string): (text: string)
    ensures text != ""
    ensures Contains(message, "DEADLINE_EXCEEDED") || Contains(message, "timeout") ==> text == TimeoutError
    ensures !Contains(message, "DEADLINE_EXCEEDED") && !Contains(message, "timeout") && Contains(message, "INVALID_ARGUMENT") ==>
      text == InvalidInputError
    ensures !Contains(message, "DEADLINE_EXCEEDED") && !Contains(message, "timeout") && !Contains(message, "INVALID_ARGUMENT") ==>
      text == (if message == "" then UnknownError else message)
  {
    if Contains(message, "DEADLINE_EXCEEDED") || Contains(message, "timeout") then TimeoutError
    else if Contains(message, "INVALID_ARGUMENT") then InvalidInputError
    else if message != "" then message
    else UnknownError
  }

  /** The timeout check wins over the invalid-argument check. */
  lemma TimeoutTakesPrecedence(message: string)
    requires Contains(message, "timeout") && Contains(message, "INVALID_ARGUMENT")
    ensures ClassifyError(message) == TimeoutError
  {
  }

  // ---------------------------------------------------------------------------
  // Processing

  /** The first three updates of `handleProcessPdf`. */
  function Begin(s: State): (r: State)
    ensures r.loading && r.error.None? && r.data.None?
    ensures r.(loading := s.loading, error := s.error, data := s.data) == s
  {
    s.(loading := true, error := None, data := None)
  }

  /** One run of `handleProcessPdf`: the final state and the input sent to the
      extraction service, if any. */
  datatype Submission = Submission(state: State, request: Option<string>)

  function Process(s: State, read: Option<string>, reply: Reply): Submission {
    var started := Begin(s);
    match SelectInput(started, read)
    case Send(uri) =>
      (match reply
       case Rejected(message) =>
         Submission(started.(loading := false, error := Some(ClassifyError(message)), data := None), Some(uri))
       case Extracted(p) =>
         var c := ClassifyReply(p);
         Submission(started.(loading := false, data := c.data, error := c.error), Some(uri)))
    case Unreadable =>
      Submission(started.(loading := false, error := Some(ClassifyError("")), data := None), None)
    case NoPdf => Submission(started.(loading := false), None)
    case InvalidUrl => Submission(started.(loading := false), None)
    case NoPdfData => Submission(started.(loading := false), None)
  }

  /** Every exit path of a submission: loading ends false; the inputs are left as
      they were; a request is sent exactly when input selection produced one; a
      rejection shows its classified message and no rows; a reply is classified;
      a rejected file read shows the unknown-error text, since its error has no
      message; any other early return shows neither rows nor an error. */
  lemma ProcessSpec(s: State, read: Option<string>, reply: Reply)
    ensures var r := Process(s, read, reply);
      && !r.state.loading
      && r.state.tab == s.tab && r.state.urlInput == s.urlInput
      && r.state.file == s.file && r.state.fileName == s.fileName
      && (r.request.Some? <==> SelectInput(s, read).Send?)
      && (r.request.Some? ==> r.request.value == SelectInput(s, read).pdfDataUri)
      && (r.request.Some? && reply.Rejected? ==>
            r.state.data.None? && r.state.error == Some(ClassifyError(reply.message)))
      && (r.request.Some? && reply.Extracted? ==>
            r.state.data == ClassifyReply(reply.parsed).data && r.state.error == ClassifyReply(reply.parsed).error)
      && (SelectInput(s, read).Unreadable? ==> r.state.data.None? && r.state.error == Some(UnknownError))
      && (r.request.None? && !SelectInput(s, read).Unreadable? ==> r.state.data.None? && r.state.error.None?)
  {
    assert SelectInput(Begin(s), read) == SelectInput(s, read);
  }

  /** A submission never discards a previous result by merging: the old rows are
      gone whatever happens. */
  lemma ProcessReplacesData(s: State, read: Option<string>, reply: Reply)
    ensures var r := Process(s, read, reply).state;
      r.data.None? || (reply.Extracted? && r.data == ClassifyReply(reply.parsed).data)
  {
    ProcessSpec(s, read, reply);
  }

  // ---------------------------------------------------------------------------
  // Export

  /** `handleDownloadCsv`'s base name: the uploaded file's name without its
      extension; or the last path segment of the URL without its extension, or
      `url_extracted_data` when that is empty; otherwise `extracted_data`. */
  function BaseFileName(s: State): string {
    if s.tab == Upload && s.fileName.Some? && s.fileName.value != "" then
      DropLastSegment(s.fileName.value, '.')
    else if s.tab == Url && s.urlInput != "" then
      var segment := s.urlInput[LastIndexOf(s.urlInput, '/') + 1..];
      var base := DropLastSegment(segment, '.');
      if base == "" then UrlFallbackName else base
    else DefaultName
  }

  /** The base name in terms of positions: text before the last dot of the file
      name (nothing when it has no dot); for a URL, the text between the last `/`
      and the last dot after it, falling back when that is empty. */
  lemma BaseFileNameSpec(s: State)
    ensures s.tab == Upload && s.fileName.Some? && s.fileName.value != "" ==>
      var n := s.fileName.value;
      BaseFileName(s) == if '.' in n then n[..LastIndexOf(n, '.')] else ""
    ensures s.tab == Url && s.urlInput != "" ==>
      var segment := s.urlInput[LastIndexOf(s.urlInput, '/') + 1..];
      && '/' !in segment
      && BaseFileName(s) ==
           if '.' in segment && LastIndexOf(segment, '.') > 0 then segment[..LastIndexOf(segment, '.')]
           else UrlFallbackName
    ensures !(s.tab == Upload && s.fileName.Some? && s.fileName.value != "") && !(s.tab == Url && s.urlInput != "") ==>
      BaseFileName(s) == DefaultName
  {
    if s.tab == Upload && s.fileName.Some? && s.fileName.value != "" {
      DropLastSegmentSpec(s.fileName.value, '.');
    } else if s.tab == Url && s.urlInput != "" {
      LastSegmentBase(s.urlInput);
    }
  }

  /** The URL's last path segment has no `/`, and dropping its extension keeps
      the text before its last dot. */
  lemma LastSegmentBase(u: string)
    ensures var segment := u[LastIndexOf(u, '/') + 1..];
      && '/' !in segment
      && DropLastSegment(segment, '.') == if '.' in segment then segment[..LastIndexOf(segment, '.')] else ""
  {
    NoneAfterLast(u, '/');
    DropLastSegmentSpec(u[LastIndexOf(u, '/') + 1..], '.');
  }

  /** An uploaded file whose name has no dot gets the bare name `.csv`: the URL
      branch's fallback does not apply to uploads. */
  lemma UploadWithoutExtension(s: State)
    requires s.tab == Upload && s.fileName.Some? && s.fileName.value != "" && '.' !in s.fileName.value
    requires s.data.Some? && |s.data.value| > 0
    ensures Export(s).Some? && Export(s).value.fileName == ".csv"
  {
    BaseFileNameSpec(s);
  }

  datatype Download = Download(fileName: string, csv: string)

  /** `handleDownloadCsv`: a download only when there are rows. */
  function Export(s: State): Option<Download> {
    if s.data.Some? && |s.data.value| > 0 then
      Some(Download(DownloadName(BaseFileName(s) + ".csv"), ConvertToCsv(s.data.value)))
    else None
  }

  /** The export guard and what the download holds: nothing happens without rows;
      with rows, the file is the base name plus a single `.csv`, its text is
      `convertToCSV` of the rows, and it reads back as the header record and one
      record of cell texts per row; when the first row has no keys, it is one
      line feed per row. */
  lemma ExportSpec(s: State)
    ensures Export(s).Some? <==> s.data.Some? && |s.data.value| > 0
    ensures Export(s).Some? ==> Export(s).value.fileName == BaseFileName(s) + ".csv"
    ensures Export(s).Some? ==> Export(s).value.csv == ConvertToCsv(s.data.value)
    ensures Export(s).Some? && |Columns(s.data.value)| > 0 ==>
      var doc := CsvReader.ReadDocument(Export(s).value.csv);
      && doc.Some? && |doc.value| == 1 + |s.data.value| && doc.value[0] == Columns(s.data.value)
      && (forall i :: 1 <= i < |doc.value| ==> |doc.value[i]| == |Columns(s.data.value)|)
      && forall i, j :: 0 <= i < |s.data.value| && 0 <= j < |Columns(s.data.value)| ==>
           doc.value[i + 1][j] == CellText(Lookup(s.data.value[i], Columns(s.data.value)[j]))
    ensures Export(s).Some? && |Columns(s.data.value)| == 0 ==>
      Export(s).value.csv == seq(|s.data.value|, _ => '\n')
  {
    if Export(s).Some? {
      assert EndsWith(BaseFileName(s) + ".csv", ".csv") by {
        assert (BaseFileName(s) + ".csv")[|BaseFileName(s)|..] == ".csv";
      }
      if |Columns(s.data.value)| > 0 {
        CsvReader.ConvertToCsvRoundTrip(s.data.value);
      } else {
        ConvertToCsvNoColumns(s.data.value);
      }
    }
  }

  /** The "Download CSV" button is enabled: there are rows. */
  predicate CanDownload(s: State) {
    s.data.Some? && |s.data.value| > 0
  }

  /** The button is enabled exactly when pressing it downloads a file. */
  lemma DownloadButtonMatchesGuard(s: State)
    ensures CanDownload(s) <==> Export(s).Some?
  {
  }

  /** The panels below the form. */
  datatype Panel = LoadingPanel | ErrorPanel(message: string) | ResultPanel(rows: seq<Row>) | Placeholder

  /** The panels shown for a state: the spinner, the error alert, the result card
      and the placeholder, each under its own condition. The page tests the error
      text for truthiness, so an empty text would show no alert; the model tests
      `error.Some?` instead, which agrees on every reachable state because every
      error text set is a non-empty constant or the result of `ClassifyError`,
      whose contract makes it non-empty. */
  function Panels(s: State): seq<Panel> {
    (if s.loading then [LoadingPanel] else [])
    + (if s.error.Some? && !s.loading then [ErrorPanel(s.error.value)] else [])
    + (if s.data.Some? && !s.loading then [ResultPanel(s.data.value)] else [])
    + (if !s.loading && s.error.None? && s.data.None? then [Placeholder] else [])
  }

  /** In a consistent state exactly one panel is shown: the spinner while loading,
      otherwise the error when there is one, else the result, else the placeholder. */
  lemma OnePanelAtATime(s: State)
    requires Consistent(s)
    ensures |Panels(s)| == 1
    ensures !s.loading ==> LoadingPanel !in Panels(s)
    ensures !s.loading && s.error.Some? ==> Panels(s) == [ErrorPanel(s.error.value)]
    ensures !s.loading && s.data.Some? ==> Panels(s) == [ResultPanel(s.data.value)]
  {
  }

  /** While a submission runs only the spinner is shown below the form: no error,
      no result and no placeholder. */
  lemma OnlySpinnerWhileLoading(s: State)
    ensures s.loading ==> Panels(s) == [LoadingPanel]
    ensures Panels(Begin(s)) == [LoadingPanel]
  {
  }

  // ---------------------------------------------------------------------------
  // The invariant

  lemma InitialConsistent()
    ensures Consistent(Initial) && CanProcess(Initial) == false
  {
  }

  /** Choosing a file, typing a URL and switching tabs keep the state consistent. */
  lemma HandlersPreserveConsistency(s: State, picked: Option<PdfFile>, text: string, t: Tab)
    requires Consistent(s)
    ensures Consistent(ChooseFile(s, picked))
    ensures Consistent(EditUrl(s, text))
    ensures Consistent(SelectTab(s, t))
  {
  }

  /** A submission keeps the state consistent, whatever the service replies. */
  lemma ProcessPreservesConsistency(s: State, read: Option<string>, reply: Reply)
    requires Consistent(s)
    ensures Consistent(Process(s, read, reply).state)
  {
    ProcessSpec(s, read, reply);
  }
}
