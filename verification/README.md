# PDF table extractor: a Dafny model of its core

The application takes a PDF, either as an upload or as a public URL. It asks a
generative model for the PDF's table, shows the rows on screen, and exports them
as a CSV download. The application sits behind a password gate. Two companion
Python scripts split a PDF into fixed-size parts and choose a crop rectangle
with the mouse.

This project models the deterministic core of all of that and proves its
properties:

- **`CsvUtils`** (`csv-utils.ts`) models the CSV serializer `convertToCSV`:
  - which columns it writes;
  - how it coerces cells to text;
  - field escaping, record joining, and the `.csv` suffix rule of `downloadCSV`.
- **`CsvReader`** is a reader for the dialect the serializer writes. The
  application has no such reader. It is the serializer's partner: reading the
  output back gives the header record and the cell texts, field for field.
  Field escaping is also inverted directly, by `CsvUtils.Unescape`.
- **`DataTable`** (`data-table.tsx`) models:
  - the header caption rule `formatHeader`;
  - the on-screen cell text;
  - the table's shape.
- **`PdfProcessor`** (`pdf-processor-client.tsx`) models the page's state as one
  record, with one transition function per handler:
  - file validation, the tab reset, and input selection;
  - classification of the reply and of errors;
  - the export guard and base-name rule, button enablement, and which panel is
    shown.
- **`Middleware`** (`middleware.ts`) models the bypass prefixes and the
  `auth-token` check.
- **`LoginActions`** (`actions.ts`) models the three outcomes of `login`, the
  cookie it sets, and `logout`. Lemmas show their effect on the gate.
- **`PdfCutter`** (`pdf_cutter.py`) models how `split_pdf` chunks pages and names
  files, and the pages-per-file default in `main`. The loop is proved to write
  exactly `Cuts`, a one-expression definition of the whole list of parts.
  Lemmas about `Cuts` give page coverage, the part count and the part sizes.
- **`PdfCropper`** (`pdf_cropper.py`) models:
  - the `click_and_crop` mouse state machine;
  - the key loop of `select_crop_area`;
  - the normalised rectangle it returns.
- **`Text`** holds the JavaScript string operations the code relies on:
  - `startsWith` and `endsWith`;
  - `includes`;
  - `trim`, with the ECMAScript whitespace set;
  - `lastIndexOf`;
  - `split` and `join`.
- **`Wrappers`** provides `Option`.

The extraction flow's output schema describes the reply text as "a CSV string"
whose first row is a fixed list of column headers
(`src/ai/flows/extract-pdf-data.ts:22-27`). The page instead calls `JSON.parse`
on that text and keeps the result only when it is an array that is empty or whose
element 0 is an object (`src/components/pdf-processor-client.tsx:115-139`). The model follows
the page, with the one correction recorded under "Findings": a parsed reply is
an abstract value, `PdfProcessor.Parsed`. The only CSV code in the application
is the serializer.

## Model

| member | source | states |
|---|---|---|
| CsvUtils.Keys | src/lib/csv-utils.ts:7 | The columns are the first row's own keys, in order, one per field. |
| CsvUtils.DoubleQuotesSpec | src/lib/csv-utils.ts:32 | Doubling quotes changes nothing in text without a quote. The result contains a comma, line feed or quote exactly when the original does. |
| CsvUtils.EscapeQuoting | src/lib/csv-utils.ts:32-37 | A field is quoted, with its quotes doubled, exactly when the original text holds a comma, a line feed or a quote. Otherwise it is written unchanged. |
| CsvUtils.UnescapeEscape | src/lib/csv-utils.ts:32-37 | Escaping is invertible. Stripping the wrapping quotes and collapsing `""` recovers every cell text. |
| CsvUtils.EscapeAll | src/lib/csv-utils.ts:11-17 | The header record gets the same escaping rule as the cells. |
| CsvUtils.Lookup | src/lib/csv-utils.ts:22 | Definition of `row[key]` over the row's own properties: the first field with the key, or `undefined`. Its use is characterised by `RowCells`. |
| CsvUtils.CellText | src/lib/csv-utils.ts:22-30 | Definition of the cell coercion. `CsvReader.ConvertToCsvRoundTrip` proves that each data field reads back as this text, and `DataTable.RenderCell` relates it to the screen. |
| CsvUtils.Escape | src/lib/csv-utils.ts:32-37 | Definition of field escaping. `EscapeQuoting` states when a field is quoted, and `UnescapeEscape` proves it invertible. |
| CsvUtils.RowCells | src/lib/csv-utils.ts:21-38 | A data record has one field per first-row key. A key missing from the row's own properties, and `null` or `undefined`, give `''`. |
| CsvUtils.DataRecords | src/lib/csv-utils.ts:20-40 | One data record per row, in row order. |
| CsvUtils.ConvertToCsv | src/lib/csv-utils.ts:2-43 | Definition of `convertToCSV`. Its meaning is proved by `CsvReader.ConvertToCsvRoundTrip`, `CsvReader.ConvertToCsvEmpty` and `CsvUtils.ConvertToCsvNoColumns`. |
| CsvUtils.ConvertToCsvNoColumns | src/lib/csv-utils.ts:7-42 | When the first row has no keys, the header and every data record are empty, so the text is one line feed per row. |
| CsvUtils.DownloadName | src/lib/csv-utils.ts:56 | The download name always ends in `.csv`. A name already ending so is kept, and any other name gets `.csv` appended once. |
| CsvUtils.DownloadNameIdempotent | src/lib/csv-utils.ts:56 | The suffix rule never adds a second `.csv`. |
| CsvReader.ReadFieldEscape | src/lib/csv-utils.ts:32-37 | An escaped field reads back as the original text, whatever comma, line feed or end follows it. |
| CsvReader.ReadRecordEncode | src/lib/csv-utils.ts:39 | A comma-joined record of escaped fields reads back as exactly its fields. |
| CsvReader.ReadDocumentEncode | src/lib/csv-utils.ts:42 | Records joined by single line feeds, with no trailing one, read back as exactly those records. |
| CsvReader.ConvertToCsvRoundTrip | src/lib/csv-utils.ts:2-43 | For a non-empty row list whose first row has at least one key, reading the serializer's output gives 1 + n records. The header record holds the first row's keys. Data record i holds row i's cell text for each key, and keys found only in later rows are not written. |
| CsvReader.ConvertToCsvEmpty | src/lib/csv-utils.ts:3-5 | An empty row list gives the empty string, with no header line. |
| Text.ContainsSpec | src/lib/csv-utils.ts:13 | `includes` holds exactly when the needle occurs at some position. |
| Text.TrimSpec | src/components/pdf-processor-client.tsx:83-84 | `trim` keeps the infix of the input that starts after its leading whitespace. Only whitespace lies before and after that infix, and the infix neither starts nor ends with whitespace. It is empty exactly when the input is all whitespace. |
| Text.LastIndexOf | src/components/pdf-processor-client.tsx:161 | `lastIndexOf` gives the index of the last occurrence, or -1 when there is none. |
| Text.SplitJoin | src/components/pdf-processor-client.tsx:159 | Joining the pieces of a split with the separator gives back the original, and no piece contains the separator. |
| Text.DropLastSegmentSpec | src/components/pdf-processor-client.tsx:159 | `split('.').slice(0, -1).join('.')` keeps the text before the last dot, and nothing when there is no dot. |
| DataTable.ToUpper | src/components/data-table.tsx:23 | Upper-casing keeps a `\w` character a `\w` character and never produces `_`. |
| DataTable.SpacedAt | src/components/data-table.tsx:22 | Replacing `_` turns every underscore into a space and keeps every other character. |
| DataTable.CapitalizeAt | src/components/data-table.tsx:23 | Exactly the `\w` characters at a word boundary are upper-cased. |
| DataTable.FormatHeader | src/components/data-table.tsx:19-24 | Definition of `formatHeader`. `FormatHeaderSpec` characterises it character by character, and `FormatHeaderIdempotent` and `FormatHeaderExamples` follow. |
| DataTable.FormatHeaderSpec | src/components/data-table.tsx:19-24 | The caption has the header's length. `_` becomes a space, a letter or digit starting a word is upper-cased, and every other character is kept. |
| DataTable.FormatHeaderNoUnderscore | src/components/data-table.tsx:22 | No caption contains `_`. |
| DataTable.FormatHeaderIdempotent | src/components/data-table.tsx:19-24 | Formatting a caption again changes nothing. |
| DataTable.FormatHeaderExamples | src/components/data-table.tsx:18-20 | The empty header gives `""`, and `college_name` gives `College Name`. |
| DataTable.RenderCell | src/components/data-table.tsx:52 | `null` and `undefined` show as `''`. Every non-object value shows the text the export writes. |
| DataTable.Render | src/components/data-table.tsx:29-54 | Nothing is shown for an empty list. Otherwise caption j is `formatHeader` of the first row's key j, in key order, and there is one line per row, each cell being the rendering of that row's value for the key. |
| DataTable.ExportMatchesView | src/components/data-table.tsx:33-54 | For rows without object-valued cells, and when the first row has at least one key, the exported CSV reads back as the raw keys followed by exactly the cell texts on screen. |
| Middleware.Bypassed | src/middleware.ts:11-17 | Definition of the paths that skip the check: the four prefixes, or any `.` in the path. `Handle` and `LoginPageReachable` state its effect. |
| Middleware.Handle | src/middleware.ts:7-32 | Bypassed paths always pass. Any other path passes exactly when the `auth-token` cookie equals `authenticated`, and otherwise redirects to `/login`. |
| Middleware.HandleDependsOnPathAndToken | src/middleware.ts:11-23 | The decision depends only on the path and the `auth-token` cookie. |
| Middleware.LoginPageReachable | src/middleware.ts:12 | The login page itself is never redirected. |
| LoginActions.Login | src/app/login/actions.ts:9-31 | A missing or empty password setting gives the configuration error and sets no cookie. The right password sets `auth-token=authenticated` for one week. A wrong one gives "Invalid password." and sets no cookie. |
| LoginActions.Logout | src/app/login/actions.ts:33-37 | Logout deletes `auth-token`, keeps every other cookie, and redirects to `/login`. |
| LoginActions.LoginOpensGate | src/app/login/actions.ts:17-27 | After a successful login the gate lets every path through. |
| LoginActions.FailedLoginKeepsGate | src/app/login/actions.ts:12-30 | A failed login leaves every gate decision as it was. |
| LoginActions.LogoutClosesGate | src/app/login/actions.ts:33-37 | After logout every gated path redirects to `/login`. |
| PdfProcessor.ChooseFile | src/components/pdf-processor-client.tsx:48-71 | A PDF of at most 10 MiB is kept with its name. Anything else, or no file, clears both file and name. Nothing else changes. |
| PdfProcessor.SizeLimitBoundary | src/components/pdf-processor-client.tsx:58 | Exactly 10485760 bytes is accepted and one byte more is not. |
| PdfProcessor.SelectTab | src/components/pdf-processor-client.tsx:30-37 | Switching tabs clears file, name, URL and error, but keeps the extracted rows. |
| PdfProcessor.SwitchingTabDisablesProcessing | src/components/pdf-processor-client.tsx:223 | Right after a tab switch the Process button is disabled. |
| PdfProcessor.EditUrl | src/components/pdf-processor-client.tsx:209 | Definition of typing in the URL field. `HandlersPreserveConsistency` proves that it keeps the state consistent. |
| PdfProcessor.CanProcess | src/components/pdf-processor-client.tsx:223 | Definition of when the Process button is enabled. `EnabledMeansInput` and `SwitchingTabDisablesProcessing` state its consequences. |
| PdfProcessor.SelectInput | src/components/pdf-processor-client.tsx:81-102 | Definition of input selection. `SelectInputSpec` states which input is sent. |
| PdfProcessor.SelectInputSpec | src/components/pdf-processor-client.tsx:81-102 | The upload tab sends the file's data URI. The URL tab sends the trimmed URL exactly when it starts with the PDF data-URI prefix, `http://` or `https://`. A missing input sends nothing. |
| PdfProcessor.EnabledMeansInput | src/components/pdf-processor-client.tsx:223 | An enabled Process button never leads to "No PDF Provided". |
| PdfProcessor.ItemRows | src/components/pdf-processor-client.tsx:137 | An array without `null` becomes one row per element, in order: an object's own properties, or no properties for a primitive. |
| PdfProcessor.ClassifyReply | src/components/pdf-processor-client.tsx:114-139 | A resolved reply yields rows or an error, never both and never neither. This is the corrected check (see Findings): it also rejects an array holding `null`. |
| PdfProcessor.ClassifyReplySpec | src/components/pdf-processor-client.tsx:114-139 | Invalid JSON and a non-array each give their error. A non-object element 0, or a `null` element anywhere, gives the bad-items error. An empty array gives zero rows. Otherwise the rows are the elements, a primitive giving an empty row, and no element's property read throws. |
| PdfProcessor.ClassifyReplyAsWritten | src/components/pdf-processor-client.tsx:126-139 | As written: a reply yields the parsed array or an error, never both. An accepted array is kept whole, and its element 0, if any, is an object. |
| PdfProcessor.OnlyFirstItemChecked | src/components/pdf-processor-client.tsx:132 | As written, only element 0 decides whether the array is accepted. |
| PdfProcessor.LaterNullAccepted | src/components/pdf-processor-client.tsx:132-137 | As written, `[{"a": 1}, null]` is accepted although reading a column of its `null` element throws. The corrected check rejects it with the bad-items error. |
| PdfProcessor.LaterPrimitiveAccepted | src/components/pdf-processor-client.tsx:132-137 | `[{"a": 1}, 5]` is accepted by both checks, and the number becomes a row with no properties, which reads `''` in every column. |
| PdfProcessor.CorrectionOnlyAffectsLaterItems | src/components/pdf-processor-client.tsx:126-139 | The corrected and as-written checks give different errors exactly when element 0 is an object and some later element is `null`. Whatever the corrected check accepts, the as-written one accepts too. |
| PdfProcessor.ClassifyError | src/components/pdf-processor-client.tsx:143-147 | A message containing `DEADLINE_EXCEEDED` or `timeout` gives the timeout text. Otherwise `INVALID_ARGUMENT` gives the invalid-input text. Otherwise the message itself is shown, or the unknown-error text when it is empty. |
| PdfProcessor.TimeoutTakesPrecedence | src/components/pdf-processor-client.tsx:143-146 | The timeout check wins over the invalid-argument check. |
| PdfProcessor.Begin | src/components/pdf-processor-client.tsx:74-76 | A submission starts loading and clears error and rows, changing nothing else. |
| PdfProcessor.Process | src/components/pdf-processor-client.tsx:73-154 | Definition of `handleProcessPdf` as one step from the input read and the reply. It classifies the reply with the corrected `ClassifyReply` (see Findings). `ProcessSpec`, `ProcessReplacesData` and `ProcessPreservesConsistency` state its effect. |
| PdfProcessor.ProcessSpec | src/components/pdf-processor-client.tsx:73-154 | On every exit loading ends and the inputs are kept. A request is made exactly when input selection produced one. A rejection shows its classified message and a reply is classified. A rejected file read shows the unknown-error text. Other early returns show neither rows nor error. |
| PdfProcessor.ProcessReplacesData | src/components/pdf-processor-client.tsx:76 | A submission discards the previous rows; the only rows afterwards come from the new reply. |
| PdfProcessor.BaseFileName | src/components/pdf-processor-client.tsx:158-162 | Definition of the export's base name. `BaseFileNameSpec` characterises it without `split`/`join`. |
| PdfProcessor.BaseFileNameSpec | src/components/pdf-processor-client.tsx:158-162 | Upload: the name before its last dot. URL: the last path segment before its last dot, or `url_extracted_data` when that is empty. Otherwise `extracted_data`. |
| PdfProcessor.UploadWithoutExtension | src/components/pdf-processor-client.tsx:158-159 | An uploaded name with no dot exports as the bare name `.csv`. |
| PdfProcessor.Export | src/components/pdf-processor-client.tsx:156-171 | Definition of `handleDownloadCsv`. `ExportSpec` and `DownloadButtonMatchesGuard` state its effect. |
| PdfProcessor.ExportSpec | src/components/pdf-processor-client.tsx:156-171 | A download happens exactly when there are rows. It is named base name + `.csv`, and its text is `convertToCSV` of the rows. When the first row has a key, the text reads back as the header and, for each row, its cell text under each key. When it has none, the text is one line feed per row. |
| PdfProcessor.DownloadButtonMatchesGuard | src/components/pdf-processor-client.tsx:260 | The Download button is enabled exactly when pressing it downloads. |
| PdfProcessor.Panels | src/components/pdf-processor-client.tsx:236-290 | Definition of which panels are shown below the form. `OnePanelAtATime` and `OnlySpinnerWhileLoading` state its consequences. |
| PdfProcessor.OnePanelAtATime | src/components/pdf-processor-client.tsx:236-290 | In a consistent state exactly one panel is shown: the spinner while loading, otherwise the error, else the result, else the placeholder. |
| PdfProcessor.OnlySpinnerWhileLoading | src/components/pdf-processor-client.tsx:236-290 | While a submission runs, the spinner is the only panel: no error, result or placeholder. |
| PdfProcessor.InitialConsistent | src/components/pdf-processor-client.tsx:19-26 | The initial state is consistent, and the Process button starts disabled. |
| PdfProcessor.HandlersPreserveConsistency | src/components/pdf-processor-client.tsx:48-71 | Choosing a file, typing a URL and switching tabs keep three facts: the file name is the chosen file's, a kept file passed validation, and error and rows are never set together. |
| PdfProcessor.ProcessPreservesConsistency | src/components/pdf-processor-client.tsx:73-154 | A submission keeps the same three facts, whatever input it reads and whatever the service replies. |
| PdfCutter.DecimalRoundTrip | public/scripts/pdf_cutter.py:18 | The file number's decimal text reads back as the number. |
| PdfCutter.FileNamesDistinct | public/scripts/pdf_cutter.py:18 | Different file numbers give different file names, so no part overwrites another. |
| PdfCutter.SavedMessage | public/scripts/pdf_cutter.py:22 | Definition of the progress line. `SavedMessageRange` states the page numbers it shows. |
| PdfCutter.FileCount | public/scripts/pdf_cutter.py:11-23 | Definition of the number of parts, ⌈total / n⌉. `FileCountBrackets` characterises it. |
| PdfCutter.ChunkAt | public/scripts/pdf_cutter.py:11-18 | Definition of part k+1. `ChunkAtSpec` states its pages and name. |
| PdfCutter.ChunkAtSpec | public/scripts/pdf_cutter.py:11-18 | Part k+1 holds pages k*n up to min((k+1)*n, total) and is named `k+1.pdf`. |
| PdfCutter.SplitPdf | public/scripts/pdf_cutter.py:6-23 | The loop writes exactly the parts of `Cuts(total, n)`: one per file number up to ⌈total / n⌉, part k being `ChunkAt(k)`. |
| PdfCutter.FileCountBrackets | public/scripts/pdf_cutter.py:11-23 | The count c = ⌈total / n⌉ is the fewest whose pages reach the total (c·n − n < total ≤ c·n), and no other count does so. |
| PdfCutter.Cuts | public/scripts/pdf_cutter.py:11-23 | Reference definition of the whole list of parts. `SplitPdf` proves the loop writes exactly it, and `CutsCoverPages`, `CutsEmpty` and `CutsSizes` describe it. |
| PdfCutter.CutsCoverPages | public/scripts/pdf_cutter.py:11-18 | Together the parts hold every page once, in order. |
| PdfCutter.CutsEmpty | public/scripts/pdf_cutter.py:11-13 | There are no parts exactly when the document has no pages. |
| PdfCutter.CutsSizes | public/scripts/pdf_cutter.py:11-13 | Every part holds 1 to n pages, and all but the last exactly n. |
| PdfCutter.SavedMessageRange | public/scripts/pdf_cutter.py:22 | The progress line shows the 1-based numbers of the part's first and last page. |
| PdfCutter.PagesPerFile | public/scripts/pdf_cutter.py:42-49 | Pages per file is at least 1, is 5 when the dialog is cancelled, and otherwise is the answer. |
| PdfCutter.RunCutter | public/scripts/pdf_cutter.py:26-52 | No file chosen gives no parts. Otherwise the parts are `Cuts` with the chosen pages per file, 5 by default. |
| PdfCropper.OnMouse | public/scripts/pdf_cropper.py:14-25 | Button-down sets the points to exactly the click point and sets `cropping`. Button-up keeps the recorded points, appends exactly its own point and clears `cropping`. Other events change nothing. |
| PdfCropper.Replay | public/scripts/pdf_cropper.py:14-23 | Definition of running the mouse callback over a sequence of events. `ReplayAfterPress` and `ReplayWithoutPress` characterise its result. |
| PdfCropper.ReplayAfterPress | public/scripts/pdf_cropper.py:14-23 | After a press followed by events with no further press, the points are the press point followed by the release points since, whatever came before. `cropping` holds exactly when no release has happened since the press. |
| PdfCropper.ReplayWithoutPress | public/scripts/pdf_cropper.py:14-23 | With no press at all, the points are exactly the release points and `cropping` stays false. |
| PdfCropper.DragRecords | public/scripts/pdf_cropper.py:17-23 | A press, moves, then a release records exactly the two points, whatever came before. |
| PdfCropper.ExtraReleaseDiscards | public/scripts/pdf_cropper.py:21-22 | A second release without a new press leaves three points, and no rectangle. |
| PdfCropper.SelectionLoop | public/scripts/pdf_cropper.py:32-37 | The loop ends exactly at the first key whose low byte is 13 or 27. The mouse state is the one produced by the events before it. |
| PdfCropper.Normalize | public/scripts/pdf_cropper.py:42-44 | x1 ≤ x2 and y1 ≤ y2, and each coordinate is taken from one of the two points. |
| PdfCropper.NormalizeSymmetric | public/scripts/pdf_cropper.py:44 | Swapping the two points gives the same rectangle. |
| PdfCropper.NormalizeContains | public/scripts/pdf_cropper.py:44 | Both points lie inside the rectangle, and a normalised rectangle normalises to itself. |
| PdfCropper.CropArea | public/scripts/pdf_cropper.py:41-46 | A rectangle is returned exactly when two points were recorded. |
| PdfCropper.SelectCropArea | public/scripts/pdf_cropper.py:7-46 | The loop returns exactly when an Enter or Esc key is among the inputs, and then gives the rectangle of the points recorded before the first such key. Without such a key it is still waiting and returns nothing. |

## Left out

- The generative-model call is left out because it is a foreign, nondeterministic service. It is a parameter of `PdfProcessor.Process`: a resolved reply or a rejection message.
- Reading the file as a data URI (`fileToDataUri`) is an input: the data URI, or `None` when the read is rejected. The rejection is the reader's error event, which has no `message`, so the page shows the unknown-error text (`src/components/pdf-processor-client.tsx:43` and `:147`).
- PdfProcessor.ItemRows: a primitive element is read as a row with no properties. That is exact for numbers and booleans, apart from inherited members, as for `RowCells`. A string element, though, reads a character for an index key and its length for the key `length`.
- `JSON.parse` and `JSON.stringify` are library code. A parsed reply is an abstract `Parsed` value, and an object cell carries its `JSON.stringify` and `String` texts as data (`CsvUtils.Value`).
- CsvUtils.Keys: `Object.keys` puts integer-like keys first in ascending order. The model takes the row's field order as given.
- CsvUtils.ConvertToCsv: a `null` or absent argument (`!data`) is not modelled, because the argument is a sequence.
- CsvUtils.RowCells: reads only the row's own properties. In JavaScript `row[header]` also finds members inherited from `Object.prototype`. For a first-row key such as `toString`, `constructor` or `valueOf` that a later row lacks, the source writes `String` of the inherited function, and `{}` for `__proto__`. The model writes `''`, because a row is its list of own fields.
- DataTable.Render: uses the same own-property read as `RowCells`, so for the inherited-member keys above it shows `''` where the source shows the inherited member's text.
- PdfProcessor.ProcessSpec: `Process` is one atomic step, but `handleProcessPdf` awaits twice (`src/components/pdf-processor-client.tsx:82` and `:111`). While it waits, only the inputs are disabled (`:196` and `:211`), not the tabs. A tab switch during a request runs the reset effect (`:30-37`), and the reply then lands on the cleared tab. The model does not interleave other handlers with a running submission, so "the inputs are kept" holds only without such a switch.
- DataTable.ToUpper: only ASCII `\w` characters are upper-cased, because `\w` matches nothing else. Other characters pass through unchanged, as in the source.
- Toasts, the Blob/object-URL/link mechanics of `downloadCSV`, the `setTimeout` clean-up and clearing the file input's value are browser I/O.
- The `config.matcher` regular expression of the middleware is applied by the framework. `Middleware.Handle` models every request that reaches `middleware`.
- The redirect target is modelled as the path `/login`; the origin it is resolved against is left out.
- Cookie attributes are not modelled: `httpOnly`, `secure`, `sameSite` and `path`. The cookie's expiry in time is not modelled either; only its `maxAge` is recorded.
- The configured password is an input (`None` when `APP_PASSWORD` is unset).
- PdfCutter.SplitPdf: a pages-per-file of 0 or less is excluded. The dialog's `minvalue=1` prevents it, and `range` with step 0 raises.
- PdfCutter.SplitPdf: PyPDF2 reading and writing, tkinter dialogs and printing are I/O. Pages are their indices, and a part is its name and page range.
- The cropper's rendering is I/O: PyMuPDF rendering the first page, setting the crop box and saving, plus cv2 windows and drawing.
- PdfCropper.OnMouse: a release with no recorded press raises an `IndexError` inside the callback when `ref_point[1]` is evaluated as an argument of `cv2.rectangle` (`public/scripts/pdf_cropper.py:24`), after the point has been appended. The model keeps the appended point and leaves the drawing out.
- The points-to-pixels scaling between the selection and the crop box is left out; the source does not handle it either.
- The UI-only pages are not part of this model: the home page, the scripts page and the login page.

## Findings

| source | as written | input that shows it | evidently intended | confidence | as-written member | corrected member |
|---|---|---|---|---|---|---|
| src/components/pdf-processor-client.tsx:132 | Only element 0 of the parsed array is checked for being a non-null object, and the whole array then becomes the table's data. | The reply `[{"a": 1}, null]`: it is accepted, and `row[header]` on the `null` element throws a `TypeError`, both while the table renders (`src/components/data-table.tsx:52`) and inside `convertToCSV` (`src/lib/csv-utils.ts:22`). | Every element is checked that a column read would throw on: an array holding `null` gets the "not structured correctly" error. Later numbers, booleans and strings are still accepted, as in the source. | medium, not executed | PdfProcessor.ClassifyReplyAsWritten, PdfProcessor.LaterNullAccepted | PdfProcessor.ClassifyReply, PdfProcessor.ClassifyReplySpec |
