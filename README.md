# JSON-to-CSV converter: conversion layer

A Dafny model of the conversion layer of `Convert_multiple_json_files.py`, a
small web tool that takes several uploaded JSON documents and exports them
combined as CSV, as a spreadsheet, or as one JSON array, with column headers
the user can edit.

What is modelled:

- **Field normaliser** (`FieldNormalizer.Normalize`, `clean_multiline_field`):
  a list is joined with `", "`, a falsy value becomes `""`, and every newline
  becomes `" | "` (the bar separator). Values are classified as `Str`, `List`, `Falsy` (null, 0,
  false, `{}`) and `Other` (a non-zero number, `true`, a non-empty object).
  Values the Python code cannot handle give an `Err`: a truthy non-string
  (`.replace` is missing, line 12) and a list with a non-string element
  (`', '.join` raises, line 11). Nothing in the source catches these.
- **Row mapper** (`RowMapper.JsonToCsvRow`, `json_to_csv_rows`): a loop over the
  headers that appends one normalised cell per header, with `""` for a missing
  key. It is proved equal to the function `MapRow`.
- **CSV assembly** (`Converters.ConvertMultipleJsonToCsv`): the uploads are
  loaded, failed parses are skipped and reported, and a `Csv.Writer` receives
  the header record and then one record per surviving document. The record
  encoding of `csv.writer` in its default "excel" dialect (section 2 of RFC
  4180) is the pure serialiser `Csv.Serialize`. A reader `Csv.Parse` is proved
  to give back exactly the rows that were written.
- **Loading** (`Converters.LoadDocuments`): the loop the three converters
  share. Each upload arrives already parsed (`Upload.parsed`; `None` stands for
  a `JSONDecodeError` or `TypeError`).
- **Spreadsheet header rule** (`Converters.RenameColumns`): the custom headers
  replace the column labels only when the counts agree. Otherwise the labels
  stay and an error is reported.
- **JSON aggregation** (`Converters.ConvertJsonToJson`): the list of parsed
  documents, in upload order.
- **Header detection and editing** (`Headers`): the defaults are the first
  upload's keys joined with `", "`. The edited text is split on `,`, each piece
  is stripped, and blank pieces are dropped. Python's `split`, `join`,
  `replace` and `strip` are modelled in `Text`.

Two points of behaviour are easy to get wrong, and the model follows the code
on both:

- The normaliser does not turn every value into a string. It raises for a
  truthy non-string and for a list with a non-string element, rather than
  stringifying them.
- The default headers come from `uploaded_files[0]` alone, not from the first
  upload that parses. When that upload fails, the headers are empty
  (`Headers.DetectHeaders`).

## Model

| member | source | states |
|---|---|---|
| FieldNormalizer.Texts | Convert_multiple_json_files.py:11 | the join succeeds exactly when every list element is a string, and then lists those strings in order |
| FieldNormalizer.NormalizedHasNoNewline | Convert_multiple_json_files.py:12 | no normalised cell contains a newline character |
| FieldNormalizer.NormalizeString | Convert_multiple_json_files.py:12 | a string normalises to its newline-separated pieces joined by the bar separator: each newline becomes exactly the bar separator, other characters are kept in order, the length grows by two per newline, and text without newlines is unchanged |
| FieldNormalizer.NormalizeStringList | Convert_multiple_json_files.py:10-12 | a list of strings normalises to the elements joined by ", ", with newlines then replaced |
| FieldNormalizer.FalsyIsEmpty | Convert_multiple_json_files.py:12 | "", [], null, 0 and false all normalise to "" |
| FieldNormalizer.NormalizeFailsIff | Convert_multiple_json_files.py:10-12 | normalisation fails exactly on a truthy non-string value (missing .replace) or on a list with a non-string element (join TypeError) |
| RowMapper.JsonToCsvRow | Convert_multiple_json_files.py:15-21 | the header loop returns exactly MapRow of the document and headers, including the first normalisation error |
| RowMapper.MapRowSpec | Convert_multiple_json_files.py:15-21 | the row succeeds exactly when every header's value normalises; it then has one cell per header, and cell i is the normalised value of header i (or of "" when missing); on failure the error is that of the first failing header |
| RowMapper.MapRowStopsAtError | Convert_multiple_json_files.py:17-19 | an exception at some header ends the whole row with that exception |
| RowMapper.MissingFieldIsEmpty | Convert_multiple_json_files.py:18 | a header the document lacks gives an empty cell |
| RowMapper.RowHasNoNewline | Convert_multiple_json_files.py:19-20 | no cell of a mapped row contains a newline |
| RowMapper.OwnKeysRow | Convert_multiple_json_files.py:15-21 | mapped under its own key order, a well-formed document yields each field's own normalised value in key order |
| Csv.ParseSerialize | Convert_multiple_json_files.py:39-44 | reading back the written CSV text gives exactly the rows written, in order (quoting, quote doubling, CRLF, and the quoted single empty field) |
| Csv.ReadWrittenRecord | Convert_multiple_json_files.py:44 | one written record reads back as the row written, whatever text follows it |
| Csv.ReadWrittenField | Convert_multiple_json_files.py:44 | a written field, quoted or not, reads back as the original field whenever a comma or CR follows it |
| Csv.EscapeLength | Convert_multiple_json_files.py:44 | escaping a field adds exactly one character per double quote it contains |
| Csv.SerializeAppend | Convert_multiple_json_files.py:44 | writing one more row appends exactly its record to the buffer |
| Csv.Writer.constructor | Convert_multiple_json_files.py:25-26 | a new writer's buffer is empty |
| Csv.Writer.WriteRow | Convert_multiple_json_files.py:39 | the buffer grows by exactly the record of the row |
| Converters.LoadDocuments | Convert_multiple_json_files.py:31-36 | returns the parsed documents and one report per failed upload, both as the specification functions Parsed and ParseReports give them |
| Converters.PositionsSpec | Convert_multiple_json_files.py:31-36 | the positions of successful (or failed) uploads are ascending and list every such upload |
| Converters.LoadInUploadOrder | Convert_multiple_json_files.py:31-36 | document k comes from the k-th upload that parsed, report k names the k-th upload that failed, and every upload is one or the other |
| Converters.ConvertMultipleJsonToCsv | Convert_multiple_json_files.py:24-47 | returns the parse reports and the CSV text of the header record followed by one record per parsed document, or the first row error |
| Converters.RowsStopAtError | Convert_multiple_json_files.py:42-44 | once a document's row raises, the whole export raises that error |
| Converters.RowsSpec | Convert_multiple_json_files.py:42-44 | the data rows succeed exactly when every document's row does; then there is one row per document, row k being document k's |
| Converters.CsvTextFailsIff | Convert_multiple_json_files.py:42-44 | the CSV export fails exactly when some parsed document's row fails |
| Converters.CsvTextRecords | Convert_multiple_json_files.py:39-44 | read back, the CSV text holds the headers verbatim as its first record and then one record per document in order, each as long as the header list |
| Converters.CsvTextNoDocuments | Convert_multiple_json_files.py:39-44 | with no parsed document the CSV text is the header record alone |
| Converters.ExportFollowsUploads | Convert_multiple_json_files.py:31-44 | record k+1 of the export is the row of the k-th upload that parsed; failed uploads add no record and one report each |
| Converters.RenameColumns | Convert_multiple_json_files.py:66-69 | the labels are the custom headers if and only if the counts are equal, and a mismatch is reported if and only if they differ (labels then unchanged); the label count always equals the column count |
| Converters.ConvertJsonToExcel | Convert_multiple_json_files.py:51-69 | parse reports then, only on a count mismatch, the header report; the sheet labels follow the rename rule over the inferred columns |
| Converters.FirstUploadDropped | Convert_multiple_json_files.py:114-115 | as written, once header detection has read the first upload, a first upload that parses is reported as failed and left out: the converters load one document fewer |
| Converters.ConvertJsonToJson | Convert_multiple_json_files.py:78-88 | the collected list is the parsed documents in upload order, one entry per upload that parsed |
| Headers.DetectedHeadersSurviveBox | Convert_multiple_json_files.py:114-132 | when the first upload parses and its keys are clean, the header box left unedited yields exactly those keys, in order, with no report |
| Headers.TokensInOrder | Convert_multiple_json_files.py:132 | header k is the stripped k-th non-blank piece: order is kept and only blank pieces are dropped |
| Headers.ParsedHeadersAreClean | Convert_multiple_json_files.py:130-132 | every custom header is non-empty, contains no comma, and has no leading or trailing whitespace |
| Headers.DefaultTextRoundTrip | Convert_multiple_json_files.py:128-132 | parsing the unedited default text gives back the detected keys when none is empty, contains a comma, or has surrounding whitespace |
| Headers.CommaKeySplits | Convert_multiple_json_files.py:128-132 | the single key "a,b" comes back from the unedited text as the two headers "a" and "b", so the comma proviso of DefaultTextRoundTrip is needed |
| Text.ReplaceIsSplitJoin | Convert_multiple_json_files.py:12 | replacing newlines equals splitting on newline and joining with the bar separator |
| Text.JoinSplit | Convert_multiple_json_files.py:130 | joining the pieces of a split with the separator gives back the text |
| Text.SplitJoin | Convert_multiple_json_files.py:128-130 | splitting the join of separator-free pieces gives back the pieces |
| Text.SplitCount | Convert_multiple_json_files.py:130 | a split yields one piece more than there are separators |
| Text.StripIsTrimmedSlice | Convert_multiple_json_files.py:132 | strip returns a slice of its input with only whitespace removed at either end, and the result neither starts nor ends with whitespace |
| Text.StripIdempotent | Convert_multiple_json_files.py:132 | stripping twice is the same as stripping once |

## Left out

- JSON parsing and serialisation (`json.load`, `json.dumps` with indent 4) and UTF-8 encoding and decoding are library calls. Each upload arrives as already parsed, and the outputs are kept as text or lists.
- An upload whose top level is not an object is not modelled. `json_data.get` (line 18) and `.keys()` (line 116) would raise AttributeError there. `Upload.parsed` holds only objects.
- Stream position is modelled only in Converters.AfterHeaderDetection. Line 115 reads the first upload to its end and nothing seeks back, so the re-reads at lines 33, 57 and 83 see empty text and raise JSONDecodeError: the first upload is reported as failed and left out of every export (see Findings). The converters themselves are modelled on the uploads as uploaded.
- Decoding and encoding errors are not modelled. `io.TextIOWrapper(..., encoding='utf-8')` at line 33 (and `json.load` at line 115) raises UnicodeDecodeError for an upload that is not valid UTF-8, and `.encode('utf-8')` at line 47 raises UnicodeEncodeError for a lone surrogate that a `"\ud800"` escape puts into a cell. Neither is caught, so the whole export aborts. `Upload.parsed` has no such third outcome, so LoadInUploadOrder's "parsed or reported" covers only uploads that decode.
- The pandas DataFrame is not modelled: neither its column inference (line 63) nor `to_excel` (line 73). The inferred labels are the parameter `inferColumns`.
- The Streamlit UI at lines 91-180 is not modelled, apart from header detection (lines 114-119) and header-box parsing (lines 128-132), which `Headers` models. This covers page layout, uploader, sidebar, format selection, download buttons, success and warning messages, the `if default_headers:` gate and the CSV preview. `st.error` becomes a `Report` in a returned list. The exception text in the message is not modelled.
- Values are classified only as far as `clean_multiline_field` tells them apart. Numbers, booleans and objects are not modelled beyond Falsy or Other.
- `Text.IsSpace` hard-codes the characters for which Python's `str.isspace` is true. Unicode tables are not modelled.
- Converters.ConvertJsonToExcel: stops at the sheet's column labels and reports. It does not produce the xlsx bytes.
- Converters.ConvertJsonToJson: stops at the list handed to `json.dumps`. It does not produce the JSON text.
- Converters.ConvertMultipleJsonToCsv: when a row raises, the model returns the error and drops the buffer already written, as the exception does. It does not model how the exception reaches the page.

## Findings

| source | as written | input that shows it | evidently intended | confidence | as-written member | corrected member |
|---|---|---|---|---|---|---|
| Convert_multiple_json_files.py:115 | `json.load(uploaded_files[0])` leaves the first upload's stream at its end; lines 33, 57 and 83 read it again without seeking back and get empty text | two valid uploads: the export holds only the second document and reports the first as failed | every upload that parses is exported, the first included | not executed | Converters.FirstUploadDropped | Converters.LoadInUploadOrder |
