/**
 * The three `convert_*` functions: each loads the uploads, skipping and
 * reporting those that fail to parse, then builds its output from the
 * documents that survived, in upload order.
 */
module Converters {
  import opened Wrappers
  import opened Json
  import opened FieldNormalizer
  import opened RowMapper
  import Csv

  // ---------------------------------------------------------------------
  // Loading
  // ---------------------------------------------------------------------

  /** The documents of the uploads that parsed, in upload order. */
  function Parsed(files: seq<Upload>): seq<Document>
  {
    if |files| == 0 then []
    else
      var last := files[|files| - 1];
      Parsed(files[..|files| - 1]) + (if last.parsed.Some? then [last.parsed.value] else [])
  }

  /** One report per upload that failed to parse, in upload order. */
  function ParseReports(files: seq<Upload>): seq<Report>
  {
    if |files| == 0 then []
    else
      var last := files[|files| - 1];
      ParseReports(files[..|files| - 1]) + (if last.parsed.None? then [ParseFailed(last.name)] else [])
  }

  /** The positions of the uploads that parsed (`ok`) or failed (`!ok`), ascending. */
  function Positions(files: seq<Upload>, ok: bool): seq<nat>
  {
    if |files| == 0 then []
    else
      var n := |files| - 1;
      Positions(files[..n], ok) + (if files[n].parsed.Some? == ok then [n] else [])
  }

  /** The loop shared by the three converters: `json.load` each upload, append
      what parsed to `json_data_list`, `st.error` for what did not. */
  method LoadDocuments(files: seq<Upload>) returns (docs: seq<Document>, reports: seq<Report>)
    ensures docs == Parsed(files)
    ensures reports == ParseReports(files)
  {
    docs, reports := [], [];
    var i := 0;
    while i < |files|
      invariant 0 <= i <= |files|
      invariant docs == Parsed(files[..i])
      invariant reports == ParseReports(files[..i])
    {
      assert files[..i + 1][..i] == files[..i];
      match files[i].parsed {
        case Some(d) =>
          docs := docs + [d];
        case None =>
          reports := reports + [ParseFailed(files[i].name)];
      }
      i := i + 1;
    }
    assert files[..i] == files;
  }

  /** Positions list, in ascending order, exactly the uploads of the requested kind. */
  lemma {:induction false} PositionsSpec(files: seq<Upload>, ok: bool)
    ensures forall k :: 0 <= k < |Positions(files, ok)| ==>
              Positions(files, ok)[k] < |files| && files[Positions(files, ok)[k]].parsed.Some? == ok
    ensures forall k, l :: 0 <= k < l < |Positions(files, ok)| ==> Positions(files, ok)[k] < Positions(files, ok)[l]
    ensures forall i :: 0 <= i < |files| && files[i].parsed.Some? == ok ==> i in Positions(files, ok)
    decreases |files|
  {
    if |files| > 0 {
      var n := |files| - 1;
      var init := files[..n];
      PositionsSpec(init, ok);
      var p := Positions(init, ok);
      var q := Positions(files, ok);
      assert q == p + (if files[n].parsed.Some? == ok then [n] else []);
      forall k | 0 <= k < |q| ensures q[k] < |files| && files[q[k]].parsed.Some? == ok {
        if k < |p| {
          assert q[k] == p[k] && init[p[k]] == files[p[k]];
        }
      }
      forall i | 0 <= i < |files| && files[i].parsed.Some? == ok ensures i in q {
        if i < n {
          assert init[i] == files[i];
          assert i in p;
        }
      }
    }
  }

  /** Document k is the one parsed from the k-th successful upload, and report k
      names the k-th failed upload; every upload is one or the other. */
  lemma {:induction false} LoadInUploadOrder(files: seq<Upload>)
    ensures |Positions(files, true)| == |Parsed(files)|
    ensures |Positions(files, false)| == |ParseReports(files)|
    ensures |Parsed(files)| + |ParseReports(files)| == |files|
    ensures forall k :: 0 <= k < |Parsed(files)| ==>
              Positions(files, true)[k] < |files| && files[Positions(files, true)[k]].parsed == Some(Parsed(files)[k])
    ensures forall k :: 0 <= k < |ParseReports(files)| ==>
              Positions(files, false)[k] < |files| && ParseReports(files)[k] == ParseFailed(files[Positions(files, false)[k]].name)
    decreases |files|
  {
    if |files| > 0 {
      var n := |files| - 1;
      var init := files[..n];
      LoadInUploadOrder(init);
      var docs, ps := Parsed(init), Positions(init, true);
      var reps, fs := ParseReports(init), Positions(init, false);
      forall k | 0 <= k < |docs| ensures ps[k] < n && files[ps[k]].parsed == Some(docs[k]) {
        assert init[ps[k]] == files[ps[k]];
      }
      forall k | 0 <= k < |reps| ensures fs[k] < n && reps[k] == ParseFailed(files[fs[k]].name) {
        assert init[fs[k]] == files[fs[k]];
      }
    }
  }

  // ---------------------------------------------------------------------
  // convert_multiple_json_to_csv
  // ---------------------------------------------------------------------

  /** The data rows, one per document, in order; the first failing row aborts. */
  function Rows(docs: seq<Document>, headers: seq<string>): Result<seq<seq<string>>, FieldError>
  {
    if |docs| == 0 then Ok([])
    else
      match Rows(docs[..|docs| - 1], headers)
      case Err(e) => Err(e)
      case Ok(init) =>
        match MapRow(docs[|docs| - 1], headers)
        case Err(e) => Err(e)
        case Ok(row) => Ok(init + [row])
  }

  /** The CSV text: the header record, then one record per document. */
  function CsvText(docs: seq<Document>, headers: seq<string>): Result<string, FieldError>
  {
    match Rows(docs, headers)
    case Err(e) => Err(e)
    case Ok(rows) => Ok(Csv.Serialize([headers] + rows))
  }

  /** `convert_multiple_json_to_csv(json_files, custom_headers)`: the parse
      reports, and the CSV text or the error `json_to_csv_rows` raised. */
  method ConvertMultipleJsonToCsv(files: seq<Upload>, headers: seq<string>)
    returns (reports: seq<Report>, csv: Result<string, FieldError>)
    ensures reports == ParseReports(files)
    ensures csv == CsvText(Parsed(files), headers)
  {
    var docs;
    docs, reports := LoadDocuments(files);
    var writer := new Csv.Writer();
    writer.WriteRow(headers);
    ghost var rows: seq<seq<string>> := [];
    var i := 0;
    while i < |docs|
      invariant 0 <= i <= |docs|
      invariant Rows(docs[..i], headers) == Ok(rows)
      invariant writer.buffer == Csv.Serialize([headers] + rows)
    {
      var row := JsonToCsvRow(docs[i], headers);
      if row.Err? {
        RowsExtend(docs, headers, i);
        RowsStopAtError(docs, headers, i + 1);
        return reports, Err(row.error);
      }
      writer.WriteRow(row.value);
      RowsExtend(docs, headers, i);
      BufferExtend(headers, rows, row.value);
      rows := rows + [row.value];
      i := i + 1;
    }
    assert docs[..i] == docs;
    var text := writer.GetValue();
    csv := Ok(text);
  }

  /** One loop step: the rows of one more document. */
  lemma RowsExtend(docs: seq<Document>, headers: seq<string>, i: nat)
    requires i < |docs| && Rows(docs[..i], headers).Ok?
    ensures Rows(docs[..i + 1], headers) ==
              match MapRow(docs[i], headers)
              case Err(e) => Err(e)
              case Ok(row) => Ok(Rows(docs[..i], headers).value + [row])
  {
    assert docs[..i + 1][..i] == docs[..i];
  }

  /** One loop step: the buffer after one more record. */
  lemma BufferExtend(headers: seq<string>, rows: seq<seq<string>>, row: seq<string>)
    ensures Csv.Serialize([headers] + rows) + Csv.Record(row) == Csv.Serialize([headers] + (rows + [row]))
  {
    Csv.SerializeAppend([headers] + rows, row);
    assert [headers] + rows + [row] == [headers] + (rows + [row]);
  }

  /** Once the rows of a prefix fail, the export fails with the same error. */
  lemma {:induction false} RowsStopAtError(docs: seq<Document>, headers: seq<string>, n: nat)
    requires n <= |docs|
    requires Rows(docs[..n], headers).Err?
    ensures Rows(docs, headers) == Rows(docs[..n], headers)
    decreases |docs| - n
  {
    if n < |docs| {
      var m := |docs| - 1;
      assert docs[..m][..n] == docs[..n];
      RowsStopAtError(docs[..m], headers, n);
    } else {
      assert docs[..n] == docs;
    }
  }

  /** The rows succeed exactly when every document's row does; then row k is document k's. */
  lemma {:induction false} RowsSpec(docs: seq<Document>, headers: seq<string>)
    ensures Rows(docs, headers).Ok? <==> forall k :: 0 <= k < |docs| ==> MapRow(docs[k], headers).Ok?
    ensures Rows(docs, headers).Ok? ==>
              && |Rows(docs, headers).value| == |docs|
              && forall k :: 0 <= k < |docs| ==> Rows(docs, headers).value[k] == MapRow(docs[k], headers).value
    decreases |docs|
  {
    if |docs| > 0 {
      var m := |docs| - 1;
      RowsSpec(docs[..m], headers);
      assert forall k :: 0 <= k < m ==> docs[..m][k] == docs[k];
    }
  }

  /** The export fails exactly when some document's row fails. */
  lemma CsvTextFailsIff(docs: seq<Document>, headers: seq<string>)
    ensures CsvText(docs, headers).Ok? <==> forall k :: 0 <= k < |docs| ==> MapRow(docs[k], headers).Ok?
  {
    RowsSpec(docs, headers);
  }

  /** Read back, the CSV text holds the headers verbatim as its first record,
      then one record per document, in order, each as long as the header list. */
  lemma CsvTextRecords(docs: seq<Document>, headers: seq<string>) returns (records: seq<seq<string>>)
    requires CsvText(docs, headers).Ok?
    ensures Csv.Parse(CsvText(docs, headers).value) == Some(records)
    ensures |records| == |docs| + 1
    ensures records[0] == headers
    ensures forall k :: 0 <= k < |docs| ==> MapRow(docs[k], headers) == Ok(records[k + 1])
    ensures forall k :: 1 <= k < |records| ==> |records[k]| == |headers|
  {
    RowsSpec(docs, headers);
    var rows := Rows(docs, headers).value;
    records := [headers] + rows;
    Csv.ParseSerialize(records);
    assert forall k :: 0 <= k < |docs| ==> records[k + 1] == rows[k];
    forall k | 1 <= k < |records| ensures |records[k]| == |headers| {
      MapRowSpec(docs[k - 1], headers);
      assert records[k] == rows[k - 1];
    }
  }

  /** With no document left, the CSV text is the header record alone. */
  lemma CsvTextNoDocuments(headers: seq<string>)
    ensures CsvText([], headers) == Ok(Csv.Record(headers))
    ensures Csv.Parse(CsvText([], headers).value) == Some([headers])
  {
    assert Rows([], headers) == Ok([]);
    assert [headers] + [] == [headers];
    assert [headers][1..] == [];
    assert Csv.Serialize([headers]) == Csv.Record(headers) + Csv.Serialize([]);
    assert Csv.Record(headers) + "" == Csv.Record(headers);
    Csv.ParseSerialize([headers]);
  }

  /** Per upload: record k + 1 of the exported CSV is the row of the k-th
      upload that parsed; failed uploads add no record and one report each. */
  lemma ExportFollowsUploads(files: seq<Upload>, headers: seq<string>) returns (records: seq<seq<string>>)
    requires CsvText(Parsed(files), headers).Ok?
    ensures |ParseReports(files)| == |files| - |Parsed(files)|
    ensures |Positions(files, true)| == |Parsed(files)|
    ensures Csv.Parse(CsvText(Parsed(files), headers).value) == Some(records)
    ensures |records| == |Parsed(files)| + 1
    ensures records[0] == headers
    ensures forall k :: 0 <= k < |Parsed(files)| ==>
              var i := Positions(files, true)[k];
              && i < |files| && files[i].parsed.Some?
              && MapRow(files[i].parsed.value, headers) == Ok(records[k + 1])
  {
    LoadInUploadOrder(files);
    records := CsvTextRecords(Parsed(files), headers);
  }

  // ---------------------------------------------------------------------
  // The first upload after header detection
  // ---------------------------------------------------------------------

  /** The uploads as the converters receive them once header detection has
      read the first upload to its end: re-reading that stream yields no
      text, so the first upload now fails to parse. */
  function AfterHeaderDetection(files: seq<Upload>): (r: seq<Upload>)
    requires |files| > 0
    ensures |r| == |files| && r[1..] == files[1..] && r[0].name == files[0].name && r[0].parsed.None?
  {
    [Upload(files[0].name, None)] + files[1..]
  }

  /** Loading an upload in front of others adds its document or its report in front. */
  lemma LoadCons(u: Upload, rest: seq<Upload>)
    ensures Parsed([u] + rest) == (if u.parsed.Some? then [u.parsed.value] else []) + Parsed(rest)
    ensures ParseReports([u] + rest) == (if u.parsed.None? then [ParseFailed(u.name)] else []) + ParseReports(rest)
  {
    ParsedCons(u, rest);
    ReportsCons(u, rest);
  }

  lemma {:induction false} ParsedCons(u: Upload, rest: seq<Upload>)
    ensures Parsed([u] + rest) == (if u.parsed.Some? then [u.parsed.value] else []) + Parsed(rest)
    decreases |rest|
  {
    var head: seq<Document> := if u.parsed.Some? then [u.parsed.value] else [];
    if |rest| == 0 {
      assert [u] + rest == [u];
      assert [u][..0] == [];
      assert Parsed([u]) == Parsed([]) + head;
    } else {
      var n := |rest| - 1;
      var last := rest[n];
      var tail: seq<Document> := if last.parsed.Some? then [last.parsed.value] else [];
      ParsedCons(u, rest[..n]);
      assert ([u] + rest)[..|rest|] == [u] + rest[..n];
      assert ([u] + rest)[|rest|] == last;
      calc {
        Parsed([u] + rest);
        Parsed([u] + rest[..n]) + tail;
        head + Parsed(rest[..n]) + tail;
        head + (Parsed(rest[..n]) + tail);
        head + Parsed(rest);
      }
    }
  }

  lemma {:induction false} ReportsCons(u: Upload, rest: seq<Upload>)
    ensures ParseReports([u] + rest) == (if u.parsed.None? then [ParseFailed(u.name)] else []) + ParseReports(rest)
    decreases |rest|
  {
    var head: seq<Report> := if u.parsed.None? then [ParseFailed(u.name)] else [];
    if |rest| == 0 {
      assert [u] + rest == [u];
      assert [u][..0] == [];
      assert ParseReports([u]) == ParseReports([]) + head;
    } else {
      var n := |rest| - 1;
      var last := rest[n];
      var tail: seq<Report> := if last.parsed.None? then [ParseFailed(last.name)] else [];
      ReportsCons(u, rest[..n]);
      assert ([u] + rest)[..|rest|] == [u] + rest[..n];
      assert ([u] + rest)[|rest|] == last;
      calc {
        ParseReports([u] + rest);
        ParseReports([u] + rest[..n]) + tail;
        head + ParseReports(rest[..n]) + tail;
        head + (ParseReports(rest[..n]) + tail);
        head + ParseReports(rest);
      }
    }
  }

  /** As written, a first upload that parses is still reported as failed and
      is missing from every export: one document fewer than was uploaded. */
  lemma FirstUploadDropped(files: seq<Upload>)
    requires |files| > 0 && files[0].parsed.Some?
    ensures Parsed(AfterHeaderDetection(files)) == Parsed(files[1..])
    ensures Parsed(files) == [files[0].parsed.value] + Parsed(files[1..])
    ensures |Parsed(AfterHeaderDetection(files))| == |Parsed(files)| - 1
    ensures ParseReports(AfterHeaderDetection(files)) == [ParseFailed(files[0].name)] + ParseReports(files[1..])
  {
    var r := AfterHeaderDetection(files);
    LoadCons(r[0], files[1..]);
    LoadCons(files[0], files[1..]);
    assert r == [r[0]] + files[1..];
    assert files == [files[0]] + files[1..];
  }

  // ---------------------------------------------------------------------
  // convert_json_to_excel: only the header rename guard
  // ---------------------------------------------------------------------

  /** `df.columns = custom_headers` when the counts agree, else an error report
      and the labels unchanged. */
  function RenameColumns(columns: seq<string>, custom: seq<string>): (r: (seq<string>, seq<Report>))
    ensures |r.0| == |columns|
    ensures r.0 == custom <==> |custom| == |columns|
    ensures r.1 == [] <==> |custom| == |columns|
    ensures |custom| == |columns| ==> r.0 == custom && r.1 == []
    ensures |custom| != |columns| ==> r.0 == columns && r.1 == [HeaderCountMismatch]
  {
    if |custom| == |columns| then (custom, []) else (columns, [HeaderCountMismatch])
  }

  /** `convert_json_to_excel`, up to the column labels of the sheet; `inferColumns`
      stands for the column labels pandas gives the DataFrame of the documents. */
  method ConvertJsonToExcel(files: seq<Upload>, custom: seq<string>, inferColumns: seq<Document> -> seq<string>)
    returns (docs: seq<Document>, labels: seq<string>, reports: seq<Report>)
    ensures docs == Parsed(files)
    ensures |labels| == |inferColumns(docs)|
    ensures labels == (if |custom| == |inferColumns(docs)| then custom else inferColumns(docs))
    ensures reports == ParseReports(files) + (if |custom| == |inferColumns(docs)| then [] else [HeaderCountMismatch])
  {
    var parseReports;
    docs, parseReports := LoadDocuments(files);
    var columns := inferColumns(docs);
    var renamed := RenameColumns(columns, custom);
    labels := renamed.0;
    reports := parseReports + renamed.1;
  }

  // ---------------------------------------------------------------------
  // convert_json_to_json: the collected list
  // ---------------------------------------------------------------------

  /** `convert_json_to_json`, up to the list handed to `json.dumps`: one entry
      per upload that parsed, in upload order. */
  method ConvertJsonToJson(files: seq<Upload>) returns (collected: seq<Document>, reports: seq<Report>)
    ensures collected == Parsed(files)
    ensures reports == ParseReports(files)
    ensures |collected| + |reports| == |files|
  {
    collected, reports := LoadDocuments(files);
    LoadInUploadOrder(files);
  }
}
