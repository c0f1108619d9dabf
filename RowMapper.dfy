/**
 * `json_to_csv_rows`: one document becomes one positional row, one cell per
 * header, in header order.
 */
module RowMapper {
  import opened Wrappers
  import opened Json
  import opened FieldNormalizer

  /** The row for `d` under `columns`; the first column whose value cannot be
      normalised stops the mapping with that column's error. */
  function MapRow(d: Document, columns: seq<string>): Result<seq<string>, FieldError>
    decreases |columns|
  {
    if |columns| == 0 then Ok([])
    else
      match MapRow(d, columns[..|columns| - 1])
      case Err(e) => Err(e)
      case Ok(init) =>
        match Normalize(Get(d, columns[|columns| - 1]))
        case Err(e) => Err(e)
        case Ok(cell) => Ok(init + [cell])
  }

  /** The loop of `json_to_csv_rows`: append the normalised value of each
      header's field, a missing field counting as "". */
  method JsonToCsvRow(d: Document, columns: seq<string>) returns (row: Result<seq<string>, FieldError>)
    ensures row == MapRow(d, columns)
  {
    var cells: seq<string> := [];
    var i := 0;
    while i < |columns|
      invariant 0 <= i <= |columns|
      invariant MapRow(d, columns[..i]) == Ok(cells)
    {
      assert columns[..i + 1][..i] == columns[..i];
      var value := Get(d, columns[i]);
      var cell := Normalize(value);
      if cell.Err? {
        assert MapRow(d, columns[..i + 1]) == Err(cell.error);
        MapRowStopsAtError(d, columns, i + 1);
        return Err(cell.error);
      }
      cells := cells + [cell.value];
      i := i + 1;
    }
    assert columns[..i] == columns;
    row := Ok(cells);
  }

  /** Once a prefix of the headers fails, the whole row fails with the same error. */
  lemma {:induction false} MapRowStopsAtError(d: Document, columns: seq<string>, n: nat)
    requires n <= |columns|
    requires MapRow(d, columns[..n]).Err?
    ensures MapRow(d, columns) == MapRow(d, columns[..n])
    decreases |columns| - n
  {
    if n < |columns| {
      var m := |columns| - 1;
      assert columns[..m][..n] == columns[..n];
      MapRowStopsAtError(d, columns[..m], n);
      assert columns[..|columns|] == columns;
    } else {
      assert columns[..n] == columns;
    }
  }

  /** A row has one cell per header, cell i being the normalised value of
      header i's field ("" for a missing field); the mapping fails exactly when
      some header's value cannot be normalised, with the error of the first one. */
  lemma {:induction false} MapRowSpec(d: Document, columns: seq<string>)
    ensures MapRow(d, columns).Ok? <==> forall i :: 0 <= i < |columns| ==> Normalize(Get(d, columns[i])).Ok?
    ensures MapRow(d, columns).Ok? ==>
              && |MapRow(d, columns).value| == |columns|
              && forall i :: 0 <= i < |columns| ==> Normalize(Get(d, columns[i])) == Ok(MapRow(d, columns).value[i])
    ensures MapRow(d, columns).Err? ==>
              exists i :: 0 <= i < |columns| && Normalize(Get(d, columns[i])) == Err(MapRow(d, columns).error)
                          && forall j :: 0 <= j < i ==> Normalize(Get(d, columns[j])).Ok?
    decreases |columns|
  {
    if |columns| > 0 {
      var m := |columns| - 1;
      var init := columns[..m];
      MapRowSpec(d, init);
      assert forall i :: 0 <= i < m ==> init[i] == columns[i];
      match MapRow(d, init)
      case Err(e) =>
        var i :| 0 <= i < m && Normalize(Get(d, init[i])) == Err(e)
                 && forall j :: 0 <= j < i ==> Normalize(Get(d, init[j])).Ok?;
        assert Normalize(Get(d, columns[i])) == Err(e);
      case Ok(cells) =>
        match Normalize(Get(d, columns[m]))
        case Err(e) =>
          assert forall j :: 0 <= j < m ==> Normalize(Get(d, columns[j])).Ok?;
        case Ok(cell) =>
          assert MapRow(d, columns).value == cells + [cell];
    }
  }

  /** A header the document lacks yields an empty cell, not an error and not "null". */
  lemma MissingFieldIsEmpty(d: Document, columns: seq<string>, i: nat)
    requires i < |columns| && columns[i] !in d.fields
    requires MapRow(d, columns).Ok?
    ensures i < |MapRow(d, columns).value| && MapRow(d, columns).value[i] == ""
  {
    MapRowSpec(d, columns);
  }

  /** No cell of a row holds a raw newline. */
  lemma RowHasNoNewline(d: Document, columns: seq<string>, i: nat)
    requires MapRow(d, columns).Ok? && i < |columns|
    ensures i < |MapRow(d, columns).value| && '\n' !in MapRow(d, columns).value[i]
  {
    MapRowSpec(d, columns);
    NormalizedHasNoNewline(Get(d, columns[i]));
  }

  /** Mapped under its own key order (the detected default headers), a
      well-formed document gives each field's own value, in key order. */
  lemma OwnKeysRow(d: Document)
    requires WellFormed(d) && MapRow(d, d.keys).Ok?
    ensures |MapRow(d, d.keys).value| == |d.keys|
    ensures forall i :: 0 <= i < |d.keys| ==>
              d.keys[i] in d.fields && Normalize(d.fields[d.keys[i]]) == Ok(MapRow(d, d.keys).value[i])
  {
    MapRowSpec(d, d.keys);
    forall i | 0 <= i < |d.keys| ensures d.keys[i] in d.fields {
      assert d.keys[i] in set j | 0 <= j < |d.keys| :: d.keys[j];
    }
  }
}
