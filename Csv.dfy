/**
 * What `csv.writer` with the default "excel" dialect writes into the
 * `io.StringIO` buffer: fields separated by ",", a field quoted when it holds
 * a comma, a double quote, CR or LF, a double quote inside a quoted field
 * doubled, every record ended by CRLF (section 2 of RFC 4180). A record made
 * of one empty field is written as `""` so that it differs from an empty
 * record.
 *
 * A reader for this format is given as well; reading back what was written
 * yields the rows that were written.
 */
module Csv {
  import opened Wrappers
  import Text

  /** Characters that force a field to be quoted. */
  predicate Special(c: char)
  {
    c == ',' || c == '"' || c == '\r' || c == '\n'
  }

  predicate NeedsQuotes(f: string)
  {
    exists i :: 0 <= i < |f| && Special(f[i])
  }

  /** Doubles every double quote. */
  function Escape(f: string): string
  {
    if |f| == 0 then ""
    else (if f[0] == '"' then "\"\"" else [f[0]]) + Escape(f[1..])
  }

  /** One field as written. */
  function Field(f: string): string
  {
    if NeedsQuotes(f) then "\"" + Escape(f) + "\"" else f
  }

  /** The fields of a row, separated by commas. */
  function Fields(row: seq<string>): string
  {
    if |row| == 0 then ""
    else if |row| == 1 then Field(row[0])
    else Field(row[0]) + "," + Fields(row[1..])
  }

  /** `writer.writerow(row)`. */
  function Record(row: seq<string>): string
  {
    (if row == [""] then "\"\"" else Fields(row)) + "\r\n"
  }

  /** The buffer after writing `rows` one after another. */
  function Serialize(rows: seq<seq<string>>): string
  {
    if |rows| == 0 then "" else Record(rows[0]) + Serialize(rows[1..])
  }

  // ---------------------------------------------------------------------
  // Reading the format back
  // ---------------------------------------------------------------------

  /** An unquoted field: everything up to the next comma or CR. */
  function ReadPlain(s: string): (r: (string, string))
    ensures r.0 + r.1 == s
  {
    if |s| == 0 || s[0] == ',' || s[0] == '\r' then ("", s)
    else
      var (f, rest) := ReadPlain(s[1..]);
      assert [s[0]] + (f + rest) == s;
      ([s[0]] + f, rest)
  }

  /** The inside of a quoted field, after its opening quote, up to and
      including the closing quote; `""` stands for one quote. */
  function ReadQuoted(s: string): (r: Option<(string, string)>)
    ensures r.Some? ==> |r.value.1| < |s|
    decreases |s|
  {
    if |s| == 0 then None
    else if s[0] == '"' then
      if |s| >= 2 && s[1] == '"' then
        match ReadQuoted(s[2..])
        case None => None
        case Some((f, rest)) => Some(("\"" + f, rest))
      else Some(("", s[1..]))
    else
      match ReadQuoted(s[1..])
      case None => None
      case Some((f, rest)) => Some(([s[0]] + f, rest))
  }

  function ReadField(s: string): (r: Option<(string, string)>)
    ensures r.Some? ==> |r.value.1| <= |s|
  {
    if |s| > 0 && s[0] == '"' then ReadQuoted(s[1..]) else Some(ReadPlain(s))
  }

  /** The fields of one record and the text after its CRLF. */
  function ReadFields(s: string): (r: Option<(seq<string>, string)>)
    ensures r.Some? ==> |r.value.1| < |s|
    decreases |s|
  {
    match ReadField(s)
    case None => None
    case Some((f, rest)) =>
      if |rest| >= 1 && rest[0] == ',' then
        match ReadFields(rest[1..])
        case None => None
        case Some((fs, after)) => Some(([f] + fs, after))
      else if |rest| >= 2 && rest[0] == '\r' && rest[1] == '\n' then Some(([f], rest[2..]))
      else None
  }

  /** One record; a bare CRLF is the empty record. */
  function ReadRecord(s: string): (r: Option<(seq<string>, string)>)
    ensures r.Some? ==> |r.value.1| < |s|
  {
    if |s| >= 2 && s[0] == '\r' && s[1] == '\n' then Some(([], s[2..])) else ReadFields(s)
  }

  /** The records of a whole buffer. */
  function Parse(s: string): Option<seq<seq<string>>>
    decreases |s|
  {
    if |s| == 0 then Some([])
    else
      match ReadRecord(s)
      case None => None
      case Some((row, rest)) =>
        match Parse(rest)
        case None => None
        case Some(rows) => Some([row] + rows)
  }

  // ---------------------------------------------------------------------
  // Reading back what was written
  // ---------------------------------------------------------------------

  predicate EndsField(rest: string)
  {
    |rest| > 0 && (rest[0] == ',' || rest[0] == '\r')
  }

  lemma {:induction false} ReadPlainField(f: string, rest: string)
    requires !NeedsQuotes(f) && EndsField(rest)
    ensures ReadPlain(f + rest) == (f, rest)
    decreases |f|
  {
    if |f| == 0 {
      assert f + rest == rest;
    } else {
      assert !Special(f[0]);
      assert !NeedsQuotes(f[1..]) by {
        forall i | 0 <= i < |f[1..]| ensures !Special(f[1..][i]) { assert f[1..][i] == f[i + 1]; }
      }
      ReadPlainField(f[1..], rest);
      assert (f + rest)[1..] == f[1..] + rest;
      assert [f[0]] + f[1..] == f;
    }
  }

  lemma {:induction false} ReadQuotedField(f: string, rest: string)
    requires |rest| == 0 || rest[0] != '"'
    ensures ReadQuoted(Escape(f) + "\"" + rest) == Some((f, rest))
    decreases |f|
  {
    var s := Escape(f) + "\"" + rest;
    if |f| == 0 {
      assert s == "\"" + rest;
      assert s[1..] == rest;
    } else {
      ReadQuotedField(f[1..], rest);
      var tail := Escape(f[1..]) + "\"" + rest;
      if f[0] == '"' {
        assert s == "\"\"" + tail;
        assert s[2..] == tail;
      } else {
        assert s == [f[0]] + tail;
        assert s[1..] == tail;
      }
      assert [f[0]] + f[1..] == f;
    }
  }

  lemma ReadWrittenField(f: string, rest: string)
    requires EndsField(rest)
    ensures ReadField(Field(f) + rest) == Some((f, rest))
  {
    if NeedsQuotes(f) {
      var s := "\"" + Escape(f) + "\"" + rest;
      assert s[1..] == Escape(f) + "\"" + rest;
      ReadQuotedField(f, rest);
    } else {
      ReadPlainField(f, rest);
      if |f| > 0 {
        assert !Special(f[0]);
      }
    }
  }

  lemma {:induction false} ReadWrittenFields(row: seq<string>, rest: string)
    requires |row| >= 1
    ensures ReadFields(Fields(row) + "\r\n" + rest) == Some((row, rest))
    decreases |row|
  {
    var s := Fields(row) + "\r\n" + rest;
    if |row| == 1 {
      ReadWrittenField(row[0], "\r\n" + rest);
      var tail := "\r\n" + rest;
      assert s == Field(row[0]) + tail;
      assert tail[0] == '\r' && tail[1] == '\n' && tail[2..] == rest;
      assert [row[0]] == row;
    } else {
      var more := Fields(row[1..]) + "\r\n" + rest;
      ReadWrittenField(row[0], "," + more);
      assert s == Field(row[0]) + ("," + more);
      assert ("," + more)[1..] == more;
      ReadWrittenFields(row[1..], rest);
      assert [row[0]] + row[1..] == row;
    }
  }

  /** Written fields never start a CR, so a written record is not taken for an empty one. */
  lemma FieldsStart(row: seq<string>)
    requires |row| >= 1 && row != [""]
    ensures |Fields(row)| > 0 && Fields(row)[0] != '\r'
  {
    var f := Field(row[0]);
    if NeedsQuotes(row[0]) {
      assert f[0] == '"';
    } else if |row[0]| > 0 {
      assert f[0] == row[0][0] && !Special(row[0][0]);
    } else {
      assert |row| > 1;
      assert Fields(row) == "" + "," + Fields(row[1..]);
    }
  }

  lemma ReadWrittenRecord(row: seq<string>, rest: string)
    ensures ReadRecord(Record(row) + rest) == Some((row, rest))
  {
    var s := Record(row) + rest;
    if row == [] {
      assert s == "\r\n" + rest;
      assert s[2..] == rest;
    } else if row == [""] {
      assert s == "\"" + ("\"\r\n" + rest);
      assert ReadFields(s) == Some(([""], rest)) by {
        var q := "\"\r\n" + rest;
        assert s[1..] == q;
        assert q[0] == '"' && q[1] == '\r' && q[1..] == "\r\n" + rest;
        assert ReadQuoted(q) == Some(("", "\r\n" + rest));
        assert ("\r\n" + rest)[2..] == rest;
      }
    } else {
      FieldsStart(row);
      assert s == Fields(row) + "\r\n" + rest;
      ReadWrittenFields(row, rest);
    }
  }

  /** Reading the written buffer gives back exactly the rows written, in order. */
  lemma {:induction false} ParseSerialize(rows: seq<seq<string>>)
    ensures Parse(Serialize(rows)) == Some(rows)
    decreases |rows|
  {
    if |rows| > 0 {
      ReadWrittenRecord(rows[0], Serialize(rows[1..]));
      ParseSerialize(rows[1..]);
      assert [rows[0]] + rows[1..] == rows;
    }
  }

  /** Writing one more row appends its record to the buffer. */
  lemma {:induction false} SerializeAppend(rows: seq<seq<string>>, row: seq<string>)
    ensures Serialize(rows + [row]) == Serialize(rows) + Record(row)
    decreases |rows|
  {
    if |rows| == 0 {
      assert [] + [row] == [row];
    } else {
      assert (rows + [row])[1..] == rows[1..] + [row];
      SerializeAppend(rows[1..], row);
    }
  }

  /** Escaping adds exactly one character per double quote. */
  lemma {:induction false} EscapeLength(f: string)
    ensures |Escape(f)| == |f| + Text.Count(f, '"')
    decreases |f|
  {
    if |f| > 0 { EscapeLength(f[1..]); }
  }

  /** `csv.writer` over an `io.StringIO` buffer. */
  class Writer {
    /** The text written to the buffer so far. */
    var buffer: string

    constructor ()
      ensures buffer == ""
    {
      buffer := "";
    }

    /** `writer.writerow(row)`. */
    method WriteRow(row: seq<string>)
      modifies this
      ensures buffer == old(buffer) + Record(row)
    {
      buffer := buffer + Record(row);
    }

    /** `getvalue()` on the buffer. */
    method GetValue() returns (s: string)
      ensures s == buffer
    {
      s := buffer;
    }
  }
}
