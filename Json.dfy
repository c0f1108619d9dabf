/**
 * Parsed JSON as the converter sees it. Parsing itself (`json.load`) is
 * not modelled: each upload arrives already parsed, or marked as failed.
 */
module Json {
  import opened Wrappers

  /**
   * A field value, classified by how `clean_multiline_field` treats it:
   *  - Str:   a JSON string (the empty string is falsy in Python);
   *  - List:  a JSON array;
   *  - Falsy: any other falsy value: null, 0, 0.0, false, {};
   *  - Other: any other truthy value: a non-zero number, true, a non-empty object.
   */
  datatype Value = Str(s: string) | List(items: seq<Value>) | Falsy | Other

  /** A top-level JSON object: its key order (as `dict.keys()` yields it) and its fields. */
  datatype Document = Document(keys: seq<string>, fields: map<string, Value>)

  /** Keys are listed once each, and exactly the keys of the fields. */
  predicate WellFormed(d: Document)
  {
    && (forall i, j :: 0 <= i < j < |d.keys| ==> d.keys[i] != d.keys[j])
    && d.fields.Keys == set i | 0 <= i < |d.keys| :: d.keys[i]
  }

  /** One uploaded file: its name and the outcome of parsing it (None: a JSONDecodeError or TypeError). */
  datatype Upload = Upload(name: string, parsed: Option<Document>)

  /** A message shown with `st.error`. */
  datatype Report =
    | ParseFailed(file: string)   // "Error processing file <name>: <e>"
    | HeaderCountMismatch         // "Number of custom headers must match the number of JSON fields."

  /** `json_data.get(column, "")`. */
  function Get(d: Document, column: string): Value
  {
    if column in d.fields then d.fields[column] else Str("")
  }
}
