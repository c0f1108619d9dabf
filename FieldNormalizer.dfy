/**
 * `clean_multiline_field`: flattens one field value into the text of a CSV cell.
 * A list is joined with ", "; a falsy value becomes ""; otherwise every
 * newline becomes " | ". Values the Python code cannot handle raise there,
 * and are an `Err` here.
 */
module FieldNormalizer {
  import opened Wrappers
  import opened Text
  import opened Json

  datatype FieldError =
    | JoinTypeError          // `', '.join(...)` met an element that is not a string
    | NoReplaceAttribute     // `.replace` called on a truthy value that is not a string

  /** The strings of a list, or None when some element is not a string. */
  function Texts(items: seq<Value>): (r: Option<seq<string>>)
    ensures r.Some? <==> forall i :: 0 <= i < |items| ==> items[i].Str?
    ensures r.Some? ==> |r.value| == |items| && forall i :: 0 <= i < |items| ==> r.value[i] == items[i].s
  {
    if |items| == 0 then Some([])
    else if !items[0].Str? then None
    else match Texts(items[1..])
      case None => None
      case Some(rest) => Some([items[0].s] + rest)
  }

  /** `text.replace("\n", " | ") if text else ""` for a string `text`. */
  function Clean(text: string): string
  {
    if text == "" then "" else ReplaceNewlines(text)
  }

  /** `clean_multiline_field(value)`. */
  function Normalize(v: Value): Result<string, FieldError>
  {
    match v
    case List(items) =>
      (match Texts(items)
       case None => Err(JoinTypeError)
       case Some(strs) => Ok(Clean(Join(strs, ", "))))
    case Str(s) => Ok(Clean(s))
    case Falsy => Ok("")
    case Other => Err(NoReplaceAttribute)
  }

  /** Python truthiness of a value. */
  predicate IsFalsy(v: Value)
  {
    v == Falsy || v == Str("") || v == List([])
  }

  /** A cell never contains a raw newline. */
  lemma NormalizedHasNoNewline(v: Value)
    requires Normalize(v).Ok?
    ensures '\n' !in Normalize(v).value
  {
    match v
    case Str(s) => ReplaceLeavesNoNewline(s);
    case List(items) => ReplaceLeavesNoNewline(Join(Texts(items).value, ", "));
    case Falsy =>
  }

  /** A string: every newline becomes exactly " | ", every other character is
      kept in order (stated through the split/join definition of replace). */
  lemma NormalizeString(s: string)
    ensures Normalize(Str(s)) == Ok(Join(Split(s, '\n'), " | "))
    ensures |Normalize(Str(s)).value| == |s| + 2 * Count(s, '\n')
    ensures '\n' !in s ==> Normalize(Str(s)) == Ok(s)
  {
    ReplaceIsSplitJoin(s);
    ReplaceLength(s);
    if '\n' !in s { ReplaceKeepsPlainText(s); }
  }

  /** A list of strings: the elements joined with ", ", then newlines replaced. */
  lemma NormalizeStringList(strs: seq<string>)
    ensures Normalize(List(seq(|strs|, i requires 0 <= i < |strs| => Str(strs[i]))))
         == Ok(Join(Split(Join(strs, ", "), '\n'), " | "))
  {
    var items := seq(|strs|, i requires 0 <= i < |strs| => Str(strs[i]));
    assert Texts(items).value == strs;
    ReplaceIsSplitJoin(Join(strs, ", "));
  }

  /** Every falsy value becomes the empty cell. */
  lemma FalsyIsEmpty(v: Value)
    requires IsFalsy(v)
    ensures Normalize(v) == Ok("")
  {
  }

  /** The field normaliser fails exactly on a truthy non-string scalar or
      object, and on a list holding something other than a string. */
  lemma NormalizeFailsIff(v: Value)
    ensures Normalize(v).Err? <==>
              (v.Other? || (v.List? && exists i :: 0 <= i < |v.items| && !v.items[i].Str?))
    ensures Normalize(v) == Err(NoReplaceAttribute) <==> v.Other?
  {
  }
}
