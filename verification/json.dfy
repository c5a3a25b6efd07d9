/** Decoded JSON documents, as `json.load` hands them to the scripts, and the
    few Python operations the scripts apply to them: truthiness, `len()`
    and reading a list of strings. */
module JsonValues {
  import opened Wrappers

  datatype Json =
    | JNull
    | JBool(b: bool)
    | JNum(n: real)
    | JStr(s: string)
    | JArr(items: seq<Json>)
    | JObj(fields: map<string, Json>)

  /** Python truthiness of the decoded value (`if x:`). */
  predicate Truthy(j: Json) {
    match j
    case JNull => false
    case JBool(b) => b
    case JNum(n) => n != 0.0
    case JStr(s) => |s| > 0
    case JArr(xs) => |xs| > 0
    case JObj(m) => |m| > 0
  }

  /** Python's `len(x)`: defined for strings, lists and dicts; `None` stands
      for the `TypeError` raised on numbers, booleans and `null`. */
  function Len(j: Json): (n: Option<nat>)
    ensures n.Some? <==> (j.JStr? || j.JArr? || j.JObj?)
    ensures n == Some(0) <==> (j.JStr? || j.JArr? || j.JObj?) && !Truthy(j)
  {
    match j
    case JStr(s) => Some(|s|)
    case JArr(xs) => Some(|xs|)
    case JObj(m) => Some(|m|)
    case _ => None
  }

  /** Whether a value can be a dict key or be looked up in a dict: lists and
      dicts are unhashable and raise `TypeError` in `x in d`. */
  predicate Hashable(j: Json) {
    !j.JArr? && !j.JObj?
  }

  /** A JSON list whose elements are all strings. */
  predicate IsStringList(j: Json) {
    j.JArr? && forall i :: 0 <= i < |j.items| ==> j.items[i].JStr?
  }

  /** The strings of a string list. */
  function Strings(j: Json): (r: seq<string>)
    requires IsStringList(j)
    ensures |r| == |j.items|
    ensures forall i :: 0 <= i < |r| ==> j.items[i] == JStr(r[i])
  {
    seq(|j.items|, i requires 0 <= i < |j.items| => j.items[i].s)
  }

  /** A list of strings as a JSON list. */
  function FromStrings(xs: seq<string>): (j: Json)
    ensures IsStringList(j) && Strings(j) == xs
  {
    var j := JArr(seq(|xs|, i requires 0 <= i < |xs| => JStr(xs[i])));
    assert Strings(j) == xs;
    j
  }
}
