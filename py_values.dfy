/**
 * The Python reading of values produced by json.loads: truthiness,
 * `x or default`, and str() of a value.
 */
module PyValues {
  import opened Wrappers
  import opened Text
  import opened Json
  import JsValues

  /** bool(x); a missing key (`d.get(k)` is None) is falsy. */
  predicate Truthy(v: Option<Json>) {
    match v
    case None => false
    case Some(j) =>
      match j
      case JNull => false
      case JBool(b) => b
      case JInt(i) => i != 0
      case JFloat(r) => r != 0.0
      case JStr(s) => s != ""
      case JArr(xs) => xs != []
      case JObj(ms) => ms != []
  }

  /** str(x): exact for None, booleans, integers and strings. */
  function Str(j: Json): string
    decreases j
  {
    match j
    case JStr(s) => s
    case _ => Repr(j)
  }

  /**
   * repr(x). Floats are written with at most six fraction digits and
   * strings are quoted without escaping.
   */
  function Repr(j: Json): string
    decreases j
  {
    match j
    case JNull => "None"
    case JBool(b) => if b then "True" else "False"
    case JInt(i) => IntToDecimal(i)
    case JFloat(r) =>
      var s := JsValues.NumberToString(r);
      if r == r.Floor as real then s + ".0" else s
    case JStr(s) => "'" + s + "'"
    case JArr(xs) => "[" + ReprItems(xs) + "]"
    case JObj(ms) => "{" + ReprMembers(ms) + "}"
  }

  function ReprItems(xs: seq<Json>): string
    decreases xs
  {
    if xs == [] then ""
    else if |xs| == 1 then Repr(xs[0])
    else Repr(xs[0]) + ", " + ReprItems(xs[1..])
  }

  function ReprMembers(ms: seq<(string, Json)>): string
    decreases ms
  {
    if ms == [] then ""
    else
      assert ms[0].1 < ms[0];
      var one := "'" + ms[0].0 + "': " + Repr(ms[0].1);
      if |ms| == 1 then one else one + ", " + ReprMembers(ms[1..])
  }

  /** A non-empty str() for every truthy value. */
  lemma {:induction false} StrOfTruthyNonEmpty(j: Json)
    requires Truthy(Some(j))
    ensures Str(j) != ""
  {
    if j.JInt? && j.i < 0 {
      assert Str(j) == "-" + NatToDecimal(-j.i);
    }
  }

  /** str() of a string is the string itself, of None "None", and of an integer its decimal digits. */
  lemma StrSpec(j: Json)
    ensures j.JStr? ==> Str(j) == j.s
    ensures j == JNull ==> Str(j) == "None"
    ensures j.JInt? ==> Str(j) == IntToDecimal(j.i)
  {
  }

  /**
   * repr() quotes a string, writes the booleans as True and False, and
   * writes an integer-valued float as its digits followed by ".0".
   */
  lemma ReprSpec(j: Json)
    ensures j.JStr? ==> Repr(j) == "'" + j.s + "'"
    ensures j.JBool? ==> Repr(j) == if j.b then "True" else "False"
    ensures j.JFloat? && j.r == j.r.Floor as real ==> Repr(j) == IntToDecimal(j.r.Floor) + ".0"
  {
  }
}
