/**
 * The JavaScript reading of parsed JSON: `undefined` is None,
 * truthiness, optional chaining (`v?.key`, `v?.[0]`), `??`, and the
 * String() and Number() conversions.
 */
module JsValues {
  import opened Wrappers
  import opened Text
  import opened Json

  /** The truthiness of a value (`if (v)`); undefined is falsy. */
  predicate Truthy(v: Option<Json>) {
    match v
    case None => false
    case Some(j) =>
      match j
      case JNull => false
      case JBool(b) => b
      case JInt(i) => i != 0
      case JFloat(r) => r != 0.0
      case JStr(s) => s != ""
      case JArr(_) => true
      case JObj(_) => true
  }

  /** `v?.key`: undefined unless v is an object holding key. */
  function Prop(v: Option<Json>, key: string): (r: Option<Json>)
    ensures r.Some? ==> v.Some? && v.value.JObj?
  {
    if v.Some? && v.value.JObj? then Lookup(v.value.members, key) else None
  }

  /** `v?.[0]`: the first element of an array, member "0" of an object, the first character of a string. */
  function Index0(v: Option<Json>): Option<Json> {
    match v
    case Some(JArr(xs)) => if xs == [] then None else Some(xs[0])
    case Some(JObj(ms)) => Lookup(ms, "0")
    case Some(JStr(s)) => if s == [] then None else Some(JStr([s[0]]))
    case _ => None
  }

  /** `v ?? null`, with None standing for null in the result. */
  function OrNull(v: Option<Json>): (r: Option<Json>)
    ensures r.Some? <==> v.Some? && !v.value.JNull?
    ensures r.Some? ==> r == v
  {
    if v.Some? && !v.value.JNull? then v else None
  }

  /** The characters of a digit sequence of the given length for the value d (with leading zeros). */
  function PadDigits(d: nat, width: nat): (r: string)
    ensures |r| == width
  {
    if width == 0 then "" else PadDigits(d / 10, width - 1) + [DigitChar(d % 10)]
  }

  function DropTrailingZeros(s: string): string {
    if s != [] && s[|s| - 1] == '0' then DropTrailingZeros(s[..|s| - 1]) else s
  }

  /**
   * A non-negative real written with its integer part and at most six
   * fraction digits: exact for numbers with at most six fraction digits.
   */
  function NonNegativeDecimal(r: real): (s: string)
    requires r >= 0.0
    ensures r == r.Floor as real ==> s == NatToDecimal(r.Floor)
    ensures |s| >= 1 && IsAsciiDigit(s[0])
  {
    var ip := r.Floor;
    var sixths := ((r - ip as real) * 1000000.0).Floor;
    var frac := if 0 <= sixths < 1000000 then sixths else 0;
    if frac == 0 then NatToDecimal(ip)
    else NatToDecimal(ip) + "." + DropTrailingZeros(PadDigits(frac, 6))
  }

  /**
   * JavaScript's rendering of a number: an integer is written as its
   * decimal digits, a negative number with a leading minus sign, and a
   * fraction to at most six places.
   */
  function NumberToString(r: real): (s: string)
    ensures r == r.Floor as real ==> s == IntToDecimal(r.Floor)
    ensures |s| >= 1 && (s[0] == '-' <==> r < 0.0)
  {
    if r < 0.0 then
      assert r == r.Floor as real ==> (-r).Floor == -r.Floor;
      "-" + NonNegativeDecimal(-r)
    else NonNegativeDecimal(r)
  }

  /**
   * String(v) and the `${v}` of a template literal, for a value whose
   * conversion does not throw (see ConversionThrows).
   */
  function ToString(v: Option<Json>): (r: string)
    ensures v.None? ==> r == "undefined"
    ensures v == Some(JNull) ==> r == "null"
    ensures v.Some? && v.value.JStr? ==> r == v.value.s
    ensures v.Some? && v.value.JInt? ==> r == IntToDecimal(v.value.i)
  {
    match v
    case None => "undefined"
    case Some(j) => JsonToString(j)
  }

  /**
   * Whether String(v) and Number(v) raise a TypeError. A parsed value is
   * never callable, so an object with its own "toString" member has no
   * method that yields a primitive (the inherited valueOf returns the
   * object itself); an array converts through join, so it raises when
   * one of its elements, at any depth, does.
   */
  predicate ConversionThrows(v: Option<Json>) {
    v.Some? && JsonConversionThrows(v.value)
  }

  predicate JsonConversionThrows(j: Json)
    decreases j
  {
    match j
    case JObj(ms) => Lookup(ms, "toString").Some?
    case JArr(xs) => ElementsThrow(xs)
    case _ => false
  }

  predicate ElementsThrow(xs: seq<Json>)
    decreases xs
  {
    xs != [] && (JsonConversionThrows(xs[0]) || ElementsThrow(xs[1..]))
  }

  /** The TypeError raised by a conversion. */
  datatype TypeError = TypeError

  /** String(v), which either yields a string or raises. */
  function TryToString(v: Option<Json>): (r: Result<string, TypeError>)
    ensures r.Failure? <==> ConversionThrows(v)
    ensures r.Success? ==> r.value == ToString(v)
  {
    if ConversionThrows(v) then Failure(TypeError) else Success(ToString(v))
  }

  function JsonToString(j: Json): string
    decreases j
  {
    match j
    case JNull => "null"
    case JBool(b) => if b then "true" else "false"
    case JInt(i) => IntToDecimal(i)
    case JFloat(r) => NumberToString(r)
    case JStr(s) => s
    case JArr(xs) => ArrayToString(xs)
    case JObj(_) => "[object Object]"
  }

  /** Array.prototype.join(","), where null elements become "". */
  function ArrayToString(xs: seq<Json>): string
    decreases xs
  {
    if xs == [] then ""
    else
      var head := if xs[0].JNull? then "" else JsonToString(xs[0]);
      if |xs| == 1 then head else head + "," + ArrayToString(xs[1..])
  }

  /** The result of Number(v): a number or NaN. */
  datatype Num = Finite(value: real) | NaN

  /**
   * Number(s) for a string: surrounding whitespace is ignored, the empty
   * string is 0 and an optionally signed run of decimal digits is its value.
   */
  function StringToNumber(s: string): (r: Num)
    ensures JsTrim(s) == "" ==> r == Finite(0.0)
    ensures r.Finite? ==> r.value == r.value.Floor as real
  {
    var t := JsTrim(s);
    if t == "" then Finite(0.0)
    else if AllDigits(t) then IntegerNum(DecimalValue(t))
    else if |t| > 1 && t[0] == '-' && AllDigits(t[1..]) then IntegerNum(-(DecimalValue(t[1..]) as int))
    else if |t| > 1 && t[0] == '+' && AllDigits(t[1..]) then IntegerNum(DecimalValue(t[1..]))
    else NaN
  }

  function IntegerNum(i: int): (r: Num)
    ensures r.Finite? && r.value == r.value.Floor as real
  {
    Finite(i as real)
  }

  function DecimalValue(s: string): nat
    requires AllDigits(s)
  {
    if s == [] then 0 else DecimalValue(s[..|s| - 1]) * 10 + (s[|s| - 1] as int - '0' as int)
  }

  /** Number(v), for a value whose conversion does not throw. */
  function ToNumber(v: Option<Json>): (r: Num)
    ensures v.None? ==> r == NaN
    ensures v.Some? && v.value.JInt? ==> r == Finite(v.value.i as real)
    ensures v.Some? && v.value.JStr? ==> r == StringToNumber(v.value.s)
  {
    match v
    case None => NaN
    case Some(j) =>
      match j
      case JNull => Finite(0.0)
      case JBool(b) => Finite(if b then 1.0 else 0.0)
      case JInt(i) => Finite(i as real)
      case JFloat(r) => Finite(r)
      case JStr(s) => StringToNumber(s)
      case JArr(xs) => StringToNumber(ArrayToString(xs))
      case JObj(_) => NaN
  }

  /** Number(v), which either yields a number or raises. */
  function TryToNumber(v: Option<Json>): (r: Result<Num, TypeError>)
    ensures r.Failure? <==> ConversionThrows(v)
    ensures r.Success? ==> r.value == ToNumber(v)
  {
    if ConversionThrows(v) then Failure(TypeError) else Success(ToNumber(v))
  }

  function NumToString(n: Num): string {
    match n
    case Finite(r) => NumberToString(r)
    case NaN => "NaN"
  }

  /** Reading the decimal digits of n gives back n. */
  lemma {:induction false} DecimalValueOfNatToDecimal(n: nat)
    ensures DecimalValue(NatToDecimal(n)) == n
  {
    var d := NatToDecimal(n);
    if n >= 10 {
      DecimalValueOfNatToDecimal(n / 10);
      assert d[..|d| - 1] == NatToDecimal(n / 10);
    }
  }

  /** Number(String(i)) == i for every integer i. */
  lemma NumberOfIntString(i: int)
    ensures StringToNumber(IntToDecimal(i)) == Finite(i as real)
  {
    var n: nat := if i < 0 then -i else i;
    var d := NatToDecimal(n);
    DecimalValueOfNatToDecimal(n);
    var t := IntToDecimal(i);
    StripFixed(t, IsJsWhitespace);
    if i < 0 {
      assert t[1..] == d;
    }
  }

  /** Number(String(x)) == Number(x) for every integer-valued number x. */
  lemma NumberOfNumberString(r: real)
    requires r == r.Floor as real
    ensures StringToNumber(NumberToString(r)) == Finite(r)
  {
    NumberOfIntString(r.Floor);
  }

  /** The conversions of a JSON string or number never throw. */
  lemma PrimitivesConvert(j: Json)
    requires j.JStr? || j.JInt? || j.JFloat? || j.JBool? || j.JNull?
    ensures TryToString(Some(j)) == Success(ToString(Some(j)))
    ensures TryToNumber(Some(j)) == Success(ToNumber(Some(j)))
  {
  }

  /** String({"toString": 1}) and Number([[{"toString": 1}]]) raise. */
  lemma OwnToStringThrows()
    ensures TryToString(Some(JObj([("toString", JInt(1))]))).Failure?
    ensures TryToNumber(Some(JArr([JArr([JObj([("toString", JInt(1))])])]))).Failure?
    ensures TryToString(Some(JObj([("valueOf", JInt(1))]))) == Success("[object Object]")
  {
    assert Lookup([("toString", JInt(1))], "toString").Some?;
    assert ElementsThrow([JObj([("toString", JInt(1))])]);
    assert !JsonConversionThrows(JObj([("valueOf", JInt(1))]));
  }
}
