/**
 * The JSON values the action handler of backend/app.py works on, with the
 * Python behaviour it relies on: `dict.get`, `in` on a dict, truthiness,
 * `str()`, `isinstance(v, (int, float))` and `float()`.
 */
module Json {
  import opened Wrappers
  import opened Text

  /**
   * A value produced by `json.loads` (or read back from the store). Objects
   * are Python dicts: their keys are distinct and `fields` lists the items in
   * iteration order. Floats, lists and dicts carry the text Python's `str()`
   * gives for them, which comes with the value.
   */
  datatype Json =
    | JNull
    | JBool(b: bool)
    | JInt(i: int)
    | JFloat(x: real, repr: string)
    | JStr(s: string)
    | JArray(items: seq<Json>, repr: string)
    | JObject(fields: seq<(string, Json)>, repr: string)

  /** `key in obj` for a dict. */
  predicate HasKey(obj: Json, key: string)
    requires obj.JObject?
  {
    exists i :: 0 <= i < |obj.fields| && obj.fields[i].0 == key
  }

  /** The position of the first item whose key is `key`, if any. */
  function FindKey<V>(fields: seq<(string, V)>, key: string): (r: Option<nat>)
    ensures r.Some? ==> r.value < |fields| && fields[r.value].0 == key
    ensures r.Some? ==> forall i :: 0 <= i < r.value ==> fields[i].0 != key
    ensures r.None? ==> forall i :: 0 <= i < |fields| ==> fields[i].0 != key
    decreases |fields|
  {
    if fields == [] then None
    else match FindKey(fields[..|fields| - 1], key)
      case Some(i) => Some(i)
      case None => if fields[|fields| - 1].0 == key then Some(|fields| - 1) else None
  }

  /** `obj.get(key, default)` */
  function GetOr(obj: Json, key: string, default: Json): (r: Json)
    requires obj.JObject?
    ensures HasKey(obj, key) ==> exists i :: 0 <= i < |obj.fields| && obj.fields[i] == (key, r)
    ensures !HasKey(obj, key) ==> r == default
  {
    match FindKey(obj.fields, key)
    case Some(i) => obj.fields[i].1
    case None => default
  }

  /** `obj.get(key)` */
  function Get(obj: Json, key: string): Json
    requires obj.JObject?
  {
    GetOr(obj, key, JNull)
  }

  /** Python truthiness. */
  predicate Truthy(j: Json) {
    match j
    case JNull => false
    case JBool(b) => b
    case JInt(i) => i != 0
    case JFloat(x, _) => x != 0.0
    case JStr(s) => s != ""
    case JArray(items, _) => items != []
    case JObject(fields, _) => fields != []
  }

  /** `str(j)` */
  function PyStr(j: Json): string {
    match j
    case JNull => "None"
    case JBool(b) => if b then "True" else "False"
    case JInt(i) => IntToString(i)
    case JFloat(_, repr) => repr
    case JStr(s) => s
    case JArray(_, repr) => repr
    case JObject(_, repr) => repr
  }

  /** `isinstance(j, (int, float))`; a bool is an int in Python. */
  predicate IsNumber(j: Json) {
    j.JBool? || j.JInt? || j.JFloat?
  }

  /** The numeric value of a number, booleans counting as 0 and 1: what `float()` gives for it. */
  function NumberValue(j: Json): real
    requires IsNumber(j)
  {
    ToFloat(j).value
  }

  predicate AllDigits(s: string) {
    forall i :: 0 <= i < |s| ==> IsDigit(s[i])
  }

  /** The value of a run of decimal digits, most significant first. */
  function DigitsValue(s: string): nat
    requires AllDigits(s)
    decreases |s|
  {
    if s == [] then 0 else 10 * DigitsValue(s[..|s| - 1]) + (s[|s| - 1] as int - '0' as int)
  }

  function Pow10(n: nat): (r: nat)
    ensures r > 0
  {
    if n == 0 then 1 else 10 * Pow10(n - 1)
  }

  /** The position of the first `c` in `s`, if any. */
  function IndexOf(s: string, c: char): (r: Option<nat>)
    ensures r.Some? ==> r.value < |s| && s[r.value] == c && c !in s[..r.value]
    ensures r.None? ==> c !in s
    decreases |s|
  {
    if s == [] then None
    else if s[0] == c then Some(0)
    else match IndexOf(s[1..], c)
      case Some(i) => (assert s[..i + 1] == [s[0]] + s[1..][..i]; Some(i + 1))
      case None => None
  }

  /** `digits[.digits]`, with at least one digit on one side of the point. */
  function ParseUnsigned(s: string): Option<real> {
    match IndexOf(s, '.')
    case None => if s != [] && AllDigits(s) then Some(DigitsValue(s) as real) else None
    case Some(p) =>
      if |s| > 1 && AllDigits(s[..p]) && AllDigits(s[p + 1..]) then
        Some(DigitsValue(s[..p]) as real + DigitsValue(s[p + 1..]) as real / Pow10(|s| - p - 1) as real)
      else None
  }

  /** The decimal literals `float(s)` accepts: surrounding whitespace, an optional sign, digits and a point. */
  function ParseDecimal(s: string): Option<real> {
    var t := Strip(s);
    if t != [] && t[0] == '-' then
      match ParseUnsigned(t[1..])
      case Some(v) => Some(-v)
      case None => None
    else if t != [] && t[0] == '+' then ParseUnsigned(t[1..])
    else ParseUnsigned(t)
  }

  /** `float(j)`; `None` stands for the exception raised for any other value. */
  function ToFloat(j: Json): Option<real> {
    match j
    case JBool(b) => Some(if b then 1.0 else 0.0)
    case JInt(i) => Some(i as real)
    case JFloat(x, _) => Some(x)
    case JStr(s) => ParseDecimal(s)
    case _ => None
  }

  // ---------------------------------------------------------------------
  // Properties
  // ---------------------------------------------------------------------

  /** Reading the digits `str(n)` prints gives `n` back. */
  lemma {:induction false} DigitsOfNatToString(n: nat)
    ensures AllDigits(NatToString(n)) && DigitsValue(NatToString(n)) == n
    decreases n
  {
    var s := NatToString(n);
    if n >= 10 {
      DigitsOfNatToString(n / 10);
      assert s[..|s| - 1] == NatToString(n / 10);
    }
  }

  /** A run of digits parses as the number it spells. */
  lemma UnsignedOfDigits(d: string)
    requires d != [] && AllDigits(d)
    ensures ParseUnsigned(d) == Some(DigitsValue(d) as real)
  {
    assert !IsDigit('.');
  }

  /** A string that neither starts nor ends with whitespace is its own `strip()`. */
  lemma NoSpaceStripsToItself(t: string)
    requires t != [] ==> !IsSpace(t[0]) && !IsSpace(t[|t| - 1])
    ensures Strip(t) == t
  {
  }

  lemma FloatOfNatString(n: nat)
    ensures ParseDecimal(NatToString(n)) == Some(n as real)
  {
    var d := NatToString(n);
    DigitsOfNatToString(n);
    UnsignedOfDigits(d);
    NoSpaceStripsToItself(d);
  }

  lemma FloatOfNegativeString(n: nat)
    requires n > 0
    ensures ParseDecimal("-" + NatToString(n)) == Some(-(n as real))
  {
    var d := NatToString(n);
    DigitsOfNatToString(n);
    UnsignedOfDigits(d);
    var t := "-" + d;
    NoSpaceStripsToItself(t);
    assert t[1..] == d;
  }

  /** `float(str(i))` is `i` for every Python int. */
  lemma FloatOfIntString(i: int)
    ensures ToFloat(JStr(IntToString(i))) == Some(i as real)
  {
    if i < 0 {
      FloatOfNegativeString(-i);
    } else {
      FloatOfNatString(i);
    }
  }

  /**
   * A comparison value written as an int, as the int's decimal text, or (for 0 and 1)
   * as a boolean converts to the same number.
   */
  lemma SpellingsConvertAlike(i: int)
    ensures ToFloat(JStr(IntToString(i))) == ToFloat(JInt(i))
    ensures i == 0 || i == 1 ==> ToFloat(JBool(i == 1)) == ToFloat(JStr(IntToString(i)))
  {
    FloatOfIntString(i);
  }

  /** A string without any digit never converts. */
  lemma NoDigitNoFloat(s: string)
    requires forall i :: 0 <= i < |s| ==> !IsDigit(s[i])
    ensures ParseDecimal(s).None?
  {
    var t := Strip(s);
    StripSpec(s);
    assert forall i :: 0 <= i < |t| ==> !IsDigit(t[i]);
    NoDigitUnsigned(t);
    if t != [] {
      NoDigitUnsigned(t[1..]);
    }
  }

  lemma NoDigitUnsigned(u: string)
    requires forall i :: 0 <= i < |u| ==> !IsDigit(u[i])
    ensures ParseUnsigned(u).None?
  {
    match IndexOf(u, '.')
    case None =>
    case Some(p) =>
      if |u| > 1 {
        if p > 0 {
          assert u[..p][0] == u[0];
        } else {
          assert u[p + 1..][0] == u[1];
        }
      }
  }
}
