/** JavaScript values as they reach the reservation code: the JSON values of a
    request body or a loaded record, and undefined for a property that is
    absent. Only the operations the code applies are modelled: truthiness,
    property reads, conversion to string and number (ECMA-262, 2024 edition, sections 7.1.17,
    7.1.4), `+` (sections 13.8.1 and 13.15.3) and `>` against a string (section 7.2.13). */
module JsValues {
  import opened Wrappers
  import opened JsNumber

  datatype Value =
    | Undefined
    | Null
    | Bool(b: bool)
    | Number(n: Num)
    | Str(s: string)
    | Arr(elems: seq<Value>)
    | Obj(props: map<string, Value>)

  /** ToBoolean (section 7.1.2). */
  predicate Truthy(v: Value) {
    match v
    case Undefined => false
    case Null => false
    case Bool(b) => b
    case Number(n) => NumberTruthy(n)
    case Str(s) => s != []
    case Arr(_) => true
    case Obj(_) => true
  }

  predicate IsNullish(v: Value) {
    v.Undefined? || v.Null?
  }

  /** Reading a property named by one of the code's field names from a value
      that is not null or undefined (reading from those throws). None of those
      names is a property of a string, number, boolean or array. */
  function Prop(v: Value, key: string): Value
    requires !IsNullish(v)
  {
    if v.Obj? && key in v.props then v.props[key] else Undefined
  }

  /** A property of a plain object given as a map (request query, form state). */
  function Lookup(m: map<string, Value>, key: string): Value {
    if key in m then m[key] else Undefined
  }

  /** ToString (section 7.1.17); an array prints as Array.prototype.join does,
      with null and undefined elements printed as empty strings. */
  function ToString(v: Value): string
    decreases v, 1
  {
    match v
    case Undefined => "undefined"
    case Null => "null"
    case Bool(b) => if b then "true" else "false"
    case Number(n) => NumberToString(n)
    case Str(s) => s
    case Arr(elems) => Join(elems)
    case Obj(_) => "[object Object]"
  }

  function Join(elems: seq<Value>): string
    decreases elems, 0
  {
    if elems == [] then ""
    else
      var first := if IsNullish(elems[0]) then "" else ToString(elems[0]);
      if |elems| == 1 then first else first + "," + Join(elems[1..])
  }

  /** ToPrimitive (section 7.1.1): objects and arrays become their string form.
      Objects are taken to have no own valueOf or toString key, so the
      conversion never calls user data and never throws. */
  function ToPrimitive(v: Value): (p: Value)
    ensures !p.Arr? && !p.Obj?
    ensures v.Arr? ==> p == Str(Join(v.elems))
    ensures v.Obj? ==> p == Str("[object Object]")
    ensures !v.Arr? && !v.Obj? ==> p == v
  {
    if v.Arr? || v.Obj? then Str(ToString(v)) else v
  }

  /** ToNumber (section 7.1.4). */
  function ToNumberValue(v: Value): Num {
    match ToPrimitive(v)
    case Undefined => NaN
    case Null => FromInt(0)
    case Bool(b) => FromInt(if b then 1 else 0)
    case Number(n) => n
    case Str(s) => ToNumber(s)
  }

  lemma ToNumberOfStr(s: string)
    ensures ToNumberValue(Str(s)) == ToNumber(s)
  {
  }

  /** The code-unit order of two strings (section 7.2.13, IsLessThan on strings). */
  predicate StringLess(a: string, b: string)
    decreases |a|
  {
    if a == [] then b != []
    else if b == [] then false
    else if a[0] != b[0] then a[0] < b[0]
    else StringLess(a[1..], b[1..])
  }

  /** x > y for a string y: strings compare by code units, anything else is
      compared as numbers, with NaN comparing false. */
  predicate GreaterThan(x: Value, y: string) {
    var px := ToPrimitive(x);
    if px.Str? then StringLess(y, px.s)
    else Less(ToNumber(y), ToNumberValue(px))
  }

  /** x + y (sections 13.8.1 and 13.15.3, ApplyStringOrNumericBinaryOperator):
      concatenation if either primitive is a string, numeric addition otherwise. */
  function Plus(x: Value, y: Value): Value {
    var px := ToPrimitive(x);
    var py := ToPrimitive(y);
    if px.Str? || py.Str? then Str(ToString(px) + ToString(py))
    else Number(Add(ToNumberValue(px), ToNumberValue(py)))
  }

  /** s[i] on a string: a one-character string, or undefined past the end. */
  function CharAt(s: string, i: nat): Value {
    if i < |s| then Str([s[i]]) else Undefined
  }

  /** `s[i] + s[i + 1]` is the two-character slice whenever both exist. */
  lemma TwoCharacters(s: string, i: nat)
    requires i + 2 <= |s|
    ensures Plus(CharAt(s, i), CharAt(s, i + 1)) == Str(s[i..i + 2])
  {
    assert [s[i]] + [s[i + 1]] == s[i..i + 2];
  }

  /** A value that is not a string, array or object never compares greater
      than a string holding a colon: that string converts to NaN. */
  lemma GreaterThanColon(x: Value, y: string)
    requires ':' in y && !x.Str? && !x.Arr? && !x.Obj?
    ensures !GreaterThan(x, y)
  {
    ColonToNumber(y);
  }

  /** Two digit characters added as strings and converted give their value. */
  lemma TwoDigitNumber(time: string, i: nat)
    requires i + 2 <= |time| && IsDigit(time[i]) && IsDigit(time[i + 1])
    ensures AllDigits(time[i..i + 2])
    ensures ToNumberValue(Plus(CharAt(time, i), CharAt(time, i + 1))) == FromInt(DigitsValue(time[i..i + 2]))
  {
    TwoCharacters(time, i);
    ToNumberOfStr(time[i..i + 2]);
    DigitsToNumber(time[i..i + 2]);
  }
}
