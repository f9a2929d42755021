/**
 * The JavaScript values a JSON request body can hold, with the handful of
 * JavaScript operators the validators apply to them: truthiness, property
 * access, `typeof`, `Array.isArray` and template-literal string conversion.
 */
module JsValue {
  import opened Strings

  /**
   * A parsed JSON value, plus `undefined` for a property that is absent.
   * Numbers are integers here: floating point and `NaN` are not modelled.
   */
  datatype Value =
    | Undefined
    | Null
    | Bool(b: bool)
    | Num(n: int)
    | Str(s: string)
    | Arr(elems: seq<Value>)
    | Obj(fields: map<string, Value>)

  /** JavaScript truthiness: `undefined`, `null`, `false`, `0` and `""` are falsy. */
  predicate Truthy(v: Value)
  {
    match v
    case Undefined => false
    case Null => false
    case Bool(b) => b
    case Num(n) => n != 0
    case Str(s) => s != ""
    case Arr(_) => true
    case Obj(_) => true
  }

  /** Property access `v.key`; an absent property, or any property of a non-object, reads as `undefined`. */
  function Get(v: Value, key: string): (r: Value)
    ensures !v.Obj? ==> r == Undefined
    ensures v.Obj? ==> r == (if key in v.fields then v.fields[key] else Undefined)
  {
    match v
    case Obj(fields) => if key in fields then fields[key] else Undefined
    case _ => Undefined
  }

  /** `typeof v === 'object'`: true of `null`, arrays and objects. */
  predicate TypeofObject(v: Value)
  {
    v.Null? || v.Arr? || v.Obj?
  }

  /**
   * Whether `String(v)` throws a TypeError. An object parsed from JSON
   * with an own `toString` key has a `toString` that is not callable, and
   * its inherited `valueOf` returns the object itself, so no primitive is
   * found; an array throws when one of its elements does.
   */
  predicate ConversionThrows(v: Value)
  {
    match v
    case Obj(fields) => "toString" in fields
    case Arr(elems) => exists i | 0 <= i < |elems| :: ConversionThrows(elems[i])
    case _ => false
  }

  /** The result of a string conversion: the text, or a thrown TypeError. */
  datatype Rendering = Rendered(text: string) | TypeErrorThrown

  /** `String(v)`, as a template literal `${v}` renders it. */
  function ToJsString(v: Value): (r: Rendering)
    ensures r.TypeErrorThrown? <==> ConversionThrows(v)
    ensures v.Str? ==> r == Rendered(v.s)
    ensures v.Num? && v.n >= 0 ==> r.Rendered? && DigitsValue(r.text) == v.n
    ensures v.Obj? && !ConversionThrows(v) ==> r == Rendered("[object Object]")
  {
    match v
    case Undefined => Rendered("undefined")
    case Null => Rendered("null")
    case Bool(b) => Rendered(if b then "true" else "false")
    case Num(n) => Rendered(if n < 0 then "-" + NatToString(-n) else NatToString(n))
    case Str(s) => Rendered(s)
    case Arr(elems) => JoinElements(elems)
    case Obj(fields) => if "toString" in fields then TypeErrorThrown else Rendered("[object Object]")
  }

  /**
   * `Array.prototype.toString`: elements converted left to right and joined
   * by `,`, with `null` and `undefined` shown as empty; the first element
   * whose conversion throws makes the whole conversion throw.
   */
  function JoinElements(elems: seq<Value>): (r: Rendering)
    ensures r.TypeErrorThrown? <==> exists i | 0 <= i < |elems| :: ConversionThrows(elems[i])
  {
    if |elems| == 0 then Rendered("")
    else
      var first := if elems[0].Null? || elems[0].Undefined? then Rendered("") else ToJsString(elems[0]);
      var rest := JoinElements(elems[1..]);
      assert forall i | 1 <= i < |elems| :: elems[i] == elems[1..][i - 1];
      if first.TypeErrorThrown? then TypeErrorThrown
      else if |elems| == 1 then first
      else if rest.TypeErrorThrown? then TypeErrorThrown
      else Rendered(first.text + "," + rest.text)
  }
}
