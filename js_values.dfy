/**
 * The JavaScript values that flow through the location roster: decoded JSON
 * fields (or `undefined` when a field is missing), plus the non-finite numbers
 * that `typeof x === "number"` also admits.  Only the operators the core
 * applies to them are modelled: `===`, truthiness, `||`, `typeof` and the
 * ordering comparisons against numeric constants.
 */
module JsValues {

  datatype JsValue =
    | Undefined
    | Null
    | Bool(b: bool)
    | Num(x: real)          // a finite number (negative zero is not distinguished)
    | NaN
    | PosInfinity
    | NegInfinity
    | Str(s: string)
    | Composite(ref: nat)   // an object or array, compared by reference

  /** `typeof v === "number"` */
  function IsNumber(v: JsValue): (r: bool)
    ensures r <==> !(v.Undefined? || v.Null? || v.Bool? || v.Str? || v.Composite?)
  {
    v.Num? || v.NaN? || v.PosInfinity? || v.NegInfinity?
  }

  /** Strict equality `a === b`: NaN equals nothing, objects compare by reference. */
  function StrictEq(a: JsValue, b: JsValue): (r: bool)
    ensures r <==> a == b && !a.NaN?
  {
    match (a, b)
    case (Undefined, Undefined) => true
    case (Null, Null) => true
    case (Bool(p), Bool(q)) => p == q
    case (Num(x), Num(y)) => x == y
    case (PosInfinity, PosInfinity) => true
    case (NegInfinity, NegInfinity) => true
    case (Str(s), Str(t)) => s == t
    case (Composite(p), Composite(q)) => p == q
    case _ => false
  }

  /** JavaScript truthiness: `false`, 0, NaN, "", null and undefined are falsy. */
  function Truthy(v: JsValue): (r: bool)
    ensures !r <==> v in {Undefined, Null, Bool(false), Num(0.0), NaN, Str("")}
  {
    match v
    case Undefined => false
    case Null => false
    case Bool(b) => b
    case Num(x) => x != 0.0
    case NaN => false
    case PosInfinity => true
    case NegInfinity => true
    case Str(s) => s != ""
    case Composite(_) => true
  }

  /** `a || b`: the first operand when it is truthy, otherwise the second. */
  function Or(a: JsValue, b: JsValue): (r: JsValue)
    ensures Truthy(a) ==> r == a
    ensures !Truthy(a) ==> r == b
  {
    if Truthy(a) then a else b
  }

  /** `v >= c` for a number `v`; every comparison with NaN is false. */
  function AtLeast(v: JsValue, c: real): (r: bool)
    requires IsNumber(v)
    ensures r <==> v.PosInfinity? || (v.Num? && v.x >= c)
  {
    match v
    case Num(x) => x >= c
    case PosInfinity => true
    case NegInfinity => false
    case NaN => false
  }

  /** `v <= c` for a number `v`; every comparison with NaN is false. */
  function AtMost(v: JsValue, c: real): (r: bool)
    requires IsNumber(v)
    ensures r <==> v.NegInfinity? || (v.Num? && v.x <= c)
  {
    match v
    case Num(x) => x <= c
    case PosInfinity => false
    case NegInfinity => true
    case NaN => false
  }
}
