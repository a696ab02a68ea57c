/** The JSON fields the standings code reads, with the JavaScript operators it
    applies to them. A field is absent (`undefined`), `null`, or an integer. */
module JsValues {

  datatype Value = Undefined | Null | Num(n: int)

  /** `a > b`: `null` converts to 0 and `undefined` to NaN, and every
      comparison with NaN is false. */
  predicate Greater(a: Value, b: Value)
  {
    !a.Undefined? && !b.Undefined? && ToNumber(a) > ToNumber(b)
  }

  /** The number a defined value converts to. */
  function ToNumber(a: Value): int
    requires !a.Undefined?
  {
    if a.Null? then 0 else a.n
  }

  /** `a != null` with the loose operator: neither `null` nor `undefined`. */
  predicate IsPresent(a: Value)
  {
    a.Num?
  }

  /** `a || 0`: every falsy value (absent, `null`, 0) becomes 0. */
  function OrZero(a: Value): int
  {
    if a.Num? then a.n else 0
  }

  /** `|| 0` gives every recorded field (`null` or a number) the number that
      `>` compares it by; only an absent field, which `>` reads as NaN,
      differs from it and becomes 0. */
  lemma OrZeroAgreesWithComparison(a: Value)
    ensures !a.Undefined? ==> OrZero(a) == ToNumber(a)
    ensures OrZero(a) == 0 <==> !a.Num? || a.n == 0
    ensures IsPresent(a) <==> !a.Undefined? && !a.Null?
  {
  }

  /** `a > b` and `b > a` never hold together, and on two numbers exactly one
      of `a > b`, `b > a`, `a === b` holds. */
  lemma GreaterTrichotomy(a: Value, b: Value)
    ensures !(Greater(a, b) && Greater(b, a))
    ensures a.Num? && b.Num? ==> (Greater(a, b) || Greater(b, a) || a == b)
    ensures a.Num? && b.Num? && a == b ==> !Greater(a, b)
  {
  }
}
