/**
 * JavaScript numbers as the normaliser's arithmetic meets them: finite
 * values (exact reals; IEEE-754 rounding is not modelled), the two
 * infinities and NaN, with the special cases of `-`, `*` and `/`,
 * truthiness, and `parseInt` applied to a number.
 */
module JsNumber {
  import opened Wrappers

  datatype Number = NaN | PosInf | NegInf | Finite(r: real)

  /** `x || fallback` keeps `x` exactly when it is truthy: not NaN and not zero. */
  predicate Truthy(x: Number) {
    !x.NaN? && x != Finite(0.0)
  }

  /** Integer part, rounding toward zero (ToIntegerOrInfinity on a finite value). */
  function Trunc(x: real): (n: int)
    ensures x >= 0.0 ==> 0.0 <= n as real <= x < n as real + 1.0
    ensures x < 0.0 ==> n as real - 1.0 < x <= n as real <= 0.0
  {
    if x >= 0.0 then x.Floor else -((-x).Floor)
  }

  /** ToNumber of a value that is a number or `null`; `null` is +0. */
  function FromNullable(v: Option<real>): Number {
    Finite(v.GetOr(0.0))
  }

  /**
   * Unary `+` of a property that is a number or absent; an absent property
   * is `undefined`, i.e. NaN. A `null` property, for which `+null` is 0, is
   * also modelled as absent, hence NaN: both are falsy, and the normaliser
   * only tests the result's truthiness.
   */
  function UnaryPlus(v: Option<real>): (r: Number)
    ensures r.NaN? <==> v.None?
    ensures v.Some? ==> r == Finite(v.value)
    ensures Truthy(r) <==> v.Some? && v.value != 0.0
  {
    match v
    case None => NaN
    case Some(x) => Finite(x)
  }

  function Sign(x: Number): int {
    match x
    case NaN => 0
    case PosInf => 1
    case NegInf => -1
    case Finite(r) => if r > 0.0 then 1 else if r < 0.0 then -1 else 0
  }

  /** The infinity whose sign is that of the product of two signs; NaN when either is zero. */
  function SignedInfinity(s1: int, s2: int): Number {
    if s1 == 0 || s2 == 0 then NaN
    else if (s1 > 0) == (s2 > 0) then PosInf
    else NegInf
  }

  /** Subtraction: NaN when an operand is NaN or when an infinity meets itself; finite exactly when both operands are. */
  function Sub(a: Number, b: Number): (r: Number)
    ensures r.NaN? <==> a.NaN? || b.NaN? || (a.PosInf? && b.PosInf?) || (a.NegInf? && b.NegInf?)
    ensures r.Finite? <==> a.Finite? && b.Finite?
    ensures r.Finite? ==> r.r + b.r == a.r
    ensures (r.PosInf? || r.NegInf?) ==> Sign(r) == (if a.Finite? then -Sign(b) else Sign(a))
  {
    match (a, b)
    case (NaN, _) => NaN
    case (_, NaN) => NaN
    case (Finite(x), Finite(y)) => Finite(x - y)
    case (PosInf, PosInf) => NaN
    case (NegInf, NegInf) => NaN
    case (PosInf, _) => PosInf
    case (NegInf, _) => NegInf
    case (Finite(_), PosInf) => NegInf
    case (Finite(_), NegInf) => PosInf
  }

  /** Multiplication: NaN when an operand is NaN or an infinity meets a zero; otherwise the sign is the product of the signs. */
  function Mul(a: Number, b: Number): (r: Number)
    ensures r.NaN? <==> a.NaN? || b.NaN? || (!a.Finite? && Sign(b) == 0) || (!b.Finite? && Sign(a) == 0)
    ensures r.Finite? <==> a.Finite? && b.Finite?
  {
    match (a, b)
    case (NaN, _) => NaN
    case (_, NaN) => NaN
    case (Finite(x), Finite(y)) => Finite(x * y)
    case _ => SignedInfinity(Sign(a), Sign(b))
  }

  /**
   * Division; a zero divisor is +0, the only zero the normaliser can divide by.
   * NaN for 0/0, infinity/infinity and a NaN operand; finite exactly when the dividend is finite and the divisor is an infinity or a nonzero number.
   */
  function Div(a: Number, b: Number): (r: Number)
    ensures r.NaN? <==> a.NaN? || b.NaN? || (Sign(a) == 0 && Sign(b) == 0) || (!a.Finite? && !b.Finite?)
    ensures r.Finite? <==> a.Finite? && !b.NaN? && (!b.Finite? || Sign(b) != 0)
    ensures r.Finite? && !b.Finite? ==> r.r == 0.0
  {
    match (a, b)
    case (NaN, _) => NaN
    case (_, NaN) => NaN
    case (Finite(x), Finite(y)) => if y != 0.0 then Finite(x / y) else SignedInfinity(Sign(a), 1)
    case (Finite(_), _) => Finite(0.0)
    case (_, Finite(y)) => SignedInfinity(Sign(a), if y < 0.0 then -1 else 1)
    case _ => NaN
  }

  /**
   * `parseInt(x)` for a number `x`: the string "NaN", "Infinity" or
   * "-Infinity" has no digits, a finite value keeps its integer part.
   */
  function ParseInt(x: Number): (r: Number)
    ensures r.Finite? <==> x.Finite?
    ensures r.NaN? <==> !x.Finite?
    ensures x.Finite? ==> r.r == Trunc(x.r) as real
  {
    match x
    case Finite(v) => Finite(Trunc(v) as real)
    case _ => NaN
  }

  /** A product that is a number has the product of its operands' signs. */
  lemma MulSign(a: Number, b: Number)
    ensures !Mul(a, b).NaN? ==> Sign(Mul(a, b)) == Sign(a) * Sign(b)
  {
    if a.Finite? && b.Finite? {
      var x, y := a.r, b.r;
      if x > 0.0 && y < 0.0 { assert x * y < 0.0; }
      if x < 0.0 && y > 0.0 { assert x * y < 0.0; }
      if x < 0.0 && y < 0.0 { assert x * y > 0.0; }
      if x > 0.0 && y > 0.0 { assert x * y > 0.0; }
    }
  }

  /** An infinite quotient has the dividend's sign times the divisor's, a zero divisor counting as positive. */
  lemma DivSign(a: Number, b: Number)
    ensures Div(a, b).PosInf? || Div(a, b).NegInf? ==>
      Sign(Div(a, b)) == Sign(a) * (if Sign(b) == 0 then 1 else Sign(b))
  {
  }

  /** A finite product is the product of the operands' values. */
  lemma MulValue(a: Number, b: Number)
    ensures Mul(a, b).Finite? ==> Mul(a, b).r == a.r * b.r
  {
  }

  /** A finite quotient over a finite divisor gives back the dividend when multiplied by it. */
  lemma DivValue(a: Number, b: Number)
    ensures Div(a, b).Finite? && b.Finite? ==> Div(a, b).r * b.r == a.r
  {
  }
}
