/** IEEE-754 doubles as the dashboard sees them: a finite value, NaN or an
    infinity. Finite values are exact reals; rounding is not modelled. */
module Floats {

  datatype Float = Finite(r: real) | NaN | PosInf | NegInf

  predicate IsFinite(x: Float) { x.Finite? }

  predicate IsInfinite(x: Float) { x.PosInf? || x.NegInf? }

  /** `np.abs`: NaN stays NaN, both infinities become +Inf. */
  function Abs(x: Float): (a: Float)
    ensures a.NaN? <==> x.NaN?
    ensures a.PosInf? <==> IsInfinite(x)
    ensures !a.NegInf?
    ensures a.Finite? ==> x.Finite? && a.r >= 0.0 && (a.r == x.r || a.r == -x.r)
  {
    match x
    case Finite(v) => Finite(if v < 0.0 then -v else v)
    case NaN => NaN
    case PosInf => PosInf
    case NegInf => PosInf
  }

  /** Sign of a non-NaN value, used for the sign of an infinite product. */
  function Sign(x: Float): int
    requires !x.NaN?
  {
    match x
    case Finite(v) => if v < 0.0 then -1 else if v > 0.0 then 1 else 0
    case PosInf => 1
    case NegInf => -1
  }

  /** IEEE multiplication without rounding: NaN absorbs, an infinity times
      zero is NaN, otherwise an infinite factor gives the signed infinity. */
  function Mul(a: Float, b: Float): (p: Float)
    ensures p.NaN? <==> (a.NaN? || b.NaN? || (IsInfinite(a) && b == Finite(0.0)) || (IsInfinite(b) && a == Finite(0.0)))
    ensures a.Finite? && b.Finite? ==> p == Finite(a.r * b.r)
    ensures b == Finite(1.0) ==> p == a
    ensures !p.NaN? && (IsInfinite(a) || IsInfinite(b)) ==>
      IsInfinite(p) && (p.PosInf? <==> Sign(a) * Sign(b) > 0)
  {
    if a.NaN? || b.NaN? then NaN
    else if a.Finite? && b.Finite? then Finite(a.r * b.r)
    else if Sign(a) * Sign(b) > 0 then PosInf
    else if Sign(a) * Sign(b) < 0 then NegInf
    else NaN
  }
}
