/**
 * The `f64` arithmetic of the ranking, idealised: finite values are exact
 * non-negative reals (no rounding), but the two special values the ranking
 * can produce, positive infinity (a positive number divided by zero) and
 * NaN (zero divided by zero), are kept, because they change how tasks compare.
 */
module Scores {

  type NonNegReal = r: real | r >= 0.0

  datatype Score = Finite(value: NonNegReal) | Infinity | NaN

  /** `a / d` in IEEE 754 arithmetic, for a non-negative finite divisor `d`. */
  function Div(a: Score, d: NonNegReal): (q: Score)
    ensures q.NaN? <==> a.NaN? || (a == Finite(0.0) && d == 0.0)
    ensures q.Infinity? <==> a.Infinity? || (a.Finite? && a.value > 0.0 && d == 0.0)
    ensures a.Finite? && d > 0.0 ==> q == Finite(a.value / d)
  {
    match a
    case NaN => NaN
    case Infinity => Infinity
    case Finite(x) =>
      if d != 0.0 then Finite(x / d)
      else if x == 0.0 then NaN
      else Infinity
  }

  /** `a + b` in IEEE 754 arithmetic, for a non-negative finite `b`. */
  function Add(a: Score, b: NonNegReal): (s: Score)
    ensures s.NaN? <==> a.NaN?
    ensures s.Infinity? <==> a.Infinity?
    ensures a.Finite? ==> s.value == a.value + b
  {
    match a
    case Finite(x) => Finite(x + b)
    case _ => a
  }

  /** The `<` of `f64`: NaN is below nothing and nothing is below NaN. */
  predicate Below(a: Score, b: Score)
    ensures Below(a, b) ==> a.Finite? && !b.NaN?
    ensures a.Finite? && b.Finite? ==> (Below(a, b) <==> a.value < b.value)
    ensures a.Finite? && b.Infinity? ==> Below(a, b)
  {
    match (a, b)
    case (Finite(x), Finite(y)) => x < y
    case (Finite(_), Infinity) => true
    case _ => false
  }

  /** `<` on scores is a strict order, and NaN is unordered with every score. */
  lemma BelowIsStrictOrder(a: Score, b: Score, c: Score)
    ensures !Below(a, a)
    ensures Below(a, b) ==> !Below(b, a)
    ensures Below(a, b) && Below(b, c) ==> Below(a, c)
    ensures a.NaN? ==> !Below(a, b) && !Below(b, a)
  {
  }

  /** Without NaN, any two scores are ordered one way or the other, or are the same value. */
  lemma BelowIsTotalWithoutNaN(a: Score, b: Score)
    requires !a.NaN? && !b.NaN?
    ensures Below(a, b) || Below(b, a) || a == b
  {
  }

}
