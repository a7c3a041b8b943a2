/**
 * Heuristic and search values: Python floats that are always an integer
 * cast with `float(...)` or one of the sentinels `float('-inf')` and
 * `float('inf')`.
 */
module Scores {

  datatype Score = NegInf | Fin(n: int) | PosInf

  /** Python's `<` on these floats. */
  predicate Lt(a: Score, b: Score)
  {
    match (a, b)
    case (NegInf, NegInf) => false
    case (NegInf, _) => true
    case (Fin(x), Fin(y)) => x < y
    case (Fin(_), PosInf) => true
    case _ => false
  }

  /** Python's `<=`. */
  predicate Le(a: Score, b: Score)
  {
    !Lt(b, a)
  }

  /** Python's `max(a, b)`: `a` unless `b` is strictly greater. */
  function Max(a: Score, b: Score): (m: Score)
    ensures Le(a, m) && Le(b, m) && (m == a || m == b)
  {
    if Lt(a, b) then b else a
  }

  /** Python's `min(a, b)`: `a` unless `b` is strictly smaller. */
  function Min(a: Score, b: Score): (m: Score)
    ensures Le(m, a) && Le(m, b) && (m == a || m == b)
  {
    if Lt(b, a) then b else a
  }

  /** Unary minus, which swaps the two infinities. */
  function Neg(a: Score): Score
  {
    match a
    case NegInf => PosInf
    case Fin(x) => Fin(-x)
    case PosInf => NegInf
  }

  /** `<` is a strict total order, with `NegInf` least and `PosInf` greatest. */
  lemma Order(a: Score, b: Score, c: Score)
    ensures !Lt(a, a)
    ensures Lt(a, b) ==> !Lt(b, a)
    ensures Lt(a, b) || a == b || Lt(b, a)
    ensures Lt(a, b) && Lt(b, c) ==> Lt(a, c)
    ensures Le(NegInf, a) && Le(a, PosInf)
  {
  }
}
