/** Scores of the game-tree search.

    The search seeds its running best score with floating-point infinities
    and otherwise only handles integers, so a score is modelled as an
    integer extended with the two infinities. */
module Scores {

  datatype ExtInt = NegInf | Fin(n: int) | PosInf

  /** The numeric order `a <= b` on extended integers. */
  predicate Le(a: ExtInt, b: ExtInt) {
    a.NegInf? || b.PosInf? || (a.Fin? && b.Fin? && a.n <= b.n)
  }

  /** Strict order `a < b`. */
  predicate Less(a: ExtInt, b: ExtInt) {
    !Le(b, a)
  }

  /** The larger of two scores, as the built-in `max` picks it. */
  function Max(a: ExtInt, b: ExtInt): (r: ExtInt)
    ensures Le(a, r) && Le(b, r)
    ensures r == a || r == b
  {
    if Le(a, b) then b else a
  }

  /** The smaller of two scores, as the built-in `min` picks it. */
  function Min(a: ExtInt, b: ExtInt): (r: ExtInt)
    ensures Le(r, a) && Le(r, b)
    ensures r == a || r == b
  {
    if Le(a, b) then a else b
  }
}
