/** Search scores: exact reals extended with the two infinities that the
    engine writes as `±1.0e400` (which Python reads as `±inf`). */
module Scores {

  datatype Score = NegInf | Fin(v: real) | PosInf

  /** The order Python's float comparison gives these values. */
  predicate Le(x: Score, y: Score) {
    match (x, y)
    case (NegInf, _) => true
    case (_, PosInf) => true
    case (Fin(a), Fin(b)) => a <= b
    case _ => false
  }

  predicate Lt(x: Score, y: Score) { !Le(y, x) }

  function Min(x: Score, y: Score): Score { if Le(x, y) then x else y }
  function Max(x: Score, y: Score): Score { if Le(x, y) then y else x }

  /** `x` forced into the window [lo, hi]. */
  function Clamp(x: Score, lo: Score, hi: Score): Score { Max(lo, Min(hi, x)) }

  /** `Le` is a total order. */
  lemma LeTotalOrder()
    ensures forall x :: Le(x, x)
    ensures forall x, y :: Le(x, y) && Le(y, x) ==> x == y
    ensures forall x, y, z :: Le(x, y) && Le(y, z) ==> Le(x, z)
    ensures forall x, y :: Le(x, y) || Le(y, x)
  {
  }

  /** With lo <= hi the clamp lies in the window, fixes every value already in
      it, and may be computed with either of Min and Max first. */
  lemma ClampInWindow(x: Score, lo: Score, hi: Score)
    requires Le(lo, hi)
    ensures Le(lo, Clamp(x, lo, hi)) && Le(Clamp(x, lo, hi), hi)
    ensures Le(lo, x) && Le(x, hi) ==> Clamp(x, lo, hi) == x
    ensures Clamp(x, lo, hi) == Min(hi, Max(lo, x))
  {
  }

  /** Two values with the same clamp into a non-degenerate window agree on
      which side of the window they fall, and agree exactly strictly inside. */
  lemma SameClamp(x: Score, y: Score, lo: Score, hi: Score)
    requires Lt(lo, hi) && Clamp(x, lo, hi) == Clamp(y, lo, hi)
    ensures Le(x, lo) <==> Le(y, lo)
    ensures Le(hi, x) <==> Le(hi, y)
    ensures Lt(lo, x) && Lt(x, hi) ==> x == y
  {
  }

  lemma MinAssoc(x: Score, y: Score, z: Score)
    ensures Min(x, Min(y, z)) == Min(Min(x, y), z)
    ensures Min(x, y) == Min(y, x)
  {
  }

  lemma MaxAssoc(x: Score, y: Score, z: Score)
    ensures Max(x, Max(y, z)) == Max(Max(x, y), z)
    ensures Max(x, y) == Max(y, x)
  {
  }

  /** Raising the lower bound of a window from `a0` to `a` (still below `hi`)
      changes neither whether the clamped value lies strictly above `a` nor,
      when it does, the clamped value itself. */
  lemma ClampRaise(x: Score, a0: Score, a: Score, hi: Score)
    requires Le(a0, a) && Le(a, hi)
    ensures Lt(a, Clamp(x, a0, hi)) <==> Lt(a, Clamp(x, a, hi))
    ensures Lt(a, Clamp(x, a0, hi)) ==> Clamp(x, a0, hi) == Clamp(x, a, hi)
  {
  }
}
