/** Random fractions drawn from any deterministic generator. */
module Draws {

  /** How a generator moves on from a state, and the fraction a state stands for. */
  datatype Source<!S> = Source(next: S -> S, unit: S -> real)

  /** The state after one draw. */
  function Advance<S>(source: Source<S>, state: S): S {
    source.next(state)
  }

  /** The fraction obtained by drawing from `state`. */
  function Fraction<S>(source: Source<S>, state: S): real {
    source.unit(source.next(state))
  }

  ghost predicate GivesFractions<S(!new)>(source: Source<S>) {
    forall state :: 0.0 <= Fraction(source, state) <= 1.0
  }

  /** The state after a number of draws. */
  function AfterDraws<S>(source: Source<S>, state: S, n: nat): S {
    if n == 0 then state else Advance(source, AfterDraws(source, state, n - 1))
  }

  /** The fraction that the draw numbered `n` gives, counting from zero. */
  function Draw<S>(source: Source<S>, state: S, n: nat): real {
    Fraction(source, AfterDraws(source, state, n))
  }

  lemma {:induction false} DrawsFromNext<S>(source: Source<S>, state: S, n: nat)
    ensures AfterDraws(source, Advance(source, state), n) == AfterDraws(source, state, n + 1)
  {
    if n > 0 {
      DrawsFromNext(source, state, n - 1);
    }
  }
}
