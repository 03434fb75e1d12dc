/** The xorshift generator that seeds and kicks the simulation. */
module Xorshift {
  import opened Draws

  const DEFAULT_STATE: bv64 := 0x9e37_79b9_7f4a_7c15

  function Seeded(seed: bv64): (state: bv64)
    ensures state != 0
    ensures seed != 0 ==> state == seed
  {
    if seed == 0 then DEFAULT_STATE else seed
  }

  function Left13(v: bv64): bv64 { v ^ (v << 13) }

  function Right7(v: bv64): bv64 { v ^ (v >> 7) }

  function Left17(v: bv64): bv64 { v ^ (v << 17) }

  function Next(state: bv64): bv64 { Left17(Right7(Left13(state))) }

  // Applying a step twice doubles its shift, so a step is undone by the steps with twice and four
  // times its shift, and so on until the shift exceeds the word.

  function Left26(v: bv64): bv64 { v ^ (v << 26) }

  function Left52(v: bv64): bv64 { v ^ (v << 52) }

  function Right14(v: bv64): bv64 { v ^ (v >> 14) }

  function Right28(v: bv64): bv64 { v ^ (v >> 28) }

  function Right56(v: bv64): bv64 { v ^ (v >> 56) }

  function Left34(v: bv64): bv64 { v ^ (v << 34) }

  function Previous(state: bv64): bv64 { UndoLeft13(UndoRight7(UndoLeft17(state))) }

  function UndoLeft13(v: bv64): bv64 { Left52(Left26(Left13(v))) }

  function UndoRight7(v: bv64): bv64 { Right56(Right28(Right14(Right7(v)))) }

  function UndoLeft17(v: bv64): bv64 { Left34(Left17(v)) }

  lemma LeftTwice13(v: bv64)
    ensures Left13(Left13(v)) == Left26(v)
  {
    assert Left13(v) == v ^ (v << 13);
    assert Left26(v) == v ^ (v << 26);
    assert (v ^ (v << 13)) ^ ((v ^ (v << 13)) << 13) == v ^ (v << 26);
  }

  lemma LeftTwice26(v: bv64)
    ensures Left26(Left26(v)) == Left52(v)
  {
    assert Left26(v) == v ^ (v << 26);
    assert Left52(v) == v ^ (v << 52);
    assert (v ^ (v << 26)) ^ ((v ^ (v << 26)) << 26) == v ^ (v << 52);
  }

  lemma LeftTwice52(v: bv64)
    ensures Left52(Left52(v)) == v
  {
    assert Left52(v) == v ^ (v << 52);
    assert (v ^ (v << 52)) ^ ((v ^ (v << 52)) << 52) == v;
  }

  lemma RightTwice7(v: bv64)
    ensures Right7(Right7(v)) == Right14(v)
  {
    assert Right7(v) == v ^ (v >> 7);
    assert Right14(v) == v ^ (v >> 14);
    assert (v ^ (v >> 7)) ^ ((v ^ (v >> 7)) >> 7) == v ^ (v >> 14);
  }

  lemma RightTwice14(v: bv64)
    ensures Right14(Right14(v)) == Right28(v)
  {
    assert Right14(v) == v ^ (v >> 14);
    assert Right28(v) == v ^ (v >> 28);
    assert (v ^ (v >> 14)) ^ ((v ^ (v >> 14)) >> 14) == v ^ (v >> 28);
  }

  lemma RightTwice28(v: bv64)
    ensures Right28(Right28(v)) == Right56(v)
  {
    assert Right28(v) == v ^ (v >> 28);
    assert Right56(v) == v ^ (v >> 56);
    assert (v ^ (v >> 28)) ^ ((v ^ (v >> 28)) >> 28) == v ^ (v >> 56);
  }

  lemma RightTwice56(v: bv64)
    ensures Right56(Right56(v)) == v
  {
    assert Right56(v) == v ^ (v >> 56);
    assert (v ^ (v >> 56)) ^ ((v ^ (v >> 56)) >> 56) == v;
  }

  lemma LeftTwice17(v: bv64)
    ensures Left17(Left17(v)) == Left34(v)
  {
    assert Left17(v) == v ^ (v << 17);
    assert Left34(v) == v ^ (v << 34);
    assert (v ^ (v << 17)) ^ ((v ^ (v << 17)) << 17) == v ^ (v << 34);
  }

  lemma LeftTwice34(v: bv64)
    ensures Left34(Left34(v)) == v
  {
    assert Left34(v) == v ^ (v << 34);
    assert (v ^ (v << 34)) ^ ((v ^ (v << 34)) << 34) == v;
  }

  /** No information is lost by a draw: the previous state can be recovered. */
  lemma NextIsInvertible(state: bv64)
    ensures Previous(Next(state)) == state
  {
    var first := Left13(state);
    var second := Right7(first);
    LeftTwice17(second); LeftTwice34(second);
    RightTwice7(first); RightTwice14(first); RightTwice28(first); RightTwice56(first);
    LeftTwice13(state); LeftTwice26(state); LeftTwice52(state);
  }

  /** The lowest bit spreads by 13, 7 and 17 places and their sums; the highest one only to the right. */
  lemma NextOfSingleBits()
    ensures Next(1) == 0x4082_2041
    ensures Next(0x8000_0000_0000_0000) == 0x8100_0000_0000_0000
  {
  }

  lemma NextIsInjective(a: bv64, b: bv64)
    requires Next(a) == Next(b)
    ensures a == b
  {
    NextIsInvertible(a);
    NextIsInvertible(b);
  }

  /** The state after a number of draws. */
  function After(state: bv64, draws: nat): bv64 {
    if draws == 0 then state else Next(After(state, draws - 1))
  }

  /** From any seed, no number of draws reaches the zero state, which would only repeat itself. */
  lemma {:induction false} NeverZero(seed: bv64, draws: nat)
    ensures After(Seeded(seed), draws) != 0
  {
    if draws != 0 {
      NeverZero(seed, draws - 1);
      NextIsInvertible(After(Seeded(seed), draws - 1));
      assert Previous(0) == 0;
    }
  }

  /** The upper half of a word as a fraction of its largest value. */
  function UnitOf(word: bv64): (u: real)
    ensures 0.0 <= u <= 1.0
  {
    var upper := (word as int) / 0x1_0000_0000;
    assert 0 <= upper <= 0xffff_ffff;
    upper as real / 4294967295.0
  }

  /** A draw gives the upper half of its word, counted in steps of one over its largest value. */
  lemma DrawCountsUpperHalf(state: bv64, upper: nat, lower: nat)
    requires Next(state) as int == 0x1_0000_0000 * upper + lower && lower < 0x1_0000_0000
    ensures Fraction(XorshiftSource(), state) * 4294967295.0 == upper as real
  {
    UpperHalf(Next(state) as int, upper, lower);
    assert Fraction(XorshiftSource(), state) == UnitOf(Next(state));
  }

  lemma UpperHalf(n: int, upper: nat, lower: nat)
    requires n == 0x1_0000_0000 * upper + lower && lower < 0x1_0000_0000
    ensures n / 0x1_0000_0000 == upper
  {
  }

  /** The generator as a source of fractions. */
  function XorshiftSource(): Source<bv64> {
    Source((state: bv64) => Next(state), (word: bv64) => UnitOf(word))
  }

  lemma XorshiftGivesFractions()
    ensures GivesFractions(XorshiftSource())
  {
    forall state
      ensures 0.0 <= Fraction(XorshiftSource(), state) <= 1.0
    {
      assert Fraction(XorshiftSource(), state) == UnitOf(Next(state));
    }
  }
}
