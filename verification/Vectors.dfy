/** Plane vectors over the reals, with the square root and the unit directions as given functions. */
module Vectors {

  datatype Vector = Vector(x: real, y: real) {
    function Add(other: Vector): Vector { Vector(x + other.x, y + other.y) }

    function Subtract(other: Vector): Vector { Vector(x - other.x, y - other.y) }

    function Scale(factor: real): Vector { Vector(x * factor, y * factor) }

    function Dot(other: Vector): real { x * other.x + y * other.y }

    function LengthSquared(): real { Dot(this) }
  }

  const EAST := Vector(1.0, 0.0)

  /** 2 to the power -52. */
  const EPSILON: real := 1.0 / 4503599627370496.0

  ghost predicate IsSquareRoot(sqrt: real -> real) {
    forall r :: r >= 0.0 ==> sqrt(r) >= 0.0 && sqrt(r) * sqrt(r) == r
  }

  ghost predicate IsUnit(v: Vector) {
    v.LengthSquared() == 1.0
  }

  function Length(sqrt: real -> real, v: Vector): real {
    sqrt(v.LengthSquared())
  }

  /** The direction of a vector longer than EPSILON, and otherwise `fallback`. */
  function NormalizedOr(sqrt: real -> real, v: Vector, fallback: Vector): Vector {
    var length := Length(sqrt, v);
    if length > EPSILON then v.Scale(1.0 / length) else fallback
  }

  lemma SquareIsNotNegative(a: real)
    ensures a * a >= 0.0
  {
  }

  lemma LengthOf(sqrt: real -> real, v: Vector)
    requires IsSquareRoot(sqrt)
    ensures v.LengthSquared() >= 0.0
    ensures Length(sqrt, v) >= 0.0 && Length(sqrt, v) * Length(sqrt, v) == v.LengthSquared()
  {
    SquareIsNotNegative(v.x);
    SquareIsNotNegative(v.y);
  }

  lemma ScaleSquared(v: Vector, k: real)
    ensures v.Scale(k).LengthSquared() == k * k * v.LengthSquared()
  {
  }

  /** Adding `k` times a unit vector. */
  lemma AddAlong(v: Vector, n: Vector, k: real)
    requires IsUnit(n)
    ensures v.Add(n.Scale(k)).LengthSquared() == v.LengthSquared() + 2.0 * k * v.Dot(n) + k * k
    ensures v.Add(n.Scale(k)).Dot(n) == v.Dot(n) + k
  {
    var moved := v.Add(n.Scale(k));
    assert moved.x * moved.x == v.x * v.x + 2.0 * k * (v.x * n.x) + k * k * (n.x * n.x);
    assert moved.y * moved.y == v.y * v.y + 2.0 * k * (v.y * n.y) + k * k * (n.y * n.y);
    assert k * k * (n.x * n.x) + k * k * (n.y * n.y) == k * k * n.LengthSquared();
    assert moved.Dot(n) == v.Dot(n) + k * n.LengthSquared();
  }

  lemma NormalizedIsUnit(sqrt: real -> real, v: Vector, fallback: Vector)
    requires IsSquareRoot(sqrt) && IsUnit(fallback)
    ensures IsUnit(NormalizedOr(sqrt, v, fallback))
    ensures Length(sqrt, v) > EPSILON ==> v == NormalizedOr(sqrt, v, fallback).Scale(Length(sqrt, v))
  {
    var length := Length(sqrt, v);
    LengthOf(sqrt, v);
    if length > EPSILON {
      var k := 1.0 / length;
      assert k * length == 1.0;
      ScaleSquared(v, k);
      assert k * k * (length * length) == (k * length) * (k * length);
      assert v.x * k * length == v.x * (k * length);
      assert v.y * k * length == v.y * (k * length);
    }
  }

  lemma SubtractIsAdd(v: Vector, n: Vector, k: real)
    ensures v.Subtract(n.Scale(k)) == v.Add(n.Scale(-k))
  {
  }

  lemma DotOfDifference(a: Vector, b: Vector, n: Vector)
    ensures b.Subtract(a).Dot(n) == b.Dot(n) - a.Dot(n)
  {
  }

  /** Exchanging the relative speed along a unit vector keeps the sum of squares. */
  lemma ExchangeKeepsSquares(a: Vector, b: Vector, n: Vector)
    requires IsUnit(n)
    ensures var s := b.Subtract(a).Dot(n);
            a.Add(n.Scale(s)).LengthSquared() + b.Subtract(n.Scale(s)).LengthSquared() ==
              a.LengthSquared() + b.LengthSquared()
  {
    var s := b.Subtract(a).Dot(n);
    DotOfDifference(a, b, n);
    AddAlong(a, n, s);
    AddAlong(b, n, -s);
    SubtractIsAdd(b, n, s);
    ExchangeTerms(s, a.Dot(n), b.Dot(n));
  }

  /** Exchanging the relative speed along a unit vector reverses it. */
  lemma ExchangeReverses(a: Vector, b: Vector, n: Vector)
    requires IsUnit(n)
    ensures var s := b.Subtract(a).Dot(n);
            b.Subtract(n.Scale(s)).Subtract(a.Add(n.Scale(s))).Dot(n) == -s
  {
    var relative := b.Subtract(a);
    var s := relative.Dot(n);
    assert b.Subtract(n.Scale(s)).Subtract(a.Add(n.Scale(s))) == relative.Add(n.Scale(-2.0 * s));
    AddAlong(relative, n, -2.0 * s);
  }

  lemma ExchangeTerms(s: real, p: real, q: real)
    requires s == q - p
    ensures 2.0 * s * p + s * s + (2.0 * -s * q + -s * -s) == 0.0
  {
  }

  /** Reflecting along a unit vector keeps the length and reverses the component along it. */
  lemma ReflectAlong(v: Vector, n: Vector)
    requires IsUnit(n)
    ensures var s := v.Dot(n);
            var after := v.Subtract(n.Scale(2.0 * s));
            after.LengthSquared() == v.LengthSquared() && after.Dot(n) == -s
  {
    var s := v.Dot(n);
    SubtractIsAdd(v, n, 2.0 * s);
    AddAlong(v, n, -(2.0 * s));
  }

  lemma DotOfScaled(v: Vector, n: Vector, k: real)
    ensures v.Dot(n.Scale(k)) == k * v.Dot(n)
  {
  }
}
