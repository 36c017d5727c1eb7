/** Real-valued 2D vectors (Vec.java), exact arithmetic in place of IEEE-754 doubles. */
module Vectors {
  import IntVectors
  type IntVec = IntVectors.IntVec

  datatype Vec = Vec(x: real, y: real)
  {
    function Add(addend: Vec): Vec
    {
      Vec(x + addend.x, y + addend.y)
    }

    function Subtract(subtrahend: Vec): Vec
    {
      Vec(x - subtrahend.x, y - subtrahend.y)
    }

    function Scale(factor: real): Vec
    {
      Vec(x * factor, y * factor)
    }

    /** The squared euclidean length: never negative. */
    function SqLength(): (r: real)
      ensures r >= 0.0
    {
      SquareNonNegative(x);
      SquareNonNegative(y);
      x * x + y * y
    }

    /** The Java `(int)` cast on both components: truncation toward zero, not floor. */
    function ToIntVec(): (r: IntVec)
      ensures r.x == Trunc(x) && r.y == Trunc(y)
    {
      IntVectors.IntVec(Trunc(x), Trunc(y))
    }
  }

  const ZERO: Vec := Vec(0.0, 0.0)

  lemma SquareNonNegative(a: real)
    ensures a * a >= 0.0
  {
    if a < 0.0 {
      NegativeSquare(a);
    } else if a > 0.0 {
      PositiveSquare(a);
    }
  }

  lemma PositiveSquare(a: real)
    requires a > 0.0
    ensures a * a > 0.0
  {
  }

  lemma NegativeSquare(a: real)
    requires a < 0.0
    ensures a * a > 0.0
  {
  }

  /** Rounds toward zero: the integer part of r, with the sign of r. */
  function Trunc(r: real): (i: int)
    ensures 0.0 <= r ==> i as real <= r < i as real + 1.0
    ensures r < 0.0 ==> i as real - 1.0 < r <= i as real
    ensures (i < 0) == (r <= -1.0)
  {
    if r >= 0.0 then r.Floor else -((-r).Floor)
  }

  /** Truncation differs from floor just below zero: (-0.5, 2.7) lands on (0, 2). */
  lemma TruncNotFloor()
    ensures Vec(-0.5, 2.7).ToIntVec() == IntVectors.IntVec(0, 2)
    ensures (-0.5).Floor == -1
  {
  }

  /** Every value in (-1, 1) truncates to 0. */
  lemma TruncNearZero(r: real)
    requires -1.0 < r < 1.0
    ensures Trunc(r) == 0
  {
  }

  /** Swapping the operands of Subtract negates the difference: the basis of the pair tie-break. */
  lemma SubtractAntisymmetric(a: Vec, b: Vec)
    ensures a.Subtract(b) == b.Subtract(a).Scale(-1.0)
    ensures a.Subtract(b).SqLength() == b.Subtract(a).SqLength()
  {
  }

  lemma SubtractSelf(v: Vec)
    ensures v.Subtract(v) == ZERO
  {
  }

  lemma ScaleOne(v: Vec)
    ensures v.Scale(1.0) == v
  {
  }

  /** Add and Subtract are componentwise inverses, and ZERO is neutral. */
  lemma AddSubtractInverse(a: Vec, b: Vec)
    ensures a.Add(b).Subtract(b) == a
    ensures a.Subtract(b).Add(b) == a
    ensures a.Add(ZERO) == a && a.Subtract(ZERO) == a
  {
  }

  /** Subtracting df from one vector and adding it to another keeps their sum. */
  lemma ExchangeKeepsSum(f1: Vec, f2: Vec, df: Vec)
    ensures f1.Subtract(df).Add(f2.Add(df)) == f1.Add(f2)
  {
  }

  /** Scaling a negated vector negates the scaled vector. */
  lemma ScaleNegate(v: Vec, k: real)
    ensures v.Scale(-1.0).Scale(k) == v.Scale(k).Scale(-1.0)
  {
  }
}
