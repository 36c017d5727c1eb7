/** MathUtil.java. */
module MathUtil {

  /** x raised to the n-th power, by repeated multiplication. */
  function Pow(x: real, n: nat): real
  {
    if n == 0 then 1.0 else x * Pow(x, n - 1)
  }

  /** The sixth power, computed by squaring once and then multiplying three squares. */
  function FastPow6(x: real): real
  {
    var sq := x * x;
    sq * sq * sq
  }

  /** fastPow6 is the sixth power, so it is never negative. */
  lemma FastPow6IsPow6(x: real)
    ensures FastPow6(x) == Pow(x, 6)
    ensures FastPow6(x) >= 0.0
  {
    var sq := x * x;
    PowSix(x);
    assert sq >= 0.0 && sq * sq >= 0.0 by {
      if x < 0.0 { assert sq == (-x) * (-x); }
    }
    assert sq * sq * sq >= 0.0;
  }

  lemma PowSix(x: real)
    ensures Pow(x, 6) == (x * x) * (x * x) * (x * x)
  {
    assert Pow(x, 1) == x;
    assert Pow(x, 2) == x * x;
    assert Pow(x, 3) == x * (x * x);
    assert Pow(x, 4) == (x * x) * (x * x);
    assert Pow(x, 5) == x * ((x * x) * (x * x));
    assert Pow(x, 6) == (x * x) * (x * x) * (x * x);
  }

  /** An even power ignores the sign of its argument. */
  lemma FastPow6Even(x: real)
    ensures FastPow6(-x) == FastPow6(x)
  {
    assert (-x) * (-x) == x * x;
  }

  lemma FastPow6Fixpoints()
    ensures FastPow6(0.0) == 0.0
    ensures FastPow6(1.0) == 1.0
  {
  }
}
