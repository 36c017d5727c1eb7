/** Integer block coordinates (IntVec.java). */
module IntVectors {

  /**
   * An immutable pair of integers. Java's 32-bit int wrap-around is not modelled:
   * block coordinates stay far below the limit.
   */
  datatype IntVec = IntVec(x: int, y: int)
  {
    function Add(addend: IntVec): IntVec
    {
      IntVec(x + addend.x, y + addend.y)
    }

    function Subtract(subtrahend: IntVec): IntVec
    {
      IntVec(x - subtrahend.x, y - subtrahend.y)
    }

    /** Lower bounds inclusive, upper bounds exclusive. */
    predicate IsInRange(minXIncl: int, minYIncl: int, maxXExcl: int, maxYExcl: int)
    {
      x >= minXIncl && y >= minYIncl && x < maxXExcl && y < maxYExcl
    }
  }

  const ZERO: IntVec := IntVec(0, 0)

  /** ZERO is the identity of Add, on both sides. */
  lemma AddZero(v: IntVec)
    ensures v.Add(ZERO) == v && ZERO.Add(v) == v
  {
  }

  /** Subtract undoes Add, and Add undoes Subtract. */
  lemma AddSubtractInverse(a: IntVec, b: IntVec)
    ensures a.Add(b).Subtract(b) == a
    ensures a.Subtract(b).Add(b) == a
  {
  }

  lemma AddCommutes(a: IntVec, b: IntVec)
    ensures a.Add(b) == b.Add(a)
  {
  }

  /** A range test is the conjunction of the two half-open interval tests. */
  lemma InRangeHalfOpen(v: IntVec, minX: int, minY: int, maxX: int, maxY: int)
    ensures v.IsInRange(minX, minY, maxX, maxY) <==> minX <= v.x < maxX && minY <= v.y < maxY
    ensures !IntVec(maxX, v.y).IsInRange(minX, minY, maxX, maxY)
    ensures !IntVec(v.x, maxY).IsInRange(minX, minY, maxX, maxY)
  {
  }
}
