/**
 * Island averages as exact rationals. The game divides a height sum by a
 * tile count and compares the quotients with `>` and `==`; here a quotient
 * is kept as the pair (sum, count) and compared by cross-multiplication.
 */
module Averages {

  /** num / den, with den > 0 for every value the game builds. */
  datatype Ratio = Ratio(num: int, den: int)

  /** The -1 the game uses when a seed yields no tiles (and as the starting
      maximum of the best-average search). */
  const NoIsland: Ratio := Ratio(-1, 1)

  /** total / count, or the -1 sentinel when count is 0. */
  function Average(total: int, count: int): Ratio {
    if count > 0 then Ratio(total, count) else NoIsland
  }

  /** a < b as numbers. */
  predicate Less(a: Ratio, b: Ratio) {
    a.num * b.den < b.num * a.den
  }

  /** a <= b as numbers. */
  predicate AtMost(a: Ratio, b: Ratio) {
    a.num * b.den <= b.num * a.den
  }

  /** a == b as numbers. */
  predicate Same(a: Ratio, b: Ratio) {
    a.num * b.den == b.num * a.den
  }

  /** Every average the game forms has a positive denominator; a count of
      at least one with a positive total lies strictly above the sentinel. */
  lemma AverageShape(total: int, count: int)
    ensures Average(total, count).den > 0
    ensures count > 0 && total > 0 ==> Less(NoIsland, Average(total, count))
    ensures count <= 0 ==> Average(total, count) == NoIsland
  {
  }

  /** Multiplying both sides of an inequality by a positive factor. */
  lemma ScaleLe(x: int, y: int, k: int)
    requires k > 0 && x <= y
    ensures x * k <= y * k
  {
  }

  /** Cancelling a positive factor from both sides of a strict inequality. */
  lemma CancelLt(x: int, y: int, k: int)
    requires k > 0 && x * k < y * k
    ensures x < y
  {
  }

  /** a <= b < c gives a < c. */
  lemma AtMostLessTrans(a: Ratio, b: Ratio, c: Ratio)
    requires a.den > 0 && b.den > 0 && c.den > 0
    requires AtMost(a, b) && Less(b, c)
    ensures Less(a, c)
  {
    ScaleLe(a.num * b.den, b.num * a.den, c.den);
    ScaleLe(b.num * c.den + 1, c.num * b.den, a.den);
    assert (a.num * c.den) * b.den < (c.num * a.den) * b.den;
    CancelLt(a.num * c.den, c.num * a.den, b.den);
  }

  /** a < b <= c gives a < c. */
  lemma LessAtMostTrans(a: Ratio, b: Ratio, c: Ratio)
    requires a.den > 0 && b.den > 0 && c.den > 0
    requires Less(a, b) && AtMost(b, c)
    ensures Less(a, c)
  {
    ScaleLe(a.num * b.den + 1, b.num * a.den, c.den);
    ScaleLe(b.num * c.den, c.num * b.den, a.den);
    assert (a.num * c.den) * b.den < (c.num * a.den) * b.den;
    CancelLt(a.num * c.den, c.num * a.den, b.den);
  }
}
