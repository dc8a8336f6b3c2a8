/** Facts about integer-to-real conversion and real division used by the mean tests. */
module RealArith {

  /** Converting a product of integers to a real multiplies the conversions. */
  lemma IntProductAsReal(a: int, b: int)
    ensures (a * b) as real == a as real * b as real
  {
  }

  /** Dividing a bounded total by a positive count. */
  lemma DivBetween(total: real, n: real, lo: real, hi: real)
    requires n > 0.0
    requires n * lo <= total <= n * hi
    ensures lo <= total / n <= hi
  {
  }

  /** A quotient by a positive count is below a bound exactly when the total is below
      the bound times the count. */
  lemma DivBelow(total: real, n: real, bound: real)
    requires n > 0.0
    ensures total / n < bound <==> total < bound * n
  {
    var q := total / n;
    assert total == q * n;
  }
}
