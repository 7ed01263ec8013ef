/** Python's `%` on floats, over exact reals. */
module Arith {

  /** `x % m` for `m > 0`: `x` less the floor multiple of `m`, which lies in `[0, m)`. */
  function FloorMod(x: real, m: real): (r: real)
    requires m > 0.0
    ensures 0.0 <= r < m
  {
    FloorModBounds(x, m, (x / m).Floor as real);
    x - m * (x / m).Floor as real
  }

  lemma FloorModBounds(x: real, m: real, q: real)
    requires m > 0.0 && q == (x / m).Floor as real
    ensures 0.0 <= x - m * q < m
  {
    var y := x / m;
    assert q <= y < q + 1.0;
    DivThenMul(x, m);
    MulMonotone(q, y, m);
    MulMonotone(y, q + 1.0, m);
    Distribute(q, m);
  }

  lemma DivThenMul(x: real, m: real)
    requires m > 0.0
    ensures (x / m) * m == x
  {
  }

  lemma Distribute(q: real, m: real)
    ensures (q + 1.0) * m == q * m + m && m * q == q * m
  {
  }

  lemma MulMonotone(a: real, b: real, m: real)
    requires m > 0.0 && a <= b
    ensures a * m <= b * m && (a < b ==> a * m < b * m)
  {
  }

  /** Dividing by a positive `m` keeps bounds that are multiples of `m`. */
  lemma DivBounds(v: real, m: real, lo: real, hi: real)
    requires m > 0.0 && lo * m <= v < hi * m
    ensures lo <= v / m < hi
  {
    DivThenMul(v, m);
    MulCancel(v / m, hi, m);
    if v / m < lo {
      MulMonotone(v / m, lo, m);
    }
  }

  lemma MulCancel(a: real, b: real, m: real)
    requires m > 0.0 && a * m < b * m
    ensures a < b
  {
  }
}
