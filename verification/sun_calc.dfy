/**
 * `force_range`, the one-step wrap the sunrise/sunset calculator applies to angles
 * (modulo 360) and to hours (modulo 24). The trigonometric calculator itself is not modelled.
 */
module SunCalc {
  import opened Arith

  /** Adds or takes away one period when `v` lies below 0 or at or above `maxV`. */
  function ForceRange(v: real, maxV: real): (r: real)
    ensures r == v || r == v + maxV || r == v - maxV
    ensures 0.0 <= v < maxV ==> r == v
    ensures maxV > 0.0 && -maxV <= v < 2.0 * maxV ==> 0.0 <= r < maxV
  {
    if v < 0.0 then v + maxV
    else if v >= maxV then v - maxV
    else v
  }

  /** Within one period either side of the target range, the single step is Python's `v % maxV`. */
  lemma ForceRangeIsFloorMod(v: real, maxV: real)
    requires maxV > 0.0 && -maxV <= v < 2.0 * maxV
    ensures ForceRange(v, maxV) == FloorMod(v, maxV)
  {
    var q := (v / maxV).Floor;
    DivBounds(v, maxV, -1.0, 2.0);
    assert q == -1 || q == 0 || q == 1;
    assert FloorMod(v, maxV) == v - maxV * q as real;
  }

  /** A value two or more periods high is not brought into range: the wrap is a single step. */
  lemma ForceRangeSingleStep(v: real, maxV: real)
    requires maxV > 0.0 && v >= 2.0 * maxV
    ensures ForceRange(v, maxV) >= maxV
  {
  }
}
