/** Fill shares: a count of filled rows divided by a count of rows, as an exact ratio. */
module Ratios {

  /** part / whole, the (double) count / total of the processors, without rounding. */
  function Share(part: nat, whole: nat): (r: real)
    requires 0 < whole && part <= whole
    ensures 0.0 <= r <= 1.0
  {
    assert (part as real) / (whole as real) * (whole as real) == part as real;
    (part as real) / (whole as real)
  }

  /** The share is 0 exactly for no part, and 1 exactly for the whole. */
  lemma ShareExtremes(part: nat, whole: nat)
    requires 0 < whole && part <= whole
    ensures Share(part, whole) == 0.0 <==> part == 0
    ensures Share(part, whole) == 1.0 <==> part == whole
  {
    var w := whole as real;
    var r := Share(part, whole);
    assert r == (part as real) / w;
    assert r * w == part as real;
    if r == 1.0 {
      assert part as real == w;
    }
    if part == whole {
      assert r == w / w;
    }
  }
}
