/** Membership degrees and the Zadeh min/max on single degrees. */
module Degrees {

  /** Python's builtin `min` on a pair: the second element only when it is strictly smaller. */
  function Min(x: real, y: real): (r: real)
    ensures r <= x && r <= y
    ensures r == x || r == y
  {
    if y < x then y else x
  }

  /** Python's builtin `max` on a pair: the second element only when it is strictly larger. */
  function Max(x: real, y: real): (r: real)
    ensures r >= x && r >= y
    ensures r == x || r == y
  {
    if y > x then y else x
  }

  /** A single membership degree lies in the unit interval. */
  predicate InUnitDegree(x: real) {
    0.0 <= x <= 1.0
  }

  /** A membership set: every degree of the sequence lies in the unit interval. */
  predicate InUnit(s: seq<real>) {
    forall i :: 0 <= i < |s| ==> InUnitDegree(s[i])
  }
}
