/** Arithmetic on exact reals shared by the scorers. */
module Reals {

  /** Python's `abs` on a float. */
  function Abs(x: real): real { if x < 0.0 then -x else x }
}
