/**
 * Literals are signed integers: the magnitude names a variable (1-based), the sign
 * says which value of that variable makes the literal true.
 */
module Literals {

  function Abs(x: int): (r: nat)
    ensures r == x || r == -x
  {
    if x < 0 then -x else x
  }

  /** A literal the solver can look up: nonzero, naming a variable in 1..n. */
  predicate InRange(lit: int, n: nat) {
    lit != 0 && -(n as int) <= lit <= n
  }
}
