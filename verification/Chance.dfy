/** Math.random as an arbitrary choice. */
module Chance {
  method RandomBelow(n: nat) returns (r: nat)
    requires 0 < n
    ensures r < n
  {
    r :| r < n;
  }
}
