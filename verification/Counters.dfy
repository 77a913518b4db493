/** The 32-bit counters of the statistics. */
module Counters {
  const UINT32: nat := 0x1_0000_0000

  /** A counter stepping, wrap-around included. */
  function Bump(n: nat): (r: nat)
    ensures r < UINT32 && r == (n + 1) % UINT32
  {
    (n + 1) % UINT32
  }
}
