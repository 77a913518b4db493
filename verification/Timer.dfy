/** The microsecond timer. It never runs backwards; how far it moves between two readings
    is not known. */
module Timer {
  class Clock {
    var now: int

    constructor ()
      ensures now == 0
    {
      now := 0;
    }

    /** Reads the timer. */
    method Now() returns (t: int)
      modifies this
      ensures old(now) <= now == t
    {
      var passed: nat :| passed >= 0;
      now := now + passed;
      t := now;
    }

    /** Time taken by a bus transfer, at least one microsecond. */
    method Spend()
      modifies this
      ensures now > old(now)
    {
      var passed: nat :| passed >= 0;
      now := now + 1 + passed;
    }
  }
}
