/** The wall clock: readings never go back. */
module Clocks {
  class Clock {
    var now: int

    constructor (start: int)
      ensures now == start
    {
      now := start;
    }

    method Read() returns (t: int)
      modifies this
      ensures old(now) <= t == now
    {
      var passed: int :| passed >= 0;
      now := now + passed;
      t := now;
    }
  }
}
