/**
 `CLOCK_MONOTONIC`, in milliseconds.
 */
module MonotonicClock {

  /** Time passes by itself, and never backwards. */
  class Clock {
    var now: int

    constructor ()
    {
      now := *;
    }

    method Read() returns (time: int)
      modifies this
      ensures old(now) <= now == time
    {
      var later: int := *;
      if later > now {
        now := later;
      }
      return now;
    }
  }
}
