/**
 The stop request that a signal handler sets (`volatile sig_atomic_t *stop_requested`).
 */
module StopSignal {

  /** Once set it stays set. */
  class StopFlag {
    var requested: bool

    constructor ()
    {
      requested := *;
    }

    method Poll() returns (stop: bool)
      modifies this
      ensures stop == requested
      ensures old(requested) ==> requested
    {
      if * {
        requested := true;
      }
      return requested;
    }
  }
}
