/** The clock that hands out LSNs (include/slabflux/bridge/engine_pulse.hpp:78-91). */
module Context {

  class ExecutionContext {
    var next: nat

    constructor ()
      ensures next == 1
    {
      next := 1;
    }

    method ReserveNext() returns (lsn: nat)
      modifies this
      ensures lsn == old(next) && next == old(next) + 1
    {
      lsn := next;
      next := next + 1;
    }
  }
}
