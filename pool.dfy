/**
 * The connection pool, reduced to what the adapters rely on: how many
 * connections are checked out right now, and (for the proofs) how many times
 * one was handed out. Blocking, the connection bound and thread safety are
 * not modelled.
 */
module ConnectionPools {

  class ConnectionPool {
    var checkedOut: nat
    ghost var acquisitions: nat

    constructor ()
      ensures checkedOut == 0 && acquisitions == 0
    {
      checkedOut := 0;
      acquisitions := 0;
    }

    /** acquire(): hand one connection to the caller. */
    method Acquire()
      modifies this
      ensures checkedOut == old(checkedOut) + 1
      ensures acquisitions == old(acquisitions) + 1
    {
      checkedOut := checkedOut + 1;
      acquisitions := acquisitions + 1;
    }

    /** release(connection): take back a connection that is checked out. */
    method Release()
      requires checkedOut > 0
      modifies this
      ensures checkedOut == old(checkedOut) - 1
      ensures acquisitions == old(acquisitions)
    {
      checkedOut := checkedOut - 1;
    }
  }
}
