/**
 * The cancellation flag of `InterruptibleThread`. The thread itself is not
 * modelled: a worker body is a method that receives the flag, and a cancel
 * issued by another thread is a call of `Cancel` between the steps of that
 * method. The flag starts false, `Cancel` sets it, and no member clears it.
 */
module Threads {

  class InterruptibleThread {
    var cancelled: bool

    /** A new worker's flag is not set. */
    constructor ()
      ensures !cancelled
    {
      cancelled := false;
    }

    /** `cancel()`: stores true. */
    method Cancel()
      modifies this
      ensures cancelled
    {
      cancelled := true;
    }

    /** `isCancelled()`: loads the flag. */
    function IsCancelled(): (r: bool)
      reads this
      ensures r <==> cancelled
    {
      cancelled
    }

    /** The destructor cancels the worker. */
    method Destroy()
      modifies this
      ensures cancelled
    {
      Cancel();
    }
  }
}
