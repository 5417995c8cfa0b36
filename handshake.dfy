/**
 * The handshake worker's poll loop: it reads from the IN endpoint with a
 * 500 ms timeout until the cancel flag is seen or a transfer ends with a
 * status other than a timeout. The transfers are given as a finite trace of
 * `Poll`s, and the moment another thread cancels is the loop-head check
 * `cancelAt` at which the flag is first seen set.
 */
module Handshake {
  import opened Wrappers
  import opened Threads

  /** The status of one bulk transfer: completed, timed out, or another libusb error. */
  datatype Status = Completed | TimedOut | TransferError(code: int)

  /** One bulk IN transfer of the poll loop: its status and the byte count it reports. */
  datatype Poll = Poll(status: Status, read: nat)

  /** How the poll loop ends: cancelled, with a transfer that did not time out, or not within the trace. */
  datatype HandshakeEnd = Cancelled | Received(read: nat) | StillPolling

  /**
   * The poll loop from loop-head check `k` on: the cancel flag is loaded
   * first; then the loop goes on only while the previous transfer timed out.
   */
  function HandshakeRun(polls: seq<Poll>, cancelAt: nat, k: nat): (r: HandshakeEnd)
    requires k <= |polls|
    ensures r.Received? ==> exists j :: 0 <= j < |polls| && k <= j + 1 && j + 1 < cancelAt &&
                                        polls[j].status != TimedOut && polls[j].read == r.read
    ensures r.Cancelled? ==> cancelAt <= |polls|
    ensures r.StillPolling? ==> |polls| < cancelAt
    decreases |polls| - k
  {
    if cancelAt <= k then Cancelled
    else if k > 0 && polls[k - 1].status != TimedOut then Received(polls[k - 1].read)
    else if k == |polls| then StillPolling
    else HandshakeRun(polls, cancelAt, k + 1)
  }

  /** The first transfer at or after `k` that did not time out. */
  function FirstNonTimeout(polls: seq<Poll>, k: nat): (r: Option<nat>)
    requires k <= |polls|
    ensures r.Some? ==> k <= r.value < |polls|
    decreases |polls| - k
  {
    if k == |polls| then None
    else if polls[k].status != TimedOut then Some(k)
    else FirstNonTimeout(polls, k + 1)
  }

  /** `FirstNonTimeout` finds the earliest transfer that did not time out, or reports that all timed out. */
  lemma {:induction false} FirstNonTimeoutIsFirst(polls: seq<Poll>, k: nat)
    requires k <= |polls|
    ensures FirstNonTimeout(polls, k).None? ==> forall i :: k <= i < |polls| ==> polls[i].status == TimedOut
    ensures FirstNonTimeout(polls, k).Some? ==>
              var j := FirstNonTimeout(polls, k).value;
              k <= j < |polls| && polls[j].status != TimedOut &&
              forall i :: k <= i < j ==> polls[i].status == TimedOut
    decreases |polls| - k
  {
    if k < |polls| && polls[k].status == TimedOut {
      FirstNonTimeoutIsFirst(polls, k + 1);
    }
  }

  /**
   * The outcome of the loop in closed form: with j the first transfer that
   * did not time out, the loop reports it unless the cancel was seen at or
   * before the check that follows it; with none, the loop is cancelled if the
   * cancel comes within the trace.
   */
  lemma {:induction false} HandshakeOutcome(polls: seq<Poll>, cancelAt: nat, k: nat)
    requires k <= |polls|
    requires k > 0 ==> polls[k - 1].status == TimedOut
    ensures HandshakeRun(polls, cancelAt, k) ==
            match FirstNonTimeout(polls, k)
            case None => if cancelAt <= |polls| then Cancelled else StillPolling
            case Some(j) => if cancelAt <= j + 1 then Cancelled else Received(polls[j].read)
    decreases |polls| - k
  {
    if cancelAt > k && k < |polls| {
      FirstNonTimeoutIsFirst(polls, k);
      if polls[k].status == TimedOut {
        HandshakeOutcome(polls, cancelAt, k + 1);
      } else {
        assert HandshakeRun(polls, cancelAt, k) == HandshakeRun(polls, cancelAt, k + 1);
      }
    }
  }

  /** A handshake that arrives before any cancel is reported with the byte count of its transfer. */
  lemma ReceivedBeforeCancel(polls: seq<Poll>, cancelAt: nat, j: nat)
    requires j < |polls| && polls[j].status != TimedOut && j + 1 < cancelAt
    requires forall i :: 0 <= i < j ==> polls[i].status == TimedOut
    ensures HandshakeRun(polls, cancelAt, 0) == Received(polls[j].read)
  {
    HandshakeOutcome(polls, cancelAt, 0);
    FirstNonTimeoutIsFirst(polls, 0);
  }

  /**
   * The poll loop of the handshake worker. `cancelAt` is the loop-head check
   * at which another thread's cancel is first seen; a flag already set when
   * the loop starts is seen at check 0.
   */
  method PollForHandshake(cancel: InterruptibleThread, polls: seq<Poll>, cancelAt: nat) returns (end: HandshakeEnd)
    ensures end == HandshakeRun(polls, if cancel.cancelled then 0 else cancelAt, 0)
  {
    ghost var seenAt := if cancel.cancelled then 0 else cancelAt;
    var k := 0;
    var read := 0;
    var status := TimedOut;
    var cancelled := cancel.IsCancelled() || cancelAt <= k;
    while !cancelled && status == TimedOut && k < |polls|
      invariant 0 <= k <= |polls|
      invariant cancelled == (seenAt <= k)
      invariant k == 0 ==> status == TimedOut
      invariant k > 0 ==> status == polls[k - 1].status && read == polls[k - 1].read
      invariant HandshakeRun(polls, seenAt, 0) == HandshakeRun(polls, seenAt, k)
      decreases |polls| - k
    {
      status := polls[k].status;
      read := polls[k].read;
      k := k + 1;
      cancelled := cancel.IsCancelled() || cancelAt <= k;
    }
    if cancelled {
      end := Cancelled;
    } else if status != TimedOut {
      end := Received(read);
    } else {
      end := StillPolling;
    }
  }
}
