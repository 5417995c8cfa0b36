/**
 * The earlier device class at the top of the repository: the same open
 * sequence and accessory negotiation as the plug-in's device, a handshake
 * worker that only reports to its callback, and `sendDataSync`, which sends a
 * buffer synchronously through a BUFFER_LEN staging buffer.
 */
module Legacy {
  import opened Wrappers
  import opened Wire
  import opened DeviceIds
  import opened Threads
  import opened Discovery
  import opened Handshake
  import opened Framing

  /**
   * The staging buffer after copying the chunk at `offset`: the chunk's
   * length of bytes is copied from the start of `data` as written
   * (`fromOffset` false), or from `offset` as evidently intended
   * (`fromOffset` true); the bytes past the copied length keep the previous
   * contents.
   */
  function StagedChunk(data: seq<Byte>, offset: nat, buffer: seq<Byte>, fromOffset: bool): (r: seq<Byte>)
    requires offset < |data| && |buffer| == BUFFER_LEN
    ensures |r| == BUFFER_LEN
  {
    var available := ChunkLength(|data|, offset);
    var from := if fromOffset then offset else 0;
    data[from..from + available] + buffer[available..]
  }

  /**
   * The transfers `sendDataSync` issues from `offset` on, counting transfers
   * from `j`, with the staging buffer holding `buffer`: one full buffer per
   * chunk, up to and including the first transfer that writes less than the
   * chunk length.
   */
  function IssuedSync(data: seq<Byte>, written: nat -> int, offset: nat, j: nat, buffer: seq<Byte>, fromOffset: bool): (r: seq<seq<Byte>>)
    requires |buffer| == BUFFER_LEN
    ensures r == [] <==> offset >= |data|
    decreases |data| - offset
  {
    if offset >= |data| then []
    else
      var staged := StagedChunk(data, offset, buffer, fromOffset);
      if written(j) < ChunkLength(|data|, offset) then [staged]
      else [staged] + IssuedSync(data, written, offset + BUFFER_LEN, j + 1, staged, fromOffset)
  }
  /**
   * One whole transfer at `offset`, appended to the transfers `before`, keeps
   * what is issued overall and which transfer is first short.
   */
  lemma SyncStep(data: seq<Byte>, written: nat -> int, offset: nat, j: nat, buffer: seq<Byte>, fromOffset: bool,
                 whole: seq<seq<Byte>>, before: seq<seq<Byte>>, after: seq<seq<Byte>>)
    requires offset < |data| && |buffer| == BUFFER_LEN && written(j) >= ChunkLength(|data|, offset)
    requires whole == before + IssuedSync(data, written, offset, j, buffer, fromOffset)
    requires after == before + [StagedChunk(data, offset, buffer, fromOffset)]
    ensures whole == after + IssuedSync(data, written, offset + BUFFER_LEN, j + 1,
                                        StagedChunk(data, offset, buffer, fromOffset), fromOffset)
    ensures FirstShortChunk(|data|, written, offset, j) == FirstShortChunk(|data|, written, offset + BUFFER_LEN, j + 1)
  {
    var staged := StagedChunk(data, offset, buffer, fromOffset);
    assert IssuedSync(data, written, offset, j, buffer, fromOffset)
        == [staged] + IssuedSync(data, written, offset + BUFFER_LEN, j + 1, staged, fromOffset);
  }


  /**
   * Every transfer is a whole staging buffer, and every one starts with the
   * first bytes of `data`, not with the bytes at its own offset.
   */
  lemma {:induction false} IssuedSyncStartsAtDataStart(data: seq<Byte>, written: nat -> int, offset: nat, j: nat, buffer: seq<Byte>)
    requires |buffer| == BUFFER_LEN
    ensures forall t <- IssuedSync(data, written, offset, j, buffer, false) :: |t| == BUFFER_LEN && 0 < |data| && t[0] == data[0]
    decreases |data| - offset
  {
    if offset < |data| {
      var staged := StagedChunk(data, offset, buffer, false);
      var issued := IssuedSync(data, written, offset, j, buffer, false);
      assert staged[0] == data[0];
      if written(j) >= ChunkLength(|data|, offset) {
        IssuedSyncStartsAtDataStart(data, written, offset + BUFFER_LEN, j + 1, staged);
        var rest := IssuedSync(data, written, offset + BUFFER_LEN, j + 1, staged, false);
        assert issued == [staged] + rest;
        forall t <- issued ensures |t| == BUFFER_LEN && t[0] == data[0] {
          if t != staged {
            assert t in rest;
          }
        }
      }
    }
  }

  /**
   * A two-chunk payload whose second chunk starts with 1 while its first
   * byte is 0: the second transfer carries 0 where the payload has 1, so the
   * peer never receives the payload's second chunk.
   */
  lemma SyncRepeatsFirstChunk(buffer: seq<Byte>)
    requires |buffer| == BUFFER_LEN
    ensures var data := seq<Byte>(BUFFER_LEN + 1, i => if i == BUFFER_LEN then 1 else 0);
            var issued := IssuedSync(data, _ => BUFFER_LEN, 0, 0, buffer, false);
            |issued| == 2 && |issued[1]| == BUFFER_LEN && issued[1][0] == 0 && data[BUFFER_LEN] == 1 &&
            |ChunksFrom(data, 0)| == 2 && issued[1][..1] != ChunksFrom(data, 0)[1]
  {
    var data := seq<Byte>(BUFFER_LEN + 1, i => if i == BUFFER_LEN then 1 else 0);
    var written: nat -> int := _ => BUFFER_LEN;
    var staged0 := StagedChunk(data, 0, buffer, false);
    var staged1 := StagedChunk(data, BUFFER_LEN, staged0, false);
    assert IssuedSync(data, written, 2 * BUFFER_LEN, 2, staged1, false) == [];
    assert IssuedSync(data, written, BUFFER_LEN, 1, staged0, false) == [staged1];
    assert IssuedSync(data, written, 0, 0, buffer, false) == [staged0, staged1];
    assert staged1[0] == data[0] == 0;
    assert ChunksFrom(data, 2 * BUFFER_LEN) == [];
    assert ChunksFrom(data, BUFFER_LEN) == [data[BUFFER_LEN..BUFFER_LEN + 1]];
  }

  /**
   * With the copy taken from the chunk's own offset, and every transfer
   * written whole, the k-th transfer is a full staging buffer that begins
   * with the k-th chunk of the payload: the chunks, and so the whole payload
   * (`ChunksReassemble`), reach the peer in order.
   */
  lemma {:induction false} SyncCarriesEveryChunk(data: seq<Byte>, written: nat -> int, offset: nat, j: nat, buffer: seq<Byte>)
    requires |buffer| == BUFFER_LEN
    requires FirstShortChunk(|data|, written, offset, j).None?
    ensures var issued := IssuedSync(data, written, offset, j, buffer, true);
            var chunks := ChunksFrom(data, offset);
            |issued| == |chunks| &&
            forall k :: 0 <= k < |issued| ==> |issued[k]| == BUFFER_LEN && |chunks[k]| <= BUFFER_LEN && issued[k][..|chunks[k]|] == chunks[k]
    decreases |data| - offset
  {
    if offset < |data| {
      var staged := StagedChunk(data, offset, buffer, true);
      var n := ChunkLength(|data|, offset);
      var issued := IssuedSync(data, written, offset, j, buffer, true);
      var chunks := ChunksFrom(data, offset);
      SyncCarriesEveryChunk(data, written, offset + BUFFER_LEN, j + 1, staged);
      var rest := IssuedSync(data, written, offset + BUFFER_LEN, j + 1, staged, true);
      var restChunks := ChunksFrom(data, offset + BUFFER_LEN);
      assert issued == [staged] + rest;
      assert chunks == [data[offset..offset + n]] + restChunks;
      assert staged[..n] == data[offset..offset + n];
      forall k | 0 <= k < |issued|
        ensures |issued[k]| == BUFFER_LEN && |chunks[k]| <= BUFFER_LEN && issued[k][..|chunks[k]|] == chunks[k]
      {
        if k > 0 {
          assert issued[k] == rest[k - 1] && chunks[k] == restChunks[k - 1];
        }
      }
    }
  }

  /**
   * `libusb_context` shared by every device: `context` is the handle
   * (0 for none) and `exited` lists the contexts handed to `libusb_exit`.
   */
  class UsbLibrary {
    var context: nat
    var exited: seq<nat>

    constructor ()
      ensures context == 0 && exited == []
    {
      context := 0;
      exited := [];
    }

    /**
     * `initUsb`: does nothing when a context exists; otherwise keeps the
     * context `libusb_init` created only when it returned 0.
     */
    method InitUsb(status: int, created: nat)
      requires created != 0
      modifies this`context
      ensures old(context) != 0 ==> context == old(context)
      ensures old(context) == 0 ==> context == (if status == 0 then created else 0)
    {
      if context != 0 {
        return;
      }
      if status == 0 {
        context := created;
      }
    }

    /** `exitUsb`: hands an existing context to `libusb_exit`, then forgets it. */
    method ExitUsb()
      modifies this
      ensures context == 0
      ensures exited == old(exited) + (if old(context) != 0 then [old(context)] else [])
    {
      if context != 0 {
        exited := exited + [context];
      }
      context := 0;
    }
  }

  class MayaUsbDevice {
    const id: MayaUsbDeviceId
    const manufacturer: string
    const product: string
    const inEndpoint: Byte
    const outEndpoint: Byte
    const syncReadBuffer: array<Byte>

    var worker: InterruptibleThread?
    var sent: seq<seq<Byte>>
    var open: bool

    /** The device opened on `c`, with a BUFFER_LEN staging buffer whose contents are unspecified. */
    constructor (c: Connection)
      ensures id == c.id && manufacturer == c.manufacturer && product == c.product
      ensures inEndpoint == c.inEndpoint && outEndpoint == c.outEndpoint
      ensures fresh(syncReadBuffer) && syncReadBuffer.Length == BUFFER_LEN
      ensures worker == null && sent == [] && open
    {
      id := c.id;
      manufacturer := c.manufacturer;
      product := c.product;
      inEndpoint := c.inEndpoint;
      outEndpoint := c.outEndpoint;
      syncReadBuffer := new Byte[BUFFER_LEN];
      worker := null;
      sent := [];
      open := true;
    }

    /** `waitHandshakeAsync`: refuses only without an IN endpoint; otherwise replaces, and so cancels, the worker. */
    method WaitHandshakeAsync() returns (started: bool)
      modifies this`worker, worker
      ensures started <==> inEndpoint != 0
      ensures started ==> worker != null && fresh(worker) && !worker.cancelled
      ensures started && old(worker) != null ==> old(worker).cancelled
      ensures !started ==> worker == old(worker) && (worker != null ==> worker.cancelled == old(worker.cancelled))
    {
      if inEndpoint == 0 {
        return false;
      }
      if worker != null {
        worker.Destroy();
      }
      worker := new InterruptibleThread();
      return true;
    }

    /** The handshake worker: the poll loop, then the callback with "read anything" unless cancelled. */
    method HandshakeWorker(cancel: InterruptibleThread, polls: seq<Poll>, cancelAt: nat) returns (callback: Option<bool>)
      modifies cancel
      ensures var end := HandshakeRun(polls, if old(cancel.cancelled) then 0 else cancelAt, 0);
              (end.Received? ==> callback == Some(end.read > 0)) &&
              (!end.Received? ==> callback == None) &&
              cancel.cancelled == (old(cancel.cancelled) || !end.StillPolling?)
    {
      var end := PollForHandshake(cancel, polls, cancelAt);
      callback := None;
      match end {
        case Cancelled =>
        case Received(read) =>
          callback := Some(read > 0);
        case StillPolling =>
          return;
      }
      cancel.Cancel();
    }

    /**
     * `sendDataSync` as written: without an OUT endpoint nothing is sent;
     * otherwise, for each chunk, the staging buffer is refilled from the start
     * of `data` and sent whole, and the first transfer that writes less than
     * the chunk length ends the send with false.
     */
    method SendDataSync(data: seq<Byte>, written: nat -> int) returns (ok: bool)
      requires syncReadBuffer.Length == BUFFER_LEN
      modifies syncReadBuffer, this`sent
      ensures outEndpoint == 0 ==> !ok && sent == old(sent) && syncReadBuffer[..] == old(syncReadBuffer[..])
      ensures outEndpoint != 0 ==>
                ok == FirstShortChunk(|data|, written, 0, 0).None? &&
                sent == old(sent) + IssuedSync(data, written, 0, 0, old(syncReadBuffer[..]), false)
      ensures syncReadBuffer[..] == if |sent| > |old(sent)| then sent[|sent| - 1] else old(syncReadBuffer[..])
    {
      ok := SendStaged(data, written, false);
    }

    /**
     * `sendDataSync` with the copy taken from the chunk's own offset, as
     * evidently intended: a send that succeeds carries every chunk of `data`
     * in order at the front of its transfers (`SyncCarriesEveryChunk`).
     */
    method SendDataSyncCorrected(data: seq<Byte>, written: nat -> int) returns (ok: bool)
      requires syncReadBuffer.Length == BUFFER_LEN
      modifies syncReadBuffer, this`sent
      ensures outEndpoint == 0 ==> !ok && sent == old(sent) && syncReadBuffer[..] == old(syncReadBuffer[..])
      ensures outEndpoint != 0 ==>
                ok == FirstShortChunk(|data|, written, 0, 0).None? &&
                sent == old(sent) + IssuedSync(data, written, 0, 0, old(syncReadBuffer[..]), true)
      ensures syncReadBuffer[..] == if |sent| > |old(sent)| then sent[|sent| - 1] else old(syncReadBuffer[..])
    {
      ok := SendStaged(data, written, true);
    }

    /**
     * The loop of `sendDataSync`, staging each chunk's bytes from the start of
     * `data` or from the chunk's offset as `fromOffset` says.
     */
    method SendStaged(data: seq<Byte>, written: nat -> int, fromOffset: bool) returns (ok: bool)
      requires syncReadBuffer.Length == BUFFER_LEN
      modifies syncReadBuffer, this`sent
      ensures outEndpoint == 0 ==> !ok && sent == old(sent) && syncReadBuffer[..] == old(syncReadBuffer[..])
      ensures outEndpoint != 0 ==>
                ok == FirstShortChunk(|data|, written, 0, 0).None? &&
                sent == old(sent) + IssuedSync(data, written, 0, 0, old(syncReadBuffer[..]), fromOffset)
      ensures syncReadBuffer[..] == if |sent| > |old(sent)| then sent[|sent| - 1] else old(syncReadBuffer[..])
    {
      if outEndpoint == 0 {
        return false;
      }
      ghost var start := sent;
      ghost var initial := syncReadBuffer[..];
      var i := 0;
      var j := 0;
      while i < |data|
        invariant start + IssuedSync(data, written, 0, 0, initial, fromOffset) == sent + IssuedSync(data, written, i, j, syncReadBuffer[..], fromOffset)
        invariant FirstShortChunk(|data|, written, 0, 0) == FirstShortChunk(|data|, written, i, j)
        invariant |start| <= |sent|
        invariant syncReadBuffer[..] == if |sent| > |start| then sent[|sent| - 1] else initial
        decreases |data| - i
      {
        var available := if BUFFER_LEN < |data| - i then BUFFER_LEN else |data| - i;
        assert available == ChunkLength(|data|, i);
        ghost var before := syncReadBuffer[..];
        Stage(data, i, available, fromOffset);
        var transfer := syncReadBuffer[..];
        ghost var sentBefore := sent;
        sent := sent + [transfer];
        if written(j) < available {
          assert IssuedSync(data, written, i, j, before, fromOffset) == [transfer];
          return false;
        }
        SyncStep(data, written, i, j, before, fromOffset,
                 start + IssuedSync(data, written, 0, 0, initial, fromOffset), sentBefore, sent);
        i := i + BUFFER_LEN;
        j := j + 1;
      }
      return true;
    }

    /**
     * The `memcpy` of one chunk into the staging buffer: `available` bytes
     * from `data`, read from `offset` or from the start as `fromOffset` says.
     */
    method Stage(data: seq<Byte>, offset: nat, available: nat, fromOffset: bool)
      requires syncReadBuffer.Length == BUFFER_LEN && offset < |data| && available == ChunkLength(|data|, offset)
      modifies syncReadBuffer
      ensures syncReadBuffer[..] == StagedChunk(data, offset, old(syncReadBuffer[..]), fromOffset)
    {
      var from := if fromOffset then offset else 0;
      forall t | 0 <= t < available {
        syncReadBuffer[t] := data[from + t];
      }
    }

    /** The destructor: cancels a worker that is still running, then closes the handle. */
    method Close()
      modifies this`open, worker
      ensures !open
      ensures worker != null ==> worker.cancelled
    {
      if worker != null && !worker.IsCancelled() {
        worker.Cancel();
      }
      open := false;
    }
  }
}
