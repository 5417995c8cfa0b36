/**
 * The device object of the Maya plug-in: an opened accessory with its
 * endpoints, the handshake flag, the one-frame mailbox between the render
 * callback and the send loop (`sendReady` and `jpeg`, guarded by the send
 * mutex), the RGB staging buffer and the current worker thread.
 *
 * The bulk transfers the device issues are recorded in `sent`, one entry per
 * transfer, with the bytes handed to libusb. Byte counts reported by libusb
 * are parameters (`written(t)` for the t-th transfer of a frame).
 */
module Streamer {
  import opened Wrappers
  import opened Wire
  import opened DeviceIds
  import opened Threads
  import opened Discovery
  import opened Handshake
  import opened Framing

  /** How one pass of the send loop ends: waiting for the next frame, or leaving the loop. */
  datatype SendLoopState = Continue | Exited(failureReported: bool)

  /** The index in RGBA input of byte `i` of the RGB output: the same channel of the same pixel. */
  function RgbaIndex(i: nat): (r: nat)
    ensures r / 4 == i / 3 && r % 4 == i % 3
    ensures r < 4 * (i / 3 + 1)
  {
    (i / 3) * 4 + i % 3
  }

  /** The RGB bytes of `pixels` RGBA pixels: the alpha channel dropped, each channel quantized. */
  function RgbFromRgba<S>(rgba: seq<S>, pixels: nat, quantize: S -> Byte): (r: seq<Byte>)
    requires |rgba| >= pixels * 4
    ensures |r| == pixels * 3
  {
    seq<Byte>(pixels * 3, i requires 0 <= i < pixels * 3 => quantize(rgba[RgbaIndex(i)]))
  }

  /** Byte 3p + c of the RGB image is channel c (red, green, blue) of pixel p; alpha is never read. */
  lemma RgbChannel<S>(rgba: seq<S>, pixels: nat, quantize: S -> Byte, p: nat, c: nat)
    requires |rgba| >= pixels * 4
    requires p < pixels && c < 3
    ensures RgbFromRgba(rgba, pixels, quantize)[3 * p + c] == quantize(rgba[4 * p + c])
  {
    assert (3 * p + c) / 3 == p && (3 * p + c) % 3 == c;
    var r := RgbaIndex(3 * p + c);
    assert r == 4 * (r / 4) + r % 4;
  }

  /**
   * `libusb_context` shared by every device: `context` is the handle
   * (0 for none) and `exited` lists the contexts handed to `libusb_exit`.
   */
  class UsbLibrary {
    var context: nat
    var exited: seq<nat>

    constructor ()
      ensures context == 0 && exited == []
    {
      context := 0;
      exited := [];
    }

    /**
     * `initUsb`: does nothing when a context exists; otherwise `libusb_init`
     * writes straight into the shared handle and its status is ignored.
     * `stored` is what the call leaves there.
     */
    method InitUsb(stored: nat)
      modifies this`context
      ensures old(context) != 0 ==> context == old(context)
      ensures old(context) == 0 ==> context == stored
    {
      if context != 0 {
        return;
      }
      context := stored;
    }

    /** `exitUsb`: hands an existing context to `libusb_exit`, then forgets it. */
    method ExitUsb()
      modifies this
      ensures context == 0
      ensures exited == old(exited) + (if old(context) != 0 then [old(context)] else [])
    {
      if context != 0 {
        exited := exited + [context];
      }
      context := 0;
    }
  }

  class MayaUsbDevice {
    const id: MayaUsbDeviceId
    const manufacturer: string
    const product: string
    const inEndpoint: Byte
    const outEndpoint: Byte
    const rgbImageBuffer: array<Byte>

    var handshake: bool
    var sendReady: bool
    var jpeg: seq<Byte>
    var worker: InterruptibleThread?
    var sent: seq<seq<Byte>>
    var open: bool

    /** The device opened on `c`: no handshake yet, an empty mailbox, a 16 MiB RGB buffer, no worker. */
    constructor (c: Connection)
      ensures id == c.id && manufacturer == c.manufacturer && product == c.product
      ensures inEndpoint == c.inEndpoint && outEndpoint == c.outEndpoint
      ensures fresh(rgbImageBuffer) && rgbImageBuffer.Length == RGB_IMAGE_SIZE
      ensures !handshake && !sendReady && jpeg == [] && worker == null && sent == [] && open
    {
      id := c.id;
      manufacturer := c.manufacturer;
      product := c.product;
      inEndpoint := c.inEndpoint;
      outEndpoint := c.outEndpoint;
      rgbImageBuffer := new Byte[RGB_IMAGE_SIZE];
      handshake := false;
      sendReady := false;
      jpeg := [];
      worker := null;
      sent := [];
      open := true;
    }

    /** `getDescription`. */
    function GetDescription(): (s: string)
      ensures |s| == 11 + |manufacturer| + |product|
      ensures s[4] == ':' && s[9] == ' ' && s[10 + |manufacturer|] == ' '
      ensures ParseHex4(s[..4]) == id.vid && ParseHex4(s[5..9]) == id.pid
      ensures s[10..10 + |manufacturer|] == manufacturer && s[11 + |manufacturer|..] == product
    {
      DescriptionLayout(id, manufacturer, product);
      Description(id, manufacturer, product)
    }

    /** `isHandshakeComplete`. */
    function IsHandshakeComplete(): (r: bool)
      reads this
      ensures r <==> handshake
    {
      handshake
    }

    /**
     * `waitHandshakeAsync`: refuses without an IN endpoint or once the
     * handshake is complete; otherwise starts a new worker, which replaces,
     * and so cancels, the previous one.
     */
    method WaitHandshakeAsync() returns (started: bool)
      modifies this`worker, worker
      ensures started <==> inEndpoint != 0 && !handshake
      ensures started ==> worker != null && fresh(worker) && !worker.cancelled
      ensures started && old(worker) != null ==> old(worker).cancelled
      ensures !started ==> worker == old(worker) && (worker != null ==> worker.cancelled == old(worker.cancelled))
    {
      if inEndpoint == 0 {
        return false;
      }
      if handshake {
        return false;
      }
      if worker != null {
        worker.Destroy();
      }
      worker := new InterruptibleThread();
      return true;
    }

    /**
     * The body of the handshake worker: poll the IN endpoint; when a transfer
     * ends without a timeout and no cancel was seen, record whether it read
     * anything and report that to the callback; in every finished case set
     * the flag.
     */
    method HandshakeWorker(cancel: InterruptibleThread, polls: seq<Poll>, cancelAt: nat) returns (callback: Option<bool>)
      modifies this`handshake, cancel
      ensures var end := HandshakeRun(polls, if old(cancel.cancelled) then 0 else cancelAt, 0);
              (end.Received? ==> handshake == (end.read > 0) && callback == Some(end.read > 0)) &&
              (!end.Received? ==> handshake == old(handshake) && callback == None) &&
              cancel.cancelled == (old(cancel.cancelled) || !end.StillPolling?)
    {
      var end := PollForHandshake(cancel, polls, cancelAt);
      callback := None;
      match end {
        case Cancelled =>
        case Received(read) =>
          var success := read > 0;
          handshake := success;
          callback := Some(success);
        case StillPolling =>
          return;
      }
      cancel.Cancel();
    }

    /**
     * `beginSendLoop`: refuses without an OUT endpoint or before the
     * handshake; otherwise starts the send worker in place of the current one.
     */
    method BeginSendLoop() returns (started: bool)
      modifies this`worker, worker
      ensures started <==> outEndpoint != 0 && handshake
      ensures started ==> worker != null && fresh(worker) && !worker.cancelled
      ensures started && old(worker) != null ==> old(worker).cancelled
      ensures !started ==> worker == old(worker) && (worker != null ==> worker.cancelled == old(worker.cancelled))
    {
      if outEndpoint == 0 {
        return false;
      }
      if !handshake {
        return false;
      }
      if worker != null {
        worker.Destroy();
      }
      worker := new InterruptibleThread();
      return true;
    }

    /**
     * One pass of the send loop, once the wait on the condition variable has
     * returned. A cancel writes the poison frame and leaves without reporting
     * a failure. Otherwise the length prefix and the chunks of `jpeg` go out;
     * the first short write reports a failure and leaves the loop with the
     * frame still pending; when every write is whole the mailbox is emptied.
     */
    method SendLoopStep(cancel: InterruptibleThread, written: nat -> int) returns (next: SendLoopState)
      requires sendReady || cancel.cancelled
      modifies this`sent, this`sendReady
      ensures cancel.cancelled ==>
                next == Exited(false) && sent == old(sent) + [POISON_FRAME] && sendReady == old(sendReady)
      ensures !cancel.cancelled && written(0) < 4 ==>
                next == Exited(true) && sent == old(sent) + [FramePrefix(|jpeg|)] && sendReady == old(sendReady)
      ensures !cancel.cancelled && written(0) >= 4 ==>
                sent == old(sent) + [FramePrefix(|jpeg|)] + IssuedChunks(jpeg, written, 0, 1) &&
                if FirstShortChunk(|jpeg|, written, 0, 1).None? then next == Continue && !sendReady
                else next == Exited(true) && sendReady == old(sendReady)
    {
      if cancel.IsCancelled() {
        sent := sent + [POISON_FRAME];
        return Exited(false);
      }
      var prefix := FramePrefix(|jpeg|);
      sent := sent + [prefix];
      if written(0) < 4 {
        return Exited(true);
      }
      ghost var start := sent;
      var i := 0;
      var j := 1;
      while i < |jpeg|
        invariant j >= 1
        invariant start + IssuedChunks(jpeg, written, 0, 1) == sent + IssuedChunks(jpeg, written, i, j)
        invariant FirstShortChunk(|jpeg|, written, 0, 1) == FirstShortChunk(|jpeg|, written, i, j)
        invariant sendReady == old(sendReady)
        decreases |jpeg| - i
      {
        var chunk := if BUFFER_LEN < |jpeg| - i then BUFFER_LEN else |jpeg| - i;
        var data := jpeg[i..i + chunk];
        assert chunk == ChunkLength(|jpeg|, i);
        ghost var before := sent;
        sent := sent + [data];
        if written(j) < chunk {
          assert IssuedChunks(jpeg, written, i, j) == [data];
          return Exited(true);
        }
        IssuedStep(jpeg, written, i, j, start + IssuedChunks(jpeg, written, 0, 1), before, sent);
        i := i + BUFFER_LEN;
        j := j + 1;
      }
      sendReady := false;
      return Continue;
    }

    /**
     * `sendRgbaFloat32Sync`: frames larger than the RGB buffer are dropped.
     * Otherwise the RGBA input is converted to RGB in the staging buffer;
     * then, only when the send mutex is free and no frame is pending, the RGB
     * image is compressed into the mailbox, which becomes pending, and the
     * compressed size is returned. In every other case the result is 0 and
     * the mailbox is untouched.
     */
    method SendRgbaFloat32Sync<S>(rgba: seq<S>, width: nat, height: nat, quantize: S -> Byte,
                                  compress: (seq<Byte>, nat, nat) -> seq<Byte>, lockAcquired: bool)
      returns (produced: nat)
      requires rgbImageBuffer.Length == RGB_IMAGE_SIZE
      requires |rgba| >= width * height * 4
      modifies rgbImageBuffer, this`sendReady, this`jpeg
      ensures width * height * 3 > RGB_IMAGE_SIZE ==>
                produced == 0 && rgbImageBuffer[..] == old(rgbImageBuffer[..]) &&
                sendReady == old(sendReady) && jpeg == old(jpeg)
      ensures width * height * 3 <= RGB_IMAGE_SIZE ==>
                rgbImageBuffer[..width * height * 3] == RgbFromRgba(rgba, width * height, quantize) &&
                rgbImageBuffer[width * height * 3..] == old(rgbImageBuffer[width * height * 3..]) &&
                if lockAcquired && !old(sendReady) then
                  sendReady && jpeg == compress(RgbFromRgba(rgba, width * height, quantize), width, height) &&
                  produced == |jpeg|
                else
                  sendReady == old(sendReady) && jpeg == old(jpeg) && produced == 0
    {
      var rgbImageSize := width * height * 3;
      if rgbImageSize > RGB_IMAGE_SIZE {
        return 0;
      }
      ghost var expected := RgbFromRgba(rgba, width * height, quantize);
      var i := 0;
      while i < rgbImageSize
        invariant 0 <= i <= rgbImageSize
        invariant rgbImageBuffer[..i] == expected[..i]
        invariant rgbImageBuffer[rgbImageSize..] == old(rgbImageBuffer[rgbImageSize..])
        invariant sendReady == old(sendReady) && jpeg == old(jpeg)
      {
        var pixel := i / 3;
        var offset := i % 3;
        var rgbaIndex := pixel * 4 + offset;
        assert rgbaIndex == RgbaIndex(i) && rgbaIndex < |rgba|;
        rgbImageBuffer[i] := quantize(rgba[rgbaIndex]);
        i := i + 1;
      }
      assert rgbImageBuffer[..rgbImageSize] == expected;
      if lockAcquired && !sendReady {
        jpeg := compress(rgbImageBuffer[..rgbImageSize], width, height);
        sendReady := true;
        return |jpeg|;
      }
      return 0;
    }

    /**
     * The destructor: cancels a worker that is still running (the send loop
     * is woken so that it sees the cancel), then closes the handle.
     */
    method Close()
      modifies this`open, worker
      ensures !open
      ensures worker != null ==> worker.cancelled
    {
      if worker != null && !worker.IsCancelled() {
        worker.Cancel();
      }
      open := false;
    }
  }

  /**
   * The device constructor from a candidate list: the open sequence, then
   * the fresh device object; the open sequence's error otherwise.
   */
  method OpenDevice(ids: seq<MayaUsbDeviceId>, bus: UsbBus) returns (r: Result<MayaUsbDevice, ConnectError>)
    ensures FirstOpenable(ids, bus).None? <==> r == Failure(NoMatchingDevice)
    ensures FirstOpenable(ids, bus).Some? ==>
              var id := FirstOpenable(ids, bus).value;
              id in bus &&
              var dev := bus[id];
              if !dev.deviceDescriptor then r == Failure(NoDeviceDescriptor)
              else if dev.manufacturer.None? then r == Failure(NoManufacturerString)
              else if dev.product.None? then r == Failure(NoProductString)
              else if dev.endpoints.None? then r == Failure(NoConfigDescriptor)
              else r.Success? && fresh(r.value) &&
                   r.value.id == id &&
                   r.value.manufacturer == dev.manufacturer.value &&
                   r.value.product == dev.product.value &&
                   r.value.inEndpoint == LastInDirection(dev.endpoints.value, true, 0) &&
                   r.value.outEndpoint == LastInDirection(dev.endpoints.value, false, 0) &&
                   !r.value.handshake && !r.value.sendReady && r.value.jpeg == [] &&
                   r.value.worker == null && r.value.sent == [] && r.value.open
  {
    var c := Connect(ids, bus);
    if c.Failure? {
      return Failure(c.error);
    }
    var device := new MayaUsbDevice(c.value);
    return Success(device);
  }
}
