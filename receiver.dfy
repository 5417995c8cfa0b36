/**
 * The phone side: after the handshake (BUFFER_LEN zero bytes), the read
 * thread reads frames until a zero size ends the stream. Each iteration
 * first writes the 4-byte acknowledgement on every 100th iteration, then
 * reads a signed big-endian size, rejects sizes below 0 or above 4 MiB, and
 * reads that many bytes into a buffer that starts at 1 MiB and is replaced by
 * a larger one when a frame does not fit. The accessory's input is the byte
 * sequence `input`; whether the acknowledgement of iteration n can be written
 * is `ackWritable(n)`. Decoding and drawing the JPEG are not part of this model.
 */
module Receiver {
  import opened Wrappers
  import opened Wire
  import opened DeviceIds

  const ACK: seq<Byte> := [4, 8, 15, 16]
  const ACK_INTERVAL: nat := 100
  const INITIAL_BUFFER: nat := 1024 * 1024
  const MAX_FRAME: nat := 1024 * 1024 * 4

  /** The handshake `sendHandshake` writes: BUFFER_LEN zero bytes. */
  function HandshakeMessage(): (m: seq<Byte>)
    ensures |m| == BUFFER_LEN && forall b <- m :: b == 0
  {
    seq(BUFFER_LEN, _ => 0)
  }

  /**
   * `sendHandshake`: one write of the handshake; it reports success exactly
   * when the write does not fail. `attempted` is what is handed to the stream.
   */
  method SendHandshake(writeOk: bool) returns (ok: bool, attempted: seq<Byte>)
    ensures attempted == HandshakeMessage() && |attempted| == BUFFER_LEN
    ensures ok <==> writeOk
  {
    var handshake := seq(BUFFER_LEN, _ => 0);
    attempted := handshake;
    if writeOk {
      ok := true;
    } else {
      ok := false;
    }
  }

  /** How the read loop ends: a zero size, a size out of range, input ending mid-read, or a failed acknowledgement. */
  datatype ReadEnd = EndOfStream | OutOfRange(size: int) | Truncated | AckFailed

  /**
   * What the read loop does: the frames it reads, in order, how it ends, the
   * iterations that wrote an acknowledgement, and the largest frame size it
   * accepted (the buffer is grown for it before the payload is read).
   */
  datatype ReadResult = ReadResult(frames: seq<seq<Byte>>, end: ReadEnd, acks: seq<nat>, peak: nat)

  function Max(a: nat, b: nat): nat
  {
    if a < b then b else a
  }

  /** Whether iteration `n` (counted from 1) writes an acknowledgement. */
  predicate AcksAt(n: nat)
  {
    n % ACK_INTERVAL == 0
  }

  /**
   * One pass of the loop body: either it leaves the loop (with how, whether it
   * wrote an acknowledgement and how far it grew the buffer) or it reads a
   * frame of `size` bytes.
   */
  datatype Iteration =
    | Stop(end: ReadEnd, acked: bool, grownTo: nat)
    | Frame(size: nat, acked: bool)

  /**
   * Iteration `i + 1` of the read loop, reading from byte `pos`: the
   * acknowledgement comes first, then the size, then the payload.
   */
  function Iterate(input: seq<Byte>, pos: nat, i: nat, ackWritable: nat -> bool): (it: Iteration)
    requires pos <= |input|
    ensures it.acked <==> AcksAt(i + 1) && !(it.Stop? && it.end == AckFailed)
    ensures it.Stop? && it.end == AckFailed <==> AcksAt(i + 1) && !ackWritable(i + 1)
    ensures it.Frame? ==> 0 < it.size <= MAX_FRAME && pos + 4 + it.size <= |input|
    ensures it.Frame? ==> SignedInt32(input[pos..pos + 4]) == it.size
    ensures it.Stop? ==> it.grownTo <= MAX_FRAME
    ensures it.Stop? && it.end.OutOfRange? ==> it.end.size < 0 || it.end.size > MAX_FRAME
  {
    var n := i + 1;
    if AcksAt(n) && !ackWritable(n) then Stop(AckFailed, false, 0)
    else if |input| - pos < 4 then Stop(Truncated, AcksAt(n), 0)
    else
      var size := SignedInt32(input[pos..pos + 4]);
      if size < 0 || size > MAX_FRAME then Stop(OutOfRange(size), AcksAt(n), 0)
      else if size == 0 then Stop(EndOfStream, AcksAt(n), 0)
      else if |input| - pos - 4 < size then Stop(Truncated, AcksAt(n), size)
      else Frame(size, AcksAt(n))
  }

  /** The acknowledgement an iteration writes, as the list of iteration numbers. */
  function AckOf(it: Iteration, n: nat): seq<nat>
  {
    if it.acked then [n] else []
  }

  /**
   * The read loop on `input` from byte `pos` on, after `i` iterations: the
   * iterations follow each other until one leaves the loop.
   */
  function ReadLoop(input: seq<Byte>, pos: nat, i: nat, ackWritable: nat -> bool): (r: ReadResult)
    requires pos <= |input|
    ensures r.end.OutOfRange? ==> r.end.size < 0 || r.end.size > MAX_FRAME
    ensures r.peak <= MAX_FRAME
    decreases |input| - pos
  {
    var it := Iterate(input, pos, i, ackWritable);
    match it
    case Stop(end, _, grownTo) => ReadResult([], end, AckOf(it, i + 1), grownTo)
    case Frame(size, _) =>
      var rest := ReadLoop(input, pos + 4 + size, i + 1, ackWritable);
      ReadResult([input[pos + 4..pos + 4 + size]] + rest.frames, rest.end, AckOf(it, i + 1) + rest.acks, Max(size, rest.peak))
  }

  /**
   * Every frame the loop delivers is non-empty and no larger than the largest
   * accepted size, which is at most 4 MiB.
   */
  lemma {:induction false} FramesWithinPeak(input: seq<Byte>, pos: nat, i: nat, ackWritable: nat -> bool)
    requires pos <= |input|
    ensures var r := ReadLoop(input, pos, i, ackWritable);
            forall f <- r.frames :: 0 < |f| <= r.peak <= MAX_FRAME
    decreases |input| - pos
  {
    var it := Iterate(input, pos, i, ackWritable);
    if it.Frame? {
      FramesWithinPeak(input, pos + 4 + it.size, i + 1, ackWritable);
    }
  }

  /** The iteration numbers from `lo` to `hi` that are multiples of ACK_INTERVAL, in order. */
  function MultiplesIn(lo: nat, hi: nat): (r: seq<nat>)
    ensures forall k <- r :: lo <= k <= hi && AcksAt(k)
    decreases hi + 1 - lo
  {
    if lo > hi then [] else (if AcksAt(lo) then [lo] else []) + MultiplesIn(lo + 1, hi)
  }

  /**
   * The acknowledgements `r` records are those on the iterations after `i`
   * that are multiples of ACK_INTERVAL, up to the last iteration it ran.
   */
  predicate AcksMatch(r: ReadResult, i: nat)
  {
    r.acks == MultiplesIn(i + 1, i + |r.frames| + 1)
  }

  /**
   * When every acknowledgement can be written, the loop writes one on exactly
   * the iterations it runs whose number is a multiple of ACK_INTERVAL: the
   * iterations that read a frame and the last one.
   */
  lemma {:induction false} AcksAreTheMultiples(input: seq<Byte>, pos: nat, i: nat, ackWritable: nat -> bool)
    requires pos <= |input|
    requires forall n :: ackWritable(n)
    ensures AcksMatch(ReadLoop(input, pos, i, ackWritable), i)
    decreases |input| - pos
  {
    var it := Iterate(input, pos, i, ackWritable);
    if it.Frame? {
      AcksAreTheMultiples(input, pos + 4 + it.size, i + 1, ackWritable);
      FrameAcks(input, pos, i, ackWritable, it.size, ReadLoop(input, pos, i, ackWritable), ReadLoop(input, pos + 4 + it.size, i + 1, ackWritable));
    } else {
      assert ackWritable(i + 1);
      StopAcks(input, pos, i, ackWritable);
    }
  }

  /** `AcksAreTheMultiples` at an iteration that reads a frame, given it for the rest of the loop. */
  lemma FrameAcks(input: seq<Byte>, pos: nat, i: nat, ackWritable: nat -> bool, size: nat, r: ReadResult, rest: ReadResult)
    requires pos <= |input| && Iterate(input, pos, i, ackWritable) == Frame(size, AcksAt(i + 1))
    requires r == ReadLoop(input, pos, i, ackWritable) && rest == ReadLoop(input, pos + 4 + size, i + 1, ackWritable)
    requires AcksMatch(rest, i + 1)
    ensures AcksMatch(r, i)
  {
    FrameUnfolds(input, pos, i, ackWritable, size, rest);
    AcksOfFrame(r, rest, input[pos + 4..pos + 4 + size], i, size);
  }

  /** `AcksAreTheMultiples` at an iteration that leaves the loop. */
  lemma StopAcks(input: seq<Byte>, pos: nat, i: nat, ackWritable: nat -> bool)
    requires pos <= |input| && Iterate(input, pos, i, ackWritable).Stop? && ackWritable(i + 1)
    ensures AcksMatch(ReadLoop(input, pos, i, ackWritable), i)
  {
    StopUnfolds(input, pos, i, ackWritable);
    AcksOfStop(ReadLoop(input, pos, i, ackWritable), i);
  }

  /** The acknowledgements of an iteration that reads a frame, followed by those of the rest of the loop. */
  lemma AcksOfFrame(r: ReadResult, rest: ReadResult, head: seq<Byte>, i: nat, size: nat)
    requires r == ReadResult([head] + rest.frames, rest.end,
                             AckOf(Frame(size, AcksAt(i + 1)), i + 1) + rest.acks, Max(size, rest.peak))
    requires rest.acks == MultiplesIn(i + 1 + 1, i + 1 + |rest.frames| + 1)
    ensures r.acks == MultiplesIn(i + 1, i + |r.frames| + 1)
  {
    assert i + |r.frames| + 1 == i + 1 + |rest.frames| + 1;
  }

  /** The acknowledgement of an iteration that leaves the loop without reading a frame. */
  lemma AcksOfStop(r: ReadResult, i: nat)
    requires r.frames == [] && r.acks == (if AcksAt(i + 1) then [i + 1] else [])
    ensures r.acks == MultiplesIn(i + 1, i + |r.frames| + 1)
  {
    assert MultiplesIn(i + 2, i + 1) == [];
  }

  /**
   * An acknowledgement that cannot be written ends the loop there: nothing is
   * read in that iteration and no acknowledgement is counted for it.
   */
  lemma AckFailureEndsLoop(input: seq<Byte>, pos: nat, i: nat, ackWritable: nat -> bool)
    requires pos <= |input|
    requires AcksAt(i + 1) && !ackWritable(i + 1)
    ensures ReadLoop(input, pos, i, ackWritable) == ReadResult([], AckFailed, [], 0)
  {
  }

  /** An iteration that leaves the loop is the whole of what the loop does from there. */
  lemma StopUnfolds(input: seq<Byte>, pos: nat, i: nat, ackWritable: nat -> bool)
    requires pos <= |input| && Iterate(input, pos, i, ackWritable).Stop?
    ensures var it := Iterate(input, pos, i, ackWritable);
            ReadLoop(input, pos, i, ackWritable) == ReadResult([], it.end, AckOf(it, i + 1), it.grownTo)
  {
  }

  /** `rest` preceded by frames, acknowledgements and a peak already accumulated. */
  function After(frames: seq<seq<Byte>>, acks: seq<nat>, peak: nat, rest: ReadResult): ReadResult
  {
    ReadResult(frames + rest.frames, rest.end, acks + rest.acks, Max(peak, rest.peak))
  }

  /**
   * The loop invariant of `RunReadThread` carried over one iteration that reads
   * a whole frame of `size` bytes: the frame is appended, the acknowledgement
   * recorded and the peak raised, and the loop goes on after the frame.
   */
  lemma FrameStepKeepsInvariant(target: ReadResult, input: seq<Byte>, ackWritable: nat -> bool, size: nat, acked: seq<nat>,
                                frames: seq<seq<Byte>>, acks: seq<nat>, peak: nat, pos: nat, i: nat,
                                frames': seq<seq<Byte>>, acks': seq<nat>, peak': nat, pos': nat, i': nat)
    requires pos <= |input| && Iterate(input, pos, i, ackWritable) == Frame(size, AcksAt(i + 1))
    requires acked == AckOf(Frame(size, AcksAt(i + 1)), i + 1)
    requires target == After(frames, acks, peak, ReadLoop(input, pos, i, ackWritable))
    requires pos' == pos + 4 + size && pos' <= |input| && i' == i + 1
    requires frames' == frames + [input[pos + 4..pos + 4 + size]]
    requires acks' == acks + acked && peak' == Max(peak, size)
    ensures target == After(frames', acks', peak', ReadLoop(input, pos', i', ackWritable))
  {
    var rest := ReadLoop(input, pos', i', ackWritable);
    FrameUnfolds(input, pos, i, ackWritable, size, rest);
    AfterFrame(frames, acks, peak, input[pos + 4..pos + 4 + size], acked, size, rest);
  }

  /** Accumulating one more frame before `rest` is the same as reading it as part of `rest`. */
  lemma AfterFrame(frames: seq<seq<Byte>>, acks: seq<nat>, peak: nat, f: seq<Byte>, acked: seq<nat>, size: nat, rest: ReadResult)
    ensures After(frames, acks, peak, ReadResult([f] + rest.frames, rest.end, acked + rest.acks, Max(size, rest.peak)))
         == After(frames + [f], acks + acked, Max(peak, size), rest)
  {
    assert frames + ([f] + rest.frames) == (frames + [f]) + rest.frames;
    assert acks + (acked + rest.acks) == (acks + acked) + rest.acks;
  }

  /** An iteration that reads a frame puts it in front of what the rest of the loop reads. */
  lemma FrameUnfolds(input: seq<Byte>, pos: nat, i: nat, ackWritable: nat -> bool, size: nat, rest: ReadResult)
    requires pos <= |input| && Iterate(input, pos, i, ackWritable) == Frame(size, AcksAt(i + 1))
    requires rest == ReadLoop(input, pos + 4 + size, i + 1, ackWritable)
    ensures ReadLoop(input, pos, i, ackWritable) ==
              ReadResult([input[pos + 4..pos + 4 + size]] + rest.frames, rest.end,
                         AckOf(Frame(size, AcksAt(i + 1)), i + 1) + rest.acks, Max(size, rest.peak))
  {
  }

  /** The loop invariant of `RunReadThread` at an iteration that leaves the loop. */
  lemma StopEndsRun(target: ReadResult, input: seq<Byte>, ackWritable: nat -> bool,
                    frames: seq<seq<Byte>>, acks: seq<nat>, peak: nat, pos: nat, i: nat)
    requires pos <= |input| && Iterate(input, pos, i, ackWritable).Stop?
    requires target == After(frames, acks, peak, ReadLoop(input, pos, i, ackWritable))
    ensures var it := Iterate(input, pos, i, ackWritable);
            target == ReadResult(frames, it.end, acks + AckOf(it, i + 1), Max(peak, it.grownTo))
  {
    assert frames + [] == frames;
  }

  /** `readFully` into the front of `buffer`. */
  method ReadFully(buffer: array<Byte>, input: seq<Byte>, from: nat, size: nat) returns (frame: seq<Byte>)
    requires from + size <= |input| && size <= buffer.Length
    modifies buffer
    ensures buffer[..size] == frame == input[from..from + size]
  {
    forall t | 0 <= t < size {
      buffer[t] := input[from + t];
    }
    frame := buffer[..size];
  }

  /**
   * The callbacks the read thread posts, as written: a clean end posts
   * success; any exception posts failure and then, falling through, success.
   */
  function PostedCompletions(end: ReadEnd): (r: seq<bool>)
    ensures 0 < |r| && r[|r| - 1]
    ensures r[0] <==> end == EndOfStream
  {
    if end == EndOfStream then [true] else [false, true]
  }

  /** A truncated stream is reported as a failure and then as a success. */
  lemma ErrorAlsoReportsSuccess()
    ensures PostedCompletions(Truncated) == [false, true]
    ensures PostedCompletions(Truncated)[|PostedCompletions(Truncated)| - 1]
  {
  }

  /** The callbacks the read thread evidently intends: exactly one, success only on a clean end. */
  function IntendedCompletions(end: ReadEnd): (r: seq<bool>)
    ensures |r| == 1 && (r[0] <==> end == EndOfStream)
  {
    [end == EndOfStream]
  }

  /** The intended callbacks agree with the posted ones exactly on a clean end. */
  lemma IntendedMatchesPostedOnlyOnCleanEnd(end: ReadEnd)
    ensures IntendedCompletions(end) == PostedCompletions(end) <==> end == EndOfStream
  {
    if end != EndOfStream {
      assert |PostedCompletions(end)| == 2;
    }
  }

  /**
   * The head of one iteration of `runReadThread`: the acknowledgement on
   * every ACK_INTERVAL-th iteration, the `readInt` of the size and its
   * checks. `stop` is how the loop ends when it ends here; otherwise `size` is
   * the accepted size, and the iteration reads a frame exactly when the
   * payload is all there.
   */
  method ReadHeader(input: seq<Byte>, pos: nat, i: nat, ackWritable: nat -> bool)
    returns (acked: seq<nat>, stop: Option<ReadEnd>, size: nat)
    requires pos <= |input|
    ensures var it := Iterate(input, pos, i, ackWritable);
            stop.Some? ==> it == Stop(stop.value, it.acked, 0) && acked == AckOf(it, i + 1)
    ensures stop.None? ==>
              0 < size <= MAX_FRAME && pos + 4 <= |input| && SignedInt32(input[pos..pos + 4]) == size &&
              acked == AckOf(Frame(size, AcksAt(i + 1)), i + 1) &&
              Iterate(input, pos, i, ackWritable) ==
                if |input| - pos - 4 < size then Stop(Truncated, AcksAt(i + 1), size) else Frame(size, AcksAt(i + 1))
  {
    var n := i + 1;
    acked, size := [], 0;
    if n % ACK_INTERVAL == 0 {
      if !ackWritable(n) {
        return acked, Some(AckFailed), size;
      }
      acked := [n];
    }
    if |input| - pos < 4 {
      return acked, Some(Truncated), size;
    }
    var read := SignedInt32(input[pos..pos + 4]);
    if read < 0 || read > MAX_FRAME {
      return acked, Some(OutOfRange(read)), size;
    } else if read == 0 {
      return acked, Some(EndOfStream), size;
    }
    return acked, None, read;
  }

  /**
   * `runReadThread`, with the buffer kept as an array. The frames read, the
   * end and the acknowledgements are those of `ReadLoop`; the buffer ends as
   * large as the initial megabyte or the largest accepted size, whichever is
   * more; the callbacks posted are `PostedCompletions` of the end.
   */
  method RunReadThread(input: seq<Byte>, ackWritable: nat -> bool)
    returns (frames: seq<seq<Byte>>, end: ReadEnd, acks: seq<nat>, capacity: nat, posted: seq<bool>)
    ensures var r := ReadLoop(input, 0, 0, ackWritable);
            frames == r.frames && end == r.end && acks == r.acks && capacity == Max(INITIAL_BUFFER, r.peak)
    ensures posted == PostedCompletions(end)
  {
    ghost var target := ReadLoop(input, 0, 0, ackWritable);
    var buffer := new Byte[INITIAL_BUFFER];
    ghost var peak: nat := 0;
    frames, acks := [], [];
    var pos: nat := 0;
    var i: nat := 0;
    assert [] + target.frames == target.frames;
    assert [] + target.acks == target.acks;
    while true
      invariant pos <= |input|
      invariant fresh(buffer) && buffer.Length == Max(INITIAL_BUFFER, peak)
      invariant target == After(frames, acks, peak, ReadLoop(input, pos, i, ackWritable))
      decreases |input| - pos
    {
      var acked, stop, size := ReadHeader(input, pos, i, ackWritable);
      if stop.Some? {
        StopEndsRun(target, input, ackWritable, frames, acks, peak, pos, i);
        acks := acks + acked;
        end := stop.value;
        break;
      }
      if buffer.Length < size {
        buffer := new Byte[size];
      }
      if |input| - pos - 4 < size {
        StopEndsRun(target, input, ackWritable, frames, acks, peak, pos, i);
        acks := acks + acked;
        peak := Max(peak, size);
        end := Truncated;
        break;
      }
      var frame := ReadFully(buffer, input, pos + 4, size);
      ghost var frames0, acks0, peak0, pos0, i0 := frames, acks, peak, pos, i;
      frames := frames + [frame];
      acks := acks + acked;
      peak := Max(peak, size);
      pos, i := pos + 4 + size, i + 1;
      FrameStepKeepsInvariant(target, input, ackWritable, size, acked, frames0, acks0, peak0, pos0, i0, frames, acks, peak, pos, i);
    }
    capacity := buffer.Length;
    if end == EndOfStream {
      posted := [true];
    } else {
      posted := [false];
      posted := posted + [true];
    }
  }
}
