/**
 * The host's send loop and the phone's read loop are two ends of one byte
 * stream. The lemmas here connect them: the transfers of a fully written frame
 * spell the encoded frame, and a stream of encoded frames closed by the poison
 * frame is read back by the phone as exactly those frames, ending normally.
 */
module Protocol {
  import opened Wire
  import opened DeviceIds
  import opened Framing
  import opened Receiver
  import opened Handshake

  /** What the host puts on the pipe for `frames`, then the poison frame sent on cancel. */
  function EncodeStream(frames: seq<seq<Byte>>): (r: seq<Byte>)
    ensures |r| >= 4 && r[|r| - 4..] == POISON_FRAME
  {
    if frames == [] then POISON_FRAME else EncodeFrame(frames[0]) + EncodeStream(frames[1..])
  }

  /** A payload the phone accepts: non-empty and at most 4 MiB. */
  predicate Deliverable(p: seq<Byte>)
  {
    0 < |p| <= MAX_FRAME
  }

  /**
   * The transfers one pass of the send loop issues for a frame whose prefix
   * and chunks are all written whole put the encoded frame on the pipe.
   */
  lemma {:induction false} SentFrameSpellsFrame(p: seq<Byte>, written: nat -> int)
    requires FirstShortChunk(|p|, written, 0, 1).None?
    ensures Flatten([FramePrefix(|p|)] + IssuedChunks(p, written, 0, 1)) == EncodeFrame(p)
  {
    IssuedChunksArePrefix(p, written, 0, 1);
    FrameTransfersSpellFrame(p);
  }

  /** The length prefix of a deliverable payload is read back by `readInt` as its length. */
  lemma PrefixReadsAsLength(n: nat)
    requires n <= MAX_FRAME
    ensures SignedInt32(FramePrefix(n)) == n
  {
    SignedReadOfSmallValue(n);
  }

  /** One iteration only looks at the bytes from `pos` on, found at `q` behind `prefix`. */
  lemma IterateShift(prefix: seq<Byte>, s: seq<Byte>, pos: nat, q: nat, i: nat, ackWritable: nat -> bool)
    requires pos <= |s| && q == |prefix| + pos
    ensures Iterate(prefix + s, q, i, ackWritable) == Iterate(s, pos, i, ackWritable)
  {
    var t := prefix + s;
    if |s| - pos >= 4 {
      assert t[q..q + 4] == s[pos..pos + 4];
    }
  }

  /**
   * The read loop only looks at the bytes from `pos` on: bytes already
   * consumed, here `prefix`, do not matter.
   */
  lemma {:induction false} ReadLoopShift(prefix: seq<Byte>, s: seq<Byte>, pos: nat, q: nat, i: nat, ackWritable: nat -> bool)
    requires pos <= |s| && q == |prefix| + pos
    ensures ReadLoop(prefix + s, q, i, ackWritable) == ReadLoop(s, pos, i, ackWritable)
    decreases |s| - pos
  {
    IterateShift(prefix, s, pos, q, i, ackWritable);
    var it := Iterate(s, pos, i, ackWritable);
    if it.Frame? {
      assert it == Frame(it.size, AcksAt(i + 1));
      ReadLoopShift(prefix, s, pos + 4 + it.size, q + 4 + it.size, i + 1, ackWritable);
      ShiftFrame(prefix, s, pos, q, i, ackWritable, it.size);
    } else {
      StopUnfolds(s, pos, i, ackWritable);
      StopUnfolds(prefix + s, q, i, ackWritable);
    }
  }

  /**
   * `ReadLoopShift` at an iteration that reads a frame of `size` bytes, given
   * it for the rest of the loop.
   */
  lemma ShiftFrame(prefix: seq<Byte>, s: seq<Byte>, pos: nat, q: nat, i: nat, ackWritable: nat -> bool, size: nat)
    requires pos <= |s| && q == |prefix| + pos
    requires Iterate(prefix + s, q, i, ackWritable) == Frame(size, AcksAt(i + 1)) == Iterate(s, pos, i, ackWritable)
    requires ReadLoop(prefix + s, q + 4 + size, i + 1, ackWritable) == ReadLoop(s, pos + 4 + size, i + 1, ackWritable)
    ensures ReadLoop(prefix + s, q, i, ackWritable) == ReadLoop(s, pos, i, ackWritable)
  {
    var t := prefix + s;
    var rest := ReadLoop(s, pos + 4 + size, i + 1, ackWritable);
    assert t[q + 4..q + 4 + size] == s[pos + 4..pos + 4 + size];
    FrameUnfolds(s, pos, i, ackWritable, size, rest);
    FrameUnfolds(t, q, i, ackWritable, size, rest);
  }

  /**
   * One deliverable frame at the front of the stream is read back whole, and
   * the loop goes on with what follows it.
   */
  lemma OneFrameRoundTrip(p: seq<Byte>, rest: seq<Byte>, i: nat, ackWritable: nat -> bool)
    requires Deliverable(p)
    requires !(AcksAt(i + 1) && !ackWritable(i + 1))
    ensures var r := ReadLoop(EncodeFrame(p) + rest, 0, i, ackWritable);
            var next := ReadLoop(rest, 0, i + 1, ackWritable);
            r.frames == [p] + next.frames && r.end == next.end
  {
    var s := EncodeFrame(p) + rest;
    assert s[0..4] == FramePrefix(|p|);
    PrefixReadsAsLength(|p|);
    assert s[4..4 + |p|] == p;
    var next := ReadLoop(s, 4 + |p|, i + 1, ackWritable);
    assert ReadLoop(s, 0, i, ackWritable).frames == [p] + next.frames;
    assert ReadLoop(s, 0, i, ackWritable).end == next.end;
    ReadLoopShift(EncodeFrame(p), rest, 0, 4 + |p|, i + 1, ackWritable);
  }

  /** The poison frame alone ends the read loop normally, with no frame delivered. */
  lemma PoisonEndsStream(i: nat, ackWritable: nat -> bool)
    requires !(AcksAt(i + 1) && !ackWritable(i + 1))
    ensures ReadLoop(POISON_FRAME, 0, i, ackWritable).end == EndOfStream
    ensures ReadLoop(POISON_FRAME, 0, i, ackWritable).frames == []
  {
    assert POISON_FRAME[0..4] == POISON_FRAME;
  }

  /**
   * The round trip of the whole protocol: when every payload is deliverable
   * and every acknowledgement can be written, the phone reads back exactly
   * the frames the host sent, in order, and the poison frame ends the stream
   * normally.
   */
  lemma {:induction false} StreamRoundTrip(frames: seq<seq<Byte>>, i: nat, ackWritable: nat -> bool)
    requires forall f <- frames :: Deliverable(f)
    requires forall n :: ackWritable(n)
    ensures ReadLoop(EncodeStream(frames), 0, i, ackWritable).frames == frames
    ensures ReadLoop(EncodeStream(frames), 0, i, ackWritable).end == EndOfStream
    decreases |frames|
  {
    assert ackWritable(i + 1);
    if frames == [] {
      PoisonEndsStream(i, ackWritable);
    } else {
      var f, tail := frames[0], frames[1..];
      assert f in frames;
      assert forall g <- tail :: g in frames;
      assert EncodeStream(frames) == EncodeFrame(f) + EncodeStream(tail);
      OneFrameRoundTrip(f, EncodeStream(tail), i, ackWritable);
      StreamRoundTrip(tail, i + 1, ackWritable);
      assert [f] + tail == frames;
    }
  }

  /**
   * A payload over 4 MiB but below 2^31 bytes is announced with its own
   * length, which the phone rejects: the stream ends in error and nothing of
   * the frame is delivered.
   */
  lemma OversizeFrameRejected(p: seq<Byte>, rest: seq<Byte>, i: nat, ackWritable: nat -> bool)
    requires MAX_FRAME < |p| < INT32_LIMIT
    requires !(AcksAt(i + 1) && !ackWritable(i + 1))
    ensures ReadLoop(EncodeFrame(p) + rest, 0, i, ackWritable).end == OutOfRange(|p|)
    ensures ReadLoop(EncodeFrame(p) + rest, 0, i, ackWritable).frames == []
  {
    var s := EncodeFrame(p) + rest;
    assert s[0..4] == FramePrefix(|p|);
    SignedReadOfSmallValue(|p|);
  }

  /**
   * An empty payload is announced with length 0, which is the poison frame:
   * the phone takes it for the end of the stream and ignores what follows.
   */
  lemma EmptyFrameEndsStream(rest: seq<Byte>, i: nat, ackWritable: nat -> bool)
    requires !(AcksAt(i + 1) && !ackWritable(i + 1))
    ensures EncodeFrame([]) == POISON_FRAME
    ensures ReadLoop(EncodeFrame([]) + rest, 0, i, ackWritable).end == EndOfStream
    ensures ReadLoop(EncodeFrame([]) + rest, 0, i, ackWritable).frames == []
  {
    var s := EncodeFrame([]) + rest;
    assert s[0..4] == POISON_FRAME;
  }

  /**
   * A 10-byte payload is sent as two transfers, the 4-byte prefix holding 10
   * and then the payload itself, and the phone reads it back.
   */
  lemma TenByteFrame(p: seq<Byte>)
    requires |p| == 10
    ensures FrameTransfers(p) == [[0, 0, 0, 10], p]
    ensures ReadLoop(EncodeStream([p]), 0, 0, _ => true).frames == [p]
  {
    assert ChunksFrom(p, BUFFER_LEN) == [];
    assert p[0..10] == p;
    StreamRoundTrip([p], 0, _ => true);
  }

  /**
   * With every acknowledgement writable, reading the encoded `frames` from
   * iteration count `i` writes an acknowledgement on exactly the iterations
   * after `i` that are multiples of 100, up to the one that reads the poison
   * frame.
   */
  lemma StreamAcks(frames: seq<seq<Byte>>, i: nat, ackWritable: nat -> bool)
    requires forall f <- frames :: Deliverable(f)
    requires forall n :: ackWritable(n)
    ensures ReadLoop(EncodeStream(frames), 0, i, ackWritable).acks == MultiplesIn(i + 1, i + |frames| + 1)
  {
    StreamRoundTrip(frames, i, ackWritable);
    AcksForCount(EncodeStream(frames), i, ackWritable, |frames|);
  }

  /** `AcksAreTheMultiples` for a loop known to read `n` frames. */
  lemma AcksForCount(input: seq<Byte>, i: nat, ackWritable: nat -> bool, n: nat)
    requires forall m :: ackWritable(m)
    requires |ReadLoop(input, 0, i, ackWritable).frames| == n
    ensures ReadLoop(input, 0, i, ackWritable).acks == MultiplesIn(i + 1, i + n + 1)
  {
    AcksAreTheMultiples(input, 0, i, ackWritable);
  }

  /**
   * The phone's handshake, read by the host's poll loop after some timed-out
   * polls and before any cancel, is received with its full BUFFER_LEN bytes,
   * a positive count, so the host takes the handshake as successful.
   */
  lemma HandshakeAccepted(timeouts: nat, cancelAt: nat)
    requires timeouts + 1 < cancelAt
    ensures var polls := seq(timeouts, _ => Poll(TimedOut, 0)) + [Poll(Completed, |HandshakeMessage()|)];
            HandshakeRun(polls, cancelAt, 0) == Received(BUFFER_LEN) && BUFFER_LEN > 0
  {
    var polls := seq(timeouts, _ => Poll(TimedOut, 0)) + [Poll(Completed, |HandshakeMessage()|)];
    assert forall i :: 0 <= i < timeouts ==> polls[i].status == TimedOut;
    ReceivedBeforeCancel(polls, cancelAt, timeouts);
  }
}
