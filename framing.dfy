/**
 * The wire format of one JPEG frame sent to the phone: a 4-byte big-endian
 * length prefix, then the payload in bulk transfers of at most BUFFER_LEN
 * bytes, taken in order from offsets 0, BUFFER_LEN, 2 * BUFFER_LEN, ...
 * A prefix of zero (the "poison" frame) tells the phone the stream is over.
 */
module Framing {
  import opened Wrappers
  import opened Wire
  import opened DeviceIds

  /** The length prefix: the payload size, truncated to 32 bits, big-endian. */
  function FramePrefix(size: nat): (r: seq<Byte>)
    ensures |r| == 4
    ensures Unsigned32(r) == size % UINT32_LIMIT
  {
    BigEndian32RoundTrip(size % UINT32_LIMIT);
    BigEndian32(size % UINT32_LIMIT)
  }

  /** The four zero bytes written when the send loop is cancelled. */
  const POISON_FRAME: seq<Byte> := [0, 0, 0, 0]

  /** The poison frame is the length prefix of an empty payload. */
  lemma PoisonIsEmptyPrefix()
    ensures POISON_FRAME == FramePrefix(0)
    ensures Unsigned32(POISON_FRAME) == 0
  {
  }

  /** `std::min(BUFFER_LEN, size - offset)`: the length of the chunk at `offset`. */
  function ChunkLength(size: nat, offset: nat): (r: nat)
    requires offset < size
    ensures 0 < r <= BUFFER_LEN && offset + r <= size
    ensures r < BUFFER_LEN ==> offset + r == size
  {
    if BUFFER_LEN < size - offset then BUFFER_LEN else size - offset
  }

  /** The chunk transfers of the payload from `offset` on. */
  function ChunksFrom(p: seq<Byte>, offset: nat): (r: seq<seq<Byte>>)
    ensures r == [] <==> offset >= |p|
    decreases |p| - offset
  {
    if offset >= |p| then []
    else [p[offset..offset + ChunkLength(|p|, offset)]] + ChunksFrom(p, offset + BUFFER_LEN)
  }

  /** The byte stream a sequence of transfers puts on the pipe. */
  function Flatten(transfers: seq<seq<Byte>>): seq<Byte>
  {
    if transfers == [] then [] else transfers[0] + Flatten(transfers[1..])
  }

  lemma {:induction false} FlattenAppend(a: seq<seq<Byte>>, b: seq<seq<Byte>>)
    ensures Flatten(a + b) == Flatten(a) + Flatten(b)
  {
    if a != [] {
      assert (a + b)[1..] == a[1..] + b;
      FlattenAppend(a[1..], b);
    } else {
      assert a + b == b;
    }
  }

  /** The chunks, put back together, are the payload from `offset` on: nothing is lost, repeated or reordered. */
  lemma {:induction false} ChunksReassemble(p: seq<Byte>, offset: nat)
    requires offset <= |p|
    ensures Flatten(ChunksFrom(p, offset)) == p[offset..]
    decreases |p| - offset
  {
    if offset < |p| {
      var n := ChunkLength(|p|, offset);
      if offset + BUFFER_LEN <= |p| {
        ChunksReassemble(p, offset + BUFFER_LEN);
      } else {
        assert ChunksFrom(p, offset + BUFFER_LEN) == [];
      }
      assert p[offset..] == p[offset..offset + n] + p[offset + n..];
    }
  }

  /**
   * Every chunk is non-empty and at most BUFFER_LEN long, and only the last
   * one can be shorter; there are ceil((|p| - offset) / BUFFER_LEN) of them.
   */
  lemma {:induction false} ChunkShape(p: seq<Byte>, offset: nat)
    requires offset <= |p|
    ensures var c := ChunksFrom(p, offset);
            |c| == (|p| - offset + BUFFER_LEN - 1) / BUFFER_LEN &&
            forall k :: 0 <= k < |c| ==> 0 < |c[k]| <= BUFFER_LEN && (k < |c| - 1 ==> |c[k]| == BUFFER_LEN)
    decreases |p| - offset
  {
    var c := ChunksFrom(p, offset);
    if offset < |p| {
      if offset + BUFFER_LEN <= |p| {
        ChunkShape(p, offset + BUFFER_LEN);
        var rest := ChunksFrom(p, offset + BUFFER_LEN);
        assert c == [c[0]] + rest;
        forall k | 0 <= k < |c| ensures 0 < |c[k]| <= BUFFER_LEN && (k < |c| - 1 ==> |c[k]| == BUFFER_LEN) {
          if k > 0 { assert c[k] == rest[k - 1]; }
        }
      } else {
        assert ChunksFrom(p, offset + BUFFER_LEN) == [];
      }
    }
  }

  /** A 20000-byte frame goes out as the prefix, a full chunk and a 3616-byte chunk. */
  lemma TwoChunkExample(p: seq<Byte>)
    requires |p| == 20000
    ensures |ChunksFrom(p, 0)| == 2
    ensures ChunksFrom(p, 0)[0] == p[..16384] && ChunksFrom(p, 0)[1] == p[16384..]
  {
    assert ChunksFrom(p, 2 * BUFFER_LEN) == [];
  }

  /** All bulk transfers of one frame: the length prefix, then the chunks. */
  function FrameTransfers(p: seq<Byte>): (r: seq<seq<Byte>>)
    ensures |r| == 1 + |ChunksFrom(p, 0)| && |r[0]| == 4 && Unsigned32(r[0]) == |p| % UINT32_LIMIT
  {
    [FramePrefix(|p|)] + ChunksFrom(p, 0)
  }

  /** One frame as a byte stream: the length prefix, then the payload. */
  function EncodeFrame(p: seq<Byte>): (r: seq<Byte>)
    ensures |r| == 4 + |p|
    ensures Unsigned32(r[..4]) == |p| % UINT32_LIMIT && r[4..] == p
  {
    assert (FramePrefix(|p|) + p)[..4] == FramePrefix(|p|);
    FramePrefix(|p|) + p
  }

  /** The transfers of a frame put exactly the encoded frame on the pipe. */
  lemma FrameTransfersSpellFrame(p: seq<Byte>)
    ensures Flatten(FrameTransfers(p)) == EncodeFrame(p)
  {
    FlattenAppend([FramePrefix(|p|)], ChunksFrom(p, 0));
    assert Flatten([FramePrefix(|p|)]) == FramePrefix(|p|) + Flatten([]);
    ChunksReassemble(p, 0);
  }

  /**
   * The first chunk transfer, counting transfers from `j` at offset `offset`,
   * that writes fewer bytes than its chunk length; `written(t)` is the byte
   * count the t-th transfer reports.
   */
  function FirstShortChunk(size: nat, written: nat -> int, offset: nat, j: nat): (r: Option<nat>)
    ensures r.Some? ==> j <= r.value
    decreases size - offset
  {
    if offset >= size then None
    else if written(j) < ChunkLength(size, offset) then Some(j)
    else FirstShortChunk(size, written, offset + BUFFER_LEN, j + 1)
  }

  /** No chunk transfer is short exactly when every transfer writes its whole chunk. */
  lemma {:induction false} NoShortChunkIff(p: seq<Byte>, written: nat -> int, offset: nat, j: nat)
    requires offset <= |p|
    ensures var c := ChunksFrom(p, offset);
            FirstShortChunk(|p|, written, offset, j).None? <==> forall k :: 0 <= k < |c| ==> written(j + k) >= |c[k]|
    decreases |p| - offset
  {
    var c := ChunksFrom(p, offset);
    if offset < |p| {
      assert |c[0]| == ChunkLength(|p|, offset);
      if written(j) >= ChunkLength(|p|, offset) {
        var rest := ChunksFrom(p, offset + BUFFER_LEN);
        assert c == [c[0]] + rest;
        assert |c| == 1 + |rest|;
        if offset + BUFFER_LEN <= |p| {
          NoShortChunkIff(p, written, offset + BUFFER_LEN, j + 1);
        } else {
          assert rest == [];
          assert FirstShortChunk(|p|, written, offset + BUFFER_LEN, j + 1) == None;
        }
        if forall k :: 0 <= k < |rest| ==> written(j + 1 + k) >= |rest[k]| {
          forall k | 0 <= k < |c| ensures written(j + k) >= |c[k]| {
            if k > 0 { assert c[k] == rest[k - 1]; assert j + k == j + 1 + (k - 1); }
          }
        } else {
          var k :| 0 <= k < |rest| && written(j + 1 + k) < |rest[k]|;
          assert c[k + 1] == rest[k] && j + (k + 1) == j + 1 + k;
          assert written(j + (k + 1)) < |c[k + 1]|;
          assert offset + BUFFER_LEN <= |p|;
          NoShortChunkIff(p, written, offset + BUFFER_LEN, j + 1);
          assert FirstShortChunk(|p|, written, offset + BUFFER_LEN, j + 1).Some?;
        }
      }
    }
  }

  /** A short chunk transfer is the first whose byte count falls below its chunk's length. */
  lemma {:induction false} ShortChunkIsFirst(p: seq<Byte>, written: nat -> int, offset: nat, j: nat)
    requires offset <= |p|
    requires FirstShortChunk(|p|, written, offset, j).Some?
    ensures var c := ChunksFrom(p, offset);
            var t := FirstShortChunk(|p|, written, offset, j).value - j;
            t < |c| && written(j + t) < |c[t]| && forall k :: 0 <= k < t ==> written(j + k) >= |c[k]|
    decreases |p| - offset
  {
    var c := ChunksFrom(p, offset);
    assert |c[0]| == ChunkLength(|p|, offset);
    if written(j) >= ChunkLength(|p|, offset) {
      var rest := ChunksFrom(p, offset + BUFFER_LEN);
      assert c == [c[0]] + rest;
      ShortChunkIsFirst(p, written, offset + BUFFER_LEN, j + 1);
      var t := FirstShortChunk(|p|, written, offset, j).value - j;
      assert c[t] == rest[t - 1];
      forall k | 0 <= k < t ensures written(j + k) >= |c[k]| {
        if k > 0 { assert c[k] == rest[k - 1]; assert j + k == j + 1 + (k - 1); }
      }
    }
  }

  /**
   * The chunk transfers the send loop issues from `offset` on, counting
   * transfers from `j`: every chunk up to and including the first short one.
   */
  function IssuedChunks(p: seq<Byte>, written: nat -> int, offset: nat, j: nat): (r: seq<seq<Byte>>)
    ensures r == [] <==> offset >= |p|
    decreases |p| - offset
  {
    if offset >= |p| then []
    else
      var chunk := p[offset..offset + ChunkLength(|p|, offset)];
      if written(j) < |chunk| then [chunk]
      else [chunk] + IssuedChunks(p, written, offset + BUFFER_LEN, j + 1)
  }

  /**
   * One whole chunk transfer at `offset`, appended to the transfers `before`,
   * keeps what is issued overall and which transfer is first short.
   */
  lemma IssuedStep(p: seq<Byte>, written: nat -> int, offset: nat, j: nat,
                   whole: seq<seq<Byte>>, before: seq<seq<Byte>>, after: seq<seq<Byte>>)
    requires offset < |p| && written(j) >= ChunkLength(|p|, offset)
    requires whole == before + IssuedChunks(p, written, offset, j)
    requires after == before + [p[offset..offset + ChunkLength(|p|, offset)]]
    ensures whole == after + IssuedChunks(p, written, offset + BUFFER_LEN, j + 1)
    ensures FirstShortChunk(|p|, written, offset, j) == FirstShortChunk(|p|, written, offset + BUFFER_LEN, j + 1)
  {
    var chunk := p[offset..offset + ChunkLength(|p|, offset)];
    assert IssuedChunks(p, written, offset, j) == [chunk] + IssuedChunks(p, written, offset + BUFFER_LEN, j + 1);
  }

  /**
   * The issued chunks are a prefix of the frame's chunks: all of them when no
   * transfer is short, and otherwise the chunks up to the short one.
   */
  lemma {:induction false} IssuedChunksArePrefix(p: seq<Byte>, written: nat -> int, offset: nat, j: nat)
    requires offset <= |p|
    ensures var issued := IssuedChunks(p, written, offset, j);
            var c := ChunksFrom(p, offset);
            |issued| <= |c| && issued == c[..|issued|]
    ensures FirstShortChunk(|p|, written, offset, j).None? ==> IssuedChunks(p, written, offset, j) == ChunksFrom(p, offset)
    ensures FirstShortChunk(|p|, written, offset, j).Some? ==>
              |IssuedChunks(p, written, offset, j)| == FirstShortChunk(|p|, written, offset, j).value - j + 1
    decreases |p| - offset
  {
    if offset < |p| {
      var chunk := p[offset..offset + ChunkLength(|p|, offset)];
      var c := ChunksFrom(p, offset);
      var rest := ChunksFrom(p, offset + BUFFER_LEN);
      assert c == [chunk] + rest;
      if written(j) >= |chunk| {
        if offset + BUFFER_LEN <= |p| {
          IssuedChunksArePrefix(p, written, offset + BUFFER_LEN, j + 1);
        } else {
          assert rest == [];
          assert IssuedChunks(p, written, offset + BUFFER_LEN, j + 1) == [];
          assert FirstShortChunk(|p|, written, offset + BUFFER_LEN, j + 1) == None;
        }
        var issuedRest := IssuedChunks(p, written, offset + BUFFER_LEN, j + 1);
        assert IssuedChunks(p, written, offset, j) == [chunk] + issuedRest;
        assert [chunk] + issuedRest == c[..1 + |issuedRest|];
      }
    }
  }
}
