/**
 * Checkerboard stereo decomposition of an 8-bit RGBA frame.
 *
 * The source is walked in 2x2 blocks. In each block the top-left and
 * bottom-right pixels are averaged into a left-eye pixel, the top-right and
 * bottom-left pixels into a right-eye pixel. The destination is a 4-component
 * buffer with the same row width as the source: the block at source (row, col)
 * writes its left pixel at destination (row/2, col/2) and its right pixel at
 * (row/2, col/2 + srcWidth/2). Only components 0..2 are written.
 */
module ImageUtils {
  import opened Wire

  const SRC_COMPS: nat := 4
  const DEST_COMPS: nat := 4

  /** Stepping an even index by 2 below an even bound stays even and within the bound. */
  lemma EvenStep(bound: nat, k: nat)
    requires bound % 2 == 0 && k % 2 == 0 && k < bound
    ensures (k + 2) % 2 == 0 && k + 2 <= bound
  {
  }

  lemma MulLeq(a: nat, b: nat, c: nat)
    requires a <= b
    ensures a * c <= b * c
  {
  }

  /** Division with remainder is unique. */
  lemma DivModUnique(n: nat, m: nat, q: nat, r: nat)
    requires 0 <= r < m && n == q * m + r
    ensures n / m == q && n % m == r
  {
    var q', r' := n / m, n % m;
    assert n == q' * m + r';
    if q' < q {
      MulLeq(q' + 1, q, m);
      assert false;
    } else if q < q' {
      MulLeq(q + 1, q', m);
      assert false;
    }
  }

  /**
   * `getPixelPtr`: the offset of pixel (row, col) in a buffer `bufWidth` pixels
   * wide with `comps` components per pixel. A pixel of a row lies within that
   * row's span of the buffer.
   */
  function PixelOffset(bufWidth: nat, row: nat, col: nat, comps: nat): (r: nat)
    ensures col < bufWidth ==> row * bufWidth * comps <= r && r + comps <= (row + 1) * bufWidth * comps
  {
    var r := row * bufWidth * comps + col * comps;
    assert col < bufWidth ==> r + comps <= (row + 1) * bufWidth * comps by {
      if col < bufWidth {
        MulLeq(col + 1, bufWidth, comps);
      }
    }
    r
  }

  /** The unsigned-char blend: the floor of the mean, which lies between the two inputs. */
  function Average(a: Byte, b: Byte): (r: Byte)
    ensures 2 * r <= a + b <= 2 * r + 1
    ensures a <= r <= b || b <= r <= a
  {
    (a + b) / 2
  }

  /**
   * The three components a block whose top-left pixel is at `top` writes to
   * one eye: top-left with bottom-right for the left eye, top-right with
   * bottom-left for the right eye.
   */
  function BlendedPixel(src: seq<Byte>, top: nat, srcWidth: nat, left: bool): (r: seq<Byte>)
    requires top + srcWidth * SRC_COMPS + 2 * SRC_COMPS <= |src|
    ensures |r| == 3
  {
    var bottom := top + srcWidth * SRC_COMPS;
    if left then
      [Average(src[top], src[bottom + 4]), Average(src[top + 1], src[bottom + 5]), Average(src[top + 2], src[bottom + 6])]
    else
      [Average(src[top + 4], src[bottom]), Average(src[top + 5], src[bottom + 1]), Average(src[top + 6], src[bottom + 2])]
  }

  /** Destination pixel (row-major, `w` pixels per row) of the left-eye value of the block at (row, col). */
  function LeftTarget(w: nat, row: nat, col: nat): nat
  {
    (row / 2) * w + col / 2
  }

  /** Destination pixel of the right-eye value of the block at (row, col). */
  function RightTarget(w: nat, row: nat, col: nat): nat
  {
    (row / 2) * w + col / 2 + w / 2
  }

  /** A block position: both coordinates even and the 2x2 block inside the image. */
  predicate IsBlock(w: nat, h: nat, row: nat, col: nat)
  {
    row % 2 == 0 && col % 2 == 0 && row + 2 <= h && col + 2 <= w
  }

  /** Whether destination pixel `p` of the top half holds a left-eye value. */
  predicate IsLeftTarget(w: nat, p: nat)
    requires w > 0
  {
    p % w < w / 2
  }

  /** Source row of the block that writes destination pixel `p`. */
  function BlockRow(w: nat, p: nat): nat
    requires w > 0
  {
    2 * (p / w)
  }

  /** Source column of the block that writes destination pixel `p`. */
  function BlockCol(w: nat, p: nat): nat
    requires w > 0
  {
    if p % w < w / 2 then 2 * (p % w) else 2 * (p % w - w / 2)
  }

  /** The top half of the destination, which is where the blocks write: (h/2) rows of `w` pixels. */
  function TopHalfPixels(w: nat, h: nat): nat
  {
    (h / 2) * w
  }

  lemma BlockOfTopHalfPixel(w: nat, h: nat, p: nat)
    requires w % 2 == 0 && h % 2 == 0 && p < TopHalfPixels(w, h)
    ensures w > 0 && IsBlock(w, h, BlockRow(w, p), BlockCol(w, p))
  {
    assert p == (p / w) * w + p % w;
    if p / w >= h / 2 {
      MulLeq(h / 2, p / w, w);
      assert false;
    }
  }

  lemma SourceBlockInBounds(w: nat, h: nat, row: nat, col: nat)
    requires IsBlock(w, h, row, col)
    ensures PixelOffset(w, row, col, SRC_COMPS) + w * SRC_COMPS + 2 * SRC_COMPS <= w * h * SRC_COMPS
  {
    MulLeq(row + 2, h, w * SRC_COMPS);
    assert (row + 2) * (w * SRC_COMPS) == row * w * SRC_COMPS + 2 * w * SRC_COMPS;
    assert h * (w * SRC_COMPS) == w * h * SRC_COMPS;
  }

  /** The value the decomposition leaves in destination byte `k`, given the old contents `d`. */
  function DecomposedByte(src: seq<Byte>, w: nat, h: nat, d: seq<Byte>, k: nat): Byte
    requires w % 2 == 0 && h % 2 == 0 && |src| >= w * h * SRC_COMPS && k < |d|
  {
    var p := k / DEST_COMPS;
    var c := k % DEST_COMPS;
    if c < 3 && p < TopHalfPixels(w, h) then
      BlockOfTopHalfPixel(w, h, p);
      SourceBlockInBounds(w, h, BlockRow(w, p), BlockCol(w, p));
      BlendedPixel(src, PixelOffset(w, BlockRow(w, p), BlockCol(w, p), SRC_COMPS), w, IsLeftTarget(w, p))[c]
    else
      d[k]
  }

  /** The whole destination after a successful decomposition of `src` into a buffer that held `d`. */
  function Decomposed(src: seq<Byte>, w: nat, h: nat, d: seq<Byte>): (r: seq<Byte>)
    requires w % 2 == 0 && h % 2 == 0 && |src| >= w * h * SRC_COMPS
    ensures |r| == |d|
  {
    seq(|d|, k requires 0 <= k < |d| => DecomposedByte(src, w, h, d, k))
  }

  // ---------------------------------------------------------------------------
  // Where the blocks write

  lemma TargetOffsets(w: nat, row: nat, col: nat)
    ensures PixelOffset(w, row / 2, col / 2, DEST_COMPS) == DEST_COMPS * LeftTarget(w, row, col)
    ensures PixelOffset(w, row / 2, col / 2 + w / 2, DEST_COMPS) == DEST_COMPS * RightTarget(w, row, col)
  {
  }

  /**
   * Left targets lie in the left half of a destination row and right targets in
   * the right half; both lie in the top (h/2) rows, so every byte a block writes
   * is below (h/2)*w*4, which does not exceed the w*h*4 bytes the capacity guard
   * demands.
   */
  lemma TargetsWithinTopHalf(w: nat, h: nat, row: nat, col: nat)
    requires IsBlock(w, h, row, col)
    ensures LeftTarget(w, row, col) % w < w / 2 <= RightTarget(w, row, col) % w
    ensures LeftTarget(w, row, col) / w == RightTarget(w, row, col) / w == row / 2
    ensures RightTarget(w, row, col) < TopHalfPixels(w, h)
    ensures DEST_COMPS * RightTarget(w, row, col) + DEST_COMPS <= TopHalfPixels(w, h) * DEST_COMPS <= w * h * DEST_COMPS
  {
    DivModUnique(LeftTarget(w, row, col), w, row / 2, col / 2);
    DivModUnique(RightTarget(w, row, col), w, row / 2, col / 2 + w / 2);
    MulLeq(row / 2 + 1, h / 2, w);
    MulLeq(h / 2, h, w);
    assert (h / 2) * w * DEST_COMPS <= h * w * DEST_COMPS;
  }

  /** The block found by `BlockRow`/`BlockCol` does write pixel `p`, on the side `IsLeftTarget` says. */
  lemma {:induction false} TopHalfPixelHasWriter(w: nat, h: nat, p: nat)
    requires w % 2 == 0 && h % 2 == 0 && p < TopHalfPixels(w, h)
    ensures w > 0 && IsBlock(w, h, BlockRow(w, p), BlockCol(w, p))
    ensures IsLeftTarget(w, p) ==> LeftTarget(w, BlockRow(w, p), BlockCol(w, p)) == p
    ensures !IsLeftTarget(w, p) ==> RightTarget(w, BlockRow(w, p), BlockCol(w, p)) == p
  {
    BlockOfTopHalfPixel(w, h, p);
    assert p == (p / w) * w + p % w;
  }

  /**
   * No other block, and not the other side of the same block, writes pixel
   * `p`: a block's target determines the block and the side.
   */
  lemma {:induction false} TargetDeterminesBlock(w: nat, h: nat, row: nat, col: nat, p: nat)
    requires w % 2 == 0 && h % 2 == 0 && IsBlock(w, h, row, col)
    requires p == LeftTarget(w, row, col) || p == RightTarget(w, row, col)
    ensures p < TopHalfPixels(w, h)
    ensures row == BlockRow(w, p) && col == BlockCol(w, p)
    ensures IsLeftTarget(w, p) <==> p == LeftTarget(w, row, col)
  {
    TargetsWithinTopHalf(w, h, row, col);
    DivModUnique(LeftTarget(w, row, col), w, row / 2, col / 2);
    DivModUnique(RightTarget(w, row, col), w, row / 2, col / 2 + w / 2);
  }

  /** Left-eye and right-eye targets never coincide, whichever blocks they come from. */
  lemma LeftRightDisjoint(w: nat, h: nat, row1: nat, col1: nat, row2: nat, col2: nat)
    requires IsBlock(w, h, row1, col1) && IsBlock(w, h, row2, col2)
    ensures LeftTarget(w, row1, col1) != RightTarget(w, row2, col2)
  {
    TargetsWithinTopHalf(w, h, row1, col1);
    TargetsWithinTopHalf(w, h, row2, col2);
  }

  /** Each eye's three components are what the block blends from its source pixels. */
  lemma {:induction false} DecomposedAtTargets(src: seq<Byte>, w: nat, h: nat, d: seq<Byte>, row: nat, col: nat, c: nat)
    requires w % 2 == 0 && h % 2 == 0 && |src| >= w * h * SRC_COMPS && |d| >= w * h * DEST_COMPS
    requires IsBlock(w, h, row, col) && c < 3
    ensures PixelOffset(w, row, col, SRC_COMPS) + w * SRC_COMPS + 2 * SRC_COMPS <= |src|
    ensures DEST_COMPS * RightTarget(w, row, col) + 3 < |d|
    ensures Decomposed(src, w, h, d)[DEST_COMPS * LeftTarget(w, row, col) + c]
            == BlendedPixel(src, PixelOffset(w, row, col, SRC_COMPS), w, true)[c]
    ensures Decomposed(src, w, h, d)[DEST_COMPS * RightTarget(w, row, col) + c]
            == BlendedPixel(src, PixelOffset(w, row, col, SRC_COMPS), w, false)[c]
  {
    SourceBlockInBounds(w, h, row, col);
    DecomposedAtTarget(src, w, h, d, row, col, c, true);
    DecomposedAtTarget(src, w, h, d, row, col, c, false);
  }

  /** `DecomposedAtTargets` for one eye. */
  lemma DecomposedAtTarget(src: seq<Byte>, w: nat, h: nat, d: seq<Byte>, row: nat, col: nat, c: nat, left: bool)
    requires w % 2 == 0 && h % 2 == 0 && |src| >= w * h * SRC_COMPS && |d| >= w * h * DEST_COMPS
    requires IsBlock(w, h, row, col) && c < 3
    ensures var p := if left then LeftTarget(w, row, col) else RightTarget(w, row, col);
            DEST_COMPS * p + 3 < |d| &&
            PixelOffset(w, row, col, SRC_COMPS) + w * SRC_COMPS + 2 * SRC_COMPS <= |src| &&
            Decomposed(src, w, h, d)[DEST_COMPS * p + c] == BlendedPixel(src, PixelOffset(w, row, col, SRC_COMPS), w, left)[c]
  {
    var p := if left then LeftTarget(w, row, col) else RightTarget(w, row, col);
    TargetDeterminesBlock(w, h, row, col, p);
    TopHalfByteInBounds(w, h, p, 3);
    DecomposedAtPixel(src, w, h, d, p, c);
  }

  /** Every byte of a top-half pixel lies within the `w * h * DEST_COMPS` bytes of the destination. */
  lemma TopHalfByteInBounds(w: nat, h: nat, p: nat, c: nat)
    requires p < TopHalfPixels(w, h) && c < DEST_COMPS
    ensures w > 0 && DEST_COMPS * p + c < w * h * DEST_COMPS
  {
    MulLeq(h / 2, h, w);
    assert (h / 2) * w * DEST_COMPS <= h * w * DEST_COMPS;
  }

  /** Component `c` of a top-half pixel `p` is what the block that owns `p` blends for it. */
  lemma DecomposedAtPixel(src: seq<Byte>, w: nat, h: nat, d: seq<Byte>, p: nat, c: nat)
    requires w % 2 == 0 && h % 2 == 0 && |src| >= w * h * SRC_COMPS
    requires w > 0 && p < TopHalfPixels(w, h) && c < 3 && DEST_COMPS * p + c < |d|
    ensures IsBlock(w, h, BlockRow(w, p), BlockCol(w, p))
    ensures PixelOffset(w, BlockRow(w, p), BlockCol(w, p), SRC_COMPS) + w * SRC_COMPS + 2 * SRC_COMPS <= |src|
    ensures Decomposed(src, w, h, d)[DEST_COMPS * p + c]
            == BlendedPixel(src, PixelOffset(w, BlockRow(w, p), BlockCol(w, p), SRC_COMPS), w, IsLeftTarget(w, p))[c]
  {
    BlockOfTopHalfPixel(w, h, p);
    SourceBlockInBounds(w, h, BlockRow(w, p), BlockCol(w, p));
    DivModUnique(DEST_COMPS * p + c, DEST_COMPS, p, c);
  }

  /** Component 3 of every destination pixel, and every byte past the top half, keeps its old value. */
  lemma DecomposedKeepsRest(src: seq<Byte>, w: nat, h: nat, d: seq<Byte>, k: nat)
    requires w % 2 == 0 && h % 2 == 0 && |src| >= w * h * SRC_COMPS && k < |d|
    requires k % DEST_COMPS == 3 || k >= TopHalfPixels(w, h) * DEST_COMPS
    ensures Decomposed(src, w, h, d)[k] == d[k]
  {
    if k % DEST_COMPS != 3 {
      assert k == (k / DEST_COMPS) * DEST_COMPS + k % DEST_COMPS;
    }
  }

  // ---------------------------------------------------------------------------
  // Loop bookkeeping: which destination bytes the walk has produced so far

  /** Blocks are visited row by row, left to right: (br, bc) comes before (row, col). */
  predicate BlockBefore(br: nat, bc: nat, row: nat, col: nat)
  {
    br < row || (br == row && bc < col)
  }

  /** Destination byte `k` already holds its final value when the walk is at block (row, col). */
  predicate Done(w: nat, h: nat, k: nat, row: nat, col: nat)
  {
    var p := k / DEST_COMPS;
    k % DEST_COMPS < 3 && p < TopHalfPixels(w, h) && w > 0 && BlockBefore(BlockRow(w, p), BlockCol(w, p), row, col)
  }

  function Progress(src: seq<Byte>, w: nat, h: nat, d: seq<Byte>, k: nat, row: nat, col: nat): Byte
    requires w % 2 == 0 && h % 2 == 0 && |src| >= w * h * SRC_COMPS && k < |d|
  {
    if Done(w, h, k, row, col) then DecomposedByte(src, w, h, d, k) else d[k]
  }

  /** The six bytes block (row, col) writes are exactly the bytes whose block it is. */
  lemma {:induction false} BlockBytes(w: nat, h: nat, row: nat, col: nat, k: nat)
    requires w % 2 == 0 && h % 2 == 0 && IsBlock(w, h, row, col)
    ensures var p := k / DEST_COMPS;
            (k % DEST_COMPS < 3 && p < TopHalfPixels(w, h) && BlockRow(w, p) == row && BlockCol(w, p) == col)
            <==>
            (DEST_COMPS * LeftTarget(w, row, col) <= k < DEST_COMPS * LeftTarget(w, row, col) + 3 ||
             DEST_COMPS * RightTarget(w, row, col) <= k < DEST_COMPS * RightTarget(w, row, col) + 3)
    ensures var p := k / DEST_COMPS;
            DEST_COMPS * LeftTarget(w, row, col) <= k < DEST_COMPS * LeftTarget(w, row, col) + 3
            ==> IsLeftTarget(w, p) && k % DEST_COMPS == k - DEST_COMPS * LeftTarget(w, row, col)
    ensures var p := k / DEST_COMPS;
            DEST_COMPS * RightTarget(w, row, col) <= k < DEST_COMPS * RightTarget(w, row, col) + 3
            ==> !IsLeftTarget(w, p) && k % DEST_COMPS == k - DEST_COMPS * RightTarget(w, row, col)
  {
    var p := k / DEST_COMPS;
    var l, r := LeftTarget(w, row, col), RightTarget(w, row, col);
    assert k == p * DEST_COMPS + k % DEST_COMPS;
    TargetsWithinTopHalf(w, h, row, col);
    if DEST_COMPS * l <= k < DEST_COMPS * l + 3 {
      DivModUnique(k, DEST_COMPS, l, k - DEST_COMPS * l);
      TargetDeterminesBlock(w, h, row, col, l);
    } else if DEST_COMPS * r <= k < DEST_COMPS * r + 3 {
      DivModUnique(k, DEST_COMPS, r, k - DEST_COMPS * r);
      TargetDeterminesBlock(w, h, row, col, r);
    } else if k % DEST_COMPS < 3 && p < TopHalfPixels(w, h) && BlockRow(w, p) == row && BlockCol(w, p) == col {
      TopHalfPixelHasWriter(w, h, p);
      assert false;
    }
  }

  lemma {:induction false} ColumnStep(src: seq<Byte>, w: nat, h: nat, d: seq<Byte>, row: nat, col: nat, k: nat)
    requires w % 2 == 0 && h % 2 == 0 && |src| >= w * h * SRC_COMPS && k < |d|
    requires IsBlock(w, h, row, col)
    ensures PixelOffset(w, row, col, SRC_COMPS) + w * SRC_COMPS + 2 * SRC_COMPS <= |src|
    ensures var l, r := DEST_COMPS * LeftTarget(w, row, col), DEST_COMPS * RightTarget(w, row, col);
            if l <= k < l + 3 || r <= k < r + 3 then
              Done(w, h, k, row, col + 2) &&
              DecomposedByte(src, w, h, d, k)
              == (if l <= k < l + 3 then BlendedPixel(src, PixelOffset(w, row, col, SRC_COMPS), w, true)[k - l]
                  else BlendedPixel(src, PixelOffset(w, row, col, SRC_COMPS), w, false)[k - r])
            else
              Done(w, h, k, row, col + 2) == Done(w, h, k, row, col)
  {
    SourceBlockInBounds(w, h, row, col);
    BlockBytes(w, h, row, col, k);
    var p := k / DEST_COMPS;
    if k % DEST_COMPS < 3 && p < TopHalfPixels(w, h) {
      BlockOfTopHalfPixel(w, h, p);
    }
  }

  /**
   * The destination after block (row, col) has written its two pixels is the
   * decomposition done up to the next block, given that it was done up to this one.
   */
  lemma BlockStep(src: seq<Byte>, w: nat, h: nat, d: seq<Byte>, row: nat, col: nat, before: seq<Byte>, after: seq<Byte>)
    requires w % 2 == 0 && h % 2 == 0 && |src| >= w * h * SRC_COMPS && IsBlock(w, h, row, col)
    requires |before| == |after| == |d|
    requires Matches(src, w, h, d, before, row, col)
    requires PixelOffset(w, row, col, SRC_COMPS) + w * SRC_COMPS + 2 * SRC_COMPS <= |src|
    requires DEST_COMPS * LeftTarget(w, row, col) + DEST_COMPS <= DEST_COMPS * RightTarget(w, row, col)
    requires DEST_COMPS * RightTarget(w, row, col) + 3 <= |after|
    requires var l := DEST_COMPS * LeftTarget(w, row, col);
             after[l..l + 3] == BlendedPixel(src, PixelOffset(w, row, col, SRC_COMPS), w, true)
    requires var r := DEST_COMPS * RightTarget(w, row, col);
             after[r..r + 3] == BlendedPixel(src, PixelOffset(w, row, col, SRC_COMPS), w, false)
    requires forall k :: 0 <= k < |after| && !(DEST_COMPS * LeftTarget(w, row, col) <= k < DEST_COMPS * LeftTarget(w, row, col) + 3)
                         && !(DEST_COMPS * RightTarget(w, row, col) <= k < DEST_COMPS * RightTarget(w, row, col) + 3)
                         ==> after[k] == before[k]
    ensures Matches(src, w, h, d, after, row, col + 2)
  {
    var l, r := DEST_COMPS * LeftTarget(w, row, col), DEST_COMPS * RightTarget(w, row, col);
    forall k | 0 <= k < |after|
      ensures after[k] == Progress(src, w, h, d, k, row, col + 2)
    {
      ColumnStep(src, w, h, d, row, col, k);
      if l <= k < l + 3 {
        assert after[k] == after[l..l + 3][k - l];
      } else if r <= k < r + 3 {
        assert after[k] == after[r..r + 3][k - r];
      }
    }
  }

  /** `cur` holds the decomposition of `d` done up to block (row, col) and the old bytes elsewhere. */
  predicate Matches(src: seq<Byte>, w: nat, h: nat, d: seq<Byte>, cur: seq<Byte>, row: nat, col: nat)
    requires w % 2 == 0 && h % 2 == 0 && |src| >= w * h * SRC_COMPS
  {
    |cur| == |d| && forall k :: 0 <= k < |cur| ==> cur[k] == Progress(src, w, h, d, k, row, col)
  }

  /** Before the first block nothing is done. */
  lemma StartMatches(src: seq<Byte>, w: nat, h: nat, d: seq<Byte>)
    requires w % 2 == 0 && h % 2 == 0 && |src| >= w * h * SRC_COMPS
    ensures Matches(src, w, h, d, d, 0, 0)
  {
  }

  /** The end of a row of blocks is the start of the next. */
  lemma RowMatches(src: seq<Byte>, w: nat, h: nat, d: seq<Byte>, cur: seq<Byte>, row: nat)
    requires w % 2 == 0 && h % 2 == 0 && |src| >= w * h * SRC_COMPS && row % 2 == 0
    requires Matches(src, w, h, d, cur, row, w)
    ensures Matches(src, w, h, d, cur, row + 2, 0)
  {
    forall k | 0 <= k < |cur|
      ensures cur[k] == Progress(src, w, h, d, k, row + 2, 0)
    {
      RowStep(w, h, k, row);
    }
  }

  /** After the last row of blocks the destination is the whole decomposition. */
  lemma EndMatches(src: seq<Byte>, w: nat, h: nat, d: seq<Byte>, cur: seq<Byte>)
    requires w % 2 == 0 && h % 2 == 0 && |src| >= w * h * SRC_COMPS
    requires Matches(src, w, h, d, cur, h, 0)
    ensures cur == Decomposed(src, w, h, d)
  {
    forall k | 0 <= k < |cur|
      ensures cur[k] == Decomposed(src, w, h, d)[k]
    {
      AllDone(src, w, h, d, k);
    }
  }

  lemma RowStep(w: nat, h: nat, k: nat, row: nat)
    requires w % 2 == 0 && h % 2 == 0 && row % 2 == 0
    ensures Done(w, h, k, row, w) == Done(w, h, k, row + 2, 0)
  {
    var p := k / DEST_COMPS;
    if k % DEST_COMPS < 3 && p < TopHalfPixels(w, h) {
      BlockOfTopHalfPixel(w, h, p);
    }
  }

  lemma AllDone(src: seq<Byte>, w: nat, h: nat, d: seq<Byte>, k: nat)
    requires w % 2 == 0 && h % 2 == 0 && |src| >= w * h * SRC_COMPS && k < |d|
    ensures Progress(src, w, h, d, k, h, 0) == Decomposed(src, w, h, d)[k]
  {
    var p := k / DEST_COMPS;
    if k % DEST_COMPS < 3 && p < TopHalfPixels(w, h) {
      BlockOfTopHalfPixel(w, h, p);
    }
  }

  // ---------------------------------------------------------------------------
  // The imperative code

  /**
   * `processBlockUchar`: writes components 0..2 of the left-eye pixel at
   * `lDest` and of the right-eye pixel at `rDest`, nothing else.
   */
  method ProcessBlockUchar(src: seq<Byte>, srcBlock: nat, srcWidth: nat, col: nat,
                           dest: array<Byte>, lDest: nat, rDest: nat)
    requires srcBlock + srcWidth * SRC_COMPS + 2 * SRC_COMPS <= |src|
    requires lDest + DEST_COMPS <= rDest && rDest + 3 <= dest.Length
    modifies dest
    ensures dest[lDest..lDest + 3] == BlendedPixel(src, srcBlock, srcWidth, true)
    ensures dest[rDest..rDest + 3] == BlendedPixel(src, srcBlock, srcWidth, false)
    ensures forall k :: 0 <= k < dest.Length && !(lDest <= k < lDest + 3) && !(rDest <= k < rDest + 3)
                        ==> dest[k] == old(dest[k])
  {
    var row1 := srcBlock + srcWidth * SRC_COMPS;
    WriteBlend(dest, lDest, src[srcBlock], src[srcBlock + 1], src[srcBlock + 2], src[row1 + 4], src[row1 + 5], src[row1 + 6]);
    ghost var left := dest[lDest..lDest + 3];
    WriteBlend(dest, rDest, src[srcBlock + 4], src[srcBlock + 5], src[srcBlock + 6], src[row1], src[row1 + 1], src[row1 + 2]);
    assert dest[lDest..lDest + 3] == left;
  }

  /** The three component writes of one eye's pixel at `at`, each the average of a pair. */
  method WriteBlend(dest: array<Byte>, at: nat, a0: Byte, a1: Byte, a2: Byte, b0: Byte, b1: Byte, b2: Byte)
    requires at + 3 <= dest.Length
    modifies dest
    ensures dest[at..at + 3] == [Average(a0, b0), Average(a1, b1), Average(a2, b2)]
    ensures forall k :: 0 <= k < dest.Length && !(at <= k < at + 3) ==> dest[k] == old(dest[k])
  {
    dest[at] := (a0 + b0) / 2;
    dest[at + 1] := (a1 + b1) / 2;
    dest[at + 2] := (a2 + b2) / 2;
  }

  /**
   * `decomposeCheckerboardStereoUchar`: fails without writing when a dimension
   * is odd or `destSize` is below srcWidth*srcHeight*4; otherwise walks every
   * 2x2 block and succeeds, leaving `Decomposed` of the old destination.
   */
  method DecomposeCheckerboardStereoUchar(src: seq<Byte>, srcWidth: nat, srcHeight: nat,
                                          dest: array<Byte>, destSize: nat) returns (ok: bool)
    requires |src| >= srcWidth * srcHeight * SRC_COMPS
    requires destSize <= dest.Length
    modifies dest
    ensures ok <==> srcWidth % 2 == 0 && srcHeight % 2 == 0 && destSize >= srcWidth * srcHeight * DEST_COMPS
    ensures !ok ==> dest[..] == old(dest[..])
    ensures ok ==> dest[..] == Decomposed(src, srcWidth, srcHeight, old(dest[..]))
  {
    // Enforce src buffer dimensions.
    if srcWidth % 2 != 0 || srcHeight % 2 != 0 {
      return false;
    }

    // Enforce dest buffer capacity.
    var spaceRequired := srcWidth * srcHeight * DEST_COMPS;
    if destSize < spaceRequired {
      return false;
    }

    ghost var d0 := dest[..];
    StartMatches(src, srcWidth, srcHeight, d0);
    var row := 0;
    while row < srcHeight
      invariant row % 2 == 0 && row <= srcHeight
      invariant Matches(src, srcWidth, srcHeight, d0, dest[..], row, 0)
    {
      var col := 0;
      while col < srcWidth
        invariant col % 2 == 0 && col <= srcWidth
        invariant Matches(src, srcWidth, srcHeight, d0, dest[..], row, col)
      {
        assert IsBlock(srcWidth, srcHeight, row, col);
        var srcBlock := PixelOffset(srcWidth, row, col, SRC_COMPS);
        var lDest := PixelOffset(srcWidth, row / 2, col / 2, DEST_COMPS);
        var rDest := PixelOffset(srcWidth, row / 2, col / 2 + srcWidth / 2, DEST_COMPS);
        TargetOffsets(srcWidth, row, col);
        TargetsWithinTopHalf(srcWidth, srcHeight, row, col);
        SourceBlockInBounds(srcWidth, srcHeight, row, col);

        ghost var before := dest[..];
        ProcessBlockUchar(src, srcBlock, srcWidth, col, dest, lDest, rDest);
        BlockStep(src, srcWidth, srcHeight, d0, row, col, before, dest[..]);
        EvenStep(srcWidth, col);
        col := col + 2;
      }
      RowMatches(src, srcWidth, srcHeight, d0, dest[..], row);
      EvenStep(srcHeight, row);
      row := row + 2;
    }
    EndMatches(src, srcWidth, srcHeight, d0, dest[..]);
    return true;
  }
}
