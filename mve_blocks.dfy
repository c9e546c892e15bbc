/** The video side of the MVE decoder as values. A frame is a sequence of
    palette indices, `stride` bytes per row; each 8x8 block is rebuilt by
    one of sixteen block routines chosen by a nibble of the decoding map.
    This module says, for every routine, how many payload bytes it reads,
    which motion vector it uses and what the block looks like afterwards;
    the decoder class writes the same pixels in place. */
module MveBlocks {
  import opened Wrappers
  import opened MveFormat

  /** 2 to the power k. */
  function Pow2(k: nat): (p: nat)
    ensures p >= 1
  {
    if k == 0 then 1 else 2 * Pow2(k - 1)
  }

  /** Bit k of n, as `(n >> k) & 1`. */
  function Bit(n: nat, k: nat): (b: nat)
    ensures b < 2
  {
    (n / Pow2(k)) % 2
  }

  /** The 2-bit field k of n, as `(n >> 2k) & 3`. */
  function Bits2(n: nat, k: nat): (b: nat)
    ensures b < 4
  {
    (n / Pow2(2 * k)) % 4
  }

  // ---------------------------------------------------------------
  // Motion vectors of the copying blocks
  // ---------------------------------------------------------------

  /** Block 2: a block to the right on the same rows, or one below. */
  function Block2Vector(b: byte): (v: (int, int))
    ensures b < 56 ==> 8 <= v.0 <= 14 && 0 <= v.1 <= 7
    ensures b >= 56 ==> -14 <= v.0 <= 14 && 8 <= v.1 <= 14
  {
    if b < 56 then (8 + b % 7, b / 7)
    else (-14 + (b - 56) % 29, 8 + (b - 56) / 29)
  }

  /** The byte an encoder writes for a block 2 vector. */
  function Block2Code(v: (int, int)): int {
    if v.1 < 8 then 7 * v.1 + (v.0 - 8) else 56 + 29 * (v.1 - 8) + (v.0 + 14)
  }

  /** Every motion byte names a distinct vector: the encoding inverts it. */
  lemma {:induction false} Block2RoundTrip(b: byte)
    ensures Block2Code(Block2Vector(b)) == b
  {
    if b >= 56 {
      var k := b - 56;
      assert k == 29 * (k / 29) + k % 29;
    }
  }

  /** Block 3: the same table as block 2, pointing the other way. */
  function Block3Vector(b: byte): (v: (int, int))
    ensures v == (-Block2Vector(b).0, -Block2Vector(b).1)
  {
    if b < 56 then (-(8 + b % 7), -(b / 7))
    else (-(-14 + (b - 56) % 29), -(8 + (b - 56) / 29))
  }

  /** Block 4: the low nibble is x + 8, the high nibble y + 8. */
  function Block4Vector(b: byte): (v: (int, int))
    ensures -8 <= v.0 <= 7 && -8 <= v.1 <= 7
    ensures (v.0 + 8) + 16 * (v.1 + 8) == b
  {
    (-8 + b % 16, -8 + (b / 16) % 16)
  }

  /** Block 5: two signed bytes. */
  function Block5Vector(xb: byte, yb: byte): (v: (int, int))
    ensures -128 <= v.0 <= 127 && -128 <= v.1 <= 127
    ensures (xb - v.0) % 256 == 0 && (yb - v.1) % 256 == 0
  {
    (AsInt8(xb), AsInt8(yb))
  }

  // ---------------------------------------------------------------
  // Payload sizes and pattern pixels
  // ---------------------------------------------------------------

  /** How many payload bytes block routine op reads from d. Where the
      count depends on the first bytes and they are missing, the larger
      count is given, which d cannot hold either. */
  function BlockSize(op: int, d: seq<byte>): (n: nat)
    ensures n <= 64
  {
    if op == 2 || op == 3 || op == 4 || op == 14 then 1
    else if op == 5 || op == 15 then 2
    else if op == 7 then (if |d| >= 2 && d[0] > d[1] then 4 else 10)
    else if op == 8 then (if |d| >= 2 && d[0] > d[1] then 12 else 16)
    else if op == 9 then
      (if |d| >= 4 && d[0] <= d[1] && d[2] > d[3] then 8
       else if |d| >= 4 && d[0] > d[1] then 12
       else 20)
    else if op == 10 then (if |d| >= 2 && d[0] > d[1] then 24 else 32)
    else if op == 11 then 64
    else if op == 12 then 16
    else if op == 13 then 4
    else 0
  }

  predicate IsPatternOp(op: int) {
    7 <= op <= 15
  }

  /** The colour of pixel (x, y) of a block written by pattern routine op
      from payload d: colours are payload bytes chosen by the flag bits,
      and comparisons of the first colours select the layout. */
  function Pixel(op: int, d: seq<byte>, x: int, y: int): byte
    requires IsPatternOp(op) && |d| >= BlockSize(op, d)
    requires 0 <= x < 8 && 0 <= y < 8
  {
    if op == 7 then Pixel7(d, x, y)
    else if op == 8 then Pixel8(d, x, y)
    else if op == 9 then Pixel9(d, x, y)
    else if op == 10 then Pixel10(d, x, y)
    else if op == 11 then d[y * 8 + x]
    else if op == 12 then d[(y / 2) * 4 + x / 2]
    else if op == 13 then d[(y / 4) * 2 + x / 4]
    else if op == 14 then d[0]
    else d[(x + y) % 2]
  }

  /** Two colours: one flag bit per pixel (8 flag bytes), or one per 2x2
      square (a 16-bit word). */
  function Pixel7(d: seq<byte>, x: int, y: int): byte
    requires |d| >= BlockSize(7, d) && 0 <= x < 8 && 0 <= y < 8
  {
    if d[0] <= d[1] then d[Bit(d[2 + y], x)]
    else d[Bit(LE16(d, 2), (y / 2) * 4 + x / 2)]
  }

  /** Two colours per 4x4 quadrant (quadrants left-top, left-bottom,
      right-top, right-bottom), or per left/right half when P2 <= P3, or
      per top/bottom half. */
  function Pixel8(d: seq<byte>, x: int, y: int): byte
    requires |d| >= BlockSize(8, d) && 0 <= x < 8 && 0 <= y < 8
  {
    if d[0] <= d[1] then
      var q := (x / 4) * 2 + y / 4;
      d[4 * q + Bit(LE16(d, 4 * q + 2), (y % 4) * 4 + x % 4)]
    else if d[6] <= d[7] then
      if x < 4 then d[Bit(LE32(d, 2), y * 4 + x)]
      else d[6 + Bit(LE32(d, 8), y * 4 + (x - 4))]
    else
      if y < 4 then d[Bit(LE32(d, 2), y * 8 + x)]
      else d[6 + Bit(LE32(d, 8), (y - 4) * 8 + x)]
  }

  /** Four colours: two flag bits per pixel, per 2x2 square, per 2x1 pair
      or per 1x2 pair, as P0 <= P1 and P2 <= P3 select. */
  function Pixel9(d: seq<byte>, x: int, y: int): byte
    requires |d| >= BlockSize(9, d) && 0 <= x < 8 && 0 <= y < 8
  {
    if d[0] <= d[1] then
      if d[2] <= d[3] then d[Bits2(LE16(d, 4 + 2 * y), x)]
      else d[Bits2(LE32(d, 4), (y / 2) * 4 + x / 2)]
    else
      if d[2] <= d[3] then d[Bits2(LE64(d, 4), y * 4 + x / 2)]
      else d[Bits2(LE64(d, 4), (y / 2) * 8 + x)]
  }

  /** Four colours per quadrant, or per left/right half when P4 <= P5, or
      per top/bottom half. */
  function Pixel10(d: seq<byte>, x: int, y: int): byte
    requires |d| >= BlockSize(10, d) && 0 <= x < 8 && 0 <= y < 8
  {
    if d[0] <= d[1] then
      var q := (x / 4) * 2 + y / 4;
      d[8 * q + Bits2(LE32(d, 8 * q + 4), (y % 4) * 4 + x % 4)]
    else if d[12] <= d[13] then
      if x < 4 then d[Bits2(LE64(d, 4), y * 4 + x)]
      else d[12 + Bits2(LE64(d, 16), y * 4 + (x - 4))]
    else
      if y < 4 then d[Bits2(LE64(d, 4), y * 8 + x)]
      else d[12 + Bits2(LE64(d, 16), (y - 4) * 8 + x)]
  }

  /** Row y of a pattern block. */
  function PatternRow(op: int, d: seq<byte>, y: int): (row: seq<byte>)
    requires IsPatternOp(op) && |d| >= BlockSize(op, d) && 0 <= y < 8
    ensures |row| == 8
  {
    seq(8, x requires 0 <= x < 8 => Pixel(op, d, x, y))
  }

  // ---------------------------------------------------------------
  // Blocks inside a frame
  // ---------------------------------------------------------------

  /** Index of pixel (x, y) of the block at offset off. */
  function Pos(off: int, stride: int, x: int, y: int): int {
    off + y * stride + x
  }

  /** Offset of the block whose top-left pixel is (x, y). */
  function BlockOffset(x: int, y: int, stride: int): int {
    x + y * stride
  }

  /** The 8 rows of 8 pixels at offset off lie inside a frame of len
      bytes, and rows do not overlap. */
  predicate BlockFits(len: int, off: int, stride: int) {
    stride >= 8 && 0 <= off && off + 7 * stride + 8 <= len
  }

  lemma {:induction false} RowInside(len: int, off: int, stride: int, y: int)
    requires BlockFits(len, off, stride) && 0 <= y < 8
    ensures 0 <= Pos(off, stride, 0, y) && Pos(off, stride, 0, y) + 8 <= len
  {
    assert y * stride <= 7 * stride;
  }

  /** Rows y1 < y2 of a block are apart by at least one stride. */
  lemma {:induction false} RowsApart(off: int, stride: int, y1: int, y2: int)
    requires stride >= 8 && 0 <= y1 < y2
    ensures Pos(off, stride, 0, y1) + stride <= Pos(off, stride, 0, y2)
  {
    var k := y2 - y1 - 1;
    assert y2 * stride == y1 * stride + stride + k * stride;
    assert k * stride >= 0;
  }

  function WriteRow(f: seq<byte>, pos: int, row: seq<byte>): (g: seq<byte>)
    requires 0 <= pos && pos + 8 <= |f| && |row| == 8
    ensures |g| == |f|
  {
    f[..pos] + row + f[pos + 8..]
  }

  /** A written row replaces exactly the 8 pixels from pos. */
  lemma {:induction false} WriteRowAt(f: seq<byte>, pos: int, row: seq<byte>, g: seq<byte>)
    requires 0 <= pos && pos + 8 <= |f| && |row| == 8 && |g| == |f|
    requires forall k :: 0 <= k < |g| ==> g[k] == if pos <= k < pos + 8 then row[k - pos] else f[k]
    ensures g == WriteRow(f, pos, row)
  {
    var w := WriteRow(f, pos, row);
    forall k | 0 <= k < |g|
      ensures g[k] == w[k]
    {
      if k < pos {
        assert w[k] == f[..pos][k];
      } else if k < pos + 8 {
        assert w[k] == (f[..pos] + row)[k];
      } else {
        assert w[k] == f[pos + 8..][k - pos - 8];
      }
    }
  }

  /** Pixel k after a row is written at pos. */
  lemma {:induction false} WriteRowIndex(f: seq<byte>, pos: int, row: seq<byte>, k: int)
    requires 0 <= pos && pos + 8 <= |f| && |row| == 8 && 0 <= k < |f|
    ensures WriteRow(f, pos, row)[k] == if pos <= k < pos + 8 then row[k - pos] else f[k]
  {
    if k < pos {
      assert WriteRow(f, pos, row)[k] == f[..pos][k];
    } else if k >= pos + 8 {
      assert WriteRow(f, pos, row)[k] == f[pos + 8..][k - pos - 8];
    }
  }

  /** The frame after pattern rows 0..n-1 of a block are written. */
  function PaintRows(f: seq<byte>, off: int, stride: int, op: int, d: seq<byte>, n: int): (g: seq<byte>)
    requires BlockFits(|f|, off, stride) && 0 <= n <= 8
    requires IsPatternOp(op) && |d| >= BlockSize(op, d)
    ensures |g| == |f|
    decreases n
  {
    if n == 0 then f
    else
      RowInside(|f|, off, stride, n - 1);
      WriteRow(PaintRows(f, off, stride, op, d, n - 1), Pos(off, stride, 0, n - 1), PatternRow(op, d, n - 1))
  }

  /** The frame after rows 0..n-1 of a block are copied from the block at
      sOff, one row after the other. The source rows are taken from src,
      or, when within holds, from the frame being written, so that a row
      copied earlier can be read again. */
  function CopyRows(f: seq<byte>, src: seq<byte>, within: bool, dOff: int, sOff: int, stride: int, n: int): (g: seq<byte>)
    requires BlockFits(|f|, dOff, stride) && BlockFits(|src|, sOff, stride) && |src| == |f|
    requires 0 <= n <= 8
    ensures |g| == |f|
    decreases n
  {
    if n == 0 then f
    else
      var h := CopyRows(f, src, within, dOff, sOff, stride, n - 1);
      RowInside(|f|, dOff, stride, n - 1);
      RowInside(|f|, sOff, stride, n - 1);
      var s := Pos(sOff, stride, 0, n - 1);
      WriteRow(h, Pos(dOff, stride, 0, n - 1), if within then h[s..s + 8] else src[s..s + 8])
  }
  /** Inside the block, pixel (x, y) of a written row has its pattern colour. */
  lemma {:induction false} PaintRowsAt(f: seq<byte>, off: int, stride: int, op: int, d: seq<byte>, n: int, x: int, y: int)
    requires BlockFits(|f|, off, stride) && 0 <= n <= 8
    requires IsPatternOp(op) && |d| >= BlockSize(op, d)
    requires 0 <= x < 8 && 0 <= y < n
    ensures 0 <= Pos(off, stride, x, y) < |f|
    ensures PaintRows(f, off, stride, op, d, n)[Pos(off, stride, x, y)] == Pixel(op, d, x, y)
    decreases n
  {
    RowInside(|f|, off, stride, y);
    if y < n - 1 {
      PaintRowsAt(f, off, stride, op, d, n - 1, x, y);
      RowsApart(off, stride, y, n - 1);
      PaintRowsKeep(f, off, stride, op, d, n, Pos(off, stride, x, y));
    } else {
      PaintRowsLast(f, off, stride, op, d, n, x);
    }
  }

  /** Painting row n - 1 leaves the pixels outside it as they were. */
  lemma {:induction false} PaintRowsKeep(f: seq<byte>, off: int, stride: int, op: int, d: seq<byte>, n: int, k: int)
    requires BlockFits(|f|, off, stride) && 0 < n <= 8
    requires IsPatternOp(op) && |d| >= BlockSize(op, d)
    requires 0 <= k < |f|
    requires k < Pos(off, stride, 0, n - 1) || Pos(off, stride, 0, n - 1) + 8 <= k
    ensures PaintRows(f, off, stride, op, d, n)[k] == PaintRows(f, off, stride, op, d, n - 1)[k]
  {
    RowInside(|f|, off, stride, n - 1);
    WriteRowIndex(PaintRows(f, off, stride, op, d, n - 1), Pos(off, stride, 0, n - 1), PatternRow(op, d, n - 1), k);
  }

  /** Row n - 1 once painted holds its pattern colours. */
  lemma {:induction false} PaintRowsLast(f: seq<byte>, off: int, stride: int, op: int, d: seq<byte>, n: int, x: int)
    requires BlockFits(|f|, off, stride) && 0 < n <= 8
    requires IsPatternOp(op) && |d| >= BlockSize(op, d)
    requires 0 <= x < 8
    ensures 0 <= Pos(off, stride, x, n - 1) < |f|
    ensures PaintRows(f, off, stride, op, d, n)[Pos(off, stride, x, n - 1)] == Pixel(op, d, x, n - 1)
  {
    RowInside(|f|, off, stride, n - 1);
    WriteRowIndex(PaintRows(f, off, stride, op, d, n - 1), Pos(off, stride, 0, n - 1), PatternRow(op, d, n - 1),
                  Pos(off, stride, x, n - 1));
  }

  /** Outside the rows of the block nothing changes. */
  lemma {:induction false} PaintRowsOutside(f: seq<byte>, off: int, stride: int, op: int, d: seq<byte>, n: int, i: int)
    requires BlockFits(|f|, off, stride) && 0 <= n <= 8
    requires IsPatternOp(op) && |d| >= BlockSize(op, d)
    requires 0 <= i < |f|
    requires forall y :: 0 <= y < 8 ==> !(Pos(off, stride, 0, y) <= i < Pos(off, stride, 0, y) + 8)
    ensures PaintRows(f, off, stride, op, d, n)[i] == f[i]
    decreases n
  {
    if n > 0 {
      PaintRowsOutside(f, off, stride, op, d, n - 1, i);
      RowInside(|f|, off, stride, n - 1);
    }
  }

  /** Copying from another frame: pixel (x, y) of the block is pixel (x, y)
      of the source block. */
  lemma {:induction false} CopyRowsAt(f: seq<byte>, src: seq<byte>, dOff: int, sOff: int, stride: int, n: int, x: int, y: int)
    requires BlockFits(|f|, dOff, stride) && BlockFits(|src|, sOff, stride) && |src| == |f|
    requires 0 <= n <= 8 && 0 <= x < 8 && 0 <= y < n
    ensures 0 <= Pos(dOff, stride, x, y) < |f| && 0 <= Pos(sOff, stride, x, y) < |src|
    ensures CopyRows(f, src, false, dOff, sOff, stride, n)[Pos(dOff, stride, x, y)] == src[Pos(sOff, stride, x, y)]
    decreases n
  {
    RowInside(|f|, dOff, stride, y);
    RowInside(|f|, sOff, stride, y);
    if y < n - 1 {
      CopyRowsAt(f, src, dOff, sOff, stride, n - 1, x, y);
      RowsApart(dOff, stride, y, n - 1);
      CopyRowsKeep(f, src, dOff, sOff, stride, n, Pos(dOff, stride, x, y));
    } else {
      CopyRowsLast(f, src, dOff, sOff, stride, n, x);
    }
  }

  /** Row n - 1 of a copy leaves the pixels outside it as they were. */
  lemma {:induction false} CopyRowsKeep(f: seq<byte>, src: seq<byte>, dOff: int, sOff: int, stride: int, n: int, k: int)
    requires BlockFits(|f|, dOff, stride) && BlockFits(|src|, sOff, stride) && |src| == |f|
    requires 0 < n <= 8 && 0 <= k < |f|
    requires k < Pos(dOff, stride, 0, n - 1) || Pos(dOff, stride, 0, n - 1) + 8 <= k
    ensures CopyRows(f, src, false, dOff, sOff, stride, n)[k] == CopyRows(f, src, false, dOff, sOff, stride, n - 1)[k]
  {
    RowInside(|f|, dOff, stride, n - 1);
    RowInside(|f|, sOff, stride, n - 1);
    var h := CopyRows(f, src, false, dOff, sOff, stride, n - 1);
    var ps := Pos(sOff, stride, 0, n - 1);
    WriteRowIndex(h, Pos(dOff, stride, 0, n - 1), src[ps..ps + 8], k);
  }

  /** Row n - 1 of a copy is row n - 1 of the source block. */
  lemma {:induction false} CopyRowsLast(f: seq<byte>, src: seq<byte>, dOff: int, sOff: int, stride: int, n: int, x: int)
    requires BlockFits(|f|, dOff, stride) && BlockFits(|src|, sOff, stride) && |src| == |f|
    requires 0 < n <= 8 && 0 <= x < 8
    ensures 0 <= Pos(dOff, stride, x, n - 1) < |f| && 0 <= Pos(sOff, stride, x, n - 1) < |src|
    ensures CopyRows(f, src, false, dOff, sOff, stride, n)[Pos(dOff, stride, x, n - 1)] == src[Pos(sOff, stride, x, n - 1)]
  {
    RowInside(|f|, dOff, stride, n - 1);
    RowInside(|f|, sOff, stride, n - 1);
    var h := CopyRows(f, src, false, dOff, sOff, stride, n - 1);
    var ps := Pos(sOff, stride, 0, n - 1);
    WriteRowIndex(h, Pos(dOff, stride, 0, n - 1), src[ps..ps + 8], Pos(dOff, stride, x, n - 1));
  }

  // ---------------------------------------------------------------
  // One block routine, and the walk over all blocks
  // ---------------------------------------------------------------

  /** The part of the decoder state a block routine changes: the current
      frame and the payload cursor. */
  datatype VState = VState(cur: seq<byte>, ptr: int)

  /** The payload bytes from the cursor to the end of the chunk. */
  function Rest(chunk: seq<byte>, ptr: int): seq<byte> {
    if 0 <= ptr <= |chunk| then chunk[ptr..] else []
  }

  /** Block routine op applied to the block at offset off. None when the
      routine would read past the chunk, or when the block or the block its
      motion vector names does not lie inside the frame. */
  function BlockStep(op: int, cur: seq<byte>, prev: seq<byte>, chunk: seq<byte>, ptr: int, off: int, stride: int): (r: Option<VState>)
    requires |prev| == |cur|
    ensures r.Some? ==> |r.value.cur| == |cur| && r.value.ptr == ptr + BlockSize(op, Rest(chunk, ptr))
    ensures r.Some? ==> BlockFits(|cur|, off, stride) && BlockSize(op, Rest(chunk, ptr)) <= |Rest(chunk, ptr)|
  {
    var d := Rest(chunk, ptr);
    if !BlockFits(|cur|, off, stride) || |d| < BlockSize(op, d) then None
    else if op == 0 then Some(VState(CopyRows(cur, prev, false, off, off, stride, 8), ptr))
    else if 2 <= op <= 5 then MotionStep(op, cur, prev, d, ptr, off, stride)
    else if IsPatternOp(op) then Some(VState(PaintRows(cur, off, stride, op, d, 8), ptr + BlockSize(op, d)))
    else Some(VState(cur, ptr))
  }

  /** The source offset a motion block names: blocks 2 and 3 take one
      byte, block 4 one byte of two nibbles, block 5 two signed bytes. */
  function MotionSource(op: int, d: seq<byte>, off: int, stride: int): int
    requires 2 <= op <= 5 && |d| >= BlockSize(op, d)
  {
    var v := if op == 2 then Block2Vector(d[0])
             else if op == 3 then Block3Vector(d[0])
             else if op == 4 then Block4Vector(d[0])
             else Block5Vector(d[0], d[1]);
    off + v.0 + v.1 * stride
  }

  /** Blocks 2 to 5: a copy of the block at the motion source, taken from
      the current frame (2, 3) or from the previous one (4, 5). None when
      the source block is not inside the frame. */
  function MotionStep(op: int, cur: seq<byte>, prev: seq<byte>, d: seq<byte>, ptr: int, off: int, stride: int): (r: Option<VState>)
    requires 2 <= op <= 5 && |d| >= BlockSize(op, d) && |prev| == |cur| && BlockFits(|cur|, off, stride)
    ensures r.Some? <==> BlockFits(|cur|, MotionSource(op, d, off, stride), stride)
  {
    var s := MotionSource(op, d, off, stride);
    if !BlockFits(|cur|, s, stride) then None
    else if op <= 3 then Some(VState(CopyRows(cur, cur, true, off, s, stride, 8), ptr + BlockSize(op, d)))
    else Some(VState(CopyRows(cur, prev, false, off, s, stride, 8), ptr + BlockSize(op, d)))
  }

  /** A motion block's step is its MotionStep. */
  lemma {:induction false} BlockStepIsMotion(op: int, cur: seq<byte>, prev: seq<byte>, chunk: seq<byte>, ptr: int, off: int, stride: int)
    requires 2 <= op <= 5 && |prev| == |cur| && BlockFits(|cur|, off, stride)
    requires |Rest(chunk, ptr)| >= BlockSize(op, Rest(chunk, ptr))
    ensures BlockStep(op, cur, prev, chunk, ptr, off, stride) == MotionStep(op, cur, prev, Rest(chunk, ptr), ptr, off, stride)
  {
  }

  /** What a motion block's copy leaves behind is the block step's result. */
  lemma {:induction false} MotionLink(op: int, cur: seq<byte>, prev: seq<byte>, chunk: seq<byte>, ptr: int, off: int, stride: int,
                                      src: int, ok: bool, cur1: seq<byte>, ptr1: int)
    requires 2 <= op <= 5 && |prev| == |cur| && BlockFits(|cur|, off, stride)
    requires |Rest(chunk, ptr)| >= BlockSize(op, Rest(chunk, ptr))
    requires src == MotionSource(op, Rest(chunk, ptr), off, stride)
    requires ok <==> BlockFits(|cur|, src, stride)
    requires ok ==> ptr1 == ptr + BlockSize(op, Rest(chunk, ptr))
    requires ok && op <= 3 ==> cur1 == CopyRows(cur, cur, true, off, src, stride, 8)
    requires ok && op > 3 ==> cur1 == CopyRows(cur, prev, false, off, src, stride, 8)
    ensures var r := BlockStep(op, cur, prev, chunk, ptr, off, stride);
            (ok <==> r.Some?) && (ok ==> r.value == VState(cur1, ptr1))
  {
    BlockStepIsMotion(op, cur, prev, chunk, ptr, off, stride);
  }

  /** A block that does not fit in the frame, or whose payload runs past
      the chunk, stops the decoding. */
  lemma {:induction false} BlockStepMissing(op: int, cur: seq<byte>, prev: seq<byte>, chunk: seq<byte>, ptr: int, off: int, stride: int)
    requires |prev| == |cur|
    requires !BlockFits(|cur|, off, stride) || |Rest(chunk, ptr)| < BlockSize(op, Rest(chunk, ptr))
    ensures BlockStep(op, cur, prev, chunk, ptr, off, stride).None?
  {
  }

  /** Block 0's step is the copy of the same block of the previous frame. */
  lemma {:induction false} BlockStepCopyLink(op: int, cur: seq<byte>, prev: seq<byte>, chunk: seq<byte>, ptr: int, off: int, stride: int,
                                             cur1: seq<byte>, ptr1: int)
    requires op == 0 && |prev| == |cur| && BlockFits(|cur|, off, stride)
    requires cur1 == CopyRows(cur, prev, false, off, off, stride, 8) && ptr1 == ptr
    ensures BlockStep(op, cur, prev, chunk, ptr, off, stride) == Some(VState(cur1, ptr1))
  {
  }

  /** A pattern block's step is its painting, past its payload. */
  lemma {:induction false} BlockStepPaintLink(op: int, cur: seq<byte>, prev: seq<byte>, chunk: seq<byte>, ptr: int, off: int, stride: int,
                                              cur1: seq<byte>, ptr1: int)
    requires IsPatternOp(op) && |prev| == |cur| && BlockFits(|cur|, off, stride)
    requires |Rest(chunk, ptr)| >= BlockSize(op, Rest(chunk, ptr))
    requires cur1 == PaintRows(cur, off, stride, op, Rest(chunk, ptr), 8)
    requires ptr1 == ptr + BlockSize(op, Rest(chunk, ptr))
    ensures BlockStep(op, cur, prev, chunk, ptr, off, stride) == Some(VState(cur1, ptr1))
  {
  }

  /** Blocks 1 and 6 leave the frame and the cursor as they are. */
  lemma {:induction false} BlockStepKeepLink(op: int, cur: seq<byte>, prev: seq<byte>, chunk: seq<byte>, ptr: int, off: int, stride: int,
                                             cur1: seq<byte>, ptr1: int)
    requires (op == 1 || op == 6) && |prev| == |cur| && BlockFits(|cur|, off, stride)
    requires cur1 == cur && ptr1 == ptr
    ensures BlockStep(op, cur, prev, chunk, ptr, off, stride) == Some(VState(cur1, ptr1))
  {
  }

  /** The block routine for block i: the low nibble of map byte i/2 for an
      even i, the high nibble for an odd i. */
  function Nibble(dmap: seq<byte>, i: nat): (op: int)
    requires i / 2 < |dmap|
    ensures 0 <= op < 16
  {
    if i % 2 == 0 then dmap[i / 2] % 16 else dmap[i / 2] / 16
  }

  /** The two nibbles of a dmap byte are the routines of two neighbouring
      blocks, and together they are the byte. */
  lemma {:induction false} NibblesRecompose(dmap: seq<byte>, k: nat)
    requires k < |dmap|
    ensures Nibble(dmap, 2 * k) + 16 * Nibble(dmap, 2 * k + 1) == dmap[k]
  {
  }

  /** Why a walk over the blocks stopped before the end of the frame. */
  datatype Cause = MapEnded | PayloadEnded | SourceOutside | DestinationOutside

  /** The outcome of a walk: the state after the last block, or the reason
      it stopped. */
  datatype Walk = Walked(st: VState) | Stopped(cause: Cause)

  /** The reason a failed block step gives: the block itself outside the
      frame, then its payload past the chunk, and otherwise its motion
      source outside the frame. */
  function StepCause(op: int, cur: seq<byte>, chunk: seq<byte>, ptr: int, off: int, stride: int): Cause {
    if !BlockFits(|cur|, off, stride) then DestinationOutside
    else if |Rest(chunk, ptr)| < BlockSize(op, Rest(chunk, ptr)) then PayloadEnded
    else SourceOutside
  }

  /** A block step fails with its payload in the chunk only for a motion
      block whose source block is outside the frame. */
  lemma {:induction false} StepCauseSource(op: int, cur: seq<byte>, prev: seq<byte>, chunk: seq<byte>, ptr: int, off: int, stride: int)
    requires |prev| == |cur| && BlockStep(op, cur, prev, chunk, ptr, off, stride).None?
    requires StepCause(op, cur, chunk, ptr, off, stride) == SourceOutside
    ensures 2 <= op <= 5 && |Rest(chunk, ptr)| >= BlockSize(op, Rest(chunk, ptr))
    ensures !BlockFits(|cur|, MotionSource(op, Rest(chunk, ptr), off, stride), stride)
  {
  }

  /** The blocks from (x, y) on, in the source's order: left to right in
      steps of 8, then the next band of 8 rows; block counter i picks the
      nibble. Stopped as soon as the dmap runs out or a block step fails. */
  function DecodeFrom(st: VState, prev: seq<byte>, dmap: seq<byte>, chunk: seq<byte>,
                      i: nat, x: nat, y: nat, w: nat, h: nat, stride: int): (r: Walk)
    requires |prev| == |st.cur|
    ensures r.Walked? ==> |r.st.cur| == |st.cur|
    decreases h - y, w - x
  {
    if y >= h then Walked(st)
    else if x >= w then DecodeFrom(st, prev, dmap, chunk, i, 0, y + 8, w, h, stride)
    else if i / 2 >= |dmap| then Stopped(MapEnded)
    else
      var op, off := Nibble(dmap, i), BlockOffset(x, y, stride);
      match BlockStep(op, st.cur, prev, chunk, st.ptr, off, stride)
      case None => Stopped(StepCause(op, st.cur, chunk, st.ptr, off, stride))
      case Some(next) => DecodeFrom(next, prev, dmap, chunk, i + 1, x + 8, y, w, h, stride)
  }

  /** In a w x h frame with stride w, both multiples of 8, the walk never
      stops at a block outside the frame: it stops only when the map runs
      out, a payload runs past the chunk or a motion source lies outside. */
  lemma {:induction false} WalkStaysInFrame(st: VState, prev: seq<byte>, dmap: seq<byte>, chunk: seq<byte>,
                                            i: nat, x: nat, y: nat, w: nat, h: nat)
    requires |prev| == |st.cur| == w * h && w % 8 == 0 && h % 8 == 0 && x % 8 == 0 && y % 8 == 0
    ensures DecodeFrom(st, prev, dmap, chunk, i, x, y, w, h, w) != Stopped(DestinationOutside)
    decreases h - y, w - x
  {
    if y >= h {
    } else if x >= w {
      WalkStaysInFrame(st, prev, dmap, chunk, i, 0, y + 8, w, h);
    } else if i / 2 < |dmap| {
      DestinationInFrame(w, h, x, y);
      var op, off := Nibble(dmap, i), BlockOffset(x, y, w);
      match BlockStep(op, st.cur, prev, chunk, st.ptr, off, w)
      case None =>
      case Some(next) =>
        WalkStaysInFrame(next, prev, dmap, chunk, i + 1, x + 8, y, w, h);
    }
  }

  /** A frame of one 8 x 8 block, all zero. */
  function OneBlock(): seq<byte> {
    seq(64, _ => 0)
  }

  /** Motion bytes are not checked against the frame. In a frame of one
      block, block 2 with byte 0 names the block to its right and block 4
      with byte 0 the block above and to its left, both outside the frame;
      the source would copy from outside its buffer, the walk stops with
      SourceOutside. */
  lemma MotionSourceOutside()
    ensures MotionSource(2, [0], 0, 8) == 8 && !BlockFits(|OneBlock()|, 8, 8)
    ensures MotionSource(4, [0], 0, 8) == -72 && !BlockFits(|OneBlock()|, -72, 8)
    ensures DecodeFrom(VState(OneBlock(), 0), OneBlock(), [2], [0], 0, 0, 0, 8, 8, 8) == Stopped(SourceOutside)
    ensures DecodeFrom(VState(OneBlock(), 0), OneBlock(), [4], [0], 0, 0, 0, 8, 8, 8) == Stopped(SourceOutside)
  {
    var z := OneBlock();
    assert BlockStep(2, z, z, [0], 0, 0, 8).None?;
    assert BlockStep(4, z, z, [0], 0, 0, 8).None?;
    assert DecodeFrom(VState(z, 0), z, [2], [0], 0, 0, 0, 8, 8, 8) ==
           Stopped(StepCause(2, z, [0], 0, 0, 8));
    assert DecodeFrom(VState(z, 0), z, [4], [0], 0, 0, 0, 8, 8, 8) ==
           Stopped(StepCause(4, z, [0], 0, 0, 8));
  }

  /** The map is not checked against the number of blocks. A 16 x 8 frame
      has two blocks, and an empty map has no nibble for the first: the
      source would read past the map, the walk stops with MapEnded. */
  lemma MapOverrun()
    ensures var z := seq(128, _ => 0);
            DecodeFrom(VState(z, 0), z, [], [], 0, 0, 0, 16, 8, 16) == Stopped(MapEnded)
  {
  }

  /** The walk ends with the state it has once the last band is done. */
  lemma {:induction false} DecodeFromEnd(st: VState, prev: seq<byte>, dmap: seq<byte>, chunk: seq<byte>,
                                         i: nat, y: nat, w: nat, h: nat, stride: int)
    requires |prev| == |st.cur| && y >= h
    ensures DecodeFrom(st, prev, dmap, chunk, i, 0, y, w, h, stride) == Walked(st)
  {
  }

  /** Past the right edge the walk goes on with the next band. */
  lemma {:induction false} DecodeFromRowEnd(st: VState, prev: seq<byte>, dmap: seq<byte>, chunk: seq<byte>,
                                            i: nat, x: nat, y: nat, w: nat, h: nat, stride: int, y1: nat)
    requires |prev| == |st.cur| && y < h && x >= w && y1 == y + 8
    ensures DecodeFrom(st, prev, dmap, chunk, i, x, y, w, h, stride) == DecodeFrom(st, prev, dmap, chunk, i, 0, y1, w, h, stride)
  {
  }

  /** Inside the frame the walk stops when the dmap runs out, and otherwise
      takes the step of block i and goes on from the block to its right. */
  lemma {:induction false} DecodeFromBlock(st: VState, prev: seq<byte>, dmap: seq<byte>, chunk: seq<byte>,
                                           i: nat, x: nat, y: nat, w: nat, h: nat, stride: int)
    requires |prev| == |st.cur| && y < h && x < w
    ensures i / 2 >= |dmap| ==> DecodeFrom(st, prev, dmap, chunk, i, x, y, w, h, stride) == Stopped(MapEnded)
    ensures i / 2 < |dmap| ==>
              var r := BlockStep(Nibble(dmap, i), st.cur, prev, chunk, st.ptr, BlockOffset(x, y, stride), stride);
              (r.None? ==> DecodeFrom(st, prev, dmap, chunk, i, x, y, w, h, stride).Stopped?) &&
              (r.Some? ==> DecodeFrom(st, prev, dmap, chunk, i, x, y, w, h, stride) ==
                           DecodeFrom(r.value, prev, dmap, chunk, i + 1, x + 8, y, w, h, stride))
  {
  }

  /** A block step that ends in st1, or fails, carries the walk on to the
      next block, or ends it. */
  lemma {:induction false} DecodeFromStep(st0: VState, prev: seq<byte>, dmap: seq<byte>, chunk: seq<byte>,
                                          i: nat, x: nat, y: nat, w: nat, h: nat, stride: int,
                                          op: int, off: int, ok: bool, st1: VState, i1: nat, x1: nat)
    requires |prev| == |st0.cur| && y < h && x < w && i / 2 < |dmap|
    requires op == Nibble(dmap, i) && off == BlockOffset(x, y, stride)
    requires var r := BlockStep(op, st0.cur, prev, chunk, st0.ptr, off, stride);
             (ok <==> r.Some?) && (ok ==> st1 == r.value)
    requires i1 == i + 1 && x1 == x + 8
    ensures ok ==> DecodeFrom(st0, prev, dmap, chunk, i, x, y, w, h, stride) ==
                   DecodeFrom(st1, prev, dmap, chunk, i1, x1, y, w, h, stride)
    ensures !ok ==> DecodeFrom(st0, prev, dmap, chunk, i, x, y, w, h, stride).Stopped?
  {
    DecodeFromBlock(st0, prev, dmap, chunk, i, x, y, w, h, stride);
  }

  /** In a w x h frame with w and h multiples of 8 and stride w, the
      destination of every block the walk visits lies inside the frame. */
  lemma {:induction false} DestinationInFrame(w: nat, h: nat, x: nat, y: nat)
    requires w % 8 == 0 && h % 8 == 0 && x % 8 == 0 && y % 8 == 0
    requires x < w && y < h
    ensures BlockFits(w * h, BlockOffset(x, y, w), w)
  {
    assert x + 8 <= w;
    assert y + 8 <= h;
    assert (y + 8) * w <= h * w;
    assert x + y * w + 7 * w + 8 <= (y + 8) * w;
  }
}
