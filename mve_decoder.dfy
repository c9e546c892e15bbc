/** The Interplay MVE cutscene decoder: a class holding the palette, the
    decoding map, two frame buffers whose roles swap, the audio sample ring
    and the chunk cursor, driven one frame at a time by RunFrame.

    The byte source is a sequence with a read position; the audio stream,
    the texture upload and the log are outside the model, and a published
    frame is recorded in `frames`. Wherever the decoder would read past the
    chunk it holds, or touch pixels outside a frame buffer, the model stops
    with a fault and RunFrame returns false. */
module MveDecoder {
  import opened Wrappers
  import opened MveFormat
  import opened MveAudio
  import opened MveBlocks

  const U64_LIMIT := 0x1_0000_0000_0000_0000

  /** What the presentation layer is handed when a frame is published. */
  datatype Frame = Frame(palette: seq<byte>, pixels: seq<byte>, width: int, height: int)

  /** How an opcode handler ended: normally, by marking the chunk bad, or
      at a read or write the source would make out of bounds. */
  datatype Handled = Done | MarkedBad | Fault

  /** The outcome of reading one opcode preamble: too few bytes left for
      one, a preamble that would be read outside the chunk, a declared size
      larger than what is left, or the opcode with what is left after it. */
  datatype Framing =
    | TooSmall
    | HeaderOutside
    | TooLarge(size: int)
    | Opcode(size: int, kind: int, version: int, rest: int)

  /** One step of the opcode framing: `remaining` bytes of the chunk are
      still unaccounted for and the preamble is read at ptr. */
  function FrameOpcode(chunk: seq<byte>, ptr: int, remaining: int): (f: Framing)
    ensures f == TooSmall <==> remaining < OPCODE_PREAMBLE_SIZE
    ensures f == HeaderOutside <==> remaining >= OPCODE_PREAMBLE_SIZE && !(0 <= ptr && ptr + 4 <= |chunk|)
    ensures f.TooLarge? <==>
              remaining >= OPCODE_PREAMBLE_SIZE && 0 <= ptr && ptr + 4 <= |chunk| &&
              LE16(chunk, ptr) > remaining - OPCODE_PREAMBLE_SIZE
    ensures f.TooLarge? ==> f.size == LE16(chunk, ptr) > remaining - OPCODE_PREAMBLE_SIZE
    ensures f.Opcode? ==>
              0 <= ptr && ptr + 4 <= |chunk| &&
              f.size == LE16(chunk, ptr) && f.kind == chunk[ptr + 2] && f.version == chunk[ptr + 3] &&
              f.rest == remaining - OPCODE_PREAMBLE_SIZE - f.size && 0 <= f.rest < remaining
  {
    if remaining < OPCODE_PREAMBLE_SIZE then TooSmall
    else if !(0 <= ptr && ptr + 4 <= |chunk|) then HeaderOutside
    else if LE16(chunk, ptr) > remaining - OPCODE_PREAMBLE_SIZE then TooLarge(LE16(chunk, ptr))
    else Opcode(LE16(chunk, ptr), chunk[ptr + 2], chunk[ptr + 3], remaining - OPCODE_PREAMBLE_SIZE - LE16(chunk, ptr))
  }

  /** A chunk of two opcodes: silence with a declared size of 8 (its 6
      bytes of header and 2 more, 0xFF 0xFF), then an empty end-of-chunk
      opcode. */
  function SilenceThenEnd(): seq<byte> {
    [8, 0, OPCODE_SILENCE_FRAME, 0, 0, 0, 0, 0, 0, 0, 0xFF, 0xFF, 0, 0, OPCODE_END_OF_CHUNK, 0]
  }

  /** The silence handler moves the cursor 6 bytes past the preamble
      whatever the declared size, while the remaining count has already
      dropped by the whole size. In SilenceThenEnd the next preamble is
      therefore read 2 bytes early, from inside the silence payload, and
      the well-formed chunk fails as TooLarge; read where the count puts
      it, the end-of-chunk opcode is found. */
  lemma SilenceLagMisframes()
    ensures var c := SilenceThenEnd();
            FrameOpcode(c, 0, |c|) == Opcode(8, OPCODE_SILENCE_FRAME, 0, 4) &&
            FrameOpcode(c, OPCODE_PREAMBLE_SIZE + 6, 4).TooLarge? &&
            FrameOpcode(c, OPCODE_PREAMBLE_SIZE + 8, 4) == Opcode(0, OPCODE_END_OF_CHUNK, 0, 0)
  {
  }

  /** An opcode the chunk loop handled: its declared size, its type and
      how its handler ended. */
  datatype Step = Step(size: int, kind: int, handled: Handled)

  /** How a chunk ended: its preamble or body could not be read, its
      opcodes used it up, one marked it bad, the framing failed, or a
      handler faulted. */
  datatype ChunkEnd = ShortRead | Exhausted | Marked | BadFraming(f: Framing) | Faulted

  /** The endings after which decoding goes on. */
  predicate Completed(e: ChunkEnd) {
    e.Exhausted? || e.Marked?
  }

  /** The chunk bytes a run of handled opcodes accounts for: each its
      preamble and its declared size. */
  function Spent(steps: seq<Step>): int {
    if steps == [] then 0 else Spent(steps[..|steps| - 1]) + OPCODE_PREAMBLE_SIZE + steps[|steps| - 1].size
  }

  lemma {:induction false} SpentSnoc(steps: seq<Step>, s: Step)
    ensures Spent(steps + [s]) == Spent(steps) + OPCODE_PREAMBLE_SIZE + s.size
  {
    assert (steps + [s])[..|steps|] == steps;
  }

  /** Every handled opcode ended normally. */
  predicate AllDone(steps: seq<Step>) {
    forall k :: 0 <= k < |steps| ==> steps[k].handled == Done
  }

  /** What the opcode loop has accounted for so far: remaining is the
      chunk size less the bytes of the opcodes handled, which all ended
      normally except a last one that marked the chunk bad. */
  ghost predicate Trace(chunkSize: int, chunkType: int, remaining: int, newType: int, steps: seq<Step>) {
    0 <= remaining == chunkSize - Spent(steps) && (forall k :: 0 <= k < |steps| ==> 0 <= steps[k].size) &&
    (newType != CHUNK_BAD ==> newType == chunkType && AllDone(steps)) &&
    (newType == CHUNK_BAD ==>
       if steps == [] then chunkType == CHUNK_BAD
       else AllDone(steps[..|steps| - 1]) && steps[|steps| - 1].handled == MarkedBad &&
            steps[|steps| - 1].kind == OPCODE_SET_PALETTE)
  }

  /** How the opcode loop of a chunk of chunkSize bytes ended: the opcodes
      handled never account for more than the chunk, and every one but the
      last ended normally.
      - Exhausted: they account for the chunk exactly;
      - Marked: the last one marked the chunk bad (a palette opcode) and no
        opcode after it was handled, or the chunk came in marked bad;
      - Faulted: the last one's handler faulted;
      - BadFraming: fewer than a preamble's bytes were left (TooSmall), or
        the declared size exceeded what the preamble left (TooLarge). */
  ghost predicate Accounted(chunkSize: int, chunkType: int, newType: int, steps: seq<Step>, end: ChunkEnd) {
    !end.ShortRead? &&
    Spent(steps) <= chunkSize && (forall k :: 0 <= k < |steps| ==> 0 <= steps[k].size) &&
    (steps == [] || AllDone(steps[..|steps| - 1])) &&
    (end.Exhausted? ==> newType == chunkType && Spent(steps) == chunkSize && AllDone(steps)) &&
    (end.Marked? ==> newType == CHUNK_BAD &&
                     if steps == [] then chunkType == CHUNK_BAD
                     else steps[|steps| - 1].handled == MarkedBad && steps[|steps| - 1].kind == OPCODE_SET_PALETTE) &&
    (end.Faulted? ==> newType == chunkType && steps != [] && steps[|steps| - 1].handled == Fault) &&
    (end.BadFraming? ==> newType == chunkType && !end.f.Opcode? && AllDone(steps) &&
                         (end.f.TooSmall? <==> chunkSize - Spent(steps) < OPCODE_PREAMBLE_SIZE) &&
                         (end.f.TooLarge? ==> end.f.size > chunkSize - Spent(steps) - OPCODE_PREAMBLE_SIZE))
  }

  lemma TraceStart(chunkSize: int, chunkType: int)
    requires 0 <= chunkSize
    ensures Trace(chunkSize, chunkType, chunkSize, chunkType, [])
  {
  }

  /** A preamble that does not frame an opcode ends the chunk with its
      framing error. */
  lemma {:induction false} TraceFraming(chunkSize: int, chunkType: int, remaining: int, steps: seq<Step>, f: Framing)
    requires Trace(chunkSize, chunkType, remaining, chunkType, steps) && chunkType != CHUNK_BAD
    requires !f.Opcode? && (f.TooSmall? <==> remaining < OPCODE_PREAMBLE_SIZE)
    requires f.TooLarge? ==> f.size > remaining - OPCODE_PREAMBLE_SIZE
    ensures Accounted(chunkSize, chunkType, chunkType, steps, BadFraming(f))
  {
  }

  /** A handled opcode takes its preamble and its size off the remaining
      count; a fault ends the chunk, a mark makes it the last. */
  lemma {:induction false} TraceNext(chunkSize: int, chunkType: int, remaining: int, steps: seq<Step>, f: Framing, h: Handled)
    requires Trace(chunkSize, chunkType, remaining, chunkType, steps) && chunkType != CHUNK_BAD
    requires f.Opcode? && 0 <= f.size && f.rest == remaining - OPCODE_PREAMBLE_SIZE - f.size && 0 <= f.rest
    requires h == MarkedBad ==> f.kind == OPCODE_SET_PALETTE
    ensures var steps1 := steps + [Step(f.size, f.kind, h)];
            (h == Fault ==> Accounted(chunkSize, chunkType, chunkType, steps1, Faulted)) &&
            (h != Fault ==> Trace(chunkSize, chunkType, f.rest, if h == MarkedBad then CHUNK_BAD else chunkType, steps1))
  {
    var steps1 := steps + [Step(f.size, f.kind, h)];
    SpentSnoc(steps, Step(f.size, f.kind, h));
    assert steps1[..|steps|] == steps;
  }

  /** The loop ends when nothing remains or the chunk is marked bad. */
  lemma {:induction false} TraceExit(chunkSize: int, chunkType: int, remaining: int, newType: int, steps: seq<Step>)
    requires Trace(chunkSize, chunkType, remaining, newType, steps) && (remaining <= 0 || newType == CHUNK_BAD)
    ensures Accounted(chunkSize, chunkType, newType, steps, if newType == CHUNK_BAD then Marked else Exhausted)
  {
    if steps != [] && newType != CHUNK_BAD {
      var init := steps[..|steps| - 1];
      assert forall k :: 0 <= k < |init| ==> init[k] == steps[k];
    }
  }

  /** Pixels in a frame of w x h. */
  function FrameArea(w: nat, h: nat): nat {
    w * h
  }

  /** The DPCM byte count of an audio opcode as the source computes it: in
      16-bit unsigned arithmetic, seeds subtracted, forced even in stereo. */
  function DpcmByteCountAsWritten(size: int, channels: int): (n: int)
    ensures 0 <= n < 0x1_0000
  {
    var n := AsUint16(AsUint16(size - 6) - 2 * channels);
    if channels == 2 then n - n % 2 else n
  }

  /** The DPCM byte count of an opcode long enough to hold its header and
      seeds: what follows them, rounded down to whole sample pairs in
      stereo. None for a shorter opcode. */
  function DpcmByteCount(size: int, channels: int): (r: Option<nat>)
    requires channels == 1 || channels == 2
    ensures r.Some? <==> size >= 6 + 2 * channels
    ensures r.Some? ==> 6 + 2 * channels + r.value <= size <= 6 + 2 * channels + r.value + (channels - 1)
    ensures r.Some? && size < 0x1_0000 ==> r.value == DpcmByteCountAsWritten(size, channels)
  {
    if size < 6 + 2 * channels then None
    else
      var n := size - 6 - 2 * channels;
      Some(if channels == 2 then n - n % 2 else n)
  }

  /** On an opcode too short for its seeds, the count as written wraps
      around and asks for more bytes than any chunk holds. */
  lemma {:induction false} DpcmCountOverrunsChunk(size: int, channels: int)
    requires channels == 1 || channels == 2
    requires 0 <= size < 6 + 2 * channels
    ensures OPCODE_PREAMBLE_SIZE + 6 + 2 * channels + DpcmByteCountAsWritten(size, channels) > 0xFFFF
  {
    AsUint16Near(size - 6);
    var m := AsUint16(size - 6) - 2 * channels;
    AsUint16Near(m);
    assert AsUint16(m) >= 0x1_0000 - 10;
  }

  /** The seed predictors read after the 6-byte header; the right seed of a
      mono stream is never used and is 0 here. */
  function DpcmSeeds(d: seq<byte>, channels: int): (seeds: seq<int>)
    requires 2 * channels <= |d| && (channels == 1 || channels == 2)
    ensures |seeds| == 2 && IsInt16(seeds[0]) && IsInt16(seeds[1])
  {
    [AsInt16(LE16(d, 0)), if channels == 2 then AsInt16(LE16(d, 2)) else 0]
  }

  /** The samples a compressed audio opcode of this size decodes from d,
      its payload, and the payload bytes it consumes; None when the payload
      is shorter than that. */
  function DpcmPayload(table: seq<int>, d: seq<byte>, size: int, channels: int): (r: Option<(seq<int>, nat)>)
    requires |table| == 256 && (channels == 1 || channels == 2)
    ensures r.Some? ==> r.value.1 <= |d| && |r.value.0| == r.value.1 - channels
    ensures r.Some? ==> forall k :: 0 <= k < |r.value.0| ==> IsInt16(r.value.0[k])
  {
    match DpcmByteCount(size, channels)
    case None => None
    case Some(n) =>
      if 2 * channels + n > |d| then None
      else
        var seeds := DpcmSeeds(d, channels);
        Some((seeds[..channels] + DpcmDecode(table, seeds, channels == 2, d[2 * channels..2 * channels + n]).out,
              2 * channels + n))
  }

  /** The samples of an uncompressed 8-bit audio opcode: size - 6 bytes,
      the count kept in 16 bits. */
  function Pcm8Payload(d: seq<byte>, size: int): (r: Option<(seq<int>, nat)>)
    ensures r.Some? ==> r.value.1 <= |d| && |r.value.0| == r.value.1
    ensures r.Some? ==> forall k :: 0 <= k < |r.value.0| ==> IsInt16(r.value.0[k])
  {
    var n := AsUint16(size - 6);
    if n > |d| then None else Some((Pcm8(d[..n]), n))
  }

  /** The samples of an uncompressed 16-bit audio opcode: (size - 6) / 2
      little-endian words, the byte count kept in 16 bits. */
  function Pcm16Payload(d: seq<byte>, size: int): (r: Option<(seq<int>, nat)>)
    ensures r.Some? ==> r.value.1 <= |d| && 2 * |r.value.0| == r.value.1
    ensures r.Some? ==> forall k :: 0 <= k < |r.value.0| ==> IsInt16(r.value.0[k])
  {
    var n := AsUint16(size - 6) / 2;
    if 2 * n > |d| then None else Some((Pcm16(d, n), 2 * n))
  }

  /** The samples an audio opcode for stream 0 puts into the ring, and how
      many bytes after its 6-byte header it reads, for payload d. None when
      those bytes are not all in d. */
  function AudioPayload(d: seq<byte>, size: int, channels: int, bitDepth: int, compressed: bool): (r: Option<(seq<int>, nat)>)
    requires compressed ==> channels == 1 || channels == 2
    ensures r.Some? ==> r.value.1 <= |d|
    ensures r.Some? ==> forall k :: 0 <= k < |r.value.0| ==> IsInt16(r.value.0[k])
  {
    if compressed then DpcmPayload(DeltaTable(), d, size, channels)
    else if bitDepth == 8 then Pcm8Payload(d, size)
    else Pcm16Payload(d, size)
  }

  /** The number of zero samples a silence opcode writes: its size less the
      header, in bits, over the sample depth, kept to 16 bits. */
  function SilenceCount(size: int, bitDepth: int): (n: int)
    requires bitDepth > 0
    ensures 0 <= n < 0x1_0000
    ensures bitDepth == 8 && 6 <= size < 6 + 0x1_0000 ==> n == size - 6
    ensures bitDepth == 16 && 6 <= size < 6 + 0x2_0000 ==> n == (size - 6) / 2
  {
    var q := CDiv((size - 6) * 8, bitDepth);
    if 6 <= size && (bitDepth == 8 || bitDepth == 16) then
      if bitDepth == 8 then
        ModUnique((size - 6) * 8, 8, size - 6, 0);
        if q < 0x1_0000 then ModUnique(q, 0x1_0000, 0, q); AsUint16(q) else AsUint16(q)
      else
        ModUnique((size - 6) * 8, 16, (size - 6) / 2, 8 * ((size - 6) % 2));
        if q < 0x1_0000 then ModUnique(q, 0x1_0000, 0, q); AsUint16(q) else AsUint16(q)
    else AsUint16(q)
  }

  /** The compressed payload of the opcode whose payload starts at
      chunk[p0]: the seeds, then the deltas after them decoded from the
      seeds. */
  lemma {:induction false} DpcmPayloadAt(table: seq<int>, chunk: seq<byte>, p0: nat, q: nat, size: int, nc: int, n: nat, seeds: seq<int>)
    requires |table| == 256 && (nc == 1 || nc == 2) && DpcmByteCount(size, nc) == Some(n) && p0 + 2 * nc + n <= |chunk|
    requires q == p0 + 2 * nc && seeds == DpcmSeeds(chunk[p0..], nc)
    ensures DpcmPayload(table, Rest(chunk, p0), size, nc) ==
            Some((seeds[..nc] + DpcmDecode(table, seeds, nc == 2, chunk[q..q + n]).out, 2 * nc + n))
  {
    var d := chunk[p0..];
    assert d == Rest(chunk, p0);
    SliceOfRest(chunk, p0, 2 * nc, q, n);
  }

  /** A run of n bytes at offset k of the rest from p0 is the run at q = p0 + k. */
  lemma {:induction false} SliceOfRest(s: seq<byte>, p0: nat, k: nat, q: nat, n: nat)
    requires q == p0 + k && q + n <= |s|
    ensures s[p0..][k..k + n] == s[q..q + n]
  {
    var a, b := s[p0..][k..k + n], s[q..q + n];
    assert |a| == n == |b|;
    forall j | 0 <= j < n
      ensures a[j] == b[j]
    {
      assert a[j] == s[p0..][k + j] == s[p0 + k + j];
    }
  }

  /** A compressed payload is missing exactly when the opcode is too
      short for its seeds or its bytes run past the chunk. */
  lemma {:induction false} DpcmPayloadNone(table: seq<int>, chunk: seq<byte>, p0: nat, size: int, nc: int)
    requires |table| == 256 && (nc == 1 || nc == 2) && p0 <= |chunk|
    requires DpcmByteCount(size, nc).None? || p0 + 2 * nc + DpcmByteCount(size, nc).value > |chunk|
    ensures DpcmPayload(table, Rest(chunk, p0), size, nc).None?
  {
    assert |Rest(chunk, p0)| == |chunk| - p0;
  }

  /** The ring after the seeds and then the decoded deltas went in is the
      ring after the whole compressed payload went in. */
  lemma {:induction false} DpcmRingResult(table: seq<int>, chunk: seq<byte>, p0: nat, q: nat, size: int, nc: int, n: nat,
                                          seeds: seq<int>, r0: seq<int>, w0: int, r1: seq<int>, w1: int,
                                          r2: seq<int>, w2: int, c: int)
    requires |table| == 256 && (nc == 1 || nc == 2) && DpcmByteCount(size, nc) == Some(n) && p0 + 2 * nc + n <= |chunk|
    requires q == p0 + 2 * nc && seeds == DpcmSeeds(chunk[p0..], nc)
    requires |r0| == c && 0 <= w0 < c
    requires r1 == RingPut(r0, w0, seeds[..nc]) && w1 == RingAdvance(w0, nc, c)
    requires r2 == RingPut(r1, w1, DpcmDecode(table, seeds, nc == 2, chunk[q..q + n]).out)
    requires w2 == RingAdvance(w1, n, c)
    ensures var r := DpcmPayload(table, Rest(chunk, p0), size, nc);
            r.Some? && r2 == RingPut(r0, w0, r.value.0) && w2 == RingAdvance(w0, |r.value.0|, c) &&
            r.value.1 == 2 * nc + n
  {
    var a, b := seeds[..nc], DpcmDecode(table, seeds, nc == 2, chunk[q..q + n]).out;
    DpcmPayloadAt(table, chunk, p0, q, size, nc, n, seeds);
    RingPutConcat(r0, w0, a, b);
    RingAdvanceTwice(w0, nc, n, |a + b|, c);
    assert |a| == nc && |a + b| == nc + n;
  }

  function Min(a: int, b: int): int {
    if a <= b then a else b
  }

  /** Two new zeroed frame buffers of the given area. */
  method NewFrames(area: nat) returns (v0: array<byte>, v1: array<byte>)
    ensures fresh(v0) && fresh(v1) && v0 != v1
    ensures v0.Length == area && v1.Length == area
  {
    v0 := new byte[area];
    v1 := new byte[area];
  }

  class InterplayDecoder {
    // The byte source and the position of the next read.
    var file: seq<byte>
    var filePos: int
    var isPlaying: bool
    var audioStarted: bool
    var streamOpen: bool

    var nWidth: int
    var nHeight: int
    var videoStride: int
    var nFrame: int

    /** 256 palette entries of three 8-bit channels. */
    const palette: array<byte>

    // The audio ring, its write cursor and the declared format.
    const samples: array<int>
    var nWrite: int
    var nSampleRate: int
    var nChannels: int
    var nBitDepth: int
    var bCompressed: bool

    var nTimerRate: int
    var nTimerDiv: int
    var nFrameDuration: int
    var nNextFrameTime: int

    var video0: array<byte>
    var video1: array<byte>
    var current: int
    var previous: int

    var decodeMap: array<byte>

    /** Every frame published so far, with the palette it was shown with. */
    var frames: seq<Frame>

    // The chunk being decoded and the opcode cursor inside it.
    var chunk: seq<byte>
    var ptr: nat

    ghost var Repr: set<object>

    ghost predicate Valid()
      reads this`Repr, this`nWrite, this`filePos, this`file, this`nWidth, this`nHeight, this`videoStride
      reads this`video0, this`video1, this`decodeMap, this`current, this`previous
      reads this`bCompressed, this`nChannels, this`nFrameDuration, this`nNextFrameTime, this`nFrame
    {
      FramesValid() && CountersValid()
    }

    /** The buffers: all distinct, the two frames of one size, the frame
        dimensions whole blocks with the stride equal to the width. */
    ghost predicate FramesValid()
      reads this`Repr, this`nWidth, this`nHeight, this`videoStride
      reads this`video0, this`video1, this`decodeMap, this`current, this`previous
    {
      FramesShape(Repr, nWidth, nHeight, videoStride, video0, video1, decodeMap, current, previous)
    }

    /** FramesValid over given values of the fields it reads. */
    ghost predicate FramesShape(repr: set<object>, w: int, h: int, stride: int, v0: array<byte>, v1: array<byte>,
                                dmap: array<byte>, cur: int, prev: int)
    {
      this in repr && palette in repr && samples in repr && v0 in repr && v1 in repr && dmap in repr &&
      palette.Length == 768 && samples.Length > 0 &&
      0 <= w && 0 <= h && w % 8 == 0 && h % 8 == 0 && stride == w &&
      v0.Length == v1.Length == FrameArea(w, h) &&
      v0 != v1 && palette != v0 && palette != v1 &&
      dmap != v0 && dmap != v1 && dmap != palette &&
      ((cur == 0 && prev == 1) || (cur == 1 && prev == 0))
    }

    /** The cursors and counters in range. */
    ghost predicate CountersValid()
      reads this`nWrite, this`filePos, this`file
      reads this`bCompressed, this`nChannels, this`nFrameDuration, this`nNextFrameTime, this`nFrame
    {
      0 <= nWrite < samples.Length && 0 <= filePos <= |file| &&
      (bCompressed ==> nChannels == 1 || nChannels == 2) &&
      0 <= nFrameDuration < U64_LIMIT && 0 <= nNextFrameTime < U64_LIMIT &&
      0 <= nFrame
    }

    /** The buffer being decoded into. */
    function CurFrame(): array<byte>
      reads this`current, this`video0, this`video1
    {
      if current == 0 then video0 else video1
    }

    /** The buffer holding the last published frame. */
    function PrevFrame(): array<byte>
      reads this`previous, this`video0, this`video1
    {
      if previous == 0 then video0 else video1
    }

    /** A decoder with nothing open. With sound disabled the audio stream
        counts as started, so it is never created. The ring capacity is a
        parameter. */
    constructor (soundEnabled: bool, capacity: nat)
      requires capacity > 0
      ensures Valid() && fresh(Repr)
      ensures audioStarted == !soundEnabled && !isPlaying && !streamOpen
      ensures nWidth == 0 && nHeight == 0 && nFrame == 0 && videoStride == 0
      ensures samples.Length == capacity && nWrite == 0
      ensures nChannels == 0 && nBitDepth == 0 && !bCompressed
      ensures forall j :: 0 <= j < 768 ==> palette[j] == 0
      ensures current == 0 && previous == 1 && decodeMap.Length == 0
      ensures nFrameDuration == 0 && nTimerRate == 0 && nTimerDiv == 0
      ensures frames == [] && file == [] && filePos == 0
    {
      file := [];
      filePos := 0;
      isPlaying := false;
      audioStarted := !soundEnabled;
      streamOpen := false;
      nWidth := 0;
      nHeight := 0;
      nFrame := 0;
      palette := new byte[768](_ => 0);
      samples := new int[capacity](_ => 0);
      nWrite := 0;
      nSampleRate := 0;
      nChannels := 0;
      nBitDepth := 0;
      bCompressed := false;
      nFrameDuration := 0;
      nTimerRate := 0;
      nTimerDiv := 0;
      nNextFrameTime := 0;
      video0 := new byte[0];
      video1 := new byte[0];
      decodeMap := new byte[0];
      current := 0;
      previous := 1;
      videoStride := 0;
      frames := [];
      chunk := [];
      ptr := 0;
      new;
      Repr := {this, palette, samples, video0, video1, decodeMap};
    }

    /** Accepts a byte source that starts with the MVE signature and
        positions it after the signature and the 6 bytes that follow. */
    method Open(data: seq<byte>) returns (ok: bool)
      requires Valid()
      modifies this`file, this`filePos
      ensures Valid()
      ensures ok <==> HasSignature(data)
      ensures ok ==> file == data && filePos == Min(StreamStart, |data|)
      ensures !ok ==> file == old(file) && filePos == old(filePos)
    {
      if !HasSignature(data) {
        return false;
      }
      file := data;
      filePos := Min(StreamStart, |data|);
      return true;
    }

    /** The current and previous buffers trade roles. */
    method SwapFrames()
      requires Valid()
      modifies this`current, this`previous
      ensures Valid()
      ensures current == old(previous) && previous == old(current)
      ensures CurFrame() == old(PrevFrame()) && PrevFrame() == old(CurFrame())
    {
      var t := previous;
      previous := current;
      current := t;
    }

    /** The timing gate: a frame is due once the clock reaches the due
        time, which then moves on by one frame duration, in 64 bits. */
    method TimingGate(clock: int) returns (due: bool)
      requires Valid()
      modifies this`nNextFrameTime
      ensures Valid()
      ensures due <==> old(nNextFrameTime) <= clock
      ensures due ==> nNextFrameTime == (old(nNextFrameTime) + nFrameDuration) % U64_LIMIT
      ensures !due ==> nNextFrameTime == old(nNextFrameTime)
    {
      if nNextFrameTime > clock {
        return false;
      }
      nNextFrameTime := (nNextFrameTime + nFrameDuration) % U64_LIMIT;
      return true;
    }

    /** Decodes chunks until one at or past the video chunk type has been
        handled (only one while the decoder is not marked playing). Returns
        true when the frame is not yet due, and otherwise whether the last
        chunk was not the end chunk; false on a short read, a framing error
        or a fault. */
    method RunFrame(clock: int) returns (more: bool, ghost ends: seq<ChunkEnd>, ghost lastType: int)
      requires Valid()
      modifies Repr
      ensures Valid() && fresh(Repr - old(Repr))
      ensures ends == [] <==> old(nNextFrameTime) > clock
      ensures !old(isPlaying) ==> |ends| <= 1
      ensures forall k :: 0 <= k < |ends| - 1 ==> Completed(ends[k])
      ensures more <==> ends == [] || (Completed(ends[|ends| - 1]) && lastType != CHUNK_END)
      ensures file == old(file) && old(filePos) <= filePos && isPlaying == old(isPlaying)
      ensures old(nNextFrameTime) > clock ==> more && nNextFrameTime == old(nNextFrameTime) && filePos == old(filePos)
      ensures old(nNextFrameTime) <= clock && !isPlaying ==>
                nNextFrameTime == (old(nNextFrameTime) + old(nFrameDuration)) % U64_LIMIT
      ensures old(nNextFrameTime) <= clock && |file| - old(filePos) < CHUNK_PREAMBLE_SIZE ==>
                !more && filePos == |file|
    {
      var chunkType := 0;
      ghost var first := true;
      ends, lastType := [], 0;
      while true
        invariant Valid() && fresh(Repr - old(Repr))
        invariant file == old(file) && old(filePos) <= filePos && isPlaying == old(isPlaying)
        invariant first <==> ends == []
        invariant first ==> filePos == old(filePos) && nNextFrameTime == old(nNextFrameTime) &&
                            nFrameDuration == old(nFrameDuration)
        invariant !first ==> isPlaying && old(nNextFrameTime) <= clock && old(filePos) + CHUNK_PREAMBLE_SIZE <= filePos
        invariant forall k :: 0 <= k < |ends| ==> Completed(ends[k])
        invariant !first ==> lastType < CHUNK_VIDEO
        decreases |file| - filePos
      {
        var due := TimingGate(clock);
        if !due {
          return true, ends, lastType;
        }
        var ok;
        ghost var e;
        ok, chunkType, e := NextChunk();
        ends, lastType := ends + [e], chunkType;
        if !ok {
          return false, ends, lastType;
        }
        if !(chunkType < CHUNK_VIDEO && isPlaying) {
          break;
        }
        first := false;
      }
      return chunkType != CHUNK_END, ends, lastType;
    }

    /** One chunk read from the file and processed: false when the file
        ends before its preamble or its body, or when an opcode fails; the
        type is the chunk's, or CHUNK_BAD. */
    method NextChunk() returns (ok: bool, chunkType: int, ghost end: ChunkEnd)
      requires Valid()
      modifies Repr
      ensures Valid() && fresh(Repr - old(Repr))
      ensures ok <==> Completed(end)
      ensures end.ShortRead? <==>
                |file| - old(filePos) < CHUNK_PREAMBLE_SIZE ||
                LE16(file, old(filePos)) > |file| - old(filePos) - CHUNK_PREAMBLE_SIZE
      ensures file == old(file) && isPlaying == old(isPlaying) && nNextFrameTime == old(nNextFrameTime)
      ensures old(filePos) <= filePos
      ensures ok ==> old(filePos) + CHUNK_PREAMBLE_SIZE <= filePos
      ensures |file| - old(filePos) < CHUNK_PREAMBLE_SIZE ==> !ok && filePos == |file|
    {
      if |file| - filePos < CHUNK_PREAMBLE_SIZE {
        filePos := |file|;
        return false, 0, ShortRead;
      }
      var chunkSize := LE16(file, filePos);
      chunkType := LE16(file, filePos + 2);
      filePos := filePos + CHUNK_PREAMBLE_SIZE;
      if |file| - filePos < chunkSize {
        filePos := |file|;
        return false, chunkType, ShortRead;
      }
      chunk := file[filePos..filePos + chunkSize];
      filePos := filePos + chunkSize;
      ghost var steps;
      chunkType, ok, steps, end := ProcessChunk(chunkSize, chunkType);
    }

    /** The opcode loop over the chunk just read. Each opcode takes its
        preamble and its declared size off the remaining count; the loop
        ends when nothing remains or the chunk has been marked bad. */
    method ProcessChunk(chunkSize: int, chunkType: int) returns (newType: int, ok: bool, ghost steps: seq<Step>, ghost end: ChunkEnd)
      requires Valid() && 0 <= chunkSize
      modifies Repr
      ensures Valid() && fresh(Repr - old(Repr))
      ensures file == old(file) && filePos == old(filePos) && isPlaying == old(isPlaying)
      ensures nNextFrameTime == old(nNextFrameTime)
      ensures ok <==> Completed(end)
      ensures Accounted(chunkSize, chunkType, newType, steps, end)
    {
      ptr := 0;
      var remaining := chunkSize;
      newType := chunkType;
      steps := [];
      TraceStart(chunkSize, chunkType);
      while remaining > 0 && newType != CHUNK_BAD
        invariant Valid() && fresh(Repr - old(Repr))
        invariant file == old(file) && filePos == old(filePos) && isPlaying == old(isPlaying)
        invariant nNextFrameTime == old(nNextFrameTime)
        invariant Trace(chunkSize, chunkType, remaining, newType, steps)
        decreases remaining
      {
        var f := FrameOpcode(chunk, ptr, remaining);
        if f.TooSmall? || f.HeaderOutside? {
          TraceFraming(chunkSize, chunkType, remaining, steps, f);
          return newType, false, steps, BadFraming(f);
        }
        ptr := ptr + OPCODE_PREAMBLE_SIZE;
        if f.TooLarge? {
          TraceFraming(chunkSize, chunkType, remaining, steps, f);
          return newType, false, steps, BadFraming(f);
        }
        var h := HandleOpcode(f.kind, f.version, f.size);
        TraceNext(chunkSize, chunkType, remaining, steps, f, h);
        remaining := f.rest;
        steps := steps + [Step(f.size, f.kind, h)];
        if h == Fault {
          return newType, false, steps, Faulted;
        }
        if h == MarkedBad {
          newType := CHUNK_BAD;
        }
      }
      end := if newType == CHUNK_BAD then Marked else Exhausted;
      TraceExit(chunkSize, chunkType, remaining, newType, steps);
      return newType, true, steps, end;
    }

    /** Dispatch on the opcode type. Unknown types above 0x15 leave the
        cursor where it is. */
    method HandleOpcode(kind: int, version: int, size: int) returns (h: Handled)
      requires Valid() && 0 <= size
      modifies Repr
      ensures Valid() && fresh(Repr - old(Repr))
      ensures file == old(file) && filePos == old(filePos) && isPlaying == old(isPlaying)
      ensures nNextFrameTime == old(nNextFrameTime)
      ensures h == MarkedBad ==> kind == OPCODE_SET_PALETTE
    {
      if OPCODE_CREATE_TIMER <= kind <= OPCODE_INIT_VIDEO_BUFFERS {
        h := HandleSetupOpcode(kind, version, size);
      } else if OPCODE_SEND_BUFFER <= kind <= OPCODE_SILENCE_FRAME {
        h := HandleFrameOpcode(kind, size);
      } else if kind == OPCODE_SET_PALETTE {
        h := SetPalette(size);
      } else if kind == OPCODE_SET_DECODING_MAP {
        h := SetDecodingMap(size);
      } else if kind == OPCODE_VIDEO_DATA {
        h := VideoData(size);
      } else if IsSkippedOpcode(kind) {
        ptr := ptr + size;
        h := Done;
      } else {
        h := Done;
      }
    }

    /** The opcodes that set the stream up: timer, audio buffers, audio
        start, video buffers. */
    method HandleSetupOpcode(kind: int, version: int, size: int) returns (h: Handled)
      requires Valid() && 0 <= size && OPCODE_CREATE_TIMER <= kind <= OPCODE_INIT_VIDEO_BUFFERS
      modifies Repr
      ensures Valid() && fresh(Repr - old(Repr)) && h != MarkedBad
      ensures file == old(file) && filePos == old(filePos) && isPlaying == old(isPlaying)
      ensures nNextFrameTime == old(nNextFrameTime)
    {
      if kind == OPCODE_CREATE_TIMER {
        h := CreateTimer();
      } else if kind == OPCODE_INIT_AUDIO_BUFFERS {
        h := InitAudioBuffers(version);
      } else if kind == OPCODE_START_STOP_AUDIO {
        StartStopAudio(size);
        h := Done;
      } else {
        h := InitVideoBuffers(version, size);
      }
    }

    /** The opcodes of a frame's output: publish the frame, audio samples,
        silence. */
    method HandleFrameOpcode(kind: int, size: int) returns (h: Handled)
      requires Valid() && 0 <= size && OPCODE_SEND_BUFFER <= kind <= OPCODE_SILENCE_FRAME
      modifies Repr
      ensures Valid() && fresh(Repr - old(Repr)) && h != MarkedBad
      ensures file == old(file) && filePos == old(filePos) && isPlaying == old(isPlaying)
      ensures nNextFrameTime == old(nNextFrameTime)
    {
      if kind == OPCODE_SEND_BUFFER {
        h := SendBuffer(size);
      } else if kind == OPCODE_AUDIO_FRAME {
        h := AudioFrame(size);
      } else {
        h := SilenceFrame(size);
      }
    }

    /** CREATE_TIMER: a 32-bit rate and a 16-bit divisor; the cursor moves
        by 6 whatever the opcode size. */
    method CreateTimer() returns (h: Handled)
      requires Valid()
      modifies this`nTimerRate, this`nTimerDiv, this`nFrameDuration, this`ptr
      ensures Valid() && h != MarkedBad
      ensures h == Fault <==> old(ptr) + 6 > |chunk|
      ensures h == Done ==>
                nTimerRate == LE32(chunk, old(ptr)) && nTimerDiv == LE16(chunk, old(ptr) + 4) &&
                nFrameDuration == nTimerRate * nTimerDiv * 1000 && ptr == old(ptr) + 6
    {
      if ptr + 6 > |chunk| {
        return Fault;
      }
      nTimerRate := LE32(chunk, ptr);
      nTimerDiv := LE16(chunk, ptr + 4);
      ptr := ptr + 6;
      nFrameDuration := FrameDuration(nTimerRate, nTimerDiv);
      return Done;
    }

    /** INIT_AUDIO_BUFFERS: flags and rate after 2 skipped bytes, then a
        buffer size of 2 bytes (version 0) or 4, which is not used. */
    method InitAudioBuffers(version: int) returns (h: Handled)
      requires Valid()
      modifies this`nSampleRate, this`nChannels, this`nBitDepth, this`bCompressed, this`ptr
      ensures Valid() && h != MarkedBad
      ensures h == Fault <==> old(ptr) + (if version == 0 then 8 else 10) > |chunk|
      ensures h == Done ==>
                var f := AudioFormatOf(LE16(chunk, old(ptr) + 2), version);
                nChannels == f.channels && nBitDepth == f.bitDepth && bCompressed == f.compressed &&
                nSampleRate == LE16(chunk, old(ptr) + 4) &&
                ptr == old(ptr) + (if version == 0 then 8 else 10)
    {
      var total := if version == 0 then 8 else 10;
      if ptr + total > |chunk| {
        return Fault;
      }
      var flags := LE16(chunk, ptr + 2);
      nSampleRate := LE16(chunk, ptr + 4);
      ptr := ptr + total;
      var f := AudioFormatOf(flags, version);
      nChannels := f.channels;
      nBitDepth := f.bitDepth;
      bCompressed := f.compressed;
      return Done;
    }

    /** START_STOP_AUDIO: the stream is created once, on the first such
        opcode, unless audio counts as started already. */
    method StartStopAudio(size: int)
      requires Valid() && 0 <= size
      modifies this`audioStarted, this`streamOpen, this`ptr
      ensures Valid() && audioStarted && ptr == old(ptr) + size
      ensures streamOpen == (old(streamOpen) || !old(audioStarted))
    {
      if !audioStarted {
        streamOpen := true;
        audioStarted := true;
      }
      ptr := ptr + size;
    }

    /** INIT_VIDEO_BUFFERS: width and height in blocks of 8; two fresh
        buffers of width * height pixels; the stride is the width. */
    method InitVideoBuffers(version: int, size: int) returns (h: Handled)
      requires Valid() && 0 <= size
      modifies this`nWidth, this`nHeight, this`videoStride, this`video0, this`video1, this`Repr, this`ptr
      ensures Valid() && fresh(Repr - old(Repr)) && h != MarkedBad
      ensures h == Fault <==> old(ptr) + (if version > 1 then 8 else if version > 0 then 6 else 4) > |chunk|
      ensures h == Done ==>
                nWidth == LE16(chunk, old(ptr)) * 8 && nHeight == LE16(chunk, old(ptr) + 2) * 8 &&
                fresh(video0) && fresh(video1) && video0.Length == FrameArea(nWidth, nHeight) && ptr == old(ptr) + size
      ensures h == Fault ==> ptr == old(ptr) && video0 == old(video0) && video1 == old(video1)
    {
      var needed := if version > 1 then 8 else if version > 0 then 6 else 4;
      if ptr + needed > |chunk| {
        return Fault;
      }
      var bw := LE16(chunk, ptr);
      var bh := LE16(chunk, ptr + 2);
      AllocateFrames(bw * 8, bh * 8);
      ptr := ptr + size;
      return Done;
    }

    /** Two fresh w x ht frames, with stride w. */
    method AllocateFrames(w: nat, ht: nat)
      requires Valid() && w % 8 == 0 && ht % 8 == 0
      modifies this`nWidth, this`nHeight, this`videoStride, this`video0, this`video1, this`Repr
      ensures Valid() && fresh(Repr - old(Repr))
      ensures nWidth == w && nHeight == ht && fresh(video0) && fresh(video1) && video0.Length == FrameArea(w, ht)
    {
      var v0, v1 := NewFrames(FrameArea(w, ht));
      assert FramesShape(Repr + {v0, v1}, w, ht, w, v0, v1, decodeMap, current, previous);
      nWidth, nHeight, videoStride, video0, video1, Repr := w, ht, w, v0, v1, Repr + {v0, v1};
    }

    /** SEND_BUFFER: publish the current buffer with the palette, count the
        frame and swap the buffers. */
    method SendBuffer(size: int) returns (h: Handled)
      requires Valid() && 0 <= size
      modifies this`frames, this`nFrame, this`current, this`previous, this`ptr
      ensures Valid() && h != MarkedBad
      ensures h == Fault <==> old(ptr) + 4 > |chunk|
      ensures h == Done ==>
                frames == old(frames) + [Frame(palette[..], old(CurFrame())[..], nWidth, nHeight)] &&
                nFrame == old(nFrame) + 1 && ptr == old(ptr) + size &&
                current == old(previous) && previous == old(current)
    {
      if ptr + 4 > |chunk| {
        return Fault;
      }
      ptr := ptr + size;
      frames := frames + [Frame(palette[..], CurFrame()[..], nWidth, nHeight)];
      nFrame := nFrame + 1;
      SwapFrames();
      return Done;
    }

    /** Writes vals into the ring in spans that end at the last slot or
        at the end of vals, wrapping the cursor after a span that filled
        the last slot. */
    method WriteRun(vals: seq<int>)
      requires 0 <= nWrite < samples.Length
      modifies samples, this`nWrite
      ensures 0 <= nWrite < samples.Length
      ensures samples[..] == RingPut(old(samples[..]), old(nWrite), vals)
      ensures nWrite == RingAdvance(old(nWrite), |vals|, samples.Length)
    {
      ghost var r0 := samples[..];
      ghost var w0 := nWrite;
      var c := samples.Length;
      assert vals[..0] == [];
      var i := 0;
      while i < |vals|
        invariant 0 <= i <= |vals| && 0 <= nWrite < c
        invariant nWrite == RingAdvance(w0, i, c)
        invariant samples[..] == RingPut(r0, w0, vals[..i])
      {
        var todo := Min(|vals| - i, c - nWrite);
        var start := nWrite;
        var k := 0;
        while k < todo
          invariant 0 <= k <= todo && nWrite == start + k
          invariant samples[..] == RingPut(r0, w0, vals[..i + k])
        {
          RingAdvanceInSpan(w0, i, k, c);
          RingPutSnoc(r0, w0, vals[..i + k], vals[i + k]);
          assert vals[..i + k] + [vals[i + k]] == vals[..i + k + 1];
          samples[nWrite] := vals[i + k];
          nWrite := nWrite + 1;
          k := k + 1;
        }
        RingAdvanceInSpan(w0, i, todo, c);
        if nWrite >= c {
          nWrite := 0;
        }
        i := i + todo;
      }
      assert vals[..i] == vals;
    }

    /** AUDIO_FRAME. Only stream 0 is decoded: when bit 0 of the stream
        mask is clear the payload is stepped over. Otherwise the payload is
        DPCM, 8-bit or 16-bit samples as the audio format says. */
    method AudioFrame(size: int) returns (h: Handled)
      requires Valid() && 0 <= size
      modifies samples, this`nWrite, this`ptr
      ensures Valid() && h != MarkedBad
      ensures h == Fault <==>
                old(ptr) + 6 > |chunk| ||
                (LE16(chunk, old(ptr) + 2) % 2 == 1 &&
                 AudioPayload(Rest(chunk, old(ptr) + 6), size, nChannels, nBitDepth, bCompressed).None?)
      ensures h == Fault ==> samples[..] == old(samples[..]) && nWrite == old(nWrite)
      ensures h == Done && LE16(chunk, old(ptr) + 2) % 2 == 0 ==>
                ptr == old(ptr) + size && samples[..] == old(samples[..]) && nWrite == old(nWrite)
      ensures h == Done && LE16(chunk, old(ptr) + 2) % 2 == 1 ==>
                var r := AudioPayload(Rest(chunk, old(ptr) + 6), size, nChannels, nBitDepth, bCompressed).value;
                samples[..] == RingPut(old(samples[..]), old(nWrite), r.0) &&
                nWrite == RingAdvance(old(nWrite), |r.0|, samples.Length) &&
                ptr == old(ptr) + 6 + r.1
    {
      if ptr + 6 > |chunk| {
        return Fault;
      }
      var streamMask := LE16(chunk, ptr + 2);
      ghost var d := Rest(chunk, old(ptr) + 6);
      ptr := ptr + 6;
      if streamMask % 2 == 0 {
        ptr := ptr + size - 6;
        return Done;
      }
      if bCompressed {
        h := AudioDpcm(size, d);
      } else if nBitDepth == 8 {
        h := AudioPcm8(size, d);
      } else {
        h := AudioPcm16(size, d);
      }
    }

    /** The 8-bit path: size - 6 bytes, counted in 16 bits, one sample each. */
    method AudioPcm8(size: int, ghost d: seq<byte>) returns (h: Handled)
      requires Valid() && 0 <= ptr <= |chunk| && d == Rest(chunk, ptr) && !bCompressed && nBitDepth == 8
      modifies samples, this`nWrite, this`ptr
      ensures Valid() && (h == Done || h == Fault)
      ensures var r := Pcm8Payload(d, size);
              (h == Fault <==> r.None?) &&
              (h == Fault ==> samples[..] == old(samples[..]) && nWrite == old(nWrite)) &&
              (h == Done ==> samples[..] == RingPut(old(samples[..]), old(nWrite), r.value.0) &&
                             nWrite == RingAdvance(old(nWrite), |r.value.0|, samples.Length) &&
                             ptr == old(ptr) + r.value.1)
    {
      var n := AsUint16(size - 6);
      if ptr + n > |chunk| {
        return Fault;
      }
      assert chunk[ptr..ptr + n] == d[..n];
      WriteRun(Pcm8(chunk[ptr..ptr + n]));
      ptr := ptr + n;
      return Done;
    }

    /** The 16-bit path: (size - 6) / 2 signed little-endian samples. */
    method AudioPcm16(size: int, ghost d: seq<byte>) returns (h: Handled)
      requires Valid() && 0 <= ptr <= |chunk| && d == Rest(chunk, ptr) && !bCompressed && nBitDepth != 8
      modifies samples, this`nWrite, this`ptr
      ensures Valid() && (h == Done || h == Fault)
      ensures var r := Pcm16Payload(d, size);
              (h == Fault <==> r.None?) &&
              (h == Fault ==> samples[..] == old(samples[..]) && nWrite == old(nWrite)) &&
              (h == Done ==> samples[..] == RingPut(old(samples[..]), old(nWrite), r.value.0) &&
                             nWrite == RingAdvance(old(nWrite), |r.value.0|, samples.Length) &&
                             ptr == old(ptr) + r.value.1)
    {
      var n := AsUint16(size - 6) / 2;
      if ptr + 2 * n > |chunk| {
        return Fault;
      }
      assert Pcm16(chunk[ptr..ptr + 2 * n], n) == Pcm16(d, n);
      WriteRun(Pcm16(chunk[ptr..ptr + 2 * n], n));
      ptr := ptr + 2 * n;
      return Done;
    }

    /** The compressed path: one raw signed seed per channel goes into the
        ring as it is read, then the delta bytes. */
    method AudioDpcm(size: int, ghost d: seq<byte>) returns (h: Handled)
      requires Valid() && 0 <= ptr <= |chunk| && d == Rest(chunk, ptr) && bCompressed
      modifies samples, this`nWrite, this`ptr
      ensures Valid() && (h == Done || h == Fault)
      ensures var r := DpcmPayload(DeltaTable(), d, size, nChannels);
              (h == Fault <==> r.None?) &&
              (h == Fault ==> samples[..] == old(samples[..]) && nWrite == old(nWrite)) &&
              (h == Done ==> samples[..] == RingPut(old(samples[..]), old(nWrite), r.value.0) &&
                             nWrite == RingAdvance(old(nWrite), |r.value.0|, samples.Length) &&
                             ptr == old(ptr) + r.value.1)
    {
      var nc := nChannels;
      var count := DpcmByteCount(size, nc);
      if count.None? || ptr + 2 * nc + count.value > |chunk| {
        DpcmPayloadNone(DeltaTable(), chunk, ptr, size, nc);
        return Fault;
      }
      var n := count.value;
      DpcmIntoRing(DeltaTable(), size, nc, n, ptr, samples[..], nWrite);
      return Done;
    }

    /** The seeds, then n delta bytes, read at the cursor into the ring:
        the compressed payload of an opcode whose byte count is n. */
    method DpcmIntoRing(table: seq<int>, size: int, nc: int, n: nat, ghost p0: nat, ghost r0: seq<int>, ghost w0: int)
      requires |table| == 256 && (nc == 1 || nc == 2) && DpcmByteCount(size, nc) == Some(n)
      requires 0 <= nWrite < samples.Length && ptr == p0 && p0 + 2 * nc + n <= |chunk|
      requires r0 == samples[..] && w0 == nWrite
      modifies samples, this`nWrite, this`ptr
      ensures 0 <= nWrite < samples.Length
      ensures var r := DpcmPayload(table, Rest(chunk, p0), size, nc);
              r.Some? && samples[..] == RingPut(r0, w0, r.value.0) &&
              nWrite == RingAdvance(w0, |r.value.0|, samples.Length) && ptr == p0 + r.value.1
    {
      ghost var c := samples.Length;
      assert |r0| == c && 0 <= w0 < c;
      var seeds := PutSeeds(nc);
      ghost var q, r1, w1 := ptr, samples[..], nWrite;
      DecodeDeltas(table, n, seeds, nc == 2);
      DpcmRingResult(table, chunk, p0, q, size, nc, n, seeds, r0, w0, r1, w1, samples[..], nWrite, c);
    }

    /** The raw seed of each channel, read at the cursor and put into the
        ring as it is read. */
    method PutSeeds(nc: int) returns (seeds: seq<int>)
      requires (nc == 1 || nc == 2) && 0 <= nWrite < samples.Length && 0 <= ptr && ptr + 2 * nc <= |chunk|
      modifies samples, this`nWrite, this`ptr
      ensures 0 <= nWrite < samples.Length && ptr == old(ptr) + 2 * nc
      ensures seeds == DpcmSeeds(chunk[old(ptr)..], nc)
      ensures samples[..] == RingPut(old(samples[..]), old(nWrite), seeds[..nc])
      ensures nWrite == RingAdvance(old(nWrite), nc, samples.Length)
    {
      ghost var r0, w0, d := samples[..], nWrite, chunk[ptr..];
      var p0 := ptr;
      seeds := [0, 0];
      var ch := 0;
      while ch < nc
        invariant 0 <= ch <= nc && ptr == p0 + 2 * ch && 0 <= nWrite < samples.Length && |seeds| == 2
        invariant forall k :: 0 <= k < ch ==> seeds[k] == AsInt16(LE16(d, 2 * k))
        invariant forall k :: ch <= k < 2 ==> seeds[k] == 0
        invariant nWrite == RingAdvance(w0, ch, samples.Length)
        invariant samples[..] == RingPut(r0, w0, seeds[..ch])
      {
        assert LE16(chunk, ptr) == LE16(d, 2 * ch);
        var v := AsInt16(LE16(chunk, ptr));
        RingPutConcat(r0, w0, seeds[..ch], [v]);
        RingAdvanceTwice(w0, ch, 1, ch + 1, samples.Length);
        PutSample(v);
        ghost var before := seeds;
        seeds := seeds[ch := v];
        assert seeds[..ch + 1] == before[..ch] + [v];
        ptr := ptr + 2;
        ch := ch + 1;
      }
    }

    /** One sample into the ring, the cursor wrapping after the last slot. */
    method PutSample(v: int)
      requires 0 <= nWrite < samples.Length
      modifies samples, this`nWrite
      ensures 0 <= nWrite < samples.Length
      ensures samples[..] == RingPut(old(samples[..]), old(nWrite), [v])
      ensures nWrite == RingAdvance(old(nWrite), 1, samples.Length)
    {
      RingPutSnoc(samples[..], nWrite, [], v);
      RingAdvanceInSpan(nWrite, 0, 1, samples.Length);
      samples[nWrite] := v;
      nWrite := nWrite + 1;
      if nWrite >= samples.Length {
        nWrite := 0;
      }
    }

    /** The delta bytes of a compressed audio opcode, decoded span by span
        from the given predictors, the channel alternating per byte in
        stereo. */
    method DecodeDeltas(table: seq<int>, n: nat, seeds: seq<int>, stereo: bool)
      requires |table| == 256 && |seeds| == 2 && 0 <= nWrite < samples.Length && 0 <= ptr && ptr + n <= |chunk|
      modifies samples, this`nWrite, this`ptr
      ensures 0 <= nWrite < samples.Length && ptr == old(ptr) + n
      ensures samples[..] == RingPut(old(samples[..]), old(nWrite), DpcmDecode(table, seeds, stereo, chunk[old(ptr)..old(ptr) + n]).out)
      ensures nWrite == RingAdvance(old(nWrite), n, samples.Length)
    {
      ghost var r0 := samples[..];
      var data := chunk;
      var c := samples.Length;
      var b0 := ptr;
      var w := nWrite;
      ghost var w0 := w;
      var pred := seeds;
      var ch: nat := 0;
      ghost var st := DpcmDecode(table, seeds, stereo, []);
      var j := b0;
      assert data[b0..b0] == [];
      while j < b0 + n
        invariant b0 <= j <= b0 + n && 0 <= w < c && w == RingAdvance(w0, j - b0, c)
        invariant st == DpcmDecode(table, seeds, stereo, data[b0..j]) && pred == st.pred && ch == st.ch
        invariant samples[..] == RingPut(r0, w0, st.out)
      {
        var todo := Min(b0 + n - j, c - w);
        var next := j + todo;
        RingAdvanceInSpan(w0, j - b0, todo, c);
        assert next - b0 == (j - b0) + todo;
        var start := w;
        w := w + todo;
        if w >= c {
          w := 0;
        }
        assert w == RingAdvance(w0, next - b0, c);
        st, pred, ch := DeltaSpan(table, data, b0, j, next, seeds, stereo, r0, w0, start, st, pred, ch);
        j := next;
      }
      assert j == b0 + n && data[b0..j] == chunk[b0..b0 + n];
      nWrite := w;
      ptr := b0 + n;
    }

    /** Delta bytes data[from..to], written to the ring from slot w on
        without wrapping. */
    method DeltaSpan(table: seq<int>, data: seq<byte>, b0: nat, from: nat, to: nat, seeds: seq<int>,
                     stereo: bool,
                     ghost r0: seq<int>, ghost w0: int, w: nat, ghost st: Dpcm, pred: seq<int>, ch: nat)
      returns (ghost st': Dpcm, pred': seq<int>, ch': nat)
      requires |table| == 256 && |seeds| == 2 && b0 <= from <= to <= |data| && |r0| == samples.Length && 0 <= w0 < samples.Length
      requires w + (to - from) <= samples.Length && w == RingAdvance(w0, from - b0, samples.Length)
      requires st == DpcmDecode(table, seeds, stereo, data[b0..from]) && pred == st.pred && ch == st.ch
      requires samples[..] == RingPut(r0, w0, st.out)
      modifies samples
      ensures st' == DpcmDecode(table, seeds, stereo, data[b0..to]) && pred' == st'.pred && ch' == st'.ch
      ensures samples[..] == RingPut(r0, w0, st'.out)
    {
      st', pred', ch' := st, pred, ch;
      var j := from;
      while j < to
        invariant from <= j <= to
        invariant st' == DpcmDecode(table, seeds, stereo, data[b0..j]) && pred' == st'.pred && ch' == st'.ch
        invariant samples[..] == RingPut(r0, w0, st'.out)
      {
        RingAdvanceInSpan(w0, from - b0, j - from, samples.Length);
        assert (from - b0) + (j - from) == j - b0;
        st', pred', ch' := DeltaByte(table, data, b0, j, seeds, stereo, r0, w0, w + (j - from), st', pred', ch');
        j := j + 1;
      }
    }

    /** Delta byte data[j]: its sample goes into ring slot k, the slot after
        the samples decoded from data[b0..j]. */
    method DeltaByte(table: seq<int>, data: seq<byte>, b0: nat, j: nat, seeds: seq<int>, stereo: bool,
                     ghost r0: seq<int>, ghost w0: int, k: nat, ghost st: Dpcm, pred: seq<int>, ch: nat)
      returns (ghost st': Dpcm, pred': seq<int>, ch': nat)
      requires |table| == 256 && |seeds| == 2 && b0 <= j < |data| && |r0| == samples.Length && 0 <= w0 < samples.Length
      requires k < samples.Length && k == RingAdvance(w0, j - b0, samples.Length)
      requires st == DpcmDecode(table, seeds, stereo, data[b0..j]) && pred == st.pred && ch == st.ch
      requires samples[..] == RingPut(r0, w0, st.out)
      modifies samples
      ensures st' == DpcmDecode(table, seeds, stereo, data[b0..j + 1]) && pred' == st'.pred && ch' == st'.ch
      ensures samples[..] == RingPut(r0, w0, st'.out)
    {
      var b := data[j];
      SliceSnoc(data, b0, j);
      DpcmDecodeSnoc(table, seeds, stereo, data[b0..j], b);
      DpcmRingSnoc(table, r0, w0, seeds, stereo, data[b0..j], b);
      var v := Clamp(pred[ch] + table[b], INT16_MIN, INT16_MAX);
      samples[k] := v;
      st' := DpcmStep(table, st, stereo, b);
      pred' := pred[ch := v];
      ch' := if stereo then 1 - ch else ch;
    }

    /** SILENCE_FRAME: the cursor moves past the 6-byte header only. When
        bit 0 of the stream mask is set, SilenceCount zero samples go into
        the ring; a silence before any audio format is a division by zero. */
    method SilenceFrame(size: int) returns (h: Handled)
      requires Valid() && 0 <= size
      modifies samples, this`nWrite, this`ptr
      ensures Valid() && h != MarkedBad
      ensures h == Fault <==> old(ptr) + 6 > |chunk| || (LE16(chunk, old(ptr) + 2) % 2 == 1 && nBitDepth <= 0)
      ensures h == Done ==> ptr == old(ptr) + 6
      ensures h == Done && LE16(chunk, old(ptr) + 2) % 2 == 1 ==>
                samples[..] == RingPut(old(samples[..]), old(nWrite), Silence(SilenceCount(size, nBitDepth))) &&
                nWrite == RingAdvance(old(nWrite), SilenceCount(size, nBitDepth), samples.Length)
      ensures h == Done && LE16(chunk, old(ptr) + 2) % 2 == 0 ==>
                samples[..] == old(samples[..]) && nWrite == old(nWrite)
    {
      if ptr + 6 > |chunk| {
        return Fault;
      }
      var streamMask := LE16(chunk, ptr + 2);
      ghost var d := Rest(chunk, old(ptr) + 6);
      ptr := ptr + 6;
      if streamMask % 2 == 1 {
        if nBitDepth <= 0 {
          return Fault;
        }
        WriteRun(Silence(SilenceCount(size, nBitDepth)));
      }
      return Done;
    }

    /** SET_PALETTE: entries start .. start + count - 1, three 6-bit
        channels each, widened to 8 bits. A size outside [4, 0x304] or an
        index above 255 marks the chunk bad and writes nothing. */
    method SetPalette(size: int) returns (h: Handled)
      requires Valid() && 0 <= size
      modifies palette, this`ptr
      ensures Valid()
      ensures (size > 0x304 || size < 4) ==> h == MarkedBad && ptr == old(ptr)
      ensures 4 <= size <= 0x304 && old(ptr) + 4 <= |chunk| ==>
                var start := LE16(chunk, old(ptr));
                var end := start + LE16(chunk, old(ptr) + 2) - 1;
                (start > 255 || end > 255 ==> h == MarkedBad) &&
                (start <= 255 && end <= 255 ==>
                   (h == Fault <==> old(ptr) + 4 + 3 * (end - start + 1) > |chunk|) &&
                   (h == Done ==>
                      ptr == old(ptr) + 4 + 3 * (end - start + 1) &&
                      forall j :: 0 <= j < 768 ==>
                        palette[j] == if 3 * start <= j < 3 * end + 3
                                      then Expand6(chunk[old(ptr) + 4 + j - 3 * start])
                                      else old(palette[j])))
      ensures h != Done ==> palette[..] == old(palette[..])
    {
      if size > 0x304 || size < 4 {
        return MarkedBad;
      }
      if ptr + 4 > |chunk| {
        return Fault;
      }
      var start := LE16(chunk, ptr);
      var end := start + LE16(chunk, ptr + 2) - 1;
      ptr := ptr + 4;
      if start > 255 || end > 255 {
        return MarkedBad;
      }
      if ptr + 3 * (end - start + 1) > |chunk| {
        return Fault;
      }
      ghost var p0 := ptr;
      var i := start;
      while i <= end
        invariant start <= i <= end + 1 && ptr == p0 + 3 * (i - start)
        invariant forall j :: 0 <= j < 768 ==>
                    palette[j] == if 3 * start <= j < 3 * i then Expand6(chunk[p0 + j - 3 * start]) else old(palette[j])
      {
        palette[3 * i] := Expand6(chunk[ptr]);
        palette[3 * i + 1] := Expand6(chunk[ptr + 1]);
        palette[3 * i + 2] := Expand6(chunk[ptr + 2]);
        ptr := ptr + 3;
        i := i + 1;
      }
      return Done;
    }

    /** SET_DECODING_MAP: the map becomes a copy of the payload; its buffer
        is replaced only when the size differs. */
    method SetDecodingMap(size: int) returns (h: Handled)
      requires Valid() && 0 <= size
      modifies this`decodeMap, this`Repr, decodeMap, this`ptr
      ensures Valid() && fresh(Repr - old(Repr)) && h != MarkedBad
      ensures h == Fault <==> old(ptr) + size > |chunk|
      ensures h == Done ==> decodeMap[..] == chunk[old(ptr)..old(ptr) + size] && ptr == old(ptr) + size
      ensures h == Done && old(decodeMap.Length) == size ==> decodeMap == old(decodeMap)
      ensures h == Done && old(decodeMap.Length) != size ==> fresh(decodeMap)
    {
      if ptr + size > |chunk| {
        return Fault;
      }
      if decodeMap.Length != size {
        decodeMap := new byte[size];
        Repr := Repr + {decodeMap};
      }
      CopyFromChunk(decodeMap, ptr);
      ptr := ptr + size;
      return Done;
    }

    /** The dest.Length bytes of the chunk from p on into dest. */
    method CopyFromChunk(dest: array<byte>, p: nat)
      requires p + dest.Length <= |chunk|
      modifies dest
      ensures dest[..] == chunk[p..p + dest.Length]
    {
      forall k | 0 <= k < dest.Length {
        dest[k] := chunk[p + k];
      }
    }

    /** VIDEO_DATA: 14 header bytes are skipped; with a non-empty map every
        block is rebuilt in order; finally the cursor is put at the end of
        the opcode, whatever the blocks consumed. */
    method VideoData(size: int) returns (h: Handled)
      requires Valid() && 0 <= size
      modifies this`ptr, video0, video1
      ensures Valid() && h != MarkedBad
      ensures PrevFrame()[..] == old(PrevFrame()[..])
      ensures h == Done ==> ptr == old(ptr) + size
      ensures decodeMap.Length == 0 ==> h == Done && CurFrame()[..] == old(CurFrame()[..])
      ensures decodeMap.Length != 0 ==>
                var r := DecodeFrom(VState(old(CurFrame()[..]), old(ptr) + 14), PrevFrame()[..], decodeMap[..],
                                    chunk, 0, 0, 0, nWidth, nHeight, videoStride);
                (h == Done <==> r.Walked?) && (h == Done ==> CurFrame()[..] == r.st.cur) &&
                (r.Stopped? ==> r.cause != DestinationOutside)
    {
      var start := ptr;
      ptr := ptr + 14;
      if decodeMap.Length != 0 {
        ghost var st0 := VState(old(CurFrame()[..]), old(ptr) + 14);
        WalkStaysInFrame(st0, old(PrevFrame()[..]), decodeMap[..], chunk, 0, 0, 0, nWidth, nHeight);
        var ok := DecodeBlocks(st0, old(PrevFrame()[..]));
        if !ok {
          return Fault;
        }
      }
      ptr := start + size;
      return Done;
    }

    /** Every block of the frame, band by band, from the cursor on. */
    method DecodeBlocks(ghost st0: VState, ghost prev: seq<byte>) returns (ok: bool)
      requires Valid() && st0 == VState(CurFrame()[..], ptr) && prev == PrevFrame()[..]
      modifies this`ptr, CurFrame()
      ensures Valid() && PrevFrame()[..] == prev
      ensures var r := DecodeFrom(st0, prev, decodeMap[..], chunk, 0, 0, 0, nWidth, nHeight, videoStride);
              (ok <==> r.Walked?) && (ok ==> CurFrame()[..] == r.st.cur)
    {
      ghost var dmap := decodeMap[..];
      ghost var goal := DecodeFrom(st0, prev, dmap, chunk, 0, 0, 0, nWidth, nHeight, videoStride);
      var i: nat, y: nat := 0, 0;
      while y < nHeight
        invariant Valid() && PrevFrame()[..] == prev && decodeMap[..] == dmap
        invariant goal == DecodeFrom(VState(CurFrame()[..], ptr), prev, dmap, chunk, i, 0, y, nWidth, nHeight, videoStride)
        decreases nHeight - y
      {
        ok, i, y := DecodeBand(i, y, VState(CurFrame()[..], ptr), prev, dmap);
        if !ok {
          return;
        }
      }
      DecodeFromEnd(VState(CurFrame()[..], ptr), prev, dmap, chunk, i, y, nWidth, nHeight, videoStride);
      return true;
    }

    /** The blocks of band y, left to right, with block counter i0 on entry;
        st0, prev and dmap are the decoder's state, previous frame and map
        on entry. */
    method DecodeBand(i0: nat, y: nat, ghost st0: VState, ghost prev: seq<byte>, ghost dmap: seq<byte>) returns (ok: bool, i: nat, y1: nat)
      requires Valid() && y < nHeight
      requires st0 == VState(CurFrame()[..], ptr) && prev == PrevFrame()[..] && dmap == decodeMap[..]
      modifies this`ptr, CurFrame()
      ensures Valid() && PrevFrame()[..] == prev && decodeMap[..] == dmap && y1 == y + 8
      ensures ok ==> DecodeFrom(st0, prev, dmap, chunk, i0, 0, y, nWidth, nHeight, videoStride) ==
                     DecodeFrom(VState(CurFrame()[..], ptr), prev, dmap, chunk, i, 0, y1, nWidth, nHeight, videoStride)
      ensures !ok ==> DecodeFrom(st0, prev, dmap, chunk, i0, 0, y, nWidth, nHeight, videoStride).Stopped?
    {
      ghost var goal := DecodeFrom(st0, prev, dmap, chunk, i0, 0, y, nWidth, nHeight, videoStride);
      i, y1 := i0, y + 8;
      var x: nat := 0;
      while x < nWidth
        invariant Valid() && PrevFrame()[..] == prev && decodeMap[..] == dmap
        invariant goal == DecodeFrom(VState(CurFrame()[..], ptr), prev, dmap, chunk, i, x, y, nWidth, nHeight, videoStride)
        decreases nWidth - x
      {
        ok, i, x := DecodeAt(i, x, y, VState(CurFrame()[..], ptr), prev, dmap);
        if !ok {
          return;
        }
      }
      DecodeFromRowEnd(VState(CurFrame()[..], ptr), prev, dmap, chunk, i, x, y, nWidth, nHeight, videoStride, y1);
      ok := true;
    }

    /** Block i of the walk, at (x, y) inside the frame: its routine is the
        nibble i of the map, and the walk stops when the map has none. */
    method DecodeAt(i: nat, x: nat, y: nat, ghost st0: VState, ghost prev: seq<byte>, ghost dmap: seq<byte>) returns (ok: bool, i1: nat, x1: nat)
      requires Valid() && x < nWidth && y < nHeight
      requires st0 == VState(CurFrame()[..], ptr) && prev == PrevFrame()[..] && dmap == decodeMap[..]
      modifies this`ptr, CurFrame()
      ensures Valid() && PrevFrame()[..] == prev && decodeMap[..] == dmap && i1 == i + 1 && x1 == x + 8
      ensures ok ==> DecodeFrom(st0, prev, dmap, chunk, i, x, y, nWidth, nHeight, videoStride) ==
                     DecodeFrom(VState(CurFrame()[..], ptr), prev, dmap, chunk, i1, x1, y, nWidth, nHeight, videoStride)
      ensures !ok ==> DecodeFrom(st0, prev, dmap, chunk, i, x, y, nWidth, nHeight, videoStride).Stopped?
    {
      i1, x1 := i + 1, x + 8;
      if i / 2 >= decodeMap.Length {
        DecodeFromBlock(st0, prev, dmap, chunk, i, x, y, nWidth, nHeight, videoStride);
        return false, i1, x1;
      }
      var op, off := Nibble(decodeMap[..], i), BlockOffset(x, y, videoStride);
      var adv;
      ok, adv := DecodeBlock(CurFrame(), PrevFrame(), op, off, ptr, st0.cur, prev);
      ptr := ptr + adv;
      DecodeFromStep(st0, prev, dmap, chunk, i, x, y, nWidth, nHeight, videoStride, op, off, ok, VState(CurFrame()[..], ptr), i1, x1);
    }

    /** One block of the frame cur: the routine op applied at offset,
        with its payload at position at of the chunk; last is the previous
        frame. On success adv is the length of the payload. */
    method DecodeBlock(cur: array<byte>, last: array<byte>, op: int, offset: int, at: nat,
                       ghost cur0: seq<byte>, ghost prev: seq<byte>) returns (ok: bool, adv: nat)
      requires cur != last && cur.Length == last.Length && 0 <= op < 16
      requires cur0 == cur[..] && prev == last[..]
      modifies cur
      ensures last[..] == prev
      ensures var r := BlockStep(op, cur0, prev, chunk, at, offset, videoStride);
              (ok <==> r.Some?) && (ok ==> r.value == VState(cur[..], at + adv))
      ensures !ok ==> cur[..] == cur0
    {
      var d := Rest(chunk, at);
      if !BlockFits(cur.Length, offset, videoStride) || |d| < BlockSize(op, d) {
        BlockStepMissing(op, cur0, prev, chunk, at, offset, videoStride);
        return false, 0;
      }
      if 2 <= op <= 5 {
        ok, adv := DecodeMotion(cur, last, op, offset, at, cur0, prev);
      } else if IsPatternOp(op) {
        ok, adv := DecodePattern(cur, last, op, offset, at, cur0, prev);
      } else {
        ok, adv := DecodeStatic(cur, last, op, offset, at, cur0, prev);
      }
    }

    /** Blocks 2 to 5, inside the frame and with their motion bytes in the
        chunk: the copy of the block the motion vector names. */
    method DecodeMotion(cur: array<byte>, last: array<byte>, op: int, offset: int, at: nat,
                        ghost cur0: seq<byte>, ghost prev: seq<byte>) returns (ok: bool, adv: nat)
      requires cur != last && cur.Length == last.Length && 2 <= op <= 5
      requires cur0 == cur[..] && prev == last[..]
      modifies cur
      ensures last[..] == prev
      ensures var r := BlockStep(op, cur0, prev, chunk, at, offset, videoStride);
              (ok <==> r.Some?) && (ok ==> r.value == VState(cur[..], at + adv))
      ensures !ok ==> cur[..] == cur0
      requires BlockFits(cur.Length, offset, videoStride) && |Rest(chunk, at)| >= BlockSize(op, Rest(chunk, at))
    {
      var d := Rest(chunk, at);
      var src := MotionSource(op, d, offset, videoStride);
      ok := DecodeMotionBlock(cur, last, op, offset, src);
      adv := if ok then BlockSize(op, d) else 0;
      MotionLink(op, cur0, prev, chunk, at, offset, videoStride, src, ok, cur[..], at + adv);
    }

    /** Blocks 0, 1 and 6 inside the frame: block 0 copies the same block
        of the previous frame, blocks 1 and 6 keep the pixels. */
    method DecodeStatic(cur: array<byte>, last: array<byte>, op: int, offset: int, at: nat,
                        ghost cur0: seq<byte>, ghost prev: seq<byte>) returns (ok: bool, adv: nat)
      requires cur != last && cur.Length == last.Length && (op == 0 || op == 1 || op == 6)
      requires cur0 == cur[..] && prev == last[..]
      requires BlockFits(cur.Length, offset, videoStride) && |Rest(chunk, at)| >= BlockSize(op, Rest(chunk, at))
      modifies cur
      ensures last[..] == prev
      ensures var r := BlockStep(op, cur0, prev, chunk, at, offset, videoStride);
              (ok <==> r.Some?) && (ok ==> r.value == VState(cur[..], at + adv))
      ensures !ok ==> cur[..] == cur0
    {
      ok, adv := true, 0;
      if op == 0 {
        CopyBlockFrom(cur, last, offset, offset);
        BlockStepCopyLink(op, cur0, prev, chunk, at, offset, videoStride, cur[..], at + adv);
      } else {
        // Block 1 keeps the pixels; block 6 is not decoded.
        BlockStepKeepLink(op, cur0, prev, chunk, at, offset, videoStride, cur[..], at + adv);
      }
    }

    /** Blocks 7 to 15 inside the frame and with their payload in the chunk:
        a pattern painted with the payload's colours. */
    method DecodePattern(cur: array<byte>, last: array<byte>, op: int, offset: int, at: nat,
                         ghost cur0: seq<byte>, ghost prev: seq<byte>) returns (ok: bool, adv: nat)
      requires cur != last && cur.Length == last.Length && IsPatternOp(op)
      requires cur0 == cur[..] && prev == last[..]
      requires BlockFits(cur.Length, offset, videoStride) && |Rest(chunk, at)| >= BlockSize(op, Rest(chunk, at))
      modifies cur
      ensures last[..] == prev
      ensures var r := BlockStep(op, cur0, prev, chunk, at, offset, videoStride);
              (ok <==> r.Some?) && (ok ==> r.value == VState(cur[..], at + adv))
      ensures !ok ==> cur[..] == cur0
    {
      var d := Rest(chunk, at);
      PaintBlock(cur, op, d, offset);
      ok, adv := true, BlockSize(op, d);
      BlockStepPaintLink(op, cur0, prev, chunk, at, offset, videoStride, cur[..], at + adv);
    }

    /** Blocks 2 to 5, once the motion vector has named the source offset
        src: the block there, taken from the current frame cur (2, 3) or
        from the previous frame last (4, 5). Nothing is copied when the
        source block is not inside the frame. */
    method DecodeMotionBlock(cur: array<byte>, last: array<byte>, op: int, offset: int, src: int) returns (ok: bool)
      requires cur != last && cur.Length == last.Length
      requires 2 <= op <= 5 && BlockFits(cur.Length, offset, videoStride)
      modifies cur
      ensures ok <==> BlockFits(cur.Length, src, videoStride)
      ensures ok && op <= 3 ==> cur[..] == CopyRows(old(cur[..]), old(cur[..]), true, offset, src, videoStride, 8)
      ensures ok && op > 3 ==> cur[..] == CopyRows(old(cur[..]), last[..], false, offset, src, videoStride, 8)
      ensures !ok ==> cur[..] == old(cur[..])
    {
      if !BlockFits(cur.Length, src, videoStride) {
        return false;
      }
      if op <= 3 {
        CopyBlockWithin(cur, offset, src);
      } else {
        CopyBlockFrom(cur, last, offset, src);
      }
      return true;
    }

    /** Eight rows of eight pixels from the block at sOff of src, another
        frame, to the block at dOff of dest, one row after the other. */
    method CopyBlockFrom(dest: array<byte>, src: array<byte>, dOff: int, sOff: int)
      requires dest != src && src.Length == dest.Length
      requires BlockFits(dest.Length, dOff, videoStride) && BlockFits(src.Length, sOff, videoStride)
      modifies dest
      ensures dest[..] == CopyRows(old(dest[..]), src[..], false, dOff, sOff, videoStride, 8)
    {
      ghost var f0, s0 := dest[..], src[..];
      var stride := videoStride;
      var y := 0;
      while y < 8
        invariant 0 <= y <= 8 && src[..] == s0
        invariant dest[..] == CopyRows(f0, s0, false, dOff, sOff, stride, y)
      {
        RowInside(dest.Length, dOff, stride, y);
        RowInside(src.Length, sOff, stride, y);
        var sp := Pos(sOff, stride, 0, y);
        WriteRowInto(dest, Pos(dOff, stride, 0, y), src[sp..sp + 8]);
        y := y + 1;
      }
    }

    /** Eight rows of eight pixels from the block at sOff of a frame to its
        block at dOff, one row after the other, each row read whole after
        the rows before it were written. */
    method CopyBlockWithin(frame: array<byte>, dOff: int, sOff: int)
      requires BlockFits(frame.Length, dOff, videoStride) && BlockFits(frame.Length, sOff, videoStride)
      modifies frame
      ensures frame[..] == CopyRows(old(frame[..]), old(frame[..]), true, dOff, sOff, videoStride, 8)
    {
      ghost var f0 := frame[..];
      var stride := videoStride;
      var y := 0;
      while y < 8
        invariant 0 <= y <= 8
        invariant frame[..] == CopyRows(f0, f0, true, dOff, sOff, stride, y)
      {
        RowInside(frame.Length, dOff, stride, y);
        RowInside(frame.Length, sOff, stride, y);
        WriteRowInto(frame, Pos(dOff, stride, 0, y), frame[Pos(sOff, stride, 0, y)..Pos(sOff, stride, 0, y) + 8]);
        y := y + 1;
      }
    }

    /** Eight rows of pattern pixels into the block at offset of dest. */
    method PaintBlock(dest: array<byte>, op: int, d: seq<byte>, offset: int)
      requires BlockFits(dest.Length, offset, videoStride)
      requires IsPatternOp(op) && |d| >= BlockSize(op, d)
      modifies dest
      ensures dest[..] == PaintRows(old(dest[..]), offset, videoStride, op, d, 8)
    {
      ghost var f0 := dest[..];
      var stride := videoStride;
      var y := 0;
      while y < 8
        invariant 0 <= y <= 8
        invariant dest[..] == PaintRows(f0, offset, stride, op, d, y)
      {
        RowInside(dest.Length, offset, stride, y);
        WriteRowInto(dest, Pos(offset, stride, 0, y), PatternRow(op, d, y));
        y := y + 1;
      }
    }

    /** Eight pixels into dest from pos on. */
    method WriteRowInto(dest: array<byte>, pos: int, row: seq<byte>)
      requires 0 <= pos && pos + 8 <= dest.Length && |row| == 8
      modifies dest
      ensures dest[..] == WriteRow(old(dest[..]), pos, row)
    {
      ghost var before := dest[..];
      forall x | 0 <= x < 8 {
        dest[pos + x] := row[x];
      }
      WriteRowAt(before, pos, row, dest[..]);
    }
  }
}
