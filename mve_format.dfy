/** Byte-level vocabulary of the Interplay MVE container: the little-endian
    readers, the signed 16-bit cast, the DPCM delta table, the file
    signature, the timer arithmetic and the palette-channel expansion.
    Everything here is a pure function of its arguments. */
module MveFormat {

  /** One byte of the stream; pixels, palette channels and map entries are bytes too. */
  type byte = x: int | 0 <= x < 256

  // Preamble sizes and the chunk types the decoder compares against.
  const CHUNK_PREAMBLE_SIZE := 4
  const OPCODE_PREAMBLE_SIZE := 4
  const CHUNK_VIDEO := 0x0003
  const CHUNK_END := 0x0005
  const CHUNK_BAD := 0xFFFF

  // Opcode identifiers.
  const OPCODE_END_OF_STREAM := 0x00
  const OPCODE_END_OF_CHUNK := 0x01
  const OPCODE_CREATE_TIMER := 0x02
  const OPCODE_INIT_AUDIO_BUFFERS := 0x03
  const OPCODE_START_STOP_AUDIO := 0x04
  const OPCODE_INIT_VIDEO_BUFFERS := 0x05
  const OPCODE_UNKNOWN_06 := 0x06
  const OPCODE_SEND_BUFFER := 0x07
  const OPCODE_AUDIO_FRAME := 0x08
  const OPCODE_SILENCE_FRAME := 0x09
  const OPCODE_INIT_VIDEO_MODE := 0x0A
  const OPCODE_CREATE_GRADIENT := 0x0B
  const OPCODE_SET_PALETTE := 0x0C
  const OPCODE_SET_PALETTE_COMPRESSED := 0x0D
  const OPCODE_UNKNOWN_0E := 0x0E
  const OPCODE_SET_DECODING_MAP := 0x0F
  const OPCODE_UNKNOWN_10 := 0x10
  const OPCODE_VIDEO_DATA := 0x11
  const OPCODE_UNKNOWN_12 := 0x12
  const OPCODE_UNKNOWN_13 := 0x13
  const OPCODE_UNKNOWN_14 := 0x14
  const OPCODE_UNKNOWN_15 := 0x15

  /** Opcodes whose handler only steps over the payload. */
  predicate IsSkippedOpcode(op: int) {
    op == OPCODE_END_OF_STREAM || op == OPCODE_END_OF_CHUNK || op == OPCODE_UNKNOWN_06 ||
    op == OPCODE_UNKNOWN_0E || op == OPCODE_UNKNOWN_10 || op == OPCODE_UNKNOWN_12 ||
    op == OPCODE_UNKNOWN_13 || op == OPCODE_UNKNOWN_14 || op == OPCODE_UNKNOWN_15 ||
    op == OPCODE_INIT_VIDEO_MODE || op == OPCODE_CREATE_GRADIENT ||
    op == OPCODE_SET_PALETTE_COMPRESSED
  }

  /** Two bytes, low byte first. */
  function LE16(s: seq<byte>, i: int): (v: int)
    requires 0 <= i && i + 2 <= |s|
    ensures 0 <= v < 0x1_0000
    ensures v % 256 == s[i] && v / 256 == s[i + 1]
  {
    s[i] as int + 256 * (s[i + 1] as int)
  }

  /** Four bytes, low byte first. */
  function LE32(s: seq<byte>, i: int): (v: int)
    requires 0 <= i && i + 4 <= |s|
    ensures 0 <= v < 0x1_0000_0000
    ensures v % 0x1_0000 == LE16(s, i) && v / 0x1_0000 == LE16(s, i + 2)
  {
    var lo, hi := LE16(s, i), LE16(s, i + 2);
    WordSplit(lo, hi, 0x1_0000);
    lo + 0x1_0000 * hi
  }

  /** Eight bytes, low byte first. */
  function LE64(s: seq<byte>, i: int): (v: int)
    requires 0 <= i && i + 8 <= |s|
    ensures 0 <= v < 0x1_0000_0000_0000_0000
    ensures v % 0x1_0000_0000 == LE32(s, i) && v / 0x1_0000_0000 == LE32(s, i + 4)
  {
    var lo, hi := LE32(s, i), LE32(s, i + 4);
    WordSplit(lo, hi, 0x1_0000_0000);
    lo + 0x1_0000_0000 * hi
  }

  /** A two-digit number in base b: its low digit is the remainder, its
      high digit the quotient, and it is below b * b. */
  lemma {:induction false} WordSplit(lo: int, hi: int, b: int)
    requires 0 <= lo < b && 0 <= hi < b
    ensures 0 <= lo + b * hi < b * b
    ensures (lo + b * hi) % b == lo && (lo + b * hi) / b == hi
  {
    MulMono(b, hi, b - 1);
    var x := lo + b * hi;
    var q, r := x / b, x % b;
    assert b * (hi - q) == r - lo;
    if hi - q >= 1 {
      MulMono(b, 1, hi - q);
    } else if hi - q <= -1 {
      MulMono(b, hi - q, -1);
    }
  }

  /** The two bytes that LE16 reads back as v. */
  function EncodeLE16(v: int): (s: seq<byte>)
    requires 0 <= v < 0x1_0000
    ensures |s| == 2
  {
    [v % 256, v / 256]
  }

  lemma {:induction false} LE16RoundTrip(v: int)
    requires 0 <= v < 0x1_0000
    ensures LE16(EncodeLE16(v), 0) == v
  {
  }

  /** A slice one element longer is the shorter slice and that element. */
  lemma {:induction false} SliceSnoc(s: seq<byte>, a: int, e: int)
    requires 0 <= a <= e < |s|
    ensures s[a..e + 1] == s[a..e] + [s[e]]
  {
  }

  /** The C cast (int16_t) of an unsigned 16-bit value. */
  function AsInt16(v: int): (r: int)
    requires 0 <= v < 0x1_0000
    ensures -0x8000 <= r < 0x8000
    ensures (v - r) % 0x1_0000 == 0
  {
    if v < 0x8000 then v else v - 0x1_0000
  }

  /** The C cast (int8_t) of a byte. */
  function AsInt8(v: byte): (r: int)
    ensures -0x80 <= r < 0x80
    ensures (v - r) % 0x100 == 0
  {
    if v < 0x80 then v else v - 0x100
  }

  /** The C cast (uint16_t) of any int: keep the low sixteen bits. */
  function AsUint16(v: int): (r: int)
    ensures 0 <= r < 0x1_0000
    ensures (v - r) % 0x1_0000 == 0
  {
    v % 0x1_0000
  }

  /** Within one lap of zero the cast adds 2^16 to a negative value and
      keeps a non-negative one. */
  lemma {:induction false} AsUint16Near(v: int)
    requires -0x1_0000 <= v < 0x1_0000
    ensures AsUint16(v) == if v < 0 then v + 0x1_0000 else v
  {
    if v < 0 {
      assert v + 0x1_0000 == v % 0x1_0000 by {
        assert v == -1 * 0x1_0000 + (v + 0x1_0000);
      }
    }
  }

  /** C division on int, which truncates toward zero. */
  function CDiv(a: int, b: int): (q: int)
    requires b > 0
    ensures a >= 0 ==> q == a / b
    ensures a < 0 ==> q == -((-a) / b)
  {
    if a >= 0 then a / b else -((-a) / b)
  }

  function Clamp(v: int, lo: int, hi: int): int
    requires lo <= hi
  {
    if v < lo then lo else if v > hi then hi else v
  }

  /** The delta table of the DPCM audio codec, indexed by the payload byte,
      laid out as 32 rows of 8 entries. */
  const DELTA_ROWS: seq<seq<int>> := [
    [0, 1, 2, 3, 4, 5, 6, 7],
    [8, 9, 10, 11, 12, 13, 14, 15],
    [16, 17, 18, 19, 20, 21, 22, 23],
    [24, 25, 26, 27, 28, 29, 30, 31],
    [32, 33, 34, 35, 36, 37, 38, 39],
    [40, 41, 42, 43, 47, 51, 56, 61],
    [66, 72, 79, 86, 94, 102, 112, 122],
    [133, 145, 158, 173, 189, 206, 225, 245],
    [267, 292, 318, 348, 379, 414, 452, 493],
    [538, 587, 640, 699, 763, 832, 908, 991],
    [1081, 1180, 1288, 1405, 1534, 1673, 1826, 1993],
    [2175, 2373, 2590, 2826, 3084, 3365, 3672, 4008],
    [4373, 4772, 5208, 5683, 6202, 6767, 7385, 8059],
    [8794, 9597, 10472, 11428, 12471, 13609, 14851, 16206],
    [17685, 19298, 21060, 22981, 25078, 27367, 29864, 32589],
    [-29973, -26728, -23186, -19322, -15105, -10503, -5481, -1],
    [1, 1, 5481, 10503, 15105, 19322, 23186, 26728],
    [29973, -32589, -29864, -27367, -25078, -22981, -21060, -19298],
    [-17685, -16206, -14851, -13609, -12471, -11428, -10472, -9597],
    [-8794, -8059, -7385, -6767, -6202, -5683, -5208, -4772],
    [-4373, -4008, -3672, -3365, -3084, -2826, -2590, -2373],
    [-2175, -1993, -1826, -1673, -1534, -1405, -1288, -1180],
    [-1081, -991, -908, -832, -763, -699, -640, -587],
    [-538, -493, -452, -414, -379, -348, -318, -292],
    [-267, -245, -225, -206, -189, -173, -158, -145],
    [-133, -122, -112, -102, -94, -86, -79, -72],
    [-66, -61, -56, -51, -47, -43, -42, -41],
    [-40, -39, -38, -37, -36, -35, -34, -33],
    [-32, -31, -30, -29, -28, -27, -26, -25],
    [-24, -23, -22, -21, -20, -19, -18, -17],
    [-16, -15, -14, -13, -12, -11, -10, -9],
    [-8, -7, -6, -5, -4, -3, -2, -1]
  ]

  function Delta(b: byte): int {
    DELTA_ROWS[b / 8][b % 8]
  }

  /** The same table flattened to 256 entries, the form the decoder indexes
      by payload byte. */
  function DeltaTable(): (t: seq<int>)
    ensures |t| == 256
  {
    seq(256, b requires 0 <= b < 256 => Delta(b))
  }

  /** Every table entry is a signed 16-bit value, and only the entry for the
      zero byte is zero. */
  lemma {:induction false} DeltaTableShape()
    ensures forall b: byte :: -0x8000 <= Delta(b) < 0x8000
    ensures forall b: byte :: Delta(b) == 0 <==> b == 0
  {
    forall b: byte ensures -0x8000 <= Delta(b) < 0x8000 && (Delta(b) == 0 <==> b == 0) {
      DeltaRowShape(b / 8);
    }
  }

  lemma {:induction false} DeltaRowShape(r: int)
    requires 0 <= r < 32
    ensures forall k :: 0 <= k < 8 ==> -0x8000 <= DELTA_ROWS[r][k] < 0x8000
    ensures forall k :: 0 <= k < 8 ==> (DELTA_ROWS[r][k] == 0 <==> r == 0 && k == 0)
  {
    var row := DELTA_ROWS[r];
    forall k | 0 <= k < 8
      ensures -0x8000 <= row[k] < 0x8000 && (row[k] == 0 <==> r == 0 && k == 0)
    {
      assert k in {0, 1, 2, 3, 4, 5, 6, 7};
    }
  }

  /** "Interplay MVE File", then 0x1A and a NUL: the first 20 bytes of every file. */
  const MveSignature: seq<byte> := [
    73, 110, 116, 101, 114, 112, 108, 97, 121, 32,
    77, 86, 69, 32, 70, 105, 108, 101, 0x1A, 0
  ]

  /** Whether a byte source starts with the signature. A source shorter than
      20 bytes never matches. */
  predicate HasSignature(file: seq<byte>) {
    |file| >= 20 && file[..20] == MveSignature
  }

  /** Where the chunk stream starts: after the signature and 6 skipped bytes. */
  const StreamStart := 26

  /** The frame duration derived from the timer opcode, in the unit of the
      caller's clock: rate * divisor * 1000, computed in 64 bits. */
  function FrameDuration(rate: int, div: int): (d: nat)
    requires 0 <= rate < 0x1_0000_0000 && 0 <= div < 0x1_0000
    ensures d < 0x1_0000_0000_0000_0000
    ensures d % 1000 == 0
    ensures d == 0 <==> rate == 0 || div == 0
  {
    ProductBound(rate, div);
    var p := rate * div;
    p * 1000
  }

  /** The 32-bit rate times the 16-bit divisor stays within 48 bits, and is
      zero only when one of them is. */
  lemma {:induction false} ProductBound(rate: int, div: int)
    requires 0 <= rate < 0x1_0000_0000 && 0 <= div < 0x1_0000
    ensures 0 <= rate * div < 0x1_0000_0000_0000
    ensures rate * div == 0 <==> rate == 0 || div == 0
  {
    MulMono(rate, div, 0xFFFF);
    MulMono(0xFFFF, rate, 0xFFFF_FFFF);
    if rate > 0 && div > 0 {
      MulMono(rate, 1, div);
    }
  }

  /** Multiplying by a natural keeps the order. */
  lemma {:induction false} MulMono(a: nat, b: int, c: int)
    requires b <= c
    ensures a * b <= a * c
  {
    assert a * c - a * b == a * (c - b);
  }

  /** Euclidean division is unique. */
  lemma {:induction false} ModUnique(x: int, c: int, q: int, r: int)
    requires c > 0 && 0 <= r < c && x == q * c + r
    ensures x / c == q && x % c == r
  {
    var q0 := x / c;
    var r0 := x % c;
    assert x == q0 * c + r0;
    var k := q - q0;
    assert k * c == r0 - r;
  }

  /** One palette channel: the 6-bit stream value shifted into an 8-bit
      channel, with its top two bits copied into the low two bits. */
  function Expand6(v: byte): (c: byte)
    ensures v < 64 ==> c / 4 == v && c % 4 == v / 16
  {
    var t := (v * 4) % 256;
    t + t / 64
  }

  /** The shift drops the two top bits of a byte that is not a 6-bit value. */
  lemma {:induction false} Expand6Truncates(v: byte)
    ensures Expand6(v) == Expand6(v % 64)
  {
    var q, r := v / 64, v % 64;
    assert v * 4 == 256 * q + r * 4;
    ModUnique(v * 4, 256, q, r * 4);
  }

  /** The audio format declared by the audio-buffer opcode. */
  datatype AudioFormat = AudioFormat(channels: nat, bitDepth: nat, compressed: bool)

  function AudioFormatOf(flags: int, version: int): (f: AudioFormat)
    requires 0 <= flags < 0x1_0000
    ensures f.channels == 1 || f.channels == 2
    ensures f.bitDepth == 8 || f.bitDepth == 16
    ensures f.channels == 2 <==> flags % 2 == 1
    ensures f.bitDepth == 16 <==> (flags / 2) % 2 == 1
    ensures f.compressed <==> version > 0 && (flags / 4) % 2 == 1
  {
    AudioFormat(if flags % 2 == 1 then 2 else 1,
                if (flags / 2) % 2 == 1 then 16 else 8,
                version > 0 && (flags / 4) % 2 == 1)
  }
}
