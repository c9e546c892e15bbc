/** The audio side of the MVE decoder as values: the ring of 16-bit samples
    the decoder writes into, and the sample sequences that the 8-bit,
    16-bit, DPCM and silence paths of the audio opcodes produce. The
    imperative writers in the decoder class are proved against these. */
module MveAudio {
  import opened MveFormat

  const INT16_MIN := -0x8000
  const INT16_MAX := 0x7FFF

  predicate IsInt16(v: int) {
    INT16_MIN <= v <= INT16_MAX
  }

  /** The slot after slot p: the write cursor goes back to slot 0 once it
      reaches the capacity. */
  function RingNext(p: int, capacity: int): int {
    if p + 1 >= capacity then 0 else p + 1
  }

  /** Where the write cursor is after writing k values from slot p, one
      slot at a time. */
  function RingAdvance(p: int, k: nat, capacity: int): (q: int)
    requires 0 <= p < capacity
    ensures 0 <= q < capacity
  {
    if k == 0 then p else RingNext(RingAdvance(p, k - 1, capacity), capacity)
  }

  /** The ring after writing vals one by one, starting at slot p and
      moving the cursor on after each write. A later value overwrites an
      earlier one when more values than slots are written. */
  function RingPut(ring: seq<int>, p: int, vals: seq<int>): (r: seq<int>)
    requires 0 <= p < |ring|
    ensures |r| == |ring|
    decreases |vals|
  {
    if vals == [] then ring
    else RingPut(ring[p := vals[0]], RingNext(p, |ring|), vals[1..])
  }

  /** Writing one more value writes it at the cursor the earlier values
      left. */
  lemma {:induction false} RingPutSnoc(ring: seq<int>, p: int, vals: seq<int>, v: int)
    requires 0 <= p < |ring|
    ensures RingPut(ring, p, vals + [v]) == RingPut(ring, p, vals)[RingAdvance(p, |vals|, |ring|) := v]
    decreases |vals|
  {
    if vals != [] {
      var c := |ring|;
      var rest := vals[1..];
      assert (vals + [v])[1..] == rest + [v];
      RingPutSnoc(ring[p := vals[0]], RingNext(p, c), rest, v);
      RingAdvanceTwice(p, 1, |rest|, |vals|, c);
    }
  }

  /** The cursor after k steps is p + k taken modulo the capacity. */
  lemma {:induction false} RingAdvanceMod(p: int, k: nat, capacity: int)
    requires 0 <= p < capacity
    ensures RingAdvance(p, k, capacity) == (p + k) % capacity
  {
    if k == 0 {
      ModUnique(p, capacity, 0, p);
    } else {
      RingAdvanceMod(p, k - 1, capacity);
      var q := RingAdvance(p, k - 1, capacity);
      ModAddLeft(p + k - 1, 1, capacity);
      if q + 1 == capacity {
        ModUnique(q + 1, capacity, 1, 0);
      } else {
        ModUnique(q + 1, capacity, 0, q + 1);
      }
    }
  }

  /** Distance from the write cursor p forward to slot j. */
  function RingDistance(p: int, j: int, capacity: int): (d: int)
    requires 0 <= p < capacity
    ensures 0 <= d < capacity
    ensures RingAdvance(p, d, capacity) == j % capacity
  {
    var d := (j - p) % capacity;
    var q := (j - p) / capacity;
    assert p + d == (j / capacity - q) * capacity + j % capacity;
    ModUnique(p + d, capacity, j / capacity - q, j % capacity);
    RingAdvanceMod(p, d, capacity);
    d
  }

  /** Writing at most one lap: slot j holds the value written RingDistance
      steps after p, or keeps its old value when no write reached it. */
  lemma {:induction false} RingPutAt(ring: seq<int>, p: int, vals: seq<int>, j: int)
    requires 0 <= p < |ring| && |vals| <= |ring| && 0 <= j < |ring|
    ensures RingPut(ring, p, vals)[j] ==
            (if RingDistance(p, j, |ring|) < |vals| then vals[RingDistance(p, j, |ring|)] else ring[j])
    decreases |vals|
  {
    if vals != [] {
      var front := vals[..|vals| - 1];
      var k := |front|;
      RingPutAt(ring, p, front, j);
      assert front + [vals[k]] == vals;
      RingPutSnoc(ring, p, front, vals[k]);
      RingAdvanceMod(p, k, |ring|);
      RingDistanceIs(p, j, k, |ring|);
      var d := RingDistance(p, j, |ring|);
      if d < k {
        assert vals[d] == front[d];
      }
    }
  }

  /** Slot j is k steps after p exactly when p + k wraps around to j. */
  lemma {:induction false} RingDistanceIs(p: int, j: int, k: int, c: int)
    requires 0 <= p < c && 0 <= j < c && 0 <= k < c
    ensures RingDistance(p, j, c) == k <==> j == (p + k) % c
  {
    var d := RingDistance(p, j, c);
    RingAdvanceMod(p, d, c);
    ModUnique(j, c, 0, j);
    ModBack(p, d, c);
    ModBack(p, k, c);
  }

  lemma {:induction false} ModBack(p: int, m: int, c: int)
    requires 0 < c && 0 <= p < c && 0 <= m < c
    ensures ((p + m) % c - p) % c == m
  {
    if p + m >= c {
      ModUnique(p + m, c, 1, p + m - c);
      ModUnique(m - c, c, -1, m);
    } else {
      ModUnique(p + m, c, 0, p + m);
      ModUnique(m, c, 0, m);
    }
  }

  /** Writing two runs back to back is writing their concatenation. */
  lemma {:induction false} RingPutConcat(ring: seq<int>, p: int, a: seq<int>, b: seq<int>)
    requires 0 <= p < |ring|
    ensures RingPut(RingPut(ring, p, a), RingAdvance(p, |a|, |ring|), b) == RingPut(ring, p, a + b)
    decreases |a|
  {
    if a == [] {
      assert a + b == b;
    } else {
      var c := |ring|;
      var rest := a[1..];
      assert (a + b)[1..] == rest + b;
      RingPutConcat(ring[p := a[0]], RingNext(p, c), rest, b);
      RingAdvanceTwice(p, 1, |rest|, |a|, c);
    }
  }

  lemma {:induction false} ModAddLeft(a: int, b: int, c: int)
    requires 0 < c
    ensures (a % c + b) % c == (a + b) % c
  {
    var s := (a + b) / c;
    assert a == (a / c) * c + a % c;
    assert a % c + b == (s - a / c) * c + (a + b) % c;
    ModUnique(a % c + b, c, s - a / c, (a + b) % c);
  }

  /** The sample an unsigned 8-bit byte becomes: centred on zero and moved
      to the top byte of a 16-bit sample. */
  function Pcm8Sample(b: byte): (v: int)
    ensures IsInt16(v)
    ensures v % 256 == 0 && v / 256 + 128 == b
  {
    (b - 128) * 256
  }

  function Pcm8(bytes: seq<byte>): (out: seq<int>)
    ensures |out| == |bytes|
    ensures forall k :: 0 <= k < |out| ==> IsInt16(out[k]) && out[k] / 256 + 128 == bytes[k]
  {
    seq(|bytes|, k requires 0 <= k < |bytes| => Pcm8Sample(bytes[k]))
  }

  /** n little-endian signed 16-bit samples, two bytes each. */
  function Pcm16(bytes: seq<byte>, n: nat): (out: seq<int>)
    requires 2 * n <= |bytes|
    ensures |out| == n
    ensures forall k :: 0 <= k < n ==>
              IsInt16(out[k]) && out[k] % 0x1_0000 == LE16(bytes, 2 * k)
  {
    seq(n, k requires 0 <= k < n => AsInt16(LE16(bytes, 2 * k)))
  }

  /** n samples of silence. */
  function Silence(n: nat): (out: seq<int>)
    ensures |out| == n && forall k :: 0 <= k < n ==> out[k] == 0
  {
    seq(n, _ => 0)
  }

  /** The DPCM decoder's state after some payload bytes: the two channel
      predictors, the channel the next byte belongs to, and the samples
      produced so far. */
  datatype Dpcm = Dpcm(pred: seq<int>, ch: nat, out: seq<int>)

  /** One payload byte: the current channel's predictor moves by the table
      delta, saturating at the 16-bit limits, and is emitted. In stereo the
      channel then alternates. */
  function DpcmStep(table: seq<int>, s: Dpcm, stereo: bool, b: byte): Dpcm
    requires |table| == 256
    requires |s.pred| == 2 && s.ch < 2
  {
    var v := Clamp(s.pred[s.ch] + table[b], INT16_MIN, INT16_MAX);
    Dpcm(s.pred[s.ch := v], if stereo then 1 - s.ch else s.ch, s.out + [v])
  }

  /** The DPCM decoder run over bytes with delta table `table` (the codec
      uses DeltaTable()), starting from the seed predictors on channel 0.
      For mono the second predictor is never used. */
  function DpcmDecode(table: seq<int>, seeds: seq<int>, stereo: bool, bytes: seq<byte>): (s: Dpcm)
    requires |table| == 256
    requires |seeds| == 2
    ensures |s.pred| == 2 && |s.out| == |bytes|
    ensures s.ch == (if stereo then |bytes| % 2 else 0)
    ensures forall k :: 0 <= k < |bytes| ==> IsInt16(s.out[k])
    ensures forall c :: 0 <= c < 2 && IsInt16(seeds[c]) ==> IsInt16(s.pred[c])
    decreases |bytes|
  {
    if bytes == [] then Dpcm(seeds, 0, [])
    else DpcmStep(table, DpcmDecode(table, seeds, stereo, bytes[..|bytes| - 1]), stereo, bytes[|bytes| - 1])
  }

  /** The channel whose predictor produced sample k. */
  function DpcmChannel(stereo: bool, k: nat): nat {
    if stereo then k % 2 else 0
  }

  /** A run of zero bytes repeats each channel's seed, because the table
      delta of the zero byte is zero (as it is in DeltaTable()). */
  lemma {:induction false} DpcmZeroRun(table: seq<int>, seeds: seq<int>, stereo: bool, bytes: seq<byte>)
    requires |table| == 256 && table[0] == 0
    requires |seeds| == 2 && IsInt16(seeds[0]) && IsInt16(seeds[1])
    requires forall k :: 0 <= k < |bytes| ==> bytes[k] == 0
    ensures DpcmDecode(table, seeds, stereo, bytes).pred == seeds
    ensures forall k :: 0 <= k < |bytes| ==>
              DpcmDecode(table, seeds, stereo, bytes).out[k] == seeds[DpcmChannel(stereo, k)]
    decreases |bytes|
  {
    if bytes != [] {
      var front := bytes[..|bytes| - 1];
      DpcmZeroRun(table, seeds, stereo, front);
    }
  }

  /** Sample k of a decoded run is sample k of any longer run with the same
      prefix: decoding is incremental. */
  lemma {:induction false} DpcmPrefix(table: seq<int>, seeds: seq<int>, stereo: bool, bytes: seq<byte>, n: nat)
    requires |table| == 256
    requires |seeds| == 2 && n <= |bytes|
    ensures DpcmDecode(table, seeds, stereo, bytes).out[..n] == DpcmDecode(table, seeds, stereo, bytes[..n]).out
    decreases |bytes|
  {
    if n < |bytes| {
      var front := bytes[..|bytes| - 1];
      DpcmPrefix(table, seeds, stereo, front, n);
      assert front[..n] == bytes[..n];
    } else {
      assert bytes[..n] == bytes;
    }
  }

  /** The bytes at even positions of a sequence. */
  function Evens(s: seq<byte>): (e: seq<byte>)
    ensures |e| == (|s| + 1) / 2
  {
    seq((|s| + 1) / 2, k requires 0 <= k < (|s| + 1) / 2 => s[2 * k])
  }

  /** The bytes at odd positions of a sequence. */
  function Odds(s: seq<byte>): (o: seq<byte>)
    ensures |o| == |s| / 2
  {
    seq(|s| / 2, k requires 0 <= k < |s| / 2 => s[2 * k + 1])
  }

  /** A stereo state on channel c and a mono state whose predictor d
      agrees with predictor c still agree after the same byte. */
  lemma {:induction false} DpcmStepOn(table: seq<int>, s: Dpcm, t: Dpcm, c: nat, d: nat, b: byte)
    requires |table| == 256
    requires |s.pred| == 2 && |t.pred| == 2 && c < 2 && d < 2
    requires s.ch == c && t.ch == d && s.pred[c] == t.pred[d]
    ensures DpcmStep(table, s, true, b).pred[c] == DpcmStep(table, t, false, b).pred[d]
  { }

  /** A stereo step leaves the other channel's predictor alone. */
  lemma {:induction false} DpcmStepOff(table: seq<int>, s: Dpcm, c: nat, b: byte)
    requires |table| == 256
    requires |s.pred| == 2 && c < 2 && s.ch == 1 - c
    ensures DpcmStep(table, s, true, b).pred[c] == s.pred[c]
  { }

  /** Stereo DPCM is two interleaved mono streams: the left predictor
      after a stereo run is the predictor of a mono run over the even
      bytes. */
  lemma {:induction false} DpcmStereoLeft(table: seq<int>, seeds: seq<int>, bytes: seq<byte>)
    requires |table| == 256
    requires |seeds| == 2
    ensures DpcmDecode(table, seeds, true, bytes).pred[0] == DpcmDecode(table, seeds, false, Evens(bytes)).pred[0]
    decreases |bytes|
  {
    if bytes != [] {
      var front, last := bytes[..|bytes| - 1], bytes[|bytes| - 1];
      DpcmStereoLeft(table, seeds, front);
      assert front + [last] == bytes;
      StereoLeftStep(table, seeds, front, last);
    }
  }

  /** The inductive step of the left-channel correspondence. */
  lemma {:induction false} StereoLeftStep(table: seq<int>, seeds: seq<int>, front: seq<byte>, last: byte)
    requires |table| == 256
    requires |seeds| == 2
    requires DpcmDecode(table, seeds, true, front).pred[0] == DpcmDecode(table, seeds, false, Evens(front)).pred[0]
    ensures DpcmDecode(table, seeds, true, front + [last]).pred[0] == DpcmDecode(table, seeds, false, Evens(front + [last])).pred[0]
  {
    var e := Evens(front);
    var st := DpcmDecode(table, seeds, true, front);
    DpcmDecodeSnoc(table, seeds, true, front, last);
    if |front| % 2 == 0 {
      EvensSnocEven(front, last);
      var mono := DpcmDecode(table, seeds, false, e);
      DpcmDecodeSnoc(table, seeds, false, e, last);
      DpcmStepOn(table, st, mono, 0, 0, last);
    } else {
      EvensSnocOdd(front, last);
      DpcmStepOff(table, st, 0, last);
    }
  }

  /** ... and the right predictor is that of a mono run over the odd bytes,
      started from the right seed. */
  lemma {:induction false} DpcmStereoRight(table: seq<int>, seeds: seq<int>, bytes: seq<byte>)
    requires |table| == 256
    requires |seeds| == 2
    ensures DpcmDecode(table, seeds, true, bytes).pred[1] == DpcmDecode(table, [seeds[1], 0], false, Odds(bytes)).pred[0]
    decreases |bytes|
  {
    if bytes != [] {
      var front, last := bytes[..|bytes| - 1], bytes[|bytes| - 1];
      DpcmStereoRight(table, seeds, front);
      assert front + [last] == bytes;
      StereoRightStep(table, seeds, front, last);
    }
  }

  /** The inductive step of the right-channel correspondence. */
  lemma {:induction false} StereoRightStep(table: seq<int>, seeds: seq<int>, front: seq<byte>, last: byte)
    requires |table| == 256
    requires |seeds| == 2
    requires DpcmDecode(table, seeds, true, front).pred[1] == DpcmDecode(table, [seeds[1], 0], false, Odds(front)).pred[0]
    ensures DpcmDecode(table, seeds, true, front + [last]).pred[1] ==
            DpcmDecode(table, [seeds[1], 0], false, Odds(front + [last])).pred[0]
  {
    var o := Odds(front);
    var st := DpcmDecode(table, seeds, true, front);
    DpcmDecodeSnoc(table, seeds, true, front, last);
    if |front| % 2 == 1 {
      EvensSnocOdd(front, last);
      var mono := DpcmDecode(table, [seeds[1], 0], false, o);
      DpcmDecodeSnoc(table, [seeds[1], 0], false, o, last);
      DpcmStepOn(table, st, mono, 1, 0, last);
    } else {
      EvensSnocEven(front, last);
      DpcmStepOff(table, st, 1, last);
    }
  }

  /** Appending a byte after an even-length prefix extends the even
      positions; after an odd-length prefix, the odd ones. */
  lemma {:induction false} EvensSnocEven(s: seq<byte>, b: byte)
    requires |s| % 2 == 0
    ensures Evens(s + [b]) == Evens(s) + [b] && Odds(s + [b]) == Odds(s)
  {
    var t := s + [b];
    assert forall k :: 0 <= k < |Evens(t)| ==> Evens(t)[k] == (Evens(s) + [b])[k];
    assert forall k :: 0 <= k < |Odds(t)| ==> Odds(t)[k] == Odds(s)[k];
  }

  lemma {:induction false} EvensSnocOdd(s: seq<byte>, b: byte)
    requires |s| % 2 == 1
    ensures Evens(s + [b]) == Evens(s) && Odds(s + [b]) == Odds(s) + [b]
  {
    var t := s + [b];
    assert forall k :: 0 <= k < |Evens(t)| ==> Evens(t)[k] == Evens(s)[k];
    assert forall k :: 0 <= k < |Odds(t)| ==> Odds(t)[k] == (Odds(s) + [b])[k];
  }


  /** Advancing the cursor by i and then by k is advancing it by t = i + k. */
  lemma {:induction false} RingAdvanceTwice(p: int, i: nat, k: nat, t: nat, capacity: int)
    requires 0 <= p < capacity && t == i + k
    ensures RingAdvance(p, t, capacity) == RingAdvance(RingAdvance(p, i, capacity), k, capacity)
  {
    if k > 0 {
      RingAdvanceTwice(p, i, k - 1, t - 1, capacity);
    }
  }

  /** Inside one span the cursor does not wrap. */
  lemma {:induction false} RingAdvanceInSpan(p: int, i: nat, k: nat, capacity: int)
    requires 0 <= p < capacity && RingAdvance(p, i, capacity) + k <= capacity
    ensures RingAdvance(p, i + k, capacity) ==
            (if RingAdvance(p, i, capacity) + k == capacity then 0 else RingAdvance(p, i, capacity) + k)
  {
    if k > 0 {
      RingAdvanceInSpan(p, i, k - 1, capacity);
    }
  }

  /** Decoding one more byte is one more decoder step. */
  lemma {:induction false} DpcmDecodeSnoc(table: seq<int>, seeds: seq<int>, stereo: bool, bytes: seq<byte>, b: byte)
    requires |table| == 256
    requires |seeds| == 2
    ensures DpcmDecode(table, seeds, stereo, bytes + [b]) == DpcmStep(table, DpcmDecode(table, seeds, stereo, bytes), stereo, b)
  {
    assert (bytes + [b])[..|bytes|] == bytes;
  }

  /** Decoding one more delta byte into the ring writes the new sample at
      the slot after the samples decoded so far. */
  lemma {:induction false} DpcmRingSnoc(table: seq<int>, ring: seq<int>, p: int, seeds: seq<int>, stereo: bool, bytes: seq<byte>, b: byte)
    requires |table| == 256
    requires |seeds| == 2 && 0 <= p < |ring|
    ensures var s := DpcmDecode(table, seeds, stereo, bytes);
            var v := Clamp(s.pred[s.ch] + table[b], INT16_MIN, INT16_MAX);
            RingPut(ring, p, DpcmDecode(table, seeds, stereo, bytes + [b]).out) ==
            RingPut(ring, p, s.out)[RingAdvance(p, |bytes|, |ring|) := v]
  {
    var s := DpcmDecode(table, seeds, stereo, bytes);
    DpcmDecodeSnoc(table, seeds, stereo, bytes, b);
    RingPutSnoc(ring, p, s.out, DpcmStep(table, s, stereo, b).out[|bytes|]);
    assert DpcmStep(table, s, stereo, b).out == s.out + [DpcmStep(table, s, stereo, b).out[|bytes|]];
  }
}
