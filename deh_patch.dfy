/** The section handlers of the DeHackEd loader built on GetLine: the
    Frame section with its packing of the tic count, misc1 and frame
    number into a state's byte fields, the Misc section with its
    infighting flag, and the mapping of the patch's Doom version to the
    loader's version index. atoi, the conversion of a value to a number,
    is a parameter. */
module DehPatch {
  import opened Wrappers
  import opened CText
  import opened DehText
  import opened DehTables

  /** A key and its value, as GetLine leaves them in Line1 and Line2. */
  type Pair = (seq<char>, seq<char>)

  /** The key-value lines GetLine returns from r one after another, the
      first line that is not one (a section word, a rejected line or the
      end of the patch) and the text after that line. */
  ghost function KeyRun(r: seq<char>): (seq<Pair>, Line, seq<char>)
    decreases |r|
  {
    var g := GetLineSpec(r);
    if g.0.KeyValue? then
      var k := KeyRun(g.1);
      ([(g.0.key, g.0.value)] + k.0, k.1, k.2)
    else ([], g.0, g.1)
  }

  /** The run from r0 is the pairs done followed by the run from rp. */
  ghost predicate RunFrom(r0: seq<char>, done: seq<Pair>, rp: seq<char>)
  {
    KeyRun(r0).0 == done + KeyRun(rp).0 && KeyRun(r0).1 == KeyRun(rp).1 && KeyRun(r0).2 == KeyRun(rp).2
  }

  /** A key-value line continues the run after it. */
  lemma KeyRunStep(r: seq<char>)
    requires GetLineSpec(r).0.KeyValue?
    ensures var g := GetLineSpec(r);
            KeyRun(r).0 == [(g.0.key, g.0.value)] + KeyRun(g.1).0 &&
            KeyRun(r).1 == KeyRun(g.1).1 && KeyRun(r).2 == KeyRun(g.1).2
  {
  }

  /** One more key-value line read: it moves from the run still ahead to
      the pairs done. */
  lemma RunStep(r0: seq<char>, rp: seq<char>, done: seq<Pair>, key: seq<char>, value: seq<char>)
    requires RunFrom(r0, done, rp) && GetLineSpec(rp).0 == KeyValue(key, value)
    ensures RunFrom(r0, done + [(key, value)], GetLineSpec(rp).1)
  {
    var r' := GetLineSpec(rp).1;
    KeyRunStep(rp);
    assert done + ([(key, value)] + KeyRun(r').0) == (done + [(key, value)]) + KeyRun(r').0;
  }

  /** A line that is not a key-value line ends the run. */
  lemma RunEnd(r0: seq<char>, rp: seq<char>, done: seq<Pair>)
    requires RunFrom(r0, done, rp) && !GetLineSpec(rp).0.KeyValue?
    ensures KeyRun(r0) == (done, GetLineSpec(rp).0, GetLineSpec(rp).1)
  {
    assert done + [] == done;
  }

  lemma RunStart(r0: seq<char>)
    ensures RunFrom(r0, [], r0)
  {
    assert [] + KeyRun(r0).0 == KeyRun(r0).0;
  }

  /** The string held at at in buf: strlen, then a copy. */
  method ReadStr(buf: array<char>, at: nat, ghost t: seq<char>) returns (s: seq<char>)
    requires StrAt(buf[..], at, t) && NoNul(t)
    ensures s == t
  {
    assert forall i :: at <= i < at + |t| ==> buf[i] == buf[at..at + |t|][i - at];
    var j := at;
    while buf[j] != NUL
      invariant at <= j <= at + |t|
      invariant forall i :: at <= i < at + |t| ==> buf[i] != NUL
      decreases at + |t| - j
    {
      j := j + 1;
    }
    s := buf[at..j];
  }

  /** Line1 and Line2 after GetLine returned a key-value line read from
      the unread text r. */
  method ReadPair(p: Patch, ghost r: seq<char>) returns (key: seq<char>, value: seq<char>)
    requires NoNul(r) && GetLineSpec(r).0.KeyValue? && p.Halves(GetLineSpec(r).0)
    ensures key == GetLineSpec(r).0.key && value == GetLineSpec(r).0.value
  {
    LineNoNul(r);
    key := ReadStr(p.buf, p.line1, GetLineSpec(r).0.key);
    value := ReadStr(p.buf, p.line2, GetLineSpec(r).0.value);
  }

  // ---------------------------------------------------------------------
  // Frame packing
  // ---------------------------------------------------------------------

  /** The state flag bits kept in the frame byte. */
  const SF_FULLBRIGHT: int := 0x40
  const SF_BIGTIC: int := 0x80

  /** A state's fields as stored: Tics, Misc1, Misc2, Frame and the next
      state (an index of the states table). */
  datatype FState = FState(tics: int, misc1: int, misc2: int, frame: int, next: Option<int>)

  predicate Int32(x: int)
  {
    -0x8000_0000 <= x < 0x8000_0000
  }

  /** | on naturals, bit by bit from the lowest. */
  function OrNat(a: nat, b: nat): nat
  {
    if a == 0 then b
    else if b == 0 then a
    else 2 * OrNat(a / 2, b / 2) + (if a % 2 == 1 || b % 2 == 1 then 1 else 0)
  }

  /** 32 bits read as a two's complement int. */
  function Signed(x: nat): int
  {
    if x < 0x8000_0000 then x else x - 0x1_0000_0000
  }

  /** | on ints of 32 bits: | of their two's complements. */
  function Or32(a: int, b: int): int
  {
    Signed(OrNat(a % 0x1_0000_0000, b % 0x1_0000_0000))
  }

  lemma OrZero(a: int)
    requires Int32(a)
    ensures Or32(0, a) == a && Or32(a, 0) == a
  {
    assert OrNat(0, a % 0x1_0000_0000) == a % 0x1_0000_0000;
  }

  predicate BigTic(s: FState)
  {
    (s.frame / SF_BIGTIC) % 2 == 1
  }

  predicate Fullbright(s: FState)
  {
    (s.frame / SF_FULLBRIGHT) % 2 == 1
  }

  /** The state's accessors: the tic count, stored less one in Tics with
      its high byte in Misc1 when SF_BIGTIC is set; misc1, which a big
      tic count overlays; the frame number without the flags. */
  function GetTics(s: FState): int
  {
    if BigTic(s) then s.tics + (s.misc1 % 256) * 256 - 1 else s.tics - 1
  }

  function GetMisc1(s: FState): int
  {
    if BigTic(s) then 0 else s.misc1
  }

  function GetFrame(s: FState): int
  {
    s.frame % 64
  }

  /** The fields have the widths of the stored state: Tics and Frame are
      bytes, Misc1 a byte read either signed or unsigned. */
  predicate Packed(s: FState)
  {
    0 <= s.tics < 256 && 0 <= s.frame < 256 && -128 <= s.misc1 < 256
  }

  /** The form PatchFrame stores: a big tic count has a nonzero high
      byte. */
  predicate Canonical(s: FState)
  {
    Packed(s) && (BigTic(s) ==> 1 <= s.misc1 < 256)
  }

  /** The tic count, misc1 and frame number packed into s. misc1 is
      dropped when the tic count needs Misc1's byte; the frame byte is the
      frame number's low six bits, SF_FULLBRIGHT for bit 15 of frame and
      SF_BIGTIC for a tic count above 254 (three disjoint bit ranges, so
      their | is their sum). */
  function Pack(s: FState, tics: int, misc1: int, frame: int): FState
  {
    var m := if misc1 != 0 && tics > 254 then 0 else misc1;
    s.(tics := (tics + 1) % 256,
       misc1 := Or32((tics + 1) / 256, m),
       frame := frame % 64 + (if frame % 0x10000 >= 0x8000 then SF_FULLBRIGHT else 0) +
                (if tics > 254 then SF_BIGTIC else 0))
  }

  lemma FlagBits(f: int, lo: int, full: bool, big: bool)
    requires 0 <= lo < 64
    requires f == lo + (if full then SF_FULLBRIGHT else 0) + (if big then SF_BIGTIC else 0)
    ensures 0 <= f < 256 && f % 64 == lo
    ensures (f / SF_FULLBRIGHT) % 2 == 1 <==> full
    ensures (f / SF_BIGTIC) % 2 == 1 <==> big
  {
  }

  /** Packing a tic count from -1 to 65534 and a misc1 byte gives a state
      whose accessors return them: the tic count, misc1 unless a big tic
      count overlaid it, the frame's low six bits and its bit 15 as the
      fullbright flag. The stored form is canonical. */
  lemma {:induction false} PackRoundTrip(s: FState, tics: int, misc1: int, frame: int)
    requires -1 <= tics <= 65534 && -128 <= misc1 < 256
    ensures var p := Pack(s, tics, misc1, frame);
            Canonical(p) && (BigTic(p) <==> tics > 254) &&
            GetTics(p) == tics &&
            GetMisc1(p) == (if tics > 254 then 0 else misc1) &&
            GetFrame(p) == frame % 64 &&
            (Fullbright(p) <==> frame % 0x10000 >= 0x8000) &&
            p.misc2 == s.misc2 && p.next == s.next
  {
    var p := Pack(s, tics, misc1, frame);
    FlagBits(p.frame, frame % 64, frame % 0x10000 >= 0x8000, tics > 254);
    if tics > 254 {
      OrZero((tics + 1) / 256);
      assert p.misc1 == (tics + 1) / 256;
    } else {
      OrZero(misc1);
      assert (tics + 1) / 256 == 0;
      assert p.misc1 == misc1;
    }
  }

  /** A byte is its low six bits plus its bits 6 and 7. */
  lemma ByteBits(f: int)
    requires 0 <= f < 256
    ensures f == f % 64 + (if (f / SF_FULLBRIGHT) % 2 == 1 then SF_FULLBRIGHT else 0) +
                 (if (f / SF_BIGTIC) % 2 == 1 then SF_BIGTIC else 0)
  {
  }

  /** The tic count a canonical state holds, split back into its bytes. */
  lemma TicsBytes(s: FState)
    requires Canonical(s)
    ensures -1 <= GetTics(s) <= 65534
    ensures GetTics(s) > 254 <==> BigTic(s)
    ensures (GetTics(s) + 1) % 256 == s.tics
    ensures BigTic(s) ==> (GetTics(s) + 1) / 256 == s.misc1
    ensures !BigTic(s) ==> (GetTics(s) + 1) / 256 == 0
  {
    if BigTic(s) {
      assert s.misc1 % 256 == s.misc1;
      assert GetTics(s) + 1 == s.misc1 * 256 + s.tics;
    }
  }

  /** A canonical state unpacked and packed again is unchanged. */
  lemma {:induction false} UnpackPack(s: FState)
    requires Canonical(s)
    ensures Pack(s, GetTics(s), GetMisc1(s), GetFrame(s) + (if Fullbright(s) then 0x8000 else 0)) == s
  {
    var f := GetFrame(s) + (if Fullbright(s) then 0x8000 else 0);
    var p := Pack(s, GetTics(s), GetMisc1(s), f);
    assert f % 64 == s.frame % 64;
    assert f % 0x10000 >= 0x8000 <==> Fullbright(s);
    TicsBytes(s);
    ByteBits(s.frame);
    assert p.frame == s.frame;
    if BigTic(s) {
      OrZero((GetTics(s) + 1) / 256);
    } else {
      OrZero(s.misc1);
    }
    assert p.misc1 == s.misc1;
  }

  // ---------------------------------------------------------------------
  // PatchFrame
  // ---------------------------------------------------------------------

  /** The values PatchFrame works on while reading a Frame section. */
  datatype FrameEdit = FrameEdit(tics: int, misc1: int, frame: int, misc2: int, next: Option<int>)

  /** The values PatchFrame starts from: those of the state, except that
      frames 47 and 48 take their original tic counts 5 and 4. */
  function Initial(frameNum: int, s: FState): FrameEdit
  {
    FrameEdit(if frameNum == 47 then 5 else if frameNum == 48 then 4 else GetTics(s),
              GetMisc1(s), GetFrame(s) + (if Fullbright(s) then 0x8000 else 0), s.misc2, s.next)
  }

  /** The values for a frame number that names no state. */
  const Dummy: FrameEdit := FrameEdit(0, 0, 0, 0, None)

  function Clamp(v: int, lo: int, hi: int): int
    requires lo <= hi
  {
    if v < lo then lo else if v > hi then hi else v
  }

  /** One key of a Frame section. Each key is matched on its length and
      then case-insensitively; an out-of-range misc1 or misc2 is ignored;
      the sprite number is not part of this model. */
  function FrameKey(m: seq<StateMap>, ed: FrameEdit, key: seq<char>, val: int): FrameEdit
  {
    if |key| == 8 && Stricmp(key, "Duration") == 0 then ed.(tics := Clamp(val, -1, 65534))
    else if |key| == 9 && Stricmp(key, "Unknown 1") == 0 then
      if val < -128 || val > 127 then ed else ed.(misc1 := val)
    else if |key| == 9 && Stricmp(key, "Unknown 2") == 0 then
      if val < 0 || val > 255 then ed else ed.(misc2 := val)
    else if |key| == 10 && Stricmp(key, "Next frame") == 0 then ed.(next := Locate(m, val))
    else if |key| == 16 && Stricmp(key, "Sprite subnumber") == 0 then ed.(frame := val)
    else ed
  }

  /** The keys of a Frame section applied in order. */
  function FrameKeys(m: seq<StateMap>, ed: FrameEdit, pairs: seq<Pair>, atoi: seq<char> -> int): FrameEdit
  {
    if pairs == [] then ed
    else
      var last := pairs[|pairs| - 1];
      FrameKey(m, FrameKeys(m, ed, pairs[..|pairs| - 1], atoi), last.0, atoi(last.1))
  }

  /** The tic count stays within -1..65534 and misc1 within a byte. */
  ghost predicate EditOk(ed: FrameEdit)
  {
    -1 <= ed.tics <= 65534 && -128 <= ed.misc1 < 256
  }

  lemma InitialOk(frameNum: int, s: FState)
    requires Packed(s)
    ensures EditOk(Initial(frameNum, s))
  {
  }

  lemma {:induction false} FrameKeysOk(m: seq<StateMap>, ed: FrameEdit, pairs: seq<Pair>, atoi: seq<char> -> int)
    requires EditOk(ed)
    ensures EditOk(FrameKeys(m, ed, pairs, atoi))
    decreases |pairs|
  {
    if pairs != [] {
      FrameKeysOk(m, ed, pairs[..|pairs| - 1], atoi);
    }
  }

  /** The state written back at the end of a Frame section. */
  function Store(s: FState, ed: FrameEdit): FState
  {
    Pack(s.(misc2 := ed.misc2, next := ed.next), ed.tics, ed.misc1, ed.frame)
  }

  /** A Frame section without keys leaves a canonical state as it was,
      except for frames 47 and 48, whose tic counts are reset. */
  lemma StoreInitial(frameNum: int, s: FState)
    requires Canonical(s) && frameNum != 47 && frameNum != 48
    ensures Store(s, Initial(frameNum, s)) == s
  {
    UnpackPack(s);
    assert s.(misc2 := s.misc2, next := s.next) == s;
  }

  /** What a Frame section does to the states: the located state gets the
      section's keys packed in; a frame number without a state changes
      nothing. */
  ghost function FrameResult(states: seq<FState>, m: seq<StateMap>, frameNum: int,
                             pairs: seq<Pair>, atoi: seq<char> -> int): seq<FState>
  {
    match Locate(m, frameNum)
    case None => states
    case Some(i) =>
      if 0 <= i < |states| then
        states[i := Store(states[i], FrameKeys(m, Initial(frameNum, states[i]), pairs, atoi))]
      else states
  }

  /** Every span lies within the states table. */
  ghost predicate MapFits(m: seq<StateMap>, len: nat)
  {
    forall j :: 0 <= j < |m| ==> 0 <= m[j].state && m[j].state + m[j].span <= len
  }

  lemma LocateFits(m: seq<StateMap>, n: int, len: nat)
    requires MapFits(m, len) && Locate(m, n).Some?
    ensures 0 <= Locate(m, n).value < len
  {
    LocateRange(m, n);
    var j := Covered(m, n);
    LocateSpan(m, j, n);
  }

  /** A Frame section's states stay canonical. */
  lemma FrameResultCanonical(states: seq<FState>, m: seq<StateMap>, frameNum: int,
                             pairs: seq<Pair>, atoi: seq<char> -> int)
    requires forall i :: 0 <= i < |states| ==> Canonical(states[i])
    ensures var t := FrameResult(states, m, frameNum, pairs, atoi);
            |t| == |states| && forall i :: 0 <= i < |t| ==> Canonical(t[i])
  {
    var loc := Locate(m, frameNum);
    if loc.Some? && 0 <= loc.value < |states| {
      var s := states[loc.value];
      var ed0 := Initial(frameNum, s);
      InitialOk(frameNum, s);
      FrameKeysOk(m, ed0, pairs, atoi);
      var ed := FrameKeys(m, ed0, pairs, atoi);
      PackRoundTrip(s.(misc2 := ed.misc2, next := ed.next), ed.tics, ed.misc1, ed.frame);
    }
  }

  /** PatchFrame: reads the keys of a Frame section with GetLine and packs
      them into the state the frame number names. Returns GetLine's code
      for the line that ended the section. */
  method PatchFrame(p: Patch, states: array<FState>, m: seq<StateMap>, frameNum: int,
                    atoi: seq<char> -> int) returns (result: int)
    requires p.Valid() && MapFits(m, states.Length)
    modifies p, p.buf, states
    ensures p.Valid()
    ensures var k := KeyRun(old(p.Rest()));
            result == Kind(k.1) && p.Rest() == k.2 &&
            states[..] == FrameResult(old(states[..]), m, frameNum, k.0, atoi)
  {
    var loc := FindState(m, frameNum);
    if loc.Some? {
      LocateFits(m, frameNum, states.Length);
    }
    var ed := if loc.Some? then Initial(frameNum, states[loc.value]) else Dummy;
    ghost var ed0 := ed;
    ghost var r0 := p.Rest();
    ghost var rp := r0;
    ghost var done: seq<Pair> := [];
    var given := false;
    RunStart(r0);
    result := p.GetLine();
    while result == 1
      invariant p.Valid() && NoNul(rp)
      invariant var g := GetLineSpec(rp);
                result == Kind(g.0) && p.Rest() == g.1 && p.Halves(g.0)
      invariant RunFrom(r0, done, rp)
      invariant ed == FrameKeys(m, ed0, done, atoi)
      invariant unchanged(states)
      decreases |rp|
    {
      var key, value := ReadPair(p, rp);
      ed := FrameKey(m, ed, key, atoi(value));
      RunStep(r0, rp, done, key, value);
      assert (done + [(key, value)])[..|done|] == done;
      done := done + [(key, value)];
      rp := p.Rest();
      result := p.GetLine();
    }
    RunEnd(r0, rp, done);
    if loc.Some? {
      states[loc.value] := Store(states[loc.value], ed);
    }
  }

  // ---------------------------------------------------------------------
  // PatchMisc
  // ---------------------------------------------------------------------

  /** The keys of the Misc section, each with its field of the record of
      game settings; field 14 is the infighting setting. */
  const MiscKeys: seq<Key> := [
    Key("Initial Health", 0), Key("Initial Bullets", 1), Key("Max Health", 2),
    Key("Max Armor", 3), Key("Green Armor Class", 4), Key("Blue Armor Class", 5),
    Key("Max Soulsphere", 6), Key("Soulsphere Health", 7), Key("Megasphere Health", 8),
    Key("God Mode Health", 9), Key("IDFA Armor", 10), Key("IDFA Armor Class", 11),
    Key("IDKFA Armor", 12), Key("IDKFA Armor Class", 13), Key("Monsters Infight", 14)]

  const Infight: nat := 14

  /** The keys of a Misc section applied in order through HandleKey. */
  function MiscKeysApplied(rec: seq<int>, pairs: seq<Pair>, atoi: seq<char> -> int): (r: seq<int>)
    ensures |r| == |rec|
  {
    if pairs == [] then rec
    else
      var last := pairs[|pairs| - 1];
      KeyStore(MiscKeysApplied(rec, pairs[..|pairs| - 1], atoi), MiscKeys, last.0, atoi(last.1))
  }

  /** 0xDD in the patch turns infighting on; any other value turns it
      off. */
  function InfightFlag(v: int): (f: int)
  {
    if v == 0xDD then 1 else 0
  }

  /** Some key of the section is the one the table maps to the
      infighting setting. */
  predicate InfightGiven(pairs: seq<Pair>)
  {
    pairs != [] &&
    (InfightGiven(pairs[..|pairs| - 1]) || FirstKey(MiscKeys, pairs[|pairs| - 1].0) == Infight)
  }

  lemma GivenStep(done: seq<Pair>, pair: Pair)
    ensures InfightGiven(done + [pair]) == (InfightGiven(done) || FirstKey(MiscKeys, pair.0) == Infight)
  {
    assert (done + [pair])[..|done|] == done;
  }

  /** A Misc section as written: after the keys, the infighting setting is
      normalised whether or not the section gave it. */
  function MiscSectionAsWritten(rec: seq<int>, pairs: seq<Pair>, atoi: seq<char> -> int): (r: seq<int>)
    requires |rec| > Infight
    ensures |r| == |rec| && (r[Infight] == 0 || r[Infight] == 1)
  {
    var a := MiscKeysApplied(rec, pairs, atoi);
    a[Infight := InfightFlag(a[Infight])]
  }

  /** A Misc section, corrected: the infighting setting is normalised only
      when the section gave it, so a setting stored earlier survives. */
  function MiscSection(rec: seq<int>, pairs: seq<Pair>, atoi: seq<char> -> int): (r: seq<int>)
    requires |rec| > Infight
    ensures |r| == |rec|
  {
    var a := MiscKeysApplied(rec, pairs, atoi);
    if InfightGiven(pairs) then a[Infight := InfightFlag(a[Infight])] else a
  }

  lemma MiscKeyFields()
    ensures forall j :: 0 <= j < |MiscKeys| ==> MiscKeys[j].field == j
  {
  }

  /** Keys other than "Monsters Infight" leave the infighting setting as
      it was. */
  lemma {:induction false} AppliedKeepsInfight(rec: seq<int>, pairs: seq<Pair>, atoi: seq<char> -> int)
    requires |rec| > Infight && !InfightGiven(pairs)
    ensures MiscKeysApplied(rec, pairs, atoi)[Infight] == rec[Infight]
  {
    if pairs != [] {
      var init := pairs[..|pairs| - 1];
      AppliedKeepsInfight(rec, init, atoi);
      MiscKeyFields();
    }
  }

  /** A second Misc section without the key turns infighting off, as
      written: the first section stored 0 or 1, and neither is 0xDD. */
  lemma InfightNotStable(rec: seq<int>, first: seq<Pair>, second: seq<Pair>, atoi: seq<char> -> int)
    requires |rec| > Infight && !InfightGiven(second)
    ensures MiscSectionAsWritten(MiscSectionAsWritten(rec, first, atoi), second, atoi)[Infight] == 0
  {
    AppliedKeepsInfight(MiscSectionAsWritten(rec, first, atoi), second, atoi);
  }

  /** Corrected, a later section without the key keeps the setting that an
      earlier one stored; a section that gives it stores 1 exactly for
      0xDD. */
  lemma InfightStable(rec: seq<int>, first: seq<Pair>, second: seq<Pair>, atoi: seq<char> -> int)
    requires |rec| > Infight
    ensures !InfightGiven(second) ==>
              MiscSection(MiscSection(rec, first, atoi), second, atoi)[Infight] ==
              MiscSection(rec, first, atoi)[Infight]
    ensures InfightGiven(first) ==>
              (MiscSection(rec, first, atoi)[Infight] == 1 <==>
               MiscKeysApplied(rec, first, atoi)[Infight] == 0xDD)
  {
    if !InfightGiven(second) {
      AppliedKeepsInfight(MiscSection(rec, first, atoi), second, atoi);
    }
  }

  lemma MiscKeysFit(rec: seq<int>)
    requires |rec| > Infight
    ensures forall j :: 0 <= j < |MiscKeys| ==> MiscKeys[j].field < |rec|
  {
  }

  /** PatchMisc: reads the keys of a Misc section with GetLine, storing
      the known ones in the record, then normalises the infighting setting
      when the section gave it (MiscSectionAsWritten is the loader as
      written, which always normalises). Keys outside the table (the BFG's
      cells per shot and the rocket explosion's style and alpha) are not
      part of this model. */
  method PatchMisc(p: Patch, deh: array<int>, atoi: seq<char> -> int) returns (result: int)
    requires p.Valid() && deh.Length > Infight
    modifies p, p.buf, deh
    ensures p.Valid()
    ensures var k := KeyRun(old(p.Rest()));
            result == Kind(k.1) && p.Rest() == k.2 &&
            deh[..] == MiscSection(old(deh[..]), k.0, atoi)
  {
    ghost var d0 := deh[..];
    ghost var r0 := p.Rest();
    ghost var rp := r0;
    ghost var done: seq<Pair> := [];
    var given := false;
    RunStart(r0);
    result := p.GetLine();
    while result == 1
      invariant p.Valid() && NoNul(rp)
      invariant var g := GetLineSpec(rp);
                result == Kind(g.0) && p.Rest() == g.1 && p.Halves(g.0)
      invariant RunFrom(r0, done, rp)
      invariant deh[..] == MiscKeysApplied(d0, done, atoi)
      invariant given == InfightGiven(done)
      decreases |rp|
    {
      var key, value := ReadPair(p, rp);
      given := StoreMisc(deh, key, value, atoi, done, given);
      RunStep(r0, rp, done, key, value);
      assert (done + [(key, value)])[..|done|] == done;
      done := done + [(key, value)];
      rp := p.Rest();
      result := p.GetLine();
    }
    RunEnd(r0, rp, done);
    if given {
      deh[Infight] := InfightFlag(deh[Infight]);
    }
  }

  /** One key of a Misc section through HandleKey, noting whether it was
      the infighting setting. */
  method StoreMisc(deh: array<int>, key: seq<char>, value: seq<char>, atoi: seq<char> -> int,
                   ghost done: seq<Pair>, given0: bool) returns (given: bool)
    requires deh.Length > Infight && given0 == InfightGiven(done)
    modifies deh
    ensures deh[..] == KeyStore(old(deh[..]), MiscKeys, key, atoi(value))
    ensures given == InfightGiven(done + [(key, value)])
  {
    MiscKeysFit(deh[..]);
    var slot := FindKey(MiscKeys, key);
    given := given0 || slot == Infight;
    var unknown := HandleKey(MiscKeys, deh, key, atoi(value));
    GivenStep(done, (key, value));
  }

  // ---------------------------------------------------------------------
  // Doom versions
  // ---------------------------------------------------------------------

  /** The text offsets of the five Doom versions the loader knows. */
  const TextOffsets: seq<int> := [129044, 129044, 129044, 129284, 129380]

  /** The loader's index of the Doom version a patch names: 1.6, 1.7,
      1.9, 2.0 and 2.1 (16, 17, 19, 20, 21) are known; any other is taken
      as 1.9. */
  function VersionIndex(dversion: int): int
  {
    if dversion == 16 then 0
    else if dversion == 17 then 2
    else if dversion == 19 then 3
    else if dversion == 20 then 1
    else if dversion == 21 then 4
    else 3
  }

  /** Every version index selects an entry of the offset table; distinct
      known versions get distinct indices, and exactly the unknown ones
      share 1.9's. */
  lemma VersionIndexIs(d: int, e: int)
    ensures 0 <= VersionIndex(d) < |TextOffsets|
    ensures VersionIndex(d) == 3 <==> d == 19 || d !in {16, 17, 20, 21}
    ensures d in {16, 17, 19, 20, 21} && e in {16, 17, 19, 20, 21} ==>
              (VersionIndex(d) == VersionIndex(e) <==> d == e)
  {
  }

  /** The first line of a DeHackEd patch starts with this signature;
      without it the patch is read as a .bex patch made for 1.9, with
      patch format 6. */
  const Signature: seq<char> := "Patch File for DeHackEd v"
  const BexVersion: int := 19
  const BexFormat: int := 6

  /** The header keys CHECKKEY reads: the last "Doom version" and the last
      "Patch format" win; -1 stands for a key never given. */
  function HeaderKeys(pairs: seq<Pair>, atoi: seq<char> -> int): (v: (int, int))
  {
    if pairs == [] then (-1, -1)
    else
      var v := HeaderKeys(pairs[..|pairs| - 1], atoi);
      var last := pairs[|pairs| - 1];
      if Stricmp(last.0, "Doom version") == 0 then (atoi(last.1), v.1)
      else if Stricmp(last.0, "Patch format") == 0 then (v.0, atoi(last.1))
      else v
  }

  /** The version index and patch format DoDehPatch settles on for a
      patch, or None when it refuses the patch: a signed patch whose
      header runs into the end of the patch or a rejected line, or lacks
      either key. A signature line without a newline is refused here; the
      loader as written goes on with a null read position
      (SignatureLineEnd). */
  ghost function Versions(text: seq<char>, atoi: seq<char> -> int): Option<(int, int)>
  {
    if |text| >= |Signature| && text[..|Signature|] == Signature then
      match Find(text, '\n')
      case None => None
      case Some(i) =>
        var k := KeyRun(text[i..]);
        var v := HeaderKeys(k.0, atoi);
        if Kind(k.1) == 0 || v.0 == -1 || v.1 == -1 then None
        else Some((VersionIndex(v.0), v.1))
    else Some((VersionIndex(BexVersion), BexFormat))
  }

  /** Whatever the patch, the version index selects an entry of the text
      offsets, and an unsigned patch is read as 1.9 with format 6. */
  lemma VersionsIs(text: seq<char>, atoi: seq<char> -> int)
    ensures Versions(text, atoi).Some? ==> 0 <= Versions(text, atoi).value.0 < |TextOffsets|
    ensures !(|text| >= |Signature| && text[..|Signature|] == Signature) ==>
              Versions(text, atoi) == Some((3, 6))
  {
    match Versions(text, atoi)
    case None =>
    case Some(v) =>
      if |text| >= |Signature| && text[..|Signature|] == Signature {
        var i := Find(text, '\n').value;
        VersionIndexIs(HeaderKeys(KeyRun(text[i..]).0, atoi).0, 0);
      }
  }

  /** Where the read position goes after the signature, as written:
      strchr's result, None standing for its null pointer. */
  function SignatureLineEnd(text: seq<char>): Option<nat>
  {
    Find(text, '\n')
  }

  /** A patch that is only a signature line, without a newline, leaves the
      loader as written with a null read position, which GetLine then
      dereferences. */
  lemma SignatureLineNull()
    ensures var text := Signature + "3.0";
            |text| >= |Signature| && text[..|Signature|] == Signature && SignatureLineEnd(text).None?
  {
    var text := Signature + "3.0";
    assert text[..|Signature|] == Signature;
    assert forall j :: 0 <= j < |text| ==> text[j] != '\n';
  }

  /** The header part of DoDehPatch: checks the signature and reads the
      header keys of a signed patch with GetLine, or takes a .bex patch's
      defaults, then maps the Doom version to the version index. */
  method ReadVersions(text: seq<char>, atoi: seq<char> -> int) returns (r: Option<(int, int)>)
    requires NoNul(text)
    ensures r == Versions(text, atoi)
    ensures r.Some? ==> 0 <= r.value.0 < |TextOffsets|
  {
    VersionsIs(text, atoi);
    var dversion, pversion := -1, -1;
    if |text| >= |Signature| && text[..|Signature|] == Signature {
      var nl := Find(text, '\n');
      if nl.None? {
        return None;
      }
      var i := nl.value;
      NoNulTail(text, i);
      var p := new Patch(text[i..]);
      ghost var r0 := p.Rest();
      ghost var rp := r0;
      ghost var done: seq<Pair> := [];
      RunStart(r0);
      var cont := p.GetLine();
      while cont == 1
        invariant p.Valid() && NoNul(rp)
        invariant var g := GetLineSpec(rp);
                  cont == Kind(g.0) && p.Rest() == g.1 && p.Halves(g.0)
        invariant RunFrom(r0, done, rp)
        invariant (dversion, pversion) == HeaderKeys(done, atoi)
        decreases |rp|
      {
        var key, value := ReadPair(p, rp);
        if Stricmp(key, "Doom version") == 0 {
          dversion := atoi(value);
        } else if Stricmp(key, "Patch format") == 0 {
          pversion := atoi(value);
        }
        RunStep(r0, rp, done, key, value);
        assert (done + [(key, value)])[..|done|] == done;
        done := done + [(key, value)];
        rp := p.Rest();
        cont := p.GetLine();
      }
      RunEnd(r0, rp, done);
      if cont == 0 || dversion == -1 || pversion == -1 {
        return None;
      }
    } else {
      dversion, pversion := BexVersion, BexFormat;
    }
    return Some((VersionIndex(dversion), pversion));
  }
}
