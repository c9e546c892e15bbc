/** Console actions bound to keys: the key slots of an action button, the
    case-insensitive CRC key of a command name, and the action table
    searched by that key. */
module ConsoleKeys {
  import opened Wrappers
  import opened CText

  /** The flag a double-click adds to a key number. It is a power of two,
      so masking with KEY_DBLCLICKED - 1 keeps the non-negative residue. */
  const KEY_DBLCLICKED := 0x8000

  /** The value a press issued from the console forces into slot 0; no
      masked key number can equal it. */
  const CONSOLE_KEY := 0xffff

  /** keynum & (KEY_DBLCLICKED - 1) on a two's-complement int. */
  function KeyNum(keynum: int): (k: int)
    ensures 0 <= k < KEY_DBLCLICKED
  {
    keynum % KEY_DBLCLICKED
  }

  function Zeros(n: nat): (z: seq<int>)
    ensures |z| == n && forall i :: 0 <= i < n ==> z[i] == 0
  {
    seq(n, _ => 0)
  }

  /** The lowest slot of s holding x, if any. */
  function IndexOf(s: seq<int>, x: int): (r: Option<nat>)
    ensures r.Some? <==> x in s
    ensures r.Some? ==> r.value < |s| && s[r.value] == x && forall j :: 0 <= j < r.value ==> s[j] != x
  {
    if s == [] then None
    else if s[0] == x then Some(0)
    else match IndexOf(s[1..], x) {
      case None => None
      case Some(i) => Some(i + 1)
    }
  }

  /** The slots after a press of the masked key k, or None when the press
      changes nothing. A console press (k == 0) holds slot 0 with
      CONSOLE_KEY and frees the rest; a key press takes the lowest free
      slot unless the key is already down or no slot is free. */
  function Press(ks: seq<int>, k: int): Option<seq<int>>
    requires |ks| > 0
  {
    if k == 0 then Some([CONSOLE_KEY] + Zeros(|ks| - 1))
    else if k in ks then None
    else match IndexOf(ks, 0) {
      case None => None
      case Some(i) => Some(ks[i := k])
    }
  }

  /** The slots after a release of the masked key k, or None when the
      release changes nothing. A console release frees every slot; a key
      release frees the slot holding the key, if it is down. */
  function Release(ks: seq<int>, k: int): Option<seq<int>>
  {
    if k == 0 then Some(Zeros(|ks|))
    else match IndexOf(ks, k) {
      case None => None
      case Some(i) => Some(ks[i := 0])
    }
  }

  /** Some slot holds a key. */
  predicate Held(s: seq<int>)
  {
    exists j :: 0 <= j < |s| && s[j] != 0
  }

  /** No key is held in two slots. */
  predicate DistinctKeys(s: seq<int>)
  {
    forall i, j :: 0 <= i < |s| && 0 <= j < |s| && i != j && s[i] != 0 ==> s[i] != s[j]
  }

  /** The number of slots holding a key. */
  function HeldCount(s: seq<int>): nat
  {
    if s == [] then 0 else (if s[0] != 0 then 1 else 0) + HeldCount(s[1..])
  }

  lemma {:induction false} HeldCountZero(s: seq<int>)
    ensures HeldCount(s) == 0 <==> !Held(s)
  {
    if s != [] {
      HeldCountZero(s[1..]);
      if Held(s[1..]) {
        var j :| 0 <= j < |s[1..]| && s[1..][j] != 0;
        assert s[j + 1] != 0;
      }
      if Held(s) && s[0] == 0 {
        var j :| 0 <= j < |s| && s[j] != 0;
        assert s[1..][j - 1] != 0;
      }
    }
  }

  lemma {:induction false} HeldCountClear(s: seq<int>, m: nat)
    requires m < |s| && s[m] != 0
    ensures HeldCount(s[m := 0]) == HeldCount(s) - 1
  {
    if m > 0 {
      HeldCountClear(s[1..], m - 1);
      assert s[m := 0][1..] == s[1..][m - 1 := 0];
    }
  }

  /** A key press undone by the release of the same key leaves the slots as
      they were: the press put the key in the lowest free slot, and that
      is the slot the release finds it in. */
  lemma PressReleaseRoundTrip(ks: seq<int>, k: int)
    requires |ks| > 0 && k != 0 && Press(ks, k).Some?
    ensures Release(Press(ks, k).value, k) == Some(ks)
  {
    var i := IndexOf(ks, 0).value;
    var t := ks[i := k];
    assert t[i] == k;
    var m := IndexOf(t, k).value;
    assert m == i;
    assert t[i := 0] == ks;
  }

  /** Presses and releases keep every key in at most one slot. */
  lemma PressKeepsDistinct(ks: seq<int>, k: int)
    requires |ks| > 0 && DistinctKeys(ks) && 0 <= k < KEY_DBLCLICKED && Press(ks, k).Some?
    ensures DistinctKeys(Press(ks, k).value)
  {
  }

  lemma ReleaseKeepsDistinct(ks: seq<int>, k: int)
    requires DistinctKeys(ks) && Release(ks, k).Some?
    ensures DistinctKeys(Release(ks, k).value)
  {
  }

  /** The key slots and triggers of one action. down mirrors whether any
      slot holds a key. */
  class ButtonStatus {
    var keys: array<int>
    var down: bool
    var wentDown: bool
    var wentUp: bool

    ghost predicate Valid()
      reads this, keys
    {
      keys.Length > 0 && DistinctKeys(keys[..]) && (down <==> Held(keys[..]))
    }

    constructor(maxKeys: nat)
      requires maxKeys > 0
      ensures Valid() && fresh(keys) && keys[..] == Zeros(maxKeys)
      ensures !down && !wentDown && !wentUp
    {
      keys := new int[maxKeys](_ => 0);
      down, wentDown, wentUp := false, false, false;
    }

    /** The key goes down: the slots become Press of the old slots, and
        when that changes anything the button is down and went down. */
    method PressKey(keynum: int)
      requires Valid()
      modifies keys, this`down, this`wentDown
      ensures Valid()
      ensures var r := Press(old(keys[..]), KeyNum(keynum));
              (r.Some? ==> keys[..] == r.value && down && wentDown) &&
              (r.None? ==> keys[..] == old(keys[..]) && down == old(down) && wentDown == old(wentDown))
    {
      var k := KeyNum(keynum);
      ghost var ks := keys[..];
      if k == 0 {
        keys[0] := CONSOLE_KEY;
        var i := keys.Length - 1;
        while i > 0
          invariant 0 <= i < keys.Length && keys[0] == CONSOLE_KEY
          invariant forall j :: i < j < keys.Length ==> keys[j] == 0
        {
          keys[i] := 0;
          i := i - 1;
        }
        assert keys[..] == [CONSOLE_KEY] + Zeros(keys.Length - 1);
      } else {
        var i, open := keys.Length, -1;
        while i > 0
          invariant 0 <= i <= keys.Length && keys[..] == ks
          invariant forall j :: i <= j < keys.Length ==> keys[j] != k
          invariant open == -1 ==> forall j :: i <= j < keys.Length ==> keys[j] != 0
          invariant open != -1 ==> i <= open < keys.Length && keys[open] == 0 &&
                                   forall j :: i <= j < open ==> keys[j] != 0
        {
          i := i - 1;
          if keys[i] == 0 {
            open := i;
          } else if keys[i] == k {
            return;
          }
        }
        if open < 0 {
          return;
        }
        keys[open] := k;
        assert keys[..] == ks[open := k];
      }
      PressKeepsDistinct(ks, k);
      down, wentDown := true, true;
      assert keys[..][if k == 0 then 0 else IndexOf(ks, 0).value] != 0;
    }

    /** The key goes up: the slots become Release of the old slots, and
        when that changes anything the button went up and is down exactly
        while another slot still holds a key. */
    method ReleaseKey(keynum: int)
      requires Valid()
      modifies keys, this`down, this`wentUp
      ensures Valid()
      ensures var r := Release(old(keys[..]), KeyNum(keynum));
              (r.Some? ==> keys[..] == r.value && wentUp && down == Held(r.value)) &&
              (r.None? ==> keys[..] == old(keys[..]) && down == old(down) && wentUp == old(wentUp))
    {
      var k := KeyNum(keynum);
      ghost var ks := keys[..];
      if k == 0 {
        var i := keys.Length;
        while i > 0
          invariant 0 <= i <= keys.Length
          invariant forall j :: i <= j < keys.Length ==> keys[j] == 0
        {
          i := i - 1;
          keys[i] := 0;
        }
        assert keys[..] == Zeros(keys.Length);
        wentUp, down := true, false;
      } else {
        var i, numdown, hit := keys.Length, 0, -1;
        while i > 0
          invariant 0 <= i <= keys.Length && keys[..] == ks
          invariant numdown == HeldCount(ks[i..])
          invariant hit == -1 ==> forall j :: i <= j < keys.Length ==> ks[j] != k
          invariant hit != -1 ==> i <= hit < keys.Length && ks[hit] == k &&
                                    forall j :: i <= j < hit ==> ks[j] != k
        {
          i := i - 1;
          assert ks[i..][1..] == ks[i + 1..];
          if keys[i] != 0 {
            numdown := numdown + 1;
            if keys[i] == k {
              hit := i;
            }
          }
        }
        assert ks[0..] == ks;
        if hit < 0 {
          return;
        }
        keys[hit] := 0;
        assert keys[..] == ks[hit := 0];
        HeldCountClear(ks, hit);
        HeldCountZero(keys[..]);
        ReleaseKeepsDistinct(ks, k);
        wentUp := true;
        numdown := numdown - 1;
        if numdown == 0 {
          down := false;
        }
      }
    }
  }

  // Command keys: the CRC-32 of the lower-cased name.

  /** CRC1, one step of the CRC-32 register; the table it reads is not part
      of this model, so the step is a parameter. */
  type Crc1 = (bv32, char) -> bv32

  /** The register after feeding every character of s, lower-cased, into
      step, starting from key. */
  function Crc(step: Crc1, key: bv32, s: seq<char>): bv32
    decreases |s|
  {
    if s == [] then key else Crc(step, step(key, Lower(s[0])), s[1..])
  }

  /** The key of a command name. */
  function KeyOf(step: Crc1, s: seq<char>): bv32
  {
    Crc(step, 0xffffffff, s) ^ 0xffffffff
  }

  lemma {:induction false} CrcCaseInsensitive(step: Crc1, key: bv32, s: seq<char>, t: seq<char>)
    requires LowerStr(s) == LowerStr(t)
    ensures Crc(step, key, s) == Crc(step, key, t)
    decreases |s|
  {
    if s != [] {
      assert Lower(s[0]) == LowerStr(s)[0] == LowerStr(t)[0] == Lower(t[0]);
      LowerStrTail(s);
      LowerStrTail(t);
      CrcCaseInsensitive(step, step(key, Lower(s[0])), s[1..], t[1..]);
    }
  }

  /** Names that differ only in case have the same key. */
  lemma KeyCaseInsensitive(step: Crc1, s: seq<char>, t: seq<char>)
    ensures LowerStr(s) == LowerStr(t) ==> KeyOf(step, s) == KeyOf(step, t)
  {
    if LowerStr(s) == LowerStr(t) {
      assert Crc(step, 0xffffffff, s) == Crc(step, 0xffffffff, t) by {
        CrcCaseInsensitive(step, 0xffffffff, s, t);
      }
    }
  }

  /** MakeKey of a zero-terminated name. */
  method MakeKey(step: Crc1, s: seq<char>) returns (key: bv32)
    ensures key == KeyOf(step, s)
  {
    key := 0xffffffff;
    var i := 0;
    while i < |s|
      invariant 0 <= i <= |s|
      invariant Crc(step, key, s[i..]) == Crc(step, 0xffffffff, s)
    {
      assert s[i..][1..] == s[i + 1..];
      key := step(key, Lower(s[i]));
      i := i + 1;
    }
    key := key ^ 0xffffffff;
  }

  /** MakeKey of the first len characters of s. It agrees with the
      zero-terminated form on that prefix, except that the empty prefix
      gives 0xffffffff, where the zero-terminated form of "" gives 0. */
  method MakeKeyLen(step: Crc1, s: seq<char>, len: int) returns (key: bv32)
    requires 0 <= len <= |s|
    ensures key == if len == 0 then 0xffffffff else KeyOf(step, s[..len])
  {
    if len == 0 {
      return 0xffffffff;
    }
    key := 0xffffffff;
    var i, n := 0, len;
    while n > 0
      invariant 0 <= n && i + n == len
      invariant Crc(step, key, s[i..len]) == Crc(step, 0xffffffff, s[..len])
    {
      assert s[i..len][1..] == s[i + 1..len];
      key := step(key, Lower(s[i]));
      i, n := i + 1, n - 1;
    }
    key := key ^ 0xffffffff;
  }

  lemma EmptyKeysDiffer(step: Crc1)
    ensures KeyOf(step, []) == 0
  {
  }

  // The action table.

  datatype Button =
    | Speed | MoveUp | Klook | Attack | Back | Left | MoveLeft | ShowScores | Use
    | Jump | Mlook | Right | LookDown | Strafe | MoveDown | MoveRight | Forward | LookUp

  /** One action: the key of its name and its button. */
  datatype ActionMap = ActionMap(key: nat, button: Button)

  /** The actions in ascending order of key. */
  const ActionMaps: seq<ActionMap> := [
    ActionMap(0x0f26fef6, Speed),
    ActionMap(0x1ccf57bf, MoveUp),
    ActionMap(0x22beba5f, Klook),
    ActionMap(0x47c02d3b, Attack),
    ActionMap(0x6dcec137, Back),
    ActionMap(0x7a67e768, Left),
    ActionMap(0x84b8789a, MoveLeft),
    ActionMap(0x8fd9bf1e, ShowScores),
    ActionMap(0x94b1cc4b, Use),
    ActionMap(0xa7b30616, Jump),
    ActionMap(0xadfe4fff, Mlook),
    ActionMap(0xb4ca7514, Right),
    ActionMap(0xb563e265, LookDown),
    ActionMap(0xb67a0835, Strafe),
    ActionMap(0xe2200fc9, MoveDown),
    ActionMap(0xe78739bb, MoveRight),
    ActionMap(0xe7912f86, Forward),
    ActionMap(0xf01cb105, LookUp)
  ]

  /** Keys strictly ascending: no two actions share a key. */
  predicate Ascending(maps: seq<ActionMap>)
  {
    forall i, j :: 0 <= i < j < |maps| ==> maps[i].key < maps[j].key
  }

  predicate StepAscending(maps: seq<ActionMap>)
  {
    forall i :: 0 < i < |maps| ==> maps[i - 1].key < maps[i].key
  }

  lemma {:induction false} StepToAscending(maps: seq<ActionMap>)
    requires StepAscending(maps)
    ensures Ascending(maps)
    decreases |maps|
  {
    if maps != [] {
      var front := maps[..|maps| - 1];
      assert StepAscending(front);
      StepToAscending(front);
      forall i | 0 <= i < |maps| - 1
        ensures maps[i].key < maps[|maps| - 1].key
      {
        if i < |maps| - 2 {
          assert front[i].key < front[|maps| - 2].key;
        }
      }
    }
  }

  /** The action table is sorted by key with no key twice, as the halving
      search needs. */
  lemma ActionMapsAscending()
    ensures Ascending(ActionMaps)
  {
    StepToAscending(ActionMaps);
  }

  /** The halving search over a table sorted by key: the index of the
      entry with the key, or None when no entry has it. */
  method BinarySearch(maps: seq<ActionMap>, key: nat) returns (r: Option<nat>)
    requires Ascending(maps)
    ensures r.Some? ==> r.value < |maps| && maps[r.value].key == key
    ensures r.None? ==> forall i :: 0 <= i < |maps| ==> maps[i].key != key
  {
    var lo, hi := 0, |maps| - 1;
    while lo <= hi
      invariant 0 <= lo <= |maps| && -1 <= hi < |maps|
      invariant forall i :: 0 <= i < lo ==> maps[i].key < key
      invariant forall i :: hi < i < |maps| ==> maps[i].key > key
    {
      var mid := (lo + hi) / 2;
      if maps[mid].key == key {
        return Some(mid);
      } else if maps[mid].key < key {
        lo := mid + 1;
      } else {
        hi := mid - 1;
      }
    }
    return None;
  }

  /** The button bound to the action whose name has the given key, or
      None when no action has it. */
  method FindButton(key: bv32) returns (b: Option<Button>)
    ensures b.None? <==> forall i :: 0 <= i < |ActionMaps| ==> ActionMaps[i].key != key as int
    ensures b.Some? ==> exists i :: 0 <= i < |ActionMaps| && ActionMaps[i].key == key as int && ActionMaps[i].button == b.value
  {
    ActionMapsAscending();
    var r := BinarySearch(ActionMaps, key as int);
    if r.Some? {
      b := Some(ActionMaps[r.value].button);
    } else {
      b := None;
    }
  }
}
