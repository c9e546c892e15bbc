/** The lookups of the DeHackEd loader: the case-insensitive halving
    search over the sorted name table, the mapping of a state number to a
    state through the table of state spans, and the assignment of a keyed
    value to a field of a record. */
module DehTables {
  import opened Wrappers
  import opened CText

  // ---------------------------------------------------------------------
  // FindName
  // ---------------------------------------------------------------------

  /** The name table: C strings, ascending once lower-cased (equal
      neighbours allowed). */
  ghost predicate NameTable(names: seq<seq<char>>)
  {
    (forall i :: 0 <= i < |names| ==> NoNul(names[i])) &&
    forall i, j :: 0 <= i < j < |names| ==> !Precedes(LowerStr(names[j]), LowerStr(names[i]))
  }

  /** Every name up to a name below q is below q too. */
  lemma BelowFrom(names: seq<seq<char>>, mid: nat, q: seq<char>)
    requires NameTable(names) && mid < |names|
    requires Precedes(LowerStr(names[mid]), LowerStr(q))
    ensures forall i :: 0 <= i <= mid ==> Precedes(LowerStr(names[i]), LowerStr(q))
  {
    forall i | 0 <= i < mid
      ensures Precedes(LowerStr(names[i]), LowerStr(q))
    {
      PrecedesTotal(LowerStr(names[i]), LowerStr(names[mid]));
      if LowerStr(names[i]) != LowerStr(names[mid]) {
        PrecedesTrans(LowerStr(names[i]), LowerStr(names[mid]), LowerStr(q));
      }
    }
  }

  /** Every name from a name above q on is above q too. */
  lemma AboveFrom(names: seq<seq<char>>, mid: nat, q: seq<char>)
    requires NameTable(names) && mid < |names|
    requires Precedes(LowerStr(q), LowerStr(names[mid]))
    ensures forall i :: mid <= i < |names| ==> Precedes(LowerStr(q), LowerStr(names[i]))
  {
    forall i | mid < i < |names|
      ensures Precedes(LowerStr(q), LowerStr(names[i]))
    {
      PrecedesTotal(LowerStr(names[mid]), LowerStr(names[i]));
      if LowerStr(names[i]) != LowerStr(names[mid]) {
        PrecedesTrans(LowerStr(q), LowerStr(names[mid]), LowerStr(names[i]));
      }
    }
  }

  /** Names strictly below or above q are not q up to case. */
  lemma Apart(names: seq<seq<char>>, q: seq<char>, lo: nat, hi: int)
    requires -1 <= hi < lo <= |names|
    requires forall i :: 0 <= i < lo ==> Precedes(LowerStr(names[i]), LowerStr(q))
    requires forall i :: hi < i < |names| ==> Precedes(LowerStr(q), LowerStr(names[i]))
    ensures forall i :: 0 <= i < |names| ==> LowerStr(names[i]) != LowerStr(q)
  {
    forall i | 0 <= i < |names|
      ensures LowerStr(names[i]) != LowerStr(q)
    {
      PrecedesAsym(LowerStr(q), LowerStr(q));
    }
  }

  /** FindName: the halving search of the name table with stricmp. The
      index of a name equal to the query up to case, or -1 when the table
      has none. */
  method FindName(names: seq<seq<char>>, name: seq<char>) returns (r: int)
    requires NameTable(names) && NoNul(name)
    ensures -1 <= r < |names|
    ensures r >= 0 ==> LowerStr(names[r]) == LowerStr(name)
    ensures r == -1 <==> forall i :: 0 <= i < |names| ==> LowerStr(names[i]) != LowerStr(name)
  {
    var lo: nat, hi: int := 0, |names| - 1;
    while lo <= hi
      invariant lo <= |names| && -1 <= hi < |names|
      invariant forall i :: 0 <= i < lo ==> Precedes(LowerStr(names[i]), LowerStr(name))
      invariant forall i :: hi < i < |names| ==> Precedes(LowerStr(name), LowerStr(names[i]))
      decreases hi - lo
    {
      var mid := (lo + hi) / 2;
      StricmpOrder(names[mid], name);
      var lexx := Stricmp(names[mid], name);
      if lexx == 0 {
        return mid;
      } else if lexx < 0 {
        BelowFrom(names, mid, name);
        lo := mid + 1;
      } else {
        AboveFrom(names, mid, name);
        hi := mid - 1;
      }
    }
    Apart(names, name, lo, hi);
    return -1;
  }

  /** In a table without names equal up to case, the name FindName
      reports is the only one that matches. */
  lemma MatchUnique(names: seq<seq<char>>, i: nat, j: nat)
    requires i < |names| && j < |names|
    requires forall a, b :: 0 <= a < b < |names| ==> Precedes(LowerStr(names[a]), LowerStr(names[b]))
    requires LowerStr(names[i]) == LowerStr(names[j])
    ensures i == j
  {
    if i < j {
      assert Precedes(LowerStr(names[i]), LowerStr(names[j]));
      PrecedesAsym(LowerStr(names[i]), LowerStr(names[i]));
    } else if j < i {
      assert Precedes(LowerStr(names[j]), LowerStr(names[i]));
      PrecedesAsym(LowerStr(names[i]), LowerStr(names[i]));
    }
  }

  // ---------------------------------------------------------------------
  // FindState
  // ---------------------------------------------------------------------

  /** One span of the state map: span consecutive states of the states
      table, the first of them at index state. State numbers count the
      spans one after another, from 1. */
  datatype StateMap = StateMap(state: int, span: nat)

  /** The number of states the spans cover. */
  function SpanSum(m: seq<StateMap>): nat
  {
    if m == [] then 0 else SpanSum(m[..|m| - 1]) + m[|m| - 1].span
  }

  /** The state number of the first state of span j. */
  function Start(m: seq<StateMap>, j: nat): int
    requires j <= |m|
  {
    1 + SpanSum(m[..j])
  }

  /** State number n falls in span j. */
  predicate InSpan(m: seq<StateMap>, j: nat, n: int)
    requires j < |m|
  {
    Start(m, j) <= n < Start(m, j) + m[j].span
  }

  /** The state that state number n names, looked up from the last span
      back; None for a number no span covers. */
  function Locate(m: seq<StateMap>, n: int): Option<int>
    decreases |m|
  {
    if n < 1 || m == [] then None
    else
      var k := |m| - 1;
      if InSpan(m, k, n) then Some(m[k].state + n - Start(m, k))
      else Locate(m[..k], n)
  }

  lemma StartNext(m: seq<StateMap>, j: nat)
    requires j < |m|
    ensures Start(m, j + 1) == Start(m, j) + m[j].span
  {
    assert m[..j + 1][..j] == m[..j];
  }

  lemma StartAll(m: seq<StateMap>)
    ensures Start(m, |m|) == 1 + SpanSum(m)
  {
    assert m[..|m|] == m;
  }

  lemma {:induction false} StartMono(m: seq<StateMap>, j: nat, k: nat)
    requires j <= k <= |m|
    ensures Start(m, j) <= Start(m, k)
    decreases k - j
  {
    if j < k {
      StartNext(m, j);
      StartMono(m, j + 1, k);
    }
  }

  lemma StartPrefix(m: seq<StateMap>, k: nat, j: nat)
    requires j <= k <= |m|
    ensures Start(m[..k], j) == Start(m, j)
  {
    assert m[..k][..j] == m[..j];
  }

  /** The spans do not overlap: a number lies in at most one. */
  lemma SpanUnique(m: seq<StateMap>, j: nat, k: nat, n: int)
    requires j < |m| && k < |m| && InSpan(m, j, n) && InSpan(m, k, n)
    ensures j == k
  {
    if j < k {
      StartNext(m, j);
      StartMono(m, j + 1, k);
    } else if k < j {
      StartNext(m, k);
      StartMono(m, k + 1, j);
    }
  }

  /** A number in span j is located there. */
  lemma {:induction false} LocateSpan(m: seq<StateMap>, j: nat, n: int)
    requires j < |m| && InSpan(m, j, n)
    ensures Locate(m, n) == Some(m[j].state + n - Start(m, j))
    decreases |m|
  {
    var k := |m| - 1;
    assert Start(m, j) >= 1;
    if j < k {
      StartNext(m, j);
      StartMono(m, j + 1, k);
      assert !InSpan(m, k, n);
      StartPrefix(m, k, j);
      StartPrefix(m, k, j + 1);
      assert m[..k][j] == m[j];
      LocateSpan(m[..k], j, n);
    }
  }

  /** A located number lies in one of the spans. */
  lemma {:induction false} LocateBound(m: seq<StateMap>, n: int)
    requires Locate(m, n).Some?
    ensures 1 <= n < 1 + SpanSum(m)
    decreases |m|
  {
    var k := |m| - 1;
    StartNext(m, k);
    StartAll(m);
    if !InSpan(m, k, n) {
      LocateBound(m[..k], n);
    }
  }

  /** Every number from 1 up to the total lies in some span. */
  lemma {:induction false} Covered(m: seq<StateMap>, n: int) returns (j: nat)
    requires 1 <= n < 1 + SpanSum(m)
    ensures j < |m| && InSpan(m, j, n)
    decreases |m|
  {
    var k := |m| - 1;
    StartNext(m, k);
    StartAll(m);
    if InSpan(m, k, n) {
      j := k;
    } else {
      j := Covered(m[..k], n);
      StartPrefix(m, k, j);
      StartPrefix(m, k, j + 1);
      assert m[..k][j] == m[j];
    }
  }

  /** Locate finds a state exactly for the numbers from 1 up to the
      number of states the spans cover. */
  lemma LocateRange(m: seq<StateMap>, n: int)
    ensures Locate(m, n).Some? <==> 1 <= n < 1 + SpanSum(m)
  {
    if Locate(m, n).Some? {
      LocateBound(m, n);
    } else if 1 <= n < 1 + SpanSum(m) {
      var j := Covered(m, n);
      LocateSpan(m, j, n);
    }
  }

  /** FindState: walks the spans, accumulating their first state numbers,
      to the one that covers statenum; None for statenum 0, a negative
      one, or one past the last span. */
  method FindState(m: seq<StateMap>, statenum: int) returns (r: Option<int>)
    ensures r == Locate(m, statenum)
    ensures r.None? <==> statenum < 1 || statenum >= 1 + SpanSum(m)
    ensures forall j :: 0 <= j < |m| && InSpan(m, j, statenum) ==>
              r == Some(m[j].state + statenum - Start(m, j))
  {
    LocateRange(m, statenum);
    if statenum == 0 {
      return None;
    }
    var i: nat, acc := 0, 1;
    while i < |m|
      invariant i <= |m| && acc == Start(m, i)
      invariant forall j :: 0 <= j < i ==> !InSpan(m, j, statenum)
    {
      if acc <= statenum && acc + m[i].span > statenum {
        LocateSpan(m, i, statenum);
        forall j | 0 <= j < |m| && InSpan(m, j, statenum)
          ensures j == i
        {
          SpanUnique(m, i, j, statenum);
        }
        return Some(m[i].state + statenum - acc);
      }
      StartNext(m, i);
      acc := acc + m[i].span;
      i := i + 1;
    }
    if 1 <= statenum < 1 + SpanSum(m) {
      var j := Covered(m, statenum);
      assert false;
    }
    return None;
  }

  // ---------------------------------------------------------------------
  // HandleKey
  // ---------------------------------------------------------------------

  /** One entry of a key table: a key name and the field of the record
      that the key sets (the field's offset in the record, counted in
      ints). */
  datatype Key = Key(name: seq<char>, field: nat)

  /** The first key whose name stricmp finds equal to key; |keys| for
      none. */
  function FirstKey(keys: seq<Key>, key: seq<char>): nat
  {
    if keys == [] then 0
    else if Stricmp(keys[0].name, key) == 0 then 0
    else 1 + FirstKey(keys[1..], key)
  }

  /** FirstKey is the lowest matching index, and |keys| when nothing
      matches. */
  lemma {:induction false} FirstKeyIs(keys: seq<Key>, key: seq<char>)
    ensures FirstKey(keys, key) <= |keys|
    ensures forall j :: 0 <= j < FirstKey(keys, key) ==> Stricmp(keys[j].name, key) != 0
    ensures FirstKey(keys, key) < |keys| ==> Stricmp(keys[FirstKey(keys, key)].name, key) == 0
    decreases |keys|
  {
    if keys != [] && Stricmp(keys[0].name, key) != 0 {
      FirstKeyIs(keys[1..], key);
      forall j | 1 <= j < FirstKey(keys, key)
        ensures Stricmp(keys[j].name, key) != 0
      {
        assert keys[j] == keys[1..][j - 1];
      }
    }
  }

  /** For C strings, a key matches exactly when its name and the sought
      one are the same up to case. */
  lemma KeyMatch(keys: seq<Key>, key: seq<char>, j: nat)
    requires j < |keys| && NoNul(keys[j].name) && NoNul(key)
    ensures Stricmp(keys[j].name, key) == 0 <==> LowerStr(keys[j].name) == LowerStr(key)
  {
    StricmpOrder(keys[j].name, key);
  }

  /** The record after the key table stores value under key: the field of
      the first matching key is set, and nothing changes when no key
      matches. */
  function KeyStore(rec: seq<int>, keys: seq<Key>, key: seq<char>, value: int): (r: seq<int>)
    ensures |r| == |rec|
  {
    var i := FirstKey(keys, key);
    if i < |keys| && keys[i].field < |rec| then rec[keys[i].field := value] else rec
  }

  /** KeyStore sets a field exactly when some key matches, it is that
      key's field, and no earlier key matches. */
  lemma KeyStoreIs(rec: seq<int>, keys: seq<Key>, key: seq<char>, value: int, f: nat)
    requires forall j :: 0 <= j < |keys| ==> keys[j].field < |rec|
    requires f < |rec|
    ensures KeyStore(rec, keys, key, value)[f] ==
              if exists j :: 0 <= j < |keys| && Stricmp(keys[j].name, key) == 0 && keys[j].field == f &&
                             forall i :: 0 <= i < j ==> Stricmp(keys[i].name, key) != 0
              then value else rec[f]
  {
    FirstKeyIs(keys, key);
    var i := FirstKey(keys, key);
    if exists j :: 0 <= j < |keys| && Stricmp(keys[j].name, key) == 0 && keys[j].field == f &&
                   forall i :: 0 <= i < j ==> Stricmp(keys[i].name, key) != 0 {
      var j :| 0 <= j < |keys| && Stricmp(keys[j].name, key) == 0 && keys[j].field == f &&
               forall i :: 0 <= i < j ==> Stricmp(keys[i].name, key) != 0;
      assert j == i;
    }
  }

  /** The scan of HandleKey: stricmp against each key name in turn. */
  method FindKey(keys: seq<Key>, key: seq<char>) returns (i: nat)
    ensures i == FirstKey(keys, key)
    ensures i <= |keys|
    ensures forall j :: 0 <= j < i ==> Stricmp(keys[j].name, key) != 0
    ensures i < |keys| ==> Stricmp(keys[i].name, key) == 0
  {
    FirstKeyIs(keys, key);
    i := 0;
    while i < |keys| && Stricmp(keys[i].name, key) != 0
      invariant i <= FirstKey(keys, key)
    {
      i := i + 1;
    }
  }

  /** HandleKey: stores value in the field of the first key matching key
      up to case and reports false; reports true, changing nothing, when
      no key matches. */
  method HandleKey(keys: seq<Key>, rec: array<int>, key: seq<char>, value: int) returns (unknown: bool)
    requires forall j :: 0 <= j < |keys| ==> keys[j].field < rec.Length
    modifies rec
    ensures unknown <==> forall j :: 0 <= j < |keys| ==> Stricmp(keys[j].name, key) != 0
    ensures rec[..] == KeyStore(old(rec[..]), keys, key, value)
  {
    var i := FindKey(keys, key);
    if i < |keys| {
      rec[keys[i].field] := value;
      return false;
    }
    return true;
  }
}
