/** The console command table: HASH_SIZE buckets, each a chain of command
    names. A chain is kept in the order strnicmp over the sought name's
    length induces, so that a scan can stop at the first entry that
    compares greater. */
module ConsoleHash {
  import opened Wrappers
  import opened CText
  import opened ConsoleKeys

  /** The names of the commands in one bucket, from the head of the chain. */
  type Chain = seq<seq<char>>

  ghost predicate CNames(c: Chain)
  {
    forall i :: 0 <= i < |c| ==> NoNul(c[i])
  }

  /** No entry is Above a later one, once both are lower-cased. A name
      that is a prefix of an earlier entry may follow it: "foo" comes after
      "foobar", since strnicmp over three characters finds them equal. */
  ghost predicate ChainOrdered(c: Chain)
  {
    forall i, j :: 0 <= i < j < |c| ==> !Above(LowerStr(c[i]), LowerStr(c[j]))
  }

  /** No two entries are the same name up to case. */
  ghost predicate DistinctNames(c: Chain)
  {
    forall i, j :: 0 <= i < |c| && 0 <= j < |c| && i != j ==> LowerStr(c[i]) != LowerStr(c[j])
  }

  /** Where a new name q goes: after the leading entries that are not
      Above it. */
  function InsertPoint(c: Chain, q: seq<char>): (at: nat)
    ensures at <= |c|
    ensures forall j :: 0 <= j < at ==> !Above(LowerStr(c[j]), LowerStr(q))
    ensures at < |c| ==> Above(LowerStr(c[at]), LowerStr(q))
  {
    if c == [] || Above(LowerStr(c[0]), LowerStr(q)) then 0
    else 1 + InsertPoint(c[1..], q)
  }

  function Insert(c: Chain, at: nat, q: seq<char>): (d: Chain)
    requires at <= |c|
  {
    c[..at] + [q] + c[at..]
  }

  /** ScanChainForName: walks the chain comparing each entry with the first
      |q| characters; stops at the first entry that compares greater, or
      at an entry equal to q up to case. prev is the index of the last
      entry stepped past, -1 for none. */
  method ScanChainForName(chain: Chain, q: seq<char>) returns (found: Option<nat>, prev: int)
    requires NoNul(q) && CNames(chain)
    ensures found.Some? ==> found.value < |chain| && LowerStr(chain[found.value]) == LowerStr(q) &&
                            prev == found.value - 1
    ensures ChainOrdered(chain) ==>
              (found.None? <==> forall i :: 0 <= i < |chain| ==> LowerStr(chain[i]) != LowerStr(q))
    ensures found.None? ==> prev + 1 == InsertPoint(chain, q)
  {
    found, prev := None, -1;
    var i := 0;
    while i < |chain|
      invariant 0 <= i <= |chain| && prev == i - 1
      invariant forall j :: 0 <= j < i ==> !Above(LowerStr(chain[j]), LowerStr(q))
      invariant forall j :: 0 <= j < i ==> LowerStr(chain[j]) != LowerStr(q)
    {
      var comp := Strnicmp(chain[i], q, |q|);
      StrnicmpAbove(chain[i], q);
      StrnicmpMatch(chain[i], q);
      if comp > 0 {
        AboveIrrefl(LowerStr(q));
        return;
      } else if comp == 0 && At(chain[i], |q|) == NUL {
        found := Some(i);
        return;
      }
      prev := i;
      i := i + 1;
    }
  }

  /** Every entry sits in the bucket its key selects. */
  ghost predicate Hashed(t: seq<Chain>, step: Crc1)
  {
    forall b, i :: 0 <= b < |t| && 0 <= i < |t[b]| ==> KeyOf(step, t[b][i]) as int % |t| == b
  }

  /** The command table: hashed, and every chain ordered without repeats. */
  ghost predicate TableValid(t: seq<Chain>, step: Crc1)
  {
    |t| > 0 && Hashed(t, step) &&
    forall b :: 0 <= b < |t| ==> CNames(t[b]) && ChainOrdered(t[b]) && DistinctNames(t[b])
  }

  lemma InsertIndex(c: Chain, at: nat, q: seq<char>, k: nat)
    requires at <= |c| && k <= |c|
    ensures Insert(c, at, q)[k] == if k < at then c[k] else if k == at then q else c[k - 1]
  {
  }

  /** Inserting a name at its insertion point keeps the chain ordered. */
  lemma InsertKeepsOrder(c: Chain, q: seq<char>)
    requires ChainOrdered(c)
    ensures ChainOrdered(Insert(c, InsertPoint(c, q), q))
  {
    var at := InsertPoint(c, q);
    var d := Insert(c, at, q);
    forall i, j | 0 <= i < j < |d|
      ensures !Above(LowerStr(d[i]), LowerStr(d[j]))
    {
      InsertIndex(c, at, q, i);
      InsertIndex(c, at, q, j);
      if i == at {
        // c[at] is Above q; q Above a later entry would put c[at] Above it.
        if j - 1 == at {
          AboveAsym(LowerStr(c[at]), LowerStr(q));
        } else if Above(LowerStr(q), LowerStr(c[j - 1])) {
          AboveTrans(LowerStr(c[at]), LowerStr(q), LowerStr(c[j - 1]));
        }
      }
    }
  }

  /** Inserting a name that is not in the chain keeps it free of repeats. */
  lemma InsertKeepsDistinct(c: Chain, q: seq<char>, at: nat)
    requires DistinctNames(c) && at <= |c|
    requires forall i :: 0 <= i < |c| ==> LowerStr(c[i]) != LowerStr(q)
    ensures DistinctNames(Insert(c, at, q))
  {
    var d := Insert(c, at, q);
    forall i, j | 0 <= i < |d| && 0 <= j < |d| && i != j
      ensures LowerStr(d[i]) != LowerStr(d[j])
    {
      InsertIndex(c, at, q, i);
      InsertIndex(c, at, q, j);
    }
  }

  /** Linking a new name into the bucket its key selects keeps the table
      valid. */
  lemma InsertKeepsTable(t: seq<Chain>, step: Crc1, q: seq<char>)
    requires TableValid(t, step) && NoNul(q)
    requires var c := t[KeyOf(step, q) as int % |t|];
             forall i :: 0 <= i < |c| ==> LowerStr(c[i]) != LowerStr(q)
    ensures var b := KeyOf(step, q) as int % |t|;
            TableValid(t[b := Insert(t[b], InsertPoint(t[b], q), q)], step)
  {
    var b := KeyOf(step, q) as int % |t|;
    var c := t[b];
    var at := InsertPoint(c, q);
    var u := t[b := Insert(c, at, q)];
    InsertKeepsOrder(c, q);
    InsertKeepsDistinct(c, q, at);
    forall b', i | 0 <= b' < |u| && 0 <= i < |u[b']|
      ensures KeyOf(step, u[b'][i]) as int % |u| == b'
    {
      if b' == b {
        InsertIndex(c, at, q, i);
      }
    }
    forall b' | 0 <= b' < |u|
      ensures CNames(u[b'])
    {
      if b' == b {
        forall i | 0 <= i < |u[b']|
          ensures NoNul(u[b'][i])
        {
          InsertIndex(c, at, q, i);
        }
      }
    }
  }

  /** FindNameInHashTable: the bucket the length form of MakeKey selects,
      scanned for the first namelen characters of name. */
  method FindNameInHashTable(table: array<Chain>, step: Crc1, name: seq<char>, namelen: nat)
    returns (r: Option<(nat, nat)>)
    requires table.Length > 0 && namelen <= |name| && NoNul(name[..namelen])
    requires forall b :: 0 <= b < table.Length ==> CNames(table[b])
    ensures r.Some? ==> r.value.0 < table.Length && r.value.1 < |table[r.value.0]| &&
                        LowerStr(table[r.value.0][r.value.1]) == LowerStr(name[..namelen])
    ensures TableValid(table[..], step) && namelen > 0 ==>
              (r.None? <==> forall b, i :: 0 <= b < table.Length && 0 <= i < |table[b]| ==>
                                           LowerStr(table[b][i]) != LowerStr(name[..namelen]))
  {
    var q := name[..namelen];
    var key := MakeKeyLen(step, name, namelen);
    var b := key as int % table.Length;
    var found, _ := ScanChainForName(table[b], q);
    if found.Some? {
      return Some((b, found.value));
    }
    r := None;
    if TableValid(table[..], step) && namelen > 0 {
      forall b', i | 0 <= b' < table.Length && 0 <= i < |table[b']|
        ensures LowerStr(table[b'][i]) != LowerStr(q)
      {
        KeyCaseInsensitive(step, table[b'][i], q);
      }
    }
  }

  /** AddToHash: a name already in its bucket (up to case) is refused and
      nothing changes; otherwise it is linked in at its insertion point and
      no other bucket changes. */
  method AddToHash(table: array<Chain>, step: Crc1, name: seq<char>) returns (added: bool)
    requires table.Length > 0 && NoNul(name)
    requires forall b :: 0 <= b < table.Length ==> CNames(table[b])
    modifies table
    ensures var b := KeyOf(step, name) as int % table.Length;
            var c := old(table[b]);
            (!added ==> (exists i :: 0 <= i < |c| && LowerStr(c[i]) == LowerStr(name)) &&
                        table[..] == old(table[..])) &&
            (added ==> table[..] == old(table[..])[b := Insert(c, InsertPoint(c, name), name)]) &&
            (TableValid(old(table[..]), step) ==>
               (added <==> forall i :: 0 <= i < |c| ==> LowerStr(c[i]) != LowerStr(name)) &&
               TableValid(table[..], step))
  {
    var key := MakeKey(step, name);
    var b := key as int % table.Length;
    var found, prev := ScanChainForName(table[b], name);
    if found.Some? {
      return false;
    }
    ghost var t0 := table[..];
    var c := table[b];
    if TableValid(t0, step) {
      InsertKeepsTable(t0, step, name);
    }
    table[b] := c[..prev + 1] + [name] + c[prev + 1..];
    added := true;
    assert table[..] == t0[b := Insert(c, InsertPoint(c, name), name)];
  }
}
