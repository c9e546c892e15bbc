/** Character-level vocabulary shared by the console and the DeHackEd
    parser: C strings as character sequences without their terminator,
    tolower and isspace of the C locale, and the case-insensitive
    comparisons strnicmp and stricmp with the orders they induce. */
module CText {

  /** The terminator of every C string. */
  const NUL: char := '\0'

  /** A C string's contents: no terminator inside. */
  ghost predicate NoNul(s: seq<char>)
  {
    forall i :: 0 <= i < |s| ==> s[i] != NUL
  }

  /** The character at position i of a C string; past its contents the
      terminator is read. */
  function At(s: seq<char>, i: nat): char
  {
    if i < |s| then s[i] else NUL
  }

  /** tolower in the C locale. */
  function Lower(c: char): char
  {
    if 'A' <= c <= 'Z' then (c as int + 32) as char else c
  }

  /** The test `c <= ' '` on plain char, which is signed on the x86
      targets: the bytes 0x80 to 0xFF are negative there and pass it. */
  predicate AtMostSpace(c: char)
  {
    c <= ' ' || c >= '\U{80}'
  }

  /** isspace in the C locale: blank, tab, newline, vertical tab, form feed, carriage return. */
  predicate IsSpace(c: char)
  {
    c == ' ' || '\t' <= c <= '\r'
  }

  /** The string with every character passed through tolower. */
  function LowerStr(s: seq<char>): (r: seq<char>)
    ensures |r| == |s|
    ensures forall i :: 0 <= i < |s| ==> r[i] == Lower(s[i])
    ensures NoNul(s) ==> NoNul(r)
  {
    if s == [] then [] else [Lower(s[0])] + LowerStr(s[1..])
  }

  lemma {:induction false} LowerStrTail(s: seq<char>)
    requires s != []
    ensures LowerStr(s)[1..] == LowerStr(s[1..])
  {
    assert LowerStr(s) == [Lower(s[0])] + LowerStr(s[1..]);
  }

  /** strnicmp: compares at most n characters after tolower, stopping at
      the first difference or at a terminator both strings share. The
      result is the difference of the first differing characters, or 0. */
  function Strnicmp(a: seq<char>, b: seq<char>, n: nat): int
    decreases n
  {
    if n == 0 then 0
    else
      var ca, cb := Lower(At(a, 0)), Lower(At(b, 0));
      if ca != cb then ca as int - cb as int
      else if ca == NUL then 0
      else Strnicmp(a[1..], b[1..], n - 1)
  }

  /** stricmp: strnicmp with a bound past both terminators, so the bound
      never cuts the comparison short. */
  function Stricmp(a: seq<char>, b: seq<char>): int
  {
    Strnicmp(a, b, |a| + |b| + 1)
  }

  /** Lexicographic order: at the first difference a has the smaller
      character, or a is a proper prefix of b. */
  predicate Precedes(a: seq<char>, b: seq<char>)
  {
    if a == [] then b != []
    else if b == [] then false
    else if a[0] != b[0] then a[0] < b[0]
    else Precedes(a[1..], b[1..])
  }

  /** e differs from q at a position both have, and at the first such
      position e's character is the larger one. This is what strnicmp over
      the length of q reports as "greater"; unlike Precedes, a q that is a
      prefix of e is not below e. */
  predicate Above(e: seq<char>, q: seq<char>)
  {
    if e == [] || q == [] then false
    else if e[0] != q[0] then e[0] > q[0]
    else Above(e[1..], q[1..])
  }

  lemma {:induction false} LowerNul(c: char)
    ensures Lower(c) == NUL <==> c == NUL
  {
  }

  /** Case-insensitive comparison over the whole of two C strings agrees
      with the lexicographic order of their lower-cased contents. */
  lemma {:induction false} StrnicmpWhole(a: seq<char>, b: seq<char>, n: nat)
    requires NoNul(a) && NoNul(b) && (n > |a| || n > |b|)
    ensures Strnicmp(a, b, n) == 0 <==> LowerStr(a) == LowerStr(b)
    ensures Strnicmp(a, b, n) < 0 <==> Precedes(LowerStr(a), LowerStr(b))
    ensures Strnicmp(a, b, n) > 0 <==> Precedes(LowerStr(b), LowerStr(a))
    decreases n
  {
    var ca, cb := Lower(At(a, 0)), Lower(At(b, 0));
    LowerNul(At(a, 0));
    LowerNul(At(b, 0));
    if a == [] || b == [] {
    } else if ca != cb {
    } else {
      LowerStrTail(a);
      LowerStrTail(b);
      StrnicmpWhole(a[1..], b[1..], n - 1);
      assert LowerStr(a) == [ca] + LowerStr(a[1..]);
      assert LowerStr(b) == [cb] + LowerStr(b[1..]);
    }
  }

  /** stricmp is 0 exactly for names equal up to case, and negative exactly
      when the first precedes the second once lower-cased. */
  lemma StricmpOrder(a: seq<char>, b: seq<char>)
    requires NoNul(a) && NoNul(b)
    ensures Stricmp(a, b) == 0 <==> LowerStr(a) == LowerStr(b)
    ensures Stricmp(a, b) < 0 <==> Precedes(LowerStr(a), LowerStr(b))
    ensures Stricmp(a, b) > 0 <==> Precedes(LowerStr(b), LowerStr(a))
  {
    StrnicmpWhole(a, b, |a| + |b| + 1);
  }

  /** strnicmp over the length of q reports "greater" exactly when e is
      Above q once both are lower-cased. */
  lemma {:induction false} StrnicmpAbove(e: seq<char>, q: seq<char>)
    requires NoNul(e) && NoNul(q)
    ensures Strnicmp(e, q, |q|) > 0 <==> Above(LowerStr(e), LowerStr(q))
    decreases |q|
  {
    if q != [] {
      LowerNul(At(e, 0));
      LowerNul(q[0]);
      if e != [] && Lower(e[0]) == Lower(q[0]) {
        LowerStrTail(e);
        LowerStrTail(q);
        StrnicmpAbove(e[1..], q[1..]);
      }
    }
  }

  /** strnicmp over the length of q reports 0 with e ending right there
      exactly when e and q are equal up to case. */
  lemma {:induction false} StrnicmpMatch(e: seq<char>, q: seq<char>)
    requires NoNul(e) && NoNul(q)
    ensures (Strnicmp(e, q, |q|) == 0 && At(e, |q|) == NUL) <==> LowerStr(e) == LowerStr(q)
    decreases |q|
  {
    if q == [] {
      assert At(e, 0) == NUL <==> e == [];
    } else {
      LowerNul(At(e, 0));
      LowerNul(q[0]);
      if e != [] && Lower(e[0]) == Lower(q[0]) {
        LowerStrTail(e);
        LowerStrTail(q);
        StrnicmpMatch(e[1..], q[1..]);
        assert At(e, |q|) == At(e[1..], |q[1..]|);
        assert LowerStr(e) == [Lower(e[0])] + LowerStr(e[1..]);
        assert LowerStr(q) == [Lower(q[0])] + LowerStr(q[1..]);
      } else if e != [] {
        assert LowerStr(e)[0] != LowerStr(q)[0];
      }
    }
  }

  lemma {:induction false} PrecedesTrans(a: seq<char>, b: seq<char>, c: seq<char>)
    requires Precedes(a, b) && Precedes(b, c)
    ensures Precedes(a, c)
    decreases |a|
  {
    if a != [] && a[0] == b[0] && b[0] == c[0] {
      PrecedesTrans(a[1..], b[1..], c[1..]);
    }
  }

  lemma {:induction false} PrecedesAsym(a: seq<char>, b: seq<char>)
    ensures !(Precedes(a, b) && Precedes(b, a))
    ensures !Precedes(a, a)
    decreases |a|
  {
    if a != [] && b != [] && a[0] == b[0] {
      PrecedesAsym(a[1..], b[1..]);
    }
    if a != [] {
      PrecedesAsym(a[1..], a[1..]);
    }
  }

  lemma {:induction false} PrecedesTotal(a: seq<char>, b: seq<char>)
    ensures a == b || Precedes(a, b) || Precedes(b, a)
    decreases |a|
  {
    if a != [] && b != [] && a[0] == b[0] {
      PrecedesTotal(a[1..], b[1..]);
      if a[1..] == b[1..] {
        assert a == [a[0]] + a[1..] && b == [b[0]] + b[1..];
      }
    }
  }

  lemma {:induction false} AboveTrans(x: seq<char>, y: seq<char>, z: seq<char>)
    requires Above(x, y) && Above(y, z)
    ensures Above(x, z)
    decreases |x|
  {
    if x[0] == y[0] && y[0] == z[0] {
      AboveTrans(x[1..], y[1..], z[1..]);
    }
  }

  lemma {:induction false} AboveAsym(x: seq<char>, y: seq<char>)
    ensures !(Above(x, y) && Above(y, x))
    decreases |x|
  {
    if x != [] && y != [] && x[0] == y[0] {
      AboveAsym(x[1..], y[1..]);
    }
  }

  lemma {:induction false} AboveIrrefl(x: seq<char>)
    ensures !Above(x, x)
    decreases |x|
  {
    if x != [] {
      AboveIrrefl(x[1..]);
    }
  }

  /** Concatenation regrouped; stated once so that proofs about growing
      buffers need not rediscover it. */
  lemma ConcatAssoc<T>(a: seq<T>, b: seq<T>, c: seq<T>)
    ensures a + (b + c) == (a + b) + c
  {
  }
}
