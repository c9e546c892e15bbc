/** Text handling of the DeHackEd patch reader: whitespace trimming, the
    in-place escape decoder used on [STRINGS] values, and the line reader
    that walks the patch buffer. */
module DehText {
  import opened Wrappers
  import opened CText

  // ----- Escapes -----

  /** The value of c as a digit in base 8 or 16, if it is one. */
  function DigitVal(c: char, base: nat): Option<nat>
  {
    if '0' <= c <= '9' && (c as int) - ('0' as int) < base then Some((c as int) - ('0' as int))
    else if base == 16 && 'a' <= c <= 'f' then Some(10 + (c as int) - ('a' as int))
    else if base == 16 && 'A' <= c <= 'F' then Some(10 + (c as int) - ('A' as int))
    else None
  }

  /** How many of the leading characters of u, at most max, are digits. */
  function DigitRun(u: seq<char>, base: nat, max: nat): (k: nat)
    ensures k <= max && k <= |u|
    ensures forall j :: 0 <= j < k ==> DigitVal(u[j], base).Some?
    ensures k < max && k < |u| ==> DigitVal(u[k], base).None?
  {
    if max == 0 || u == [] || DigitVal(u[0], base).None? then 0
    else 1 + DigitRun(u[1..], base, max - 1)
  }

  /** The number the digits d spell in base. */
  function DigitsValue(d: seq<char>, base: nat): nat
    requires forall j :: 0 <= j < |d| ==> DigitVal(d[j], base).Some?
  {
    if d == [] then 0
    else DigitsValue(d[..|d| - 1], base) * base + DigitVal(d[|d| - 1], base).value
  }

  /** A value stored into a char: its low eight bits. */
  function ByteChar(v: int): char
  {
    (v % 256) as char
  }

  /** One escape or plain character at the head of s: the character it
      stands for, if any, and how many characters it takes. \n, \t and \r
      in either case are control characters; \x takes up to two hex digits;
      a backslash followed by 0-7 takes up to three octal digits; a
      backslash before any other character stands for that character, and a
      backslash that ends the string stands for nothing. */
  function Step(s: seq<char>): (r: (Option<char>, nat))
    requires s != []
    ensures 1 <= r.1 <= |s|
    ensures s[0] == '\\' && |s| > 1 ==> r.1 >= 2
  {
    if s[0] != '\\' then (Some(s[0]), 1)
    else if |s| == 1 then (None, 1)
    else
      var c := s[1];
      if c == 'n' || c == 'N' then (Some('\n'), 2)
      else if c == 't' || c == 'T' then (Some('\t'), 2)
      else if c == 'r' || c == 'R' then (Some('\r'), 2)
      else if c == 'x' || c == 'X' then
        var k := DigitRun(s[2..], 16, 2);
        (Some(ByteChar(DigitsValue(s[2..2 + k], 16))), 2 + k)
      else if '0' <= c <= '7' then
        var k := DigitRun(s[1..], 8, 3);
        (Some(ByteChar(DigitsValue(s[1..1 + k], 8))), 1 + k)
      else (Some(c), 2)
  }

  /** The string with its escapes decoded. */
  function Unescape(s: seq<char>): seq<char>
    decreases |s|
  {
    if s == [] then []
    else
      var r := Step(s);
      Opt(r.0) + Unescape(s[r.1..])
  }

  /** Every escape takes at least as many characters as it produces, so
      decoding in place never writes ahead of where it reads. */
  lemma {:induction false} UnescapeShrinks(s: seq<char>)
    ensures |Unescape(s)| <= |s|
    decreases |s|
  {
    if s != [] {
      UnescapeShrinks(s[Step(s).1..]);
    }
  }

  /** A character written so that Unescape gives it back. */
  function Esc1(c: char): seq<char>
  {
    if c == '\\' then ['\\', '\\']
    else if c == '\n' then ['\\', 'n']
    else if c == '\t' then ['\\', 't']
    else if c == '\r' then ['\\', 'r']
    else [c]
  }

  function Escape(t: seq<char>): seq<char>
  {
    if t == [] then [] else Esc1(t[0]) + Escape(t[1..])
  }

  /** Decoding undoes escaping. */
  lemma {:induction false} UnescapeEscape(t: seq<char>)
    ensures Unescape(Escape(t)) == t
  {
    if t != [] {
      var s := Escape(t);
      var e := Esc1(t[0]);
      assert s == e + Escape(t[1..]);
      assert Step(s) == (Some(t[0]), |e|);
      assert s[|e|..] == Escape(t[1..]);
      UnescapeEscape(t[1..]);
      assert t == [t[0]] + t[1..];
    }
  }

  /** The escape value as written: the running value is shifted before
      each digit is tested, so an escape cut short by a non-digit is
      shifted once more than its digits call for. */
  function EscapeValueAsWritten(d: seq<char>, base: nat, max: nat): nat
    requires forall j :: 0 <= j < |d| ==> DigitVal(d[j], base).Some?
  {
    if |d| < max then DigitsValue(d, base) * base else DigitsValue(d, base)
  }

  /** The decoder as written: after a \x or octal escape it steps over one
      more character, dropping it, and a backslash or escape at the end of
      the string makes it step over the terminator, reported by the flag;
      reading goes on past the string from there. */
  function UnescapeAsWritten(s: seq<char>): (seq<char>, bool)
    decreases |s|
  {
    if s == [] then ([], false)
    else if s[0] != '\\' then
      var r := UnescapeAsWritten(s[1..]);
      ([s[0]] + r.0, r.1)
    else if |s| == 1 then ([NUL], true)
    else
      var c := s[1];
      var e: (nat, char) :=
        if c == 'n' || c == 'N' then (2, '\n')
        else if c == 't' || c == 'T' then (2, '\t')
        else if c == 'r' || c == 'R' then (2, '\r')
        else if c == 'x' || c == 'X' then
          var k := DigitRun(s[2..], 16, 2);
          (2 + k + 1, ByteChar(EscapeValueAsWritten(s[2..2 + k], 16, 2)))
        else if '0' <= c <= '7' then
          var k := DigitRun(s[1..], 8, 3);
          (1 + k + 1, ByteChar(EscapeValueAsWritten(s[1..1 + k], 8, 3)))
        else (2, c);
      var next, out := e.0, e.1;
      if next > |s| then ([out], true)
      else
        var r := UnescapeAsWritten(s[next..]);
        ([out] + r.0, r.1)
  }

  /** `\x41B` decodes to "A" as written: the B is dropped. Decoded as
      intended it is "AB". */
  lemma EscapeDropsNextChar()
    ensures UnescapeAsWritten("\\x41B") == ("A", false)
    ensures Unescape("\\x41B") == "AB"
  {
    var s := "\\x41B";
    assert |s| == 5 && s[0] == '\\' && s[1] == 'x';
    assert s[2..] == "41B" && "41B"[1..] == "1B";
    assert DigitRun("B", 16, 0) == 0;
    assert DigitRun("1B", 16, 1) == 1;
    assert DigitRun(s[2..], 16, 2) == 2;
    assert s[2..4] == "41";
    assert DigitsValue("4", 16) == 4 by {
      assert "4"[..0] == [];
    }
    assert DigitsValue("41", 16) == 65 by {
      assert "41"[..1] == "4";
    }
    assert EscapeValueAsWritten(s[2..4], 16, 2) == 65;
    assert ByteChar(65) == 'A';
    assert s[5..] == [];
    assert UnescapeAsWritten(s[5..]) == ([], false);
    assert DigitRun(s[2..], 16, 2) == 2;
    assert UnescapeAsWritten(s) == (['A'] + [], false);
    assert ['A'] + [] == "A";
    assert s[4..] == "B";
    assert Unescape("B") == "B" by {
      assert "B"[1..] == [];
    }
  }

  /** `\x4` is worth 0x40 as written, since the shift before the missing
      second digit still happens, and the decoder steps over the
      terminator; decoded as intended it is the single character 4. */
  lemma ShortEscapeShifted()
    ensures UnescapeAsWritten("\\x4") == (['@'], true)
    ensures Unescape("\\x4") == [4 as char]
  {
    var s := "\\x4";
    assert s[2..] == "4";
    assert DigitRun("4"[1..], 16, 1) == 0;
    assert DigitRun("4", 16, 2) == 1;
    assert s[2..3] == "4";
    assert DigitsValue("4", 16) == 4 by {
      assert "4"[..0] == [];
    }
    assert EscapeValueAsWritten("4", 16, 2) == 64;
    assert s[3..] == [];
  }

  /** DigitRun is pinned down by where the digits stop. */
  lemma {:induction false} DigitRunIs(u: seq<char>, base: nat, max: nat, k: nat)
    requires k <= max && k <= |u|
    requires forall j :: 0 <= j < k ==> DigitVal(u[j], base).Some?
    requires k == max || k == |u| || DigitVal(u[k], base).None?
    ensures DigitRun(u, base, max) == k
    decreases k
  {
    if k > 0 {
      DigitRunIs(u[1..], base, max - 1, k - 1);
    }
  }

  lemma DigitsValueSnoc(u: seq<char>, base: nat, k: nat)
    requires k < |u|
    requires forall j :: 0 <= j <= k ==> DigitVal(u[j], base).Some?
    ensures DigitsValue(u[..k + 1], base) == DigitsValue(u[..k], base) * base + DigitVal(u[k], base).value
  {
    assert u[..k + 1][..k] == u[..k];
  }

  /** The digit loop of an escape: up to max digits of str from p, with the
      value they spell; the terminator at n stops it like any non-digit. */
  method ReadDigits(str: array<char>, p: nat, n: nat, base: nat, max: nat) returns (v: nat, k: nat)
    requires p <= n < str.Length && str[n] == NUL
    ensures k == DigitRun(str[p..n], base, max)
    ensures v == DigitsValue(str[p..n][..k], base)
  {
    ghost var u := str[p..n];
    v, k := 0, 0;
    while k < max
      invariant k <= max && p + k <= n
      invariant forall j :: 0 <= j < k ==> DigitVal(u[j], base).Some?
      invariant v == DigitsValue(u[..k], base)
    {
      var d := DigitVal(str[p + k], base);
      if d.None? {
        break;
      }
      assert p + k < n;
      DigitsValueSnoc(u, base, k);
      v := v * base + d.value;
      k := k + 1;
    }
    DigitRunIs(u, base, max, k);
  }

  /** Reads the character or escape at p: what it stands for, if anything,
      and where the next one starts. */
  method ReadEscape(str: array<char>, p: nat, n: nat, ghost s: seq<char>) returns (out: Option<char>, p': nat)
    requires p < n < str.Length && |s| == n && NoNul(s) && str[n] == NUL && str[p..n] == s[p..]
    ensures p < p' <= n && Unescape(s[p..]) == Opt(out) + Unescape(s[p'..])
  {
    out, p' := ReadStep(str, p, n, s);
    UnescapeHead(s, p, out, p');
  }

  /** The character or escape at p as Step reads it. */
  method ReadStep(str: array<char>, p: nat, n: nat, ghost s: seq<char>) returns (out: Option<char>, p': nat)
    requires p < n < str.Length && |s| == n && NoNul(s) && str[n] == NUL && str[p..n] == s[p..]
    ensures out == Step(s[p..]).0 && p' == p + Step(s[p..]).1
  {
    assert str[p] == s[p..][0];
    if str[p] != '\\' {
      return Some(str[p]), p + 1;
    }
    out, p' := ReadBackslash(str, p, n, s);
  }

  /** The escape that starts with the backslash at p. */
  method ReadBackslash(str: array<char>, p: nat, n: nat, ghost s: seq<char>) returns (out: Option<char>, p': nat)
    requires p < n < str.Length && |s| == n && NoNul(s) && str[n] == NUL && str[p..n] == s[p..]
    requires str[p] == '\\'
    ensures out == Step(s[p..]).0 && p' == p + Step(s[p..]).1
  {
    ghost var t := s[p..];
    p' := p + 1;
    var d := str[p'];
    assert p' < n ==> str[p'] == s[p'] == t[1];
    if d == NUL {
      // A backslash that ends the string stands for nothing.
      assert p' == n;
      out := None;
    } else if d == 'n' || d == 'N' {
      out, p' := Some('\n'), p' + 1;
    } else if d == 't' || d == 'T' {
      out, p' := Some('\t'), p' + 1;
    } else if d == 'r' || d == 'R' {
      out, p' := Some('\r'), p' + 1;
    } else if d == 'x' || d == 'X' || '0' <= d <= '7' {
      out, p' := ReadNumeric(str, p, n, s);
    } else {
      out, p' := Some(d), p' + 1;
    }
  }

  /** The escape at p whose backslash is followed by x and up to two hex
      digits, or by up to three octal digits. */
  method ReadNumeric(str: array<char>, p: nat, n: nat, ghost s: seq<char>) returns (out: Option<char>, p': nat)
    requires p + 1 < n < str.Length && |s| == n && NoNul(s) && str[n] == NUL && str[p..n] == s[p..]
    requires str[p] == '\\' && (str[p + 1] == 'x' || str[p + 1] == 'X' || '0' <= str[p + 1] <= '7')
    ensures out == Step(s[p..]).0 && p' == p + Step(s[p..]).1
  {
    ghost var t := s[p..];
    assert str[p + 1] == s[p + 1] == t[1];
    if str[p + 1] == 'x' || str[p + 1] == 'X' {
      var v, k := ReadDigits(str, p + 2, n, 16, 2);
      ArrayTail(str, s, p, n, 2);
      DigitStep(s, p, 2, 16, 2, k);
      StepNumeric(t, 2, 16, 2);
      out, p' := Some(ByteChar(v)), p + 2 + k;
    } else {
      var v, k := ReadDigits(str, p + 1, n, 8, 3);
      ArrayTail(str, s, p, n, 1);
      DigitStep(s, p, 1, 8, 3, k);
      StepNumeric(t, 1, 8, 3);
      out, p' := Some(ByteChar(v)), p + 1 + k;
    }
  }

  /** Step on a numeric escape: the digits from `from` on, at most max of
      them in base, and the character they spell. */
  lemma StepNumeric(t: seq<char>, from: nat, base: nat, max: nat)
    requires |t| > 1 && t[0] == '\\'
    requires (from, base, max) == (2, 16, 2) || (from, base, max) == (1, 8, 3)
    requires if from == 2 then t[1] == 'x' || t[1] == 'X' else '0' <= t[1] <= '7'
    ensures var k := DigitRun(t[from..], base, max);
            from + k <= |t| && Step(t) == (Some(ByteChar(DigitsValue(t[from..from + k], base))), from + k)
  {
  }

  /** A buffer holding s from p holds it from any later point too. */
  lemma ArrayTail(str: array<char>, s: seq<char>, p: nat, n: nat, from: nat)
    requires p + from <= n <= str.Length && |s| == n && str[p..n] == s[p..]
    ensures str[p + from..n] == s[p + from..|s|]
  {
    forall i | p + from <= i < n
      ensures str[i] == s[i]
    {
      assert str[i] == str[p..n][i - p] && s[i] == s[p..][i - p];
    }
  }

  /** The digits of an escape, read from s at p + from, in terms of the
      escape's own text. */
  lemma DigitStep(s: seq<char>, p: nat, from: nat, base: nat, max: nat, k: nat)
    requires p + from <= |s| && k == DigitRun(s[p + from..|s|], base, max)
    ensures k == DigitRun(s[p..][from..], base, max) && s[p + from..|s|][..k] == s[p..][from..from + k]
  {
    assert s[p..][from..] == s[p + from..|s|];
  }

  /** ReplaceSpecialChars: decodes the escapes of the C string of length n
      in place. The decoded text and a terminator take the front of the
      buffer and everything after them is left as it was. This is the
      corrected decoder; UnescapeAsWritten is the one the source has. */
  method ReplaceSpecialChars(str: array<char>, n: nat)
    requires n < str.Length && str[n] == NUL && NoNul(str[..n])
    modifies str
    ensures var u := Unescape(old(str[..n]));
            |u| <= n && str[..|u|] == u && str[|u|] == NUL && str[|u| + 1..] == old(str[|u| + 1..])
  {
    ghost var s := str[..n];
    ghost var orig := str[..];
    var p: nat, w: nat := 0, 0;
    while str[p] != NUL
      invariant w <= p <= n
      invariant str[w..] == orig[w..]
      invariant str[..w] + Unescape(s[p..]) == Unescape(s)
      decreases n - p
    {
      p, w := DecodeStep(str, p, w, n, s, orig);
    }
    assert str[p] == orig[p];
    assert s[p..] == [];
    UnescapeShrinks(s);
    str[w] := NUL;
  }

  /** The body of the decoding loop, with the loop's invariant: the decoded
      prefix followed by the decoding of what is left is the decoding of the
      whole string, and nothing from w on has been written. */
  method DecodeStep(str: array<char>, p: nat, w: nat, n: nat, ghost s: seq<char>, ghost orig: seq<char>)
    returns (p': nat, w': nat)
    requires w <= p <= n < str.Length && |s| == n && NoNul(s) && |orig| == str.Length
    requires orig[..n] == s && orig[n] == NUL && str[p] != NUL
    requires str[w..] == orig[w..] && str[..w] + Unescape(s[p..]) == Unescape(s)
    modifies str
    ensures p < p' <= n && w' <= p'
    ensures str[w'..] == orig[w'..] && str[..w'] + Unescape(s[p'..]) == Unescape(s)
  {
    assert p < n && str[p..n] == s[p..] by {
      assert str[p] == orig[p];
      assert str[p..n] == orig[p..n];
    }
    ghost var pre := str[..w];
    var out;
    out, p' := ReadEscape(str, p, n, s);
    ConcatAssoc(pre, Opt(out), Unescape(s[p'..]));
    if out.Some? {
      ghost var s1 := str[..];
      str[w] := out.value;
      w' := w + 1;
      assert str[..] == s1[w := out.value];
      WriteAt(s1, w, out.value, orig);
    } else {
      w' := w;
      assert pre + [] == pre;
    }
  }

  /** Writing x at w, where everything from w on is still as in orig. */
  lemma WriteAt(s1: seq<char>, w: nat, x: char, orig: seq<char>)
    requires w < |s1| == |orig| && s1[w..] == orig[w..]
    ensures s1[w := x][..w + 1] == s1[..w] + [x] && s1[w := x][w + 1..] == orig[w + 1..]
  {
    var t := s1[w := x];
    assert t[..w + 1] == s1[..w] + [x];
    assert forall i :: w + 1 <= i < |t| ==> t[i] == s1[i] == s1[w..][i - w] == orig[i];
    assert t[w + 1..] == orig[w + 1..];
  }

  function Opt(o: Option<char>): seq<char>
  {
    if o.Some? then [o.value] else []
  }

  lemma UnescapeHead(s: seq<char>, p: nat, o: Option<char>, p': nat)
    requires p < p' <= |s| && Step(s[p..]) == (o, p' - p)
    ensures Unescape(s[p..]) == Opt(o) + Unescape(s[p'..])
  {
    var t := s[p..];
    assert Unescape(t) == Opt(o) + Unescape(t[p' - p..]);
    assert t[p' - p..] == s[p'..];
  }


  // ----- Scans over one line -----

  /** The leading characters of u that skipwhite passes: isspace ones. */
  function SpaceRun(u: seq<char>): (k: nat)
    ensures k <= |u| && (k < |u| ==> !IsSpace(u[k]))
    ensures forall j :: 0 <= j < k ==> IsSpace(u[j])
  {
    if u == [] || !IsSpace(u[0]) then 0 else 1 + SpaceRun(u[1..])
  }

  /** A separator for the line splitter: a character the test `c <= ' '`
      passes, the terminator excepted. */
  predicate Blank(c: char)
  {
    c != NUL && AtMostSpace(c)
  }

  /** The leading separators of u. */
  function BlankRun(u: seq<char>): (k: nat)
    ensures k <= |u|
  {
    if u == [] || !Blank(u[0]) then 0 else 1 + BlankRun(u[1..])
  }

  /** The leading printable characters of u: those above the blank. */
  function WordRun(u: seq<char>): (k: nat)
    ensures k <= |u|
  {
    if u == [] || AtMostSpace(u[0]) then 0 else 1 + WordRun(u[1..])
  }

  /** Where c first occurs in u, if it does. */
  function Find(u: seq<char>, c: char): (r: Option<nat>)
    ensures r.Some? ==> r.value < |u| && u[r.value] == c
    ensures forall j :: 0 <= j < |u| && (r.None? || j < r.value) ==> u[j] != c
  {
    if u == [] then None
    else if u[0] == c then Some(0)
    else
      var r := Find(u[1..], c);
      if r.Some? then Some(r.value + 1) else None
  }

  /** The last character of u above the blank, if there is one. */
  function LastAbove(u: seq<char>): (r: Option<nat>)
    ensures r.Some? ==> r.value < |u| && !AtMostSpace(u[r.value])
    ensures forall j :: 0 <= j < |u| && (r.None? || r.value < j) ==> AtMostSpace(u[j])
  {
    if u == [] then None
    else if !AtMostSpace(u[|u| - 1]) then Some(|u| - 1)
    else LastAbove(u[..|u| - 1])
  }

  // ----- Lines -----

  /** The length of the first line of r, up to its newline. */
  function LineLen(r: seq<char>): (k: nat)
    ensures k <= |r|
  {
    if r == [] || r[0] == '\n' then 0 else 1 + LineLen(r[1..])
  }

  /** What follows the first line of r and its newline. */
  function After(r: seq<char>): (rest: seq<char>)
    requires r != []
    ensures |rest| < |r|
  {
    if LineLen(r) < |r| then r[LineLen(r) + 1..] else []
  }

  /** LineLen is pinned down by where the first newline or the end is. */
  lemma {:induction false} LineLenIs(r: seq<char>, k: nat)
    requires k <= |r| && (k < |r| ==> r[k] == '\n')
    requires forall j :: 0 <= j < k ==> r[j] != '\n'
    ensures LineLen(r) == k
    decreases k
  {
    if k > 0 {
      LineLenIs(r[1..], k - 1);
    }
  }

  /** igets in sequence terms: r, the unread text from line to its
      terminator at n, has its first newline (if any) overwritten by a
      terminator, and reading resumes after it. */
  lemma LineCut(b0: seq<char>, b: seq<char>, line: nat, k: nat, p: nat, n: nat, r: seq<char>)
    requires line <= n < |b0| && b0[line..n] == r && r != [] && NoNul(r) && b0[n] == NUL && k == LineLen(r)
    requires (k < |r| && b == b0[line + k := NUL] && p == line + k + 1) ||
             (k == |r| && b == b0 && p == n)
    ensures line + k <= p <= n && b[line..line + k] == r[..k] && b[line + k] == NUL &&
            b[p..n] == After(r) && NoNul(b[p..n]) && b[n] == NUL && |b| == |b0|
  {
    if k < |r| {
      LineCutNewline(b0, line, k, n, r);
      assert b[n] == b0[n];
    } else {
      LineCutEnd(b0, line, k, n, r);
    }
  }

  lemma LineCutEnd(b0: seq<char>, line: nat, k: nat, n: nat, r: seq<char>)
    requires line <= n < |b0| && b0[line..n] == r && r != [] && k == |r| && k == LineLen(r)
    ensures b0[line..line + k] == r[..k] && After(r) == [] && b0[n..n] == []
  {
    assert r[..k] == r;
  }

  lemma LineCutNewline(b0: seq<char>, line: nat, k: nat, n: nat, r: seq<char>)
    requires line + k < n < |b0| && b0[line..n] == r && NoNul(r) && k == LineLen(r)
    ensures var b := b0[line + k := NUL];
            b[line..line + k] == r[..k] && b[line + k + 1..n] == After(r) &&
            NoNul(b[line + k + 1..n])
  {
    UpdateOutside(b0, line + k, NUL, line, line + k);
    UpdateOutside(b0, line + k, NUL, line + k + 1, n);
    TailOfSlice(b0, line, n, k + 1);
    HeadOfSlice(b0, line, n, k);
    NoNulTail(r, k + 1);
  }

  lemma NoNulTail(r: seq<char>, i: nat)
    requires NoNul(r) && i <= |r|
    ensures NoNul(r[i..])
  {
    assert forall j :: 0 <= j < |r| - i ==> r[i..][j] == r[i + j];
  }

  /** What GetLine makes of a line: a key and its value around '=', a
      section word and what follows it, a line it gives up on, or a line
      it passes over (a comment or a blank line). */
  datatype Line =
    | EndOfPatch
    | Skipped
    | Rejected
    | KeyValue(key: seq<char>, value: seq<char>)
    | ModeWord(word: seq<char>, arg: seq<char>)

  /** GetLine's result code: 1 for a key and value, 2 for a section word,
      0 at the end of the patch or for a rejected line. */
  function Kind(l: Line): int
  {
    if l.KeyValue? then 1 else if l.ModeWord? then 2 else 0
  }

  /** A line with its leading white space gone. With an '=', the key runs
      to the last printable character before it and the value from the
      first printable character after it; either missing rejects the
      line. Without one, the first word is the section word and the rest,
      from its first printable character, its argument. */
  function ParseRest(R: seq<char>): Line
    requires R != []
  {
    match Find(R, '=')
    case Some(e) => KeyValueOf(R, e)
    case None => ModeWordOf(R)
  }

  /** The key-and-value reading of R around its '=' at e. */
  function KeyValueOf(R: seq<char>, e: nat): Line
    requires e < |R|
  {
    match LastAbove(R[..e])
    case None => Rejected
    case Some(k) =>
      var v := e + 1 + BlankRun(R[e + 1..]);
      if v == |R| then Rejected else KeyValue(R[..k + 1], R[v..])
  }

  /** The section-word reading of R. */
  function ModeWordOf(R: seq<char>): Line
    requires R != []
  {
    var j := 1 + WordRun(R[1..]);
    var v := if j < |R| then j + 1 + BlankRun(R[j + 1..]) else j;
    ModeWord(R[..j], R[v..])
  }

  /** Nothing printable before the '=' at eq: the line is rejected. */
  lemma KeyRejected(b: seq<char>, w: nat, eq: nat, e: nat)
    requires w <= eq < e < |b| && LastAbove(b[w..eq]).None?
    ensures KeyValueOf(b[w..e], eq - w) == Rejected
  {
    assert b[w..e][..eq - w] == b[w..eq];
  }

  /** The key ends at k, past which b0 is overwritten by a terminator, and
      the value starts at v: the halves of the line read from the new
      buffer b are the key and value KeyValueOf finds in the old one. */
  lemma KeySplit(b0: seq<char>, b: seq<char>, w: nat, eq: nat, e: nat, k: nat, v: nat)
    requires w <= k < eq < e < |b0| && b0[e] == NUL && NoNul(b0[w..e])
    requires LastAbove(b0[w..eq]) == Some(k - w)
    requires b == b0[k + 1 := NUL] && v == eq + 1 + BlankRun(b0[eq + 1..e])
    ensures b[e..] == b0[e..] && v <= e && (v < e <==> b[v] != NUL)
    ensures KeyValueOf(b0[w..e], eq - w) ==
              if v == e then Rejected else KeyValue(b0[w..k + 1], b0[v..e])
    ensures v < e ==> StrAt(b, w, b0[w..k + 1]) && StrAt(b, v, b0[v..e])
  {
    assert b[e..] == b0[e..];
    assert v < e ==> b[v] == b0[eq + 1..e][v - eq - 1] == b0[w..e][v - w];
    KeyValueSlices(b0, w, eq, e, k, v);
    if v < e {
      KeyHalves(b0, b, w, e, k, v);
    }
  }

  lemma KeyValueSlices(b0: seq<char>, w: nat, eq: nat, e: nat, k: nat, v: nat)
    requires w <= k < eq < e < |b0|
    requires LastAbove(b0[w..eq]) == Some(k - w)
    requires v == eq + 1 + BlankRun(b0[eq + 1..e])
    ensures KeyValueOf(b0[w..e], eq - w) ==
              if v == e then Rejected else KeyValue(b0[w..k + 1], b0[v..e])
  {
    var R := b0[w..e];
    SliceHead(b0, w, e, eq);
    SliceTail(b0, w, e, eq + 1);
    SliceHead(b0, w, e, k + 1);
    SliceTail(b0, w, e, v);
    KeyValueAt(R, eq - w, k - w, v - w, b0[w..k + 1], b0[v..e]);
  }

  /** Two buffers that agree from e on agree on any stretch there. */
  lemma SuffixSame(b0: seq<char>, b: seq<char>, e: nat, p: nat, n: nat)
    requires e <= p <= n < |b| == |b0| && b[e..] == b0[e..]
    ensures b[p..n] == b0[p..n] && b[n] == b0[n]
  {
    forall i | e <= i < |b|
      ensures b[i] == b0[i]
    {
      assert b[i] == b[e..][i - e] && b0[i] == b0[e..][i - e];
    }
  }

  lemma SliceOfSlice<T>(s: seq<T>, a: nat, b: nat, i: nat, j: nat)
    requires a <= b <= |s| && i <= j <= b - a
    ensures s[a..b][i..j] == s[a + i..a + j]
  {
    var x := s[a..b];
    assert |x[i..j]| == j - i == |s[a + i..a + j]|;
    forall k | 0 <= k < j - i
      ensures x[i..j][k] == s[a + i..a + j][k]
    {
      assert x[i..j][k] == x[i + k] == s[a + i + k];
    }
  }

  lemma KeyHalves(b0: seq<char>, b: seq<char>, w: nat, e: nat, k: nat, v: nat)
    requires w <= k && k + 1 < v < e < |b0| && b0[e] == NUL && b == b0[k + 1 := NUL]
    ensures StrAt(b, w, b0[w..k + 1]) && StrAt(b, v, b0[v..e])
  {
    assert b[w..k + 1] == b0[w..k + 1];
    assert b[v..e] == b0[v..e];
  }

  lemma KeyValueAt(R: seq<char>, x: nat, k: nat, v: nat, key: seq<char>, value: seq<char>)
    requires k < x < |R| && LastAbove(R[..x]) == Some(k)
    requires v == x + 1 + BlankRun(R[x + 1..])
    requires key == R[..k + 1] && value == R[v..]
    ensures KeyValueOf(R, x) == if v == |R| then Rejected else KeyValue(key, value)
  {
  }

  lemma ModeWordIs(R: seq<char>, j: nat, v: nat)
    requires 0 < j <= |R| && j == 1 + WordRun(R[1..])
    requires v == if j < |R| then j + 1 + BlankRun(R[j + 1..]) else j
    ensures ModeWordOf(R) == ModeWord(R[..j], R[v..])
  {
  }

  /** The mode-word split in sequence terms: the word from w is ended at
      j, where the first blank after it stood (or the line's own
      terminator), and the argument from v keeps the terminator at e. */
  lemma ModeSplit(b0: seq<char>, b: seq<char>, w: nat, j: nat, v: nat, e: nat)
    requires w < e < |b0| && b0[e] == NUL
    requires j == w + 1 + WordRun(b0[w + 1..e])
    requires (j < e && b == b0[j := NUL] && v == j + 1 + BlankRun(b[j + 1..e])) ||
             (j == e && b == b0 && v == e)
    ensures b[e..] == b0[e..]
    ensures var l := ModeWordOf(b0[w..e]);
            l.ModeWord? && StrAt(b, w, l.word) && StrAt(b, v, l.arg)
  {
    ModeWordAt(b0, w, j, v, e);
    if j < e {
      UpdateOutside(b0, j, NUL, j + 1, e);
      UpdateOutside(b0, j, NUL, w, j);
      UpdateOutside(b0, j, NUL, v, e);
      UpdateOutside(b0, j, NUL, e, |b0|);
    }
  }

  /** Writing one element leaves every stretch that does not hold it as
      it was. */
  lemma UpdateOutside<T>(s: seq<T>, j: nat, x: T, a: nat, c: nat)
    requires j < |s| && a <= c <= |s| && (j < a || c <= j)
    ensures s[j := x][a..c] == s[a..c]
    ensures c == |s| ==> s[j := x][a..] == s[a..]
  {
    var t := s[j := x];
    assert forall i :: a <= i < c ==> t[i] == s[i];
    assert t[a..c] == s[a..c];
  }

  /** ModeWordOf on the line from w to e, in terms of the buffer. */
  lemma ModeWordAt(b0: seq<char>, w: nat, j: nat, v: nat, e: nat)
    requires w < e <= |b0| && j == w + 1 + WordRun(b0[w + 1..e])
    requires v == if j < e then j + 1 + BlankRun(b0[j + 1..e]) else j
    ensures j <= v <= e && ModeWordOf(b0[w..e]) == ModeWord(b0[w..j], b0[v..e])
  {
    var R := b0[w..e];
    assert j - w == 1 + WordRun(R[1..]) by {
      SliceTail(b0, w, e, w + 1);
    }
    assert v - w == if j < e then j - w + 1 + BlankRun(R[j - w + 1..]) else j - w by {
      if j < e {
        SliceTail(b0, w, e, j + 1);
      }
    }
    assert R[..j - w] == b0[w..j] by {
      SliceHead(b0, w, e, j);
    }
    assert R[v - w..] == b0[v..e] by {
      SliceTail(b0, w, e, v);
    }
    ModeWordIs(R, j - w, v - w);
  }

  lemma TailOfSlice<T>(s: seq<T>, a: nat, b: nat, i: nat)
    requires a <= b <= |s| && i <= b - a
    ensures s[a..b][i..] == s[a + i..b]
  {
    SliceOfSlice(s, a, b, i, b - a);
  }

  /** A stretch of a stretch, by absolute positions. */
  lemma SliceTail<T>(s: seq<T>, a: nat, b: nat, m: nat)
    requires a <= m <= b <= |s|
    ensures s[a..b][m - a..] == s[m..b]
  {
    SliceOfSlice(s, a, b, m - a, b - a);
  }

  lemma SliceHead<T>(s: seq<T>, a: nat, b: nat, m: nat)
    requires a <= m <= b <= |s|
    ensures s[a..b][..m - a] == s[a..m]
  {
    SliceOfSlice(s, a, b, 0, m - a);
  }

  lemma HeadOfSlice<T>(s: seq<T>, a: nat, b: nat, i: nat)
    requires a <= b <= |s| && i <= b - a
    ensures s[a..b][..i] == s[a..a + i]
  {
    SliceOfSlice(s, a, b, 0, i);
  }

  /** A line beginning with '#' is a comment; one of white space only is
      passed over too. */
  function ParseLine(L: seq<char>): Line
  {
    if |L| > 0 && L[0] == '#' then Skipped
    else
      var R := L[SpaceRun(L)..];
      if R == [] then Skipped else ParseRest(R)
  }

  /** GetLine on the unread text r: the first line that is not passed
      over, parsed, and the text after it. */
  function GetLineSpec(r: seq<char>): (res: (Line, seq<char>))
    ensures !res.0.Skipped?
    ensures |res.1| <= |r|
    ensures res.0.EndOfPatch? || |res.1| < |r|
    decreases |r|
  {
    if r == [] then (EndOfPatch, [])
    else
      var l := ParseLine(r[..LineLen(r)]);
      if l.Skipped? then GetLineSpec(After(r)) else (l, After(r))
  }

  /** The halves GetLine finds in text free of terminators are free of
      them too. */
  lemma {:induction false} LineNoNul(r: seq<char>)
    requires NoNul(r)
    ensures var l := GetLineSpec(r).0;
            (l.KeyValue? ==> NoNul(l.key) && NoNul(l.value)) &&
            (l.ModeWord? ==> NoNul(l.word) && NoNul(l.arg))
    decreases |r|
  {
    if r != [] {
      var L := r[..LineLen(r)];
      NoNulHead(r, LineLen(r));
      if ParseLine(L).Skipped? {
        if LineLen(r) < |r| {
          NoNulTail(r, LineLen(r) + 1);
        }
        LineNoNul(After(r));
      } else {
        NoNulTail(L, SpaceRun(L));
        RestNoNul(L[SpaceRun(L)..]);
      }
    }
  }

  lemma RestNoNul(R: seq<char>)
    requires R != [] && NoNul(R)
    ensures var l := ParseRest(R);
            (l.KeyValue? ==> NoNul(l.key) && NoNul(l.value)) &&
            (l.ModeWord? ==> NoNul(l.word) && NoNul(l.arg))
  {
    match Find(R, '=')
    case Some(e) =>
      match LastAbove(R[..e]) {
        case None =>
        case Some(k) =>
          var v := e + 1 + BlankRun(R[e + 1..]);
          NoNulHead(R, k + 1);
          NoNulTail(R, v);
      }
    case None =>
      var j := 1 + WordRun(R[1..]);
      var v := if j < |R| then j + 1 + BlankRun(R[j + 1..]) else j;
      NoNulHead(R, j);
      NoNulTail(R, v);
  }

  /** The first line of r, found at line in b, is free of terminators;
      GetLineSpec takes it and goes on after it. */
  lemma LineOf(r: seq<char>, b: seq<char>, line: nat, pt: nat, n: nat)
    requires r != [] && NoNul(r) && line + LineLen(r) < |b|
    requires b[line..line + LineLen(r)] == r[..LineLen(r)]
    ensures NoNul(r[..LineLen(r)])
    ensures var l := ParseLine(r[..LineLen(r)]);
            GetLineSpec(r) == if l.Skipped? then GetLineSpec(After(r)) else (l, After(r))
  {
    var L := r[..LineLen(r)];
    assert forall j :: 0 <= j < |L| ==> L[j] == r[j];
  }

  /** A line found at line in b, terminated at e, that starts with '#' is
      passed over. */
  lemma LineComment(r: seq<char>, b: seq<char>, line: nat, e: nat)
    requires r != [] && e == line + LineLen(r) < |b| && b[line..e] == r[..LineLen(r)]
    requires b[line] == '#' && b[e] == NUL
    ensures GetLineSpec(r) == GetLineSpec(After(r))
  {
    assert r[..LineLen(r)][0] == b[line];
  }

  /** A line found at line in b, terminated at e, not a comment, with its
      leading spaces ending at w: passed over when nothing follows them,
      otherwise parsed from w on. */
  lemma LineBody(r: seq<char>, b: seq<char>, line: nat, e: nat, w: nat)
    requires r != [] && NoNul(r) && e == line + LineLen(r) < |b| && b[line..e] == r[..LineLen(r)]
    requires b[line] != '#' && b[e] == NUL && w == line + SpaceRun(b[line..e])
    ensures w <= e
    ensures b[w] == NUL ==> GetLineSpec(r) == GetLineSpec(After(r))
    ensures b[w] != NUL ==> w < e && NoNul(b[w..e]) && GetLineSpec(r) == (ParseRest(b[w..e]), After(r))
  {
    var L := r[..LineLen(r)];
    NoNulHead(r, LineLen(r));
    SliceTail(b, line, e, w);
    assert L[w - line..] == b[w..e];
    NoNulTail(L, w - line);
    assert L != [] ==> L[0] == b[line];
    assert w < e ==> b[w] == L[w - line] != NUL;
    assert ParseLine(L) == if b[w] == NUL then Skipped else ParseRest(b[w..e]);
  }

  lemma NoNulHead(r: seq<char>, k: nat)
    requires NoNul(r) && k <= |r|
    ensures NoNul(r[..k])
  {
    assert forall j :: 0 <= j < k ==> r[..k][j] == r[j];
  }

  /** A key and value written "key = value" read back as themselves: the
      key must start with a printable character other than '#', end with
      one and hold no '='; the value must start with a printable
      character. */
  lemma ParseKeyValue(key: seq<char>, value: seq<char>)
    requires key != [] && !AtMostSpace(key[0]) && key[0] != '#' && !AtMostSpace(key[|key| - 1])
    requires forall j :: 0 <= j < |key| ==> key[j] != '='
    requires value != [] && !AtMostSpace(value[0])
    ensures ParseLine(key + " = " + value) == KeyValue(key, value)
  {
    var L := key + " = " + value;
    assert L[0] == key[0];
    assert SpaceRun(L) == 0;
    assert L[..0 + |L|] == L;
    var e := |key| + 1;
    assert L[e] == '=';
    assert Find(L, '=') == Some(e);
    assert L[..e] == key + " ";
    assert LastAbove(L[..e]) == Some(|key| - 1) by {
      var u := L[..e];
      assert u[..|u| - 1] == key;
    }
    assert L[e + 1..] == " " + value;
    assert BlankRun(L[e + 1..]) == 1 by {
      assert (" " + value)[1..] == value;
    }
    assert L[e + 2..] == value;
    assert L[..|key|] == key;
  }

  /** A section word and its argument written "word arg" read back as
      themselves: the word must be printable characters other than '=',
      not starting with '#'; the argument must hold no '=' and start with
      a printable character. */
  lemma ParseModeWord(word: seq<char>, arg: seq<char>)
    requires word != [] && word[0] != '#'
    requires forall j :: 0 <= j < |word| ==> !AtMostSpace(word[j]) && word[j] != '='
    requires arg != [] && !AtMostSpace(arg[0])
    requires forall j :: 0 <= j < |arg| ==> arg[j] != '='
    ensures ParseLine(word + " " + arg) == ModeWord(word, arg)
  {
    var L := word + " " + arg;
    assert L[0] == word[0];
    assert SpaceRun(L) == 0;
    assert L[0..] == L;
    assert Find(L, '=') == None;
    assert WordRun(L[1..]) == |word| - 1 by {
      WordRunIs(L[1..], |word| - 1);
    }
    assert L[|word| + 1..] == arg;
    assert L[..|word|] == word;
  }

  lemma {:induction false} WordRunIs(u: seq<char>, k: nat)
    requires k <= |u| && (k < |u| ==> AtMostSpace(u[k]))
    requires forall j :: 0 <= j < k ==> !AtMostSpace(u[j])
    ensures WordRun(u) == k
    decreases k
  {
    if k > 0 {
      WordRunIs(u[1..], k - 1);
    }
  }

  /** The C string of b that starts at i is t: t's characters, then a
      terminator. */
  ghost predicate StrAt(b: seq<char>, i: nat, t: seq<char>)
  {
    i + |t| < |b| && b[i..i + |t|] == t && b[i + |t|] == NUL
  }

  /** Where the argument of a section word starts as written: the
      terminator after the word is stepped over even when it ends the
      line, so the scan goes on into the next line, or past the end of the
      patch when the word ends it. b is the whole buffer and j the end of
      the word. */
  function ModeArgAsWritten(b: seq<char>, j: nat): nat
    decreases |b| - j
  {
    SkipBlankFrom(b, j + 1)
  }

  function SkipBlankFrom(b: seq<char>, k: nat): (v: nat)
    ensures v >= k
    decreases |b| - k
  {
    if k < |b| && Blank(b[k]) then SkipBlankFrom(b, k + 1) else k
  }

  /** A section word on the last line: with "Text" at the end of the
      patch, the argument as written starts one past the terminator, that
      is past the end of the buffer. */
  lemma ModeArgOverrun()
    ensures ModeArgAsWritten("Text\0", 4) == |"Text\0"|
    ensures ParseLine("Text") == ModeWord("Text", [])
  {
    assert SkipBlankFrom("Text\0", 5) == 5;
    var L := "Text";
    assert SpaceRun(L) == 0 && L[0..] == L;
    assert Find(L, '=') == None by {
      assert Find(L[1..], '=') == None by {
        assert L[1..][1..][1..][1..] == [];
      }
    }
    assert WordRun(L[1..]) == 3 by {
      WordRunIs(L[1..], 3);
    }
    assert L[..4] == L && L[4..] == [];
  }

  /** A section word alone on its line: as written, its argument starts on
      the next line, here at "FOO = bar". */
  lemma ModeArgNextLine()
    ensures ModeArgAsWritten("[STRINGS]\0FOO = bar\0", 9) == 10
  {
  }

  // ----- Scanning a terminated string in place -----

  /** A stretch of str that a terminator at e closes. */
  ghost predicate Terminated(str: array<char>, i: nat, e: nat)
    reads str
  {
    i <= e < str.Length && str[e] == NUL
  }

  /** The comment and blank-line tests on the line r of the unread text,
      read into str at line and terminated at e: whether it is passed over,
      and where its text starts when it is not. */
  method LineStart(str: array<char>, line: nat, ghost e: nat, ghost r: seq<char>) returns (skip: bool, w: nat)
    requires r != [] && NoNul(r) && e == line + LineLen(r) < str.Length
    requires str[line..e] == r[..LineLen(r)] && str[e] == NUL
    ensures skip ==> GetLineSpec(r) == GetLineSpec(After(r))
    ensures !skip ==> Region(str, w, e) && w < e && GetLineSpec(r) == (ParseRest(str[w..e]), After(r))
  {
    skip, w := true, 0;
    if str[line] == '#' {
      LineComment(r, str[..], line, e);
    } else {
      w := SkipWhite(str, line, e);
      LineBody(r, str[..], line, e, w);
      skip := str[w] == NUL;
    }
  }

  /** A region of str holding a C string: from i up to the terminator at e. */
  ghost predicate Region(str: array<char>, i: nat, e: nat)
    reads str
  {
    i <= e < str.Length && str[e] == NUL && NoNul(str[i..e])
  }

  /** skipwhite: steps over leading isspace characters. */
  method SkipWhite(str: array<char>, i: nat, ghost e: nat) returns (w: nat)
    requires Terminated(str, i, e)
    ensures w == i + SpaceRun(str[i..e])
  {
    w := i;
    while str[w] != NUL && IsSpace(str[w])
      invariant i <= w <= e && forall j :: i <= j < w ==> IsSpace(str[j])
      decreases e - w
    {
      w := w + 1;
    }
    SpaceRunIs(str[i..e], w - i);
  }

  lemma {:induction false} SpaceRunIs(u: seq<char>, k: nat)
    requires k <= |u| && (k < |u| ==> !IsSpace(u[k]))
    requires forall j :: 0 <= j < k ==> IsSpace(u[j])
    ensures SpaceRun(u) == k
    decreases k
  {
    if k > 0 {
      SpaceRunIs(u[1..], k - 1);
    }
  }

  /** The string without its trailing isspace characters. */
  function TrimEnd(t: seq<char>): (r: seq<char>)
    ensures |r| <= |t| && r == t[..|r|]
    ensures r == [] || !IsSpace(r[|r| - 1])
    ensures forall j :: |r| <= j < |t| ==> IsSpace(t[j])
  {
    if t == [] || !IsSpace(t[|t| - 1]) then t else TrimEnd(t[..|t| - 1])
  }

  /** Trimming twice trims no more than once. */
  lemma TrimEndIdempotent(t: seq<char>)
    ensures TrimEnd(TrimEnd(t)) == TrimEnd(t)
  {
  }

  /** Trimming the string with white space appended gives the same. */
  lemma {:induction false} TrimEndSpaces(t: seq<char>, sp: seq<char>)
    requires forall j :: 0 <= j < |sp| ==> IsSpace(sp[j])
    ensures TrimEnd(t + sp) == TrimEnd(t)
    decreases |sp|
  {
    if sp != [] {
      var u := t + sp;
      assert u[..|u| - 1] == t + sp[..|sp| - 1];
      TrimEndSpaces(t, sp[..|sp| - 1]);
    } else {
      assert t + sp == t;
    }
  }

  /** stripwhite: ends the string after its last character that is not
      isspace; nothing else in str changes. */
  method StripWhite(str: array<char>, i: nat, ghost e: nat)
    requires Region(str, i, e)
    modifies str
    ensures str[..] == old(str[..])[i + |TrimEnd(old(str[i..e]))| := NUL]
  {
    ghost var t := str[i..e];
    var len := StrLen(str, i, e);
    var end: int := i + len - 1;
    while end >= i && IsSpace(str[end])
      invariant i - 1 <= end < e
      invariant forall j :: end < j < e ==> IsSpace(str[j])
      decreases end
    {
      end := end - 1;
    }
    TrimEndIs(t, end + 1 - i);
    str[end + 1] := NUL;
  }

  /** strlen: the distance to the terminator. */
  method StrLen(str: array<char>, i: nat, ghost e: nat) returns (len: nat)
    requires Region(str, i, e)
    ensures i + len == e
  {
    len := 0;
    while str[i + len] != NUL
      invariant i + len <= e
      invariant i + len < e ==> str[i..e][len] == str[i + len]
      decreases e - i - len
    {
      assert str[i..e][len] == str[i + len];
      len := len + 1;
    }
  }

  lemma {:induction false} TrimEndIs(t: seq<char>, k: nat)
    requires k <= |t| && (k == 0 || !IsSpace(t[k - 1]))
    requires forall j :: k <= j < |t| ==> IsSpace(t[j])
    ensures TrimEnd(t) == t[..k]
    decreases |t|
  {
    if k < |t| {
      TrimEndIs(t[..|t| - 1], k);
      assert t[..|t| - 1][..k] == t[..k];
    } else {
      assert t[..k] == t;
    }
  }

  /** Steps over separators, stopping at the terminator. */
  method SkipBlank(str: array<char>, i: nat, ghost e: nat) returns (v: nat)
    requires Terminated(str, i, e)
    ensures v == i + BlankRun(str[i..e])
  {
    v := i;
    while str[v] != NUL && AtMostSpace(str[v])
      invariant i <= v <= e && forall j :: i <= j < v ==> Blank(str[j])
      decreases e - v
    {
      v := v + 1;
    }
    BlankRunIs(str[i..e], v - i);
  }

  lemma {:induction false} BlankRunIs(u: seq<char>, k: nat)
    requires k <= |u| && (k < |u| ==> !Blank(u[k]))
    requires forall j :: 0 <= j < k ==> Blank(u[j])
    ensures BlankRun(u) == k
    decreases k
  {
    if k > 0 {
      BlankRunIs(u[1..], k - 1);
    }
  }

  /** Steps over printable characters; the terminator stops it as any
      character at or below the blank does. */
  method WordEnd(str: array<char>, i: nat, ghost e: nat) returns (j: nat)
    requires Terminated(str, i, e)
    ensures j == i + WordRun(str[i..e])
  {
    j := i;
    while !AtMostSpace(str[j])
      invariant i <= j <= e && forall k :: i <= k < j ==> !AtMostSpace(str[k])
      decreases e - j
    {
      j := j + 1;
    }
    WordRunIs(str[i..e], j - i);
  }

  /** strchr within the string: the offset of the first c from i. */
  method FindChar(str: array<char>, i: nat, ghost e: nat, c: char) returns (q: Option<nat>)
    requires Region(str, i, e) && c != NUL
    ensures q == Find(str[i..e], c)
  {
    var k := i;
    while str[k] != NUL && str[k] != c
      invariant i <= k <= e && forall j :: i <= j < k ==> str[j] != c
      decreases e - k
    {
      k := k + 1;
    }
    q := if str[k] == c then Some(k - i) else None;
    FindIs(str[i..e], c, q);
  }

  lemma FindIs(u: seq<char>, c: char, q: Option<nat>)
    requires q.Some? ==> q.value < |u| && u[q.value] == c
    requires forall j :: 0 <= j < |u| && (q.None? || j < q.value) ==> u[j] != c
    ensures q == Find(u, c)
  {
    var r := Find(u, c);
    if r.Some? && q.Some? {
      assert !(r.value < q.value) && !(q.value < r.value);
    }
  }

  /** Walks back from eq to the last printable character at or after w;
      w - 1 when there is none. */
  method BackToWord(str: array<char>, w: nat, eq: nat) returns (k: int)
    requires w <= eq < str.Length
    ensures LastAbove(str[w..eq]).None? ==> k == w - 1
    ensures LastAbove(str[w..eq]).Some? ==> k == w + LastAbove(str[w..eq]).value
  {
    k := eq - 1;
    while k >= w && AtMostSpace(str[k])
      invariant w - 1 <= k < eq
      invariant forall j :: k < j < eq ==> AtMostSpace(str[j])
      decreases k
    {
      k := k - 1;
    }
    ghost var u := str[w..eq];
    assert forall j :: w <= j < eq ==> u[j - w] == str[j];
  }

  // ----- Copying counted text -----

  /** The text without its carriage returns. */
  function DropCR(t: seq<char>): (r: seq<char>)
    ensures |r| <= |t|
  {
    if t == [] then []
    else if t[0] == '\r' then DropCR(t[1..])
    else [t[0]] + DropCR(t[1..])
  }

  /** ReadChars on the unread text r: size characters are copied, carriage
      returns not counted and not copied. The text copied, how much of r it
      took, and whether r held enough. */
  function CopyText(r: seq<char>, size: nat): (c: (seq<char>, nat, bool))
    ensures |c.0| <= size && c.1 <= |r|
    decreases |r|
  {
    if size == 0 then ([], 0, true)
    else if r == [] then ([], 0, false)
    else
      var c := CopyText(r[1..], if r[0] == '\r' then size else size - 1);
      (if r[0] == '\r' then c.0 else [r[0]] + c.0, c.1 + 1, c.2)
  }

  /** The copy is r, without its carriage returns, up to where it stopped:
      size characters when it succeeds, all of r when it comes up short. */
  lemma {:induction false} CopyTextIs(r: seq<char>, size: nat)
    ensures var c := CopyText(r, size);
            c.1 <= |r| && c.0 == DropCR(r[..c.1]) &&
            (c.2 ==> |c.0| == size) && (!c.2 ==> c.1 == |r| && |c.0| < size)
    decreases |r|
  {
    if size > 0 && r != [] {
      var size' := if r[0] == '\r' then size else size - 1;
      CopyTextIs(r[1..], size');
      var c := CopyText(r[1..], size');
      assert r[..c.1 + 1] == [r[0]] + r[1..][..c.1];
    }
  }

  /** The copy comes up short exactly when r, without its carriage
      returns, is shorter than size. */
  lemma CopyTextShort(r: seq<char>, size: nat)
    ensures !CopyText(r, size).2 <==> |DropCR(r)| < size
  {
    var c := CopyText(r, size);
    CopyTextIs(r, size);
    if c.2 {
      DropCRPrefix(r, c.1);
    } else {
      assert r[..c.1] == r;
    }
  }

  lemma {:induction false} DropCRPrefix(r: seq<char>, k: nat)
    requires k <= |r|
    ensures |DropCR(r[..k])| <= |DropCR(r)|
    decreases |r|
  {
    if k > 0 {
      DropCRPrefix(r[1..], k - 1);
      assert r[..k][1..] == r[1..][..k - 1];
    }
  }

  /** A copy made so far, i characters in, joined with the copy of the
      rest. */
  function Join(done: seq<char>, i: nat, c: (seq<char>, nat, bool)): (seq<char>, nat, bool)
  {
    (done + c.0, i + c.1, c.2)
  }

  lemma {:induction false} DropCRSnoc(t: seq<char>, x: char)
    ensures DropCR(t + [x]) == DropCR(t) + (if x == '\r' then [] else [x])
    decreases |t|
  {
    if t == [] {
      assert [x][1..] == [];
    } else {
      assert (t + [x])[1..] == t[1..] + [x];
      DropCRSnoc(t[1..], x);
      if t[0] != '\r' {
        ConcatAssoc([t[0]], DropCR(t[1..]), if x == '\r' then [] else [x]);
      }
    }
  }

  /** One character more of r taken into the copy. */
  lemma CopyAdvance(r: seq<char>, i: nat, left: nat)
    requires i < |r| && left > 0
    ensures r[i] == '\r' ==> DropCR(r[..i + 1]) == DropCR(r[..i])
    ensures r[i] != '\r' ==> DropCR(r[..i + 1]) == DropCR(r[..i]) + [r[i]]
    ensures Join(DropCR(r[..i]), i, CopyText(r[i..], left)) ==
            Join(DropCR(r[..i + 1]), i + 1, CopyText(r[i + 1..], if r[i] == '\r' then left else left - 1))
  {
    DropCRStep(r, i);
    CopyTextStep(r, i, left);
    JoinStep(DropCR(r[..i]), i, r[i], CopyText(r[i + 1..], if r[i] == '\r' then left else left - 1));
  }

  /** Moving one character from the rest of a copy to the part done. */
  lemma JoinStep(d: seq<char>, i: nat, x: char, c: (seq<char>, nat, bool))
    ensures Join(d, i, (if x == '\r' then c.0 else [x] + c.0, c.1 + 1, c.2)) ==
            Join(d + (if x == '\r' then [] else [x]), i + 1, c)
  {
    if x == '\r' {
      assert d + [] == d;
    } else {
      ConcatAssoc(d, [x], c.0);
    }
  }

  lemma DropCRStep(r: seq<char>, i: nat)
    requires i < |r|
    ensures r[i] == '\r' ==> DropCR(r[..i + 1]) == DropCR(r[..i])
    ensures r[i] != '\r' ==> DropCR(r[..i + 1]) == DropCR(r[..i]) + [r[i]]
    ensures DropCR(r[..i + 1]) == DropCR(r[..i]) + (if r[i] == '\r' then [] else [r[i]])
  {
    assert r[..i + 1] == r[..i] + [r[i]];
    DropCRSnoc(r[..i], r[i]);
    assert DropCR(r[..i]) + [] == DropCR(r[..i]);
  }

  lemma CopyTextStep(r: seq<char>, i: nat, left: nat)
    requires i < |r| && left > 0
    ensures var c := CopyText(r[i + 1..], if r[i] == '\r' then left else left - 1);
            CopyText(r[i..], left) == (if r[i] == '\r' then c.0 else [r[i]] + c.0, c.1 + 1, c.2)
  {
    var t := r[i..];
    assert t[0] == r[i] && t[1..] == r[i + 1..];
  }

  /** The copy stops when size characters are taken or r is used up. */
  lemma CopyDone(r: seq<char>, i: nat, left: nat)
    requires i <= |r| && (left == 0 || i == |r|)
    ensures Join(DropCR(r[..i]), i, CopyText(r[i..], left)) == (DropCR(r[..i]), i, left == 0)
  {
    assert DropCR(r[..i]) + [] == DropCR(r[..i]);
  }

  /** ReadChars' loop over buf from p0: characters are copied into str
      until size of them are taken or the terminator is reached. */
  method CopyLoop(buf: array<char>, str: array<char>, p0: nat, n: nat, size: nat, ghost r: seq<char>)
    returns (pt: nat, w: nat, left: nat)
    requires str != buf && p0 <= n < buf.Length && buf[n] == NUL && buf[p0..n] == r && NoNul(r)
    requires size < str.Length
    modifies str
    ensures p0 <= pt <= n && w + left == size && (left == 0 || pt == n)
    ensures str[..] == DropCR(r[..pt - p0]) + old(str[..])[w..] && |DropCR(r[..pt - p0])| == w
    ensures Join(DropCR(r[..pt - p0]), pt - p0, CopyText(r[pt - p0..], left)) == CopyText(r, size)
  {
    ghost var s0 := str[..];
    pt, w, left := p0, 0, size;
    assert r[..0] == [] && r[0..] == r && s0[0..] == s0;
    assert DropCR([]) + CopyText(r, size).0 == CopyText(r, size).0;
    while left > 0 && buf[pt] != NUL
      invariant p0 <= pt <= n && w + left == size
      invariant str[..] == DropCR(r[..pt - p0]) + s0[w..] && |DropCR(r[..pt - p0])| == w
      invariant Join(DropCR(r[..pt - p0]), pt - p0, CopyText(r[pt - p0..], left)) == CopyText(r, size)
      decreases n - pt
    {
      assert buf[pt] == buf[p0..n][pt - p0] == r[pt - p0];
      w, left := CopyOne(buf, str, pt, w, left, r, p0, s0);
      pt := pt + 1;
    }
    assert pt < n ==> buf[pt] == buf[p0..n][pt - p0] == r[pt - p0];
  }

  /** One pass of ReadChars' loop: the character at pt is copied to str
      at w unless it is a carriage return. */
  method CopyOne(buf: array<char>, str: array<char>, pt: nat, w: nat, left: nat,
                 ghost r: seq<char>, ghost p0: nat, ghost s0: seq<char>) returns (w': nat, left': nat)
    requires str != buf && p0 <= pt < p0 + |r| && pt < buf.Length && buf[pt] == r[pt - p0]
    requires left > 0 && w + left < str.Length == |s0|
    requires str[..] == DropCR(r[..pt - p0]) + s0[w..] && |DropCR(r[..pt - p0])| == w
    modifies str
    ensures w' + left' == w + left
    ensures str[..] == DropCR(r[..pt + 1 - p0]) + s0[w'..] && |DropCR(r[..pt + 1 - p0])| == w'
    ensures Join(DropCR(r[..pt - p0]), pt - p0, CopyText(r[pt - p0..], left)) ==
            Join(DropCR(r[..pt + 1 - p0]), pt + 1 - p0, CopyText(r[pt + 1 - p0..], left'))
  {
    ghost var i := pt - p0;
    CopyAdvance(r, i, left);
    w', left' := w, left;
    if buf[pt] != '\r' {
      ghost var s1 := str[..];
      str[w] := buf[pt];
      assert str[..] == s1[w := r[i]];
      WriteNext(DropCR(r[..i]), s0, w, r[i]);
      w', left' := w + 1, left - 1;
    }
  }

  /** One more character written after the copy made so far. */
  lemma WriteNext(d: seq<char>, s0: seq<char>, w: nat, x: char)
    requires |d| == w < |s0|
    ensures (d + s0[w..])[w := x] == (d + [x]) + s0[w + 1..]
  {
    var t := (d + s0[w..])[w := x];
    assert forall k :: 0 <= k < |t| ==> t[k] == ((d + [x]) + s0[w + 1..])[k];
  }

  /** The state ReadChars leaves: the copy terminated in str, the rest of
      str as it was, reading resumed in r just after the copied text. */
  lemma ReadCharsEnd(b0: seq<char>, p0: nat, pt: nat, n: nat, r: seq<char>, d: seq<char>,
                     s0: seq<char>, s: seq<char>)
    requires p0 <= pt <= n <= |b0| && r == b0[p0..n] && NoNul(r)
    requires |d| < |s0| && s == (d + [NUL]) + s0[|d| + 1..]
    ensures b0[pt..n] == r[pt - p0..] && NoNul(b0[pt..n])
    ensures s[..|d|] == d && s[|d|] == NUL && s[|d| + 1..] == s0[|d| + 1..]
  {
    SliceTail(b0, p0, n, pt);
    NoNulTail(r, pt - p0);
    assert s[..|d|] == d;
    assert s[|d| + 1..] == s0[|d| + 1..];
  }

  /** How far ReadChars as written moves through r: it never looks for
      the terminator, so once r is used up it goes on counting the
      terminator and whatever lies beyond it as characters copied. */
  function ConsumedAsWritten(r: seq<char>, size: nat): nat
    decreases |r|
  {
    if size == 0 then 0
    else if r == [] then size
    else 1 + ConsumedAsWritten(r[1..], if r[0] == '\r' then size else size - 1)
  }

  /** Asking for four characters with "ab" left: as written the copy moves
      two characters past the terminator, and still reports success. */
  lemma ReadCharsOverrun()
    ensures ConsumedAsWritten("ab", 4) == |"ab"| + 2
    ensures !CopyText("ab", 4).2
  {
    assert "ab"[1..][1..] == [];
  }

  /** Where ReadChars as written stays within r, it moves as far as the
      corrected copy. */
  lemma {:induction false} ConsumedAgrees(r: seq<char>, size: nat)
    requires |DropCR(r)| >= size
    ensures ConsumedAsWritten(r, size) == CopyText(r, size).1
    decreases |r|
  {
    if size > 0 && r != [] {
      ConsumedAgrees(r[1..], if r[0] == '\r' then size else size - 1);
    }
  }

  // ----- The patch being read -----

  /** The patch text and the reader's position in it: PatchFile, PatchPt,
      and the two halves of the last line GetLine split. */
  class Patch {
    /** The patch, with its terminator at n. */
    const buf: array<char>
    const n: nat
    var pt: nat
    var line1: nat
    var line2: nat

    ghost predicate Valid()
      reads this, buf
    {
      n < buf.Length && buf[n] == NUL && pt <= n && NoNul(buf[pt..n])
    }

    /** The unread text. */
    ghost function Rest(): seq<char>
      reads this, buf
      requires Valid()
    {
      buf[pt..n]
    }

    /** The patch file's contents with a terminator appended, read from the
        start. */
    constructor (text: seq<char>)
      requires NoNul(text)
      ensures Valid() && Rest() == text && fresh(buf)
    {
      var b := new char[|text| + 1](i => if 0 <= i < |text| then text[i] else NUL);
      assert b[0..|text|] == text;
      buf := b;
      n := |text|;
      pt := 0;
      line1, line2 := 0, 0;
    }

    /** igets: the next line, its newline overwritten by a terminator; none
        at the end of the patch. */
    method Igets() returns (line: nat, got: bool)
      requires Valid()
      modifies this`pt, buf
      ensures Valid()
      ensures got <==> old(Rest()) != []
      ensures !got ==> pt == old(pt) && unchanged(buf)
      ensures got ==> line == old(pt) &&
                      var r := old(Rest()); var k := LineLen(r);
                      line + k <= n && buf[line..line + k] == r[..k] && buf[line + k] == NUL &&
                      Rest() == After(r) && line + k <= pt &&
                      buf[..] == if k < |r| then old(buf[..])[line + k := NUL] else old(buf[..])
      ensures got ==> Terminated(buf, line, line + LineLen(old(Rest())))
    {
      assert pt < n ==> buf[pt..n][0] == buf[pt];
      if buf[pt] == NUL {
        return 0, false;
      }
      ghost var b0 := buf[..];
      ghost var r := buf[pt..n];
      line := pt;
      while buf[pt] != '\n' && buf[pt] != NUL
        invariant line <= pt <= n && buf[..] == b0
        invariant forall i :: line <= i < pt ==> buf[i] == r[i - line] && r[i - line] != '\n'
        decreases n - pt
      {
        assert buf[pt] == r[pt - line];
        pt := pt + 1;
      }
      assert pt < n ==> buf[pt] == r[pt - line];
      LineLenIs(r, pt - line);
      if buf[pt] == '\n' {
        buf[pt] := NUL;
        pt := pt + 1;
      }
      LineCut(b0, buf[..], line, LineLen(r), pt, n, r);
      got := true;
    }

    /** The line from w to its terminator at e split as ParseRest says,
        line1 and line2 set to the two halves, each terminated in place.
        Nothing from e on changes. */
    method SplitLine(w: nat, ghost e: nat) returns (kind: int)
      requires Valid() && Region(buf, w, e) && w < e <= pt
      modifies buf, this`line1, this`line2
      ensures var l := ParseRest(old(buf[w..e]));
              kind == Kind(l) && Valid() && Rest() == old(Rest()) && Halves(l)
    {
      ghost var b0 := buf[..];
      var q := FindChar(buf, w, e, '=');
      if q.Some? {
        kind := SplitKeyValue(w, w + q.value, e);
      } else {
        kind := SplitModeWord(w, e);
      }
      SuffixSame(b0, buf[..], e, pt, n);
    }

    /** line1 and line2 hold the two halves of l. */
    ghost predicate Halves(l: Line)
      reads this, buf
    {
      (l.KeyValue? ==> StrAt(buf[..], line1, l.key) && StrAt(buf[..], line2, l.value)) &&
      (l.ModeWord? ==> StrAt(buf[..], line1, l.word) && StrAt(buf[..], line2, l.arg))
    }

    /** The '=' branch: the key is ended after its last printable
        character, the value starts at the first printable character after
        the '='. */
    method SplitKeyValue(w: nat, eq: nat, ghost e: nat) returns (kind: int)
      requires Region(buf, w, e) && w <= eq < e && buf[eq] == '='
      modifies buf, this`line1, this`line2
      ensures var l := KeyValueOf(old(buf[w..e]), eq - w);
              kind == Kind(l) && buf[e..] == old(buf[e..]) && Halves(l)
    {
      ghost var b0 := buf[..];
      var k := BackToWord(buf, w, eq);
      if k < w {
        KeyRejected(b0, w, eq, e);
        return 0;
      }
      buf[k + 1] := NUL;
      assert buf[eq + 1..e] == b0[eq + 1..e];
      var v := SkipBlank(buf, eq + 1, e);
      KeySplit(b0, buf[..], w, eq, e, k, v);
      if buf[v] == NUL {
        return 0;
      }
      line1, line2 := w, v;
      kind := 1;
    }

    /** The branch without '=': the first word is ended in place and the
        argument starts at the first printable character after it, or is
        empty when the word ends the line. */
    method SplitModeWord(w: nat, ghost e: nat) returns (kind: int)
      requires Region(buf, w, e) && w < e
      modifies buf, this`line1, this`line2
      ensures var l := ModeWordOf(old(buf[w..e]));
              kind == Kind(l) && buf[e..] == old(buf[e..]) && Halves(l)
    {
      ghost var b0 := buf[..];
      var j := WordEnd(buf, w + 1, e);
      var v := j;
      assert j < e ==> buf[j] == buf[w..e][j - w];
      if buf[j] != NUL {
        buf[j] := NUL;
        v := SkipBlank(buf, j + 1, e);
      }
      ModeSplit(b0, buf[..], w, j, v, e);
      line1, line2 := w, v;
      kind := 2;
    }

    /** One line through igets and the comment and blank-line tests:
        whether it is passed over, and where its text starts and ends when
        it is not. */
    method NextLine() returns (got: bool, skip: bool, w: nat, ghost e: nat)
      requires Valid()
      modifies this`pt, buf
      ensures Valid()
      ensures !got ==> old(Rest()) == [] && Rest() == []
      ensures got ==> |Rest()| < |old(Rest())|
      ensures got && skip ==> GetLineSpec(Rest()) == GetLineSpec(old(Rest()))
      ensures got && !skip ==> Region(buf, w, e) && w < e <= pt &&
                               GetLineSpec(old(Rest())) == (ParseRest(buf[w..e]), Rest())
    {
      ghost var r := Rest();
      var line;
      skip, w, e := true, 0, 0;
      line, got := Igets();
      if !got {
        return;
      }
      e := line + LineLen(r);
      LineOf(r, buf[..], line, pt, n);
      skip, w := LineStart(buf, line, e, r);
    }

    /** GetLine: reads lines until one that is neither a comment nor
        blank, and splits it. The result code and the halves line1 and
        line2 are what GetLineSpec makes of the unread text; reading
        resumes after that line. This is the corrected reader: a section
        word that ends its line leaves line2 empty (ModeArgAsWritten is
        the reader as written). */
    method GetLine() returns (kind: int)
      requires Valid()
      modifies this, buf
      ensures Valid()
      ensures var res := GetLineSpec(old(Rest()));
              kind == Kind(res.0) && Rest() == res.1 && Halves(res.0)
    {
      ghost var r0 := Rest();
      var got, skip, w;
      ghost var e;
      while true
        invariant Valid() && GetLineSpec(Rest()) == GetLineSpec(r0)
        decreases n - pt
      {
        got, skip, w, e := NextLine();
        if !got {
          return 0;
        }
        if !skip {
          break;
        }
      }
      kind := SplitLine(w, e);
    }

    /** ReadChars: copies size characters of the unread text into str,
        passing over carriage returns without counting them, and
        terminates the copy. This is the corrected reader: it stops at the
        end of the patch and reports false when the text runs out
        (ConsumedAsWritten is the reader as written). */
    method ReadChars(str: array<char>, size: nat) returns (ok: bool)
      requires Valid() && str != buf && size < str.Length
      modifies str, this`pt
      ensures Valid()
      ensures var c := CopyText(old(Rest()), size);
              ok == c.2 && pt == old(pt) + c.1 && Rest() == old(Rest())[c.1..] &&
              str[..|c.0|] == c.0 && str[|c.0|] == NUL && str[|c.0| + 1..] == old(str[|c.0| + 1..])
    {
      ghost var r := Rest();
      ghost var p0 := pt;
      ghost var b0 := buf[..];
      ghost var s0 := str[..];
      var w, left;
      pt, w, left := CopyLoop(buf, str, pt, n, size, r);
      ghost var i := pt - p0;
      ok := left == 0;
      ghost var s1 := str[..];
      str[w] := NUL;
      assert str[..] == s1[w := NUL];
      WriteNext(DropCR(r[..i]), s0, w, NUL);
      CopyDone(r, i, left);
      assert CopyText(r, size) == (DropCR(r[..i]), i, ok);
      ReadCharsEnd(b0, p0, pt, n, r, DropCR(r[..i]), s0, str[..]);
      assert buf[pt..n] == b0[pt..n];
      assert Valid() && Rest() == r[i..];
      assert str[w + 1..] == s0[w + 1..];
    }
  }
}
