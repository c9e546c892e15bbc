/** Console text: AddCommandString, which splits a line into commands at
    the semicolons outside double quotes, and ParseCommandLine, which splits
    one command into its arguments. A separator is any character the plain
    char test `c <= ' '` passes. */
module ConsoleText {
  import opened Wrappers
  import opened CText

  /** A character the test `c <= ' '` treats as a separator. */
  predicate Blank(c: char)
  {
    AtMostSpace(c)
  }

  // ----- Splitting a line into commands -----

  /** Where the quoted stretch whose first character is at k ends: the first
      double quote not preceded by a backslash, or the end of the string. */
  function QuoteEnd(s: seq<char>, k: nat): (e: nat)
    requires 1 <= k <= |s|
    ensures k <= e <= |s|
    ensures e < |s| ==> s[e] == '"' && s[e - 1] != '\\'
    decreases |s| - k
  {
    if k == |s| || (s[k] == '"' && s[k - 1] != '\\') then k else QuoteEnd(s, k + 1)
  }

  /** The scan for the end of the command that starts at i, as written:
      it stops at the first ';' or terminator outside quotes. After a quote
      that is never closed it steps over the terminator; that outcome is
      reported as |s| + 1, and from there on the scan reads past the
      string. */
  function BreakAsWritten(s: seq<char>, i: nat): nat
    requires i <= |s|
    decreases |s| - i
  {
    if i == |s| || s[i] == ';' then i
    else if s[i] == '"' then
      var e := QuoteEnd(s, i + 1);
      if e == |s| then |s| + 1 else BreakAsWritten(s, e + 1)
    else BreakAsWritten(s, i + 1)
  }

  /** The scan with an unclosed quote stopping at the terminator. */
  function Break(s: seq<char>, i: nat): (b: nat)
    requires i <= |s|
    ensures i <= b <= |s| && (b < |s| ==> s[b] == ';')
    decreases |s| - i
  {
    if i == |s| || s[i] == ';' then i
    else if s[i] == '"' then
      var e := QuoteEnd(s, i + 1);
      if e == |s| then |s| else Break(s, e + 1)
    else Break(s, i + 1)
  }

  /** The scan as written and the corrected one agree wherever the scan as
      written stays inside the string; where it does not, the corrected
      scan stops at the terminator. */
  lemma {:induction false} BreakAgrees(s: seq<char>, i: nat)
    requires i <= |s|
    ensures BreakAsWritten(s, i) <= |s| ==> BreakAsWritten(s, i) == Break(s, i)
    ensures BreakAsWritten(s, i) > |s| ==> Break(s, i) == |s|
    decreases |s| - i
  {
    if i == |s| || s[i] == ';' {
    } else if s[i] == '"' {
      var e := QuoteEnd(s, i + 1);
      if e < |s| {
        BreakAgrees(s, e + 1);
      }
    } else {
      BreakAgrees(s, i + 1);
    }
  }

  /** `say "hi` has a quote that is never closed: the scan as written steps
      over the terminator. */
  lemma UnclosedQuoteOverrun()
    ensures BreakAsWritten("say \"hi", 0) == |"say \"hi"| + 1
  {
    var s := "say \"hi";
    assert QuoteEnd(s, 5) == 7 by {
      assert QuoteEnd(s, 7) == 7;
      assert QuoteEnd(s, 6) == QuoteEnd(s, 7);
    }
    assert BreakAsWritten(s, 4) == 8;
    assert BreakAsWritten(s, 0) == BreakAsWritten(s, 1) == BreakAsWritten(s, 2) == BreakAsWritten(s, 3) == BreakAsWritten(s, 4);
  }

  /** The commands of s from i: the stretches between the breaks. */
  function Split(s: seq<char>, i: nat): (segs: seq<seq<char>>)
    requires i <= |s|
    ensures |segs| >= 1
    decreases |s| - i
  {
    var b := Break(s, i);
    if b == |s| then [s[i..]] else [s[i..b]] + Split(s, b + 1)
  }

  /** The segments put back together with ';' between them. */
  function Join(segs: seq<seq<char>>): seq<char>
  {
    if segs == [] then []
    else if |segs| == 1 then segs[0]
    else segs[0] + [';'] + Join(segs[1..])
  }

  /** Splitting at the breaks and joining with ';' gives the line back. */
  lemma {:induction false} SplitJoin(s: seq<char>, i: nat)
    requires i <= |s|
    ensures Join(Split(s, i)) == s[i..]
    decreases |s| - i
  {
    var b := Break(s, i);
    if b < |s| {
      var segs := Split(s, i);
      var rest := Split(s, b + 1);
      assert segs == [s[i..b]] + rest;
      assert segs[1..] == rest;
      assert Join(segs) == s[i..b] + [';'] + Join(rest);
      SplitJoin(s, b + 1);
      assert s[i..] == s[i..b] + [';'] + s[b + 1..];
    } else {
      assert Split(s, i) == [s[i..]];
    }
  }

  /** The leading separators of t dropped. */
  function TrimBlank(t: seq<char>): (r: seq<char>)
    ensures |r| <= |t|
    ensures r != [] ==> !Blank(r[0])
  {
    if t != [] && Blank(t[0]) then TrimBlank(t[1..]) else t
  }

  /** A wait command: "wait" alone, or followed by a blank. */
  predicate IsWait(c: seq<char>)
  {
    |c| >= 4 && c[0] == 'w' && c[1] == 'a' && c[2] == 'i' && c[3] == 't' && (|c| == 4 || c[4] == ' ')
  }

  /** The tic count of a wait command: 1 when none is given, otherwise what
      strtol makes of the text after "wait ". */
  function WaitTics(c: seq<char>, strtol: seq<char> -> int): int
    requires IsWait(c)
  {
    if |c| == 4 then 1 else strtol(c[5..])
  }

  /** What one call of AddCommandString does: the commands it hands to
      C_DoCommand, in order, and the text and tic count of the waiting
      command it creates, if any. */
  datatype Outcome = Outcome(run: seq<seq<char>>, deferred: Option<(seq<char>, int)>)

  /** The commands of s from i, each with its leading separators dropped;
      empty ones are skipped. A wait with a positive tic count ends the
      call: the rest of the line, from the ';' after the wait, becomes a
      waiting command. A wait with no positive count is skipped. */
  function Process(s: seq<char>, i: nat, strtol: seq<char> -> int): Outcome
    requires i <= |s|
    decreases |s| - i
  {
    if i == |s| then Outcome([], None)
    else
      var b := Break(s, i);
      var c := TrimBlank(s[i..b]);
      if IsWait(c) && WaitTics(c, strtol) > 0 then
        Outcome([], if b < |s| then Some((s[b..], WaitTics(c, strtol) + 1)) else None)
      else
        var now := if c == [] || IsWait(c) then [] else [c];
        var rest := if b < |s| then Process(s, b + 1, strtol) else Outcome([], None);
        Outcome(now + rest.run, rest.deferred)
  }

  /** The non-empty segments, leading separators dropped. */
  function Commands(segs: seq<seq<char>>): seq<seq<char>>
  {
    if segs == [] then []
    else (if TrimBlank(segs[0]) == [] then [] else [TrimBlank(segs[0])]) + Commands(segs[1..])
  }

  /** Without wait commands, AddCommandString runs every segment of the
      line that is not blank, in order, and defers nothing. */
  lemma {:induction false} ProcessRunsSegments(s: seq<char>, i: nat, strtol: seq<char> -> int)
    requires i <= |s|
    requires forall k :: 0 <= k < |Split(s, i)| ==> !IsWait(TrimBlank(Split(s, i)[k]))
    ensures Process(s, i, strtol) == Outcome(Commands(Split(s, i)), None)
    decreases |s| - i
  {
    var b := Break(s, i);
    var segs := Split(s, i);
    assert !IsWait(TrimBlank(segs[0]));
    if i == |s| {
      assert segs == [[]];
      assert Commands(segs) == [] + Commands(segs[1..]);
    } else if b < |s| {
      var rest := Split(s, b + 1);
      assert segs == [s[i..b]] + rest;
      assert segs[1..] == rest;
      forall k | 0 <= k < |rest|
        ensures !IsWait(TrimBlank(rest[k]))
      {
        assert rest[k] == segs[k + 1];
      }
      ProcessRunsSegments(s, b + 1, strtol);
      var c := TrimBlank(s[i..b]);
      assert Commands(segs) == (if c == [] then [] else [c]) + Commands(rest);
    } else {
      assert segs == [s[i..]] && s[i..b] == s[i..];
      assert segs[1..] == [];
      assert Commands(segs) == (if TrimBlank(s[i..]) == [] then [] else [TrimBlank(s[i..])]) + Commands(segs[1..]);
    }
  }

  /** The corrected scan for the end of the command that starts at cmd. */
  method FindBreak(buf: array<char>, n: nat, cmd: nat) returns (brkpt: nat)
    requires cmd <= n < buf.Length && buf[n] == NUL && NoNul(buf[..n])
    ensures brkpt == Break(buf[..n], cmd)
  {
    ghost var s := buf[..n];
    assert forall k :: 0 <= k < n ==> buf[k] == s[k] && buf[k] != NUL;
    brkpt := cmd;
    while buf[brkpt] != ';' && buf[brkpt] != NUL
      invariant cmd <= brkpt <= n
      invariant Break(s, brkpt) == Break(s, cmd)
      decreases n - brkpt
    {
      if buf[brkpt] == '"' {
        ghost var q := brkpt;
        brkpt := brkpt + 1;
        while buf[brkpt] != NUL && (buf[brkpt] != '"' || buf[brkpt - 1] == '\\')
          invariant q + 1 <= brkpt <= n
          invariant QuoteEnd(s, brkpt) == QuoteEnd(s, q + 1)
          decreases n - brkpt
        {
          brkpt := brkpt + 1;
        }
        if buf[brkpt] == NUL {
          break;
        }
      }
      brkpt := brkpt + 1;
    }
  }

  /** AddCommandString on the line held in buf[..n], terminated at n. Each
      ';' that ends a command is overwritten with the terminator while the
      command is handled and written back afterwards, so the buffer ends as
      it started. */
  method AddCommandString(buf: array<char>, n: nat, strtol: seq<char> -> int)
    returns (run: seq<seq<char>>, deferred: Option<(seq<char>, int)>)
    requires n < buf.Length && buf[n] == NUL && NoNul(buf[..n])
    modifies buf
    ensures unchanged(buf)
    ensures Outcome(run, deferred) == Process(old(buf[..n]), 0, strtol)
  {
    ghost var s := buf[..n];
    ghost var total := Process(s, 0, strtol);
    run, deferred := [], None;
    var cmd: nat := 0;
    assert forall k :: 0 <= k < n ==> buf[k] == s[k];
    while buf[cmd] != NUL
      invariant cmd <= n && unchanged(buf) && buf[..n] == s && deferred.None?
      invariant forall k :: 0 <= k < n ==> buf[k] != NUL
      invariant total == Outcome(run + Process(s, cmd, strtol).run, Process(s, cmd, strtol).deferred)
      decreases n - cmd
    {
      var next, stop;
      next, run, stop, deferred := StepCommand(buf, n, cmd, strtol, s, total, run);
      if stop {
        assert old(buf[..n]) == s;
        return;
      }
      cmd := next;
    }
    assert run + [] == run;
    assert old(buf[..n]) == s;
  }

  /** One command of AddCommandString: either a wait that stops the line,
      with what is left of it deferred, or a command run (when it is not
      blank and not a wait) and the position after its break. */
  method StepCommand(buf: array<char>, n: nat, cmd: nat, strtol: seq<char> -> int,
                     ghost s: seq<char>, ghost total: Outcome, run0: seq<seq<char>>)
    returns (next: nat, run: seq<seq<char>>, stop: bool, deferred: Option<(seq<char>, int)>)
    requires cmd < n < buf.Length && buf[n] == NUL && s == buf[..n] && NoNul(s)
    requires total == Outcome(run0 + Process(s, cmd, strtol).run, Process(s, cmd, strtol).deferred)
    modifies buf
    ensures unchanged(buf)
    ensures stop ==> total == Outcome(run, deferred)
    ensures !stop ==> deferred.None? && cmd < next <= n &&
                      total == Outcome(run + Process(s, next, strtol).run, Process(s, next, strtol).deferred)
  {
    var brkpt, more, text, wait, tics := NextCommand(buf, n, cmd, strtol, s);
    ProcessAdvance(s, cmd, strtol, total, run0, text, wait, tics);
    run, deferred := run0, None;
    if wait && tics > 0 {
      if more {
        deferred := Some((buf[brkpt..n], tics + 1));
        assert buf[brkpt..n] == s[brkpt..];
      }
      return brkpt, run, true, deferred;
    }
    if text != [] && !wait {
      run := run + [text];
    }
    next := if more then brkpt + 1 else brkpt;
    stop := false;
  }

  /** The command that starts at cmd: finds its break, overwrites a ';'
      there with the terminator while the command is read, and writes it
      back. */
  method NextCommand(buf: array<char>, n: nat, cmd: nat, strtol: seq<char> -> int, ghost s: seq<char>)
    returns (brkpt: nat, more: bool, text: seq<char>, wait: bool, tics: int)
    requires cmd <= n < buf.Length && buf[n] == NUL && s == buf[..n] && NoNul(s)
    modifies buf
    ensures unchanged(buf)
    ensures brkpt == Break(s, cmd) && (more <==> brkpt < n)
    ensures text == TrimBlank(s[cmd..brkpt])
    ensures (wait <==> IsWait(text)) && (wait ==> tics == WaitTics(text, strtol))
  {
    brkpt := FindBreak(buf, n, cmd);
    more := buf[brkpt] == ';';
    ghost var seg := buf[cmd..brkpt];
    assert forall k :: cmd <= k < brkpt ==> buf[k] == s[k];
    assert seg == s[cmd..brkpt];
    if more {
      buf[brkpt] := NUL;
    }
    assert buf[cmd..brkpt] == seg;
    text, wait, tics := ReadCommand(buf, cmd, brkpt, strtol);
    if more {
      buf[brkpt] := ';';
    }
    assert buf[..] == old(buf[..]);
  }

  /** Process from i: the command that starts at i, then the rest. */
  lemma ProcessStep(s: seq<char>, i: nat, strtol: seq<char> -> int, text: seq<char>, wait: bool, tics: int)
    requires i < |s| && text == TrimBlank(s[i..Break(s, i)])
    requires (wait <==> IsWait(text)) && (wait ==> tics == WaitTics(text, strtol))
    ensures var b := Break(s, i);
            var next := if b < |s| then b + 1 else b;
            if wait && tics > 0 then
              Process(s, i, strtol) == Outcome([], if b < |s| then Some((s[b..], tics + 1)) else None)
            else
              Process(s, i, strtol) ==
              Outcome((if text != [] && !wait then [text] else []) + Process(s, next, strtol).run,
                      Process(s, next, strtol).deferred)
  {
  }

  /** How the outcome accumulated so far advances past the command that
      starts at i. */
  lemma ProcessAdvance(s: seq<char>, i: nat, strtol: seq<char> -> int, total: Outcome,
                       run: seq<seq<char>>, text: seq<char>, wait: bool, tics: int)
    requires i < |s| && text == TrimBlank(s[i..Break(s, i)])
    requires (wait <==> IsWait(text)) && (wait ==> tics == WaitTics(text, strtol))
    requires total == Outcome(run + Process(s, i, strtol).run, Process(s, i, strtol).deferred)
    ensures var b := Break(s, i);
            if wait && tics > 0 then
              total == Outcome(run, if b < |s| then Some((s[b..], tics + 1)) else None)
            else
              var next := if b < |s| then b + 1 else b;
              var run' := if text != [] && !wait then run + [text] else run;
              total == Outcome(run' + Process(s, next, strtol).run, Process(s, next, strtol).deferred)
  {
    ProcessStep(s, i, strtol, text, wait, tics);
    var b := Break(s, i);
    var next := if b < |s| then b + 1 else b;
    var rest := Process(s, next, strtol);
    if wait && tics > 0 {
      assert run + [] == run;
    } else if text != [] && !wait {
      ConcatAssoc(run, [text], rest.run);
    } else {
      assert [] + rest.run == rest.run;
    }
  }

  /** The command stretch buf[cmd..brkpt], terminated at brkpt: its leading
      separators dropped, whether it is a wait command, and that wait's tic
      count. */
  method ReadCommand(buf: array<char>, cmd: nat, brkpt: nat, strtol: seq<char> -> int)
    returns (text: seq<char>, wait: bool, tics: int)
    requires cmd <= brkpt < buf.Length && buf[brkpt] == NUL
    requires forall k :: cmd <= k < brkpt ==> buf[k] != NUL
    ensures text == TrimBlank(buf[cmd..brkpt])
    ensures wait <==> IsWait(text)
    ensures wait ==> tics == WaitTics(text, strtol)
  {
    var c := cmd;
    while buf[c] != NUL && AtMostSpace(buf[c])
      invariant cmd <= c <= brkpt
      invariant TrimBlank(buf[c..brkpt]) == TrimBlank(buf[cmd..brkpt])
      decreases brkpt - c
    {
      assert buf[c..brkpt][1..] == buf[c + 1..brkpt];
      c := c + 1;
    }
    text := buf[c..brkpt];
    wait, tics := false, 0;
    if buf[c] != NUL && buf[c] == 'w' && buf[c + 1] == 'a' && buf[c + 2] == 'i' && buf[c + 3] == 't' &&
       (buf[c + 4] == NUL || buf[c + 4] == ' ') {
      wait := true;
      tics := if buf[c + 4] == ' ' then strtol(buf[c + 5..brkpt]) else 1;
      assert buf[c + 4] == ' ' ==> text[5..] == buf[c + 5..brkpt];
    }
  }

  // ----- Splitting a command into arguments -----

  /** The length of the run at the head of u that is neither a separator
      nor a double quote. */
  function WordRun(u: seq<char>): (n: nat)
    ensures n <= |u|
    ensures forall j :: 0 <= j < n ==> !Blank(u[j]) && u[j] != '"'
    ensures n < |u| ==> Blank(u[n]) || u[n] == '"'
  {
    if u != [] && !Blank(u[0]) && u[0] != '"' then 1 + WordRun(u[1..]) else 0
  }

  /** The text of a quoted argument, read after its opening quote, and what
      follows its closing quote. \" stands for a double quote. An
      unclosed quote ends at the terminator. */
  function Quoted(t: seq<char>): (r: (seq<char>, seq<char>))
    ensures |r.1| <= |t|
    decreases |t|
  {
    if t == [] then ([], [])
    else if t[0] == '\\' && |t| > 1 && t[1] == '"' then
      var r := Quoted(t[2..]);
      (['"'] + r.0, r.1)
    else if t[0] == '"' then ([], t[1..])
    else
      var r := Quoted(t[1..]);
      ([t[0]] + r.0, r.1)
  }

  /** Whether a quoted argument, read after its opening quote, is closed by
      a double quote before the terminator. */
  predicate Closed(t: seq<char>)
    decreases |t|
  {
    if t == [] then false
    else if t[0] == '\\' && |t| > 1 && t[1] == '"' then Closed(t[2..])
    else t[0] == '"' || Closed(t[1..])
  }

  /** The characters the quoted-argument loop as written consumes after the
      opening quote, a terminator it reads included. Without a closing
      quote it reads the terminator and steps past it: the count is then
      |t| + 1 and the next scan starts past the string. */
  function QuotedConsumedAsWritten(t: seq<char>): nat
    decreases |t|
  {
    if t == [] then 1
    else if t[0] == '\\' && |t| > 1 && t[1] == '"' then 2 + QuotedConsumedAsWritten(t[2..])
    else if t[0] == '"' then 1
    else 1 + QuotedConsumedAsWritten(t[1..])
  }

  /** The loop as written stays inside the string exactly when the quote is
      closed, and then consumes what the corrected reading consumes;
      otherwise it steps one past the terminator, where the corrected
      reading stops at it. */
  lemma {:induction false} QuotedAgrees(t: seq<char>)
    ensures Closed(t) ==> QuotedConsumedAsWritten(t) == |t| - |Quoted(t).1|
    ensures !Closed(t) ==> QuotedConsumedAsWritten(t) == |t| + 1 && Quoted(t).1 == []
    decreases |t|
  {
    if t == [] {
    } else if t[0] == '\\' && |t| > 1 && t[1] == '"' {
      QuotedAgrees(t[2..]);
    } else if t[0] == '"' {
    } else {
      QuotedAgrees(t[1..]);
    }
  }

  /** `"abc` has a quote that is never closed: the loop as written consumes
      four characters of a three-character string. */
  lemma UnclosedArgumentOverrun()
    ensures QuotedConsumedAsWritten("abc") == |"abc"| + 1
  {
    assert QuotedConsumedAsWritten("c") == 2 by {
      assert "c"[1..] == [];
    }
    assert "abc"[1..] == "bc" && "bc"[1..] == "c";
  }

  /** $name stands for the value of the console variable name, when there
      is one; any other word stands for itself. */
  function Subst(w: seq<char>, cvar: seq<char> -> Option<seq<char>>): seq<char>
  {
    if w != [] && w[0] == '$' && cvar(w[1..]).Some? then cvar(w[1..]).value else w
  }

  /** The arguments of a command line: separated by separators, either
      quoted or running up to the next separator or double quote. */
  function Args(s: seq<char>, cvar: seq<char> -> Option<seq<char>>): seq<seq<char>>
    decreases |s|
  {
    var t := TrimBlank(s);
    if t == [] then []
    else if t[0] == '"' then
      var r := Quoted(t[1..]);
      [r.0] + Args(r.1, cvar)
    else
      var n := 1 + WordRun(t[1..]);
      [Subst(t[..n], cvar)] + Args(t[n..], cvar)
  }

  /** The buffer the arguments need: each with its terminator. */
  function ArgsSize(a: seq<seq<char>>): nat
  {
    if a == [] then 0 else |a[0]| + 1 + ArgsSize(a[1..])
  }

  /** The arguments laid out one after another, each terminated. */
  function Packed(a: seq<seq<char>>): seq<char>
  {
    if a == [] then [] else a[0] + [NUL] + Packed(a[1..])
  }

  /** Where each argument starts in the packed buffer. */
  function Offsets(a: seq<seq<char>>): (o: seq<nat>)
    ensures |o| == |a|
  {
    seq(|a|, i requires 0 <= i < |a| => ArgsSize(a[..i]))
  }

  /** The size counted without a buffer is exactly what filling the buffer
      takes. */
  lemma {:induction false} PackedSize(a: seq<seq<char>>)
    ensures |Packed(a)| == ArgsSize(a)
  {
    if a != [] {
      PackedSize(a[1..]);
    }
  }

  lemma {:induction false} ArgsAppend(a: seq<seq<char>>, x: seq<char>)
    ensures ArgsSize(a + [x]) == ArgsSize(a) + |x| + 1
    ensures Packed(a + [x]) == Packed(a) + x + [NUL]
  {
    if a != [] {
      assert (a + [x])[1..] == a[1..] + [x];
      ArgsAppend(a[1..], x);
    } else {
      assert [x][1..] == [];
    }
  }

  lemma {:induction false} ArgsSizeConcat(a: seq<seq<char>>, b: seq<seq<char>>)
    ensures ArgsSize(a + b) == ArgsSize(a) + ArgsSize(b)
  {
    if a != [] {
      assert (a + b)[1..] == a[1..] + b;
      ArgsSizeConcat(a[1..], b);
    } else {
      assert a + b == b;
    }
  }

  lemma OffsetsAppend(a: seq<seq<char>>, x: seq<char>)
    ensures Offsets(a + [x]) == Offsets(a) + [ArgsSize(a)]
  {
    var o := Offsets(a + [x]);
    forall i | 0 <= i < |a|
      ensures o[i] == Offsets(a)[i]
    {
      assert (a + [x])[..i] == a[..i];
    }
    assert (a + [x])[..|a|] == a;
  }

  /** Writes text and its terminator at position bp of buf. */
  method PutArg(buf: array<char>, bp: nat, text: seq<char>)
    requires bp + |text| + 1 <= buf.Length
    modifies buf
    ensures buf[..bp + |text| + 1] == old(buf[..bp]) + text + [NUL]
  {
    var k := 0;
    while k < |text|
      invariant k <= |text|
      invariant buf[..bp + k] == old(buf[..bp]) + text[..k]
    {
      buf[bp + k] := text[k];
      assert buf[..bp + k + 1] == buf[..bp + k] + [text[k]];
      assert text[..k + 1] == text[..k] + [text[k]];
      k := k + 1;
    }
    buf[bp + k] := NUL;
    assert buf[..bp + k + 1] == buf[..bp + k] + [NUL];
    assert text[..k] == text;
  }

  /** Reads the quoted argument whose text starts at p0, after the opening
      quote, and, in fill mode, writes it with its terminator at bp0. */
  method ReadQuoted(args: seq<char>, p0: nat, argv: array<char>, bp0: nat, fill: bool)
    returns (p: nat, bp: nat)
    requires p0 <= |args| && NoNul(args)
    requires fill ==> bp0 + |Quoted(args[p0..]).0| + 1 <= argv.Length
    modifies if fill then {argv} else {}
    ensures p <= |args| && args[p..] == Quoted(args[p0..]).1
    ensures bp == bp0 + |Quoted(args[p0..]).0| + 1
    ensures fill ==> argv[..bp] == old(argv[..bp0]) + Quoted(args[p0..]).0 + [NUL]
  {
    p, bp := p0, bp0;
    ghost var written: seq<char> := [];
    while true
      invariant p0 <= p <= |args|
      invariant Quoted(args[p0..]).0 == written + Quoted(args[p..]).0
      invariant Quoted(args[p0..]).1 == Quoted(args[p..]).1
      invariant bp == bp0 + |written|
      invariant fill ==> argv[..bp] == old(argv[..bp0]) + written
      decreases |args| - p
    {
      ghost var t := args[p..];
      var stuff := At(args, p);
      if p < |args| {
        p := p + 1;
      }
      if stuff == '\\' && At(args, p) == '"' {
        stuff := '"';
        p := p + 1;
        assert t[2..] == args[p..];
      } else if stuff == '"' {
        stuff := NUL;
      } else if stuff != NUL {
        assert t[1..] == args[p..];
      }
      if fill {
        argv[bp] := stuff;
        assert argv[..bp + 1] == argv[..bp] + [stuff];
      }
      bp := bp + 1;
      if stuff == NUL {
        assert Quoted(t).0 == [];
        break;
      }
      ghost var r := Quoted(args[p..]);
      assert Quoted(t) == ([stuff] + r.0, r.1);
      ConcatAssoc(written, [stuff], r.0);
      written := written + [stuff];
    }
  }

  /** ParseCommandLine. In fill mode (argv given) it writes the arguments,
      each terminated, into argv and returns where each starts; in count
      mode it only counts. Either way it returns the number of arguments
      and the size of the buffer they need. */
  method ParseCommandLine(args: seq<char>, cvar: seq<char> -> Option<seq<char>>, argv: array<char>, fill: bool)
    returns (argc: nat, starts: seq<nat>, size: nat)
    requires NoNul(args)
    requires fill ==> ArgsSize(Args(args, cvar)) <= argv.Length
    modifies if fill then {argv} else {}
    ensures argc == |Args(args, cvar)| && size == ArgsSize(Args(args, cvar))
    ensures fill ==> argv[..size] == Packed(Args(args, cvar)) && starts == Offsets(Args(args, cvar))
  {
    var p: nat, bp: nat := 0, 0;
    argc, starts := 0, [];
    ghost var done: seq<seq<char>> := [];
    assert args[0..] == args;
    while true
      invariant p <= |args|
      invariant Args(args, cvar) == done + Args(args[p..], cvar)
      invariant argc == |done| && bp == ArgsSize(done)
      invariant fill ==> ArgsSize(done) + ArgsSize(Args(args[p..], cvar)) <= argv.Length
      invariant fill ==> argv[..bp] == Packed(done) && starts == Offsets(done)
      decreases |args| - p
    {
      ghost var p1 := p;
      p := SkipBlanks(args, p);
      ArgsSkip(args[p1..], cvar);
      if p == |args| {
        break;
      }
      argc := argc + 1;
      p, bp, starts, done := ParseOne(args, p, cvar, argv, bp, fill, done, starts);
    }
    size := bp;
    assert done + [] == done;
  }

  /** Blanks in front of the arguments change nothing. */
  lemma ArgsSkip(s: seq<char>, cvar: seq<char> -> Option<seq<char>>)
    ensures Args(TrimBlank(s), cvar) == Args(s, cvar)
  {
    TrimBlankIdem(s);
  }

  lemma {:induction false} TrimBlankIdem(s: seq<char>)
    ensures TrimBlank(TrimBlank(s)) == TrimBlank(s)
    decreases |s|
  {
    if s != [] && Blank(s[0]) {
      TrimBlankIdem(s[1..]);
    }
  }

  /** One argument of ParseCommandLine: it moves from the arguments ahead
      to those done, and in fill mode is written out and its start
      recorded. */
  method ParseOne(args: seq<char>, p0: nat, cvar: seq<char> -> Option<seq<char>>, argv: array<char>,
                  bp0: nat, fill: bool, ghost done0: seq<seq<char>>, starts0: seq<nat>)
    returns (p: nat, bp: nat, starts: seq<nat>, ghost done: seq<seq<char>>)
    requires p0 < |args| && !Blank(args[p0]) && NoNul(args)
    requires bp0 == ArgsSize(done0)
    requires fill ==> ArgsSize(done0) + ArgsSize(Args(args[p0..], cvar)) <= argv.Length
    requires fill ==> argv[..bp0] == Packed(done0) && starts0 == Offsets(done0)
    modifies if fill then {argv} else {}
    ensures p0 < p <= |args| && |done| == |done0| + 1
    ensures done0 + Args(args[p0..], cvar) == done + Args(args[p..], cvar)
    ensures bp == ArgsSize(done)
    ensures fill ==> ArgsSize(done) + ArgsSize(Args(args[p..], cvar)) <= argv.Length
    ensures fill ==> argv[..bp] == Packed(done) && starts == Offsets(done)
  {
    starts := starts0;
    if fill {
      starts := starts + [bp0];
    }
    ghost var arg;
    p, bp, arg := NextArg(args, p0, cvar, argv, bp0, fill);
    ArgsSizeConcat([arg], Args(args[p..], cvar));
    ArgsAppend(done0, arg);
    OffsetsAppend(done0, arg);
    ConcatAssoc(done0, [arg], Args(args[p..], cvar));
    done := done0 + [arg];
  }

  /** Reads the argument that starts at p0, quoted or not, and, in fill
      mode, writes it with its terminator at bp0. */
  method NextArg(args: seq<char>, p0: nat, cvar: seq<char> -> Option<seq<char>>, argv: array<char>, bp0: nat, fill: bool)
    returns (p: nat, bp: nat, ghost arg: seq<char>)
    requires p0 < |args| && !Blank(args[p0]) && NoNul(args)
    requires fill ==> bp0 + ArgsSize(Args(args[p0..], cvar)) <= argv.Length
    modifies if fill then {argv} else {}
    ensures p0 < p <= |args| && Args(args[p0..], cvar) == [arg] + Args(args[p..], cvar)
    ensures bp == bp0 + |arg| + 1
    ensures fill ==> argv[..bp] == old(argv[..bp0]) + arg + [NUL]
  {
    ghost var t := args[p0..];
    assert TrimBlank(t) == t;
    if args[p0] == '"' {
      arg := Quoted(t[1..]).0;
      ArgsQuotedStep(t, cvar);
      ArgsSizeConcat([arg], Args(Quoted(t[1..]).1, cvar));
      assert ArgsSize([arg]) == |arg| + 1;
      assert t[1..] == args[p0 + 1..];
      p, bp := ReadQuoted(args, p0 + 1, argv, bp0, fill);
    } else {
      p, bp, arg := ReadWord(args, p0, cvar, argv, bp0, fill);
    }
  }

  /** NextArg for an argument that does not open with a double quote: it
      runs to the first separator or double quote and is substituted. */
  method ReadWord(args: seq<char>, p0: nat, cvar: seq<char> -> Option<seq<char>>, argv: array<char>, bp0: nat, fill: bool)
    returns (p: nat, bp: nat, ghost arg: seq<char>)
    requires p0 < |args| && !Blank(args[p0]) && args[p0] != '"' && NoNul(args)
    requires fill ==> bp0 + ArgsSize(Args(args[p0..], cvar)) <= argv.Length
    modifies if fill then {argv} else {}
    ensures p0 < p <= |args| && Args(args[p0..], cvar) == [arg] + Args(args[p..], cvar)
    ensures bp == bp0 + |arg| + 1
    ensures fill ==> argv[..bp] == old(argv[..bp0]) + arg + [NUL]
  {
    ghost var t := args[p0..];
    assert TrimBlank(t) == t;
    p := WordEnd(args, p0 + 1);
    assert t[1..] == args[p0 + 1..];
    assert args[p0..p] == t[..1 + WordRun(t[1..])] && args[p..] == t[1 + WordRun(t[1..])..];
    var text := Subst(args[p0..p], cvar);
    arg := text;
    ArgsWordStep(t, cvar);
    ArgsSizeConcat([arg], Args(args[p..], cvar));
    assert ArgsSize([arg]) == |arg| + 1;
    if fill {
      PutArg(argv, bp0, text);
    }
    bp := bp0 + |text| + 1;
  }

  lemma ArgsQuotedStep(s: seq<char>, cvar: seq<char> -> Option<seq<char>>)
    requires TrimBlank(s) != [] && TrimBlank(s)[0] == '"'
    ensures var r := Quoted(TrimBlank(s)[1..]);
            Args(s, cvar) == [r.0] + Args(r.1, cvar)
  {
  }

  lemma ArgsWordStep(s: seq<char>, cvar: seq<char> -> Option<seq<char>>)
    requires TrimBlank(s) != [] && TrimBlank(s)[0] != '"'
    ensures var t := TrimBlank(s);
            var n := 1 + WordRun(t[1..]);
            Args(s, cvar) == [Subst(t[..n], cvar)] + Args(t[n..], cvar)
  {
  }

  /** The first position from p on that is not a separator. */
  method SkipBlanks(args: seq<char>, p0: nat) returns (p: nat)
    requires p0 <= |args|
    ensures p0 <= p <= |args| && args[p..] == TrimBlank(args[p0..])
  {
    p := p0;
    while p < |args| && Blank(args[p])
      invariant p0 <= p <= |args|
      invariant TrimBlank(args[p..]) == TrimBlank(args[p0..])
    {
      assert args[p..][1..] == args[p + 1..];
      p := p + 1;
    }
  }

  /** The end of the word whose rest starts at p0: the first separator or
      double quote. */
  method WordEnd(args: seq<char>, p0: nat) returns (p: nat)
    requires p0 <= |args|
    ensures p == p0 + WordRun(args[p0..]) && p <= |args|
  {
    p := p0;
    while p < |args| && !Blank(args[p]) && args[p] != '"'
      invariant p0 <= p <= |args|
      invariant p0 + WordRun(args[p0..]) == p + WordRun(args[p..])
    {
      assert args[p..][1..] == args[p + 1..];
      p := p + 1;
    }
  }

  /** A double quote inside an argument written as \". */
  function Esc(x: seq<char>): seq<char>
  {
    if x == [] then [] else (if x[0] == '"' then ['\\', '"'] else [x[0]]) + Esc(x[1..])
  }

  /** Each argument quoted, with a blank after it. */
  function QuoteAll(a: seq<seq<char>>): seq<char>
  {
    if a == [] then [] else ['"'] + Esc(a[0]) + ['"', ' '] + QuoteAll(a[1..])
  }

  lemma {:induction false} QuotedEsc(x: seq<char>, rest: seq<char>)
    requires forall i :: 0 <= i < |x| ==> x[i] != '\\'
    ensures Quoted(Esc(x) + ['"'] + rest) == (x, rest)
  {
    var t := Esc(x) + ['"'] + rest;
    if x == [] {
    } else {
      QuotedEsc(x[1..], rest);
      if x[0] == '"' {
        assert t == ['\\', '"'] + (Esc(x[1..]) + ['"'] + rest);
        assert t[2..] == Esc(x[1..]) + ['"'] + rest;
      } else {
        assert t == [x[0]] + (Esc(x[1..]) + ['"'] + rest);
        assert t[1..] == Esc(x[1..]) + ['"'] + rest;
      }
      assert x == [x[0]] + x[1..];
    }
  }

  /** Quoting each argument, with \" for a double quote inside, gives a
      command line that parses back to those arguments, as long as none of
      them contains a backslash. */
  lemma {:induction false} ArgsQuoteAll(a: seq<seq<char>>, cvar: seq<char> -> Option<seq<char>>)
    requires forall k, i :: 0 <= k < |a| && 0 <= i < |a[k]| ==> a[k][i] != '\\'
    ensures Args(QuoteAll(a), cvar) == a
  {
    if a != [] {
      var s := QuoteAll(a);
      var tail := [' '] + QuoteAll(a[1..]);
      assert s == ['"'] + (Esc(a[0]) + ['"'] + tail);
      assert TrimBlank(s) == s;
      assert s[1..] == Esc(a[0]) + ['"'] + tail;
      QuotedEsc(a[0], tail);
      assert TrimBlank(tail) == TrimBlank(QuoteAll(a[1..])) by {
        assert tail[1..] == QuoteAll(a[1..]);
      }
      ArgsQuoteAll(a[1..], cvar);
      assert a == [a[0]] + a[1..];
    }
  }
}
