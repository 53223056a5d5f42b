/**
 * Reassembly of command lines from a FIFO (apps/src/vcassd.c): reads arrive in pieces of any size
 * below PIPE_BUF, an unfinished line is kept in a bounded remainder buffer, and an over-long line
 * is skipped to its end.
 */
module FifoReader {
  import opened LineSplit

  const MAX_COMMAND_SIZE: nat := 8192
  const PIPE_BUF: nat := 4096

  // ---------------------------------------------------------------- C strings

  /** The C string that starts at `from`. */
  function Str(s: seq<char>, from: nat): (r: string)
    ensures from <= |s| ==> from + |r| <= |s|
    decreases |s| - from
  {
    if from >= |s| || s[from] == '\0' then "" else [s[from]] + Str(s, from + 1)
  }

  predicate Terminated(s: seq<char>, from: nat) {
    from <= |s| && from + |Str(s, from)| < |s|
  }

  /** `Str` is the text up to the first NUL. */
  lemma {:induction false} StrIs(s: seq<char>, from: nat, end: nat)
    requires from <= end < |s| && s[end] == '\0' && '\0' !in s[from..end]
    ensures Str(s, from) == s[from..end] && Terminated(s, from)
    decreases end - from
  {
    if from < end {
      assert s[from] == s[from..end][0];
      assert s[from + 1..end] == s[from..end][1..];
      StrIs(s, from + 1, end);
    }
  }

  lemma {:induction false} StrAt(s: seq<char>, from: nat)
    requires Terminated(s, from)
    ensures var end := from + |Str(s, from)|; s[end] == '\0' && '\0' !in s[from..end] && Str(s, from) == s[from..end]
    decreases |s| - from
  {
    if s[from] != '\0' {
      StrAt(s, from + 1);
      var end := from + |Str(s, from)|;
      assert s[from..end] == [s[from]] + s[from + 1..end];
    }
  }

  lemma StrRest(s: seq<char>, from: nat, m: nat)
    requires Terminated(s, from) && m <= |Str(s, from)|
    ensures Terminated(s, from + m) && Str(s, from + m) == Str(s, from)[m..]
  {
    StrAt(s, from);
    var end := from + |Str(s, from)|;
    assert s[from + m..end] == s[from..end][m..];
    StrIs(s, from + m, end);
  }

  /** Only the characters from `from` on matter. */
  lemma StrSame(s: seq<char>, t: seq<char>, from: nat)
    requires Terminated(s, from) && |s| == |t| && s[from..] == t[from..]
    ensures Terminated(t, from) && Str(t, from) == Str(s, from)
  {
    StrAt(s, from);
    var end := from + |Str(s, from)|;
    assert t[end] == t[from..][end - from] && t[from..end] == t[from..][..end - from];
    assert s[from..end] == s[from..][..end - from];
    StrIs(t, from, end);
  }

  /** Writing a NUL into a string cuts it there and leaves the rest after it. */
  lemma StrCut(s: seq<char>, from: nat, n: nat)
    requires Terminated(s, from) && n < |Str(s, from)|
    ensures var t := s[from + n := '\0'];
      Terminated(t, from) && Str(t, from) == Str(s, from)[..n]
      && Terminated(t, from + n + 1) && Str(t, from + n + 1) == Str(s, from)[n + 1..]
  {
    var t := s[from + n := '\0'];
    StrAt(s, from);
    var end := from + |Str(s, from)|;
    assert t[from..from + n] == s[from..end][..n];
    StrIs(t, from, from + n);
    StrRest(s, from, n + 1);
    StrSame(s, t, from + n + 1);
  }

  method StrLen(a: array<char>, from: nat) returns (n: nat)
    requires Terminated(a[..], from)
    ensures n == |Str(a[..], from)|
  {
    n := 0;
    StrAt(a[..], from);
    while a[from + n] != '\0'
      invariant n <= |Str(a[..], from)|
      decreases a.Length - n
    {
      n := n + 1;
    }
  }

  predicate NewlineAt(t: string, found: bool, n: nat) {
    if found then n < |t| && t[n] == '\n' && NoNewline(t[..n]) else n == |t| && NoNewline(t)
  }

  /** strchr for a newline: its offset from `from`, or the length of the string. */
  method FindNewline(a: array<char>, from: nat) returns (found: bool, n: nat)
    requires Terminated(a[..], from)
    ensures NewlineAt(Str(a[..], from), found, n)
  {
    StrAt(a[..], from);
    ghost var t := Str(a[..], from);
    n := 0;
    while a[from + n] != '\0' && a[from + n] != '\n'
      invariant n <= |t| && NoNewline(t[..n])
      decreases a.Length - n
    {
      assert t[..n + 1] == t[..n] + [a[from + n]];
      n := n + 1;
    }
    found := a[from + n] == '\n';
    assert t[..|t|] == t;
  }

  method StrCat(dst: array<char>, src: array<char>, from: nat)
    requires dst != src && Terminated(dst[..], 0) && Terminated(src[..], from)
    requires |Str(dst[..], 0)| + |Str(src[..], from)| < dst.Length
    modifies dst
    ensures Terminated(dst[..], 0) && Str(dst[..], 0) == old(Str(dst[..], 0)) + Str(src[..], from)
  {
    ghost var old0 := Str(dst[..], 0);
    ghost var t := Str(src[..], from);
    StrAt(dst[..], 0);
    StrAt(src[..], from);
    var d := StrLen(dst, 0);
    var n := StrLen(src, from);
    var k := 0;
    while k < n
      invariant 0 <= k <= n && dst[..d + k] == old0 + t[..k]
    {
      dst[d + k] := src[from + k];
      assert dst[..d + (k + 1)] == dst[..d + k] + [src[from + k]];
      k := k + 1;
    }
    dst[d + n] := '\0';
    assert dst[0..d + n] == old0 + t;
    StrIs(dst[..], 0, d + n);
  }

  // ---------------------------------------------------------------- what should be parsed

  /** The lines that reach parse_command. */
  function Kept(lines: seq<string>): seq<string> {
    if lines == [] then []
    else
      var n := |lines| - 1;
      Kept(lines[..n]) + if |lines[n]| < MAX_COMMAND_SIZE then [lines[n]] else []
  }

  lemma KeptOneMore(lines: seq<string>, line: string)
    ensures Kept(lines + [line]) == Kept(lines) + if |line| < MAX_COMMAND_SIZE then [line] else []
  {
    assert (lines + [line])[..|lines|] == lines;
  }

  /** What is kept of two parts is what is kept of each, in order. */
  lemma {:induction false} KeptParts(lines: seq<string>, more: seq<string>)
    ensures Kept(lines + more) == Kept(lines) + Kept(more)
    decreases |more|
  {
    if more == [] {
      assert lines + more == lines;
    } else {
      var n := |more| - 1;
      KeptParts(lines, more[..n]);
      KeptOneMore(lines + more[..n], more[n]);
      assert lines + more == lines + more[..n] + [more[n]];
    }
  }

  ghost predicate AllShort(lines: seq<string>) {
    forall i :: 0 <= i < |lines| ==> |lines[i]| < 8192
  }

  /** Lines below 8192 characters all stay, and a longer one goes. */
  lemma {:induction false} KeptExactly(lines: seq<string>)
    ensures Kept(lines) == lines <==> AllShort(lines)
    ensures |Kept(lines)| <= |lines| && AllShort(Kept(lines))
    decreases |lines|
  {
    if lines != [] {
      var n := |lines| - 1;
      KeptExactly(lines[..n]);
      assert lines == lines[..n] + [lines[n]];
    }
  }

  /** The remainder and the flag after the text `seen`: the unfinished line, or a note that it is too long. */
  ghost predicate Represents(rem: string, skipping: bool, seen: string) {
    if skipping then rem == "" && |Tail(seen)| >= MAX_COMMAND_SIZE
    else rem == Tail(seen) && |rem| < MAX_COMMAND_SIZE
  }

  class Reader {
    const remainder: array<char>
    var lineOk: bool
    /** The arguments of all parse_command calls, and the text received, so far. */
    var commands: seq<string>
    ghost var seen: string

    ghost predicate RemainderOk(skipping: bool, text: string)
      reads remainder
    {
      remainder.Length == MAX_COMMAND_SIZE && Terminated(remainder[..], 0)
      && Represents(Str(remainder[..], 0), skipping, text)
    }

    ghost predicate Valid()
      reads this, remainder
    {
      RemainderOk(!lineOk, seen) && commands == Kept(Lines(seen))
    }

    constructor ()
      ensures Valid() && seen == "" && fresh(remainder)
    {
      remainder := new char[MAX_COMMAND_SIZE];
      lineOk, commands, seen := true, [], "";
      new;
      remainder[0] := '\0';
    }

    /** The newline case of parse_fifo_msg for the line that starts at `start`, already cut. */
    method FinishLine(buf: array<char>, start: nat, skipping: bool, ghost text: string)
      requires buf != remainder && buf.Length <= PIPE_BUF && Terminated(buf[..], start)
      requires RemainderOk(skipping, text) && commands == Kept(Lines(text)) && NoNewline(Str(buf[..], start))
      modifies `commands, remainder
      ensures RemainderOk(false, text + Str(buf[..], start) + "\n")
      ensures commands == Kept(Lines(text + Str(buf[..], start) + "\n"))
    {
      ghost var line := Str(buf[..], start);
      AddLine(text, line);
      KeptOneMore(Lines(text), Tail(text) + line);
      if skipping {
      } else if remainder[0] != '\0' {
        var r := StrLen(remainder, 0);
        var n := StrLen(buf, start);
        if r + n < MAX_COMMAND_SIZE {
          StrCat(remainder, buf, start);
          var command := Text(remainder, 0);
          commands := commands + [command];
        }
      } else {
        assert Tail(text) + line == line;
        var command := Text(buf, start);
        commands := commands + [command];
      }
      remainder[0] := '\0';
    }

    /** One turn of the loop in parse_fifo_msg; `n` is the length of the line. */
    method CutLine(buf: array<char>, start: nat, n: nat, skipping: bool, ghost text: string) returns (next: nat)
      requires buf != remainder && buf.Length <= PIPE_BUF && Terminated(buf[..], start)
      requires n < |Str(buf[..], start)| && Str(buf[..], start)[n] == '\n' && NoNewline(Str(buf[..], start)[..n])
      requires RemainderOk(skipping, text) && commands == Kept(Lines(text))
      modifies `commands, remainder, buf
      ensures next == start + n + 1 && Terminated(buf[..], next)
      ensures Str(buf[..], next) == old(Str(buf[..], start)[n + 1..])
      ensures RemainderOk(false, text + old(Str(buf[..], start)[..n + 1]))
      ensures commands == Kept(Lines(text + old(Str(buf[..], start)[..n + 1])))
    {
      ghost var t := Str(buf[..], start);
      StrCut(buf[..], start, n);
      ghost var cut := buf[..][start + n := '\0'];
      buf[start + n] := '\0';
      assert buf[..] == cut;
      FinishLine(buf, start, skipping, text);
      next := start + n + 1;
      LineTaken(text, t, n);
    }

    /** The end of parse_fifo_msg: the unfinished line that starts at `start`. */
    method KeepRest(buf: array<char>, start: nat, skipping: bool, ghost text: string) returns (ok: bool)
      requires buf != remainder && Terminated(buf[..], start)
      requires RemainderOk(skipping, text) && NoNewline(Str(buf[..], start))
      modifies remainder
      ensures RemainderOk(!ok, text + Str(buf[..], start))
      ensures Lines(text + Str(buf[..], start)) == Lines(text)
    {
      AddText(text, Str(buf[..], start));
      if skipping {
        return false;
      }
      var r := StrLen(remainder, 0);
      var n := StrLen(buf, start);
      if r + n >= MAX_COMMAND_SIZE {
        remainder[0] := '\0';
        return false;
      }
      StrCat(remainder, buf, start);
      ok := true;
    }

    /** parse_fifo_msg together with the assignment of its result to line_ok. */
    method ParseFifoMsg(buf: array<char>)
      requires Valid() && buf != remainder && 0 < buf.Length <= PIPE_BUF && Terminated(buf[..], 0)
      modifies this, remainder, buf
      ensures Valid() && seen == old(seen) + old(Str(buf[..], 0))
    {
      ghost var all, text := seen + Str(buf[..], 0), seen;
      var start: nat, skipping := 0, !lineOk;
      var found: bool, n: nat := FindNewline(buf, 0);
      while found
        invariant Terminated(buf[..], start) && NewlineAt(Str(buf[..], start), found, n)
        invariant text + Str(buf[..], start) == all && seen == old(seen)
        invariant RemainderOk(skipping, text) && commands == Kept(Lines(text))
        decreases |Str(buf[..], start)|
      {
        ghost var t := Str(buf[..], start);
        start := CutLine(buf, start, n, skipping, text);
        skipping := false;
        LineTaken(text, t, n);
        text := text + t[..n + 1];
        found, n := FindNewline(buf, start);
      }
      lineOk := KeepRest(buf, start, skipping, text);
      seen := all;
    }
  }

  lemma LineTaken(text: string, t: string, n: nat)
    requires n < |t| && t[n] == '\n'
    ensures text + t[..n + 1] + t[n + 1..] == text + t
    ensures text + t[..n] + "\n" == text + t[..n + 1]
  {
  }

  method Text(a: array<char>, from: nat) returns (t: string)
    requires Terminated(a[..], from)
    ensures t == Str(a[..], from)
  {
    StrAt(a[..], from);
    var n := StrLen(a, from);
    t := a[from..from + n];
  }

  // ---------------------------------------------------------------- the read loop

  /** What the parser sees of the reads: each one up to its first NUL. */
  function Received(inputs: seq<string>): string {
    if inputs == [] then "" else Received(inputs[..|inputs| - 1]) + Str(inputs[|inputs| - 1], 0)
  }

  function Concat(inputs: seq<string>): string {
    if inputs == [] then "" else Concat(inputs[..|inputs| - 1]) + inputs[|inputs| - 1]
  }

  ghost predicate NulFree(inputs: seq<string>) {
    forall i :: 0 <= i < |inputs| ==> '\0' !in inputs[i]
  }

  lemma {:induction false} StrOfPrefix(read: string, s: seq<char>, from: nat)
    requires from <= |read| < |s| && s[..|read|] == read && s[|read|] == '\0'
    ensures Str(s, from) == Str(read, from) && Terminated(s, from)
    decreases |read| - from
  {
    if from < |read| {
      assert s[from] == s[..|read|][from];
      StrOfPrefix(read, s, from + 1);
    }
  }

  lemma {:induction false} WholeRead(read: string, from: nat)
    requires '\0' !in read && from <= |read|
    ensures Str(read, from) == read[from..]
    decreases |read| - from
  {
    if from < |read| { WholeRead(read, from + 1); }
  }

  lemma {:induction false} NulFreeReceived(inputs: seq<string>)
    requires NulFree(inputs)
    ensures Received(inputs) == Concat(inputs)
    decreases |inputs|
  {
    if inputs != [] {
      NulFreeReceived(inputs[..|inputs| - 1]);
      WholeRead(inputs[|inputs| - 1], 0);
    }
  }

  /** read() into the buffer, and the terminating NUL. */
  method Fill(buf: array<char>, read: string)
    requires |read| < buf.Length
    modifies buf
    ensures Terminated(buf[..], 0) && Str(buf[..], 0) == Str(read, 0)
  {
    var k := 0;
    while k < |read|
      invariant 0 <= k <= |read| && buf[..k] == read[..k]
    {
      buf[k] := read[k];
      k := k + 1;
    }
    buf[|read|] := '\0';
    StrOfPrefix(read, buf[..], 0);
  }

  /** fifo_mgr: however the stream is cut into reads, the commands are its newline split without the
      lines of MAX_COMMAND_SIZE characters or more. */
  method FifoMgr(inputs: seq<string>) returns (commands: seq<string>)
    requires forall i :: 0 <= i < |inputs| ==> 0 < |inputs[i]| < PIPE_BUF
    ensures commands == Kept(Lines(Received(inputs)))
    ensures NulFree(inputs) ==> commands == Kept(Lines(Concat(inputs)))
    ensures NulFree(inputs) && AllShort(Lines(Concat(inputs))) ==> commands == Lines(Concat(inputs))
  {
    var reader := new Reader();
    var buf := new char[PIPE_BUF];
    for i := 0 to |inputs|
      invariant reader.Valid() && fresh(reader) && fresh(reader.remainder) && fresh(buf) && reader.remainder != buf
      invariant reader.seen == Received(inputs[..i])
    {
      Fill(buf, inputs[i]);
      reader.ParseFifoMsg(buf);
      assert inputs[..i + 1][..i] == inputs[..i];
    }
    assert inputs[..|inputs|] == inputs;
    if NulFree(inputs) {
      NulFreeReceived(inputs);
      KeptExactly(Lines(Concat(inputs)));
    }
    commands := reader.commands;
  }
}
