/**
 * Splitting text into lines: the reference that the FIFO reader is compared with.
 * `Lines` are the complete lines of a text, `Tail` is what follows the last newline.
 */
module LineSplit {
  function Lines(s: string): seq<string> {
    if s == "" then []
    else
      var n := |s| - 1;
      if s[n] == '\n' then Lines(s[..n]) + [Tail(s[..n])] else Lines(s[..n])
  }

  function Tail(s: string): string {
    if s == "" then ""
    else
      var n := |s| - 1;
      if s[n] == '\n' then "" else Tail(s[..n]) + [s[n]]
  }

  /** The lines, each with its newline again. */
  function Join(lines: seq<string>): string {
    if lines == [] then "" else Join(lines[..|lines| - 1]) + lines[|lines| - 1] + "\n"
  }

  predicate NoNewline(s: string) {
    '\n' !in s
  }

  ghost predicate AllNoNewline(lines: seq<string>) {
    forall i :: 0 <= i < |lines| ==> NoNewline(lines[i])
  }

  lemma AddNewline(s: string)
    ensures Lines(s + "\n") == Lines(s) + [Tail(s)] && Tail(s + "\n") == ""
  {
    assert (s + "\n")[..|s|] == s;
  }

  lemma AddOther(s: string, c: char)
    requires c != '\n'
    ensures Lines(s + [c]) == Lines(s) && Tail(s + [c]) == Tail(s) + [c]
  {
    assert (s + [c])[..|s|] == s;
  }

  lemma {:induction false} AddText(s: string, t: string)
    requires NoNewline(t)
    ensures Lines(s + t) == Lines(s) && Tail(s + t) == Tail(s) + t
    decreases |t|
  {
    if t == "" {
      assert s + t == s;
    } else {
      var n := |t| - 1;
      AddText(s, t[..n]);
      AddOther(s + t[..n], t[n]);
      assert s + t == s + t[..n] + [t[n]];
    }
  }

  lemma AddLine(s: string, t: string)
    requires NoNewline(t)
    ensures Lines(s + t + "\n") == Lines(s) + [Tail(s) + t] && Tail(s + t + "\n") == ""
  {
    AddText(s, t);
    AddNewline(s + t);
  }

  /** Nothing is lost: the lines and the tail give the text back, and contain no newline. */
  lemma {:induction false} SplitJoins(s: string)
    ensures Join(Lines(s)) + Tail(s) == s
    ensures AllNoNewline(Lines(s)) && NoNewline(Tail(s))
    decreases |s|
  {
    if s != "" {
      var n := |s| - 1;
      SplitJoins(s[..n]);
      assert s == s[..n] + [s[n]];
      if s[n] == '\n' {
        assert Lines(s)[..|Lines(s[..n])|] == Lines(s[..n]);
      }
    }
  }

  /** There is only one such split, so `Lines` is the newline split of the text. */
  lemma {:induction false} SplitUnique(lines: seq<string>, t: string)
    requires AllNoNewline(lines) && NoNewline(t)
    ensures Lines(Join(lines) + t) == lines && Tail(Join(lines) + t) == t
    decreases |lines|
  {
    if lines == [] {
      AddText("", t);
      assert "" + t == t;
    } else {
      var n := |lines| - 1;
      SplitUnique(lines[..n], lines[n]);
      AddNewline(Join(lines[..n]) + lines[n]);
      AddText(Join(lines), t);
      assert Tail(Join(lines)) == "";
      assert lines == lines[..n] + [lines[n]];
    }
  }
}
