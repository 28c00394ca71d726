/**
 * LineStringBuffer: a string buffer that is popped line by line.
 *
 * The line ending is used the way PHP's `strcspn`/`strspn` use their second
 * argument: as a SET of characters. A line ends at the first character that
 * belongs to that set, and popping strips at most as many ending characters
 * as the ending string is long, so blank lines survive.
 */
module LineStringBuffers {
  import opened Php

  /** PHP `strcspn(s, chars)`: length of the longest prefix free of `chars`. */
  function Strcspn(s: string, chars: string): (n: nat)
    ensures n <= |s|
    ensures forall i | 0 <= i < n :: s[i] !in chars
    ensures n < |s| ==> s[n] in chars
  {
    if |s| == 0 || s[0] in chars then 0 else 1 + Strcspn(s[1..], chars)
  }

  /** PHP `strspn(s, chars)`: length of the longest prefix made of `chars` only. */
  function Strspn(s: string, chars: string): (n: nat)
    ensures n <= |s|
    ensures forall i | 0 <= i < n :: s[i] in chars
    ensures n < |s| ==> s[n] !in chars
  {
    if |s| == 0 || s[0] !in chars then 0 else 1 + Strspn(s[1..], chars)
  }

  /** True iff `s` contains no character of the ending set. */
  predicate NoEnding(s: string, ending: string)
  {
    forall i | 0 <= i < |s| :: s[i] !in ending
  }

  /**
   * `hasLine`: the index of the first buffer character that belongs to the
   * ending set, or None when no such character occurs.
   */
  function LineLength(buffer: string, ending: string): (r: Option<nat>)
    ensures r.None? <==> NoEnding(buffer, ending)
    ensures r.Some? ==> r.value < |buffer| && buffer[r.value] in ending
    ensures r.Some? ==> NoEnding(buffer[..r.value], ending)
  {
    var n := Strcspn(buffer, ending);
    if n != |buffer| then Some(n) else None
  }

  /** The outcome of `popLine`: the line (None for PHP's false) and the new buffer. */
  datatype Popped = Popped(line: Option<string>, rest: string)

  /** The number of ending characters `popLine` strips after a line of length n. */
  function Stripped(buffer: string, ending: string, n: nat): nat
    requires n <= |buffer|
  {
    var run := Strspn(buffer[n..], ending);
    if run < |ending| then run else |ending|
  }

  /** `popLine` on a buffer value. */
  function Pop(buffer: string, ending: string): (p: Popped)
    ensures p.line.None? ==> p.rest == buffer
    ensures p.line.Some? ==> |p.rest| < |buffer|
  {
    var n := Strcspn(buffer, ending);
    if n != |buffer| then
      Popped(Some(buffer[..n]), buffer[n + Stripped(buffer, ending, n)..])
    else
      Popped(None, buffer)
  }

  /** A line pops exactly when `hasLine` holds. */
  lemma PopHasLine(buffer: string, ending: string)
    ensures Pop(buffer, ending).line.Some? <==> LineLength(buffer, ending).Some?
  {
  }

  /** A popped line is the buffer up to its first ending character, and holds none. */
  lemma PopLineFacts(buffer: string, ending: string)
    requires Pop(buffer, ending).line.Some?
    ensures var line := Pop(buffer, ending).line.value;
      |line| == LineLength(buffer, ending).value && NoEnding(line, ending) && line <= buffer
  {
  }

  /** After a line of length n, the stripped run is between one and |ending| ending characters, maximal when short. */
  lemma StrippedRun(buffer: string, ending: string, n: nat)
    requires n < |buffer| && buffer[n] in ending
    ensures var k := Stripped(buffer, ending, n);
      && 1 <= k <= |ending| && n + k <= |buffer|
      && (forall i | n <= i < n + k :: buffer[i] in ending)
      && (k < |ending| ==> n + k == |buffer| || buffer[n + k] !in ending)
  {
    var after := buffer[n..];
    var run := Strspn(after, ending);
    assert after[0] == buffer[n];
    forall i | n <= i < n + Stripped(buffer, ending, n)
      ensures buffer[i] in ending
    {
      assert buffer[i] == after[i - n];
    }
    if run < |after| {
      assert buffer[n + run] == after[run];
    }
  }

  /** The buffer cut at a line of length n followed by a run of k ending characters. */
  lemma SplitAtRun(buffer: string, ending: string, n: nat, k: nat)
    requires n + k <= |buffer| && forall i | 0 <= i < n :: buffer[i] !in ending
    ensures var line, rest := buffer[..n], buffer[n + k..];
      && |line| == n && |buffer| - n - |rest| == k
      && buffer == line + buffer[n..n + k] + rest
      && NoEnding(line, ending)
      && (rest != [] ==> rest[0] == buffer[n + k])
  {
    assert buffer == buffer[..n] + buffer[n..n + k] + buffer[n + k..];
  }

  /**
   * What a successful pop does to the buffer: the old buffer is the line,
   * then k ending characters with 1 <= k <= |ending|, then the new buffer;
   * fewer than |ending| are stripped only when the run of ending characters
   * is shorter than that.
   */
  lemma PopParts(buffer: string, ending: string)
    requires Pop(buffer, ending).line.Some?
    ensures var p := Pop(buffer, ending);
      var n := |p.line.value|;
      var k := |buffer| - n - |p.rest|;
      && 1 <= k <= |ending|
      && buffer == p.line.value + buffer[n..n + k] + p.rest
      && NoEnding(p.line.value, ending)
      && (forall i | n <= i < n + k :: buffer[i] in ending)
      && (k < |ending| ==> p.rest == [] || p.rest[0] !in ending)
  {
    var n := Strcspn(buffer, ending);
    var k := Stripped(buffer, ending, n);
    StrippedRun(buffer, ending, n);
    assert Pop(buffer, ending) == Popped(Some(buffer[..n]), buffer[n + k..]);
    SplitAtRun(buffer, ending, n, k);
  }

  /**
   * Pop every complete line, in order, until none is left: the loop of
   * TransportSocket's line reading mode. Returns the lines and the leftover.
   */
  function Drain(buffer: string, ending: string): (d: (seq<string>, string))
    ensures |d.1| <= |buffer|
    decreases |buffer|
  {
    var p := Pop(buffer, ending);
    if p.line.None? then ([], buffer)
    else
      var d := Drain(p.rest, ending);
      ([p.line.value] + d.0, d.1)
  }

  /** Draining leaves no complete line behind, and no drained line holds an ending character. */
  lemma {:induction false} DrainFacts(buffer: string, ending: string)
    ensures var d := Drain(buffer, ending);
      && LineLength(d.1, ending).None?
      && forall i | 0 <= i < |d.0| :: NoEnding(d.0[i], ending)
    decreases |buffer|
  {
    var p := Pop(buffer, ending);
    PopHasLine(buffer, ending);
    if p.line.Some? {
      PopLineFacts(buffer, ending);
      DrainFacts(p.rest, ending);
    }
  }

  /** One step of Drain: the popped line comes first, then the drain of the rest. */
  lemma DrainCons(buffer: string, ending: string, line: string, rest: string)
    requires Pop(buffer, ending) == Popped(Some(line), rest)
    ensures Drain(buffer, ending) == ([line] + Drain(rest, ending).0, Drain(rest, ending).1)
  {
  }

  /** Without a complete line, Drain pops nothing and leaves the buffer. */
  lemma DrainNone(buffer: string, ending: string)
    requires LineLength(buffer, ending).None?
    ensures Drain(buffer, ending) == ([], buffer)
  {
    PopHasLine(buffer, ending);
  }

  /** Draining after one pop: the lines seen so far grow by the popped line. */
  lemma DrainAdvance(seen: seq<string>, before: string, ending: string, line: string, after: string)
    requires Pop(before, ending) == Popped(Some(line), after)
    ensures seen + Drain(before, ending).0 == (seen + [line]) + Drain(after, ending).0
    ensures Drain(before, ending).1 == Drain(after, ending).1
  {
    DrainCons(before, ending, line, after);
  }

  /** l1 + e + l2 + e + ... + ln + e: n lines each followed by the ending. */
  function Terminated(lines: seq<string>, ending: string): string
  {
    if |lines| == 0 then "" else lines[0] + ending + Terminated(lines[1..], ending)
  }

  /** A line without ending characters followed by the whole ending pops back out. */
  lemma PopTerminatedLine(line: string, ending: string, rest: string)
    requires |ending| >= 1 && NoEnding(line, ending)
    ensures Pop(line + ending + rest, ending) == Popped(Some(line), rest)
  {
    var b := line + ending + rest;
    assert b[|line|] == ending[0];
    var n := Strcspn(b, ending);
    assert n == |line|;
    assert b[n..] == ending + rest;
    StrspnCovers(ending, rest);
    assert Stripped(b, ending, n) == |ending|;
    assert b[..n] == line;
    assert b[n + |ending|..] == rest;
  }

  /** A line followed by the whole ending, in front of a buffer, drains first. */
  lemma DrainPrepend(lines: seq<string>, ending: string, rest: string, tail: string)
    requires |ending| >= 1 && |lines| > 0 && NoEnding(lines[0], ending)
    requires Drain(rest, ending) == (lines[1..], tail)
    ensures Drain(lines[0] + ending + rest, ending) == (lines, tail)
  {
    PopTerminatedLine(lines[0], ending, rest);
    DrainCons(lines[0] + ending + rest, ending, lines[0], rest);
    assert [lines[0]] + lines[1..] == lines;
  }

  /** The characters of the ending itself are all in the ending set. */
  lemma StrspnCovers(ending: string, rest: string)
    ensures Strspn(ending + rest, ending) >= |ending|
  {
  }

  /**
   * Round trip: extending with l1 + e + ... + ln + e (no li holding an ending
   * character) and a tail without a complete line, then popping until no
   * line is left, yields l1..ln in order and leaves exactly the tail.
   */
  lemma {:induction false} DrainTerminated(lines: seq<string>, ending: string, tail: string)
    requires |ending| >= 1
    requires forall i | 0 <= i < |lines| :: NoEnding(lines[i], ending)
    requires NoEnding(tail, ending)
    ensures Drain(Terminated(lines, ending) + tail, ending) == (lines, tail)
  {
    if |lines| == 0 {
      assert Terminated(lines, ending) + tail == tail;
    } else {
      DrainTerminated(lines[1..], ending, tail);
      DrainTerminatedStep(lines, ending, tail);
    }
  }

  /** The first terminated line, then the rest. */
  lemma TerminatedCons(lines: seq<string>, ending: string, tail: string)
    requires |lines| > 0
    ensures Terminated(lines, ending) + tail == lines[0] + ending + (Terminated(lines[1..], ending) + tail)
  {
  }

  /** The inductive step of DrainTerminated: one more terminated line in front. */
  lemma DrainTerminatedStep(lines: seq<string>, ending: string, tail: string)
    requires |ending| >= 1 && |lines| > 0 && NoEnding(lines[0], ending)
    requires Drain(Terminated(lines[1..], ending) + tail, ending) == (lines[1..], tail)
    ensures Drain(Terminated(lines, ending) + tail, ending) == (lines, tail)
  {
    var rest := Terminated(lines[1..], ending) + tail;
    TerminatedCons(lines, ending, tail);
    DrainPrepend(lines, ending, rest, tail);
  }

  /** With ending "\n", "a\n\nb" pops "a", then the blank line "", leaving "b". */
  lemma BlankLineSurvives()
    ensures Pop("a\n\nb", "\n") == Popped(Some("a"), "\nb")
    ensures Pop("\nb", "\n") == Popped(Some(""), "b")
  {
    PopTerminatedLine("a", "\n", "\nb");
    assert "a\n\nb" == "a" + "\n" + "\nb";
    PopTerminatedLine("", "\n", "b");
    assert "\nb" == "" + "\n" + "b";
  }

  /** The PHP LineStringBuffer object. */
  class LineStringBuffer {
    var buffer: string
    var lineEnding: string

    /** A new buffer is empty; the ending defaults to "\n". */
    constructor (lineEnding: string := "\n")
      ensures buffer == "" && this.lineEnding == lineEnding
    {
      buffer := "";
      this.lineEnding := lineEnding;
    }

    method Clear()
      modifies this`buffer
      ensures buffer == ""
    {
      buffer := "";
    }

    /** `extend`: appends at the tail. */
    method Extend(tail: string)
      modifies this`buffer
      ensures buffer == old(buffer) + tail
    {
      buffer := buffer + tail;
    }

    /** `prepend`: adds at the head. */
    method Prepend(head: string)
      modifies this`buffer
      ensures buffer == head + old(buffer)
    {
      buffer := head + buffer;
    }

    method HasLine() returns (len: Option<nat>)
      ensures len == LineLength(buffer, lineEnding)
    {
      var n := Strcspn(buffer, lineEnding);
      if n != |buffer| {
        len := Some(n);
      } else {
        len := None;
      }
    }

    /** `popLine`: false (None) and no change when no complete line is buffered. */
    method PopLine() returns (line: Option<string>)
      modifies this`buffer
      ensures line == Pop(old(buffer), lineEnding).line
      ensures buffer == Pop(old(buffer), lineEnding).rest
    {
      var n := Strcspn(buffer, lineEnding);
      if n != |buffer| {
        line := Some(buffer[..n]);
        var rest := buffer[n..];
        var run := Strspn(rest, lineEnding);
        buffer := rest[if run < |lineEnding| then run else |lineEnding|..];
      } else {
        line := None;
      }
    }

    method GetBuffer() returns (s: string)
      ensures s == buffer
    {
      s := buffer;
    }
  }
}
