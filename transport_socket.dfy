/**
 * The state of a TransportSocket (a socket that reads and writes data) and
 * the specifications of what it does with a chunk it reads and with its
 * throttled write queue. The registry that owns the sockets, and the methods
 * that change them in place, are in module Sockets.
 *
 * Time is an integer clock given as input; `bps` is bytes per clock unit and
 * the peak factor is an integer.
 */
module TransportSockets {
  import opened Php
  import opened LineStringBuffers

  /** READING_MODE_LINES and READING_MODE_RAW. */
  const LinesMode: int := 0
  const RawMode: int := 1

  /**
   * The fields of a transport socket other than its resource. A PHP `null`
   * bps is None; `writingBuffer` is None when no writing LineStringBuffer
   * exists. The writing buffer's own line ending is `writingEnding` whenever
   * throttling is enabled: every assignment of either re-creates the buffer.
   */
  datatype Transport = Transport(
    readingMode: int,
    readingBuffer: string,
    readingEnding: string,
    throttleBps: Option<int>,
    throttlePeak: int,
    lastTime: int,
    writingBuffer: Option<string>,
    writingEnding: string)

  /** A new transport socket: line mode, "\n" for reading and writing, no throttling. */
  function InitialTransport(): (t: Transport)
    ensures t.readingMode == LinesMode && t.readingBuffer == ""
    ensures t.readingEnding == "\n" && t.writingEnding == "\n"
    ensures !ThrottlingEnabled(t) && Inv(t)
  {
    Transport(LinesMode, "", "\n", None, 0, 0, None, "\n")
  }

  /** PHP `$v != null` on an integer or null: false for null and for 0. */
  predicate LooseNotNull(v: Option<int>)
  {
    v.Some? && v.value != 0
  }

  /** `isWriteThrottlingEnabled` as documented: `writing_throttle_bps != null`. */
  predicate ThrottlingEnabled(t: Transport)
  {
    LooseNotNull(t.throttleBps)
  }

  /**
   * `isWriteThrottlingEnabled` as written: it compares a local variable that
   * is never assigned, so it is null whatever the fields hold.
   */
  function ThrottlingEnabledAsWritten(t: Transport): (r: bool)
    ensures !r
  {
    var undeclaredLocal: Option<int> := None;
    LooseNotNull(undeclaredLocal)
  }

  /** Enabling throttling with bps 10 is not seen by the code as written. */
  lemma ThrottlingLostAsWritten()
    ensures ThrottlingEnabled(EnableThrottling(InitialTransport(), 10, 2))
    ensures !ThrottlingEnabledAsWritten(EnableThrottling(InitialTransport(), 10, 2))
  {
  }

  /** While throttling is enabled a writing buffer exists. */
  predicate Inv(t: Transport)
  {
    ThrottlingEnabled(t) ==> t.writingBuffer.Some?
  }

  /** `enableWriteThrottling`: a fresh empty writing buffer and last time 0. */
  function EnableThrottling(t: Transport, bps: int, peak: int): (r: Transport)
    ensures Inv(r) && r.writingBuffer == Some("") && r.lastTime == 0
    ensures ThrottlingEnabled(r) <==> bps != 0
    ensures r.readingBuffer == t.readingBuffer && r.writingEnding == t.writingEnding
  {
    t.(throttleBps := Some(bps), throttlePeak := peak, lastTime := 0, writingBuffer := Some(""))
  }

  /** `disableWriteThrottling`: bps and peak null, last time 0, no writing buffer. */
  function DisableThrottling(t: Transport): (r: Transport)
    ensures Inv(r) && !ThrottlingEnabled(r) && r.writingBuffer.None?
    ensures r.readingBuffer == t.readingBuffer && r.writingEnding == t.writingEnding
  {
    t.(throttleBps := None, throttlePeak := 0, lastTime := 0, writingBuffer := None)
  }

  /** `setReadingLineEnding`: a new reading buffer, so buffered data is dropped. */
  function SetReadingEnding(t: Transport, ending: string): (r: Transport)
    ensures r.readingBuffer == "" && r.readingEnding == ending
    ensures Inv(t) ==> Inv(r)
    ensures r.writingBuffer == t.writingBuffer && r.writingEnding == t.writingEnding
  {
    t.(readingBuffer := "", readingEnding := ending)
  }

  /** `setWritingLineEnding`: empties the writing buffer only while throttling is on. */
  function SetWritingEnding(t: Transport, ending: string): (r: Transport)
    ensures r.writingEnding == ending
    ensures ThrottlingEnabled(t) ==> r.writingBuffer == Some("")
    ensures !ThrottlingEnabled(t) ==> r.writingBuffer == t.writingBuffer
    ensures Inv(t) ==> Inv(r)
    ensures r.readingBuffer == t.readingBuffer && r.readingEnding == t.readingEnding
  {
    var t' := t.(writingEnding := ending);
    if ThrottlingEnabled(t) then t'.(writingBuffer := Some("")) else t'
  }

  /** `setLineEnding`: both endings, reading buffer emptied. */
  function SetLineEnding(t: Transport, ending: string): (r: Transport)
    ensures r.readingEnding == ending && r.writingEnding == ending && r.readingBuffer == ""
    ensures Inv(t) ==> Inv(r)
  {
    SetWritingEnding(SetReadingEnding(t, ending), ending)
  }

  /**
   * What throttled `writeLine` queues: the line and the writing ending. A
   * line whose length with the ending exceeds bps * peak is cut with
   * `substr(line, 0, output_throttle_bps * output_throttle_peak)`; those
   * fields do not exist, the length is null * null = 0, and the line
   * becomes "".
   */
  function Queued(t: Transport, line: string): (q: string)
    ensures |line + t.writingEnding| > t.throttleBps.value * t.throttlePeak ==> q == t.writingEnding
    ensures |line + t.writingEnding| <= t.throttleBps.value * t.throttlePeak ==> q == line + t.writingEnding
    requires t.throttleBps.Some?
  {
    var undefinedBps, undefinedPeak := 0, 0;
    var kept := if |line + t.writingEnding| > t.throttleBps.value * t.throttlePeak
      then line[..undefinedBps * undefinedPeak] else line;
    kept + t.writingEnding
  }

  /** What handling a readable socket does: new state, read events, and whether it closes. */
  datatype Reaction = Reaction(t: Transport, events: seq<string>, closed: bool)

  /**
   * `handleSelectEvent` of a transport socket, given `socket_read`'s result
   * (None for false). A false or `empty()` chunk, "0" included, closes the
   * socket; in line mode the non-empty leftover is read out first. Line mode
   * drains every complete line; raw mode passes the chunk on; any other mode
   * throws.
   */
  function OnReadable(t: Transport, read: Option<string>): (r: Result<Reaction, string>)
    ensures r.Err? <==> read.Some? && !Empty(read.value) && t.readingMode != LinesMode && t.readingMode != RawMode
    ensures r.Ok? ==> (r.value.closed <==> read.None? || Empty(read.value))
    ensures r.Ok? && r.value.closed ==> r.value.t == t
    ensures r.Ok? && r.value.closed ==> r.value.events == if t.readingMode == LinesMode && t.readingBuffer != "" then [t.readingBuffer] else []
    ensures r.Ok? && !r.value.closed && t.readingMode == RawMode ==> r.value == Reaction(t, [read.value], false)
    ensures r.Ok? && !r.value.closed && t.readingMode == LinesMode ==>
      && LineLength(r.value.t.readingBuffer, t.readingEnding).None?
      && (forall i | 0 <= i < |r.value.events| :: NoEnding(r.value.events[i], t.readingEnding))
      && r.value.t == t.(readingBuffer := r.value.t.readingBuffer)
  {
    if read.Some? && !Empty(read.value) then
      if t.readingMode == LinesMode then
        var d := Drain(t.readingBuffer + read.value, t.readingEnding);
        DrainFacts(t.readingBuffer + read.value, t.readingEnding);
        Ok(Reaction(t.(readingBuffer := d.1), d.0, false))
      else if t.readingMode == RawMode then
        Ok(Reaction(t, [read.value], false))
      else
        Err("Invalid reading mode")
    else
      var leftover := if t.readingMode == LinesMode && t.readingBuffer != "" then [t.readingBuffer] else [];
      Ok(Reaction(t, leftover, true))
  }

  /** A buffered partial line is completed by the first line of the next chunk. */
  lemma TerminatedPrefix(b: string, lines: seq<string>, ending: string, tail: string)
    requires |lines| >= 1
    ensures b + (Terminated(lines, ending) + tail) == Terminated([b + lines[0]] + lines[1..], ending) + tail
  {
    var lines' := [b + lines[0]] + lines[1..];
    assert lines'[0] == b + lines[0] && lines'[1..] == lines[1..];
    assert Terminated(lines', ending) == b + Terminated(lines, ending);
  }

  /**
   * Line mode: a chunk l1 + e + ... + ln + e + tail, read into a buffer
   * holding a partial line b, raises the read events b + l1, l2, ..., ln in
   * order and keeps tail buffered.
   */
  lemma ReadsCompleteLines(t: Transport, lines: seq<string>, tail: string)
    requires t.readingMode == LinesMode && |t.readingEnding| >= 1 && |lines| >= 1
    requires NoEnding(t.readingBuffer, t.readingEnding)
    requires forall i | 0 <= i < |lines| :: NoEnding(lines[i], t.readingEnding)
    requires NoEnding(tail, t.readingEnding)
    requires !Empty(Terminated(lines, t.readingEnding) + tail)
    ensures var chunk := Terminated(lines, t.readingEnding) + tail;
      OnReadable(t, Some(chunk)) == Ok(Reaction(t.(readingBuffer := tail), [t.readingBuffer + lines[0]] + lines[1..], false))
  {
    var e := t.readingEnding;
    var b := t.readingBuffer;
    var chunk := Terminated(lines, e) + tail;
    var lines' := [b + lines[0]] + lines[1..];
    assert Drain(b + chunk, e) == (lines', tail) by {
      TerminatedPrefix(b, lines, e, tail);
      CompletedLines(b, lines, e);
      DrainTerminated(lines', e, tail);
    }
    OnReadableLines(t, chunk);
  }

  /** A non-empty chunk in line mode is drained together with what was buffered. */
  lemma OnReadableLines(t: Transport, chunk: string)
    requires t.readingMode == LinesMode && !Empty(chunk)
    ensures var d := Drain(t.readingBuffer + chunk, t.readingEnding);
      OnReadable(t, Some(chunk)) == Ok(Reaction(t.(readingBuffer := d.1), d.0, false))
  {
  }

  /** Completing the first line with a buffered partial line keeps every line free of endings. */
  lemma CompletedLines(b: string, lines: seq<string>, ending: string)
    requires |lines| >= 1 && NoEnding(b, ending)
    requires forall i | 0 <= i < |lines| :: NoEnding(lines[i], ending)
    ensures var lines' := [b + lines[0]] + lines[1..];
      forall i | 0 <= i < |lines'| :: NoEnding(lines'[i], ending)
  {
    var lines' := [b + lines[0]] + lines[1..];
    NoEndingConcat(b, lines[0], ending);
    forall i | 1 <= i < |lines'|
      ensures NoEnding(lines'[i], ending)
    {
      assert lines'[i] == lines[i];
    }
  }

  /** Two texts without ending characters concatenate to one. */
  lemma NoEndingConcat(a: string, b: string, ending: string)
    requires NoEnding(a, ending) && NoEnding(b, ending)
    ensures NoEnding(a + b, ending)
  {
    forall j | 0 <= j < |a + b|
      ensures (a + b)[j] !in ending
    {
      if j >= |a| {
        assert (a + b)[j] == b[j - |a|];
      }
    }
  }

  /** The chunk "0" counts as `empty()`: it closes the socket like a false read. */
  lemma ZeroChunkCloses(t: Transport)
    requires t.readingMode == LinesMode
    ensures OnReadable(t, Some("0")) == OnReadable(t, None)
    ensures OnReadable(t, Some("0")).value.closed
  {
  }

  /** The bytes a tick may send: min(elapsed * bps, bps * peak). */
  function Quota(now: int, lastTime: int, bps: int, peak: int): (q: int)
    ensures q <= bps * peak && q <= (now - lastTime) * bps
    ensures q == bps * peak || q == (now - lastTime) * bps
  {
    var elapsed := (now - lastTime) * bps;
    if elapsed < bps * peak then elapsed else bps * peak
  }

  /** Total length of the sent strings. */
  function TotalLen(sent: seq<string>): nat
  {
    if |sent| == 0 then 0 else |sent[0]| + TotalLen(sent[1..])
  }

  /** What a post-poll flush sends, what stays queued, and whether any write succeeded. */
  datatype Flushed = Flushed(sent: seq<string>, buffer: string, wrote: bool)

  /**
   * The post-poll flush loop on a writing buffer: while a complete line is
   * queued and it fits the remaining quota (its length plus the ending), pop
   * it and write line + ending. `fails` holds the numbers of the write
   * attempts that fail; a failed line is dropped and costs no quota.
   */
  function Flush(buffer: string, ending: string, quota: int, fails: set<nat>, attempt: nat): Flushed
    decreases |buffer|
  {
    var p := Pop(buffer, ending);
    if p.line.None? then Flushed([], buffer, false)
    else
      var cost := |p.line.value| + |ending|;
      if quota < cost then Flushed([], buffer, false)
      else if attempt in fails then Flush(p.rest, ending, quota, fails, attempt + 1)
      else
        var f := Flush(p.rest, ending, quota - cost, fails, attempt + 1);
        Flushed([p.line.value + ending] + f.sent, f.buffer, true)
  }

  /**
   * The flush never spends more than the quota, and it records a write
   * exactly when it sent something.
   */
  lemma {:induction false} FlushWithinQuota(buffer: string, ending: string, quota: int, fails: set<nat>, attempt: nat)
    ensures var f := Flush(buffer, ending, quota, fails, attempt);
      && (f.sent != [] ==> TotalLen(f.sent) <= quota)
      && (f.wrote <==> f.sent != [])
    decreases |buffer|
  {
    var p := Pop(buffer, ending);
    if p.line.Some? {
      var cost := |p.line.value| + |ending|;
      if quota >= cost {
        if attempt in fails {
          FlushWithinQuota(p.rest, ending, quota, fails, attempt + 1);
        } else {
          FlushWithinQuota(p.rest, ending, quota - cost, fails, attempt + 1);
          var f := Flush(p.rest, ending, quota - cost, fails, attempt + 1);
          var sent := [p.line.value + ending] + f.sent;
          assert sent[1..] == f.sent;
        }
      }
    }
  }

  /**
   * The flush stops only when no complete line is queued or the first
   * queued line costs more than the quota left.
   */
  lemma {:induction false} FlushStopsOverQuota(buffer: string, ending: string, quota: int, fails: set<nat>, attempt: nat)
    ensures var f := Flush(buffer, ending, quota, fails, attempt);
      LineLength(f.buffer, ending).None? || LineLength(f.buffer, ending).value + |ending| > quota - TotalLen(f.sent)
    decreases |buffer|
  {
    var p := Pop(buffer, ending);
    if p.line.Some? {
      var cost := |p.line.value| + |ending|;
      if quota >= cost {
        if attempt in fails {
          FlushStopsOverQuota(p.rest, ending, quota, fails, attempt + 1);
        } else {
          FlushStopsOverQuota(p.rest, ending, quota - cost, fails, attempt + 1);
          var f := Flush(p.rest, ending, quota - cost, fails, attempt + 1);
          var sent := [p.line.value + ending] + f.sent;
          assert sent[1..] == f.sent;
        }
      }
    }
  }

  /** The flush ends at once when no complete line is queued or the first one does not fit. */
  lemma FlushDone(b: string, ending: string, quota: int, fails: set<nat>, attempt: nat)
    requires LineLength(b, ending).None? || LineLength(b, ending).value + |ending| > quota
    ensures Flush(b, ending, quota, fails, attempt) == Flushed([], b, false)
  {
    if Pop(b, ending).line.Some? {
      PopLineFacts(b, ending);
    }
  }

  /** One step of the flush: a line whose write fails is dropped without cost. */
  lemma FlushFailedStep(b: string, ending: string, quota: int, fails: set<nat>, attempt: nat, line: string, rest: string)
    requires Pop(b, ending) == Popped(Some(line), rest)
    requires |line| + |ending| <= quota && attempt in fails
    ensures Flush(b, ending, quota, fails, attempt) == Flush(rest, ending, quota, fails, attempt + 1)
  {
  }

  /** One step of the flush: a line that fits and is written goes out first. */
  lemma FlushStep(b: string, ending: string, quota: int, fails: set<nat>, attempt: nat, line: string, rest: string)
    requires Pop(b, ending) == Popped(Some(line), rest)
    requires |line| + |ending| <= quota && attempt !in fails
    ensures var f := Flush(rest, ending, quota - (|line| + |ending|), fails, attempt + 1);
      Flush(b, ending, quota, fails, attempt) == Flushed([line + ending] + f.sent, f.buffer, true)
  {
  }

  /** Everything a tick sends fits the peak allowance bps * peak. */
  lemma FlushWithinPeak(buffer: string, ending: string, now: int, lastTime: int, bps: int, peak: int, fails: set<nat>)
    ensures TotalLen(Flush(buffer, ending, Quota(now, lastTime, bps, peak), fails, 0).sent) <= if bps * peak < 0 then 0 else bps * peak
  {
    FlushWithinQuota(buffer, ending, Quota(now, lastTime, bps, peak), fails, 0);
  }

  /** Sum of the costs of l1..ln, each line plus the ending. */
  function LinesCost(lines: seq<string>, ending: string): nat
  {
    if |lines| == 0 then 0 else |lines[0]| + |ending| + LinesCost(lines[1..], ending)
  }

  /** Each line with the ending appended. */
  function WithEnding(lines: seq<string>, ending: string): (r: seq<string>)
    ensures |r| == |lines| && forall i | 0 <= i < |r| :: r[i] == lines[i] + ending
  {
    seq(|lines|, i requires 0 <= i < |lines| => lines[i] + ending)
  }

  /**
   * Queue order is send order: with no failed write and quota for all of
   * them, the queued lines l1 + e ... ln + e go out in order and only the
   * incomplete tail stays queued.
   */
  lemma {:induction false} FlushSendsInOrder(lines: seq<string>, ending: string, tail: string, quota: int, fails: set<nat>, attempt: nat)
    requires fails == {}
    requires |ending| >= 1
    requires forall i | 0 <= i < |lines| :: NoEnding(lines[i], ending)
    requires NoEnding(tail, ending)
    requires LinesCost(lines, ending) <= quota
    ensures Flush(Terminated(lines, ending) + tail, ending, quota, fails, attempt)
      == Flushed(WithEnding(lines, ending), tail, lines != [])
    decreases |lines|, 1
  {
    var b := Terminated(lines, ending) + tail;
    if |lines| == 0 {
      assert b == tail;
    } else {
      var rest := Terminated(lines[1..], ending) + tail;
      var cost := |lines[0]| + |ending|;
      var f := Flush(rest, ending, quota - cost, fails, attempt + 1);
      assert Flush(b, ending, quota, fails, attempt) == Flushed([lines[0] + ending] + f.sent, f.buffer, true) by {
        assert b == lines[0] + ending + rest;
        PopTerminatedLine(lines[0], ending, rest);
        FlushStep(b, ending, quota, fails, attempt, lines[0], rest);
      }
      FlushRestInOrder(lines, ending, tail, quota, fails, attempt);
      WithEndingCons(lines, ending);
    }
  }

  lemma WithEndingCons(lines: seq<string>, ending: string)
    requires |lines| >= 1
    ensures [lines[0] + ending] + WithEnding(lines[1..], ending) == WithEnding(lines, ending)
  {
  }

  /** The induction step of FlushSendsInOrder: the remaining lines, with the quota left. */
  lemma FlushRestInOrder(lines: seq<string>, ending: string, tail: string, quota: int, fails: set<nat>, attempt: nat)
    requires fails == {}
    requires |ending| >= 1 && |lines| >= 1
    requires forall i | 0 <= i < |lines| :: NoEnding(lines[i], ending)
    requires NoEnding(tail, ending)
    requires LinesCost(lines, ending) <= quota
    ensures Flush(Terminated(lines[1..], ending) + tail, ending, quota - |lines[0]| - |ending|, fails, attempt + 1)
      == Flushed(WithEnding(lines[1..], ending), tail, lines[1..] != [])
    decreases |lines|, 0
  {
    FlushSendsInOrder(lines[1..], ending, tail, quota - |lines[0]| - |ending|, fails, attempt + 1);
  }

  /** A queued line that does not fit the quota blocks everything behind it. */
  lemma FlushStopsAtFirstOverQuota(line: string, ending: string, rest: string, quota: int, fails: set<nat>, attempt: nat)
    requires |ending| >= 1 && NoEnding(line, ending)
    requires |line| + |ending| > quota
    ensures Flush(line + ending + rest, ending, quota, fails, attempt) == Flushed([], line + ending + rest, false)
  {
    PopTerminatedLine(line, ending, rest);
  }

  /** A failed write drops its line and leaves the whole quota to the next one. */
  lemma FailedWriteDropsLine(line: string, ending: string, rest: string, quota: int, fails: set<nat>, attempt: nat)
    requires |ending| >= 1 && NoEnding(line, ending)
    requires |line| + |ending| <= quota && attempt in fails
    ensures Flush(line + ending + rest, ending, quota, fails, attempt) == Flush(rest, ending, quota, fails, attempt + 1)
  {
    PopTerminatedLine(line, ending, rest);
  }
}
