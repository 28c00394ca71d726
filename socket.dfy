/**
 * The process-wide socket registry and its three-phase poll.
 *
 * PHP keeps every socket in a static array keyed by a socket id drawn from a
 * static counter. Here a Reactor object holds that state: `sockets` maps
 * every id ever handed out to the socket object's fields, `registry` is the
 * static array (its keys in insertion order), `nextId` is the counter and
 * `trace` records, in order, the events the sockets trigger (read, sent,
 * disconnected, accepted); what each listener then receives is
 * `Events.FanOut`. The operating system (select, read, write, accept) and
 * the clock are inputs; `calls` records which handler `poll` invoked when.
 */
module Sockets {
  import opened Php
  import opened LineStringBuffers
  import opened TransportSockets

  /** A transport socket (a client or an accepted child) or a listening server with its children. */
  datatype Kind = TransportKind(t: Transport) | ServerKind(children: seq<int>)

  /** A socket object: its resource (None for null) and the fields of its class. */
  datatype Sock = Sock(handle: Option<int>, kind: Kind)

  /** One event trigger: which event of which socket, with which data. */
  datatype Record =
    | Read(id: int, data: string)
    | Sent(id: int, data: string)
    | Disconnected(id: int)
    | Accepted(server: int, child: int)

  datatype Phase = Pre | Select | Post

  /** One handler invocation made by `poll`. */
  datatype Call = Call(phase: Phase, id: int)

  /**
   * What the operating system and the clock answer during one poll: the ids
   * `socket_select` reports readable, what the k-th dispatched read or accept
   * returns (None for false), the time, and which write attempts fail.
   */
  datatype Io = Io(
    ready: set<int>,
    read: nat -> Option<string>,
    accept: nat -> Option<int>,
    now: int,
    writeFails: set<(int, nat)>)

  predicate Increasing(s: seq<int>)
  {
    forall i, j | 0 <= i < j < |s| :: s[i] < s[j]
  }

  /** The ids without x (PHP `unset` on the registry), in the same order. */
  function Without(s: seq<int>, x: int): (r: seq<int>)
    ensures forall y :: y in r <==> y in s && y != x
    ensures Increasing(s) ==> Increasing(r)
  {
    if |s| == 0 then []
    else
      var init := Without(s[..|s| - 1], x);
      var last := s[|s| - 1];
      assert forall y | y in s[..|s| - 1] :: y in s;
      if last == x then init
      else
        assert Increasing(s) ==> Increasing(init + [last]) by {
          if Increasing(s) {
            assert Increasing(s[..|s| - 1]);
            forall i | 0 <= i < |init|
              ensures init[i] < last
            {
              assert init[i] in s[..|s| - 1];
            }
          }
        }
        init + [last]
  }

  /** Whether the socket an id names has a non-null resource. */
  predicate Live(socks: map<int, Sock>, id: int)
  {
    id in socks && socks[id].handle.Some?
  }

  /** A server's pre-poll: the children that are still connected, in the same order. */
  function Prune(children: seq<int>, socks: map<int, Sock>): (r: seq<int>)
    ensures forall c :: c in r <==> c in children && Live(socks, c)
    ensures |r| <= |children|
  {
    if |children| == 0 then []
    else
      var init := Prune(children[..|children| - 1], socks);
      var last := children[|children| - 1];
      assert forall y | y in children[..|children| - 1] :: y in children;
      if Live(socks, last) then init + [last] else init
  }

  /** Pruning depends on nothing but which sockets are connected. */
  lemma {:induction false} PruneSameLive(children: seq<int>, m1: map<int, Sock>, m2: map<int, Sock>)
    requires forall c | c in children :: Live(m1, c) == Live(m2, c)
    ensures Prune(children, m1) == Prune(children, m2)
  {
    if |children| > 0 {
      assert forall c | c in children[..|children| - 1] :: c in children;
      PruneSameLive(children[..|children| - 1], m1, m2);
    }
  }

  /** Pre-poll is idempotent: pruning again removes nothing. */
  lemma {:induction false} PruneIdempotent(children: seq<int>, socks: map<int, Sock>)
    ensures Prune(Prune(children, socks), socks) == Prune(children, socks)
  {
    if |children| > 0 {
      var init := children[..|children| - 1];
      var last := children[|children| - 1];
      PruneIdempotent(init, socks);
      var p := Prune(init, socks);
      if Live(socks, last) {
        assert (p + [last])[..|p + [last]| - 1] == p;
      }
    }
  }

  /** The (id, resource) pairs offered to select: every connected registered socket, in order. */
  function Readers(registry: seq<int>, socks: map<int, Sock>): (r: seq<(int, int)>)
    ensures forall p :: p in r <==> p.0 in registry && p.0 in socks && socks[p.0].handle == Some(p.1)
  {
    if |registry| == 0 then []
    else
      var init := Readers(registry[..|registry| - 1], socks);
      var id := registry[|registry| - 1];
      assert forall y | y in registry[..|registry| - 1] :: y in registry;
      assert forall y | y in registry :: y in registry[..|registry| - 1] || y == id;
      if Live(socks, id) then init + [(id, socks[id].handle.value)] else init
  }

  /** The offered pairs depend on nothing but the resources of the sockets. */
  lemma {:induction false} ReadersSameHandles(registry: seq<int>, m1: map<int, Sock>, m2: map<int, Sock>)
    requires forall x :: (x in m1 <==> x in m2)
    requires forall x | x in m1 :: m1[x].handle == m2[x].handle
    ensures Readers(registry, m1) == Readers(registry, m2)
  {
    if |registry| > 0 {
      ReadersSameHandles(registry[..|registry| - 1], m1, m2);
    }
  }

  /** `socket_select`'s answer: the offered pairs whose socket is readable, in order. */
  function Selected(readers: seq<(int, int)>, ready: set<int>): (r: seq<(int, int)>)
    ensures forall p :: p in r <==> p in readers && p.0 in ready
    ensures |r| <= |readers|
  {
    if |readers| == 0 then []
    else
      var init := Selected(readers[..|readers| - 1], ready);
      var last := readers[|readers| - 1];
      assert forall y | y in readers[..|readers| - 1] :: y in readers;
      assert forall y | y in readers :: y in readers[..|readers| - 1] || y == last;
      if last.0 in ready then init + [last] else init
  }

  /** When select reports nothing readable among the offered sockets, nothing is dispatched. */
  lemma NothingReady(readers: seq<(int, int)>, ready: set<int>)
    requires forall p | p in readers :: p.0 !in ready
    ensures Selected(readers, ready) == []
  {
  }

  /** The first registered socket whose resource is h. */
  function Owner(registry: seq<int>, socks: map<int, Sock>, h: int): (o: Option<int>)
    ensures o.Some? ==> o.value in registry && o.value in socks && socks[o.value].handle == Some(h)
    ensures o.None? ==> forall i | 0 <= i < |registry| :: !(registry[i] in socks && socks[registry[i]].handle == Some(h))
  {
    if |registry| == 0 then None
    else if registry[0] in socks && socks[registry[0]].handle == Some(h) then Some(registry[0])
    else
      var o := Owner(registry[1..], socks, h);
      assert forall i | 1 <= i < |registry| :: registry[i] == registry[1..][i - 1];
      o
  }

  /** No socket registered before the owner has the resource. */
  lemma {:induction false} OwnerIsFirst(registry: seq<int>, socks: map<int, Sock>, h: int, i: int)
    requires 0 <= i < |registry| && Owner(registry, socks, h).Some?
    requires registry[i] in socks && socks[registry[i]].handle == Some(h)
    ensures exists j | 0 <= j <= i :: registry[j] == Owner(registry, socks, h).value
  {
    if !(registry[0] in socks && socks[registry[0]].handle == Some(h)) {
      OwnerIsFirst(registry[1..], socks, h, i - 1);
      var j :| 0 <= j <= i - 1 && registry[1..][j] == Owner(registry[1..], socks, h).value;
      assert registry[j + 1] == Owner(registry, socks, h).value;
    }
  }

  /** What `disconnect` leaves: no resource; a connected transport also loses its read buffer. */
  function Closed(s: Sock): (r: Sock)
    ensures r.handle.None?
    ensures s.kind.ServerKind? ==> r.kind == s.kind
    ensures s.kind.TransportKind? && s.handle.None? ==> r.kind == s.kind
    ensures s.kind.TransportKind? && s.handle.Some? ==> r.kind == TransportKind(s.kind.t.(readingBuffer := ""))
  {
    match s.kind
    case ServerKind(_) => s.(handle := None)
    case TransportKind(t) =>
      if s.handle.Some? then Sock(None, TransportKind(t.(readingBuffer := ""))) else s.(handle := None)
  }

  /** The read events for a list of read strings, in order. */
  function Reads(id: int, data: seq<string>): seq<Record>
  {
    if |data| == 0 then [] else Reads(id, data[..|data| - 1]) + [Read(id, data[|data| - 1])]
  }

  /** The send events for a list of sent strings, in order. */
  function Sends(id: int, data: seq<string>): seq<Record>
  {
    if |data| == 0 then [] else Sends(id, data[..|data| - 1]) + [Sent(id, data[|data| - 1])]
  }

  /** One call record per id, in order. */
  function Calls(phase: Phase, ids: seq<int>): seq<Call>
  {
    if |ids| == 0 then [] else Calls(phase, ids[..|ids| - 1]) + [Call(phase, ids[|ids| - 1])]
  }

  function WithTransport(s: Sock, t: Transport): Sock
  {
    s.(kind := TransportKind(t))
  }

  /**
   * The line-mode drain loop of `handleSelectEvent`, on a LineStringBuffer:
   * while the buffer holds a complete line, pop it; the popped lines, in
   * order, are what fires read events, and the incomplete rest stays buffered.
   */
  method DrainLines(buffered: string, ending: string) returns (lines: seq<string>, rest: string)
    ensures (lines, rest) == Drain(buffered, ending)
  {
    var buffer := new LineStringBuffer(ending);
    buffer.Extend(buffered);
    assert buffer.buffer == buffered;
    ghost var cur := buffered;
    lines := [];
    var len := buffer.HasLine();
    while len.Some?
      invariant buffer.lineEnding == ending && buffer.buffer == cur
      invariant len == LineLength(cur, ending)
      invariant lines + Drain(cur, ending).0 == Drain(buffered, ending).0
      invariant Drain(cur, ending).1 == Drain(buffered, ending).1
      decreases |cur|
    {
      PopHasLine(cur, ending);
      var line := buffer.PopLine();
      ghost var after := buffer.buffer;
      assert lines + Drain(cur, ending).0 == (lines + [line.value]) + Drain(after, ending).0
          && Drain(cur, ending).1 == Drain(after, ending).1 by {
        DrainAdvance(lines, cur, ending, line.value, after);
      }
      lines := lines + [line.value];
      cur := after;
      len := buffer.HasLine();
    }
    DrainNone(cur, ending);
    assert lines + [] == lines;
    rest := buffer.GetBuffer();
  }

  /**
   * The flush loop's invariant: what was sent so far, followed by what a
   * flush of the remaining buffer sends, is the whole flush F.
   */
  ghost predicate FlushRemains(F: Flushed, sent: seq<string>, wrote: bool, b: string, ending: string, quota: int, fails: set<nat>, k: nat)
  {
    var f := Flush(b, ending, quota, fails, k);
    sent + f.sent == F.sent && f.buffer == F.buffer && (wrote || f.wrote) == F.wrote
  }

  /** An iteration of the flush loop whose write succeeds keeps FlushRemains. */
  lemma FlushAdvance(F: Flushed, sent: seq<string>, wrote: bool, b: string, ending: string, quota: int, fails: set<nat>, k: nat, line: string, rest: string, cost: int)
    requires Pop(b, ending) == Popped(Some(line), rest)
    requires cost == |line| + |ending| <= quota && k !in fails
    requires FlushRemains(F, sent, wrote, b, ending, quota, fails, k)
    ensures FlushRemains(F, sent + [line + ending], true, rest, ending, quota - cost, fails, k + 1)
  {
    var f0 := Flush(b, ending, quota, fails, k);
    var f := Flush(rest, ending, quota - cost, fails, k + 1);
    assert f0 == Flushed([line + ending] + f.sent, f.buffer, true) by {
      FlushStep(b, ending, quota, fails, k, line, rest);
    }
    assert (sent + [line + ending]) + f.sent == sent + f0.sent;
  }

  /** An iteration of the flush loop whose write fails keeps FlushRemains. */
  lemma FlushAdvanceFailed(F: Flushed, sent: seq<string>, wrote: bool, b: string, ending: string, quota: int, fails: set<nat>, k: nat, line: string, rest: string)
    requires Pop(b, ending) == Popped(Some(line), rest)
    requires |line| + |ending| <= quota && k in fails
    requires FlushRemains(F, sent, wrote, b, ending, quota, fails, k)
    ensures FlushRemains(F, sent, wrote, rest, ending, quota, fails, k + 1)
  {
    FlushFailedStep(b, ending, quota, fails, k, line, rest);
  }

  /**
   * The flush loop of `handlePostPollEvent` on a writing buffer: while a
   * complete line is queued and fits the quota left, pop it and write it
   * with the ending; a successful write fires the send event and uses up
   * quota, a failed one drops the line.
   */
  method FlushQueue(queued: string, ending: string, quota: int, fails: set<nat>) returns (sent: seq<string>, rest: string, wrote: bool)
    ensures Flushed(sent, rest, wrote) == Flush(queued, ending, quota, fails, 0)
  {
    var buffer := new LineStringBuffer(ending);
    buffer.Extend(queued);
    assert buffer.buffer == queued;
    ghost var F := Flush(queued, ending, quota, fails, 0);
    ghost var cur := queued;
    sent := [];
    var left := quota;
    var k: nat := 0;
    wrote := false;
    assert FlushRemains(F, sent, wrote, cur, ending, left, fails, k);
    var len := buffer.HasLine();
    while len.Some?
      invariant buffer.lineEnding == ending && buffer.buffer == cur
      invariant len == LineLength(cur, ending)
      invariant FlushRemains(F, sent, wrote, cur, ending, left, fails, k)
      decreases |cur|
    {
      var cost := len.value + |ending|;
      if left < cost {
        FlushDone(cur, ending, left, fails, k);
        break;
      }
      PopHasLine(cur, ending);
      PopLineFacts(cur, ending);
      var line := buffer.PopLine();
      ghost var after := buffer.buffer;
      assert Pop(cur, ending) == Popped(Some(line.value), after);
      if k !in fails {
        FlushAdvance(F, sent, wrote, cur, ending, left, fails, k, line.value, after, cost);
        sent := sent + [line.value + ending];
        left := left - cost;
        wrote := true;
      } else {
        FlushAdvanceFailed(F, sent, wrote, cur, ending, left, fails, k, line.value, after);
      }
      cur := after;
      k := k + 1;
      len := buffer.HasLine();
    }
    if len.None? {
      FlushDone(cur, ending, left, fails, k);
    }
    assert sent + [] == sent;
    rest := buffer.GetBuffer();
  }

  /**
   * Every id below the counter names a socket; the registry holds known
   * ids in strictly increasing (insertion) order; transports keep a
   * writing buffer while throttled.
   */
  /**
   * Why a dispatch phase ended early: the next selected resource has no
   * registered owner, or the handler just dispatched threw on its read.
   */
  predicate Stopped(socks: map<int, Sock>, registry: seq<int>, selected: seq<(int, int)>, dispatched: seq<int>, read: nat -> Option<string>)
  {
    || (|dispatched| < |selected| && Owner(registry, socks, selected[|dispatched|].1).None?)
    || (0 < |dispatched| <= |selected| &&
        var last := dispatched[|dispatched| - 1];
        last in socks && socks[last].kind.TransportKind? && OnReadable(socks[last].kind.t, read(|dispatched| - 1)).Err?)
  }

  ghost predicate Consistent(sockets: map<int, Sock>, registry: seq<int>, nextId: nat)
  {
    && (forall id :: id in sockets <==> 0 <= id < nextId)
    && (forall i | 0 <= i < |registry| :: registry[i] in sockets)
    && Increasing(registry)
    && (forall id | id in sockets && sockets[id].kind.TransportKind? :: Inv(sockets[id].kind.t))
  }

  /** Replacing a known socket by one that keeps the transport invariant keeps the state consistent. */
  lemma ReplaceConsistent(sockets: map<int, Sock>, registry: seq<int>, nextId: nat, id: int, s: Sock)
    requires Consistent(sockets, registry, nextId) && id in sockets
    requires s.kind.TransportKind? ==> Inv(s.kind.t)
    ensures Consistent(sockets[id := s], registry, nextId)
  {
    assert sockets[id := s].Keys == sockets.Keys;
  }

  class Reactor {
    var sockets: map<int, Sock>
    var registry: seq<int>
    var nextId: nat
    var trace: seq<Record>
    ghost var calls: seq<Call>

    /**
     * Every id below the counter names a socket; the registry holds known
     * ids in strictly increasing (insertion) order; transports keep a
     * writing buffer while throttled.
     */
    ghost predicate Valid()
      reads this
    {
      Consistent(sockets, registry, nextId)
    }

    /** The static state before any socket exists. */
    constructor ()
      ensures Valid()
      ensures sockets == map[] && registry == [] && nextId == 0 && trace == [] && calls == []
    {
      sockets := map[];
      registry := [];
      nextId := 0;
      trace := [];
      calls := [];
    }

    /** `isConnected`: the resource is not null. */
    predicate IsConnected(id: int)
      reads this
      requires id in sockets
    {
      sockets[id].handle.Some?
    }

    /**
     * The Socket constructor: the new socket takes the counter's value as
     * its id, is added to the registry under it, and the counter moves on.
     */
    method Register(s: Sock) returns (id: int)
      requires Valid() && (s.kind.TransportKind? ==> Inv(s.kind.t))
      modifies this`sockets, this`registry, this`nextId
      ensures Valid()
      ensures id == old(nextId) && nextId == id + 1
      ensures id !in old(sockets) && sockets == old(sockets)[id := s]
      ensures registry == old(registry) + [id]
      ensures forall i | 0 <= i < |old(registry)| :: old(registry)[i] < id
    {
      id := nextId;
      sockets := sockets[id := s];
      registry := registry + [id];
      nextId := nextId + 1;
      assert forall x :: x in sockets <==> x in old(sockets) || x == id;
    }

    /** A new transport socket: unconnected, with the transport defaults. */
    method CreateTransport() returns (id: int)
      requires Valid()
      modifies this`sockets, this`registry, this`nextId
      ensures Valid()
      ensures id == old(nextId) && nextId == id + 1 && registry == old(registry) + [id]
      ensures sockets == old(sockets)[id := Sock(None, TransportKind(InitialTransport()))]
    {
      id := Register(Sock(None, TransportKind(InitialTransport())));
    }

    /** A new server socket: unconnected, with no children. */
    method CreateServer() returns (id: int)
      requires Valid()
      modifies this`sockets, this`registry, this`nextId
      ensures Valid()
      ensures id == old(nextId) && nextId == id + 1 && registry == old(registry) + [id]
      ensures sockets == old(sockets)[id := Sock(None, ServerKind([]))]
    {
      id := Register(Sock(None, ServerKind([])));
    }

    /**
     * The ChildSocket constructor: the resource is set before the parent
     * constructors run, so the child is registered already connected.
     */
    method CreateChild(h: int) returns (id: int)
      requires Valid()
      modifies this`sockets, this`registry, this`nextId
      ensures Valid()
      ensures id == old(nextId) && nextId == id + 1 && registry == old(registry) + [id]
      ensures sockets == old(sockets)[id := Sock(Some(h), TransportKind(InitialTransport()))]
      ensures IsConnected(id)
    {
      id := Register(Sock(Some(h), TransportKind(InitialTransport())));
    }

    /**
     * A concrete subclass's `connect` that obtained resource h: the only
     * change it makes to the modelled state.
     */
    method Attach(id: int, h: int)
      requires Valid() && id in sockets
      modifies this`sockets
      ensures Valid()
      ensures sockets == old(sockets)[id := old(sockets)[id].(handle := Some(h))]
    {
      sockets := sockets[id := sockets[id].(handle := Some(h))];
    }

    /** ChildSocket `connect`: true iff connected; no I/O and no change. */
    method Connect(id: int) returns (ok: bool)
      requires id in sockets && sockets[id].kind.TransportKind?
      ensures ok == IsConnected(id)
    {
      ok := sockets[id].handle.Some?;
    }

    /**
     * `disconnect`: a connected socket is closed and fires its disconnected
     * event once; a transport also clears its reading buffer. A server's
     * children are left alone. Either way the resource becomes null.
     */
    method Disconnect(id: int)
      requires Valid() && id in sockets
      modifies this`sockets, this`trace
      ensures Valid()
      ensures sockets == old(sockets)[id := Closed(old(sockets)[id])]
      ensures trace == old(trace) + if old(sockets)[id].handle.Some? then [Disconnected(id)] else []
      ensures !IsConnected(id)
    {
      var s := sockets[id];
      if s.handle.Some? {
        trace := trace + [Disconnected(id)];
      }
      sockets := sockets[id := Closed(s)];
    }

    /**
     * `destroy`: only a registered socket that is still connected is
     * disconnected and removed from the registry; otherwise nothing changes,
     * so an unconnected socket stays registered.
     */
    method Destroy(id: int)
      requires Valid() && id in sockets
      modifies this`sockets, this`trace, this`registry
      ensures Valid()
      ensures var live := id in old(registry) && old(sockets)[id].handle.Some?;
        && sockets == (if live then old(sockets)[id := Closed(old(sockets)[id])] else old(sockets))
        && registry == (if live then Without(old(registry), id) else old(registry))
        && trace == old(trace) + (if live then [Disconnected(id)] else [])
      ensures id !in registry || !IsConnected(id)
    {
      if id in registry && sockets[id].handle.Some? {
        Disconnect(id);
        registry := Without(registry, id);
        assert forall y | y in registry :: y in old(registry);
        assert forall i | 0 <= i < |registry| :: registry[i] in registry;
      }
    }

    /**
     * `write`: throws while throttling is enabled; otherwise a connected
     * socket whose write succeeds fires the send event with the data.
     */
    method Write(id: int, data: string, writeOk: bool) returns (thrown: bool)
      requires id in sockets && sockets[id].kind.TransportKind?
      modifies this`trace
      ensures thrown == ThrottlingEnabled(sockets[id].kind.t)
      ensures trace == old(trace) + if !thrown && IsConnected(id) && writeOk then [Sent(id, data)] else []
    {
      thrown := ThrottlingEnabled(sockets[id].kind.t);
      if !thrown && sockets[id].handle.Some? && writeOk {
        trace := trace + [Sent(id, data)];
      }
    }

    /**
     * `writeLine`: while throttled (and not forced) a connected socket
     * queues the line and the ending at the head or the tail of its writing
     * buffer, and an unconnected one queues nothing; otherwise the line and
     * the ending go to `write`, which throws while throttling is on.
     */
    method WriteLine(id: int, line: string, highPriority: bool, forceFlush: bool, writeOk: bool) returns (thrown: bool)
      requires Valid() && id in sockets && sockets[id].kind.TransportKind?
      modifies this`sockets, this`trace
      ensures Valid()
      ensures var s := old(sockets)[id]; var t := s.kind.t;
        var queued := ThrottlingEnabled(t) && !forceFlush;
        && thrown == (ThrottlingEnabled(t) && forceFlush)
        && (queued && s.handle.Some? ==>
             var q := Queued(t, line);
             && sockets == old(sockets)[id := WithTransport(s, t.(writingBuffer := Some(
                  if highPriority then q + t.writingBuffer.value else t.writingBuffer.value + q)))]
             && trace == old(trace))
        && (queued && s.handle.None? ==> sockets == old(sockets) && trace == old(trace))
        && (!queued ==>
             && sockets == old(sockets)
             && trace == old(trace) + if !thrown && s.handle.Some? && writeOk then [Sent(id, line + t.writingEnding)] else [])
    {
      var s := sockets[id];
      var t := s.kind.t;
      if ThrottlingEnabled(t) && !forceFlush {
        thrown := false;
        if s.handle.Some? {
          var q := Queued(t, line);
          var b := if highPriority then q + t.writingBuffer.value else t.writingBuffer.value + q;
          sockets := sockets[id := WithTransport(s, t.(writingBuffer := Some(b)))];
        }
      } else {
        thrown := Write(id, line + t.writingEnding, writeOk);
      }
    }

    /** `enableWriteThrottling`. */
    method EnableWriteThrottling(id: int, bps: int, peak: int)
      requires Valid() && id in sockets && sockets[id].kind.TransportKind?
      modifies this`sockets
      ensures Valid()
      ensures sockets == old(sockets)[id := WithTransport(old(sockets)[id], EnableThrottling(old(sockets)[id].kind.t, bps, peak))]
    {
      sockets := sockets[id := WithTransport(sockets[id], EnableThrottling(sockets[id].kind.t, bps, peak))];
    }

    /** `disableWriteThrottling`. */
    method DisableWriteThrottling(id: int)
      requires Valid() && id in sockets && sockets[id].kind.TransportKind?
      modifies this`sockets
      ensures Valid()
      ensures sockets == old(sockets)[id := WithTransport(old(sockets)[id], DisableThrottling(old(sockets)[id].kind.t))]
    {
      sockets := sockets[id := WithTransport(sockets[id], DisableThrottling(sockets[id].kind.t))];
    }

    /** `setReadingMode`: any integer is stored; an unknown one throws only when data arrives. */
    method SetReadingMode(id: int, mode: int)
      requires Valid() && id in sockets && sockets[id].kind.TransportKind?
      modifies this`sockets
      ensures Valid()
      ensures sockets == old(sockets)[id := WithTransport(old(sockets)[id], old(sockets)[id].kind.t.(readingMode := mode))]
    {
      sockets := sockets[id := WithTransport(sockets[id], sockets[id].kind.t.(readingMode := mode))];
    }

    /** `setReadingLineEnding`. */
    method SetReadingLineEnding(id: int, ending: string)
      requires Valid() && id in sockets && sockets[id].kind.TransportKind?
      modifies this`sockets
      ensures Valid()
      ensures sockets == old(sockets)[id := WithTransport(old(sockets)[id], SetReadingEnding(old(sockets)[id].kind.t, ending))]
    {
      sockets := sockets[id := WithTransport(sockets[id], SetReadingEnding(sockets[id].kind.t, ending))];
    }

    /** `setWritingLineEnding`. */
    method SetWritingLineEnding(id: int, ending: string)
      requires Valid() && id in sockets && sockets[id].kind.TransportKind?
      modifies this`sockets
      ensures Valid()
      ensures sockets == old(sockets)[id := WithTransport(old(sockets)[id], SetWritingEnding(old(sockets)[id].kind.t, ending))]
    {
      sockets := sockets[id := WithTransport(sockets[id], SetWritingEnding(sockets[id].kind.t, ending))];
    }

    /** `setLineEnding`: the reading ending, then the writing ending. */
    method SetLineEnding(id: int, ending: string)
      requires Valid() && id in sockets && sockets[id].kind.TransportKind?
      modifies this`sockets
      ensures Valid()
      ensures sockets == old(sockets)[id := WithTransport(old(sockets)[id], TransportSockets.SetLineEnding(old(sockets)[id].kind.t, ending))]
    {
      SetReadingLineEnding(id, ending);
      SetWritingLineEnding(id, ending);
    }

    /**
     * TransportSocket `handleSelectEvent` with `socket_read`'s result: the
     * events and the new state are those of OnReadable; a close then runs
     * `destroy`.
     */
    method ReadSelect(id: int, read: Option<string>) returns (err: Option<string>)
      requires Valid() && id in sockets && sockets[id].kind.TransportKind?
      modifies this`sockets, this`trace, this`registry
      ensures Valid()
      ensures var s := old(sockets)[id]; var r := OnReadable(s.kind.t, read);
        && (err.Some? <==> r.Err?)
        && (r.Err? ==> sockets == old(sockets) && registry == old(registry) && trace == old(trace))
        && (r.Ok? && !r.value.closed ==>
             && sockets == old(sockets)[id := WithTransport(s, r.value.t)]
             && registry == old(registry)
             && trace == old(trace) + Reads(id, r.value.events))
        && (r.Ok? && r.value.closed ==>
             var live := id in old(registry) && s.handle.Some?;
             && sockets == (if live then old(sockets)[id := Closed(s)] else old(sockets))
             && registry == (if live then Without(old(registry), id) else old(registry))
             && trace == old(trace) + Reads(id, r.value.events) + (if live then [Disconnected(id)] else []))
    {
      var s := sockets[id];
      var t := s.kind.t;
      err := None;
      if read.Some? && !Empty(read.value) {
        if t.readingMode == LinesMode {
          var lines, rest := DrainLines(t.readingBuffer + read.value, t.readingEnding);
          OnReadableLines(t, read.value);
          trace := trace + Reads(id, lines);
          ReplaceConsistent(sockets, registry, nextId, id, WithTransport(s, t.(readingBuffer := rest)));
          sockets := sockets[id := WithTransport(s, t.(readingBuffer := rest))];
        } else if t.readingMode == RawMode {
          trace := trace + [Read(id, read.value)];
        } else {
          err := Some("Invalid reading mode");
        }
      } else {
        ghost var events := if t.readingMode == LinesMode && t.readingBuffer != "" then [t.readingBuffer] else [];
        if t.readingMode == LinesMode && |t.readingBuffer| != 0 {
          trace := trace + [Read(id, t.readingBuffer)];
        }
        assert trace == old(trace) + Reads(id, events);
        assert OnReadable(t, read) == Ok(Reaction(t, events, true));
        Destroy(id);
      }
    }

    /**
     * ServerSocket `handleSelectEvent` with `socket_accept`'s result: a
     * resource becomes a new child socket, recorded under its fresh id, and
     * the accept event fires once; a failed accept changes nothing.
     */
    method Accept(id: int, accepted: Option<int>)
      requires Valid() && id in sockets && sockets[id].kind.ServerKind?
      modifies this`sockets, this`registry, this`nextId, this`trace
      ensures Valid()
      ensures accepted.None? ==> sockets == old(sockets) && registry == old(registry) && nextId == old(nextId) && trace == old(trace)
      ensures accepted.Some? ==>
        var c := old(nextId); var s := old(sockets)[id];
        && nextId == c + 1 && registry == old(registry) + [c]
        && sockets == old(sockets)[c := Sock(accepted, TransportKind(InitialTransport()))][id := s.(kind := ServerKind(s.kind.children + [c]))]
        && trace == old(trace) + [Accepted(id, c)]
    {
      if accepted.Some? {
        var c := CreateChild(accepted.value);
        var s := sockets[id];
        sockets := sockets[id := s.(kind := ServerKind(s.kind.children + [c]))];
        trace := trace + [Accepted(id, c)];
      }
    }

    /** `handleSelectEvent` of either kind; the k-th dispatch of a poll reads the k-th answer. */
    method HandleSelectEvent(id: int, k: nat, io: Io) returns (err: Option<string>)
      requires Valid() && id in sockets
      modifies this`sockets, this`registry, this`nextId, this`trace
      ensures Valid() && nextId >= old(nextId)
      ensures err.Some? <==> old(sockets)[id].kind.TransportKind? && OnReadable(old(sockets)[id].kind.t, io.read(k)).Err?
      ensures err.Some? ==> sockets == old(sockets) && registry == old(registry) && nextId == old(nextId) && trace == old(trace)
    {
      if sockets[id].kind.TransportKind? {
        err := ReadSelect(id, io.read(k));
      } else {
        Accept(id, io.accept(k));
        err := None;
      }
    }

    /**
     * `handlePrePollEvent`: a server drops its disconnected children,
     * keeping the connected ones in order; a transport does nothing.
     */
    method PrePoll(id: int)
      requires Valid() && id in sockets
      modifies this`sockets
      ensures Valid()
      ensures sockets.Keys == old(sockets).Keys
      ensures forall x | x in sockets :: sockets[x].handle == old(sockets)[x].handle
      ensures old(sockets)[id].kind.TransportKind? ==> sockets == old(sockets)
      ensures old(sockets)[id].kind.ServerKind? ==>
        sockets == old(sockets)[id := old(sockets)[id].(kind := ServerKind(Prune(old(sockets)[id].kind.children, old(sockets))))]
    {
      var s := sockets[id];
      if s.kind.ServerKind? {
        var children := s.kind.children;
        var kept: seq<int> := [];
        var i := 0;
        while i < |children|
          invariant 0 <= i <= |children|
          invariant kept == Prune(children[..i], sockets)
        {
          if sockets.Keys >= {children[i]} && sockets[children[i]].handle.Some? {
            kept := kept + [children[i]];
          }
          i := i + 1;
          assert children[..i][..i - 1] == children[..i - 1];
        }
        assert children[..i] == children;
        ReplaceConsistent(sockets, registry, nextId, id, s.(kind := ServerKind(kept)));
        sockets := sockets[id := s.(kind := ServerKind(kept))];
      }
    }

    /**
     * TransportSocket `handlePostPollEvent`: a connected, throttled socket
     * flushes its writing buffer under the quota min(elapsed * bps, bps *
     * peak) as Flush describes, and the last write time becomes `now` when
     * anything was written; any other socket is left alone.
     */
    method PostPoll(id: int, now: int, fails: set<nat>)
      requires Valid() && id in sockets
      modifies this`sockets, this`trace
      ensures Valid()
      ensures var s := old(sockets)[id];
        if s.kind.TransportKind? && s.handle.Some? && ThrottlingEnabled(s.kind.t) then
          var t := s.kind.t;
          var f := Flush(t.writingBuffer.value, t.writingEnding, Quota(now, t.lastTime, t.throttleBps.value, t.throttlePeak), fails, 0);
          && sockets == old(sockets)[id := WithTransport(s, t.(writingBuffer := Some(f.buffer), lastTime := if f.wrote then now else t.lastTime))]
          && trace == old(trace) + Sends(id, f.sent)
        else
          sockets == old(sockets) && trace == old(trace)
    {
      var s := sockets[id];
      if s.kind.TransportKind? && s.handle.Some? && ThrottlingEnabled(s.kind.t) {
        var t := s.kind.t;
        var quota := Quota(now, t.lastTime, t.throttleBps.value, t.throttlePeak);
        var sent, rest, wrote := FlushQueue(t.writingBuffer.value, t.writingEnding, quota, fails);
        trace := trace + Sends(id, sent);
        ReplaceConsistent(sockets, registry, nextId, id, WithTransport(s, t.(writingBuffer := Some(rest), lastTime := if wrote then now else t.lastTime)));
        sockets := sockets[id := WithTransport(s, t.(writingBuffer := Some(rest), lastTime := if wrote then now else t.lastTime))];
      }
    }

    /** The first registered socket whose resource is h (the inner loop of `poll`). */
    method FindOwner(h: int) returns (owner: Option<int>)
      ensures owner == Owner(registry, sockets, h)
    {
      var i := 0;
      while i < |registry|
        invariant 0 <= i <= |registry|
        invariant Owner(registry[i..], sockets, h) == Owner(registry, sockets, h)
      {
        if registry[i] in sockets && sockets[registry[i]].handle == Some(h) {
          return Some(registry[i]);
        }
        assert registry[i..][1..] == registry[i + 1..];
        i := i + 1;
      }
      owner := None;
    }

    /** The pre-poll phase: `handlePrePollEvent` on every registered socket, in order. */
    method PrePollAll()
      requires Valid()
      modifies this`sockets, this`calls
      ensures Valid() && registry == old(registry)
      ensures forall x :: x in sockets <==> x in old(sockets)
      ensures forall x | x in sockets :: sockets[x].handle == old(sockets)[x].handle
      ensures calls == old(calls) + Calls(Pre, registry)
    {
      var i := 0;
      while i < |registry|
        invariant 0 <= i <= |registry|
        invariant Valid() && registry == old(registry)
        invariant sockets.Keys == old(sockets).Keys
        invariant forall x | x in sockets :: sockets[x].handle == old(sockets)[x].handle
        invariant calls == old(calls) + Calls(Pre, registry[..i])
      {
        PrePoll(registry[i]);
        assert registry[..i + 1][..i] == registry[..i];
        assert Calls(Pre, registry[..i + 1]) == Calls(Pre, registry[..i]) + [Call(Pre, registry[i])];
        calls := calls + [Call(Pre, registry[i])];
        i := i + 1;
      }
      assert registry[..i] == registry;
    }

    /** The sockets offered to select: every connected registered socket with its resource. */
    method OfferReaders() returns (readers: seq<(int, int)>)
      requires Valid()
      ensures readers == Readers(registry, sockets)
    {
      readers := [];
      var i := 0;
      while i < |registry|
        invariant 0 <= i <= |registry|
        invariant readers == Readers(registry[..i], sockets)
      {
        var id := registry[i];
        assert registry[..i + 1][..i] == registry[..i];
        if sockets[id].handle.Some? {
          readers := readers + [(id, sockets[id].handle.value)];
        }
        i := i + 1;
      }
      assert registry[..i] == registry;
    }

    /**
     * The dispatch phase: each selected resource, in order, goes to the
     * first registered socket that owns it. It stops at a handler that
     * throws, or at a resource no socket owns.
     */
    method DispatchAll(selected: seq<(int, int)>, io: Io) returns (err: Option<string>, dispatched: seq<int>)
      requires Valid()
      modifies this`sockets, this`registry, this`nextId, this`trace, this`calls
      ensures Valid()
      ensures |dispatched| <= |selected|
      ensures err.None? ==> |dispatched| == |selected|
      ensures selected == [] ==> err.None? && dispatched == []
      ensures err.Some? ==> Stopped(sockets, registry, selected, dispatched, io.read)
      ensures calls == old(calls) + Calls(Select, dispatched)
    {
      dispatched := [];
      var j := 0;
      while j < |selected|
        invariant 0 <= j <= |selected| && |dispatched| == j
        invariant Valid()
        invariant calls == old(calls) + Calls(Select, dispatched)
      {
        var owner := FindOwner(selected[j].1);
        if owner.None? {
          return Some("no registered socket owns the readable resource"), dispatched;
        }
        assert (dispatched + [owner.value])[..|dispatched|] == dispatched;
        assert Calls(Select, dispatched + [owner.value]) == Calls(Select, dispatched) + [Call(Select, owner.value)];
        calls := calls + [Call(Select, owner.value)];
        dispatched := dispatched + [owner.value];
        err := HandleSelectEvent(owner.value, j, io);
        if err.Some? {
          return;
        }
        j := j + 1;
      }
      err := None;
    }

    /** The post-poll phase: `handlePostPollEvent` on every registered socket, in order. */
    method PostPollAll(now: int, writeFails: set<(int, nat)>)
      requires Valid()
      modifies this`sockets, this`trace, this`calls
      ensures Valid() && registry == old(registry)
      ensures calls == old(calls) + Calls(Post, registry)
    {
      var i := 0;
      while i < |registry|
        invariant 0 <= i <= |registry|
        invariant Valid() && registry == old(registry)
        invariant calls == old(calls) + Calls(Post, registry[..i])
      {
        var id := registry[i];
        PostPoll(id, now, set p | p in writeFails && p.0 == id :: p.1);
        assert registry[..i + 1][..i] == registry[..i];
        assert Calls(Post, registry[..i + 1]) == Calls(Post, registry[..i]) + [Call(Post, id)];
        calls := calls + [Call(Post, id)];
        i := i + 1;
      }
      assert registry[..i] == registry;
    }

    /**
     * `poll`: pre-poll on every registered socket in order; then every
     * connected registered socket is offered to select, and each readable
     * one is dispatched, in order, to the first registered socket owning its
     * resource; then post-poll on every socket registered at that point. A
     * handler that throws ends the poll, and so does a readable resource no
     * socket owns any more (PHP calls a method on null there).
     */
    method Poll(io: Io) returns (err: Option<string>, readers: seq<(int, int)>, dispatched: seq<int>)
      requires Valid()
      modifies this
      ensures Valid()
      ensures readers == Readers(old(registry), old(sockets))
      ensures |dispatched| <= |Selected(readers, io.ready)|
      ensures err.None? ==> |dispatched| == |Selected(readers, io.ready)|
      ensures err.None? ==> calls == old(calls) + Calls(Pre, old(registry)) + Calls(Select, dispatched) + Calls(Post, registry)
      ensures err.Some? ==> calls == old(calls) + Calls(Pre, old(registry)) + Calls(Select, dispatched)
      ensures err.Some? ==> Stopped(sockets, registry, Selected(readers, io.ready), dispatched, io.read)
      ensures Selected(readers, io.ready) == [] ==>
        err.None? && dispatched == [] && calls == old(calls) + Calls(Pre, old(registry)) + Calls(Post, registry)
    {
      PrePollAll();
      readers := OfferReaders();
      ReadersSameHandles(registry, sockets, old(sockets));
      var selected := Selected(readers, io.ready);
      err, dispatched := DispatchAll(selected, io);
      if err.None? {
        PostPollAll(io.now, io.writeFails);
      }
    }
  }
}
