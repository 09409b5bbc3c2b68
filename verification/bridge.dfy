/** The connection supervisor's I/O bridge after the worker is spawned:
    each round of the loop in `create_worker` learns from `select` which of
    the connection and the worker's output pipe are readable, serves the
    connection first and the pipe second, and each service is one call of
    `forward`. The reads are inputs to the model; the writes are recorded
    as the bytes delivered in each direction. */
module Bridge {
  import opened Base

  /** `BUFSIZ` under glibc: the most bytes one `read` in `forward` asks for. */
  const BufSiz: nat := 8192

  /** The bytes one `read(from, buf, BUFSIZ)` can return. */
  type Chunk = s: seq<byte> | |s| <= BufSiz

  /** The result of `read`: -1, or `size` bytes (none at end of stream). */
  datatype ReadResult = ReadFailed | Received(data: Chunk)

  /** The outcome of `forward`: the supervisor exits with a code, or the
      bytes read are written to the other side. */
  datatype Forwarded = Exit(code: int) | Wrote(data: seq<byte>)

  /** A read that ends the supervisor: an error or end of stream. */
  predicate Ends(r: ReadResult)
  {
    r.ReadFailed? || |r.data| == 0
  }

  /** `forward(from, to)`: a read error exits with -1, end of stream exits
      with 0, and otherwise exactly the bytes read are written, unchanged. */
  function Forward(r: ReadResult): (f: Forwarded)
    ensures f.Exit? <==> Ends(r)
    ensures f.Exit? ==> f.code == (if r.ReadFailed? then -1 else 0)
    ensures f.Wrote? ==> r.Received? && f.data == r.data && 0 < |f.data| <= BufSiz
  {
    match r
    case ReadFailed => Exit(-1)
    case Received(data) => if |data| == 0 then Exit(0) else Wrote(data)
  }

  /** ToWorker: from the connection into the worker's stdin pipe;
      ToClient: from the worker's stdout/stderr pipe to the connection. */
  datatype Direction = ToWorker | ToClient

  /** One call of `forward` in a direction, with what its read returned. */
  datatype Event = Event(dir: Direction, read: ReadResult)

  /** One round of the bridge loop: which descriptors `select` reported
      readable and what reading each would return. */
  datatype Round = Round(sockReady: bool, sockRead: ReadResult, pipeReady: bool, pipeRead: ReadResult)

  /** `select` is retried until it reports at least one ready descriptor. */
  type ReadyRound = r: Round | r.sockReady || r.pipeReady
    witness Round(true, ReadFailed, false, ReadFailed)

  /** What the bridge has done so far: the bytes written to the worker, the
      bytes written to the client, and the exit code once it has exited. */
  datatype BridgeState = BridgeState(toWorker: seq<byte>, toClient: seq<byte>, exit: Option<int>)

  const Start: BridgeState := BridgeState([], [], None)

  /** One `forward` call. After an exit the process is gone and nothing
      more happens. */
  function Serve(b: BridgeState, e: Event): (b': BridgeState)
    ensures b.exit.Some? ==> b' == b
    ensures b.toWorker <= b'.toWorker && b.toClient <= b'.toClient
    ensures e.dir == ToWorker ==> b'.toClient == b.toClient
    ensures e.dir == ToClient ==> b'.toWorker == b.toWorker
    ensures b.exit.None? ==> (b'.exit.Some? <==> Ends(e.read))
    ensures b'.exit != b.exit ==> b'.exit == Some(if e.read.ReadFailed? then -1 else 0)
  {
    if b.exit.Some? then b
    else match Forward(e.read)
      case Exit(c) => b.(exit := Some(c))
      case Wrote(d) =>
        if e.dir == ToWorker then b.(toWorker := b.toWorker + d)
        else b.(toClient := b.toClient + d)
  }

  /** One round: the connection, if ready, is forwarded to the worker before
      the pipe, if ready, is forwarded to the connection. */
  function RoundStep(b: BridgeState, r: ReadyRound): (b': BridgeState)
    ensures b.exit.Some? ==> b' == b
    ensures b.toWorker <= b'.toWorker && b.toClient <= b'.toClient
    ensures !r.sockReady ==> b'.toWorker == b.toWorker
    ensures !r.pipeReady ==> b'.toClient == b.toClient
    ensures b'.exit != b.exit ==> b'.exit == Some(-1) || b'.exit == Some(0)
  {
    var b1 := if r.sockReady then Serve(b, Event(ToWorker, r.sockRead)) else b;
    if r.pipeReady then Serve(b1, Event(ToClient, r.pipeRead)) else b1
  }

  /** The bridge after a sequence of rounds. */
  function Run(rounds: seq<ReadyRound>): (b: BridgeState)
    ensures b.exit.Some? ==> b.exit.value == -1 || b.exit.value == 0
    ensures rounds != [] ==>
      Run(rounds[..|rounds| - 1]).toWorker <= b.toWorker &&
      Run(rounds[..|rounds| - 1]).toClient <= b.toClient
  {
    if rounds == [] then Start
    else RoundStep(Run(rounds[..|rounds| - 1]), rounds[|rounds| - 1])
  }

  /** The `forward` calls of one round, in the order the loop makes them. */
  function RoundEvents(r: ReadyRound): (es: seq<Event>)
    ensures |es| == (if r.sockReady then 1 else 0) + (if r.pipeReady then 1 else 0)
    ensures es[0].dir == (if r.sockReady then ToWorker else ToClient)
    ensures r.sockReady ==> es[0] == Event(ToWorker, r.sockRead)
    ensures r.pipeReady ==> es[|es| - 1] == Event(ToClient, r.pipeRead)
  {
    (if r.sockReady then [Event(ToWorker, r.sockRead)] else []) +
    (if r.pipeReady then [Event(ToClient, r.pipeRead)] else [])
  }

  /** The `forward` calls of a sequence of rounds, in order. */
  function Schedule(rounds: seq<ReadyRound>): seq<Event>
  {
    if rounds == [] then []
    else Schedule(rounds[..|rounds| - 1]) + RoundEvents(rounds[|rounds| - 1])
  }

  /** The bridge after a sequence of `forward` calls. */
  function Replay(es: seq<Event>): BridgeState
  {
    if es == [] then Start else Serve(Replay(es[..|es| - 1]), es[|es| - 1])
  }

  /** Index of the first call whose read ends the supervisor, or |es|. */
  function FirstEnd(es: seq<Event>): (k: nat)
    ensures k <= |es|
    ensures k < |es| ==> Ends(es[k].read)
  {
    if es == [] || Ends(es[0].read) then 0 else 1 + FirstEnd(es[1..])
  }

  /** No call before FirstEnd ends the supervisor. */
  lemma {:induction false} FirstEndIsFirst(es: seq<Event>, i: nat)
    requires i < FirstEnd(es)
    ensures !Ends(es[i].read)
  {
    if i > 0 {
      FirstEndIsFirst(es[1..], i - 1);
    }
  }

  /** The bytes the calls in `es` read in direction `dir`, concatenated in
      order. */
  function Payload(es: seq<Event>, dir: Direction): seq<byte>
  {
    if es == [] then []
    else
      var e := es[|es| - 1];
      Payload(es[..|es| - 1], dir) + (if e.dir == dir && e.read.Received? then e.read.data else [])
  }

  /** The specification of the bridge: each direction delivers, in order
      and unchanged, every byte read in that direction before the first read
      that fails or reaches end of stream; that read decides the exit code
      (-1 for a failure, 0 for end of stream); without one the bridge is
      still running. */
  function Reference(es: seq<Event>): BridgeState
  {
    var k := FirstEnd(es);
    BridgeState(Payload(es[..k], ToWorker), Payload(es[..k], ToClient),
           if k < |es| then Some(if es[k].read.ReadFailed? then -1 else 0) else None)
  }

  /** Appending a call moves the first ending call only when there was
      none before. */
  lemma {:induction false} FirstEndSnoc(es: seq<Event>, e: Event)
    ensures FirstEnd(es + [e]) ==
      if FirstEnd(es) < |es| then FirstEnd(es)
      else if Ends(e.read) then |es| else |es| + 1
  {
    if es != [] && !Ends(es[0].read) {
      assert (es + [e])[1..] == es[1..] + [e];
      FirstEndSnoc(es[1..], e);
    }
  }

  /** Replaying `forward` calls one at a time meets the specification. */
  lemma {:induction false} ReplayMeetsReference(es: seq<Event>)
    ensures Replay(es) == Reference(es)
  {
    if es != [] {
      var init, e := es[..|es| - 1], es[|es| - 1];
      assert es == init + [e];
      ReplayMeetsReference(init);
      FirstEndSnoc(init, e);
      if FirstEnd(init) < |init| {
        ReplayAfterEnd(init, e);
      } else {
        assert init[..|init|] == init;
        if Ends(e.read) {
          ReplayEndingCall(init, e);
        } else {
          ReplayDeliveringCall(init, e);
        }
      }
    }
  }

  /** A call after the supervisor has exited changes nothing. */
  lemma ReplayAfterEnd(init: seq<Event>, e: Event)
    requires Replay(init) == Reference(init) && FirstEnd(init) < |init|
    requires FirstEnd(init + [e]) == FirstEnd(init)
    ensures Replay(init + [e]) == Reference(init + [e])
  {
    ReplayAppendOne(init, e);
    ReferenceAfterEnd(init, e);
  }

  lemma ReferenceAfterEnd(init: seq<Event>, e: Event)
    requires FirstEnd(init) < |init| && FirstEnd(init + [e]) == FirstEnd(init)
    ensures Reference(init + [e]) == Reference(init)
  {
    var es := init + [e];
    var k := FirstEnd(init);
    assert es[..k] == init[..k];
    assert es[k] == init[k];
  }

  /** A call that fails or reads nothing ends a running supervisor. */
  lemma ReplayEndingCall(init: seq<Event>, e: Event)
    requires Replay(init) == BridgeState(Payload(init, ToWorker), Payload(init, ToClient), None)
    requires FirstEnd(init + [e]) == |init| && Ends(e.read)
    ensures Replay(init + [e]) == Reference(init + [e])
  {
    var es := init + [e];
    assert es[..|es| - 1] == init;
    assert es[..|init|] == init;
    assert es[|init|] == e;
  }

  /** A call that reads bytes while the supervisor runs delivers them in its
      direction. */
  lemma ReplayDeliveringCall(init: seq<Event>, e: Event)
    requires Replay(init) == BridgeState(Payload(init, ToWorker), Payload(init, ToClient), None)
    requires FirstEnd(init + [e]) == |init| + 1 && !Ends(e.read)
    ensures Replay(init + [e]) == Reference(init + [e])
  {
    ReplayAppendOne(init, e);
    ServeDelivers(Replay(init), e);
    PayloadSnoc(init, e, ToWorker);
    PayloadSnoc(init, e, ToClient);
    ReferenceWhenLive(init + [e]);
  }

  lemma ServeDelivers(b: BridgeState, e: Event)
    requires b.exit.None? && !Ends(e.read)
    ensures Serve(b, e) == BridgeState(
      b.toWorker + (if e.dir == ToWorker && e.read.Received? then e.read.data else []),
      b.toClient + (if e.dir == ToClient && e.read.Received? then e.read.data else []),
      None)
  {
    assert b.toWorker + [] == b.toWorker;
    assert b.toClient + [] == b.toClient;
  }

  lemma ReferenceWhenLive(es: seq<Event>)
    requires FirstEnd(es) == |es|
    ensures Reference(es) == BridgeState(Payload(es, ToWorker), Payload(es, ToClient), None)
  {
    assert es[..|es|] == es;
  }

  lemma PayloadSnoc(es: seq<Event>, e: Event, dir: Direction)
    ensures Payload(es + [e], dir) ==
      Payload(es, dir) + (if e.dir == dir && e.read.Received? then e.read.data else [])
  {
    assert (es + [e])[..|es|] == es;
  }

  lemma ReplayAppendOne(es: seq<Event>, e: Event)
    ensures Replay(es + [e]) == Serve(Replay(es), e)
  {
    assert (es + [e])[..|es|] == es;
  }

  /** Running whole rounds is replaying their `forward` calls in order. */
  lemma {:induction false} RunIsReplay(rounds: seq<ReadyRound>)
    ensures Run(rounds) == Replay(Schedule(rounds))
  {
    if rounds != [] {
      var init, r := rounds[..|rounds| - 1], rounds[|rounds| - 1];
      RunIsReplay(init);
      var s := Schedule(init);
      var b := Replay(s);
      var sock := Event(ToWorker, r.sockRead);
      var pipe := Event(ToClient, r.pipeRead);
      if r.sockReady && r.pipeReady {
        ReplayAppendOne(s, sock);
        ReplayAppendOne(s + [sock], pipe);
        assert s + RoundEvents(r) == s + [sock] + [pipe];
      } else if r.sockReady {
        ReplayAppendOne(s, sock);
      } else {
        ReplayAppendOne(s, pipe);
      }
    }
  }

  /** The bridge copies each direction in order and unchanged, and exits at
      the first failed or empty read, whichever side it is on. */
  lemma BridgeMeetsReference(rounds: seq<ReadyRound>)
    ensures Run(rounds) == Reference(Schedule(rounds))
  {
    RunIsReplay(rounds);
    ReplayMeetsReference(Schedule(rounds));
  }

  /** In a round where both sides are ready, the connection is served first:
      if its read ends the supervisor, the pipe is never read; if only the
      pipe's read ends it, the connection's chunk still reaches the worker;
      otherwise both chunks are delivered. */
  lemma SocketServedFirst(b: BridgeState, r: ReadyRound)
    requires b.exit.None? && r.sockReady && r.pipeReady
    ensures Ends(r.sockRead) ==>
      RoundStep(b, r) == b.(exit := Some(if r.sockRead.ReadFailed? then -1 else 0))
    ensures !Ends(r.sockRead) && !Ends(r.pipeRead) ==>
      RoundStep(b, r) == b.(toWorker := b.toWorker + r.sockRead.data,
                            toClient := b.toClient + r.pipeRead.data)
    ensures !Ends(r.sockRead) && Ends(r.pipeRead) ==>
      RoundStep(b, r) == b.(toWorker := b.toWorker + r.sockRead.data,
                            exit := Some(if r.pipeRead.ReadFailed? then -1 else 0))
  {
  }

  /** Once the supervisor has exited, later rounds change nothing. */
  lemma {:induction false} ExitIsFinal(rounds: seq<ReadyRound>, more: seq<ReadyRound>)
    requires Run(rounds).exit.Some?
    ensures Run(rounds + more) == Run(rounds)
  {
    if more != [] {
      var init := more[..|more| - 1];
      assert (rounds + more)[..|rounds + more| - 1] == rounds + init;
      ExitIsFinal(rounds, init);
    } else {
      assert rounds + more == rounds;
    }
  }
}
