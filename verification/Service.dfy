/** The server's connection: reads a request, has it handled, writes the reply, and so on. */
module Services {
  import opened Protocol
  import opened Tlvs
  import opened FileMessages
  import opened Connections
  import Signs
  import opened Server
  import opened RequestHandlers
  import opened Sessions
  import opened Replies

  // ---- Reading requests --------------------------------------------------------------

  /** What is read next: a request, the end of the stream, or a request that is longer than the
      buffer it is read into, which is undefined. */
  datatype Incoming = Request(raw: Bytes, rest: Bytes) | EndOfStream | Overlong

  function NextRequest(input: Bytes): Incoming {
    if |input| < HEADER_SIZE then EndOfStream
    else
      var size := FromLittleEndian(input[..HEADER_SIZE]);
      if |input| < HEADER_SIZE + if size <= CHUNK_SIZE then size else CHUNK_SIZE then EndOfStream
      else if size > CHUNK_SIZE then Overlong
      else Request(input[HEADER_SIZE..HEADER_SIZE + size], input[HEADER_SIZE + size..])
  }

  /** Reads one request: its size, then as many bytes. */
  method ReadRequest(socket: Socket) returns (incoming: Incoming)
    modifies socket
    ensures incoming == NextRequest(old(socket.input)) && socket.output == old(socket.output)
    ensures incoming.Request? ==> socket.input == incoming.rest
  {
    ghost var input := socket.input;
    var head := socket.Read(HEADER_SIZE);
    if head.None? {
      return EndOfStream;
    }
    var header := FromLittleEndian(head.value);
    var body := socket.Read(if header <= CHUNK_SIZE then header else CHUNK_SIZE);
    if body.None? {
      return EndOfStream;
    }
    if header > CHUNK_SIZE {
      return Overlong;
    }
    assert input[HEADER_SIZE..][..header] == input[HEADER_SIZE..HEADER_SIZE + header];
    assert input[HEADER_SIZE..][header..] == input[HEADER_SIZE + header..];
    incoming := Request(body.value, socket.input);
  }

  // ---- Serving a stream --------------------------------------------------------------

  /** How the serving of a connection ends: with the stream of requests, in an exception, which ends
      the program, or in what the code leaves undefined. */
  datatype End = Ended | Crashed | Unknown

  datatype Served = Served(state: State, written: Bytes, end: End)

  /** What serving a stream of requests leaves and writes; `walks` are the walks over the user's root
      a request would make, in the order of the requests. At the end of the stream the connection is
      shut down, and the upload stream of the user with it. */
  function ServeStream(w: World, s: State, input: Bytes, walks: nat -> seq<Path>, k: nat): Served
    decreases |input|
  {
    match NextRequest(input)
    case EndOfStream => Served(s.(stream := Closed), [], Ended)
    case Overlong => Served(s, [], Unknown)
    case Request(raw, rest) =>
      if !IsMessage(raw) then Served(s, [], Unknown)
      else
        var (s', outcome) := Step(w, s, Event(raw, walks(k)));
        match outcome
        case Thrown => Served(s', [], Crashed)
        case Undefined => Served(s', [], Unknown)
        case Replied(groups) =>
          var later := ServeStream(w, s', rest, walks, k + 1);
          later.(written := Frames(EncodeGroups(raw[0], groups)) + later.written)
  }

  lemma RepliesAreNotEmpty(w: World, s: State, e: Event)
    requires IsMessage(e.raw) && Step(w, s, e).1.Replied?
    ensures Step(w, s, e).1.groups != []
  {
    var ts := Segments(e.raw);
    if ts != [] && s.auth && s.synced && e.raw[0] == RETRIEVE {
      var path := Signs.SplitSign(ts[0].value).value.0;
      CutCount(s.disk[path], MaxPayload(ts[0].value));
    }
  }

  /** The serving of what is left completes what has been written so far. */
  ghost predicate Completes(target: Served, start: Bytes, w: World, s: State, input: Bytes, walks: nat -> seq<Path>,
                            k: nat, output: Bytes) {
    var now := ServeStream(w, s, input, walks, k);
    target.state == now.state && target.end == now.end && start + target.written == output + now.written
  }

  lemma Rejoin(a: Bytes, b: Bytes, c: Bytes)
    ensures a + (b + c) == a + b + c
  {
  }

  lemma ServeStep(target: Served, start: Bytes, w: World, s: State, input: Bytes, walks: nat -> seq<Path>, k: nat,
                  output: Bytes)
    requires Completes(target, start, w, s, input, walks, k, output)
    ensures match NextRequest(input)
            case EndOfStream => Stops(target, start, s.(stream := Closed), output, Ended)
            case Overlong => Stops(target, start, s, output, Unknown)
            case Request(raw, rest) =>
              if !IsMessage(raw) then Stops(target, start, s, output, Unknown)
              else
                var (s', outcome) := Step(w, s, Event(raw, walks(k)));
                match outcome
                case Thrown => Stops(target, start, s', output, Crashed)
                case Undefined => Stops(target, start, s', output, Unknown)
                case Replied(groups) =>
                  Completes(target, start, w, s', rest, walks, k + 1, output + Frames(EncodeGroups(raw[0], groups)))
  {
    hide Step, Frames, EncodeGroups;
    assert output + [] == output;
    if NextRequest(input).Request? && IsMessage(NextRequest(input).raw) {
      var raw, rest := NextRequest(input).raw, NextRequest(input).rest;
      var (s', outcome) := Step(w, s, Event(raw, walks(k)));
      if outcome.Replied? {
        Rejoin(output, Frames(EncodeGroups(raw[0], outcome.groups)), ServeStream(w, s', rest, walks, k + 1).written);
      }
    }
  }

  /** The serving stops in this state and way, with nothing more to write. */
  predicate Stops(target: Served, start: Bytes, s: State, output: Bytes, end: End) {
    target.state == s && target.end == end && start + target.written == output
  }

  /** Handles one request and writes its replies. */
  method Exchange(handler: RequestHandler, socket: Socket, raw: Bytes, walk: seq<Path>) returns (ending: Ending)
    requires IsMessage(raw)
    modifies handler, socket
    ensures socket.input == old(socket.input)
    ensures var (s', outcome) := Step(handler.ToWorld(), old(handler.Now()), Event(raw, walk));
            && handler.Now() == s'
            && ending == EndingOf(outcome)
            && socket.output == old(socket.output) +
               if outcome.Replied? then Frames(EncodeGroups(raw[0], outcome.groups)) else []
  {
    ghost var s := handler.Now();
    var replies;
    ending, replies := handler.HandleRequest(raw, walk);
    if ending == Finished {
      RepliesAreNotEmpty(handler.ToWorld(), s, Event(raw, walk));
      hide Step, IsMessage, Frames;
      WriteResponse(socket, replies);
    } else {
      hide Step, IsMessage;
      assert socket.output + [] == socket.output;
    }
  }

  /** Serves the requests of a connection to its end. */
  method ServeSession(handler: RequestHandler, socket: Socket, walks: nat -> seq<Path>) returns (end: End)
    modifies handler, socket
    ensures var served := ServeStream(handler.ToWorld(), old(handler.Now()), old(socket.input), walks, 0);
            && handler.Now() == served.state && end == served.end
            && socket.output == old(socket.output) + served.written
  {
    hide Step, IsMessage, ServeStream, NextRequest, Completes;
    ghost var w, start := handler.ToWorld(), socket.output;
    ghost var target := ServeStream(w, handler.Now(), socket.input, walks, 0);
    StartsAll(w, handler.Now(), socket.input, walks, start);
    var k := 0;
    while true
      invariant handler.ToWorld() == w
      invariant Completes(target, start, w, handler.Now(), socket.input, walks, k, socket.output)
      decreases |socket.input|
    {
      ServeStep(target, start, w, handler.Now(), socket.input, walks, k, socket.output);
      NextIsShorter(socket.input);
      var incoming := ReadRequest(socket);
      if incoming == EndOfStream {
        handler.stream := Closed;
        return Ended;
      }
      if incoming == Overlong || !IsMessage(incoming.raw) {
        return Unknown;
      }
      var ending := Exchange(handler, socket, incoming.raw, walks(k));
      if ending != Finished {
        assert socket.output + [] == socket.output;
        return if ending == Raised then Crashed else Unknown;
      }
      k := k + 1;
    }
  }

  lemma StartsAll(w: World, s: State, input: Bytes, walks: nat -> seq<Path>, start: Bytes)
    ensures Completes(ServeStream(w, s, input, walks, 0), start, w, s, input, walks, 0, start)
  {
  }

  lemma NextIsShorter(input: Bytes)
    ensures NextRequest(input).Request? ==> |NextRequest(input).rest| < |input|
  {
  }

  // ---- Serving a run -----------------------------------------------------------------

  function RequestFrames(es: seq<Event>): Bytes {
    if es == [] then [] else Frame(es[0].raw) + RequestFrames(es[1..])
  }

  lemma DropHeader(head: Bytes, raw: Bytes, rest: Bytes)
    requires |head| == HEADER_SIZE
    ensures (head + raw + rest)[..HEADER_SIZE] == head
    ensures (head + raw + rest)[HEADER_SIZE..HEADER_SIZE + |raw|] == raw
    ensures (head + raw + rest)[HEADER_SIZE + |raw|..] == rest
  {
  }

  lemma FrameIsRequest(raw: Bytes, rest: Bytes)
    requires 1 <= |raw| <= CHUNK_SIZE
    ensures NextRequest(Frame(raw) + rest) == Request(raw, rest)
  {
    HeaderRoundTrip(raw);
    DropHeader(LittleEndian(|raw|, HEADER_SIZE), raw, rest);
    hide LittleEndian, FromLittleEndian;
  }

  lemma WithLater(first: Bytes, written: Bytes, served: Served)
    ensures served.(written := first + (written + served.written)) ==
            served.(written := first + written + served.written)
  {
    Rejoin(first, written, served.written);
  }

  lemma ServeFirst(w: World, s: State, e: Event, more: Bytes, walks: nat -> seq<Path>, k: nat)
    requires IsMessage(e.raw) && |e.raw| <= CHUNK_SIZE && e.walk == walks(k) && Step(w, s, e).1.Replied?
    ensures var (s', outcome) := Step(w, s, e);
            var later := ServeStream(w, s', more, walks, k + 1);
            ServeStream(w, s, Frame(e.raw) + more, walks, k) ==
            later.(written := Frames(EncodeGroups(e.raw[0], outcome.groups)) + later.written)
  {
    FrameIsRequest(e.raw, more);
    assert e == Event(e.raw, walks(k));
    hide Step, NextRequest, Frame;
  }

  lemma RequestsRejoin(es: seq<Event>, rest: Bytes)
    requires es != []
    ensures RequestFrames(es) + rest == Frame(es[0].raw) + (RequestFrames(es[1..]) + rest)
  {
    Rejoin(Frame(es[0].raw), RequestFrames(es[1..]), rest);
  }

  lemma FirstOfRun(w: World, s: State, es: seq<Event>)
    requires es != [] && AllReplied(w, s, es) && AllMessages(es)
    ensures IsMessage(es[0].raw) && |es[0].raw| <= CHUNK_SIZE
    ensures var (s', outcome) := Step(w, s, es[0]);
            && outcome.Replied?
            && AllReplied(w, s', es[1..]) && AllMessages(es[1..])
            && Run(w, s, es) == Run(w, s', es[1..])
            && Written(Sendings(w, s, es)) ==
               Frames(EncodeGroups(es[0].raw[0], outcome.groups)) + Written(Sendings(w, s', es[1..]))
  {
    assert es[0] in es;
  }

  /** The requests meet these walks, from the `k`-th on. */
  predicate WalksAre(es: seq<Event>, walks: nat -> seq<Path>, k: nat) {
    es == [] || (es[0].walk == walks(k) && WalksAre(es[1..], walks, k + 1))
  }

  /** Serving the frames of a run of requests that are replied to makes of the session what the run
      makes of it, writes exactly the replies of the run, in order, and goes on with what follows. */
  lemma {:induction false} ServeStreamIsRun(w: World, s: State, es: seq<Event>, rest: Bytes,
                                            walks: nat -> seq<Path>, k: nat)
    requires AllReplied(w, s, es) && AllMessages(es)
    requires WalksAre(es, walks, k)
    ensures var later := ServeStream(w, Run(w, s, es), rest, walks, k + |es|);
            ServeStream(w, s, RequestFrames(es) + rest, walks, k) ==
            later.(written := Written(Sendings(w, s, es)) + later.written)
    decreases |es|
  {
    hide ServeStream, Step, IsMessage, Frame, Frames, EncodeGroups;
    if es == [] {
      assert RequestFrames(es) + rest == rest;
      var later := ServeStream(w, s, rest, walks, k);
      assert [] + later.written == later.written;
    } else {
      var e, more := es[0], RequestFrames(es[1..]) + rest;
      FirstOfRun(w, s, es);
      var (s', outcome) := Step(w, s, e);
      RequestsRejoin(es, rest);
      hide *;
      assert k + 1 + |es[1..]| == k + |es|;
      ServeFirst(w, s, e, more, walks, k);
      ServeStreamIsRun(w, s', es[1..], rest, walks, k + 1);
      WithLater(Frames(EncodeGroups(e.raw[0], outcome.groups)), Written(Sendings(w, s', es[1..])),
                ServeStream(w, Run(w, s', es[1..]), rest, walks, k + |es|));
    }
  }

  lemma CutRequest(raw: Bytes, n: nat)
    requires 1 <= |raw| <= CHUNK_SIZE && n < |Frame(raw)|
    ensures NextRequest(Frame(raw)[..n]) == EndOfStream
  {
    HeaderRoundTrip(raw);
    if n >= HEADER_SIZE {
      assert Frame(raw)[..n][..HEADER_SIZE] == LittleEndian(|raw|, HEADER_SIZE);
    }
    hide LittleEndian, FromLittleEndian;
  }

  lemma LongRequest(raw: Bytes, rest: Bytes)
    requires Sendable(raw) && |raw| > CHUNK_SIZE
    ensures NextRequest(Frame(raw) + rest) == Overlong
  {
    HeaderRoundTrip(raw);
    DropHeader(LittleEndian(|raw|, HEADER_SIZE), raw, rest);
    hide LittleEndian, FromLittleEndian;
  }

  /** How the serving of a stream ends that begins with this request, or with only a part of it. */
  lemma ServeLast(w: World, s: State, raw: Bytes, n: nat, rest: Bytes, walks: nat -> seq<Path>, k: nat)
    requires Sendable(raw)
    ensures |raw| <= CHUNK_SIZE && n < |Frame(raw)| ==>
              ServeStream(w, s, Frame(raw)[..n], walks, k) == Served(s.(stream := Closed), [], Ended)
    ensures |raw| > CHUNK_SIZE || !IsMessage(raw) ==>
              ServeStream(w, s, Frame(raw) + rest, walks, k) == Served(s, [], Unknown)
    ensures |raw| <= CHUNK_SIZE && IsMessage(raw) ==>
              var (r, outcome) := Step(w, s, Event(raw, walks(k)));
              !outcome.Replied? ==>
                ServeStream(w, s, Frame(raw) + rest, walks, k) ==
                Served(r, [], if outcome.Thrown? then Crashed else Unknown)
  {
    if |raw| <= CHUNK_SIZE {
      FrameIsRequest(raw, rest);
      if n < |Frame(raw)| {
        CutRequest(raw, n);
      }
    } else {
      LongRequest(raw, rest);
    }
    hide Step, Frame, NextRequest, IsMessage;
  }

  /** How the serving ends after a run of requests that are replied to. When the stream ends, within a request
      or before it, that request is not looked at and the upload stream is closed; a request that is too long
      or not well formed, or whose handling is undefined, is undefined; one that raises an exception ends
      the program. Nothing more is written and whatever follows is not looked at. */
  lemma ServeStreamEnds(w: World, s: State, es: seq<Event>, raw: Bytes, n: nat, rest: Bytes,
                        walks: nat -> seq<Path>)
    requires AllReplied(w, s, es) && AllMessages(es) && WalksAre(es, walks, 0) && Sendable(raw)
    ensures var r, written := Run(w, s, es), Written(Sendings(w, s, es));
            && (|raw| <= CHUNK_SIZE && n < |Frame(raw)| ==>
                  ServeStream(w, s, RequestFrames(es) + Frame(raw)[..n], walks, 0) ==
                  Served(r.(stream := Closed), written, Ended))
            && (|raw| > CHUNK_SIZE || !IsMessage(raw) ==>
                  ServeStream(w, s, RequestFrames(es) + (Frame(raw) + rest), walks, 0) == Served(r, written, Unknown))
            && (|raw| <= CHUNK_SIZE && IsMessage(raw) ==>
                  var (last, outcome) := Step(w, r, Event(raw, walks(|es|)));
                  !outcome.Replied? ==>
                    ServeStream(w, s, RequestFrames(es) + (Frame(raw) + rest), walks, 0) ==
                    Served(last, written, if outcome.Thrown? then Crashed else Unknown))
  {
    hide *;
    if n < |Frame(raw)| {
      ServeStreamIsRun(w, s, es, Frame(raw)[..n], walks, 0);
    }
    ServeStreamIsRun(w, s, es, Frame(raw) + rest, walks, 0);
    ServeLast(w, Run(w, s, es), raw, n, rest, walks, |es|);
    assert Written(Sendings(w, s, es)) + [] == Written(Sendings(w, s, es));
  }
}
