/** Framing: every message travels behind its size in eight bytes. The server writes the
    messages of a reply one after the other; the client reads until it has seen an END. */
module Connections {
  import opened Protocol
  import opened Tlvs
  import opened FileMessages
  import opened MessageQueues

  // ---- The size header ---------------------------------------------------------------

  function Power256(k: nat): (p: nat)
    ensures p >= 1
  {
    if k == 0 then 1 else 256 * Power256(k - 1)
  }

  /** The `k` low bytes of `n`, lowest first. */
  function LittleEndian(n: nat, k: nat): (b: Bytes)
    ensures |b| == k
  {
    if k == 0 then [] else [Low(n)] + LittleEndian(n / 256, k - 1)
  }

  function FromLittleEndian(b: Bytes): nat {
    if b == [] then 0 else b[0] as nat + 256 * FromLittleEndian(b[1..])
  }

  lemma {:induction false} LittleEndianRoundTrip(n: nat, k: nat)
    requires n < Power256(k)
    ensures FromLittleEndian(LittleEndian(n, k)) == n
  {
    if k > 0 {
      LittleEndianRoundTrip(n / 256, k - 1);
      assert LittleEndian(n, k)[1..] == LittleEndian(n / 256, k - 1);
    }
  }

  lemma DivTwice(n: nat, p: nat)
    requires p > 0
    ensures 256 * p > 0 && n / 256 / p == n / (256 * p)
  {
    var q, s, r := n / 256 / p, n / 256 % p, n % 256;
    assert n / 256 == q * p + s && n == 256 * (n / 256) + r;
    assert 256 * (q * p + s) + r == q * (256 * p) + (256 * s + r);
    DivModUnique(n, 256 * p, q, 256 * s + r);
  }

  lemma {:induction false} LittleEndianAt(n: nat, k: nat, i: nat)
    requires i < k
    ensures LittleEndian(n, k)[i] as nat == n / Power256(i) % 256
  {
    if i > 0 {
      LittleEndianAt(n / 256, k - 1, i - 1);
      DivTwice(n, Power256(i - 1));
    }
  }

  const HEADER_SIZE: nat := 8

  function Frame(raw: Bytes): Bytes {
    LittleEndian(|raw|, HEADER_SIZE) + raw
  }

  /** The layout of a frame: the size in eight bytes, the lowest first, then the message. */
  lemma FrameLayout(raw: Bytes, i: nat)
    requires i < 8
    ensures Frame(raw)[8..] == raw && Frame(raw)[i] as nat == |raw| / Power256(i) % 256
  {
    LittleEndianAt(|raw|, HEADER_SIZE, i);
  }

  function Frames(msgs: seq<Bytes>): Bytes {
    if msgs == [] then [] else Frame(msgs[0]) + Frames(msgs[1..])
  }

  /** Eight bytes can express the size. */
  predicate Sendable(raw: Bytes) {
    1 <= |raw| < 0x1_0000_0000_0000_0000
  }

  lemma HeaderRoundTrip(raw: Bytes)
    requires Sendable(raw)
    ensures FromLittleEndian(LittleEndian(|raw|, HEADER_SIZE)) == |raw|
  {
    assert Power256(4) == 0x1_0000_0000;
    assert Power256(8) == 256 * (256 * (256 * (256 * Power256(4))));
    LittleEndianRoundTrip(|raw|, HEADER_SIZE);
  }

  // ---- What the client reads ---------------------------------------------------------

  predicate HasEnd(ts: seq<Tlv>) {
    exists t | t in ts :: t.tag == END
  }

  /** Lost: the stream ended inside a frame. Malformed: a frame the reader has no rule for. */
  datatype ReadOutcome = Received(raw: Bytes, rest: Bytes) | Lost | Malformed

  /** Reads frames from `input`, gluing them to `acc` without their type bytes (except the
      first), until the glued message has an END. */
  function ReadFrom(acc: Bytes, input: Bytes): ReadOutcome
    decreases |input|
  {
    if |input| < HEADER_SIZE then Lost
    else
      var size := FromLittleEndian(input[..HEADER_SIZE]);
      var end := HEADER_SIZE + size;
      if size == 0 then Malformed
      else if |input| < end then Lost
      else
        var glued := acc + input[if acc == [] then HEADER_SIZE else HEADER_SIZE + 1..end];
        match Parse(glued[1..])
        case None => Malformed
        case Some(ts) => if HasEnd(ts) then Received(glued, input[end..]) else ReadFrom(glued, input[end..])
  }

  /** A reply the client can delimit: an END in the last segment of all and nowhere else. */
  predicate EndsOnce(ts: seq<Tlv>) {
    && ts != []
    && ts[|ts| - 1].tag == END
    && forall i | 0 <= i < |ts| - 1 :: ts[i].tag != END
  }

  lemma ReadFrame(acc: Bytes, raw: Bytes, rest: Bytes)
    requires Sendable(raw)
    ensures ReadFrom(acc, Frame(raw) + rest) ==
            var glued := if acc == [] then raw else acc + raw[1..];
            match Parse(glued[1..])
            case None => Malformed
            case Some(ts) => if HasEnd(ts) then Received(glued, rest) else ReadFrom(glued, rest)
  {
    var input := Frame(raw) + rest;
    HeaderRoundTrip(raw);
    assert input[..HEADER_SIZE] == LittleEndian(|raw|, HEADER_SIZE);
    var end := HEADER_SIZE + |raw|;
    assert input[HEADER_SIZE..end] == raw;
    assert input[HEADER_SIZE + 1..end] == raw[1..];
    assert input[end..] == rest;
    assert [] + raw == raw;
  }

  /** What the client has after a frame, whether it is the first of a reply or not. */
  function Glued(seen: Option<seq<Tlv>>, group: seq<Tlv>): seq<Tlv> {
    match seen
    case None => group
    case Some(before) => before + group
  }

  function Buffer(msgType: byte, seen: Option<seq<Tlv>>): Bytes {
    match seen
    case None => []
    case Some(ts) => EncodeMessage(msgType, ts)
  }

  lemma GlueBytes(msgType: byte, seen: Option<seq<Tlv>>, group: seq<Tlv>)
    ensures var acc, raw := Buffer(msgType, seen), EncodeMessage(msgType, group);
            (if acc == [] then raw else acc + raw[1..]) == EncodeMessage(msgType, Glued(seen, group))
  {
    if seen.Some? {
      EncodeConcat(seen.value, group);
      assert EncodeMessage(msgType, group)[1..] == Encode(group);
    }
  }

  lemma GlueMessage(msgType: byte, seen: Option<seq<Tlv>>, group: seq<Tlv>, rest: Bytes)
    requires Sendable(EncodeMessage(msgType, group)) && AllFit(Glued(seen, group))
    ensures var all := Glued(seen, group);
            ReadFrom(Buffer(msgType, seen), Frame(EncodeMessage(msgType, group)) + rest) ==
            if HasEnd(all) then Received(EncodeMessage(msgType, all), rest)
            else ReadFrom(EncodeMessage(msgType, all), rest)
  {
    GlueBytes(msgType, seen, group);
    ReadFrame(Buffer(msgType, seen), EncodeMessage(msgType, group), rest);
    MessageRoundTrip(msgType, Glued(seen, group));
  }

  lemma EndsLater(groups: seq<seq<Tlv>>)
    requires |groups| > 1 && EndsOnce(FlattenFront(groups)) && groups[|groups| - 1] != []
    ensures !HasEnd(groups[0]) && EndsOnce(FlattenFront(groups[1..]))
  {
    var all, tail := FlattenFront(groups), FlattenFront(groups[1..]);
    LastIsReached(groups[1..]);
    assert all == groups[0] + tail;
    forall i | 0 <= i < |groups[0]| ensures groups[0][i].tag != END {
      assert all[i] == groups[0][i];
    }
    assert all[|all| - 1] == tail[|tail| - 1];
    forall i | 0 <= i < |tail| - 1 ensures tail[i].tag != END {
      assert all[|groups[0]| + i] == tail[i];
    }
  }

  lemma {:induction false} LastIsReached(groups: seq<seq<Tlv>>)
    requires groups != [] && groups[|groups| - 1] != []
    ensures FlattenFront(groups) != []
  {
    if |groups| > 1 {
      LastIsReached(groups[1..]);
    }
  }

  lemma FramesOfGroups(msgType: byte, groups: seq<seq<Tlv>>, rest: Bytes)
    requires groups != []
    ensures Frames(EncodeGroups(msgType, groups)) + rest ==
            Frame(EncodeMessage(msgType, groups[0])) + (Frames(EncodeGroups(msgType, groups[1..])) + rest)
  {
    assert EncodeGroups(msgType, groups)[1..] == EncodeGroups(msgType, groups[1..]);
  }

  predicate Readable(seen: Option<seq<Tlv>>, groups: seq<seq<Tlv>>) {
    && groups != [] && groups[|groups| - 1] != []
    && (forall g | g in groups :: AllFit(g))
    && (seen.Some? ==> AllFit(seen.value) && !HasEnd(seen.value))
    && EndsOnce(FlattenFront(groups))
  }

  lemma GluedHasEnd(seen: Option<seq<Tlv>>, group: seq<Tlv>)
    requires seen.Some? ==> !HasEnd(seen.value)
    ensures HasEnd(Glued(seen, group)) <==> HasEnd(group)
  {
    assert forall t | t in group :: t in Glued(seen, group);
  }

  lemma ReadableStep(seen: Option<seq<Tlv>>, groups: seq<seq<Tlv>>)
    requires Readable(seen, groups)
    ensures HasEnd(groups[0]) <==> |groups| == 1
    ensures AllFit(Glued(seen, groups[0]))
    ensures |groups| > 1 ==> Readable(Some(Glued(seen, groups[0])), groups[1..])
  {
    GluedHasEnd(seen, groups[0]);
    assert groups[0] in groups;
    if |groups| > 1 {
      EndsLater(groups);
    } else {
      assert FlattenFront(groups) == groups[0];
      assert groups[0][|groups[0]| - 1] in groups[0];
    }
  }

  lemma {:induction false} ReadGroups(msgType: byte, seen: Option<seq<Tlv>>, groups: seq<seq<Tlv>>, rest: Bytes)
    requires Readable(seen, groups)
    requires forall g | g in groups :: Sendable(EncodeMessage(msgType, g))
    ensures ReadFrom(Buffer(msgType, seen), Frames(EncodeGroups(msgType, groups)) + rest) ==
            Received(EncodeMessage(msgType, Glued(seen, FlattenFront(groups))), rest)
    decreases |groups|
  {
    var all := Glued(seen, groups[0]);
    var more := Frames(EncodeGroups(msgType, groups[1..])) + rest;
    ReadableStep(seen, groups);
    GluedHasEnd(seen, groups[0]);
    assert Glued(seen, FlattenFront(groups)) == all + FlattenFront(groups[1..]);
    FramesOfGroups(msgType, groups, rest);
    GlueMessage(msgType, seen, groups[0], more);
    if |groups| > 1 {
      ReadGroups(msgType, Some(all), groups[1..], rest);
    } else {
      assert more == rest;
      assert all + FlattenFront(groups[1..]) == all;
    }
  }

  /** The client reads exactly the frames of one reply, gives its type byte followed by all its
      segments, in order, and leaves what comes after untouched. */
  lemma ReadReply(msgType: byte, groups: seq<seq<Tlv>>, rest: Bytes)
    requires groups != [] && groups[|groups| - 1] != []
    requires forall g | g in groups :: AllFit(g) && Sendable(EncodeMessage(msgType, g))
    requires EndsOnce(Flatten(groups))
    ensures ReadFrom([], Frames(EncodeGroups(msgType, groups)) + rest) ==
            Received(EncodeMessage(msgType, Flatten(groups)), rest)
  {
    FlattenBothWays(groups);
    ReadGroups(msgType, None, groups, rest);
  }

  lemma CutFrame(acc: Bytes, raw: Bytes, n: nat)
    requires Sendable(raw) && n < |Frame(raw)|
    ensures ReadFrom(acc, Frame(raw)[..n]) == Lost
  {
    HeaderRoundTrip(raw);
    if n >= HEADER_SIZE {
      assert Frame(raw)[..n][..HEADER_SIZE] == LittleEndian(|raw|, HEADER_SIZE);
    }
  }

  lemma CutTwo(frame: Bytes, later: Bytes, n: nat)
    requires n < |frame + later|
    ensures (frame + later)[..n] == if n < |frame| then frame[..n] else frame + later[..n - |frame|]
  {
  }

  lemma {:induction false} CutGroups(msgType: byte, seen: Option<seq<Tlv>>, groups: seq<seq<Tlv>>, n: nat)
    requires Readable(seen, groups) && n < |Frames(EncodeGroups(msgType, groups))|
    requires forall g | g in groups :: Sendable(EncodeMessage(msgType, g))
    ensures ReadFrom(Buffer(msgType, seen), Frames(EncodeGroups(msgType, groups))[..n]) == Lost
    decreases |groups|
  {
    var frame, later := Frame(EncodeMessage(msgType, groups[0])), Frames(EncodeGroups(msgType, groups[1..]));
    FramesOfGroups(msgType, groups, []);
    ReadableStep(seen, groups);
    GluedHasEnd(seen, groups[0]);
    assert groups[0] in groups && (|groups| == 1 ==> later == []);
    hide ReadFrom, Frame, Frames, EncodeMessage, EncodeGroups, Readable, HasEnd, AllFit;
    assert Frames(EncodeGroups(msgType, groups)) + [] == Frames(EncodeGroups(msgType, groups)) && later + [] == later;
    CutTwo(frame, later, n);
    if n < |frame| {
      CutFrame(Buffer(msgType, seen), EncodeMessage(msgType, groups[0]), n);
    } else {
      hide Buffer;
      GlueMessage(msgType, seen, groups[0], later[..n - |frame|]);
      CutGroups(msgType, Some(Glued(seen, groups[0])), groups[1..], n - |frame|);
      BufferOfSome(msgType, Glued(seen, groups[0]));
    }
  }

  lemma BufferOfSome(msgType: byte, ts: seq<Tlv>)
    ensures Buffer(msgType, Some(ts)) == EncodeMessage(msgType, ts)
  {
  }

  /** A reply that is cut off anywhere, between its frames or within one, is never taken for a reply. */
  lemma CutReplyIsLost(msgType: byte, groups: seq<seq<Tlv>>, n: nat)
    requires groups != [] && groups[|groups| - 1] != []
    requires forall g | g in groups :: AllFit(g) && Sendable(EncodeMessage(msgType, g))
    requires EndsOnce(Flatten(groups)) && n < |Frames(EncodeGroups(msgType, groups))|
    ensures ReadFrom([], Frames(EncodeGroups(msgType, groups))[..n]) == Lost
  {
    FlattenBothWays(groups);
    CutGroups(msgType, None, groups, n);
  }

  /** What a number of reads give: all the replies, or those before the read that failed. */
  datatype Reads = AllRead(raws: seq<Bytes>, rest: Bytes) | Broken(raws: seq<Bytes>, cause: ReadOutcome)

  function Then(raws: seq<Bytes>, more: Reads): Reads {
    more.(raws := raws + more.raws)
  }

  /** `n` reads of the client. */
  function ReadMany(n: nat, input: Bytes): Reads {
    if n == 0 then AllRead([], input)
    else
      match ReadFrom([], input)
      case Received(raw, rest) => Then([raw], ReadMany(n - 1, rest))
      case failure => Broken([], failure)
  }

  /** When the reads so far have taken everything that can be read, the next one breaks off. */
  lemma {:induction false} ReadsBreakOff(k: nat, n: nat, input: Bytes)
    requires k < n && ReadMany(k, input).AllRead? && !ReadFrom([], ReadMany(k, input).rest).Received?
    ensures ReadMany(n, input) == Broken(ReadMany(k, input).raws, ReadFrom([], ReadMany(k, input).rest))
    decreases k
  {
    hide ReadFrom;
    if k > 0 {
      ReadsBreakOff(k - 1, n - 1, ReadFrom([], input).rest);
    }
  }

  // ---- The two ends ------------------------------------------------------------------

  class Socket {
    var input: Bytes
    var output: Bytes

    constructor (input: Bytes)
      ensures this.input == input && output == []
    {
      this.input, output := input, [];
    }

    /** Reads exactly `n` bytes, or fails at the end of the stream. */
    method Read(n: nat) returns (data: Option<Bytes>)
      modifies this
      ensures output == old(output)
      ensures if n <= |old(input)| then data == Some(old(input)[..n]) && input == old(input)[n..]
              else data == None
    {
      if |input| < n {
        return None;
      }
      data := Some(input[..n]);
      input := input[n..];
    }

    method Write(data: Bytes)
      modifies this
      ensures output == old(output) + data && input == old(input)
    {
      output := output + data;
    }
  }

  method WriteNext(socket: Socket, replies: MessageQueue)
    requires replies.Valid() && replies.msgs != []
    modifies socket, replies
    ensures socket.output == old(socket.output) + Frame(old(replies.msgs)[0])
    ensures socket.input == old(socket.input)
    ensures replies.Valid() && replies.msgs == old(replies.msgs)[1..]
  {
    var header := |replies.msgs[0]|;
    socket.Write(LittleEndian(header, HEADER_SIZE));
    var msg := replies.msgs[0];
    replies.Pop();
    socket.Write(msg);
  }

  lemma FramesNext(output: Bytes, msgs: seq<Bytes>)
    requires msgs != []
    ensures output + Frame(msgs[0]) + Frames(msgs[1..]) == output + Frames(msgs)
  {
  }

  /** Drains the reply queue into the socket, a header and a message at a time. */
  method WriteResponse(socket: Socket, replies: MessageQueue)
    requires replies.Valid() && replies.msgs != []
    modifies socket, replies
    ensures socket.output == old(socket.output) + Frames(old(replies.msgs))
    ensures socket.input == old(socket.input) && replies.msgs == []
  {
    ghost var target := socket.output + Frames(replies.msgs);
    while replies.msgs != []
      invariant replies.Valid()
      invariant socket.output + Frames(replies.msgs) == target
      invariant socket.input == old(socket.input)
      decreases |replies.msgs|
    {
      FramesNext(socket.output, replies.msgs);
      WriteNext(socket, replies);
    }
  }

  lemma HasEndSnoc(ts: seq<Tlv>, i: nat)
    requires i < |ts|
    ensures HasEnd(ts[..i + 1]) <==> HasEnd(ts[..i]) || ts[i].tag == END
  {
    assert ts[..i + 1] == ts[..i] + [ts[i]];
  }

  /** True when one of the segments of a message is an END. */
  method FindEnd(raw: Bytes) returns (ended: bool)
    requires IsMessage(raw)
    ensures ended == HasEnd(Segments(raw))
  {
    var view := new TlvView(raw);
    ghost var all := Segments(raw);
    ghost var seen := 0;
    ended := false;
    assert !HasEnd(all[..0]);
    hide HasEnd;
    var more := view.NextTlv();
    while more
      invariant view.Valid() && fresh(view)
      invariant seen <= |all| && ended == HasEnd(all[..seen])
      invariant more ==> seen < |all| && view.Current() == Some(all[seen]) && view.Rest() == all[seen + 1..]
      invariant !more ==> seen == |all|
      decreases if more then 1 + |view.Rest()| else 0
    {
      HasEndSnoc(all, seen);
      if view.tag == END {
        ended := true;
      }
      seen := seen + 1;
      more := view.NextTlv();
    }
    assert all[..|all|] == all;
  }

  datatype Body = Body(bytes: Bytes) | NoBody | EmptyFrame

  /** What the next frame adds to a reply; its type byte only to the start of one. */
  function BodyOf(input: Bytes, first: bool): Body {
    if |input| < HEADER_SIZE then NoBody
    else
      var size := FromLittleEndian(input[..HEADER_SIZE]);
      if size == 0 then EmptyFrame
      else if |input| < HEADER_SIZE + size then NoBody
      else Body(input[if first then HEADER_SIZE else HEADER_SIZE + 1..HEADER_SIZE + size])
  }

  method ReadBody(socket: Socket, first: bool) returns (body: Body)
    modifies socket
    ensures socket.output == old(socket.output)
    ensures body == BodyOf(old(socket.input), first)
    ensures body.Body? ==>
              socket.input == old(socket.input)[HEADER_SIZE + FromLittleEndian(old(socket.input)[..HEADER_SIZE])..]
  {
    ghost var input := socket.input;
    var head := socket.Read(HEADER_SIZE);
    if head.None? {
      return NoBody;
    }
    var header := FromLittleEndian(head.value);
    if header == 0 {
      return EmptyFrame;
    }
    ghost var end := HEADER_SIZE + header;
    ghost var start := if first then HEADER_SIZE else HEADER_SIZE + 1;
    if !first {
      var msgType := socket.Read(1);
      if msgType.None? {
        return NoBody;
      }
      header := header - 1;
    }
    assert socket.input == input[start..];
    var bytes := socket.Read(header);
    assert end <= |input| ==> input[start..][..header] == input[start..end] && input[start..][header..] == input[end..];
    body := if bytes.None? then NoBody else Body(bytes.value);
  }

  lemma ReadStep(acc: Bytes, input: Bytes)
    ensures var body := BodyOf(input, acc == []);
            ReadFrom(acc, input) ==
            match body
            case NoBody => Lost
            case EmptyFrame => Malformed
            case Body(bytes) =>
              var glued, rest := acc + bytes, input[HEADER_SIZE + FromLittleEndian(input[..HEADER_SIZE])..];
              if !IsMessage(glued) then Malformed
              else if HasEnd(Segments(glued)) then Received(glued, rest) else ReadFrom(glued, rest)
  {
  }

  /** The client's read: grows one buffer, frame by frame, until an END shows up in it. What the
      code does with an empty frame, or with one whose segments overrun the buffer, is undefined. */
  method ReadMessage(socket: Socket) returns (outcome: ReadOutcome)
    modifies socket
    ensures socket.output == old(socket.output)
    ensures outcome == ReadFrom([], old(socket.input))
    ensures outcome.Received? ==> socket.input == outcome.rest
  {
    var raw: Bytes := [];
    var ended, first := false, true;
    ghost var target := ReadFrom([], socket.input);
    while !ended
      invariant first <==> raw == []
      invariant socket.output == old(socket.output)
      invariant target == if ended then Received(raw, socket.input) else ReadFrom(raw, socket.input)
      decreases !ended, |socket.input|
    {
      ReadStep(raw, socket.input);
      hide ReadFrom, BodyOf, HasEnd;
      var body := ReadBody(socket, first);
      if body == NoBody {
        return Lost;
      }
      if body == EmptyFrame || !IsMessage(raw + body.bytes) {
        return Malformed;
      }
      raw := raw + body.bytes;
      first := false;
      ended := FindEnd(raw);
    }
    outcome := Received(raw, socket.input);
  }

  // ---- Posting a file ----------------------------------------------------------------

  /** Sends a message and waits for the response. */
  method PostMessage(socket: Socket, raw: Bytes) returns (outcome: ReadOutcome)
    modifies socket
    ensures socket.output == old(socket.output) + Frame(raw)
    ensures outcome == ReadFrom([], old(socket.input))
    ensures outcome.Received? ==> socket.input == outcome.rest
  {
    socket.Write(LittleEndian(|raw|, HEADER_SIZE) + raw);
    outcome := ReadMessage(socket);
  }

  /** What the callback of an operation is given: a response or none. Unreadable: the read of a reply
      was undefined. */
  datatype Response = Answered(raw: Bytes) | Unanswered | Unreadable

  /** The response a client gives its callback for a file: the reply to the last chunk, or none when a
      reply is missing or the file cannot be cut. */
  function LastReply(read: Reads, complete: bool): Response {
    match read
    case Broken(_, cause) => if cause.Malformed? then Unreadable else Unanswered
    case AllRead(raws, _) => if complete && raws != [] then Answered(raws[|raws| - 1]) else Unanswered
  }

  /** What has been sent: nothing after the message whose reply is missing. */
  function SentOf(msgs: seq<Bytes>, read: Reads): seq<Bytes> {
    if read.Broken? && |read.raws| < |msgs| then msgs[..|read.raws| + 1] else msgs
  }

  lemma TakeReply(raws: seq<Bytes>, k: nat, input: Bytes)
    ensures var read := ReadFrom([], input);
            Then(raws, ReadMany(k + 1, input)) ==
            if read.Received? then Then(raws + [read.raw], ReadMany(k, read.rest)) else Broken(raws, read)
  {
    var read := ReadFrom([], input);
    if read.Received? {
      var later := ReadMany(k, read.rest).raws;
      assert raws + ([read.raw] + later) == raws + [read.raw] + later;
    } else {
      assert raws + [] == raws;
    }
  }

  lemma ThenNothing(more: Reads)
    ensures Then([], more) == more
  {
    assert [] + more.raws == more.raws;
  }

  /** The state of an exchange: the first messages have been sent and answered. */
  ghost predicate Exchanged(all: seq<Bytes>, input: Bytes, output: Bytes, raws: seq<Bytes>,
                            left: Bytes, written: Bytes) {
    && |raws| <= |all|
    && Then(raws, ReadMany(|all| - |raws|, left)) == ReadMany(|all|, input)
    && written == output + Frames(all[..|raws|])
  }

  lemma ExchangeStep(all: seq<Bytes>, input: Bytes, output: Bytes, raws: seq<Bytes>, left: Bytes, written: Bytes)
    requires Exchanged(all, input, output, raws, left, written) && |raws| < |all|
    ensures var outcome, written' := ReadFrom([], left), written + Frame(all[|raws|]);
            if outcome.Received? then Exchanged(all, input, output, raws + [outcome.raw], outcome.rest, written')
            else ReadMany(|all|, input) == Broken(raws, outcome) && written' == output + Frames(all[..|raws| + 1])
  {
    hide ReadMany, ReadFrom, Frame, Frames, Then;
    ReadsStep(|all|, input, raws, left);
    SendOne(output, all, |raws|);
  }

  lemma ReadsStep(n: nat, input: Bytes, raws: seq<Bytes>, left: Bytes)
    requires |raws| < n && Then(raws, ReadMany(n - |raws|, left)) == ReadMany(n, input)
    ensures var outcome := ReadFrom([], left);
            if outcome.Received? then
              Then(raws + [outcome.raw], ReadMany(n - |raws| - 1, outcome.rest)) == ReadMany(n, input)
            else ReadMany(n, input) == Broken(raws, outcome)
  {
    TakeReply(raws, n - |raws| - 1, left);
    hide *;
  }

  lemma SendOne(output: Bytes, msgs: seq<Bytes>, i: nat)
    requires i < |msgs|
    ensures output + Frames(msgs[..i]) + Frame(msgs[i]) == output + Frames(msgs[..i + 1])
  {
    FramesSnoc(msgs, i);
    hide Frame, Frames;
  }

  /** Sends the next message and takes its answer. */
  method ExchangeOne(ghost all: seq<Bytes>, ghost input: Bytes, ghost output: Bytes, ghost raws: seq<Bytes>,
                     socket: Socket, raw: Bytes) returns (outcome: ReadOutcome)
    requires Exchanged(all, input, output, raws, socket.input, socket.output) && |raws| < |all| && raw == all[|raws|]
    modifies socket
    ensures if outcome.Received? then Exchanged(all, input, output, raws + [outcome.raw], socket.input, socket.output)
            else ReadMany(|all|, input) == Broken(raws, outcome) && socket.output == output + Frames(all[..|raws| + 1])
  {
    ExchangeStep(all, input, output, raws, socket.input, socket.output);
    hide *;
    outcome := PostMessage(socket, raw);
  }

  lemma BrokenOff(msgs: seq<Bytes>, complete: bool, raws: seq<Bytes>, cause: ReadOutcome)
    requires |raws| < |msgs|
    ensures LastReply(Broken(raws, cause), complete) == if cause.Malformed? then Unreadable else Unanswered
    ensures SentOf(msgs, Broken(raws, cause)) == msgs[..|raws| + 1]
  {
  }

  lemma AllSent(msgs: seq<Bytes>, complete: bool, raws: seq<Bytes>, rest: Bytes)
    ensures LastReply(AllRead(raws, rest), complete) ==
            if complete && raws != [] then Answered(raws[|raws| - 1]) else Unanswered
    ensures SentOf(msgs, AllRead(raws, rest)) == msgs
  {
  }

  /** Sends the messages of a file, each after the reply to the one before. */
  method PostChunks(socket: Socket, fMsg: FMessage) returns (response: Response)
    requires fMsg.Valid() && !fMsg.failed && fMsg.index == 0
    modifies socket, fMsg, fMsg.buffer
    ensures var read := ReadMany(|fMsg.messages|, old(socket.input));
            && response == LastReply(read, fMsg.complete)
            && socket.output == old(socket.output) + Frames(SentOf(fMsg.messages, read))
            && (read.AllRead? ==> socket.input == read.rest)
  {
    ghost var input, output := socket.input, socket.output;
    ghost var all, raws := fMsg.messages, [];
    response := Unanswered;
    ThenNothing(ReadMany(|all|, input));
    assert output + Frames(all[..0]) == output;
    assert Exchanged(all, input, output, raws, input, output);
    hide FMessage.Valid, ReadMany, ReadFrom, Frame, Frames, LastReply, SentOf, Then, Exchanged;
    var status := fMsg.NextChunk();
    while status == Ready
      invariant fMsg.Valid() && fMsg.failed == status.UnexpectedEof?
      invariant Exchanged(all, input, output, raws, socket.input, socket.output)
      invariant if status == Ready then |raws| < |all| && fMsg.buffer.raw == all[|raws|] && fMsg.index == |raws| + 1
                else |raws| == |all| && fMsg.complete == status.Exhausted?
      invariant response == if raws == [] then Unanswered else Answered(raws[|raws| - 1])
      decreases status == Ready, |all| - |raws|
    {
      var outcome := ExchangeOne(all, input, output, raws, socket, fMsg.buffer.raw);
      if !outcome.Received? {
        BrokenOff(all, fMsg.complete, raws, outcome);
        return if outcome.Malformed? then Unreadable else Unanswered;
      }
      response := Answered(outcome.raw);
      raws := raws + [outcome.raw];
      status := fMsg.NextChunk();
    }
    ExchangedAll(all, input, output, raws, socket);
    AllSent(all, fMsg.complete, raws, socket.input);
    if status == UnexpectedEof {
      response := Unanswered;
    }
  }

  /** Posts a file: the response is the reply to its last chunk, if all of it could be sent; no chunk
      is sent after a missing reply. */
  method PostFile(socket: Socket, msgType: byte, file: Bytes, sign: Bytes) returns (response: Response)
    requires SignFits(sign)
    modifies socket
    ensures var cut := CutFile(file, MaxPayload(sign));
            var msgs := EncodeGroups(msgType, ChunkGroups(sign, cut));
            var read := ReadMany(|msgs|, old(socket.input));
            && response == LastReply(read, cut.complete)
            && socket.output == old(socket.output) + Frames(SentOf(msgs, read))
            && (read.AllRead? ==> socket.input == read.rest)
  {
    var fMsg := new FMessage(msgType, file, sign);
    response := PostChunks(socket, fMsg);
  }

  lemma ExchangedAll(all: seq<Bytes>, input: Bytes, output: Bytes, raws: seq<Bytes>, socket: Socket)
    requires Exchanged(all, input, output, raws, socket.input, socket.output) && |raws| == |all|
    ensures ReadMany(|all|, input) == AllRead(raws, socket.input)
    ensures socket.output == output + Frames(all)
  {
    assert all[..|raws|] == all;
    assert raws + [] == raws;
  }

  lemma {:induction false} FramesConcat(a: seq<Bytes>, b: seq<Bytes>)
    ensures Frames(a + b) == Frames(a) + Frames(b)
  {
    if a == [] {
      assert a + b == b;
    } else {
      assert (a + b)[1..] == a[1..] + b;
      FramesConcat(a[1..], b);
    }
  }

  lemma FramesSnoc(msgs: seq<Bytes>, i: nat)
    requires i < |msgs|
    ensures Frames(msgs[..i + 1]) == Frames(msgs[..i]) + Frame(msgs[i])
  {
    assert msgs[..i + 1] == msgs[..i] + [msgs[i]];
    FramesConcat(msgs[..i], [msgs[i]]);
    assert Frames([msgs[i]]) == Frame(msgs[i]);
  }
}
