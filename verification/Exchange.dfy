/** The moves of client and server together, byte by byte: what the client sends for an operation, what
    the server writes back and what the client makes of it. */
module Exchanges {
  import opened Protocol
  import opened Tlvs
  import opened FileMessages
  import MessageQueues
  import opened Connections
  import Signs
  import opened Server
  import opened Sessions
  import opened Replies
  import opened Uploads
  import opened Client
  import opened Operations
  import Services
  import A = Agreement

  // ---- The replies to an operation ---------------------------------------------------

  /** Every chunk message of a cut stays within the chunk size. */
  predicate FitsChunks(cut: Cut, m: nat)
    requires m >= 3
  {
    forall i | 0 <= i < |cut.payloads| ::
      |cut.payloads[i]| <= if cut.complete && i == |cut.payloads| - 1 then m - 3 else m
  }

  lemma CutFitsChunks(file: Bytes, m: nat)
    requires m >= 3
    ensures FitsChunks(CutFile(file, m), m)
  {
    CutExact(file, m);
  }

  /** What the client reads for replies with these codes. */
  function RepliesTo(op: Op, codes: seq<nat>): seq<Bytes> {
    if codes == [] then [] else [ReplyTo(op, codes[0])] + RepliesTo(op, codes[1..])
  }

  lemma {:induction false} RepliesToLast(op: Op, codes: seq<nat>)
    ensures |RepliesTo(op, codes)| == |codes|
    ensures codes != [] ==> RepliesTo(op, codes)[|codes| - 1] == ReplyTo(op, codes[|codes| - 1])
  {
    if |codes| > 1 {
      RepliesToLast(op, codes[1..]);
    }
  }

  /** A run whose first request is replied to. */
  lemma RunOfReplies(w: World, s: State, es: seq<Event>, s': State, op: Op, code: nat)
    requires es != [] && IsMessage(es[0].raw) && |es[0].raw| <= CHUNK_SIZE && es[0].raw[0] == MessageType(op.kind)
    requires Step(w, s, es[0]) == (s', ChunkReply(SignOf(op), code))
    requires AllMessages(es[1..]) && AllReplied(w, s', es[1..])
    ensures AllMessages(es) && AllReplied(w, s, es) && Run(w, s, es) == Run(w, s', es[1..])
    ensures Whole(Sendings(w, s, es)) == [ReplyTo(op, code)] + Whole(Sendings(w, s', es[1..]))
  {
    RunHead(w, s, es, s', ChunkReply(SignOf(op), code));
    MessageQueues.PackedConserves([Tlv(ITEM, SignOf(op))] + Closing(code));
    hide Step, MessageQueues.Packed, IsMessage;
  }

  lemma ChunkFits(op: Op, data: Bytes, final: bool)
    requires op.kind != Erase && SignFits(SignOf(op))
    requires |data| <= if final then MaxPayload(SignOf(op)) - 3 else MaxPayload(SignOf(op))
    ensures var raw := EncodeMessage(if op.kind == Update then UPDATE else CREATE, ChunkTlvs(SignOf(op), data, final));
            1 <= |raw| <= CHUNK_SIZE && raw[0] == MessageType(op.kind)
  {
    ChunkTlvsSize(MessageType(op.kind), SignOf(op), data, final);
  }

  lemma {:induction false} UploadReplies(w: World, s: State, op: Op, digest: Digest, cut: Cut)
    requires s.auth && s.synced && op.kind != Erase && op.digest == digest && SignFits(SignOf(op))
    requires FitsChunks(cut, MaxPayload(SignOf(op)))
    ensures var es := UploadEvents(SignOf(op), cut, op.kind == Update);
            var (r, codes) := Chunks(w.hash, s, op.path, op.digest, cut, op.kind == Update);
            && AllMessages(es) && AllReplied(w, s, es)
            && Run(w, s, es) == r && Whole(Sendings(w, s, es)) == RepliesTo(op, codes)
    decreases |cut.payloads|
  {
    hide Step, Chunk, IsMessage, ChunkReply, Signs.CreateSign, EncodeMessage, ReplyTo;
    var sign, update := SignOf(op), op.kind == Update;
    var es := UploadEvents(sign, cut, update);
    if cut.payloads != [] {
      var rest := cut.(payloads := cut.payloads[1..]);
      var data, final := cut.payloads[0], cut.complete && |cut.payloads| == 1;
      var (s', code) := Chunk(w.hash, s, op.path, op.digest, data, final || EndsLikeEnd(data), update);
      assert FitsChunks(rest, MaxPayload(sign)) by {
        assert forall i | 0 <= i < |rest.payloads| :: rest.payloads[i] == cut.payloads[i + 1];
      }
      ChunkIsRequest(w, s, op.path, digest, data, final, update);
      ChunkKeepsPhase(w.hash, s, op.path, op.digest, data, final || EndsLikeEnd(data), update);
      UploadReplies(w, s', op, digest, rest);
      UploadEventsStep(sign, cut, update);
      ChunkFits(op, data, final);
      RunOfReplies(w, s, es, s', op, code);
    }
  }

  lemma EraseReply(w: World, s: State, op: Op)
    requires s.auth && s.synced && op.kind == Erase && SignFits(SignOf(op)) && 0 !in op.digest
    ensures var es := RequestsOf(op, []);
            var (r, code) := EraseFile(s, op.path, op.digest);
            && AllMessages(es) && AllReplied(w, s, es)
            && Run(w, s, es) == r && Whole(Sendings(w, s, es)) == RepliesTo(op, [code])
  {
    var es := RequestsOf(op, []);
    var ts := [Tlv(ITEM, SignOf(op)), Tlv(END, [])];
    var (s', code) := EraseFile(s, op.path, op.digest);
    EraseIsRequest(w, s, op);
    EraseFits(SignOf(op));
    assert es == [Event(EncodeMessage(ERASE, ts), [])] && es[1..] == [];
    hide Step, EncodeMessage, EraseFile, IsMessage, ChunkReply, Signs.CreateSign;
    assert Outcomes(w, s, es) == [Step(w, s, es[0]).1];
    assert Run(w, s, es) == Step(w, s, es[0]).0;
    RunOfReplies(w, s, es, s', op, code);
    assert RepliesTo(op, [code]) == [ReplyTo(op, code)];
  }

  lemma EraseFits(sign: Bytes)
    requires SignFits(sign)
    ensures var raw := EncodeMessage(ERASE, [Tlv(ITEM, sign), Tlv(END, [])]);
            |raw| <= CHUNK_SIZE && raw[0] == ERASE
  {
    var ts := [Tlv(ITEM, sign), Tlv(END, [])];
    assert ts[1..] == [Tlv(END, [])];
    assert Encode([Tlv(END, [])]) == EncodeTlv(Tlv(END, []));
    assert Encode(ts) == EncodeTlv(ts[0]) + Encode(ts[1..]);
  }

  /** All the requests of an operation are replied to; the replies are those to its codes, and the
      last of them is the code it was served with. */
  lemma ServeReplies(w: World, s: State, op: Op, digest: Digest, content: Bytes) returns (codes: seq<nat>)
    requires s.auth && s.synced && op.digest == digest && SignFits(SignOf(op))
    ensures var es := RequestsOf(op, content);
            && AllMessages(es) && AllReplied(w, s, es)
            && Run(w, s, es) == Serve(w.hash, s, op, content).0
            && Whole(Sendings(w, s, es)) == RepliesTo(op, codes)
    ensures Serve(w.hash, s, op, content).1 ==
            if (op.kind == Erase || CutOf(op, content).complete) && codes != [] then Some(codes[|codes| - 1]) else None
  {
    if op.kind == Erase {
      EraseReply(w, s, op);
      codes := [EraseFile(s, op.path, op.digest).1];
      hide Step;
    } else {
      CutFitsChunks(content, MaxPayload(SignOf(op)));
      UploadReplies(w, s, op, digest, CutOf(op, content));
      hide Step, Chunks;
      codes := Chunks(w.hash, s, op.path, op.digest, CutOf(op, content), op.kind == Update).1;
    }
  }

  // ---- The response ------------------------------------------------------------------

  /** The operation can be sent to its end. */
  predicate IsWhole(op: Op, content: Bytes)
    requires SignFits(SignOf(op))
  {
    op.kind == Erase || CutOf(op, content).complete
  }

  /** The response the client's callback is given when the server writes its replies to the requests
      of the operation, in whatever it writes later. */
  ghost function ResponseTo(w: World, s: State, op: Op, content: Bytes, rest: Bytes): Response
    requires SignFits(SignOf(op)) && AllMessages(RequestsOf(op, content)) && AllReplied(w, s, RequestsOf(op, content))
  {
    var es := RequestsOf(op, content);
    LastReply(ReadMany(|es|, Written(Sendings(w, s, es)) + rest), IsWhole(op, content))
  }

  /** The client is given the reply to the last request with the code the operation was served with,
      or nothing when the file could not be sent to its end. */
  lemma ResponseIsReply(w: World, s: State, op: Op, digest: Digest, content: Bytes, rest: Bytes)
    requires s.auth && s.synced && op.digest == digest && SignFits(SignOf(op))
    ensures var es := RequestsOf(op, content);
            && AllMessages(es) && AllReplied(w, s, es)
            && Run(w, s, es) == Serve(w.hash, s, op, content).0
            && ResponseTo(w, s, op, content, rest) ==
               match Serve(w.hash, s, op, content).1
               case None => Unanswered
               case Some(code) => Answered(ReplyTo(op, code))
  {
    var es := RequestsOf(op, content);
    var codes := ServeReplies(w, s, op, digest, content);
    Lockstep(w, s, es, rest);
    RepliesToLast(op, codes);
    hide Serve, Step, Sendings, Written, Whole, ReadMany, RequestsOf, AllReplied, AllMessages, Run, ReplyTo;
  }

  /** So a `Deliver` is the exchange of bytes: the client sends the requests, the server runs them, and
      the entry is settled by how the client judges the response it then reads. */
  lemma DeliverIsExchange(w: World, sys: A.System, index: nat, digest: Digest, content: Bytes, rest: Bytes)
    requires A.Enabled(sys, A.Deliver(index, content)) && sys.server.auth && sys.server.synced
    requires sys.pending[index].digest == digest
    ensures var op := sys.pending[index];
            var es := RequestsOf(op, content);
            && AllMessages(es) && AllReplied(w, sys.server, es)
            && var response := ResponseTo(w, sys.server, op, content, rest);
            && !response.Unreadable?
            && (response.Answered? ==> IsMessage(response.raw) && !Judge(op, response.raw).Raised?)
            && A.Next(w.hash, sys, A.Deliver(index, content)) ==
               A.System(Settle(sys.client, op, response.Answered? && Judge(op, response.raw).Accepted?),
                        Run(w, sys.server, es), A.Remove(sys.pending, index))
  {
    var op := sys.pending[index];
    ResponseIsReply(w, sys.server, op, digest, content, rest);
    if Serve(w.hash, sys.server, op, content).1.Some? {
      ServeCodeIsShort(w, sys.server, op, content);
      JudgeReply(op, Serve(w.hash, sys.server, op, content).1.value);
    }
    hide Serve, ResponseTo, RequestsOf, Judge, Settle, Run, AllReplied, AllMessages, ReplyTo, IsMessage, SignFits;
  }

  /** And a `Lose` is the same exchange broken off: the server has run the first requests. */
  lemma LoseIsExchange(w: World, sys: A.System, index: nat, digest: Digest, content: Bytes, sent: nat)
    requires A.Enabled(sys, A.Lose(index, content, sent)) && sys.server.auth && sys.server.synced
    requires sys.pending[index].digest == digest
    ensures var op := sys.pending[index];
            var es := RequestsOf(op, content);
            && sent <= |es| && AllMessages(es[..sent])
            && A.Next(w.hash, sys, A.Lose(index, content, sent)) ==
               A.System(Settle(sys.client, op, false), Run(w, sys.server, es[..sent]), A.Remove(sys.pending, index))
  {
    ServePartIsRun(w, sys.server, sys.pending[index], digest, content, sent);
    hide ServePart, RequestsOf, Run, Settle, AllMessages;
  }

  /** All that is written of the replies when the connection breaks within the `k`-th of them. */
  function CutOff(sendings: seq<Sent>, k: nat, n: nat): Bytes
    requires k < |sendings| && n <= |Frames(EncodeGroups(sendings[k].msgType, sendings[k].groups))|
  {
    Written(sendings[..k]) + Frames(EncodeGroups(sendings[k].msgType, sendings[k].groups))[..n]
  }

  lemma CutSendings(sendings: seq<Sent>, k: nat, n: nat)
    requires forall x | x in sendings :: Deliverable(x.msgType, x.groups)
    requires k < |sendings| && n < |Frames(EncodeGroups(sendings[k].msgType, sendings[k].groups))|
    ensures ReadMany(|sendings|, CutOff(sendings, k, n)) == Broken(Whole(sendings[..k]), Lost)
    ensures |Whole(sendings[..k])| == k
  {
    var done, reply := sendings[..k], sendings[k];
    assert reply in sendings && forall x | x in done :: x in sendings;
    var part := Frames(EncodeGroups(reply.msgType, reply.groups))[..n];
    CutReplyIsLost(reply.msgType, reply.groups, n);
    WholeCount(done);
    hide Deliverable, Written, Whole, Frames, EncodeGroups, ReadMany, ReadFrom;
    ReadSendings(done, part);
    ReadsBreakOff(k, |sendings|, Written(done) + part);
  }

  lemma {:induction false} UploadCount(op: Op, content: Bytes)
    requires SignFits(SignOf(op)) && op.kind != Erase
    ensures |RequestsOf(op, content)| == RequestCount(op, content) == |ChunkGroups(SignOf(op), CutOf(op, content))|
  {
  }

  /** When the connection breaks anywhere within the reply to the `sent`-th request, the client's callback is
      given no response, and exactly that many requests have been sent. */
  lemma LostReplyIsUnanswered(w: World, s: State, op: Op, digest: Digest, content: Bytes, sent: nat, n: nat)
    requires s.auth && s.synced && op.digest == digest && SignFits(SignOf(op)) && op.kind != Erase
    requires 1 <= sent <= RequestCount(op, content)
    ensures var es := RequestsOf(op, content);
            && AllMessages(es) && AllReplied(w, s, es)
            && var sendings := Sendings(w, s, es);
            && |sendings| == |es| == RequestCount(op, content)
            && (n < |Frames(EncodeGroups(sendings[sent - 1].msgType, sendings[sent - 1].groups))| ==>
                  var msgs := EncodeGroups(MessageType(op.kind), ChunkGroups(SignOf(op), CutOf(op, content)));
                  var read := ReadMany(|es|, CutOff(sendings, sent - 1, n));
                  LastReply(read, IsWhole(op, content)) == Unanswered && SentOf(msgs, read) == msgs[..sent])
  {
    RepliesOfUpload(w, s, op, digest, content);
    hide *;
    var msgs := EncodeGroups(MessageType(op.kind), ChunkGroups(SignOf(op), CutOf(op, content)));
    GroupCount(MessageType(op.kind), ChunkGroups(SignOf(op), CutOf(op, content)));
    CutExchange(Sendings(w, s, RequestsOf(op, content)), msgs, IsWhole(op, content), sent - 1, n);
  }

  lemma CutExchange(sendings: seq<Sent>, msgs: seq<Bytes>, complete: bool, k: nat, n: nat)
    requires forall x | x in sendings :: Deliverable(x.msgType, x.groups)
    requires k < |sendings| == |msgs|
    ensures n < |Frames(EncodeGroups(sendings[k].msgType, sendings[k].groups))| ==>
              var read := ReadMany(|sendings|, CutOff(sendings, k, n));
              LastReply(read, complete) == Unanswered && SentOf(msgs, read) == msgs[..k + 1]
  {
    hide *;
    if n < |Frames(EncodeGroups(sendings[k].msgType, sendings[k].groups))| {
      CutSendings(sendings, k, n);
      BrokenOff(msgs, complete, Whole(sendings[..k]), Lost);
    }
  }

  lemma RepliesOfUpload(w: World, s: State, op: Op, digest: Digest, content: Bytes)
    requires s.auth && s.synced && op.digest == digest && SignFits(SignOf(op)) && op.kind != Erase
    ensures var es := RequestsOf(op, content);
            && AllMessages(es) && AllReplied(w, s, es)
            && |Sendings(w, s, es)| == |es| == RequestCount(op, content)
            && |ChunkGroups(SignOf(op), CutOf(op, content))| == |es|
            && forall x | x in Sendings(w, s, es) :: Deliverable(x.msgType, x.groups)
  {
    var _ := ServeReplies(w, s, op, digest, content);
    UploadCount(op, content);
    hide *;
    SendingsAreDeliverable(w, s, RequestsOf(op, content));
  }

  lemma GroupCount(msgType: byte, groups: seq<seq<Tlv>>)
    ensures |EncodeGroups(msgType, groups)| == |groups|
  {
  }

  lemma {:induction false} WholeCount(sendings: seq<Sent>)
    ensures |Whole(sendings)| == |sendings|
  {
    if sendings != [] {
      WholeCount(sendings[1..]);
    }
  }

  // ---- As the two ends run -----------------------------------------------------------

  lemma {:induction false} FramesAreRequests(sign: Bytes, cut: Cut, update: bool)
    ensures Frames(EncodeGroups(if update then UPDATE else CREATE, ChunkGroups(sign, cut))) ==
            Services.RequestFrames(UploadEvents(sign, cut, update))
    decreases |cut.payloads|
  {
    if cut.payloads != [] {
      var rest := cut.(payloads := cut.payloads[1..]);
      var msgType := if update then UPDATE else CREATE;
      FramesAreRequests(sign, rest, update);
      UploadEventsStep(sign, cut, update);
      var groups := EncodeGroups(msgType, ChunkGroups(sign, cut));
      assert groups[1..] == EncodeGroups(msgType, ChunkGroups(sign, rest));
      assert groups[0] == UploadEvents(sign, cut, update)[0].raw;
      hide Frame;
    }
  }

  /** The upload of a file over a connection on which the server answers: the client writes exactly
      the requests, reads exactly their replies and gets the response to the operation. */
  method PostOperation(socket: Socket, w: World, ghost s: State, op: Op, ghost digest: Digest, content: Bytes,
                       ghost rest: Bytes)
    returns (response: Response)
    requires s.auth && s.synced && op.kind != Erase && op.digest == digest && SignFits(SignOf(op))
    requires AllMessages(RequestsOf(op, content)) && AllReplied(w, s, RequestsOf(op, content))
    requires socket.input == Written(Sendings(w, s, RequestsOf(op, content))) + rest
    modifies socket
    ensures response == ResponseTo(w, s, op, content, rest)
    ensures socket.output == old(socket.output) + Services.RequestFrames(RequestsOf(op, content))
    ensures socket.input == rest
  {
    Lockstep(w, s, RequestsOf(op, content), rest);
    FramesAreRequests(SignOf(op), CutOf(op, content), op.kind == Update);
    hide Step, Sendings, Written, Whole, ReadMany, AllReplied, AllMessages, Frames, Services.RequestFrames;
    response := PostFile(socket, MessageType(op.kind), content, SignOf(op));
  }
}
