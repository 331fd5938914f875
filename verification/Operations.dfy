/** The operations of the client as the server sees them: the requests of each, what they do
    and how the client judges the reply. */
module Operations {
  import opened Protocol
  import opened Tlvs
  import opened FileMessages
  import opened MessageQueues
  import opened Connections
  import Signs
  import opened Server
  import Replies
  import opened Sessions
  import opened Uploads
  import opened Client

  function SignOf(op: Op): Bytes {
    Signs.CreateSign(op.path, op.digest)
  }

  /** The chunks an upload is sent in, when the file has this content at that moment. */
  function CutOf(op: Op, content: Bytes): Cut
    requires SignFits(SignOf(op))
  {
    CutFile(content, MaxPayload(SignOf(op)))
  }

  /** What serving an operation leaves on the server, and the code of the last reply; None when
      the client gets no response because the file could not be sent to its end. */
  function Serve(h: Hash, s: State, op: Op, content: Bytes): (State, Option<nat>)
    requires SignFits(SignOf(op))
  {
    if op.kind == Erase then
      var (s', code) := EraseFile(s, op.path, op.digest);
      (s', Some(code))
    else
      var (s', codes) := Chunks(h, s, op.path, op.digest, CutOf(op, content), op.kind == Update);
      (s', if CutOf(op, content).complete && codes != [] then Some(codes[|codes| - 1]) else None)
  }

  /** The codes the client takes for success. */
  predicate Succeeds(kind: Kind, code: Option<nat>) {
    code.Some? && (code.value == ERR_NONE || code == Harmless(kind))
  }

  // ---- Serving is running the requests -----------------------------------------------

  function RequestsOf(op: Op, content: Bytes): seq<Event>
    requires SignFits(SignOf(op))
  {
    if op.kind == Erase then [Event(EncodeMessage(ERASE, [Tlv(ITEM, SignOf(op)), Tlv(END, [])]), [])]
    else UploadEvents(SignOf(op), CutOf(op, content), op.kind == Update)
  }

  /** The message the client reads for a reply with this code. */
  function ReplyTo(op: Op, code: nat): Bytes {
    EncodeMessage(MessageType(op.kind), [Tlv(ITEM, SignOf(op))] + Closing(code))
  }

  /** The client accepts exactly OK and the errors that are as good, and no reply of the server
      to an operation ever raises an exception. */
  lemma JudgeReply(op: Op, code: nat)
    requires |SignOf(op)| <= 65535 && code < 1000
    ensures IsMessage(ReplyTo(op, code))
    ensures Judge(op, ReplyTo(op, code)) == if Succeeds(op.kind, Some(code)) then Accepted else Rejected
  {
    var ts := [Tlv(ITEM, SignOf(op))] + Closing(code);
    DecimalRoundTrip(code);
    DecimalLength(code);
    MessageRoundTrip(MessageType(op.kind), ts);
    assert ts[1] == Closing(code)[0];
  }

  /** What is accepted of any message at all, and when judging it raises an exception: an upload whose sign is
      followed by neither OK nor a number; an erase never does. */
  lemma JudgeExactly(op: Op, msgType: byte, ts: seq<Tlv>)
    requires AllFit(ts)
    ensures IsMessage(EncodeMessage(msgType, ts))
    ensures var mine := && msgType == (match op.kind case Create => CREATE case Update => UPDATE case Erase => ERASE)
                        && |ts| >= 2 && ts[0] == Tlv(ITEM, SignOf(op));
            var number := if |ts| >= 2 then Stoi(ts[1].value) else None;
            && (Judge(op, EncodeMessage(msgType, ts)) == Accepted <==>
                  mine && (|| ts[1].tag == OK
                           || (op.kind == Create && number == Some(ERR_CREATE_ALREADY_EXIST))
                           || (op.kind == Update && number == Some(ERR_UPDATE_ALREADY_UPDATED))))
            && (Judge(op, EncodeMessage(msgType, ts)) == Raised <==>
                  mine && ts[1].tag != OK && op.kind != Erase && number == None)
  {
    MessageRoundTrip(msgType, ts);
    hide Stoi, EncodeMessage, Segments, IsMessage, Signs.CreateSign;
  }

  /** Only the reply to the operation itself is taken for a success: one to another file, to another
      digest of it or to another kind of request never is, whatever its code. */
  lemma OnlyItsOwnReply(op: Op, other: Op, code: nat)
    requires |SignOf(op)| <= 65535 && |SignOf(other)| <= 65535 && code < 1000
    requires 0 !in op.digest && 0 !in other.digest
    ensures IsMessage(ReplyTo(other, code))
    ensures Judge(op, ReplyTo(other, code)) == Accepted <==> op == other && Succeeds(op.kind, Some(code))
  {
    if op == other {
      JudgeReply(op, code);
    } else {
      var ts := [Tlv(ITEM, SignOf(other))] + Closing(code);
      DecimalLength(code);
      MessageRoundTrip(MessageType(other.kind), ts);
      Signs.SignRoundTrip(op.path, op.digest);
      Signs.SignRoundTrip(other.path, other.digest);
      assert ts[0] == Tlv(ITEM, SignOf(other));
      hide Closing, Segments, IsMessage, EncodeMessage, Stoi, Signs.CreateSign, Signs.SplitSign;
    }
  }

  /** And no reply without a sign in front is. */
  lemma RefusalIsNoSuccess(op: Op, msgType: byte, code: nat)
    requires code < 1000
    ensures IsMessage(EncodeMessage(msgType, Closing(code)))
    ensures Judge(op, EncodeMessage(msgType, Closing(code))) == Rejected
  {
    DecimalLength(code);
    MessageRoundTrip(msgType, Closing(code));
  }

  lemma EraseIsRequest(w: World, s: State, op: Op)
    requires s.auth && s.synced && op.kind == Erase && SignFits(SignOf(op)) && 0 !in op.digest
    ensures var es := RequestsOf(op, []);
            && AllMessages(es)
            && var (s', code) := EraseFile(s, op.path, op.digest);
            && Run(w, s, es) == s'
            && Outcomes(w, s, es) == [ChunkReply(SignOf(op), code)]
  {
    var sign := SignOf(op);
    var ts := [Tlv(ITEM, sign), Tlv(END, [])];
    MessageRoundTrip(ERASE, ts);
    Signs.SignRoundTrip(op.path, op.digest);
    var raw := EncodeMessage(ERASE, ts);
    var (s', code) := EraseFile(s, op.path, op.digest);
    assert Step(w, s, Event(raw, [])) == (s', ChunkReply(sign, code));
    hide Step;
    var es := RequestsOf(op, []);
    assert es[1..] == [];
    RunHead(w, s, es, s', ChunkReply(sign, code));
  }

  lemma {:induction false} ChunkRepliesLast(sign: Bytes, codes: seq<nat>)
    ensures |ChunkReplies(sign, codes)| == |codes|
    ensures codes != [] ==> ChunkReplies(sign, codes)[|codes| - 1] == ChunkReply(sign, codes[|codes| - 1])
  {
    if |codes| > 1 {
      ChunkRepliesLast(sign, codes[1..]);
    }
  }

  lemma {:induction false} ChunksCount(h: Hash, s: State, path: Path, digest: Bytes, cut: Cut, update: bool)
    ensures |Chunks(h, s, path, digest, cut, update).1| == |cut.payloads|
    decreases |cut.payloads|
  {
    if cut.payloads != [] {
      var last := (cut.complete && |cut.payloads| == 1) || EndsLikeEnd(cut.payloads[0]);
      var s' := Chunk(h, s, path, digest, cut.payloads[0], last, update).0;
      ChunksCount(h, s', path, digest, cut.(payloads := cut.payloads[1..]), update);
    }
  }

  /** How many requests an operation takes. */
  function RequestCount(op: Op, content: Bytes): nat
    requires SignFits(SignOf(op))
  {
    if op.kind == Erase then 1 else |CutOf(op, content).payloads|
  }

  /** The first chunks of a cut. */
  function Part(cut: Cut, sent: nat): Cut
    requires sent <= |cut.payloads|
  {
    Cut(cut.payloads[..sent], cut.complete && sent == |cut.payloads|)
  }

  /** What the first requests of an operation leave on the server when no more of them come. */
  function ServePart(h: Hash, s: State, op: Op, content: Bytes, sent: nat): State
    requires SignFits(SignOf(op)) && sent <= RequestCount(op, content)
  {
    if op.kind == Erase then if sent == 0 then s else EraseFile(s, op.path, op.digest).0
    else Chunks(h, s, op.path, op.digest, Part(CutOf(op, content), sent), op.kind == Update).0
  }

  lemma ServePartOfAll(h: Hash, s: State, op: Op, content: Bytes)
    requires SignFits(SignOf(op))
    ensures ServePart(h, s, op, content, RequestCount(op, content)) == Serve(h, s, op, content).0
  {
    if op.kind != Erase {
      assert Part(CutOf(op, content), |CutOf(op, content).payloads|) == CutOf(op, content);
    }
  }

  lemma {:induction false} UploadEventsPart(sign: Bytes, cut: Cut, sent: nat, update: bool)
    requires sent <= |cut.payloads|
    ensures UploadEvents(sign, Part(cut, sent), update) == UploadEvents(sign, cut, update)[..sent]
  {
  }

  /** Running the first requests of an operation is serving that part of it. */
  lemma ServePartIsRun(w: World, s: State, op: Op, digest: Digest, content: Bytes, sent: nat)
    requires s.auth && s.synced && op.digest == digest && SignFits(SignOf(op)) && sent <= RequestCount(op, content)
    ensures var es := RequestsOf(op, content);
            && sent <= |es| && AllMessages(es[..sent])
            && Run(w, s, es[..sent]) == ServePart(w.hash, s, op, content, sent)
  {
    var es := RequestsOf(op, content);
    if op.kind == Erase {
      EraseIsRequest(w, s, op);
      hide Step;
      assert sent == 1 ==> es[..sent] == es;
    } else {
      var cut, update := CutOf(op, content), op.kind == Update;
      PayloadsFit(content, MaxPayload(SignOf(op)));
      assert forall p | p in Part(cut, sent).payloads :: p in cut.payloads;
      hide Step, Run, Chunks;
      UploadIsRun(w, s, op.path, digest, Part(cut, sent), update);
      UploadEventsPart(SignOf(op), cut, sent, update);
    }
  }

  /** Running the requests of an operation is serving it, and the last reply carries the code. */
  lemma ServeIsRun(w: World, s: State, op: Op, digest: Digest, content: Bytes)
    requires s.auth && s.synced && op.digest == digest && SignFits(SignOf(op))
    ensures var es := RequestsOf(op, content);
            && AllMessages(es)
            && var (s', code) := Serve(w.hash, s, op, content);
            && Run(w, s, es) == s'
            && |Outcomes(w, s, es)| == |es|
            && (code.Some? ==> es != [] && Outcomes(w, s, es)[|es| - 1] == ChunkReply(SignOf(op), code.value))
  {
    hide Step, Run, Outcomes, Chunks, EraseFile, ChunkReplies, ChunkReply, CutFile, AllMessages;
    if op.kind == Erase {
      EraseIsRequest(w, s, op);
    } else {
      var cut, update := CutOf(op, content), op.kind == Update;
      PayloadsFit(content, MaxPayload(SignOf(op)));
      UploadIsRun(w, s, op.path, digest, cut, update);
      ChunksCount(w.hash, s, op.path, digest, cut, update);
      ChunkRepliesLast(SignOf(op), Chunks(w.hash, s, op.path, digest, cut, update).1);
    }
  }

  lemma {:induction false} ChunkCodesAreShort(w: World, s: State, path: Path, digest: Bytes, cut: Cut, update: bool)
    ensures forall code | code in Chunks(w.hash, s, path, digest, cut, update).1 :: code < 1000
    decreases |cut.payloads|
  {
    hide CreateChunk, UpdateChunk;
    if cut.payloads != [] {
      var last := (cut.complete && |cut.payloads| == 1) || EndsLikeEnd(cut.payloads[0]);
      var s' := Chunk(w.hash, s, path, digest, cut.payloads[0], last, update).0;
      Replies.CodesAreShort(w, s, path, digest, cut.payloads[0], last);
      ChunkCodesAreShort(w, s', path, digest, cut.(payloads := cut.payloads[1..]), update);
    }
  }

  lemma ServeCodeIsShort(w: World, s: State, op: Op, content: Bytes)
    requires SignFits(SignOf(op)) && Serve(w.hash, s, op, content).1.Some?
    ensures Serve(w.hash, s, op, content).1.value < 1000
  {
    if op.kind != Erase {
      var codes := Chunks(w.hash, s, op.path, op.digest, CutOf(op, content), op.kind == Update).1;
      ChunkCodesAreShort(w, s, op.path, op.digest, CutOf(op, content), op.kind == Update);
      assert codes[|codes| - 1] in codes;
    }
  }

  lemma ReplyIsRead(op: Op, code: nat, rest: Bytes)
    requires SignFits(SignOf(op)) && code < 1000
    ensures var groups := Packed([Tlv(ITEM, SignOf(op))] + Closing(code));
            ReadFrom([], Frames(EncodeGroups(MessageType(op.kind), groups)) + rest) == Received(ReplyTo(op, code), rest)
  {
    var ts := [Tlv(ITEM, SignOf(op))] + Closing(code);
    Replies.ItemsThenClosing([Tlv(ITEM, SignOf(op))], code);
    Replies.PackedIsDeliverable(MessageType(op.kind), ts);
    PackedConserves(ts);
    ReadReply(MessageType(op.kind), Packed(ts), rest);
  }

  /** From the client's operation through the server and back: the last reply to its requests, as
      the client reads it off the connection, is judged a success exactly when the code the
      operation was served with is one. */
  lemma ServedIsJudged(w: World, s: State, op: Op, digest: Digest, content: Bytes, rest: Bytes)
    requires s.auth && s.synced && op.digest == digest && SignFits(SignOf(op))
    requires Serve(w.hash, s, op, content).1.Some?
    ensures var es := RequestsOf(op, content);
            && AllMessages(es) && es != []
            && |Outcomes(w, s, es)| == |es|
            && var outcome := Outcomes(w, s, es)[|es| - 1];
            && outcome.Replied?
            && var read := ReadFrom([], Frames(EncodeGroups(MessageType(op.kind), outcome.groups)) + rest);
            && read.Received? && read.rest == rest && IsMessage(read.raw)
            && Judge(op, read.raw) == if Succeeds(op.kind, Serve(w.hash, s, op, content).1) then Accepted else Rejected
  {
    hide Step, Run, Outcomes, Serve, ReadFrom, Frames, Judge, RequestsOf;
    var code := Serve(w.hash, s, op, content).1.value;
    ServeIsRun(w, s, op, digest, content);
    ServeCodeIsShort(w, s, op, content);
    ReplyIsRead(op, code, rest);
    JudgeReply(op, code);
  }

  // ---- What an operation does --------------------------------------------------------

  /** A chunk changes no entry but the one it is about. */
  lemma ChunkFrame(h: Hash, s: State, path: Path, digest: Bytes, data: Bytes, last: bool, update: bool, other: Path)
    requires other != path
    ensures var r := Chunk(h, s, path, digest, data, last, update).0;
            && (other in r.entries <==> other in s.entries)
            && (other in s.entries ==> r.entries[other] == s.entries[other])
  {
  }

  lemma {:induction false} ChunksFrame(h: Hash, s: State, path: Path, digest: Bytes, cut: Cut, update: bool,
                                       other: Path)
    requires other != path
    ensures var r := Chunks(h, s, path, digest, cut, update).0;
            && (other in r.entries <==> other in s.entries)
            && (other in s.entries ==> r.entries[other] == s.entries[other])
    decreases |cut.payloads|
  {
    hide Chunk;
    if cut.payloads != [] {
      var last := (cut.complete && |cut.payloads| == 1) || EndsLikeEnd(cut.payloads[0]);
      ChunkFrame(h, s, path, digest, cut.payloads[0], last, update, other);
      var s' := Chunk(h, s, path, digest, cut.payloads[0], last, update).0;
      ChunksFrame(h, s', path, digest, cut.(payloads := cut.payloads[1..]), update, other);
    }
  }

  /** An operation, or any first part of it, changes no entry but the one it is about. */
  lemma ServeFrame(h: Hash, s: State, op: Op, content: Bytes, sent: nat, other: Path)
    requires SignFits(SignOf(op)) && other != op.path && sent <= RequestCount(op, content)
    ensures var r := ServePart(h, s, op, content, sent);
            && (other in r.entries <==> other in s.entries)
            && (other in s.entries ==> r.entries[other] == s.entries[other])
  {
    if op.kind != Erase {
      ChunksFrame(h, s, op.path, op.digest, Part(CutOf(op, content), sent), op.kind == Update, other);
    }
  }

  predicate HasSynced(s: State, path: Path) {
    path in s.entries && s.entries[path].synced
  }

  predicate HasDigest(s: State, path: Path, digest: Bytes) {
    path in s.entries && s.entries[path].digest == digest
  }

  /** One chunk of a create, on a server that has no other synced file at the path. */
  lemma CreateChunkOutcome(h: Hash, s: State, path: Path, digest: Bytes, data: Bytes, last: bool)
    requires HasSynced(s, path) ==> HasDigest(s, path, digest)
    ensures var (r, code) := CreateChunk(h, s, path, digest, data, last);
            && (HasSynced(r, path) ==> HasDigest(r, path, digest))
            && (last ==> (Succeeds(Create, Some(code)) <==> HasSynced(r, path)))
  {
  }

  /** A create that reaches the end of the file is taken for a success exactly when the server
      then has a synced file at the path, and that file has the announced digest. */
  lemma {:induction false} CreateOutcome(h: Hash, s: State, path: Path, digest: Bytes, cut: Cut)
    requires HasSynced(s, path) ==> HasDigest(s, path, digest)
    ensures var (r, codes) := Chunks(h, s, path, digest, cut, false);
            && (HasSynced(r, path) ==> HasDigest(r, path, digest))
            && (cut.complete && cut.payloads != [] ==>
                  codes != [] && (Succeeds(Create, Some(codes[|codes| - 1])) <==> HasSynced(r, path)))
    decreases |cut.payloads|
  {
    hide CreateChunk;
    if cut.payloads != [] {
      var last := (cut.complete && |cut.payloads| == 1) || EndsLikeEnd(cut.payloads[0]);
      var rest := cut.(payloads := cut.payloads[1..]);
      CreateChunkOutcome(h, s, path, digest, cut.payloads[0], last);
      var s' := Chunk(h, s, path, digest, cut.payloads[0], last, false).0;
      CreateOutcome(h, s', path, digest, rest);
    }
  }

  lemma UpdateChunkOutcome(h: Hash, s: State, path: Path, digest: Bytes, data: Bytes)
    ensures var (r, code) := UpdateChunk(h, s, path, digest, data, true);
            Succeeds(Update, Some(code)) <==> HasDigest(r, path, digest)
  {
  }

  /** An update that reaches the end of the file is taken for a success exactly when the server
      then has the file under the announced digest. */
  lemma {:induction false} UpdateOutcome(h: Hash, s: State, path: Path, digest: Bytes, cut: Cut)
    requires cut.complete && cut.payloads != []
    ensures var (r, codes) := Chunks(h, s, path, digest, cut, true);
            codes != [] && (Succeeds(Update, Some(codes[|codes| - 1])) <==> HasDigest(r, path, digest))
    decreases |cut.payloads|
  {
    hide UpdateChunk;
    var last := |cut.payloads| == 1 || EndsLikeEnd(cut.payloads[0]);
    var s' := Chunk(h, s, path, digest, cut.payloads[0], last, true).0;
    if |cut.payloads| == 1 {
      UpdateChunkOutcome(h, s, path, digest, cut.payloads[0]);
    } else {
      UpdateOutcome(h, s', path, digest, cut.(payloads := cut.payloads[1..]));
    }
  }

  lemma {:induction false} CompleteHasPayload(file: Bytes, m: nat)
    requires m >= 3
    ensures CutFile(file, m).complete ==> CutFile(file, m).payloads != []
    decreases |file|
  {
    if |file| >= m {
      CompleteHasPayload(file[m..], m);
    }
  }

  /** Serving the upload of an uploadable file is an atomic put, and the last reply is OK. */
  lemma ServeIsPut(h: Hash, s: State, op: Op, file: Bytes)
    requires op.kind != Erase && op.digest == h(op.path, file)
    requires SignFits(SignOf(op)) && Uploadable(file, SignOf(op)) && Startable(s, op.path, op.digest, op.kind == Update)
    ensures Serve(h, s, op, file) == (Put(s, op.path, file, op.digest), Some(ERR_NONE))
  {
    hide Startable, Put, Chunks;
    ChunksAreAPut(h, s, op.path, file, SignOf(op), op.kind == Update);
    ChunksCount(h, s, op.path, op.digest, CutOf(op, file), op.kind == Update);
    CutCount(file, MaxPayload(SignOf(op)));
    CompleteHasPayload(file, MaxPayload(SignOf(op)));
  }

  // ---- When a create looks finished --------------------------------------------------

  /** What a server without a synced file at `path` has there, and whether the bytes of a create
      for it would go there: they go to the stream that is open already, if there is one. */
  function BytesAt(s: State, path: Path): Bytes {
    if path in s.disk then s.disk[path] else []
  }

  predicate GoesThere(s: State, path: Path) {
    s.stream == Closed || s.stream == Open(path)
  }

  /** The bytes that have arrived at some end, real or false, have the announced digest: those at the
      path before, with the payloads if they go there; after an end that does not match, those sent
      since. */
  function LooksFinished(h: Hash, path: Path, digest: Bytes, have: Bytes, there: bool, cut: Cut): bool
    decreases |cut.payloads|
  {
    if cut.payloads == [] then false
    else
      var now := if there then have + cut.payloads[0] else have;
      var rest := cut.(payloads := cut.payloads[1..]);
      if (cut.complete && |cut.payloads| == 1) || EndsLikeEnd(cut.payloads[0])
      then h(path, now) == digest || LooksFinished(h, path, digest, [], true, rest)
      else LooksFinished(h, path, digest, now, there, rest)
  }

  lemma CreateChunkProgress(h: Hash, s: State, path: Path, digest: Bytes, data: Bytes, last: bool)
    requires !HasSynced(s, path)
    ensures var r := CreateChunk(h, s, path, digest, data, last).0;
            var now := if GoesThere(s, path) then BytesAt(s, path) + data else BytesAt(s, path);
            && (HasSynced(r, path) <==> last && h(path, now) == digest)
            && (!last ==> BytesAt(r, path) == now && (GoesThere(r, path) <==> GoesThere(s, path)))
            && (last && !HasSynced(r, path) ==> BytesAt(r, path) == [] && GoesThere(r, path))
  {
  }

  lemma {:induction false} RefusedChunks(h: Hash, s: State, path: Path, digest: Bytes, cut: Cut)
    requires HasSynced(s, path)
    ensures var (r, codes) := Chunks(h, s, path, digest, cut, false);
            && r == s && |codes| == |cut.payloads|
            && forall i | 0 <= i < |codes| :: codes[i] == ERR_CREATE_ALREADY_EXIST
    decreases |cut.payloads|
  {
    if cut.payloads != [] {
      RefusedChunks(h, s, path, digest, cut.(payloads := cut.payloads[1..]));
    }
  }

  /** Exactly when the chunks of a create, however many of them arrive, leave a synced file. */
  lemma {:induction false} CreateFinishes(h: Hash, s: State, path: Path, digest: Bytes, cut: Cut)
    requires !HasSynced(s, path)
    ensures HasSynced(Chunks(h, s, path, digest, cut, false).0, path) <==>
            LooksFinished(h, path, digest, BytesAt(s, path), GoesThere(s, path), cut)
    decreases |cut.payloads|
  {
    hide CreateChunk, BytesAt, GoesThere, EndsLikeEnd;
    if cut.payloads != [] {
      var last := (cut.complete && |cut.payloads| == 1) || EndsLikeEnd(cut.payloads[0]);
      var rest := cut.(payloads := cut.payloads[1..]);
      CreateChunkProgress(h, s, path, digest, cut.payloads[0], last);
      var s' := Chunk(h, s, path, digest, cut.payloads[0], last, false).0;
      if HasSynced(s', path) {
        RefusedChunks(h, s', path, digest, rest);
      } else {
        CreateFinishes(h, s', path, digest, rest);
      }
    }
  }

  /** A part without its final chunk and without false ends never looks finished. */
  lemma {:induction false} UnfinishedPart(h: Hash, path: Path, digest: Bytes, have: Bytes, there: bool, cut: Cut)
    requires !cut.complete && NoFalseEnd(cut)
    ensures !LooksFinished(h, path, digest, have, there, cut)
    decreases |cut.payloads|
  {
    if cut.payloads != [] {
      var rest := cut.(payloads := cut.payloads[1..]);
      assert !EndsLikeEnd(cut.payloads[0]);
      assert forall i | 0 <= i < |rest.payloads| :: rest.payloads[i] == cut.payloads[i + 1];
      UnfinishedPart(h, path, digest, if there then have + cut.payloads[0] else have, there, rest);
    }
  }

  // ---- What the client may conclude --------------------------------------------------

  /** What the client may conclude from the outcome of an operation. */
  lemma ServeOutcome(h: Hash, s: State, op: Op, content: Bytes)
    requires SignFits(SignOf(op))
    ensures var (r, code) := Serve(h, s, op, content);
            && (op.kind == Create && !HasSynced(s, op.path) && CutOf(op, content).complete ==>
                  (Succeeds(Create, code) <==> HasSynced(r, op.path)))
            && (op.kind == Create && !CutOf(op, content).complete ==> !Succeeds(Create, code))
            && (op.kind == Create && !HasSynced(s, op.path) && Succeeds(Create, code) ==>
                  HasDigest(r, op.path, op.digest))
            && (op.kind == Update && Succeeds(Update, code) ==> HasDigest(r, op.path, op.digest))
            && (op.kind == Erase && Succeeds(Erase, code) ==> op.path !in r.entries)
  {
    if op.kind != Erase {
      var cut := CutOf(op, content);
      CompleteHasPayload(content, MaxPayload(SignOf(op)));
      ChunksCount(h, s, op.path, op.digest, cut, op.kind == Update);
      if op.kind == Create && !HasSynced(s, op.path) {
        CreateOutcome(h, s, op.path, op.digest, cut);
      } else if op.kind == Update && cut.complete {
        UpdateOutcome(h, s, op.path, op.digest, cut);
      }
    }
  }

  /** A create for a file the server has synced already changes nothing, and a complete one is taken
      for a success. */
  lemma RepeatedCreate(h: Hash, s: State, op: Op, content: Bytes)
    requires op.kind == Create && HasSynced(s, op.path) && SignFits(SignOf(op))
    ensures var (r, code) := Serve(h, s, op, content);
            r == s && (Succeeds(Create, code) <==> CutOf(op, content).complete)
  {
    CompleteHasPayload(content, MaxPayload(SignOf(op)));
    RefusedChunks(h, s, op.path, op.digest, CutOf(op, content));
  }
}
