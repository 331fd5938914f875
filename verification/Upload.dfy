/** A file that is uploaded chunk by chunk: when it amounts to one atomic put. */
module Uploads {
  import opened Protocol
  import opened Tlvs
  import opened FileMessages
  import opened MessageQueues
  import opened Signs
  import opened Server
  import opened Sessions

  // ---- Chunks on the server ----------------------------------------------------------

  function Chunk(h: Hash, s: State, path: Path, digest: Bytes, data: Bytes, last: bool, update: bool): (State, nat) {
    if update then UpdateChunk(h, s, path, digest, data, last) else CreateChunk(h, s, path, digest, data, last)
  }

  /** What the chunks of a file do, one after the other, and the code each is replied to with.
      The server takes a chunk for the last one when it looks like one. */
  function Chunks(h: Hash, s: State, path: Path, digest: Bytes, cut: Cut, update: bool): (State, seq<nat>)
    decreases |cut.payloads|
  {
    if cut.payloads == [] then (s, [])
    else
      var final := cut.complete && |cut.payloads| == 1;
      var (s', code) := Chunk(h, s, path, digest, cut.payloads[0], final || EndsLikeEnd(cut.payloads[0]), update);
      var (r, codes) := Chunks(h, s', path, digest, cut.(payloads := cut.payloads[1..]), update);
      (r, [code] + codes)
  }

  // ---- Chunks as requests ------------------------------------------------------------

  /** The requests that carry a file. */
  function UploadEvents(sign: Bytes, cut: Cut, update: bool): seq<Event> {
    seq(|cut.payloads|, i requires 0 <= i < |cut.payloads| =>
      Event(EncodeMessage(if update then UPDATE else CREATE, ChunkAt(sign, cut, i)), []))
  }

  ghost function Outcomes(w: World, s: State, es: seq<Event>): seq<Outcome>
    requires AllMessages(es)
    decreases |es|
  {
    if es == [] then []
    else
      var (s', outcome) := Step(w, s, es[0]);
      [outcome] + Outcomes(w, s', es[1..])
  }

  /** The reply to a chunk: the sign comes back, then the code. */
  function ChunkReply(sign: Bytes, code: nat): Outcome {
    Replied(Packed([Tlv(ITEM, sign)] + Closing(code)))
  }

  lemma ChunkIsRequest(w: World, s: State, path: Path, digest: Digest, data: Bytes, final: bool, update: bool)
    requires s.auth && s.synced
    requires var sign := CreateSign(path, digest); SignFits(sign) && |data| <= MaxPayload(sign)
    ensures var sign := CreateSign(path, digest);
            var raw := EncodeMessage(if update then UPDATE else CREATE, ChunkTlvs(sign, data, final));
            && IsMessage(raw)
            && Step(w, s, Event(raw, [])) ==
               var (s', code) := Chunk(w.hash, s, path, digest, data, final || EndsLikeEnd(data), update);
               (s', ChunkReply(sign, code))
  {
    var sign := CreateSign(path, digest);
    var msgType := if update then UPDATE else CREATE;
    var ts := ChunkTlvs(sign, data, final);
    MessageRoundTrip(msgType, ts);
    VerifyEndOfChunk(msgType, sign, data, final);
    SignRoundTrip(path, digest);
    assert ts[0] == Tlv(ITEM, sign) && ts[1] == Tlv(CONTENT, data);
  }

  lemma ChunkKeepsPhase(h: Hash, s: State, path: Path, digest: Bytes, data: Bytes, last: bool, update: bool)
    ensures var r := Chunk(h, s, path, digest, data, last, update).0;
            r.auth == s.auth && r.synced == s.synced
  {
  }

  function ChunkReplies(sign: Bytes, codes: seq<nat>): seq<Outcome> {
    if codes == [] then [] else [ChunkReply(sign, codes[0])] + ChunkReplies(sign, codes[1..])
  }

  lemma UploadEventsStep(sign: Bytes, cut: Cut, update: bool)
    requires cut.payloads != []
    ensures UploadEvents(sign, cut, update)[1..] == UploadEvents(sign, cut.(payloads := cut.payloads[1..]), update)
    ensures UploadEvents(sign, cut, update)[0] ==
            Event(EncodeMessage(if update then UPDATE else CREATE,
                                ChunkTlvs(sign, cut.payloads[0], cut.complete && |cut.payloads| == 1)), [])
  {
  }

  lemma RunHead(w: World, s: State, es: seq<Event>, s': State, outcome: Outcome)
    requires es != [] && IsMessage(es[0].raw) && AllMessages(es[1..]) && Step(w, s, es[0]) == (s', outcome)
    ensures AllMessages(es)
    ensures Run(w, s, es) == Run(w, s', es[1..])
    ensures Outcomes(w, s, es) == [outcome] + Outcomes(w, s', es[1..])
  {
    assert es == [es[0]] + es[1..];
  }

  /** Sending the messages of a file is handling its chunks. */
  lemma {:induction false} UploadIsRun(w: World, s: State, path: Path, digest: Digest, cut: Cut, update: bool)
    requires s.auth && s.synced
    requires var sign := CreateSign(path, digest);
             SignFits(sign) && forall p | p in cut.payloads :: |p| <= MaxPayload(sign)
    ensures var sign := CreateSign(path, digest);
            var es := UploadEvents(sign, cut, update);
            var (r, codes) := Chunks(w.hash, s, path, digest, cut, update);
            AllMessages(es) && Run(w, s, es) == r && Outcomes(w, s, es) == ChunkReplies(sign, codes)
    decreases |cut.payloads|
  {
    var sign := CreateSign(path, digest);
    var es := UploadEvents(sign, cut, update);
    hide Step, Chunk, EncodeMessage, IsMessage, ChunkReply, CreateSign;
    if cut.payloads != [] {
      var rest := cut.(payloads := cut.payloads[1..]);
      var data, final := cut.payloads[0], cut.complete && |cut.payloads| == 1;
      assert data in cut.payloads;
      var (s', code) := Chunk(w.hash, s, path, digest, data, final || EndsLikeEnd(data), update);
      ChunkIsRequest(w, s, path, digest, data, final, update);
      ChunkKeepsPhase(w.hash, s, path, digest, data, final || EndsLikeEnd(data), update);
      UploadIsRun(w, s', path, digest, rest, update);
      UploadEventsStep(sign, cut, update);
      RunHead(w, s, es, s', ChunkReply(sign, code));
    }
  }

  // ---- The stages of an upload -------------------------------------------------------

  /** Where the chunks go while the upload lasts. */
  function Target(path: Path, update: bool): Path {
    if update then TempPath(path) else path
  }

  /** A server on which the upload of `path` can start: no stream is open and nothing is in the
      way; an update finds the file tracked with another digest, a create does not find it. */
  predicate Startable(s: State, path: Path, digest: Bytes, update: bool) {
    && s.auth && s.synced && s.stream == Closed
    && Target(path, update) !in s.disk
    && (update <==> path in s.entries)
    && (update ==> path in s.disk && s.entries[path].digest != digest)
  }

  /** The server when `done` has arrived. */
  function Underway(s: State, path: Path, update: bool, started: bool, done: Bytes): State
    requires update ==> path in s.entries
  {
    if !started then s
    else
      s.(disk := s.disk[Target(path, update) := done],
         entries := s.entries[path := Entry(false, if update then s.entries[path].digest else TEMP)],
         stream := Open(Target(path, update)))
  }

  /** The server with the file in place: the atomic put. */
  function Put(s: State, path: Path, file: Bytes, digest: Bytes): State {
    s.(disk := s.disk[path := file], entries := s.entries[path := Entry(true, digest)])
  }

  lemma NextStage(h: Hash, s: State, path: Path, digest: Bytes, update: bool, started: bool, done: Bytes, data: Bytes)
    requires Startable(s, path, digest, update) && (!started ==> done == [])
    ensures Chunk(h, Underway(s, path, update, started, done), path, digest, data, false, update) ==
            (Underway(s, path, update, true, done + data), ERR_NONE)
  {
    assert [] + data == data;
    var u := Underway(s, path, update, started, done);
    var r := Chunk(h, u, path, digest, data, false, update).0;
    assert r.disk == Underway(s, path, update, true, done + data).disk;
    assert r.entries == Underway(s, path, update, true, done + data).entries;
  }

  lemma LastStageOfCreate(h: Hash, s: State, path: Path, digest: Bytes, started: bool, done: Bytes, data: Bytes)
    requires Startable(s, path, digest, false) && (!started ==> done == [])
    ensures var (r, code) := CreateChunk(h, Underway(s, path, false, started, done), path, digest, data, true);
            if h(path, done + data) == digest then r == Put(s, path, done + data, digest) && code == ERR_NONE
            else code != ERR_NONE
  {
    assert [] + data == data;
    var u := Underway(s, path, false, started, done);
    var written := WriteStream(GetStream(u, path), data);
    assert written.disk == s.disk[path := done + data];
    assert u.entries[path := Entry(true, digest)] == s.entries[path := Entry(true, digest)];
  }

  lemma LastStageOfUpdate(h: Hash, s: State, path: Path, digest: Bytes, started: bool, done: Bytes, data: Bytes)
    requires Startable(s, path, digest, true) && (!started ==> done == [])
    ensures var (r, code) := UpdateChunk(h, Underway(s, path, true, started, done), path, digest, data, true);
            if h(path, done + data) == digest then r == Put(s, path, done + data, digest) && code == ERR_NONE
            else code != ERR_NONE
  {
    assert [] + data == data;
    var copy := TempPath(path);
    var u := Underway(s, path, true, started, done);
    var written := WriteStream(GetStream(u, copy), data);
    assert written.disk == s.disk[copy := done + data];
    assert (written.disk - {path})[path := done + data] - {copy} == s.disk[path := done + data];
    assert u.entries[path := Entry(true, digest)] == s.entries[path := Entry(true, digest)];
  }

  lemma LastStage(h: Hash, s: State, path: Path, digest: Bytes, update: bool, started: bool, done: Bytes, data: Bytes)
    requires Startable(s, path, digest, update) && (!started ==> done == [])
    ensures var (r, code) := Chunk(h, Underway(s, path, update, started, done), path, digest, data, true, update);
            if h(path, done + data) == digest then r == Put(s, path, done + data, digest) && code == ERR_NONE
            else code != ERR_NONE
  {
    if update {
      LastStageOfUpdate(h, s, path, digest, started, done, data);
    } else {
      LastStageOfCreate(h, s, path, digest, started, done, data);
    }
  }

  predicate AllOk(codes: seq<nat>) {
    forall i | 0 <= i < |codes| :: codes[i] == ERR_NONE
  }

  /** No chunk but the final one looks like the last one. */
  predicate NoFalseEnd(cut: Cut) {
    forall i | 0 <= i < |cut.payloads| && !(cut.complete && i == |cut.payloads| - 1) :: !EndsLikeEnd(cut.payloads[i])
  }

  /** Without false ends the chunks arrive one after the other, and the final one puts the file
      in place. */
  lemma {:induction false} ChunksArrive(h: Hash, s: State, path: Path, digest: Bytes, update: bool,
                                        started: bool, done: Bytes, cut: Cut)
    requires Startable(s, path, digest, update) && (!started ==> done == [])
    requires NoFalseEnd(cut) && (cut.complete ==> cut.payloads != [] && h(path, done + Join(cut.payloads)) == digest)
    ensures var (r, codes) := Chunks(h, Underway(s, path, update, started, done), path, digest, cut, update);
            var all := done + Join(cut.payloads);
            && AllOk(codes)
            && r == if cut.complete then Put(s, path, all, digest)
                    else Underway(s, path, update, started || cut.payloads != [], all)
    decreases |cut.payloads|
  {
    hide Chunk, Underway, Put;
    if cut.payloads == [] {
      assert done + [] == done;
    } else {
      var data, rest := cut.payloads[0], cut.(payloads := cut.payloads[1..]);
      assert done + Join(cut.payloads) == done + data + Join(rest.payloads);
      if cut.complete && |cut.payloads| == 1 {
        assert done + Join(cut.payloads) == done + data;
        LastStage(h, s, path, digest, update, started, done, data);
      } else {
        hide Startable, EndsLikeEnd;
        assert !EndsLikeEnd(data);
        NextStage(h, s, path, digest, update, started, done, data);
        assert forall i | 0 <= i < |rest.payloads| :: rest.payloads[i] == cut.payloads[i + 1];
        ChunksArrive(h, s, path, digest, update, true, done + data, rest);
      }
    }
  }

  /** Once a file is in place under the announced digest, further chunks of it are refused. */
  lemma LateChunk(h: Hash, s: State, path: Path, digest: Bytes, data: Bytes, last: bool, update: bool, file: Bytes)
    ensures var put := Put(s, path, file, digest);
            var (r, code) := Chunk(h, put, path, digest, data, last, update);
            r == put && code != ERR_NONE
  {
  }

  lemma ChunksHead(h: Hash, s: State, path: Path, digest: Bytes, cut: Cut, update: bool)
    requires cut.payloads != []
    ensures var (r, codes) := Chunks(h, s, path, digest, cut, update);
            var last := (cut.complete && |cut.payloads| == 1) || EndsLikeEnd(cut.payloads[0]);
            var (s', code) := Chunk(h, s, path, digest, cut.payloads[0], last, update);
            && codes != [] && codes[0] == code
            && (r, codes[1..]) == Chunks(h, s', path, digest, cut.(payloads := cut.payloads[1..]), update)
  {
  }

  /** A false end: either the digest of what has arrived does not match, or the file is in place
      already and what follows is refused. */
  lemma FalseEndFails(h: Hash, s: State, path: Path, digest: Bytes, update: bool,
                      started: bool, done: Bytes, cut: Cut, file: Bytes)
    requires Startable(s, path, digest, update) && (!started ==> done == [])
    requires cut.payloads != [] && EndsLikeEnd(cut.payloads[0]) && !(cut.complete && |cut.payloads| == 1)
    requires !cut.complete ==> |done + Join(cut.payloads)| < |file|
    ensures var (r, codes) := Chunks(h, Underway(s, path, update, started, done), path, digest, cut, update);
            !(AllOk(codes) && r == Put(s, path, file, digest))
  {
    var u := Underway(s, path, update, started, done);
    var (r, codes) := Chunks(h, u, path, digest, cut, update);
    var data, rest := cut.payloads[0], cut.(payloads := cut.payloads[1..]);
    LastStage(h, s, path, digest, update, started, done, data);
    ChunksHead(h, u, path, digest, cut, update);
    if codes[0] == ERR_NONE {
      var s' := Put(s, path, done + data, digest);
      if rest.payloads != [] {
        LateChunk(h, s, path, digest, rest.payloads[0],
                  (rest.complete && |rest.payloads| == 1) || EndsLikeEnd(rest.payloads[0]), update, done + data);
        ChunksHead(h, s', path, digest, rest, update);
        assert codes[1] != ERR_NONE;
      } else {
        assert Join(cut.payloads) == data + Join(rest.payloads);
        assert s'.disk[path] == done + data && Put(s, path, file, digest).disk[path] == file;
        assert Chunks(h, s', path, digest, rest, update) == (s', []);
      }
    }
  }

  lemma FalseEndLater(cut: Cut)
    requires cut.payloads != [] && !NoFalseEnd(cut)
    requires EndsLikeEnd(cut.payloads[0]) ==> cut.complete && |cut.payloads| == 1
    ensures !NoFalseEnd(cut.(payloads := cut.payloads[1..]))
  {
    var i :| 0 <= i < |cut.payloads| && !(cut.complete && i == |cut.payloads| - 1) && EndsLikeEnd(cut.payloads[i]);
    assert cut.payloads[1..][i - 1] == cut.payloads[i];
  }

  lemma UnfinishedIsNotPut(s: State, path: Path, digest: Bytes, update: bool, started: bool, done: Bytes, file: Bytes)
    requires Startable(s, path, digest, update)
    ensures Underway(s, path, update, started, done) != Put(s, path, file, digest)
  {
    assert Put(s, path, file, digest).entries[path] == Entry(true, digest);
  }

  /** An upload with a false end, or one that does not reach the end of the file, is never
      accepted throughout with the file in place. */
  lemma {:induction false} BadUploadFails(h: Hash, s: State, path: Path, digest: Bytes, update: bool,
                                          started: bool, done: Bytes, cut: Cut, file: Bytes)
    requires Startable(s, path, digest, update) && (!started ==> done == [])
    requires !NoFalseEnd(cut) || !cut.complete
    requires !cut.complete ==> |done + Join(cut.payloads)| < |file|
    ensures var (r, codes) := Chunks(h, Underway(s, path, update, started, done), path, digest, cut, update);
            !(AllOk(codes) && r == Put(s, path, file, digest))
    decreases |cut.payloads|
  {
    var u := Underway(s, path, update, started, done);
    if cut.payloads == [] {
      UnfinishedIsNotPut(s, path, digest, update, started, done, file);
    } else if EndsLikeEnd(cut.payloads[0]) && !(cut.complete && |cut.payloads| == 1) {
      FalseEndFails(h, s, path, digest, update, started, done, cut, file);
    } else {
      var data, rest := cut.payloads[0], cut.(payloads := cut.payloads[1..]);
      assert done + Join(cut.payloads) == done + data + Join(rest.payloads);
      NextStage(h, s, path, digest, update, started, done, data);
      ChunksHead(h, u, path, digest, cut, update);
      if !NoFalseEnd(cut) {
        FalseEndLater(cut);
      }
      BadUploadFails(h, s, path, digest, update, true, done + data, rest, file);
      var codes := Chunks(h, u, path, digest, cut, update).1;
      assert AllOk(codes) ==> AllOk(codes[1..]);
    }
  }

  // ---- What a reply tells ------------------------------------------------------------

  predicate IsNoMatch(code: nat) {
    code == ERR_CREATE_NO_MATCH || code == ERR_UPDATE_NO_MATCH
  }

  /** The file is on the disk and tracked, under this digest, and no stream is open. */
  predicate Stored(h: Hash, s: State, path: Path, digest: Bytes) {
    && path in s.disk && h(path, s.disk[path]) == digest
    && path in s.entries && s.entries[path] == Entry(true, digest)
    && s.stream == Closed
  }

  /** `r` differs from `s` at most in what concerns `path`, its working copy and the file the stream
      of `s` writes to. */
  predicate OnlyTouches(s: State, r: State, path: Path, update: bool) {
    && (forall q | q in s.entries && q != path :: q in r.entries && r.entries[q] == s.entries[q])
    && (forall q | q in r.entries && q != path :: q in s.entries)
    && (forall q | q in s.disk && q != path && q != Target(path, update) && s.stream != Open(q) ::
          q in r.disk && r.disk[q] == s.disk[q])
    && (forall q | q in r.disk && q != path && q != Target(path, update) :: q in s.disk)
  }

  /** What a chunk may do to a server: the last one is answered OK only with the file stored under
      its digest, a mismatch means that it is gone, and any other code that nothing has changed;
      one before the last is accepted into an open stream or changes nothing. */
  predicate Told(h: Hash, s: State, r: State, code: nat, path: Path, digest: Bytes, last: bool, update: bool) {
    && (code == ERR_NONE && last ==> Stored(h, r, path, digest))
    && (IsNoMatch(code) ==> last && path !in r.disk && path !in r.entries && r.stream == Closed)
    && (code != ERR_NONE && !IsNoMatch(code) ==> r == s)
    && (code == ERR_NONE && !last ==>
          && r.stream == (if s.stream.Closed? then Open(Target(path, update)) else s.stream)
          && if s.stream.Closed? then path in r.entries && !r.entries[path].synced else r.entries == s.entries)
    && OnlyTouches(s, r, path, update)
  }

  lemma CheckTells(h: Hash, s: State, n: State, path: Path, digest: Bytes, noMatch: nat, update: bool)
    requires path in n.disk && n.stream == Closed && path in n.entries && n.entries[path] == Entry(true, digest)
    requires OnlyTouches(s, n, path, update) && IsNoMatch(noMatch)
    ensures var (r, code) := CheckDigest(h, n, path, digest, noMatch);
            Told(h, s, r, code, path, digest, true, update)
  {
  }

  lemma AppendTouches(s: State, path: Path, data: Bytes, entry: Entry, stream: Stream, update: bool)
    ensures var n := WriteStream(GetStream(s, Target(path, update)), data);
            && OnlyTouches(s, n.(entries := s.entries[path := entry], stream := stream), path, update)
            && OnlyTouches(s, n, path, update)
  {
    AppendFrame(s, Target(path, update), data);
    hide GetStream, WriteStream;
  }

  lemma CreateTells(h: Hash, s: State, path: Path, digest: Bytes, data: Bytes, last: bool)
    ensures var (r, code) := CreateChunk(h, s, path, digest, data, last);
            Told(h, s, r, code, path, digest, last, false)
  {
    var entry := if last then Entry(true, digest) else Entry(false, TEMP);
    var n := WriteStream(GetStream(s, path), data);
    AppendFrame(s, path, data);
    AppendTouches(s, path, data, entry, if last then Closed else n.stream, false);
    hide GetStream, WriteStream, OnlyTouches;
    if last {
      var noted := n.(entries := s.entries[path := entry], stream := Closed);
      CheckTells(h, s, noted, path, digest, ERR_CREATE_NO_MATCH, false);
      hide Told;
    }
    SameTouches(s, path, false);
  }

  lemma SameTouches(s: State, path: Path, update: bool)
    ensures OnlyTouches(s, s, path, update)
  {
  }

  lemma MoveTouches(s: State, n: State, path: Path)
    requires OnlyTouches(s, n, path, true) && n.stream == Closed && TempPath(path) in n.disk
    ensures var moved := RenameFile(RemoveFile(n, path), TempPath(path), path);
            && path in moved.disk && moved.entries == n.entries && moved.stream == Closed
            && OnlyTouches(s, moved, path, true)
  {
  }

  lemma LastUpdateTells(h: Hash, s: State, path: Path, digest: Bytes, data: Bytes)
    requires path in s.entries && s.entries[path].digest != digest
    ensures var (r, code) := UpdateChunk(h, s, path, digest, data, true);
            Told(h, s, r, code, path, digest, true, true)
  {
    var n := WriteStream(GetStream(s, TempPath(path)), data);
    var noted := n.(entries := s.entries[path := Entry(true, digest)], stream := Closed);
    AppendFrame(s, TempPath(path), data);
    AppendTouches(s, path, data, Entry(true, digest), Closed, true);
    hide GetStream, WriteStream, OnlyTouches, Told, TempPath;
    MoveTouches(s, noted, path);
    var moved := RenameFile(RemoveFile(noted, path), TempPath(path), path);
    assert UpdateChunk(h, s, path, digest, data, true) == CheckDigest(h, moved, path, digest, ERR_UPDATE_NO_MATCH);
    hide RemoveFile, RenameFile, CheckDigest, UpdateChunk;
    CheckTells(h, s, moved, path, digest, ERR_UPDATE_NO_MATCH, true);
  }

  lemma UpdateTells(h: Hash, s: State, path: Path, digest: Bytes, data: Bytes, last: bool)
    ensures var (r, code) := UpdateChunk(h, s, path, digest, data, last);
            Told(h, s, r, code, path, digest, last, true)
  {
    SameTouches(s, path, true);
    if path in s.entries && s.entries[path].digest != digest {
      if last {
        LastUpdateTells(h, s, path, digest, data);
        hide UpdateChunk, Told;
      } else {
        var n := WriteStream(GetStream(s, TempPath(path)), data);
        AppendFrame(s, TempPath(path), data);
        AppendTouches(s, path, data, Entry(false, s.entries[path].digest), n.stream, true);
        hide GetStream, WriteStream, OnlyTouches;
      }
    }
  }

  /** What the code of a chunk tells, on any server and whatever else is being uploaded. */
  lemma ChunkTells(h: Hash, s: State, path: Path, digest: Bytes, data: Bytes, last: bool, update: bool)
    ensures var (r, code) := Chunk(h, s, path, digest, data, last, update);
            Told(h, s, r, code, path, digest, last, update)
  {
    if update {
      UpdateTells(h, s, path, digest, data, last);
    } else {
      CreateTells(h, s, path, digest, data, last);
    }
  }

  lemma UploadIsTold(h: Hash, s: State, ts: seq<Tlv>, last: bool, update: bool) returns (items: seq<Tlv>, code: nat)
    requires ts != [] && HandleUpload(h, s, ts, last, update).state != s
    ensures HandleUpload(h, s, ts, last, update).reply == Some(items + Closing(code))
    ensures code == ERR_NONE || IsNoMatch(code)
  {
    var (path, digest) := SplitSign(ts[0].value).value;
    ChunkTells(h, s, path, digest, ts[1].value, last, update);
    items, code := [ts[0]], Chunk(h, s, path, digest, ts[1].value, last, update).1;
  }

  /** A request that changes anything on the server is always replied to, and only with OK, a
      mismatch or a failed listing: every other reply means that nothing has changed. */
  lemma ChangesAreTold(w: World, s: State, e: Event) returns (items: seq<Tlv>, code: nat)
    requires IsMessage(e.raw) && Step(w, s, e).0 != s
    ensures Step(w, s, e).1 == Replied(Packed(items + Closing(code)))
    ensures code == ERR_NONE || IsNoMatch(code) || code == ERR_LIST_FAILED
  {
    var msgType, ts := e.raw[0], Segments(e.raw);
    hide HandleUpload, HandleRetrieve, ListFiles, Packed, ToDecimal, RemoveFile, SplitSign, IsMessage, Segments, IsLast;
    if s.auth && s.synced && (msgType == CREATE || msgType == UPDATE) {
      items, code := UploadIsTold(w.hash, s, ts, IsLast(e.raw), msgType == UPDATE);
    } else if s.auth && s.synced {
      items, code := [ts[0]], ERR_NONE;
    } else if s.auth {
      var listing := ListFiles(w.hash, s.disk, s.entries, e.walk);
      items, code := listing.items, if listing.ok then ERR_NONE else ERR_LIST_FAILED;
    } else {
      items, code := [], ERR_NONE;
      assert [] + Closing(code) == Closing(code);
    }
  }

  // ---- The main results --------------------------------------------------------------

  /** A file that can be uploaded under this sign: its size is good and no chunk but the final
      one ends like an END. */
  predicate Uploadable(file: Bytes, sign: Bytes)
    requires SignFits(sign)
  {
    GoodSize(|file|, MaxPayload(sign)) && NoFalseEnd(CutFile(file, MaxPayload(sign)))
  }

  lemma {:induction false} IncompleteIsShorter(file: Bytes, m: nat)
    requires m >= 3
    ensures !CutFile(file, m).complete ==> |Join(CutFile(file, m).payloads)| < |file|
    decreases |file|
  {
    if |file| >= m {
      IncompleteIsShorter(file[m..], m);
      assert CutFile(file, m).payloads[1..] == CutFile(file[m..], m).payloads;
    }
  }

  /** The chunks of a file are all accepted and leave it in place, with everything else as it
      was, if and only if the file is uploadable. */
  lemma ChunksAreAPut(h: Hash, s: State, path: Path, file: Bytes, sign: Bytes, update: bool)
    requires SignFits(sign) && Startable(s, path, h(path, file), update)
    ensures var (r, codes) := Chunks(h, s, path, h(path, file), CutFile(file, MaxPayload(sign)), update);
            AllOk(codes) && r == Put(s, path, file, h(path, file)) <==> Uploadable(file, sign)
  {
    var m := MaxPayload(sign);
    var cut := CutFile(file, m);
    CutCount(file, m);
    CutJoinIsPrefix(file, m);
    assert [] + Join(cut.payloads) == Join(cut.payloads);
    if Uploadable(file, sign) {
      ChunksArrive(h, s, path, h(path, file), update, false, [], cut);
    } else {
      IncompleteIsShorter(file, m);
      BadUploadFails(h, s, path, h(path, file), update, false, [], cut, file);
    }
  }

  lemma ClosingTellsOk(sign: Bytes, code: nat)
    ensures ChunkReply(sign, code) == ChunkReply(sign, ERR_NONE) <==> code == ERR_NONE
  {
    var item := [Tlv(ITEM, sign)];
    PackedConserves(item + Closing(code));
    PackedConserves(item + Closing(ERR_NONE));
    assert (item + Closing(code))[1] == Closing(code)[0];
    assert (item + Closing(ERR_NONE))[1] == Closing(ERR_NONE)[0];
  }

  predicate AllAccepted(sign: Bytes, outcomes: seq<Outcome>) {
    forall i | 0 <= i < |outcomes| :: outcomes[i] == ChunkReply(sign, ERR_NONE)
  }

  lemma {:induction false} RepliesTellOk(sign: Bytes, codes: seq<nat>)
    ensures AllOk(codes) <==> AllAccepted(sign, ChunkReplies(sign, codes))
  {
    if codes != [] {
      var outcomes := ChunkReplies(sign, codes);
      ClosingTellsOk(sign, codes[0]);
      RepliesTellOk(sign, codes[1..]);
      assert AllOk(codes) <==> codes[0] == ERR_NONE && AllOk(codes[1..]) by {
        assert forall i | 0 < i < |codes| :: codes[i] == codes[1..][i - 1];
      }
      assert AllAccepted(sign, outcomes) <==>
             outcomes[0] == ChunkReply(sign, ERR_NONE) && AllAccepted(sign, outcomes[1..]) by {
        assert forall i | 0 < i < |outcomes| :: outcomes[i] == outcomes[1..][i - 1];
      }
    }
  }

  /** The requests of a file are all replied to with OK and leave the file in place. */
  ghost predicate UploadSucceeds(w: World, s: State, path: Path, file: Bytes, update: bool)
    requires SignFits(CreateSign(path, w.hash(path, file)))
  {
    var digest := w.hash(path, file);
    var sign := CreateSign(path, digest);
    var es := UploadEvents(sign, CutFile(file, MaxPayload(sign)), update);
    AllMessages(es) && Run(w, s, es) == Put(s, path, file, digest) && AllAccepted(sign, Outcomes(w, s, es))
  }

  lemma PayloadsFit(file: Bytes, m: nat)
    requires m >= 3
    ensures forall p | p in CutFile(file, m).payloads :: |p| <= m
  {
    CutExact(file, m);
  }

  /** A chunked CREATE or UPDATE is one atomic put, for exactly the uploadable files: from a
      server on which it can start, every chunk is accepted and the file ends up in place under
      its digest, with everything else as before and the stream closed, if and only if the size
      of the file is good and no non-final chunk ends like an END. */
  lemma UploadIsPut(w: World, s: State, path: Path, file: Bytes, update: bool)
    requires var digest := w.hash(path, file);
             SignFits(CreateSign(path, digest)) && Startable(s, path, digest, update)
    ensures UploadSucceeds(w, s, path, file, update) <==> Uploadable(file, CreateSign(path, w.hash(path, file)))
  {
    var digest := w.hash(path, file);
    var sign := CreateSign(path, digest);
    var cut := CutFile(file, MaxPayload(sign));
    PayloadsFit(file, MaxPayload(sign));
    UploadIsRun(w, s, path, digest, cut, update);
    RepliesTellOk(sign, Chunks(w.hash, s, path, digest, cut, update).1);
    ChunksAreAPut(w.hash, s, path, file, sign, update);
  }

  /** `sent` requests are not all of an upload: some are missing, or the file could not be cut to
      its end. */
  predicate IsPart(cut: Cut, sent: nat) {
    sent < |cut.payloads| || (sent == |cut.payloads| && !cut.complete)
  }

  /** What has been sent of a file is the first requests of the whole. */
  lemma SentIsPrefix(sign: Bytes, file: Bytes, sent: nat)
    requires SignFits(sign) && IsPart(CutFile(file, MaxPayload(sign)), sent)
    ensures var cut := CutFile(file, MaxPayload(sign));
            UploadEvents(sign, Cut(cut.payloads[..sent], false), true) == UploadEvents(sign, cut, true)[..sent]
  {
  }
}
