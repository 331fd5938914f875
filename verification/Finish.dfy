/** What the chunks of an update leave on any server, and which uploads are accepted with the file in
    place when an older working copy may be in the way. */
module Finishes {
  import opened Protocol
  import opened Tlvs
  import opened FileMessages
  import opened Server
  import opened Sessions
  import opened Uploads
  import opened Client
  import opened Operations
  import Effects
  import Signs

  // ---- Updates on any server ---------------------------------------------------------

  /** An update of the file would not be refused, and what other uploads write does not go into it. */
  predicate CanUpdate(s: State, path: Path, digest: Bytes) {
    && path in s.entries && path in s.disk
    && s.entries[path].digest != digest && s.stream != Open(path)
  }

  /** The working copy at the first end, real or false: the bytes there before, with the payloads up to
      the end if they go there. None when no end comes. */
  function CopyAtEnd(have: Bytes, there: bool, cut: Cut): Option<Bytes>
    decreases |cut.payloads|
  {
    if cut.payloads == [] then None
    else
      var now := if there then have + cut.payloads[0] else have;
      if (cut.complete && |cut.payloads| == 1) || EndsLikeEnd(cut.payloads[0]) then Some(now)
      else CopyAtEnd(now, there, cut.(payloads := cut.payloads[1..]))
  }

  /** The old bytes are still at the path, and the old digest in its entry. */
  predicate OldThere(s: State, r: State, path: Path)
    requires path in s.disk && path in s.entries
  {
    && path in r.disk && r.disk[path] == s.disk[path]
    && path in r.entries && r.entries[path].digest == s.entries[path].digest
  }

  /** Exactly these bytes are at the path, and the entry has their digest. */
  predicate InPlace(r: State, path: Path, file: Bytes, digest: Bytes) {
    && path in r.disk && r.disk[path] == file
    && path in r.entries && r.entries[path] == Entry(true, digest)
  }

  /** There is neither a file at the path nor an entry for it. */
  predicate Gone(r: State, path: Path) {
    path !in r.disk && path !in r.entries
  }

  /** The working copy of the file after a chunk. */
  function CopyAfter(s: State, path: Path, data: Bytes): Bytes {
    if GoesThere(s, TempPath(path)) then BytesAt(s, TempPath(path)) + data else BytesAt(s, TempPath(path))
  }

  lemma UpdateChunkProgress(h: Hash, s: State, path: Path, digest: Bytes, data: Bytes)
    requires CanUpdate(s, path, digest)
    ensures var (r, code) := UpdateChunk(h, s, path, digest, data, false);
            var now := CopyAfter(s, path, data);
            && code == ERR_NONE && CanUpdate(r, path, digest) && OldThere(s, r, path)
            && BytesAt(r, TempPath(path)) == now && (GoesThere(r, TempPath(path)) <==> GoesThere(s, TempPath(path)))
  {
  }

  lemma UpdateChunkEnds(h: Hash, s: State, path: Path, digest: Bytes, data: Bytes)
    requires CanUpdate(s, path, digest)
    ensures var (r, code) := UpdateChunk(h, s, path, digest, data, true);
            var now := CopyAfter(s, path, data);
            if h(path, now) == digest then code == ERR_NONE && InPlace(r, path, now, digest)
            else code != ERR_NONE && Gone(r, path)
  {
    var copy := TempPath(path);
    var written := WriteStream(GetStream(s, copy), data);
    assert written.disk[copy] == if GoesThere(s, copy) then BytesAt(s, copy) + data else BytesAt(s, copy);
  }

  /** The chunks of an update leave this. */
  predicate Finished(h: Hash, s: State, r: State, path: Path, digest: Bytes, copy: Option<Bytes>)
    requires path in s.disk && path in s.entries
  {
    if copy.None? then OldThere(s, r, path)
    else if h(path, copy.value) == digest then InPlace(r, path, copy.value, digest)
    else Gone(r, path)
  }

  lemma NoFalseEndLater(cut: Cut)
    requires cut.payloads != []
    ensures NoFalseEnd(cut) <==>
            && NoFalseEnd(cut.(payloads := cut.payloads[1..]))
            && (EndsLikeEnd(cut.payloads[0]) ==> cut.complete && |cut.payloads| == 1)
  {
    var rest := cut.payloads[1..];
    forall i | 0 < i < |cut.payloads| ensures cut.payloads[i] == rest[i - 1] {
    }
  }

  /** The chunks of an update, however many of them arrive, on any server where it would not be
      refused: without an end the old file stays; at the first end, real or false, the file is what the
      working copy is then if that has the announced digest, and gone otherwise. Of a complete update
      the last reply is OK exactly if there is no false end and the digest matches. */
  lemma {:induction false} UpdateFinishes(h: Hash, s: State, path: Path, digest: Bytes, cut: Cut)
    requires CanUpdate(s, path, digest)
    ensures var (r, codes) := Chunks(h, s, path, digest, cut, true);
            var copy := CopyAtEnd(BytesAt(s, TempPath(path)), GoesThere(s, TempPath(path)), cut);
            && Finished(h, s, r, path, digest, copy)
            && |codes| == |cut.payloads|
            && (cut.complete && codes != [] ==>
                  (codes[|codes| - 1] == ERR_NONE <==> NoFalseEnd(cut) && copy.Some? && h(path, copy.value) == digest))
    decreases |cut.payloads|
  {
    hide UpdateChunk, BytesAt, GoesThere, EndsLikeEnd, NoFalseEnd;
    if cut.payloads != [] {
      var data, rest := cut.payloads[0], cut.(payloads := cut.payloads[1..]);
      var last := (cut.complete && |cut.payloads| == 1) || EndsLikeEnd(data);
      var s' := Chunk(h, s, path, digest, data, last, true).0;
      ChunksHead(h, s, path, digest, cut, true);
      NoFalseEndLater(cut);
      if last {
        UpdateChunkEnds(h, s, path, digest, data);
        Effects.UpdateRefused(h, s', path, digest, rest);
        EmptyHasNoFalseEnd(rest);
      } else {
        UpdateChunkProgress(h, s, path, digest, data);
        UpdateFinishes(h, s', path, digest, rest);
      }
    }
  }

  lemma EmptyHasNoFalseEnd(cut: Cut)
    ensures cut.payloads == [] ==> NoFalseEnd(cut)
  {
  }

  /** The first end of a part of an upload is a false one. */
  lemma {:induction false} NoEndInPart(have: Bytes, there: bool, part: Cut)
    requires !part.complete
    ensures CopyAtEnd(have, there, part).None? <==> NoFalseEnd(part)
    decreases |part.payloads|
  {
    if part.payloads != [] {
      NoFalseEndLater(part);
      var now := if there then have + part.payloads[0] else have;
      NoEndInPart(now, there, part.(payloads := part.payloads[1..]));
    }
  }

  /** Without false ends everything has arrived at the end. */
  lemma {:induction false} AllAtEnd(have: Bytes, cut: Cut)
    requires cut.complete && cut.payloads != [] && NoFalseEnd(cut)
    ensures CopyAtEnd(have, true, cut) == Some(have + Join(cut.payloads))
    decreases |cut.payloads|
  {
    var data, rest := cut.payloads[0], cut.(payloads := cut.payloads[1..]);
    NoFalseEndLater(cut);
    if |cut.payloads| == 1 {
      assert data + [] == data;
    } else {
      AllAtEnd(have + data, rest);
      assert have + data + Join(rest.payloads) == have + Join(cut.payloads);
    }
  }

  // ---- Updates are atomic ------------------------------------------------------------

  /** Only the working copy of the update has grown. */
  predicate OldStillThere(s: State, r: State, path: Path, arrived: Bytes)
    requires path in s.disk && path in s.entries
  {
    && OldThere(s, r, path)
    && (r == s ||
        (&& r.disk == s.disk[TempPath(path) := arrived]
         && r.entries == s.entries[path := Entry(false, s.entries[path].digest)]))
  }

  lemma PartOfUpdate(h: Hash, s: State, path: Path, digest: Bytes, part: Cut)
    requires Startable(s, path, digest, true) && !part.complete
    ensures var (r, codes) := Chunks(h, s, path, digest, part, true);
            && (OldThere(s, r, path) <==> NoFalseEnd(part))
            && (NoFalseEnd(part) ==> AllOk(codes) && OldStillThere(s, r, path, Join(part.payloads)))
  {
    assert [] + Join(part.payloads) == Join(part.payloads);
    NoEndInPart(BytesAt(s, TempPath(path)), GoesThere(s, TempPath(path)), part);
    UpdateFinishes(h, s, path, digest, part);
    if NoFalseEnd(part) {
      ChunksArrive(h, s, path, digest, true, false, [], part);
    }
    hide Chunks, NoFalseEnd;
  }

  /** Chunked UPDATE is atomic: as long as not all of the file has been sent, for whatever reason, the
      old bytes are still at the path and the old digest in its entry if and only if nothing that was
      sent ends like an END; and then only the working copy has grown, by what has been sent, and
      nothing else has changed. */
  lemma UpdateIsAtomic(w: World, s: State, path: Path, file: Bytes, sent: nat)
    requires var digest := w.hash(path, file);
             && SignFits(Signs.CreateSign(path, digest)) && Startable(s, path, digest, true)
             && IsPart(CutFile(file, MaxPayload(Signs.CreateSign(path, digest))), sent)
    ensures var sign := Signs.CreateSign(path, w.hash(path, file));
            var part := Cut(CutFile(file, MaxPayload(sign)).payloads[..sent], false);
            var es := UploadEvents(sign, part, true);
            && AllMessages(es)
            && (OldThere(s, Run(w, s, es), path) <==> NoFalseEnd(part))
            && (NoFalseEnd(part) ==>
                  OldStillThere(s, Run(w, s, es), path, Join(part.payloads)) && AllAccepted(sign, Outcomes(w, s, es)))
  {
    var digest := w.hash(path, file);
    var sign := Signs.CreateSign(path, digest);
    var cut := CutFile(file, MaxPayload(sign));
    var part := Cut(cut.payloads[..sent], false);
    PayloadsFit(file, MaxPayload(sign));
    forall p | p in part.payloads ensures |p| <= MaxPayload(sign) {
      assert p in cut.payloads;
    }
    UploadIsRun(w, s, path, digest, part, true);
    PartOfUpdate(w.hash, s, path, digest, part);
    RepliesTellOk(sign, Chunks(w.hash, s, path, digest, part, true).1);
    hide Step, Chunks, OldThere, OldStillThere, NoFalseEnd;
  }

  // ---- Accepted with the file in place -----------------------------------------------

  /** A server on which the upload of `path` is not refused and no stream is open; an older working copy
      may be there. */
  predicate Prepared(s: State, path: Path, digest: Bytes, update: bool) {
    && s.auth && s.synced && s.stream == Closed
    && (update <==> path in s.entries) && (update <==> path in s.disk)
    && (update ==> s.entries[path].digest != digest)
  }

  /** The server without the working copy an update would use. */
  function WithoutCopy(s: State, path: Path, update: bool): State {
    if update then s.(disk := s.disk - {TempPath(path)}) else s
  }

  lemma FirstChunkSame(h: Hash, s: State, path: Path, digest: Bytes, data: Bytes, last: bool)
    requires Prepared(s, path, digest, true) && BytesAt(s, TempPath(path)) == []
    ensures UpdateChunk(h, s, path, digest, data, last) ==
            UpdateChunk(h, WithoutCopy(s, path, true), path, digest, data, last)
  {
    var s0, copy := WithoutCopy(s, path, true), TempPath(path);
    if copy in s.disk {
      assert s0.disk[copy := []] == s.disk;
    } else {
      assert s0.disk == s.disk;
    }
    assert GetStream(s0, copy) == GetStream(s, copy);
    hide GetStream, WriteStream, RemoveFile, RenameFile, CheckDigest;
  }

  /** An empty working copy makes no difference. */
  lemma EmptyCopyIsNone(h: Hash, s: State, path: Path, digest: Bytes, update: bool, cut: Cut)
    requires Prepared(s, path, digest, update) && (update ==> BytesAt(s, TempPath(path)) == []) && cut.payloads != []
    ensures Startable(WithoutCopy(s, path, update), path, digest, update)
    ensures Chunks(h, s, path, digest, cut, update) ==
            Chunks(h, WithoutCopy(s, path, update), path, digest, cut, update)
  {
    if update {
      var last := (cut.complete && |cut.payloads| == 1) || EndsLikeEnd(cut.payloads[0]);
      assert path != TempPath(path);
      FirstChunkSame(h, s, path, digest, cut.payloads[0], last);
      hide UpdateChunk;
    }
  }

  /** Then the upload of an uploadable file is an atomic put that uses the working copy up. */
  lemma ReadyServes(h: Hash, s: State, op: Op, file: Bytes)
    requires op.kind != Erase && op.digest == h(op.path, file) && SignFits(SignOf(op)) && Uploadable(file, SignOf(op))
    requires Prepared(s, op.path, op.digest, op.kind == Update)
    requires op.kind == Update ==> BytesAt(s, TempPath(op.path)) == []
    ensures Serve(h, s, op, file) ==
            (Put(WithoutCopy(s, op.path, op.kind == Update), op.path, file, op.digest), Some(ERR_NONE))
  {
    CutCount(file, MaxPayload(SignOf(op)));
    CompleteHasPayload(file, MaxPayload(SignOf(op)));
    EmptyCopyIsNone(h, s, op.path, op.digest, op.kind == Update, CutOf(op, file));
    ServeIsPut(h, WithoutCopy(s, op.path, op.kind == Update), op, file);
    hide Prepared, Startable, WithoutCopy, Put, Chunks, BytesAt;
  }

  /** A create with a false end whose last reply is OK has lost the bytes up to it. */
  lemma {:induction false} FalseEndLosesBytes(h: Hash, s: State, path: Path, digest: Bytes, cut: Cut)
    requires !HasSynced(s, path) && cut.complete && cut.payloads != [] && !NoFalseEnd(cut)
    ensures var (r, codes) := Chunks(h, s, path, digest, cut, false);
            && |codes| == |cut.payloads|
            && (codes[|codes| - 1] == ERR_NONE ==> Effects.SizeAt(r, path) < |Join(cut.payloads)|)
    decreases |cut.payloads|
  {
    hide CreateChunk, BytesAt, GoesThere, NoFalseEnd, HasSynced;
    var data, rest := cut.payloads[0], cut.(payloads := cut.payloads[1..]);
    NoFalseEndLater(cut);
    EmptyHasNoFalseEnd(rest);
    var last := EndsLikeEnd(data);
    var s' := Chunk(h, s, path, digest, data, last, false).0;
    assert !(cut.complete && |cut.payloads| == 1);
    ChunksHead(h, s, path, digest, cut, false);
    ChunksCount(h, s', path, digest, rest, false);
    CreateChunkProgress(h, s, path, digest, data, last);
    if HasSynced(s', path) {
      RefusedChunks(h, s', path, digest, rest);
    } else if last {
      Effects.CreateGrows(h, s', path, digest, rest);
      SizeOfBytes(s', path);
      assert |data| >= 3;
    } else {
      FalseEndLosesBytes(h, s', path, digest, rest);
    }
  }

  lemma SizeOfBytes(s: State, path: Path)
    ensures Effects.SizeAt(s, path) == |BytesAt(s, path)|
  {
  }

  /** An upload is accepted with OK and leaves the bytes of the file at the path if and only if the file
      is uploadable and, for an update, there is no older working copy but an empty one. */
  lemma AcceptedInPlaceExactly(h: Hash, s: State, op: Op, file: Bytes)
    requires op.kind != Erase && op.digest == h(op.path, file) && SignFits(SignOf(op))
    requires Prepared(s, op.path, op.digest, op.kind == Update)
    ensures var (r, code) := Serve(h, s, op, file);
            code == Some(ERR_NONE) && op.path in r.disk && r.disk[op.path] == file <==>
            Uploadable(file, SignOf(op)) && (op.kind == Update ==> BytesAt(s, TempPath(op.path)) == [])
  {
    var cut := CutOf(op, file);
    if Uploadable(file, SignOf(op)) && (op.kind == Update ==> BytesAt(s, TempPath(op.path)) == []) {
      ReadyServes(h, s, op, file);
      hide Serve, Uploadable, Prepared, BytesAt;
    } else {
      CutCount(file, MaxPayload(SignOf(op)));
      CutJoinIsPrefix(file, MaxPayload(SignOf(op)));
      CompleteHasPayload(file, MaxPayload(SignOf(op)));
      ChunksCount(h, s, op.path, op.digest, cut, op.kind == Update);
      if op.kind == Create && cut.complete {
        FalseEndLosesBytes(h, s, op.path, op.digest, cut);
      } else if op.kind == Update && cut.complete {
        UpdateOverCopy(h, s, op, file);
      }
    }
  }

  lemma UpdateOverCopy(h: Hash, s: State, op: Op, file: Bytes)
    requires op.kind == Update && SignFits(SignOf(op)) && CutOf(op, file).complete
    requires Prepared(s, op.path, op.digest, true)
    requires !NoFalseEnd(CutOf(op, file)) || BytesAt(s, TempPath(op.path)) != []
    ensures var (r, code) := Serve(h, s, op, file);
            !(code == Some(ERR_NONE) && op.path in r.disk && r.disk[op.path] == file)
  {
    var cut := CutOf(op, file);
    CutJoinIsPrefix(file, MaxPayload(SignOf(op)));
    CompleteHasPayload(file, MaxPayload(SignOf(op)));
    UpdateFinishes(h, s, op.path, op.digest, cut);
    if NoFalseEnd(cut) {
      AllAtEnd(BytesAt(s, TempPath(op.path)), cut);
      assert |BytesAt(s, TempPath(op.path)) + file| > |file|;
    }
    hide Chunks, NoFalseEnd, CopyAtEnd, BytesAt;
  }
}
