/** What an upload leaves on the server in the end, whatever the replies on the way said. */
module Effects {
  import opened Protocol
  import opened Tlvs
  import opened FileMessages
  import opened Server
  import opened Uploads
  import opened Client
  import opened Operations

  /** No payload that is followed by further bytes of the file ends like an END. */
  predicate NoEarlyEnd(cut: Cut) {
    forall i | 0 <= i < |cut.payloads| && EndsLikeEnd(cut.payloads[i]) :: Join(cut.payloads[i + 1..]) == []
  }

  function Later(cut: Cut): Cut
    requires cut.payloads != []
  {
    cut.(payloads := cut.payloads[1..])
  }

  lemma NoEarlyEndLater(cut: Cut)
    requires cut.payloads != []
    ensures NoEarlyEnd(cut) <==>
            NoEarlyEnd(Later(cut)) && (EndsLikeEnd(cut.payloads[0]) ==> Join(Later(cut).payloads) == [])
  {
    var rest := Later(cut).payloads;
    assert forall i | 0 <= i < |rest| :: rest[i] == cut.payloads[i + 1] && rest[i + 1..] == cut.payloads[i + 2..];
    forall i | 0 < i < |cut.payloads| ensures cut.payloads[i] == rest[i - 1] && cut.payloads[i + 1..] == rest[i..] {
    }
  }

  lemma {:induction false} NothingLater(cut: Cut)
    requires Join(cut.payloads) == []
    ensures NoEarlyEnd(cut)
    decreases |cut.payloads|
  {
    if cut.payloads != [] {
      NothingLater(Later(cut));
      NoEarlyEndLater(cut);
    }
  }

  // ---- After the end -----------------------------------------------------------------

  /** Once a file is in place, further chunks under its digest change nothing. */
  lemma {:induction false} PutRefuses(h: Hash, s: State, path: Path, digest: Bytes, cut: Cut, update: bool, file: Bytes)
    ensures Chunks(h, Put(s, path, file, digest), path, digest, cut, update).0 == Put(s, path, file, digest)
    decreases |cut.payloads|
  {
    hide Chunk, Put;
    if cut.payloads != [] {
      var last := (cut.complete && |cut.payloads| == 1) || EndsLikeEnd(cut.payloads[0]);
      LateChunk(h, s, path, digest, cut.payloads[0], last, update, file);
      PutRefuses(h, s, path, digest, Later(cut), update, file);
    }
  }

  /** Chunks of an update for an untracked file, or one that has the announced digest, are refused. */
  lemma {:induction false} UpdateRefused(h: Hash, s: State, path: Path, digest: Bytes, cut: Cut)
    requires path !in s.entries || s.entries[path].digest == digest
    ensures var (r, codes) := Chunks(h, s, path, digest, cut, true);
            r == s && |codes| == |cut.payloads| && forall i | 0 <= i < |codes| :: codes[i] != ERR_NONE
    decreases |cut.payloads|
  {
    if cut.payloads != [] {
      UpdateRefused(h, s, path, digest, cut.(payloads := cut.payloads[1..]));
    }
  }

  function SizeAt(s: State, path: Path): nat {
    if path in s.disk then |s.disk[path]| else 0
  }

  lemma CreateChunkGrows(h: Hash, s: State, path: Path, digest: Bytes, data: Bytes, last: bool)
    ensures SizeAt(CreateChunk(h, s, path, digest, data, last).0, path) <= SizeAt(s, path) + |data|
  {
  }

  /** Chunks of a create add no more to the file than they carry. */
  lemma {:induction false} CreateGrows(h: Hash, s: State, path: Path, digest: Bytes, cut: Cut)
    ensures SizeAt(Chunks(h, s, path, digest, cut, false).0, path) <= SizeAt(s, path) + |Join(cut.payloads)|
    decreases |cut.payloads|
  {
    hide CreateChunk, SizeAt;
    if cut.payloads != [] {
      var last := (cut.complete && |cut.payloads| == 1) || EndsLikeEnd(cut.payloads[0]);
      var s' := Chunk(h, s, path, digest, cut.payloads[0], last, false).0;
      CreateChunkGrows(h, s, path, digest, cut.payloads[0], last);
      CreateGrows(h, s', path, digest, Later(cut));
    }
  }

  /** A mismatch loses the file for good: what is sent later is only a part of it, or refused. */
  lemma AfterMismatch(h: Hash, s: State, path: Path, digest: Bytes, cut: Cut, update: bool, file: Bytes)
    requires path !in s.disk && path !in s.entries && |Join(cut.payloads)| < |file|
    ensures var r := Chunks(h, s, path, digest, cut, update).0;
            path in r.disk ==> r.disk[path] != file
  {
    if update {
      UpdateRefused(h, s, path, digest, cut);
    } else {
      CreateGrows(h, s, path, digest, cut);
    }
  }

  // ---- The exact effect --------------------------------------------------------------

  /** A chunk that looks like the last one. */
  lemma EndReached(h: Hash, s: State, path: Path, digest: Bytes, update: bool, started: bool, done: Bytes, cut: Cut)
    requires Startable(s, path, digest, update) && (!started ==> done == [])
    requires cut.payloads != [] && (EndsLikeEnd(cut.payloads[0]) || (cut.complete && |cut.payloads| == 1))
    ensures var r := Chunks(h, Underway(s, path, update, started, done), path, digest, cut, update).0;
            var all := done + cut.payloads[0];
            if h(path, all) == digest then r == Put(s, path, all, digest)
            else forall file: Bytes | |Join(Later(cut).payloads)| < |file| && path in r.disk :: r.disk[path] != file
  {
    var data, u := cut.payloads[0], Underway(s, path, update, started, done);
    LastStage(h, s, path, digest, update, started, done, data);
    ChunkTells(h, u, path, digest, data, true, update);
    ChunksHead(h, u, path, digest, cut, update);
    LastIsNotRefused(h, s, path, digest, data, update, started, done);
    hide Underway, Chunk, Put, Startable;
    var s' := Chunk(h, u, path, digest, data, true, update).0;
    if h(path, done + data) == digest {
      PutRefuses(h, s, path, digest, Later(cut), update, done + data);
    } else {
      forall file: Bytes | |Join(Later(cut).payloads)| < |file|
        ensures var r := Chunks(h, s', path, digest, Later(cut), update).0; path in r.disk ==> r.disk[path] != file
      {
        AfterMismatch(h, s', path, digest, Later(cut), update, file);
      }
    }
  }

  /** While an upload lasts its last chunk is never refused, it can only mismatch. */
  lemma LastIsNotRefused(h: Hash, s: State, path: Path, digest: Bytes, data: Bytes, update: bool,
                         started: bool, done: Bytes)
    requires Startable(s, path, digest, update)
    ensures var code := Chunk(h, Underway(s, path, update, started, done), path, digest, data, true, update).1;
            code == ERR_NONE || IsNoMatch(code)
  {
  }

  lemma {:induction false} PutExactly(h: Hash, s: State, path: Path, digest: Bytes, update: bool,
                                      started: bool, done: Bytes, cut: Cut, file: Bytes)
    requires Startable(s, path, digest, update) && (!started ==> done == [])
    requires digest == h(path, file) && done + Join(cut.payloads) <= file
    requires cut.complete ==> cut.payloads != [] && done + Join(cut.payloads) == file
    requires !cut.complete ==> |done + Join(cut.payloads)| < |file|
    ensures var r := Chunks(h, Underway(s, path, update, started, done), path, digest, cut, update).0;
            r == Put(s, path, file, digest) <==> cut.complete && NoEarlyEnd(cut)
    decreases |cut.payloads|
  {
    var u := Underway(s, path, update, started, done);
    if cut.payloads == [] {
      UnfinishedIsNotPut(s, path, digest, update, started, done, file);
    } else {
      var data, rest := cut.payloads[0], Later(cut);
      NoEarlyEndLater(cut);
      assert done + Join(cut.payloads) == done + data + Join(rest.payloads);
      hide Startable, Underway, Chunk, EndsLikeEnd;
      if EndsLikeEnd(data) || (cut.complete && |cut.payloads| == 1) {
        AtTheEnd(h, s, path, digest, update, started, done, cut, file);
      } else {
        NextStage(h, s, path, digest, update, started, done, data);
        ChunksHead(h, u, path, digest, cut, update);
        PutExactly(h, s, path, digest, update, true, done + data, rest, file);
      }
    }
  }

  lemma PutHas(s: State, path: Path, digest: Bytes, file: Bytes)
    ensures path in Put(s, path, file, digest).disk && Put(s, path, file, digest).disk[path] == file
  {
  }

  lemma PutsDiffer(s: State, path: Path, digest: Bytes, file: Bytes, other: Bytes)
    ensures Put(s, path, file, digest) == Put(s, path, other, digest) <==> file == other
  {
    PutHas(s, path, digest, file);
    PutHas(s, path, digest, other);
  }

  lemma AtTheEnd(h: Hash, s: State, path: Path, digest: Bytes, update: bool,
                 started: bool, done: Bytes, cut: Cut, file: Bytes)
    requires Startable(s, path, digest, update) && (!started ==> done == [])
    requires cut.payloads != [] && (EndsLikeEnd(cut.payloads[0]) || (cut.complete && |cut.payloads| == 1))
    requires digest == h(path, file) && done + Join(cut.payloads) <= file
    requires cut.complete ==> done + Join(cut.payloads) == file
    requires !cut.complete ==> |done + Join(cut.payloads)| < |file|
    ensures var r := Chunks(h, Underway(s, path, update, started, done), path, digest, cut, update).0;
            r == Put(s, path, file, digest) <==> cut.complete && NoEarlyEnd(cut)
  {
    var data, rest := cut.payloads[0], Later(cut);
    var all := done + data;
    EndReached(h, s, path, digest, update, started, done, cut);
    NoEarlyEndLater(cut);
    assert EndsLikeEnd(data) ==> |data| >= 3;
    PutHas(s, path, digest, file);
    hide Chunks, Underway, Startable, EndsLikeEnd, NoEarlyEnd, Put;
    assert done + Join(cut.payloads) == all + Join(rest.payloads);
    if cut.complete && Join(rest.payloads) == [] {
      NothingLater(rest);
      assert all + [] == all;
    } else {
      assert |all| < |file|;
      PutsDiffer(s, path, digest, file, all);
    }
  }

  /** A file whose upload has the effect of a put. */
  predicate TakesEffect(file: Bytes, sign: Bytes)
    requires SignFits(sign)
  {
    GoodSize(|file|, MaxPayload(sign)) && NoEarlyEnd(CutFile(file, MaxPayload(sign)))
  }

  /** From a server on which it can start, an upload leaves exactly the file in place, all else as
      it was, if and only if the size of the file is good and no payload that is followed by further
      bytes of it ends like an END; and then the client takes the last reply for a success. */
  lemma UploadTakesEffect(h: Hash, s: State, op: Op, file: Bytes)
    requires op.kind != Erase && op.digest == h(op.path, file) && SignFits(SignOf(op))
    requires Startable(s, op.path, op.digest, op.kind == Update)
    ensures var (r, code) := Serve(h, s, op, file);
            && (r == Put(s, op.path, file, op.digest) <==> TakesEffect(file, SignOf(op)))
            && (r == Put(s, op.path, file, op.digest) ==> Succeeds(op.kind, code))
  {
    var m := MaxPayload(SignOf(op));
    var cut := CutFile(file, m);
    CutCount(file, m);
    CutJoinIsPrefix(file, m);
    IncompleteIsShorter(file, m);
    assert [] + Join(cut.payloads) == Join(cut.payloads);
    PutExactly(h, s, op.path, op.digest, op.kind == Update, false, [], cut, file);
    CompleteHasPayload(file, m);
    if cut.complete {
      ChunksCount(h, s, op.path, op.digest, cut, op.kind == Update);
      if op.kind == Create {
        CreateOutcome(h, s, op.path, op.digest, cut);
      } else {
        UpdateOutcome(h, s, op.path, op.digest, cut);
      }
    }
  }

  // ---- A file that is lost -----------------------------------------------------------

  /** A file of good size whose first payload ends like an END, with more to follow. */
  function FalseEndFile(m: nat): Bytes
    requires m >= 3
  {
    seq(m - 3, _ => 0) + [END, 0, 0] + [7]
  }

  lemma FalseEndCut(m: nat)
    requires m >= 4
    ensures var file := FalseEndFile(m);
            && GoodSize(|file|, m)
            && CutFile(file, m) == Cut([file[..m], file[m..]], true)
            && EndsLikeEnd(file[..m])
  {
    var file := FalseEndFile(m);
    DivModUnique(m + 1, m, 1, 1);
    assert CutFile(file[m..], m) == Cut([file[m..]], true);
    assert file[..m][m - 3..] == [END, 0, 0];
  }

  /** A first chunk that looks like the last but does not match ends an update for good. */
  lemma MismatchLosesFile(h: Hash, s: State, path: Path, digest: Bytes, cut: Cut)
    requires Startable(s, path, digest, true)
    requires cut.payloads != [] && EndsLikeEnd(cut.payloads[0]) && h(path, cut.payloads[0]) != digest
    ensures var r := Chunks(h, s, path, digest, cut, true).0;
            path in s.disk && path !in r.disk && path !in r.entries
  {
    var data := cut.payloads[0];
    LastStage(h, s, path, digest, true, false, [], data);
    assert [] + data == data;
    ChunkTells(h, s, path, digest, data, true, true);
    LastIsNotRefused(h, s, path, digest, data, true, false, []);
    ChunksHead(h, s, path, digest, cut, true);
    UpdateRefused(h, Chunk(h, s, path, digest, data, true, true).0, path, digest, Later(cut));
    hide Chunk;
  }

  /** Updating a file to such content removes it from the server, old bytes and entry included
      (unless the digests of the content and of its first payload collide). */
  lemma FalseEndIsFatal(h: Hash, s: State, path: Path, m: nat)
    requires |path| + 43 <= CHUNK_SIZE && m == CHUNK_SIZE - |path| - 40 && m >= 4
    requires Startable(s, path, h(path, FalseEndFile(m)), true)
    requires h(path, FalseEndFile(m)) != h(path, FalseEndFile(m)[..m])
    ensures var op := Op(Update, path, h(path, FalseEndFile(m)));
            && SignFits(SignOf(op)) && GoodSize(|FalseEndFile(m)|, MaxPayload(SignOf(op)))
            && var (r, code) := Serve(h, s, op, FalseEndFile(m));
            && path in s.disk && path !in r.disk && path !in r.entries
            && !Succeeds(Update, code)
  {
    var file, op := FalseEndFile(m), Op(Update, path, h(path, FalseEndFile(m)));
    FalseEndCut(m);
    assert MaxPayload(SignOf(op)) == m;
    hide FalseEndFile, CutFile, Startable, Chunks, GoodSize, EndsLikeEnd;
    var cut := CutFile(file, m);
    MismatchLosesFile(h, s, path, op.digest, cut);
    UpdateOutcome(h, s, path, op.digest, cut);
  }
}
