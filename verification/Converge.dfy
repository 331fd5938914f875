/** Serving a synchronization: when the scheduled operations turn the server's files into the client's
    in whatever order they are served. */
module Convergence {
  import opened Protocol
  import opened Tlvs
  import opened FileMessages
  import opened Server
  import opened Uploads
  import opened Client
  import opened Operations
  import opened RoundTrips
  import opened Synchronizations
  import opened Finishes
  import Signs

  // ---- Before and after --------------------------------------------------------------

  /** A server just after LIST: it tracks exactly its files, and nothing is being uploaded. */
  ghost predicate JustListed(h: Hash, s: State) {
    s.auth && s.synced && s.stream == Closed && s.entries == Tracked(h, s.disk)
  }

  /** The client's files, under the digests its directory has. */
  ghost predicate Describes(h: Hash, dir: Directory, files: map<Path, Bytes>) {
    dir.Keys == files.Keys && forall p | p in files :: dir[p].digest == h(p, files[p])
  }

  /** The content an operation is served with. */
  function ContentOf(files: map<Path, Bytes>, op: Op): Bytes {
    if op.path in files then files[op.path] else []
  }

  /** The server has the file already, under the same digest. */
  ghost predicate HasAlready(h: Hash, s: State, path: Path, file: Bytes) {
    path in s.disk && h(path, s.disk[path]) == h(path, file)
  }

  ghost function Remote(h: Hash, s: State): map<Path, Bytes> {
    map p | p in s.disk :: h(p, s.disk[p])
  }

  /** The operations can be served: their signs fit. */
  ghost predicate AllSignsFit(ops: seq<Op>) {
    forall op | op in ops :: SignFits(SignOf(op))
  }

  /** Operations served one after the other, and the code of each. */
  function ServeAll(h: Hash, s: State, files: map<Path, Bytes>, ops: seq<Op>): (State, seq<Option<nat>>)
    requires AllSignsFit(ops)
    decreases |ops|
  {
    if ops == [] then (s, [])
    else
      assert ops[0] in ops;
      var (s', code) := Serve(h, s, ops[0], ContentOf(files, ops[0]));
      var (r, codes) := ServeAll(h, s', files, ops[1..]);
      (r, [code] + codes)
  }

  predicate AllServed(codes: seq<Option<nat>>) {
    forall i | 0 <= i < |codes| :: codes[i] == Some(ERR_NONE)
  }

  /** The server tracks exactly the client's files under their digests, with the client's bytes
      at the paths that were touched and the old bytes, of the same digest, at the others. */
  ghost predicate Converged(h: Hash, s: State, files: map<Path, Bytes>, touched: set<Path>, r: State) {
    && r.entries == Tracked(h, files)
    && r.disk.Keys == files.Keys
    && (forall p | p in files && p !in touched :: p in s.disk)
    && (forall p | p in files :: r.disk[p] == if p in touched then files[p] else s.disk[p])
    && (forall p | p in files :: h(p, r.disk[p]) == h(p, files[p]))
    && r.stream == Closed && r.auth && r.synced
  }

  /** Served in this order every operation is accepted with OK, and the server then has the client's
      files. */
  ghost predicate Works(h: Hash, s: State, files: map<Path, Bytes>, order: seq<Op>) {
    && AllSignsFit(order)
    && AllServed(ServeAll(h, s, files, order).1)
    && Converged(h, s, files, PathsOf(order), ServeAll(h, s, files, order).0)
  }

  ghost predicate EveryOrderWorks(h: Hash, s: State, files: map<Path, Bytes>, plan: seq<Op>) {
    forall order | multiset(order) == multiset(plan) :: Works(h, s, files, order)
  }

  /** What is needed for that: the files that are sent are uploadable; for one that replaces an older
      file the client has no file in the place of its working copy, and the server none but an empty
      one; and the signs of the files to erase can be sent. */
  ghost predicate CanSync(h: Hash, s: State, files: map<Path, Bytes>) {
    && (forall p | p in files && !HasAlready(h, s, p, files[p]) :: CanBeSent(h, p, files[p]))
    && (forall p | p in files && p in s.disk && !HasAlready(h, s, p, files[p]) ::
          TempPath(p) !in files && BytesAt(s, TempPath(p)) == [])
    && (forall p | p in s.disk && p !in files :: SignFits(Signs.CreateSign(p, h(p, s.disk[p]))))
  }

  ghost predicate CanBeSent(h: Hash, path: Path, file: Bytes) {
    var sign := Signs.CreateSign(path, h(path, file));
    SignFits(sign) && Uploadable(file, sign)
  }

  // ---- The server on the way ---------------------------------------------------------

  /** `p` is the place of a working copy that an update that has been served used up. */
  ghost predicate UsedUp(h: Hash, s: State, files: map<Path, Bytes>, done: set<Path>, p: Path) {
    exists q :: q in done && q in files && q in s.disk && !HasAlready(h, s, q, files[q]) && TempPath(q) == p
  }

  /** At `p` the server is as on the client when the operation for it is done, and else as before, but
      for working copies that are used up. */
  ghost predicate HalfwayAt(h: Hash, s: State, files: map<Path, Bytes>, done: set<Path>, m: State, p: Path) {
    && (p in m.entries <==> if p in done then p in files else p in s.disk)
    && (p in m.entries ==>
          m.entries[p] == if p in done then Entry(true, h(p, files[p])) else Entry(true, h(p, s.disk[p])))
    && (p in m.disk <==> !UsedUp(h, s, files, done, p) && if p in done then p in files else p in s.disk)
    && (p in m.disk ==> m.disk[p] == if p in done then files[p] else s.disk[p])
  }

  ghost predicate Halfway(h: Hash, s: State, files: map<Path, Bytes>, done: set<Path>, m: State) {
    m.auth && m.synced && m.stream == Closed && forall p :: HalfwayAt(h, s, files, done, m, p)
  }

  lemma HalfwayFromStart(h: Hash, s: State, files: map<Path, Bytes>)
    requires JustListed(h, s)
    ensures Halfway(h, s, files, {}, s)
  {
  }

  /** A needed upload is of a client's file the server does not have already; it is an update exactly
      when the server has another file there. */
  lemma NeededIsSent(h: Hash, s: State, dir: Directory, files: map<Path, Bytes>, op: Op)
    requires Describes(h, dir, files) && op.kind != Erase && Needed(dir, Remote(h, s), op.path) == Some(op)
    ensures op.path in files && op.digest == h(op.path, files[op.path]) && ContentOf(files, op) == files[op.path]
    ensures !HasAlready(h, s, op.path, files[op.path]) && (op.kind == Update <==> op.path in s.disk)
  {
  }

  lemma NeededIsErased(h: Hash, s: State, dir: Directory, files: map<Path, Bytes>, op: Op)
    requires Describes(h, dir, files) && op.kind == Erase && Needed(dir, Remote(h, s), op.path) == Some(op)
    ensures op.path !in files && op.path in s.disk && op.digest == h(op.path, s.disk[op.path])
  {
  }

  lemma NeededFits(h: Hash, s: State, dir: Directory, files: map<Path, Bytes>, op: Op)
    requires Describes(h, dir, files) && CanSync(h, s, files) && Needed(dir, Remote(h, s), op.path) == Some(op)
    ensures SignFits(SignOf(op))
    ensures op.kind != Erase ==> op.path in files && Uploadable(files[op.path], SignOf(op))
  {
    if op.kind == Erase {
      NeededIsErased(h, s, dir, files, op);
    } else {
      NeededIsSent(h, s, dir, files, op);
      assert CanBeSent(h, op.path, files[op.path]);
    }
  }

  lemma EraseAt(h: Hash, s: State, files: map<Path, Bytes>, done: set<Path>, m: State, path: Path, p: Path)
    requires Halfway(h, s, files, done, m) && path !in files
    ensures HalfwayAt(h, s, files, done + {path}, RemoveFile(m, path).(entries := m.entries - {path}), p)
  {
    assert HalfwayAt(h, s, files, done, m, p);
    assert UsedUp(h, s, files, done + {path}, p) <==> UsedUp(h, s, files, done, p);
  }

  lemma NeededErase(h: Hash, s: State, dir: Directory, files: map<Path, Bytes>, done: set<Path>, m: State, op: Op)
    requires Describes(h, dir, files) && Halfway(h, s, files, done, m) && op.path !in done && op.kind == Erase
    requires Needed(dir, Remote(h, s), op.path) == Some(op) && SignFits(SignOf(op))
    ensures var (r, code) := Serve(h, m, op, ContentOf(files, op));
            code == Some(ERR_NONE) && Halfway(h, s, files, done + {op.path}, r)
  {
    NeededIsErased(h, s, dir, files, op);
    assert HalfwayAt(h, s, files, done, m, op.path);
    forall p ensures HalfwayAt(h, s, files, done + {op.path}, Serve(h, m, op, ContentOf(files, op)).0, p) {
      EraseAt(h, s, files, done, m, op.path, p);
    }
    hide HalfwayAt;
  }

  lemma UsedUpNext(h: Hash, s: State, files: map<Path, Bytes>, done: set<Path>, path: Path, p: Path)
    requires path in files && !HasAlready(h, s, path, files[path])
    ensures UsedUp(h, s, files, done + {path}, p) <==>
            UsedUp(h, s, files, done, p) || (path in s.disk && p == TempPath(path))
  {
    if path in s.disk && p == TempPath(path) {
      assert path in done + {path};
    }
  }

  lemma NotUsedUp(h: Hash, s: State, files: map<Path, Bytes>, done: set<Path>, p: Path)
    requires CanSync(h, s, files) && p in files
    ensures !UsedUp(h, s, files, done, p)
  {
    hide CanBeSent, HasAlready, BytesAt;
  }

  lemma PutAt(h: Hash, s: State, files: map<Path, Bytes>, done: set<Path>, m: State, path: Path, p: Path)
    requires CanSync(h, s, files) && Halfway(h, s, files, done, m)
    requires path in files && !HasAlready(h, s, path, files[path])
    ensures HalfwayAt(h, s, files, done + {path},
                      Put(WithoutCopy(m, path, path in s.disk), path, files[path], h(path, files[path])), p)
  {
    UsedUpNext(h, s, files, done, path, p);
    NotUsedUp(h, s, files, done + {path}, path);
    assert HalfwayAt(h, s, files, done, m, p);
    assert TempPath(path) != path;
    hide CanSync, HasAlready, UsedUp;
  }

  lemma UploadIsReady(h: Hash, s: State, files: map<Path, Bytes>, done: set<Path>, m: State, path: Path)
    requires CanSync(h, s, files) && Halfway(h, s, files, done, m)
    requires path in files && !HasAlready(h, s, path, files[path]) && path !in done
    ensures Prepared(m, path, h(path, files[path]), path in s.disk)
    ensures path in s.disk ==> BytesAt(m, TempPath(path)) == []
  {
    NotUsedUp(h, s, files, done, path);
    assert HalfwayAt(h, s, files, done, m, path);
    assert HalfwayAt(h, s, files, done, m, TempPath(path));
    hide CanBeSent, UsedUp;
  }

  lemma NeededUpload(h: Hash, s: State, dir: Directory, files: map<Path, Bytes>, done: set<Path>, m: State, op: Op)
    requires Describes(h, dir, files) && CanSync(h, s, files) && Halfway(h, s, files, done, m)
    requires op.path !in done && op.kind != Erase && Needed(dir, Remote(h, s), op.path) == Some(op)
    requires SignFits(SignOf(op))
    ensures var (r, code) := Serve(h, m, op, ContentOf(files, op));
            code == Some(ERR_NONE) && Halfway(h, s, files, done + {op.path}, r)
  {
    NeededIsSent(h, s, dir, files, op);
    NeededFits(h, s, dir, files, op);
    UploadIsReady(h, s, files, done, m, op.path);
    ReadyServes(h, m, op, files[op.path]);
    forall p ensures HalfwayAt(h, s, files, done + {op.path}, Serve(h, m, op, ContentOf(files, op)).0, p) {
      PutAt(h, s, files, done, m, op.path, p);
    }
    hide HalfwayAt, CanSync, HasAlready, Needed, Serve, Uploadable, Prepared, BytesAt, Describes;
  }

  lemma {:induction false} NeededOps(h: Hash, s: State, dir: Directory, files: map<Path, Bytes>, done: set<Path>,
                                     m: State, ops: seq<Op>)
    requires Describes(h, dir, files) && CanSync(h, s, files) && Halfway(h, s, files, done, m)
    requires OnePerPath(ops) && PathsOf(ops) !! done
    requires forall op | op in ops :: Needed(dir, Remote(h, s), op.path) == Some(op)
    ensures AllSignsFit(ops)
    ensures var (r, codes) := ServeAll(h, m, files, ops);
            AllServed(codes) && Halfway(h, s, files, done + PathsOf(ops), r)
    decreases |ops|
  {
    hide Describes, CanSync, Needed, Serve, Halfway, SignFits;
    forall op | op in ops ensures SignFits(SignOf(op)) {
      NeededFits(h, s, dir, files, op);
    }
    if ops == [] {
      assert done + PathsOf(ops) == done;
    } else {
      var op, later := ops[0], ops[1..];
      assert op in ops;
      if op.kind == Erase {
        NeededErase(h, s, dir, files, done, m, op);
      } else {
        NeededUpload(h, s, dir, files, done, m, op);
      }
      LaterOps(ops);
      assert op.path in PathsOf(ops);
      NeededOps(h, s, dir, files, done + {op.path}, Serve(h, m, op, ContentOf(files, op)).0, later);
      assert done + {op.path} + PathsOf(later) == done + PathsOf(ops);
    }
  }

  /** When all that is needed is done the server has converged. */
  lemma HalfwayToEnd(h: Hash, s: State, dir: Directory, files: map<Path, Bytes>, touched: set<Path>, r: State)
    requires Describes(h, dir, files) && CanSync(h, s, files) && Halfway(h, s, files, touched, r)
    requires forall p :: p in touched <==> Needed(dir, Remote(h, s), p).Some?
    ensures Converged(h, s, files, touched, r)
  {
    forall p ensures EndAt(h, s, files, touched, r, p) {
      EndsAt(h, s, dir, files, touched, r, p);
    }
    EndsEverywhere(h, s, files, touched, r);
    hide *;
  }

  lemma EndsEverywhere(h: Hash, s: State, files: map<Path, Bytes>, touched: set<Path>, r: State)
    requires r.auth && r.synced && r.stream == Closed && forall p :: EndAt(h, s, files, touched, r, p)
    ensures Converged(h, s, files, touched, r)
  {
    forall p ensures (p in r.disk <==> p in files) && (p in r.entries <==> p in Tracked(h, files)) {
      assert EndAt(h, s, files, touched, r, p);
    }
    forall p | p in files
      ensures r.entries[p] == Tracked(h, files)[p] && (p !in touched ==> p in s.disk)
      ensures r.disk[p] == (if p in touched then files[p] else s.disk[p]) && h(p, r.disk[p]) == h(p, files[p])
    {
      assert EndAt(h, s, files, touched, r, p);
    }
    hide EndAt;
  }

  /** What convergence means for one path. */
  ghost predicate EndAt(h: Hash, s: State, files: map<Path, Bytes>, touched: set<Path>, r: State, p: Path) {
    && (p in r.disk <==> p in files) && (p in r.entries <==> p in files)
    && (p in files ==>
          && r.entries[p] == Entry(true, h(p, files[p]))
          && (p !in touched ==> p in s.disk)
          && r.disk[p] == (if p in touched then files[p] else s.disk[p])
          && h(p, r.disk[p]) == h(p, files[p]))
  }

  lemma EndsAt(h: Hash, s: State, dir: Directory, files: map<Path, Bytes>, touched: set<Path>, r: State, p: Path)
    requires Describes(h, dir, files) && CanSync(h, s, files) && Halfway(h, s, files, touched, r)
    requires p in touched <==> Needed(dir, Remote(h, s), p).Some?
    ensures EndAt(h, s, files, touched, r, p)
  {
    if p in files {
      NotUsedUp(h, s, files, touched, p);
    }
    assert HalfwayAt(h, s, files, touched, r, p);
    hide CanSync, UsedUp;
  }

  // ---- The condition is necessary ----------------------------------------------------

  lemma {:induction false} LastOkCloses(h: Hash, s: State, path: Path, digest: Bytes, cut: Cut, update: bool)
    requires cut.complete && cut.payloads != []
    ensures var (r, codes) := Chunks(h, s, path, digest, cut, update);
            && codes != []
            && (codes[|codes| - 1] == ERR_NONE ==> r.stream == Closed && (update ==> TempPath(path) !in r.disk))
    decreases |cut.payloads|
  {
    hide Chunk;
    ChunksHead(h, s, path, digest, cut, update);
    var last := |cut.payloads| == 1 || EndsLikeEnd(cut.payloads[0]);
    if |cut.payloads| == 1 {
      ChunkTells(h, s, path, digest, cut.payloads[0], true, update);
      AcceptedUsesCopyUp(h, s, path, digest, cut.payloads[0], update);
    } else {
      LastOkCloses(h, Chunk(h, s, path, digest, cut.payloads[0], last, update).0, path, digest,
                   cut.(payloads := cut.payloads[1..]), update);
    }
  }

  lemma AcceptedUsesCopyUp(h: Hash, s: State, path: Path, digest: Bytes, data: Bytes, update: bool)
    ensures var (r, code) := Chunk(h, s, path, digest, data, true, update);
            code == ERR_NONE && update ==> TempPath(path) !in r.disk
  {
    assert TempPath(path) != path;
  }

  /** A chunk of an upload that has the stream writes to nothing but its own file and working copy. */
  lemma ChunkElsewhere(h: Hash, s: State, path: Path, digest: Bytes, data: Bytes, last: bool, update: bool, t: Path)
    requires s.stream == Closed || s.stream == Open(Target(path, update))
    requires t != path && t != Target(path, update)
    ensures var r := Chunk(h, s, path, digest, data, last, update).0;
            && (r.stream == Closed || r.stream == Open(Target(path, update)))
            && (t in r.disk ==> t in s.disk && r.disk[t] == s.disk[t])
  {
    ChunkTells(h, s, path, digest, data, last, update);
    hide GetStream, WriteStream, CreateChunk, UpdateChunk;
  }

  lemma {:induction false} ChunksElsewhere(h: Hash, s: State, path: Path, digest: Bytes, cut: Cut, update: bool,
                                           t: Path)
    requires s.stream == Closed || s.stream == Open(Target(path, update))
    requires t != path && t != Target(path, update)
    ensures var r := Chunks(h, s, path, digest, cut, update).0;
            t in r.disk ==> t in s.disk && r.disk[t] == s.disk[t]
    decreases |cut.payloads|
  {
    hide Chunk;
    if cut.payloads != [] {
      var last := (cut.complete && |cut.payloads| == 1) || EndsLikeEnd(cut.payloads[0]);
      ChunkElsewhere(h, s, path, digest, cut.payloads[0], last, update, t);
      ChunksElsewhere(h, Chunk(h, s, path, digest, cut.payloads[0], last, update).0, path, digest,
                      cut.(payloads := cut.payloads[1..]), update, t);
    }
  }

  /** An operation that is accepted leaves the file at another path as it was, or, as a working copy,
      uses it up. */
  lemma ServeKeepsOrLoses(h: Hash, s: State, op: Op, content: Bytes, t: Path)
    requires SignFits(SignOf(op)) && s.stream == Closed && t != op.path
    requires Serve(h, s, op, content).1 == Some(ERR_NONE)
    ensures var r := Serve(h, s, op, content).0;
            && r.stream == Closed
            && (t in r.disk ==> t in s.disk && r.disk[t] == s.disk[t])
            && (op.kind == Update ==> TempPath(op.path) !in r.disk)
  {
    if op.kind != Erase {
      var cut, update := CutOf(op, content), op.kind == Update;
      CompleteHasPayload(content, MaxPayload(SignOf(op)));
      LastOkCloses(h, s, op.path, op.digest, cut, update);
      if t != Target(op.path, update) {
        ChunksElsewhere(h, s, op.path, op.digest, cut, update, t);
      }
      hide Chunks;
    }
  }

  lemma FirstServed(h: Hash, s: State, files: map<Path, Bytes>, ops: seq<Op>)
    requires ops != [] && AllSignsFit(ops) && AllServed(ServeAll(h, s, files, ops).1)
    ensures SignFits(SignOf(ops[0])) && AllSignsFit(ops[1..])
    ensures var (s', code) := Serve(h, s, ops[0], ContentOf(files, ops[0]));
            && code == Some(ERR_NONE)
            && ServeAll(h, s, files, ops).0 == ServeAll(h, s', files, ops[1..]).0
            && AllServed(ServeAll(h, s', files, ops[1..]).1)
  {
    hide Serve, SignFits;
    assert ops[0] in ops;
    var s' := Serve(h, s, ops[0], ContentOf(files, ops[0])).0;
    var codes, later := ServeAll(h, s, files, ops).1, ServeAll(h, s', files, ops[1..]).1;
    assert codes[0] == Some(ERR_NONE);
    forall i | 0 <= i < |later| ensures later[i] == Some(ERR_NONE) {
      assert codes[i + 1] == later[i];
    }
  }

  /** So do operations that are all accepted. */
  lemma {:induction false} AllKeepOrLose(h: Hash, s: State, files: map<Path, Bytes>, ops: seq<Op>, t: Path)
    requires AllSignsFit(ops) && AllServed(ServeAll(h, s, files, ops).1) && s.stream == Closed
    requires forall op | op in ops :: op.path != t
    ensures var r := ServeAll(h, s, files, ops).0;
            t in r.disk ==> t in s.disk && r.disk[t] == s.disk[t]
    decreases |ops|
  {
    if ops != [] {
      FirstServed(h, s, files, ops);
      assert ops[0] in ops;
      ServeKeepsOrLoses(h, s, ops[0], ContentOf(files, ops[0]), t);
      hide Serve, AllServed, AllSignsFit, SignFits;
      AllKeepOrLose(h, Serve(h, s, ops[0], ContentOf(files, ops[0])).0, files, ops[1..], t);
    }
  }

  /** An order that works starts with an upload only if the file is uploadable and no working copy but
      an empty one is in its way. */
  lemma FirstUpload(h: Hash, s: State, dir: Directory, files: map<Path, Bytes>, order: seq<Op>)
    requires JustListed(h, s) && Describes(h, dir, files)
    requires order != [] && OnePerPath(order) && order[0].kind != Erase
    requires Needed(dir, Remote(h, s), order[0].path) == Some(order[0])
    requires Works(h, s, files, order)
    ensures var op := order[0];
            && op.path in files && SignFits(SignOf(op)) && Uploadable(files[op.path], SignOf(op))
            && (op.kind == Update ==> BytesAt(s, TempPath(op.path)) == [])
  {
    var op := order[0];
    NeededIsSent(h, s, dir, files, op);
    FirstServed(h, s, files, order);
    LaterOps(order);
    assert Prepared(s, op.path, op.digest, op.kind == Update);
    AcceptedInPlaceExactly(h, s, op, files[op.path]);
    assert op.path in PathsOf(order);
    hide Serve, Uploadable, BytesAt, SignFits, OnePerPath, Needed, AllServed, AllSignsFit, Prepared;
    var s' := Serve(h, s, op, files[op.path]).0;
    FirstCloses(h, s, op, files[op.path]);
    AllKeepOrLose(h, s', files, order[1..], op.path);
  }

  lemma FirstCloses(h: Hash, s: State, op: Op, content: Bytes)
    requires SignFits(SignOf(op)) && s.stream == Closed && Serve(h, s, op, content).1 == Some(ERR_NONE)
    ensures Serve(h, s, op, content).0.stream == Closed
  {
    ServeKeepsOrLoses(h, s, op, content, TempPath(op.path));
  }

  /** An older working copy with bytes in it, as an update that breaks off leaves one, is listed and
      then appended to: no order works that starts with an update of its file. */
  lemma StaleCopyBreaksSync(h: Hash, s: State, dir: Directory, files: map<Path, Bytes>, order: seq<Op>)
    requires JustListed(h, s) && Describes(h, dir, files)
    requires order != [] && OnePerPath(order) && order[0].kind == Update
    requires Needed(dir, Remote(h, s), order[0].path) == Some(order[0])
    requires TempPath(order[0].path) in s.disk && s.disk[TempPath(order[0].path)] != []
    ensures !Works(h, s, files, order)
  {
    if Works(h, s, files, order) {
      FirstUpload(h, s, dir, files, order);
    }
  }

  /** An order that works has no update early on whose working copy would be in the place of a file of
      the client's that is done. */
  lemma NoFileInTheWay(h: Hash, s: State, files: map<Path, Bytes>, first: seq<Op>, op: Op, rest: seq<Op>)
    requires s.stream == Closed && op.kind == Update && Works(h, s, files, first + [op] + rest)
    requires forall o | o in rest :: o.path != TempPath(op.path)
    requires |first| <= 1
    ensures TempPath(op.path) !in files
  {
    var order := first + [op] + rest;
    hide Serve, AllServed, AllSignsFit, SignFits;
    FirstServed(h, s, files, order);
    FirstCloses(h, s, order[0], ContentOf(files, order[0]));
    var m := s;
    if first != [] {
      m := Serve(h, s, order[0], ContentOf(files, order[0])).0;
      assert order[1..] == [op] + rest;
      FirstServed(h, m, files, [op] + rest);
    } else {
      assert order == [op] + rest;
    }
    assert ([op] + rest)[1..] == rest;
    ServeKeepsOrLoses(h, m, op, ContentOf(files, op), TempPath(TempPath(op.path)));
    var m' := Serve(h, m, op, ContentOf(files, op)).0;
    AllKeepOrLose(h, m', files, rest, TempPath(op.path));
  }

  lemma MoveToFront(ops: seq<Op>, op: Op) returns (rest: seq<Op>)
    requires op in ops
    ensures multiset([op] + rest) == multiset(ops)
  {
    var i :| 0 <= i < |ops| && ops[i] == op;
    rest := ops[..i] + ops[i + 1..];
    assert ops == ops[..i] + [op] + ops[i + 1..];
  }

  lemma WaysAreFree(h: Hash, s: State, dir: Directory, files: map<Path, Bytes>, plan: seq<Op>, op: Op)
    requires JustListed(h, s) && EveryOrderWorks(h, s, files, plan) && OnePerPath(plan)
    requires op in plan && op.kind == Update
    requires forall o :: o in plan <==> Needed(dir, Remote(h, s), o.path) == Some(o)
    ensures TempPath(op.path) !in files
  {
    hide Works, Needed, Remote;
    var t := TempPath(op.path);
    var need := Needed(dir, Remote(h, s), t);
    if need.Some? && need.value in plan && need.value.path == t {
      var others := MoveToFront(plan, need.value);
      ReorderedOnePerPath(plan, [need.value] + others);
      assert op in [need.value] + others && op != need.value;
      var rest := MoveToFront(others, op);
      var order := [need.value] + [op] + rest;
      assert multiset(order) == multiset([need.value]) + multiset([op] + rest) == multiset(plan);
      ReorderedOnePerPath(plan, order);
      forall o | o in rest ensures o.path != t {
        var i :| 0 <= i < |rest| && rest[i] == o;
        assert order[i + 2] == o && order[0].path == t;
      }
      NoFileInTheWay(h, s, files, [need.value], op, rest);
    } else {
      var rest := MoveToFront(plan, op);
      var order := [] + [op] + rest;
      assert order == [op] + rest;
      ReorderedOnePerPath(plan, order);
      forall o | o in rest ensures o.path != t {
        assert o in order;
      }
      NoFileInTheWay(h, s, files, [], op, rest);
    }
  }

  lemma PlannedFirst(h: Hash, s: State, dir: Directory, files: map<Path, Bytes>, plan: seq<Op>, op: Op)
    requires JustListed(h, s) && Describes(h, dir, files)
    requires EveryOrderWorks(h, s, files, plan) && OnePerPath(plan) && op in plan
    requires Needed(dir, Remote(h, s), op.path) == Some(op)
    ensures SignFits(SignOf(op))
    ensures op.kind != Erase ==>
              && op.path in files && Uploadable(files[op.path], SignOf(op))
              && (op.kind == Update ==> BytesAt(s, TempPath(op.path)) == [])
  {
    var rest := MoveToFront(plan, op);
    var order := [op] + rest;
    ReorderedOnePerPath(plan, order);
    assert Works(h, s, files, order) && op in order;
    if op.kind != Erase {
      hide Uploadable, Works, EveryOrderWorks, Needed;
      FirstUpload(h, s, dir, files, order);
    }
  }

  lemma NeededAt(h: Hash, s: State, dir: Directory, files: map<Path, Bytes>, p: Path)
    requires Describes(h, dir, files)
    ensures var need := Needed(dir, Remote(h, s), p);
            && (p in files && !HasAlready(h, s, p, files[p]) ==>
                  need == Some(Op(if p in s.disk then Update else Create, p, h(p, files[p]))))
            && (p in s.disk && p !in files ==> need == Some(Op(Erase, p, h(p, s.disk[p]))))
  {
  }

  lemma EveryOrderNeeds(h: Hash, s: State, dir: Directory, files: map<Path, Bytes>, plan: seq<Op>)
    requires JustListed(h, s) && Describes(h, dir, files) && OnePerPath(plan)
    requires forall op :: op in plan <==> Needed(dir, Remote(h, s), op.path) == Some(op)
    requires EveryOrderWorks(h, s, files, plan)
    ensures CanSync(h, s, files)
  {
    forall p | p in files && !HasAlready(h, s, p, files[p])
      ensures CanBeSent(h, p, files[p])
      ensures p in s.disk ==> TempPath(p) !in files && BytesAt(s, TempPath(p)) == []
    {
      NeededAt(h, s, dir, files, p);
      var op := Needed(dir, Remote(h, s), p).value;
      hide Needed, EveryOrderWorks, JustListed, Describes, Uploadable, SignFits, OnePerPath, BytesAt;
      PlannedFirst(h, s, dir, files, plan, op);
      if p in s.disk {
        WaysAreFree(h, s, dir, files, plan, op);
      }
    }
    forall p | p in s.disk && p !in files ensures SignFits(Signs.CreateSign(p, h(p, s.disk[p]))) {
      NeededAt(h, s, dir, files, p);
      var op := Needed(dir, Remote(h, s), p).value;
      hide Needed, EveryOrderWorks, JustListed, Describes, Uploadable, SignFits, OnePerPath;
      PlannedFirst(h, s, dir, files, plan, op);
    }
    hide CanBeSent, HasAlready, BytesAt, Needed, EveryOrderWorks, JustListed, SignFits;
  }

  lemma OrderWorks(h: Hash, s: State, dir: Directory, files: map<Path, Bytes>, plan: seq<Op>, order: seq<Op>)
    requires JustListed(h, s) && Describes(h, dir, files) && CanSync(h, s, files) && OnePerPath(plan)
    requires forall op :: op in plan <==> Needed(dir, Remote(h, s), op.path) == Some(op)
    requires multiset(order) == multiset(plan)
    ensures Works(h, s, files, order)
  {
    ReorderedOnePerPath(plan, order);
    HalfwayFromStart(h, s, files);
    TouchedPaths(dir, Remote(h, s), order);
    hide JustListed, Describes, CanSync, Halfway, Converged, AllServed, AllSignsFit, Needed, OnePerPath, Remote;
    assert PathsOf(order) !! {};
    NeededOps(h, s, dir, files, {}, s, order);
    assert {} + PathsOf(order) == PathsOf(order);
    HalfwayToEnd(h, s, dir, files, PathsOf(order), ServeAll(h, s, files, order).0);
  }

  /** Synchronization converges: in every order of the scheduled operations each of them is accepted with
      OK and the server's files become the client's, if and only if the files that are sent are
      uploadable and no working copy with bytes in it, and no file of the client's, is in the way of an
      update. */
  lemma SyncConvergesExactly(h: Hash, s: State, dir: Directory, files: map<Path, Bytes>, ts: seq<Tlv>, known: seq<Path>)
    requires JustListed(h, s) && Describes(h, dir, files)
    requires Listed(ts).Some? && ListsRemote(Listed(ts).value, Remote(h, s)) && Knows(known, dir)
    ensures EveryOrderWorks(h, s, files, Plan(dir, ts, known)) <==> CanSync(h, s, files)
  {
    var plan := Plan(dir, ts, known);
    PlanExact(dir, ts, known, Remote(h, s));
    hide Plan, JustListed, Describes, Works, Needed, Remote, ListsRemote, Knows;
    if CanSync(h, s, files) {
      forall order | multiset(order) == multiset(plan) ensures Works(h, s, files, order) {
        OrderWorks(h, s, dir, files, plan, order);
      }
      hide CanSync;
    } else if EveryOrderWorks(h, s, files, plan) {
      hide CanSync, EveryOrderWorks;
      EveryOrderNeeds(h, s, dir, files, plan);
    }
  }

  lemma CanSyncSameDisk(h: Hash, s: State, r: State, files: map<Path, Bytes>)
    requires r.disk == s.disk
    ensures CanSync(h, r, files) <==> CanSync(h, s, files)
  {
    hide CanBeSent;
    assert forall p :: BytesAt(r, p) == BytesAt(s, p);
    assert forall p | p in files :: HasAlready(h, r, p, files[p]) <==> HasAlready(h, s, p, files[p]);
  }
}
