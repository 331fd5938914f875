/** What a round of the watcher achieves: when it makes the server mirror the client, in whatever order its
    operations are delivered. */
module Rounds {
  import opened Protocol
  import opened FileMessages
  import opened Server
  import opened Sessions
  import opened Uploads
  import opened Client
  import opened Operations
  import opened RoundTrips
  import opened Synchronizations
  import opened Finishes
  import opened Convergence
  import opened Requests
  import opened Settlements
  import opened Agreement
  import opened Scans
  import Effects
  import Signs
  import Tlvs

  // ---- The aim -----------------------------------------------------------------------

  /** A local file is synced under its digest, which is the one the server has; a path without anything
      local is tracked by the server no more, and not taken to be there. */
  ghost predicate MirroredAt(h: Hash, sys: System, local: Local, p: Path) {
    && (p in local.files ==>
          var digest := h(p, local.files[p]);
          && p in sys.client && sys.client[p].synced == Yes && sys.client[p].digest == digest
          && HasDigest(sys.server, p, digest))
    && (!Present(local, p) ==> p !in sys.server.entries && (p in sys.client ==> !sys.client[p].onServer))
  }

  ghost predicate Mirrors(h: Hash, sys: System, local: Local) {
    sys.pending == [] && forall p :: MirroredAt(h, sys, local, p)
  }

  /** All the operations on their way are delivered one after the other, each with the content its file
      has. */
  ghost predicate Deliveries(h: Hash, sys: System, files: map<Path, Bytes>, moves: seq<Move>)
    decreases |moves|
  {
    if moves == [] then sys.pending == []
    else
      && moves[0].Deliver? && Enabled(sys, moves[0])
      && moves[0].content == ContentOf(files, sys.pending[moves[0].index])
      && Deliveries(h, Next(h, sys, moves[0]), files, moves[1..])
  }

  lemma {:induction false} DeliveriesArePossible(h: Hash, sys: System, files: map<Path, Bytes>, moves: seq<Move>)
    requires Deliveries(h, sys, files, moves)
    ensures Possible(h, sys, moves)
    decreases |moves|
  {
    if moves != [] {
      DeliveriesArePossible(h, Next(h, sys, moves[0]), files, moves[1..]);
    }
  }

  /** Every operation can be sent, and in whatever order they are delivered the server mirrors the client
      afterwards. */
  ghost predicate EveryDeliveryMirrors(h: Hash, sys: System, local: Local) {
    && AllSignsFit(sys.pending)
    && forall moves | Deliveries(h, sys, local.files, moves) ::
         Possible(h, sys, moves) && Mirrors(h, After(h, sys, moves), local)
  }

  // ---- The condition -----------------------------------------------------------------

  /** A create of the file succeeds: it can be cut to its end, and at some end, real or false, what is at
      the path by then has its digest. */
  ghost predicate CreateWorks(h: Hash, s: State, path: Path, file: Bytes) {
    var op := Op(Create, path, h(path, file));
    SignFits(SignOf(op)) && GoodSize(|file|, MaxPayload(SignOf(op))) && FinishesOn(h, s, op, CutOf(op, file))
  }

  /** An update to the file succeeds: it can be cut to its end, and the server tracks the file, under its
      digest already or with a working copy that has it at the first end. */
  ghost predicate UpdateWorks(h: Hash, s: State, path: Path, file: Bytes) {
    var op := Op(Update, path, h(path, file));
    && SignFits(SignOf(op)) && GoodSize(|file|, MaxPayload(SignOf(op))) && path in s.entries
    && (s.entries[path].digest == op.digest ||
        var copy := CopyAtEnd(BytesAt(s, TempPath(path)), true, CutOf(op, file));
        copy.Some? && h(path, copy.value) == op.digest)
  }

  /** Whether a round can achieve the aim for a path, by the client's entry, the local file and the server
      before it. */
  ghost predicate Attainable(h: Hash, sys: System, local: Local, p: Path) {
    if p in local.files then
      if p in sys.client && sys.client[p].synced == Yes && sys.client[p].digest == h(p, local.files[p]) then true
      else if p in sys.client && (sys.client[p].synced == Yes || sys.client[p].onServer) then
        UpdateWorks(h, sys.server, p, local.files[p])
      else CreateWorks(h, sys.server, p, local.files[p])
    else if p in local.others then true
    else if p in sys.client && sys.client[p].onServer then
      HasDigest(sys.server, p, sys.client[p].digest) && SignFits(Signs.CreateSign(p, sys.client[p].digest))
    else p !in sys.server.entries
  }

  ghost predicate CanMirror(h: Hash, sys: System, local: Local) {
    forall p :: Attainable(h, sys, local, p)
  }

  // ---- One operation -----------------------------------------------------------------

  /** The operation fits what is local, and succeeds on this server. */
  ghost predicate Fits(h: Hash, op: Op, local: Local) {
    if op.kind == Erase then !Present(local, op.path)
    else op.path in local.files && op.digest == h(op.path, local.files[op.path])
  }

  ghost predicate OpWorks(h: Hash, s: State, op: Op, local: Local)
    requires Fits(h, op, local)
  {
    match op.kind
    case Create => CreateWorks(h, s, op.path, local.files[op.path])
    case Update => UpdateWorks(h, s, op.path, local.files[op.path])
    case Erase => HasDigest(s, op.path, op.digest) && SignFits(SignOf(op))
  }

  lemma {:induction false} SomeCopyAtEnd(have: Bytes, there: bool, cut: Cut)
    requires cut.complete && cut.payloads != []
    ensures CopyAtEnd(have, there, cut).Some?
    decreases |cut.payloads|
  {
    if |cut.payloads| > 1 {
      var now := if there then have + cut.payloads[0] else have;
      SomeCopyAtEnd(now, there, cut.(payloads := cut.payloads[1..]));
    }
  }

  lemma CreateSucceeds(h: Hash, s: State, op: Op, file: Bytes)
    requires op.kind == Create && op.digest == h(op.path, file) && SignFits(SignOf(op)) && !HasSynced(s, op.path)
    ensures Succeeds(Create, Serve(h, s, op, file).1) <==> CreateWorks(h, s, op.path, file)
  {
    ServeOutcome(h, s, op, file);
    CutCount(file, MaxPayload(SignOf(op)));
    CreateFinishes(h, s, op.path, op.digest, CutOf(op, file));
    hide Chunks, LooksFinished, CutFile;
  }

  lemma UpdateSucceeds(h: Hash, s: State, op: Op, file: Bytes)
    requires op.kind == Update && op.digest == h(op.path, file) && SignFits(SignOf(op)) && s.stream == Closed
    requires op.path in s.entries ==> op.path in s.disk
    ensures Succeeds(Update, Serve(h, s, op, file).1) <==> UpdateWorks(h, s, op.path, file)
  {
    var cut := CutOf(op, file);
    CutCount(file, MaxPayload(SignOf(op)));
    if cut.complete {
      CompleteHasPayload(file, MaxPayload(SignOf(op)));
      ChunksCount(h, s, op.path, op.digest, cut, true);
      UpdateOutcome(h, s, op.path, op.digest, cut);
      if op.path !in s.entries || s.entries[op.path].digest == op.digest {
        Effects.UpdateRefused(h, s, op.path, op.digest, cut);
      } else {
        UpdateFinishes(h, s, op.path, op.digest, cut);
        SomeCopyAtEnd(BytesAt(s, TempPath(op.path)), true, cut);
      }
    }
    hide Chunks, CopyAtEnd, CutFile;
  }

  // ---- The stream --------------------------------------------------------------------

  lemma {:induction false} CreateCloses(h: Hash, s: State, path: Path, digest: Bytes, cut: Cut)
    requires HasSynced(s, path) ==> s.stream == Closed
    ensures var r := Chunks(h, s, path, digest, cut, false).0; HasSynced(r, path) ==> r.stream == Closed
    decreases |cut.payloads|
  {
    hide CreateChunk;
    if cut.payloads != [] {
      var last := (cut.complete && |cut.payloads| == 1) || Tlvs.EndsLikeEnd(cut.payloads[0]);
      CreateChunkCloses(h, s, path, digest, cut.payloads[0], last);
      var s' := Chunk(h, s, path, digest, cut.payloads[0], last, false).0;
      CreateCloses(h, s', path, digest, cut.(payloads := cut.payloads[1..]));
    }
  }

  lemma CreateChunkCloses(h: Hash, s: State, path: Path, digest: Bytes, data: Bytes, last: bool)
    requires HasSynced(s, path) ==> s.stream == Closed
    ensures var r := CreateChunk(h, s, path, digest, data, last).0; HasSynced(r, path) ==> r.stream == Closed
  {
  }

  lemma {:induction false} UpdateCloses(h: Hash, s: State, path: Path, digest: Bytes, cut: Cut)
    requires HasDigest(s, path, digest) ==> s.stream == Closed
    ensures var r := Chunks(h, s, path, digest, cut, true).0; HasDigest(r, path, digest) ==> r.stream == Closed
    decreases |cut.payloads|
  {
    hide UpdateChunk;
    if cut.payloads != [] {
      var last := (cut.complete && |cut.payloads| == 1) || Tlvs.EndsLikeEnd(cut.payloads[0]);
      UpdateChunkCloses(h, s, path, digest, cut.payloads[0], last);
      var s' := Chunk(h, s, path, digest, cut.payloads[0], last, true).0;
      UpdateCloses(h, s', path, digest, cut.(payloads := cut.payloads[1..]));
    }
  }

  lemma UpdateChunkCloses(h: Hash, s: State, path: Path, digest: Bytes, data: Bytes, last: bool)
    requires HasDigest(s, path, digest) ==> s.stream == Closed
    ensures var r := UpdateChunk(h, s, path, digest, data, last).0; HasDigest(r, path, digest) ==> r.stream == Closed
  {
  }

  /** What serving an operation means for it: it succeeds exactly if it works; then the server has the
      digest, or the file no more, and no stream is open. */
  lemma ServedWorks(h: Hash, s: State, op: Op, local: Local)
    requires Fits(h, op, local) && SignFits(SignOf(op)) && s.stream == Closed
    requires op.kind == Create ==> !HasSynced(s, op.path)
    requires op.path in s.entries ==> op.path in s.disk
    ensures var (r, code) := Serve(h, s, op, ContentOf(local.files, op));
            && (Succeeds(op.kind, code) <==> OpWorks(h, s, op, local))
            && (OpWorks(h, s, op, local) ==>
                  && r.stream == Closed
                  && if op.kind == Erase then op.path !in r.entries else HasDigest(r, op.path, op.digest))
  {
    var content := ContentOf(local.files, op);
    ServeOutcome(h, s, op, content);
    match op.kind
    case Create =>
      CreateSucceeds(h, s, op, content);
      CreateCloses(h, s, op.path, op.digest, CutOf(op, content));
      CutCount(content, MaxPayload(SignOf(op)));
      hide Chunks, CutFile, LooksFinished;
    case Update =>
      UpdateSucceeds(h, s, op, content);
      UpdateCloses(h, s, op.path, op.digest, CutOf(op, content));
      hide Chunks, CutFile, CopyAtEnd;
    case Erase =>
  }

  // ---- Elsewhere ---------------------------------------------------------------------

  lemma {:induction false} ChunksLeave(h: Hash, s: State, path: Path, digest: Bytes, cut: Cut, update: bool, t: Path)
    requires s.stream == Closed || s.stream == Open(Target(path, update))
    requires t != path && t != Target(path, update)
    ensures var r := Chunks(h, s, path, digest, cut, update).0; SameFile(s, r, t)
    decreases |cut.payloads|
  {
    hide Chunk;
    if cut.payloads != [] {
      var last := (cut.complete && |cut.payloads| == 1) || Tlvs.EndsLikeEnd(cut.payloads[0]);
      ChunkTells(h, s, path, digest, cut.payloads[0], last, update);
      ChunkElsewhere(h, s, path, digest, cut.payloads[0], last, update, t);
      ChunksLeave(h, Chunk(h, s, path, digest, cut.payloads[0], last, update).0, path, digest,
                  cut.(payloads := cut.payloads[1..]), update, t);
    }
  }

  /** An operation leaves the files at other paths alone, but for its working copy. */
  lemma ServeLeaves(h: Hash, s: State, op: Op, content: Bytes, t: Path)
    requires SignFits(SignOf(op)) && s.stream == Closed && t != op.path && t != TempPath(op.path)
    ensures SameFile(s, Serve(h, s, op, content).0, t)
  {
    if op.kind != Erase {
      ChunksLeave(h, s, op.path, op.digest, CutOf(op, content), op.kind == Update, t);
    }
  }

  lemma OneWorkingCopy(a: Path, b: Path)
    ensures TempPath(a) == TempPath(b) <==> a == b
  {
    if TempPath(a) == TempPath(b) {
      assert |TempPath(a)| == |a| + 5 && |TempPath(b)| == |b| + 5;
      assert a == TempPath(a)[..|a|] && b == TempPath(b)[..|b|];
    }
  }

  /** Whether an operation works depends on the entry and the two files it is about only. */
  lemma SameWorks(h: Hash, s: State, r: State, op: Op, local: Local)
    requires Fits(h, op, local) && s.stream == Closed && r.stream == Closed
    requires SameEntry(s, r, op.path) && SameFile(s, r, op.path) && SameFile(s, r, TempPath(op.path))
    ensures OpWorks(h, r, op, local) <==> OpWorks(h, s, op, local)
  {
    assert BytesAt(r, op.path) == BytesAt(s, op.path) && BytesAt(r, TempPath(op.path)) == BytesAt(s, TempPath(op.path));
    assert GoesThere(r, op.path) && GoesThere(s, op.path);
    hide LooksFinished, CopyAtEnd, CutFile, TempPath, BytesAt;
  }

  // ---- All of them -------------------------------------------------------------------

  /** Everything on its way works, and the rest is as it should be. */
  ghost predicate OnTheWay(h: Hash, paths: set<Path>, sys: System, local: Local) {
    && Secure(h, paths, sys) && Agrees(sys) && sys.server.stream == Closed
    && (forall op | op in sys.pending ::
          Fits(h, op, local) && SignFits(SignOf(op)) && OpWorks(h, sys.server, op, local))
    && (forall p | Outstanding(sys.pending, p) == 0 :: MirroredAt(h, sys, local, p))
  }

  function Delivery(sys: System, local: Local, index: nat): Move
    requires index < |sys.pending|
  {
    Deliver(index, ContentOf(local.files, sys.pending[index]))
  }

  lemma DeliverIsSafe(h: Hash, paths: set<Path>, sys: System, local: Local, index: nat)
    requires OnTheWay(h, paths, sys, local) && NoWorkingCopies(paths) && index < |sys.pending|
    ensures var move := Delivery(sys, local, index);
            && Enabled(sys, move)
            && Agrees(Next(h, sys, move)) && Secure(h, paths, Next(h, sys, move))
  {
    var op, move := sys.pending[index], Delivery(sys, local, index);
    assert op in sys.pending;
    CutCount(move.content, MaxPayload(SignOf(op)));
    assert Enabled(sys, move) && Safe(h, sys, move);
    NextAgreesExactly(h, sys, move);
    AgreementIsHonest(sys, move);
    hide Agrees, Honest, Next, NoWorkingCopies, MirroredAt, OpWorks;
    NextKeepsSecure(h, paths, sys, move);
  }

  /** The server after the delivery, and whether it has been a success. */
  lemma DeliverIsServed(h: Hash, paths: set<Path>, sys: System, local: Local, index: nat)
    requires Secure(h, paths, sys) && Agrees(sys) && sys.server.stream == Closed && index < |sys.pending|
    requires Fits(h, sys.pending[index], local) && SignFits(SignOf(sys.pending[index]))
    ensures var op, move := sys.pending[index], Delivery(sys, local, index);
            && Enabled(sys, move)
            && (Achieves(h, sys, move) <==> OpWorks(h, sys.server, op, local))
            && var r := Next(h, sys, move).server;
            && r == Serve(h, sys.server, op, move.content).0
            && (OpWorks(h, sys.server, op, local) ==>
                  && r.stream == Closed
                  && if op.kind == Erase then op.path !in r.entries else HasDigest(r, op.path, op.digest))
  {
    var op := sys.pending[index];
    assert op in sys.pending;
    hide Serve, OpWorks;
    ServedWorks(h, sys.server, op, local);
  }

  /** After a delivery the aim is achieved for its path exactly if the operation has worked. */
  lemma DeliverMirrors(h: Hash, paths: set<Path>, sys: System, local: Local, index: nat)
    requires Secure(h, paths, sys) && Agrees(sys) && sys.server.stream == Closed && index < |sys.pending|
    requires Fits(h, sys.pending[index], local) && SignFits(SignOf(sys.pending[index]))
    ensures var op, move := sys.pending[index], Delivery(sys, local, index);
            && Enabled(sys, move)
            && (MirroredAt(h, Next(h, sys, move), local, op.path) <==> OpWorks(h, sys.server, op, local))
  {
    DeliverIsServed(h, paths, sys, local, index);
    hide Next, OpWorks, Secure, Achieves;
    SettledExactly(h, sys, Delivery(sys, local, index));
  }

  /** And for the other paths it stays as it was. */
  lemma DeliverElsewhere(h: Hash, sys: System, move: Move, p: Path)
    requires WaitingIsTrue(sys) && Enabled(sys, move) && move.Deliver? && p != sys.pending[move.index].path
    ensures var next := Next(h, sys, move);
            && (p in next.client <==> p in sys.client) && (p in sys.client ==> next.client[p] == sys.client[p])
            && SameEntry(sys.server, next.server, p)
            && Outstanding(next.pending, p) == Outstanding(sys.pending, p)
  {
    ServeElsewhere(h, sys.server, sys.pending[move.index], move.content);
    OutstandingRemove(sys.pending, move.index, p);
    hide Serve;
  }

  lemma OneOnItsWay(sys: System, index: nat, other: Op)
    requires WaitingIsTrue(sys) && index < |sys.pending| && other in Remove(sys.pending, index)
    ensures other in sys.pending && other.path != sys.pending[index].path
  {
    OutstandingIsSome(Remove(sys.pending, index), other);
    OutstandingRemove(sys.pending, index, other.path);
  }

  lemma OthersStillWork(h: Hash, paths: set<Path>, sys: System, local: Local, index: nat, other: Op)
    requires OnTheWay(h, paths, sys, local) && NoWorkingCopies(paths) && index < |sys.pending|
    requires other in Remove(sys.pending, index)
    ensures var move := Delivery(sys, local, index);
            && Enabled(sys, move)
            && Fits(h, other, local) && SignFits(SignOf(other))
            && OpWorks(h, Next(h, sys, move).server, other, local)
  {
    var op, move := sys.pending[index], Delivery(sys, local, index);
    assert op in sys.pending;
    OneOnItsWay(sys, index, other);
    DeliverIsServed(h, paths, sys, local, index);
    assert op.path in paths && other.path in paths;
    OneWorkingCopy(op.path, other.path);
    DeliverElsewhere(h, sys, move, other.path);
    ServeLeaves(h, sys.server, op, move.content, other.path);
    ServeLeaves(h, sys.server, op, move.content, TempPath(other.path));
    hide Next, OpWorks, Serve, Agrees, MirroredAt, SameEntry, SameFile, TempPath;
    SameWorks(h, sys.server, Next(h, sys, move).server, other, local);
  }

  lemma DeliverOne(h: Hash, paths: set<Path>, sys: System, local: Local, index: nat)
    requires OnTheWay(h, paths, sys, local) && NoWorkingCopies(paths) && index < |sys.pending|
    ensures var move := Delivery(sys, local, index);
            Enabled(sys, move) && OnTheWay(h, paths, Next(h, sys, move), local)
  {
    var op, move := sys.pending[index], Delivery(sys, local, index);
    assert op in sys.pending;
    DeliverIsSafe(h, paths, sys, local, index);
    DeliverIsServed(h, paths, sys, local, index);
    DeliverMirrors(h, paths, sys, local, index);
    var next := Next(h, sys, move);
    assert next.pending == Remove(sys.pending, index);
    hide Next, OpWorks, Fits, SignFits, Serve, Agrees, Secure, NoWorkingCopies;
    forall other | other in next.pending
      ensures Fits(h, other, local) && SignFits(SignOf(other)) && OpWorks(h, next.server, other, local)
    {
      OthersStillWork(h, paths, sys, local, index, other);
    }
    forall p | Outstanding(next.pending, p) == 0 ensures MirroredAt(h, next, local, p) {
      if p != op.path {
        AgreesWaits(sys);
        DeliverElsewhere(h, sys, move, p);
      }
    }
  }

  lemma AgreesWaits(sys: System)
    requires Agrees(sys)
    ensures WaitingIsTrue(sys)
  {
  }

  lemma {:induction false} DeliverAll(h: Hash, paths: set<Path>, sys: System, local: Local, moves: seq<Move>)
    requires OnTheWay(h, paths, sys, local) && NoWorkingCopies(paths) && Deliveries(h, sys, local.files, moves)
    ensures Possible(h, sys, moves) && OnTheWay(h, paths, After(h, sys, moves), local)
    ensures Mirrors(h, After(h, sys, moves), local)
    decreases |moves|
  {
    hide Next, NoWorkingCopies, MirroredAt;
    if moves == [] {
      assert forall p :: Outstanding(sys.pending, p) == 0;
    } else {
      hide OnTheWay, Mirrors;
      DeliverOne(h, paths, sys, local, moves[0].index);
      DeliverAll(h, paths, Next(h, sys, moves[0]), local, moves[1..]);
    }
  }

  // ---- A round -----------------------------------------------------------------------

  /** The operations a round wants are those that work, wherever the aim is attainable. */
  lemma WantedWorks(h: Hash, sys: System, local: Local, op: Op)
    requires Wanted(h, sys.client, local, op.path) == Some(op)
    ensures Fits(h, op, local)
    ensures Attainable(h, sys, local, op.path) <==> OpWorks(h, sys.server, op, local)
  {
    hide CreateWorks, UpdateWorks;
  }

  /** Where nothing is wanted, the aim is achieved if it is attainable. */
  lemma UnwantedIsMirrored(h: Hash, sys: System, local: Local, p: Path)
    requires Trusted(sys) && !IsWaiting(sys.client, p) && Wanted(h, sys.client, local, p).None?
    ensures Attainable(h, sys, local, p) <==> MirroredAt(h, sys, local, p)
  {
    hide CreateWorks, UpdateWorks, WaitingIsTrue;
  }

  lemma NothingWaits(sys: System, p: Path)
    requires Trusted(sys) && sys.pending == []
    ensures !IsWaiting(sys.client, p)
  {
    assert Outstanding(sys.pending, p) == 0;
  }

  /** The moves of the watcher are safe and honest. */
  lemma {:induction false} LookingIsFine(h: Hash, sys: System, moves: seq<Move>)
    requires Possible(h, sys, moves) && forall m | m in moves :: m.FindMissing? || m.FindFile?
    ensures AllSafe(h, sys, moves) && AllHonest(h, sys, moves)
    decreases |moves|
  {
    if moves != [] {
      assert moves[0] in moves;
      LookingIsFine(h, Next(h, sys, moves[0]), moves[1..]);
    }
  }

  lemma {:induction false} MissingMovesLook(local: Local, known: seq<Path>)
    ensures forall m | m in MissingMoves(local, known) :: m.FindMissing? && m.path in known
  {
    if known != [] {
      MissingMovesLook(local, known[1..]);
    }
  }

  lemma {:induction false} FileMovesLook(h: Hash, files: map<Path, Bytes>, walk: seq<Path>)
    ensures forall m | m in FileMoves(h, files, walk) :: m.FindFile? && m.path in files
  {
    if walk != [] {
      FileMovesLook(h, files, walk[1..]);
    }
  }

  /** A round keeps the agreement and what it is worth. */
  lemma RoundIsSafe(h: Hash, paths: set<Path>, sys: System, local: Local, known: seq<Path>, walk: seq<Path>)
    requires Secure(h, paths, sys) && Agrees(sys) && NoWorkingCopies(paths)
    requires sys.client.Keys + local.files.Keys <= paths
    requires Knows(known, sys.client) && Walks(walk, local.files)
    ensures var next := Scheduled(sys, Round(h, sys.client, local, known, walk));
            Agrees(next) && Secure(h, paths, next)
  {
    var moves := MissingMoves(local, known) + FileMoves(h, local.files, walk);
    ScanIsMoves(h, sys, local, known, walk);
    MissingMovesLook(local, known);
    FileMovesLook(h, local.files, walk);
    forall m | m in moves ensures (m.FindMissing? || m.FindFile?) && MoveWithin(paths, m) {
    }
    hide Agrees, Secure, Possible, After, AllSafe, AllHonest, Scheduled, Round, MissingMoves, FileMoves;
    hide NoWorkingCopies;
    LookingIsFine(h, sys, moves);
    AlwaysAgreeExactly(h, sys, moves);
    SyncedMeansBackedUp(h, paths, sys, moves);
  }

  /** The entry of a path after the scheduling. */
  lemma ScheduledOrNot(sys: System, ops: seq<Op>, p: Path)
    requires OnePerPath(ops) && forall op | op in ops :: op.path != p
    ensures var next := Scheduled(sys, ops);
            (p in next.client <==> p in sys.client) && (p in sys.client ==> next.client[p] == sys.client[p])
  {
    ScheduledElsewhere(sys.client, ops, p);
  }

  lemma MirrorsTheSame(h: Hash, a: System, b: System, local: Local, p: Path)
    requires SameEntry(a.server, b.server, p)
    requires (p in b.client <==> p in a.client) && (p in a.client ==> b.client[p] == a.client[p])
    ensures MirroredAt(h, b, local, p) <==> MirroredAt(h, a, local, p)
  {
  }

  lemma RoundIsOnItsWay(h: Hash, paths: set<Path>, sys: System, local: Local, known: seq<Path>, walk: seq<Path>)
    requires Secure(h, paths, sys) && Agrees(sys) && NoWorkingCopies(paths) && sys.pending == []
    requires sys.client.Keys + local.files.Keys <= paths && sys.server.stream == Closed
    requires Knows(known, sys.client) && Walks(walk, local.files) && CanMirror(h, sys, local)
    ensures OnTheWay(h, paths, Scheduled(sys, Round(h, sys.client, local, known, walk)), local)
  {
    var ops := Round(h, sys.client, local, known, walk);
    var next := Scheduled(sys, ops);
    RoundIsSafe(h, paths, sys, local, known, walk);
    RoundExact(h, sys.client, local, known, walk);
    assert next.pending == ops && next.server == sys.server;
    hide Agrees, Secure, Round, Knows, Walks, Scheduled, Attainable, OpWorks, MirroredAt, NoWorkingCopies, Wanted;
    hide OnePerPath;
    forall op | op in ops
      ensures Fits(h, op, local) && SignFits(SignOf(op)) && OpWorks(h, next.server, op, local)
    {
      WantedWorks(h, sys, local, op);
      WorksFits(h, sys.server, op, local);
    }
    forall p | Outstanding(ops, p) == 0 ensures MirroredAt(h, next, local, p) {
      NothingOutstanding(h, sys, local, ops, p);
    }
    hide Fits;
  }

  lemma WorksFits(h: Hash, s: State, op: Op, local: Local)
    requires Fits(h, op, local) && OpWorks(h, s, op, local)
    ensures SignFits(SignOf(op))
  {
  }

  lemma NothingOutstanding(h: Hash, sys: System, local: Local, ops: seq<Op>, p: Path)
    requires Agrees(sys) && sys.pending == [] && OnePerPath(ops) && Attainable(h, sys, local, p)
    requires forall op :: op in ops <==> Wanted(h, sys.client, local, op.path) == Some(op)
    requires Outstanding(ops, p) == 0
    ensures MirroredAt(h, Scheduled(sys, ops), local, p)
  {
    forall op | op in ops ensures op.path != p {
      OutstandingIsSome(ops, op);
    }
    WantedIsFor(h, sys.client, local, p);
    NothingWaits(sys, p);
    UnwantedIsMirrored(h, sys, local, p);
    ScheduledOrNot(sys, ops, p);
    hide Wanted, Attainable, Agrees, MirroredAt;
    MirrorsTheSame(h, sys, Scheduled(sys, ops), local, p);
  }

  lemma WantedIsFor(h: Hash, dir: Directory, local: Local, p: Path)
    ensures Wanted(h, dir, local, p).Some? ==> Wanted(h, dir, local, p).value.path == p
  {
  }

  // ---- The condition is necessary ----------------------------------------------------

  /** The deliveries in the order of the operations. */
  lemma {:induction false} SomeDeliveries(h: Hash, sys: System, files: map<Path, Bytes>) returns (moves: seq<Move>)
    requires WaitingIsTrue(sys) && AllSignsFit(sys.pending)
    ensures Deliveries(h, sys, files, moves)
    decreases |sys.pending|
  {
    if sys.pending == [] {
      moves := [];
    } else {
      var op := sys.pending[0];
      var move := Deliver(0, ContentOf(files, op));
      assert op in sys.pending;
      var code := Serve(h, sys.server, op, move.content).1;
      SettleKeepsWaiting(sys, 0, Succeeds(op.kind, code), Serve(h, sys.server, op, move.content).0);
      assert Next(h, sys, move).pending == sys.pending[1..];
      hide Serve, WaitingIsTrue;
      var later := SomeDeliveries(h, Next(h, sys, move), files);
      moves := [move] + later;
      assert moves[1..] == later;
    }
  }

  lemma {:induction false} LaterDeliveries(h: Hash, sys: System, local: Local, moves: seq<Move>, p: Path)
    requires WaitingIsTrue(sys) && Outstanding(sys.pending, p) == 0 && Deliveries(h, sys, local.files, moves)
    ensures Possible(h, sys, moves)
    ensures MirroredAt(h, After(h, sys, moves), local, p) <==> MirroredAt(h, sys, local, p)
    decreases |moves|
  {
    if moves != [] {
      var op, next := sys.pending[moves[0].index], Next(h, sys, moves[0]);
      OutstandingIsSome(sys.pending, op);
      DeliverElsewhere(h, sys, moves[0], p);
      var (server, code) := Serve(h, sys.server, op, moves[0].content);
      SettleKeepsWaiting(sys, moves[0].index, Succeeds(op.kind, code), server);
      hide Serve, Settle, WaitingIsTrue, MirroredAt, SameEntry;
      MirrorsTheSame(h, sys, next, local, p);
      LaterDeliveries(h, next, local, moves[1..], p);
    }
  }

  lemma AfterDelivery(h: Hash, sys: System, local: Local, index: nat)
    requires WaitingIsTrue(sys) && AllSignsFit(sys.pending) && index < |sys.pending|
    ensures var op, move := sys.pending[index], Delivery(sys, local, index);
            && Enabled(sys, move)
            && var next := Next(h, sys, move);
            WaitingIsTrue(next) && AllSignsFit(next.pending) && Outstanding(next.pending, op.path) == 0
  {
    var op, move := sys.pending[index], Delivery(sys, local, index);
    assert op in sys.pending;
    var (server, code) := Serve(h, sys.server, op, move.content);
    SettleKeepsWaiting(sys, index, Succeeds(op.kind, code), server);
    OutstandingRemove(sys.pending, index, op.path);
    assert Outstanding(sys.pending, op.path) <= 1;
    assert forall x | x in Remove(sys.pending, index) :: x in sys.pending;
    hide Serve, Settle, WaitingIsTrue, SignFits;
  }

  /** What deliveries leave for a path that is delivered first. */
  lemma FirstMirrors(h: Hash, sys: System, local: Local, move: Move, later: seq<Move>, p: Path)
    requires EveryDeliveryMirrors(h, sys, local) && move.Deliver? && Enabled(sys, move)
    requires move.content == ContentOf(local.files, sys.pending[move.index])
    requires Deliveries(h, Next(h, sys, move), local.files, later) && WaitingIsTrue(Next(h, sys, move))
    requires Outstanding(Next(h, sys, move).pending, p) == 0
    ensures MirroredAt(h, Next(h, sys, move), local, p)
  {
    hide Next, Enabled, WaitingIsTrue, MirroredAt, Outstanding, AllSignsFit;
    var moves := [move] + later;
    assert moves[0] == move && moves[1..] == later;
    assert Deliveries(h, sys, local.files, moves);
    LaterDeliveries(h, Next(h, sys, move), local, later, p);
    assert After(h, sys, moves) == After(h, Next(h, sys, move), later);
  }

  /** An operation on its way that does not work is one order too many: the one that begins with it. */
  lemma FirstDelivery(h: Hash, paths: set<Path>, sys: System, local: Local, op: Op)
    requires Secure(h, paths, sys) && Agrees(sys) && sys.server.stream == Closed && op in sys.pending
    requires Fits(h, op, local) && EveryDeliveryMirrors(h, sys, local)
    ensures OpWorks(h, sys.server, op, local)
  {
    var index :| 0 <= index < |sys.pending| && sys.pending[index] == op;
    DeliverMirrors(h, paths, sys, local, index);
    AgreesWaits(sys);
    AfterDelivery(h, sys, local, index);
    var move := Delivery(sys, local, index);
    hide Next, Agrees, Secure, MirroredAt, OpWorks, Fits, WaitingIsTrue, SignFits, Outstanding, EveryDeliveryMirrors;
    var later := SomeDeliveries(h, Next(h, sys, move), local.files);
    FirstMirrors(h, sys, local, move, later, op.path);
  }

  lemma UnwantedStays(h: Hash, sys: System, local: Local, p: Path)
    requires WaitingIsTrue(sys) && Outstanding(sys.pending, p) == 0 && EveryDeliveryMirrors(h, sys, local)
    ensures MirroredAt(h, sys, local, p)
  {
    hide MirroredAt, WaitingIsTrue;
    var moves := SomeDeliveries(h, sys, local.files);
    LaterDeliveries(h, sys, local, moves, p);
  }

  lemma RoundNeeds(h: Hash, paths: set<Path>, sys: System, local: Local, known: seq<Path>, walk: seq<Path>, p: Path)
    requires Secure(h, paths, sys) && Agrees(sys) && NoWorkingCopies(paths) && sys.pending == []
    requires sys.client.Keys + local.files.Keys <= paths && sys.server.stream == Closed
    requires Knows(known, sys.client) && Walks(walk, local.files)
    requires EveryDeliveryMirrors(h, Scheduled(sys, Round(h, sys.client, local, known, walk)), local)
    ensures Attainable(h, sys, local, p)
  {
    var ops := Round(h, sys.client, local, known, walk);
    var next := Scheduled(sys, ops);
    RoundIsSafe(h, paths, sys, local, known, walk);
    RoundExact(h, sys.client, local, known, walk);
    WantedIsFor(h, sys.client, local, p);
    assert next.pending == ops && next.server == sys.server;
    hide Agrees, Secure, Round, Knows, Walks, Attainable, OpWorks, MirroredAt, NoWorkingCopies, Wanted;
    hide EveryDeliveryMirrors;
    var want := Wanted(h, sys.client, local, p);
    if want.Some? {
      WantedWorks(h, sys, local, want.value);
      FirstDelivery(h, paths, next, local, want.value);
    } else {
      NoneOutstanding(ops, p);
      ScheduledOrNot(sys, ops, p);
      AgreesWaits(next);
      UnwantedStays(h, next, local, p);
      MirrorsTheSame(h, sys, next, local, p);
      AgreesTrusts(sys);
      NothingWaits(sys, p);
      UnwantedIsMirrored(h, sys, local, p);
    }
  }

  lemma AgreesTrusts(sys: System)
    requires Agrees(sys)
    ensures Trusted(sys)
  {
  }

  lemma {:induction false} NoneOutstanding(ops: seq<Op>, p: Path)
    requires forall op | op in ops :: op.path != p
    ensures Outstanding(ops, p) == 0
  {
    if ops != [] {
      assert ops[0] in ops;
      NoneOutstanding(ops[1..], p);
    }
  }

  // ---- The main results --------------------------------------------------------------

  /** A round of the watcher makes the server mirror the client, in whatever order its operations are
      delivered, if and only if the aim is attainable for every path. */
  lemma RoundMirrorsExactly(h: Hash, paths: set<Path>, sys: System, local: Local, known: seq<Path>, walk: seq<Path>)
    requires Secure(h, paths, sys) && Agrees(sys) && NoWorkingCopies(paths) && sys.pending == []
    requires sys.client.Keys + local.files.Keys <= paths && sys.server.stream == Closed
    requires Knows(known, sys.client) && Walks(walk, local.files)
    ensures EveryDeliveryMirrors(h, Scheduled(sys, Round(h, sys.client, local, known, walk)), local) <==>
            CanMirror(h, sys, local)
  {
    var next := Scheduled(sys, Round(h, sys.client, local, known, walk));
    if CanMirror(h, sys, local) {
      RoundIsOnItsWay(h, paths, sys, local, known, walk);
      hide Secure, Agrees, Round, Knows, Walks, CanMirror, Mirrors, NoWorkingCopies, MirroredAt, OpWorks;
      forall moves | Deliveries(h, next, local.files, moves)
        ensures Possible(h, next, moves) && Mirrors(h, After(h, next, moves), local)
      {
        DeliverAll(h, paths, next, local, moves);
      }
    } else if EveryDeliveryMirrors(h, next, local) {
      hide Secure, Agrees, Round, Knows, Walks, EveryDeliveryMirrors, NoWorkingCopies, Attainable;
      forall p ensures Attainable(h, sys, local, p) {
        RoundNeeds(h, paths, sys, local, known, walk, p);
      }
    }
  }

  lemma MirroredWantsNothing(h: Hash, sys: System, local: Local, op: Op)
    requires MirroredAt(h, sys, local, op.path)
    ensures Wanted(h, sys.client, local, op.path) != Some(op)
  {
  }

  /** Where the server mirrors the client the next round wants nothing. */
  lemma MirroredIsQuiet(h: Hash, sys: System, local: Local, known: seq<Path>, walk: seq<Path>)
    requires Mirrors(h, sys, local) && Knows(known, sys.client) && Walks(walk, local.files)
    ensures Round(h, sys.client, local, known, walk) == []
  {
    RoundExact(h, sys.client, local, known, walk);
    hide Round, Wanted, MirroredAt;
    forall op ensures op !in Round(h, sys.client, local, known, walk) {
      MirroredWantsNothing(h, sys, local, op);
    }
    if Round(h, sys.client, local, known, walk) != [] {
      SomeOp(Round(h, sys.client, local, known, walk));
    }
  }

  lemma SomeOp(ops: seq<Op>)
    requires ops != []
    ensures exists op :: op in ops
  {
    assert ops[0] in ops;
  }
}
