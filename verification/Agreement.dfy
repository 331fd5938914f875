/** The client and the server together: what the client believes of a file is true of the server
    in every state they can reach. */
module Agreement {
  import opened Protocol
  import Tlvs
  import opened FileMessages
  import opened Server
  import opened Sessions
  import opened Uploads
  import opened Client
  import opened Operations

  /** The client's directory, the server, and the operations on their way. */
  datatype System = System(client: Directory, server: State, pending: seq<Op>)

  /** What can happen: the watcher finds a known file missing, or meets a file; the server serves
      an operation, with the content its file has by then, and the client gets all its replies; the
      server serves the first requests of one and the client does not get the reply to the last of
      them, so that no more are sent; an operation is lost before the server. Files change between
      moves at will. */
  datatype Move =
    | FindMissing(path: Path)
    | FindFile(path: Path, digest: Digest)
    | Deliver(index: nat, content: Bytes)
    | Lose(index: nat, content: Bytes, sent: nat)
    | Drop(index: nat)

  function Remove(ops: seq<Op>, index: nat): seq<Op>
    requires index < |ops|
  {
    ops[..index] + ops[index + 1..]
  }

  /** The watcher's choice takes effect at once: the entry is noted, the operation is on its way. */
  function Issue(sys: System, op: Option<Op>): System {
    if op.None? then sys
    else sys.(client := Schedule(sys.client, op.value), pending := sys.pending + [op.value])
  }

  predicate Enabled(sys: System, move: Move) {
    match move
    case FindMissing(_) => true
    case FindFile(_, _) => true
    case Deliver(i, content) =>
      i < |sys.pending| && SignFits(SignOf(sys.pending[i])) && sys.pending[i].path in sys.client
    case Lose(i, content, sent) =>
      && i < |sys.pending| && SignFits(SignOf(sys.pending[i])) && sys.pending[i].path in sys.client
      && sent <= RequestCount(sys.pending[i], content)
    case Drop(i) => i < |sys.pending| && sys.pending[i].path in sys.client
  }

  function Next(h: Hash, sys: System, move: Move): System
    requires Enabled(sys, move)
  {
    match move
    case FindMissing(path) => Issue(sys, OnMissing(sys.client, path))
    case FindFile(path, digest) => Issue(sys, OnFile(sys.client, path, digest))
    case Deliver(i, content) =>
      var op := sys.pending[i];
      var (server, code) := Serve(h, sys.server, op, content);
      System(Settle(sys.client, op, Succeeds(op.kind, code)), server, Remove(sys.pending, i))
    case Lose(i, content, sent) =>
      var op := sys.pending[i];
      System(Settle(sys.client, op, false), ServePart(h, sys.server, op, content, sent), Remove(sys.pending, i))
    case Drop(i) =>
      System(Settle(sys.client, sys.pending[i], false), sys.server, Remove(sys.pending, i))
  }

  // ---- The invariant -----------------------------------------------------------------

  function Outstanding(ops: seq<Op>, path: Path): nat {
    if ops == [] then 0 else (if ops[0].path == path then 1 else 0) + Outstanding(ops[1..], path)
  }

  /** What the client takes for synced the server has, under the same digest. */
  ghost predicate SyncedIsTrue(sys: System) {
    forall p | p in sys.client && sys.client[p].synced == Yes :: HasDigest(sys.server, p, sys.client[p].digest)
  }

  /** What the client takes for absent the server has no synced file for. */
  ghost predicate AbsentIsTrue(sys: System) {
    forall p | p !in sys.client || !sys.client[p].onServer :: !HasSynced(sys.server, p)
  }

  predicate IsWaiting(dir: Directory, path: Path) {
    path in dir && dir[path].synced == Waiting
  }

  /** An operation is on its way for exactly the entries that wait, one for each, and it is the
      one the entry was noted for. */
  ghost predicate WaitingIsTrue(sys: System) {
    && (forall p :: Outstanding(sys.pending, p) == if IsWaiting(sys.client, p) then 1 else 0)
    && (forall op | op in sys.pending ::
          op.path in sys.client && sys.client[op.path] == Resource(Waiting, op.kind != Create, op.digest))
  }

  /** The client is right about what is synced, and waits for exactly what is on its way. */
  ghost predicate Trusted(sys: System) {
    SyncedIsTrue(sys) && WaitingIsTrue(sys)
  }

  /** And it is right about what is absent. */
  ghost predicate Agrees(sys: System) {
    Trusted(sys) && AbsentIsTrue(sys)
  }

  // ---- Which moves keep it -----------------------------------------------------------

  /** The create looks finished on the server when these of its chunks have arrived. */
  function FinishesOn(h: Hash, s: State, op: Op, cut: Cut): bool {
    LooksFinished(h, op.path, op.digest, BytesAt(s, op.path), GoesThere(s, op.path), cut)
  }

  /** The moves that keep the client right about what is synced: all but the complete create of a
      file the server has synced under another digest already. */
  predicate Honest(sys: System, move: Move)
    requires Enabled(sys, move)
  {
    match move
    case Deliver(i, content) =>
      var op := sys.pending[i];
      op.kind == Create && HasSynced(sys.server, op.path) && CutOf(op, content).complete ==>
        HasDigest(sys.server, op.path, op.digest)
    case _ => true
  }

  /** The moves that keep client and server in agreement: all but a create that looks finished to the
      server and not to the client, because its last reply is lost or it breaks off. */
  predicate Safe(h: Hash, sys: System, move: Move)
    requires Enabled(sys, move)
  {
    match move
    case Deliver(i, content) =>
      var op := sys.pending[i];
      op.kind == Create && !CutOf(op, content).complete ==> !FinishesOn(h, sys.server, op, CutOf(op, content))
    case Lose(i, content, sent) =>
      var op := sys.pending[i];
      op.kind == Create ==> !FinishesOn(h, sys.server, op, Part(CutOf(op, content), sent))
    case _ => true
  }

  lemma {:induction false} OutstandingConcat(a: seq<Op>, b: seq<Op>, path: Path)
    ensures Outstanding(a + b, path) == Outstanding(a, path) + Outstanding(b, path)
  {
    if a == [] {
      assert a + b == b;
    } else {
      assert (a + b)[1..] == a[1..] + b;
      OutstandingConcat(a[1..], b, path);
    }
  }

  lemma OutstandingRemove(ops: seq<Op>, index: nat, path: Path)
    requires index < |ops|
    ensures Outstanding(Remove(ops, index), path) + (if ops[index].path == path then 1 else 0) == Outstanding(ops, path)
  {
    assert ops == ops[..index] + ([ops[index]] + ops[index + 1..]);
    OutstandingConcat(ops[..index], [ops[index]] + ops[index + 1..], path);
    OutstandingConcat([ops[index]], ops[index + 1..], path);
    OutstandingConcat(ops[..index], ops[index + 1..], path);
  }

  lemma {:induction false} OutstandingIsSome(ops: seq<Op>, op: Op)
    requires op in ops
    ensures Outstanding(ops, op.path) >= 1
  {
    if ops[0] != op {
      OutstandingIsSome(ops[1..], op);
    }
  }

  lemma IssueKeepsWaiting(sys: System, op: Op)
    requires WaitingIsTrue(sys) && !IsWaiting(sys.client, op.path)
    ensures WaitingIsTrue(Issue(sys, Some(op)))
  {
    var next := Issue(sys, Some(op));
    forall p ensures Outstanding(next.pending, p) == if IsWaiting(next.client, p) then 1 else 0 {
      OutstandingConcat(sys.pending, [op], p);
    }
    forall o | o in next.pending
      ensures o.path in next.client && next.client[o.path] == Resource(Waiting, o.kind != Create, o.digest)
    {
      if o in sys.pending {
        OutstandingIsSome(sys.pending, o);
      }
    }
  }

  lemma IssueKeepsTrust(sys: System, op: Op)
    requires Trusted(sys) && !IsWaiting(sys.client, op.path)
    ensures Trusted(Issue(sys, Some(op)))
  {
    IssueKeepsWaiting(sys, op);
  }

  lemma IssueKeepsAgreement(sys: System, op: Op)
    requires Agrees(sys) && !IsWaiting(sys.client, op.path)
    requires op.kind == Create ==> op.path !in sys.client || !sys.client[op.path].onServer
    ensures Agrees(Issue(sys, Some(op)))
  {
    IssueKeepsTrust(sys, op);
  }

  lemma SettleKeepsWaiting(sys: System, index: nat, accepted: bool, server: State)
    requires WaitingIsTrue(sys) && index < |sys.pending|
    ensures sys.pending[index].path in sys.client
    ensures WaitingIsTrue(System(Settle(sys.client, sys.pending[index], accepted), server, Remove(sys.pending, index)))
  {
    var op := sys.pending[index];
    assert op in sys.pending;
    var next := System(Settle(sys.client, op, accepted), server, Remove(sys.pending, index));
    forall p ensures Outstanding(next.pending, p) == if IsWaiting(next.client, p) then 1 else 0 {
      OutstandingRemove(sys.pending, index, p);
    }
    forall o | o in next.pending
      ensures o.path in next.client && next.client[o.path] == Resource(Waiting, o.kind != Create, o.digest)
    {
      assert o in sys.pending;
      OutstandingIsSome(next.pending, o);
      OutstandingRemove(sys.pending, index, o.path);
    }
  }

  /** Two servers have the same entries but for one path. */
  ghost predicate SameElsewhere(s: State, r: State, path: Path) {
    forall p | p != path :: (p in r.entries <==> p in s.entries) && (p in s.entries ==> r.entries[p] == s.entries[p])
  }

  /** Settling an operation the server has acted on keeps what is synced true exactly if a success
      means that the server has the digest. */
  lemma SettleTrusts(sys: System, index: nat, accepted: bool, server: State)
    requires Trusted(sys) && index < |sys.pending| && SameElsewhere(sys.server, server, sys.pending[index].path)
    ensures sys.pending[index].path in sys.client
    ensures var op := sys.pending[index];
            Trusted(System(Settle(sys.client, op, accepted), server, Remove(sys.pending, index))) <==>
            (accepted && op.kind != Erase ==> HasDigest(server, op.path, op.digest))
  {
    SettleKeepsWaiting(sys, index, accepted, server);
    var op := sys.pending[index];
    assert op in sys.pending;
    var next := System(Settle(sys.client, op, accepted), server, Remove(sys.pending, index));
    assert forall p | p in next.client && p != op.path :: p in sys.client && next.client[p] == sys.client[p];
    if accepted && op.kind != Erase {
      assert next.client[op.path].synced == Yes && next.client[op.path].digest == op.digest;
    }
  }

  /** And it keeps client and server in agreement exactly if moreover the server has no synced file
      that a create was not credited with. */
  lemma SettleAgrees(sys: System, index: nat, accepted: bool, server: State)
    requires Agrees(sys) && index < |sys.pending| && SameElsewhere(sys.server, server, sys.pending[index].path)
    requires accepted && sys.pending[index].kind == Erase ==> sys.pending[index].path !in server.entries
    requires accepted && sys.pending[index].kind != Erase ==>
               HasDigest(server, sys.pending[index].path, sys.pending[index].digest)
    ensures sys.pending[index].path in sys.client
    ensures var op := sys.pending[index];
            Agrees(System(Settle(sys.client, op, accepted), server, Remove(sys.pending, index))) <==>
            !(op.kind == Create && !accepted && HasSynced(server, op.path))
  {
    SettleTrusts(sys, index, accepted, server);
    var op := sys.pending[index];
    assert op in sys.pending;
    var next := System(Settle(sys.client, op, accepted), server, Remove(sys.pending, index));
    assert forall p | p != op.path :: HasSynced(server, p) <==> HasSynced(sys.server, p);
    assert forall p | p != op.path ::
      (p in next.client <==> p in sys.client) && (p in sys.client ==> next.client[p] == sys.client[p]);
  }

  lemma PartElsewhere(h: Hash, s: State, op: Op, content: Bytes, sent: nat)
    requires SignFits(SignOf(op)) && sent <= RequestCount(op, content)
    ensures SameElsewhere(s, ServePart(h, s, op, content, sent), op.path)
  {
    hide ServePart;
    forall p | p != op.path
      ensures var r := ServePart(h, s, op, content, sent);
              (p in r.entries <==> p in s.entries) && (p in s.entries ==> r.entries[p] == s.entries[p])
    {
      ServeFrame(h, s, op, content, sent, p);
    }
  }

  lemma ServeElsewhere(h: Hash, s: State, op: Op, content: Bytes)
    requires SignFits(SignOf(op))
    ensures SameElsewhere(s, Serve(h, s, op, content).0, op.path)
  {
    PartElsewhere(h, s, op, content, RequestCount(op, content));
    ServePartOfAll(h, s, op, content);
  }

  lemma DeliverTrusts(h: Hash, sys: System, move: Move)
    requires Trusted(sys) && move.Deliver? && Enabled(sys, move)
    ensures Trusted(Next(h, sys, move)) <==> Honest(sys, move)
  {
    var op, content := sys.pending[move.index], move.content;
    var (server, code) := Serve(h, sys.server, op, content);
    ServeElsewhere(h, sys.server, op, content);
    SettleTrusts(sys, move.index, Succeeds(op.kind, code), server);
    ServeOutcome(h, sys.server, op, content);
    if op.kind == Create && HasSynced(sys.server, op.path) {
      RepeatedCreate(h, sys.server, op, content);
    }
    hide Serve, Trusted, CutOf, SameElsewhere;
  }

  /** Exactly the honest moves keep the client right about what is synced, lost replies included. */
  lemma NextTrustsExactly(h: Hash, sys: System, move: Move)
    requires Trusted(sys) && Enabled(sys, move)
    ensures Trusted(Next(h, sys, move)) <==> Honest(sys, move)
  {
    match move
    case FindMissing(path) =>
      if OnMissing(sys.client, path).Some? {
        IssueKeepsTrust(sys, OnMissing(sys.client, path).value);
      }
    case FindFile(path, digest) =>
      if OnFile(sys.client, path, digest).Some? {
        IssueKeepsTrust(sys, OnFile(sys.client, path, digest).value);
      }
    case Deliver(_, _) =>
      DeliverTrusts(h, sys, move);
    case Lose(index, content, sent) =>
      PartElsewhere(h, sys.server, sys.pending[index], content, sent);
      SettleTrusts(sys, index, false, ServePart(h, sys.server, sys.pending[index], content, sent));
    case Drop(index) =>
      SettleTrusts(sys, index, false, sys.server);
  }

  lemma DeliverAgrees(h: Hash, sys: System, move: Move)
    requires Agrees(sys) && move.Deliver? && Enabled(sys, move)
    ensures Agrees(Next(h, sys, move)) <==> Safe(h, sys, move)
  {
    var op, content := sys.pending[move.index], move.content;
    assert op in sys.pending;
    var (server, code) := Serve(h, sys.server, op, content);
    ServeElsewhere(h, sys.server, op, content);
    ServeOutcome(h, sys.server, op, content);
    SettleAgrees(sys, move.index, Succeeds(op.kind, code), server);
    if op.kind == Create {
      CreateFinishes(h, sys.server, op.path, op.digest, CutOf(op, content));
    }
    hide Agrees, CutOf, SameElsewhere, LooksFinished, Chunks;
  }

  lemma LoseAgrees(h: Hash, sys: System, move: Move)
    requires Agrees(sys) && move.Lose? && Enabled(sys, move)
    ensures Agrees(Next(h, sys, move)) <==> Safe(h, sys, move)
  {
    var op, content := sys.pending[move.index], move.content;
    assert op in sys.pending;
    PartElsewhere(h, sys.server, op, content, move.sent);
    SettleAgrees(sys, move.index, false, ServePart(h, sys.server, op, content, move.sent));
    if op.kind == Create {
      CreateFinishes(h, sys.server, op.path, op.digest, Part(CutOf(op, content), move.sent));
    }
    hide Agrees, CutOf, SameElsewhere, LooksFinished, Chunks;
  }

  /** Exactly the safe moves keep client and server in agreement. */
  lemma NextAgreesExactly(h: Hash, sys: System, move: Move)
    requires Agrees(sys) && Enabled(sys, move)
    ensures Agrees(Next(h, sys, move)) <==> Safe(h, sys, move)
  {
    match move
    case FindMissing(path) =>
      if OnMissing(sys.client, path).Some? {
        IssueKeepsAgreement(sys, OnMissing(sys.client, path).value);
      }
    case FindFile(path, digest) =>
      if OnFile(sys.client, path, digest).Some? {
        IssueKeepsAgreement(sys, OnFile(sys.client, path, digest).value);
      }
    case Deliver(_, _) =>
      DeliverAgrees(h, sys, move);
    case Lose(_, _, _) =>
      LoseAgrees(h, sys, move);
    case Drop(index) =>
      SettleAgrees(sys, index, false, sys.server);
      assert sys.pending[index] in sys.pending;
  }

  /** In agreement every move is honest. */
  lemma AgreementIsHonest(sys: System, move: Move)
    requires Agrees(sys) && Enabled(sys, move)
    ensures Honest(sys, move)
  {
    if move.Deliver? {
      assert sys.pending[move.index] in sys.pending;
    }
  }

  /** A create may break off, and its replies may be lost, at any point before its final chunk, as long
      as nothing that has arrived ends like an END. */
  lemma BreakingOffIsSafe(h: Hash, sys: System, move: Move)
    requires (move.Deliver? || move.Lose?) && Enabled(sys, move)
    requires move.Deliver? ==> NoFalseEnd(CutOf(sys.pending[move.index], move.content))
    requires move.Lose? && sys.pending[move.index].kind == Create ==>
               var cut := CutOf(sys.pending[move.index], move.content);
               IsPart(cut, move.sent) && NoFalseEnd(Part(cut, move.sent))
    ensures Safe(h, sys, move)
  {
    var op := sys.pending[move.index];
    var cut := CutOf(op, move.content);
    var (have, there) := (BytesAt(sys.server, op.path), GoesThere(sys.server, op.path));
    if op.kind == Create && move.Lose? {
      UnfinishedPart(h, op.path, op.digest, have, there, Part(cut, move.sent));
    } else if op.kind == Create && !cut.complete {
      UnfinishedPart(h, op.path, op.digest, have, there, cut);
    }
  }

  /** But when all of an unchanged file has arrived and the last reply is lost, they disagree. */
  lemma LostReplyIsUnsafe(h: Hash, sys: System, index: nat, content: Bytes)
    requires index < |sys.pending| && sys.pending[index].kind == Create && SignFits(SignOf(sys.pending[index]))
    requires var op := sys.pending[index];
             && op.path in sys.client && op.digest == h(op.path, content)
             && Startable(sys.server, op.path, op.digest, false) && Uploadable(content, SignOf(op))
    ensures var move := Lose(index, content, RequestCount(sys.pending[index], content));
            Enabled(sys, move) && !Safe(h, sys, move)
  {
    var op := sys.pending[index];
    var cut := CutOf(op, content);
    ServeIsPut(h, sys.server, op, content);
    assert Part(cut, |cut.payloads|) == cut;
    CreateFinishes(h, sys.server, op.path, op.digest, cut);
  }

  // ---- Runs --------------------------------------------------------------------------

  /** The moves can be made one after the other. */
  ghost predicate Possible(h: Hash, sys: System, moves: seq<Move>)
    decreases |moves|
  {
    moves == [] || (Enabled(sys, moves[0]) && Possible(h, Next(h, sys, moves[0]), moves[1..]))
  }

  function After(h: Hash, sys: System, moves: seq<Move>): System
    requires Possible(h, sys, moves)
    decreases |moves|
  {
    if moves == [] then sys else After(h, Next(h, sys, moves[0]), moves[1..])
  }

  ghost predicate AllHonest(h: Hash, sys: System, moves: seq<Move>)
    requires Possible(h, sys, moves)
    decreases |moves|
  {
    moves == [] || (Honest(sys, moves[0]) && AllHonest(h, Next(h, sys, moves[0]), moves[1..]))
  }

  ghost predicate AllSafe(h: Hash, sys: System, moves: seq<Move>)
    requires Possible(h, sys, moves)
    decreases |moves|
  {
    moves == [] || (Safe(h, sys, moves[0]) && AllSafe(h, Next(h, sys, moves[0]), moves[1..]))
  }

  /** Client and server agree in every state of the run. */
  ghost predicate AlwaysAgree(h: Hash, sys: System, moves: seq<Move>)
    requires Possible(h, sys, moves)
    decreases |moves|
  {
    Agrees(sys) && (moves != [] ==> AlwaysAgree(h, Next(h, sys, moves[0]), moves[1..]))
  }

  /** The client is right about what is synced in every state of the run. */
  ghost predicate AlwaysTrusted(h: Hash, sys: System, moves: seq<Move>)
    requires Possible(h, sys, moves)
    decreases |moves|
  {
    Trusted(sys) && (moves != [] ==> AlwaysTrusted(h, Next(h, sys, moves[0]), moves[1..]))
  }

  /** From agreement, client and server agree throughout a run if and only if every move of it is
      safe. */
  lemma {:induction false} AlwaysAgreeExactly(h: Hash, sys: System, moves: seq<Move>)
    requires Agrees(sys) && Possible(h, sys, moves)
    ensures AlwaysAgree(h, sys, moves) <==> AllSafe(h, sys, moves)
    ensures AlwaysAgree(h, sys, moves) ==> Agrees(After(h, sys, moves)) && AllHonest(h, sys, moves)
    decreases |moves|
  {
    hide Agrees, Next, Safe, Honest;
    if moves != [] {
      NextAgreesExactly(h, sys, moves[0]);
      AgreementIsHonest(sys, moves[0]);
      if Safe(h, sys, moves[0]) {
        AlwaysAgreeExactly(h, Next(h, sys, moves[0]), moves[1..]);
      } else {
        NeverAgreed(h, Next(h, sys, moves[0]), moves[1..]);
      }
    }
  }

  lemma NeverAgreed(h: Hash, sys: System, moves: seq<Move>)
    requires Possible(h, sys, moves) && !Agrees(sys)
    ensures !AlwaysAgree(h, sys, moves)
  {
  }

  /** And the client is right about what is synced throughout a run if and only if every move of it is
      honest. */
  lemma {:induction false} AlwaysTrustedExactly(h: Hash, sys: System, moves: seq<Move>)
    requires Trusted(sys) && Possible(h, sys, moves)
    ensures AlwaysTrusted(h, sys, moves) <==> AllHonest(h, sys, moves)
    decreases |moves|
  {
    hide Trusted, Next, Honest;
    if moves != [] {
      NextTrustsExactly(h, sys, moves[0]);
      if Honest(sys, moves[0]) {
        AlwaysTrustedExactly(h, Next(h, sys, moves[0]), moves[1..]);
      }
    }
  }

  // ---- What agreement is worth -------------------------------------------------------

  /** Chunks of a file at one of the paths keep the server invariant. */
  lemma {:induction false} ChunksKeepInv(h: Hash, paths: set<Path>, s: State, path: Path, digest: Bytes, cut: Cut,
                                         update: bool)
    requires Inv(h, paths, s) && s.synced && NoWorkingCopies(paths) && path in paths
    ensures var r := Chunks(h, s, path, digest, cut, update).0; Inv(h, paths, r) && r.synced
    decreases |cut.payloads|
  {
    hide Inv;
    if cut.payloads != [] {
      var data, last := cut.payloads[0], (cut.complete && |cut.payloads| == 1) || Tlvs.EndsLikeEnd(cut.payloads[0]);
      var s' := Chunk(h, s, path, digest, data, last, update).0;
      if update {
        UpdateKeepsInv(h, paths, s, path, digest, data, last);
      } else {
        CreateKeepsInv(h, paths, s, path, digest, data, last);
      }
      ChunkKeepsPhase(h, s, path, digest, data, last, update);
      hide Chunk;
      ChunksKeepInv(h, paths, s', path, digest, cut.(payloads := cut.payloads[1..]), update);
    }
  }

  lemma ServeKeepsInv(h: Hash, paths: set<Path>, s: State, op: Op, content: Bytes, sent: nat)
    requires Inv(h, paths, s) && s.synced && NoWorkingCopies(paths) && op.path in paths
    requires SignFits(SignOf(op)) && sent <= RequestCount(op, content)
    ensures var r := ServePart(h, s, op, content, sent); Inv(h, paths, r) && r.synced
  {
    hide Inv;
    if op.kind == Erase {
      EraseKeepsInv(h, paths, s, op.path, op.digest);
    } else {
      ChunksKeepInv(h, paths, s, op.path, op.digest, Part(CutOf(op, content), sent), op.kind == Update);
    }
  }

  predicate MoveWithin(paths: set<Path>, move: Move) {
    match move
    case FindMissing(path) => path in paths
    case FindFile(path, _) => path in paths
    case _ => true
  }

  /** The client is right about what is synced, and the server keeps its own invariant; the digests
      of files are real ones. */
  ghost predicate Secure(h: Hash, paths: set<Path>, sys: System) {
    && Trusted(sys)
    && Inv(h, paths, sys.server) && sys.server.synced
    && (forall op | op in sys.pending :: op.path in paths && (op.kind != Erase ==> op.digest != TEMP))
    && (forall p | p in sys.client && sys.client[p].synced == Yes :: sys.client[p].digest != TEMP)
  }

  lemma NextKeepsSecure(h: Hash, paths: set<Path>, sys: System, move: Move)
    requires Secure(h, paths, sys) && NoWorkingCopies(paths) && MoveWithin(paths, move)
    requires Enabled(sys, move) && Honest(sys, move)
    ensures Secure(h, paths, Next(h, sys, move))
  {
    NextTrustsExactly(h, sys, move);
    if move.Deliver? {
      var op := sys.pending[move.index];
      ServePartOfAll(h, sys.server, op, move.content);
      ServeKeepsInv(h, paths, sys.server, op, move.content, RequestCount(op, move.content));
    } else if move.Lose? {
      ServeKeepsInv(h, paths, sys.server, sys.pending[move.index], move.content, move.sent);
    }
    hide Inv, Serve, ServePart, Trusted, RequestCount, SignFits, Honest, NoWorkingCopies;
    var next := Next(h, sys, move);
    if !move.FindMissing? && !move.FindFile? {
      assert sys.pending[move.index] in sys.pending;
      assert forall op | op in next.pending :: op in sys.pending;
    }
  }

  /** A file the client takes for synced is on the server's disk with exactly the digest the
      client noted for it. */
  ghost predicate BackedUp(h: Hash, sys: System) {
    forall p | p in sys.client && sys.client[p].synced == Yes ::
      p in sys.server.disk && h(p, sys.server.disk[p]) == sys.client[p].digest
  }

  lemma SecureIsBackedUp(h: Hash, paths: set<Path>, sys: System)
    requires Secure(h, paths, sys)
    ensures BackedUp(h, sys)
  {
    forall p | p in sys.client && sys.client[p].synced == Yes
      ensures p in sys.server.disk && h(p, sys.server.disk[p]) == sys.client[p].digest
    {
      assert HasDigest(sys.server, p, sys.client[p].digest);
    }
  }

  /** After every honest run, whatever is lost on the way, what the client takes for synced is backed
      up. */
  lemma {:induction false} SyncedMeansBackedUp(h: Hash, paths: set<Path>, sys: System, moves: seq<Move>)
    requires Secure(h, paths, sys) && NoWorkingCopies(paths)
    requires Possible(h, sys, moves) && AllHonest(h, sys, moves) && forall m | m in moves :: MoveWithin(paths, m)
    ensures Secure(h, paths, After(h, sys, moves)) && BackedUp(h, After(h, sys, moves))
    decreases |moves|
  {
    hide Secure, Honest, Next, BackedUp;
    if moves == [] {
      SecureIsBackedUp(h, paths, sys);
    } else {
      NextKeepsSecure(h, paths, sys, moves[0]);
      SyncedMeansBackedUp(h, paths, Next(h, sys, moves[0]), moves[1..]);
    }
  }
}
