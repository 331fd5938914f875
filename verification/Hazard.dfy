/** Runs that go wrong: three moves each that end with the client wrong about a file, or with the file
    lost on the server. */
module Hazards {
  import opened Protocol
  import opened FileMessages
  import opened Server
  import opened Uploads
  import opened Client
  import opened Operations
  import opened Finishes
  import opened Requests
  import opened Settlements
  import opened Agreement
  import Effects
  import Rounds

  lemma ThreeMoves(h: Hash, sys: System, a: Move, b: Move, c: Move)
    requires Enabled(sys, a)
    requires var sys1 := Next(h, sys, a); Enabled(sys1, b) && Enabled(Next(h, sys1, b), c)
    ensures Possible(h, sys, [a, b, c])
    ensures var sys1 := Next(h, sys, a);
            var sys2 := Next(h, sys1, b);
            && After(h, sys, [a, b, c]) == Next(h, sys2, c)
            && (AllHonest(h, sys, [a, b, c]) <==> Honest(sys, a) && Honest(sys1, b) && Honest(sys2, c))
            && (AllSafe(h, sys, [a, b, c]) <==> Safe(h, sys, a) && Safe(h, sys1, b) && Safe(h, sys2, c))
  {
    var sys1 := Next(h, sys, a);
    var sys2 := Next(h, sys1, b);
    assert [c] + [] == [c] && [b] + [c] == [b, c] && [a] + [b, c] == [a, b, c];
    hide Next, Enabled, Honest, Safe;
    FirstMove(h, sys2, c, []);
    FirstMove(h, sys1, b, [c]);
    FirstMove(h, sys, a, [b, c]);
  }

  lemma FirstMove(h: Hash, sys: System, move: Move, later: seq<Move>)
    requires Enabled(sys, move) && Possible(h, Next(h, sys, move), later)
    ensures var moves, next := [move] + later, Next(h, sys, move);
            && Possible(h, sys, moves) && After(h, sys, moves) == After(h, next, later)
            && (AllHonest(h, sys, moves) <==> Honest(sys, move) && AllHonest(h, next, later))
            && (AllSafe(h, sys, moves) <==> Safe(h, sys, move) && AllSafe(h, next, later))
  {
    hide Next, Enabled, Honest, Safe;
    assert ([move] + later)[1..] == later;
  }

  /** The client after the reply to a part of an operation is lost and the watcher has come by, with the
      operation it has issued last in line. */
  lemma LostAndFound(h: Hash, sys: System, index: nat, content: Bytes, sent: nat, digest: Digest)
    requires Agrees(sys) && Enabled(sys, Lose(index, content, sent)) && sys.pending[index].kind != Erase
    ensures var op := sys.pending[index];
            var sys1 := Next(h, sys, Lose(index, content, sent));
            var sys2 := Next(h, sys1, FindFile(op.path, digest));
            var again := Op(op.kind, op.path, digest);
            && Enabled(sys1, FindFile(op.path, digest))
            && sys2 == System(Schedule(sys1.client, again), ServePart(h, sys.server, op, content, sent),
                              Remove(sys.pending, index) + [again])
            && |sys2.pending| == |sys.pending| && sys2.pending[|sys.pending| - 1] == again
            && op.path in sys2.client
  {
    assert sys.pending[index] in sys.pending;
    hide ServePart;
  }

  // ---- A changed file that is taken for synced ---------------------------------------

  /** A create whose last reply is lost, the watcher, which finds the file changed, and the create again:
      these moves can be made, the last of them is not honest, and after it the client takes the new
      file for synced while the server has the old one. */
  lemma ChangedFileIsBelieved(h: Hash, sys: System, index: nat, content: Bytes, changed: Bytes)
    requires Agrees(sys) && index < |sys.pending| && sys.pending[index].kind == Create
    requires var op := sys.pending[index];
             && SignFits(SignOf(op)) && op.digest == h(op.path, content) && h(op.path, changed) != op.digest
             && Startable(sys.server, op.path, op.digest, false) && Uploadable(content, SignOf(op))
             && GoodSize(|changed|, MaxPayload(SignOf(op)))
    ensures var op := sys.pending[index];
            var digest := h(op.path, changed);
            var moves := [Lose(index, content, RequestCount(op, content)), FindFile(op.path, digest),
                          Deliver(|sys.pending| - 1, changed)];
            && Possible(h, sys, moves) && !AllHonest(h, sys, moves)
            && var r := After(h, sys, moves);
            && op.path in r.client && r.client[op.path] == Resource(Yes, true, digest)
            && InPlace(r.server, op.path, content, op.digest) && op.digest != digest
            && !SyncedIsTrue(r)
  {
    var op := sys.pending[index];
    var digest := h(op.path, changed);
    var again := Op(Create, op.path, digest);
    var lose, find := Lose(index, content, RequestCount(op, content)), FindFile(op.path, digest);
    var deliver := Deliver(|sys.pending| - 1, changed);
    assert op in sys.pending;
    assert SignFits(SignOf(again)) && MaxPayload(SignOf(again)) == MaxPayload(SignOf(op));
    ServePartOfAll(h, sys.server, op, content);
    ServeIsPut(h, sys.server, op, content);
    LostAndFound(h, sys, index, content, RequestCount(op, content), digest);
    CutCount(changed, MaxPayload(SignOf(op)));
    var sys2 := Next(h, Next(h, sys, lose), find);
    RepeatedCreate(h, sys2.server, again, changed);
    assert sys2.server == Put(sys.server, op.path, content, op.digest);
    hide ServePart, Serve, Agrees, Uploadable, Startable, RequestCount;
    ThreeMoves(h, sys, lose, find, deliver);
  }

  // ---- A file the server does not track ---------------------------------------------------------

  /** The client takes the file to be on the server, not synced, and the server does not track it. */
  predicate Lost(sys: System, p: Path) {
    && p !in sys.server.entries
    && p in sys.client && sys.client[p].onServer && sys.client[p].synced != Yes
  }

  /** Operations other than a create are refused for a path that is not tracked. */
  lemma UntrackedStays(h: Hash, s: State, op: Op, content: Bytes, sent: nat)
    requires SignFits(SignOf(op)) && sent <= RequestCount(op, content) && op.kind != Create && op.path !in s.entries
    ensures ServePart(h, s, op, content, sent) == s
    ensures Serve(h, s, op, content).0 == s && !Succeeds(op.kind, Serve(h, s, op, content).1)
  {
    ServePartOfAll(h, s, op, content);
    if op.kind == Update {
      Effects.UpdateRefused(h, s, op.path, op.digest, Part(CutOf(op, content), sent));
      Effects.UpdateRefused(h, s, op.path, op.digest, CutOf(op, content));
      ServeOutcome(h, s, op, content);
    }
  }

  lemma NextIsLost(h: Hash, sys: System, move: Move, p: Path)
    requires WaitingIsTrue(sys) && Lost(sys, p) && Enabled(sys, move)
    ensures WaitingIsTrue(Next(h, sys, move)) && Lost(Next(h, sys, move), p)
  {
    KeepsWaiting(h, sys, move);
    if !move.FindMissing? && !move.FindFile? {
      var op := sys.pending[move.index];
      assert op in sys.pending;
      SettledExactly(h, sys, move);
      hide Serve, ServePart;
      if move.Drop? {
      } else if op.path == p {
        UntrackedStays(h, sys.server, op, move.content, if move.Lose? then move.sent else 0);
      } else if move.Deliver? {
        ServeElsewhere(h, sys.server, op, move.content);
      } else {
        PartElsewhere(h, sys.server, op, move.content, move.sent);
      }
    }
  }

  lemma KeepsWaiting(h: Hash, sys: System, move: Move)
    requires WaitingIsTrue(sys) && Enabled(sys, move)
    ensures WaitingIsTrue(Next(h, sys, move))
  {
    match move
    case FindMissing(path) =>
      if OnMissing(sys.client, path).Some? {
        IssueKeepsWaiting(sys, OnMissing(sys.client, path).value);
      }
    case FindFile(path, digest) =>
      if OnFile(sys.client, path, digest).Some? {
        IssueKeepsWaiting(sys, OnFile(sys.client, path, digest).value);
      }
    case Deliver(i, content) =>
      var (server, code) := Serve(h, sys.server, sys.pending[i], content);
      SettleKeepsWaiting(sys, i, Succeeds(sys.pending[i].kind, code), server);
    case Lose(i, content, sent) =>
      SettleKeepsWaiting(sys, i, false, ServePart(h, sys.server, sys.pending[i], content, sent));
    case Drop(i) =>
      SettleKeepsWaiting(sys, i, false, sys.server);
  }

  /** An update that has left nothing on the server. */
  lemma FailedUpdateIsLost(h: Hash, sys: System, move: Move)
    requires WaitingIsTrue(sys) && Enabled(sys, move) && move.Deliver? && sys.pending[move.index].kind == Update
    requires sys.pending[move.index].path !in Next(h, sys, move).server.entries
    ensures Lost(Next(h, sys, move), sys.pending[move.index].path)
  {
    ServeOutcome(h, sys.server, sys.pending[move.index], move.content);
    SettledExactly(h, sys, move);
    hide Serve;
  }

  // ---- A retry that loses the file ---------------------------------------------------

  /** The server after a part of an update without false ends. */
  lemma PartArrives(h: Hash, s: State, op: Op, content: Bytes, sent: nat)
    requires op.kind == Update && SignFits(SignOf(op)) && Uploadable(content, SignOf(op))
    requires Startable(s, op.path, op.digest, true) && 0 < sent < |CutOf(op, content).payloads|
    ensures ServePart(h, s, op, content, sent) ==
            Underway(s, op.path, true, true, Join(CutOf(op, content).payloads[..sent]))
  {
    var cut := CutOf(op, content);
    var part := Part(cut, sent);
    assert forall i | 0 <= i < |part.payloads| :: part.payloads[i] == cut.payloads[i];
    assert [] + Join(part.payloads) == Join(part.payloads);
    ChunksArrive(h, s, op.path, op.digest, true, false, [], part);
  }

  /** The update again, on top of the working copy it has left: the file is gone then, unless the digest
      does not notice. */
  lemma OverPart(h: Hash, s: State, op: Op, content: Bytes, done: Bytes)
    requires op.kind == Update && SignFits(SignOf(op)) && Uploadable(content, SignOf(op))
    requires Startable(s, op.path, op.digest, true)
    ensures var r := Serve(h, Underway(s, op.path, true, true, done), op, content).0;
            if h(op.path, done + content) == op.digest then InPlace(r, op.path, done + content, op.digest)
            else Gone(r, op.path)
  {
    var u := Underway(s, op.path, true, true, done);
    var cut := CutOf(op, content);
    CutCount(content, MaxPayload(SignOf(op)));
    CutJoinIsPrefix(content, MaxPayload(SignOf(op)));
    CompleteHasPayload(content, MaxPayload(SignOf(op)));
    assert TempPath(op.path) != op.path;
    assert CanUpdate(u, op.path, op.digest);
    UpdateFinishes(h, u, op.path, op.digest, cut);
    AllAtEnd(done, cut);
    hide Chunks, Uploadable, CutFile;
  }

  /** An update of a file of several chunks, the reply to one of them lost before the last, the watcher,
      which finds the file unchanged, and the update again: all these moves are safe and honest, and
      after them the server has neither the new file nor the old one, exactly if the digest tells the
      file from the same file with its own first bytes put in front. */
  lemma RetryLosesFile(h: Hash, sys: System, index: nat, content: Bytes, sent: nat)
    requires Agrees(sys) && index < |sys.pending| && sys.pending[index].kind == Update
    requires var op := sys.pending[index];
             && SignFits(SignOf(op)) && op.digest == h(op.path, content)
             && Startable(sys.server, op.path, op.digest, true) && Uploadable(content, SignOf(op))
             && 0 < sent < |CutOf(op, content).payloads|
    ensures var op := sys.pending[index];
            var moves := [Lose(index, content, sent), FindFile(op.path, h(op.path, content)),
                          Deliver(|sys.pending| - 1, content)];
            && Possible(h, sys, moves) && AllSafe(h, sys, moves) && AllHonest(h, sys, moves)
            && op.path in sys.server.disk
            && (Gone(After(h, sys, moves).server, op.path) <==>
                h(op.path, Join(CutOf(op, content).payloads[..sent]) + content) != op.digest)
            && (Gone(After(h, sys, moves).server, op.path) ==> Lost(After(h, sys, moves), op.path))
  {
    var op := sys.pending[index];
    var lose, find := Lose(index, content, sent), FindFile(op.path, h(op.path, content));
    var deliver := Deliver(|sys.pending| - 1, content);
    assert op in sys.pending;
    LostAndFound(h, sys, index, content, sent, h(op.path, content));
    PartArrives(h, sys.server, op, content, sent);
    OverPart(h, sys.server, op, content, Join(CutOf(op, content).payloads[..sent]));
    assert Op(op.kind, op.path, h(op.path, content)) == op;
    hide ServePart, Serve, Uploadable, Underway, Startable, CutOf;
    KeepsWaiting(h, sys, lose);
    KeepsWaiting(h, Next(h, sys, lose), find);
    hide Agrees;
    ThreeMoves(h, sys, lose, find, deliver);
    if Gone(After(h, sys, [lose, find, deliver]).server, op.path) {
      FailedUpdateIsLost(h, Next(h, Next(h, sys, lose), find), deliver);
    }
  }

  // ---- What no round repairs ---------------------------------------------------------

  /** A file that is lost like this stays lost: whatever watcher, server and network do from then on, the
      server never tracks it again and the client never has it synced. Every update of it is refused, and
      so is every erase. */
  lemma {:induction false} LostForGood(h: Hash, sys: System, moves: seq<Move>, p: Path)
    requires WaitingIsTrue(sys) && Lost(sys, p) && Possible(h, sys, moves)
    ensures Lost(After(h, sys, moves), p)
    decreases |moves|
  {
    hide WaitingIsTrue, Lost, Next;
    if moves != [] {
      NextIsLost(h, sys, moves[0], p);
      LostForGood(h, Next(h, sys, moves[0]), moves[1..], p);
    }
  }

  /** So it is with the file a retry has removed. */
  lemma RetryLosesForGood(h: Hash, sys: System, index: nat, content: Bytes, sent: nat, later: seq<Move>)
    requires Agrees(sys) && index < |sys.pending| && sys.pending[index].kind == Update
    requires var op := sys.pending[index];
             && SignFits(SignOf(op)) && op.digest == h(op.path, content)
             && Startable(sys.server, op.path, op.digest, true) && Uploadable(content, SignOf(op))
             && 0 < sent < |CutOf(op, content).payloads|
             && h(op.path, Join(CutOf(op, content).payloads[..sent]) + content) != op.digest
    requires var op := sys.pending[index];
             var moves := [Lose(index, content, sent), FindFile(op.path, h(op.path, content)),
                           Deliver(|sys.pending| - 1, content)];
             Possible(h, sys, moves) && Possible(h, After(h, sys, moves), later)
    ensures var op := sys.pending[index];
            var moves := [Lose(index, content, sent), FindFile(op.path, h(op.path, content)),
                          Deliver(|sys.pending| - 1, content)];
            Lost(After(h, After(h, sys, moves), later), op.path)
  {
    var op := sys.pending[index];
    var moves := [Lose(index, content, sent), FindFile(op.path, h(op.path, content)),
                  Deliver(|sys.pending| - 1, content)];
    var last := After(h, sys, moves);
    RetryLosesFile(h, sys, index, content, sent);
    AlwaysAgreeExactly(h, sys, moves);
    hide Uploadable, Startable, CutOf, Lost;
    LostForGood(h, last, later, op.path);
  }

  /** The server has the file under another digest than the client, and no operation but erases are on their
      way for it. */
  ghost predicate Stale(sys: System, p: Path) {
    && p in sys.server.entries && p in sys.client
    && sys.client[p].onServer && sys.client[p].synced != Yes
    && sys.server.entries[p].digest != sys.client[p].digest
    && forall op | op in sys.pending && op.path == p :: op.kind == Erase
  }

  predicate IsFound(move: Move, p: Path) {
    move.FindFile? && move.path == p
  }

  lemma StaleStays(h: Hash, s: State, op: Op, content: Bytes, sent: nat)
    requires SignFits(SignOf(op)) && sent <= RequestCount(op, content) && op.kind == Erase
    requires !HasDigest(s, op.path, op.digest)
    ensures ServePart(h, s, op, content, sent) == s
    ensures Serve(h, s, op, content).0 == s && !Succeeds(Erase, Serve(h, s, op, content).1)
  {
  }

  lemma NextIsStale(h: Hash, sys: System, move: Move, p: Path)
    requires WaitingIsTrue(sys) && Stale(sys, p) && Enabled(sys, move) && !IsFound(move, p)
    ensures WaitingIsTrue(Next(h, sys, move)) && Stale(Next(h, sys, move), p)
    ensures SameEntry(sys.server, Next(h, sys, move).server, p)
  {
    KeepsWaiting(h, sys, move);
    if !move.FindMissing? && !move.FindFile? {
      var op := sys.pending[move.index];
      assert op in sys.pending;
      SettledExactly(h, sys, move);
      assert forall x | x in Remove(sys.pending, move.index) :: x in sys.pending;
      hide Serve, ServePart;
      if move.Drop? {
      } else if op.path == p {
        StaleStays(h, sys.server, op, move.content, if move.Lose? then move.sent else 0);
      } else if move.Deliver? {
        ServeElsewhere(h, sys.server, op, move.content);
      } else {
        PartElsewhere(h, sys.server, op, move.content, move.sent);
      }
    }
  }

  /** Such a file is never erased while it is missing: whatever else is done, the server keeps tracking it
      as it did. */
  lemma {:induction false} NeverErased(h: Hash, sys: System, moves: seq<Move>, p: Path)
    requires WaitingIsTrue(sys) && Stale(sys, p) && Possible(h, sys, moves)
    requires forall m | m in moves :: !IsFound(m, p)
    ensures Stale(After(h, sys, moves), p) && SameEntry(sys.server, After(h, sys, moves).server, p)
    decreases |moves|
  {
    hide WaitingIsTrue, Stale, Next;
    if moves != [] {
      assert moves[0] in moves;
      NextIsStale(h, sys, moves[0], p);
      NeverErased(h, Next(h, sys, moves[0]), moves[1..], p);
    }
  }

  /** That happens to a file that is removed after an update of it was lost on its way. */
  lemma DroppedUpdateBlocksErase(h: Hash, sys: System, index: nat, moves: seq<Move>)
    requires WaitingIsTrue(sys) && index < |sys.pending| && sys.pending[index].kind == Update
    requires var op := sys.pending[index];
             && op.path in sys.client && op.path in sys.server.entries
             && sys.server.entries[op.path].digest != op.digest
    requires Possible(h, Next(h, sys, Drop(index)), moves)
    requires forall m | m in moves :: !IsFound(m, sys.pending[index].path)
    ensures var op, last := sys.pending[index], After(h, Next(h, sys, Drop(index)), moves);
            && op.path in last.server.entries && last.server.entries[op.path] == sys.server.entries[op.path]
            && op.path in last.client && last.client[op.path].onServer
  {
    var op, next := sys.pending[index], Next(h, sys, Drop(index));
    SettledExactly(h, sys, Drop(index));
    KeepsWaiting(h, sys, Drop(index));
    forall x | x in next.pending ensures x.path != op.path {
      Rounds.OneOnItsWay(sys, index, x);
    }
    hide WaitingIsTrue, Next;
    NeverErased(h, next, moves, op.path);
  }
}
