/** What a round of the watcher brings to the server, byte for byte. */
module Arrivals {
  import opened Protocol
  import opened FileMessages
  import opened Server
  import opened Sessions
  import opened Uploads
  import opened Client
  import opened Operations
  import opened RoundTrips
  import opened Synchronizations
  import opened Finishes
  import opened Convergence
  import opened Requests
  import opened Agreement
  import opened Scans
  import opened Rounds

  /** Nothing is in the way of the path: what is to be sent is uploadable; what is new to the client is new
      to the server too; for what is not, the server tracks another file and has no working copy but an
      empty one; what is gone the server tracks under the digest the client has, if the client takes it to
      be there, and else not at all. */
  ghost predicate Clear(h: Hash, sys: System, local: Local, p: Path) {
    var s := sys.server;
    if p in local.files then
      var file := local.files[p];
      var digest := h(p, file);
      if p in sys.client && sys.client[p].synced == Yes && sys.client[p].digest == digest then true
      else if p in sys.client && (sys.client[p].synced == Yes || sys.client[p].onServer) then
        && CanBeSent(h, p, file)
        && p in s.entries && s.entries[p].digest != digest && BytesAt(s, TempPath(p)) == []
      else CanBeSent(h, p, file) && p !in s.entries && p !in s.disk
    else Attainable(h, sys, local, p)
  }

  /** The upload of the local file is a put on this server. */
  ghost predicate Ready(h: Hash, s: State, op: Op, local: Local) {
    && op.kind != Erase && Fits(h, op, local)
    && SignFits(SignOf(op)) && Uploadable(local.files[op.path], SignOf(op))
    && Prepared(s, op.path, op.digest, op.kind == Update)
    && (op.kind == Update ==> BytesAt(s, TempPath(op.path)) == [])
  }

  lemma ReadyWorks(h: Hash, s: State, op: Op, local: Local)
    requires Ready(h, s, op, local)
    ensures OpWorks(h, s, op, local)
    ensures InPlace(Serve(h, s, op, local.files[op.path]).0, op.path, local.files[op.path], op.digest)
  {
    ReadyServes(h, s, op, local.files[op.path]);
    ServedWorks(h, s, op, local);
    hide Serve, OpWorks, Uploadable;
  }

  lemma ReadyElsewhere(h: Hash, s: State, r: State, op: Op, local: Local)
    requires Ready(h, s, op, local) && r.auth && r.synced && r.stream == Closed
    requires SameEntry(s, r, op.path) && SameFile(s, r, op.path) && SameFile(s, r, TempPath(op.path))
    ensures Ready(h, r, op, local)
  {
    hide Uploadable, SignFits;
  }

  /** A file that is in place stays there while the other operations are delivered. */
  lemma InPlaceStays(h: Hash, paths: set<Path>, sys: System, local: Local, index: nat, p: Path, file: Bytes)
    requires OnTheWay(h, paths, sys, local) && NoWorkingCopies(paths) && index < |sys.pending|
    requires p in paths && Outstanding(sys.pending, p) == 0 && InPlace(sys.server, p, file, h(p, file))
    ensures var move := Delivery(sys, local, index);
            && Enabled(sys, move)
            && Outstanding(Next(h, sys, move).pending, p) == 0
            && InPlace(Next(h, sys, move).server, p, file, h(p, file))
  {
    var op, move := sys.pending[index], Delivery(sys, local, index);
    assert op in sys.pending && op.path in paths;
    OutstandingIsSome(sys.pending, op);
    DeliverIsServed(h, paths, sys, local, index);
    DeliverElsewhere(h, sys, move, p);
    ServeLeaves(h, sys.server, op, move.content, p);
    hide Next, Serve, OpWorks, Agrees, Secure, MirroredAt;
  }

  lemma {:induction false} StaysInPlace(h: Hash, paths: set<Path>, sys: System, local: Local, moves: seq<Move>,
                                        p: Path, file: Bytes)
    requires OnTheWay(h, paths, sys, local) && NoWorkingCopies(paths) && Deliveries(h, sys, local.files, moves)
    requires p in paths && Outstanding(sys.pending, p) == 0 && InPlace(sys.server, p, file, h(p, file))
    ensures Possible(h, sys, moves) && InPlace(After(h, sys, moves).server, p, file, h(p, file))
    decreases |moves|
  {
    hide Next, NoWorkingCopies, OnTheWay, InPlace;
    if moves != [] {
      DeliverOne(h, paths, sys, local, moves[0].index);
      InPlaceStays(h, paths, sys, local, moves[0].index, p, file);
      StaysInPlace(h, paths, Next(h, sys, moves[0]), local, moves[1..], p, file);
    }
  }

  /** An upload that is ready stays ready while another operation is delivered. */
  lemma StaysReady(h: Hash, paths: set<Path>, sys: System, local: Local, index: nat, op: Op)
    requires OnTheWay(h, paths, sys, local) && NoWorkingCopies(paths) && index < |sys.pending|
    requires op in sys.pending && op.path != sys.pending[index].path && Ready(h, sys.server, op, local)
    ensures var move := Delivery(sys, local, index);
            && Enabled(sys, move)
            && op in Next(h, sys, move).pending && Ready(h, Next(h, sys, move).server, op, local)
  {
    var other, move := sys.pending[index], Delivery(sys, local, index);
    assert other in sys.pending && other.path in paths && op.path in paths;
    DeliverOne(h, paths, sys, local, index);
    DeliverIsServed(h, paths, sys, local, index);
    OneWorkingCopy(other.path, op.path);
    DeliverElsewhere(h, sys, move, op.path);
    ServeLeaves(h, sys.server, other, move.content, op.path);
    ServeLeaves(h, sys.server, other, move.content, TempPath(op.path));
    assert Inv(h, paths, Next(h, sys, move).server) && Next(h, sys, move).server.synced;
    assert Next(h, sys, move).pending == Remove(sys.pending, index);
    StaysIn(sys.pending, index, op);
    hide Next, Serve, OpWorks, Agrees, MirroredAt, Ready, TempPath, SameFile, SameEntry, Trusted;
    ReadyElsewhere(h, sys.server, Next(h, sys, move).server, op, local);
  }

  lemma StaysIn(ops: seq<Op>, index: nat, op: Op)
    requires index < |ops| && op in ops && op != ops[index]
    ensures op in Remove(ops, index)
  {
    var i :| 0 <= i < |ops| && ops[i] == op;
    assert i < index ==> Remove(ops, index)[i] == op;
    assert i > index ==> Remove(ops, index)[i - 1] == op;
  }

  lemma OneForThePath(sys: System, a: Op, b: Op)
    requires WaitingIsTrue(sys) && a in sys.pending && b in sys.pending && a.path == b.path
    ensures a == b
  {
    var i :| 0 <= i < |sys.pending| && sys.pending[i] == a;
    if a != b {
      StaysIn(sys.pending, i, b);
      OneOnItsWay(sys, i, b);
    }
  }

  lemma {:induction false} Arrives(h: Hash, paths: set<Path>, sys: System, local: Local, moves: seq<Move>, op: Op)
    requires OnTheWay(h, paths, sys, local) && NoWorkingCopies(paths) && Deliveries(h, sys, local.files, moves)
    requires op in sys.pending && Ready(h, sys.server, op, local)
    ensures Possible(h, sys, moves)
    ensures InPlace(After(h, sys, moves).server, op.path, local.files[op.path], op.digest)
    decreases |moves|
  {
    var index := moves[0].index;
    var next := Next(h, sys, moves[0]);
    DeliverOne(h, paths, sys, local, index);
    if sys.pending[index].path == op.path {
      OneForThePath(sys, sys.pending[index], op);
      ReadyWorks(h, sys.server, op, local);
      OutstandingRemove(sys.pending, index, op.path);
      assert op.path in paths && Outstanding(sys.pending, op.path) <= 1;
      assert InPlace(next.server, op.path, local.files[op.path], op.digest);
      hide Serve, OnTheWay, OpWorks, InPlace, NoWorkingCopies;
      StaysInPlace(h, paths, next, local, moves[1..], op.path, local.files[op.path]);
    } else {
      StaysReady(h, paths, sys, local, index, op);
      hide Next, OnTheWay, Ready, InPlace, NoWorkingCopies;
      Arrives(h, paths, next, local, moves[1..], op);
    }
  }

  lemma ClearIsReady(h: Hash, paths: set<Path>, sys: System, local: Local, op: Op)
    requires Secure(h, paths, sys) && sys.server.stream == Closed && Clear(h, sys, local, op.path)
    requires Wanted(h, sys.client, local, op.path) == Some(op)
    ensures op.kind != Erase ==> Ready(h, sys.server, op, local)
    ensures Fits(h, op, local) && OpWorks(h, sys.server, op, local)
  {
    WantedWorks(h, sys, local, op);
    if op.kind != Erase {
      assert EntriesMatch(h, sys.server);
      ReadyIfClear(h, sys, local, op);
      ReadyWorks(h, sys.server, op, local);
    }
    hide Ready, OpWorks;
  }

  lemma ReadyIfClear(h: Hash, sys: System, local: Local, op: Op)
    requires EntriesMatch(h, sys.server) && sys.server.auth && sys.server.synced && sys.server.stream == Closed
    requires Clear(h, sys, local, op.path) && Wanted(h, sys.client, local, op.path) == Some(op) && op.kind != Erase
    ensures Ready(h, sys.server, op, local)
  {
    hide Uploadable, SignFits;
  }

  lemma ClearIsAttainable(h: Hash, paths: set<Path>, sys: System, local: Local, p: Path)
    requires Secure(h, paths, sys) && sys.pending == [] && sys.server.stream == Closed && Clear(h, sys, local, p)
    ensures Attainable(h, sys, local, p)
  {
    NothingWaits(sys, p);
    var want := Wanted(h, sys.client, local, p);
    WantedIsFor(h, sys.client, local, p);
    if want.Some? {
      ClearIsReady(h, paths, sys, local, want.value);
      WantedWorks(h, sys, local, want.value);
    }
    hide Ready, OpWorks, CreateWorks, UpdateWorks, Secure, Trusted;
  }

  /** When nothing is in the way of any path, a round mirrors the client whatever the order, and every local
      file that was not synced before is on the server byte for byte. */
  lemma RoundBringsTheBytes(h: Hash, paths: set<Path>, sys: System, local: Local, known: seq<Path>, walk: seq<Path>,
                            moves: seq<Move>)
    requires Secure(h, paths, sys) && Agrees(sys) && NoWorkingCopies(paths) && sys.pending == []
    requires sys.client.Keys + local.files.Keys <= paths && sys.server.stream == Closed
    requires Knows(known, sys.client) && Walks(walk, local.files)
    requires forall p :: Clear(h, sys, local, p)
    requires Deliveries(h, Scheduled(sys, Round(h, sys.client, local, known, walk)), local.files, moves)
    ensures var next := Scheduled(sys, Round(h, sys.client, local, known, walk));
            && Possible(h, next, moves)
            && var last := After(h, next, moves);
            && Mirrors(h, last, local) && Secure(h, paths, last)
            && (forall p | p in local.files :: p in last.server.disk)
            && (forall p | p in local.files && !(p in sys.client && sys.client[p].synced == Yes &&
                                                 sys.client[p].digest == h(p, local.files[p])) ::
                  InPlace(last.server, p, local.files[p], h(p, local.files[p])))
  {
    var ops := Round(h, sys.client, local, known, walk);
    var next := Scheduled(sys, ops);
    forall p ensures Attainable(h, sys, local, p) {
      ClearIsAttainable(h, paths, sys, local, p);
    }
    RoundIsOnItsWay(h, paths, sys, local, known, walk);
    DeliverAll(h, paths, next, local, moves);
    var last := After(h, next, moves);
    SecureIsBackedUp(h, paths, last);
    RoundExact(h, sys.client, local, known, walk);
    assert next.pending == ops && next.server == sys.server;
    hide Round, Knows, Walks, Deliveries, After, Possible, NoWorkingCopies, Inv, OpWorks, Attainable, Agrees, InPlace;
    forall p | p in local.files ensures p in last.server.disk {
      assert MirroredAt(h, last, local, p);
    }
    forall p | p in local.files && !(p in sys.client && sys.client[p].synced == Yes &&
                                     sys.client[p].digest == h(p, local.files[p]))
      ensures InPlace(last.server, p, local.files[p], h(p, local.files[p]))
    {
      hide Mirrors, MirroredAt, Secure, OnTheWay, Clear, Ready;
      UnsyncedIsSent(h, sys, local, p);
      var op := Wanted(h, sys.client, local, p).value;
      ClearIsReady(h, paths, sys, local, op);
      Arrives(h, paths, next, local, moves, op);
    }
  }

  lemma UnsyncedIsSent(h: Hash, sys: System, local: Local, p: Path)
    requires Agrees(sys) && sys.pending == [] && p in local.files
    requires !(p in sys.client && sys.client[p].synced == Yes && sys.client[p].digest == h(p, local.files[p]))
    ensures var want := Wanted(h, sys.client, local, p);
            && want.Some? && want.value.path == p && want.value.kind != Erase
            && want.value.digest == h(p, local.files[p])
  {
    NothingWaits(sys, p);
  }
}
