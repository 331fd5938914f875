/** What becomes of the client's entry once an operation is over. */
module Settlements {
  import opened Protocol
  import opened Server
  import opened Client
  import opened Operations
  import opened RoundTrips
  import opened Synchronizations
  import opened Agreement
  import FileMessages
  import Scans

  /** The operation of the move is delivered and its reply tells of a success. */
  predicate Achieves(h: Hash, sys: System, move: Move)
    requires Enabled(sys, move)
  {
    match move
    case Deliver(i, content) => Succeeds(sys.pending[i].kind, Serve(h, sys.server, sys.pending[i], content).1)
    case _ => false
  }

  /** An operation that is over: after a success the client has an erased file no more, and any other for
      synced and there; after anything else the file waits for the next round, taken to be on the server
      unless it was to be created. Its digest is that of the operation, and no other entry changes. */
  lemma SettledExactly(h: Hash, sys: System, move: Move)
    requires WaitingIsTrue(sys) && Enabled(sys, move) && !move.FindMissing? && !move.FindFile?
    ensures var op, next := sys.pending[move.index], Next(h, sys, move).client;
            var done := Achieves(h, sys, move);
            && (if done && op.kind == Erase then op.path !in next
                else op.path in next &&
                     next[op.path] == Resource(if done then Yes else No, done || op.kind != Create, op.digest))
            && forall p | p != op.path ::
                 (p in next <==> p in sys.client) && (p in sys.client ==> next[p] == sys.client[p])
  {
    assert sys.pending[move.index] in sys.pending;
    hide Serve, ServePart;
  }

  lemma ErasedOnServer(h: Hash, s: State, op: Op)
    requires op.kind == Erase && FileMessages.SignFits(SignOf(op))
    ensures var (r, code) := Serve(h, s, op, []);
            if HasDigest(s, op.path, op.digest) then
              Succeeds(Erase, code) && op.path !in r.entries && op.path !in r.disk
            else !Succeeds(Erase, code) && r == s
  {
  }

  /** An ERASE the server accepts is forgotten on both sides, and no later round wants anything for the
      path while nothing is there; one it does not accept changes nothing, and the next round sends the
      same again. */
  lemma EraseIsForgotten(h: Hash, sys: System, index: nat, content: Bytes, local: Local, known: seq<Path>,
                         walk: seq<Path>)
    requires Agrees(sys) && Enabled(sys, Deliver(index, content)) && sys.pending[index].kind == Erase
    requires !Present(local, sys.pending[index].path) && Walks(walk, local.files)
    requires Knows(known, Next(h, sys, Deliver(index, content)).client)
    ensures var op, next := sys.pending[index], Next(h, sys, Deliver(index, content));
            var round := Round(h, next.client, local, known, walk);
            if HasDigest(sys.server, op.path, op.digest) then
              && op.path !in next.client && op.path !in next.server.entries && op.path !in next.server.disk
              && forall o | o in round :: o.path != op.path
            else
              && next.server == sys.server
              && op in round
  {
    var op, next := sys.pending[index], Next(h, sys, Deliver(index, content));
    SettledExactly(h, sys, Deliver(index, content));
    ErasedOnServer(h, sys.server, op);
    Scans.RoundExact(h, next.client, local, known, walk);
    hide Round, Knows, Walks, Agrees;
    forall o | o in Round(h, next.client, local, known, walk) && op.path !in next.client ensures o.path != op.path {
      assert Scans.Wanted(h, next.client, local, o.path) == Some(o);
    }
    assert Op(Erase, op.path, op.digest) == op;
  }
}
