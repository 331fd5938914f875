/** A whole session: log in, list, synchronize, and from then on agree. */
module EndToEnd {
  import opened Protocol
  import opened Tlvs
  import FileMessages
  import opened Connections
  import opened Server
  import opened Sessions
  import Replies
  import opened RoundTrips
  import opened Client
  import opened Operations
  import opened Synchronizations
  import opened Convergence
  import MessageQueues
  import A = Agreement

  // ---- All the requests of a synchronization -----------------------------------------

  /** The requests of operations sent one after the other. */
  function AllRequests(files: map<Path, Bytes>, ops: seq<Op>): seq<Event>
    requires AllSignsFit(ops)
  {
    if ops == [] then []
    else
      assert ops[0] in ops;
      RequestsOf(ops[0], ContentOf(files, ops[0])) + AllRequests(files, ops[1..])
  }

  lemma {:induction false} RunConcat(w: World, s: State, a: seq<Event>, b: seq<Event>)
    requires AllMessages(a) && AllMessages(b)
    ensures AllMessages(a + b) && Run(w, s, a + b) == Run(w, Run(w, s, a), b)
    decreases |a|
  {
    hide Step;
    if a == [] {
      assert a + b == b;
    } else {
      assert (a + b)[1..] == a[1..] + b;
      RunConcat(w, Step(w, s, a[0]).0, a[1..], b);
    }
  }

  predicate IsDigest(digest: Bytes) {
    |digest| == 32 && 0 !in digest
  }

  lemma {:induction false} RunPhase(w: World, s: State, es: seq<Event>)
    requires s.auth && s.synced && AllMessages(es)
    ensures Run(w, s, es).auth && Run(w, s, es).synced
    decreases |es|
  {
    if es != [] {
      LastPhase(w, s, es[0]);
      hide Step;
      RunPhase(w, Step(w, s, es[0]).0, es[1..]);
    }
  }

  lemma {:induction false} ServeAllIsRun(w: World, s: State, files: map<Path, Bytes>, ops: seq<Op>)
    requires s.auth && s.synced && AllSignsFit(ops) && forall op | op in ops :: IsDigest(op.digest)
    ensures AllMessages(AllRequests(files, ops))
    ensures Run(w, s, AllRequests(files, ops)) == ServeAll(w.hash, s, files, ops).0
    decreases |ops|
  {
    hide Step, Serve, RequestsOf;
    if ops != [] {
      var op := ops[0];
      var content := ContentOf(files, op);
      assert op in ops;
      var requests := RequestsOf(op, content);
      ServeIsRun(w, s, op, op.digest, content);
      RunPhase(w, s, requests);
      ServeAllIsRun(w, Serve(w.hash, s, op, content).0, files, ops[1..]);
      RunConcat(w, s, requests, AllRequests(files, ops[1..]));
    }
  }

  lemma NeededDigest(h: Hash, s: State, dir: Directory, files: map<Path, Bytes>, op: Op)
    requires Describes(h, dir, files) && Needed(dir, Remote(h, s), op.path) == Some(op)
    ensures IsDigest(op.digest)
  {
  }

  lemma ListedIsRemote(h: Hash, s: State, pairs: seq<(Path, Bytes)>)
    requires ListsFiles(h, s.disk, pairs)
    ensures ListsRemote(pairs, Remote(h, s))
  {
    forall p: Path, d: Bytes ensures (p, d) in pairs <==> p in Remote(h, s) && Remote(h, s)[p] == d {
    }
  }

  /** The client's view of its first listing: the response and the plan it makes of it. */
  ghost predicate FirstListing(w: World, s: State, e: Event, raw: Bytes, rest: Bytes) {
    && IsMessage(e.raw)
    && var outcome := Step(w, s, e).1;
    && outcome.Replied?
    && ReadFrom([], Frames(FileMessages.EncodeGroups(LIST, outcome.groups)) + rest) == Received(raw, rest)
    && IsMessage(raw)
  }

  // ---- Logging in --------------------------------------------------------------------

  /** The reply to an AUTH tells the client whether it is logged in: it starts with OK exactly if it is. */
  lemma LoginIsTold(w: World, s: State, e: Event, rest: Bytes)
    requires Fresh(s) && IsMessage(e.raw) && |e.raw| <= CHUNK_SIZE && e.raw[0] == AUTH
    ensures var (s', outcome) := Step(w, s, e);
            && outcome.Replied? && (s'.auth <==> ValidAuth(w, e))
            && var read := ReadFrom([], Frames(FileMessages.EncodeGroups(AUTH, outcome.groups)) + rest);
            && read.Received? && read.rest == rest && IsMessage(read.raw) && Segments(read.raw) != []
            && (Segments(read.raw)[0].tag == OK <==> s'.auth)
  {
    var code := LoginReply(w, s, e);
    hide Step, ValidAuth;
    Replies.ClosingIsGood(code);
    Replies.PackedIsDeliverable(AUTH, Closing(code));
    MessageQueues.PackedConserves(Closing(code));
    ReadReply(AUTH, MessageQueues.Packed(Closing(code)), rest);
    assert AllFit(Closing(code));
    MessageRoundTrip(AUTH, Closing(code));
    hide ReadFrom, Frames;
  }

  lemma LoginReply(w: World, s: State, e: Event) returns (code: nat)
    requires Fresh(s) && IsMessage(e.raw) && e.raw[0] == AUTH
    ensures code < 1000 && Step(w, s, e).1 == Replied(MessageQueues.Packed(Closing(code)))
    ensures Step(w, s, e).0.auth <==> ValidAuth(w, e)
    ensures Step(w, s, e).0.auth <==> code == ERR_NONE
  {
    var ts := Segments(e.raw);
    code := if ts == [] then ERR_NO_CONTENT
            else if ts[0].tag != USRN then ERR_AUTH_NO_USRN
            else if |ts| < 2 || ts[1].tag != PSWD then ERR_AUTH_NO_PSWD
            else if w.login(ts[0].value, ts[1].value) then ERR_NONE else ERR_AUTH_FAILED;
    hide MessageQueues.Packed, IsMessage;
  }

  /** A valid AUTH leads from a session that is not logged in to one that tracks nothing and can ask for its
      listing, on the same disk. */
  lemma LoginAllowsList(w: World, s: State, login: Event, e: Event)
    requires !s.auth && !s.synced && IsMessage(login.raw) && ValidAuth(w, login)
    requires IsMessage(e.raw) && e.raw[0] == LIST && Segments(e.raw) != [] && Walks(e.walk, s.disk)
    ensures Step(w, s, login).0 == s.(auth := true, entries := map[])
    ensures AsksForList(Step(w, s, login).0, e)
  {
  }

  // ---- The first synchronization -----------------------------------------------------

  /** From the first LIST to equal files: what the client reads of the server's reply makes it schedule
      operations that work in every order, which is exactly if the files can be synchronized; and
      serving them is running their requests. */
  lemma FirstSync(w: World, s: State, e: Event, dir: Directory, files: map<Path, Bytes>, known: seq<Path>,
                  raw: Bytes, rest: Bytes, order: seq<Op>)
    requires AsksForList(s, e) && s.stream == Closed && Replies.SignsTravel(w.hash, s.disk)
    requires Describes(w.hash, dir, files) && Knows(known, dir)
    requires FirstListing(w, s, e, raw, rest)
    requires multiset(order) == multiset(Plan(dir, Segments(raw), known))
    ensures IsListing(raw) && SyncListed(dir, Segments(raw)).ok
    ensures EveryOrderWorks(w.hash, Step(w, s, e).0, files, Plan(dir, Segments(raw), known)) <==>
            CanSync(w.hash, s, files)
    ensures AllSignsFit(order) ==>
              var listed, requests := Step(w, s, e).0, AllRequests(files, order);
              AllMessages(requests) && Run(w, listed, requests) == ServeAll(w.hash, listed, files, order).0
  {
    ListedNow(w, s, e, raw, rest);
    var listed := Step(w, s, e).0;
    hide *;
    SyncListedExact(dir, Segments(raw), Remote(w.hash, listed));
    CanSyncSameDisk(w.hash, s, listed, files);
    SyncConvergesExactly(w.hash, listed, dir, files, Segments(raw), known);
    if AllSignsFit(order) {
      PlannedRun(w, listed, dir, files, Segments(raw), known, order);
    }
  }

  /** After the first listing the server tracks its files, and the client has read which they are. */
  lemma ListedNow(w: World, s: State, e: Event, raw: Bytes, rest: Bytes)
    requires AsksForList(s, e) && s.stream == Closed && Replies.SignsTravel(w.hash, s.disk)
    requires FirstListing(w, s, e, raw, rest)
    ensures var listed := Step(w, s, e).0;
            && JustListed(w.hash, listed) && listed.disk == s.disk
            && IsListing(raw)
            && Listed(Segments(raw)).Some? && ListsRemote(Listed(Segments(raw)).value, Remote(w.hash, listed))
  {
    ListRoundTrip(w, s, e, rest);
    hide Step, ReadFrom, Frames, Replies.SignsTravel, ListsFiles;
    ListedIsRemote(w.hash, Step(w, s, e).0, Listed(Segments(raw)).value);
    hide ListsRemote, Remote;
  }

  lemma PlannedRun(w: World, listed: State, dir: Directory, files: map<Path, Bytes>, ts: seq<Tlv>, known: seq<Path>,
                   order: seq<Op>)
    requires JustListed(w.hash, listed) && Describes(w.hash, dir, files) && AllSignsFit(order)
    requires Listed(ts).Some? && ListsRemote(Listed(ts).value, Remote(w.hash, listed)) && Knows(known, dir)
    requires multiset(order) == multiset(Plan(dir, ts, known))
    ensures AllMessages(AllRequests(files, order))
    ensures Run(w, listed, AllRequests(files, order)) == ServeAll(w.hash, listed, files, order).0
  {
    PlanExact(dir, ts, known, Remote(w.hash, listed));
    ReorderedOnePerPath(Plan(dir, ts, known), order);
    hide Plan, Step, Run, ListsRemote, Knows, ServeAll, AllRequests;
    forall op | op in order ensures IsDigest(op.digest) {
      NeededDigest(w.hash, listed, dir, files, op);
    }
    ServeAllIsRun(w, listed, files, order);
  }

  // ---- Agreement from then on --------------------------------------------------------

  lemma {:induction false} OutstandingOnce(ops: seq<Op>, path: Path)
    requires OnePerPath(ops)
    ensures A.Outstanding(ops, path) == if path in PathsOf(ops) then 1 else 0
  {
    if ops != [] {
      LaterOps(ops);
      OutstandingOnce(ops[1..], path);
      assert PathsOf(ops) == {ops[0].path} + PathsOf(ops[1..]);
    }
  }

  /** The client and the server once a synchronization's operations have all been scheduled. */
  ghost function AfterScheduling(h: Hash, s: State, dir: Directory, order: seq<Op>): A.System {
    A.System(ScheduleAll(Noted(dir, Remote(h, s)), order), s, order)
  }

  lemma UntouchedIsNoted(h: Hash, s: State, dir: Directory, files: map<Path, Bytes>, p: Path)
    requires JustListed(h, s) && Describes(h, dir, files)
    ensures var noted := Noted(dir, Remote(h, s));
            Needed(dir, Remote(h, s), p).None? ==>
              if p in noted then
                && noted[p].synced == Yes && noted[p].onServer
                && HasDigest(s, p, noted[p].digest) && IsDigest(noted[p].digest)
              else !HasSynced(s, p)
    ensures var need := Needed(dir, Remote(h, s), p);
            need.Some? && need.value.kind == Create ==> !HasSynced(s, p)
  {
  }

  /** What a synchronization leaves at one path: an operation awaited and on its way where one
      is needed, and elsewhere what the server has. */
  lemma ScheduledAt(h: Hash, s: State, dir: Directory, files: map<Path, Bytes>, order: seq<Op>, p: Path)
    requires JustListed(h, s) && Describes(h, dir, files) && OnePerPath(order)
    requires forall op :: op in order <==> Needed(dir, Remote(h, s), op.path) == Some(op)
    ensures var sys := AfterScheduling(h, s, dir, order);
            && A.Outstanding(order, p) == (if A.IsWaiting(sys.client, p) then 1 else 0)
            && (p in sys.client && sys.client[p].synced == Yes ==>
                  HasDigest(s, p, sys.client[p].digest) && sys.client[p].digest != TEMP)
            && (p !in sys.client || !sys.client[p].onServer ==> !HasSynced(s, p))
  {
    ScheduledEntries(Noted(dir, Remote(h, s)), order);
    TouchedPaths(dir, Remote(h, s), order);
    OutstandingOnce(order, p);
    UntouchedIsNoted(h, s, dir, files, p);
    hide ScheduleAll, Noted, Remote, Needed, JustListed, Describes, A.Outstanding, OnePerPath, HasSynced, HasDigest;
    if p in PathsOf(order) {
      var op :| op in order && op.path == p;
      assert Needed(dir, Remote(h, s), p) == Some(op);
    }
  }

  /** Synchronization establishes the agreement of client and server, whatever the client's
      directory said before, and however the scheduling steps are ordered. */
  lemma SyncEstablishesAgreement(h: Hash, s: State, dir: Directory, files: map<Path, Bytes>, ts: seq<Tlv>,
                                 known: seq<Path>, order: seq<Op>, paths: set<Path>)
    requires JustListed(h, s) && Describes(h, dir, files) && s.disk.Keys + files.Keys <= paths
    requires Listed(ts).Some? && ListsRemote(Listed(ts).value, Remote(h, s)) && Knows(known, dir)
    requires multiset(order) == multiset(Plan(dir, ts, known))
    ensures SyncListed(dir, ts).dir == Noted(dir, Remote(h, s))
    ensures A.Secure(h, paths, AfterScheduling(h, s, dir, order)) && A.Agrees(AfterScheduling(h, s, dir, order))
  {
    var remote := Remote(h, s);
    SyncListedExact(dir, ts, remote);
    PlanExact(dir, ts, known, remote);
    ReorderedOnePerPath(Plan(dir, ts, known), order);
    ScheduledIsSecure(h, s, dir, files, order, paths);
  }

  lemma ListedKeepsInv(h: Hash, s: State, paths: set<Path>)
    requires JustListed(h, s) && s.disk.Keys <= paths
    ensures Inv(h, paths, s)
  {
  }

  lemma ScheduledIsSecure(h: Hash, s: State, dir: Directory, files: map<Path, Bytes>, order: seq<Op>,
                          paths: set<Path>)
    requires JustListed(h, s) && Describes(h, dir, files) && OnePerPath(order) && s.disk.Keys + files.Keys <= paths
    requires forall op :: op in order <==> Needed(dir, Remote(h, s), op.path) == Some(op)
    ensures A.Secure(h, paths, AfterScheduling(h, s, dir, order)) && A.Agrees(AfterScheduling(h, s, dir, order))
  {
    var sys := AfterScheduling(h, s, dir, order);
    forall p
      ensures A.Outstanding(order, p) == (if A.IsWaiting(sys.client, p) then 1 else 0)
      ensures p in sys.client && sys.client[p].synced == Yes ==>
                HasDigest(s, p, sys.client[p].digest) && sys.client[p].digest != TEMP
      ensures p !in sys.client || !sys.client[p].onServer ==> !HasSynced(s, p)
    {
      ScheduledAt(h, s, dir, files, order, p);
    }
    forall op | op in order
      ensures op.path in paths && op.digest != TEMP
      ensures op.path in sys.client && sys.client[op.path] == Resource(Waiting, op.kind != Create, op.digest)
    {
      NeededDigest(h, s, dir, files, op);
      ScheduledEntries(Noted(dir, Remote(h, s)), order);
    }
    ListedKeepsInv(h, s, paths);
    hide ScheduleAll, Noted, Remote, Needed, JustListed, Describes, OnePerPath, HasSynced, HasDigest, Inv;
    hide A.Outstanding, A.IsWaiting;
  }

  /** From the first listing on, for as long as the session lasts: the client has synchronized with
      what it read of the server's listing, and then watcher, server and network make any moves.
      Client and server agree throughout if and only if every move is safe; and if every move is at
      least honest, then what the client takes for synced is on the server's disk under the digest
      it noted, whatever else has been lost. */
  lemma WholeSession(w: World, s: State, e: Event, dir: Directory, files: map<Path, Bytes>, known: seq<Path>,
                     raw: Bytes, rest: Bytes, order: seq<Op>, paths: set<Path>, moves: seq<A.Move>)
    requires AsksForList(s, e) && s.stream == Closed && Replies.SignsTravel(w.hash, s.disk)
    requires Describes(w.hash, dir, files) && Knows(known, dir)
    requires s.disk.Keys + files.Keys <= paths && NoWorkingCopies(paths)
    requires FirstListing(w, s, e, raw, rest)
    requires multiset(order) == multiset(Plan(dir, Segments(raw), known))
    requires var sys := AfterScheduling(w.hash, Step(w, s, e).0, dir, order);
             A.Possible(w.hash, sys, moves) && forall m | m in moves :: A.MoveWithin(paths, m)
    ensures var sys := AfterScheduling(w.hash, Step(w, s, e).0, dir, order);
            && (A.AlwaysAgree(w.hash, sys, moves) <==> A.AllSafe(w.hash, sys, moves))
            && (A.AllSafe(w.hash, sys, moves) ==> A.AllHonest(w.hash, sys, moves))
            && (A.AllHonest(w.hash, sys, moves) ==> A.BackedUp(w.hash, A.After(w.hash, sys, moves)))
  {
    ListedNow(w, s, e, raw, rest);
    var listed := Step(w, s, e).0;
    hide *;
    SyncEstablishesAgreement(w.hash, listed, dir, files, Segments(raw), known, order, paths);
    var sys := AfterScheduling(w.hash, listed, dir, order);
    A.AlwaysAgreeExactly(w.hash, sys, moves);
    if A.AllHonest(w.hash, sys, moves) {
      A.SyncedMeansBackedUp(w.hash, paths, sys, moves);
    }
  }
}
