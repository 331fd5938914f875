/** A round of the file watcher, as moves of client and server together. */
module Scans {
  import opened Protocol
  import opened Client
  import opened Agreement
  import Operations
  import opened RoundTrips
  import Sessions
  import opened Synchronizations

  function MissingMoves(local: Local, known: seq<Path>): seq<Move> {
    if known == [] then []
    else (if Present(local, known[0]) then [] else [FindMissing(known[0])]) + MissingMoves(local, known[1..])
  }

  function FileMoves(h: Hash, files: map<Path, Bytes>, walk: seq<Path>): seq<Move> {
    if walk == [] then []
    else
      (if walk[0] in files then [FindFile(walk[0], h(walk[0], files[walk[0]]))] else [])
      + FileMoves(h, files, walk[1..])
  }

  /** The system after operations have been scheduled. */
  function Scheduled(sys: System, ops: seq<Op>): System {
    sys.(client := ScheduleAll(sys.client, ops), pending := sys.pending + ops)
  }

  /** Two directories say the same of the paths of interest. */
  ghost predicate Same(a: Directory, b: Directory, paths: seq<Path>) {
    forall p | p in paths :: (p in a <==> p in b) && (p in a ==> a[p] == b[p])
  }

  lemma ScheduleOne(sys: System, op: Option<Op>, later: seq<Op>)
    ensures var first := if op.Some? then [op.value] else [];
            Scheduled(Issue(sys, op), later) == Scheduled(sys, first + later)
  {
    if op.Some? {
      assert ([op.value] + later)[1..] == later;
      assert sys.pending + [op.value] + later == sys.pending + ([op.value] + later);
    } else {
      assert [] + later == later;
    }
  }

  lemma MoveFirst(h: Hash, sys: System, move: Move, later: seq<Move>)
    requires Enabled(sys, move) && Possible(h, Next(h, sys, move), later)
    ensures Possible(h, sys, [move] + later) && After(h, sys, [move] + later) == After(h, Next(h, sys, move), later)
  {
    assert ([move] + later)[1..] == later;
  }

  lemma {:induction false} MissingIsScanned(h: Hash, sys: System, dir: Directory, local: Local, known: seq<Path>)
    requires Distinct(known) && Same(dir, sys.client, known)
    ensures Possible(h, sys, MissingMoves(local, known))
    ensures After(h, sys, MissingMoves(local, known)) == Scheduled(sys, ScanKnown(dir, local, known))
    decreases |known|
  {
    if known == [] {
      assert sys.pending + [] == sys.pending;
    } else {
      var op := if Present(local, known[0]) then None else OnMissing(dir, known[0]);
      assert known[0] in known;
      assert op == if Present(local, known[0]) then None else OnMissing(sys.client, known[0]);
      DistinctLater(known);
      MissingIsScanned(h, Issue(sys, op), dir, local, known[1..]);
      ScheduleOne(sys, op, ScanKnown(dir, local, known[1..]));
      if !Present(local, known[0]) {
        MoveFirst(h, sys, FindMissing(known[0]), MissingMoves(local, known[1..]));
      } else {
        assert MissingMoves(local, known) == MissingMoves(local, known[1..]);
      }
    }
  }

  /** Issuing an operation for the first file leaves the entries of the later ones alone. */
  lemma SameLater(h: Hash, sys: System, dir: Directory, files: map<Path, Bytes>, walk: seq<Path>)
    requires walk != [] && FilesOnce(walk, files) && Same(dir, sys.client, FilesOf(walk, files))
    ensures FilesOnce(walk[1..], files)
    ensures walk[0] in files ==>
              && OnFile(dir, walk[0], h(walk[0], files[walk[0]])) ==
                 OnFile(sys.client, walk[0], h(walk[0], files[walk[0]]))
              && var op := OnFile(sys.client, walk[0], h(walk[0], files[walk[0]]));
              Same(dir, Issue(sys, op).client, FilesOf(walk[1..], files))
    ensures walk[0] !in files ==> Same(dir, sys.client, FilesOf(walk[1..], files))
  {
    FilesOnceLater(walk, files);
    FilesOfExact(walk, files);
    FilesOfExact(walk[1..], files);
    assert walk == [walk[0]] + walk[1..];
    hide FilesOnce, FilesOf, OnFile;
    if walk[0] in files {
      assert walk[0] in FilesOf(walk, files);
      SameChoice(dir, sys.client, walk[0], h(walk[0], files[walk[0]]));
    }
    forall p | p in FilesOf(walk[1..], files) && (walk[0] in files ==> p != walk[0])
      ensures p in FilesOf(walk, files)
    {
    }
  }

  lemma SameChoice(a: Directory, b: Directory, path: Path, digest: Bytes)
    requires (path in a <==> path in b) && (path in a ==> a[path] == b[path])
    ensures OnFile(a, path, digest) == OnFile(b, path, digest)
    ensures OnFile(a, path, digest).Some? ==> OnFile(a, path, digest).value.path == path
  {
  }

  lemma {:induction false} FilesAreScanned(h: Hash, sys: System, dir: Directory, files: map<Path, Bytes>,
                                           walk: seq<Path>)
    requires FilesOnce(walk, files) && Same(dir, sys.client, FilesOf(walk, files))
    ensures Possible(h, sys, FileMoves(h, files, walk))
    ensures After(h, sys, FileMoves(h, files, walk)) == Scheduled(sys, ScanFiles(h, dir, files, walk))
    decreases |walk|
  {
    if walk == [] {
      assert sys.pending + [] == sys.pending;
    } else {
      SameLater(h, sys, dir, files, walk);
      hide FilesOnce, Same, OnFile, FilesOf;
      var moves, ops := FileMoves(h, files, walk[1..]), ScanFiles(h, dir, files, walk[1..]);
      if walk[0] in files {
        var move := FindFile(walk[0], h(walk[0], files[walk[0]]));
        var op := OnFile(sys.client, move.path, move.digest);
        hide Scheduled, Issue;
        FilesAreScanned(h, Issue(sys, op), dir, files, walk[1..]);
        ScheduleOne(sys, op, ops);
        MoveFirst(h, sys, move, moves);
      } else {
        FilesAreScanned(h, sys, dir, files, walk[1..]);
        assert [] + moves == moves && [] + ops == ops;
      }
    }
  }

  lemma {:induction false} AfterConcat(h: Hash, sys: System, a: seq<Move>, b: seq<Move>)
    requires Possible(h, sys, a) && Possible(h, After(h, sys, a), b)
    ensures Possible(h, sys, a + b) && After(h, sys, a + b) == After(h, After(h, sys, a), b)
    decreases |a|
  {
    if a == [] {
      assert a + b == b;
    } else {
      assert (a + b)[1..] == a[1..] + b;
      AfterConcat(h, Next(h, sys, a[0]), a[1..], b);
    }
  }

  lemma {:induction false} ScheduledElsewhere(dir: Directory, ops: seq<Op>, p: Path)
    requires forall op | op in ops :: op.path != p
    ensures (p in ScheduleAll(dir, ops) <==> p in dir) && (p in dir ==> ScheduleAll(dir, ops)[p] == dir[p])
    decreases |ops|
  {
    if ops != [] {
      assert ops[0] in ops;
      ScheduledElsewhere(Schedule(dir, ops[0]), ops[1..], p);
    }
  }

  lemma {:induction false} ScheduledTogether(dir: Directory, a: seq<Op>, b: seq<Op>)
    ensures ScheduleAll(dir, a + b) == ScheduleAll(ScheduleAll(dir, a), b)
    decreases |a|
  {
    if a == [] {
      assert a + b == b;
    } else {
      assert (a + b)[1..] == a[1..] + b;
      ScheduledTogether(Schedule(dir, a[0]), a[1..], b);
    }
  }

  lemma {:induction false} ErasesAreMissing(dir: Directory, local: Local, known: seq<Path>)
    ensures forall op | op in ScanKnown(dir, local, known) :: !Present(local, op.path)
  {
    if known != [] {
      ErasesAreMissing(dir, local, known[1..]);
    }
  }

  /** A whole round of the watcher looks at the directory as it was before the round, and its
      scheduling steps run only afterwards; yet the outcome is that of making its moves one by one,
      each on what the moves before it have left. */
  lemma ScanIsMoves(h: Hash, sys: System, local: Local, known: seq<Path>, walk: seq<Path>)
    requires Distinct(known) && FilesOnce(walk, local.files)
    ensures var moves := MissingMoves(local, known) + FileMoves(h, local.files, walk);
            Possible(h, sys, moves) && After(h, sys, moves) == Scheduled(sys, Round(h, sys.client, local, known, walk))
  {
    var files := local.files;
    var erases, others := ScanKnown(sys.client, local, known), ScanFiles(h, sys.client, files, walk);
    var half := Scheduled(sys, erases);
    hide After, Possible, ScanKnown, ScanFiles, MissingMoves, FileMoves, ScheduleAll, FilesOf, Distinct, FilesOnce;
    MissingIsScanned(h, sys, sys.client, local, known);
    ErasesAreMissing(sys.client, local, known);
    FilesOfExact(walk, files);
    forall p | p in FilesOf(walk, files)
      ensures (p in sys.client <==> p in half.client) && (p in sys.client ==> sys.client[p] == half.client[p])
    {
      ScheduledElsewhere(sys.client, erases, p);
    }
    FilesAreScanned(h, half, sys.client, files, walk);
    AfterConcat(h, sys, MissingMoves(local, known), FileMoves(h, files, walk));
    ScheduledTogether(sys.client, erases, others);
    assert sys.pending + erases + others == sys.pending + (erases + others);
  }

  // ---- What a scan is for ------------------------------------------------------------

  /** What the watcher should want for a path. */
  function Wanted(h: Hash, dir: Directory, local: Local, path: Path): Option<Op> {
    if path in local.files then OnFile(dir, path, h(path, local.files[path]))
    else if path in local.others then None
    else OnMissing(dir, path)
  }

  lemma {:induction false} ErasesExact(dir: Directory, local: Local, known: seq<Path>)
    requires Distinct(known)
    ensures OnePerPath(ScanKnown(dir, local, known))
    ensures forall op :: op in ScanKnown(dir, local, known) <==>
              op.path in known && !Present(local, op.path) && OnMissing(dir, op.path) == Some(op)
  {
    if known != [] {
      var op := if Present(local, known[0]) then None else OnMissing(dir, known[0]);
      var first, later := if op.Some? then [op.value] else [], ScanKnown(dir, local, known[1..]);
      DistinctLater(known);
      ErasesExact(dir, local, known[1..]);
      OnePerPathConcat(first, later);
      assert forall x :: x in first + later <==> x in first || x in later;
    }
  }

  lemma {:induction false} FilesExact(h: Hash, dir: Directory, files: map<Path, Bytes>, walk: seq<Path>)
    requires FilesOnce(walk, files)
    ensures OnePerPath(ScanFiles(h, dir, files, walk))
    ensures forall op :: op in ScanFiles(h, dir, files, walk) <==>
              op.path in walk && op.path in files && OnFile(dir, op.path, h(op.path, files[op.path])) == Some(op)
  {
    if walk != [] {
      var op := if walk[0] in files then OnFile(dir, walk[0], h(walk[0], files[walk[0]])) else None;
      var first, later := if op.Some? then [op.value] else [], ScanFiles(h, dir, files, walk[1..]);
      FilesOnceLater(walk, files);
      FilesExact(h, dir, files, walk[1..]);
      OnePerPathConcat(first, later);
      assert forall x :: x in first + later <==> x in first || x in later;
    }
  }

  /** A round schedules exactly what is wanted, at most one operation for a path. */
  lemma RoundExact(h: Hash, dir: Directory, local: Local, known: seq<Path>, walk: seq<Path>)
    requires Knows(known, dir) && Walks(walk, local.files)
    ensures OnePerPath(Round(h, dir, local, known, walk))
    ensures forall op :: op in Round(h, dir, local, known, walk) <==> Wanted(h, dir, local, op.path) == Some(op)
  {
    var erases, others := ScanKnown(dir, local, known), ScanFiles(h, dir, local.files, walk);
    ErasesExact(dir, local, known);
    FilesExact(h, dir, local.files, walk);
    OnePerPathConcat(erases, others);
    forall op: Op ensures op in erases + others <==> Wanted(h, dir, local, op.path) == Some(op) {
      assert op in erases + others <==> op in erases || op in others;
    }
  }

  /** What a round leaves at a path: a local file is synced under its digest or awaited, a path
      without anything local is absent from the server or awaited, and what was right is untouched. */
  predicate Covered(h: Hash, dir: Directory, local: Local, r: Directory, p: Path) {
    && (p in local.files ==> p in r && (IsWaiting(r, p) || (r[p].synced == Yes && r[p].digest == h(p, local.files[p]))))
    && (p in r && !Present(local, p) ==> IsWaiting(r, p) || !r[p].onServer)
    && (Wanted(h, dir, local, p).None? && p in dir ==> p in r && r[p] == dir[p])
  }

  lemma RoundCoversAt(h: Hash, dir: Directory, local: Local, ops: seq<Op>, p: Path)
    requires OnePerPath(ops) && forall op :: op in ops <==> Wanted(h, dir, local, op.path) == Some(op)
    ensures Covered(h, dir, local, ScheduleAll(dir, ops), p)
  {
    ScheduledEntries(dir, ops);
    hide ScheduleAll, OnePerPath;
    var want := Wanted(h, dir, local, p);
    if want.Some? {
      assert want.value in ops && want.value.path == p;
      hide Wanted;
    } else {
      assert forall op | op in ops :: op.path != p;
      assert p !in PathsOf(ops);
      hide PathsOf;
    }
  }

  /** A round covers every path. */
  lemma RoundCovers(h: Hash, dir: Directory, local: Local, known: seq<Path>, walk: seq<Path>)
    requires Knows(known, dir) && Walks(walk, local.files)
    ensures forall p :: Covered(h, dir, local, ScheduleAll(dir, Round(h, dir, local, known, walk)), p)
  {
    RoundExact(h, dir, local, known, walk);
    forall p ensures Covered(h, dir, local, ScheduleAll(dir, Round(h, dir, local, known, walk)), p) {
      RoundCoversAt(h, dir, local, Round(h, dir, local, known, walk), p);
    }
  }

  /** When the watcher wants nothing and nothing is on its way, the server mirrors the client: every
      local file is on its disk under the same digest, and nothing is synced there for a path
      without anything local. */
  lemma QuietMeansMirrored(h: Hash, paths: set<Path>, sys: System, local: Local, known: seq<Path>, walk: seq<Path>)
    requires Secure(h, paths, sys) && Agrees(sys) && sys.pending == []
    requires Knows(known, sys.client) && Walks(walk, local.files) && Round(h, sys.client, local, known, walk) == []
    ensures forall p | p in local.files :: p in sys.server.disk && h(p, sys.server.disk[p]) == h(p, local.files[p])
    ensures forall p | Operations.HasSynced(sys.server, p) :: Present(local, p)
  {
    RoundCovers(h, sys.client, local, known, walk);
    SecureIsBackedUp(h, paths, sys);
    assert ScheduleAll(sys.client, []) == sys.client;
    hide Round, Sessions.Inv, Wanted, Knows, Walks;
    forall p ensures !IsWaiting(sys.client, p) && Covered(h, sys.client, local, sys.client, p) {
      assert Outstanding(sys.pending, p) == 0;
    }
    forall p | p in local.files
      ensures p in sys.server.disk && h(p, sys.server.disk[p]) == h(p, local.files[p])
    {
      assert Covered(h, sys.client, local, sys.client, p);
    }
    forall p | Operations.HasSynced(sys.server, p) ensures Present(local, p) {
      assert Covered(h, sys.client, local, sys.client, p) && !IsWaiting(sys.client, p);
    }
  }
}
