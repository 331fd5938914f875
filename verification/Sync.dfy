/** Synchronization: the operations it schedules are exactly those that are needed, and they turn
    the server's files into the client's in whatever order they are served. */
module Synchronizations {
  import opened Protocol
  import opened Tlvs
  import Signs
  import opened Client
  import opened RoundTrips

  // ---- The plan ----------------------------------------------------------------------

  /** The operation a path needs, given what the client knows and what the server has. */
  function Needed(dir: Directory, remote: map<Path, Bytes>, path: Path): Option<Op> {
    if path in remote then OnListed(dir, path, remote[path])
    else if path in dir then Some(Op(Create, path, dir[path].digest))
    else None
  }

  predicate OnePerPath(ops: seq<Op>) {
    forall i, j | 0 <= i < j < |ops| :: ops[i].path != ops[j].path
  }

  /** A listing of the server's files, each once. */
  ghost predicate ListsRemote(pairs: seq<(Path, Bytes)>, remote: map<Path, Bytes>) {
    && (forall p: Path, d: Bytes :: (p, d) in pairs <==> p in remote && remote[p] == d)
    && (forall i, j | 0 <= i < j < |pairs| :: pairs[i].0 != pairs[j].0)
  }

  /** What the client's directory says after a listing: what the server has under the same digest
      is synced. */
  ghost function Noted(dir: Directory, remote: map<Path, Bytes>): Directory {
    map p | p in dir ::
      if p in remote && remote[p] == dir[p].digest then dir[p].(synced := Yes, onServer := true) else dir[p]
  }

  lemma {:induction false} SyncListedExact(dir: Directory, ts: seq<Tlv>, remote: map<Path, Bytes>)
    requires Listed(ts).Some? && ListsRemote(Listed(ts).value, remote)
    ensures var r := SyncListed(dir, ts);
            r.ok && r.listed == remote.Keys && r.dir == Noted(dir, remote) && AreNeeded(r.ops, dir, remote)
    decreases |ts|
  {
    if ts == [] {
      assert remote == map[];
    } else if ts[0].tag != ITEM {
      SyncListedExact(dir, ts[1..], remote);
    } else {
      var (path, digest) := Signs.SplitSign(ts[0].value).value;
      var pairs, later := Listed(ts).value, Listed(ts[1..]).value;
      assert pairs == [(path, digest)] + later;
      var remote' := remote - {path};
      LaterPairs(path, digest, later, remote);
      SyncListedExact(Note(dir, path, digest), ts[1..], remote');
      SyncHead(dir, ts, remote, path, digest);
    }
  }

  /** At a sign that cannot be split the walk breaks off: what was noted and posted before it stays, and what
      comes after it is not looked at. */
  lemma {:induction false} SyncBreaksOff(dir: Directory, before: seq<Tlv>, broken: Tlv, later: seq<Tlv>)
    requires Listed(before).Some? && broken.tag == ITEM && 0 !in broken.value
    ensures SyncListed(dir, before + [broken] + later) == SyncListed(dir, before).(ok := false)
    decreases |before|
  {
    var ts := before + [broken] + later;
    if before == [] {
      Signs.SplitSignExact(broken.value, [], []);
      assert ts[0] == broken;
    } else {
      assert ts[0] == before[0] && ts[1..] == before[1..] + [broken] + later;
      if before[0].tag != ITEM {
        SyncBreaksOff(dir, before[1..], broken, later);
      } else {
        var (path, digest) := Signs.SplitSign(before[0].value).value;
        SyncBreaksOff(Note(dir, path, digest), before[1..], broken, later);
      }
    }
  }

  lemma LaterPairs(path: Path, digest: Bytes, later: seq<(Path, Bytes)>, remote: map<Path, Bytes>)
    requires ListsRemote([(path, digest)] + later, remote)
    ensures path in remote && remote[path] == digest
    ensures ListsRemote(later, remote - {path})
  {
    var pairs := [(path, digest)] + later;
    assert pairs[0] == (path, digest);
    forall i, j | 0 <= i < j < |later| ensures later[i].0 != later[j].0 {
      assert pairs[i + 1].0 != pairs[j + 1].0;
    }
    forall p: Path, d: Bytes ensures (p, d) in later <==> p in remote - {path} && (remote - {path})[p] == d {
      assert (p, d) in pairs <==> (p, d) == pairs[0] || (p, d) in later;
      if (p, d) in later {
        var i :| 0 <= i < |later| && later[i] == (p, d);
        assert pairs[0].0 != pairs[i + 1].0;
      }
    }
  }

  /** `ops` are the needed operations on the paths of `remote`. */
  ghost predicate AreNeeded(ops: seq<Op>, dir: Directory, remote: map<Path, Bytes>) {
    OnePerPath(ops) && forall op :: op in ops <==> op.path in remote && Needed(dir, remote, op.path) == Some(op)
  }

  lemma FirstNeeded(dir: Directory, remote: map<Path, Bytes>, path: Path, later: seq<Op>)
    requires path in remote && AreNeeded(later, Note(dir, path, remote[path]), remote - {path})
    ensures var first := OnListed(dir, path, remote[path]);
            AreNeeded((if first.Some? then [first.value] else []) + later, dir, remote)
  {
    var first := OnListed(dir, path, remote[path]);
    var head := if first.Some? then [first.value] else [];
    forall op ensures op in head + later <==> op.path in remote && Needed(dir, remote, op.path) == Some(op) {
      assert op in head + later <==> first == Some(op) || op in later;
      if op.path != path {
        assert Needed(Note(dir, path, remote[path]), remote - {path}, op.path) == Needed(dir, remote, op.path);
      }
    }
    OnePerPathConcat(head, later);
  }

  lemma SyncHead(dir: Directory, ts: seq<Tlv>, remote: map<Path, Bytes>, path: Path, digest: Bytes)
    requires ts != [] && ts[0].tag == ITEM && Signs.SplitSign(ts[0].value) == Some((path, digest))
    requires path in remote && remote[path] == digest
    requires var r, rest := SyncListed(Note(dir, path, digest), ts[1..]), remote - {path};
             && r.ok && r.listed == rest.Keys && r.dir == Noted(Note(dir, path, digest), rest)
             && AreNeeded(r.ops, Note(dir, path, digest), rest)
    ensures var r := SyncListed(dir, ts);
            r.ok && r.listed == remote.Keys && r.dir == Noted(dir, remote) && AreNeeded(r.ops, dir, remote)
  {
    FirstNeeded(dir, remote, path, SyncListed(Note(dir, path, digest), ts[1..]).ops);
    hide AreNeeded;
    assert Noted(Note(dir, path, digest), remote - {path}) == Noted(dir, remote);
  }

  predicate Distinct(paths: seq<Path>) {
    forall i, j | 0 <= i < j < |paths| :: paths[i] != paths[j]
  }

  lemma DistinctLater(paths: seq<Path>)
    requires paths != [] && Distinct(paths)
    ensures Distinct(paths[1..]) && paths[0] !in paths[1..]
  {
    forall i, j | 0 <= i < j < |paths[1..]| ensures paths[1..][i] != paths[1..][j] {
      assert paths[i + 1] != paths[j + 1];
    }
  }

  lemma {:induction false} SyncMissingExact(dir: Directory, listed: set<Path>, known: seq<Path>)
    requires Distinct(known)
    ensures var ops := SyncMissing(dir, listed, known);
            && OnePerPath(ops)
            && forall op :: op in ops <==>
                 && op.path in known && op.path in dir && op.path !in listed
                 && op == Op(Create, op.path, dir[op.path].digest)
  {
    if known != [] {
      var first := if known[0] in dir && known[0] !in listed then [Op(Create, known[0], dir[known[0]].digest)] else [];
      var later := SyncMissing(dir, listed, known[1..]);
      DistinctLater(known);
      SyncMissingExact(dir, listed, known[1..]);
      OnePerPathConcat(first, later);
      assert forall x :: x in first + later <==> x in first || x in later;
    }
  }

  function PathsOf(ops: seq<Op>): set<Path> {
    set op | op in ops :: op.path
  }

  lemma LaterOps(ops: seq<Op>)
    requires ops != [] && OnePerPath(ops)
    ensures OnePerPath(ops[1..]) && forall op | op in ops[1..] :: op.path != ops[0].path
  {
    var later := ops[1..];
    forall i, j | 0 <= i < j < |later| ensures later[i].path != later[j].path {
      assert ops[i + 1].path != ops[j + 1].path;
    }
    forall op | op in later ensures op.path != ops[0].path {
      var i :| 0 <= i < |later| && later[i] == op;
      assert ops[0].path != ops[i + 1].path;
    }
  }

  lemma {:induction false} ScheduledEntries(dir: Directory, ops: seq<Op>)
    requires OnePerPath(ops)
    ensures var r := ScheduleAll(dir, ops);
            && r.Keys == dir.Keys + PathsOf(ops)
            && (forall op | op in ops :: r[op.path] == Resource(Waiting, op.kind != Create, op.digest))
            && (forall p | p in dir && p !in PathsOf(ops) :: r[p] == dir[p])
    decreases |ops|
  {
    if ops != [] {
      var later := ops[1..];
      LaterOps(ops);
      ScheduledEntries(Schedule(dir, ops[0]), later);
      assert PathsOf(ops) == {ops[0].path} + PathsOf(later);
      assert ops[0].path !in PathsOf(later);
    }
  }

  /** Everything a synchronization schedules, for a response with these segments. */
  function Plan(dir: Directory, ts: seq<Tlv>, known: seq<Path>): seq<Op> {
    var r := SyncListed(dir, ts);
    r.ops + SyncMissing(r.dir, r.listed, known)
  }

  /** The known paths, each once. */
  ghost predicate Knows(known: seq<Path>, dir: Directory) {
    (forall p :: p in known <==> p in dir) && Distinct(known)
  }

  /** Synchronization schedules exactly the needed operations, at most one for a path; so exactly
      the paths where client and server differ are touched. */
  lemma PlanExact(dir: Directory, ts: seq<Tlv>, known: seq<Path>, remote: map<Path, Bytes>)
    requires Listed(ts).Some? && ListsRemote(Listed(ts).value, remote) && Knows(known, dir)
    ensures var ops := Plan(dir, ts, known);
            && OnePerPath(ops)
            && (forall op :: op in ops <==> Needed(dir, remote, op.path) == Some(op))
            && (forall p :: (exists op :: op in ops && op.path == p) <==>
                  !((p in dir <==> p in remote) && (p in dir && p in remote ==> dir[p].digest == remote[p])))
  {
    var r := SyncListed(dir, ts);
    var missing := SyncMissing(r.dir, r.listed, known);
    var ops := Plan(dir, ts, known);
    SyncListedExact(dir, ts, remote);
    SyncMissingExact(r.dir, r.listed, known);
    forall op ensures op in ops <==> Needed(dir, remote, op.path) == Some(op) {
      assert op in ops <==> op in r.ops || op in missing;
    }
    OnePerPathConcat(r.ops, missing);
    forall p
      ensures (exists op :: op in ops && op.path == p) <==>
              !((p in dir <==> p in remote) && (p in dir && p in remote ==> dir[p].digest == remote[p]))
    {
      assert Needed(dir, remote, p).Some? <==>
             !((p in dir <==> p in remote) && (p in dir && p in remote ==> dir[p].digest == remote[p]));
      if Needed(dir, remote, p).Some? {
        var op := Needed(dir, remote, p).value;
        assert op.path == p && op in ops;
      }
    }
  }

  lemma OnePerPathConcat(a: seq<Op>, b: seq<Op>)
    requires OnePerPath(a) && OnePerPath(b)
    requires forall x, y | x in a && y in b :: x.path != y.path
    ensures OnePerPath(a + b)
  {
    var ops := a + b;
    forall i, j | 0 <= i < j < |ops| ensures ops[i].path != ops[j].path {
      if i < |a| <= j {
        assert ops[i] in a && ops[j] in b;
      }
    }
  }

  lemma TouchedPaths(dir: Directory, remote: map<Path, Bytes>, ops: seq<Op>)
    requires forall op :: op in ops <==> Needed(dir, remote, op.path) == Some(op)
    ensures forall p :: p in PathsOf(ops) <==> Needed(dir, remote, p).Some?
  {
    forall p ensures p in PathsOf(ops) <==> Needed(dir, remote, p).Some? {
      if Needed(dir, remote, p).Some? {
        var op := Needed(dir, remote, p).value;
        assert op.path == p && op in ops;
      }
    }
  }

  // ---- Any order will do -------------------------------------------------------------

  lemma {:induction false} CountOnce(ops: seq<Op>, op: Op)
    requires OnePerPath(ops)
    ensures multiset(ops)[op] <= 1
  {
    if ops != [] {
      var later := ops[1..];
      forall i, j | 0 <= i < j < |later| ensures later[i].path != later[j].path {
        assert ops[i + 1].path != ops[j + 1].path;
      }
      CountOnce(later, op);
      forall x | x in later ensures x != ops[0] {
        var i :| 0 <= i < |later| && later[i] == x;
        assert ops[0].path != ops[i + 1].path;
      }
      assert ops == [ops[0]] + later;
    }
  }

  lemma CountTwice(ops: seq<Op>, i: nat, j: nat)
    requires i < j < |ops| && ops[i] == ops[j]
    ensures multiset(ops)[ops[i]] >= 2
  {
    assert ops == ops[..j] + [ops[j]] + ops[j + 1..];
    assert ops[i] in ops[..j];
  }

  lemma ReorderedOnePerPath(ops: seq<Op>, order: seq<Op>)
    requires OnePerPath(ops) && multiset(order) == multiset(ops)
    ensures OnePerPath(order)
    ensures forall op :: op in order <==> op in ops
  {
    forall op ensures op in order <==> op in ops {
      assert op in order <==> op in multiset(order);
      assert op in ops <==> op in multiset(ops);
    }
    forall i, j | 0 <= i < j < |order| ensures order[i].path != order[j].path {
      if order[i].path == order[j].path {
        assert order[i] in order && order[j] in order;
        var k :| 0 <= k < |ops| && ops[k] == order[i];
        var l :| 0 <= l < |ops| && ops[l] == order[j];
        assert k == l;
        CountOnce(ops, order[i]);
        CountTwice(order, i, j);
      }
    }
  }
}
