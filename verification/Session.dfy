/** What every run of requests keeps on the server. */
module Sessions {
  import opened Protocol
  import opened Tlvs
  import opened Signs
  import opened Server

  // ---- Runs --------------------------------------------------------------------------

  ghost predicate AllMessages(es: seq<Event>) {
    forall e | e in es :: IsMessage(e.raw)
  }

  ghost function Run(w: World, s: State, es: seq<Event>): State
    requires AllMessages(es)
    decreases |es|
  {
    if es == [] then s else Run(w, Step(w, s, es[0]).0, es[1..])
  }

  /** A session before its first request. */
  predicate Fresh(s: State) {
    !s.auth && !s.synced && s.entries == map[] && s.stream == Closed
  }

  // ---- Phases ------------------------------------------------------------------------

  /** Until both phase steps are taken no request touches the disk or the stream; the phase
      goes on by a valid AUTH, then by a LIST. */
  lemma EarlyPhases(w: World, s: State, e: Event)
    requires IsMessage(e.raw) && !(s.auth && s.synced)
    ensures var s' := Step(w, s, e).0;
            && s'.disk == s.disk && s'.stream == s.stream
            && (s.auth ==> s'.auth)
            && (s'.auth && !s.auth ==> ValidAuth(w, e) && s'.synced == s.synced)
            && (s'.synced && !s.synced ==> s.auth && e.raw[0] == LIST)
  {
  }

  /** A session that may touch the disk stays one. */
  lemma LastPhase(w: World, s: State, e: Event)
    requires IsMessage(e.raw) && s.auth && s.synced
    ensures Step(w, s, e).0.auth && Step(w, s, e).0.synced
  {
    UploadKeepsPhase(w.hash, s, Segments(e.raw), IsLast(e.raw), e.raw[0] == UPDATE);
    hide HandleUpload, Segments, IsMessage;
  }

  lemma UploadKeepsPhase(h: Hash, s: State, ts: seq<Tlv>, last: bool, update: bool)
    ensures ts != [] ==> HandleUpload(h, s, ts, last, update).state.auth == s.auth
    ensures ts != [] ==> HandleUpload(h, s, ts, last, update).state.synced == s.synced
  {
  }

  ghost predicate ValidAuth(w: World, e: Event)
    requires IsMessage(e.raw)
  {
    var ts := Segments(e.raw);
    && e.raw[0] == AUTH && |ts| >= 2 && ts[0].tag == USRN && ts[1].tag == PSWD
    && w.login(ts[0].value, ts[1].value)
  }

  lemma {:induction false} RunSnoc(w: World, s: State, es: seq<Event>, e: Event)
    requires AllMessages(es) && IsMessage(e.raw)
    ensures AllMessages(es + [e])
    ensures Run(w, s, es + [e]) == Step(w, Run(w, s, es), e).0
    decreases |es|
  {
    if es == [] {
      assert [] + [e] == [e];
    } else {
      assert (es + [e])[1..] == es[1..] + [e];
      RunSnoc(w, Step(w, s, es[0]).0, es[1..], e);
    }
  }

  /** The session before the `i`-th request of a run. */
  ghost function Before(w: World, s: State, es: seq<Event>, i: nat): State
    requires AllMessages(es) && i <= |es|
  {
    Run(w, s, es[..i])
  }

  /** The `i`-th request is the valid AUTH that logs the session in. */
  ghost predicate LogsInAt(w: World, s: State, es: seq<Event>, i: nat)
    requires AllMessages(es)
  {
    && i < |es| && ValidAuth(w, es[i])
    && !Before(w, s, es, i).auth && Step(w, Before(w, s, es, i), es[i]).0.auth
  }

  /** The `j`-th request is the LIST that succeeds. */
  ghost predicate ListsAt(w: World, s: State, es: seq<Event>, j: nat)
    requires AllMessages(es)
  {
    && j < |es| && es[j].raw[0] == LIST
    && var before := Before(w, s, es, j);
    && before.auth && !before.synced && Step(w, before, es[j]).0.synced
  }

  /** A successful AUTH occurs in the run, and later on a successful LIST. */
  ghost predicate Unlocked(w: World, s: State, es: seq<Event>)
    requires AllMessages(es)
  {
    exists i, j :: i < j && LogsInAt(w, s, es, i) && ListsAt(w, s, es, j)
  }

  lemma LongerRun(w: World, s: State, front: seq<Event>, e: Event)
    requires AllMessages(front) && IsMessage(e.raw)
    ensures AllMessages(front + [e])
    ensures forall i | LogsInAt(w, s, front, i) :: LogsInAt(w, s, front + [e], i)
    ensures forall j | ListsAt(w, s, front, j) :: ListsAt(w, s, front + [e], j)
    ensures Before(w, s, front + [e], |front|) == Run(w, s, front)
  {
    hide Step, ValidAuth;
    var es := front + [e];
    assert es[..|front|] == front;
    forall i: nat | i < |front| ensures es[..i] == front[..i] && es[i] == front[i] {
    }
  }

  lemma {:induction false} RunPhases(w: World, s: State, es: seq<Event>)
    requires AllMessages(es) && Fresh(s)
    ensures var r := Run(w, s, es);
            && (r.synced ==> r.auth)
            && (r.auth ==> exists i :: LogsInAt(w, s, es, i))
            && (r.synced ==> Unlocked(w, s, es))
            && (!r.synced ==> r.disk == s.disk && r.stream == Closed)
    decreases |es|
  {
    if es != [] {
      var front, e := es[..|es| - 1], es[|es| - 1];
      assert es == front + [e];
      RunPhases(w, s, front);
      RunSnoc(w, s, front, e);
      LongerRun(w, s, front, e);
      PhaseStep(w, s, front, e);
    }
  }

  lemma PhaseStep(w: World, s: State, front: seq<Event>, e: Event)
    requires AllMessages(front) && IsMessage(e.raw) && AllMessages(front + [e])
    requires Before(w, s, front + [e], |front|) == Run(w, s, front)
    ensures var r, r', es := Run(w, s, front), Step(w, Run(w, s, front), e).0, front + [e];
            && (r.auth ==> r'.auth) && (r.auth && r.synced ==> r'.synced)
            && (!(r.auth && r.synced) ==> r'.disk == r.disk && r'.stream == r.stream)
            && (!r.auth && r'.auth ==> LogsInAt(w, s, es, |front|) && r'.synced == r.synced)
            && (!r.synced && r'.synced ==> r.auth && ListsAt(w, s, es, |front|))
  {
    var r := Run(w, s, front);
    if r.auth && r.synced {
      LastPhase(w, r, e);
    } else {
      EarlyPhases(w, r, e);
    }
    hide Step, ValidAuth, IsMessage, Run;
  }

  /** Nothing on the disk changes in a session without a successful AUTH, then a successful LIST, and
      then a further request: if the disk differs after a request, the two came before it. */
  lemma {:induction false} DiskNeedsAuthAndList(w: World, s: State, es: seq<Event>)
    requires AllMessages(es) && Fresh(s)
    requires Run(w, s, es).disk != s.disk
    ensures es != [] && Unlocked(w, s, es[..|es| - 1])
    decreases |es|
  {
    var front, e := es[..|es| - 1], es[|es| - 1];
    assert es == front + [e];
    RunSnoc(w, s, front, e);
    RunPhases(w, s, front);
    var r := Run(w, s, front);
    if !(r.auth && r.synced) {
      EarlyPhases(w, r, e);
    }
  }

  // ---- The invariant -----------------------------------------------------------------

  /** The paths of interest: none is the working copy of another. */
  ghost predicate NoWorkingCopies(paths: set<Path>) {
    forall p | p in paths :: TempPath(p) !in paths
  }

  ghost predicate IsWorkingCopy(paths: set<Path>, t: Path) {
    exists p :: p in paths && t == TempPath(p)
  }

  /** Every tracked file whose digest is not the placeholder is on the disk with exactly that
      digest. */
  ghost predicate EntriesMatch(h: Hash, s: State) {
    forall p | p in s.entries ::
      p in s.disk && (s.entries[p].digest != TEMP ==> h(p, s.disk[p]) == s.entries[p].digest)
  }

  predicate IsPlaceholder(s: State, path: Path) {
    path in s.entries && !s.entries[path].synced && s.entries[path].digest == TEMP
  }

  /** An open stream writes to a working copy, or to a file whose entry is the placeholder. */
  ghost predicate StreamIsHarmless(paths: set<Path>, s: State) {
    s.stream.Open? ==>
      s.stream.path in s.disk && (IsWorkingCopy(paths, s.stream.path) || IsPlaceholder(s, s.stream.path))
  }

  ghost predicate Inv(h: Hash, paths: set<Path>, s: State) {
    && s.entries.Keys <= paths
    && EntriesMatch(h, s)
    && StreamIsHarmless(paths, s)
    && (s.synced ==> s.auth)
    && (!s.synced ==> s.entries == map[] && s.stream == Closed && s.disk.Keys <= paths)
  }

  /** The path a request is about, if it has one. */
  ghost function Requested(raw: Bytes): Option<Path>
    requires IsMessage(raw)
  {
    var ts := Segments(raw);
    if ts == [] || ts[0].tag != ITEM then None
    else
      match SplitSign(ts[0].value)
      case None => None
      case Some(pair) => Some(pair.0)
  }

  ghost predicate Within(paths: set<Path>, e: Event) {
    IsMessage(e.raw) && (Requested(e.raw).Some? ==> Requested(e.raw).value in paths)
  }

  /** Opening and appending changes no file but the one the stream writes to. */
  lemma AppendFrame(s: State, path: Path, data: Bytes)
    ensures var r := WriteStream(GetStream(s, path), data);
            && r == s.(disk := r.disk, stream := if s.stream.Closed? then Open(path) else s.stream)
            && r.disk.Keys == s.disk.Keys + {path}
            && forall q | q in s.disk && r.stream != Open(q) :: r.disk[q] == s.disk[q]
  {
  }

  lemma CheckKeepsInv(h: Hash, paths: set<Path>, s: State, path: Path, digest: Bytes, noMatch: nat)
    requires path in s.disk && path in paths && s.stream.Closed? && s.synced && s.auth
    requires s.entries.Keys <= paths && path in s.entries && s.entries[path] == Entry(true, digest)
    requires forall p | p in s.entries && p != path ::
      p in s.disk && (s.entries[p].digest != TEMP ==> h(p, s.disk[p]) == s.entries[p].digest)
    ensures Inv(h, paths, CheckDigest(h, s, path, digest, noMatch).0)
  {
  }

  lemma CreateKeepsInv(h: Hash, paths: set<Path>, s: State, path: Path, digest: Bytes, data: Bytes, last: bool)
    requires Inv(h, paths, s) && s.synced && NoWorkingCopies(paths) && path in paths
    ensures Inv(h, paths, CreateChunk(h, s, path, digest, data, last).0)
  {
    AppendFrame(s, path, data);
    hide GetStream, WriteStream;
    if last && !(path in s.entries && s.entries[path].synced) {
      var r := WriteStream(GetStream(s, path), data);
      var noted := r.(entries := s.entries[path := Entry(true, digest)], stream := Closed);
      CheckKeepsInv(h, paths, noted, path, digest, ERR_CREATE_NO_MATCH);
    }
  }

  lemma UpdateKeepsInv(h: Hash, paths: set<Path>, s: State, path: Path, digest: Bytes, data: Bytes, last: bool)
    requires Inv(h, paths, s) && s.synced && NoWorkingCopies(paths) && path in paths
    ensures Inv(h, paths, UpdateChunk(h, s, path, digest, data, last).0)
  {
    AppendFrame(s, TempPath(path), data);
    hide GetStream, WriteStream;
    if last && path in s.entries && s.entries[path].digest != digest {
      var r := WriteStream(GetStream(s, TempPath(path)), data);
      var noted := r.(entries := s.entries[path := Entry(true, digest)], stream := Closed);
      var moved := RenameFile(RemoveFile(noted, path), TempPath(path), path);
      CheckKeepsInv(h, paths, moved, path, digest, ERR_UPDATE_NO_MATCH);
    }
  }

  lemma EraseKeepsInv(h: Hash, paths: set<Path>, s: State, path: Path, digest: Bytes)
    requires Inv(h, paths, s) && s.synced
    ensures Inv(h, paths, EraseFile(s, path, digest).0)
  {
  }

  lemma {:induction false} ListFilesMatch(h: Hash, disk: map<Path, Bytes>, entries: map<Path, Entry>, walk: seq<Path>)
    requires forall p | p in entries :: p in disk && entries[p] == Entry(true, h(p, disk[p]))
    ensures var listing := ListFiles(h, disk, entries, walk);
            forall p | p in listing.entries :: p in disk && listing.entries[p] == Entry(true, h(p, disk[p]))
    decreases |walk|
  {
    if walk != [] {
      var p := walk[0];
      if p !in disk {
        ListFilesMatch(h, disk, entries, walk[1..]);
      } else if p !in entries {
        ListFilesMatch(h, disk, entries[p := Entry(true, h(p, disk[p]))], walk[1..]);
      }
    }
  }

  lemma UploadKeepsInv(h: Hash, paths: set<Path>, s: State, ts: seq<Tlv>, last: bool, update: bool)
    requires Inv(h, paths, s) && s.synced && NoWorkingCopies(paths) && ts != []
    requires ts[0].tag == ITEM && SplitSign(ts[0].value).Some? ==> SplitSign(ts[0].value).value.0 in paths
    ensures Inv(h, paths, HandleUpload(h, s, ts, last, update).state)
  {
    if ts[0].tag == ITEM && SplitSign(ts[0].value).Some? && |ts| >= 2 {
      var (path, digest) := SplitSign(ts[0].value).value;
      if update {
        UpdateKeepsInv(h, paths, s, path, digest, ts[1].value, last);
      } else {
        CreateKeepsInv(h, paths, s, path, digest, ts[1].value, last);
      }
    }
  }

  /** One request, whatever it is, keeps the invariant; a successful LIST establishes it for the
      files it finds. */
  lemma StepKeepsInv(w: World, paths: set<Path>, s: State, e: Event)
    requires Inv(w.hash, paths, s) && NoWorkingCopies(paths) && Within(paths, e)
    ensures Inv(w.hash, paths, Step(w, s, e).0)
  {
    var msgType, ts := e.raw[0], Segments(e.raw);
    if ts == [] || !s.auth {
    } else if !s.synced {
      ListFilesMatch(w.hash, s.disk, map[], e.walk);
    } else if msgType == CREATE || msgType == UPDATE {
      UploadKeepsInv(w.hash, paths, s, ts, IsLast(e.raw), msgType == UPDATE);
    } else if msgType == ERASE && ts[0].tag == ITEM && SplitSign(ts[0].value).Some? {
      var (path, digest) := SplitSign(ts[0].value).value;
      EraseKeepsInv(w.hash, paths, s, path, digest);
    }
  }

  ghost predicate AllWithin(paths: set<Path>, es: seq<Event>) {
    AllMessages(es) && forall e | e in es :: Within(paths, e)
  }

  /** The server invariant holds after every run of requests of a session, however uploads are
      interleaved or abandoned. */
  lemma {:induction false} RunKeepsInv(w: World, paths: set<Path>, s: State, es: seq<Event>)
    requires Inv(w.hash, paths, s) && NoWorkingCopies(paths) && AllWithin(paths, es)
    ensures Inv(w.hash, paths, Run(w, s, es))
    decreases |es|
  {
    if es != [] {
      assert es[0] in es;
      StepKeepsInv(w, paths, s, es[0]);
      RunKeepsInv(w, paths, Step(w, s, es[0]).0, es[1..]);
    }
  }

  /** So it holds throughout every session that starts on a disk without working copies. */
  lemma SessionKeepsInv(w: World, paths: set<Path>, s: State, es: seq<Event>)
    requires Fresh(s) && s.disk.Keys <= paths && NoWorkingCopies(paths) && AllWithin(paths, es)
    ensures Inv(w.hash, paths, Run(w, s, es))
  {
    RunKeepsInv(w, paths, s, es);
  }

  // ---- The hypothesis on the paths is necessary --------------------------------------

  /** A chunk, of a CREATE and of an UPDATE, keeps the invariant. */
  ghost predicate ChunkKeeps(h: Hash, paths: set<Path>, s: State, path: Path, digest: Bytes, data: Bytes, last: bool) {
    && Inv(h, paths, CreateChunk(h, s, path, digest, data, last).0)
    && Inv(h, paths, UpdateChunk(h, s, path, digest, data, last).0)
  }

  /** Chunks for the paths of interest keep the invariant, whatever the digests, the server, the
      file and its content. */
  ghost predicate ChunksKeep(paths: set<Path>) {
    forall h: Hash, s: State, path: Path, digest: Bytes, data: Bytes, last: bool ::
      Inv(h, paths, s) && s.synced && path in paths ==> ChunkKeeps(h, paths, s, path, digest, data, last)
  }

  function Repeated(digit: byte): Digest
    requires digit != 0
  {
    seq(32, _ => digit)
  }

  function TellsEmpty(path: Path, content: Bytes): Digest {
    if content == [] then Repeated(48) else Repeated(49)
  }

  /** The server with two empty files at `path` and at its working copy. */
  function TwoEmpty(path: Path): State {
    State(true, true,
          map[path := Entry(true, Repeated(48)), TempPath(path) := Entry(true, Repeated(48))],
          map[path := [], TempPath(path) := []],
          Closed)
  }

  /** The first chunk of an UPDATE of `path` is appended to a tracked file at its working copy. */
  lemma TrackedWorkingCopyBreaks(paths: set<Path>, path: Path)
    requires path in paths && TempPath(path) in paths
    ensures Inv(TellsEmpty, paths, TwoEmpty(path))
    ensures !Inv(TellsEmpty, paths, UpdateChunk(TellsEmpty, TwoEmpty(path), path, Repeated(49), [1], false).0)
  {
    var s, copy := TwoEmpty(path), TempPath(path);
    assert |copy| == |path| + 5;
    assert Repeated(48)[0] != Repeated(49)[0];
    var r := UpdateChunk(TellsEmpty, s, path, Repeated(49), [1], false).0;
    assert r.disk[copy] == [1] && r.entries[copy] == Entry(true, Repeated(48));
  }

  /** The chunks of uploads keep the invariant if and only if no path of interest is the working
      copy of another. */
  lemma KeptExactly(paths: set<Path>)
    ensures ChunksKeep(paths) <==> NoWorkingCopies(paths)
  {
    if NoWorkingCopies(paths) {
      forall h: Hash, s: State, path: Path, digest: Bytes, data: Bytes, last: bool |
        Inv(h, paths, s) && s.synced && path in paths
        ensures ChunkKeeps(h, paths, s, path, digest, data, last)
      {
        CreateKeepsInv(h, paths, s, path, digest, data, last);
        UpdateKeepsInv(h, paths, s, path, digest, data, last);
      }
      hide *;
    } else {
      var path :| path in paths && TempPath(path) in paths;
      TrackedWorkingCopyBreaks(paths, path);
      assert !ChunkKeeps(TellsEmpty, paths, TwoEmpty(path), path, Repeated(49), [1], false);
      hide Inv, UpdateChunk, CreateChunk, NoWorkingCopies;
    }
  }
}
