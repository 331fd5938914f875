/** The client: what it knows of each file, how it judges the server's responses, what a scan
    and a synchronization schedule, and how a file is retrieved. */
module Client {
  import opened Protocol
  import opened Tlvs
  import MessageQueues
  import opened Signs

  /** Whether the server has the file: yes, no, or a request for it is on its way. */
  datatype Synced = Yes | No | Waiting

  datatype Resource = Resource(synced: Synced, onServer: bool, digest: Bytes)

  type Directory = map<Path, Resource>

  datatype Kind = Create | Update | Erase

  datatype Op = Op(kind: Kind, path: Path, digest: Bytes)

  function MessageType(kind: Kind): byte {
    match kind
    case Create => CREATE
    case Update => UPDATE
    case Erase => ERASE
  }

  /** Scheduling an operation notes that its outcome is awaited. */
  function Schedule(dir: Directory, op: Op): Directory {
    dir[op.path := Resource(Waiting, op.kind != Create, op.digest)]
  }

  // ---- Responses ---------------------------------------------------------------------

  datatype Verdict = Accepted | Rejected | Raised

  /** The error that means that the server has the file already. */
  function Harmless(kind: Kind): Option<nat> {
    match kind
    case Create => Some(ERR_CREATE_ALREADY_EXIST)
    case Update => Some(ERR_UPDATE_ALREADY_UPDATED)
    case Erase => None
  }

  /** How a response to an operation is taken. A second segment that is neither OK nor a number
      raises an exception, unless the operation is an ERASE. */
  ghost function Judge(op: Op, raw: Bytes): Verdict
    requires IsMessage(raw)
  {
    var ts := Segments(raw);
    if raw[0] != MessageType(op.kind) || |ts| < 2 || ts[0] != Tlv(ITEM, CreateSign(op.path, op.digest)) then Rejected
    else if ts[1].tag == OK then Accepted
    else if op.kind == Erase then Rejected
    else if MessageQueues.Stoi(ts[1].value).None? then Raised
    else if MessageQueues.Stoi(ts[1].value) == Harmless(op.kind) then Accepted
    else Rejected
  }

  /** The directory after an operation on a known path was accepted or rejected. */
  function Settle(dir: Directory, op: Op, accepted: bool): Directory
    requires op.path in dir
  {
    var resource := dir[op.path];
    if !accepted then dir[op.path := resource.(synced := No)]
    else
      match op.kind
      case Create => dir[op.path := resource.(synced := Yes, onServer := true)]
      case Update => dir[op.path := resource.(synced := Yes)]
      case Erase => dir - {op.path}
  }

  /** How the handling of a response ends: with the entry settled, in an exception, or with the
      end of the program because the path is not known any more. */
  datatype Ending = Settled | Interrupted | Exited

  // ---- Scans -------------------------------------------------------------------------

  /** What a scan schedules for a known path without a file. */
  function OnMissing(dir: Directory, path: Path): Option<Op> {
    if path in dir && dir[path].synced != Waiting && dir[path].onServer
    then Some(Op(Erase, path, dir[path].digest))
    else None
  }

  /** What a scan schedules for a file with this digest. */
  function OnFile(dir: Directory, path: Path, digest: Bytes): Option<Op> {
    if path !in dir then Some(Op(Create, path, digest))
    else
      match dir[path].synced
      case Yes => if dir[path].digest != digest then Some(Op(Update, path, digest)) else None
      case No => Some(Op(if dir[path].onServer then Update else Create, path, digest))
      case Waiting => None
  }

  /** The local directory tree: its regular files, and what else exists there. */
  datatype Local = Local(files: map<Path, Bytes>, others: set<Path>)

  predicate Present(local: Local, path: Path) {
    path in local.files || path in local.others
  }

  function ScanKnown(dir: Directory, local: Local, known: seq<Path>): seq<Op> {
    if known == [] then []
    else
      var op := if Present(local, known[0]) then None else OnMissing(dir, known[0]);
      (if op.Some? then [op.value] else []) + ScanKnown(dir, local, known[1..])
  }

  function ScanFiles(h: Hash, dir: Directory, files: map<Path, Bytes>, walk: seq<Path>): seq<Op> {
    if walk == [] then []
    else
      var op := if walk[0] in files then OnFile(dir, walk[0], h(walk[0], files[walk[0]])) else None;
      (if op.Some? then [op.value] else []) + ScanFiles(h, dir, files, walk[1..])
  }

  /** The operations of a round of the watcher: first for the known paths, then for the files. */
  function Round(h: Hash, dir: Directory, local: Local, known: seq<Path>, walk: seq<Path>): seq<Op> {
    ScanKnown(dir, local, known) + ScanFiles(h, dir, local.files, walk)
  }

  // ---- Synchronization ---------------------------------------------------------------

  /** What the walk over a LIST response leaves: the directory, the operations scheduled, the
      paths the server listed; `ok` is false after an exception. */
  datatype Synchronized = Synchronized(dir: Directory, ops: seq<Op>, listed: set<Path>, ok: bool)

  /** What synchronization schedules for a file the server has under this digest. */
  function OnListed(dir: Directory, path: Path, digest: Bytes): Option<Op> {
    if path !in dir then Some(Op(Erase, path, digest))
    else if dir[path].digest != digest then Some(Op(Update, path, dir[path].digest))
    else None
  }

  function Note(dir: Directory, path: Path, digest: Bytes): Directory {
    if path in dir && dir[path].digest == digest then dir[path := dir[path].(synced := Yes, onServer := true)] else dir
  }

  function SyncListed(dir: Directory, ts: seq<Tlv>): Synchronized
    decreases |ts|
  {
    if ts == [] then Synchronized(dir, [], {}, true)
    else if ts[0].tag != ITEM then SyncListed(dir, ts[1..])
    else
      match SplitSign(ts[0].value)
      case None => Synchronized(dir, [], {}, false)
      case Some((path, digest)) =>
        var op := OnListed(dir, path, digest);
        var rest := SyncListed(Note(dir, path, digest), ts[1..]);
        rest.(ops := (if op.Some? then [op.value] else []) + rest.ops, listed := {path} + rest.listed)
  }

  /** `rest` completes what has been posted and listed so far to `r`. */
  ghost predicate Continues(r: Synchronized, start: seq<Op>, rest: Synchronized, posted: seq<Op>, listed: set<Path>) {
    r.ok == rest.ok && r.dir == rest.dir && start + r.ops == posted + rest.ops && r.listed == listed + rest.listed
  }

  lemma SyncStep(r: Synchronized, start: seq<Op>, dir: Directory, todo: seq<Tlv>, posted: seq<Op>, listed: set<Path>)
    requires todo != [] && Continues(r, start, SyncListed(dir, todo), posted, listed)
    ensures todo[0].tag != ITEM ==> Continues(r, start, SyncListed(dir, todo[1..]), posted, listed)
    ensures todo[0].tag == ITEM ==>
              match SplitSign(todo[0].value)
              case None => !r.ok && r.dir == dir && start + r.ops == posted && r.listed == listed
              case Some((path, digest)) =>
                var op := OnListed(dir, path, digest);
                Continues(r, start, SyncListed(Note(dir, path, digest), todo[1..]),
                          posted + (if op.Some? then [op.value] else []), listed + {path})
  {
  }

  /** The creates for the known paths the server did not list. */
  function SyncMissing(dir: Directory, listed: set<Path>, known: seq<Path>): seq<Op> {
    if known == [] then []
    else
      (if known[0] in dir && known[0] !in listed then [Op(Create, known[0], dir[known[0]].digest)] else [])
      + SyncMissing(dir, listed, known[1..])
  }

  /** A LIST response that is not an error. */
  ghost predicate IsListing(raw: Bytes) {
    IsMessage(raw) && raw[0] == LIST && Segments(raw) != [] && Segments(raw)[0].tag != ERROR
  }

  // ---- Retrieval ---------------------------------------------------------------------

  /** The contents a RETRIEVE response carries for `sign`, and the segment the walk stops at. */
  function Collect(sign: Bytes, ts: seq<Tlv>): (Bytes, Option<Tlv>)
    decreases |ts|
  {
    if ts == [] then ([], None)
    else if ts[0] != Tlv(ITEM, sign) then ([], Some(ts[0]))
    else if |ts| < 2 then ([], None)
    else if ts[1].tag != CONTENT then ([], Some(ts[1]))
    else
      var (data, stop) := Collect(sign, ts[2..]);
      (ts[1].value + data, stop)
  }

  /** What a retrieval makes of the local files. Aborted: an exception ends the whole restore. */
  datatype Fetched = Done(files: map<Path, Bytes>) | Failed(files: map<Path, Bytes>) | Aborted(files: map<Path, Bytes>)

  /** `path` is overwritten with what arrives, and removed again when all of it has arrived but
      has another digest. */
  ghost function Fetch(h: Hash, files: map<Path, Bytes>, path: Path, digest: Bytes, raw: Bytes): Fetched
    requires IsMessage(raw)
  {
    if raw[0] != RETRIEVE then Failed(files)
    else
      var (data, stop) := Collect(CreateSign(path, digest), Segments(raw));
      if stop.None? then Aborted(files[path := data])
      else if stop.value.tag != END then Failed(files[path := data])
      else if h(path, data) == digest then Done(files[path := data])
      else Failed(files - {path})
  }

  /** A retrieval is skipped when the file is there already; a copy with another digest is removed
      before the server is asked. */
  ghost function Retrieve(h: Hash, files: map<Path, Bytes>, path: Path, digest: Bytes, response: Option<Bytes>): Fetched
    requires response.Some? ==> IsMessage(response.value)
  {
    if path in files && h(path, files[path]) == digest then Done(files)
    else if response.None? then Failed(files - {path})
    else Fetch(h, files - {path}, path, digest, response.value)
  }

  /** What the server answers to the RETRIEVE for a sign. */
  type Answers = Bytes -> Option<Bytes>

  ghost predicate AreMessages(answers: Answers) {
    forall sign :: answers(sign).Some? ==> IsMessage(answers(sign).value)
  }

  /** A restore retrieves every file of a listing, in order. */
  ghost function Restore(h: Hash, files: map<Path, Bytes>, ts: seq<Tlv>, answers: Answers): Fetched
    requires AreMessages(answers)
    decreases |ts|
  {
    if ts == [] then Done(files)
    else if ts[0].tag != ITEM then Restore(h, files, ts[1..], answers)
    else
      match SplitSign(ts[0].value)
      case None => Aborted(files)
      case Some((path, digest)) =>
        var fetched := Retrieve(h, files, path, digest, answers(ts[0].value));
        if fetched.Aborted? then fetched else Restore(h, fetched.files, ts[1..], answers)
  }

  // ---- The scheduler -----------------------------------------------------------------

  class Scheduler {
    const hash: Hash
    var dir: Directory
    // Scheduled operations whose scheduling step has not run yet.
    var posted: seq<Op>
    // Operations handed to the connection, in sending order.
    var outbox: seq<Op>

    constructor (hash: Hash, dir: Directory)
      ensures this.hash == hash && this.dir == dir && posted == [] && outbox == []
    {
      this.hash, this.dir, posted, outbox := hash, dir, [], [];
    }

    method Post(op: Option<Op>)
      modifies this`posted
      ensures posted == old(posted) + if op.Some? then [op.value] else []
    {
      if op.Some? {
        posted := posted + [op.value];
      }
    }

    /** Runs the scheduling steps that have been posted. */
    method RunPosted()
      modifies this
      ensures posted == [] && outbox == old(outbox) + old(posted)
      ensures dir == ScheduleAll(old(dir), old(posted))
    {
      ghost var all, done := posted, 0;
      while posted != []
        invariant done <= |all| && posted == all[done..]
        invariant outbox == old(outbox) + all[..done]
        invariant ScheduleAll(dir, posted) == ScheduleAll(old(dir), all)
        decreases |posted|
      {
        var op := posted[0];
        dir := dir[op.path := Resource(Waiting, op.kind != Create, op.digest)];
        outbox := outbox + [op];
        posted := posted[1..];
        done := done + 1;
      }
      assert all[..done] == all;
    }

    /** Judges a response: the type, the sign, then OK or an error that is as good. */
    method JudgeResponse(op: Op, raw: Bytes) returns (verdict: Verdict)
      requires IsMessage(raw)
      ensures verdict == Judge(op, raw)
    {
      var view := new TlvView(raw);
      if raw[0] != MessageType(op.kind) {
        return Rejected;
      }
      var more := view.NextTlv();
      if !more || view.tag != ITEM || view.Current().value.value != CreateSign(op.path, op.digest) {
        return Rejected;
      }
      more := view.NextTlv();
      if !more {
        return Rejected;
      }
      if view.tag == OK {
        return Accepted;
      }
      if op.kind == Erase {
        return Rejected;
      }
      var code := MessageQueues.Stoi(view.Current().value.value);
      if code.None? {
        return Raised;
      }
      verdict := if code == Harmless(op.kind) then Accepted else Rejected;
    }

    /** Handles the end of an operation: a response, or none when the connection failed. */
    method HandleResponse(op: Op, response: Option<Bytes>) returns (ending: Ending)
      requires response.Some? ==> IsMessage(response.value)
      modifies this`dir
      ensures ending == if op.path !in old(dir) then Exited
                        else if response.Some? && Judge(op, response.value).Raised? then Interrupted else Settled
      ensures ending == Settled ==>
                dir == Settle(old(dir), op, response.Some? && Judge(op, response.value).Accepted?)
      ensures ending != Settled ==> dir == old(dir)
    {
      if op.path !in dir {
        return Exited;
      }
      var resource := dir[op.path];
      if response.None? {
        dir := dir[op.path := resource.(synced := No)];
        return Settled;
      }
      var verdict := JudgeResponse(op, response.value);
      if verdict == Raised {
        return Interrupted;
      }
      if verdict == Accepted {
        match op.kind {
          case Create => dir := dir[op.path := resource.(synced := Yes, onServer := true)];
          case Update => dir := dir[op.path := resource.(synced := Yes)];
          case Erase => dir := dir - {op.path};
        }
      } else {
        dir := dir[op.path := resource.(synced := No)];
      }
      return Settled;
    }

    method ScanKnownPaths(local: Local, known: seq<Path>)
      modifies this`posted
      ensures posted == old(posted) + ScanKnown(dir, local, known)
    {
      ghost var target := posted + ScanKnown(dir, local, known);
      var i := 0;
      while i < |known|
        invariant i <= |known|
        invariant posted + ScanKnown(dir, local, known[i..]) == target
      {
        assert known[i..][1..] == known[i + 1..];
        var path := known[i];
        if !Present(local, path) {
          Post(OnMissing(dir, path));
        }
        i := i + 1;
      }
    }

    method ScanTree(files: map<Path, Bytes>, walk: seq<Path>)
      modifies this`posted
      ensures posted == old(posted) + ScanFiles(hash, dir, files, walk)
    {
      ghost var target := posted + ScanFiles(hash, dir, files, walk);
      var i := 0;
      while i < |walk|
        invariant i <= |walk|
        invariant posted + ScanFiles(hash, dir, files, walk[i..]) == target
      {
        assert walk[i..][1..] == walk[i + 1..];
        var path := walk[i];
        if path in files {
          Post(OnFile(dir, path, hash(path, files[path])));
        }
        i := i + 1;
      }
    }

    /** One round of the file watcher: first the known paths, then the files. */
    method Scan(local: Local, known: seq<Path>, walk: seq<Path>)
      modifies this`posted
      ensures posted == old(posted) + Round(hash, dir, local, known, walk)
    {
      ScanKnownPaths(local, known);
      ScanTree(local.files, walk);
    }

    /** Takes note of one file of a listing. */
    method TakeListed(path: Path, digest: Bytes)
      modifies this`dir, this`posted
      ensures dir == Note(old(dir), path, digest)
      ensures posted == old(posted) + var op := OnListed(old(dir), path, digest); if op.Some? then [op.value] else []
    {
      Post(OnListed(dir, path, digest));
      if path in dir && dir[path].digest == digest {
        dir := dir[path := dir[path].(synced := Yes, onServer := true)];
      }
    }

    /** Walks a listing and posts the operations that reconcile the server with the directory. */
    method SyncWithListing(raw: Bytes) returns (ok: bool, listed: set<Path>)
      requires IsMessage(raw)
      modifies this`dir, this`posted
      ensures var r := SyncListed(old(dir), Segments(raw));
              ok == r.ok && dir == r.dir && posted == old(posted) + r.ops && listed == r.listed
    {
      var view := new TlvView(raw);
      ghost var r, start, todo := SyncListed(dir, Segments(raw)), posted, Segments(raw);
      listed := {};
      var more := view.NextTlv();
      while more
        invariant view.Valid() && fresh(view)
        invariant more <==> todo != []
        invariant more ==> view.Current() == Some(todo[0]) && view.Rest() == todo[1..]
        invariant Continues(r, start, SyncListed(dir, todo), posted, listed)
        decreases |todo|
      {
        SyncStep(r, start, dir, todo, posted, listed);
        if view.tag == ITEM {
          var pair := SplitSign(view.Current().value.value);
          if pair.None? {
            return false, listed;
          }
          listed := listed + {pair.value.0};
          TakeListed(pair.value.0, pair.value.1);
        }
        todo := todo[1..];
        more := view.NextTlv();
      }
      return true, listed;
    }

    method PostMissing(listed: set<Path>, known: seq<Path>)
      modifies this`posted
      ensures posted == old(posted) + SyncMissing(dir, listed, known)
    {
      ghost var target := posted + SyncMissing(dir, listed, known);
      var i := 0;
      while i < |known|
        invariant i <= |known|
        invariant posted + SyncMissing(dir, listed, known[i..]) == target
      {
        assert known[i..][1..] == known[i + 1..];
        var path := known[i];
        if path in dir && path !in listed {
          Post(Some(Op(Create, path, dir[path].digest)));
        }
        i := i + 1;
      }
    }

    /** A synchronization: false when the response is no listing or breaks off in an exception; what
        has been noted and posted by then stays. */
    method Sync(raw: Bytes, known: seq<Path>) returns (ok: bool)
      requires IsMessage(raw)
      modifies this`dir, this`posted
      ensures var r := SyncListed(old(dir), Segments(raw));
              && ok == (IsListing(raw) && r.ok)
              && dir == (if IsListing(raw) then r.dir else old(dir))
              && posted == old(posted) + (if IsListing(raw) then r.ops else [])
                           + (if ok then SyncMissing(r.dir, r.listed, known) else [])
    {
      var view := new TlvView(raw);
      var more := view.NextTlv();
      if raw[0] != LIST || !more || view.tag == ERROR {
        return false;
      }
      var listed;
      ok, listed := SyncWithListing(raw);
      if ok {
        PostMissing(listed, known);
      }
    }

    /** Takes the next two segments when they carry contents for `sign`. */
    method NextContents(view: TlvView, sign: Bytes) returns (data: Option<Bytes>)
      requires view.Valid()
      modifies view
      ensures view.Valid()
      ensures var ts := old(view.Rest());
              if |ts| >= 2 && ts[0] == Tlv(ITEM, sign) && ts[1].tag == CONTENT
              then data == Some(ts[1].value) && view.Rest() == ts[2..]
              else data == None && Collect(sign, ts) == ([], view.Current())
    {
      ghost var ts := view.Rest();
      var more := view.NextTlv();
      if !more || view.tag != ITEM || view.Current().value.value != sign {
        return None;
      }
      more := view.NextTlv();
      if !more || view.tag != CONTENT {
        return None;
      }
      assert ts[1..][1..] == ts[2..];
      return Some(view.Current().value.value);
    }

    /** Writes the contents of a RETRIEVE response to a file. */
    method CollectContents(raw: Bytes, sign: Bytes) returns (data: Bytes, stop: Option<Tlv>)
      requires IsMessage(raw)
      ensures (data, stop) == Collect(sign, Segments(raw))
    {
      var view := new TlvView(raw);
      data := [];
      ghost var all := Collect(sign, Segments(raw));
      assert data + all.0 == all.0;
      while true
        invariant view.Valid() && fresh(view)
        invariant all == (data + Collect(sign, view.Rest()).0, Collect(sign, view.Rest()).1)
        decreases |view.Rest()|
      {
        ghost var ts := view.Rest();
        var next := NextContents(view, sign);
        if next.None? {
          assert data + [] == data;
          break;
        }
        assert data + (next.value + Collect(sign, ts[2..]).0) == data + next.value + Collect(sign, ts[2..]).0;
        data := data + next.value;
      }
      stop := view.Current();
    }

    method FetchFile(files: map<Path, Bytes>, path: Path, digest: Bytes, raw: Bytes) returns (fetched: Fetched)
      requires IsMessage(raw)
      ensures fetched == Fetch(hash, files, path, digest, raw)
    {
      if raw[0] != RETRIEVE {
        return Failed(files);
      }
      var data, stop := CollectContents(raw, CreateSign(path, digest));
      if stop.None? {
        return Aborted(files[path := data]);
      }
      if stop.value.tag != END {
        return Failed(files[path := data]);
      }
      if hash(path, data) != digest {
        return Failed(files - {path});
      }
      return Done(files[path := data]);
    }

    method RetrieveFile(files: map<Path, Bytes>, path: Path, digest: Bytes, response: Option<Bytes>)
      returns (fetched: Fetched)
      requires response.Some? ==> IsMessage(response.value)
      ensures fetched == Retrieve(hash, files, path, digest, response)
    {
      if path in files {
        if hash(path, files[path]) == digest {
          return Done(files);
        }
      }
      var rest := files - {path};
      if response.None? {
        return Failed(rest);
      }
      fetched := FetchFile(rest, path, digest, response.value);
    }

    /** Walks a listing and retrieves its files; None when the response is no listing. */
    method RestoreFiles(files: map<Path, Bytes>, raw: Bytes, answers: Answers) returns (restored: Option<Fetched>)
      requires IsMessage(raw) && AreMessages(answers)
      ensures restored == if IsListing(raw) then Some(Restore(hash, files, Segments(raw), answers)) else None
    {
      var view := new TlvView(raw);
      ghost var target, todo := Restore(hash, files, Segments(raw), answers), Segments(raw);
      var more := view.NextTlv();
      if raw[0] != LIST || !more || view.tag == ERROR {
        return None;
      }
      var current := files;
      while more
        invariant view.Valid() && fresh(view)
        invariant more <==> todo != []
        invariant more ==> view.Current() == Some(todo[0]) && view.Rest() == todo[1..]
        invariant target == Restore(hash, current, todo, answers)
        decreases |todo|
      {
        if view.tag == ITEM {
          var sign := view.Current().value.value;
          var pair := SplitSign(sign);
          if pair.None? {
            return Some(Aborted(current));
          }
          var fetched := RetrieveFile(current, pair.value.0, pair.value.1, answers(sign));
          if fetched.Aborted? {
            return Some(fetched);
          }
          current := fetched.files;
        }
        todo := todo[1..];
        more := view.NextTlv();
      }
      return Some(Done(current));
    }
  }

  function ScheduleAll(dir: Directory, ops: seq<Op>): Directory
    decreases |ops|
  {
    if ops == [] then dir else ScheduleAll(Schedule(dir, ops[0]), ops[1..])
  }
}
