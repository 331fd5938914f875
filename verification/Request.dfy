/** One request in a session that may touch the disk: what it changes, what it leaves alone and what is
    replied. */
module Requests {
  import opened Protocol
  import opened Tlvs
  import opened MessageQueues
  import opened Signs
  import opened Server
  import opened Sessions
  import opened Uploads
  import opened Operations

  // ---- Replies, segment by segment ---------------------------------------------------

  /** What is replied after `items` when all went well. */
  function Success(items: seq<Tlv>): Outcome {
    Replied(Packed(items + [Tlv(OK, []), Tlv(END, [])]))
  }

  /** What is replied after `items` with an error. */
  function Failure(items: seq<Tlv>, code: nat): Outcome {
    Replied(Packed(items + [Tlv(ERROR, ToDecimal(code)), Tlv(END, [])]))
  }

  /** A code of three digits travels as these digits, the highest first, in ASCII. */
  lemma CodeInDigits(a: nat, b: nat, c: nat)
    requires 1 <= a <= 9 && b <= 9 && c <= 9
    ensures ToDecimal(100 * a + 10 * b + c) == [(48 + a) as byte, (48 + b) as byte, (48 + c) as byte]
  {
    var n := 100 * a + 10 * b + c;
    assert n / 10 == 10 * a + b && n % 10 == c;
    assert n / 10 / 10 == a && n / 10 % 10 == b;
    assert ToDecimal(n) == ToDecimal(n / 10) + [(48 + c) as byte];
    assert ToDecimal(n / 10) == ToDecimal(a) + [(48 + b) as byte];
  }

  // ---- Refusals ----------------------------------------------------------------------

  /** The types of request a session takes in each of its phases. */
  function Allowed(s: State): set<byte> {
    if !s.auth then {AUTH} else if !s.synced then {LIST} else {CREATE, UPDATE, ERASE, RETRIEVE, KEEP_ALIVE}
  }

  /** The request changes nothing and is replied to with this error alone; for a NONE or a RETRIEVE there
      is no message the error could go to. */
  ghost predicate Refused(w: World, s: State, e: Event, code: nat)
    requires IsMessage(e.raw)
  {
    Step(w, s, e) == (s, if e.raw[0] in {NONE, RETRIEVE} then Undefined else Failure([], code))
  }

  lemma NoItems(code: nat)
    requires code != ERR_NONE
    ensures [] + [Tlv(ERROR, ToDecimal(code)), Tlv(END, [])] == Closing(code)
  {
  }

  /** A request without segments, and one of a type that is not allowed in the phase, are refused, each
      with its own error. */
  lemma RefusedByType(w: World, s: State, e: Event)
    requires IsMessage(e.raw)
    ensures Segments(e.raw) == [] ==> Refused(w, s, e, ERR_NO_CONTENT)
    ensures Segments(e.raw) != [] && e.raw[0] !in Allowed(s) ==> Refused(w, s, e, ERR_MSG_TYPE_REJECTED)
  {
    NoItems(ERR_NO_CONTENT);
    NoItems(ERR_MSG_TYPE_REJECTED);
    hide Segments, IsMessage, IsLast, Packed, ToDecimal, HandleAuth, HandleList, HandleUpload, HandleErase,
         HandleRetrieve;
  }

  /** The errors of requests that lack the segment they need. */
  lemma RefusedByContent(w: World, s: State, e: Event)
    requires IsMessage(e.raw) && Segments(e.raw) != []
    ensures var t, ts := e.raw[0], Segments(e.raw);
            && (!s.auth && t == AUTH && ts[0].tag != USRN ==> Refused(w, s, e, ERR_AUTH_NO_USRN))
            && (!s.auth && t == AUTH && ts[0].tag == USRN && (|ts| < 2 || ts[1].tag != PSWD) ==>
                  Refused(w, s, e, ERR_AUTH_NO_PSWD))
            && (!s.auth && t == AUTH && ts[0].tag == USRN && |ts| >= 2 && ts[1].tag == PSWD && !ValidAuth(w, e) ==>
                  Refused(w, s, e, ERR_AUTH_FAILED))
            && (s.auth && s.synced && ts[0].tag != ITEM ==>
                  && (t == CREATE ==> Refused(w, s, e, ERR_CREATE_NO_ITEM))
                  && (t == UPDATE ==> Refused(w, s, e, ERR_UPDATE_NO_ITEM))
                  && (t == ERASE ==> Refused(w, s, e, ERR_ERASE_NO_ITEM)))
  {
    NoItems(ERR_AUTH_NO_USRN);
    NoItems(ERR_AUTH_NO_PSWD);
    NoItems(ERR_AUTH_FAILED);
    NoItems(ERR_CREATE_NO_ITEM);
    NoItems(ERR_UPDATE_NO_ITEM);
    NoItems(ERR_ERASE_NO_ITEM);
    hide Segments, IsMessage, IsLast, Packed, ToDecimal;
    hide HandleRetrieve, HandleList, CreateChunk, UpdateChunk, EraseFile;
  }

  /** A chunk request names its file, and without content it is refused with the name and an error. */
  lemma RefusedWithoutContent(w: World, s: State, e: Event)
    requires IsMessage(e.raw) && s.auth && s.synced && e.raw[0] in {CREATE, UPDATE}
    requires var ts := Segments(e.raw);
             ts != [] && ts[0].tag == ITEM && 0 in ts[0].value && (|ts| < 2 || ts[1].tag != CONTENT)
    ensures var code := if e.raw[0] == CREATE then ERR_CREATE_NO_CONTENT else ERR_UPDATE_NO_CONTENT;
            Step(w, s, e) == (s, Failure([Segments(e.raw)[0]], code))
  {
    SplitSignExact(Segments(e.raw)[0].value, [], []);
    hide Segments, IsMessage, IsLast, Packed, ToDecimal, CreateChunk, UpdateChunk, SplitSign;
  }

  /** The code of a chunk: a create is refused exactly for a file that is synced already, an update exactly
      for one that is not tracked or has the announced digest; other chunks are accepted, but for a last
      one whose file does not match. */
  lemma ChunkCodes(h: Hash, s: State, path: Path, digest: Bytes, data: Bytes, last: bool, update: bool)
    ensures var (r, code) := Chunk(h, s, path, digest, data, last, update);
            var refusal := if !update then if HasSynced(s, path) then Some(ERR_CREATE_ALREADY_EXIST) else None
                           else if path !in s.entries then Some(ERR_UPDATE_NOT_EXIST)
                           else if HasDigest(s, path, digest) then Some(ERR_UPDATE_ALREADY_UPDATED) else None;
            && (refusal.Some? ==> r == s && code == refusal.value)
            && (refusal.None? && code != ERR_NONE ==>
                  last && code == if update then ERR_UPDATE_NO_MATCH else ERR_CREATE_NO_MATCH)
  {
  }

  // ---- Requests that only ask --------------------------------------------------------

  /** In a listed session a request of any type but CREATE, UPDATE and ERASE changes nothing at all, and a
      keep-alive with a segment is replied to with OK. */
  lemma AskingChangesNothing(w: World, s: State, e: Event)
    requires IsMessage(e.raw) && s.auth && s.synced && e.raw[0] !in {CREATE, UPDATE, ERASE}
    ensures Step(w, s, e).0 == s
    ensures e.raw[0] == KEEP_ALIVE && Segments(e.raw) != [] ==> Step(w, s, e).1 == Success([])
  {
    assert [] + [Tlv(OK, []), Tlv(END, [])] == Closing(ERR_NONE);
    hide Segments, IsMessage, IsLast, Packed, HandleRetrieve;
  }

  // ---- Erase -------------------------------------------------------------------------

  /** The servers have the same file, or none, at a path. */
  predicate SameFile(s: State, r: State, p: Path) {
    (p in r.disk <==> p in s.disk) && (p in s.disk ==> r.disk[p] == s.disk[p])
  }

  predicate SameEntry(s: State, r: State, p: Path) {
    (p in r.entries <==> p in s.entries) && (p in s.entries ==> r.entries[p] == s.entries[p])
  }

  /** An ERASE needs the digest of the tracked file: with it the file and its entry go, every other file
      and entry stays, and OK is replied; without it nothing changes, and the mismatch is replied. */
  lemma EraseExactly(w: World, s: State, e: Event, path: Path, digest: Bytes)
    requires IsMessage(e.raw) && s.auth && s.synced && e.raw[0] == ERASE && 0 !in digest
    requires Segments(e.raw) != [] && Segments(e.raw)[0] == Tlv(ITEM, CreateSign(path, digest))
    ensures var (r, outcome) := Step(w, s, e);
            var item := Tlv(ITEM, CreateSign(path, digest));
            if path in s.entries && s.entries[path].digest == digest then
              && path !in r.disk && path !in r.entries && r.auth && r.synced
              && r.stream == (if s.stream == Open(path) then Detached else s.stream)
              && (forall p | p != path :: SameFile(s, r, p) && SameEntry(s, r, p))
              && outcome == Success([item])
            else r == s && outcome == Failure([item], ERR_ERASE_NO_MATCH)
  {
    SignRoundTrip(path, digest);
    hide Segments, IsMessage, IsLast, Packed, ToDecimal, CreateSign, SplitSign;
  }

  // ---- What a request leaves alone ---------------------------------------------------

  lemma UploadFrame(h: Hash, s: State, ts: seq<Tlv>, last: bool, update: bool, p: Path)
    requires ts != []
    ensures var r := HandleUpload(h, s, ts, last, update).state;
            var pair := if ts[0].tag == ITEM then SplitSign(ts[0].value) else None;
            && (pair.None? ==> r == s)
            && (pair.Some? && p != pair.value.0 ==> SameEntry(s, r, p))
            && (pair.Some? && p != pair.value.0 && p != TempPath(pair.value.0) && s.stream != Open(p) ==>
                  SameFile(s, r, p))
  {
    if ts[0].tag == ITEM && SplitSign(ts[0].value).Some? && |ts| >= 2 {
      var (path, digest) := SplitSign(ts[0].value).value;
      ChunkTells(h, s, path, digest, ts[1].value, last, update);
      hide CreateChunk, UpdateChunk;
    }
  }

  /** In a listed session a request leaves every entry alone but that of the path it names, and every file
      but that path, its working copy and the file the open stream writes to. */
  lemma RequestFrame(w: World, s: State, e: Event, p: Path)
    requires IsMessage(e.raw) && s.auth && s.synced
    ensures var r := Step(w, s, e).0;
            match Requested(e.raw)
            case None => r == s
            case Some(path) =>
              && (p != path ==> SameEntry(s, r, p))
              && (p != path && p != TempPath(path) && s.stream != Open(p) ==> SameFile(s, r, p))
  {
    var ts := Segments(e.raw);
    if e.raw[0] !in {CREATE, UPDATE, ERASE} || ts == [] {
      AskingOrEmpty(w, s, e);
      hide Step;
    } else if e.raw[0] == ERASE {
      hide Segments, IsMessage, IsLast, Packed, SplitSign, Closing;
    } else {
      UploadFrame(w.hash, s, ts, IsLast(e.raw), e.raw[0] == UPDATE, p);
      hide Segments, IsMessage, IsLast, Packed, SplitSign, HandleUpload;
    }
  }

  lemma AskingOrEmpty(w: World, s: State, e: Event)
    requires IsMessage(e.raw) && s.auth && s.synced
    requires e.raw[0] !in {CREATE, UPDATE, ERASE} || Segments(e.raw) == []
    ensures Step(w, s, e).0 == s
  {
    if Segments(e.raw) == [] {
      RefusedByType(w, s, e);
    } else {
      AskingChangesNothing(w, s, e);
    }
  }

  // ---- Where the bytes go ------------------------------------------------------------

  /** The file the bytes of a chunk go to: that of the user's stream, and the chunk's own if there is
      none; nowhere when the file of the stream has been removed. */
  function Sink(s: State, path: Path, update: bool): Option<Path> {
    match s.stream
    case Closed => Some(Target(path, update))
    case Open(p) => if p in s.disk || p == Target(path, update) then Some(p) else None
    case Detached => None
  }

  /** A chunk that is accepted before the last one adds exactly its bytes to that file and to no other. */
  lemma ChunkAppends(h: Hash, s: State, path: Path, digest: Bytes, data: Bytes, update: bool, p: Path)
    ensures var (r, code) := Chunk(h, s, path, digest, data, false, update);
            code == ERR_NONE ==>
              BytesAt(r, p) == BytesAt(s, p) + if Sink(s, path, update) == Some(p) then data else []
  {
    AppendFrame(s, Target(path, update), data);
  }

  /** One chunk of any upload. */
  datatype Piece = Piece(path: Path, digest: Bytes, data: Bytes, update: bool)

  /** Pieces of any uploads, none of them the last of its file: the server after them, and the bytes of
      those that were accepted. */
  function Pieces(h: Hash, s: State, pieces: seq<Piece>): (State, Bytes)
    decreases |pieces|
  {
    if pieces == [] then (s, [])
    else
      var x := pieces[0];
      var (s', code) := Chunk(h, s, x.path, x.digest, x.data, false, x.update);
      var (r, later) := Pieces(h, s', pieces[1..]);
      (r, if code == ERR_NONE then x.data + later else later)
  }

  lemma PieceAppends(h: Hash, s: State, x: Piece, p: Path)
    requires s.stream == Open(p) && p in s.disk
    ensures var (r, code) := Chunk(h, s, x.path, x.digest, x.data, false, x.update);
            && r.stream == s.stream && p in r.disk
            && r.disk[p] == s.disk[p] + (if code == ERR_NONE then x.data else [])
            && forall q | q != p :: BytesAt(r, q) == BytesAt(s, q)
  {
    var (r, code) := Chunk(h, s, x.path, x.digest, x.data, false, x.update);
    ChunkTells(h, s, x.path, x.digest, x.data, false, x.update);
    StreamStays(h, s, x.path, x.digest, x.data, x.update, p);
    hide Chunk;
    if code == ERR_NONE {
      forall q ensures BytesAt(r, q) == BytesAt(s, q) + if q == p then x.data else [] {
        ChunkAppends(h, s, x.path, x.digest, x.data, x.update, q);
      }
      hide Told;
    }
  }

  lemma StreamStays(h: Hash, s: State, path: Path, digest: Bytes, data: Bytes, update: bool, p: Path)
    requires s.stream == Open(p) && p in s.disk
    ensures var r := Chunk(h, s, path, digest, data, false, update).0; r.stream == s.stream && p in r.disk
  {
  }

  /** However uploads are interleaved, all of their bytes go to the file that was begun first. */
  lemma {:induction false} InterleavedPieces(h: Hash, s: State, pieces: seq<Piece>, p: Path)
    requires s.stream == Open(p) && p in s.disk
    ensures var (r, bytes) := Pieces(h, s, pieces);
            && r.stream == s.stream && p in r.disk && r.disk[p] == s.disk[p] + bytes
            && forall q | q != p :: BytesAt(r, q) == BytesAt(s, q)
    decreases |pieces|
  {
    hide Chunk, BytesAt;
    if pieces == [] {
      assert s.disk[p] + [] == s.disk[p];
    } else {
      var x := pieces[0];
      var (s', code) := Chunk(h, s, x.path, x.digest, x.data, false, x.update);
      var bytes := Pieces(h, s', pieces[1..]).1;
      PieceAppends(h, s, x, p);
      InterleavedPieces(h, s', pieces[1..], p);
      assert s.disk[p] + x.data + bytes == s.disk[p] + (x.data + bytes) && s.disk[p] + [] + bytes == s.disk[p] + bytes;
    }
  }
}
