/** The server's side of one session: what each request does to the tracked directory, the
    disk and the open upload stream, and what is replied. */
module Server {
  import opened Protocol
  import opened Tlvs
  import opened FileMessages
  import MessageQueues
  import opened Signs

  /** A tracked file. It is not synced while its content is still being uploaded. */
  datatype Entry = Entry(synced: bool, digest: Bytes)

  /** The upload stream of the user. It is detached when the file it writes to is removed:
      what is written from then on reaches no file on the disk. */
  datatype Stream = Closed | Open(path: Path) | Detached

  /** The state of a session: the phase flags, the tracked directory, the files below the
      user's root and the open stream. */
  datatype State = State(
    auth: bool,
    synced: bool,
    entries: map<Path, Entry>,
    disk: map<Path, Bytes>,
    stream: Stream)

  /** What the server cannot decide itself: file digests and the password check. */
  datatype World = World(hash: Hash, login: (Bytes, Bytes) -> bool)

  /** A request, with the paths a walk over the user's root would yield at that moment. */
  datatype Event = Event(raw: Bytes, walk: seq<Path>)

  /** Thrown: an exception leaves the handler. Undefined: a segment is added to an empty queue. */
  datatype Outcome = Replied(groups: seq<seq<Tlv>>) | Thrown | Undefined

  function TempPath(path: Path): Path {
    path + TEMP_SUFFIX
  }

  // ---- Disk and stream ---------------------------------------------------------------

  /** Opening for append creates the file, even when the user already has a stream; the stream
      that is used afterwards is the older one. */
  function GetStream(s: State, path: Path): (r: State)
    ensures r.disk.Keys == s.disk.Keys + {path} && !r.stream.Closed?
  {
    s.(disk := if path in s.disk then s.disk else s.disk[path := []],
       stream := if s.stream.Closed? then Open(path) else s.stream)
  }

  function WriteStream(s: State, data: Bytes): (r: State)
    ensures r.disk.Keys == s.disk.Keys
  {
    if s.stream.Open? && s.stream.path in s.disk
    then s.(disk := s.disk[s.stream.path := s.disk[s.stream.path] + data])
    else s
  }

  function RemoveFile(s: State, path: Path): State
  {
    s.(disk := s.disk - {path}, stream := if s.stream == Open(path) then Detached else s.stream)
  }

  function RenameFile(s: State, from: Path, to: Path): State
    requires from in s.disk && from != to
  {
    s.(disk := s.disk[to := s.disk[from]] - {from})
  }

  // ---- One chunk of an upload, one erase ---------------------------------------------

  /** The last step of an upload: the file must have the announced digest, or it goes. */
  function CheckDigest(h: Hash, s: State, path: Path, digest: Bytes, noMatch: nat): (State, nat)
    requires path in s.disk
  {
    if h(path, s.disk[path]) == digest then (s, ERR_NONE)
    else (RemoveFile(s, path).(entries := s.entries - {path}), noMatch)
  }

  /** A CREATE chunk is appended to the file itself. */
  function CreateChunk(h: Hash, s: State, path: Path, digest: Bytes, data: Bytes, last: bool): (State, nat) {
    if path in s.entries && s.entries[path].synced then (s, ERR_CREATE_ALREADY_EXIST)
    else
      var first := s.stream.Closed?;
      var written := WriteStream(GetStream(s, path), data);
      var entry := if last then Entry(true, digest) else Entry(false, TEMP);
      var noted := if first || last then written.(entries := s.entries[path := entry]) else written;
      if last then CheckDigest(h, noted.(stream := Closed), path, digest, ERR_CREATE_NO_MATCH) else (noted, ERR_NONE)
  }

  /** An UPDATE chunk is appended to a working copy, which replaces the file at the end. */
  function UpdateChunk(h: Hash, s: State, path: Path, digest: Bytes, data: Bytes, last: bool): (State, nat) {
    if path !in s.entries then (s, ERR_UPDATE_NOT_EXIST)
    else if s.entries[path].digest == digest then (s, ERR_UPDATE_ALREADY_UPDATED)
    else
      var first := s.stream.Closed?;
      var written := WriteStream(GetStream(s, TempPath(path)), data);
      var entry := if last then Entry(true, digest) else Entry(false, s.entries[path].digest);
      var noted := if first || last then written.(entries := s.entries[path := entry]) else written;
      if last then
        var moved := RenameFile(RemoveFile(noted.(stream := Closed), path), TempPath(path), path);
        CheckDigest(h, moved, path, digest, ERR_UPDATE_NO_MATCH)
      else (noted, ERR_NONE)
  }

  function EraseFile(s: State, path: Path, digest: Bytes): (State, nat) {
    if path !in s.entries || s.entries[path].digest != digest then (s, ERR_ERASE_NO_MATCH)
    else (RemoveFile(s, path).(entries := s.entries - {path}), ERR_NONE)
  }

  // ---- Replies -----------------------------------------------------------------------

  /** The end of every reply but a file: OK, or ERROR and the code in decimal; then END. */
  function Closing(code: nat): seq<Tlv> {
    [if code == ERR_NONE then Tlv(OK, []) else Tlv(ERROR, MessageQueues.ToDecimal(code)), Tlv(END, [])]
  }

  /** What a handler leaves: the new state and the segments it adds; None for an exception. */
  datatype Handled = Handled(state: State, reply: Option<seq<Tlv>>)

  function HandleAuth(w: World, s: State, ts: seq<Tlv>): Handled
    requires ts != []
  {
    if ts[0].tag != USRN then Handled(s, Some(Closing(ERR_AUTH_NO_USRN)))
    else if |ts| < 2 || ts[1].tag != PSWD then Handled(s, Some(Closing(ERR_AUTH_NO_PSWD)))
    else if w.login(ts[0].value, ts[1].value) then Handled(s.(auth := true, entries := map[]), Some(Closing(ERR_NONE)))
    else Handled(s, Some(Closing(ERR_AUTH_FAILED)))
  }

  datatype Listing = Listing(entries: map<Path, Entry>, items: seq<Tlv>, ok: bool)

  function ItemOf(h: Hash, disk: map<Path, Bytes>, path: Path): Tlv
    requires path in disk
  {
    Tlv(ITEM, CreateSign(path, h(path, disk[path])))
  }

  /** Tracks the regular files of a walk; one that is tracked already makes the listing fail. */
  function ListFiles(h: Hash, disk: map<Path, Bytes>, entries: map<Path, Entry>, walk: seq<Path>): Listing
    decreases |walk|
  {
    if walk == [] then Listing(entries, [], true)
    else
      var path := walk[0];
      if path !in disk then ListFiles(h, disk, entries, walk[1..])
      else if path in entries then Listing(map[], [], false)
      else
        var rest := ListFiles(h, disk, entries[path := Entry(true, h(path, disk[path]))], walk[1..]);
        Listing(rest.entries, [ItemOf(h, disk, path)] + rest.items, rest.ok)
  }

  function HandleList(h: Hash, s: State, walk: seq<Path>): Handled {
    var listing := ListFiles(h, s.disk, s.entries, walk);
    if listing.ok
    then Handled(s.(entries := listing.entries, synced := true), Some(listing.items + Closing(ERR_NONE)))
    else Handled(s.(entries := map[]), Some(listing.items + Closing(ERR_LIST_FAILED)))
  }

  function HandleUpload(h: Hash, s: State, ts: seq<Tlv>, last: bool, update: bool): Handled
    requires ts != []
  {
    if ts[0].tag != ITEM then Handled(s, Some(Closing(if update then ERR_UPDATE_NO_ITEM else ERR_CREATE_NO_ITEM)))
    else
      match SplitSign(ts[0].value)
      case None => Handled(s, None)
      case Some((path, digest)) =>
        if |ts| < 2 || ts[1].tag != CONTENT then
          Handled(s, Some([ts[0]] + Closing(if update then ERR_UPDATE_NO_CONTENT else ERR_CREATE_NO_CONTENT)))
        else
          var (s', code) :=
            if update then UpdateChunk(h, s, path, digest, ts[1].value, last)
            else CreateChunk(h, s, path, digest, ts[1].value, last);
          Handled(s', Some([ts[0]] + Closing(code)))
  }

  function HandleErase(s: State, ts: seq<Tlv>): Handled
    requires ts != []
  {
    if ts[0].tag != ITEM then Handled(s, Some(Closing(ERR_ERASE_NO_ITEM)))
    else
      match SplitSign(ts[0].value)
      case None => Handled(s, None)
      case Some((path, digest)) =>
        var (s', code) := EraseFile(s, path, digest);
        Handled(s', Some([ts[0]] + Closing(code)))
  }

  /** The file exists and can be cut into chunk messages under this sign. */
  predicate Retrievable(s: State, path: Path, sign: Bytes) {
    path in s.disk && SignFits(sign) && CutFile(s.disk[path], MaxPayload(sign)).complete
  }

  function HandleRetrieve(s: State, ts: seq<Tlv>): Outcome
    requires ts != []
  {
    if ts[0].tag != ITEM then Undefined
    else
      match SplitSign(ts[0].value)
      case None => Thrown
      case Some((path, _)) =>
        if Retrievable(s, path, ts[0].value)
        then Replied(ChunkGroups(ts[0].value, CutFile(s.disk[path], MaxPayload(ts[0].value))))
        else Undefined
  }

  /** The queue of a request of type NONE or RETRIEVE has no message a segment could go to. */
  function Queued(msgType: byte, reply: Option<seq<Tlv>>): Outcome {
    match reply
    case None => Thrown
    case Some(ts) => if msgType == NONE || msgType == RETRIEVE then Undefined else Replied(MessageQueues.Packed(ts))
  }

  /** The handler a request of this type gets in the current phase of the session. */
  function Dispatch(w: World, s: State, msgType: byte, ts: seq<Tlv>, last: bool, walk: seq<Path>): Handled {
    if ts == [] then Handled(s, Some(Closing(ERR_NO_CONTENT)))
    else if !s.auth then
      if msgType == AUTH then HandleAuth(w, s, ts) else Handled(s, Some(Closing(ERR_MSG_TYPE_REJECTED)))
    else if !s.synced then
      if msgType == LIST then HandleList(w.hash, s, walk) else Handled(s, Some(Closing(ERR_MSG_TYPE_REJECTED)))
    else if msgType == CREATE then HandleUpload(w.hash, s, ts, last, false)
    else if msgType == UPDATE then HandleUpload(w.hash, s, ts, last, true)
    else if msgType == ERASE then HandleErase(s, ts)
    else if msgType == KEEP_ALIVE then Handled(s, Some(Closing(ERR_NONE)))
    else Handled(s, Some(Closing(ERR_MSG_TYPE_REJECTED)))
  }

  predicate IsLast(raw: Bytes)
    requires IsMessage(raw)
  {
    |raw| >= 3 && VerifyEnd(raw)
  }

  /** The state a request of this type and with these segments leaves, and its outcome. */
  function Handle(w: World, s: State, msgType: byte, ts: seq<Tlv>, last: bool, walk: seq<Path>): (State, Outcome) {
    if ts != [] && s.auth && s.synced && msgType == RETRIEVE then (s, HandleRetrieve(s, ts))
    else
      var handled := Dispatch(w, s, msgType, ts, last, walk);
      (handled.state, Queued(msgType, handled.reply))
  }

  function Step(w: World, s: State, e: Event): (State, Outcome)
    requires IsMessage(e.raw)
  {
    Handle(w, s, e.raw[0], Segments(e.raw), IsLast(e.raw), e.walk)
  }
}
