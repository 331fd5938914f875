/** The request handler as it runs: one object whose handlers update the session, the disk and
    the stream in place and fill a queue of replies. Each is proved against the functions of
    module Server. */
module RequestHandlers {
  import opened Protocol
  import opened Tlvs
  import opened FileMessages
  import opened MessageQueues
  import opened Signs
  import opened Server

  /** How the handling of a request ends: with its replies in the queue, in an exception, or in what
      the code leaves undefined. */
  datatype Ending = Finished | Raised | Undefined

  function EndingOf(outcome: Outcome): Ending {
    match outcome
    case Replied(_) => Finished
    case Thrown => Raised
    case Undefined => Ending.Undefined
  }

  class RequestHandler {
    const hash: Hash
    const login: (Bytes, Bytes) -> bool
    var auth: bool
    var synced: bool
    var entries: map<Path, Entry>
    var disk: map<Path, Bytes>
    var stream: Stream

    ghost function Now(): State
      reads this
    {
      State(auth, synced, entries, disk, stream)
    }

    ghost function ToWorld(): World {
      World(hash, login)
    }

    constructor (hash: Hash, login: (Bytes, Bytes) -> bool, disk: map<Path, Bytes>)
      ensures this.hash == hash && this.login == login
      ensures Now() == State(false, false, map[], disk, Closed)
    {
      this.hash, this.login, this.disk := hash, login, disk;
      auth, synced, entries, stream := false, false, map[], Closed;
    }

    // ---- Streams ---------------------------------------------------------------------

    /** Gives the user's stream, opened on `path` if there was none. */
    method OpenForAppend(path: Path) returns (first: bool)
      modifies this`disk, this`stream
      ensures first == old(stream).Closed?
      ensures Now() == GetStream(old(Now()), path)
    {
      if path !in disk {
        disk := disk[path := []];
      }
      first := stream.Closed?;
      if first {
        stream := Open(path);
      }
    }

    method Append(data: Bytes)
      modifies this`disk
      ensures Now() == WriteStream(old(Now()), data)
    {
      if stream.Open? && stream.path in disk {
        disk := disk[stream.path := disk[stream.path] + data];
      }
    }

    method Remove(path: Path)
      modifies this`disk, this`stream
      ensures Now() == RemoveFile(old(Now()), path)
    {
      disk := disk - {path};
      if stream == Open(path) {
        stream := Detached;
      }
    }

    method Rename(from: Path, to: Path)
      requires from in disk && from != to
      modifies this`disk
      ensures Now() == RenameFile(old(Now()), from, to)
    {
      disk := disk[to := disk[from]] - {from};
    }

    // ---- Replies ---------------------------------------------------------------------

    method CloseResponse(replies: MessageQueue, code: nat, ghost before: seq<Tlv>)
      requires replies.Valid() && replies.groups == Packed(before) && code <= INT_MAX
      modifies replies
      ensures replies.Valid() && replies.groups == Packed(before + Closing(code))
    {
      var tag, value := OK, [];
      if code != ERR_NONE {
        DecimalRoundTrip(code);
        tag, value := ERROR, ToDecimal(code);
      }
      replies.AddTlv(tag, value);
      replies.AddTlv(END, []);
      PackedSnoc(before, Tlv(tag, value));
      PackedSnoc(before + [Tlv(tag, value)], Tlv(END, []));
      assert before + [Tlv(tag, value)] + [Tlv(END, [])] == before + Closing(code);
    }

    /** Closes a reply that has no segment yet; in a queue without a message there is no place to put
        the first one. */
    method CloseEmpty(replies: MessageQueue, code: nat) returns (ending: Ending)
      requires replies.Valid() && (replies.groups == [] || replies.groups == Packed([])) && code <= INT_MAX
      modifies replies
      ensures replies.Valid()
      ensures if old(replies.groups) == [] then ending == Ending.Undefined
              else ending == Finished && replies.groups == Packed(Closing(code))
    {
      if replies.msgs == [] {
        return Ending.Undefined;
      }
      CloseResponse(replies, code, []);
      assert [] + Closing(code) == Closing(code);
      ending := Finished;
    }

    // ---- Handlers --------------------------------------------------------------------

    method HandleAuth(view: TlvView, replies: MessageQueue, ghost ts: seq<Tlv>)
      requires view.Valid() && ts != [] && view.Current() == Some(ts[0]) && view.Rest() == ts[1..]
      requires replies.Valid() && replies.groups == Packed([])
      modifies this`auth, this`entries, view, replies
      ensures replies.Valid()
      ensures var handled := Server.HandleAuth(ToWorld(), old(Now()), ts);
              Now() == handled.state && handled.reply.Some? && replies.groups == Packed(handled.reply.value)
    {
      if view.tag != USRN {
        var _ := CloseEmpty(replies, ERR_AUTH_NO_USRN);
        return;
      }
      var username := view.Current().value.value;
      var more := view.NextTlv();
      if !more || view.tag != PSWD {
        var _ := CloseEmpty(replies, ERR_AUTH_NO_PSWD);
        return;
      }
      var password := view.Current().value.value;
      if login(username, password) {
        auth, entries := true, map[];
        var _ := CloseEmpty(replies, ERR_NONE);
      } else {
        var _ := CloseEmpty(replies, ERR_AUTH_FAILED);
      }
    }

    /** Notes a file in the tracked directory and in the reply. */
    method TrackFile(path: Path, replies: MessageQueue, ghost items: seq<Tlv>)
      requires path in disk
      requires replies.Valid() && replies.groups == Packed(items)
      modifies this`entries, replies
      ensures entries == old(entries)[path := Entry(true, hash(path, disk[path]))]
      ensures replies.Valid() && replies.groups == Packed(items + [ItemOf(hash, disk, path)])
    {
      var digest := hash(path, disk[path]);
      entries := entries[path := Entry(true, digest)];
      replies.AddTlv(ITEM, CreateSign(path, digest));
      PackedSnoc(items, ItemOf(hash, disk, path));
    }

    /** Tracks the files of a walk; false when one of them is tracked already. */
    method TrackFiles(replies: MessageQueue, walk: seq<Path>) returns (ok: bool, ghost items: seq<Tlv>)
      requires replies.Valid() && replies.groups == Packed([])
      modifies this`entries, replies
      ensures replies.Valid() && replies.groups == Packed(items)
      ensures Listing(entries, items, ok) == ListFiles(hash, disk, old(entries), walk)
      ensures !ok ==> entries == map[]
    {
      hide Packed, CreateSign;
      items := [];
      ghost var listing := ListFiles(hash, disk, entries, walk);
      var i := 0;
      while i < |walk|
        invariant i <= |walk| && replies.Valid() && replies.groups == Packed(items)
        invariant var rest := ListFiles(hash, disk, entries, walk[i..]);
                  listing == Listing(rest.entries, items + rest.items, rest.ok)
      {
        var path := walk[i];
        ghost var rest := ListFiles(hash, disk, entries, walk[i..]);
        assert walk[i..][1..] == walk[i + 1..];
        if path in disk {
          if path in entries {
            entries := map[];
            return false, items;
          }
          TrackFile(path, replies, items);
          assert items + rest.items == items + [ItemOf(hash, disk, path)] + rest.items[1..];
          items := items + [ItemOf(hash, disk, path)];
        }
        i := i + 1;
      }
      return true, items;
    }

    method HandleList(replies: MessageQueue, walk: seq<Path>)
      requires replies.Valid() && replies.groups == Packed([])
      modifies this`synced, this`entries, replies
      ensures replies.Valid()
      ensures var handled := Server.HandleList(hash, old(Now()), walk);
              Now() == handled.state && handled.reply.Some? && replies.groups == Packed(handled.reply.value)
    {
      hide Packed, ListFiles, Closing;
      ghost var items;
      var ok;
      ok, items := TrackFiles(replies, walk);
      if ok {
        synced := true;
        CloseResponse(replies, ERR_NONE, items);
      } else {
        CloseResponse(replies, ERR_LIST_FAILED, items);
      }
    }

    /** What CREATE and UPDATE find out before they touch a file. */
    method ReadSign(view: TlvView, replies: MessageQueue, ghost ts: seq<Tlv>) returns (pair: Option<(Path, Bytes)>)
      requires view.Valid() && ts != [] && view.Current() == Some(ts[0]) && ts[0].tag == ITEM
      requires replies.Valid() && replies.groups == Packed([])
      modifies replies
      ensures pair == SplitSign(ts[0].value)
      ensures replies.Valid() && replies.groups == Packed(if pair.Some? then [ts[0]] else [])
    {
      var sign := view.Current().value.value;
      pair := SplitSign(sign);
      if pair.Some? {
        replies.AddTlv(ITEM, sign);
        PackedSnoc([], ts[0]);
        assert [] + [ts[0]] == [ts[0]];
      }
    }

    method VerifyDigest(path: Path, digest: Bytes, noMatch: nat) returns (code: nat)
      requires path in disk
      modifies this`disk, this`entries, this`stream
      ensures (Now(), code) == CheckDigest(hash, old(Now()), path, digest, noMatch)
    {
      if hash(path, disk[path]) != digest {
        Remove(path);
        entries := entries - {path};
        return noMatch;
      }
      return ERR_NONE;
    }

    method Create(path: Path, digest: Bytes, data: Bytes, last: bool) returns (code: nat)
      modifies this`disk, this`entries, this`stream
      ensures (Now(), code) == CreateChunk(hash, old(Now()), path, digest, data, last) && code <= INT_MAX
    {
      if path in entries && entries[path].synced {
        return ERR_CREATE_ALREADY_EXIST;
      }
      var first := OpenForAppend(path);
      Append(data);
      if first {
        entries := entries[path := Entry(last, if last then digest else TEMP)];
      } else if last {
        entries := entries[path := Entry(true, digest)];
      }
      code := ERR_NONE;
      if last {
        stream := Closed;
        code := VerifyDigest(path, digest, ERR_CREATE_NO_MATCH);
      }
    }

    /** Puts the working copy in the place of the file, and checks its digest. */
    method Replace(path: Path, temp: Path, digest: Bytes) returns (code: nat)
      requires temp in disk && temp != path
      modifies this`disk, this`entries, this`stream
      ensures var closed := old(Now()).(stream := Closed);
              && temp in RemoveFile(closed, path).disk
              && (Now(), code) ==
                 CheckDigest(hash, RenameFile(RemoveFile(closed, path), temp, path), path, digest, ERR_UPDATE_NO_MATCH)
    {
      stream := Closed;
      Remove(path);
      Rename(temp, path);
      code := VerifyDigest(path, digest, ERR_UPDATE_NO_MATCH);
    }

    method Update(path: Path, digest: Bytes, data: Bytes, last: bool) returns (code: nat)
      modifies this`disk, this`entries, this`stream
      ensures (Now(), code) == UpdateChunk(hash, old(Now()), path, digest, data, last) && code <= INT_MAX
    {
      if path !in entries {
        return ERR_UPDATE_NOT_EXIST;
      }
      if entries[path].digest == digest {
        return ERR_UPDATE_ALREADY_UPDATED;
      }
      var temp := path + TEMP_SUFFIX;
      var first := OpenForAppend(temp);
      Append(data);
      if first {
        entries := entries[path := Entry(last, if last then digest else entries[path].digest)];
      } else if last {
        entries := entries[path := Entry(true, digest)];
      }
      code := ERR_NONE;
      if last {
        code := Replace(path, temp, digest);
      }
    }

    method Erase(path: Path, digest: Bytes) returns (code: nat)
      modifies this`disk, this`entries, this`stream
      ensures (Now(), code) == EraseFile(old(Now()), path, digest)
    {
      if path !in entries || entries[path].digest != digest {
        return ERR_ERASE_NO_MATCH;
      }
      Remove(path);
      entries := entries - {path};
      return ERR_NONE;
    }

    /** Handles one chunk of a CREATE or, with `update`, of an UPDATE. */
    method HandleUpload(view: TlvView, replies: MessageQueue, ghost ts: seq<Tlv>, update: bool) returns (thrown: bool)
      requires view.Valid() && ts != [] && view.Current() == Some(ts[0]) && view.Rest() == ts[1..] && |view.raw| >= 3
      requires replies.Valid() && replies.groups == Packed([])
      modifies this`disk, this`entries, this`stream, view, replies
      ensures replies.Valid()
      ensures var handled := Server.HandleUpload(hash, old(Now()), ts, VerifyEnd(view.raw), update);
              && Now() == handled.state
              && thrown == handled.reply.None?
              && (!thrown ==> replies.groups == Packed(handled.reply.value))
    {
      hide UpdateChunk, CreateChunk, Closing, SplitSign, Packed;
      thrown := false;
      if view.tag != ITEM {
        var _ := CloseEmpty(replies, if update then ERR_UPDATE_NO_ITEM else ERR_CREATE_NO_ITEM);
        return;
      }
      var pair := ReadSign(view, replies, ts);
      if pair.None? {
        return true;
      }
      var more := view.NextTlv();
      if !more || view.tag != CONTENT {
        CloseResponse(replies, if update then ERR_UPDATE_NO_CONTENT else ERR_CREATE_NO_CONTENT, [ts[0]]);
        return;
      }
      var (path, digest) := pair.value;
      var data := view.Current().value.value;
      var code;
      if update {
        code := Update(path, digest, data, VerifyEnd(view.raw));
      } else {
        code := Create(path, digest, data, VerifyEnd(view.raw));
      }
      CloseResponse(replies, code, [ts[0]]);
    }

    method HandleErase(view: TlvView, replies: MessageQueue, ghost ts: seq<Tlv>) returns (thrown: bool)
      requires view.Valid() && ts != [] && view.Current() == Some(ts[0])
      requires replies.Valid() && replies.groups == Packed([])
      modifies this`disk, this`entries, this`stream, replies
      ensures replies.Valid()
      ensures var handled := Server.HandleErase(old(Now()), ts);
              && Now() == handled.state
              && thrown == handled.reply.None?
              && (!thrown ==> replies.groups == Packed(handled.reply.value))
    {
      thrown := false;
      if view.tag != ITEM {
        var _ := CloseEmpty(replies, ERR_ERASE_NO_ITEM);
        return;
      }
      var pair := ReadSign(view, replies, ts);
      if pair.None? {
        return true;
      }
      var code := Erase(pair.value.0, pair.value.1);
      CloseResponse(replies, code, [ts[0]]);
    }

    method HandleRetrieve(view: TlvView, ghost ts: seq<Tlv>) returns (ending: Ending, replies: MessageQueue)
      requires view.Valid() && ts != [] && view.Current() == Some(ts[0])
      ensures ending == EndingOf(Server.HandleRetrieve(Now(), ts))
      ensures fresh(replies) && replies.Valid() && replies.msgType == RETRIEVE
      ensures ending == Finished ==> Server.HandleRetrieve(Now(), ts) == Replied(replies.groups)
    {
      replies := new MessageQueue(RETRIEVE);
      if view.tag != ITEM {
        ending := CloseEmpty(replies, ERR_ERASE_NO_ITEM);
        return;
      }
      var sign := view.Current().value.value;
      var pair := SplitSign(sign);
      if pair.None? {
        return Raised, replies;
      }
      if !SignFits(sign) {
        return Ending.Undefined, replies;
      }
      if pair.value.0 !in disk {
        ending := CloseEmpty(replies, ERR_RETRIEVE_FAILED);
        return;
      }
      var file := disk[pair.value.0];
      ghost var groups := ChunkGroups(sign, CutFile(file, MaxPayload(sign)));
      var msgs, complete := ReadChunks(RETRIEVE, file, sign);
      if !complete {
        ending := CloseEmpty(replies, ERR_RETRIEVE_FAILED);
        return;
      }
      for i := 0 to |msgs|
        invariant fresh(replies) && replies.Valid() && replies.groups == groups[..i] && replies.msgType == RETRIEVE
      {
        replies.AddMessage(msgs[i], groups[i]);
      }
      assert groups[..|msgs|] == groups;
      ending := Finished;
    }

    /** Handles a request with at least one segment in a session that has been listed. */
    method HandleListed(view: TlvView, empty: MessageQueue, ghost ts: seq<Tlv>)
      returns (ending: Ending, replies: MessageQueue)
      requires auth && synced && |view.raw| >= 3
      requires view.Valid() && ts != [] && view.Current() == Some(ts[0]) && view.Rest() == ts[1..]
      requires empty.Valid() && empty.msgType == view.raw[0]
      requires empty.groups == if view.raw[0] == NONE || view.raw[0] == RETRIEVE then [] else Packed([])
      modifies this, view, empty
      ensures replies.Valid() && replies.msgType == view.raw[0] && (replies == empty || fresh(replies))
      ensures var (s', outcome) := Handle(ToWorld(), old(Now()), view.raw[0], ts, VerifyEnd(view.raw), []);
              Now() == s' && ending == EndingOf(outcome) && (ending == Finished ==> outcome == Replied(replies.groups))
    {
      hide Server.HandleUpload, Server.HandleErase, Server.HandleRetrieve, Packed, Closing;
      var msgType := view.raw[0];
      replies := empty;
      ending := Finished;
      if msgType == CREATE || msgType == UPDATE {
        var thrown := HandleUpload(view, replies, ts, msgType == UPDATE);
        ending := if thrown then Raised else Finished;
      } else if msgType == ERASE {
        var thrown := HandleErase(view, replies, ts);
        ending := if thrown then Raised else Finished;
      } else if msgType == RETRIEVE {
        ending, replies := HandleRetrieve(view, ts);
      } else if msgType == KEEP_ALIVE {
        ending := CloseEmpty(replies, ERR_NONE);
      } else {
        ending := CloseEmpty(replies, ERR_MSG_TYPE_REJECTED);
      }
    }

    /** Handles a request with at least one segment in a session that has not been listed yet. */
    method HandleEarly(view: TlvView, replies: MessageQueue, walk: seq<Path>, ghost ts: seq<Tlv>)
      returns (ending: Ending)
      requires !(auth && synced) && |view.raw| >= 3
      requires view.Valid() && ts != [] && view.Current() == Some(ts[0]) && view.Rest() == ts[1..]
      requires replies.Valid() && replies.msgType == view.raw[0]
      requires replies.groups == if view.raw[0] == NONE || view.raw[0] == RETRIEVE then [] else Packed([])
      modifies this, view, replies
      ensures replies.Valid()
      ensures var (s', outcome) := Handle(ToWorld(), old(Now()), view.raw[0], ts, VerifyEnd(view.raw), walk);
              Now() == s' && ending == EndingOf(outcome) && (ending == Finished ==> outcome == Replied(replies.groups))
    {
      hide Server.HandleAuth, Server.HandleList, Packed, Closing;
      var msgType := view.raw[0];
      ending := Finished;
      if !auth {
        if msgType == AUTH {
          HandleAuth(view, replies, ts);
        } else {
          ending := CloseEmpty(replies, ERR_MSG_TYPE_REJECTED);
        }
      } else {
        if msgType == LIST {
          HandleList(replies, walk);
        } else {
          ending := CloseEmpty(replies, ERR_MSG_TYPE_REJECTED);
        }
      }
    }

    lemma WalkDoesNotMatter(s: State, msgType: byte, ts: seq<Tlv>, last: bool, walk: seq<Path>)
      requires s.auth && s.synced
      ensures Handle(ToWorld(), s, msgType, ts, last, walk) == Handle(ToWorld(), s, msgType, ts, last, [])
    {
    }

    lemma NothingToHandle(s: State, msgType: byte, last: bool, walk: seq<Path>)
      ensures Handle(ToWorld(), s, msgType, [], last, walk) ==
              (s, Queued(msgType, Some(Closing(ERR_NO_CONTENT))))
    {
    }

    /** Handles a request in the current phase of the session and gives the reply queue. */
    method HandleRequest(raw: Bytes, walk: seq<Path>) returns (ending: Ending, replies: MessageQueue)
      requires IsMessage(raw)
      modifies this
      ensures Now() == Step(ToWorld(), old(Now()), Event(raw, walk)).0
      ensures fresh(replies) && replies.Valid() && replies.msgType == raw[0]
      ensures var outcome := Step(ToWorld(), old(Now()), Event(raw, walk)).1;
              ending == EndingOf(outcome) && (ending == Finished ==> outcome == Replied(replies.groups))
    {
      var msgType := raw[0];
      replies := new MessageQueue(msgType);
      ghost var s, ts := Now(), Segments(raw);
      var view := new TlvView(raw);
      var more := view.NextTlv();
      assert more ==> |raw| >= 3;
      assert Step(ToWorld(), s, Event(raw, walk)) == Handle(ToWorld(), s, msgType, ts, IsLast(raw), walk);
      hide Step, Handle, Packed, Closing, IsMessage, Segments, VerifyEnd;
      if !more {
        NothingToHandle(s, msgType, IsLast(raw), walk);
        ending := CloseEmpty(replies, ERR_NO_CONTENT);
      } else if !auth || !synced {
        ending := HandleEarly(view, replies, walk, ts);
      } else {
        WalkDoesNotMatter(s, msgType, ts, IsLast(raw), walk);
        ending, replies := HandleListed(view, replies, ts);
      }
    }
  }
}
