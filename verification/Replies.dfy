/** Requests and replies in lockstep: what the server writes is what the client reads. */
module Replies {
  import opened Protocol
  import opened Tlvs
  import opened FileMessages
  import opened MessageQueues
  import opened Connections
  import opened Signs
  import opened Server

  // ---- Which requests are replied to -------------------------------------------------

  /** A request that reaches an upload, erase or retrieve handler with an ITEM in front. */
  ghost predicate NamesAnItem(s: State, e: Event)
    requires IsMessage(e.raw)
  {
    var ts := Segments(e.raw);
    s.auth && s.synced && ts != [] && ts[0].tag == ITEM
  }

  /** Exactly the requests that get no reply. Undefined: type NONE, and every RETRIEVE that is
      not for a readable file of good size (unless its sign is broken). Thrown: a handler that
      meets a sign without a NUL. */
  lemma OutcomesExactly(w: World, s: State, e: Event)
    requires IsMessage(e.raw)
    ensures var t, ts, outcome := e.raw[0], Segments(e.raw), Step(w, s, e).1;
            && (outcome.Thrown? <==>
                  NamesAnItem(s, e) && t in {CREATE, UPDATE, ERASE, RETRIEVE} && 0 !in ts[0].value)
            && (outcome.Undefined? <==>
                  t == NONE ||
                  (t == RETRIEVE &&
                   !(NamesAnItem(s, e) &&
                     (0 in ts[0].value ==> Retrievable(s, SplitSign(ts[0].value).value.0, ts[0].value)))))
  {
    var ts := Segments(e.raw);
    if ts != [] {
      SplitSignExact(ts[0].value, [], []);
    }
    hide Packed, Closing, ListFiles, CreateChunk, UpdateChunk, EraseFile, IsMessage, Segments, IsLast, CutFile;
    hide SplitSign, ChunkGroups, SignFits;
  }

  /** Asking for a file the server does not have is such a request: the error would have to go
      into an empty queue. */
  lemma MissingFileIsUndefined(w: World, s: State, path: Path, digest: Digest, walk: seq<Path>)
    requires s.auth && s.synced && path !in s.disk && |path| <= 65000
    ensures var raw := EncodeMessage(RETRIEVE, [Tlv(ITEM, CreateSign(path, digest)), Tlv(END, [])]);
            IsMessage(raw) && Step(w, s, Event(raw, walk)) == (s, Undefined)
  {
    MessageRoundTrip(RETRIEVE, [Tlv(ITEM, CreateSign(path, digest)), Tlv(END, [])]);
    SignRoundTrip(path, digest);
  }

  // ---- Replies can be delimited ------------------------------------------------------

  /** The client can find the end of such a reply, and every frame of it can be sent. */
  ghost predicate Deliverable(msgType: byte, groups: seq<seq<Tlv>>) {
    && groups != [] && groups[|groups| - 1] != []
    && (forall g | g in groups :: AllFit(g) && Sendable(EncodeMessage(msgType, g)))
    && EndsOnce(Flatten(groups))
  }

  lemma PackedIsDeliverable(msgType: byte, ts: seq<Tlv>)
    requires EndsOnce(ts) && forall t | t in ts :: Packable(t)
    ensures Deliverable(msgType, Packed(ts))
  {
    var groups := Packed(ts);
    PackedConserves(ts);
    PackedWithinLimit(ts);
    forall g | g in groups
      ensures AllFit(g) && Sendable(EncodeMessage(msgType, g))
    {
      GroupFits(g);
      SizeOfMessage(msgType, g);
    }
  }

  lemma ClosingIsGood(code: nat)
    requires code < 1000
    ensures EndsOnce(Closing(code)) && forall t | t in Closing(code) :: Packable(t)
  {
    DecimalLength(code);
  }

  lemma CodesAreShort(w: World, s: State, path: Path, digest: Bytes, data: Bytes, last: bool)
    ensures CreateChunk(w.hash, s, path, digest, data, last).1 < 1000
    ensures UpdateChunk(w.hash, s, path, digest, data, last).1 < 1000
  {
  }

  lemma FirstSegmentIsPackable(raw: Bytes)
    requires IsMessage(raw) && |raw| <= CHUNK_SIZE && Segments(raw) != []
    ensures Packable(Segments(raw)[0])
  {
    var head, rest := ParseHead(raw[1..]);
  }

  /** The signs of the files fit into a message each. */
  ghost predicate SignsTravel(h: Hash, disk: map<Path, Bytes>) {
    forall p | p in disk :: Packable(ItemOf(h, disk, p))
  }

  lemma {:induction false} ListItems(h: Hash, disk: map<Path, Bytes>, entries: map<Path, Entry>, walk: seq<Path>)
    requires SignsTravel(h, disk)
    ensures forall t | t in ListFiles(h, disk, entries, walk).items :: t.tag == ITEM && Packable(t)
    decreases |walk|
  {
    if walk != [] {
      var p := walk[0];
      if p !in disk {
        ListItems(h, disk, entries, walk[1..]);
      } else if p !in entries {
        ListItems(h, disk, entries[p := Entry(true, h(p, disk[p]))], walk[1..]);
      }
    }
  }

  lemma ItemsThenClosing(items: seq<Tlv>, code: nat)
    requires code < 1000
    requires forall t | t in items :: t.tag == ITEM && Packable(t)
    ensures EndsOnce(items + Closing(code)) && forall t | t in items + Closing(code) :: Packable(t)
  {
    ClosingIsGood(code);
  }

  /** Every packed reply has its only END in last position. */
  lemma DispatchIsDeliverable(w: World, s: State, raw: Bytes, last: bool, walk: seq<Path>)
    requires IsMessage(raw) && |raw| <= CHUNK_SIZE
    requires raw[0] == LIST ==> SignsTravel(w.hash, s.disk)
    ensures var reply := Dispatch(w, s, raw[0], Segments(raw), last, walk).reply;
            reply.Some? ==> Deliverable(raw[0], Packed(reply.value))
  {
    var ts := Segments(raw);
    var reply := Dispatch(w, s, raw[0], ts, last, walk).reply;
    if reply.Some? {
      var items, code := ReplyShape(w, s, raw, last, walk);
      ItemsThenClosing(items, code);
      PackedIsDeliverable(raw[0], reply.value);
    }
  }

  lemma UploadShape(w: World, s: State, ts: seq<Tlv>, last: bool, update: bool) returns (items: seq<Tlv>, code: nat)
    requires ts != [] && Packable(ts[0]) && HandleUpload(w.hash, s, ts, last, update).reply.Some?
    ensures HandleUpload(w.hash, s, ts, last, update).reply.value == items + Closing(code)
    ensures code < 1000 && forall t | t in items :: t.tag == ITEM && Packable(t)
  {
    if ts[0].tag != ITEM {
      items, code := [], if update then ERR_UPDATE_NO_ITEM else ERR_CREATE_NO_ITEM;
    } else if |ts| < 2 || ts[1].tag != CONTENT {
      items, code := [ts[0]], if update then ERR_UPDATE_NO_CONTENT else ERR_CREATE_NO_CONTENT;
    } else {
      var (path, digest) := SplitSign(ts[0].value).value;
      CodesAreShort(w, s, path, digest, ts[1].value, last);
      items := [ts[0]];
      code := if update then UpdateChunk(w.hash, s, path, digest, ts[1].value, last).1
              else CreateChunk(w.hash, s, path, digest, ts[1].value, last).1;
    }
    assert [] + Closing(code) == Closing(code);
  }

  lemma ReplyShape(w: World, s: State, raw: Bytes, last: bool, walk: seq<Path>) returns (items: seq<Tlv>, code: nat)
    requires IsMessage(raw) && |raw| <= CHUNK_SIZE
    requires raw[0] == LIST ==> SignsTravel(w.hash, s.disk)
    requires Dispatch(w, s, raw[0], Segments(raw), last, walk).reply.Some?
    ensures Dispatch(w, s, raw[0], Segments(raw), last, walk).reply.value == items + Closing(code)
    ensures code < 1000 && forall t | t in items :: t.tag == ITEM && Packable(t)
  {
    var msgType, ts := raw[0], Segments(raw);
    if ts != [] {
      FirstSegmentIsPackable(raw);
    }
    if ts != [] && s.auth && !s.synced && msgType == LIST {
      var listing := ListFiles(w.hash, s.disk, s.entries, walk);
      ListItems(w.hash, s.disk, s.entries, walk);
      items, code := listing.items, if listing.ok then ERR_NONE else ERR_LIST_FAILED;
    } else if ts != [] && s.auth && s.synced && (msgType == CREATE || msgType == UPDATE) {
      items, code := UploadShape(w, s, ts, last, msgType == UPDATE);
    } else if ts != [] && s.auth && s.synced && msgType == ERASE && ts[0].tag == ITEM {
      var (path, digest) := SplitSign(ts[0].value).value;
      items, code := [ts[0]], EraseFile(s, path, digest).1;
    } else {
      items := [];
      code := if ts == [] then ERR_NO_CONTENT
              else if !s.auth && msgType == AUTH then
                if ts[0].tag != USRN then ERR_AUTH_NO_USRN
                else if |ts| < 2 || ts[1].tag != PSWD then ERR_AUTH_NO_PSWD
                else if w.login(ts[0].value, ts[1].value) then ERR_NONE else ERR_AUTH_FAILED
              else if s.auth && s.synced && msgType == ERASE then ERR_ERASE_NO_ITEM
              else if s.auth && s.synced && msgType == KEEP_ALIVE then ERR_NONE
              else ERR_MSG_TYPE_REJECTED;
      assert [] + Closing(code) == Closing(code);
    }
  }

  /** All the segments of a retrieved file, in order. */
  function FileSegments(sign: Bytes, payloads: seq<Bytes>): seq<Tlv>
    requires payloads != []
  {
    if |payloads| == 1 then ChunkTlvs(sign, payloads[0], true)
    else ChunkTlvs(sign, payloads[0], false) + FileSegments(sign, payloads[1..])
  }

  lemma {:induction false} FlattenChunks(sign: Bytes, payloads: seq<Bytes>)
    requires payloads != []
    ensures Flatten(ChunkGroups(sign, Cut(payloads, true))) == FileSegments(sign, payloads)
  {
    var groups := ChunkGroups(sign, Cut(payloads, true));
    if |payloads| == 1 {
      assert groups == [ChunkTlvs(sign, payloads[0], true)];
      FlattenOne(groups[0]);
    } else {
      var rest := ChunkGroups(sign, Cut(payloads[1..], true));
      assert groups == [ChunkTlvs(sign, payloads[0], false)] + rest;
      FlattenConcat([groups[0]], rest);
      FlattenOne(groups[0]);
      FlattenChunks(sign, payloads[1..]);
    }
  }

  lemma {:induction false} FileSegmentsEndOnce(sign: Bytes, payloads: seq<Bytes>)
    requires payloads != []
    ensures EndsOnce(FileSegments(sign, payloads))
  {
    if |payloads| > 1 {
      FileSegmentsEndOnce(sign, payloads[1..]);
      var head, tail := ChunkTlvs(sign, payloads[0], false), FileSegments(sign, payloads[1..]);
      assert forall i | 0 <= i < |tail| :: (head + tail)[|head| + i] == tail[i];
    }
  }

  lemma ChunksAreDeliverable(sign: Bytes, file: Bytes)
    requires SignFits(sign) && CutFile(file, MaxPayload(sign)).complete
    ensures Deliverable(RETRIEVE, ChunkGroups(sign, CutFile(file, MaxPayload(sign))))
  {
    var cut := CutFile(file, MaxPayload(sign));
    CutExact(file, MaxPayload(sign));
    ChunkSizes(RETRIEVE, sign, file);
    FlattenChunks(sign, cut.payloads);
    FileSegmentsEndOnce(sign, cut.payloads);
    assert Cut(cut.payloads, true) == cut;
  }

  /** Every reply has its only END in last position, in frames that can be sent. */
  lemma StepIsDeliverable(w: World, s: State, e: Event)
    requires IsMessage(e.raw) && |e.raw| <= CHUNK_SIZE
    requires e.raw[0] == LIST ==> SignsTravel(w.hash, s.disk)
    ensures var outcome := Step(w, s, e).1;
            outcome.Replied? ==> Deliverable(e.raw[0], outcome.groups)
  {
    var ts := Segments(e.raw);
    if ts != [] && s.auth && s.synced && e.raw[0] == RETRIEVE {
      if HandleRetrieve(s, ts).Replied? {
        var path := SplitSign(ts[0].value).value.0;
        ChunksAreDeliverable(ts[0].value, s.disk[path]);
      }
    } else {
      DispatchIsDeliverable(w, s, e.raw, IsLast(e.raw), e.walk);
    }
  }

  // ---- Conversations -----------------------------------------------------------------

  /** A run in which every request is replied to and every reply fits its frames. */
  ghost predicate AllReplied(w: World, s: State, es: seq<Event>)
    decreases |es|
  {
    es == [] ||
    (&& IsMessage(es[0].raw) && |es[0].raw| <= CHUNK_SIZE
     && (es[0].raw[0] == LIST ==> SignsTravel(w.hash, s.disk))
     && Step(w, s, es[0]).1.Replied?
     && AllReplied(w, Step(w, s, es[0]).0, es[1..]))
  }

  /** The messages of one reply. */
  datatype Sent = Sent(msgType: byte, groups: seq<seq<Tlv>>)

  /** The replies of a run. */
  ghost function Sendings(w: World, s: State, es: seq<Event>): seq<Sent>
    requires AllReplied(w, s, es)
    decreases |es|
  {
    if es == [] then []
    else [Sent(es[0].raw[0], Step(w, s, es[0]).1.groups)] + Sendings(w, Step(w, s, es[0]).0, es[1..])
  }

  /** Everything the server writes for these replies. */
  function Written(sendings: seq<Sent>): Bytes {
    if sendings == [] then []
    else Frames(EncodeGroups(sendings[0].msgType, sendings[0].groups)) + Written(sendings[1..])
  }

  /** Each reply as one message: its type byte and all its segments. */
  function Whole(sendings: seq<Sent>): seq<Bytes> {
    if sendings == [] then []
    else [EncodeMessage(sendings[0].msgType, Flatten(sendings[0].groups))] + Whole(sendings[1..])
  }

  lemma {:induction false} SendingsAreDeliverable(w: World, s: State, es: seq<Event>)
    requires AllReplied(w, s, es)
    ensures |Sendings(w, s, es)| == |es|
    ensures forall x | x in Sendings(w, s, es) :: Deliverable(x.msgType, x.groups)
    decreases |es|
  {
    if es != [] {
      StepIsDeliverable(w, s, es[0]);
      SendingsAreDeliverable(w, Step(w, s, es[0]).0, es[1..]);
    }
  }

  lemma {:induction false} ReadSendings(sendings: seq<Sent>, rest: Bytes)
    requires forall x | x in sendings :: Deliverable(x.msgType, x.groups)
    ensures ReadMany(|sendings|, Written(sendings) + rest) == AllRead(Whole(sendings), rest)
  {
    if sendings == [] {
      assert Written(sendings) + rest == rest;
    } else {
      var x, later := sendings[0], Written(sendings[1..]) + rest;
      assert Written(sendings) + rest == Frames(EncodeGroups(x.msgType, x.groups)) + later;
      ReadReply(x.msgType, x.groups, later);
      ReadSendings(sendings[1..], rest);
    }
  }

  /** Over any run the client's reads and the server's replies stay in lockstep: as many reads
      as requests give exactly their replies, each complete, and leave what follows untouched. */
  lemma Lockstep(w: World, s: State, es: seq<Event>, rest: Bytes)
    requires AllReplied(w, s, es)
    ensures var sendings := Sendings(w, s, es);
            && |sendings| == |es|
            && ReadMany(|es|, Written(sendings) + rest) == AllRead(Whole(sendings), rest)
  {
    SendingsAreDeliverable(w, s, es);
    ReadSendings(Sendings(w, s, es), rest);
  }
}
