/** The listing as the client asks for it and takes it: over the connection, for a synchronization and for
    a restore. */
module Listings {
  import opened Protocol
  import opened Tlvs
  import opened FileMessages
  import opened MessageQueues
  import opened Connections
  import opened Server
  import Replies
  import opened RoundTrips
  import opened Client
  import opened Synchronizations
  import opened Convergence
  import Restores
  import E = EndToEnd

  // ---- The request -------------------------------------------------------------------

  /** What the client sends to get a listing. */
  function ListRequest(): Bytes {
    EncodeMessage(LIST, [Tlv(END, [])])
  }

  lemma RequestFits()
    ensures |ListRequest()| <= CHUNK_SIZE && IsMessage(ListRequest()) && ListRequest()[0] == LIST
    ensures Segments(ListRequest()) == [Tlv(END, [])]
  {
    MessageRoundTrip(LIST, [Tlv(END, [])]);
    assert Encode([Tlv(END, [])]) == EncodeTlv(Tlv(END, []));
    hide Parse;
  }

  /** It asks for the listing in every session that has logged in and not listed. */
  lemma RequestAsksForList(s: State, walk: seq<Path>)
    requires s.auth && !s.synced && s.entries == map[] && Walks(walk, s.disk)
    ensures |ListRequest()| <= CHUNK_SIZE && AsksForList(s, Event(ListRequest(), walk))
  {
    RequestFits();
    hide ListRequest, Segments, IsMessage, Walks;
  }

  // ---- What a LIST leaves ------------------------------------------------------------

  /** The walk meets no file twice and none that is tracked. */
  ghost predicate MeetsNew(entries: map<Path, Entry>, disk: map<Path, Bytes>, walk: seq<Path>) {
    FilesOnce(walk, disk) && forall p | p in walk && p in disk :: p !in entries
  }

  lemma MeetsNewLater(h: Hash, entries: map<Path, Entry>, disk: map<Path, Bytes>, walk: seq<Path>)
    requires walk != []
    ensures var p := walk[0];
            MeetsNew(entries, disk, walk) <==>
            if p in disk then p !in entries && MeetsNew(entries[p := Entry(true, h(p, disk[p]))], disk, walk[1..])
            else MeetsNew(entries, disk, walk[1..])
  {
    assert walk == [walk[0]] + walk[1..];
    if FilesOnce(walk, disk) {
      FilesOnceLater(walk, disk);
    }
    if FilesOnce(walk[1..], disk) && (walk[0] in disk ==> walk[0] !in walk[1..]) {
      forall i, j | 0 <= i < j < |walk| && walk[i] in disk ensures walk[i] != walk[j] {
        assert i > 0 ==> walk[1..][i - 1] != walk[1..][j - 1];
        assert walk[j] == walk[1..][j - 1];
      }
    }
  }

  /** Noting the files of a walk succeeds exactly if it meets only new ones, and adds exactly those. */
  lemma {:induction false} ListFilesExact(h: Hash, disk: map<Path, Bytes>, entries: map<Path, Entry>, walk: seq<Path>)
    ensures var listing := ListFiles(h, disk, entries, walk);
            && (listing.ok <==> MeetsNew(entries, disk, walk))
            && (!listing.ok ==> listing.entries == map[])
            && (listing.ok ==>
                  && (forall p :: p in listing.entries <==> p in entries || (p in disk && p in walk))
                  && (forall p | p in listing.entries ::
                        listing.entries[p] == if p in entries then entries[p] else Entry(true, h(p, disk[p]))))
    decreases |walk|
  {
    if walk != [] {
      var p := walk[0];
      MeetsNewLater(h, entries, disk, walk);
      hide MeetsNew;
      assert walk == [p] + walk[1..];
      if p !in disk {
        ListFilesExact(h, disk, entries, walk[1..]);
      } else if p !in entries {
        ListFilesExact(h, disk, entries[p := Entry(true, h(p, disk[p]))], walk[1..]);
      }
    } else {
      assert MeetsNew(entries, disk, walk);
    }
  }

  /** What a LIST leaves in the phase for it: it succeeds exactly if its walk meets only new files, and then
      adds exactly those, under their digests; when it fails nothing is tracked any more and the phase is
      the same. The disk stays in any case. */
  lemma ListExactly(w: World, s: State, e: Event)
    requires IsMessage(e.raw) && e.raw[0] == LIST && Segments(e.raw) != [] && s.auth && !s.synced
    ensures var r := Step(w, s, e).0;
            && r == s.(entries := r.entries, synced := r.synced)
            && (r.synced <==> MeetsNew(s.entries, s.disk, e.walk))
            && (!r.synced ==> r.entries == map[])
            && (r.synced ==>
                  && (forall p :: p in r.entries <==> p in s.entries || (p in s.disk && p in e.walk))
                  && (forall p | p in r.entries ::
                        r.entries[p] == if p in s.entries then s.entries[p] else Entry(true, w.hash(p, s.disk[p]))))
  {
    ListFilesExact(w.hash, s.disk, s.entries, e.walk);
    hide ListFiles, MeetsNew, Segments, IsMessage, IsLast, Packed;
  }

  // ---- Which replies are listings ----------------------------------------------------

  /** The first file a walk meets. */
  function FirstFile(walk: seq<Path>, disk: map<Path, Bytes>): Option<Path> {
    if walk == [] then None else if walk[0] in disk then Some(walk[0]) else FirstFile(walk[1..], disk)
  }

  lemma {:induction false} FirstOfListing(h: Hash, disk: map<Path, Bytes>, entries: map<Path, Entry>, walk: seq<Path>)
    ensures var listing, first := ListFiles(h, disk, entries, walk), FirstFile(walk, disk);
            if first == None then listing == Listing(entries, [], true)
            else if first.value in entries then listing == Listing(map[], [], false)
            else listing.items != []
    decreases |walk|
  {
    if walk != [] && walk[0] !in disk {
      FirstOfListing(h, disk, entries, walk[1..]);
    }
  }

  /** The session answers the request with a listing, which begins unless its first file is tracked
      already. */
  predicate GivesListing(s: State, e: Event)
    requires IsMessage(e.raw)
  {
    && s.auth && !s.synced && Segments(e.raw) != []
    && (FirstFile(e.walk, s.disk).Some? ==> FirstFile(e.walk, s.disk).value !in s.entries)
  }

  /** The reply to a LIST: the files that were met, then how it went. */
  lemma ListReply(w: World, s: State, e: Event) returns (items: seq<Tlv>, code: nat)
    requires IsMessage(e.raw) && e.raw[0] == LIST
    ensures Step(w, s, e).1 == Replied(Packed(items + Closing(code)))
    ensures items + Closing(code) != []
    ensures (items + Closing(code))[0].tag != ERROR <==> GivesListing(s, e)
  {
    var ts := Segments(e.raw);
    if ts != [] && s.auth && !s.synced {
      var listing := ListFiles(w.hash, s.disk, s.entries, e.walk);
      FirstOfListing(w.hash, s.disk, s.entries, e.walk);
      ItemsAreItems(w.hash, s.disk, s.entries, e.walk);
      items, code := listing.items, if listing.ok then ERR_NONE else ERR_LIST_FAILED;
      assert items != [] ==> items[0] in items && (items + Closing(code))[0] == items[0];
      assert items == [] ==> items + Closing(code) == Closing(code);
    } else {
      items, code := [], if ts == [] then ERR_NO_CONTENT else ERR_MSG_TYPE_REJECTED;
      assert items + Closing(code) == Closing(code);
    }
    hide Packed, ListFiles, FirstFile, Segments, IsMessage, IsLast, ToDecimal;
  }

  lemma {:induction false} ItemsAreItems(h: Hash, disk: map<Path, Bytes>, entries: map<Path, Entry>, walk: seq<Path>)
    ensures forall t | t in ListFiles(h, disk, entries, walk).items :: t.tag == ITEM
    decreases |walk|
  {
    if walk != [] {
      var p := walk[0];
      if p !in disk {
        ItemsAreItems(h, disk, entries, walk[1..]);
      } else if p !in entries {
        ItemsAreItems(h, disk, entries[p := Entry(true, h(p, disk[p]))], walk[1..]);
      }
    }
  }

  /** What the client reads of the reply to a LIST it takes for a listing if and only if the session gives
      one: a request without segments or in the wrong phase, and a listing that fails at its first file,
      is never taken for one; a listing without any file is, and so is one that fails later. */
  lemma ListingIsTakenExactly(w: World, s: State, e: Event, rest: Bytes)
    requires IsMessage(e.raw) && |e.raw| <= CHUNK_SIZE && e.raw[0] == LIST && Replies.SignsTravel(w.hash, s.disk)
    ensures var outcome := Step(w, s, e).1;
            && outcome.Replied?
            && var read := ReadFrom([], Frames(EncodeGroups(LIST, outcome.groups)) + rest);
            && read.Received? && read.rest == rest && IsMessage(read.raw)
            && (IsListing(read.raw) <==> GivesListing(s, e))
  {
    var items, code := ListReply(w, s, e);
    var groups := Packed(items + Closing(code));
    Replies.StepIsDeliverable(w, s, e);
    PackedConserves(items + Closing(code));
    hide Step, GivesListing, Packed, Replies.SignsTravel;
    ReadReply(LIST, groups, rest);
    FlattenFits(groups);
    MessageRoundTrip(LIST, items + Closing(code));
    hide ReadFrom, Frames, EncodeGroups;
  }

  /** And no reply to another request is taken for a listing. */
  lemma OtherRepliesAreNone(w: World, s: State, e: Event, rest: Bytes)
    requires IsMessage(e.raw) && |e.raw| <= CHUNK_SIZE && e.raw[0] != LIST && Step(w, s, e).1.Replied?
    ensures var read := ReadFrom([], Frames(EncodeGroups(e.raw[0], Step(w, s, e).1.groups)) + rest);
            read.Received? && read.rest == rest && IsMessage(read.raw) && !IsListing(read.raw)
  {
    var groups := Step(w, s, e).1.groups;
    Replies.StepIsDeliverable(w, s, e);
    hide Step;
    ReadReply(e.raw[0], groups, rest);
    FlattenFits(groups);
    MessageRoundTrip(e.raw[0], Flatten(groups));
    hide ReadFrom, Frames, EncodeGroups;
  }

  lemma FlattenFits(groups: seq<seq<Tlv>>)
    requires forall g | g in groups :: AllFit(g)
    ensures AllFit(Flatten(groups))
  {
    if groups != [] {
      FlattenFits(groups[..|groups| - 1]);
      assert groups[|groups| - 1] in groups;
    }
  }

  // ---- Synchronizing over a connection -----------------------------------------------

  /** How a synchronization ends: whether it got through, the directory and the operations posted. */
  datatype SyncResult = SyncResult(ok: bool, dir: Directory, posted: seq<Op>)

  /** What a synchronization makes of what it reads. */
  ghost function SyncWith(dir: Directory, read: ReadOutcome, known: seq<Path>): SyncResult {
    if !read.Received? || !IsListing(read.raw) then SyncResult(false, dir, [])
    else
      var r := SyncListed(dir, Segments(read.raw));
      SyncResult(r.ok, r.dir, r.ops + if r.ok then SyncMissing(r.dir, r.listed, known) else [])
  }

  lemma {:induction false} ReceivedIsMessage(acc: Bytes, input: Bytes)
    ensures ReadFrom(acc, input).Received? ==> IsMessage(ReadFrom(acc, input).raw)
    decreases |input|
  {
    ReadStep(acc, input);
    if BodyOf(input, acc == []).Body? {
      var glued := acc + BodyOf(input, acc == []).bytes;
      var rest := input[HEADER_SIZE + FromLittleEndian(input[..HEADER_SIZE])..];
      ReceivedIsMessage(glued, rest);
    }
    hide ReadFrom, HasEnd;
  }

  /** Synchronizes with what has been read; a missing or unusable reply ends it. */
  method TakeListing(scheduler: Scheduler, read: ReadOutcome, known: seq<Path>) returns (ok: bool)
    requires read.Received? ==> IsMessage(read.raw)
    modifies scheduler`dir, scheduler`posted
    ensures var r := SyncWith(old(scheduler.dir), read, known);
            ok == r.ok && scheduler.dir == r.dir && scheduler.posted == old(scheduler.posted) + r.posted
  {
    hide SyncListed, SyncMissing, IsListing;
    ghost var before := scheduler.posted;
    if !read.Received? {
      assert before + [] == before;
      return false;
    }
    ghost var r := SyncListed(scheduler.dir, Segments(read.raw));
    ok := scheduler.Sync(read.raw, known);
    ghost var missing := if ok then SyncMissing(r.dir, r.listed, known) else [];
    assert before + r.ops + missing == before + (r.ops + missing);
    assert before + [] + [] == before + [];
  }

  /** Asks for the listing and posts what it takes to synchronize. */
  method SyncOver(scheduler: Scheduler, socket: Socket, known: seq<Path>) returns (ok: bool)
    modifies scheduler`dir, scheduler`posted, socket
    ensures socket.output == old(socket.output) + Frame(ListRequest())
    ensures var r := SyncWith(old(scheduler.dir), ReadFrom([], old(socket.input)), known);
            ok == r.ok && scheduler.dir == r.dir && scheduler.posted == old(scheduler.posted) + r.posted
  {
    var request := Build(LIST, [Tlv(END, [])]);
    ReceivedIsMessage([], socket.input);
    hide *;
    var outcome := PostMessage(socket, request);
    assert request == ListRequest();
    ok := TakeListing(scheduler, outcome, known);
  }

  /** From the reply to the first LIST of a session, an empty disk included, a synchronization gets
      through, notes what agrees and posts exactly the plan. */
  lemma SyncTakesListing(w: World, s: State, e: Event, rest: Bytes, dir: Directory, known: seq<Path>)
    requires AsksForList(s, e) && s.stream == Closed && Replies.SignsTravel(w.hash, s.disk)
    ensures var (listed, outcome) := Step(w, s, e);
            && outcome.Replied?
            && var read := ReadFrom([], Frames(EncodeGroups(LIST, outcome.groups)) + rest);
            && read.Received? && IsMessage(read.raw)
            && SyncWith(dir, read, known) ==
               SyncResult(true, Noted(dir, Remote(w.hash, listed)), Plan(dir, Segments(read.raw), known))
  {
    ListRoundTrip(w, s, e, rest);
    var (listed, outcome) := Step(w, s, e);
    var raw := ReadFrom([], Frames(EncodeGroups(LIST, outcome.groups)) + rest).raw;
    hide Step, ReadFrom, Frames, Replies.SignsTravel, ListsFiles;
    E.ListedIsRemote(w.hash, listed, Listed(Segments(raw)).value);
    SyncListedExact(dir, Segments(raw), Remote(w.hash, listed));
    hide ListsRemote, Remote, SyncListed, SyncMissing;
  }

  // ---- Restoring over a connection ---------------------------------------------------

  /** What a restore makes of what it reads; None when it is no listing. */
  ghost function RestoreWith(h: Hash, files: map<Path, Bytes>, read: ReadOutcome, answers: Answers): Option<Fetched>
    requires AreMessages(answers)
  {
    if !read.Received? || !IsListing(read.raw) then None
    else Some(Restore(h, files, Segments(read.raw), answers))
  }

  /** Asks for the listing and retrieves its files. */
  method RestoreOver(scheduler: Scheduler, socket: Socket, files: map<Path, Bytes>, answers: Answers)
    returns (restored: Option<Fetched>)
    requires AreMessages(answers)
    modifies socket
    ensures socket.output == old(socket.output) + Frame(ListRequest())
    ensures restored == RestoreWith(scheduler.hash, files, ReadFrom([], old(socket.input)), answers)
  {
    var request := Build(LIST, [Tlv(END, [])]);
    ReceivedIsMessage([], socket.input);
    hide ReadFrom, Restore;
    var outcome := PostMessage(socket, request);
    if !outcome.Received? {
      return None;
    }
    restored := scheduler.RestoreFiles(files, outcome.raw, answers);
  }

  /** From the reply to the first LIST a restore gets every file of the server. */
  lemma RestoreTakesListing(w: World, s: State, e: Event, files: map<Path, Bytes>, answers: Answers)
    requires AsksForList(s, e) && Replies.SignsTravel(w.hash, s.disk)
    requires Restores.AllRetrievable(w.hash, files, s.disk)
    requires AreMessages(answers) && forall sign :: answers(sign) == Restores.AnswerOf(w, Step(w, s, e).0, sign)
    ensures var outcome := Step(w, s, e).1;
            && outcome.Replied?
            && RestoreWith(w.hash, files, ReadFrom([], Frames(EncodeGroups(LIST, outcome.groups))), answers) ==
               Some(Done(Restores.Restored(w.hash, files, s.disk, s.disk.Keys)))
  {
    Restores.RestoreRoundTrip(w, s, e, files, answers);
    hide Step, ReadFrom, Frames, Restore, Restores.Restored, Restores.AllRetrievable, Restores.AnswerOf;
  }
}
