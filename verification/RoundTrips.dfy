/** From the server's disk to the client and back: listings and retrieved files. */
module RoundTrips {
  import opened Protocol
  import opened Tlvs
  import opened FileMessages
  import opened MessageQueues
  import opened Connections
  import opened Signs
  import opened Server
  import opened Replies
  import Client

  // ---- Listings ----------------------------------------------------------------------

  /** The files of a walk, in order. */
  function FilesOf(walk: seq<Path>, disk: map<Path, Bytes>): seq<Path> {
    if walk == [] then []
    else (if walk[0] in disk then [walk[0]] else []) + FilesOf(walk[1..], disk)
  }

  /** No file is met twice. */
  ghost predicate FilesOnce(walk: seq<Path>, disk: map<Path, Bytes>) {
    forall i, j | 0 <= i < j < |walk| && walk[i] in disk :: walk[i] != walk[j]
  }

  /** A walk that meets every file of the disk once (and directories at will). */
  ghost predicate Walks(walk: seq<Path>, disk: map<Path, Bytes>) {
    FilesOnce(walk, disk) && forall p | p in disk :: p in walk
  }

  lemma FilesOnceLater(walk: seq<Path>, disk: map<Path, Bytes>)
    requires walk != [] && FilesOnce(walk, disk)
    ensures FilesOnce(walk[1..], disk)
    ensures walk[0] in disk ==> walk[0] !in walk[1..]
  {
    forall i, j | 0 <= i < j < |walk[1..]| && walk[1..][i] in disk
      ensures walk[1..][i] != walk[1..][j]
    {
      assert walk[i + 1] != walk[j + 1];
    }
  }

  /** The entries a listing leaves: every file, synced, under its digest. */
  ghost function Tracked(h: Hash, disk: map<Path, Bytes>): map<Path, Entry> {
    map p | p in disk :: Entry(true, h(p, disk[p]))
  }

  function Items(h: Hash, disk: map<Path, Bytes>, paths: seq<Path>): seq<Tlv>
    requires forall p | p in paths :: p in disk
  {
    if paths == [] then [] else [ItemOf(h, disk, paths[0])] + Items(h, disk, paths[1..])
  }

  lemma {:induction false} FilesOfExact(walk: seq<Path>, disk: map<Path, Bytes>)
    ensures forall p :: p in FilesOf(walk, disk) <==> p in walk && p in disk
  {
    if walk != [] {
      FilesOfExact(walk[1..], disk);
    }
  }

  lemma {:induction false} FilesOfDistinct(walk: seq<Path>, disk: map<Path, Bytes>)
    requires FilesOnce(walk, disk)
    ensures forall i, j | 0 <= i < j < |FilesOf(walk, disk)| :: FilesOf(walk, disk)[i] != FilesOf(walk, disk)[j]
  {
    if walk != [] {
      var files := FilesOf(walk[1..], disk);
      FilesOnceLater(walk, disk);
      FilesOfDistinct(walk[1..], disk);
      FilesOfExact(walk[1..], disk);
      if walk[0] in disk {
        forall j | 0 <= j < |files| ensures files[j] != walk[0] {
          assert files[j] in files;
        }
      }
    }
  }

  /** A listing that meets no tracked file yields the signs of the files it walks over, in order. */
  lemma {:induction false} ListedSigns(h: Hash, disk: map<Path, Bytes>, entries: map<Path, Entry>, walk: seq<Path>)
    requires FilesOnce(walk, disk) && forall p | p in walk :: p !in entries
    ensures forall p | p in FilesOf(walk, disk) :: p in disk
    ensures var listing := ListFiles(h, disk, entries, walk);
            listing.ok && listing.items == Items(h, disk, FilesOf(walk, disk))
    decreases |walk|
  {
    FilesOfExact(walk, disk);
    if walk != [] {
      var p := walk[0];
      FilesOnceLater(walk, disk);
      FilesOfExact(walk[1..], disk);
      if p in disk {
        ListedSigns(h, disk, entries[p := Entry(true, h(p, disk[p]))], walk[1..]);
        assert FilesOf(walk, disk)[1..] == FilesOf(walk[1..], disk);
      } else {
        ListedSigns(h, disk, entries, walk[1..]);
        assert FilesOf(walk, disk) == FilesOf(walk[1..], disk);
      }
    }
  }

  /** And it tracks exactly the files it walks over. */
  lemma {:induction false} ListedEntries(h: Hash, disk: map<Path, Bytes>, entries: map<Path, Entry>, walk: seq<Path>)
    requires FilesOnce(walk, disk) && forall p | p in walk :: p !in entries
    ensures var r := ListFiles(h, disk, entries, walk).entries;
            && (forall p :: p in r <==> p in entries || (p in disk && p in walk))
            && (forall p | p in r :: r[p] == if p in entries then entries[p] else Entry(true, h(p, disk[p])))
    decreases |walk|
  {
    if walk != [] {
      FilesOnceLater(walk, disk);
      if walk[0] in disk {
        ListedEntries(h, disk, entries[walk[0] := Entry(true, h(walk[0], disk[walk[0]]))], walk[1..]);
      } else {
        ListedEntries(h, disk, entries, walk[1..]);
      }
    }
  }

  /** The pairs of path and digest a listing says the server has. */
  function Listed(ts: seq<Tlv>): Option<seq<(Path, Bytes)>> {
    if ts == [] then Some([])
    else if ts[0].tag != ITEM then Listed(ts[1..])
    else
      match (SplitSign(ts[0].value), Listed(ts[1..]))
      case (Some(pair), Some(more)) => Some([pair] + more)
      case _ => None
  }

  function Pairs(h: Hash, disk: map<Path, Bytes>, paths: seq<Path>): seq<(Path, Bytes)>
    requires forall p | p in paths :: p in disk
  {
    seq(|paths|, i requires 0 <= i < |paths| => (paths[i], h(paths[i], disk[paths[i]])))
  }

  lemma ListedCons(path: Path, digest: Bytes, ts: seq<Tlv>)
    requires 0 !in digest
    ensures Listed([Tlv(ITEM, CreateSign(path, digest))] + ts) ==
            if Listed(ts).Some? then Some([(path, digest)] + Listed(ts).value) else None
  {
    SignRoundTrip(path, digest);
    assert ([Tlv(ITEM, CreateSign(path, digest))] + ts)[1..] == ts;
  }

  lemma {:induction false} ListedItems(h: Hash, disk: map<Path, Bytes>, paths: seq<Path>, code: nat)
    requires forall p | p in paths :: p in disk
    ensures Listed(Items(h, disk, paths) + Closing(code)) == Some(Pairs(h, disk, paths))
  {
    if paths == [] {
      assert Items(h, disk, paths) + Closing(code) == Closing(code);
      assert Listed(Closing(code)[1..]) == Some([]);
    } else {
      var digest := h(paths[0], disk[paths[0]]);
      var ts := Items(h, disk, paths[1..]) + Closing(code);
      ListedItems(h, disk, paths[1..], code);
      ListedCons(paths[0], digest, ts);
      assert Items(h, disk, paths) + Closing(code) == [Tlv(ITEM, CreateSign(paths[0], digest))] + ts;
      assert Pairs(h, disk, paths) == [(paths[0], digest)] + Pairs(h, disk, paths[1..]);
    }
  }

  /** A request for a listing as an authenticated client sends it first. */
  ghost predicate AsksForList(s: State, e: Event) {
    && IsMessage(e.raw) && e.raw[0] == LIST && Segments(e.raw) != []
    && s.auth && !s.synced && s.entries == map[] && Walks(e.walk, s.disk)
  }

  lemma ListStep(w: World, s: State, e: Event)
    requires AsksForList(s, e)
    ensures forall p | p in FilesOf(e.walk, s.disk) :: p in s.disk
    ensures Step(w, s, e) ==
            (s.(entries := Tracked(w.hash, s.disk), synced := true),
             Replied(Packed(Items(w.hash, s.disk, FilesOf(e.walk, s.disk)) + Closing(ERR_NONE))))
  {
    ListedSigns(w.hash, s.disk, map[], e.walk);
    ListedEntries(w.hash, s.disk, map[], e.walk);
    var listing := ListFiles(w.hash, s.disk, map[], e.walk);
    assert listing.entries == Tracked(w.hash, s.disk);
  }

  lemma {:induction false} ItemsTravel(h: Hash, disk: map<Path, Bytes>, paths: seq<Path>)
    requires forall p | p in paths :: p in disk
    requires SignsTravel(h, disk)
    ensures forall t | t in Items(h, disk, paths) :: t.tag == ITEM && Packable(t)
  {
    if paths != [] {
      ItemsTravel(h, disk, paths[1..]);
    }
  }

  /** A listing gives these pairs, each of a file and its digest, and each file once. */
  ghost predicate ListsFiles(h: Hash, disk: map<Path, Bytes>, pairs: seq<(Path, Bytes)>) {
    && (forall p: Path, d: Bytes :: (p, d) in pairs <==> p in disk && d == h(p, disk[p]))
    && (forall i, j | 0 <= i < j < |pairs| :: pairs[i].0 != pairs[j].0)
  }

  /** What the client reads of a message that lists the files, and takes for a listing. */
  ghost predicate ReadsListing(h: Hash, disk: map<Path, Bytes>, read: ReadOutcome, rest: Bytes) {
    && read.Received? && read.rest == rest && Client.IsListing(read.raw)
    && Listed(Segments(read.raw)).Some?
    && ListsFiles(h, disk, Listed(Segments(read.raw)).value)
  }

  lemma WalkedFiles(h: Hash, disk: map<Path, Bytes>, walk: seq<Path>)
    requires Walks(walk, disk)
    ensures forall p | p in FilesOf(walk, disk) :: p in disk
    ensures ListsFiles(h, disk, Pairs(h, disk, FilesOf(walk, disk)))
  {
    var paths := FilesOf(walk, disk);
    FilesOfExact(walk, disk);
    FilesOfDistinct(walk, disk);
    assert forall p :: p in paths <==> p in disk;
    PairsExact(h, disk, paths);
    hide FilesOf, Walks, FilesOnce;
  }

  lemma ListTravels(h: Hash, disk: map<Path, Bytes>, walk: seq<Path>, rest: Bytes)
    requires Walks(walk, disk) && SignsTravel(h, disk)
    ensures forall p | p in FilesOf(walk, disk) :: p in disk
    ensures var groups := Packed(Items(h, disk, FilesOf(walk, disk)) + Closing(ERR_NONE));
            ReadsListing(h, disk, ReadFrom([], Frames(EncodeGroups(LIST, groups)) + rest), rest)
  {
    WalkedFiles(h, disk, walk);
    hide FilesOf, Walks, FilesOnce, ListsFiles, ReadFrom, Frames;
    var paths := FilesOf(walk, disk);
    var items := Items(h, disk, paths);
    var ts := items + Closing(ERR_NONE);
    ItemsTravel(h, disk, paths);
    ItemsThenClosing(items, ERR_NONE);
    PackedIsDeliverable(LIST, ts);
    PackedConserves(ts);
    ReadReply(LIST, Packed(ts), rest);
    AllPackableFit(ts);
    MessageRoundTrip(LIST, ts);
    ListedItems(h, disk, paths, ERR_NONE);
  }

  /** LIST round trip: the server tracks exactly its files, and through signs, packing, framing
      and reassembly the client decodes exactly their paths and digests, each once. */
  lemma ListRoundTrip(w: World, s: State, e: Event, rest: Bytes)
    requires AsksForList(s, e) && SignsTravel(w.hash, s.disk)
    ensures var (s', outcome) := Step(w, s, e);
            && s' == s.(entries := Tracked(w.hash, s.disk), synced := true)
            && outcome.Replied?
            && ReadsListing(w.hash, s.disk, ReadFrom([], Frames(EncodeGroups(LIST, outcome.groups)) + rest), rest)
  {
    ListStep(w, s, e);
    ListTravels(w.hash, s.disk, e.walk, rest);
    hide Step, ReadsListing, ReadFrom, Frames, SignsTravel, Packed;
  }

  lemma AllPackableFit(ts: seq<Tlv>)
    requires forall t | t in ts :: Packable(t)
    ensures AllFit(ts)
  {
  }

  lemma PairsExact(h: Hash, disk: map<Path, Bytes>, paths: seq<Path>)
    requires forall p | p in paths :: p in disk
    ensures forall p: Path, d: Bytes :: (p, d) in Pairs(h, disk, paths) <==> p in paths && d == h(p, disk[p])
  {
    forall p: Path, d: Bytes
      ensures (p, d) in Pairs(h, disk, paths) <==> p in paths && d == h(p, disk[p])
    {
      if p in paths && d == h(p, disk[p]) {
        var i :| 0 <= i < |paths| && paths[i] == p;
        assert Pairs(h, disk, paths)[i] == (p, d);
      }
    }
  }

  // ---- Retrieved files ---------------------------------------------------------------

  lemma {:induction false} CollectFile(sign: Bytes, payloads: seq<Bytes>)
    requires payloads != []
    ensures Client.Collect(sign, FileSegments(sign, payloads)) == (Join(payloads), Some(Tlv(END, [])))
  {
    var ts := FileSegments(sign, payloads);
    if |payloads| == 1 {
      assert ts[2..] == [Tlv(END, [])];
      assert payloads[1..] == [];
    } else {
      assert ts[2..] == FileSegments(sign, payloads[1..]);
      CollectFile(sign, payloads[1..]);
    }
  }

  lemma {:induction false} FileSegmentsFit(sign: Bytes, payloads: seq<Bytes>)
    requires payloads != [] && |sign| <= 65535 && forall p | p in payloads :: |p| <= 65535
    ensures AllFit(FileSegments(sign, payloads))
  {
    if |payloads| > 1 {
      assert payloads[0] in payloads;
      FileSegmentsFit(sign, payloads[1..]);
    }
  }

  lemma FileTravels(sign: Bytes, file: Bytes, rest: Bytes)
    requires SignFits(sign) && CutFile(file, MaxPayload(sign)).complete
    ensures var groups := ChunkGroups(sign, CutFile(file, MaxPayload(sign)));
            var read := ReadFrom([], Frames(EncodeGroups(RETRIEVE, groups)) + rest);
            && read.Received? && read.rest == rest && IsMessage(read.raw) && read.raw[0] == RETRIEVE
            && Client.Collect(sign, Segments(read.raw)) == (file, Some(Tlv(END, [])))
  {
    var cut := CutFile(file, MaxPayload(sign));
    var groups := ChunkGroups(sign, cut);
    ChunksAreDeliverable(sign, file);
    CutExact(file, MaxPayload(sign));
    ReadReply(RETRIEVE, groups, rest);
    assert Cut(cut.payloads, true) == cut;
    FlattenChunks(sign, cut.payloads);
    FileSegmentsFit(sign, cut.payloads);
    MessageRoundTrip(RETRIEVE, FileSegments(sign, cut.payloads));
    CollectFile(sign, cut.payloads);
  }

  /** The request for a file. */
  function RetrieveRequest(sign: Bytes): Event {
    Event(EncodeMessage(RETRIEVE, [Tlv(ITEM, sign), Tlv(END, [])]), [])
  }

  /** What the client has after a retrieval: a file with the digest asked for stays, any other
      makes way for the server's file, which stays if it has that digest. */
  ghost function AfterRetrieval(h: Hash, files: map<Path, Bytes>, path: Path, digest: Bytes, file: Bytes)
    : Client.Fetched
  {
    if path in files && h(path, files[path]) == digest then Client.Done(files)
    else if h(path, file) == digest then Client.Done(files[path := file])
    else Client.Failed(files - {path})
  }

  lemma FileArrives(h: Hash, files: map<Path, Bytes>, path: Path, digest: Digest, file: Bytes, raw: Bytes)
    requires IsMessage(raw) && raw[0] == RETRIEVE
    requires Client.Collect(CreateSign(path, digest), Segments(raw)) == (file, Some(Tlv(END, [])))
    ensures Client.Retrieve(h, files, path, digest, Some(raw)) == AfterRetrieval(h, files, path, digest, file)
  {
    assert (files - {path})[path := file] == files[path := file];
    assert (files - {path}) - {path} == files - {path};
  }

  /** RETRIEVE round trip: a file of good size arrives at the client byte for byte, whatever its
      contents look like, is kept exactly when its digest is the one asked for, and the replies
      that follow are untouched. */
  lemma RetrieveRoundTrip(w: World, s: State, path: Path, digest: Digest, files: map<Path, Bytes>, rest: Bytes)
    requires s.auth && s.synced
    requires path in s.disk && SignFits(CreateSign(path, digest))
    requires GoodSize(|s.disk[path]|, MaxPayload(CreateSign(path, digest)))
    ensures var e := RetrieveRequest(CreateSign(path, digest));
            && IsMessage(e.raw)
            && var (s', outcome) := Step(w, s, e);
            && s' == s && outcome.Replied?
            && var read := ReadFrom([], Frames(EncodeGroups(RETRIEVE, outcome.groups)) + rest);
            && read.Received? && read.rest == rest && IsMessage(read.raw)
            && Client.Retrieve(w.hash, files, path, digest, Some(read.raw)) ==
               AfterRetrieval(w.hash, files, path, digest, s.disk[path])
  {
    var sign := CreateSign(path, digest);
    var ts := [Tlv(ITEM, sign), Tlv(END, [])];
    MessageRoundTrip(RETRIEVE, ts);
    SignRoundTrip(path, digest);
    CutCount(s.disk[path], MaxPayload(sign));
    assert Step(w, s, RetrieveRequest(sign)) ==
           (s, Replied(ChunkGroups(sign, CutFile(s.disk[path], MaxPayload(sign)))));
    hide Step, Client.Retrieve, AfterRetrieval, ReadFrom, Frames;
    FileTravels(sign, s.disk[path], rest);
    var groups := ChunkGroups(sign, CutFile(s.disk[path], MaxPayload(sign)));
    FileArrives(w.hash, files, path, digest, s.disk[path],
                ReadFrom([], Frames(EncodeGroups(RETRIEVE, groups)) + rest).raw);
  }
}
