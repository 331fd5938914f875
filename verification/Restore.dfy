/** A restore: everything the server has comes back. */
module Restores {
  import opened Protocol
  import opened Tlvs
  import opened FileMessages
  import opened Connections
  import opened Signs
  import opened Server
  import Replies
  import opened RoundTrips
  import Client

  /** What the client reads when it asks the server for a file; None when it gets no reply. */
  ghost function AnswerOf(w: World, s: State, sign: Bytes): Option<Bytes> {
    var e := RetrieveRequest(sign);
    if !IsMessage(e.raw) then None
    else
      var outcome := Step(w, s, e).1;
      if !outcome.Replied? then None
      else
        var read := ReadFrom([], Frames(EncodeGroups(RETRIEVE, outcome.groups)));
        if read.Received? && IsMessage(read.raw) then Some(read.raw) else None
  }

  /** The client has a file under the digest of this one already. */
  ghost predicate HasAlready(h: Hash, files: map<Path, Bytes>, path: Path, file: Bytes) {
    path in files && h(path, files[path]) == h(path, file)
  }

  /** The file can be sent back under its sign. */
  ghost predicate CanBeSent(h: Hash, path: Path, file: Bytes) {
    var sign := CreateSign(path, h(path, file));
    SignFits(sign) && GoodSize(|file|, MaxPayload(sign))
  }

  /** Every file that has to be sent back can be. */
  ghost predicate AllRetrievable(h: Hash, files: map<Path, Bytes>, disk: map<Path, Bytes>) {
    forall p | p in disk && !HasAlready(h, files, p, disk[p]) :: CanBeSent(h, p, disk[p])
  }

  /** The client's files once those of `paths` have been restored: a file that has the right
      digest already is kept, every other is as on the server. */
  ghost function Restored(h: Hash, files: map<Path, Bytes>, disk: map<Path, Bytes>, paths: set<Path>): map<Path, Bytes>
    requires paths <= disk.Keys
  {
    map p | p in files.Keys + paths ::
      if p in paths && !HasAlready(h, files, p, disk[p]) then disk[p] else files[p]
  }

  lemma RestoredOnce(h: Hash, files: map<Path, Bytes>, disk: map<Path, Bytes>, path: Path)
    requires path in disk
    ensures AfterRetrieval(h, files, path, h(path, disk[path]), disk[path]) ==
            Client.Done(Restored(h, files, disk, {path}))
  {
    if path in files && h(path, files[path]) == h(path, disk[path]) {
      assert Restored(h, files, disk, {path}) == files;
    } else {
      assert Restored(h, files, disk, {path}) == files[path := disk[path]];
    }
  }

  lemma RestoredTwice(h: Hash, files: map<Path, Bytes>, disk: map<Path, Bytes>, a: set<Path>, b: set<Path>)
    requires a + b <= disk.Keys
    ensures Restored(h, Restored(h, files, disk, a), disk, b) == Restored(h, files, disk, a + b)
  {
  }

  function FirstsOf(pairs: seq<(Path, Bytes)>): set<Path> {
    set pair | pair in pairs :: pair.0
  }

  lemma RetrieveOne(w: World, s: State, files: map<Path, Bytes>, path: Path, answers: Client.Answers)
    requires s.auth && s.synced && AllRetrievable(w.hash, files, s.disk) && path in s.disk
    requires Client.AreMessages(answers) && forall sign :: answers(sign) == AnswerOf(w, s, sign)
    ensures var digest := w.hash(path, s.disk[path]);
            Client.Retrieve(w.hash, files, path, digest, answers(CreateSign(path, digest))) ==
            Client.Done(Restored(w.hash, files, s.disk, {path}))
  {
    var digest := w.hash(path, s.disk[path]);
    RestoredOnce(w.hash, files, s.disk, path);
    if HasAlready(w.hash, files, path, s.disk[path]) {
      hide Step, ReadFrom, Frames, Restored, AnswerOf;
    } else {
      assert CanBeSent(w.hash, path, s.disk[path]);
      RetrieveRoundTrip(w, s, path, digest, files, []);
      hide Step, ReadFrom, Frames, Restored, Client.Retrieve;
      var outcome := Step(w, s, RetrieveRequest(CreateSign(path, digest))).1;
      assert Frames(EncodeGroups(RETRIEVE, outcome.groups)) + [] == Frames(EncodeGroups(RETRIEVE, outcome.groups));
    }
  }

  lemma RestoredIsRetrievable(h: Hash, files: map<Path, Bytes>, disk: map<Path, Bytes>, path: Path)
    requires AllRetrievable(h, files, disk) && path in disk
    ensures AllRetrievable(h, Restored(h, files, disk, {path}), disk)
  {
    hide CanBeSent;
    var r := Restored(h, files, disk, {path});
    forall p | p in disk && !HasAlready(h, r, p, disk[p]) ensures CanBeSent(h, p, disk[p]) {
      assert !HasAlready(h, files, p, disk[p]);
    }
  }

  lemma {:induction false} RestoreListed(w: World, s: State, files: map<Path, Bytes>, ts: seq<Tlv>,
                                         answers: Client.Answers)
    requires s.auth && s.synced && AllRetrievable(w.hash, files, s.disk)
    requires Client.AreMessages(answers) && forall sign :: answers(sign) == AnswerOf(w, s, sign)
    requires Listed(ts).Some?
    requires forall pair | pair in Listed(ts).value :: pair.0 in s.disk && pair.1 == w.hash(pair.0, s.disk[pair.0])
    ensures FirstsOf(Listed(ts).value) <= s.disk.Keys
    ensures Client.Restore(w.hash, files, ts, answers) ==
            Client.Done(Restored(w.hash, files, s.disk, FirstsOf(Listed(ts).value)))
    decreases |ts|
  {
    hide AllRetrievable, AnswerOf, Restored, Client.Retrieve;
    if ts == [] {
      RestoredNothing(w.hash, files, s.disk);
    } else if ts[0].tag != ITEM {
      RestoreListed(w, s, files, ts[1..], answers);
    } else {
      var (path, digest) := SplitSign(ts[0].value).value;
      var pairs, later := Listed(ts).value, Listed(ts[1..]).value;
      assert pairs == [(path, digest)] + later;
      assert (path, digest) in pairs;
      SplitSignExact(ts[0].value, path, digest);
      RetrieveOne(w, s, files, path, answers);
      RestoredIsRetrievable(w.hash, files, s.disk, path);
      RestoreListed(w, s, Restored(w.hash, files, s.disk, {path}), ts[1..], answers);
      assert FirstsOf(pairs) == {path} + FirstsOf(later);
      RestoredTwice(w.hash, files, s.disk, {path}, FirstsOf(later));
    }
  }

  lemma RestoredNothing(h: Hash, files: map<Path, Bytes>, disk: map<Path, Bytes>)
    ensures Restored(h, files, disk, FirstsOf([])) == files
  {
  }

  /** RESTORE round trip: from what the client reads of the server's listing and of the files it
      then asks for, every file of the server ends up at the client, under its digest and with
      the server's bytes unless the client had a file of that digest; its other files stay. */
  lemma RestoreRoundTrip(w: World, s: State, e: Event, files: map<Path, Bytes>, answers: Client.Answers)
    requires AsksForList(s, e) && Replies.SignsTravel(w.hash, s.disk) && AllRetrievable(w.hash, files, s.disk)
    requires Client.AreMessages(answers) && forall sign :: answers(sign) == AnswerOf(w, Step(w, s, e).0, sign)
    ensures var (s', outcome) := Step(w, s, e);
            && outcome.Replied?
            && var read := ReadFrom([], Frames(EncodeGroups(LIST, outcome.groups)));
            && read.Received? && Client.IsListing(read.raw)
            && Client.Restore(w.hash, files, Segments(read.raw), answers) ==
               Client.Done(Restored(w.hash, files, s.disk, s.disk.Keys))
            && forall p | p in s.disk ::
                 w.hash(p, Restored(w.hash, files, s.disk, s.disk.Keys)[p]) == w.hash(p, s.disk[p])
  {
    ListRoundTrip(w, s, e, []);
    var (s', outcome) := Step(w, s, e);
    var frames := Frames(EncodeGroups(LIST, outcome.groups));
    assert frames + [] == frames;
    hide Step, ReadFrom, Frames, AllRetrievable, Replies.SignsTravel, AnswerOf;
    var ts := Segments(ReadFrom([], frames).raw);
    AllPairs(w.hash, s.disk, Listed(ts).value);
    RestoreListed(w, s', files, ts, answers);
  }

  lemma AllPairs(h: Hash, disk: map<Path, Bytes>, pairs: seq<(Path, Bytes)>)
    requires forall p: Path, d: Bytes :: (p, d) in pairs <==> p in disk && d == h(p, disk[p])
    ensures forall pair | pair in pairs :: pair.0 in disk && pair.1 == h(pair.0, disk[pair.0])
    ensures FirstsOf(pairs) == disk.Keys
  {
    forall pair | pair in pairs ensures pair.0 in disk && pair.1 == h(pair.0, disk[pair.0]) {
      assert (pair.0, pair.1) in pairs;
    }
    forall p | p in disk ensures p in FirstsOf(pairs) {
      assert (p, h(p, disk[p])) in pairs;
    }
  }
}
