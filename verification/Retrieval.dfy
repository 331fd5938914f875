/** A retrieval and a restore on whatever the server answers: what is kept, and which files are touched. */
module Retrievals {
  import opened Protocol
  import opened Tlvs
  import opened FileMessages
  import opened Signs
  import opened RoundTrips
  import opened Client

  /** The segments that carry contents under a sign. */
  function Contents(sign: Bytes, payloads: seq<Bytes>): seq<Tlv> {
    if payloads == [] then [] else [Tlv(ITEM, sign), Tlv(CONTENT, payloads[0])] + Contents(sign, payloads[1..])
  }

  /** More contents under the sign come next. */
  predicate GoesOn(sign: Bytes, more: seq<Tlv>) {
    |more| >= 2 && more[0] == Tlv(ITEM, sign) && more[1].tag == CONTENT
  }

  /** An END comes next, or after one more sign. */
  predicate Closes(sign: Bytes, more: seq<Tlv>) {
    || (more != [] && more[0].tag == END)
    || (|more| >= 2 && more[0] == Tlv(ITEM, sign) && more[1].tag == END)
  }

  /** Nothing comes any more, or only one more sign. */
  predicate RunsOut(sign: Bytes, more: seq<Tlv>) {
    more == [] || more == [Tlv(ITEM, sign)]
  }

  /** The segments are contents under the sign, and then others. */
  ghost predicate Carries(sign: Bytes, ts: seq<Tlv>, payloads: seq<Bytes>, more: seq<Tlv>) {
    ts == Contents(sign, payloads) + more && !GoesOn(sign, more)
  }

  /** All segments can be read like this. */
  lemma {:induction false} AlwaysCarries(sign: Bytes, ts: seq<Tlv>) returns (payloads: seq<Bytes>, more: seq<Tlv>)
    ensures Carries(sign, ts, payloads, more)
    decreases |ts|
  {
    if GoesOn(sign, ts) {
      var later;
      later, more := AlwaysCarries(sign, ts[2..]);
      payloads := [ts[1].value] + later;
      assert payloads[1..] == later;
      assert ts == [Tlv(ITEM, sign), Tlv(CONTENT, ts[1].value)] + ts[2..];
    } else {
      payloads, more := [], ts;
      assert ts == Contents(sign, []) + ts;
    }
  }

  /** The client collects exactly the contents under the sign, in order, and then has stopped at an END, or
      at the end of the segments, or at something else. */
  lemma {:induction false} CollectExact(sign: Bytes, ts: seq<Tlv>, payloads: seq<Bytes>, more: seq<Tlv>)
    requires Carries(sign, ts, payloads, more)
    ensures var (data, stop) := Collect(sign, ts);
            && data == Join(payloads)
            && (stop.Some? && stop.value.tag == END <==> Closes(sign, more))
            && (stop.None? <==> RunsOut(sign, more))
    decreases |payloads|
  {
    if payloads == [] {
      assert ts == more;
    } else {
      assert ts[2..] == Contents(sign, payloads[1..]) + more;
      CollectExact(sign, ts[2..], payloads[1..], more);
    }
  }

  ghost predicate HasIt(h: Hash, files: map<Path, Bytes>, path: Path, digest: Bytes) {
    path in files && h(path, files[path]) == digest
  }

  /** A retrieval of a file the client has not, whatever the response is. Its other copy goes. Without a
      response to a RETRIEVE nothing takes its place; else what the response carries under the sign does. It
      stays when it is followed by an END and has the digest, and also, though the retrieval has failed,
      when it is followed by anything else; only with an END and another digest it goes again. No other
      file is touched. When the segments run out an exception ends the restore. */
  lemma RetrieveExactly(h: Hash, files: map<Path, Bytes>, path: Path, digest: Bytes, raw: Bytes,
                        payloads: seq<Bytes>, more: seq<Tlv>)
    requires !HasIt(h, files, path, digest)
    requires IsMessage(raw) && Carries(CreateSign(path, digest), Segments(raw), payloads, more)
    ensures Retrieve(h, files, path, digest, None) == Failed(files - {path})
    ensures var sign, data := CreateSign(path, digest), Join(payloads);
            Retrieve(h, files, path, digest, Some(raw)) ==
            if raw[0] != RETRIEVE then Failed(files - {path})
            else if RunsOut(sign, more) then Aborted(files[path := data])
            else if !Closes(sign, more) then Failed(files[path := data])
            else if h(path, data) == digest then Done(files[path := data])
            else Failed(files - {path})
  {
    CollectExact(CreateSign(path, digest), Segments(raw), payloads, more);
    assert (files - {path})[path := Join(payloads)] == files[path := Join(payloads)];
    assert (files - {path}) - {path} == files - {path};
    hide Carries, Collect, CreateSign, Segments, IsMessage, Join, RunsOut, Closes;
  }

  /** So no retrieval touches another file, and one that succeeds leaves a file of the digest. */
  lemma RetrieveIsSafe(h: Hash, files: map<Path, Bytes>, path: Path, digest: Bytes, response: Option<Bytes>)
    requires response.Some? ==> IsMessage(response.value)
    ensures var r := Retrieve(h, files, path, digest, response);
            && r.files - {path} == files - {path}
            && (r.Done? ==> HasIt(h, r.files, path, digest))
            && (HasIt(h, files, path, digest) ==> r == Done(files))
  {
    hide Collect, CreateSign, Segments, IsMessage;
  }

  // ---- Restores ----------------------------------------------------------------------

  /** The same file, or none, at a path. */
  predicate SameAt(a: map<Path, Bytes>, b: map<Path, Bytes>, p: Path) {
    (p in b <==> p in a) && (p in a ==> b[p] == a[p])
  }

  /** What a retrieval does to its path depends on the file there only. */
  lemma RetrieveIsLocal(h: Hash, a: map<Path, Bytes>, b: map<Path, Bytes>, path: Path, digest: Bytes,
                        response: Option<Bytes>)
    requires response.Some? ==> IsMessage(response.value)
    requires SameAt(a, b, path)
    ensures var r, s := Retrieve(h, a, path, digest, response), Retrieve(h, b, path, digest, response);
            (s.Aborted? <==> r.Aborted?) && SameAt(r.files, s.files, path)
  {
    hide Collect, CreateSign, Segments, IsMessage;
  }

  lemma RetrieveElsewhere(h: Hash, files: map<Path, Bytes>, path: Path, digest: Bytes, response: Option<Bytes>,
                          p: Path)
    requires response.Some? ==> IsMessage(response.value)
    requires p != path
    ensures SameAt(files, Retrieve(h, files, path, digest, response).files, p)
  {
    RetrieveIsSafe(h, files, path, digest, response);
    var r := Retrieve(h, files, path, digest, response).files;
    assert p in r - {path} <==> p in files - {path};
    assert p in files ==> (r - {path})[p] == (files - {path})[p];
    hide Retrieve;
  }

  /** A restore, whatever the listing and the answers are, touches no file the listing does not name. */
  lemma {:induction false} RestoreLeaves(h: Hash, files: map<Path, Bytes>, ts: seq<Tlv>, answers: Answers, p: Path)
    requires AreMessages(answers)
    requires forall t | t in ts && t.tag == ITEM && SplitSign(t.value).Some? :: SplitSign(t.value).value.0 != p
    ensures var r := Restore(h, files, ts, answers).files;
            (p in r <==> p in files) && (p in files ==> r[p] == files[p])
    decreases |ts|
  {
    if ts != [] {
      assert ts[0] in ts;
      if ts[0].tag != ITEM {
        RestoreLeaves(h, files, ts[1..], answers, p);
      } else if SplitSign(ts[0].value).Some? {
        var (path, digest) := SplitSign(ts[0].value).value;
        RetrieveElsewhere(h, files, path, digest, answers(ts[0].value), p);
        hide Retrieve, SplitSign;
        var fetched := Retrieve(h, files, path, digest, answers(ts[0].value));
        if !fetched.Aborted? {
          RestoreLeaves(h, fetched.files, ts[1..], answers, p);
        }
      }
    }
  }

  /** What the retrieval of a listed file makes of the files. */
  ghost function RetrievePair(h: Hash, files: map<Path, Bytes>, pair: (Path, Bytes), answers: Answers): Fetched
    requires AreMessages(answers)
  {
    Retrieve(h, files, pair.0, pair.1, answers(CreateSign(pair.0, pair.1)))
  }

  /** No answer for a listed file ends the restore in an exception. */
  ghost predicate NoneAborts(h: Hash, files: map<Path, Bytes>, pairs: seq<(Path, Bytes)>, answers: Answers)
    requires AreMessages(answers)
  {
    forall i | 0 <= i < |pairs| :: !RetrievePair(h, files, pairs[i], answers).Aborted?
  }

  ghost predicate OncePerPath(pairs: seq<(Path, Bytes)>) {
    forall i, j | 0 <= i < j < |pairs| :: pairs[i].0 != pairs[j].0
  }

  /** At each listed path the files are as its own retrieval leaves them. */
  ghost predicate EachRetrieved(h: Hash, files: map<Path, Bytes>, pairs: seq<(Path, Bytes)>, answers: Answers,
                                r: map<Path, Bytes>)
    requires AreMessages(answers)
  {
    forall i | 0 <= i < |pairs| :: SameAt(RetrievePair(h, files, pairs[i], answers).files, r, pairs[i].0)
  }

  lemma ListedHead(ts: seq<Tlv>)
    requires ts != [] && Listed(ts).Some? && ts[0].tag == ITEM
    ensures SplitSign(ts[0].value).Some? && Listed(ts[1..]).Some?
    ensures var pair := SplitSign(ts[0].value).value;
            && Listed(ts).value == [pair] + Listed(ts[1..]).value
            && ts[0].value == CreateSign(pair.0, pair.1)
  {
    var pair := SplitSign(ts[0].value).value;
    SplitSignExact(ts[0].value, pair.0, pair.1);
  }

  /** After the retrieval of one file that of another does what it would have done before. */
  lemma LaterRetrieval(h: Hash, files: map<Path, Bytes>, a: (Path, Bytes), b: (Path, Bytes), answers: Answers)
    requires AreMessages(answers) && a.0 != b.0
    ensures var first := RetrievePair(h, files, a, answers).files;
            && (RetrievePair(h, first, b, answers).Aborted? <==> RetrievePair(h, files, b, answers).Aborted?)
            && SameAt(RetrievePair(h, files, b, answers).files, RetrievePair(h, first, b, answers).files, b.0)
  {
    hide Retrieve, CreateSign;
    RetrieveElsewhere(h, files, a.0, a.1, answers(CreateSign(a.0, a.1)), b.0);
    RetrieveIsLocal(h, files, RetrievePair(h, files, a, answers).files, b.0, b.1, answers(CreateSign(b.0, b.1)));
  }

  lemma LaterRetrievals(h: Hash, files: map<Path, Bytes>, pair: (Path, Bytes), later: seq<(Path, Bytes)>,
                        answers: Answers, r: map<Path, Bytes>)
    requires AreMessages(answers) && OncePerPath([pair] + later)
    requires var first := RetrievePair(h, files, pair, answers);
             && (NoneAborts(h, first.files, later, answers) ==> EachRetrieved(h, first.files, later, answers, r))
             && SameAt(first.files, r, pair.0)
    ensures var first := RetrievePair(h, files, pair, answers);
            && (NoneAborts(h, files, [pair] + later, answers) <==>
                  !first.Aborted? && NoneAborts(h, first.files, later, answers))
            && (NoneAborts(h, files, [pair] + later, answers) ==>
                  EachRetrieved(h, files, [pair] + later, answers, r))
  {
    var first := RetrievePair(h, files, pair, answers);
    LaterOnce(pair, later);
    hide RetrievePair, OncePerPath, NoneAborts, EachRetrieved, SameAt;
    forall i | 0 <= i < |later|
      ensures RetrievePair(h, first.files, later[i], answers).Aborted? <==>
              RetrievePair(h, files, later[i], answers).Aborted?
      ensures SameAt(RetrievePair(h, files, later[i], answers).files,
                     RetrievePair(h, first.files, later[i], answers).files, later[i].0)
    {
      LaterRetrieval(h, files, pair, later[i], answers);
    }
    SameRetrievals(h, files, first.files, later, answers, r);
    FirstAndLater(h, files, pair, later, answers, r);
  }

  lemma SameRetrievals(h: Hash, a: map<Path, Bytes>, b: map<Path, Bytes>, pairs: seq<(Path, Bytes)>, answers: Answers,
                       r: map<Path, Bytes>)
    requires AreMessages(answers)
    requires forall i | 0 <= i < |pairs| ::
               && (RetrievePair(h, b, pairs[i], answers).Aborted? <==> RetrievePair(h, a, pairs[i], answers).Aborted?)
               && SameAt(RetrievePair(h, a, pairs[i], answers).files, RetrievePair(h, b, pairs[i], answers).files,
                         pairs[i].0)
    ensures NoneAborts(h, a, pairs, answers) <==> NoneAborts(h, b, pairs, answers)
    ensures EachRetrieved(h, b, pairs, answers, r) ==> EachRetrieved(h, a, pairs, answers, r)
  {
    hide RetrievePair;
  }

  lemma FirstAndLater(h: Hash, files: map<Path, Bytes>, pair: (Path, Bytes), later: seq<(Path, Bytes)>,
                      answers: Answers, r: map<Path, Bytes>)
    requires AreMessages(answers)
    ensures NoneAborts(h, files, [pair] + later, answers) <==>
            !RetrievePair(h, files, pair, answers).Aborted? && NoneAborts(h, files, later, answers)
    ensures EachRetrieved(h, files, [pair] + later, answers, r) <==>
            SameAt(RetrievePair(h, files, pair, answers).files, r, pair.0) && EachRetrieved(h, files, later, answers, r)
  {
    var pairs := [pair] + later;
    hide RetrievePair, SameAt;
    assert pairs[0] == pair;
    assert forall i | 0 < i < |pairs| :: pairs[i] == later[i - 1];
    assert forall i | 0 <= i < |later| :: pairs[i + 1] == later[i];
  }

  /** A restore gets through if and only if no answer for a listed file ends it in an exception; failed
      retrievals do not end it, and every listed file is as its own retrieval leaves it, in whatever order
      they are listed. */
  lemma {:induction false} RestoreExactly(h: Hash, files: map<Path, Bytes>, ts: seq<Tlv>, answers: Answers)
    requires AreMessages(answers) && Listed(ts).Some? && OncePerPath(Listed(ts).value)
    ensures var r := Restore(h, files, ts, answers);
            && (r.Done? <==> NoneAborts(h, files, Listed(ts).value, answers))
            && (r.Done? ==> EachRetrieved(h, files, Listed(ts).value, answers, r.files))
            && !r.Failed?
    decreases |ts|
  {
    if ts == [] {
    } else if ts[0].tag != ITEM {
      RestoreExactly(h, files, ts[1..], answers);
    } else {
      ListedHead(ts);
      var pair, later := SplitSign(ts[0].value).value, Listed(ts[1..]).value;
      var fetched := Retrieve(h, files, pair.0, pair.1, answers(ts[0].value));
      hide Retrieve, SplitSign, CreateSign, Listed, NoneAborts, EachRetrieved;
      LaterOnce(pair, later);
      if !fetched.Aborted? {
        RestoreExactly(h, fetched.files, ts[1..], answers);
        var r := Restore(h, fetched.files, ts[1..], answers);
        NotNamedLater(ts[1..], pair.0);
        RestoreLeaves(h, fetched.files, ts[1..], answers, pair.0);
        LaterRetrievals(h, files, pair, later, answers, r.files);
      } else {
        FirstAborts(h, files, pair, later, answers);
      }
    }
  }

  lemma FirstAborts(h: Hash, files: map<Path, Bytes>, pair: (Path, Bytes), later: seq<(Path, Bytes)>, answers: Answers)
    requires AreMessages(answers)
    requires RetrievePair(h, files, pair, answers).Aborted?
    ensures !NoneAborts(h, files, [pair] + later, answers)
  {
    hide RetrievePair;
    assert ([pair] + later)[0] == pair;
  }

  lemma LaterOnce(pair: (Path, Bytes), later: seq<(Path, Bytes)>)
    requires OncePerPath([pair] + later)
    ensures OncePerPath(later) && forall i | 0 <= i < |later| :: later[i].0 != pair.0
  {
    var pairs := [pair] + later;
    assert pairs[0] == pair;
    forall i | 0 <= i < |later| ensures later[i] == pairs[i + 1] && later[i].0 != pair.0 {
    }
  }

  lemma {:induction false} NotNamedLater(ts: seq<Tlv>, p: Path)
    requires Listed(ts).Some? && forall i | 0 <= i < |Listed(ts).value| :: Listed(ts).value[i].0 != p
    ensures forall t | t in ts && t.tag == ITEM && SplitSign(t.value).Some? :: SplitSign(t.value).value.0 != p
  {
    if ts != [] {
      var pairs := Listed(ts).value;
      if ts[0].tag != ITEM {
        NotNamedLater(ts[1..], p);
      } else {
        ListedHead(ts);
        assert pairs[0].0 != p;
        assert forall i | 0 <= i < |Listed(ts[1..]).value| :: Listed(ts[1..]).value[i] == pairs[i + 1];
        NotNamedLater(ts[1..], p);
      }
      assert ts == [ts[0]] + ts[1..];
    }
  }
}
