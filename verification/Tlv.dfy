/** Type-length-value segments, the messages built from them and the cursor that walks them. */
module Tlvs {
  import opened Protocol

  datatype Tlv = Tlv(tag: byte, value: Bytes)

  /** The two length bytes can express the length of the value. */
  predicate Fits(t: Tlv) {
    |t.value| <= 65535
  }

  predicate AllFit(ts: seq<Tlv>) {
    forall t | t in ts :: Fits(t)
  }

  function High(n: nat): byte {
    ((n / 256) % 256) as byte
  }

  function Low(n: nat): byte {
    (n % 256) as byte
  }

  function Length(high: byte, low: byte): nat {
    high as nat * 256 + low as nat
  }

  lemma LengthRoundTrip(n: nat)
    ensures Length(High(n), Low(n)) == n <==> n <= 65535
  {
    assert n == (n / 256) * 256 + n % 256;
  }

  /** The bytes of one segment; a length over 65535 is truncated, the value is not. */
  function EncodeTlv(t: Tlv): Bytes {
    [t.tag, High(|t.value|), Low(|t.value|)] + t.value
  }

  /** The layout of a segment: tag, length with its high byte first, value; exactly when the length fits
      do the two bytes tell it. */
  lemma SegmentLayout(t: Tlv)
    ensures var b := EncodeTlv(t);
            && |b| == 3 + |t.value| && b[0] == t.tag && b[3..] == t.value
            && (b[1] as nat * 256 + b[2] as nat == |t.value| <==> |t.value| <= 65535)
  {
    LengthRoundTrip(|t.value|);
  }

  function Encode(ts: seq<Tlv>): Bytes {
    if ts == [] then [] else EncodeTlv(ts[0]) + Encode(ts[1..])
  }

  /** What a walk over the segments of `b` sees; None when it would leave the buffer. */
  function Parse(b: Bytes): Option<seq<Tlv>>
    decreases |b|
  {
    if b == [] then Some([])
    else if |b| < 3 || |b| < 3 + Length(b[1], b[2]) then None
    else
      var end := 3 + Length(b[1], b[2]);
      match Parse(b[end..])
      case None => None
      case Some(ts) => Some([Tlv(b[0], b[3..end])] + ts)
  }

  lemma {:induction false} EncodeConcat(a: seq<Tlv>, b: seq<Tlv>)
    ensures Encode(a + b) == Encode(a) + Encode(b)
  {
    if a == [] {
      assert a + b == b;
    } else {
      assert (a + b)[1..] == a[1..] + b;
      EncodeConcat(a[1..], b);
    }
  }

  lemma ParseCons(t: Tlv, rest: Bytes)
    requires Fits(t)
    ensures Parse(EncodeTlv(t) + rest) ==
            match Parse(rest) case None => None case Some(ts) => Some([t] + ts)
  {
    var b := EncodeTlv(t) + rest;
    LengthRoundTrip(|t.value|);
    assert b[3..3 + |t.value|] == t.value;
    assert b[3 + |t.value|..] == rest;
  }

  /** Decoding undoes encoding, for every list of segments whose lengths fit. */
  lemma {:induction false} ParseEncode(ts: seq<Tlv>)
    requires AllFit(ts)
    ensures Parse(Encode(ts)) == Some(ts)
  {
    if ts == [] {
    } else {
      ParseCons(ts[0], Encode(ts[1..]));
      ParseEncode(ts[1..]);
      assert [ts[0]] + ts[1..] == ts;
    }
  }

  lemma ParseHead(b: Bytes) returns (head: Tlv, rest: Bytes)
    requires b != [] && Parse(b).Some?
    ensures Fits(head) && b == EncodeTlv(head) + rest && |rest| < |b|
    ensures Parse(rest).Some? && Parse(b).value == [head] + Parse(rest).value
  {
    var end := 3 + Length(b[1], b[2]);
    head, rest := Tlv(b[0], b[3..end]), b[end..];
    assert EncodeTlv(head) == b[..end];
  }

  /** Encoding undoes decoding: a buffer a walk accepts has exactly one reading. */
  lemma {:induction false} EncodeParse(b: Bytes)
    requires Parse(b).Some?
    ensures AllFit(Parse(b).value)
    ensures Encode(Parse(b).value) == b
    decreases |b|
  {
    if b != [] {
      var head, rest := ParseHead(b);
      EncodeParse(rest);
      var ts := [head] + Parse(rest).value;
      assert ts[0] == head && ts[1..] == Parse(rest).value;
    }
  }

  lemma {:induction false} EncodeLast(ts: seq<Tlv>)
    requires ts != []
    ensures Encode(ts) == Encode(ts[..|ts| - 1]) + EncodeTlv(ts[|ts| - 1])
  {
    var last := ts[|ts| - 1];
    assert ts == ts[..|ts| - 1] + [last];
    EncodeConcat(ts[..|ts| - 1], [last]);
    assert Encode([last]) == EncodeTlv(last);
  }

  /** A message: its type byte, then its segments. */
  function EncodeMessage(msgType: byte, ts: seq<Tlv>): Bytes {
    [msgType] + Encode(ts)
  }

  predicate IsMessage(raw: Bytes) {
    |raw| >= 1 && Parse(raw[1..]).Some?
  }

  function Segments(raw: Bytes): seq<Tlv>
    requires IsMessage(raw)
  {
    Parse(raw[1..]).value
  }

  lemma MessageRoundTrip(msgType: byte, ts: seq<Tlv>)
    requires AllFit(ts)
    ensures IsMessage(EncodeMessage(msgType, ts)) && Segments(EncodeMessage(msgType, ts)) == ts
    ensures EncodeMessage(msgType, ts)[0] == msgType
  {
    ParseEncode(ts);
    assert EncodeMessage(msgType, ts)[1..] == Encode(ts);
  }

  // ---- The end-of-message test -------------------------------------------------------

  predicate EndsLikeEnd(b: Bytes) {
    |b| >= 3 && b[|b| - 3] == END && b[|b| - 2] == 0 && b[|b| - 1] == 0
  }

  /** The server's test for the last message of an upload: only the last three bytes count. */
  predicate VerifyEnd(raw: Bytes)
    requires |raw| >= 3
  {
    raw[|raw| - 1] == 0 && raw[|raw| - 2] == 0 && raw[|raw| - 3] == END
  }

  lemma VerifyEndOfTlv(head: Bytes, t: Tlv)
    requires |head| >= 1 && Fits(t)
    ensures VerifyEnd(head + EncodeTlv(t)) <==> (t.tag == END && t.value == []) || EndsLikeEnd(t.value)
  {
    var raw, n := head + EncodeTlv(t), |t.value|;
    assert raw[|raw| - 1] == EncodeTlv(t)[2 + n] && raw[|raw| - 2] == EncodeTlv(t)[1 + n]
           && raw[|raw| - 3] == EncodeTlv(t)[n];
  }

  /** Exactly when the test says yes: an empty END closes the message, or the bytes of the
      last value happen to end like one. */
  lemma VerifyEndExact(msgType: byte, ts: seq<Tlv>)
    requires ts != [] && AllFit(ts)
    ensures |EncodeMessage(msgType, ts)| >= 4
    ensures VerifyEnd(EncodeMessage(msgType, ts)) <==>
            var last := ts[|ts| - 1];
            (last.tag == END && last.value == []) || EndsLikeEnd(last.value)
  {
    var head := [msgType] + Encode(ts[..|ts| - 1]);
    EncodeLast(ts);
    assert EncodeMessage(msgType, ts) == head + EncodeTlv(ts[|ts| - 1]);
    VerifyEndOfTlv(head, ts[|ts| - 1]);
  }

  // ---- Messages under construction ---------------------------------------------------

  class Message {
    var raw: Bytes

    constructor (msgType: byte)
      ensures raw == [msgType]
    {
      raw := [msgType];
    }

    constructor FromBuffer(raw: Bytes)
      ensures this.raw == raw
    {
      this.raw := raw;
    }

    method AddTlv(tag: byte, value: Bytes)
      modifies this
      ensures raw == old(raw) + EncodeTlv(Tlv(tag, value))
    {
      raw := raw + [tag];
      for i := 0 to 2
        invariant raw == old(raw) + EncodeTlv(Tlv(tag, value))[..1 + i]
      {
        var shifted := if i == 0 then |value| / 256 else |value|;
        raw := raw + [(shifted % 256) as byte];
      }
      for i := 0 to |value|
        invariant raw == old(raw) + EncodeTlv(Tlv(tag, value))[..3 + i]
      {
        raw := raw + [value[i]];
      }
    }

    method Resize(length: nat)
      modifies this
      ensures |raw| == length
      ensures length <= |old(raw)| ==> raw == old(raw)[..length]
      ensures |old(raw)| < length ==> old(raw) <= raw && forall i | |old(raw)| <= i < length :: raw[i] == 0
    {
      raw := if length <= |raw| then raw[..length] else raw + seq(length - |raw|, _ => 0);
    }
  }

  // ---- The cursor --------------------------------------------------------------------

  /** A cursor over the segments of a message. `dataBegin` and `dataEnd` delimit the value of
      the current segment. */
  class TlvView {
    const raw: Bytes
    var tag: byte
    var dataBegin: nat
    var dataEnd: nat
    var valid: bool
    var finished: bool

    ghost predicate Valid()
      reads this
    {
      && 1 <= dataBegin <= dataEnd <= |raw|
      && Parse(raw[dataEnd..]).Some?
      && !(valid && finished)
      && (finished ==> dataEnd == |raw|)
    }

    /** The segments the cursor has still to visit. */
    ghost function Rest(): seq<Tlv>
      reads this
      requires Valid()
    {
      Parse(raw[dataEnd..]).value
    }

    /** The segment under the cursor; reading it off an invalid cursor is an exception. */
    function Current(): Option<Tlv>
      reads this
      requires Valid()
    {
      if valid then Some(Tlv(tag, raw[dataBegin..dataEnd])) else None
    }

    /** A cursor can be put on any buffer with a type byte; the segments it will visit are those of
        a well-formed message. */
    constructor (raw: Bytes)
      requires |raw| >= 1
      ensures this.raw == raw && !valid && !finished && dataBegin == 1 && dataEnd == 1
      ensures IsMessage(raw) ==> Valid() && Rest() == Segments(raw)
    {
      this.raw := raw;
      tag, dataBegin, dataEnd := 0, 1, 1;
      valid, finished := false, false;
    }

    /** Steps to the next segment, if there is one: the walk visits the segments in order,
        never leaves the buffer, and ends for good after the last. */
    method NextTlv() returns (more: bool)
      requires Valid()
      modifies this
      ensures Valid()
      ensures more <==> old(Rest()) != []
      ensures more ==> Current() == Some(old(Rest())[0]) && Rest() == old(Rest())[1..] && dataEnd > old(dataEnd)
      ensures !more ==> Current().None? && finished && Rest() == []
    {
      if finished {
        return false;
      }
      var cursor := dataEnd;
      if cursor == |raw| {
        dataBegin, finished, valid := cursor, true, false;
        return false;
      }
      ghost var rest := raw[cursor..];
      var length := 0;
      for i := 0 to 2
        invariant length == if i == 0 then 0 else if i == 1 then rest[1] as nat * 256 else Length(rest[1], rest[2])
      {
        length := length + raw[cursor + 1 + i] as nat * (if i == 0 then 256 else 1);
      }
      tag := raw[cursor];
      dataBegin := cursor + 3;
      dataEnd := dataBegin + length;
      valid := true;
      assert raw[dataBegin..dataEnd] == rest[3..3 + length];
      assert raw[dataEnd..] == rest[3 + length..];
      return true;
    }
  }

  method Build(msgType: byte, ts: seq<Tlv>) returns (raw: Bytes)
    ensures raw == EncodeMessage(msgType, ts)
  {
    var msg := new Message(msgType);
    for i := 0 to |ts|
      invariant msg.raw == EncodeMessage(msgType, ts[..i])
    {
      msg.AddTlv(ts[i].tag, ts[i].value);
      EncodeLast(ts[..i + 1]);
      assert ts[..i + 1][..i] == ts[..i];
    }
    assert ts[..|ts|] == ts;
    raw := msg.raw;
  }

  /** Walking a message visits exactly its segments, in order, and then finishes. */
  method Walk(raw: Bytes) returns (walked: seq<Tlv>)
    requires IsMessage(raw)
    ensures walked == Segments(raw)
  {
    var view := new TlvView(raw);
    ghost var all := Segments(raw);
    walked := [];
    var more := view.NextTlv();
    hide TlvView.Valid, TlvView.Rest, TlvView.Current, Parse, IsMessage, Segments;
    while more
      invariant view.Valid() && fresh(view)
      invariant more ==> |walked| < |all| && view.Current() == Some(all[|walked|]) && view.Rest() == all[|walked| + 1..]
      invariant walked <= all
      invariant !more ==> |walked| == |all|
      decreases if more then 1 + |view.Rest()| else 0
    {
      walked := walked + [view.Current().value];
      more := view.NextTlv();
    }
  }

  /** Walking what was built from a list of segments gives the list back. */
  method BuildAndWalk(msgType: byte, ts: seq<Tlv>) returns (walked: seq<Tlv>)
    requires AllFit(ts)
    ensures walked == ts
  {
    var raw := Build(msgType, ts);
    MessageRoundTrip(msgType, ts);
    walked := Walk(raw);
  }
}
