/** File messages: a file is cut into chunk messages that share one buffer. */
module FileMessages {
  import opened Protocol
  import opened Tlvs

  /** What the type byte and the sign take at the front of every chunk message. */
  function HeaderSize(sign: Bytes): nat {
    4 + |sign|
  }

  /** The sign leaves room for content and for the closing END. */
  predicate SignFits(sign: Bytes) {
    HeaderSize(sign) + 6 <= CHUNK_SIZE
  }

  /** The most content one chunk message can carry. */
  function MaxPayload(sign: Bytes): (m: nat)
    requires SignFits(sign)
    ensures 3 <= m <= 65535
  {
    CHUNK_SIZE - HeaderSize(sign) - 3
  }

  /** Only the final chunk carries an END. */
  function ChunkTlvs(sign: Bytes, payload: Bytes, final: bool): seq<Tlv> {
    [Tlv(ITEM, sign), Tlv(CONTENT, payload)] + if final then [Tlv(END, [])] else []
  }

  /** The payloads a file is cut into, and whether the cutting reaches the end of the file.
      A read of `m` bytes is asked for as soon as more than `m - 3` remain, so it runs past
      the end of the file when `m - 2` or `m - 1` are left. */
  datatype Cut = Cut(payloads: seq<Bytes>, complete: bool)

  function CutFile(file: Bytes, m: nat): Cut
    requires m >= 3
    decreases |file|
  {
    if |file| <= m - 3 then Cut([file], true)
    else if |file| < m then Cut([], false)
    else
      var rest := CutFile(file[m..], m);
      Cut([file[..m]] + rest.payloads, rest.complete)
  }

  function Join(payloads: seq<Bytes>): Bytes {
    if payloads == [] then [] else payloads[0] + Join(payloads[1..])
  }

  /** The file sizes that can be sent. */
  predicate GoodSize(size: nat, m: nat)
    requires m >= 3
  {
    size % m != m - 2 && size % m != m - 1
  }

  lemma DivModStep(n: nat, m: nat)
    requires 0 < m <= n
    ensures n % m == (n - m) % m
    ensures n / m == (n - m) / m + 1
    ensures n / m * m == (n - m) / m * m + m
  {
    var q, r := (n - m) / m, (n - m) % m;
    assert n == (q + 1) * m + r;
    DivModUnique(n, m, q + 1, r);
    assert (q + 1) * m == q * m + m;
  }

  lemma MultipleAtLeast(k: int, m: nat)
    requires k >= 1
    ensures k * m >= m
  {
    assert k * m == (k - 1) * m + m;
  }

  lemma DivModUnique(n: nat, m: nat, q: nat, r: nat)
    requires m > 0 && n == q * m + r && r < m
    ensures n / m == q && n % m == r
  {
    var q', r' := n / m, n % m;
    assert n == q' * m + r';
    assert (q - q') * m == q * m - q' * m == r' - r;
    if q' < q {
      MultipleAtLeast(q - q', m);
    } else if q' > q {
      MultipleAtLeast(q' - q, m);
    }
  }

  lemma {:induction false} CutCount(file: Bytes, m: nat)
    requires m >= 3
    ensures var cut := CutFile(file, m);
            && (cut.complete <==> GoodSize(|file|, m))
            && |cut.payloads| == |file| / m + (if cut.complete then 1 else 0)
    decreases |file|
  {
    if |file| < m {
      DivModUnique(|file|, m, 0, |file|);
    } else {
      CutCount(file[m..], m);
      DivModStep(|file|, m);
    }
  }

  lemma {:induction false} CutJoinIsPrefix(file: Bytes, m: nat)
    requires m >= 3
    ensures Join(CutFile(file, m).payloads) <= file
    ensures CutFile(file, m).complete ==> Join(CutFile(file, m).payloads) == file
    decreases |file|
  {
    if |file| >= m {
      var cut, rest := CutFile(file, m), CutFile(file[m..], m);
      CutJoinIsPrefix(file[m..], m);
      assert cut.payloads[1..] == rest.payloads;
      assert file[..m] + file[m..] == file;
    } else if |file| <= m - 3 {
      assert [file][1..] == [];
    }
  }

  lemma {:induction false} CutJoinLength(file: Bytes, m: nat)
    requires m >= 3
    ensures !CutFile(file, m).complete ==> |Join(CutFile(file, m).payloads)| == |file| / m * m
    decreases |file|
  {
    if |file| >= m {
      DivModStep(|file|, m);
      CutJoinLength(file[m..], m);
      assert CutFile(file, m).payloads[1..] == CutFile(file[m..], m).payloads;
    } else {
      DivModUnique(|file|, m, 0, |file|);
    }
  }

  lemma CutJoin(file: Bytes, m: nat)
    requires m >= 3
    ensures |file| / m * m <= |file|
    ensures var cut := CutFile(file, m);
            Join(cut.payloads) == (if cut.complete then file else file[..|file| / m * m])
  {
    assert |file| == |file| / m * m + |file| % m;
    CutJoinIsPrefix(file, m);
    CutJoinLength(file, m);
  }

  lemma {:induction false} CutSizes(file: Bytes, m: nat, i: nat)
    requires m >= 3 && i < |CutFile(file, m).payloads|
    ensures var cut := CutFile(file, m);
            if cut.complete && i == |cut.payloads| - 1 then |cut.payloads[i]| <= m - 3 else |cut.payloads[i]| == m
    decreases |file|
  {
    if |file| >= m && i > 0 {
      CutSizes(file[m..], m, i - 1);
    } else if |file| >= m {
      CutCount(file[m..], m);
      assert CutFile(file[m..], m).complete ==> |CutFile(file[m..], m).payloads| > 0;
    }
  }

  /** Exactly when and how a file is cut: the cutting completes if and only if the size is
      good, it yields one payload for every full `m` bytes and one more for the rest, and the
      payloads in order are the file, or as much of it as was reached. */
  lemma CutExact(file: Bytes, m: nat)
    requires m >= 3
    ensures var cut := CutFile(file, m);
            && (cut.complete <==> GoodSize(|file|, m))
            && |cut.payloads| == |file| / m + (if cut.complete then 1 else 0)
            && |file| / m * m <= |file|
            && Join(cut.payloads) == (if cut.complete then file else file[..|file| / m * m])
            && forall i | 0 <= i < |cut.payloads| ::
                 if cut.complete && i == |cut.payloads| - 1 then |cut.payloads[i]| <= m - 3 else |cut.payloads[i]| == m
  {
    CutCount(file, m);
    CutJoin(file, m);
    forall i | 0 <= i < |CutFile(file, m).payloads|
      ensures var cut := CutFile(file, m);
              if cut.complete && i == |cut.payloads| - 1 then |cut.payloads[i]| <= m - 3 else |cut.payloads[i]| == m
    {
      CutSizes(file, m, i);
    }
  }

  /** A file that cannot be sent: one byte short of a full payload. */
  lemma OneByteShort(sign: Bytes)
    requires SignFits(sign)
    ensures var m := MaxPayload(sign); CutFile(seq(m - 1, _ => 0), m) == Cut([], false) && !GoodSize(m - 1, m)
  {
    var m := MaxPayload(sign);
    CutCount(seq(m - 1, _ => 0), m);
  }

  /** The segments of the messages of a cut, in sending order. */
  function ChunkAt(sign: Bytes, cut: Cut, i: nat): seq<Tlv>
    requires i < |cut.payloads|
  {
    ChunkTlvs(sign, cut.payloads[i], cut.complete && i == |cut.payloads| - 1)
  }

  function ChunkGroups(sign: Bytes, cut: Cut): seq<seq<Tlv>> {
    seq(|cut.payloads|, i requires 0 <= i < |cut.payloads| => ChunkAt(sign, cut, i))
  }

  function EncodeGroups(msgType: byte, groups: seq<seq<Tlv>>): seq<Bytes> {
    seq(|groups|, i requires 0 <= i < |groups| => EncodeMessage(msgType, groups[i]))
  }

  lemma ChunkTlvsSize(msgType: byte, sign: Bytes, payload: Bytes, final: bool)
    ensures |EncodeMessage(msgType, ChunkTlvs(sign, payload, final))| ==
            HeaderSize(sign) + 3 + |payload| + (if final then 3 else 0)
    ensures var head := [msgType] + EncodeTlv(Tlv(ITEM, sign)) + EncodeTlv(Tlv(CONTENT, payload));
            EncodeMessage(msgType, ChunkTlvs(sign, payload, final)) ==
            if final then head + EncodeTlv(Tlv(END, [])) else head
  {
    var item, content, end := Tlv(ITEM, sign), Tlv(CONTENT, payload), Tlv(END, []);
    assert Encode([end]) == EncodeTlv(end);
    assert Encode([content]) == EncodeTlv(content);
    assert Encode([item]) == EncodeTlv(item);
    EncodeConcat([item], [content]);
    EncodeConcat([item, content], [end]);
    assert [item] + [content] == [item, content];
    assert ChunkTlvs(sign, payload, final) == if final then [item, content] + [end] else [item, content];
  }

  /** The messages of a file: all but the final one fill the chunk size exactly, the final one
      with its END stays within it, and no two-byte length is ever truncated. */
  lemma ChunkSizes(msgType: byte, sign: Bytes, file: Bytes)
    requires SignFits(sign)
    ensures var m := MaxPayload(sign);
            var cut := CutFile(file, m);
            forall i | 0 <= i < |cut.payloads| ::
              var msg := EncodeMessage(msgType, ChunkGroups(sign, cut)[i]);
              && AllFit(ChunkGroups(sign, cut)[i])
              && (if cut.complete && i == |cut.payloads| - 1 then |msg| <= CHUNK_SIZE else |msg| == CHUNK_SIZE)
  {
    var m := MaxPayload(sign);
    var cut := CutFile(file, m);
    CutExact(file, m);
    forall i | 0 <= i < |cut.payloads|
      ensures var msg := EncodeMessage(msgType, ChunkGroups(sign, cut)[i]);
              && AllFit(ChunkGroups(sign, cut)[i])
              && (if cut.complete && i == |cut.payloads| - 1 then |msg| <= CHUNK_SIZE else |msg| == CHUNK_SIZE)
    {
      ChunkTlvsSize(msgType, sign, cut.payloads[i], cut.complete && i == |cut.payloads| - 1);
    }
  }

  /** On a chunk message the end-of-message test means: the chunk is final, or its payload
      ends like an END. */
  lemma VerifyEndOfChunk(msgType: byte, sign: Bytes, payload: Bytes, final: bool)
    requires |sign| <= 65535 && |payload| <= 65535
    ensures |EncodeMessage(msgType, ChunkTlvs(sign, payload, final))| >= 4
    ensures VerifyEnd(EncodeMessage(msgType, ChunkTlvs(sign, payload, final))) <==> final || EndsLikeEnd(payload)
  {
    VerifyEndExact(msgType, ChunkTlvs(sign, payload, final));
  }

  /** How the cut of what remains continues the cut of the whole file. */
  lemma CutStep(cut: Cut, k: nat, rest: Bytes, m: nat)
    requires m >= 3 && k <= |cut.payloads|
    requires CutFile(rest, m) == Cut(cut.payloads[k..], cut.complete)
    ensures m - 3 < |rest| < m ==> k == |cut.payloads| && !cut.complete
    ensures |rest| <= m - 3 ==> cut.complete && k + 1 == |cut.payloads| && cut.payloads[k] == rest
    ensures |rest| >= m ==>
              && k < |cut.payloads|
              && cut.payloads[k] == rest[..m]
              && CutFile(rest[m..], m) == Cut(cut.payloads[k + 1..], cut.complete)
              && (cut.complete ==> k + 1 < |cut.payloads|)
  {
    if |rest| >= m {
      CutExact(rest[m..], m);
      assert cut.payloads[k + 1..] == cut.payloads[k..][1..];
    }
  }

  datatype ChunkStatus = Ready | Exhausted | UnexpectedEof

  /** A message whose content is the next chunk of a file. Every chunk is read into the same
      buffer, over the previous one. */
  class FMessage {
    const buffer: Message
    const file: Bytes
    const sign: Bytes
    const msgType: byte
    const headerSize: nat
    // What every chunk message starts with, and all the messages to come.
    ghost const header: Bytes
    ghost const messages: seq<Bytes>
    ghost const complete: bool
    var position: nat
    var remaining: nat
    var completed: bool
    var failed: bool
    // How many chunks have been produced.
    ghost var index: nat

    ghost predicate Valid()
      reads this, buffer
    {
      && SignFits(sign)
      && headerSize == HeaderSize(sign)
      && position + remaining == |file|
      && messages == EncodeGroups(msgType, ChunkGroups(sign, FileCut())) && complete == FileCut().complete
      && index <= |messages|
      && (completed ==> remaining == 0 && complete && index == |messages|)
      && (!completed ==> Open())
      && (!completed ==>
            CutFile(file[position..], MaxPayload(sign)) == Cut(FileCut().payloads[index..], FileCut().complete))
    }

    /** The buffer has its full size and holds the header and the CONTENT tag. */
    ghost predicate Open()
      reads this, buffer
    {
      && headerSize == HeaderSize(sign) < CHUNK_SIZE
      && position + remaining == |file|
      && |buffer.raw| == CHUNK_SIZE
      && |header| == headerSize + 1
      && header == [msgType] + EncodeTlv(Tlv(ITEM, sign)) + [CONTENT]
      && buffer.raw[..headerSize + 1] == header
    }

    ghost function FileCut(): Cut
      requires SignFits(sign)
    {
      CutFile(file, MaxPayload(sign))
    }

    /** The header must leave room for the tag behind it; that it leaves room for content is what the
        chunks need. */
    constructor (msgType: byte, file: Bytes, sign: Bytes)
      requires HeaderSize(sign) < CHUNK_SIZE
      ensures Open() && fresh(buffer) && !completed && !failed && position == 0 && index == 0
      ensures this.msgType == msgType && this.file == file && this.sign == sign
      ensures SignFits(sign) ==>
                var cut := CutFile(file, MaxPayload(sign));
                && Valid()
                && messages == EncodeGroups(msgType, ChunkGroups(sign, cut)) && complete == cut.complete
    {
      var msg := new Message(msgType);
      msg.AddTlv(ITEM, sign);
      var size := |msg.raw|;
      msg.Resize(CHUNK_SIZE);
      msg.raw := msg.raw[size := CONTENT];
      buffer, headerSize, header := msg, size, msg.raw[..size + 1];
      this.msgType, this.file, this.sign := msgType, file, sign;
      position, remaining, completed, failed, index := 0, |file|, false, false, 0;
      ghost var cut := if SignFits(sign) then CutFile(file, MaxPayload(sign)) else Cut([], false);
      messages, complete := EncodeGroups(msgType, ChunkGroups(sign, cut)), cut.complete;
      assert file[0..] == file;
    }

    /** Writes `data` over the buffer from `at` on. */
    method Overwrite(at: nat, data: Bytes)
      requires at + |data| <= |buffer.raw|
      modifies buffer
      ensures |buffer.raw| == |old(buffer.raw)|
      ensures buffer.raw[..at + |data|] == old(buffer.raw)[..at] + data
    {
      buffer.raw := buffer.raw[..at] + data + buffer.raw[at + |data|..];
    }

    /** Writes the length of the chunk and reads `toRead` bytes of the file behind it. */
    method ReadContent(toRead: nat) returns (ok: bool)
      requires Open() && headerSize + 3 + toRead <= CHUNK_SIZE
      modifies buffer
      ensures ok <==> toRead <= remaining
      ensures Open()
      ensures ok ==> buffer.raw[..headerSize + 3 + toRead] ==
                     [msgType] + EncodeTlv(Tlv(ITEM, sign)) + EncodeTlv(Tlv(CONTENT, file[position..position + toRead]))
    {
      Overwrite(headerSize + 1, [High(toRead), Low(toRead)]);
      ghost var front := header + [High(toRead), Low(toRead)];
      assert buffer.raw[..headerSize + 3] == front;
      ok := toRead <= remaining;
      Overwrite(headerSize + 3, file[position..position + if ok then toRead else remaining]);
      assert buffer.raw[..headerSize + 3] == front;
      assert buffer.raw[..headerSize + 1] == front[..headerSize + 1] == header;
    }

    /** Turns the buffer into the chunk message for the next `toRead` bytes of the file. */
    method FillBuffer(toRead: nat, last: bool) returns (ok: bool)
      requires Open()
      requires if last then toRead == remaining && headerSize + 6 + toRead <= CHUNK_SIZE
               else headerSize + 3 + toRead == CHUNK_SIZE
      modifies buffer
      ensures ok <==> toRead <= remaining
      ensures !(ok && last) ==> Open()
      ensures ok ==> buffer.raw == EncodeMessage(msgType, ChunkTlvs(sign, file[position..position + toRead], last))
    {
      ok := ReadContent(toRead);
      assert |buffer.raw| == CHUNK_SIZE;
      if ok {
        ChunkTlvsSize(msgType, sign, file[position..position + toRead], last);
        hide EncodeMessage, Encode, EncodeTlv, ChunkTlvs, Open;
        if last {
          buffer.Resize(headerSize + 3 + remaining);
          buffer.AddTlv(END, []);
        } else {
          assert buffer.raw[..CHUNK_SIZE] == buffer.raw;
        }
      }
    }

    /** Puts the next chunk into the buffer: call after call, the messages of the cut of the
        file, in order; then false for good, or the failed read of an incomplete cut. */
    method NextChunk() returns (status: ChunkStatus)
      requires Valid() && !failed
      modifies this, buffer
      ensures Valid() && failed == status.UnexpectedEof?
      ensures status == if old(index) < |messages| then Ready else if complete then Exhausted else UnexpectedEof
      ensures status == Ready ==> index == old(index) + 1 && buffer.raw == messages[old(index)]
      ensures status != Ready ==> index == old(index)
    {
      hide Encode, EncodeTlv;
      if completed {
        return Exhausted;
      }
      CutStep(FileCut(), index, file[position..], MaxPayload(sign));
      var toRead;
      if remaining > CHUNK_SIZE - headerSize - 3 - 3 {
        toRead := CHUNK_SIZE - headerSize - 3;
      } else {
        toRead := remaining;
        completed := true;
      }
      var ok := FillBuffer(toRead, completed);
      if !ok {
        failed := true;
        return UnexpectedEof;
      }
      assert file[position..position + toRead] == FileCut().payloads[index];
      assert !completed ==> file[position + toRead..] == file[position..][toRead..];
      position, remaining, index := position + toRead, remaining - toRead, index + 1;
      return Ready;
    }
  }

  /** The loop that drives a file message to its end, and collects the messages. */
  method DrainChunks(fMsg: FMessage) returns (msgs: seq<Bytes>, complete: bool)
    requires fMsg.Valid() && !fMsg.failed && fMsg.index == 0
    modifies fMsg, fMsg.buffer
    ensures msgs == fMsg.messages && complete == fMsg.complete
  {
    hide FMessage.Valid;
    msgs := [];
    var status := fMsg.NextChunk();
    while status == Ready
      invariant fMsg.Valid() && fMsg.failed == status.UnexpectedEof?
      invariant msgs <= fMsg.messages
      invariant if status == Ready then
                  fMsg.index == |msgs| + 1 && |msgs| < |fMsg.messages| && fMsg.buffer.raw == fMsg.messages[|msgs|]
                else msgs == fMsg.messages && fMsg.complete == status.Exhausted?
      decreases status == Ready, |fMsg.messages| - |msgs|
    {
      msgs := msgs + [fMsg.buffer.raw];
      status := fMsg.NextChunk();
    }
    complete := status == Exhausted;
  }

  /** All the messages of a file, and whether they reach its end. */
  method ReadChunks(msgType: byte, file: Bytes, sign: Bytes) returns (msgs: seq<Bytes>, complete: bool)
    requires SignFits(sign)
    ensures var cut := CutFile(file, MaxPayload(sign));
            complete == cut.complete && msgs == EncodeGroups(msgType, ChunkGroups(sign, cut))
  {
    var fMsg := new FMessage(msgType, file, sign);
    msgs, complete := DrainChunks(fMsg);
  }
}
