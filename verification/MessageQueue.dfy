/** Replies: segments packed into messages of at most CHUNK_SIZE bytes. */
module MessageQueues {
  import opened Protocol
  import opened Tlvs
  import FileMessages

  // ---- Error codes in decimal --------------------------------------------------------

  predicate IsDigit(b: byte) {
    48 <= b < 58
  }

  function ToDecimal(n: nat): (s: Bytes)
    ensures s != []
  {
    var digit := (48 + n % 10) as byte;
    if n < 10 then [digit] else ToDecimal(n / 10) + [digit]
  }

  predicate AllDigits(s: Bytes) {
    forall b | b in s :: IsDigit(b)
  }

  /** The number a string of decimal digits denotes. */
  function FromDigits(s: Bytes): nat
    requires AllDigits(s)
  {
    if s == [] then 0
    else
      assert s[|s| - 1] in s;
      FromDigits(s[..|s| - 1]) * 10 + (s[|s| - 1] as nat - 48)
  }

  function LeadingDigits(s: Bytes): (n: nat)
    ensures n <= |s| && AllDigits(s[..n])
  {
    if s == [] || !IsDigit(s[0]) then 0
    else
      var n := LeadingDigits(s[1..]);
      assert s[..n + 1] == [s[0]] + s[1..][..n];
      n + 1
  }

  predicate IsBlank(b: byte) {
    b == 32 || 9 <= b <= 13
  }

  const INT_MIN: int := -0x8000_0000
  const INT_MAX: int := 0x7FFF_FFFF

  /** Reading a number: leading blanks are skipped, a sign may follow, then digits as far as they go;
      what comes after them is ignored. None, an exception, when there is no digit or the number
      does not fit into an int. */
  function Stoi(s: Bytes): Option<int> {
    if s != [] && IsBlank(s[0]) then Stoi(s[1..])
    else
      var signed := s != [] && (s[0] == 43 || s[0] == 45);
      var body := if signed then s[1..] else s;
      var digits := LeadingDigits(body);
      var size: int := FromDigits(body[..digits]);
      var value := if signed && s[0] == 45 then -size else size;
      if digits == 0 || value < INT_MIN || value > INT_MAX then None else Some(value)
  }

  lemma {:induction false} DecimalIsDigits(n: nat)
    ensures AllDigits(ToDecimal(n)) && FromDigits(ToDecimal(n)) == n
  {
    var s := ToDecimal(n);
    if n >= 10 {
      DecimalIsDigits(n / 10);
      assert s[..|s| - 1] == ToDecimal(n / 10);
    } else {
      assert s[..0] == [];
    }
  }

  lemma {:induction false} AllLead(s: Bytes)
    requires AllDigits(s)
    ensures LeadingDigits(s) == |s|
  {
    if s != [] {
      AllLead(s[1..]);
    }
  }

  /** The number read back from one written in decimal is that number, exactly for those that fit
      into an int. */
  lemma DecimalRoundTrip(n: nat)
    ensures Stoi(ToDecimal(n)) == Some(n) <==> n <= INT_MAX
  {
    var s := ToDecimal(n);
    DecimalIsDigits(n);
    AllLead(s);
    assert s[0] in s;
    assert s[..|s|] == s;
  }

  lemma {:induction false} LeadingIsPrefix(digits: Bytes, rest: Bytes)
    requires AllDigits(digits) && (rest == [] || !IsDigit(rest[0]))
    ensures LeadingDigits(digits + rest) == |digits|
  {
    if digits == [] {
      assert digits + rest == rest;
    } else {
      assert (digits + rest)[1..] == digits[1..] + rest;
      LeadingIsPrefix(digits[1..], rest);
    }
  }

  /** What a number reads as whose sign and digits are these. */
  function ReadAs(sign: Bytes, digits: Bytes): Option<int>
    requires AllDigits(digits)
  {
    var value: int := if sign == [45] then 0 - FromDigits(digits) else FromDigits(digits);
    if digits == [] || value < INT_MIN || value > INT_MAX then None else Some(value)
  }

  lemma StartsUnsigned(digits: Bytes, rest: Bytes)
    requires AllDigits(digits) && (rest != [] && digits == [] ==> !IsBlank(rest[0]) && rest[0] !in {43, 45})
    ensures digits + rest != [] ==> !IsBlank((digits + rest)[0]) && (digits + rest)[0] !in {43, 45}
  {
    if digits != [] {
      assert (digits + rest)[0] == digits[0] && digits[0] in digits;
    } else {
      assert digits + rest == rest;
    }
  }

  lemma StoiUnsigned(digits: Bytes, rest: Bytes)
    requires AllDigits(digits) && (rest != [] ==> !IsDigit(rest[0]))
    requires rest != [] && digits == [] ==> !IsBlank(rest[0]) && rest[0] !in {43, 45}
    ensures Stoi(digits + rest) == ReadAs([], digits)
  {
    StartsUnsigned(digits, rest);
    LeadingIsPrefix(digits, rest);
    assert (digits + rest)[..|digits|] == digits;
  }

  lemma SignThenDigits(s: Bytes)
    requires s != [] && s[0] in {43, 45}
    ensures Stoi(s) == ReadAs([s[0]], s[1..][..LeadingDigits(s[1..])])
  {
    hide FromDigits, LeadingDigits, AllDigits;
  }

  lemma StoiSigned(sign: byte, digits: Bytes, rest: Bytes)
    requires sign in {43, 45} && AllDigits(digits) && (rest != [] ==> !IsDigit(rest[0]))
    ensures Stoi([sign] + (digits + rest)) == ReadAs([sign], digits)
  {
    var body := digits + rest;
    LeadingIsPrefix(digits, rest);
    SignThenDigits([sign] + body);
    hide Stoi, LeadingDigits, FromDigits, AllDigits, IsDigit;
    assert ([sign] + body)[0] == sign && ([sign] + body)[1..] == body && body[..|digits|] == digits;
  }

  /** Reading a number skips blanks, takes at most one sign and the digits that follow, and nothing behind
      them; without digits, or when the number does not fit into an int, it is an exception. */
  lemma {:induction false} StoiReads(blanks: Bytes, sign: Bytes, digits: Bytes, rest: Bytes)
    requires (forall b | b in blanks :: IsBlank(b)) && sign in {[], [43], [45]} && AllDigits(digits)
    requires rest != [] ==> !IsDigit(rest[0])
    requires rest != [] && digits == [] && sign == [] ==> !IsBlank(rest[0]) && rest[0] !in {43, 45}
    ensures Stoi(blanks + (sign + (digits + rest))) == ReadAs(sign, digits)
    decreases |blanks|
  {
    var body := sign + (digits + rest);
    if blanks != [] {
      assert blanks[0] in blanks;
      assert (blanks + body)[0] == blanks[0] && (blanks + body)[1..] == blanks[1..] + body;
      StoiReads(blanks[1..], sign, digits, rest);
    } else {
      assert blanks + body == body;
      if sign == [] {
        assert body == digits + rest;
        StoiUnsigned(digits, rest);
      } else {
        assert sign == [sign[0]];
        StoiSigned(sign[0], digits, rest);
      }
    }
  }

  lemma {:induction false} DecimalLength(n: nat)
    requires n < 1000
    ensures |ToDecimal(n)| <= 3
  {
    if n >= 10 {
      assert n / 10 < 100;
      if n / 10 >= 10 {
        assert |ToDecimal(n / 10 / 10)| == 1;
      }
    }
  }

  // ---- Packing -----------------------------------------------------------------------

  /** The size of a message with these segments. */
  function Size(group: seq<Tlv>): nat {
    if group == [] then 1 else Size(group[..|group| - 1]) + 3 + |group[|group| - 1].value|
  }

  lemma {:induction false} SizeOfMessage(msgType: byte, group: seq<Tlv>)
    ensures |EncodeMessage(msgType, group)| == Size(group)
  {
    if group != [] {
      EncodeLast(group);
      SizeOfMessage(msgType, group[..|group| - 1]);
    }
  }

  function Flatten(groups: seq<seq<Tlv>>): seq<Tlv> {
    if groups == [] then [] else Flatten(groups[..|groups| - 1]) + groups[|groups| - 1]
  }

  /** Appends a segment to the last message, or to a new one when it does not fit there. */
  function Pack(groups: seq<seq<Tlv>>, t: Tlv): seq<seq<Tlv>>
    requires groups != []
  {
    var last := groups[|groups| - 1];
    if Size(last) + 3 + |t.value| <= CHUNK_SIZE then groups[..|groups| - 1] + [last + [t]]
    else groups + [[t]]
  }

  /** The messages of a reply with these segments, added one by one to a new queue. */
  function Packed(ts: seq<Tlv>): (groups: seq<seq<Tlv>>)
    ensures groups != []
  {
    if ts == [] then [[]] else Pack(Packed(ts[..|ts| - 1]), ts[|ts| - 1])
  }

  lemma PackedSnoc(ts: seq<Tlv>, t: Tlv)
    ensures Packed(ts + [t]) == Pack(Packed(ts), t)
  {
    assert (ts + [t])[..|ts|] == ts;
  }

  /** The segment can travel in a message of its own. */
  predicate Packable(t: Tlv) {
    |t.value| <= CHUNK_SIZE - 4
  }

  lemma PackConserves(groups: seq<seq<Tlv>>, t: Tlv)
    requires groups != []
    ensures Flatten(Pack(groups, t)) == Flatten(groups) + [t]
  {
    var front, last := groups[..|groups| - 1], groups[|groups| - 1];
    if Size(last) + 3 + |t.value| <= CHUNK_SIZE {
      assert (front + [last + [t]])[..|front|] == front;
      assert Flatten(front) + (last + [t]) == Flatten(front) + last + [t];
    } else {
      assert (groups + [[t]])[..|groups|] == groups;
    }
  }

  lemma PackSizes(groups: seq<seq<Tlv>>, t: Tlv)
    requires groups != [] && Packable(t)
    requires forall g | g in groups :: Size(g) <= CHUNK_SIZE
    ensures forall g | g in Pack(groups, t) :: Size(g) <= CHUNK_SIZE
  {
    var last := groups[|groups| - 1];
    assert (last + [t])[..|last|] == last;
    assert Size(last + [t]) == Size(last) + 3 + |t.value|;
    assert [t][..0] == [];
    assert Size([t]) == 1 + 3 + |t.value|;
  }

  lemma {:induction false} PackedWithinLimit(ts: seq<Tlv>)
    requires forall t | t in ts :: Packable(t)
    ensures forall g | g in Packed(ts) :: Size(g) <= CHUNK_SIZE
  {
    if ts != [] {
      PackedWithinLimit(ts[..|ts| - 1]);
      PackSizes(Packed(ts[..|ts| - 1]), ts[|ts| - 1]);
    }
  }

  lemma FlattenOne(group: seq<Tlv>)
    ensures Flatten([group]) == group
  {
    assert [group][..0] == [];
  }

  /** Packing keeps every segment, in order. */
  lemma {:induction false} PackedConserves(ts: seq<Tlv>)
    ensures Flatten(Packed(ts)) == ts
  {
    if ts == [] {
      FlattenOne([]);
    } else {
      var front, t := ts[..|ts| - 1], ts[|ts| - 1];
      calc {
        Flatten(Packed(ts));
        Flatten(Pack(Packed(front), t));
        { PackConserves(Packed(front), t); }
        Flatten(Packed(front)) + [t];
        { PackedConserves(front); }
        front + [t];
        ts;
      }
    }
  }

  /** Every message of a packed reply is well formed, starts with the type of the queue and
      stays within the chunk size. */
  lemma PackedMessages(msgType: byte, ts: seq<Tlv>, i: nat)
    requires forall t | t in ts :: Packable(t)
    requires i < |Packed(ts)|
    ensures var raw := FileMessages.EncodeGroups(msgType, Packed(ts))[i];
            1 <= |raw| <= CHUNK_SIZE && raw[0] == msgType && IsMessage(raw) && Segments(raw) == Packed(ts)[i]
  {
    PackedWithinLimit(ts);
    SizeOfMessage(msgType, Packed(ts)[i]);
    GroupFits(Packed(ts)[i]);
    MessageRoundTrip(msgType, Packed(ts)[i]);
  }

  lemma {:induction false} GroupFits(group: seq<Tlv>)
    requires Size(group) <= CHUNK_SIZE
    ensures AllFit(group)
    ensures Size(group) >= 1
  {
    if group != [] {
      GroupFits(group[..|group| - 1]);
      assert group == group[..|group| - 1] + [group[|group| - 1]];
    }
  }

  // ---- Greedy packing is optimal -----------------------------------------------------

  /** How many messages more are opened when `ts` follow a message filled to `used` bytes. */
  function Opened(used: nat, ts: seq<Tlv>): nat
    decreases |ts|
  {
    if ts == [] then 0
    else if used + 3 + |ts[0].value| <= CHUNK_SIZE then Opened(used + 3 + |ts[0].value|, ts[1..])
    else 1 + Opened(4 + |ts[0].value|, ts[1..])
  }

  /** A fuller message never opens fewer, and a new message saves at most the one it costs. */
  lemma {:induction false} OpenedMonotone(less: nat, more: nat, ts: seq<Tlv>)
    requires 1 <= less <= more
    ensures Opened(less, ts) <= Opened(more, ts) <= 1 + Opened(less, ts)
    decreases |ts|
  {
    if ts != [] {
      var w := 3 + |ts[0].value|;
      if more + w <= CHUNK_SIZE {
        OpenedMonotone(less + w, more + w, ts[1..]);
      } else if less + w <= CHUNK_SIZE {
        OpenedMonotone(1 + w, less + w, ts[1..]);
      }
    }
  }

  lemma {:induction false} OpenedAppend(used: nat, a: seq<Tlv>, t: Tlv)
    ensures Opened(used, a + [t]) == Opened(used, a) + Opened(Filled(used, a), [t])
    ensures Filled(used, a + [t]) == Filled(Filled(used, a), [t])
    decreases |a|
  {
    if a != [] {
      assert (a + [t])[1..] == a[1..] + [t];
      var w := 3 + |a[0].value|;
      OpenedAppend(if used + w <= CHUNK_SIZE then used + w else 1 + w, a[1..], t);
    } else {
      assert a + [t] == [t];
    }
  }

  /** How full the last message is after `ts`. */
  function Filled(used: nat, ts: seq<Tlv>): nat
    decreases |ts|
  {
    if ts == [] then used
    else if used + 3 + |ts[0].value| <= CHUNK_SIZE then Filled(used + 3 + |ts[0].value|, ts[1..])
    else Filled(4 + |ts[0].value|, ts[1..])
  }

  lemma {:induction false} PackedCount(ts: seq<Tlv>)
    ensures |Packed(ts)| == 1 + Opened(1, ts)
    ensures Size(Packed(ts)[|Packed(ts)| - 1]) == Filled(1, ts)
  {
    if ts != [] {
      var front, t := ts[..|ts| - 1], ts[|ts| - 1];
      PackedCount(front);
      OpenedAppend(1, front, t);
      assert front + [t] == ts;
      var last := Packed(front)[|Packed(front)| - 1];
      assert (last + [t])[..|last|] == last;
      assert [t][..0] == [];
    }
  }

  lemma {:induction false} OpenedFits(used: nat, g: seq<Tlv>, rest: seq<Tlv>)
    requires used + Size(g) - 1 <= CHUNK_SIZE
    ensures Opened(used, g + rest) == Opened(used + Size(g) - 1, rest)
    decreases |g|
  {
    if g == [] {
      assert g + rest == rest;
    } else {
      var front, t := g[..|g| - 1], g[|g| - 1];
      OpenedFits(used, front, [t] + rest);
      assert front + ([t] + rest) == g + rest;
      assert ([t] + rest)[1..] == rest;
    }
  }

  function FlattenFront(groups: seq<seq<Tlv>>): seq<Tlv> {
    if groups == [] then [] else groups[0] + FlattenFront(groups[1..])
  }

  lemma {:induction false} FlattenBothWays(groups: seq<seq<Tlv>>)
    ensures FlattenFront(groups) == Flatten(groups)
  {
    if groups != [] {
      FlattenConcat([groups[0]], groups[1..]);
      assert [groups[0]] + groups[1..] == groups;
      FlattenBothWays(groups[1..]);
      FlattenOne(groups[0]);
    }
  }

  lemma {:induction false} FlattenConcat(a: seq<seq<Tlv>>, b: seq<seq<Tlv>>)
    ensures Flatten(a + b) == Flatten(a) + Flatten(b)
  {
    if b == [] {
      assert a + b == a;
    } else {
      var front, last := b[..|b| - 1], b[|b| - 1];
      assert (a + b)[..|a + b| - 1] == a + front;
      FlattenConcat(a, front);
    }
  }

  lemma {:induction false} SplitNeedsOpened(split: seq<seq<Tlv>>)
    requires split != []
    requires forall g | g in split :: Size(g) <= CHUNK_SIZE
    ensures 1 + Opened(1, FlattenFront(split)) <= |split|
  {
    var g, rest := split[0], FlattenFront(split[1..]);
    OpenedFits(1, g, rest);
    if |split| > 1 {
      SplitNeedsOpened(split[1..]);
      OpenedMonotone(1, Size(g), rest);
    }
  }

  /** Greedy packing is optimal: no split of the same segments, in the same order, into
      messages within the chunk size has fewer messages. */
  lemma PackedIsOptimal(ts: seq<Tlv>, split: seq<seq<Tlv>>)
    requires split != [] && Flatten(split) == ts
    requires forall g | g in split :: Size(g) <= CHUNK_SIZE
    ensures |Packed(ts)| <= |split|
  {
    PackedCount(ts);
    FlattenBothWays(split);
    SplitNeedsOpened(split);
  }

  lemma OneMessage(msgType: byte, groups: seq<seq<Tlv>>, g: seq<Tlv>)
    ensures FileMessages.EncodeGroups(msgType, groups + [g]) ==
            FileMessages.EncodeGroups(msgType, groups) + [EncodeMessage(msgType, g)]
  {
    hide EncodeMessage;
  }

  lemma EncodeSnoc(msgType: byte, group: seq<Tlv>, t: Tlv)
    ensures EncodeMessage(msgType, group + [t]) == EncodeMessage(msgType, group) + EncodeTlv(t)
  {
    assert Encode([t]) == EncodeTlv(t);
    EncodeConcat(group, [t]);
    hide EncodeTlv, Encode;
  }

  lemma LastGrows(msgType: byte, groups: seq<seq<Tlv>>, t: Tlv)
    requires groups != []
    ensures var n, msgs := |groups|, FileMessages.EncodeGroups(msgType, groups);
            FileMessages.EncodeGroups(msgType, groups[..n - 1] + [groups[n - 1] + [t]]) ==
            msgs[..n - 1] + [msgs[n - 1] + EncodeTlv(t)]
  {
    var front, last := groups[..|groups| - 1], groups[|groups| - 1];
    assert groups == front + [last];
    EncodeSnoc(msgType, last, t);
    OneMessage(msgType, front, last);
    OneMessage(msgType, front, last + [t]);
    hide FileMessages.EncodeGroups, EncodeMessage, EncodeTlv;
  }

  lemma OneMore(msgType: byte, groups: seq<seq<Tlv>>, t: Tlv)
    ensures FileMessages.EncodeGroups(msgType, groups + [[t]]) ==
            FileMessages.EncodeGroups(msgType, groups) + [[msgType] + EncodeTlv(t)]
  {
    assert Encode([t]) == EncodeTlv(t);
    assert EncodeMessage(msgType, [t]) == [msgType] + EncodeTlv(t);
    OneMessage(msgType, groups, [t]);
    hide FileMessages.EncodeGroups, EncodeMessage, EncodeTlv, Encode;
  }

  // ---- The queue ---------------------------------------------------------------------

  class MessageQueue {
    const msgType: byte
    var msgs: seq<Bytes>
    var errType: int
    // The segments of each queued message.
    ghost var groups: seq<seq<Tlv>>

    ghost predicate Valid()
      reads this
    {
      msgs == FileMessages.EncodeGroups(msgType, groups)
    }

    /** A queue for a retrieved file, or for no request at all, starts without a message. */
    constructor (msgType: byte)
      ensures Valid() && this.msgType == msgType && errType == ERR_NONE
      ensures groups == if msgType == NONE || msgType == RETRIEVE then [] else Packed([])
    {
      this.msgType := msgType;
      errType := ERR_NONE;
      if msgType != NONE && msgType != RETRIEVE {
        msgs, groups := [[msgType]], [[]];
        assert EncodeMessage(msgType, []) == [msgType];
      } else {
        msgs, groups := [], [];
      }
    }

    /** Adds a segment; the value of an ERROR segment is read as a number. */
    method AddTlv(tag: byte, value: Bytes)
      requires Valid() && msgs != []
      requires tag == ERROR ==> Stoi(value).Some?
      modifies this
      ensures Valid() && groups == Pack(old(groups), Tlv(tag, value))
      ensures errType == if tag == ERROR then Stoi(value).value else old(errType)
    {
      ghost var t := Tlv(tag, value);
      var n := |msgs|;
      SizeOfMessage(msgType, groups[n - 1]);
      LastGrows(msgType, groups, t);
      OneMore(msgType, groups, t);
      hide Encode, EncodeTlv, EncodeMessage, Size, Stoi;
      if |msgs[n - 1]| + 1 + 2 + |value| <= CHUNK_SIZE {
        var last := new Message.FromBuffer(msgs[n - 1]);
        last.AddTlv(tag, value);
        msgs := msgs[..n - 1] + [last.raw];
      } else {
        var msg := new Message(msgType);
        msg.AddTlv(tag, value);
        msgs := msgs + [msg.raw];
      }
      groups := Pack(groups, t);
      if tag == ERROR {
        errType := Stoi(value).value;
      }
    }

    method AddMessage(raw: Bytes, ghost group: seq<Tlv>)
      requires Valid() && raw == EncodeMessage(msgType, group)
      modifies this
      ensures Valid() && groups == old(groups) + [group] && errType == old(errType)
    {
      msgs := msgs + [raw];
      groups := groups + [group];
    }

    method Pop()
      requires Valid() && msgs != []
      modifies this
      ensures Valid() && msgs == old(msgs)[1..] && groups == old(groups)[1..] && errType == old(errType)
    {
      msgs := msgs[1..];
      groups := groups[1..];
    }
  }

  /** Adding segments one by one to a new queue packs them. */
  method PackAll(msgType: byte, ts: seq<Tlv>) returns (msgs: seq<Bytes>)
    requires msgType != NONE && msgType != RETRIEVE
    requires forall t | t in ts :: t.tag == ERROR ==> Stoi(t.value).Some?
    ensures msgs == FileMessages.EncodeGroups(msgType, Packed(ts))
  {
    var queue := new MessageQueue(msgType);
    assert ts[..0] == [];
    hide Packed, Pack, Stoi, FileMessages.EncodeGroups;
    for i := 0 to |ts|
      invariant fresh(queue) && queue.Valid() && queue.msgType == msgType && queue.groups == Packed(ts[..i])
    {
      PackedSnoc(ts[..i], ts[i]);
      assert ts[..i] + [ts[i]] == ts[..i + 1];
      assert ts[i] in ts && ts[i] == Tlv(ts[i].tag, ts[i].value);
      queue.AddTlv(ts[i].tag, ts[i].value);
    }
    assert ts[..|ts|] == ts;
    msgs := queue.msgs;
  }
}
