/** What the receiver makes of streams of frames: the printer and the parser undo
    each other under every chunking, damage to one frame stays in that frame, and
    a lost stream is found again or not, depending on the host's byte order. */
module FrameStreams {
  import opened Bytes
  import opened Wrappers
  import opened Framing
  import opened StreamLaws

  // ---------- streams of frames ----------

  function Stream(ms: seq<Message>): seq<byte> {
    if ms == [] then [] else Encode(ms[0]) + Stream(ms[1..])
  }

  ghost predicate AllFramed(ms: seq<Message>) {
    forall i :: 0 <= i < |ms| ==> WellFramed(ms[i])
  }

  ghost predicate AllIntact(ms: seq<Message>) {
    forall i :: 0 <= i < |ms| ==> Intact(ms[i])
  }

  /** The intact messages of a list, in order. */
  function IntactOnly(ms: seq<Message>): seq<Message> {
    if ms == [] then [] else (if Intact(ms[0]) then [ms[0]] else []) + IntactOnly(ms[1..])
  }

  /** Their deliveries, when the stream of the list starts at offset `base`. */
  function Deliveries(base: nat, ms: seq<Message>): seq<Delivery>
    decreases |ms|
  {
    if ms == [] then
      []
    else
      (if Intact(ms[0]) then [Delivery(base, ms[0])] else []) + Deliveries(base + FrameSize(ms[0]), ms[1..])
  }

  /** The receiver after the frames `ms`, with `tail` still unread. */
  function After(s: Receiver, ms: seq<Message>, tail: seq<byte>): Receiver {
    Receiver(s.deliveries + Deliveries(s.base, ms), s.base + |Stream(ms)|, tail)
  }

  lemma MessagesOfFirst(base: nat, m: Message)
    ensures Messages(if Intact(m) then [Delivery(base, m)] else []) == if Intact(m) then [m] else []
  {
    assert Messages([Delivery(base, m)]) == [m];
  }

  lemma {:induction false} DeliveriesAreIntact(base: nat, ms: seq<Message>)
    ensures Messages(Deliveries(base, ms)) == IntactOnly(ms)
    decreases |ms|
  {
    hide Messages, Intact;
    if ms != [] {
      var first := if Intact(ms[0]) then [Delivery(base, ms[0])] else [];
      DeliveriesAreIntact(base + FrameSize(ms[0]), ms[1..]);
      MessagesAppend(first, Deliveries(base + FrameSize(ms[0]), ms[1..]));
      MessagesOfFirst(base, ms[0]);
    } else {
      NoMessages();
    }
  }

  lemma NoMessages()
    ensures Messages([]) == []
  {}

  lemma {:induction false} IntactOnlyOfIntact(ms: seq<Message>)
    requires AllIntact(ms)
    ensures IntactOnly(ms) == ms
    decreases |ms|
  {
    if ms != [] {
      IntactOnlyOfIntact(ms[1..]);
    }
  }

  lemma {:induction false} StreamAppend(xs: seq<Message>, ys: seq<Message>)
    ensures Stream(xs + ys) == Stream(xs) + Stream(ys)
    decreases |xs|
  {
    if xs == [] {
      assert xs + ys == ys;
    } else {
      assert (xs + ys)[1..] == xs[1..] + ys;
      StreamAppend(xs[1..], ys);
      ConcatAssociative(Encode(xs[0]), Stream(xs[1..]), Stream(ys));
    }
  }

  /** At the front of a well-framed frame the loop takes off exactly that frame. */
  lemma NextOnFrame(order: ByteOrder, m: Message, tail: seq<byte>)
    requires WellFramed(m)
    ensures var b := Encode(m) + tail;
            && !Stuck(order, b)
            && DecodeHeader(b) == m.header
            && Next(order, b) == (if Intact(m) then Deliver(m) else Drop(FrameSize(m), BadChecksum))
            && b[FrameSize(m)..] == tail
  {
    var b := Encode(m) + tail;
    assert b == EncodeHeader(m.header) + (m.payload + tail);
    DecodeEncodeHeader(m.header, m.payload + tail);
    assert b[HEADER_SIZE..FrameSize(m)] == m.payload;
  }

  lemma AfterOne(s: Receiver, s': Receiver, ms: seq<Message>, tail: seq<byte>)
    requires ms != []
    requires s' == Receiver(s.deliveries + (if Intact(ms[0]) then [Delivery(s.base, ms[0])] else []),
                            s.base + FrameSize(ms[0]), Stream(ms[1..]) + tail)
    ensures After(s', ms[1..], tail) == After(s, ms, tail)
  {
    hide Intact, Encode;
    var first := if Intact(ms[0]) then [Delivery(s.base, ms[0])] else [];
    var later := Deliveries(s'.base, ms[1..]);
    ConcatAssociative(s.deliveries, first, later);
  }

  /** The loop on a stream of well-framed frames delivers exactly the intact ones
      and goes on with what follows the stream. */
  lemma {:induction false} LoopOnStream(order: ByteOrder, s: Receiver, ms: seq<Message>, tail: seq<byte>)
    requires AllFramed(ms) && s.buffer == Stream(ms) + tail
    ensures Loop(order, s) == Loop(order, After(s, ms, tail))
    ensures Aligned(order, tail) ==> Aligned(order, s.buffer)
    decreases |ms|
  {
    if ms == [] {
      assert s.buffer == tail;
      assert s == After(s, ms, tail);
    } else {
      ConcatAssociative(Encode(ms[0]), Stream(ms[1..]), tail);
      NextOnFrame(order, ms[0], Stream(ms[1..]) + tail);
      var s' := Iterate(order, s);
      AfterOne(s, s', ms, tail);
      LoopOnStream(order, s', ms[1..], tail);
    }
  }

  /** However a stream of well-framed frames, followed by a part of one more, is
      cut into chunks: the receiver delivers exactly the intact frames, in order,
      once each, at their offsets, and keeps exactly the incomplete frame. */
  lemma StreamUnderAnyChunking(order: ByteOrder, s: Receiver, ms: seq<Message>, tail: seq<byte>, chunks: seq<seq<byte>>)
    requires AllFramed(ms) && Quiescent(tail) && s.buffer == []
    requires Flatten(chunks) == Stream(ms) + tail
    ensures FeedAll(order, s, chunks) == After(s, ms, tail)
  {
    var whole := Append(s, Flatten(chunks));
    assert whole.buffer == Stream(ms) + tail == [] + Flatten(chunks);
    LoopOnStream(order, whole, ms, tail);
    AnyChunking(order, s, chunks);
    assert After(whole, ms, tail) == After(s, ms, tail);
    QuiescentIffUnchanged(order, After(s, ms, tail));
  }

  /** The case of a stream of intact frames: every message, once, in order. */
  lemma IntactStreamUnderAnyChunking(order: ByteOrder, s: Receiver, ms: seq<Message>, chunks: seq<seq<byte>>)
    requires AllFramed(ms) && AllIntact(ms) && s.buffer == []
    requires Flatten(chunks) == Stream(ms)
    ensures FeedAll(order, s, chunks).buffer == []
    ensures Messages(FeedAll(order, s, chunks).deliveries) == Messages(s.deliveries) + ms
  {
    assert Stream(ms) + [] == Stream(ms);
    StreamUnderAnyChunking(order, s, ms, [], chunks);
    DeliveriesAreIntact(s.base, ms);
    IntactOnlyOfIntact(ms);
    MessagesAppend(s.deliveries, Deliveries(s.base, ms));
  }

  // ---------- printing and parsing one message ----------

  /** `r` is the message `m` as it must arrive: with its own magic, type, length,
      sequence number and payload, and the payload's sum for a checksum. */
  predicate ArrivesAs(m: Message, r: Message) {
    && r.header.magic == m.header.magic && r.header.kind == m.header.kind
    && r.header.length == m.header.length && r.header.sequence == m.header.sequence
    && r.header.checksum == Sum(m.payload) % TWO_32
    && r.payload == m.payload
  }

  /** Under every chunking of its bytes, `m` and nothing else reaches the callback
      of a fresh receiver, and no byte is left. */
  ghost predicate Survives(order: ByteOrder, m: Message) {
    forall chunks: seq<seq<byte>> :: Flatten(chunks) == Serialize(m) ==>
      var r := FeedAll(order, FRESH, chunks);
      |r.deliveries| == 1 && r.deliveries[0].at == 0 && ArrivesAs(m, r.deliveries[0].message) && r.buffer == []
  }

  /** Exactly which messages survive printing and parsing: the receiver gets back
      the message (with its checksum filled in), whole and alone, under every
      chunking, if and only if the header carries the magic and the true payload
      size, and that is at most 1 MiB. */
  lemma RoundTripExact(order: ByteOrder, m: Message)
    ensures Survives(order, m) <==> WellFramed(m)
  {
    if WellFramed(m) {
      forall chunks: seq<seq<byte>> | Flatten(chunks) == Serialize(m)
        ensures FeedAll(order, FRESH, chunks) == Receiver([Delivery(0, Sealed(m))], |Serialize(m)|, [])
      {
        var ms := [Sealed(m)];
        assert ms[1..] == [];
        assert Stream(ms) + [] == Serialize(m);
        StreamUnderAnyChunking(order, FRESH, ms, [], chunks);
        assert Deliveries(0, ms) == [Delivery(0, Sealed(m))];
      }
    } else {
      var chunks: seq<seq<byte>> := [Serialize(m)];
      assert chunks[1..] == [];
      assert Flatten(chunks) == Serialize(m);
      FeedAllSound(order, [], FRESH, chunks);
      var ds := FeedAll(order, FRESH, chunks).deliveries;
      assert |ds| == 1 ==> WellFramed(ds[0].message);
    }
  }

  /** A message made by the constructor survives exactly when its payload is at
      most 1 MiB; the size is not checked before it is sent. */
  lemma NewMessageRoundTrip(order: ByteOrder, kind: uint32, data: seq<byte>, sequence: uint32)
    ensures Survives(order, NewMessage(kind, data, sequence)) <==> |data| <= MAX_MESSAGE_SIZE
  {
    RoundTripExact(order, NewMessage(kind, data, sequence));
  }

  // ---------- the messages of one sender ----------

  /** What a caller passes to the constructor of a message. */
  datatype Draft = Draft(kind: uint32, data: seq<byte>)

  /** The messages made from drafts, one after the other, with a counter at `next`. */
  function Made(drafts: seq<Draft>, next: uint32): (ms: seq<Message>)
    ensures |ms| == |drafts|
    decreases |drafts|
  {
    if drafts == [] then
      []
    else
      [NewMessage(drafts[0].kind, drafts[0].data, next)] + Made(drafts[1..], (next + 1) % TWO_32)
  }

  function SerializeAll(ms: seq<Message>): seq<byte> {
    if ms == [] then [] else Serialize(ms[0]) + SerializeAll(ms[1..])
  }

  function SealedAll(ms: seq<Message>): (sealed: seq<Message>)
    ensures |sealed| == |ms|
  {
    seq(|ms|, i requires 0 <= i < |ms| => Sealed(ms[i]))
  }

  lemma {:induction false} SerializeAllIsStream(ms: seq<Message>)
    ensures SerializeAll(ms) == Stream(SealedAll(ms))
    decreases |ms|
  {
    if ms != [] {
      SerializeAllIsStream(ms[1..]);
      assert SealedAll(ms)[1..] == SealedAll(ms[1..]);
    }
  }

  lemma NextSequence(next: uint32, k: nat)
    ensures ((next + 1) % TWO_32 + k) % TWO_32 == (next + (k + 1)) % TWO_32
  {
    var q := (next + 1) / TWO_32;
    assert next + 1 == q * TWO_32 + (next + 1) % TWO_32;
    AddMultiple((next + 1) % TWO_32 + k, q, TWO_32);
  }

  lemma {:induction false} MadeAt(drafts: seq<Draft>, next: uint32, k: nat)
    requires k < |drafts|
    ensures Made(drafts, next)[k] == NewMessage(drafts[k].kind, drafts[k].data, (next + k) % TWO_32)
    decreases |drafts|
  {
    if k > 0 {
      MadeAt(drafts[1..], (next + 1) % TWO_32, k - 1);
      NextSequence(next, k - 1);
    }
  }

  /** What must arrive of the `k`-th message made from a counter that stood at `next`. */
  predicate ArrivesNumbered(d: Draft, sequence: nat, r: Message) {
    && r.header.magic == MESSAGE_MAGIC && r.header.kind == d.kind && r.header.length == |d.data|
    && r.header.sequence == sequence % TWO_32 && r.header.checksum == Sum(d.data)
    && r.payload == d.data
  }

  lemma MadeIsGood(drafts: seq<Draft>, next: uint32, k: nat)
    requires k < |drafts| && |drafts[k].data| <= MAX_MESSAGE_SIZE
    ensures var r := Sealed(Made(drafts, next)[k]);
            WellFramed(r) && Intact(r) && ArrivesNumbered(drafts[k], next + k, r)
  {
    MadeAt(drafts, next, k);
    ChecksumDoesNotWrap(drafts[k].data);
  }

  lemma AllMadeGood(drafts: seq<Draft>, next: uint32)
    requires forall k :: 0 <= k < |drafts| ==> |drafts[k].data| <= MAX_MESSAGE_SIZE
    ensures var sealed := SealedAll(Made(drafts, next));
            && AllFramed(sealed) && AllIntact(sealed)
            && forall k :: 0 <= k < |drafts| ==> ArrivesNumbered(drafts[k], next + k, sealed[k])
  {
    hide Made, Sealed, WellFramed, Intact, ArrivesNumbered;
    forall k | 0 <= k < |drafts|
      ensures var r := SealedAll(Made(drafts, next))[k];
              WellFramed(r) && Intact(r) && ArrivesNumbered(drafts[k], next + k, r)
    {
      MadeIsGood(drafts, next, k);
    }
  }

  /** From end to end: whatever messages of at most 1 MiB one sender makes, prints and
      sends, and however the bytes are cut, the receiver delivers one message for
      each, in order and nothing else; the `k`-th has its type, its payload, its
      size, the exact sum of its bytes, and the `k`-th number of the counter. */
  lemma MadeMessagesArrive(order: ByteOrder, drafts: seq<Draft>, next: uint32, chunks: seq<seq<byte>>)
    requires forall k :: 0 <= k < |drafts| ==> |drafts[k].data| <= MAX_MESSAGE_SIZE
    requires Flatten(chunks) == SerializeAll(Made(drafts, next))
    ensures FeedAll(order, FRESH, chunks).buffer == []
    ensures |FeedAll(order, FRESH, chunks).deliveries| == |drafts|
    ensures forall k :: 0 <= k < |drafts| ==>
              ArrivesNumbered(drafts[k], next + k, FeedAll(order, FRESH, chunks).deliveries[k].message)
  {
    hide FeedAll, Flatten, SerializeAll, Stream, Made, SealedAll, AllFramed, AllIntact, ArrivesNumbered, Messages;
    var sealed := SealedAll(Made(drafts, next));
    var ds := FeedAll(order, FRESH, chunks).deliveries;
    SerializeAllIsStream(Made(drafts, next));
    AllMadeGood(drafts, next);
    IntactStreamUnderAnyChunking(order, FRESH, sealed, chunks);
    OnlyThese(ds, sealed);
  }

  lemma OnlyThese(ds: seq<Delivery>, ms: seq<Message>)
    requires Messages(ds) == Messages([]) + ms
    ensures |ds| == |ms| && forall k :: 0 <= k < |ds| ==> ds[k].message == ms[k]
  {
    hide Messages;
    NoMessages();
    assert [] + ms == ms;
    forall k | 0 <= k < |ds|
      ensures ds[k].message == ms[k]
    {
      MessageAt(ds, k);
    }
  }

  lemma MessageAt(ds: seq<Delivery>, k: nat)
    requires k < |ds|
    ensures Messages(ds)[k] == ds[k].message
  {}

  // ---------- what becomes of an oversize message ----------

  lemma QuiescentIsAligned(order: ByteOrder, b: seq<byte>)
    requires Quiescent(b)
    ensures Aligned(order, b)
  {}

  lemma OversizeHeader(m: Message, tail: seq<byte>)
    ensures DecodeHeader(Encode(m) + tail) == m.header
    ensures (Encode(m) + tail)[HEADER_SIZE..] == m.payload + tail
  {
    ConcatAssociative(EncodeHeader(m.header), m.payload, tail);
    DecodeEncodeHeader(m.header, m.payload + tail);
  }

  /** Of a message that is too long only the header is dropped: what follows is
      read as a stream of frames, on either kind of host. */
  lemma OversizeIsReadAsStream(order: ByteOrder, s: Receiver, m: Message, tail: seq<byte>)
    requires m.header.magic == MESSAGE_MAGIC && m.header.length > MAX_MESSAGE_SIZE
    requires s.buffer == Encode(m) + tail
    ensures Loop(order, s) == Loop(order, Receiver(s.deliveries, s.base + HEADER_SIZE, m.payload + tail))
    ensures Aligned(order, m.payload + tail) ==> Aligned(order, s.buffer)
  {
    OversizeHeader(m, tail);
    hide Encode, DecodeHeader;
    assert Next(order, s.buffer) == Drop(HEADER_SIZE, Oversize);
    assert Iterate(order, s) == Receiver(s.deliveries, s.base + HEADER_SIZE, m.payload + tail);
    hide Next;
  }

  /** The receiver after the header of an oversize message and the frames `ms`. */
  function AfterOversize(s: Receiver, ms: seq<Message>, tail: seq<byte>): Receiver {
    After(Receiver(s.deliveries, s.base + HEADER_SIZE, []), ms, tail)
  }

  lemma OversizeWhole(order: ByteOrder, s: Receiver, m: Message, ms: seq<Message>, tail: seq<byte>)
    requires m.header.magic == MESSAGE_MAGIC && m.header.length > MAX_MESSAGE_SIZE
    requires m.payload == Stream(ms) + tail && AllFramed(ms) && Quiescent(tail) && s.buffer == Serialize(m)
    ensures Loop(order, s) == AfterOversize(s, ms, tail)
    ensures Aligned(order, s.buffer)
  {
    hide Encode, Checksum, Loop, Aligned, Stream, AllFramed, Deliveries;
    var behind := Receiver(s.deliveries, s.base + HEADER_SIZE, m.payload);
    assert Serialize(m) + [] == Serialize(m) && m.payload + [] == m.payload;
    OversizeIsReadAsStream(order, s, Sealed(m), []);
    QuiescentIsAligned(order, tail);
    LoopOnStream(order, behind, ms, tail);
    QuiescentIffUnchanged(order, After(behind, ms, tail));
  }

  /** So when the payload of a message that is too long is itself a stream of
      frames, and a part of one more, under every chunking exactly these frames are
      delivered instead of the message that was sent. */
  lemma OversizeDeliversItsPayload(order: ByteOrder, s: Receiver, m: Message, ms: seq<Message>, tail: seq<byte>,
                                   chunks: seq<seq<byte>>)
    requires m.header.magic == MESSAGE_MAGIC && m.header.length > MAX_MESSAGE_SIZE
    requires m.payload == Stream(ms) + tail && AllFramed(ms) && Quiescent(tail) && s.buffer == []
    requires Flatten(chunks) == Serialize(m)
    ensures FeedAll(order, s, chunks) == AfterOversize(s, ms, tail)
  {
    hide FeedAll, Flatten, Loop, Aligned, Serialize, Stream, AllFramed, After;
    assert Append(s, Flatten(chunks)).buffer == [] + Serialize(m) == Serialize(m);
    OversizeWhole(order, Append(s, Flatten(chunks)), m, ms, tail);
    AnyChunking(order, s, chunks);
  }

  // ---------- error isolation ----------

  lemma StreamSplit(ms: seq<Message>, i: nat)
    requires i < |ms|
    ensures Stream(ms) == Stream(ms[..i]) + Encode(ms[i]) + Stream(ms[i + 1..])
  {
    assert ms == ms[..i] + ms[i..];
    assert ms[i..][1..] == ms[i + 1..];
    StreamAppend(ms[..i], ms[i..]);
    ConcatAssociative(Stream(ms[..i]), Encode(ms[i]), Stream(ms[i + 1..]));
  }

  function Corrupt(m: Message, j: nat, v: byte): Message
    requires j < |m.payload|
  {
    m.(payload := m.payload[j := v])
  }

  lemma UpdateMiddle(a: seq<byte>, b: seq<byte>, c: seq<byte>, k: nat, v: byte)
    requires k < |b|
    ensures (a + b + c)[|a| + k := v] == a + b[k := v] + c
  {}

  lemma EncodeCorrupt(m: Message, j: nat, v: byte)
    requires j < |m.payload|
    ensures Encode(m)[HEADER_SIZE + j := v] == Encode(Corrupt(m, j, v))
  {
    UpdateMiddle(EncodeHeader(m.header), m.payload, [], j, v);
    assert Encode(m) + [] == Encode(m) && Encode(Corrupt(m, j, v)) + [] == Encode(Corrupt(m, j, v));
  }

  /** Changing byte `j` of the payload of frame `i` changes that frame alone. */
  lemma StreamUpdate(ms: seq<Message>, i: nat, j: nat, v: byte)
    requires i < |ms| && j < |ms[i].payload|
    ensures |Stream(ms[..i])| + HEADER_SIZE + j < |Stream(ms)|
    ensures Stream(ms)[|Stream(ms[..i])| + HEADER_SIZE + j := v] == Stream(ms[i := Corrupt(ms[i], j, v)])
  {
    hide Stream;
    var m' := Corrupt(ms[i], j, v);
    var ms' := ms[i := m'];
    StreamSplit(ms, i);
    StreamSplit(ms', i);
    var before, behind := ms[..i], ms[i + 1..];
    assert ms'[..i] == before && ms'[i + 1..] == behind && ms'[i] == m';
    EncodeCorrupt(ms[i], j, v);
    hide Encode, Corrupt;
    UpdateMiddle(Stream(before), Encode(ms[i]), Stream(behind), HEADER_SIZE + j, v);
  }

  lemma CorruptIsNotIntact(m: Message, j: nat, v: byte)
    requires WellFramed(m) && Intact(m) && j < |m.payload| && v != m.payload[j]
    ensures WellFramed(Corrupt(m, j, v)) && !Intact(Corrupt(m, j, v))
  {
    ChecksumDetects(m.payload, m.payload);
    assert Checksum(m.payload[j := v]) != Checksum(m.payload);
  }

  lemma {:induction false} IntactOnlyWithout(ms: seq<Message>, i: nat, m': Message)
    requires AllIntact(ms) && i < |ms| && !Intact(m')
    ensures IntactOnly(ms[i := m']) == ms[..i] + ms[i + 1..]
    decreases |ms|
  {
    var ms' := ms[i := m'];
    if i == 0 {
      assert ms'[1..] == ms[1..];
      IntactOnlyOfIntact(ms[1..]);
    } else {
      assert ms'[1..] == ms[1..][i - 1 := m'];
      IntactOnlyWithout(ms[1..], i - 1, m');
      assert ms[..i] + ms[i + 1..] == [ms[0]] + (ms[1..][..i - 1] + ms[1..][i..]);
    }
  }

  /** If one payload byte of one frame changes on the way, then under every
      chunking the receiver delivers every other message, unchanged and in order,
      drops that one, and is aligned again after it. */
  lemma OneByteCorrupted(order: ByteOrder, s: Receiver, ms: seq<Message>, i: nat, j: nat, v: byte,
                         chunks: seq<seq<byte>>)
    requires AllFramed(ms) && AllIntact(ms) && s.buffer == []
    requires i < |ms| && j < |ms[i].payload| && v != ms[i].payload[j]
    requires |Stream(ms[..i])| + HEADER_SIZE + j < |Stream(ms)|
    requires Flatten(chunks) == Stream(ms)[|Stream(ms[..i])| + HEADER_SIZE + j := v]
    ensures var r := FeedAll(order, s, chunks);
            && Messages(r.deliveries) == Messages(s.deliveries) + ms[..i] + ms[i + 1..]
            && r.buffer == []
            && r.base == s.base + |Stream(ms)|
  {
    var ms' := ms[i := Corrupt(ms[i], j, v)];
    StreamUpdate(ms, i, j, v);
    assert Stream(ms') + [] == Flatten(chunks);
    CorruptIsNotIntact(ms[i], j, v);
    StreamUnderAnyChunking(order, s, ms', [], chunks);
    DeliveriesAreIntact(s.base, ms');
    IntactOnlyWithout(ms, i, ms'[i]);
    MessagesAppend(s.deliveries, Deliveries(s.base, ms'));
    ConcatAssociative(Messages(s.deliveries), ms[..i], ms[i + 1..]);
  }

  // ---------- resynchronisation ----------

  /** The word the resync search finds, read as the wire reads words. */
  const SWAPPED_MAGIC: uint32 := 0x4942_5355

  function SoughtWord(order: ByteOrder): uint32 {
    if order.BigEndian? then MESSAGE_MAGIC else SWAPPED_MAGIC
  }

  lemma PatternBytes(order: ByteOrder)
    ensures ResyncPattern(order) == BE32(SoughtWord(order))
    ensures ResyncPattern(BigEndian) == [0x55, 0x53, 0x42, 0x49]
  {}

  lemma PatternIsWord(order: ByteOrder, b: seq<byte>, k: nat)
    requires k + 4 <= |b|
    ensures MatchAt(b, ResyncPattern(order), k) <==> Word(b, k) == SoughtWord(order)
  {
    hide ResyncPattern, BE32, SoughtWord, Word;
    PatternBytes(order);
    WordOfSlice(b, k, SoughtWord(order));
    assert b[k..k + 4] == [b[k], b[k + 1], b[k + 2], b[k + 3]];
  }

  /** An iteration that finds a bad magic restarts at the first later occurrence
      of the sought word or empties the buffer; on a big-endian host the sought
      word is the magic, so no complete magic behind the first byte is skipped. */
  lemma ResyncStep(order: ByteOrder, s: Receiver)
    requires |s.buffer| >= HEADER_SIZE && Word(s.buffer, 0) != MESSAGE_MAGIC
    ensures !Stuck(order, s.buffer)
    ensures var s' := Iterate(order, s);
            var n := s'.base - s.base;
            && s'.deliveries == s.deliveries && 0 < n <= |s.buffer| && s'.buffer == s.buffer[n..]
            && (s'.buffer == [] || (|s'.buffer| >= 4 && Word(s.buffer, n) == SoughtWord(order)))
            && (forall k {:trigger Word(s.buffer, k)} ::
                  0 < k < n && k + 4 <= |s.buffer| ==> Word(s.buffer, k) != SoughtWord(order))
  {
    var b := s.buffer;
    var n := Iterate(order, s).base - s.base;
    assert n == FirstMatch(b, ResyncPattern(order), 1);
    if n < |b| {
      PatternIsWord(order, b, n);
    }
    forall k {:trigger Word(b, k)} | 0 < k < n && k + 4 <= |b|
      ensures Word(b, k) != SoughtWord(order)
    {
      PatternIsWord(order, b, k);
    }
  }

  lemma WordOfSuffix(b: seq<byte>, n: nat)
    requires n + 4 <= |b|
    ensures Word(b[n..], 0) == Word(b, n)
  {
    assert b[n..][0..4] == b[n..n + 4];
    ValueLocal(b[n..], 0, b, n, 4);
  }

  /** A buffer in which the search pattern of a little-endian host came to lie. */
  ghost predicate Swapped(b: seq<byte>) {
    |b| >= 4 && Word(b, 0) == SWAPPED_MAGIC
  }

  /** On a little-endian host a call that takes the bad-magic branch delivers
      nothing more: it ends with an empty buffer, or with fewer than 20 bytes that
      start with the magic reversed. */
  lemma {:induction false} LittleEndianResync(s: Receiver)
    requires |s.buffer| >= HEADER_SIZE && Word(s.buffer, 0) != MESSAGE_MAGIC
    ensures var r := Loop(LittleEndian, s);
            && r.deliveries == s.deliveries
            && (r.buffer == [] || (|r.buffer| < HEADER_SIZE && Swapped(r.buffer)))
    decreases |s.buffer|
  {
    ResyncStep(LittleEndian, s);
    var s' := Iterate(LittleEndian, s);
    if s'.buffer != [] {
      WordOfSuffix(s.buffer, s'.base - s.base);
      if |s'.buffer| >= HEADER_SIZE {
        LittleEndianResync(s');
      }
    }
  }

  /** A little-endian receiver whose buffer starts with the reversed magic delivers
      nothing, whatever arrives in whatever chunks, until a call ends with an
      empty buffer. */
  lemma {:induction false} LittleEndianStaysLost(s: Receiver, chunks: seq<seq<byte>>)
    requires Swapped(s.buffer)
    ensures FeedAll(LittleEndian, s, chunks).deliveries == s.deliveries
         || exists k :: 0 <= k <= |chunks| && FeedAll(LittleEndian, s, chunks[..k]).buffer == []
    decreases |chunks|
  {
    if chunks != [] {
      var c := chunks[0];
      ValueLocal(s.buffer + c, 0, s.buffer, 0, 4);
      var s' := Feed(LittleEndian, s, c);
      if |s.buffer + c| >= HEADER_SIZE {
        LittleEndianResync(Append(s, c));
      }
      if s'.buffer == [] {
        assert chunks[..1] == [c] && chunks[..1][1..] == [];
        assert FeedAll(LittleEndian, s, chunks[..1]) == s';
      } else {
        LittleEndianStaysLost(s', chunks[1..]);
        if FeedAll(LittleEndian, s', chunks[1..]).deliveries != s'.deliveries {
          var k :| 0 <= k <= |chunks[1..]| && FeedAll(LittleEndian, s', chunks[1..][..k]).buffer == [];
          assert chunks[..k + 1][0] == c && chunks[..k + 1][1..] == chunks[1..][..k];
          assert FeedAll(LittleEndian, s, chunks[..k + 1]).buffer == [];
        }
      }
    }
  }

  /** No complete magic starts in the first `n` bytes of `b`. */
  ghost predicate NoMagicBefore(b: seq<byte>, n: nat) {
    forall k {:trigger Word(b, k)} :: 0 <= k < n && k + 4 <= |b| ==> Word(b, k) != MESSAGE_MAGIC
  }

  lemma BigEndianFindsFirstFrame(s: Receiver, garbage: seq<byte>, ms: seq<Message>)
    requires garbage != [] && ms != [] && AllFramed(ms)
    requires s.buffer == garbage + Stream(ms) && NoMagicBefore(s.buffer, |garbage|)
    ensures !Stuck(BigEndian, s.buffer)
    ensures Iterate(BigEndian, s) == Receiver(s.deliveries, s.base + |garbage|, Stream(ms))
  {
    NextOnFrame(BigEndian, ms[0], Stream(ms[1..]));
    assert Word(s.buffer, 0) != MESSAGE_MAGIC;
    ResyncStep(BigEndian, s);
    assert s.buffer[|garbage|..] == Stream(ms);
    WordOfSuffix(s.buffer, |garbage|);
    assert Word(s.buffer, |garbage|) == MESSAGE_MAGIC;
  }

  lemma LoopOnIntactStream(order: ByteOrder, s: Receiver, ms: seq<Message>)
    requires AllFramed(ms) && AllIntact(ms) && s.buffer == Stream(ms)
    ensures Messages(Loop(order, s).deliveries) == Messages(s.deliveries) + ms
  {
    assert Stream(ms) + [] == Stream(ms);
    LoopOnStream(order, s, ms, []);
    QuiescentIffUnchanged(order, After(s, ms, []));
    DeliveriesAreIntact(s.base, ms);
    IntactOnlyOfIntact(ms);
    MessagesAppend(s.deliveries, Deliveries(s.base, ms));
  }

  /** Garbage in front of good frames, received in one call: when no magic starts
      inside the garbage, a big-endian receiver delivers every frame behind it and
      a little-endian receiver delivers none of them. */
  lemma GarbageThenFrames(order: ByteOrder, s: Receiver, garbage: seq<byte>, ms: seq<Message>)
    requires garbage != [] && ms != [] && AllFramed(ms) && AllIntact(ms)
    requires s.buffer == garbage + Stream(ms) && NoMagicBefore(s.buffer, |garbage|)
    ensures Messages(Loop(order, s).deliveries) == Messages(s.deliveries) + if order.BigEndian? then ms else []
  {
    if order.LittleEndian? {
      assert |Stream(ms)| >= HEADER_SIZE;
      assert Word(s.buffer, 0) != MESSAGE_MAGIC;
      LittleEndianResync(s);
    } else {
      BigEndianFindsFirstFrame(s, garbage, ms);
      LoopOnIntactStream(order, Iterate(order, s), ms);
    }
  }

  // ---------- garbage in front of frames, in chunks ----------

  /** A call ends in the magic of the first frame, one to three bytes behind the
      garbage, and has 20 bytes or more to search: it empties the buffer, and the
      start of the frame is lost. `left` bytes of garbage are still to come, and
      `kept` bytes wait in the buffer. */
  predicate CutsMagic(chunks: seq<seq<byte>>, left: int, kept: nat)
    decreases |chunks|
  {
    chunks != [] &&
    var left', kept' := left - |chunks[0]|, kept + |chunks[0]|;
    left' > -4 &&
    if kept' < HEADER_SIZE then CutsMagic(chunks[1..], left', kept')
    else left' < 0 || CutsMagic(chunks[1..], left', 0)
  }

  /** What a run delivers takes up bytes that arrived during it. */
  lemma {:induction false} LoopBudget(order: ByteOrder, s: Receiver) returns (added: seq<Message>)
    ensures Messages(Loop(order, s).deliveries) == Messages(s.deliveries) + added
    ensures |Stream(added)| + |Loop(order, s).buffer| <= |s.buffer|
    decreases |s.buffer|
  {
    if Stuck(order, s.buffer) {
      added := [];
    } else {
      var a, s' := Next(order, s.buffer), Iterate(order, s);
      var later := LoopBudget(order, s');
      var first := Messages(a.Output(s.base));
      MessagesAppend(s.deliveries, a.Output(s.base));
      ConcatAssociative(Messages(s.deliveries), first, later);
      StreamAppend(first, later);
      OutputFits(a, s.base);
      added := first + later;
    }
  }

  lemma OutputFits(a: Action, base: nat)
    ensures |Stream(Messages(a.Output(base)))| <= a.Size()
  {
    if a.Deliver? {
      var ms := Messages(a.Output(base));
      assert ms == [a.message] && ms[1..] == [];
    }
  }

  lemma {:induction false} FeedAllBudget(order: ByteOrder, s: Receiver, chunks: seq<seq<byte>>)
    returns (added: seq<Message>)
    ensures Messages(FeedAll(order, s, chunks).deliveries) == Messages(s.deliveries) + added
    ensures |Stream(added)| <= |s.buffer| + |Flatten(chunks)|
    decreases |chunks|
  {
    if chunks == [] {
      added := [];
    } else {
      var first := LoopBudget(order, Append(s, chunks[0]));
      var later := FeedAllBudget(order, Feed(order, s, chunks[0]), chunks[1..]);
      ConcatAssociative(Messages(s.deliveries), first, later);
      StreamAppend(first, later);
      added := first + later;
    }
  }

  lemma PrefixCancels(before: seq<Message>, xs: seq<Message>, ys: seq<Message>)
    ensures before + xs == before + ys <==> xs == ys
  {
    assert (before + xs)[|before|..] == xs;
    assert (before + ys)[|before|..] == ys;
  }

  /** Fewer bytes than the frames have cannot deliver them all. */
  lemma TooFewBytes(order: ByteOrder, s: Receiver, ms: seq<Message>, chunks: seq<seq<byte>>)
    requires |s.buffer| + |Flatten(chunks)| < |Stream(ms)|
    ensures Messages(FeedAll(order, s, chunks).deliveries) != Messages(s.deliveries) + ms
  {
    var added := FeedAllBudget(order, s, chunks);
    PrefixCancels(Messages(s.deliveries), added, ms);
  }

  /** A call that ends no more than three bytes into the first frame, with 20 bytes
      or more in the buffer, empties it. */
  lemma GarbageIsDropped(s: Receiver, garbage: seq<byte>, stream: seq<byte>)
    requires HEADER_SIZE <= |s.buffer| < |garbage| + 4 && s.buffer <= garbage + stream
    requires NoMagicBefore(garbage + stream, |garbage|)
    ensures Loop(BigEndian, s) == Receiver(s.deliveries, s.base + |s.buffer|, [])
  {
    var b := s.buffer;
    forall k {:trigger Word(b, k)} | 0 <= k && k + 4 <= |b|
      ensures Word(b, k) != MESSAGE_MAGIC
    {
      assert b[k..k + 4] == (garbage + stream)[k..k + 4];
      ValueLocal(b, k, garbage + stream, k, 4);
      assert Word(garbage + stream, k) != MESSAGE_MAGIC;
    }
    ResyncStep(BigEndian, s);
    var s' := Iterate(BigEndian, s);
    assert s'.buffer == [];
  }

  /** Once four bytes of the first frame are there with 20 bytes in the buffer, the
      search goes straight to it. */
  lemma GarbageIsSkipped(s: Receiver, garbage: seq<byte>, ms: seq<Message>, chunks: seq<seq<byte>>)
    requires AllFramed(ms) && AllIntact(ms) && ms != [] && chunks != []
    requires s.buffer + Flatten(chunks) == garbage + Stream(ms)
    requires NoMagicBefore(garbage + Stream(ms), |garbage|)
    requires HEADER_SIZE <= |s.buffer + chunks[0]| && |garbage| + 4 <= |s.buffer + chunks[0]|
    ensures Messages(FeedAll(BigEndian, s, chunks).deliveries) == Messages(s.deliveries) + ms
  {
    hide Loop, Stream, FeedAll, AllFramed, AllIntact, NoMagicBefore;
    var s1 := Append(s, chunks[0]);
    var seen := s1.buffer[|garbage|..];
    var rest := Flatten(chunks[1..]);
    ConcatAssociative(s.buffer, chunks[0], rest);
    SplitAfter(s1.buffer, rest, garbage, Stream(ms));
    if garbage == [] {
      assert s1 == Receiver(s1.deliveries, s1.base + |garbage|, seen);
    } else {
      SearchFindsFrame(s1, garbage, seen, rest, ms);
    }
    GoesOnAt(s, chunks, s.base + |garbage|, seen, ms);
  }

  /** A run that has come to the bytes `seen` of the stream goes on as a fresh one. */
  lemma GoesOnAt(s: Receiver, chunks: seq<seq<byte>>, base: nat, seen: seq<byte>, ms: seq<Message>)
    requires AllFramed(ms) && AllIntact(ms) && chunks != [] && seen + Flatten(chunks[1..]) == Stream(ms)
    requires Feed(BigEndian, s, chunks[0]) == Loop(BigEndian, Receiver(s.deliveries, base, seen))
    ensures Messages(FeedAll(BigEndian, s, chunks).deliveries) == Messages(s.deliveries) + ms
  {
    hide Loop, Stream, AllFramed, AllIntact;
    var s0 := Receiver(s.deliveries, base, []);
    assert Append(s0, seen) == Receiver(s.deliveries, base, seen);
    var chunks' := [seen] + chunks[1..];
    assert chunks'[0] == seen && chunks'[1..] == chunks[1..];
    IntactStreamUnderAnyChunking(BigEndian, s0, ms, chunks');
  }

  lemma SplitAfter(x: seq<byte>, y: seq<byte>, a: seq<byte>, b: seq<byte>)
    requires x + y == a + b && |a| <= |x|
    ensures x == a + x[|a|..] && x[|a|..] + y == b
  {
    assert x[..|a|] == (x + y)[..|a|] == a;
    assert x[|a|..] + y == (x + y)[|a|..] == (a + b)[|a|..] == b;
  }

  lemma SearchFindsFrame(s: Receiver, garbage: seq<byte>, seen: seq<byte>, rest: seq<byte>, ms: seq<Message>)
    requires AllFramed(ms) && ms != [] && garbage != []
    requires s.buffer == garbage + seen && seen + rest == Stream(ms)
    requires |s.buffer| >= HEADER_SIZE && |seen| >= 4 && NoMagicBefore(garbage + Stream(ms), |garbage|)
    ensures Loop(BigEndian, s) == Loop(BigEndian, Receiver(s.deliveries, s.base + |garbage|, seen))
  {
    hide Loop, Stream, AllFramed, Word;
    MagicBehind(garbage, ms);
    ConcatAssociative(garbage, seen, rest);
    WordsOfPrefix(s.buffer, rest);
    SearchFinds(s, |garbage|);
    assert s.buffer[|garbage|..] == seen;
  }

  lemma SearchFinds(s: Receiver, n: nat)
    requires HEADER_SIZE <= |s.buffer| && 0 < n && n + 4 <= |s.buffer|
    requires NoMagicBefore(s.buffer, n) && Word(s.buffer, n) == MESSAGE_MAGIC
    ensures Loop(BigEndian, s) == Loop(BigEndian, Receiver(s.deliveries, s.base + n, s.buffer[n..]))
  {
    hide Loop, Word;
    assert Word(s.buffer, 0) != MESSAGE_MAGIC;
    ResyncStep(BigEndian, s);
    assert Iterate(BigEndian, s) == Receiver(s.deliveries, s.base + n, s.buffer[n..]);
    LoopIterates(BigEndian, s);
  }

  lemma LoopIterates(order: ByteOrder, s: Receiver)
    requires !Stuck(order, s.buffer)
    ensures Loop(order, s) == Loop(order, Iterate(order, s))
  {}

  lemma MagicBehind(garbage: seq<byte>, ms: seq<Message>)
    requires AllFramed(ms) && ms != []
    ensures |Stream(ms)| >= 4 && Word(garbage + Stream(ms), |garbage|) == MESSAGE_MAGIC
  {
    NextOnFrame(BigEndian, ms[0], Stream(ms[1..]));
    WordOfSuffix(garbage + Stream(ms), |garbage|);
    assert (garbage + Stream(ms))[|garbage|..] == Stream(ms);
  }

  lemma WordsOfPrefix(a: seq<byte>, b: seq<byte>)
    ensures forall k: nat {:trigger Word(a, k)} :: k + 4 <= |a| ==> Word(a, k) == Word(a + b, k)
  {
    forall k: nat {:trigger Word(a, k)} | k + 4 <= |a|
      ensures Word(a, k) == Word(a + b, k)
    {
      assert a[k..k + 4] == (a + b)[k..k + 4];
      ValueLocal(a, k, a + b, k, 4);
    }
  }

  lemma StreamIsLong(ms: seq<Message>)
    requires ms != []
    ensures |Stream(ms)| >= HEADER_SIZE
  {}

  /** Garbage in front of good frames on a big-endian host, under any chunking, and
      with under 20 bytes in the buffer already: all the frames are delivered,
      in order, if and only if no call that searches for the magic ends inside the
      magic of the first frame. Only the sizes of the chunks count, and garbage that
      calls before that drop does no harm. */
  lemma {:induction false} GarbageThenFramesInChunks(s: Receiver, garbage: seq<byte>, ms: seq<Message>,
                                                     chunks: seq<seq<byte>>)
    requires ms != [] && AllFramed(ms) && AllIntact(ms) && |s.buffer| < HEADER_SIZE
    requires s.buffer + Flatten(chunks) == garbage + Stream(ms)
    requires NoMagicBefore(garbage + Stream(ms), |garbage|)
    ensures Messages(FeedAll(BigEndian, s, chunks).deliveries) == Messages(s.deliveries) + ms
       <==> !CutsMagic(chunks, |garbage| - |s.buffer|, |s.buffer|)
    decreases |chunks|
  {
    hide Stream, AllFramed, AllIntact, NoMagicBefore, Loop;
    StreamIsLong(ms);
    assert chunks != [];
    var c, rest := chunks[0], Flatten(chunks[1..]);
    var s1 := Append(s, c);
    ConcatAssociative(s.buffer, c, rest);
    if |s1.buffer| < HEADER_SIZE {
      QuiescentIffUnchanged(BigEndian, s1);
      GarbageThenFramesInChunks(s1, garbage, ms, chunks[1..]);
    } else if |s1.buffer| >= |garbage| + 4 {
      GarbageIsSkipped(s, garbage, ms, chunks);
    } else {
      GarbageIsDropped(s1, garbage, Stream(ms));
      var s2 := Feed(BigEndian, s, c);
      if |s1.buffer| <= |garbage| {
        var garbage' := garbage[|s1.buffer|..];
        SplitAfter(garbage, Stream(ms), s1.buffer, rest);
        NoMagicInSuffix(garbage, Stream(ms), |s1.buffer|);
        GarbageThenFramesInChunks(s2, garbage', ms, chunks[1..]);
      } else {
        TooFewBytes(BigEndian, s2, ms, chunks[1..]);
      }
    }
  }

  lemma NoMagicInSuffix(garbage: seq<byte>, stream: seq<byte>, n: nat)
    requires n <= |garbage| && NoMagicBefore(garbage + stream, |garbage|)
    ensures NoMagicBefore(garbage[n..] + stream, |garbage| - n)
  {
    var a, b := garbage + stream, garbage[n..] + stream;
    assert a[n..] == b;
    forall k {:trigger Word(b, k)} | 0 <= k < |garbage| - n && k + 4 <= |b|
      ensures Word(b, k) != MESSAGE_MAGIC
    {
      assert b[k..k + 4] == a[n + k..n + k + 4];
      ValueLocal(b, k, a, n + k, 4);
      assert Word(a, n + k) != MESSAGE_MAGIC;
    }
  }
}
