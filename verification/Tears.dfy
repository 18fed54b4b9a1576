/** Frames torn off in the middle of a stream: which torn bytes the receiver gets
    over, under every chunking, and which cost it the frame behind them. */
module Tears {
  import opened Bytes
  import opened Wrappers
  import opened Framing
  import opened StreamLaws
  import opened FrameStreams

  const LAST_OF_MAGIC: byte := 0x49

  /** The torn bytes a receiver can skip: none, or, on a big-endian host, at most 16
      bytes without the last byte of the magic. Then any 20 bytes that begin in
      them hold the whole magic of the next frame, and no earlier one. */
  predicate Harmless(order: ByteOrder, gap: seq<byte>) {
    gap == [] || (order.BigEndian? && |gap| <= HEADER_SIZE - 4 && LAST_OF_MAGIC !in gap)
  }

  /** A frame on the wire and the torn bytes in front of it. */
  datatype Frame = Frame(gap: seq<byte>, message: Message)

  function FrameBytes(f: Frame): seq<byte> {
    f.gap + Encode(f.message)
  }

  predicate GoodFrame(order: ByteOrder, f: Frame) {
    Harmless(order, f.gap) && WellFramed(f.message) && Intact(f.message)
  }

  ghost predicate AllGood(order: ByteOrder, fs: seq<Frame>) {
    forall i :: 0 <= i < |fs| ==> GoodFrame(order, fs[i])
  }

  function TornStream(fs: seq<Frame>): seq<byte> {
    if fs == [] then [] else FrameBytes(fs[0]) + TornStream(fs[1..])
  }

  function FrameMessages(fs: seq<Frame>): (ms: seq<Message>)
    ensures |ms| == |fs|
  {
    if fs == [] then [] else [fs[0].message] + FrameMessages(fs[1..])
  }

  /** Their deliveries, when the stream starts at offset `base`. */
  function FrameDeliveries(base: nat, fs: seq<Frame>): seq<Delivery>
    decreases |fs|
  {
    if fs == [] then
      []
    else
      [Delivery(base + |fs[0].gap|, fs[0].message)] + FrameDeliveries(base + |FrameBytes(fs[0])|, fs[1..])
  }

  function AfterFrames(s: Receiver, fs: seq<Frame>, tail: seq<byte>): Receiver {
    Receiver(s.deliveries + FrameDeliveries(s.base, fs), s.base + |TornStream(fs)|, tail)
  }

  lemma {:induction false} TornStreamMore(fs: seq<Frame>, f: Frame)
    ensures TornStream(fs + [f]) == TornStream(fs) + FrameBytes(f)
    decreases |fs|
  {
    if fs == [] {
      assert (fs + [f])[1..] == [];
    } else {
      assert (fs + [f])[1..] == fs[1..] + [f];
      TornStreamMore(fs[1..], f);
      ConcatAssociative(FrameBytes(fs[0]), TornStream(fs[1..]), FrameBytes(f));
    }
  }

  lemma {:induction false} FrameMessagesTake(fs: seq<Frame>, k: nat)
    requires k <= |fs|
    ensures FrameMessages(fs[..k]) == FrameMessages(fs)[..k]
    decreases |fs|
  {
    if k > 0 {
      assert fs[..k][1..] == fs[1..][..k - 1];
      FrameMessagesTake(fs[1..], k - 1);
    }
  }

  lemma {:induction false} FrameDeliveriesAre(base: nat, fs: seq<Frame>)
    ensures Messages(FrameDeliveries(base, fs)) == FrameMessages(fs)
    decreases |fs|
  {
    if fs != [] {
      FrameDeliveriesAre(base + |FrameBytes(fs[0])|, fs[1..]);
      var first := [Delivery(base + |fs[0].gap|, fs[0].message)];
      MessagesAppend(first, FrameDeliveries(base + |FrameBytes(fs[0])|, fs[1..]));
      assert Messages(first) == [fs[0].message];
    }
  }

  // ---------- skipping torn bytes ----------

  /** The bytes start with the magic. */
  predicate StartsWithMagic(b: seq<byte>) {
    |b| >= 4 && b[0] == 0x55 && b[1] == 0x53 && b[2] == 0x42 && b[3] == LAST_OF_MAGIC
  }

  lemma MagicBytes(b: seq<byte>)
    requires |b| >= 4
    ensures StartsWithMagic(b) <==> Word(b, 0) == MESSAGE_MAGIC
  {
    ValueOfFour(b, 0);
  }

  lemma FrameStartsWithMagic(m: Message, n: nat)
    requires WellFramed(m) && 4 <= n <= FrameSize(m)
    ensures StartsWithMagic(Encode(m)) && StartsWithMagic(Encode(m)[..n])
  {
    DecodeEncodeHeader(m.header, m.payload);
    MagicBytes(Encode(m));
  }

  /** The resync search goes from the torn bytes straight to the next magic. */
  lemma SkipGap(s: Receiver, gap: seq<byte>, rest: seq<byte>)
    requires gap != [] && Harmless(BigEndian, gap) && StartsWithMagic(rest)
    requires s.buffer == gap + rest && |s.buffer| >= HEADER_SIZE
    ensures !Stuck(BigEndian, s.buffer) && !Empties(BigEndian, s.buffer)
    ensures Iterate(BigEndian, s) == Receiver(s.deliveries, s.base + |gap|, rest)
    ensures Next(BigEndian, s.buffer).Size() == |gap| && s.buffer[|gap|..] == rest
  {
    var b := s.buffer;
    assert b[3] != LAST_OF_MAGIC;
    MagicBytes(b);
    var pattern := ResyncPattern(BigEndian);
    PatternBytes(BigEndian);
    assert MatchAt(b, pattern, |gap|);
    forall k | 1 <= k < |gap|
      ensures !MatchAt(b, pattern, k)
    {
      assert k + 3 < |b| ==> b[k + 3] != LAST_OF_MAGIC;
    }
    assert FirstMatch(b, pattern, 1) == |gap|;
    assert b[|gap|..] == rest;
  }

  /** One iteration takes the torn bytes off, and the loop goes on at the magic. */
  lemma LoopSkipsGap(order: ByteOrder, s: Receiver, gap: seq<byte>, rest: seq<byte>)
    requires Harmless(order, gap) && StartsWithMagic(rest)
    requires s.buffer == gap + rest && |s.buffer| >= HEADER_SIZE
    ensures Loop(order, s) == Loop(order, Receiver(s.deliveries, s.base + |gap|, rest))
    ensures Clears(order, s.buffer) <==> Clears(order, rest)
  {
    if gap == [] {
      assert s.buffer == rest;
      assert s == Receiver(s.deliveries, s.base + |gap|, rest);
    } else {
      SkipGap(s, gap, rest);
    }
  }

  lemma LoopOnIntact(order: ByteOrder, s: Receiver, m: Message, tail: seq<byte>)
    requires WellFramed(m) && Intact(m) && s.buffer == Encode(m) + tail
    ensures var s' := Receiver(s.deliveries + [Delivery(s.base, m)], s.base + FrameSize(m), tail);
            Loop(order, s) == Loop(order, s')
    ensures Clears(order, s.buffer) <==> Clears(order, tail)
  {
    hide Next, Stuck, DecodeHeader, Encode;
    NextOnFrame(order, m, tail);
    assert Iterate(order, s).buffer == tail;
  }

  /** The receiver after the frame `f`, with `tail` still unread. */
  function AfterFrame(s: Receiver, f: Frame, tail: seq<byte>): Receiver {
    Receiver(s.deliveries + [Delivery(s.base + |f.gap|, f.message)], s.base + |FrameBytes(f)|, tail)
  }

  lemma FrameAsBytes(f: Frame, tail: seq<byte>)
    requires WellFramed(f.message)
    ensures FrameBytes(f) + tail == f.gap + (Encode(f.message) + tail)
    ensures |FrameBytes(f)| == |f.gap| + FrameSize(f.message)
    ensures StartsWithMagic(Encode(f.message) + tail)
  {
    hide Encode;
    ConcatAssociative(f.gap, Encode(f.message), tail);
    FrameStartsWithMagic(f.message, FrameSize(f.message));
  }

  /** A good frame behind harmless torn bytes is delivered, and nothing else. */
  lemma LoopOnFrame(order: ByteOrder, s: Receiver, f: Frame, tail: seq<byte>)
    requires GoodFrame(order, f) && s.buffer == FrameBytes(f) + tail
    ensures Loop(order, s) == Loop(order, AfterFrame(s, f, tail))
    ensures Clears(order, s.buffer) <==> Clears(order, tail)
  {
    hide Loop, Clears, Harmless, Encode, WellFramed, Intact, StartsWithMagic;
    var rest := Encode(f.message) + tail;
    FrameAsBytes(f, tail);
    LoopSkipsGap(order, s, f.gap, rest);
    LoopOnIntact(order, Receiver(s.deliveries, s.base + |f.gap|, rest), f.message, tail);
  }

  lemma AfterFirst(s: Receiver, fs: seq<Frame>, later: seq<byte>, tail: seq<byte>)
    requires fs != []
    ensures AfterFrames(AfterFrame(s, fs[0], later), fs[1..], tail) == AfterFrames(s, fs, tail)
  {
    var first := [Delivery(s.base + |fs[0].gap|, fs[0].message)];
    ConcatAssociative(s.deliveries, first, FrameDeliveries(s.base + |FrameBytes(fs[0])|, fs[1..]));
  }

  lemma {:induction false} LoopOnFrames(order: ByteOrder, s: Receiver, fs: seq<Frame>, tail: seq<byte>)
    requires AllGood(order, fs) && s.buffer == TornStream(fs) + tail
    ensures Loop(order, s) == Loop(order, AfterFrames(s, fs, tail))
    ensures Clears(order, s.buffer) <==> Clears(order, tail)
    decreases |fs|
  {
    hide Loop, Clears;
    if fs == [] {
      assert s.buffer == tail;
      assert s == AfterFrames(s, fs, tail);
    } else {
      var later := TornStream(fs[1..]) + tail;
      ConcatAssociative(FrameBytes(fs[0]), TornStream(fs[1..]), tail);
      LoopOnFrame(order, s, fs[0], later);
      LoopOnFrames(order, AfterFrame(s, fs[0], later), fs[1..], tail);
      AfterFirst(s, fs, later, tail);
    }
  }

  /** `kept` is what is left of `rest` when harmless torn bytes at its front are dropped. */
  ghost predicate AllButHarmless(order: ByteOrder, rest: seq<byte>, kept: seq<byte>) {
    exists k :: 0 <= k <= |rest| && Harmless(order, rest[..k]) && kept == rest[k..]
  }

  lemma QuiescentWaits(order: ByteOrder, s: Receiver)
    requires Quiescent(s.buffer)
    ensures Loop(order, s) == s && !Clears(order, s.buffer)
  {}

  lemma AllKept(order: ByteOrder, rest: seq<byte>)
    ensures AllButHarmless(order, rest, rest)
  {
    assert rest[..0] == [] && rest == rest[0..];
  }

  lemma GapDropped(order: ByteOrder, gap: seq<byte>, kept: seq<byte>)
    requires Harmless(order, gap)
    ensures AllButHarmless(order, gap + kept, kept)
  {
    assert (gap + kept)[..|gap|] == gap && (gap + kept)[|gap|..] == kept;
  }

  /** The receiver waits on a frame that is still incomplete: nothing is delivered
      or cleared, and nothing is dropped but harmless torn bytes. */
  lemma RestWaits(order: ByteOrder, s: Receiver)
    requires PartOfFrame(order, s.buffer)
    ensures !Clears(order, s.buffer)
    ensures Loop(order, s).deliveries == s.deliveries
    ensures AllButHarmless(order, s.buffer, Loop(order, s).buffer)
  {
    hide AllButHarmless, Harmless, Encode, WellFramed, Loop, Clears;
    AllKept(order, s.buffer);
    if |s.buffer| < HEADER_SIZE {
      QuiescentWaits(order, s);
    } else {
      var gap, m, n := PartOfWhich(order, s.buffer);
      HarmlessIsShort(order, gap);
      var rest := Encode(m)[..n - |gap|];
      TakeOfConcat(gap, Encode(m), n);
      FrameStartsWithMagic(m, n - |gap|);
      LoopSkipsGap(order, s, gap, rest);
      PartOfFrameWaits(order, m, n - |gap|);
      QuiescentWaits(order, Receiver(s.deliveries, s.base + |gap|, rest));
      GapDropped(order, gap, rest);
    }
  }

  lemma HarmlessIsShort(order: ByteOrder, gap: seq<byte>)
    requires Harmless(order, gap)
    ensures |gap| <= HEADER_SIZE - 4
  {}

  /** A proper prefix of a well-framed frame makes the receiver wait. */
  lemma PartOfFrameWaits(order: ByteOrder, m: Message, d: nat)
    requires WellFramed(m) && d < FrameSize(m)
    ensures Quiescent(Encode(m)[..d])
    ensures Stuck(order, Encode(m)[..d])
  {
    var part, rest := Encode(m)[..d], Encode(m)[d..];
    assert Encode(m) == part + rest;
    if d >= HEADER_SIZE {
      DecodeHeaderAppend(part, rest);
      DecodeEncodeHeader(m.header, m.payload);
    }
  }

  // ---------- cutting such a stream ----------

  /** How many frames lie completely in the first `n` bytes. */
  function Complete(fs: seq<Frame>, n: nat): (k: nat)
    ensures k <= |fs|
  {
    if fs == [] || n < |FrameBytes(fs[0])| then 0 else 1 + Complete(fs[1..], n - |FrameBytes(fs[0])|)
  }

  /** `rest` is a part of a good frame and the torn bytes in front of it. */
  ghost predicate PartOfFrame(order: ByteOrder, rest: seq<byte>) {
    exists gap, m, n :: IsPartOf(order, rest, gap, m, n)
  }

  ghost predicate IsPartOf(order: ByteOrder, rest: seq<byte>, gap: seq<byte>, m: Message, n: int) {
    Harmless(order, gap) && WellFramed(m) && 0 <= n < |gap| + FrameSize(m) && rest == (gap + Encode(m))[..n]
  }

  lemma PartOfWhich(order: ByteOrder, rest: seq<byte>) returns (gap: seq<byte>, m: Message, n: nat)
    requires PartOfFrame(order, rest)
    ensures IsPartOf(order, rest, gap, m, n)
  {
    gap, m, n :| IsPartOf(order, rest, gap, m, n);
  }

  lemma PartOfPart(order: ByteOrder, rest: seq<byte>, n: nat)
    requires PartOfFrame(order, rest) && n <= |rest|
    ensures PartOfFrame(order, rest[..n])
  {
    var gap, m, k := PartOfWhich(order, rest);
    assert IsPartOf(order, rest[..n], gap, m, n);
  }

  lemma PartOfGood(order: ByteOrder, f: Frame, n: nat)
    requires GoodFrame(order, f) && n < |FrameBytes(f)|
    ensures PartOfFrame(order, FrameBytes(f)[..n])
  {
    assert IsPartOf(order, FrameBytes(f)[..n], f.gap, f.message, n);
  }

  lemma NothingIsAPart(order: ByteOrder)
    ensures PartOfFrame(order, [])
  {
    assert IsPartOf(order, [], [], EmptyFrame(0), 0);
  }

  /** The first `n` bytes are the complete frames and `rest`, a part of the next one. */
  ghost predicate IsCut(order: ByteOrder, fs: seq<Frame>, tail: seq<byte>, n: nat, rest: seq<byte>)
    requires n <= |TornStream(fs) + tail|
  {
    && (TornStream(fs) + tail)[..n] == TornStream(fs[..Complete(fs, n)]) + rest
    && PartOfFrame(order, rest)
    && (n == |TornStream(fs) + tail| ==> Complete(fs, n) == |fs| && rest == tail)
  }

  lemma CutInFirst(order: ByteOrder, fs: seq<Frame>, tail: seq<byte>, n: nat)
    requires fs != [] && GoodFrame(order, fs[0]) && n < |FrameBytes(fs[0])|
    ensures n <= |TornStream(fs) + tail| && IsCut(order, fs, tail, n, FrameBytes(fs[0])[..n])
  {
    PartOfGood(order, fs[0], n);
  }

  lemma TakeBehindFirst(fs: seq<Frame>, tail: seq<byte>, n: nat)
    requires fs != [] && n <= |TornStream(fs[1..]) + tail|
    ensures (TornStream(fs) + tail)[..|FrameBytes(fs[0])| + n]
         == FrameBytes(fs[0]) + (TornStream(fs[1..]) + tail)[..n]
  {
    ConcatAssociative(FrameBytes(fs[0]), TornStream(fs[1..]), tail);
  }

  lemma TornStreamOfCons(fs: seq<Frame>, k: nat, rest: seq<byte>)
    requires fs != [] && k < |fs|
    ensures TornStream(fs[..k + 1]) + rest == FrameBytes(fs[0]) + (TornStream(fs[1..][..k]) + rest)
  {
    assert fs[..k + 1][1..] == fs[1..][..k];
    ConcatAssociative(FrameBytes(fs[0]), TornStream(fs[1..][..k]), rest);
  }

  lemma CutBehindFirst(order: ByteOrder, fs: seq<Frame>, tail: seq<byte>, n: nat, rest: seq<byte>)
    requires fs != [] && n <= |TornStream(fs[1..]) + tail| && IsCut(order, fs[1..], tail, n, rest)
    ensures |FrameBytes(fs[0])| + n <= |TornStream(fs) + tail|
    ensures IsCut(order, fs, tail, |FrameBytes(fs[0])| + n, rest)
  {
    hide PartOfFrame, FrameBytes;
    var size, later := |FrameBytes(fs[0])|, TornStream(fs[1..]) + tail;
    TakeBehindFirst(fs, tail, n);
    TornStreamOfCons(fs, Complete(fs[1..], n), rest);
    assert size + n == |TornStream(fs) + tail| <==> n == |later|;
  }

  lemma CutTail(order: ByteOrder, tail: seq<byte>, n: nat)
    requires PartOfFrame(order, tail) && n <= |TornStream([]) + tail|
    ensures IsCut(order, [], tail, n, tail[..n])
  {
    hide PartOfFrame;
    PartOfPart(order, tail, n);
    assert TornStream([]) + tail == tail && TornStream([]) + tail[..n] == tail[..n];
  }

  /** Every prefix of the stream can be cut so. */
  lemma {:induction false} CutFrames(order: ByteOrder, fs: seq<Frame>, tail: seq<byte>, n: nat)
    returns (rest: seq<byte>)
    requires AllGood(order, fs) && PartOfFrame(order, tail) && n <= |TornStream(fs) + tail|
    ensures IsCut(order, fs, tail, n, rest)
    decreases |fs|
  {
    hide IsCut, PartOfFrame, GoodFrame, FrameBytes;
    if fs == [] {
      rest := tail[..n];
      CutTail(order, tail, n);
    } else {
      var size := |FrameBytes(fs[0])|;
      if n < size {
        rest := FrameBytes(fs[0])[..n];
        CutInFirst(order, fs, tail, n);
      } else {
        rest := CutFrames(order, fs[1..], tail, n - size);
        CutBehindFirst(order, fs, tail, n - size, rest);
      }
    }
  }

  /** No prefix of such a stream is ever cleared. */
  lemma TornStreamNeverClears(order: ByteOrder, fs: seq<Frame>, tail: seq<byte>, n: nat)
    requires AllGood(order, fs) && PartOfFrame(order, tail) && n <= |TornStream(fs) + tail|
    ensures !Clears(order, (TornStream(fs) + tail)[..n])
  {
    var rest := CutFrames(order, fs, tail, n);
    var k := Complete(fs, n);
    LoopOnFrames(order, Receiver([], 0, TornStream(fs[..k]) + rest), fs[..k], rest);
    RestWaits(order, Receiver([], 0, rest));
  }

  /** What a receiver makes of the stream in one piece. */
  lemma FeedTornStream(order: ByteOrder, fs: seq<Frame>, tail: seq<byte>)
    requires AllGood(order, fs) && PartOfFrame(order, tail)
    ensures var r := Feed(order, FRESH, TornStream(fs) + tail);
            Messages(r.deliveries) == FrameMessages(fs) && AllButHarmless(order, tail, r.buffer)
  {
    hide PartOfFrame, AllButHarmless, AllGood, Loop, Clears, TornStream;
    var s := Append(FRESH, TornStream(fs) + tail);
    assert s.buffer == TornStream(fs) + tail;
    LoopOnFrames(order, s, fs, tail);
    RestWaits(order, AfterFrames(s, fs, tail));
    FrameDeliveriesAre(0, fs);
    assert [] + FrameDeliveries(0, fs) == FrameDeliveries(0, fs);
  }

  /** However a stream of intact frames with harmless torn bytes between them is
      cut into chunks: exactly the frames' messages are delivered, in order, and
      the buffer holds the incomplete rest but for harmless torn bytes. */
  lemma TornStreamUnderAnyChunking(order: ByteOrder, fs: seq<Frame>, tail: seq<byte>, chunks: seq<seq<byte>>)
    requires AllGood(order, fs) && PartOfFrame(order, tail) && Flatten(chunks) == TornStream(fs) + tail
    ensures var r := FeedAll(order, FRESH, chunks);
            Messages(r.deliveries) == FrameMessages(fs) && AllButHarmless(order, tail, r.buffer)
  {
    var whole := TornStream(fs) + tail;
    assert FRESH.buffer + Flatten(chunks) == whole;
    forall n | 0 <= n <= |whole|
      ensures !Clears(order, whole[..n])
    {
      TornStreamNeverClears(order, fs, tail, n);
    }
    PrefixesNeverClear(order, FRESH, chunks);
    ChunkingWithoutClearing(order, FRESH, chunks);
    FeedTornStream(order, fs, tail);
  }

  // ---------- exactly which tears are harmless ----------

  /** Whatever intact frame follows the torn bytes, and however the stream is cut,
      the receiver delivers that frame and nothing else. */
  ghost predicate Recovers(order: ByteOrder, gap: seq<byte>) {
    forall l, chunks: seq<seq<byte>> :: WellFramed(l) && Intact(l) && Flatten(chunks) == gap + Encode(l) ==>
      Messages(FeedAll(order, FRESH, chunks).deliveries) == [l]
  }

  lemma HarmlessRecovers(order: ByteOrder, gap: seq<byte>)
    requires Harmless(order, gap)
    ensures Recovers(order, gap)
  {
    forall l, chunks: seq<seq<byte>> | WellFramed(l) && Intact(l) && Flatten(chunks) == gap + Encode(l)
      ensures Messages(FeedAll(order, FRESH, chunks).deliveries) == [l]
    {
      var fs := [Frame(gap, l)];
      assert fs[1..] == [];
      assert TornStream(fs) == gap + Encode(l) == TornStream(fs) + [];
      NothingIsAPart(order);
      TornStreamUnderAnyChunking(order, fs, [], chunks);
      assert FrameMessages(fs) == [l];
    }
  }

  /** An empty intact frame of the given kind. */
  function EmptyFrame(kind: uint32): (m: Message)
    ensures WellFramed(m) && Intact(m) && FrameSize(m) == HEADER_SIZE
  {
    Message(Header(MESSAGE_MAGIC, kind, 0, 0, 0), [])
  }

  lemma KindBytes(m: Message)
    ensures Word(Encode(m), 4) == m.header.kind && Encode(m)[7] == m.header.kind % 0x100
  {
    DecodeEncodeHeader(m.header, m.payload);
    WordLastByte(Encode(m), 4);
  }

  /** A message as long as the header of a torn frame says, behind that header,
      is not the frame that came after it. */
  lemma FirstIsMixed(order: ByteOrder, s: Receiver, l: Message)
    requires s.deliveries == [] && |s.buffer| >= HEADER_SIZE && l.payload == []
    requires Word(s.buffer, 0) == MESSAGE_MAGIC && Word(s.buffer, 4) != l.header.kind
    requires Word(s.buffer, 8) > MAX_MESSAGE_SIZE ==> |s.buffer| < 2 * HEADER_SIZE
    requires Word(s.buffer, 8) <= MAX_MESSAGE_SIZE ==> |s.buffer| - Word(s.buffer, 8) < 2 * HEADER_SIZE
    ensures Messages(Loop(order, s).deliveries) != [l]
  {
    if !Stuck(order, s.buffer) {
      var a, s' := Next(order, s.buffer), Iterate(order, s);
      assert |s'.buffer| < HEADER_SIZE;
      assert Loop(order, s) == s' && s'.deliveries == a.Output(s.base);
      assert a.Deliver? ==> a.message.header.kind == Word(s.buffer, 4) && Messages(s'.deliveries)[0] == a.message;
    }
  }

  lemma MixedKind(m: Message, d: nat, l: Message)
    requires WellFramed(m) && 4 <= d < FrameSize(m)
    requires l == EmptyFrame(if m.header.kind == 0 then 0x100 else 0)
    ensures Word(Encode(m)[..d] + Encode(l), 4) != l.header.kind
  {
    hide Encode;
    var b := Encode(m)[..d] + Encode(l);
    KindBytes(m);
    KindBytes(l);
    FrameStartsWithMagic(l, 4);
    if d < 8 {
      WordLastByte(b, 4);
      assert b[7] == Encode(l)[7 - d];
    } else {
      assert b[4..8] == Encode(m)[4..8];
      ValueLocal(b, 4, Encode(m), 4, 4);
    }
  }

  lemma LengthOfTorn(m: Message, d: nat, rest: seq<byte>)
    requires WellFramed(m) && HEADER_SIZE <= d < FrameSize(m)
    ensures Word(Encode(m)[..d] + rest, 8) == |m.payload|
  {
    var b := Encode(m)[..d] + rest;
    assert b == EncodeHeader(m.header) + b[HEADER_SIZE..];
    DecodeEncodeHeader(m.header, b[HEADER_SIZE..]);
  }

  /** A frame torn behind its magic swallows the start of the next frame, so some
      next frame is not delivered. */
  lemma LongTearMixes(order: ByteOrder, s: Receiver, m: Message, d: nat, l: Message)
    requires WellFramed(m) && 4 <= d < FrameSize(m) && s.deliveries == []
    requires l == EmptyFrame(if m.header.kind == 0 then 0x100 else 0)
    requires s.buffer == Encode(m)[..d] + Encode(l)
    ensures Messages(Loop(order, s).deliveries) != [l]
  {
    hide Loop, Encode, Intact;
    var b := s.buffer;
    FrameStartsWithMagic(m, d);
    MagicBytes(b);
    MixedKind(m, d, l);
    if d >= HEADER_SIZE {
      LengthOfTorn(m, d, Encode(l));
    }
    FirstIsMixed(order, s, l);
  }

  lemma NoMagicEmpties(b: seq<byte>)
    requires |b| >= HEADER_SIZE && LAST_OF_MAGIC !in b
    ensures !Stuck(BigEndian, b) && Next(BigEndian, b) == Drop(|b|, BadMagic)
  {
    assert forall i :: 0 <= i < |b| ==> b[i] != LAST_OF_MAGIC;
    MagicBytes(b);
    PatternBytes(BigEndian);
  }

  /** Bytes without the last byte of the magic are all dropped. */
  lemma NoMagicClears(b: seq<byte>)
    requires |b| >= HEADER_SIZE && LAST_OF_MAGIC !in b
    ensures Feed(BigEndian, FRESH, b) == Receiver([], |b|, [])
  {
    hide Next;
    NoMagicEmpties(b);
    assert Stuck(BigEndian, []);
    var s := Append(FRESH, b);
    assert s.buffer == b;
    var s' := Iterate(BigEndian, s);
    assert s' == Receiver([], |b|, []);
    assert Loop(BigEndian, s) == Loop(BigEndian, s') == s';
  }

  lemma FewBytesWait(order: ByteOrder, b: seq<byte>)
    requires |b| < HEADER_SIZE
    ensures forall base: nat :: Feed(order, Receiver([], base, []), b).deliveries == []
  {
    assert [] + b == b;
  }

  lemma TwoChunks(order: ByteOrder, a: seq<byte>, b: seq<byte>) returns (chunks: seq<seq<byte>>)
    ensures Flatten(chunks) == a + b
    ensures FeedAll(order, FRESH, chunks) == Feed(order, Feed(order, FRESH, a), b)
  {
    chunks := [a, b];
    var later := chunks[1..];
    assert later == [b] && later[1..] == [];
    assert Flatten(later) == b;
    var s := Feed(order, FRESH, a);
    assert FeedAll(order, s, later) == FeedAll(order, Feed(order, s, b), later[1..]);
  }

  /** Too many torn bytes: a call can end in the middle of the next magic with no
      whole magic in its buffer, and then empties it. */
  lemma ManyShortTearsClear(gap: seq<byte>, l: Message) returns (chunks: seq<seq<byte>>)
    requires HEADER_SIZE - 4 < |gap| && LAST_OF_MAGIC !in gap && l == EmptyFrame(0)
    ensures Flatten(chunks) == gap + Encode(l) && FeedAll(BigEndian, FRESH, chunks).deliveries == []
  {
    hide Feed, FeedAll, Encode, EmptyFrame;
    var x, y := Encode(l)[..3], Encode(l)[3..];
    FrameStartsWithMagic(l, 4);
    NoMagicClears(gap + x);
    FewBytesWait(BigEndian, y);
    chunks := TwoChunks(BigEndian, gap + x, y);
    ConcatAssociative(gap, x, y);
    assert x + y == Encode(l);
  }

  /** On a little-endian host any short tear costs the next frame. */
  lemma LittleEndianShortTear(gap: seq<byte>, l: Message)
    requires 0 < |gap| && LAST_OF_MAGIC !in gap && WellFramed(l)
    ensures Feed(LittleEndian, FRESH, gap + Encode(l)).deliveries == []
  {
    var s := Append(FRESH, gap + Encode(l));
    assert s.buffer == gap + Encode(l);
    FrameStartsWithMagic(l, 4);
    assert s.buffer[3] != LAST_OF_MAGIC;
    MagicBytes(s.buffer);
    LittleEndianResync(s);
  }

  lemma OneChunk(order: ByteOrder, b: seq<byte>) returns (chunks: seq<seq<byte>>)
    ensures Flatten(chunks) == b && FeedAll(order, FRESH, chunks) == Feed(order, FRESH, b)
  {
    chunks := [b];
    assert chunks[1..] == [];
  }

  lemma ShortTearsCost(order: ByteOrder, gap: seq<byte>)
    requires gap != [] && LAST_OF_MAGIC !in gap && !Harmless(order, gap)
    ensures !Recovers(order, gap)
  {
    hide Feed, FeedAll, Encode, EmptyFrame;
    var l := EmptyFrame(0);
    if order.LittleEndian? {
      LittleEndianShortTear(gap, l);
      var chunks := OneChunk(order, gap + Encode(l));
    } else {
      var chunks := ManyShortTearsClear(gap, l);
    }
  }

  lemma LongTearCosts(order: ByteOrder, gap: seq<byte>, m: Message, d: nat)
    requires Harmless(order, gap) && WellFramed(m) && 4 <= d < FrameSize(m)
    ensures !Recovers(order, gap + Encode(m)[..d])
  {
    hide Loop, Encode, EmptyFrame;
    var part, l := Encode(m)[..d], EmptyFrame(if m.header.kind == 0 then 0x100 else 0);
    ConcatAssociative(gap, part, Encode(l));
    var whole := gap + part + Encode(l);
    var s := Append(FRESH, whole);
    assert s.buffer == gap + (part + Encode(l));
    FrameStartsWithMagic(m, d);
    LoopSkipsGap(order, s, gap, part + Encode(l));
    LongTearMixes(order, Receiver([], |gap|, part + Encode(l)), m, d, l);
    var chunks := OneChunk(order, whole);
  }

  /** Exactly when the receiver gets over a send that fails after `d` bytes of a
      frame, behind torn bytes it could have skipped so far: if and only if these
      bytes together are harmless. */
  lemma TearExact(order: ByteOrder, gap: seq<byte>, m: Message, d: nat)
    requires Harmless(order, gap) && WellFramed(m) && 0 < d < FrameSize(m)
    ensures Recovers(order, gap + Encode(m)[..d]) <==> Harmless(order, gap + Encode(m)[..d])
  {
    var all := gap + Encode(m)[..d];
    if Harmless(order, all) {
      HarmlessRecovers(order, all);
    } else if d >= 4 {
      LongTearCosts(order, gap, m, d);
    } else {
      ShortTear(m, d);
      ShortTearsCost(order, all);
    }
  }

  lemma ShortTear(m: Message, d: nat)
    requires WellFramed(m) && 0 < d <= FrameSize(m)
    ensures LAST_OF_MAGIC !in Encode(m)[..d] <==> d < 4
  {
    FrameStartsWithMagic(m, FrameSize(m));
    if d >= 4 {
      assert Encode(m)[..d][3] == LAST_OF_MAGIC;
    }
  }

  /** The case of a single tear: it is harmless exactly on a big-endian host and
      within the first three bytes. */
  lemma SingleTearExact(order: ByteOrder, m: Message, d: nat)
    requires WellFramed(m) && 0 < d < FrameSize(m)
    ensures Recovers(order, Encode(m)[..d]) <==> order.BigEndian? && d < 4
  {
    assert [] + Encode(m)[..d] == Encode(m)[..d];
    TearExact(order, [], m, d);
    ShortTear(m, d);
  }
}
