/** End to end: one writer sends framed messages over a connected socket, the kernel
    takes and hands over bytes in arbitrary portions, and the receiver parses what
    arrives. Safety over every schedule, also those that go on after a failed send. */
module Wire {
  import opened Bytes
  import opened Framing
  import opened StreamLaws
  import opened FrameStreams
  import opened Tears
  import opened Sockets
  import opened Wrappers

  /** The writer: between two sends, or in a send that has written `done` bytes of
      its message. */
  datatype Writer = Idle | Sending(message: Message, done: nat)

  datatype System = System(
    order: ByteOrder,          // of the receiving host
    sent: seq<Frame>,          // messages whose send returned true, sealed, with the torn bytes before each
    refused: seq<Message>,     // messages whose send returned false
    writer: Writer,
    torn: seq<byte>,           // what failed sends left on the wire since the last accepted message
    misaligned: bool,          // a byte was written behind torn bytes that are not harmless
    written: seq<byte>,        // every byte the sending kernel accepted
    arrived: nat,              // how many of them the receiver got
    receiver: Receiver)

  datatype Event = StartSend(message: Message) | Write(count: nat) | FailSend | Receive(count: nat)

  function Initial(order: ByteOrder): System {
    System(order, [], [], Idle, [], false, [], 0, FRESH)
  }

  predicate Enabled(s: System, e: Event) {
    match e
    case StartSend(m) => s.writer.Idle? && WellFramed(m)
    case Write(k) => s.writer.Sending? && s.writer.done + k <= |Serialize(s.writer.message)|
    case FailSend => s.writer.Sending?
    case Receive(k) => 0 < k <= RECEIVE_BUFFER_SIZE && s.arrived + k <= |s.written|
  }

  /** The bytes written of the message in progress. */
  function Partial(w: Writer): seq<byte> {
    if w.Idle? || w.done > |Serialize(w.message)| then [] else Serialize(w.message)[..w.done]
  }

  /** Everything written behind the last accepted message. */
  function Tail(s: System): seq<byte> {
    s.torn + Partial(s.writer)
  }

  function Step(s: System, e: Event): System
    requires Enabled(s, e)
  {
    match e
    case StartSend(m) =>
      s.(writer := Sending(m, 0))
    case Write(k) =>
      var m, d := s.writer.message, s.writer.done;
      var first := d == 0 && k > 0;
      var s' := s.(written := s.written + Serialize(m)[d..d + k],
                   misaligned := s.misaligned || (first && !Harmless(s.order, s.torn)));
      if d + k == |Serialize(m)| then
        s'.(writer := Idle, sent := s.sent + [Frame(s.torn, Sealed(m))], torn := [])
      else
        s'.(writer := Sending(m, d + k))
    case FailSend =>
      s.(writer := Idle, torn := Tail(s), refused := s.refused + [s.writer.message])
    case Receive(k) =>
      var chunk := s.written[s.arrived..s.arrived + k];
      s.(arrived := s.arrived + k, receiver := Feed(s.order, s.receiver, chunk))
  }

  predicate Schedule(s: System, es: seq<Event>)
    decreases |es|
  {
    es == [] || (Enabled(s, es[0]) && Schedule(Step(s, es[0]), es[1..]))
  }

  function Execute(s: System, es: seq<Event>): System
    requires Schedule(s, es)
    decreases |es|
  {
    if es == [] then s else Execute(Step(s, es[0]), es[1..])
  }

  lemma ExecuteCons(s: System, e: Event, es: seq<Event>)
    requires Enabled(s, e) && Schedule(Step(s, e), es)
    ensures Schedule(s, [e] + es)
    ensures Execute(s, [e] + es) == Execute(Step(s, e), es)
  {
    assert ([e] + es)[1..] == es;
  }

  // ---------- invariant ----------

  /** The messages whose send returned true, as they were put on the wire. */
  function AcceptedMessages(s: System): seq<Message> {
    FrameMessages(s.sent)
  }

  /** What the callback of the receiver has got. */
  function Delivered(s: System): seq<Message> {
    Messages(s.receiver.deliveries)
  }

  ghost predicate WriterOk(w: Writer) {
    w.Sending? ==> WellFramed(w.message) && w.done < |Serialize(w.message)|
  }

  ghost predicate AlignedSystem(s: System) {
    && AllGood(s.order, s.sent)
    && PartOfFrame(s.order, Tail(s))
    && (Partial(s.writer) != [] ==> Harmless(s.order, s.torn))
    && s.arrived <= |s.written|
    && s.written == TornStream(s.sent) + Tail(s)
    && s.receiver == Feed(s.order, FRESH, s.written[..s.arrived])
  }

  ghost predicate Invariant(s: System) {
    && WriterOk(s.writer)
    && s.arrived <= |s.written|
    && Sound(s.written[..s.arrived], s.receiver)
    && (!s.misaligned ==> AlignedSystem(s))
  }

  lemma SealedIsFramed(m: Message)
    requires WellFramed(m)
    ensures WellFramed(Sealed(m)) && Intact(Sealed(m))
  {}

  lemma FeedPrefix(order: ByteOrder, a: seq<byte>, b: seq<byte>)
    requires !Clears(order, a)
    ensures Feed(order, Feed(order, FRESH, a), b) == Feed(order, FRESH, a + b)
  {
    var s := Append(FRESH, a);
    assert s.buffer == a && Append(s, b) == Append(FRESH, a + b);
    LoopAppend(order, s, b);
  }

  lemma ReceiveKeepsAlignment(s: System, k: nat)
    requires AlignedSystem(s) && Enabled(s, Receive(k))
    ensures AlignedSystem(Step(s, Receive(k)))
  {
    hide Clears, Feed, PartOfFrame, Harmless;
    TornStreamNeverClears(s.order, s.sent, Tail(s), s.arrived);
    TakeMore(s.written, s.arrived, k);
    FeedPrefix(s.order, s.written[..s.arrived], s.written[s.arrived..s.arrived + k]);
  }

  lemma PartialIsAPart(order: ByteOrder, torn: seq<byte>, m: Message, d: nat)
    requires Harmless(order, torn) && WellFramed(m) && d < |Serialize(m)|
    ensures PartOfFrame(order, torn + Serialize(m)[..d])
  {
    SealedIsFramed(m);
    PartOfGood(order, Frame(torn, Sealed(m)), |torn| + d);
    TakeOfConcat(torn, Serialize(m), |torn| + d);
    assert (torn + Serialize(m))[..|torn| + d] == torn + Serialize(m)[..d];
  }

  lemma AllGoodMore(order: ByteOrder, fs: seq<Frame>, f: Frame)
    requires AllGood(order, fs) && GoodFrame(order, f)
    ensures AllGood(order, fs + [f])
  {}

  /** A write keeps the frames good when it starts behind harmless torn bytes. */
  lemma WriteKeepsFrames(s: System, k: nat)
    requires WriterOk(s.writer) && AlignedSystem(s) && Enabled(s, Write(k)) && !Step(s, Write(k)).misaligned
    ensures AllGood(s.order, Step(s, Write(k)).sent)
    ensures PartOfFrame(s.order, Tail(Step(s, Write(k))))
    ensures Partial(Step(s, Write(k)).writer) != [] ==> Harmless(s.order, s.torn)
  {
    hide PartOfFrame, Harmless, Encode, AllGood;
    var m, d := s.writer.message, s.writer.done;
    SealedIsFramed(m);
    if d + k == |Serialize(m)| {
      AllGoodMore(s.order, s.sent, Frame(s.torn, Sealed(m)));
      NothingIsAPart(s.order);
      assert Tail(Step(s, Write(k))) == [];
    } else if d + k > 0 {
      PartialIsAPart(s.order, s.torn, m, d + k);
    } else {
      assert Tail(Step(s, Write(k))) == Tail(s);
    }
  }

  lemma WriteKeepsBytes(s: System, k: nat)
    requires WriterOk(s.writer) && Enabled(s, Write(k)) && s.written == TornStream(s.sent) + Tail(s)
    ensures var s' := Step(s, Write(k)); s'.written == TornStream(s'.sent) + Tail(s')
  {
    var m, d := s.writer.message, s.writer.done;
    var bytes := Serialize(m);
    TakeMore(bytes, d, k);
    ConcatAssociative(TornStream(s.sent), s.torn + bytes[..d], bytes[d..d + k]);
    ConcatAssociative(s.torn, bytes[..d], bytes[d..d + k]);
    if d + k == |bytes| {
      assert bytes[..d + k] == bytes;
      TornStreamMore(s.sent, Frame(s.torn, Sealed(m)));
      assert TornStream(s.sent + [Frame(s.torn, Sealed(m))]) + ([] + []) == TornStream(s.sent) + (s.torn + bytes);
    }
  }

  lemma WriteKeepsAlignment(s: System, k: nat)
    requires WriterOk(s.writer) && AlignedSystem(s) && Enabled(s, Write(k)) && !Step(s, Write(k)).misaligned
    ensures AlignedSystem(Step(s, Write(k)))
  {
    hide PartOfFrame, Harmless, Feed, Serialize, AllGood, Tail, TornStream;
    WriteKeepsFrames(s, k);
    WriteKeepsBytes(s, k);
    WriteKeepsArrived(s, k);
  }

  lemma WriteKeepsArrived(s: System, k: nat)
    requires Enabled(s, Write(k)) && s.arrived <= |s.written|
    ensures s.arrived <= |Step(s, Write(k)).written|
    ensures Step(s, Write(k)).written[..s.arrived] == s.written[..s.arrived]
  {}

  lemma FailKeepsTail(s: System)
    requires WriterOk(s.writer) && s.writer.Sending?
    ensures Tail(Step(s, FailSend)) == Tail(s)
  {
    assert Tail(s) + [] == Tail(s);
  }

  lemma StartKeepsTail(s: System, m: Message)
    requires Enabled(s, StartSend(m))
    ensures var s' := Step(s, StartSend(m));
            Tail(s') == Tail(s) && Partial(s'.writer) == [] && WriterOk(s'.writer)
  {}

  lemma ReceiveKeepsSound(s: System, k: nat)
    requires s.arrived <= |s.written| && Sound(s.written[..s.arrived], s.receiver) && Enabled(s, Receive(k))
    ensures Sound(s.written[..s.arrived + k], Step(s, Receive(k)).receiver)
  {
    var chunk := s.written[s.arrived..s.arrived + k];
    TakeMore(s.written, s.arrived, k);
    FeedSound(s.order, s.written[..s.arrived], s.receiver, chunk);
  }

  lemma WriteKeepsInvariant(s: System, k: nat)
    requires Invariant(s) && Enabled(s, Write(k))
    ensures Invariant(Step(s, Write(k)))
  {
    hide AlignedSystem, Sound, Serialize, Harmless;
    WriteKeepsArrived(s, k);
    if !Step(s, Write(k)).misaligned {
      WriteKeepsAlignment(s, k);
    }
  }

  lemma StepKeepsInvariant(s: System, e: Event)
    requires Invariant(s) && Enabled(s, e)
    ensures Invariant(Step(s, e))
  {
    hide Sound, Feed, Serialize, Harmless, PartOfFrame, TornStream, AllGood;
    match e
    case StartSend(m) => StartKeepsTail(s, m);
    case Write(k) => WriteKeepsInvariant(s, k);
    case FailSend => FailKeepsTail(s);
    case Receive(k) =>
      ReceiveKeepsSound(s, k);
      if !s.misaligned {
        ReceiveKeepsAlignment(s, k);
      }
  }

  lemma InitialInvariant(order: ByteOrder)
    ensures Invariant(Initial(order))
  {
    NothingIsAPart(order);
    assert Tail(Initial(order)) == [];
  }

  lemma {:induction false} ExecuteKeepsInvariant(s: System, es: seq<Event>)
    requires Invariant(s) && Schedule(s, es)
    ensures Invariant(Execute(s, es))
    decreases |es|
  {
    if es != [] {
      StepKeepsInvariant(s, es[0]);
      ExecuteKeepsInvariant(Step(s, es[0]), es[1..]);
    }
  }

  // ---------- safety ----------

  /** In every state of every run that writes nothing behind harmful torn bytes: the
      receiver has got exactly the messages whose bytes have all arrived, a prefix
      of the messages sent, each once, in order, unchanged. When every byte written
      has arrived these are all messages whose send succeeded, and the buffer holds
      just the bytes of messages in progress or torn: nothing of a refused message
      is ever delivered. */
  lemma PrefixSafety(order: ByteOrder, es: seq<Event>)
    requires Schedule(Initial(order), es) && !Execute(Initial(order), es).misaligned
    ensures var s := Execute(Initial(order), es);
            && Delivered(s) == AcceptedMessages(s)[..Complete(s.sent, s.arrived)]
            && (s.arrived == |s.written| ==>
                  Delivered(s) == AcceptedMessages(s) && AllButHarmless(order, Tail(s), s.receiver.buffer))
  {
    InitialInvariant(order);
    ExecuteKeepsInvariant(Initial(order), es);
    ExecuteKeepsOrder(Initial(order), es);
    AlignedStateDelivers(Execute(Initial(order), es));
  }

  lemma {:induction false} ExecuteKeepsOrder(s: System, es: seq<Event>)
    requires Schedule(s, es)
    ensures Execute(s, es).order == s.order
    decreases |es|
  {
    if es != [] {
      ExecuteKeepsOrder(Step(s, es[0]), es[1..]);
    }
  }

  lemma AlignedStateDelivers(s: System)
    requires AlignedSystem(s)
    ensures Delivered(s) == AcceptedMessages(s)[..Complete(s.sent, s.arrived)]
    ensures s.arrived == |s.written| ==>
              Delivered(s) == AcceptedMessages(s) && AllButHarmless(s.order, Tail(s), s.receiver.buffer)
  {
    hide AllButHarmless, PartOfFrame, GoodFrame, Feed, TornStream;
    var rest := CutFrames(s.order, s.sent, Tail(s), s.arrived);
    var k := Complete(s.sent, s.arrived);
    FeedTornStream(s.order, s.sent[..k], rest);
    FrameMessagesTake(s.sent, k);
    assert s.written[..|s.written|] == s.written;
  }

  function Receives(chunks: seq<seq<byte>>): seq<Event> {
    if chunks == [] then [] else [Receive(|chunks[0]|)] + Receives(chunks[1..])
  }

  lemma FirstChunk(b: seq<byte>, at: nat, chunks: seq<seq<byte>>)
    requires at <= |b| && chunks != [] && Flatten(chunks) == b[at..]
    ensures at + |chunks[0]| <= |b| && b[at..at + |chunks[0]|] == chunks[0]
    ensures b[at + |chunks[0]|..] == Flatten(chunks[1..])
  {
    assert b[at..at + |chunks[0]|] == b[at..][..|chunks[0]|];
    assert b[at + |chunks[0]|..] == b[at..][|chunks[0]|..];
  }

  lemma FirstArrives(s: System, chunks: seq<seq<byte>>)
    requires s.arrived <= |s.written| && chunks != [] && Flatten(chunks) == s.written[s.arrived..]
    requires 0 < |chunks[0]| <= RECEIVE_BUFFER_SIZE
    ensures Enabled(s, Receive(|chunks[0]|))
    ensures Step(s, Receive(|chunks[0]|))
         == s.(arrived := s.arrived + |chunks[0]|, receiver := Feed(s.order, s.receiver, chunks[0]))
    ensures Flatten(chunks[1..]) == s.written[s.arrived + |chunks[0]|..]
  {
    hide Feed, Flatten;
    FirstChunk(s.written, s.arrived, chunks);
  }

  /** In whatever portions of at most 8192 bytes the rest of what was written arrives,
      that is a run, and the receiver handles just these portions. */
  lemma {:induction false} EverythingCanArrive(s: System, chunks: seq<seq<byte>>)
    requires s.arrived <= |s.written| && Flatten(chunks) == s.written[s.arrived..]
    requires forall i :: 0 <= i < |chunks| ==> 0 < |chunks[i]| <= RECEIVE_BUFFER_SIZE
    ensures Schedule(s, Receives(chunks))
    ensures Execute(s, Receives(chunks))
         == s.(arrived := |s.written|, receiver := FeedAll(s.order, s.receiver, chunks))
    decreases |chunks|
  {
    hide Feed, Step;
    if chunks == [] {
      assert |s.written[s.arrived..]| == 0;
    } else {
      FirstArrives(s, chunks);
      EverythingCanArrive(Step(s, Receive(|chunks[0]|)), chunks[1..]);
      ExecuteCons(s, Receive(|chunks[0]|), Receives(chunks[1..]));
    }
  }

  /** So from every state of such a run, once the rest has arrived, in whatever portions,
      all messages whose send succeeded have been delivered, and nothing else. */
  lemma AcceptedAreDelivered(order: ByteOrder, es: seq<Event>, chunks: seq<seq<byte>>)
    requires Schedule(Initial(order), es) && !Execute(Initial(order), es).misaligned
    requires var s := Execute(Initial(order), es);
             s.arrived <= |s.written| && Flatten(chunks) == s.written[s.arrived..]
    requires forall i :: 0 <= i < |chunks| ==> 0 < |chunks[i]| <= RECEIVE_BUFFER_SIZE
    ensures var s := Execute(Initial(order), es);
            && Schedule(s, Receives(chunks))
            && Delivered(Execute(s, Receives(chunks))) == AcceptedMessages(s)
  {
    var s := Execute(Initial(order), es);
    InitialInvariant(order);
    ExecuteKeepsInvariant(Initial(order), es);
    EverythingCanArrive(s, chunks);
    ExecuteKeepsInvariant(s, Receives(chunks));
    AlignedStateDelivers(Execute(s, Receives(chunks)));
  }

  /** In every state of any run, aligned or not, the receiver holds the unread end
      of what arrived and has delivered only genuine, disjoint frames of it. */
  lemma SoundAlways(order: ByteOrder, es: seq<Event>)
    requires Schedule(Initial(order), es)
    ensures var s := Execute(Initial(order), es);
            s.arrived <= |s.written| && Sound(s.written[..s.arrived], s.receiver)
  {
    InitialInvariant(order);
    ExecuteKeepsInvariant(Initial(order), es);
  }

  // ---------- the send loop as a run ----------

  /** The events of one send with `left` bytes to go, for a script of the kernel. */
  function Moves(left: nat, kernel: seq<SendOutcome>): seq<Event>
    decreases |kernel|
  {
    if left == 0 || kernel == [] then
      []
    else
      match kernel[0]
      case SendError => [FailSend]
      case SendAgain => Moves(left, kernel[1..])
      case Accepted(n) => [Write(Min(n, left))] + Moves(left - Min(n, left), kernel[1..])
  }

  lemma SliceOfSuffix(b: seq<byte>, d: nat, k: nat)
    requires d + k <= |b|
    ensures b[d..][..k] == b[d..d + k] && b[d..][k..] == b[d + k..]
  {}

  /** What a send that began in state `s` did when it ends in `s'` as `t` says. */
  ghost predicate SendEffect(s: System, s': System, t: Transmission)
    requires WriterOk(s.writer) && s.writer.Sending?
  {
    var m, reached := s.writer.message, s.writer.done + |t.written|;
    && reached <= |Serialize(m)|
    && s'.written == s.written + t.written
    && s'.sent == s.sent + (if t.result.Sent? then [Frame(s.torn, Sealed(m))] else [])
    && s'.refused == s.refused + (if t.result.Failed? then [m] else [])
    && s'.writer == (if t.result.Pending? then Sending(m, reached) else Idle)
    && s'.torn == (match t.result
                   case Sent => []
                   case Pending => s.torn
                   case Failed => s.torn + Serialize(m)[..reached])
  }

  lemma SendEffectAfterWrite(s: System, s': System, k: nat, t: Transmission)
    requires WriterOk(s.writer) && s.writer.Sending? && s.writer.done + k < |Serialize(s.writer.message)|
    requires SendEffect(Step(s, Write(k)), s', t)
    ensures var chunk := Serialize(s.writer.message)[s.writer.done..s.writer.done + k];
            SendEffect(s, s', Transmission(chunk + t.written, t.result))
  {
    hide Serialize;
    ConcatAssociative(s.written, Serialize(s.writer.message)[s.writer.done..s.writer.done + k], t.written);
  }

  lemma SendEffectOfLastWrite(s: System, k: nat)
    requires WriterOk(s.writer) && s.writer.Sending? && s.writer.done + k == |Serialize(s.writer.message)|
    ensures SendEffect(s, Step(s, Write(k)),
                       Transmission(Serialize(s.writer.message)[s.writer.done..s.writer.done + k] + [], Sent))
  {
    var chunk := Serialize(s.writer.message)[s.writer.done..s.writer.done + k];
    assert chunk + [] == chunk;
  }

  lemma SendEffectOfNoWrite(s: System)
    requires WriterOk(s.writer) && s.writer.Sending?
    ensures SendEffect(s, s, Transmission([], Pending))
    ensures SendEffect(s, Step(s, FailSend), Transmission([], Failed))
  {
    assert Step(s, FailSend).torn == s.torn + Serialize(s.writer.message)[..s.writer.done];
  }

  /** With this script of the kernel the rest of a send is a run with its effect. */
  ghost predicate RunsAsSend(s: System, kernel: seq<SendOutcome>)
    requires s.writer.Sending? && WriterOk(s.writer)
  {
    var left := Serialize(s.writer.message)[s.writer.done..];
    var es := Moves(|left|, kernel);
    Schedule(s, es) && SendEffect(s, Execute(s, es), Transmit(left, kernel))
  }

  lemma WriteThenSend(s: System, n: nat, kernel: seq<SendOutcome>)
    requires s.writer.Sending? && WriterOk(s.writer) && s.writer.done + n < |Serialize(s.writer.message)|
    requires kernel != [] && kernel[0] == Accepted(n) && RunsAsSend(Step(s, Write(n)), kernel[1..])
    ensures RunsAsSend(s, kernel)
  {
    hide SendEffect, Serialize;
    var left := Serialize(s.writer.message)[s.writer.done..];
    var later := Moves(|left| - n, kernel[1..]);
    SliceOfSuffix(Serialize(s.writer.message), s.writer.done, n);
    SendEffectAfterWrite(s, Execute(Step(s, Write(n)), later), n, Transmit(left[n..], kernel[1..]));
    ExecuteCons(s, Write(n), later);
  }

  lemma LastWrite(s: System, n: nat, kernel: seq<SendOutcome>)
    requires s.writer.Sending? && WriterOk(s.writer) && s.writer.done + n >= |Serialize(s.writer.message)|
    requires kernel != [] && kernel[0] == Accepted(n)
    ensures RunsAsSend(s, kernel)
  {
    hide SendEffect, Serialize;
    var k := |Serialize(s.writer.message)| - s.writer.done;
    SliceOfSuffix(Serialize(s.writer.message), s.writer.done, k);
    SendEffectOfLastWrite(s, k);
    var left := Serialize(s.writer.message)[s.writer.done..];
    assert Min(n, |left|) == k && left[k..] == [];
    assert Moves(|left|, kernel) == [Write(k)] + [];
    assert Transmit(left[k..], kernel[1..]) == Transmission([], Sent);
    assert Transmit(left, kernel) == Transmission(left[..k] + [], Sent);
    ExecuteCons(s, Write(k), []);
  }

  /** The loop of `TcpSocket.Send` is a run of the system: it writes the same
      bytes, and its result says whether the message was accepted or refused. */
  lemma {:induction false} SendIsARun(s: System, kernel: seq<SendOutcome>)
    requires s.writer.Sending? && WriterOk(s.writer)
    ensures RunsAsSend(s, kernel)
    decreases |kernel|
  {
    hide SendEffect, Tail;
    SendEffectOfNoWrite(s);
    if kernel != [] {
      match kernel[0]
      case SendError =>
        assert [FailSend][1..] == [];
      case SendAgain =>
        SendIsARun(s, kernel[1..]);
      case Accepted(n) =>
        if s.writer.done + n < |Serialize(s.writer.message)| {
          SendIsARun(Step(s, Write(n)), kernel[1..]);
          WriteThenSend(s, n, kernel);
        } else {
          LastWrite(s, n, kernel);
        }
    }
  }

  /** A whole call of `Send`, on any message with the magic and its true length: it can
      begin whenever no other is under way, and does what the send loop does. */
  lemma SendFromIdle(s: System, m: Message, kernel: seq<SendOutcome>)
    requires s.writer.Idle? && WellFramed(m)
    ensures var es := [StartSend(m)] + Moves(|Serialize(m)|, kernel);
            Schedule(s, es) && SendEffect(s.(writer := Sending(m, 0)), Execute(s, es), Transmit(Serialize(m), kernel))
  {
    hide SendEffect, Serialize, Transmit;
    var s' := Step(s, StartSend(m));
    WholeOfMessage(m);
    SendIsARun(s', kernel);
    ExecuteCons(s, StartSend(m), Moves(|Serialize(m)|, kernel));
  }

  lemma WholeOfMessage(m: Message)
    ensures |Serialize(m)| > 0 && Serialize(m)[0..] == Serialize(m)
  {}

  // ---------- what a torn message does ----------

  const TORN: Message := NewMessage(8, [0x55], 1)
  const LATER: Message := NewMessage(8, [], 2)
  const TORN_SCHEDULE: seq<Event> := [StartSend(TORN)] + ([Write(20)] + ([FailSend] + TORN_END))
  const TORN_END: seq<Event> := [StartSend(LATER)] + ([Write(20)] + ([Receive(40)] + []))

  lemma OneFrameThenWaits(order: ByteOrder, m: Message, tail: seq<byte>)
    requires WellFramed(m) && Intact(m) && |tail| < HEADER_SIZE
    ensures Feed(order, FRESH, Encode(m) + tail) == Receiver([Delivery(0, m)], FrameSize(m), tail)
  {
    hide Loop, Encode;
    var s := Append(FRESH, Encode(m) + tail);
    assert s.buffer == Encode(m) + tail;
    assert [] + [Delivery(0, m)] == [Delivery(0, m)];
    LoopOnIntact(order, s, m, tail);
    QuiescentIffUnchanged(order, Receiver([Delivery(0, m)], FrameSize(m), tail));
  }

  lemma TornBytes()
    ensures Serialize(TORN)[..20] + Serialize(LATER) == Serialize(TORN) + Serialize(LATER)[1..]
  {
    var torn, later := Serialize(TORN), Serialize(LATER);
    FrameStartsWithMagic(Sealed(LATER), 4);
    assert later == [0x55] + later[1..];
    hide EncodeHeader, Checksum;
    var header := EncodeHeader(Sealed(TORN).header);
    assert torn == header + [0x55] && torn[..20] == header;
    ConcatAssociative(header, [0x55], later[1..]);
  }

  /** The header of TORN followed by the frame of LATER parses as TORN. */
  lemma TornParse(order: ByteOrder)
    ensures Feed(order, FRESH, Serialize(TORN)[..20] + Serialize(LATER))
         == Receiver([Delivery(0, Sealed(TORN))], 21, Serialize(LATER)[1..])
  {
    hide Feed, Encode;
    TornBytes();
    SealedIsFramed(TORN);
    OneFrameThenWaits(order, Sealed(TORN), Serialize(LATER)[1..]);
  }

  lemma TornEnd(order: ByteOrder, s: System)
    requires s == System(order, [], [TORN], Idle, Serialize(TORN)[..20], false, Serialize(TORN)[..20], 0, FRESH)
    ensures Schedule(s, TORN_END)
    ensures Execute(s, TORN_END)
         == System(order, [Frame(Serialize(TORN)[..20], Sealed(LATER))], [TORN], Idle, [], true,
                   Serialize(TORN)[..20] + Serialize(LATER), 40,
                   Receiver([Delivery(0, Sealed(TORN))], 21, Serialize(LATER)[1..]))
  {
    var a, b := Serialize(TORN)[..20], Serialize(LATER);
    assert b[0..20] == b && (a + b)[0..40] == a + b;
    TornParse(order);
    assert |Serialize(TORN)[..20]| == 20 && !Harmless(order, Serialize(TORN)[..20]);
    var s1 := Step(s, StartSend(LATER));
    var s2 := Step(s1, Write(20));
    ExecuteCons(s2, Receive(40), []);
    ExecuteCons(s1, Write(20), [Receive(40)] + []);
    ExecuteCons(s, StartSend(LATER), [Write(20)] + ([Receive(40)] + []));
  }

  /** A witness of a harmful tear. The sender goes on after a send that failed in
      mid-message, and the next frame completes the torn one: the receiver delivers
      the message whose send failed and loses the message whose send succeeded. */
  lemma TornSendMixesMessages(order: ByteOrder)
    ensures Schedule(Initial(order), TORN_SCHEDULE)
    ensures var s := Execute(Initial(order), TORN_SCHEDULE);
            && s.misaligned && s.arrived == |s.written|
            && AcceptedMessages(s) == [Sealed(LATER)] && s.refused == [TORN]
            && Delivered(s) == [Sealed(TORN)]
  {
    var s := Initial(order);
    var s1 := Step(s, StartSend(TORN));
    var s2 := Step(s1, Write(20));
    assert s2.written == [] + Serialize(TORN)[..20] == Serialize(TORN)[..20];
    TornEnd(order, Step(s2, FailSend));
    ExecuteCons(s2, FailSend, TORN_END);
    ExecuteCons(s1, Write(20), [FailSend] + TORN_END);
    ExecuteCons(s, StartSend(TORN), [Write(20)] + ([FailSend] + TORN_END));
  }
}
