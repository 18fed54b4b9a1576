/** The message handler as it runs: a persistent receive buffer that grows by each
    chunk and is consumed by a loop, and the serializer. */
module MessageHandling {
  import opened Bytes
  import opened Framing
  import opened StreamLaws

  /** The process-wide counter behind `GetNextSequence`. */
  class SequenceCounter {
    var next: uint32

    constructor ()
      ensures next == 1
    {
      next := 1;
    }

    method GetNextSequence() returns (s: uint32)
      modifies this
      ensures s == old(next) && next == (old(next) + 1) % TWO_32
    {
      s := next;
      next := (next + 1) % TWO_32;
    }

    /** The `NetworkMessage` constructors. */
    method CreateMessage(kind: uint32, data: seq<byte>) returns (m: Message)
      modifies this
      ensures m == NewMessage(kind, data, old(next)) && next == (old(next) + 1) % TWO_32
      ensures m.header == Header(MESSAGE_MAGIC, kind, |data| % TWO_32, old(next), 0) && m.payload == data
    {
      var header := Header(MESSAGE_MAGIC, kind, |data| % TWO_32, 0, 0);
      var s := GetNextSequence();
      header := header.(sequence := s);
      m := Message(header, data);
    }
  }

  /** The accumulating checksum loop, with its 32-bit wrap-around. */
  method CalculateChecksum(data: seq<byte>) returns (checksum: uint32)
    ensures checksum == Checksum(data)
    ensures |data| <= MAX_MESSAGE_SIZE ==> checksum == Sum(data)
  {
    checksum := 0;
    for i := 0 to |data|
      invariant checksum == Checksum(data[..i])
    {
      ChecksumOfNext(data, i);
      checksum := (checksum + data[i]) % TWO_32;
    }
    assert data[..|data|] == data;
    if |data| <= MAX_MESSAGE_SIZE {
      ChecksumDoesNotWrap(data);
    }
  }

  lemma ChecksumOfNext(data: seq<byte>, i: nat)
    requires i < |data|
    ensures Checksum(data[..i + 1]) == (Checksum(data[..i]) + data[i]) % TWO_32
  {
    assert data[..i + 1][..i] == data[..i];
    var sum := Sum(data[..i]);
    AddMultiple(sum % TWO_32 + data[i], sum / TWO_32, TWO_32);
  }

  method ValidateMessage(header: Header, payload: seq<byte>) returns (valid: bool)
    requires |payload| == header.length
    ensures valid <==> Intact(Message(header, payload))
  {
    if header.length == 0 {
      return header.checksum == 0;
    }
    var calculated := CalculateChecksum(payload);
    valid := calculated == header.checksum;
  }

  /** Copying a header out of the buffer and converting its fields in place. */
  method ReadHeader(order: ByteOrder, b: seq<byte>) returns (header: Header)
    requires |b| >= HEADER_SIZE
    ensures header == DecodeHeader(b)
  {
    header := Header(Load32(order, b[0..4]), Load32(order, b[4..8]), Load32(order, b[8..12]),
                     Load32(order, b[12..16]), Load32(order, b[16..20]));
    LoadedWord(order, b, 0);
    LoadedWord(order, b, 4);
    LoadedWord(order, b, 8);
    LoadedWord(order, b, 12);
    LoadedWord(order, b, 16);
    header := header.(magic := Ntohl(order, header.magic));
    header := header.(kind := Ntohl(order, header.kind));
    header := header.(length := Ntohl(order, header.length));
    header := header.(sequence := Ntohl(order, header.sequence));
    header := header.(checksum := Ntohl(order, header.checksum));
  }

  /** `std::search`: the first occurrence of the pattern at or after `from`. */
  method Search(b: seq<byte>, from: nat, pattern: seq<byte>) returns (k: nat)
    requires from <= |b| && |pattern| == 4
    ensures k == FirstMatch(b, pattern, from)
  {
    k := from;
    while k < |b| && !MatchAt(b, pattern, k)
      invariant from <= k <= |b|
      invariant FirstMatch(b, pattern, from) == FirstMatch(b, pattern, k)
    {
      k := k + 1;
    }
  }

  class MessageHandler {
    /** The byte order of the host this handler runs on. */
    const order: ByteOrder

    var receiveBuffer: seq<byte>

    /** The arguments of the calls of the message callback, in order. */
    var delivered: seq<Message>

    /** Everything received so far, and where each delivery stood in it. */
    ghost var received: seq<byte>
    ghost var log: seq<Delivery>

    ghost function State(): Receiver
      reads this
      requires |receiveBuffer| <= |received|
    {
      Receiver(log, |received| - |receiveBuffer|, receiveBuffer)
    }

    /** What holds between calls: the buffer is the unread end of everything
        received and is waiting for more, and the callback got exactly the logged
        frames, which are genuine, disjoint and in stream order. */
    ghost predicate Valid()
      reads this
    {
      && |receiveBuffer| <= |received|
      && Sound(received, State())
      && Quiescent(receiveBuffer)
      && delivered == Messages(log)
    }

    constructor (order: ByteOrder)
      ensures Valid() && this.order == order && received == [] && State() == FRESH
    {
      this.order := order;
      receiveBuffer, delivered := [], [];
      received, log := [], [];
    }

    /** Delivers the frame in `data`, which must be complete; anything shorter than
        a header is ignored. */
    method ProcessCompleteMessage(data: seq<byte>)
      requires |data| >= HEADER_SIZE ==> |data| >= HEADER_SIZE + DecodeHeader(data).length
      requires |receiveBuffer| <= |received|
      modifies this`delivered, this`log
      ensures |data| < HEADER_SIZE ==> delivered == old(delivered) && log == old(log)
      ensures |data| >= HEADER_SIZE ==>
                var m := Message(DecodeHeader(data), data[HEADER_SIZE..HEADER_SIZE + DecodeHeader(data).length]);
                delivered == old(delivered) + [m] && log == old(log) + [Delivery(|received| - |receiveBuffer|, m)]
    {
      if |data| < HEADER_SIZE {
        return;
      }
      var header := ReadHeader(order, data);
      var payload: seq<byte> := [];
      if header.length > 0 {
        payload := data[HEADER_SIZE..HEADER_SIZE + header.length];
      }
      assert payload == data[HEADER_SIZE..HEADER_SIZE + header.length];
      delivered := delivered + [Message(header, payload)];
      log := log + [Delivery(|received| - |receiveBuffer|, Message(header, payload))];
    }

    method ProcessReceivedData(data: seq<byte>)
      requires Valid()
      modifies this
      ensures Valid()
      ensures received == old(received) + data
      ensures State() == Feed(order, old(State()), data)
      ensures |receiveBuffer| < HEADER_SIZE + MAX_MESSAGE_SIZE
    {
      receiveBuffer := receiveBuffer + data;
      received := received + data;
      assert State() == Append(old(State()), data);
      FeedSound(order, old(received), old(State()), data);
      LoopQuiescent(order, State());
      ProcessCompleteMessages();
    }

    /** The loop of `ProcessReceivedData`. */
    method ProcessCompleteMessages()
      requires |receiveBuffer| <= |received| && delivered == Messages(log)
      modifies this`receiveBuffer, this`delivered, this`log
      ensures |receiveBuffer| <= |received| && delivered == Messages(log)
      ensures State() == Loop(order, old(State()))
    {
      while |receiveBuffer| >= HEADER_SIZE
        invariant |receiveBuffer| <= |received| && delivered == Messages(log)
        invariant Loop(order, State()) == Loop(order, old(State()))
        decreases |receiveBuffer|
      {
        var progress := ProcessFront();
        if !progress {
          break;
        }
      }
    }

    /** The body of that loop; no progress means waiting for more data. */
    method ProcessFront() returns (progress: bool)
      requires HEADER_SIZE <= |receiveBuffer| <= |received| && delivered == Messages(log)
      modifies this`receiveBuffer, this`delivered, this`log
      ensures |receiveBuffer| <= |received| && delivered == Messages(log)
      ensures progress == !Stuck(order, old(receiveBuffer))
      ensures State() == if progress then Iterate(order, old(State())) else old(State())
    {
      hide DecodeHeader, Checksum, FirstMatch;
      var header := ReadHeader(order, receiveBuffer);

      if header.magic != MESSAGE_MAGIC {
        var it := Search(receiveBuffer, 1, Memory32(order, MESSAGE_MAGIC));
        if it < |receiveBuffer| {
          receiveBuffer := receiveBuffer[it..];
        } else {
          receiveBuffer := [];
        }
        assert State() == Iterate(order, old(State()));
        return true;
      }

      if header.length > MAX_MESSAGE_SIZE {
        receiveBuffer := receiveBuffer[HEADER_SIZE..];
        return true;
      }

      var totalSize := HEADER_SIZE + header.length;
      if |receiveBuffer| < totalSize {
        return false;
      }

      var valid := ValidateMessage(header, receiveBuffer[HEADER_SIZE..totalSize]);
      ghost var message := Message(header, receiveBuffer[HEADER_SIZE..totalSize]);
      assert Next(order, receiveBuffer) == if valid then Deliver(message) else Drop(totalSize, BadChecksum);
      if valid {
        FrontFrame(receiveBuffer, totalSize);
        ProcessCompleteMessage(receiveBuffer[..totalSize]);
        MessagesAppend(old(log), [Delivery(|received| - |receiveBuffer|, message)]);
      }
      receiveBuffer := receiveBuffer[totalSize..];
      return true;
    }
  }

  lemma FrontFrame(b: seq<byte>, size: nat)
    requires HEADER_SIZE <= size <= |b|
    ensures DecodeHeader(b[..size]) == DecodeHeader(b)
    ensures b[..size][HEADER_SIZE..size] == b[HEADER_SIZE..size]
  {
    assert b == b[..size] + b[size..];
    DecodeHeaderAppend(b[..size], b[size..]);
  }

  /** Printing a message: the header copy gets its checksum and is byte-swapped
      field by field before it is copied in front of the payload. */
  method SerializeMessage(order: ByteOrder, message: Message) returns (buffer: seq<byte>)
    ensures buffer == Serialize(message)
    ensures |buffer| == HEADER_SIZE + |message.payload| && buffer[HEADER_SIZE..] == message.payload
    ensures Word(buffer, 0) == message.header.magic && Word(buffer, 4) == message.header.kind
    ensures Word(buffer, 8) == message.header.length && Word(buffer, 12) == message.header.sequence
    ensures Word(buffer, 16) == Sum(message.payload) % TWO_32
  {
    WireForm(message);
    var header := message.header;
    var checksum := CalculateChecksum(message.payload);
    header := header.(checksum := checksum);
    header := header.(magic := Htonl(order, header.magic));
    header := header.(kind := Htonl(order, header.kind));
    header := header.(length := Htonl(order, header.length));
    header := header.(sequence := Htonl(order, header.sequence));
    header := header.(checksum := Htonl(order, header.checksum));
    var image := MemoryWords(order, HeaderWords(header));
    ghost var sealed := Sealed(message).header;
    MemoryOfSwapped(order, HeaderWords(sealed), HeaderWords(header));
    buffer := image + message.payload;
  }
}
