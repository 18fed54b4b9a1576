/** USB request blocks: from a captured URB to a USB/IP message, and back. */
module Urbs {
  import opened Bytes
  import opened Framing
  import opened StreamLaws
  import opened FrameStreams
  import opened MessageHandling
  import opened Sockets
  import opened Usbip
  import opened Wrappers

  const URB_SUBMIT: uint32 := 5
  const DIR_OUT: byte := 0

  datatype TransferType = Control | Isochronous | Bulk | Interrupt

  datatype SetupPacket = SetupPacket(requestType: byte, request: byte, value: uint16, index: uint16, length: uint16)

  datatype Urb = Urb(
    id: uint32, kind: TransferType, direction: byte, endpoint: byte, flags: uint32, data: seq<byte>,
    setup: SetupPacket, status: int32, actualLength: uint32, timestamp: uint64)

  // ---------- setup packets cross as raw memory ----------

  function SetupMemory(order: ByteOrder, s: SetupPacket): SetupBytes {
    [s.requestType, s.request] + (Memory16(order, s.value) + (Memory16(order, s.index) + Memory16(order, s.length)))
  }

  function LoadSetup(order: ByteOrder, b: SetupBytes): SetupPacket {
    SetupPacket(b[0], b[1], Load16(order, b[2..4]), Load16(order, b[4..6]), Load16(order, b[6..8]))
  }

  lemma SetupSlices(order: ByteOrder, s: SetupPacket)
    ensures var b := SetupMemory(order, s);
            && b[0] == s.requestType && b[1] == s.request
            && b[2..4] == Memory16(order, s.value) && b[4..6] == Memory16(order, s.index)
            && b[6..8] == Memory16(order, s.length)
  {
    var v, i, l := Memory16(order, s.value), Memory16(order, s.index), Memory16(order, s.length);
    var b := [s.requestType, s.request] + (v + (i + l));
    assert b[2..] == v + (i + l);
    assert b[4..] == (v + (i + l))[2..] == i + l;
    assert b[2..4] == b[2..][..2] == v;
    assert b[4..6] == b[4..][..2] == i;
    assert b[6..8] == b[4..][2..] == l;
  }

  /** Eight bytes are a setup packet as it lies in the memory of a host. */
  predicate IsSetup(order: ByteOrder, b: seq<byte>, s: SetupPacket) {
    && |b| == 8
    && b[0] == s.requestType && b[1] == s.request
    && s.value == (if order.LittleEndian? then b[3] as int * 0x100 + b[2] else b[2] as int * 0x100 + b[3])
    && s.index == (if order.LittleEndian? then b[5] as int * 0x100 + b[4] else b[4] as int * 0x100 + b[5])
    && s.length == (if order.LittleEndian? then b[7] as int * 0x100 + b[6] else b[6] as int * 0x100 + b[7])
  }

  lemma SetupIsSetup(order: ByteOrder, s: SetupPacket)
    ensures IsSetup(order, SetupMemory(order, s), s)
  {
    var b := SetupMemory(order, s);
    SetupSlices(order, s);
    LoadedIsSetup(order, b);
    Memory16RoundTrip(order, s.value, b[2..4]);
    Memory16RoundTrip(order, s.index, b[4..6]);
    Memory16RoundTrip(order, s.length, b[6..8]);
  }

  lemma LoadedIsSetup(order: ByteOrder, b: SetupBytes)
    ensures IsSetup(order, b, LoadSetup(order, b))
  {
    HostByteOrder(order, b[0..4], b[2..4]);
    HostByteOrder(order, b[0..4], b[4..6]);
    HostByteOrder(order, b[0..4], b[6..8]);
  }

  predicate SameBytes(x: uint16) {
    x / 0x100 == x % 0x100
  }

  lemma CrossLoad16(from: ByteOrder, to: ByteOrder, x: uint16)
    ensures Load16(to, Memory16(from, x)) == x <==> from == to || SameBytes(x)
  {
    Memory16RoundTrip(from, x, Memory16(from, x));
    Memory16RoundTrip(to, x, Memory16(from, x));
    var b := BE16(x);
    assert b == [x / 0x100 % 0x100, x % 0x100] by {
      assert Digits(x / 0x100, 1) == [x / 0x100 % 0x100];
    }
    assert x / 0x100 % 0x100 == x / 0x100;
    assert from == LittleEndian ==> Memory16(from, x) == [b[1], b[0]];
    assert to == LittleEndian ==> Memory16(to, x) == [b[1], b[0]];
    if from != to {
      assert Memory16(to, x)[0] != Memory16(from, x)[0] || Memory16(to, x)[1] != Memory16(from, x)[1] || SameBytes(x);
      if SameBytes(x) {
        assert Memory16(to, x) == Memory16(from, x);
      }
    }
  }

  /** The setup packet's words are copied as they lie in memory: they keep their
      values exactly when both hosts have the same byte order or each word has two
      equal bytes. */
  lemma SetupCrossesHosts(from: ByteOrder, to: ByteOrder, s: SetupPacket)
    ensures LoadSetup(to, SetupMemory(from, s)) == s
       <==> from == to || (SameBytes(s.value) && SameBytes(s.index) && SameBytes(s.length))
  {
    SetupSlices(from, s);
    CrossLoad16(from, to, s.value);
    CrossLoad16(from, to, s.index);
    CrossLoad16(from, to, s.length);
  }

  // ---------- sender ----------

  function CmdOf(order: ByteOrder, urb: Urb, seqnum: uint32): CmdSubmit {
    CmdSubmit(UsbipHeader(CMD_SUBMIT, seqnum, 0, urb.direction, urb.endpoint), urb.flags,
              Signed(|urb.data| % TWO_32), 0, 0, 0,
              if urb.kind == Control then SetupMemory(order, urb.setup) else NO_SETUP)
  }

  function RetOf(urb: Urb, seqnum: uint32): RetSubmit {
    RetSubmit(UsbipHeader(RET_SUBMIT, seqnum, 0, urb.direction, urb.endpoint), urb.status,
              Signed(urb.actualLength), 0, 0, 0)
  }

  function UrbPayload(order: ByteOrder, urb: Urb, seqnum: uint32): seq<byte> {
    (if urb.direction == DIR_OUT then EncodeCmd(CmdOf(order, urb, seqnum)) else EncodeRet(RetOf(urb, seqnum)))
    + urb.data
  }

  /** The bytes of an OUT URB on the wire, field by field. */
  lemma OutPayload(order: ByteOrder, urb: Urb, seqnum: uint32)
    requires urb.direction == DIR_OUT
    ensures var p := UrbPayload(order, urb, seqnum);
            && |p| == 48 + |urb.data| && p[48..] == urb.data
            && Word(p, 0) == 1 && Word(p, 4) == seqnum && Word(p, 8) == 0
            && Word(p, 12) == 0 && Word(p, 16) == urb.endpoint
            && Word(p, 20) == urb.flags && Word(p, 24) == |urb.data| % TWO_32
            && Word(p, 28) == Word(p, 32) == Word(p, 36) == 0
            && (urb.kind != Control ==> p[40..48] == [0, 0, 0, 0, 0, 0, 0, 0])
            && (urb.kind == Control ==> IsSetup(order, p[40..48], urb.setup))
  {
    CmdLayout(CmdOf(order, urb, seqnum), urb.data);
    if urb.kind == Control {
      SetupIsSetup(order, urb.setup);
    }
  }

  /** The bytes of any other URB on the wire: a reply, eight bytes shorter. */
  lemma InPayload(order: ByteOrder, urb: Urb, seqnum: uint32)
    requires urb.direction != DIR_OUT
    ensures var p := UrbPayload(order, urb, seqnum);
            && |p| == 40 + |urb.data| && p[40..] == urb.data
            && Word(p, 0) == 3 && Word(p, 4) == seqnum && Word(p, 8) == 0
            && Word(p, 12) == urb.direction && Word(p, 16) == urb.endpoint
            && Signed(Word(p, 20)) == urb.status && Word(p, 24) == urb.actualLength
            && Word(p, 28) == Word(p, 32) == Word(p, 36) == 0
  {
    RetLayout(RetOf(urb, seqnum), urb.data);
  }

  class UrbProcessor {
    const order: ByteOrder
    var nextSeqnum: uint32

    constructor (order: ByteOrder)
      ensures this.order == order && nextSeqnum == 1
    {
      this.order := order;
      nextSeqnum := 1;
    }

    method CreateCmdSubmit(urb: Urb) returns (cmd: CmdSubmit)
      modifies this
      ensures cmd == CmdOf(order, urb, old(nextSeqnum)) && nextSeqnum == (old(nextSeqnum) + 1) % TWO_32
    {
      var header := UsbipHeader(CMD_SUBMIT, nextSeqnum, 0, urb.direction, urb.endpoint);
      nextSeqnum := (nextSeqnum + 1) % TWO_32;
      cmd := CmdSubmit(header, urb.flags, Signed(|urb.data| % TWO_32), 0, 0, 0, NO_SETUP);
      if urb.kind == Control {
        cmd := cmd.(setup := SetupMemory(order, urb.setup));
      }
    }

    method CreateRetSubmit(urb: Urb) returns (ret: RetSubmit)
      modifies this
      ensures ret == RetOf(urb, old(nextSeqnum)) && nextSeqnum == (old(nextSeqnum) + 1) % TWO_32
    {
      var header := UsbipHeader(RET_SUBMIT, nextSeqnum, 0, urb.direction, urb.endpoint);
      nextSeqnum := (nextSeqnum + 1) % TWO_32;
      ret := RetSubmit(header, urb.status, Signed(urb.actualLength), 0, 0, 0);
    }

    method ProcessUrb(urb: Urb) returns (result: seq<byte>)
      modifies this
      ensures result == UrbPayload(order, urb, old(nextSeqnum)) && nextSeqnum == (old(nextSeqnum) + 1) % TWO_32
    {
      if urb.direction == DIR_OUT {
        var cmd := CreateCmdSubmit(urb);
        result := SerializeCmdSubmit(order, cmd, urb.data);
      } else {
        var ret := CreateRetSubmit(urb);
        result := SerializeRetSubmit(order, ret, urb.data);
      }
    }
  }

  /** The message a captured URB is sent as. Each URB gets a fresh processor, so
      the USB/IP sequence number is always 1. */
  function UrbMessage(order: ByteOrder, urb: Urb, sequence: uint32): Message {
    NewMessage(URB_SUBMIT, UrbPayload(order, urb, 1), sequence)
  }

  /** The bytes of that message: the magic, type 5, the payload's size, its number, and
      the payload behind the header. */
  lemma UrbMessageWire(order: ByteOrder, urb: Urb, sequence: uint32)
    ensures var b := Serialize(UrbMessage(order, urb, sequence));
            && |b| == 20 + |UrbPayload(order, urb, 1)| && b[20..] == UrbPayload(order, urb, 1)
            && Word(b, 0) == 0x5553_4249 && Word(b, 4) == 5
            && Word(b, 8) == |UrbPayload(order, urb, 1)| % TWO_32 && Word(b, 12) == sequence
  {
    WireForm(UrbMessage(order, urb, sequence));
  }

  /** The sender's URB callback. A socket that only listens is never connected, so
      nothing is written to it. */
  method OnUrbCaptured(order: ByteOrder, urb: Urb, counter: SequenceCounter, socket: TcpSocket,
                       kernel: seq<SendOutcome>)
    returns (result: SendResult)
    modifies counter, socket`written
    ensures counter.next == (old(counter.next) + 1) % TWO_32
    ensures !socket.Ready() ==> result == Failed && socket.written == old(socket.written)
    ensures socket.Ready() ==>
              var t := Transmit(Serialize(UrbMessage(order, urb, old(counter.next))), kernel);
              result == t.result && socket.written == old(socket.written) + t.written
  {
    var processor := new UrbProcessor(order);
    var payload := processor.ProcessUrb(urb);
    var message := counter.CreateMessage(URB_SUBMIT, payload);
    var data := SerializeMessage(order, message);
    result := socket.Send(data, kernel);
  }

  // ---------- receiver ----------

  /** What the receiver makes of the payload of a URB_SUBMIT message. `stale` is
      what the uninitialised setup field of the new URB happens to hold. */
  function Rebuild(order: ByteOrder, p: seq<byte>, now: uint64, stale: SetupPacket): Option<Urb> {
    if |p| < CMD_SIZE then
      None
    else
      var c := DecodeCmd(p);
      var endpoint := c.header.ep % 0x100;
      var length := c.transferBufferLength;
      var data := if 0 < length <= |p| - CMD_SIZE then p[CMD_SIZE..CMD_SIZE + length] else [];
      Some(Urb(c.header.seqnum, if endpoint == 0 then Control else Bulk, c.header.direction % 0x100, endpoint,
               c.transferFlags, data, if endpoint == 0 then LoadSetup(order, c.setup) else stale,
               0, |data| % TWO_32, now))
  }

  /** `u` is what the bytes of a payload say, byte by byte. */
  predicate ReadOff(order: ByteOrder, p: seq<byte>, now: uint64, stale: SetupPacket, u: Urb)
    requires |p| >= 48
  {
    var n := Signed(Word(p, 24));
    && u.id == Word(p, 4) && u.direction == p[15] && u.endpoint == p[19] && u.flags == Word(p, 20)
    && u.kind == (if p[19] == 0 then Control else Bulk)
    && (if p[19] == 0 then IsSetup(order, p[40..48], u.setup) else u.setup == stale)
    && u.data == (if 0 < n <= |p| - 48 then p[48..48 + n] else [])
    && u.status == 0 && u.actualLength == |u.data| && u.timestamp == now
  }

  lemma RebuildReadsOff(order: ByteOrder, p: seq<byte>, now: uint64, stale: SetupPacket)
    ensures var u := Rebuild(order, p, now, stale);
            (u.Some? <==> |p| >= 48) && (u.Some? ==> ReadOff(order, p, now, stale, u.value))
  {
    if |p| >= 48 {
      WordLastByte(p, 12);
      WordLastByte(p, 16);
      LoadedIsSetup(order, p[40..48]);
    }
  }

  method HandleUrbSubmit(order: ByteOrder, payload: seq<byte>, now: uint64, stale: SetupPacket)
    returns (result: Option<Urb>)
    ensures result == Rebuild(order, payload, now, stale)
    ensures result.Some? <==> |payload| >= 48
    ensures result.Some? ==> ReadOff(order, payload, now, stale, result.value)
  {
    RebuildReadsOff(order, payload, now, stale);
    if |payload| < CMD_SIZE {
      return None;
    }
    var cmd := new CmdStruct(CmdSubmit(UsbipHeader(0, 0, 0, 0, 0), 0, 0, 0, 0, 0, NO_SETUP));
    var ok := cmd.ParseCmdSubmit(order, payload);
    if !ok {
      return None;
    }
    var urb := Urb(cmd.header.seqnum, Bulk, cmd.header.direction % 0x100, cmd.header.ep % 0x100,
                   cmd.transferFlags, [], stale, 0, 0, now);
    if urb.endpoint == 0 {
      urb := urb.(kind := Control, setup := LoadSetup(order, cmd.setup));
    } else {
      urb := urb.(kind := Bulk);
    }
    if cmd.transferBufferLength > 0 {
      var offset := CMD_SIZE;
      if |payload| >= offset + cmd.transferBufferLength {
        urb := urb.(data := payload[offset..offset + cmd.transferBufferLength]);
      }
    }
    urb := urb.(status := 0, actualLength := |urb.data| % TWO_32);
    return Some(urb);
  }

  // ---------- OUT URBs ----------

  /** An OUT URB as the other side sees it. */
  function Received(from: ByteOrder, to: ByteOrder, urb: Urb, now: uint64, stale: SetupPacket): Urb {
    var raw := if urb.kind == Control then SetupMemory(from, urb.setup) else NO_SETUP;
    urb.(id := 1, kind := if urb.endpoint == 0 then Control else Bulk,
         setup := if urb.endpoint == 0 then LoadSetup(to, raw) else stale,
         status := 0, actualLength := |urb.data| % TWO_32, timestamp := now)
  }

  predicate FitsOneMessage(urb: Urb) {
    |urb.data| <= MAX_MESSAGE_SIZE - CMD_SIZE
  }

  lemma CommandRebuilt(order: ByteOrder, c: CmdSubmit, data: seq<byte>, now: uint64, stale: SetupPacket)
    requires c.transferBufferLength == |data|
    ensures Rebuild(order, EncodeCmd(c) + data, now, stale)
         == Some(Urb(c.header.seqnum, if c.header.ep % 0x100 == 0 then Control else Bulk, c.header.direction % 0x100,
                     c.header.ep % 0x100, c.transferFlags, data,
                     if c.header.ep % 0x100 == 0 then LoadSetup(order, c.setup) else stale, 0, |data|, now))
  {
    hide EncodeCmd, DecodeCmd, LoadSetup;
    DecodeEncodeCmd(c, data);
    assert (EncodeCmd(c) + data)[CMD_SIZE..CMD_SIZE + |data|] == data;
  }

  lemma OutUrbRebuilt(from: ByteOrder, to: ByteOrder, urb: Urb, now: uint64, stale: SetupPacket)
    requires urb.direction == DIR_OUT && |urb.data| < 0x8000_0000
    ensures Rebuild(to, UrbPayload(from, urb, 1), now, stale) == Some(Received(from, to, urb, now, stale))
  {
    hide EncodeCmd, Rebuild, LoadSetup, SetupMemory;
    CommandRebuilt(to, CmdOf(from, urb, 1), urb.data, now, stale);
  }

  /** The messages of a list of URBs, with consecutive numbers from the counter. */
  function UrbMessages(order: ByteOrder, urbs: seq<Urb>, first: uint32): (ms: seq<Message>)
    ensures |ms| == |urbs|
    decreases |urbs|
  {
    if urbs == [] then
      []
    else
      [Sealed(UrbMessage(order, urbs[0], first))] + UrbMessages(order, urbs[1..], (first + 1) % TWO_32)
  }

  lemma UrbMessageGood(from: ByteOrder, urb: Urb, sequence: uint32)
    requires urb.direction == DIR_OUT && FitsOneMessage(urb)
    ensures var m := Sealed(UrbMessage(from, urb, sequence));
            WellFramed(m) && Intact(m) && m.header.kind == URB_SUBMIT && m.payload == UrbPayload(from, urb, 1)
  {}

  /** What one call of the receiver finds around it: the clock, and what the
      uninitialised setup field holds. */
  datatype Reading = Reading(now: uint64, stale: SetupPacket)

  /** What the receiver's callbacks make of a list of delivered messages, and what
      they should make of the messages of `urbs`. */
  function RebuildAll(order: ByteOrder, ms: seq<Message>, readings: seq<Reading>): seq<Option<Urb>>
    requires |readings| == |ms|
    decreases |ms|
  {
    if ms == [] then
      []
    else
      [if ms[0].header.kind == URB_SUBMIT then
         Rebuild(order, ms[0].payload, readings[0].now, readings[0].stale)
       else
         None]
      + RebuildAll(order, ms[1..], readings[1..])
  }

  function ReceivedAll(from: ByteOrder, to: ByteOrder, urbs: seq<Urb>, readings: seq<Reading>): seq<Option<Urb>>
    requires |readings| == |urbs|
    decreases |urbs|
  {
    if urbs == [] then
      []
    else
      [Some(Received(from, to, urbs[0], readings[0].now, readings[0].stale))]
      + ReceivedAll(from, to, urbs[1..], readings[1..])
  }

  predicate AllOut(urbs: seq<Urb>) {
    forall i :: 0 <= i < |urbs| ==> urbs[i].direction == DIR_OUT && FitsOneMessage(urbs[i])
  }

  lemma {:induction false} UrbMessagesGood(from: ByteOrder, urbs: seq<Urb>, first: uint32)
    requires AllOut(urbs)
    ensures AllFramed(UrbMessages(from, urbs, first)) && AllIntact(UrbMessages(from, urbs, first))
    decreases |urbs|
  {
    hide UrbMessage, Sealed, WellFramed, Intact;
    if urbs != [] {
      UrbMessageGood(from, urbs[0], first);
      UrbMessagesGood(from, urbs[1..], (first + 1) % TWO_32);
    }
  }

  lemma {:induction false} UrbMessagesRebuilt(from: ByteOrder, to: ByteOrder, urbs: seq<Urb>, first: uint32,
                                              readings: seq<Reading>)
    requires AllOut(urbs) && |readings| == |urbs|
    ensures RebuildAll(to, UrbMessages(from, urbs, first), readings) == ReceivedAll(from, to, urbs, readings)
    decreases |urbs|
  {
    hide Rebuild, Received, UrbPayload;
    if urbs != [] {
      UrbMessageGood(from, urbs[0], first);
      OutUrbRebuilt(from, to, urbs[0], readings[0].now, readings[0].stale);
      UrbMessagesRebuilt(from, to, urbs[1..], (first + 1) % TWO_32, readings[1..]);
    }
  }

  /** All layers composed. For any list of OUT URBs that fit a message each, any
      byte orders of the two hosts and any chunking of the stream, the receiver
      gets one message a URB, in order and nothing else, and rebuilds from them the
      URBs with their data, flags, endpoints and directions, whatever each call
      reads from the clock and finds in uninitialised memory. */
  lemma OutUrbsRoundTrip(from: ByteOrder, to: ByteOrder, urbs: seq<Urb>, first: uint32,
                         chunks: seq<seq<byte>>, readings: seq<Reading>)
    requires AllOut(urbs) && Flatten(chunks) == Stream(UrbMessages(from, urbs, first))
    requires |readings| == |urbs|
    ensures FeedAll(to, FRESH, chunks).buffer == []
    ensures |FeedAll(to, FRESH, chunks).deliveries| == |urbs|
    ensures RebuildAll(to, Messages(FeedAll(to, FRESH, chunks).deliveries), readings)
         == ReceivedAll(from, to, urbs, readings)
  {
    UrbMessagesGood(from, urbs, first);
    UrbMessagesRebuilt(from, to, urbs, first, readings);
    IntactStreamUnderAnyChunking(to, FRESH, UrbMessages(from, urbs, first), chunks);
    assert Messages(FRESH.deliveries) + UrbMessages(from, urbs, first) == UrbMessages(from, urbs, first);
  }

  /** Exactly when the transfer type and the setup packet survive too: the type for
      control on endpoint 0 and bulk on any other, the setup of a control URB on
      endpoint 0 when the hosts agree on byte order or its words read the same. */
  lemma OutUrbKindAndSetup(from: ByteOrder, to: ByteOrder, urb: Urb, now: uint64, stale: SetupPacket)
    ensures Received(from, to, urb, now, stale).kind == urb.kind
       <==> (urb.kind == Control && urb.endpoint == 0) || (urb.kind == Bulk && urb.endpoint != 0)
    ensures urb.kind == Control && urb.endpoint == 0 ==>
              (Received(from, to, urb, now, stale).setup == urb.setup
               <==>
               from == to
               || (SameBytes(urb.setup.value) && SameBytes(urb.setup.index) && SameBytes(urb.setup.length)))
  {
    SetupCrossesHosts(from, to, urb.setup);
  }

  // ---------- IN URBs ----------

  lemma DataAfterReply(reply: seq<byte>, data: seq<byte>, n: int)
    requires |reply| == RET_SIZE
    ensures 0 < n <= |data| - 8 ==> (reply + data)[CMD_SIZE..CMD_SIZE + n] == data[8..8 + n]
  {
    if 0 < n <= |data| - 8 {
      assert (reply + data)[CMD_SIZE..CMD_SIZE + n] == data[8..8 + n];
    }
  }

  /** What the receiver makes of an IN URB: the status for the flags, the first eight
      data bytes for the setup packet, and the data eight bytes late. */
  function Misread(to: ByteOrder, urb: Urb, now: uint64, stale: SetupPacket): Option<Urb> {
    if |urb.data| < 8 then
      None
    else
      var n := Signed(urb.actualLength);
      var late := if 0 < n <= |urb.data| - 8 then urb.data[8..8 + n] else [];
      Some(Urb(1, if urb.endpoint == 0 then Control else Bulk, urb.direction, urb.endpoint, Unsigned(urb.status), late,
               if urb.endpoint == 0 then LoadSetup(to, urb.data[..8]) else stale, 0, |late|, now))
  }

  /** What an IN URB turns into: the reply header is eight bytes shorter than the
      command the receiver parses, so the first eight data bytes are taken for the
      setup packet, the status for the flags, and the data starts eight bytes late. */
  lemma InUrbMisread(from: ByteOrder, to: ByteOrder, urb: Urb, now: uint64, stale: SetupPacket)
    requires urb.direction != DIR_OUT
    ensures Rebuild(to, UrbPayload(from, urb, 1), now, stale) == Misread(to, urb, now, stale)
  {
    hide EncodeRet, DecodeCmd, LoadSetup;
    if |urb.data| >= 8 {
      var r := RetOf(urb, 1);
      ReplyReadAsCommand(r, urb.data);
      DataAfterReply(EncodeRet(r), urb.data, r.actualLength);
    }
  }

  lemma LongCommandLosesData(from: ByteOrder, to: ByteOrder, urb: Urb, now: uint64, stale: SetupPacket)
    requires urb.direction == DIR_OUT && |urb.data| >= 0x8000_0000
    ensures var u := Rebuild(to, UrbPayload(from, urb, 1), now, stale); u.Some? && |u.value.data| < |urb.data|
  {
    DecodeEncodeCmd(CmdOf(from, urb, 1), urb.data);
  }

  /** Which URBs come back with their data from the payload they are sent as: the
      OUT ones whose size is not negative as a signed 32-bit value, and no other. */
  lemma DataSurvivesExact(from: ByteOrder, to: ByteOrder, urb: Urb, now: uint64, stale: SetupPacket)
    ensures (var u := Rebuild(to, UrbPayload(from, urb, 1), now, stale); u.Some? && u.value.data == urb.data)
       <==> urb.direction == DIR_OUT && |urb.data| < 0x8000_0000
    ensures urb.direction != DIR_OUT && urb.actualLength == |urb.data| ==>
              var u := Rebuild(to, UrbPayload(from, urb, 1), now, stale); u.None? || u.value.data == []
  {
    if urb.direction != DIR_OUT {
      InUrbMisread(from, to, urb, now, stale);
    } else if |urb.data| < 0x8000_0000 {
      OutUrbRebuilt(from, to, urb, now, stale);
    } else {
      LongCommandLosesData(from, to, urb, now, stale);
    }
  }

  /** The callback gets a message from which the data of `urb` is rebuilt. */
  ghost predicate DataArrives(to: ByteOrder, ds: seq<Delivery>, urb: Urb, reading: Reading) {
    exists i :: 0 <= i < |ds| && CarriesData(to, ds[i].message, urb, reading)
  }

  predicate CarriesData(to: ByteOrder, m: Message, urb: Urb, reading: Reading) {
    var u := Rebuild(to, m.payload, reading.now, reading.stale);
    m.header.kind == URB_SUBMIT && u.Some? && u.value.data == urb.data
  }

  lemma PayloadSize(order: ByteOrder, urb: Urb)
    ensures |UrbPayload(order, urb, 1)| == |urb.data| + if urb.direction == DIR_OUT then CMD_SIZE else RET_SIZE
  {}

  lemma RebuiltDataIsShort(to: ByteOrder, m: Message, urb: Urb, reading: Reading)
    requires WellFramed(m) && CarriesData(to, m, urb, reading)
    ensures |urb.data| <= MAX_MESSAGE_SIZE - CMD_SIZE
  {}

  lemma UrbMessageArrives(from: ByteOrder, to: ByteOrder, urb: Urb, sequence: uint32, chunks: seq<seq<byte>>)
    requires |UrbPayload(from, urb, 1)| <= MAX_MESSAGE_SIZE
    requires Flatten(chunks) == Serialize(UrbMessage(from, urb, sequence))
    ensures var m := Sealed(UrbMessage(from, urb, sequence));
            FeedAll(to, FRESH, chunks).deliveries == [Delivery(0, m)] && m.payload == UrbPayload(from, urb, 1)
  {
    hide UrbPayload, FeedAll, Flatten, Serialize;
    NewMessageRoundTrip(to, URB_SUBMIT, UrbPayload(from, urb, 1), sequence);
  }

  /** From end to end: under every chunking of the message of a URB its data reaches
      the receiver's callback if and only if it is an OUT URB that fits one message.
      No larger URB comes through, not even by what its payload is mistaken for. */
  lemma UrbArrivesExact(from: ByteOrder, to: ByteOrder, urb: Urb, sequence: uint32, chunks: seq<seq<byte>>,
                        reading: Reading)
    requires Flatten(chunks) == Serialize(UrbMessage(from, urb, sequence))
    ensures DataArrives(to, FeedAll(to, FRESH, chunks).deliveries, urb, reading)
       <==> urb.direction == DIR_OUT && FitsOneMessage(urb)
  {
    hide Rebuild, UrbPayload, FeedAll, Flatten;
    var ds := FeedAll(to, FRESH, chunks).deliveries;
    PayloadSize(from, urb);
    if |UrbPayload(from, urb, 1)| <= MAX_MESSAGE_SIZE {
      UrbMessageArrives(from, to, urb, sequence, chunks);
      DataSurvivesExact(from, to, urb, reading.now, reading.stale);
      assert ds[0].message == Sealed(UrbMessage(from, urb, sequence));
    } else {
      FeedAllSound(to, [], FRESH, chunks);
      forall i | 0 <= i < |ds|
        ensures !CarriesData(to, ds[i].message, urb, reading)
      {
        if CarriesData(to, ds[i].message, urb, reading) {
          RebuiltDataIsShort(to, ds[i].message, urb, reading);
        }
      }
    }
  }
}
