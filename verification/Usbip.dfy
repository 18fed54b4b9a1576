/** The USB/IP command structures: their in-place byte-order conversions, their wire
    layout, and the decoders that must undo the encoders. */
module Usbip {
  import opened Bytes
  import opened Framing

  const CMD_SIZE: int := 48
  const RET_SIZE: int := 40

  const CMD_SUBMIT: uint32 := 1
  const RET_SUBMIT: uint32 := 3

  /** The mass-storage class code of interfaces and devices. */
  const MASS_STORAGE: byte := 0x08

  /** Eight bytes that no conversion touches: the setup packet as it lay in memory. */
  type SetupBytes = b: seq<byte> | |b| == 8 witness [0, 0, 0, 0, 0, 0, 0, 0]

  const NO_SETUP: SetupBytes := [0, 0, 0, 0, 0, 0, 0, 0]

  datatype UsbipHeader = UsbipHeader(command: uint32, seqnum: uint32, devid: uint32, direction: uint32, ep: uint32)

  datatype CmdSubmit = CmdSubmit(
    header: UsbipHeader, transferFlags: uint32, transferBufferLength: int32,
    startFrame: int32, numberOfPackets: int32, interval: int32, setup: SetupBytes)

  datatype RetSubmit = RetSubmit(
    header: UsbipHeader, status: int32, actualLength: int32,
    startFrame: int32, numberOfPackets: int32, errorCount: int32)

  // ---------- conversions on values ----------

  function HtonlSigned(order: ByteOrder, x: int32): int32 {
    Signed(Htonl(order, Unsigned(x)))
  }

  function NtohlSigned(order: ByteOrder, x: int32): int32 {
    Signed(Ntohl(order, Unsigned(x)))
  }

  function HeaderWordsOf(h: UsbipHeader): seq<uint32> {
    [h.command, h.seqnum, h.devid, h.direction, h.ep]
  }

  function CmdWords(c: CmdSubmit): seq<uint32> {
    HeaderWordsOf(c.header) + [c.transferFlags, Unsigned(c.transferBufferLength), Unsigned(c.startFrame),
                               Unsigned(c.numberOfPackets), Unsigned(c.interval)]
  }

  function RetWords(r: RetSubmit): seq<uint32> {
    HeaderWordsOf(r.header) + [Unsigned(r.status), Unsigned(r.actualLength), Unsigned(r.startFrame),
                               Unsigned(r.numberOfPackets), Unsigned(r.errorCount)]
  }

  /** The wire form: ten big-endian words, and for a command the setup bytes. */
  function EncodeCmd(c: CmdSubmit): (b: seq<byte>)
    ensures |b| == CMD_SIZE
  {
    WordBytes(CmdWords(c)) + c.setup
  }

  function EncodeRet(r: RetSubmit): (b: seq<byte>)
    ensures |b| == RET_SIZE
  {
    WordBytes(RetWords(r))
  }

  function DecodeUsbipHeader(b: seq<byte>): UsbipHeader
    requires |b| >= 20
  {
    UsbipHeader(Word(b, 0), Word(b, 4), Word(b, 8), Word(b, 12), Word(b, 16))
  }

  function DecodeCmd(b: seq<byte>): CmdSubmit
    requires |b| >= CMD_SIZE
  {
    CmdSubmit(DecodeUsbipHeader(b), Word(b, 20), Signed(Word(b, 24)), Signed(Word(b, 28)),
              Signed(Word(b, 32)), Signed(Word(b, 36)), b[40..48])
  }

  function DecodeRet(b: seq<byte>): RetSubmit
    requires |b| >= RET_SIZE
  {
    RetSubmit(DecodeUsbipHeader(b), Signed(Word(b, 20)), Signed(Word(b, 24)), Signed(Word(b, 28)),
              Signed(Word(b, 32)), Signed(Word(b, 36)))
  }

  lemma TenWords(ws: seq<uint32>, tail: seq<byte>)
    requires |ws| == 10
    ensures var b := WordBytes(ws) + tail;
            && Word(b, 0) == ws[0] && Word(b, 4) == ws[1] && Word(b, 8) == ws[2] && Word(b, 12) == ws[3]
            && Word(b, 16) == ws[4] && Word(b, 20) == ws[5] && Word(b, 24) == ws[6] && Word(b, 28) == ws[7]
            && Word(b, 32) == ws[8] && Word(b, 36) == ws[9]
  {
    WordOfWords(ws, tail, 0);
    WordOfWords(ws, tail, 1);
    WordOfWords(ws, tail, 2);
    WordOfWords(ws, tail, 3);
    WordOfWords(ws, tail, 4);
    WordOfWords(ws, tail, 5);
    WordOfWords(ws, tail, 6);
    WordOfWords(ws, tail, 7);
    WordOfWords(ws, tail, 8);
    WordOfWords(ws, tail, 9);
  }

  /** Where each field of a command and of a reply stands on the wire. */
  lemma CmdLayout(c: CmdSubmit, data: seq<byte>)
    ensures var b := EncodeCmd(c) + data;
            && Word(b, 0) == c.header.command && Word(b, 4) == c.header.seqnum && Word(b, 8) == c.header.devid
            && Word(b, 12) == c.header.direction && Word(b, 16) == c.header.ep
            && Word(b, 20) == c.transferFlags && Signed(Word(b, 24)) == c.transferBufferLength
            && Signed(Word(b, 28)) == c.startFrame && Signed(Word(b, 32)) == c.numberOfPackets
            && Signed(Word(b, 36)) == c.interval
            && b[40..48] == c.setup && b[48..] == data
  {
    ConcatAssociative(WordBytes(CmdWords(c)), c.setup, data);
    TenWords(CmdWords(c), c.setup + data);
    hide Word, WordBytes;
    assert (EncodeCmd(c) + data)[40..48] == c.setup;
  }

  lemma RetLayout(r: RetSubmit, data: seq<byte>)
    ensures var b := EncodeRet(r) + data;
            && Word(b, 0) == r.header.command && Word(b, 4) == r.header.seqnum && Word(b, 8) == r.header.devid
            && Word(b, 12) == r.header.direction && Word(b, 16) == r.header.ep
            && Signed(Word(b, 20)) == r.status && Signed(Word(b, 24)) == r.actualLength
            && Signed(Word(b, 28)) == r.startFrame && Signed(Word(b, 32)) == r.numberOfPackets
            && Signed(Word(b, 36)) == r.errorCount
            && b[40..] == data
  {
    TenWords(RetWords(r), data);
  }

  /** Decoding undoes encoding, whatever data follows. */
  lemma DecodeEncodeCmd(c: CmdSubmit, data: seq<byte>)
    ensures DecodeCmd(EncodeCmd(c) + data) == c
  {
    ConcatAssociative(WordBytes(CmdWords(c)), c.setup, data);
    TenWords(CmdWords(c), c.setup + data);
    assert (EncodeCmd(c) + data)[40..48] == c.setup;
  }

  lemma DecodeEncodeRet(r: RetSubmit, data: seq<byte>)
    ensures DecodeRet(EncodeRet(r) + data) == r
  {
    TenWords(RetWords(r), data);
  }

  /** A reply decoded as a command: eight bytes are missing, and the data fills in. */
  lemma ReplyReadAsCommand(r: RetSubmit, data: seq<byte>)
    requires |data| >= 8
    ensures DecodeCmd(EncodeRet(r) + data)
         == CmdSubmit(r.header, Unsigned(r.status), r.actualLength, r.startFrame, r.numberOfPackets, r.errorCount,
                      data[..8])
  {
    TenWords(RetWords(r), data);
    assert (EncodeRet(r) + data)[40..48] == data[..8];
  }

  /** Encoding undoes decoding, so the decoders accept every byte string. */
  lemma EncodeDecodeCmd(b: seq<byte>)
    requires |b| >= CMD_SIZE
    ensures EncodeCmd(DecodeCmd(b)) == b[..CMD_SIZE]
  {
    var ws := CmdWords(DecodeCmd(b));
    assert |ws| == 10;
    assert forall i :: 0 <= i < 10 ==> ws[i] == Word(b, 4 * i);
    WordsOfBytes(b, ws);
    assert b[..CMD_SIZE] == b[..40] + b[40..48];
  }

  // ---------- the structures in memory ----------

  /** A header in memory, converted in place. */
  class HeaderStruct {
    var command: uint32
    var seqnum: uint32
    var devid: uint32
    var direction: uint32
    var ep: uint32

    function Value(): UsbipHeader
      reads this
    {
      UsbipHeader(command, seqnum, devid, direction, ep)
    }

    constructor (h: UsbipHeader)
      ensures Value() == h
    {
      command, seqnum, devid, direction, ep := h.command, h.seqnum, h.devid, h.direction, h.ep;
    }

    method HostToNetwork(order: ByteOrder)
      modifies this
      ensures forall i :: 0 <= i < 5 ==> HeaderWordsOf(Value())[i] == Htonl(order, HeaderWordsOf(old(Value()))[i])
    {
      command := Htonl(order, command);
      seqnum := Htonl(order, seqnum);
      devid := Htonl(order, devid);
      direction := Htonl(order, direction);
      ep := Htonl(order, ep);
    }

    method NetworkToHost(order: ByteOrder)
      modifies this
      ensures forall i :: 0 <= i < 5 ==> HeaderWordsOf(Value())[i] == Ntohl(order, HeaderWordsOf(old(Value()))[i])
    {
      command := Ntohl(order, command);
      seqnum := Ntohl(order, seqnum);
      devid := Ntohl(order, devid);
      direction := Ntohl(order, direction);
      ep := Ntohl(order, ep);
    }
  }

  /** A submit command in memory. Both conversions leave `setup` alone. */
  class CmdStruct {
    const header: HeaderStruct
    var transferFlags: uint32
    var transferBufferLength: int32
    var startFrame: int32
    var numberOfPackets: int32
    var interval: int32
    var setup: SetupBytes

    function Value(): CmdSubmit
      reads this, header
    {
      CmdSubmit(header.Value(), transferFlags, transferBufferLength, startFrame, numberOfPackets, interval, setup)
    }

    /** The bytes of the structure as they lie in memory. */
    function Image(order: ByteOrder): seq<byte>
      reads this, header
    {
      MemoryWords(order, CmdWords(Value())) + setup
    }

    constructor (c: CmdSubmit)
      ensures Value() == c && fresh(header)
    {
      header := new HeaderStruct(c.header);
      transferFlags, transferBufferLength := c.transferFlags, c.transferBufferLength;
      startFrame, numberOfPackets, interval := c.startFrame, c.numberOfPackets, c.interval;
      setup := c.setup;
    }

    method HostToNetwork(order: ByteOrder)
      modifies this, header
      ensures Image(order) == EncodeCmd(old(Value()))
    {
      header.HostToNetwork(order);
      transferFlags := Htonl(order, transferFlags);
      transferBufferLength := HtonlSigned(order, transferBufferLength);
      startFrame := HtonlSigned(order, startFrame);
      numberOfPackets := HtonlSigned(order, numberOfPackets);
      interval := HtonlSigned(order, interval);
      SwappedImage(order, CmdWords(old(Value())), CmdWords(Value()));
    }

    /** Filling the structure from received bytes and converting it back. */
    method ParseCmdSubmit(order: ByteOrder, data: seq<byte>) returns (ok: bool)
      modifies this, header
      ensures ok <==> |data| >= CMD_SIZE
      ensures Value() == if ok then DecodeCmd(data) else old(Value())
    {
      if |data| < CMD_SIZE {
        return false;
      }
      CopyFrom(order, data);
      NetworkToHost(order);
      LoadedTen(order, data);
      CmdFromWords(Value(), data);
      return true;
    }

    /** The `memcpy` of received bytes over the structure. */
    method CopyFrom(order: ByteOrder, data: seq<byte>)
      requires |data| >= CMD_SIZE
      modifies this, header
      ensures forall i :: 0 <= i < 10 ==> CmdWords(Value())[i] == Load32(order, data[4 * i..4 * i + 4])
      ensures setup == data[40..48]
    {
      hide Load32;
      header.command, header.seqnum := Load32(order, data[0..4]), Load32(order, data[4..8]);
      header.devid, header.direction := Load32(order, data[8..12]), Load32(order, data[12..16]);
      header.ep := Load32(order, data[16..20]);
      transferFlags := Load32(order, data[20..24]);
      transferBufferLength := Signed(Load32(order, data[24..28]));
      startFrame := Signed(Load32(order, data[28..32]));
      numberOfPackets := Signed(Load32(order, data[32..36]));
      interval := Signed(Load32(order, data[36..40]));
      setup := data[40..48];
    }

    method NetworkToHost(order: ByteOrder)
      modifies this, header
      ensures forall i :: 0 <= i < 10 ==> CmdWords(Value())[i] == Ntohl(order, CmdWords(old(Value()))[i])
      ensures setup == old(setup)
    {
      header.NetworkToHost(order);
      transferFlags := Ntohl(order, transferFlags);
      transferBufferLength := NtohlSigned(order, transferBufferLength);
      startFrame := NtohlSigned(order, startFrame);
      numberOfPackets := NtohlSigned(order, numberOfPackets);
      interval := NtohlSigned(order, interval);
    }
  }

  lemma CmdFromWords(c: CmdSubmit, b: seq<byte>)
    requires |b| >= CMD_SIZE && c.setup == b[40..48]
    requires forall i :: 0 <= i < 10 ==> CmdWords(c)[i] == Word(b, 4 * i)
    ensures c == DecodeCmd(b)
  {
    var ws := CmdWords(c);
    assert ws[0] == Word(b, 0) && ws[1] == Word(b, 4) && ws[2] == Word(b, 8) && ws[3] == Word(b, 12);
    assert ws[4] == Word(b, 16) && ws[5] == Word(b, 20) && ws[6] == Word(b, 24) && ws[7] == Word(b, 28);
    assert ws[8] == Word(b, 32) && ws[9] == Word(b, 36);
  }

  /** A submit reply in memory. */
  class RetStruct {
    const header: HeaderStruct
    var status: int32
    var actualLength: int32
    var startFrame: int32
    var numberOfPackets: int32
    var errorCount: int32

    function Value(): RetSubmit
      reads this, header
    {
      RetSubmit(header.Value(), status, actualLength, startFrame, numberOfPackets, errorCount)
    }

    function Image(order: ByteOrder): seq<byte>
      reads this, header
    {
      MemoryWords(order, RetWords(Value()))
    }

    constructor (r: RetSubmit)
      ensures Value() == r && fresh(header)
    {
      header := new HeaderStruct(r.header);
      status, actualLength, startFrame := r.status, r.actualLength, r.startFrame;
      numberOfPackets, errorCount := r.numberOfPackets, r.errorCount;
    }

    method HostToNetwork(order: ByteOrder)
      modifies this, header
      ensures Image(order) == EncodeRet(old(Value()))
    {
      header.HostToNetwork(order);
      status := HtonlSigned(order, status);
      actualLength := HtonlSigned(order, actualLength);
      startFrame := HtonlSigned(order, startFrame);
      numberOfPackets := HtonlSigned(order, numberOfPackets);
      errorCount := HtonlSigned(order, errorCount);
      SwappedImage(order, RetWords(old(Value())), RetWords(Value()));
    }
  }

  /** Serializers: a converted copy of the structure, followed by the data. */
  method SerializeCmdSubmit(order: ByteOrder, cmd: CmdSubmit, data: seq<byte>) returns (buffer: seq<byte>)
    ensures buffer == EncodeCmd(cmd) + data
  {
    var netCmd := new CmdStruct(cmd);
    netCmd.HostToNetwork(order);
    buffer := netCmd.Image(order) + data;
  }

  method SerializeRetSubmit(order: ByteOrder, ret: RetSubmit, data: seq<byte>) returns (buffer: seq<byte>)
    ensures buffer == EncodeRet(ret) + data
  {
    var netRet := new RetStruct(ret);
    netRet.HostToNetwork(order);
    buffer := netRet.Image(order) + data;
  }

  lemma SwappedImage(order: ByteOrder, ws: seq<uint32>, swapped: seq<uint32>)
    requires |ws| == |swapped| && forall i :: 0 <= i < |ws| ==> swapped[i] == Htonl(order, ws[i])
    ensures MemoryWords(order, swapped) == WordBytes(ws)
  {
    MemoryOfSwapped(order, ws, swapped);
  }

  lemma LoadedTen(order: ByteOrder, b: seq<byte>)
    requires |b| >= 40
    ensures forall i :: 0 <= i < 10 ==> Ntohl(order, Load32(order, b[4 * i..4 * i + 4])) == Word(b, 4 * i)
  {
    forall i | 0 <= i < 10
      ensures Ntohl(order, Load32(order, b[4 * i..4 * i + 4])) == Word(b, 4 * i)
    {
      LoadedWord(order, b, 4 * i);
    }
  }
}
