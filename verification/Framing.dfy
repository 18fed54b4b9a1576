/** The framed message stream: header layout, checksum, printer and the
    specification of the incremental parser as a function on byte strings. */
module Framing {
  import opened Bytes

  const MESSAGE_MAGIC: uint32 := 0x5553_4249
  const MAX_MESSAGE_SIZE: int := 1024 * 1024
  const HEADER_SIZE: int := 20

  datatype Header = Header(magic: uint32, kind: uint32, length: uint32, sequence: uint32, checksum: uint32)

  datatype Message = Message(header: Header, payload: seq<byte>)

  // ---------- checksum ----------

  /** The exact sum of the bytes of a payload. */
  function Sum(p: seq<byte>): nat {
    if p == [] then 0 else Sum(p[..|p| - 1]) + p[|p| - 1]
  }

  function Checksum(p: seq<byte>): uint32 {
    Sum(p) % TWO_32
  }

  lemma {:induction false} SumBound(p: seq<byte>)
    ensures Sum(p) <= 255 * |p|
  {
    if p != [] {
      SumBound(p[..|p| - 1]);
    }
  }

  lemma {:induction false} SumAppend(p: seq<byte>, q: seq<byte>)
    ensures Sum(p + q) == Sum(p) + Sum(q)
  {
    if q == [] {
      assert p + q == p;
    } else {
      assert (p + q)[..|p + q| - 1] == p + q[..|q| - 1];
      SumAppend(p, q[..|q| - 1]);
    }
  }

  /** For every payload a frame may carry, the 32-bit sum is the exact sum. */
  lemma ChecksumDoesNotWrap(p: seq<byte>)
    requires |p| <= MAX_MESSAGE_SIZE
    ensures Checksum(p) == Sum(p)
  {
    SumBound(p);
  }

  lemma SumOfOne(x: byte)
    ensures Sum([x]) == x
  {
    assert [x][..0] == [];
  }

  lemma SumSplit(p: seq<byte>, i: nat)
    requires i < |p|
    ensures Sum(p) == Sum(p[..i]) + p[i] + Sum(p[i + 1..])
  {
    hide Sum;
    var before, behind := p[..i], p[i + 1..];
    assert p == before + [p[i]] + behind;
    SumAppend(before + [p[i]], behind);
    SumAppend(before, [p[i]]);
    SumOfOne(p[i]);
  }

  /** Rearranging a payload leaves its sum as it is. */
  lemma {:induction false} SumPermutation(p: seq<byte>, q: seq<byte>)
    requires multiset(p) == multiset(q)
    ensures Sum(p) == Sum(q)
    decreases |p|
  {
    assert |p| == |multiset(p)| == |multiset(q)| == |q|;
    if p != [] {
      var last := p[|p| - 1];
      assert p == p[..|p| - 1] + [last];
      assert last in multiset(q);
      var i :| 0 <= i < |q| && q[i] == last;
      assert q == q[..i] + [last] + q[i + 1..];
      var q' := q[..i] + q[i + 1..];
      assert multiset(q') == multiset(q) - multiset{last};
      assert multiset(p[..|p| - 1]) == multiset(p) - multiset{last};
      SumPermutation(p[..|p| - 1], q');
      SumSplit(q, i);
      SumAppend(q[..i], q[i + 1..]);
    }
  }

  /** Exactly what the checksum detects, for payloads that fit a frame: two
      payloads collide when and only when their byte sums agree, so no
      rearrangement is noticed and every single-byte change is. */
  lemma ChecksumDetects(p: seq<byte>, q: seq<byte>)
    requires |p| <= MAX_MESSAGE_SIZE && |q| <= MAX_MESSAGE_SIZE
    ensures Checksum(p) == Checksum(q) <==> Sum(p) == Sum(q)
    ensures multiset(p) == multiset(q) ==> Checksum(p) == Checksum(q)
    ensures forall i, v: byte {:trigger p[i := v]} :: 0 <= i < |p| && v != p[i] ==> Checksum(p[i := v]) != Checksum(p)
  {
    ChecksumDoesNotWrap(p);
    ChecksumDoesNotWrap(q);
    if multiset(p) == multiset(q) {
      SumPermutation(p, q);
    }
    forall i, v: byte {:trigger p[i := v]} | 0 <= i < |p| && v != p[i]
      ensures Checksum(p[i := v]) != Checksum(p)
    {
      var p' := p[i := v];
      ChecksumDoesNotWrap(p');
      SumSplit(p, i);
      SumSplit(p', i);
      assert p'[..i] == p[..i] && p'[i + 1..] == p[i + 1..];
    }
  }

  // ---------- printer ----------

  function HeaderWords(h: Header): seq<uint32> {
    [h.magic, h.kind, h.length, h.sequence, h.checksum]
  }

  function EncodeHeader(h: Header): (b: seq<byte>)
    ensures |b| == HEADER_SIZE
  {
    WordBytes(HeaderWords(h))
  }

  function DecodeHeader(b: seq<byte>): Header
    requires |b| >= HEADER_SIZE
  {
    Header(Word(b, 0), Word(b, 4), Word(b, 8), Word(b, 12), Word(b, 16))
  }

  lemma DecodeEncodeHeader(h: Header, tail: seq<byte>)
    ensures DecodeHeader(EncodeHeader(h) + tail) == h
  {
    var ws := HeaderWords(h);
    WordOfWords(ws, tail, 0);
    WordOfWords(ws, tail, 1);
    WordOfWords(ws, tail, 2);
    WordOfWords(ws, tail, 3);
    WordOfWords(ws, tail, 4);
  }

  lemma EncodeDecodeHeader(b: seq<byte>)
    requires |b| >= HEADER_SIZE
    ensures EncodeHeader(DecodeHeader(b)) == b[..HEADER_SIZE]
  {
    WordsOfBytes(b, HeaderWords(DecodeHeader(b)));
  }

  /** The bytes of a message exactly as its header stands. */
  function Encode(m: Message): (b: seq<byte>)
    ensures |b| == HEADER_SIZE + |m.payload|
  {
    EncodeHeader(m.header) + m.payload
  }

  /** The message as it is put on the wire: only the checksum is filled in. */
  function Sealed(m: Message): Message {
    m.(header := m.header.(checksum := Checksum(m.payload)))
  }

  function Serialize(m: Message): seq<byte> {
    Encode(Sealed(m))
  }

  /** The bytes of a message on the wire: its four first header fields as they are,
      the sum of its payload modulo 2^32, and the payload. */
  lemma WireForm(m: Message)
    ensures var b := Serialize(m);
            && |b| == HEADER_SIZE + |m.payload|
            && Word(b, 0) == m.header.magic && Word(b, 4) == m.header.kind
            && Word(b, 8) == m.header.length && Word(b, 12) == m.header.sequence
            && Word(b, 16) == Sum(m.payload) % TWO_32
            && b[HEADER_SIZE..] == m.payload
  {
    DecodeEncodeHeader(Sealed(m).header, m.payload);
  }

  /** What a `NetworkMessage` constructor builds from a type and a payload. */
  function NewMessage(kind: uint32, data: seq<byte>, sequence: uint32): Message {
    Message(Header(MESSAGE_MAGIC, kind, |data| % TWO_32, sequence, 0), data)
  }

  /** A header the receiver accepts, with the payload it announces. */
  predicate WellFramed(m: Message) {
    && m.header.magic == MESSAGE_MAGIC
    && m.header.length == |m.payload|
    && m.header.length <= MAX_MESSAGE_SIZE
  }

  predicate Intact(m: Message) {
    m.header.checksum == Checksum(m.payload)
  }

  function FrameSize(m: Message): int {
    HEADER_SIZE + |m.payload|
  }

  // ---------- parser ----------

  /** The four bytes of `pattern` stand in `b` at offset `k`. */
  predicate MatchAt(b: seq<byte>, pattern: seq<byte>, k: int)
    requires |pattern| == 4
  {
    && 0 <= k <= |b| - 4
    && b[k] == pattern[0] && b[k + 1] == pattern[1] && b[k + 2] == pattern[2] && b[k + 3] == pattern[3]
  }

  /** Where a search for `pattern` starting at `k` stops: its first occurrence,
      or the end. */
  function FirstMatch(b: seq<byte>, pattern: seq<byte>, k: nat): (r: nat)
    requires k <= |b| && |pattern| == 4
    ensures k <= r <= |b|
    ensures r < |b| ==> MatchAt(b, pattern, r)
    ensures forall j :: k <= j < r ==> !MatchAt(b, pattern, j)
    decreases |b| - k
  {
    if k == |b| || MatchAt(b, pattern, k) then k else FirstMatch(b, pattern, k + 1)
  }

  /** The four bytes the resync search looks for: MESSAGE_MAGIC as it lies in the
      receiving host's memory, which is the wire's order only on a big-endian host. */
  function ResyncPattern(order: ByteOrder): (p: seq<byte>)
    ensures |p| == 4
  {
    Memory32(order, MESSAGE_MAGIC)
  }

  datatype Cause = BadMagic | Oversize | BadChecksum

  /** What one iteration of the receive loop decides. */
  datatype Action = Wait | Drop(count: nat, cause: Cause) | Deliver(message: Message)
  {
    /** The number of bytes the iteration removes from the front of the buffer. */
    function Size(): nat {
      match this
      case Wait => 0
      case Drop(n, _) => n
      case Deliver(m) => FrameSize(m)
    }

    /** What it hands to the message callback, for a buffer at stream offset `base`. */
    function Output(base: nat): seq<Delivery> {
      if Deliver? then [Delivery(base, message)] else []
    }
  }

  function Next(order: ByteOrder, b: seq<byte>): (a: Action)
    requires |b| >= HEADER_SIZE
    ensures !a.Wait? ==> 0 < a.Size() <= |b|
  {
    var h := DecodeHeader(b);
    if h.magic != MESSAGE_MAGIC then
      Drop(FirstMatch(b, ResyncPattern(order), 1), BadMagic)
    else if h.length > MAX_MESSAGE_SIZE then
      Drop(HEADER_SIZE, Oversize)
    else if |b| < HEADER_SIZE + h.length then
      Wait
    else
      var m := Message(h, b[HEADER_SIZE..HEADER_SIZE + h.length]);
      if Intact(m) then Deliver(m) else Drop(FrameSize(m), BadChecksum)
  }

  /** A delivered message and the stream offset of its first byte. */
  datatype Delivery = Delivery(at: nat, message: Message)

  /** The state of a receiver: the messages delivered so far, the receive buffer
      and the stream offset of the buffer's first byte. */
  datatype Receiver = Receiver(deliveries: seq<Delivery>, base: nat, buffer: seq<byte>)

  const FRESH: Receiver := Receiver([], 0, [])

  /** The receive loop has to wait for more bytes. */
  predicate Stuck(order: ByteOrder, b: seq<byte>) {
    |b| < HEADER_SIZE || Next(order, b).Wait?
  }

  /** One iteration of the receive loop. */
  function Iterate(order: ByteOrder, s: Receiver): Receiver
    requires !Stuck(order, s.buffer)
  {
    var a := Next(order, s.buffer);
    Receiver(s.deliveries + a.Output(s.base), s.base + a.Size(), s.buffer[a.Size()..])
  }

  /** The receive loop: iterations until it has to wait. */
  function Loop(order: ByteOrder, s: Receiver): Receiver
    decreases |s.buffer|
  {
    if Stuck(order, s.buffer) then s else Loop(order, Iterate(order, s))
  }

  function Append(s: Receiver, chunk: seq<byte>): Receiver {
    s.(buffer := s.buffer + chunk)
  }

  /** One call of the receiver on one chunk, and a call on each chunk of a list. */
  function Feed(order: ByteOrder, s: Receiver, chunk: seq<byte>): Receiver {
    Loop(order, Append(s, chunk))
  }

  function FeedAll(order: ByteOrder, s: Receiver, chunks: seq<seq<byte>>): Receiver
    decreases |chunks|
  {
    if chunks == [] then s else FeedAll(order, Feed(order, s, chunks[0]), chunks[1..])
  }

  function Messages(ds: seq<Delivery>): (ms: seq<Message>)
    ensures |ms| == |ds|
  {
    seq(|ds|, i requires 0 <= i < |ds| => ds[i].message)
  }

  lemma MessagesAppend(xs: seq<Delivery>, ys: seq<Delivery>)
    ensures Messages(xs + ys) == Messages(xs) + Messages(ys)
  {}

  /** A buffer on which the receive loop does nothing until more bytes arrive:
      shorter than a header, or a proper prefix of one admissible frame. */
  predicate Quiescent(b: seq<byte>) {
    |b| < HEADER_SIZE ||
    var h := DecodeHeader(b);
    h.magic == MESSAGE_MAGIC && h.length <= MAX_MESSAGE_SIZE && |b| < HEADER_SIZE + h.length
  }
}
