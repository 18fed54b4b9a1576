/** The walk over a configuration descriptor that finds the mass-storage interface
    and its bulk endpoints. Layouts: USB 2.0 specification, sections 9.6.5, 9.6.6. */
module Descriptors {
  import opened Bytes
  import opened Wrappers
  import Usbip

  const INTERFACE: byte := 0x04
  const ENDPOINT: byte := 0x05
  const BULK: int := 2

  datatype Endpoint = Endpoint(address: byte, maxPacketSize: uint16, isIn: bool)

  const NO_ENDPOINT: Endpoint := Endpoint(0, 0, false)

  datatype Found = Found(interfaceNumber: int, bulkIn: Endpoint, bulkOut: Endpoint)

  /** The state the constructor sets up. */
  const NOTHING: Found := Found(-1, NO_ENDPOINT, NO_ENDPOINT)

  // ---------- segments ----------

  /** The length of the descriptor at the front of `b`, or 0 where the walk stops. */
  function HeadLength(b: seq<byte>): (n: nat)
    ensures n <= |b|
  {
    if |b| < 2 || b[0] > |b| then 0 else b[0]
  }

  function Segments(b: seq<byte>): seq<seq<byte>>
    decreases |b|
  {
    if HeadLength(b) == 0 then [] else [b[..HeadLength(b)]] + Segments(b[HeadLength(b)..])
  }

  /** A descriptor whose first byte is its length. */
  predicate WellFormed(d: seq<byte>) {
    2 <= |d| && d[0] == |d|
  }

  /** The segments tile the buffer from its start, and the walk stops where no
      descriptor follows. */
  lemma {:induction false} SegmentsTile(b: seq<byte>)
    ensures Flatten(Segments(b)) <= b
    ensures HeadLength(b[|Flatten(Segments(b))|..]) == 0
    ensures forall i :: 0 <= i < |Segments(b)| ==> |Segments(b)[i]| > 0 && Segments(b)[i][0] == |Segments(b)[i]|
    decreases |b|
  {
    var n := HeadLength(b);
    if n > 0 {
      var rest := b[n..];
      SegmentsTile(rest);
      assert b == b[..n] + rest;
      assert b[|Flatten(Segments(b))|..] == rest[|Flatten(Segments(rest))|..];
    } else {
      assert b[0..] == b;
    }
  }

  /** They are the longest such tiling: any well-formed descriptors the buffer
      starts with are its first segments. */
  lemma {:induction false} SegmentsAreLongest(b: seq<byte>, ds: seq<seq<byte>>)
    requires forall i :: 0 <= i < |ds| ==> WellFormed(ds[i])
    requires Flatten(ds) <= b
    ensures ds <= Segments(b)
    decreases |ds|
  {
    if ds != [] {
      var d := ds[0];
      assert b[..|d|] == d;
      assert b[0] == d[0];
      assert HeadLength(b) == |d|;
      assert Flatten(ds[1..]) <= b[|d|..] by {
        assert Flatten(ds)[|d|..] == Flatten(ds[1..]);
      }
      SegmentsAreLongest(b[|d|..], ds[1..]);
      assert ds == [d] + ds[1..];
    }
  }

  /** So a concatenation of well-formed descriptors is cut into exactly these. */
  lemma {:induction false} SegmentsOfConcat(ds: seq<seq<byte>>)
    requires forall i :: 0 <= i < |ds| ==> WellFormed(ds[i])
    ensures Segments(Flatten(ds)) == ds
  {
    var b := Flatten(ds);
    SegmentsAreLongest(b, ds);
    SegmentsTile(b);
    ConcatGrows(Segments(b), |ds|);
    assert Segments(b)[..|ds|] == ds;
  }

  lemma {:induction false} ConcatGrows(ds: seq<seq<byte>>, n: nat)
    requires n <= |ds| && forall i :: 0 <= i < |ds| ==> |ds[i]| > 0
    ensures |Flatten(ds)| >= |Flatten(ds[..n])| + |ds| - n
    decreases |ds|
  {
    if n > 0 {
      assert ds[..n][1..] == ds[1..][..n - 1];
      ConcatGrows(ds[1..], n - 1);
    } else if ds != [] {
      ConcatGrows(ds[1..], 0);
    }
  }

  // ---------- what a visit does ----------

  predicate IsStorage(d: seq<byte>) {
    |d| >= 9 && d[1] == INTERFACE && d[5] == Usbip.MASS_STORAGE
  }

  /** A bulk endpoint of the given direction (bit 7 of its address). */
  predicate IsBulk(d: seq<byte>, isIn: bool) {
    |d| >= 7 && d[1] == ENDPOINT && d[3] % 4 == BULK && (d[2] >= 0x80) == isIn
  }

  function EndpointOf(order: ByteOrder, d: seq<byte>): Endpoint
    requires |d| >= 7
  {
    Endpoint(d[2], Load16(order, d[4..6]), d[2] >= 0x80)
  }

  function Visit(order: ByteOrder, f: Found, d: seq<byte>): Found {
    if IsStorage(d) then
      f.(interfaceNumber := d[2])
    else if f.interfaceNumber >= 0 && IsBulk(d, true) then
      f.(bulkIn := EndpointOf(order, d))
    else if f.interfaceNumber >= 0 && IsBulk(d, false) then
      f.(bulkOut := EndpointOf(order, d))
    else
      f
  }

  function Fold(order: ByteOrder, f: Found, ds: seq<seq<byte>>): Found {
    if ds == [] then f else Visit(order, Fold(order, f, ds[..|ds| - 1]), ds[|ds| - 1])
  }

  lemma FoldNothing(order: ByteOrder, f: Found)
    ensures Fold(order, f, []) == f
  {}

  lemma FoldMore(order: ByteOrder, f: Found, ds: seq<seq<byte>>, d: seq<byte>)
    ensures Fold(order, f, ds + [d]) == Visit(order, Fold(order, f, ds), d)
  {
    assert (ds + [d])[..|ds|] == ds;
  }

  predicate Usable(f: Found) {
    f.interfaceNumber >= 0 && f.bulkIn.address != 0 && f.bulkOut.address != 0
  }

  class MassStorageDevice {
    const order: ByteOrder
    var interfaceNumber: int
    var bulkInEndpoint: Endpoint
    var bulkOutEndpoint: Endpoint

    function Value(): Found
      reads this
    {
      Found(interfaceNumber, bulkInEndpoint, bulkOutEndpoint)
    }

    constructor (order: ByteOrder)
      ensures this.order == order && Value() == NOTHING
    {
      this.order := order;
      interfaceNumber, bulkInEndpoint, bulkOutEndpoint := -1, NO_ENDPOINT, NO_ENDPOINT;
    }

    /** The walk: it terminates, stays in bounds and visits exactly the segments. */
    method FindEndpoints(config: seq<byte>) returns (found: bool)
      modifies this
      ensures Value() == Fold(order, old(Value()), Segments(config))
      ensures found <==> config != [] && Usable(Value())
    {
      if config == [] {
        return false;
      }
      hide Fold, Visit, Segments, Visited;
      var offset := 0;
      FoldNothing(order, Value());
      NothingVisited(config);
      ghost var done: seq<seq<byte>> := [];
      while offset < |config|
        invariant 0 <= offset <= |config|
        invariant Visited(config, offset, done)
        invariant Value() == Fold(order, old(Value()), done)
        decreases |config| - offset
      {
        if offset + 2 > |config| {
          break;
        }
        var length := config[offset];
        if length == 0 || offset + length > |config| {
          break;
        }
        OneMoreVisited(config, offset, done);
        VisitDescriptor(config, offset);
        ghost var d := config[offset..offset + length];
        FoldMore(order, old(Value()), done, d);
        done := done + [d];
        offset := offset + length;
      }
      AllVisited(config, offset, done);
      return interfaceNumber >= 0 && bulkInEndpoint.address != 0 && bulkOutEndpoint.address != 0;
    }

    /** The body of that walk, for the descriptor at `offset`. */
    method VisitDescriptor(config: seq<byte>, offset: nat)
      requires offset + 2 <= |config| && 0 < config[offset] && offset + config[offset] <= |config|
      modifies this
      ensures Value() == Visit(order, old(Value()), config[offset..offset + config[offset]])
    {
      var length, kind := config[offset], config[offset + 1];
      SliceBytes(config, offset, length);
      if kind == INTERFACE {
        if length >= 9 {
          if config[offset + 5] == Usbip.MASS_STORAGE {
            interfaceNumber := config[offset + 2];
          }
        }
      } else if kind == ENDPOINT {
        if length >= 7 && interfaceNumber >= 0 {
          if config[offset + 3] % 4 == BULK {
            var address := config[offset + 2];
            var info := Endpoint(address, Load16(order, config[offset + 4..offset + 6]), address >= 0x80);
            if info.isIn {
              bulkInEndpoint := info;
            } else {
              bulkOutEndpoint := info;
            }
          }
        }
      }
    }
  }

  /** The bytes of a descriptor a visit looks at, where it is long enough. */
  lemma SliceBytes(config: seq<byte>, offset: nat, length: nat)
    requires 0 < length && offset + length <= |config|
    ensures var d := config[offset..offset + length];
            && (length >= 2 ==> d[1] == config[offset + 1])
            && (length >= 7 ==> d[2] == config[offset + 2] && d[3] == config[offset + 3])
            && (length >= 7 ==> d[4..6] == config[offset + 4..offset + 6])
            && (length >= 9 ==> d[5] == config[offset + 5])
  {
    if length >= 7 {
      SliceOfSlice(config, offset, length, 4, 6);
    }
  }

  lemma SegmentAt(config: seq<byte>, offset: nat)
    requires offset + 2 <= |config| && config[offset] > 0 && offset + config[offset] <= |config|
    ensures Segments(config[offset..])
         == [config[offset..offset + config[offset]]] + Segments(config[offset + config[offset]..])
  {
    var b, n := config[offset..], config[offset];
    assert b[..n] == config[offset..offset + n] && b[n..] == config[offset + n..];
  }

  /** The segments before `offset` are `done`. */
  ghost predicate Visited(config: seq<byte>, offset: nat, done: seq<seq<byte>>)
    requires offset <= |config|
  {
    Segments(config) == done + Segments(config[offset..])
  }

  lemma NothingVisited(config: seq<byte>)
    ensures Visited(config, 0, [])
  {
    assert config[0..] == config;
    assert [] + Segments(config) == Segments(config);
  }

  lemma OneMoreVisited(config: seq<byte>, offset: nat, done: seq<seq<byte>>)
    requires offset + 2 <= |config| && config[offset] > 0 && offset + config[offset] <= |config|
    requires Visited(config, offset, done)
    ensures Visited(config, offset + config[offset], done + [config[offset..offset + config[offset]]])
  {
    hide Segments;
    var n := config[offset];
    SegmentAt(config, offset);
    ConcatAssociative(done, [config[offset..offset + n]], Segments(config[offset + n..]));
  }

  lemma AllVisited(config: seq<byte>, offset: nat, done: seq<seq<byte>>)
    requires offset <= |config| && HeadLength(config[offset..]) == 0 && Visited(config, offset, done)
    ensures Segments(config) == done
  {
    assert done + [] == done;
  }

  // ---------- what the walk finds ----------

  /** Segment `i` is the last mass-storage interface. */
  ghost predicate LastStorage(ds: seq<seq<byte>>, i: int) {
    0 <= i < |ds| && IsStorage(ds[i]) && forall j :: i < j < |ds| ==> !IsStorage(ds[j])
  }

  /** Segment `i` is a bulk endpoint of this direction behind some mass-storage
      interface. */
  ghost predicate Candidate(ds: seq<seq<byte>>, i: int, isIn: bool) {
    0 <= i < |ds| && IsBulk(ds[i], isIn) && exists k :: 0 <= k < i && IsStorage(ds[k])
  }

  ghost predicate LastCandidate(ds: seq<seq<byte>>, i: int, isIn: bool) {
    Candidate(ds, i, isIn) && forall j :: i < j < |ds| ==> !Candidate(ds, j, isIn)
  }

  /** `e` comes from the last candidate, or is unset if there is none. */
  ghost predicate EndpointMatches(order: ByteOrder, ds: seq<seq<byte>>, isIn: bool, e: Endpoint) {
    && (forall i :: LastCandidate(ds, i, isIn) ==> e == EndpointOf(order, ds[i]))
    && ((forall i :: !Candidate(ds, i, isIn)) ==> e == NO_ENDPOINT)
  }

  /** `n` comes from the last mass-storage interface, or is -1 if there is none. */
  ghost predicate InterfaceMatches(ds: seq<seq<byte>>, n: int) {
    && (forall i :: LastStorage(ds, i) ==> n == ds[i][2])
    && ((forall i :: 0 <= i < |ds| ==> !IsStorage(ds[i])) ==> n == -1)
  }

  lemma {:induction false} SomeLastCandidate(ds: seq<seq<byte>>, i: int, isIn: bool) returns (l: int)
    requires Candidate(ds, i, isIn)
    ensures LastCandidate(ds, l, isIn)
    decreases |ds| - i
  {
    if LastCandidate(ds, i, isIn) {
      l := i;
    } else {
      var j :| i < j < |ds| && Candidate(ds, j, isIn);
      l := SomeLastCandidate(ds, j, isIn);
    }
  }

  lemma {:induction false} SomeLastStorage(ds: seq<seq<byte>>, i: int) returns (l: int)
    requires 0 <= i < |ds| && IsStorage(ds[i])
    ensures LastStorage(ds, l)
    decreases |ds| - i
  {
    if LastStorage(ds, i) {
      l := i;
    } else {
      var j :| i < j < |ds| && IsStorage(ds[j]);
      l := SomeLastStorage(ds, j);
    }
  }

  lemma StorageSeen(ds: seq<seq<byte>>, n: int)
    requires InterfaceMatches(ds, n)
    ensures n >= 0 <==> exists k :: 0 <= k < |ds| && IsStorage(ds[k])
  {
    if k :| 0 <= k < |ds| && IsStorage(ds[k]) {
      var l := SomeLastStorage(ds, k);
    }
  }

  lemma InterfaceStep(ds: seq<seq<byte>>, d: seq<byte>, n: int)
    requires InterfaceMatches(ds, n)
    ensures InterfaceMatches(ds + [d], if IsStorage(d) then d[2] else n)
  {
    var all := ds + [d];
    forall i | LastStorage(all, i)
      ensures (if IsStorage(d) then d[2] else n) == all[i][2]
    {
      if i < |ds| {
        assert !IsStorage(all[|ds|]);
        assert forall j :: i < j < |ds| ==> ds[j] == all[j];
        assert LastStorage(ds, i);
      }
    }
    if forall i :: 0 <= i < |all| ==> !IsStorage(all[i]) {
      assert !IsStorage(all[|ds|]);
      assert forall i :: 0 <= i < |ds| ==> ds[i] == all[i];
    }
  }

  lemma CandidateAppend(ds: seq<seq<byte>>, d: seq<byte>, isIn: bool, i: int)
    requires i < |ds|
    ensures Candidate(ds + [d], i, isIn) <==> Candidate(ds, i, isIn)
  {
    assert forall k :: 0 <= k < |ds| ==> (ds + [d])[k] == ds[k];
  }

  lemma EndpointStep(order: ByteOrder, ds: seq<seq<byte>>, d: seq<byte>, isIn: bool, e: Endpoint)
    requires EndpointMatches(order, ds, isIn, e)
    ensures EndpointMatches(order, ds + [d], isIn, if Candidate(ds + [d], |ds|, isIn) then EndpointOf(order, d) else e)
  {
    var all := ds + [d];
    forall i | i < |ds|
      ensures Candidate(all, i, isIn) <==> Candidate(ds, i, isIn)
    {
      CandidateAppend(ds, d, isIn, i);
    }
    if Candidate(all, |ds|, isIn) {
      assert forall i :: LastCandidate(all, i, isIn) ==> i == |ds|;
    } else {
      assert forall i :: LastCandidate(all, i, isIn) ==> LastCandidate(ds, i, isIn) && all[i] == ds[i];
    }
  }

  lemma CandidateAtEnd(ds: seq<seq<byte>>, d: seq<byte>, isIn: bool, n: int)
    requires InterfaceMatches(ds, n)
    ensures Candidate(ds + [d], |ds|, isIn) <==> IsBulk(d, isIn) && n >= 0
  {
    StorageSeen(ds, n);
    assert forall k :: 0 <= k < |ds| ==> (ds + [d])[k] == ds[k];
  }

  /** From the constructor's state the walk ends with the number of the last
      mass-storage interface and, for each direction, the last bulk endpoint behind
      the first such interface. */
  lemma {:induction false} FoldMeaning(order: ByteOrder, ds: seq<seq<byte>>)
    ensures InterfaceMatches(ds, Fold(order, NOTHING, ds).interfaceNumber)
    ensures EndpointMatches(order, ds, true, Fold(order, NOTHING, ds).bulkIn)
    ensures EndpointMatches(order, ds, false, Fold(order, NOTHING, ds).bulkOut)
    decreases |ds|
  {
    if ds != [] {
      var init, d := ds[..|ds| - 1], ds[|ds| - 1];
      assert ds == init + [d];
      var f := Fold(order, NOTHING, init);
      FoldMeaning(order, init);
      hide InterfaceMatches, EndpointMatches, Candidate;
      InterfaceStep(init, d, f.interfaceNumber);
      CandidateAtEnd(init, d, true, f.interfaceNumber);
      EndpointStep(order, init, d, true, f.bulkIn);
      CandidateAtEnd(init, d, false, f.interfaceNumber);
      EndpointStep(order, init, d, false, f.bulkOut);
    }
  }

  /** Exactly when the walk succeeds from the constructor's state: there is a bulk IN
      endpoint behind a mass-storage interface, and the last bulk OUT endpoint
      behind one has an address other than 0. */
  lemma WalkSucceedsExactly(order: ByteOrder, ds: seq<seq<byte>>)
    ensures Usable(Fold(order, NOTHING, ds))
       <==> (exists i :: Candidate(ds, i, true)) && (exists i :: LastCandidate(ds, i, false) && ds[i][2] != 0)
  {
    var f := Fold(order, NOTHING, ds);
    FoldMeaning(order, ds);
    StorageSeen(ds, f.interfaceNumber);
    if i :| Candidate(ds, i, true) {
      var l := SomeLastCandidate(ds, i, true);
    }
    if i :| Candidate(ds, i, false) {
      var l := SomeLastCandidate(ds, i, false);
    }
  }

  // ---------- configurations as they are meant ----------

  /** The descriptors of a configuration, with bytes that a later standard may append,
      and any others: of another type, or too short for theirs. */
  datatype Descriptor =
    | InterfaceDescriptor(number: byte, alternate: byte, endpoints: byte, code: byte, subcode: byte, protocol: byte,
                          text: byte, more: seq<byte>)
    | EndpointDescriptor(address: byte, attributes: byte, maxPacketSize: uint16, interval: byte, more: seq<byte>)
    | OtherDescriptor(kind: byte, body: seq<byte>)

  predicate Printable(d: Descriptor) {
    match d
    case InterfaceDescriptor(_, _, _, _, _, _, _, more) => 9 + |more| < 0x100
    case EndpointDescriptor(_, _, _, _, more) => 7 + |more| < 0x100
    case OtherDescriptor(kind, body) =>
      2 + |body| < 0x100 && (kind == 4 ==> 2 + |body| < 9) && (kind == 5 ==> 2 + |body| < 7)
  }

  /** Their bytes; USB keeps words in little-endian order. */
  function Print(d: Descriptor): (b: seq<byte>)
    requires Printable(d)
    ensures WellFormed(b)
  {
    match d
    case InterfaceDescriptor(n, a, e, c, s, p, t, more) => [9 + |more|, 4, n, a, e, c, s, p, t] + more
    case EndpointDescriptor(a, t, m, i, more) => [7 + |more|, 5, a, t, m % 0x100, m / 0x100, i] + more
    case OtherDescriptor(k, body) => [2 + |body|, k] + body
  }

  /** Every well-formed descriptor is printed so. */
  lemma EveryDescriptorIsPrinted(b: seq<byte>) returns (d: Descriptor)
    requires WellFormed(b)
    ensures Printable(d) && Print(d) == b
  {
    if b[1] == 4 && |b| >= 9 {
      d := InterfaceDescriptor(b[2], b[3], b[4], b[5], b[6], b[7], b[8], b[9..]);
    } else if b[1] == 5 && |b| >= 7 {
      var low: int, high: int := b[4], b[5];
      d := EndpointDescriptor(b[2], b[3], high * 0x100 + low, b[6], b[7..]);
    } else {
      d := OtherDescriptor(b[1], b[2..]);
    }
  }

  function PrintAll(ds: seq<Descriptor>): (bs: seq<seq<byte>>)
    requires forall i :: 0 <= i < |ds| ==> Printable(ds[i])
    ensures |bs| == |ds| && forall i :: 0 <= i < |ds| ==> WellFormed(bs[i])
  {
    if ds == [] then [] else PrintAll(ds[..|ds| - 1]) + [Print(ds[|ds| - 1])]
  }

  /** What the walk should make of one descriptor: class 8 starts a mass-storage
      interface, transfer type 2 is bulk, bit 7 of the address is the direction. A
      big-endian host takes the packet size as it lies in memory. */
  function Note(order: ByteOrder, f: Found, d: Descriptor): Found {
    match d
    case InterfaceDescriptor(number, _, _, code, _, _, _, _) =>
      if code == 8 then f.(interfaceNumber := number) else f
    case EndpointDescriptor(address, attributes, size, _, _) =>
      if f.interfaceNumber < 0 || attributes % 4 != 2 then
        f
      else
        var seen := if order.LittleEndian? then size else size % 0x100 * 0x100 + size / 0x100;
        if address >= 0x80 then
          f.(bulkIn := Endpoint(address, seen, true))
        else
          f.(bulkOut := Endpoint(address, seen, false))
    case OtherDescriptor(_, _) => f
  }

  function NoteAll(order: ByteOrder, ds: seq<Descriptor>): Found {
    if ds == [] then NOTHING else Note(order, NoteAll(order, ds[..|ds| - 1]), ds[|ds| - 1])
  }

  lemma VisitPrinted(order: ByteOrder, f: Found, d: Descriptor)
    requires Printable(d)
    ensures Visit(order, f, Print(d)) == Note(order, f, d)
  {
    if d.EndpointDescriptor? {
      var b := Print(d);
      HostByteOrder(order, b[0..4], b[4..6]);
    }
  }

  lemma {:induction false} FoldPrinted(order: ByteOrder, ds: seq<Descriptor>)
    requires forall i :: 0 <= i < |ds| ==> Printable(ds[i])
    ensures Fold(order, NOTHING, PrintAll(ds)) == NoteAll(order, ds)
  {
    if ds != [] {
      var n := |ds| - 1;
      hide Visit, Note, Print, Fold;
      FoldPrinted(order, ds[..n]);
      FoldMore(order, NOTHING, PrintAll(ds[..n]), Print(ds[n]));
      VisitPrinted(order, NoteAll(order, ds[..n]), ds[n]);
    } else {
      FoldNothing(order, NOTHING);
    }
  }

  /** Printing any configuration and walking over its bytes finds what it says. */
  lemma PrintedConfigurationIsRead(order: ByteOrder, ds: seq<Descriptor>)
    requires forall i :: 0 <= i < |ds| ==> Printable(ds[i])
    ensures Fold(order, NOTHING, Segments(Flatten(PrintAll(ds)))) == NoteAll(order, ds)
  {
    SegmentsOfConcat(PrintAll(ds));
    FoldPrinted(order, ds);
  }
}
