/** The device list: the sender's serializer, the receiver's parser and what any
    payload, whole, cut off or arbitrary, parses to. */
module DeviceLists {
  import opened Bytes
  import opened Framing
  import opened FrameStreams

  const INFO_SIZE: int := 312
  const LIST_HEADER: int := 12
  const OP_REPLY_DEVLIST: uint32 := 5
  const DEVICE_LIST_RESPONSE: uint32 := 2

  type Chars256 = b: seq<byte> | |b| == 256 witness seq(256, _ => 0)
  type Chars32 = b: seq<byte> | |b| == 32 witness seq(32, _ => 0)
  type SixBytes = b: seq<byte> | |b| == 6 witness [0, 0, 0, 0, 0, 0]

  /** `tail` is bDeviceClass, bDeviceSubClass, bDeviceProtocol, bConfigurationValue,
      bNumConfigurations and bNumInterfaces. */
  datatype DeviceInfo = DeviceInfo(
    path: Chars256, busid: Chars32, busnum: uint32, devnum: uint32, speed: uint32,
    idVendor: uint16, idProduct: uint16, bcdDevice: uint16, tail: SixBytes)

  function DeviceClass(d: DeviceInfo): byte {
    d.tail[0]
  }

  function HalfBytes(d: DeviceInfo): (b: seq<byte>)
    ensures |b| == 6
  {
    BE16(d.idVendor) + (BE16(d.idProduct) + BE16(d.bcdDevice))
  }

  /** The wire form of one entry. */
  function EncodeInfo(d: DeviceInfo): (b: seq<byte>)
    ensures |b| == INFO_SIZE
  {
    d.path + (d.busid + (WordBytes([d.busnum, d.devnum, d.speed]) + (HalfBytes(d) + d.tail)))
  }

  function DecodeInfo(b: seq<byte>): DeviceInfo
    requires |b| == INFO_SIZE
  {
    DeviceInfo(b[0..256], b[256..288], Word(b, 288), Word(b, 292), Word(b, 296),
               Half(b, 300), Half(b, 302), Half(b, 304), b[306..312])
  }

  function EncodeInfos(ds: seq<DeviceInfo>): (b: seq<byte>)
    ensures |b| == INFO_SIZE * |ds|
  {
    if ds == [] then [] else EncodeInfos(ds[..|ds| - 1]) + EncodeInfo(ds[|ds| - 1])
  }

  /** The payload of a device list response. */
  function EncodeList(ds: seq<DeviceInfo>): (b: seq<byte>)
    ensures |b| == LIST_HEADER + INFO_SIZE * |ds|
  {
    WordBytes([OP_REPLY_DEVLIST, 0, |ds| % TWO_32]) + EncodeInfos(ds)
  }

  function EntryAt(p: seq<byte>, i: nat): seq<byte>
    requires LIST_HEADER + INFO_SIZE * i + INFO_SIZE <= |p|
  {
    p[LIST_HEADER + INFO_SIZE * i..LIST_HEADER + INFO_SIZE * i + INFO_SIZE]
  }

  /** How many entries the parser takes: what the count says, as far as whole
      entries are there. */
  function EntryCount(p: seq<byte>): nat {
    if |p| < LIST_HEADER then
      0
    else
      var whole := (|p| - LIST_HEADER) / INFO_SIZE;
      if Word(p, 8) < whole then Word(p, 8) else whole
  }

  lemma HalfOfSlice(b: seq<byte>, k: nat, x: uint16)
    requires k + 2 <= |b|
    ensures Half(b, k) == x <==> b[k..k + 2] == BE16(x)
  {
    BE16RoundTrip(x);
    DigitsOfValue(b, k, 2);
    if b[k..k + 2] == BE16(x) {
      ValueLocal(b, k, BE16(x), 0, 2);
    }
  }

  lemma HalvesOf(d: DeviceInfo, b: seq<byte>, k: nat)
    requires k + 6 <= |b| && b[k..k + 6] == HalfBytes(d)
    ensures Half(b, k) == d.idVendor && Half(b, k + 2) == d.idProduct && Half(b, k + 4) == d.bcdDevice
  {
    var h := HalfBytes(d);
    assert h[0..2] == BE16(d.idVendor) && h[2..4] == BE16(d.idProduct) && h[4..6] == BE16(d.bcdDevice);
    SliceOfSlice(b, k, 6, 0, 2);
    SliceOfSlice(b, k, 6, 2, 4);
    SliceOfSlice(b, k, 6, 4, 6);
    HalfOfSlice(b, k, d.idVendor);
    HalfOfSlice(b, k + 2, d.idProduct);
    HalfOfSlice(b, k + 4, d.bcdDevice);
  }

  lemma ThreeWordsOf(ws: seq<uint32>, b: seq<byte>, k: nat)
    requires |ws| == 3 && k + 12 <= |b| && b[k..k + 12] == WordBytes(ws)
    ensures Word(b, k) == ws[0] && Word(b, k + 4) == ws[1] && Word(b, k + 8) == ws[2]
  {
    hide WordBytes;
    var w := WordBytes(ws);
    assert w + [] == w;
    WordOfWords(ws, [], 0);
    WordOfWords(ws, [], 1);
    WordOfWords(ws, [], 2);
    SliceOfSlice(b, k, 12, 0, 4);
    SliceOfSlice(b, k, 12, 4, 8);
    SliceOfSlice(b, k, 12, 8, 12);
    ValueLocal(b, k, w, 0, 4);
    ValueLocal(b, k + 4, w, 4, 4);
    ValueLocal(b, k + 8, w, 8, 4);
  }

  lemma SlicesOfInfo(d: DeviceInfo)
    ensures var b := EncodeInfo(d);
            && b[0..256] == d.path && b[256..288] == d.busid
            && b[288..300] == WordBytes([d.busnum, d.devnum, d.speed])
            && b[300..306] == HalfBytes(d) && b[306..312] == d.tail
  {
    var ws := WordBytes([d.busnum, d.devnum, d.speed]);
    var t3 := HalfBytes(d) + d.tail;
    var t2 := ws + t3;
    var t1 := d.busid + t2;
    var b := d.path + t1;
    assert b[0..256] == d.path;
    assert b[256..] == t1;
    assert b[256..288] == t1[0..32] == d.busid;
    assert t1[32..] == t2;
    assert b[288..300] == t1[32..][0..12] == ws;
    assert t2[12..] == t3;
    assert b[288..] == t2;
    assert b[300..306] == t2[12..][0..6] == HalfBytes(d);
    assert b[306..312] == t2[12..][6..12] == d.tail;
  }

  lemma DecodeEncodeInfo(d: DeviceInfo)
    ensures DecodeInfo(EncodeInfo(d)) == d
  {
    var b := EncodeInfo(d);
    SlicesOfInfo(d);
    ThreeWordsOf([d.busnum, d.devnum, d.speed], b, 288);
    HalvesOf(d, b, 300);
  }

  /** Where each field of an entry stands on the wire. */
  lemma InfoLayout(d: DeviceInfo)
    ensures var b := EncodeInfo(d);
            && b[0..256] == d.path && b[256..288] == d.busid
            && Word(b, 288) == d.busnum && Word(b, 292) == d.devnum && Word(b, 296) == d.speed
            && Half(b, 300) == d.idVendor && Half(b, 302) == d.idProduct && Half(b, 304) == d.bcdDevice
            && b[306] == DeviceClass(d) && b[306..312] == d.tail
  {
    var b := EncodeInfo(d);
    SlicesOfInfo(d);
    ThreeWordsOf([d.busnum, d.devnum, d.speed], b, 288);
    HalvesOf(d, b, 300);
    assert b[306] == b[306..312][0];
  }

  lemma ThreeWordsBack(b: seq<byte>, k: nat, ws: seq<uint32>)
    requires |ws| == 3 && k + 12 <= |b|
    requires ws[0] == Word(b, k) && ws[1] == Word(b, k + 4) && ws[2] == Word(b, k + 8)
    ensures WordBytes(ws) == b[k..k + 12]
  {
    var w := b[k..k + 12];
    SliceOfSlice(b, k, 12, 0, 4);
    SliceOfSlice(b, k, 12, 4, 8);
    SliceOfSlice(b, k, 12, 8, 12);
    ValueLocal(w, 0, b, k, 4);
    ValueLocal(w, 4, b, k + 4, 4);
    ValueLocal(w, 8, b, k + 8, 4);
    assert forall i :: 0 <= i < 3 ==> Word(w, 4 * i) == ws[i];
    WordsOfBytes(w, ws);
    assert w[..12] == w;
  }

  lemma HalvesBack(b: seq<byte>, k: nat, d: DeviceInfo)
    requires k + 6 <= |b|
    requires d.idVendor == Half(b, k) && d.idProduct == Half(b, k + 2) && d.bcdDevice == Half(b, k + 4)
    ensures HalfBytes(d) == b[k..k + 6]
  {
    HalfOfSlice(b, k, d.idVendor);
    HalfOfSlice(b, k + 2, d.idProduct);
    HalfOfSlice(b, k + 4, d.bcdDevice);
    SliceConcat(b, k + 2, k + 4, k + 6);
    SliceConcat(b, k, k + 2, k + 6);
  }

  lemma EncodeDecodeInfo(b: seq<byte>)
    requires |b| == INFO_SIZE
    ensures EncodeInfo(DecodeInfo(b)) == b
  {
    var d := DecodeInfo(b);
    ThreeWordsBack(b, 288, [d.busnum, d.devnum, d.speed]);
    HalvesBack(b, 300, d);
    SliceConcat(b, 300, 306, 312);
    SliceConcat(b, 288, 300, 312);
    SliceConcat(b, 256, 288, 312);
    SliceConcat(b, 0, 256, 312);
    assert b[0..312] == b;
  }

  // ---------- the serializer and the parser ----------

  /** The memory image of an entry after the byte-order conversions. */
  function InfoImage(order: ByteOrder, d: DeviceInfo): seq<byte> {
    d.path + (d.busid + (MemoryWords(order, [d.busnum, d.devnum, d.speed])
      + ((Memory16(order, d.idVendor) + (Memory16(order, d.idProduct) + Memory16(order, d.bcdDevice))) + d.tail)))
  }

  method SerializeDeviceList(order: ByteOrder, devices: seq<DeviceInfo>) returns (buffer: seq<byte>)
    ensures buffer == EncodeList(devices)
  {
    hide InfoImage, EncodeInfo, Htonl, Htons, Digits, MemoryWords;
    var words := [OP_REPLY_DEVLIST, 0, |devices| % TWO_32];
    var swapped := [Htonl(order, words[0]), Htonl(order, words[1]), Htonl(order, words[2])];
    MemoryOfSwapped(order, words, swapped);
    buffer := MemoryWords(order, swapped);
    ghost var head := buffer;
    assert head + EncodeInfos([]) == head;
    for i := 0 to |devices|
      invariant buffer == head + EncodeInfos(devices[..i])
    {
      var d := devices[i];
      var net := d;
      net := net.(busnum := Htonl(order, net.busnum));
      net := net.(devnum := Htonl(order, net.devnum));
      net := net.(speed := Htonl(order, net.speed));
      net := net.(idVendor := Htons(order, net.idVendor));
      net := net.(idProduct := Htons(order, net.idProduct));
      net := net.(bcdDevice := Htons(order, net.bcdDevice));
      ImageOfConverted(order, d, net);
      assert devices[..i + 1][..i] == devices[..i];
      ConcatAssociative(head, EncodeInfos(devices[..i]), EncodeInfo(d));
      buffer := buffer + InfoImage(order, net);
    }
    assert devices[..|devices|] == devices;
  }

  lemma ImageOfConverted(order: ByteOrder, d: DeviceInfo, net: DeviceInfo)
    requires net == d.(busnum := Htonl(order, d.busnum), devnum := Htonl(order, d.devnum),
                       speed := Htonl(order, d.speed), idVendor := Htons(order, d.idVendor),
                       idProduct := Htons(order, d.idProduct), bcdDevice := Htons(order, d.bcdDevice))
    ensures InfoImage(order, net) == EncodeInfo(d)
  {
    MemoryOfSwapped(order, [d.busnum, d.devnum, d.speed], [net.busnum, net.devnum, net.speed]);
    NetworkOrder16(order, d.idVendor, [0, 0]);
    NetworkOrder16(order, d.idProduct, [0, 0]);
    NetworkOrder16(order, d.bcdDevice, [0, 0]);
  }

  method ReadInfo(order: ByteOrder, b: seq<byte>) returns (d: DeviceInfo)
    requires |b| == INFO_SIZE
    ensures d == DecodeInfo(b)
  {
    d := DeviceInfo(b[0..256], b[256..288],
                    Load32(order, b[288..292]), Load32(order, b[292..296]), Load32(order, b[296..300]),
                    Load16(order, b[300..302]), Load16(order, b[302..304]), Load16(order, b[304..306]), b[306..312]);
    LoadedWord(order, b, 288);
    LoadedWord(order, b, 292);
    LoadedWord(order, b, 296);
    LoadedHalf(order, b, 300);
    LoadedHalf(order, b, 302);
    LoadedHalf(order, b, 304);
    d := d.(busnum := Ntohl(order, d.busnum));
    d := d.(devnum := Ntohl(order, d.devnum));
    d := d.(speed := Ntohl(order, d.speed));
    d := d.(idVendor := Ntohs(order, d.idVendor));
    d := d.(idProduct := Ntohs(order, d.idProduct));
    d := d.(bcdDevice := Ntohs(order, d.bcdDevice));
  }

  lemma LoadedHalf(order: ByteOrder, b: seq<byte>, k: nat)
    requires k + 2 <= |b|
    ensures Ntohs(order, Load16(order, b[k..k + 2])) == Half(b, k)
  {
    NetworkOrder16(order, 0, b[k..k + 2]);
    ValueLocal(b, k, b[k..k + 2], 0, 2);
  }

  /** The first `n` entries of a payload, decoded. */
  function Entries(p: seq<byte>, n: nat): (ds: seq<DeviceInfo>)
    requires n > 0 ==> LIST_HEADER + INFO_SIZE * n <= |p|
    ensures |ds| == n
  {
    if n == 0 then [] else Entries(p, n - 1) + [DecodeInfo(EntryAt(p, n - 1))]
  }

  /** The list a payload parses to: one entry for every whole entry the count covers. */
  function ParseList(p: seq<byte>): (ds: seq<DeviceInfo>)
    ensures |ds| == EntryCount(p)
  {
    Entries(p, EntryCount(p))
  }

  method HandleDeviceListResponse(order: ByteOrder, payload: seq<byte>) returns (devices: seq<DeviceInfo>)
    ensures devices == ParseList(payload)
  {
    hide DecodeInfo;
    devices := [];
    if |payload| >= 12 {
      var offset := 8;
      LoadedWord(order, payload, 8);
      var numDevices := Ntohl(order, Load32(order, payload[offset..offset + 4]));
      offset := offset + 4;
      var i := 0;
      while i < numDevices && offset + INFO_SIZE <= |payload|
        invariant 0 <= i <= numDevices && offset == LIST_HEADER + INFO_SIZE * i <= |payload|
        invariant devices == Entries(payload, i)
        decreases numDevices - i
      {
        var info := ReadInfo(order, payload[offset..offset + INFO_SIZE]);
        devices := devices + [info];
        offset := offset + INFO_SIZE;
        i := i + 1;
      }
      assert i == EntryCount(payload);
    }
  }

  lemma {:induction false} EntriesAt(p: seq<byte>, n: nat, i: nat)
    requires i < n && LIST_HEADER + INFO_SIZE * n <= |p|
    ensures Entries(p, n)[i] == DecodeInfo(EntryAt(p, i))
  {
    if i < n - 1 {
      EntriesAt(p, n - 1, i);
    }
  }

  // ---------- round trips ----------

  lemma {:induction false} InfosAt(ds: seq<DeviceInfo>, i: nat)
    requires i < |ds|
    ensures EncodeInfos(ds)[INFO_SIZE * i..INFO_SIZE * i + INFO_SIZE] == EncodeInfo(ds[i])
  {
    hide EncodeInfo;
    var n := |ds| - 1;
    var before, last := EncodeInfos(ds[..n]), EncodeInfo(ds[n]);
    assert EncodeInfos(ds) == before + last;
    if i < n {
      InfosAt(ds[..n], i);
      SliceOfConcat(before, last, INFO_SIZE * i, INFO_SIZE * i + INFO_SIZE);
    } else {
      SliceOfConcat(before, last, 0, 0);
    }
  }

  lemma EntryOfList(ds: seq<DeviceInfo>, i: nat)
    requires i < |ds|
    ensures EntryAt(EncodeList(ds), i) == EncodeInfo(ds[i])
  {
    InfosAt(ds, i);
    var head := WordBytes([OP_REPLY_DEVLIST, 0, |ds| % TWO_32]);
    assert (head + EncodeInfos(ds))[LIST_HEADER..] == EncodeInfos(ds);
    assert EntryAt(EncodeList(ds), i) == EncodeList(ds)[LIST_HEADER..][INFO_SIZE * i..INFO_SIZE * i + INFO_SIZE];
  }

  lemma CountOfList(ds: seq<DeviceInfo>)
    ensures Word(EncodeList(ds), 8) == |ds| % TWO_32
  {
    WordOfWords([OP_REPLY_DEVLIST, 0, |ds| % TWO_32], EncodeInfos(ds), 2);
  }

  lemma TruncatedEntry(ds: seq<DeviceInfo>, size: nat, n: nat, i: nat)
    requires LIST_HEADER <= size <= |EncodeList(ds)| && i < n <= |ds| && n == EntryCount(EncodeList(ds)[..size])
    ensures ParseList(EncodeList(ds)[..size])[i] == ds[i]
  {
    var p := EncodeList(ds)[..size];
    EntriesAt(p, n, i);
    assert EntryAt(p, i) == EntryAt(EncodeList(ds), i);
    EntryOfList(ds, i);
    DecodeEncodeInfo(ds[i]);
  }

  /** The bytes of a list on the wire: op code 5, status 0, the 32-bit count and the
      entries, 312 bytes each. */
  lemma ListLayout(ds: seq<DeviceInfo>)
    ensures var p := EncodeList(ds);
            && |p| == 12 + 312 * |ds|
            && Word(p, 0) == 5 && Word(p, 4) == 0 && Word(p, 8) == |ds| % TWO_32
            && forall i {:trigger EntryAt(p, i)} {:trigger ds[i]} ::
                 0 <= i < |ds| ==> EntryAt(p, i) == EncodeInfo(ds[i])
  {
    var words := [OP_REPLY_DEVLIST, 0, |ds| % TWO_32];
    WordOfWords(words, EncodeInfos(ds), 0);
    WordOfWords(words, EncodeInfos(ds), 1);
    WordOfWords(words, EncodeInfos(ds), 2);
    forall i | 0 <= i < |ds|
      ensures EntryAt(EncodeList(ds), i) == EncodeInfo(ds[i])
    {
      EntryOfList(ds, i);
    }
  }

  /** Where the class byte of a parsed entry stands in the payload. */
  lemma ParsedClass(p: seq<byte>, i: nat)
    requires i < EntryCount(p)
    ensures DeviceClass(ParseList(p)[i]) == p[12 + 312 * i + 306]
  {
    EntriesAt(p, EntryCount(p), i);
    EncodeDecodeInfo(EntryAt(p, i));
    InfoLayout(DecodeInfo(EntryAt(p, i)));
    assert EntryAt(p, i)[306] == p[12 + 312 * i + 306];
  }

  /** Parsing any truncation that keeps the header returns the entries that are
      whole in it, and no more than the 32-bit count says. */
  lemma TruncatedList(ds: seq<DeviceInfo>, size: nat)
    requires LIST_HEADER <= size <= |EncodeList(ds)|
    ensures var whole, count := (size - LIST_HEADER) / INFO_SIZE, |ds| % TWO_32;
            ParseList(EncodeList(ds)[..size]) == ds[..if count < whole then count else whole]
  {
    var p := EncodeList(ds)[..size];
    CountOfList(ds);
    assert p[8..12] == EncodeList(ds)[8..12];
    ValueLocal(p, 8, EncodeList(ds), 8, 4);
    var n := EntryCount(p);
    assert n <= |ds|;
    forall i | 0 <= i < n
      ensures ParseList(p)[i] == ds[..n][i]
    {
      TruncatedEntry(ds, size, n, i);
    }
  }

  /** The list comes back exactly when its length fits the 32-bit count. */
  lemma ListRoundTripExact(ds: seq<DeviceInfo>)
    ensures ParseList(EncodeList(ds)) == ds <==> |ds| < TWO_32
  {
    var p := EncodeList(ds);
    assert p[..|p|] == p;
    TruncatedList(ds, |p|);
    if |ds| < TWO_32 {
      assert ds[..|ds|] == ds;
    }
  }

  /** 3360 devices are the most one message carries: exactly those lists reach the
      receiver, under every chunking, and what arrives parses to the list sent. */
  lemma ListThroughTheWire(order: ByteOrder, ds: seq<DeviceInfo>, sequence: uint32)
    ensures Survives(order, NewMessage(DEVICE_LIST_RESPONSE, EncodeList(ds), sequence)) <==> |ds| <= 3360
    ensures |ds| <= 3360 ==> ParseList(EncodeList(ds)) == ds
  {
    NewMessageRoundTrip(order, DEVICE_LIST_RESPONSE, EncodeList(ds), sequence);
    ListRoundTripExact(ds);
  }

  lemma EncodeMore(ds: seq<DeviceInfo>, d: DeviceInfo)
    ensures EncodeInfos(ds + [d]) == EncodeInfos(ds) + EncodeInfo(d)
  {
    assert (ds + [d])[..|ds|] == ds;
  }

  lemma NoInfos()
    ensures EncodeInfos([]) == []
  {}

  lemma {:induction false} EntriesAreFaithful(p: seq<byte>, n: nat)
    requires LIST_HEADER + INFO_SIZE * n <= |p|
    ensures EncodeInfos(Entries(p, n)) == p[LIST_HEADER..LIST_HEADER + INFO_SIZE * n]
  {
    hide EncodeInfos, EncodeInfo, DecodeInfo;
    if n == 0 {
      NoInfos();
    } else {
      EntriesAreFaithful(p, n - 1);
      EncodeDecodeInfo(EntryAt(p, n - 1));
      EncodeMore(Entries(p, n - 1), DecodeInfo(EntryAt(p, n - 1)));
      var cut := LIST_HEADER + INFO_SIZE * (n - 1);
      SliceConcat(p, LIST_HEADER, cut, cut + INFO_SIZE);
    }
  }

  /** On arbitrary bytes the parser invents nothing: encoding what it returns gives
      back the bytes it read, and it stops only at the count or at the last whole
      entry. */
  lemma ParseListIsFaithful(p: seq<byte>)
    requires |p| >= LIST_HEADER
    ensures var n := |ParseList(p)|;
            && LIST_HEADER + INFO_SIZE * n <= |p|
            && EncodeInfos(ParseList(p)) == p[LIST_HEADER..LIST_HEADER + INFO_SIZE * n]
            && (n == Word(p, 8) || (n < Word(p, 8) && |p| < LIST_HEADER + INFO_SIZE * (n + 1)))
  {
    EntriesAreFaithful(p, EntryCount(p));
  }
}
