/** Fixed-width integers, their layout in a host's memory, and the network byte
    order conversions `htonl`/`ntohl`/`htons`/`ntohs`. */
module Bytes {

  type byte = x: int | 0 <= x < 0x100
  type uint16 = x: int | 0 <= x < 0x1_0000
  type uint32 = x: int | 0 <= x < 0x1_0000_0000
  type int32 = x: int | -0x8000_0000 <= x < 0x8000_0000
  type uint64 = x: int | 0 <= x < 0x1_0000_0000_0000_0000

  const TWO_32: int := 0x1_0000_0000
  const TWO_64: int := 0x1_0000_0000_0000_0000

  /** The order in which a host keeps the bytes of an integer in memory. */
  datatype ByteOrder = LittleEndian | BigEndian

  /** Conversions between signed and unsigned words of the same bits. */
  function Unsigned(x: int32): uint32 {
    if x < 0 then x + TWO_32 else x
  }

  function Signed(x: uint32): int32 {
    if x < 0x8000_0000 then x else x - TWO_32
  }

  lemma ConcatAssociative<T>(a: seq<T>, b: seq<T>, c: seq<T>)
    ensures a + b + c == a + (b + c)
  {}

  lemma TakeOfConcat<T>(a: seq<T>, b: seq<T>, n: nat)
    requires n <= |a| + |b|
    ensures (a + b)[..n] == if n <= |a| then a[..n] else a + b[..n - |a|]
  {}

  lemma SliceOfSlice<T>(a: seq<T>, k: nat, n: nat, i: nat, j: nat)
    requires k + n <= |a| && i <= j <= n
    ensures a[k..k + n][i..j] == a[k + i..k + j]
  {
    var x, y := a[k..k + n][i..j], a[k + i..k + j];
    forall t | 0 <= t < |x|
      ensures x[t] == y[t]
    {
      assert x[t] == a[k..k + n][i + t] == a[k + (i + t)];
      assert y[t] == a[k + i + t];
    }
  }

  lemma TakeMore<T>(a: seq<T>, i: nat, k: nat)
    requires i + k <= |a|
    ensures a[..i + k] == a[..i] + a[i..i + k]
    ensures a == a[..i] + a[i..i + k] + a[i + k..]
  {}

  /** The remainder is what is left beside some multiple, whatever the multiple. */
  lemma RemainderIsUnique(x: nat, q: int, r: nat, m: nat)
    requires r < m && x == q * m + r
    ensures x % m == r
  {
    var a := q - x / m;
    assert x == x / m * m + x % m;
    assert a * m == q * m - x / m * m;
    assert a >= 1 ==> a * m >= m;
    assert a <= -1 ==> a * m + m <= 0;
  }

  /** Adding a multiple of `m` does not change the remainder modulo `m`. */
  lemma AddMultiple(x: nat, k: nat, m: nat)
    requires m > 0
    ensures (x + k * m) % m == x % m
  {
    var q := x / m;
    assert (q + k) * m == q * m + k * m;
    RemainderIsUnique(x + k * m, q + k, x % m, m);
  }

  lemma SliceOfConcat<T>(a: seq<T>, b: seq<T>, i: nat, j: nat)
    requires i <= j <= |a|
    ensures (a + b)[i..j] == a[i..j]
    ensures (a + b)[|a|..|a| + |b|] == b
  {}

  lemma SliceConcat<T>(a: seq<T>, i: nat, j: nat, k: nat)
    requires i <= j <= k <= |a|
    ensures a[i..j] + a[j..k] == a[i..k]
  {}

  function Pow256(n: nat): (p: nat)
    ensures p > 0
  {
    if n == 0 then 1 else 0x100 * Pow256(n - 1)
  }

  /** The `n` low-order bytes of `x`, most significant first. */
  function Digits(x: nat, n: nat): (b: seq<byte>)
    ensures |b| == n
  {
    if n == 0 then [] else Digits(x / 0x100, n - 1) + [x % 0x100]
  }

  /** The value of the `n` bytes of `b` that start at `k`, most significant first. */
  function Value(b: seq<byte>, k: nat, n: nat): (v: nat)
    requires k + n <= |b|
    ensures v < Pow256(n)
  {
    if n == 0 then 0 else Value(b, k, n - 1) * 0x100 + b[k + n - 1]
  }

  /** A value depends only on the bytes it is read from. */
  lemma {:induction false} ValueLocal(a: seq<byte>, i: nat, b: seq<byte>, j: nat, n: nat)
    requires i + n <= |a| && j + n <= |b|
    requires a[i..i + n] == b[j..j + n]
    ensures Value(a, i, n) == Value(b, j, n)
  {
    if n > 0 {
      assert a[i..i + n][n - 1] == b[j..j + n][n - 1];
      assert a[i..i + n - 1] == a[i..i + n][..n - 1];
      assert b[j..j + n - 1] == b[j..j + n][..n - 1];
      ValueLocal(a, i, b, j, n - 1);
    }
  }

  lemma {:induction false} ValueOfDigits(x: nat, n: nat)
    requires x < Pow256(n)
    ensures Value(Digits(x, n), 0, n) == x
  {
    if n > 0 {
      ValueOfDigits(x / 0x100, n - 1);
      assert Digits(x, n)[0..n - 1] == Digits(x / 0x100, n - 1)[0..n - 1];
      ValueLocal(Digits(x, n), 0, Digits(x / 0x100, n - 1), 0, n - 1);
    }
  }

  lemma {:induction false} DigitsOfValue(b: seq<byte>, k: nat, n: nat)
    requires k + n <= |b|
    ensures Digits(Value(b, k, n), n) == b[k..k + n]
  {
    if n > 0 {
      DigitsOfValue(b, k, n - 1);
      assert b[k..k + n] == b[k..k + n - 1] + [b[k + n - 1]];
    }
  }

  /** Network-order bytes of a word and a half word, and back. */
  function BE32(x: uint32): (b: seq<byte>)
    ensures |b| == 4
  {
    Digits(x, 4)
  }

  function BE16(x: uint16): (b: seq<byte>)
    ensures |b| == 2
  {
    Digits(x, 2)
  }

  function Word(b: seq<byte>, k: nat): uint32
    requires k + 4 <= |b|
  {
    assert Pow256(4) == TWO_32;
    Value(b, k, 4)
  }

  function Half(b: seq<byte>, k: nat): uint16
    requires k + 2 <= |b|
  {
    assert Pow256(2) == 0x1_0000;
    Value(b, k, 2)
  }

  function FromBE32(b: seq<byte>): uint32
    requires |b| == 4
  {
    Word(b, 0)
  }

  function FromBE16(b: seq<byte>): uint16
    requires |b| == 2
  {
    Half(b, 0)
  }

  /** Consecutive words in network order, and the words read back. */
  function WordBytes(ws: seq<uint32>): (b: seq<byte>)
    ensures |b| == 4 * |ws|
  {
    if ws == [] then [] else WordBytes(ws[..|ws| - 1]) + BE32(ws[|ws| - 1])
  }

  lemma WordOfSlice(b: seq<byte>, k: nat, x: uint32)
    requires k + 4 <= |b|
    ensures Word(b, k) == x <==> b[k..k + 4] == BE32(x)
  {
    BE32RoundTrip(x);
    DigitsOfValue(b, k, 4);
    if b[k..k + 4] == BE32(x) {
      ValueLocal(b, k, BE32(x), 0, 4);
    }
  }

  lemma {:induction false} WordOfWords(ws: seq<uint32>, tail: seq<byte>, i: nat)
    requires i < |ws|
    ensures Word(WordBytes(ws) + tail, 4 * i) == ws[i]
  {
    var b := WordBytes(ws) + tail;
    var init, last := ws[..|ws| - 1], BE32(ws[|ws| - 1]);
    assert b == WordBytes(init) + (last + tail);
    if i < |init| {
      WordOfWords(init, last + tail, i);
    } else {
      assert b[4 * i..4 * i + 4] == last;
      WordOfSlice(b, 4 * i, ws[i]);
    }
  }

  lemma {:induction false} WordsOfBytes(b: seq<byte>, ws: seq<uint32>)
    requires 4 * |ws| <= |b|
    requires forall i :: 0 <= i < |ws| ==> Word(b, 4 * i) == ws[i]
    ensures WordBytes(ws) == b[..4 * |ws|]
  {
    if ws != [] {
      var n := |ws| - 1;
      WordsOfBytes(b, ws[..n]);
      WordOfSlice(b, 4 * n, ws[n]);
      assert b[..4 * |ws|] == b[..4 * n] + b[4 * n..4 * n + 4];
    }
  }

  /** The bytes of a word as they lie in memory, and the word those bytes hold. */
  function Memory32(order: ByteOrder, x: uint32): seq<byte> {
    var b := BE32(x);
    if order.BigEndian? then b else [b[3], b[2], b[1], b[0]]
  }

  function Load32(order: ByteOrder, b: seq<byte>): uint32
    requires |b| == 4
  {
    FromBE32(if order.BigEndian? then b else [b[3], b[2], b[1], b[0]])
  }

  function Memory16(order: ByteOrder, x: uint16): seq<byte> {
    var b := BE16(x);
    if order.BigEndian? then b else [b[1], b[0]]
  }

  function Load16(order: ByteOrder, b: seq<byte>): uint16
    requires |b| == 2
  {
    FromBE16(if order.BigEndian? then b else [b[1], b[0]])
  }

  function Htonl(order: ByteOrder, x: uint32): uint32 {
    Load32(order, BE32(x))
  }

  function Ntohl(order: ByteOrder, x: uint32): uint32 {
    FromBE32(Memory32(order, x))
  }

  function Htons(order: ByteOrder, x: uint16): uint16 {
    Load16(order, BE16(x))
  }

  function Ntohs(order: ByteOrder, x: uint16): uint16 {
    FromBE16(Memory16(order, x))
  }

  lemma ValueOfFour(b: seq<byte>, k: nat)
    requires k + 4 <= |b|
    ensures var b0: int, b1: int, b2: int := b[k], b[k + 1], b[k + 2];
            Word(b, k) == ((b0 * 0x100 + b1) * 0x100 + b2) * 0x100 + b[k + 3]
  {
    assert Value(b, k, 1) == b[k];
    assert Value(b, k, 3) == Value(b, k, 2) * 0x100 + b[k + 2];
  }

  lemma WordLastByte(b: seq<byte>, k: nat)
    requires k + 4 <= |b|
    ensures Word(b, k) % 0x100 == b[k + 3]
  {
    ValueOfFour(b, k);
  }

  /** What the bytes of an integer mean: on a little-endian host the first byte in
      memory is the least significant one, on a big-endian host the last. */
  lemma HostByteOrder(order: ByteOrder, b: seq<byte>, c: seq<byte>)
    requires |b| == 4 && |c| == 2
    ensures var b0: int, b1: int, b2: int, b3: int := b[0], b[1], b[2], b[3];
            Load32(order, b) == if order.LittleEndian? then ((b3 * 0x100 + b2) * 0x100 + b1) * 0x100 + b0
                                else ((b0 * 0x100 + b1) * 0x100 + b2) * 0x100 + b3
    ensures var c0: int, c1: int := c[0], c[1];
            Load16(order, c) == if order.LittleEndian? then c1 * 0x100 + c0 else c0 * 0x100 + c1
  {
    ValueOfFour(b, 0);
    ValueOfFour([b[3], b[2], b[1], b[0]], 0);
    assert Value(c, 0, 1) == c[0];
    assert Value([c[1], c[0]], 0, 1) == c[1];
  }

  lemma BE32RoundTrip(x: uint32)
    ensures FromBE32(BE32(x)) == x
  {
    assert Pow256(4) == TWO_32;
    ValueOfDigits(x, 4);
  }

  lemma FromBE32RoundTrip(b: seq<byte>)
    requires |b| == 4
    ensures BE32(FromBE32(b)) == b
  {
    DigitsOfValue(b, 0, 4);
  }

  lemma BE16RoundTrip(x: uint16)
    ensures FromBE16(BE16(x)) == x
  {
    assert Pow256(2) == 0x1_0000;
    ValueOfDigits(x, 2);
  }

  lemma FromBE16RoundTrip(b: seq<byte>)
    requires |b| == 2
    ensures BE16(FromBE16(b)) == b
  {
    DigitsOfValue(b, 0, 2);
  }

  lemma Memory32RoundTrip(order: ByteOrder, x: uint32, b: seq<byte>)
    requires |b| == 4
    ensures Load32(order, Memory32(order, x)) == x
    ensures Memory32(order, Load32(order, b)) == b
  {
    BE32RoundTrip(x);
    var r := [b[3], b[2], b[1], b[0]];
    FromBE32RoundTrip(b);
    FromBE32RoundTrip(r);
    var m := BE32(x);
    var s := Memory32(order, x);
    assert order.LittleEndian? ==> [s[3], s[2], s[1], s[0]] == m;
    assert order.LittleEndian? ==> [r[3], r[2], r[1], r[0]] == b;
  }

  lemma Memory16RoundTrip(order: ByteOrder, x: uint16, b: seq<byte>)
    requires |b| == 2
    ensures Load16(order, Memory16(order, x)) == x
    ensures Memory16(order, Load16(order, b)) == b
  {
    BE16RoundTrip(x);
    FromBE16RoundTrip(b);
    var r := [b[1], b[0]];
    FromBE16RoundTrip(r);
    var m := BE16(x);
    assert order.LittleEndian? ==> [Memory16(order, x)[1], Memory16(order, x)[0]] == m;
    assert order.LittleEndian? ==> [r[1], r[0]] == b;
  }

  /** Writing `htonl(x)` to memory yields the network-order bytes of `x` on every
      host, reading network-order bytes and applying `ntohl` yields their value,
      and the two conversions undo each other. */
  lemma NetworkOrder32(order: ByteOrder, x: uint32, b: seq<byte>)
    requires |b| == 4
    ensures Memory32(order, Htonl(order, x)) == BE32(x)
    ensures Ntohl(order, Load32(order, b)) == FromBE32(b)
    ensures Ntohl(order, Htonl(order, x)) == x
    ensures Htonl(order, Ntohl(order, x)) == x
  {
    Memory32RoundTrip(order, x, BE32(x));
    Memory32RoundTrip(order, x, b);
    BE32RoundTrip(x);
    FromBE32RoundTrip(Memory32(order, x));
  }

  lemma NetworkOrder16(order: ByteOrder, x: uint16, b: seq<byte>)
    requires |b| == 2
    ensures Memory16(order, Htons(order, x)) == BE16(x)
    ensures Ntohs(order, Load16(order, b)) == FromBE16(b)
    ensures Ntohs(order, Htons(order, x)) == x
    ensures Htons(order, Ntohs(order, x)) == x
  {
    Memory16RoundTrip(order, x, BE16(x));
    Memory16RoundTrip(order, x, b);
    BE16RoundTrip(x);
    FromBE16RoundTrip(Memory16(order, x));
  }

  /** The memory image of consecutive words. */
  function MemoryWords(order: ByteOrder, ws: seq<uint32>): (b: seq<byte>)
    ensures |b| == 4 * |ws|
  {
    if ws == [] then [] else MemoryWords(order, ws[..|ws| - 1]) + Memory32(order, ws[|ws| - 1])
  }

  lemma {:induction false} MemoryOfSwapped(order: ByteOrder, ws: seq<uint32>, swapped: seq<uint32>)
    requires |ws| == |swapped|
    requires forall i :: 0 <= i < |ws| ==> swapped[i] == Htonl(order, ws[i])
    ensures MemoryWords(order, swapped) == WordBytes(ws)
  {
    if ws != [] {
      var n := |ws| - 1;
      MemoryOfSwapped(order, ws[..n], swapped[..n]);
      NetworkOrder32(order, ws[n], BE32(ws[n]));
    }
  }

  lemma LoadedWord(order: ByteOrder, b: seq<byte>, k: nat)
    requires k + 4 <= |b|
    ensures Ntohl(order, Load32(order, b[k..k + 4])) == Word(b, k)
  {
    NetworkOrder32(order, 0, b[k..k + 4]);
    ValueLocal(b, k, b[k..k + 4], 0, 4);
  }
}
