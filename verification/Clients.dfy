/** Several client threads feed one message handler. The handler's mutex makes each
    call atomic, so a run is a list of calls in some order. */
module Clients {
  import opened Bytes
  import opened Wrappers
  import opened Framing
  import opened StreamLaws
  import opened FrameStreams
  import opened Tears

  /** Consecutive calls on behalf of one client, and the frames their chunks carry. */
  datatype Turn = Turn(client: nat, chunks: seq<seq<byte>>, messages: seq<Message>)

  /** The chunks of a turn make up whole, admissible, intact frames. A turn of one
      chunk is a call with a whole number of frames. */
  ghost predicate WholeFrames(t: Turn) {
    && AllFramed(t.messages) && AllIntact(t.messages)
    && Flatten(t.chunks) == Stream(t.messages)
  }

  function AllChunks(turns: seq<Turn>): seq<seq<byte>> {
    if turns == [] then [] else turns[0].chunks + AllChunks(turns[1..])
  }

  function AllMessages(turns: seq<Turn>): seq<Message> {
    if turns == [] then [] else turns[0].messages + AllMessages(turns[1..])
  }

  /** The messages client `c` sent, in the order it sent them. */
  function SentBy(turns: seq<Turn>, c: nat): seq<Message> {
    if turns == [] then [] else (if turns[0].client == c then turns[0].messages else []) + SentBy(turns[1..], c)
  }

  /** The clients that the messages of the turns come from, one entry a message. */
  function Origins(turns: seq<Turn>): seq<nat> {
    if turns == [] then [] else seq(|turns[0].messages|, _ => turns[0].client) + Origins(turns[1..])
  }

  /** The elements of `xs` whose tag is `c`, in order. */
  function Select<T>(xs: seq<T>, tags: seq<nat>, c: nat): seq<T>
    requires |tags| == |xs|
  {
    if xs == [] then [] else (if tags[0] == c then [xs[0]] else []) + Select(xs[1..], tags[1..], c)
  }

  /** `xs` with the given origins is an order-preserving merge of the clients' lists. */
  ghost predicate IsMerge(xs: seq<Message>, tags: seq<nat>, turns: seq<Turn>) {
    |tags| == |xs| && forall c: nat :: Select(xs, tags, c) == SentBy(turns, c)
  }

  lemma {:induction false} SelectAppend<T>(xs: seq<T>, xtags: seq<nat>, ys: seq<T>, ytags: seq<nat>, c: nat)
    requires |xtags| == |xs| && |ytags| == |ys|
    ensures Select(xs + ys, xtags + ytags, c) == Select(xs, xtags, c) + Select(ys, ytags, c)
    decreases |xs|
  {
    if xs == [] {
      assert xs + ys == ys && xtags + ytags == ytags;
    } else {
      assert (xs + ys)[1..] == xs[1..] + ys && (xtags + ytags)[1..] == xtags[1..] + ytags;
      SelectAppend(xs[1..], xtags[1..], ys, ytags, c);
      ConcatAssociative(if xtags[0] == c then [xs[0]] else [], Select(xs[1..], xtags[1..], c), Select(ys, ytags, c));
    }
  }

  lemma {:induction false} SelectSame<T>(xs: seq<T>, tags: seq<nat>, tag: nat, c: nat)
    requires |tags| == |xs| && forall i :: 0 <= i < |tags| ==> tags[i] == tag
    ensures Select(xs, tags, c) == if tag == c then xs else []
    decreases |xs|
  {
    if xs != [] {
      SelectSame(xs[1..], tags[1..], tag, c);
    }
  }

  lemma {:induction false} TurnsAreAMerge(turns: seq<Turn>)
    ensures IsMerge(AllMessages(turns), Origins(turns), turns)
    decreases |turns|
  {
    if turns != [] {
      var t := turns[0];
      var tags := seq(|t.messages|, _ => t.client);
      TurnsAreAMerge(turns[1..]);
      forall c: nat
        ensures Select(AllMessages(turns), Origins(turns), c) == SentBy(turns, c)
      {
        SelectAppend(t.messages, tags, AllMessages(turns[1..]), Origins(turns[1..]), c);
        SelectSame(t.messages, tags, t.client, c);
      }
    }
  }

  lemma {:induction false} FeedAllAppend(order: ByteOrder, s: Receiver, xs: seq<seq<byte>>, ys: seq<seq<byte>>)
    ensures FeedAll(order, s, xs + ys) == FeedAll(order, FeedAll(order, s, xs), ys)
    decreases |xs|
  {
    if xs == [] {
      assert xs + ys == ys;
    } else {
      assert (xs + ys)[1..] == xs[1..] + ys;
      FeedAllAppend(order, Feed(order, s, xs[0]), xs[1..], ys);
    }
  }

  lemma OneTurn(order: ByteOrder, s: Receiver, t: Turn)
    requires s.buffer == [] && WholeFrames(t)
    ensures var r := FeedAll(order, s, t.chunks);
            r.buffer == [] && Messages(r.deliveries) == Messages(s.deliveries) + t.messages
  {
    IntactStreamUnderAnyChunking(order, s, t.messages, t.chunks);
  }

  lemma {:induction false} TurnsDeliver(order: ByteOrder, s: Receiver, turns: seq<Turn>)
    requires s.buffer == [] && forall i :: 0 <= i < |turns| ==> WholeFrames(turns[i])
    ensures var r := FeedAll(order, s, AllChunks(turns));
            r.buffer == [] && Messages(r.deliveries) == Messages(s.deliveries) + AllMessages(turns)
    decreases |turns|
  {
    if turns != [] {
      var t := turns[0];
      OneTurn(order, s, t);
      var s' := FeedAll(order, s, t.chunks);
      TurnsDeliver(order, s', turns[1..]);
      FeedAllAppend(order, s, t.chunks, AllChunks(turns[1..]));
      ConcatAssociative(Messages(s.deliveries), t.messages, AllMessages(turns[1..]));
    }
  }

  /** However the turns of any number of clients interleave, as long as a client's
      turn ends on a frame boundary: the callback gets an order-preserving merge of
      the clients' messages, nothing else, and the buffer is empty between turns. */
  lemma ClientsMerge(order: ByteOrder, turns: seq<Turn>)
    requires forall i :: 0 <= i < |turns| ==> WholeFrames(turns[i])
    ensures IsMerge(Messages(FeedAll(order, FRESH, AllChunks(turns)).deliveries), Origins(turns), turns)
    ensures forall k :: 0 <= k <= |turns| ==> FeedAll(order, FRESH, AllChunks(turns[..k])).buffer == []
  {
    TurnsDeliver(order, FRESH, turns);
    TurnsAreAMerge(turns);
    assert Messages(FRESH.deliveries) + AllMessages(turns) == AllMessages(turns);
    forall k | 0 <= k <= |turns|
      ensures FeedAll(order, FRESH, AllChunks(turns[..k])).buffer == []
    {
      TurnsDeliver(order, FRESH, turns[..k]);
    }
  }

  // ---------- the condition is needed ----------

  /** The calls when another client's frame `g` comes after `d` bytes of a frame. */
  function Around(f: Message, d: nat, g: Message): seq<seq<byte>>
    requires d <= FrameSize(f)
  {
    [Encode(f)[..d], Encode(g), Encode(f)[d..]]
  }

  lemma AroundBytes(f: Message, d: nat, g: Message)
    requires d <= FrameSize(f)
    ensures Flatten(Around(f, d, g)) == Encode(f)[..d] + Encode(g) + Encode(f)[d..]
  {
    var c := Around(f, d, g);
    var last := c[1..][1..];
    assert last == [Encode(f)[d..]] && Flatten(last[1..]) == [];
    assert Flatten(last) == Encode(f)[d..];
    assert Flatten(c[1..]) == Encode(g) + Flatten(last);
  }

  /** Two messages are delivered one after the other, whatever intact frame comes
      in between. */
  ghost predicate CutIsHarmless(order: ByteOrder, f: Message, d: nat)
    requires d <= FrameSize(f)
  {
    forall g :: WellFramed(g) && Intact(g) ==>
      var ms := Messages(FeedAll(order, FRESH, Around(f, d, g)).deliveries);
      ms == [f, g] || ms == [g, f]
  }

  lemma TwoFrames(order: ByteOrder, x: Message, y: Message, chunks: seq<seq<byte>>)
    requires WellFramed(x) && Intact(x) && WellFramed(y) && Intact(y)
    requires Flatten(chunks) == Encode(x) + Encode(y)
    ensures Messages(FeedAll(order, FRESH, chunks).deliveries) == [x, y]
  {
    var ms := [x, y];
    assert ms[1..] == [y] && ms[1..][1..] == [];
    assert Stream(ms[1..]) == Encode(y) + [] == Encode(y);
    assert Stream(ms) == Encode(x) + Encode(y);
    IntactStreamUnderAnyChunking(order, FRESH, ms, chunks);
    assert Messages(FRESH.deliveries) + ms == ms;
  }

  lemma BoundaryIsHarmless(order: ByteOrder, f: Message, d: nat)
    requires WellFramed(f) && Intact(f) && (d == 0 || d == FrameSize(f))
    ensures CutIsHarmless(order, f, d)
  {
    forall g | WellFramed(g) && Intact(g)
      ensures var ms := Messages(FeedAll(order, FRESH, Around(f, d, g)).deliveries);
              ms == [f, g] || ms == [g, f]
    {
      AroundBytes(f, d, g);
      if d == 0 {
        assert Encode(f)[..d] + Encode(g) + Encode(f)[d..] == Encode(g) + Encode(f);
        TwoFrames(order, g, f, Around(f, d, g));
      } else {
        assert Encode(f)[..d] + Encode(g) + Encode(f)[d..] == Encode(f) + Encode(g);
        TwoFrames(order, f, g, Around(f, d, g));
      }
    }
  }

  /** Two messages that fill the received bytes can only be delivered if they are
      these bytes. */
  lemma TwoDeliveriesTile(order: ByteOrder, x: Message, y: Message, chunks: seq<seq<byte>>)
    requires Messages(FeedAll(order, FRESH, chunks).deliveries) == [x, y]
    requires |Flatten(chunks)| == FrameSize(x) + FrameSize(y)
    ensures Flatten(chunks) == Encode(x) + Encode(y)
  {
    hide FeedAll, Encode, Flatten, GenuineSlice;
    var b, ds := Flatten(chunks), FeedAll(order, FRESH, chunks).deliveries;
    FeedAllSound(order, [], FRESH, chunks);
    assert [] + b == b;
    assert |ds| == 2 && ds[0].message == Messages(ds)[0] && ds[1].message == Messages(ds)[1];
    TwoSlicesTile(b, ds[0], ds[1]);
  }

  lemma TwoSlicesTile(b: seq<byte>, x: Delivery, y: Delivery)
    requires GenuineSlice(b, x) && GenuineSlice(b, y) && x.at + FrameSize(x.message) <= y.at
    requires |b| == FrameSize(x.message) + FrameSize(y.message)
    ensures b == Encode(x.message) + Encode(y.message)
  {
    hide Encode, WellFramed, Intact;
    var n := FrameSize(x.message);
    assert x.at == 0 && y.at == n;
    assert b == b[0..n] + b[n..|b|];
  }

  /** An empty frame whose only byte of kind differs from the given bytes. */
  function OtherThan(x: byte, y: byte): (g: Message)
    ensures WellFramed(g) && Intact(g) && FrameSize(g) == HEADER_SIZE
    ensures 0 < g.header.kind <= 3 && g.header.kind != x && g.header.kind != y
  {
    EmptyFrame(if x != 1 && y != 1 then 1 else if x != 2 && y != 2 then 2 else 3)
  }

  lemma SmallKindBytes(g: Message)
    requires WellFramed(g) && 0 < g.header.kind <= 3
    ensures Encode(g)[7] == g.header.kind
    ensures forall i :: 0 <= i < 7 ==> Encode(g)[i] != Encode(g)[7]
  {
    KindBytes(g);
    FrameStartsWithMagic(g, 4);
    ValueOfFour(Encode(g), 4);
  }

  /** The frame of the other client that does not fit into the cut. */
  function Intruder(f: Message, d: nat): Message
    requires d < FrameSize(f)
  {
    OtherThan(Encode(f)[7], if d + 7 < FrameSize(f) then Encode(f)[d + 7] else 0)
  }

  lemma IntruderDoesNotTile(f: Message, d: nat)
    requires 0 < d < FrameSize(f)
    ensures var fb, gb := Encode(f), Encode(Intruder(f, d));
            fb[..d] + gb + fb[d..] != fb + gb && fb[..d] + gb + fb[d..] != gb + fb
  {
    var n, g := FrameSize(f), Intruder(f, d);
    var fb, gb := Encode(f), Encode(g);
    var b := fb[..d] + gb + fb[d..];
    SmallKindBytes(g);
    if d + 7 < n {
      assert b[d + 7] == gb[7] != (fb + gb)[d + 7];
    } else {
      assert b[d + 7] == gb[7] != gb[d + 7 - n] == (fb + gb)[d + 7];
    }
    if d <= 7 {
      assert b[7] == gb[7 - d] != gb[7] == (gb + fb)[7];
    } else {
      assert b[7] == fb[7] != gb[7] == (gb + fb)[7];
    }
  }

  /** Exactly which cuts are harmless: a frame split between two calls comes through
      together with every intact frame of another client in between if and only if
      the cut lies on a frame boundary. */
  lemma CutHarmlessExactly(order: ByteOrder, f: Message, d: nat)
    requires WellFramed(f) && Intact(f) && d <= FrameSize(f)
    ensures CutIsHarmless(order, f, d) <==> d == 0 || d == FrameSize(f)
  {
    if d == 0 || d == FrameSize(f) {
      BoundaryIsHarmless(order, f, d);
    } else {
      var g := Intruder(f, d);
      var chunks := Around(f, d, g);
      AroundBytes(f, d, g);
      IntruderDoesNotTile(f, d);
      if Messages(FeedAll(order, FRESH, chunks).deliveries) == [f, g] {
        TwoDeliveriesTile(order, f, g, chunks);
      }
      if Messages(FeedAll(order, FRESH, chunks).deliveries) == [g, f] {
        TwoDeliveriesTile(order, g, f, chunks);
      }
    }
  }

  // ---------- a cut that loses both frames ----------

  const FIRST: Message := Sealed(NewMessage(8, [], 1))
  const SECOND: Message := Sealed(NewMessage(8, [], 2))

  /** The frame of one client, split after ten bytes by the frame of another. */
  function SplitFrame(): seq<seq<byte>> {
    [Encode(FIRST)[..10], Encode(SECOND), Encode(FIRST)[10..]]
  }

  lemma MixedHeader()
    ensures var b := Encode(FIRST)[..10] + Encode(SECOND);
            |b| == 30 && DecodeHeader(b).magic == MESSAGE_MAGIC && DecodeHeader(b).length == 0x5553
  {
    var a, c := Encode(FIRST), Encode(SECOND);
    var b := a[..10] + c;
    DecodeEncodeHeader(FIRST.header, FIRST.payload);
    DecodeEncodeHeader(SECOND.header, SECOND.payload);
    assert b[0..4] == a[0..4];
    ValueLocal(b, 0, a, 0, 4);
    ValueOfFour(a, 8);
    ValueOfFour(c, 0);
    ValueOfFour(b, 8);
    assert b[8] == a[8] && b[9] == a[9] && b[10] == c[0] && b[11] == c[1];
  }

  /** A frame split between two calls with another client's frame in between: both
      frames are lost, although each client sent a well-formed stream. */
  lemma SplitFrameLosesBoth(order: ByteOrder)
    ensures Encode(FIRST)[..10] + Encode(FIRST)[10..] == Encode(FIRST)
    ensures FeedAll(order, FRESH, SplitFrame()).deliveries == []
    ensures |FeedAll(order, FRESH, SplitFrame()).buffer| == 40
  {
    hide Loop, Encode;
    var a, c := Encode(FIRST), Encode(SECOND);
    var x, y, z := a[..10], c, a[10..];
    MixedHeader();
    assert FRESH.buffer + x == x;
    var s1 := Feed(order, FRESH, x);
    QuiescentIffUnchanged(order, Append(FRESH, x));
    assert s1 == Receiver([], 0, x);
    var s2 := Feed(order, s1, y);
    QuiescentIffUnchanged(order, Append(s1, y));
    assert s2 == Receiver([], 0, x + y);
    DecodeHeaderAppend(x + y, z);
    QuiescentIffUnchanged(order, Append(s2, z));
    var chunks: seq<seq<byte>> := SplitFrame();
    assert chunks[1..] == [y, z] && chunks[1..][1..] == [z];
    assert FeedAll(order, FRESH, chunks) == FeedAll(order, s1, chunks[1..]) == FeedAll(order, s2, chunks[1..][1..]);
  }
}
