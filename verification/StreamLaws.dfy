/** Laws of the receive loop over every byte string: what it may deliver, when a
    split of the stream is invisible, and where it comes to rest. */
module StreamLaws {
  import opened Bytes
  import opened Wrappers
  import opened Framing

  // ---------- soundness ----------

  /** `d` is a slice of `stream` that is a complete, admissible, intact frame. */
  ghost predicate GenuineSlice(stream: seq<byte>, d: Delivery) {
    && WellFramed(d.message)
    && Intact(d.message)
    && d.at + FrameSize(d.message) <= |stream|
    && stream[d.at..d.at + FrameSize(d.message)] == Encode(d.message)
  }

  /** The frames of `ds` lie before `upto`, in order and without overlap. */
  ghost predicate Disjoint(ds: seq<Delivery>, upto: nat) {
    && (forall i :: 0 <= i < |ds| ==> ds[i].at + FrameSize(ds[i].message) <= upto)
    && (forall i, j :: 0 <= i < j < |ds| ==> ds[i].at + FrameSize(ds[i].message) <= ds[j].at)
  }

  /** `s` holds the unread suffix of `stream`, and it delivered nothing but
      disjoint genuine frames of the part already read, in stream order. */
  ghost predicate Sound(stream: seq<byte>, s: Receiver) {
    && s.base <= |stream|
    && s.buffer == stream[s.base..]
    && Disjoint(s.deliveries, s.base)
    && (forall i :: 0 <= i < |s.deliveries| ==> GenuineSlice(stream, s.deliveries[i]))
  }

  lemma DeliveredIsGenuine(order: ByteOrder, stream: seq<byte>, base: nat)
    requires base <= |stream|
    requires !Stuck(order, stream[base..]) && Next(order, stream[base..]).Deliver?
    ensures GenuineSlice(stream, Delivery(base, Next(order, stream[base..]).message))
  {
    var b := stream[base..];
    var m := Next(order, b).message;
    EncodeDecodeHeader(b);
    assert b[..FrameSize(m)] == b[..HEADER_SIZE] + b[HEADER_SIZE..FrameSize(m)];
    assert stream[base..base + FrameSize(m)] == b[..FrameSize(m)];
  }

  lemma IterateSound(order: ByteOrder, stream: seq<byte>, s: Receiver)
    requires Sound(stream, s) && !Stuck(order, s.buffer)
    ensures Sound(stream, Iterate(order, s))
  {
    hide GenuineSlice, Next;
    var a, s' := Next(order, s.buffer), Iterate(order, s);
    assert s'.buffer == stream[s'.base..];
    if a.Deliver? {
      DeliveredIsGenuine(order, stream, s.base);
      assert s'.deliveries == s.deliveries + [Delivery(s.base, a.message)];
    } else {
      assert s'.deliveries == s.deliveries;
    }
  }

  lemma {:induction false} LoopSound(order: ByteOrder, stream: seq<byte>, s: Receiver)
    requires Sound(stream, s)
    ensures Sound(stream, Loop(order, s))
    decreases |s.buffer|
  {
    if !Stuck(order, s.buffer) {
      IterateSound(order, stream, s);
      LoopSound(order, stream, Iterate(order, s));
    }
  }

  lemma GenuineSliceExtends(stream: seq<byte>, more: seq<byte>, d: Delivery)
    requires GenuineSlice(stream, d)
    ensures GenuineSlice(stream + more, d)
  {
    assert (stream + more)[d.at..d.at + FrameSize(d.message)] == stream[d.at..d.at + FrameSize(d.message)];
  }

  /** One more chunk keeps a receiver sound for the longer stream. */
  lemma FeedSound(order: ByteOrder, stream: seq<byte>, s: Receiver, chunk: seq<byte>)
    requires Sound(stream, s)
    ensures Sound(stream + chunk, Feed(order, s, chunk))
  {
    forall i | 0 <= i < |s.deliveries|
      ensures GenuineSlice(stream + chunk, s.deliveries[i])
    {
      GenuineSliceExtends(stream, chunk, s.deliveries[i]);
    }
    LoopSound(order, stream + chunk, Append(s, chunk));
  }

  /** Over any number of calls on any bytes: the buffer is a suffix of everything
      received and the deliveries are genuine, disjoint, ordered slices of it. */
  lemma {:induction false} FeedAllSound(order: ByteOrder, stream: seq<byte>, s: Receiver, chunks: seq<seq<byte>>)
    requires Sound(stream, s)
    ensures Sound(stream + Flatten(chunks), FeedAll(order, s, chunks))
    decreases |chunks|
  {
    hide Sound;
    if chunks == [] {
      assert stream + Flatten(chunks) == stream;
    } else {
      FeedSound(order, stream, s, chunks[0]);
      FeedAllSound(order, stream + chunks[0], Feed(order, s, chunks[0]), chunks[1..]);
      assert stream + Flatten(chunks) == stream + chunks[0] + Flatten(chunks[1..]);
    }
  }

  // ---------- where the loop rests ----------

  /** The loop stops only where it has to wait, and what it keeps is always
      smaller than one maximal frame. */
  lemma {:induction false} LoopQuiescent(order: ByteOrder, s: Receiver)
    ensures Quiescent(Loop(order, s).buffer)
    ensures |Loop(order, s).buffer| < HEADER_SIZE + MAX_MESSAGE_SIZE
    decreases |s.buffer|
  {
    if !Stuck(order, s.buffer) {
      LoopQuiescent(order, Iterate(order, s));
    }
  }

  /** Quiescent buffers are exactly those the loop leaves as they are. */
  lemma QuiescentIffUnchanged(order: ByteOrder, s: Receiver)
    ensures Quiescent(s.buffer) <==> Loop(order, s) == s
  {
    if !Quiescent(s.buffer) {
      LoopQuiescent(order, s);
    }
  }

  // ---------- chunk invariance ----------

  /** This iteration finds a bad magic, and no resync pattern behind it. */
  predicate Empties(order: ByteOrder, b: seq<byte>)
    requires |b| >= HEADER_SIZE
  {
    Next(order, b) == Drop(|b|, BadMagic)
  }

  /** Processing `b` empties the buffer because a bad magic is followed by no
      resync pattern. */
  predicate Clears(order: ByteOrder, b: seq<byte>)
    decreases |b|
  {
    !Stuck(order, b) && (Empties(order, b) || Clears(order, b[Next(order, b).Size()..]))
  }

  /** Processing `b` never takes the bad-magic branch. */
  predicate Aligned(order: ByteOrder, b: seq<byte>)
    decreases |b|
  {
    Stuck(order, b) || (DecodeHeader(b).magic == MESSAGE_MAGIC && Aligned(order, b[Next(order, b).Size()..]))
  }

  lemma {:induction false} AlignedNeverClears(order: ByteOrder, b: seq<byte>)
    requires Aligned(order, b)
    ensures !Clears(order, b)
    decreases |b|
  {
    if !Stuck(order, b) {
      AlignedNeverClears(order, b[Next(order, b).Size()..]);
    }
  }

  lemma DecodeHeaderAppend(a: seq<byte>, b: seq<byte>)
    requires |a| >= HEADER_SIZE
    ensures DecodeHeader(a + b) == DecodeHeader(a)
  {
    ValueLocal(a + b, 0, a, 0, 4);
    ValueLocal(a + b, 4, a, 4, 4);
    ValueLocal(a + b, 8, a, 8, 4);
    ValueLocal(a + b, 12, a, 12, 4);
    ValueLocal(a + b, 16, a, 16, 4);
  }

  lemma FirstMatchAppend(a: seq<byte>, b: seq<byte>, pattern: seq<byte>, k: nat)
    requires k <= |a| && |pattern| == 4
    requires FirstMatch(a, pattern, k) < |a|
    ensures FirstMatch(a + b, pattern, k) == FirstMatch(a, pattern, k)
  {
    var r := FirstMatch(a, pattern, k);
    var r' := FirstMatch(a + b, pattern, k);
    assert MatchAt(a + b, pattern, r);
    assert r' < r ==> MatchAt(a, pattern, r');
  }

  /** A decision once made is not changed by bytes that arrive later, except a
      decision to wait and a decision to empty the buffer. */
  lemma NextAppend(order: ByteOrder, a: seq<byte>, b: seq<byte>)
    requires !Stuck(order, a) && !Empties(order, a)
    ensures Next(order, a + b) == Next(order, a)
    ensures (a + b)[Next(order, a).Size()..] == a[Next(order, a).Size()..] + b
  {
    DecodeHeaderAppend(a, b);
    var h := DecodeHeader(a);
    if h.magic != MESSAGE_MAGIC {
      FirstMatchAppend(a, b, ResyncPattern(order), 1);
    } else if h.length <= MAX_MESSAGE_SIZE {
      assert (a + b)[HEADER_SIZE..HEADER_SIZE + h.length] == a[HEADER_SIZE..HEADER_SIZE + h.length];
    }
  }

  lemma IterateAppend(order: ByteOrder, s: Receiver, b: seq<byte>)
    requires !Stuck(order, s.buffer) && !Empties(order, s.buffer)
    ensures !Stuck(order, Append(s, b).buffer)
    ensures Iterate(order, Append(s, b)) == Append(Iterate(order, s), b)
  {
    NextAppend(order, s.buffer, b);
  }

  /** Unless processing the buffer empties it, running the loop, then appending
      `b` and running it again, is running it once on all the bytes. */
  lemma {:induction false} LoopAppend(order: ByteOrder, s: Receiver, b: seq<byte>)
    requires !Clears(order, s.buffer)
    ensures Loop(order, Append(Loop(order, s), b)) == Loop(order, Append(s, b))
    decreases |s.buffer|
  {
    if !Stuck(order, s.buffer) {
      IterateAppend(order, s, b);
      LoopAppend(order, Iterate(order, s), b);
    }
  }

  lemma EmptiedStaysEmptied(order: ByteOrder, a: seq<byte>)
    requires !Stuck(order, a) && Empties(order, a)
    ensures Empties(order, a + [0])
  {
    var pattern := ResyncPattern(order);
    DecodeHeaderAppend(a, [0]);
    var r := FirstMatch(a + [0], pattern, 1);
    assert pattern[3] != 0;
    assert r + 4 <= |a| ==> MatchAt(a, pattern, r);
  }

  /** Where a run empties the buffer, one zero byte more is dropped with the rest
      when it comes in the same call. */
  lemma {:induction false} ClearsDropsByte(order: ByteOrder, s: Receiver)
    requires Clears(order, s.buffer)
    ensures Loop(order, Append(s, [0])).buffer == []
    ensures Loop(order, s).buffer == []
    decreases |s.buffer|
  {
    if Empties(order, s.buffer) {
      EmptiedStaysEmptied(order, s.buffer);
      assert Iterate(order, Append(s, [0])).buffer == [];
    } else {
      IterateAppend(order, s, [0]);
      ClearsDropsByte(order, Iterate(order, s));
    }
  }

  /** Exactly when a split is invisible: feeding `a` and then `b` equals feeding
      `a + b` for every `b` if and only if processing `a` never empties the buffer
      in search of a magic. */
  lemma ChunkInvarianceExact(order: ByteOrder, s: Receiver, a: seq<byte>)
    ensures (forall b :: Feed(order, Feed(order, s, a), b) == Feed(order, s, a + b))
       <==> !Clears(order, s.buffer + a)
  {
    forall b
      ensures Append(Append(s, a), b) == Append(s, a + b)
    {
      assert s.buffer + (a + b) == s.buffer + a + b;
    }
    if Clears(order, s.buffer + a) {
      ClearsDropsByte(order, Append(s, a));
      assert Feed(order, s, a + [0]).buffer == [];
      assert Feed(order, Feed(order, s, a), [0]).buffer == [0];
    } else {
      forall b
        ensures Feed(order, Feed(order, s, a), b) == Feed(order, s, a + b)
      {
        LoopAppend(order, Append(s, a), b);
      }
    }
  }

  /** Alignment of a stream passes to its prefixes, and to what is left after one. */
  lemma {:induction false} AlignedSplit(order: ByteOrder, s: Receiver, b: seq<byte>)
    requires Aligned(order, s.buffer + b)
    ensures Aligned(order, s.buffer)
    ensures Aligned(order, Loop(order, s).buffer + b)
    decreases |s.buffer|
  {
    if !Stuck(order, s.buffer) {
      DecodeHeaderAppend(s.buffer, b);
      IterateAppend(order, s, b);
      AlignedSplit(order, Iterate(order, s), b);
    }
  }

  /** No call on the chunks, one after the other, empties the buffer. */
  predicate NoCallClears(order: ByteOrder, s: Receiver, chunks: seq<seq<byte>>)
    decreases |chunks|
  {
    chunks == []
    || (!Clears(order, s.buffer + chunks[0]) && NoCallClears(order, Feed(order, s, chunks[0]), chunks[1..]))
  }

  /** As long as no call empties the buffer, any split is equivalent to arrival in
      one piece. */
  lemma {:induction false} ChunkingWithoutClearing(order: ByteOrder, s: Receiver, chunks: seq<seq<byte>>)
    requires Quiescent(s.buffer) && NoCallClears(order, s, chunks)
    ensures FeedAll(order, s, chunks) == Feed(order, s, Flatten(chunks))
    decreases |chunks|
  {
    if chunks == [] {
      assert Append(s, Flatten(chunks)) == s;
      QuiescentIffUnchanged(order, s);
    } else {
      var a, b := chunks[0], Flatten(chunks[1..]);
      LoopQuiescent(order, Append(s, a));
      ChunkingWithoutClearing(order, Feed(order, s, a), chunks[1..]);
      ConcatAssociative(s.buffer, a, b);
      LoopAppend(order, Append(s, a), b);
    }
  }

  /** Whether the whole is cleared is decided by what the first part leaves. */
  lemma {:induction false} ClearsAppend(order: ByteOrder, s: Receiver, b: seq<byte>)
    requires !Clears(order, s.buffer)
    ensures Clears(order, s.buffer + b) <==> Clears(order, Loop(order, s).buffer + b)
    decreases |s.buffer|
  {
    if !Stuck(order, s.buffer) {
      IterateAppend(order, s, b);
      NextAppend(order, s.buffer, b);
      ClearsAppend(order, Iterate(order, s), b);
    }
  }

  /** If no prefix of the stream is cleared, no call on any split of it clears. */
  lemma {:induction false} PrefixesNeverClear(order: ByteOrder, s: Receiver, chunks: seq<seq<byte>>)
    requires forall n :: 0 <= n <= |s.buffer + Flatten(chunks)| ==> !Clears(order, (s.buffer + Flatten(chunks))[..n])
    ensures NoCallClears(order, s, chunks)
    decreases |chunks|
  {
    if chunks != [] {
      var a, b := chunks[0], Flatten(chunks[1..]);
      var head := s.buffer + a;
      var s' := Feed(order, s, a);
      ConcatAssociative(s.buffer, a, b);
      var whole := s.buffer + Flatten(chunks);
      assert whole == head + b;
      assert whole[..|head|] == head;
      forall n | 0 <= n <= |s'.buffer + b|
        ensures !Clears(order, (s'.buffer + b)[..n])
      {
        if n <= |s'.buffer| {
          LoopQuiescent(order, Append(s, a));
          QuiescentPrefix(order, s'.buffer, n);
          assert (s'.buffer + b)[..n] == s'.buffer[..n];
        } else {
          var k := n - |s'.buffer|;
          assert (s'.buffer + b)[..n] == s'.buffer + b[..k];
          assert whole[..|head| + k] == head + b[..k];
          ClearsAppend(order, Append(s, a), b[..k]);
        }
      }
      PrefixesNeverClear(order, s', chunks[1..]);
    }
  }

  lemma QuiescentPrefix(order: ByteOrder, b: seq<byte>, n: nat)
    requires Quiescent(b) && n <= |b|
    ensures Quiescent(b[..n]) && !Clears(order, b[..n])
  {
    assert b == b[..n] + b[n..];
    if n >= HEADER_SIZE {
      DecodeHeaderAppend(b[..n], b[n..]);
    }
  }

  lemma {:induction false} AlignedNoCallClears(order: ByteOrder, s: Receiver, chunks: seq<seq<byte>>)
    requires Aligned(order, s.buffer + Flatten(chunks))
    ensures NoCallClears(order, s, chunks)
    decreases |chunks|
  {
    if chunks != [] {
      var a, b := chunks[0], Flatten(chunks[1..]);
      ConcatAssociative(s.buffer, a, b);
      AlignedSplit(order, Append(s, a), b);
      AlignedNeverClears(order, s.buffer + a);
      AlignedNoCallClears(order, Feed(order, s, a), chunks[1..]);
    }
  }

  /** Every split of a stream that never loses alignment is equivalent to its
      arrival in one piece. */
  lemma AnyChunking(order: ByteOrder, s: Receiver, chunks: seq<seq<byte>>)
    requires Quiescent(s.buffer)
    requires Aligned(order, s.buffer + Flatten(chunks))
    ensures FeedAll(order, s, chunks) == Feed(order, s, Flatten(chunks))
  {
    AlignedNoCallClears(order, s, chunks);
    ChunkingWithoutClearing(order, s, chunks);
  }
}
