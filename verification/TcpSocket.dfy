/** The socket loops: a send that pushes the rest of its data until the kernel has
    taken all of it, and receive loops that hand over whatever chunk arrives. The
    kernel is a finite script of outcomes. */
module Sockets {
  import opened Bytes
  import opened Framing
  import opened StreamLaws
  import opened FrameStreams
  import opened MessageHandling
  import opened Wrappers

  const RECEIVE_BUFFER_SIZE: nat := 8192

  /** What one `send` call reports: up to `n` bytes taken, EAGAIN, another error. */
  datatype SendOutcome = Accepted(n: nat) | SendAgain | SendError

  /** `Pending`: the script ended while the call was still retrying. */
  datatype SendResult = Sent | Failed | Pending

  /** What one `recv` call reports. `Stopped` stands for the stop flag (or, on a
      connected socket, the connection flag) found changed before the call. */
  datatype ReceiveOutcome = Data(bytes: seq<byte>) | ReceiveAgain | Closed | ReceiveError | Stopped

  /** The bytes the kernel takes of `data`, and how the call ends. */
  datatype Transmission = Transmission(written: seq<byte>, result: SendResult)

  function Transmit(data: seq<byte>, kernel: seq<SendOutcome>): Transmission
    decreases |kernel|
  {
    if data == [] then
      Transmission([], Sent)
    else if kernel == [] then
      Transmission([], Pending)
    else
      match kernel[0]
      case SendError => Transmission([], Failed)
      case SendAgain => Transmit(data, kernel[1..])
      case Accepted(n) =>
        var k := Min(n, |data|);
        var t := Transmit(data[k..], kernel[1..]);
        Transmission(data[..k] + t.written, t.result)
  }

  /** The call writes a prefix of its data, in order and without repetition, and it
      reports success exactly when it wrote all of it. */
  lemma {:induction false} TransmitWritesPrefix(data: seq<byte>, kernel: seq<SendOutcome>)
    ensures Transmit(data, kernel).written <= data
    ensures Transmit(data, kernel).result.Sent? <==> Transmit(data, kernel).written == data
    decreases |kernel|
  {
    if data != [] && kernel != [] {
      match kernel[0]
      case SendError =>
      case SendAgain => TransmitWritesPrefix(data, kernel[1..]);
      case Accepted(n) =>
        var k := Min(n, |data|);
        TransmitWritesPrefix(data[k..], kernel[1..]);
        assert data == data[..k] + data[k..];
    }
  }

  /** What the kernel takes in the given calls, if it is offered enough. */
  function Capacity(kernel: seq<SendOutcome>): nat {
    if kernel == [] then
      0
    else
      Capacity(kernel[..|kernel| - 1]) + if kernel[|kernel| - 1].Accepted? then kernel[|kernel| - 1].n else 0
  }

  /** The calls before the first error, or before the end of the script, are `k`. */
  predicate ErrorAt(kernel: seq<SendOutcome>, k: nat) {
    && k <= |kernel|
    && (forall i :: 0 <= i < k ==> !kernel[i].SendError?)
    && (k < |kernel| ==> kernel[k].SendError?)
  }

  lemma {:induction false} CapacitySplit(kernel: seq<SendOutcome>, k: nat)
    requires 0 < k <= |kernel|
    ensures Capacity(kernel[..k]) == (if kernel[0].Accepted? then kernel[0].n else 0) + Capacity(kernel[1..][..k - 1])
  {
    if k == 1 {
      assert kernel[..1][..0] == [] && kernel[1..][..0] == [];
    } else {
      CapacitySplit(kernel, k - 1);
      assert kernel[..k][..k - 1] == kernel[..k - 1];
      assert kernel[1..][..k - 1][..k - 2] == kernel[1..][..k - 2];
    }
  }

  /** Exactly what a send does: it writes as much as the kernel takes before its first
      error, EAGAIN or not, and reports success if that is all, failure if the error
      came first, and goes on trying otherwise. */
  lemma {:induction false} TransmitExactly(data: seq<byte>, kernel: seq<SendOutcome>, k: nat)
    requires ErrorAt(kernel, k)
    ensures var taken := Capacity(kernel[..k]);
            Transmit(data, kernel) ==
            if |data| <= taken then Transmission(data, Sent)
            else Transmission(data[..taken], if k < |kernel| then Failed else Pending)
    decreases |kernel|
  {
    if data != [] && k > 0 {
      CapacitySplit(kernel, k);
      var rest := kernel[1..];
      assert ErrorAt(rest, k - 1);
      if kernel[0].Accepted? {
        var n := Min(kernel[0].n, |data|);
        TransmitExactly(data[n..], rest, k - 1);
        TakenInTwo(data, n, Capacity(rest[..k - 1]));
      } else {
        TransmitExactly(data, rest, k - 1);
      }
    }
  }

  lemma TakenInTwo(data: seq<byte>, n: nat, later: nat)
    requires n <= |data|
    ensures data[..n] + data[n..] == data
    ensures n + later <= |data| ==> data[..n] + data[n..][..later] == data[..n + later]
  {}

  /** After `calls` calls `total` bytes of the data are written, and the rest is
      still to be transmitted. */
  ghost predicate SentSoFar(data: seq<byte>, kernel: seq<SendOutcome>, total: nat, calls: nat)
    requires total <= |data| && calls <= |kernel|
  {
    var t := Transmit(data[total..], kernel[calls..]);
    Transmit(data, kernel) == Transmission(data[..total] + t.written, t.result)
  }

  lemma NothingSent(data: seq<byte>, kernel: seq<SendOutcome>)
    ensures SentSoFar(data, kernel, 0, 0)
  {
    assert data[0..] == data && kernel[0..] == kernel;
    assert [] + Transmit(data, kernel).written == Transmit(data, kernel).written;
  }

  /** Where the loop of a send ends. */
  lemma SendEnds(data: seq<byte>, kernel: seq<SendOutcome>, total: nat, calls: nat)
    requires total <= |data| && calls <= |kernel| && SentSoFar(data, kernel, total, calls)
    ensures total == |data| ==> Transmit(data, kernel) == Transmission(data[..total], Sent)
    ensures total < |data| && calls == |kernel| ==> Transmit(data, kernel) == Transmission(data[..total], Pending)
    ensures total < |data| && calls < |kernel| && kernel[calls].SendError? ==>
              Transmit(data, kernel) == Transmission(data[..total], Failed)
  {
    assert data[..total] + [] == data[..total];
  }

  lemma SendGoesOn(data: seq<byte>, kernel: seq<SendOutcome>, total: nat, calls: nat)
    requires total < |data| && calls < |kernel| && SentSoFar(data, kernel, total, calls)
    ensures kernel[calls].SendAgain? ==> SentSoFar(data, kernel, total, calls + 1)
    ensures kernel[calls].Accepted? ==>
              SentSoFar(data, kernel, total + Min(kernel[calls].n, |data| - total), calls + 1)
  {
    assert kernel[calls..][1..] == kernel[calls + 1..];
    if kernel[calls].Accepted? {
      var k := Min(kernel[calls].n, |data| - total);
      var t := Transmit(data[total + k..], kernel[calls + 1..]);
      assert data[total..][..k] == data[total..total + k] && data[total..][k..] == data[total + k..];
      TakeMore(data, total, k);
      hide Transmit;
      ConcatAssociative(data[..total], data[total..total + k], t.written);
    }
  }

  /** The chunks a receive loop hands over before it ends. */
  function Chunks(recvs: seq<ReceiveOutcome>): seq<seq<byte>>
    decreases |recvs|
  {
    if recvs == [] then
      []
    else
      match recvs[0]
      case Data(bytes) => [bytes] + Chunks(recvs[1..])
      case ReceiveAgain => Chunks(recvs[1..])
      case _ => []
  }

  /** The bytes of the data among the outcomes, in order. */
  function DataBytes(recvs: seq<ReceiveOutcome>): seq<byte> {
    if recvs == [] then
      []
    else
      DataBytes(recvs[..|recvs| - 1]) + if recvs[|recvs| - 1].Data? then recvs[|recvs| - 1].bytes else []
  }

  lemma DataBytesMore(recvs: seq<ReceiveOutcome>, k: nat)
    requires k < |recvs|
    ensures DataBytes(recvs[..k + 1]) == DataBytes(recvs[..k]) + if recvs[k].Data? then recvs[k].bytes else []
  {
    assert recvs[..k + 1][..k] == recvs[..k];
  }

  /** The bytes of each outcome stand behind those of the outcomes before it. */
  lemma {:induction false} DataBytesAt(recvs: seq<ReceiveOutcome>, i: nat, k: nat)
    requires i < k <= |recvs| && recvs[i].Data?
    ensures var at := |DataBytes(recvs[..i])|;
            && at + |recvs[i].bytes| <= |DataBytes(recvs[..k])|
            && DataBytes(recvs[..k])[at..at + |recvs[i].bytes|] == recvs[i].bytes
    decreases k
  {
    DataBytesMore(recvs, k - 1);
    if i < k - 1 {
      DataBytesAt(recvs, i, k - 1);
    }
  }

  /** The loop runs over the first `k` outcomes: it handles data, goes on after
      EAGAIN, and ends at anything else. */
  predicate LoopEndsAt(recvs: seq<ReceiveOutcome>, k: int) {
    && 0 <= k <= |recvs|
    && (forall i :: 0 <= i < k ==> recvs[i].Data? || recvs[i].ReceiveAgain?)
    && (k < |recvs| ==> !recvs[k].Data? && !recvs[k].ReceiveAgain?)
  }

  lemma {:induction false} ChunksUpTo(recvs: seq<ReceiveOutcome>, k: nat)
    requires LoopEndsAt(recvs, k)
    ensures Flatten(Chunks(recvs)) == DataBytes(recvs[..k])
    decreases |recvs|
  {
    if k == 0 {
      assert recvs[..0] == [];
    } else {
      ChunksUpTo(recvs[1..], k - 1);
      DataBytesSplit(recvs, k);
      if recvs[0].Data? {
        assert Chunks(recvs)[1..] == Chunks(recvs[1..]);
      }
    }
  }

  lemma NoDataBytes()
    ensures DataBytes([]) == []
  {}

  lemma {:induction false} DataBytesSplit(recvs: seq<ReceiveOutcome>, k: nat)
    requires 0 < k <= |recvs|
    ensures DataBytes(recvs[..k])
         == (if recvs[0].Data? then recvs[0].bytes else []) + DataBytes(recvs[1..][..k - 1])
  {
    hide DataBytes;
    var first := if recvs[0].Data? then recvs[0].bytes else [];
    var last := if recvs[k - 1].Data? then recvs[k - 1].bytes else [];
    DataBytesMore(recvs, k - 1);
    if k == 1 {
      NoDataBytes();
      assert recvs[..0] == [] && recvs[1..][..0] == [];
      assert [] + first == first + [];
    } else {
      DataBytesSplit(recvs, k - 1);
      DataBytesMore(recvs[1..], k - 2);
      assert recvs[1..][k - 2] == recvs[k - 1];
      ConcatAssociative(first, DataBytes(recvs[1..][..k - 2]), last);
    }
  }

  class TcpSocket {
    var socketFd: int
    var isConnected: bool
    var isListening: bool

    /** Every byte the kernel accepted from this socket. */
    var written: seq<byte>

    /** The state in which `Send` tries to send. */
    predicate Ready()
      reads this
    {
      isConnected && socketFd >= 0
    }

    constructor ()
      ensures !isConnected && !isListening && socketFd == -1 && written == []
    {
      socketFd, isConnected, isListening := -1, false, false;
      written := [];
    }

    /** `fd` is a descriptor the system returned, or negative on failure. */
    method Connect(fd: int, connects: bool) returns (ok: bool)
      modifies this`socketFd, this`isConnected
      ensures ok <==> !old(isConnected) && fd >= 0 && connects
      ensures isConnected == (old(isConnected) || ok)
      ensures ok ==> Ready()
    {
      if isConnected {
        return false;
      }
      socketFd := fd;
      if socketFd < 0 {
        return false;
      }
      if !connects {
        socketFd := -1;
        return false;
      }
      isConnected := true;
      return true;
    }

    /** Listening does not touch the connection flag. */
    method Listen(fd: int, binds: bool) returns (ok: bool)
      modifies this`socketFd, this`isListening
      ensures ok <==> !old(isListening) && fd >= 0 && binds
      ensures isListening == (old(isListening) || ok)
    {
      if isListening {
        return false;
      }
      socketFd := fd;
      if socketFd < 0 {
        return false;
      }
      if !binds {
        socketFd := -1;
        return false;
      }
      isListening := true;
      return true;
    }

    method Send(data: seq<byte>, kernel: seq<SendOutcome>) returns (result: SendResult)
      modifies this`written
      ensures !Ready() ==> result == Failed && written == old(written)
      ensures Ready() ==> result == Transmit(data, kernel).result
      ensures Ready() ==> written == old(written) + Transmit(data, kernel).written
      ensures Ready() ==> (result.Sent? <==> written == old(written) + data)
    {
      if !isConnected || socketFd < 0 {
        return Failed;
      }
      var totalSent := 0;
      var calls := 0;
      hide Transmit, SentSoFar;
      TransmitWritesPrefix(data, kernel);
      NothingSent(data, kernel);
      while totalSent < |data|
        invariant 0 <= totalSent <= |data| && 0 <= calls <= |kernel|
        invariant written == old(written) + data[..totalSent]
        invariant SentSoFar(data, kernel, totalSent, calls)
        decreases |kernel| - calls
      {
        SendEnds(data, kernel, totalSent, calls);
        if calls == |kernel| {
          return Pending;
        }
        var outcome := kernel[calls];
        SendGoesOn(data, kernel, totalSent, calls);
        calls := calls + 1;
        match outcome
        case SendAgain =>
          continue;
        case SendError =>
          return Failed;
        case Accepted(n) =>
          var sent := Min(n, |data| - totalSent);
          var chunk := data[totalSent..totalSent + sent];
          TakeMore(data, totalSent, sent);
          ConcatAssociative(old(written), data[..totalSent], chunk);
          written := written + chunk;
          totalSent := totalSent + sent;
      }
      SendEnds(data, kernel, totalSent, calls);
      return Sent;
    }

    /** The receive loop of a connected socket, with the handler as data callback. */
    method ReceiveThread(handler: MessageHandler, recvs: seq<ReceiveOutcome>)
      requires handler.Valid()
      requires forall i :: 0 <= i < |recvs| && recvs[i].Data? ==> 0 < |recvs[i].bytes| <= RECEIVE_BUFFER_SIZE
      modifies this`isConnected, handler
      ensures handler.Valid()
      ensures forall k :: LoopEndsAt(recvs, k) ==> handler.received == old(handler.received) + DataBytes(recvs[..k])
      ensures forall k, ms {:trigger DataBytes(recvs[..k]), Stream(ms)} ::
                && LoopEndsAt(recvs, k) && AllFramed(ms) && AllIntact(ms)
                && old(handler.receiveBuffer) == [] && DataBytes(recvs[..k]) == Stream(ms) ==>
                handler.delivered == old(handler.delivered) + ms && handler.receiveBuffer == []
      ensures handler.State() == FeedAll(handler.order, old(handler.State()), Chunks(recvs))
      ensures !isConnected
    {
      var i := 0;
      while i < |recvs|
        invariant 0 <= i <= |recvs| && handler.Valid()
        invariant handler.received + Flatten(Chunks(recvs[i..])) == old(handler.received) + Flatten(Chunks(recvs))
        invariant FeedAll(handler.order, handler.State(), Chunks(recvs[i..]))
               == FeedAll(handler.order, old(handler.State()), Chunks(recvs))
      {
        var received := recvs[i];
        assert recvs[i..][1..] == recvs[i + 1..];
        i := i + 1;
        match received
        case Data(bytes) =>
          ghost var rest := Chunks(recvs[i..]);
          ghost var before := handler.received;
          assert ([bytes] + rest)[1..] == rest;
          handler.ProcessReceivedData(bytes);
          ConcatAssociative(before, bytes, Flatten(rest));
        case ReceiveAgain =>
        case _ =>
          break;
      }
      isConnected := false;
      ReceivedFrames(old(handler.State()), handler.order, recvs);
    }
  }

  /** The meaning of the chunks of a receive loop, without the chunks. */
  lemma ReceivedFrames(s: Receiver, order: ByteOrder, recvs: seq<ReceiveOutcome>)
    ensures forall k :: LoopEndsAt(recvs, k) ==> Flatten(Chunks(recvs)) == DataBytes(recvs[..k])
    ensures forall k, ms {:trigger DataBytes(recvs[..k]), Stream(ms)} ::
              && LoopEndsAt(recvs, k) && AllFramed(ms) && AllIntact(ms)
              && s.buffer == [] && DataBytes(recvs[..k]) == Stream(ms) ==>
              var r := FeedAll(order, s, Chunks(recvs));
              Messages(r.deliveries) == Messages(s.deliveries) + ms && r.buffer == []
  {
    hide Chunks, Flatten, FeedAll, Stream, AllFramed, AllIntact;
    forall k | LoopEndsAt(recvs, k)
      ensures Flatten(Chunks(recvs)) == DataBytes(recvs[..k])
    {
      ChunksUpTo(recvs, k);
    }
    forall k, ms {:trigger DataBytes(recvs[..k]), Stream(ms)} |
        && LoopEndsAt(recvs, k) && AllFramed(ms) && AllIntact(ms)
        && s.buffer == [] && DataBytes(recvs[..k]) == Stream(ms)
      ensures var r := FeedAll(order, s, Chunks(recvs));
              Messages(r.deliveries) == Messages(s.deliveries) + ms && r.buffer == []
    {
      IntactStreamUnderAnyChunking(order, s, ms, Chunks(recvs));
    }
  }
}
