/** The capture's own methods, over its queue and statistics. */
module UrbCapturing {
  import opened Bytes
  import opened Wrappers
  import opened Framing
  import opened Urbs
  import opened CaptureQueue

  /** The statistics after counting `us`, starting from `s`. */
  function UpdateAll(s: Statistics, us: seq<Urb>): Statistics {
    if us == [] then s else Update(UpdateAll(s, us[..|us| - 1]), us[|us| - 1])
  }

  /** Counting `us` after a history gives the tally of both. */
  lemma {:induction false} UpdateAllOfTally(counted: seq<Urb>, us: seq<Urb>)
    ensures UpdateAll(Tally(counted), us) == Tally(counted + us)
  {
    if us == [] {
      assert counted + us == counted;
    } else {
      UpdateAllOfTally(counted, us[..|us| - 1]);
      assert (counted + us)[..|counted + us| - 1] == counted + us[..|us| - 1];
    }
  }

  lemma {:induction false} FlattenMore<T>(parts: seq<seq<T>>, n: nat)
    requires n < |parts|
    ensures Flatten(parts[..n + 1]) == Flatten(parts[..n]) + parts[n]
    decreases |parts|
  {
    if n == 0 {
      assert parts[..1][1..] == [] && parts[..1][0] == parts[0];
    } else {
      FlattenMore(parts[1..], n - 1);
      assert parts[..n + 1][1..] == parts[1..][..n];
      assert parts[..n][1..] == parts[1..][..n - 1];
    }
  }

  class UrbCapture {
    var capturing: bool
    var urbQueue: seq<Urb>
    var statistics: Statistics

    /** The calls of the URB callback, in order. */
    var delivered: seq<Urb>

    constructor ()
      ensures !capturing && urbQueue == [] && statistics == ZERO && delivered == []
    {
      capturing, urbQueue, statistics, delivered := false, [], ZERO, [];
    }

    /** `OnDeviceData` and `InjectUrb`: ignored unless the capture runs. */
    method OnDeviceData(urb: Urb)
      modifies this`urbQueue
      ensures urbQueue == if capturing then old(urbQueue) + [urb] else old(urbQueue)
    {
      if !capturing {
        return;
      }
      urbQueue := urbQueue + [urb];
    }

    method UpdateStatistics(urb: Urb)
      modifies this`statistics
      ensures statistics == Update(old(statistics), urb)
    {
      statistics := statistics.(total := Plus(statistics.total, 1));
      statistics := statistics.(bytes := Plus(statistics.bytes, urb.actualLength));
      if urb.status != 0 {
        statistics := statistics.(errors := Plus(statistics.errors, 1));
      }
      match urb.kind
      case Control => statistics := statistics.(control := Plus(statistics.control, 1));
      case Bulk => statistics := statistics.(bulk := Plus(statistics.bulk, 1));
      case Interrupt => statistics := statistics.(interrupt := Plus(statistics.interrupt, 1));
      case Isochronous => statistics := statistics.(iso := Plus(statistics.iso, 1));
    }

    method ResetStatistics()
      modifies this`statistics
      ensures statistics == Tally([])
    {
      statistics := ZERO;
    }

    /** The draining loop of the processing thread. Each time it drops the lock,
        producers push the next entry of `arrivals`. Everything queued before and
        during the drain is delivered, in order, and counted once. */
    method Drain(arrivals: seq<seq<Urb>>) returns (windows: nat)
      modifies this`urbQueue, this`statistics, this`delivered
      ensures urbQueue == [] && windows <= |arrivals|
      ensures delivered == old(delivered) + old(urbQueue) + Flatten(arrivals[..windows])
      ensures statistics == UpdateAll(old(statistics), old(urbQueue) + Flatten(arrivals[..windows]))
      ensures forall counted :: old(statistics) == Tally(counted) ==>
                statistics == Tally(counted + old(urbQueue) + Flatten(arrivals[..windows]))
    {
      windows := 0;
      ghost var done: seq<Urb> := [];
      assert old(urbQueue) + Flatten(arrivals[..0]) == [] + urbQueue;
      while urbQueue != []
        invariant windows <= |arrivals|
        invariant done + urbQueue == old(urbQueue) + Flatten(arrivals[..windows])
        invariant delivered == old(delivered) + done
        invariant statistics == UpdateAll(old(statistics), done)
        decreases |arrivals| - windows, |urbQueue|
      {
        var urb := urbQueue[0];
        ghost var whole := done + urbQueue;
        assert done + [urb] + urbQueue[1..] == whole;
        urbQueue := urbQueue[1..];
        if windows < |arrivals| {
          FlattenMore(arrivals, windows);
          ConcatAssociative(old(urbQueue), Flatten(arrivals[..windows]), arrivals[windows]);
          ConcatAssociative(done + [urb], urbQueue, arrivals[windows]);
          urbQueue := urbQueue + arrivals[windows];
          windows := windows + 1;
        }
        UpdateStatistics(urb);
        delivered := delivered + [urb];
        assert (done + [urb])[..|done|] == done;
        done := done + [urb];
      }
      assert done + [] == done;
      ConcatAssociative(old(delivered), old(urbQueue), Flatten(arrivals[..windows]));
      forall counted | old(statistics) == Tally(counted)
        ensures statistics == Tally(counted + old(urbQueue) + Flatten(arrivals[..windows]))
      {
        UpdateAllOfTally(counted, done);
        ConcatAssociative(counted, old(urbQueue), Flatten(arrivals[..windows]));
      }
    }
  }
}
