/** The capture queue as its threads run it: any number of producers, one consumer
    that drops the lock in the middle of draining, and one controller that starts
    and stops the capture over and over. Steps are as fine as the shared accesses. */
module CaptureQueue {
  import opened Bytes
  import opened Urbs

  // ---------- statistics ----------

  datatype Statistics = Statistics(
    total: uint64, control: uint64, bulk: uint64, interrupt: uint64, iso: uint64, bytes: uint64, errors: uint64)

  const ZERO: Statistics := Statistics(0, 0, 0, 0, 0, 0, 0)

  /** 64-bit addition, which wraps around. */
  function Plus(x: uint64, n: uint32): uint64 {
    if x + n < TWO_64 then x + n else x + n - TWO_64
  }

  /** `UpdateStatistics`: 64-bit counters that wrap around. */
  function Update(s: Statistics, u: Urb): Statistics {
    var t := s.(total := Plus(s.total, 1), bytes := Plus(s.bytes, u.actualLength),
                errors := if u.status != 0 then Plus(s.errors, 1) else s.errors);
    match u.kind
    case Control => t.(control := Plus(t.control, 1))
    case Bulk => t.(bulk := Plus(t.bulk, 1))
    case Interrupt => t.(interrupt := Plus(t.interrupt, 1))
    case Isochronous => t.(iso := Plus(t.iso, 1))
  }

  function CountKind(us: seq<Urb>, kind: TransferType): nat {
    if us == [] then 0 else CountKind(us[..|us| - 1], kind) + if us[|us| - 1].kind == kind then 1 else 0
  }

  function CountErrors(us: seq<Urb>): nat {
    if us == [] then 0 else CountErrors(us[..|us| - 1]) + if us[|us| - 1].status != 0 then 1 else 0
  }

  function SumLengths(us: seq<Urb>): nat {
    if us == [] then 0 else SumLengths(us[..|us| - 1]) + us[|us| - 1].actualLength
  }

  /** The statistics after a history of counted URBs. */
  function Tally(us: seq<Urb>): Statistics {
    if us == [] then ZERO else Update(Tally(us[..|us| - 1]), us[|us| - 1])
  }

  lemma PlusMod(x: nat, n: uint32)
    ensures Plus(x % TWO_64, n) == (x + n) % TWO_64
  {
    var q := x / TWO_64;
    assert x + n == x % TWO_64 + n + q * TWO_64;
    AddMultiple(x % TWO_64 + n, q, TWO_64);
  }

  /** Counting one URB on statistics that show `n` URBs and so on, modulo 2^64. */
  lemma UpdateCounts(u: Urb, n: nat, c: nat, b: nat, i: nat, o: nat, bytes: nat, errors: nat)
    ensures Update(Statistics(n % TWO_64, c % TWO_64, b % TWO_64, i % TWO_64, o % TWO_64,
                              bytes % TWO_64, errors % TWO_64), u)
         == Statistics((n + 1) % TWO_64, (if u.kind == Control then c + 1 else c) % TWO_64,
                       (if u.kind == Bulk then b + 1 else b) % TWO_64,
                       (if u.kind == Interrupt then i + 1 else i) % TWO_64,
                       (if u.kind == Isochronous then o + 1 else o) % TWO_64, (bytes + u.actualLength) % TWO_64,
                       (if u.status != 0 then errors + 1 else errors) % TWO_64)
  {
    PlusMod(n, 1);
    PlusMod(c, 1);
    PlusMod(b, 1);
    PlusMod(i, 1);
    PlusMod(o, 1);
    PlusMod(bytes, u.actualLength);
    PlusMod(errors, 1);
  }

  /** One URB more, in the statistics and in the counts. */
  lemma TallyMore(us: seq<Urb>, u: Urb)
    ensures Tally(us + [u]) == Update(Tally(us), u)
    ensures forall kind :: CountKind(us + [u], kind) == CountKind(us, kind) + if u.kind == kind then 1 else 0
    ensures SumLengths(us + [u]) == SumLengths(us) + u.actualLength
    ensures CountErrors(us + [u]) == CountErrors(us) + if u.status != 0 then 1 else 0
  {
    assert (us + [u])[..|us|] == us;
  }

  /** The exact counts of a history, modulo 2^64: how many URBs, of which kinds, how
      many with a non-zero status, and the sum of their lengths. */
  function Counts(us: seq<Urb>): Statistics {
    Statistics(|us| % TWO_64, CountKind(us, Control) % TWO_64, CountKind(us, Bulk) % TWO_64,
               CountKind(us, Interrupt) % TWO_64, CountKind(us, Isochronous) % TWO_64,
               SumLengths(us) % TWO_64, CountErrors(us) % TWO_64)
  }

  lemma CountsMore(us: seq<Urb>, u: Urb)
    ensures Counts(us + [u]) == Update(Counts(us), u)
  {
    TallyMore(us, u);
    hide Update, Tally, CountKind, SumLengths, CountErrors;
    UpdateCounts(u, |us|, CountKind(us, Control), CountKind(us, Bulk), CountKind(us, Interrupt),
                 CountKind(us, Isochronous), SumLengths(us), CountErrors(us));
  }

  /** What they show: how many URBs, of which kinds, how many with a non-zero status
      and the sum of their lengths, all modulo 2^64. */
  lemma {:induction false} TallyCounts(us: seq<Urb>)
    ensures Tally(us) == Counts(us)
  {
    if us != [] {
      var before, last := us[..|us| - 1], us[|us| - 1];
      TallyCounts(before);
      TallyMore(before, last);
      hide Update, Tally, Counts;
      CountsMore(before, last);
      assert us == before + [last];
    }
  }

  lemma {:induction false} KindsPartition(us: seq<Urb>)
    ensures CountKind(us, Control) + CountKind(us, Bulk) + CountKind(us, Interrupt) + CountKind(us, Isochronous) == |us|
  {
    if us != [] {
      KindsPartition(us[..|us| - 1]);
    }
  }

  /** The shown statistics, with the URBs counted since the last reset and ever. */
  datatype Meter = Meter(shown: Statistics, counted: seq<Urb>, ever: seq<Urb>)

  function Count(m: Meter, u: Urb): Meter {
    Meter(Update(m.shown, u), m.counted + [u], m.ever + [u])
  }

  function Reset(m: Meter): Meter {
    Meter(ZERO, [], m.ever)
  }

  ghost predicate Accurate(m: Meter) {
    && |m.counted| <= |m.ever|
    && m.counted == m.ever[|m.ever| - |m.counted|..]
    && m.shown == Tally(m.counted)
  }

  lemma CountKeepsAccurate(m: Meter, u: Urb)
    requires Accurate(m)
    ensures Accurate(Count(m, u)) && Accurate(Reset(m))
  {
    var counted := m.counted + [u];
    assert counted[..|counted| - 1] == m.counted;
    assert Tally(counted) == Update(Tally(m.counted), u);
  }

  // ---------- the threads ----------

  datatype Consumer =
    | NoThread | AtLoop | WantLock | Checking | Committing | Blocked | Woken
    | Draining | HasFront(urb: Urb) | Popped(urb: Urb) | Counting(urb: Urb) | Calling(urb: Urb) | Relocking
    | Exited

  datatype Producer = Away | Passed(urb: Urb) | Pushing(urb: Urb) | Pushed | Notifying

  datatype Controller = Ready | Start1 | Start2 | Start3 | Stop1 | Stop2 | Stop3 | Joining

  datatype Owner = Free | ByConsumer | ByProducer(i: nat)

  datatype State = State(
    queue: seq<Urb>, capturing: bool, shouldStop: bool, owner: Owner,
    consumer: Consumer, producers: seq<Producer>, controller: Controller, meter: Meter,
    accepted: seq<Urb>,    // every URB pushed, in order
    delivered: seq<Urb>)   // every call of the URB callback, in order

  datatype Event =
    | Consume                      // the next step of the processing thread
    | SpuriousWake                 // its wait ends without a notification
    | Arrive(i: nat, urb: Urb)     // producer i calls OnDeviceData or InjectUrb
    | Produce(i: nat)              // its next step
    | CallStart | CallStop         // the controller calls StartCapture or StopCapture
    | Proceed                      // its next step
    | ResetStatistics

  function Initial(threads: nat): State {
    State([], false, false, Free, NoThread, seq(threads, _ => Away), Ready, Meter(ZERO, [], []), [], [])
  }

  predicate Enabled(s: State, e: Event) {
    match e
    case Consume =>
      && !s.consumer.NoThread? && !s.consumer.Blocked? && !s.consumer.Exited?
      && (s.consumer.WantLock? || s.consumer.Relocking? ==> s.owner.Free?)
    case SpuriousWake => s.consumer.Blocked?
    case Arrive(i, _) => i < |s.producers| && s.producers[i].Away?
    case Produce(i) => i < |s.producers| && !s.producers[i].Away? && (s.producers[i].Passed? ==> s.owner.Free?)
    case CallStart => s.controller.Ready?
    case CallStop => s.controller.Ready?
    case Proceed => !s.controller.Ready? && (s.controller.Joining? ==> s.consumer.Exited?)
    case ResetStatistics => true
  }

  function ConsumerStep(s: State): State
    requires Enabled(s, Consume)
  {
    match s.consumer
    case AtLoop => s.(consumer := if s.shouldStop then Exited else WantLock)
    case WantLock => s.(consumer := Checking, owner := ByConsumer)
    case Checking => s.(consumer := if s.queue != [] || s.shouldStop then Woken else Committing)
    case Committing => s.(consumer := Blocked, owner := Free)
    case Woken => if s.shouldStop then s.(consumer := Exited, owner := Free) else s.(consumer := Draining)
    case Draining =>
      if s.queue == [] then s.(consumer := AtLoop, owner := Free) else s.(consumer := HasFront(s.queue[0]))
    case HasFront(u) => if s.queue == [] then s else s.(consumer := Popped(u), queue := s.queue[1..])
    case Popped(u) => s.(consumer := Counting(u), owner := Free)
    case Counting(u) => s.(consumer := Calling(u), meter := Count(s.meter, u))
    case Calling(u) => s.(consumer := Relocking, delivered := s.delivered + [u])
    case Relocking => s.(consumer := Draining, owner := ByConsumer)
  }

  function Notify(c: Consumer): Consumer {
    if c.Blocked? then WantLock else c
  }

  function ProducerStep(s: State, i: nat): State
    requires Enabled(s, Produce(i))
  {
    match s.producers[i]
    case Passed(u) => s.(producers := s.producers[i := Pushing(u)], owner := ByProducer(i))
    case Pushing(u) =>
      s.(producers := s.producers[i := Pushed], queue := s.queue + [u], accepted := s.accepted + [u])
    case Pushed => s.(producers := s.producers[i := Notifying], owner := Free)
    case Notifying => s.(producers := s.producers[i := Away], consumer := Notify(s.consumer))
  }

  function ControllerStep(s: State): State
    requires Enabled(s, Proceed)
  {
    match s.controller
    case Start1 => s.(controller := Start2, shouldStop := false)
    case Start2 => s.(controller := Start3, capturing := true)
    case Start3 => s.(controller := Ready, consumer := AtLoop)
    case Stop1 => s.(controller := Stop2, shouldStop := true)
    case Stop2 => s.(controller := Stop3, capturing := false)
    case Stop3 => s.(controller := Joining, consumer := Notify(s.consumer))
    case Joining => s.(controller := Ready, consumer := NoThread)
  }

  function Step(s: State, e: Event): State
    requires Enabled(s, e)
  {
    match e
    case Consume => ConsumerStep(s)
    case SpuriousWake => s.(consumer := WantLock)
    case Arrive(i, u) => if s.capturing then s.(producers := s.producers[i := Passed(u)]) else s
    case Produce(i) => ProducerStep(s, i)
    case CallStart => if s.capturing then s else s.(controller := Start1)
    case CallStop => if s.capturing then s.(controller := Stop1) else s
    case Proceed => ControllerStep(s)
    case ResetStatistics => s.(meter := Reset(s.meter))
  }

  predicate Schedule(s: State, es: seq<Event>)
    decreases |es|
  {
    es == [] || (Enabled(s, es[0]) && Schedule(Step(s, es[0]), es[1..]))
  }

  function Execute(s: State, es: seq<Event>): State
    requires Schedule(s, es)
    decreases |es|
  {
    if es == [] then s else Execute(Step(s, es[0]), es[1..])
  }

  // ---------- invariant ----------

  predicate HoldsLock(c: Consumer) {
    c.Checking? || c.Committing? || c.Woken? || c.Draining? || c.HasFront? || c.Popped?
  }

  /** The URB taken off the queue and not yet handed to the callback. */
  function InFlight(c: Consumer): seq<Urb> {
    if c.Popped? || c.Counting? || c.Calling? then [c.urb] else []
  }

  ghost predicate MutualExclusion(s: State) {
    && (s.owner.ByConsumer? <==> HoldsLock(s.consumer))
    && (s.owner.ByProducer? ==> s.owner.i < |s.producers|)
    && (forall i :: 0 <= i < |s.producers| ==>
          (s.owner == ByProducer(i) <==> s.producers[i].Pushing? || s.producers[i].Pushed?))
  }

  ghost predicate Conservation(s: State) {
    && s.accepted == s.delivered + InFlight(s.consumer) + s.queue
    && (s.consumer.HasFront? ==> s.queue != [] && s.queue[0] == s.consumer.urb)
  }

  /** Every URB is counted once, just before it is delivered. */
  ghost predicate CountedOnce(s: State) {
    s.meter.ever == s.delivered + if s.consumer.Calling? then [s.consumer.urb] else []
  }

  /** How the flags and the single processing thread follow the controller. */
  ghost predicate Controlled(s: State) {
    match s.controller
    case Ready => (s.capturing ==> !s.shouldStop && !s.consumer.Exited?) && (s.consumer.NoThread? <==> !s.capturing)
    case Start1 => !s.capturing && s.consumer.NoThread?
    case Start2 => !s.capturing && !s.shouldStop && s.consumer.NoThread?
    case Start3 => s.capturing && !s.shouldStop && s.consumer.NoThread?
    case Stop1 => s.capturing && !s.shouldStop && !s.consumer.NoThread? && !s.consumer.Exited?
    case Stop2 => s.capturing && s.shouldStop && !s.consumer.NoThread?
    case Stop3 => !s.capturing && s.shouldStop && !s.consumer.NoThread?
    case Joining => !s.capturing && s.shouldStop && !s.consumer.NoThread?
  }

  ghost predicate Invariant(s: State) {
    MutualExclusion(s) && Conservation(s) && CountedOnce(s) && Accurate(s.meter) && Controlled(s)
  }

  lemma ConsumerKeepsConservation(s: State)
    requires Conservation(s) && Enabled(s, Consume)
    ensures Conservation(ConsumerStep(s))
  {
    match s.consumer
    case HasFront(u) =>
      assert s.queue == [u] + s.queue[1..];
      assert s.delivered + [] + s.queue == s.delivered + [u] + s.queue[1..];
    case Calling(u) =>
      assert s.delivered + [u] + s.queue == s.delivered + [u] + [] + s.queue;
    case _ =>
  }

  lemma ConsumerCountsOnce(s: State)
    requires CountedOnce(s) && Enabled(s, Consume)
    ensures CountedOnce(ConsumerStep(s))
    ensures ConsumerStep(s).meter == if s.consumer.Counting? then Count(s.meter, s.consumer.urb) else s.meter
  {}

  lemma ConsumerKeepsLock(s: State)
    requires MutualExclusion(s) && Controlled(s) && Enabled(s, Consume)
    ensures MutualExclusion(ConsumerStep(s)) && Controlled(ConsumerStep(s))
  {}

  lemma ProducerKeepsInvariant(s: State, i: nat)
    requires Invariant(s) && Enabled(s, Produce(i))
    ensures Invariant(ProducerStep(s, i))
  {
    hide Accurate;
    var s' := ProducerStep(s, i);
    assert Conservation(s') by {
      if s.producers[i].Pushing? {
        ConcatAssociative(s.delivered + InFlight(s.consumer), s.queue, [s.producers[i].urb]);
      }
    }
    assert s'.meter == s.meter && CountedOnce(s');
  }

  lemma ControllerKeepsInvariant(s: State)
    requires Invariant(s) && Enabled(s, Proceed)
    ensures Invariant(ControllerStep(s))
  {}

  lemma StepKeepsInvariant(s: State, e: Event)
    requires Invariant(s) && Enabled(s, e)
    ensures Invariant(Step(s, e))
  {
    match e
    case Consume =>
      ConsumerKeepsConservation(s);
      ConsumerCountsOnce(s);
      if s.consumer.Counting? {
        CountKeepsAccurate(s.meter, s.consumer.urb);
      }
      ConsumerKeepsLock(s);
    case Produce(i) => ProducerKeepsInvariant(s, i);
    case Proceed => ControllerKeepsInvariant(s);
    case ResetStatistics =>
      assert Accurate(Reset(s.meter));
    case _ =>
  }

  lemma {:induction false} ExecuteKeepsInvariant(s: State, es: seq<Event>)
    requires Invariant(s) && Schedule(s, es)
    ensures Invariant(Execute(s, es))
    decreases |es|
  {
    if es != [] {
      StepKeepsInvariant(s, es[0]);
      ExecuteKeepsInvariant(Step(s, es[0]), es[1..]);
    }
  }

  lemma InitialInvariant(threads: nat)
    ensures Invariant(Initial(threads))
  {}

  lemma ReachableInvariant(threads: nat, es: seq<Event>)
    requires Schedule(Initial(threads), es)
    ensures Invariant(Execute(Initial(threads), es))
  {
    InitialInvariant(threads);
    ExecuteKeepsInvariant(Initial(threads), es);
  }

  // ---------- main results ----------

  /** Nothing is lost, duplicated or reordered in `s`. */
  ghost predicate NothingLost(s: State) {
    && s.accepted == s.delivered + InFlight(s.consumer) + s.queue
    && |InFlight(s.consumer)| <= 1
    && (s.controller.Ready? && !s.capturing ==> s.accepted == s.delivered + s.queue)
  }

  lemma InvariantConserves(s: State)
    requires Invariant(s)
    ensures NothingLost(s)
  {
    if s.controller.Ready? && !s.capturing {
      assert s.delivered + [] + s.queue == s.delivered + s.queue;
    }
  }

  /** In every interleaving: the URBs accepted are those delivered, then at most one
      in flight, then those queued, in the order they were pushed. Once a stop has
      joined the thread nothing is in flight, and what is left in the queue goes
      first after the next start. */
  lemma QueueConservation(threads: nat, es: seq<Event>)
    requires Schedule(Initial(threads), es)
    ensures NothingLost(Execute(Initial(threads), es))
  {
    ReachableInvariant(threads, es);
    InvariantConserves(Execute(Initial(threads), es));
  }

  /** The URBs a schedule counts after its last `ResetStatistics`, behind those of
      `counted` when it has none. */
  function CountedSinceReset(s: State, es: seq<Event>, counted: seq<Urb>): seq<Urb>
    requires Schedule(s, es)
    decreases |es|
  {
    if es == [] then
      counted
    else
      var counted' := if es[0].ResetStatistics? then [] else
                      if es[0].Consume? && s.consumer.Counting? then counted + [s.consumer.urb] else counted;
      CountedSinceReset(Step(s, es[0]), es[1..], counted')
  }

  lemma {:induction false} MeterFollowsSchedule(s: State, es: seq<Event>)
    requires Schedule(s, es) && Invariant(s)
    ensures Execute(s, es).meter.counted == CountedSinceReset(s, es, s.meter.counted)
    decreases |es|
  {
    if es != [] {
      StepKeepsInvariant(s, es[0]);
      MeterOfStep(s, es[0]);
      MeterFollowsSchedule(Step(s, es[0]), es[1..]);
    }
  }

  lemma MeterOfStep(s: State, e: Event)
    requires Enabled(s, e)
    ensures Step(s, e).meter.counted
         == if e.ResetStatistics? then [] else
            if e.Consume? && s.consumer.Counting? then s.meter.counted + [s.consumer.urb] else s.meter.counted
    ensures Enabled(s, ResetStatistics) && Step(s, ResetStatistics) == s.(meter := Meter(ZERO, [], s.meter.ever))
  {}

  /** In every interleaving with resets: every URB is counted once, just before it
      is delivered, and the statistics are the tally of the URBs that were counted
      after the last reset. */
  lemma StatisticsMatchHistory(threads: nat, es: seq<Event>)
    requires Schedule(Initial(threads), es)
    ensures var s := Execute(Initial(threads), es);
            && CountedOnce(s) && Accurate(s.meter)
            && s.meter.shown == Tally(CountedSinceReset(Initial(threads), es, []))
  {
    ReachableInvariant(threads, es);
    InitialInvariant(threads);
    MeterFollowsSchedule(Initial(threads), es);
  }

  /** What such statistics show: the total is the number of URBs counted and the sum
      of the four counters; bytes and errors are those of the counted URBs; all
      modulo 2^64. */
  lemma TallyTotals(us: seq<Urb>)
    ensures var t := Tally(us);
            && t.total == |us| % TWO_64
            && t.total == (t.control + t.bulk + t.interrupt + t.iso) % TWO_64
            && t.bytes == SumLengths(us) % TWO_64
            && t.errors == CountErrors(us) % TWO_64
  {
    TallyCounts(us);
    KindsPartition(us);
    SumOfMods(CountKind(us, Control), CountKind(us, Bulk), CountKind(us, Interrupt), CountKind(us, Isochronous));
  }

  lemma SumOfMods(a: nat, b: nat, c: nat, d: nat)
    ensures (a % TWO_64 + b % TWO_64 + c % TWO_64 + d % TWO_64) % TWO_64 == (a + b + c + d) % TWO_64
  {
    var quotients := a / TWO_64 + b / TWO_64 + c / TWO_64 + d / TWO_64;
    AddMultiple(a % TWO_64 + b % TWO_64 + c % TWO_64 + d % TWO_64, quotients, TWO_64);
  }

  /** No two threads are inside the queue's critical section, and a start never
      finds an old processing thread. */
  lemma LockDiscipline(threads: nat, es: seq<Event>)
    requires Schedule(Initial(threads), es)
    ensures var s := Execute(Initial(threads), es);
            && MutualExclusion(s)
            && (s.controller.Start3? ==> s.consumer.NoThread?)
  {
    ReachableInvariant(threads, es);
  }
}
