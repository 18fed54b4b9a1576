/** When captured URBs are delivered: while the capture runs, everything that was
    handed in reaches the callback within a bounded number of thread steps. */
module Delivery {
  import opened Bytes
  import opened Urbs
  import opened CaptureQueue
  import opened StopLiveness

  // ---------- a sleeping consumer is going to be woken ----------

  predicate WillNotify(p: Producer) {
    p.Pushed? || p.Notifying?
  }

  ghost predicate SomeoneWillNotify(ps: seq<Producer>) {
    exists i :: 0 <= i < |ps| && WillNotify(ps[i])
  }

  /** The consumer goes to sleep on an empty queue only, and no URB comes into the
      queue of a sleeping consumer without a notification to follow. */
  ghost predicate Attentive(s: State) {
    && (s.consumer.Committing? ==> s.queue == [])
    && (s.consumer.Blocked? && s.queue != [] ==> SomeoneWillNotify(s.producers))
  }

  lemma ProducerKeepsAttentive(s: State, i: nat)
    requires Invariant(s) && Attentive(s) && Enabled(s, Produce(i))
    ensures Attentive(ProducerStep(s, i))
  {
    var s' := ProducerStep(s, i);
    if s'.consumer.Blocked? && s'.queue != [] {
      if s.producers[i].Pushing? || s.producers[i].Pushed? {
        assert WillNotify(s'.producers[i]);
      } else {
        var j :| 0 <= j < |s.producers| && WillNotify(s.producers[j]);
        assert WillNotify(s'.producers[j]);
      }
    }
  }

  lemma StepKeepsAttentive(s: State, e: Event)
    requires Invariant(s) && Attentive(s) && Enabled(s, e)
    ensures Attentive(Step(s, e))
  {
    match e
    case Produce(i) => ProducerKeepsAttentive(s, i);
    case Arrive(i, u) =>
      if s.consumer.Blocked? && s.queue != [] {
        var j :| 0 <= j < |s.producers| && WillNotify(s.producers[j]);
        assert WillNotify(Step(s, e).producers[j]);
      }
    case _ =>
  }

  lemma {:induction false} ExecuteKeepsAttentive(s: State, es: seq<Event>)
    requires Invariant(s) && Attentive(s) && Schedule(s, es)
    ensures Invariant(Execute(s, es)) && Attentive(Execute(s, es))
    decreases |es|
  {
    if es != [] {
      StepKeepsInvariant(s, es[0]);
      StepKeepsAttentive(s, es[0]);
      ExecuteKeepsAttentive(Step(s, es[0]), es[1..]);
    }
  }

  // ---------- a drain takes everything ----------

  /** In every run: a drain goes back to the loop exactly when the queue is empty, and
      then everything accepted so far has been delivered, in order; otherwise it takes
      the first of the queue. */
  lemma DrainDeliversAll(threads: nat, es: seq<Event>)
    requires Schedule(Initial(threads), es) && Execute(Initial(threads), es).consumer.Draining?
    ensures var s := Execute(Initial(threads), es);
            && Enabled(s, Consume)
            && (s.queue == [] ==> Step(s, Consume).consumer.AtLoop? && s.delivered == s.accepted)
            && (s.queue != [] ==> Step(s, Consume).consumer == HasFront(s.queue[0]))
  {
    ReachableInvariant(threads, es);
    var s := Execute(Initial(threads), es);
    assert s.delivered + [] + [] == s.delivered;
  }

  // ---------- every URB handed in is accounted for ----------

  /** Whether a producer is still to push `u`, and how many of them are. */
  function Carries(p: Producer, u: Urb): nat {
    if (p.Passed? || p.Pushing?) && p.urb == u then 1 else 0
  }

  function UnderWay(ps: seq<Producer>, u: Urb): nat {
    if ps == [] then 0 else UnderWay(ps[..|ps| - 1], u) + Carries(ps[|ps| - 1], u)
  }

  lemma {:induction false} UnderWayUpdate(ps: seq<Producer>, i: nat, p: Producer, u: Urb)
    requires i < |ps|
    ensures UnderWay(ps[i := p], u) + Carries(ps[i], u) == UnderWay(ps, u) + Carries(p, u)
  {
    var n := |ps| - 1;
    if i < n {
      UnderWayUpdate(ps[..n], i, p, u);
      assert ps[i := p][..n] == ps[..n][i := p];
    } else {
      assert ps[i := p][..n] == ps[..n];
    }
  }

  function Occurrences(us: seq<Urb>, u: Urb): nat {
    multiset(us)[u]
  }

  lemma OccurrencesMore(us: seq<Urb>, v: Urb, u: Urb)
    ensures Occurrences(us + [v], u) == Occurrences(us, u) + if v == u then 1 else 0
  {
    assert multiset(us + [v]) == multiset(us) + multiset{v};
  }

  /** How often `u` arrives in a state in which the capture runs. */
  function Arrivals(s: State, es: seq<Event>, u: Urb): nat
    requires Schedule(s, es)
    decreases |es|
  {
    if es == [] then
      0
    else
      (if es[0].Arrive? && s.capturing && es[0].urb == u then 1 else 0) + Arrivals(Step(s, es[0]), es[1..], u)
  }

  /** How often `u` came in: pushed, or still on its way. */
  function HandedIn(s: State, u: Urb): nat {
    Occurrences(s.accepted, u) + UnderWay(s.producers, u)
  }

  lemma ProducerHandsIn(s: State, i: nat, u: Urb)
    requires Enabled(s, Produce(i))
    ensures HandedIn(ProducerStep(s, i), u) == HandedIn(s, u)
  {
    hide Occurrences;
    var p := s.producers[i];
    UnderWayUpdate(s.producers, i, ProducerStep(s, i).producers[i], u);
    if p.Pushing? {
      OccurrencesMore(s.accepted, p.urb, u);
    }
  }

  lemma StepHandsIn(s: State, e: Event, u: Urb)
    requires Enabled(s, e)
    ensures HandedIn(Step(s, e), u) == HandedIn(s, u) + if e.Arrive? && s.capturing && e.urb == u then 1 else 0
  {
    hide Occurrences;
    if e.Produce? {
      ProducerHandsIn(s, e.i, u);
    } else if e.Arrive? && s.capturing {
      UnderWayUpdate(s.producers, e.i, Passed(e.urb), u);
    }
  }

  /** In every interleaving of any threads, starts and stops: each URB is pushed or on
      its way exactly as often as it arrived while the capture ran. */
  lemma {:induction false} NothingDropped(s: State, es: seq<Event>, u: Urb)
    requires Schedule(s, es)
    ensures HandedIn(Execute(s, es), u) == HandedIn(s, u) + Arrivals(s, es, u)
    decreases |es|
  {
    hide HandedIn;
    if es != [] {
      StepHandsIn(s, es[0], u);
      NothingDropped(Step(s, es[0]), es[1..], u);
    }
  }

  // ---------- how long it takes ----------

  /** Steps the consumer can take before it sleeps, for a queue of `n` URBs: six for
      each, and those around them. */
  function ConsumerWork(c: Consumer, n: nat): nat {
    match c
    case Blocked => 6 * n
    case Committing => 1 + 6 * n
    case Checking => if n == 0 then 2 else 7 + 6 * n
    case WantLock => if n == 0 then 3 else 8 + 6 * n
    case AtLoop => if n == 0 then 4 else 9 + 6 * n
    case Woken => 6 + 6 * n
    case Draining => 5 + 6 * n
    case HasFront(_) => 4 + 6 * n
    case Popped(_) => 9 + 6 * n
    case Counting(_) => 8 + 6 * n
    case Calling(_) => 7 + 6 * n
    case Relocking => 6 + 6 * n
    case _ => 0
  }

  const COST_OF_ARRIVAL: nat := 23
  const COST_OF_WAKING: nat := 8

  function ProducerWork(p: Producer): nat {
    match p
    case Away => 0
    case Passed(_) => COST_OF_ARRIVAL
    case Pushing(_) => 22
    case Pushed => 10
    case Notifying => 9
  }

  function ProducersWork(ps: seq<Producer>): nat {
    if ps == [] then 0 else ProducersWork(ps[..|ps| - 1]) + ProducerWork(ps[|ps| - 1])
  }

  lemma {:induction false} ProducersWorkUpdate(ps: seq<Producer>, i: nat, p: Producer)
    requires i < |ps|
    ensures ProducersWork(ps[i := p]) + ProducerWork(ps[i]) == ProducersWork(ps) + ProducerWork(p)
  {
    var n := |ps| - 1;
    if i < n {
      ProducersWorkUpdate(ps[..n], i, p);
      assert ps[i := p][..n] == ps[..n][i := p];
    } else {
      assert ps[i := p][..n] == ps[..n];
    }
  }

  /** Steps the threads can still take, if nothing more comes in. */
  function Work(s: State): nat {
    ConsumerWork(s.consumer, |s.queue|) + ProducersWork(s.producers)
  }

  /** The capture runs, and the controller has nothing under way. */
  ghost predicate Running(s: State) {
    Invariant(s) && Attentive(s) && s.controller.Ready? && s.capturing
  }

  /** What an event of the outside adds to the work. */
  function Cost(e: Event): nat {
    if e.Arrive? then COST_OF_ARRIVAL else if e.SpuriousWake? then COST_OF_WAKING else 0
  }

  lemma ConsumerStepWorks(s: State)
    requires Running(s) && Enabled(s, Consume)
    ensures Work(Step(s, Consume)) < Work(s)
  {}

  lemma ProducerStepWorks(s: State, i: nat)
    requires Running(s) && Enabled(s, Produce(i))
    ensures Work(Step(s, Produce(i))) < Work(s)
  {
    ProducersWorkUpdate(s.producers, i, ProducerStep(s, i).producers[i]);
  }

  lemma StepWorks(s: State, e: Event)
    requires Running(s) && Enabled(s, e) && !e.CallStop?
    ensures Running(Step(s, e))
    ensures Work(Step(s, e)) + (if ThreadStep(e) then 1 else 0) <= Work(s) + Cost(e)
  {
    StepKeepsInvariant(s, e);
    StepKeepsAttentive(s, e);
    match e
    case Consume => ConsumerStepWorks(s);
    case Produce(i) => ProducerStepWorks(s, i);
    case Arrive(i, u) => ProducersWorkUpdate(s.producers, i, Passed(u));
    case _ =>
  }

  function Costs(es: seq<Event>): nat {
    if es == [] then 0 else Cost(es[0]) + Costs(es[1..])
  }

  ghost predicate NoStop(es: seq<Event>) {
    forall i :: 0 <= i < |es| ==> !es[i].CallStop?
  }

  lemma {:induction false} RunWorks(s: State, es: seq<Event>)
    requires Running(s) && Schedule(s, es) && NoStop(es)
    ensures Running(Execute(s, es))
    ensures ThreadSteps(es) + Work(Execute(s, es)) <= Work(s) + Costs(es)
    decreases |es|
  {
    if es != [] {
      StepWorks(s, es[0]);
      RunWorks(Step(s, es[0]), es[1..]);
    }
  }

  /** No producer has anything to do, and everything accepted has been delivered. */
  ghost predicate AllDelivered(s: State) {
    (forall i :: 0 <= i < |s.producers| ==> s.producers[i].Away?) && s.delivered == s.accepted
  }

  lemma {:induction false} NoWorkMeansAway(ps: seq<Producer>, i: nat)
    requires i < |ps| && ProducersWork(ps) == 0
    ensures ps[i].Away?
  {
    if i < |ps| - 1 {
      NoWorkMeansAway(ps[..|ps| - 1], i);
    }
  }

  lemma NoWorkMeansDelivered(s: State)
    requires Running(s) && Work(s) == 0
    ensures AllDelivered(s)
  {
    forall i | 0 <= i < |s.producers|
      ensures s.producers[i].Away?
    {
      NoWorkMeansAway(s.producers, i);
    }
    assert s.consumer.Blocked? && s.queue == [];
    assert s.delivered + [] + [] == s.delivered;
  }

  lemma {:induction false} AwayMeansNothingUnderWay(ps: seq<Producer>, u: Urb)
    requires forall i :: 0 <= i < |ps| ==> ps[i].Away?
    ensures UnderWay(ps, u) == 0
  {
    if ps != [] {
      AwayMeansNothingUnderWay(ps[..|ps| - 1], u);
    }
  }

  /** As long as the capture runs: after a bounded number of thread steps, in every
      interleaving and whatever comes in meanwhile, every URB that was handed in,
      before or during the run, has been pushed and delivered. */
  lemma DeliveryIsBounded(s: State, es: seq<Event>)
    requires Running(s) && Schedule(s, es) && NoStop(es)
    ensures ThreadSteps(es) <= Work(s) + Costs(es)
    ensures ThreadSteps(es) == Work(s) + Costs(es) ==>
              var s' := Execute(s, es);
              && AllDelivered(s')
              && forall u :: Occurrences(s'.delivered, u) == HandedIn(s, u) + Arrivals(s, es, u)
  {
    RunWorks(s, es);
    if ThreadSteps(es) == Work(s) + Costs(es) {
      var s' := Execute(s, es);
      NoWorkMeansDelivered(s');
      forall u
        ensures Occurrences(s'.delivered, u) == HandedIn(s, u) + Arrivals(s, es, u)
      {
        AwayMeansNothingUnderWay(s'.producers, u);
        NothingDropped(s, es, u);
      }
    }
  }

  /** And until then some thread can take a step, so the run never gets stuck. */
  lemma DeliveryCanProceed(s: State)
    requires Running(s)
    ensures AllDelivered(s) || Enabled(s, Consume) || exists i: nat :: Enabled(s, Produce(i))
  {
    if s.owner.ByProducer? {
      assert Enabled(s, Produce(s.owner.i));
    } else if !Enabled(s, Consume) {
      assert s.consumer.Blocked? && s.owner.Free?;
      if i :| 0 <= i < |s.producers| && !s.producers[i].Away? {
        assert Enabled(s, Produce(i));
      } else {
        assert s.queue == [];
        assert s.delivered + [] + [] == s.delivered;
      }
    }
  }

  /** Every state of every run in which a start has been completed, and no stop has
      begun since, is one from which this holds. */
  lemma RunningIsReached(threads: nat, es: seq<Event>)
    requires Schedule(Initial(threads), es)
    ensures var s := Execute(Initial(threads), es);
            Running(s) <==> s.controller.Ready? && s.capturing
  {
    InitialInvariant(threads);
    ExecuteKeepsAttentive(Initial(threads), es);
  }

  lemma SomeStep(s: State) returns (e: Event)
    requires Running(s) && !AllDelivered(s)
    ensures Enabled(s, e) && ThreadStep(e)
  {
    DeliveryCanProceed(s);
    e := Consume;
    if !Enabled(s, Consume) {
      var i: nat :| Enabled(s, Produce(i));
      e := Produce(i);
    }
  }

  /** From every state in which the capture runs the threads can deliver everything,
      by their own steps alone. */
  lemma {:induction false} ThreadsCanDeliver(s: State) returns (es: seq<Event>)
    requires Running(s)
    ensures Schedule(s, es) && AllDelivered(Execute(s, es)) && Running(Execute(s, es))
    ensures forall i :: 0 <= i < |es| ==> ThreadStep(es[i])
    decreases Work(s)
  {
    hide Running, AllDelivered, Step, Enabled, Work;
    if AllDelivered(s) {
      es := [];
    } else {
      var e := SomeStep(s);
      StepWorks(s, e);
      var later := ThreadsCanDeliver(Step(s, e));
      es := [e] + later;
      assert es[1..] == later;
    }
  }

  lemma {:induction false} NoArrivals(s: State, es: seq<Event>, u: Urb)
    requires Schedule(s, es) && forall i :: 0 <= i < |es| ==> ThreadStep(es[i])
    ensures Arrivals(s, es, u) == 0
    decreases |es|
  {
    if es != [] {
      NoArrivals(Step(s, es[0]), es[1..], u);
    }
  }

  /** So any producer that is free can hand in any URB, and the threads can bring it,
      with everything before it, to the callback. */
  lemma HandedInIsDelivered(s: State, i: nat, u: Urb) returns (es: seq<Event>)
    requires Running(s) && i < |s.producers| && s.producers[i].Away?
    ensures Schedule(s, [Arrive(i, u)] + es) && forall k :: 0 <= k < |es| ==> ThreadStep(es[k])
    ensures var s' := Execute(s, [Arrive(i, u)] + es);
            && AllDelivered(s')
            && forall v :: Occurrences(s'.delivered, v) == HandedIn(s, v) + if v == u then 1 else 0
  {
    var e := Arrive(i, u);
    StepWorks(s, e);
    es := ThreadsCanDeliver(Step(s, e));
    assert ([e] + es)[1..] == es;
    var s' := Execute(s, [e] + es);
    forall v
      ensures Occurrences(s'.delivered, v) == HandedIn(s, v) + if v == u then 1 else 0
    {
      StepHandsIn(s, e, v);
      NothingDropped(Step(s, e), es, v);
      NoArrivals(Step(s, e), es, v);
      AwayMeansNothingUnderWay(s'.producers, v);
    }
  }

  /** What a stop left in the queue is delivered after the next start, before anything
      that comes in later. */
  lemma LeftoversAreDelivered(s: State) returns (es: seq<Event>)
    requires Invariant(s) && Attentive(s) && s.controller.Ready? && !s.capturing
    ensures forall i :: 0 <= i < |es| ==> ThreadStep(es[i])
    ensures Schedule(s, STARTING + es) && AllDelivered(Execute(s, STARTING + es))
    ensures s.delivered + s.queue <= Execute(s, STARTING + es).delivered
  {
    StartCompletes(s);
    ExecuteKeepsAttentive(s, STARTING);
    var s' := Execute(s, STARTING);
    es := ThreadsCanDeliver(s');
    ExecuteAppend(s, STARTING, es);
    AcceptedGrows(s', es);
    InvariantConserves(s);
  }

  lemma {:induction false} AcceptedGrows(s: State, es: seq<Event>)
    requires Schedule(s, es)
    ensures s.accepted <= Execute(s, es).accepted
    decreases |es|
  {
    if es != [] {
      AcceptedGrows(Step(s, es[0]), es[1..]);
    }
  }
}
