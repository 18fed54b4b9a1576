/** When `StopCapture` returns. It raises the stop flag and notifies without holding
    the queue's mutex, so its wakeup can fall between the consumer's last look at
    the flag and its going to sleep. Then only a producer under way can save it. */
module StopLiveness {
  import opened Bytes
  import opened Urbs
  import opened CaptureQueue

  /** The controller waits for a consumer that is asleep, or bound to fall asleep,
      after the only notification of this stop. */
  predicate Doomed(s: State) {
    s.controller.Joining? && (s.consumer.Committing? || s.consumer.Blocked?)
  }

  /** A producer that is going to wake the consumer: its notification is still to
      come and cannot fall before the consumer sleeps. */
  predicate Rescues(c: Consumer, p: Producer) {
    p.Passed? || p.Pushing? || p.Pushed? || (p.Notifying? && c.Blocked?)
  }

  predicate Lost(s: State) {
    Doomed(s) && forall i :: 0 <= i < |s.producers| ==> !Rescues(s.consumer, s.producers[i])
  }

  // ---------- the lost wakeup ----------

  /** Start; the consumer finds an empty queue; stop; the consumer goes to sleep. */
  const LOSING_SCHEDULE: seq<Event> :=
    [CallStart, Proceed, Proceed, Proceed, Consume, Consume, Consume, CallStop, Proceed, Proceed, Proceed, Consume]

  lemma {:induction false} ExecuteStep(s: State, es: seq<Event>)
    requires es != [] && Enabled(s, es[0]) && Schedule(Step(s, es[0]), es[1..])
    ensures Schedule(s, es) && Execute(s, es) == Execute(Step(s, es[0]), es[1..])
  {}

  lemma ExecuteNothing(s: State)
    ensures Schedule(s, []) && Execute(s, []) == s
  {}

  lemma LosingJoin(s: State)
    requires s == Initial(0).(controller := Stop2, capturing := true, shouldStop := true,
                              consumer := Committing, owner := ByConsumer)
    ensures Schedule(s, LOSING_SCHEDULE[9..])
    ensures Execute(s, LOSING_SCHEDULE[9..])
         == s.(controller := Joining, capturing := false, consumer := Blocked, owner := Free)
  {
    hide Schedule, Execute;
    var es := LOSING_SCHEDULE;
    var s1 := Step(s, Proceed);
    var s2 := Step(s1, Proceed);
    var s3 := Step(s2, Consume);
    assert es[9..][1..] == es[10..] && es[10..][1..] == es[11..] && es[11..][1..] == [];
    ExecuteNothing(s3);
    ExecuteStep(s2, es[11..]);
    ExecuteStep(s1, es[10..]);
    ExecuteStep(s, es[9..]);
  }

  lemma LosingEnd(s: State)
    requires s == Initial(0).(controller := Ready, capturing := true, consumer := Committing, owner := ByConsumer)
    ensures Schedule(s, LOSING_SCHEDULE[7..])
    ensures Execute(s, LOSING_SCHEDULE[7..])
         == s.(controller := Joining, capturing := false, shouldStop := true, consumer := Blocked, owner := Free)
  {
    hide Schedule, Execute;
    var es := LOSING_SCHEDULE;
    var s1 := Step(s, CallStop);
    var s2 := Step(s1, Proceed);
    LosingJoin(s2);
    assert es[7..][1..] == es[8..] && es[8..][1..] == es[9..];
    ExecuteStep(s1, es[8..]);
    ExecuteStep(s, es[7..]);
  }

  lemma LosingMiddle(s: State)
    requires s == Initial(0).(controller := Ready, capturing := true, consumer := AtLoop)
    ensures Schedule(s, LOSING_SCHEDULE[4..]) && Doomed(Execute(s, LOSING_SCHEDULE[4..]))
  {
    hide Schedule, Execute;
    var es := LOSING_SCHEDULE;
    var s1 := Step(s, Consume);
    var s2 := Step(s1, Consume);
    var s3 := Step(s2, Consume);
    LosingEnd(s3);
    assert es[4..][1..] == es[5..] && es[5..][1..] == es[6..] && es[6..][1..] == es[7..];
    ExecuteStep(s2, es[6..]);
    ExecuteStep(s1, es[5..]);
    ExecuteStep(s, es[4..]);
  }

  lemma LosingStart(s: State)
    requires s == Initial(0).(controller := Start2)
    ensures Schedule(s, LOSING_SCHEDULE[2..]) && Doomed(Execute(s, LOSING_SCHEDULE[2..]))
  {
    hide Schedule, Execute;
    var es := LOSING_SCHEDULE;
    var s1 := Step(s, Proceed);
    LosingMiddle(Step(s1, Proceed));
    assert es[2..][1..] == es[3..] && es[3..][1..] == es[4..];
    ExecuteStep(s1, es[3..]);
    ExecuteStep(s, es[2..]);
  }

  /** A run of the code in which one start and one stop, and no producer at all,
      leave the controller joining a consumer that sleeps. */
  lemma WakeupCanBeLost()
    ensures Schedule(Initial(0), LOSING_SCHEDULE)
    ensures Doomed(Execute(Initial(0), LOSING_SCHEDULE))
  {
    hide Schedule, Execute;
    var es := LOSING_SCHEDULE;
    var s := Initial(0);
    var s1 := Step(s, CallStart);
    LosingStart(Step(s1, Proceed));
    assert es[1..][1..] == es[2..];
    ExecuteStep(s1, es[1..]);
    ExecuteStep(s, es);
  }

  predicate AllAway(ps: seq<Producer>) {
    forall i :: 0 <= i < |ps| ==> ps[i].Away?
  }

  /** From such a state, with no producer under way, nothing but a spurious wakeup
      lets the stop return, whatever the threads do and however often they are
      called. */
  lemma {:induction false} DoomedStays(s: State, es: seq<Event>)
    requires Invariant(s) && Doomed(s) && AllAway(s.producers) && Schedule(s, es)
    requires forall i :: 0 <= i < |es| ==> !es[i].SpuriousWake?
    ensures Doomed(Execute(s, es))
    decreases |es|
  {
    if es != [] {
      StepKeepsInvariant(s, es[0]);
      DoomedStays(Step(s, es[0]), es[1..]);
    }
  }

  // ---------- exactly when it returns ----------

  function ConsumerWork(c: Consumer): nat {
    match c
    case NoThread => 0
    case AtLoop => 1
    case WantLock => 3
    case Checking => 2
    case Committing => 5
    case Blocked => 4
    case Woken => 1
    case Draining => 2
    case HasFront(_) => 1
    case Popped(_) => 7
    case Counting(_) => 6
    case Calling(_) => 5
    case Relocking => 4
    case Exited => 0
  }

  function ProducerWork(p: Producer): nat {
    match p
    case Away => 0
    case Passed(_) => 11
    case Pushing(_) => 10
    case Pushed => 2
    case Notifying => 1
  }

  function ProducersWork(ps: seq<Producer>): nat {
    if ps == [] then 0 else ProducersWork(ps[..|ps| - 1]) + ProducerWork(ps[|ps| - 1])
  }

  /** Steps the threads can still take, seven of them for every queued URB. */
  function Work(s: State): nat {
    ConsumerWork(s.consumer) + 7 * |s.queue| + ProducersWork(s.producers)
  }

  lemma {:induction false} ProducersWorkUpdate(ps: seq<Producer>, i: nat, p: Producer)
    requires i < |ps|
    ensures ProducersWork(ps[i := p]) + ProducerWork(ps[i]) == ProducersWork(ps) + ProducerWork(p)
  {
    var n := |ps| - 1;
    if i < n {
      ProducersWorkUpdate(ps[..n], i, p);
      assert ps[i := p][..n] == ps[..n][i := p];
    } else {
      assert ps[i := p][..n] == ps[..n];
    }
  }

  predicate ThreadStep(e: Event) {
    e.Consume? || e.Produce?
  }

  /** As long as the wakeup is not lost it stays so. */
  lemma StopStepKeeps(s: State, e: Event)
    requires Invariant(s) && s.controller.Joining? && !Lost(s) && Enabled(s, e) && !e.Proceed?
    ensures Step(s, e).controller.Joining? && !Lost(Step(s, e))
  {
    if Doomed(s) {
      var s' := Step(s, e);
      var i :| 0 <= i < |s.producers| && Rescues(s.consumer, s.producers[i]);
      assert Doomed(s') ==> Rescues(s'.consumer, s'.producers[i]);
    }
  }

  /** And every thread step brings the stop nearer. */
  lemma StopStepWorks(s: State, e: Event)
    requires Invariant(s) && s.controller.Joining? && Enabled(s, e) && !e.Proceed?
    ensures if ThreadStep(e) then Work(Step(s, e)) < Work(s) else Work(Step(s, e)) <= Work(s)
  {
    if e.Produce? {
      ProducersWorkUpdate(s.producers, e.i, ProducerStep(s, e.i).producers[e.i]);
    }
  }

  function ThreadSteps(es: seq<Event>): nat {
    if es == [] then 0 else (if ThreadStep(es[0]) then 1 else 0) + ThreadSteps(es[1..])
  }

  /** Unless its wakeup was lost, a stop that waits for the consumer is waiting for
      a bounded number of steps of the threads, in every interleaving. */
  lemma {:induction false} StopIsBounded(s: State, es: seq<Event>)
    requires Invariant(s) && s.controller.Joining? && !Lost(s) && Schedule(s, es)
    requires forall i :: 0 <= i < |es| ==> !es[i].Proceed?
    ensures Invariant(Execute(s, es)) && Execute(s, es).controller.Joining? && !Lost(Execute(s, es))
    ensures ThreadSteps(es) + Work(Execute(s, es)) <= Work(s)
    decreases |es|
  {
    if es != [] {
      StopStepKeeps(s, es[0]);
      StopStepWorks(s, es[0]);
      StepKeepsInvariant(s, es[0]);
      StopIsBounded(Step(s, es[0]), es[1..]);
    }
  }

  /** Some thread can take a step, or the stop can return. */
  ghost predicate CanMove(s: State) {
    Enabled(s, Proceed) || Enabled(s, Consume) || exists i: nat :: Enabled(s, Produce(i))
  }

  /** And it never gets stuck on the way: as long as the consumer has not exited,
      some thread can take a step; when it has, the stop can return. */
  lemma StopCanProceed(s: State)
    requires Invariant(s) && s.controller.Joining? && !Lost(s)
    ensures CanMove(s)
  {
    if s.owner.ByProducer? {
      assert Enabled(s, Produce(s.owner.i));
    } else if s.consumer.Blocked? {
      var i :| 0 <= i < |s.producers| && Rescues(s.consumer, s.producers[i]);
      assert Enabled(s, Produce(i));
    }
  }

  /** A schedule of the threads while the stop waits, without spurious wakeups. */
  ghost predicate Waiting(s: State, es: seq<Event>) {
    Schedule(s, es) && forall i :: 0 <= i < |es| ==> !es[i].Proceed? && !es[i].SpuriousWake?
  }

  /** Within `n` thread steps the stop returns: there is no longer schedule, and none
      ends where nothing can move. */
  ghost predicate ReturnsWithin(s: State, n: nat) {
    forall es :: Waiting(s, es) ==> ThreadSteps(es) <= n && CanMove(Execute(s, es))
  }

  ghost predicate Returns(s: State) {
    exists n: nat :: ReturnsWithin(s, n)
  }

  /** A lost wakeup allows a schedule to a state in which nothing can move: the
      notifications under way fall before the consumer sleeps. */
  lemma {:induction false} LostGetsStuck(s: State) returns (es: seq<Event>)
    requires Invariant(s) && Lost(s)
    ensures Waiting(s, es) && !CanMove(Execute(s, es))
    decreases Work(s)
  {
    if s.consumer.Blocked? {
      es := [];
    } else {
      var e := Consume;
      if i :| 0 <= i < |s.producers| && s.producers[i].Notifying? {
        e := Produce(i);
        ProducersWorkUpdate(s.producers, i, Away);
      }
      StepKeepsInvariant(s, e);
      var later := LostGetsStuck(Step(s, e));
      es := [e] + later;
      assert es[1..] == later;
    }
  }

  /** Exactly when a waiting stop returns: it does so after a bounded number of
      thread steps in every interleaving without spurious wakeups, if and only if
      its wakeup is not lost. */
  lemma StopReturnsExactly(s: State)
    requires Invariant(s) && s.controller.Joining?
    ensures Returns(s) <==> !Lost(s)
  {
    if Lost(s) {
      var es := LostGetsStuck(s);
    } else {
      forall es | Waiting(s, es)
        ensures ThreadSteps(es) <= Work(s) && CanMove(Execute(s, es))
      {
        StopIsBounded(s, es);
        StopCanProceed(Execute(s, es));
      }
      assert ReturnsWithin(s, Work(s));
    }
  }

  /** Seen from the notification: the stop goes on to return if and only if it does
      not come between the consumer's last check and its sleep, or a producer that
      has passed the capture flag is still to push and notify. */
  lemma NotificationExact(s: State)
    requires Invariant(s) && s.controller.Stop3?
    ensures Enabled(s, Proceed)
    ensures Returns(Step(s, Proceed))
       <==> !s.consumer.Committing? || exists i :: 0 <= i < |s.producers| && s.producers[i].Passed?
  {
    StepKeepsInvariant(s, Proceed);
    StopReturnsExactly(Step(s, Proceed));
  }

  lemma {:induction false} ExecuteAppend(s: State, xs: seq<Event>, ys: seq<Event>)
    requires Schedule(s, xs) && Schedule(Execute(s, xs), ys)
    ensures Schedule(s, xs + ys) && Execute(s, xs + ys) == Execute(Execute(s, xs), ys)
    decreases |xs|
  {
    if xs == [] {
      assert xs + ys == ys;
    } else {
      assert (xs + ys)[1..] == xs[1..] + ys;
      ExecuteAppend(Step(s, xs[0]), xs[1..], ys);
    }
  }

  /** The stop has returned: neither a processing thread nor a capture is left. */
  ghost predicate Stopped(s: State) {
    Invariant(s) && s.controller.Ready? && !s.capturing && s.consumer.NoThread?
  }

  lemma StopStepOfThreads(s: State) returns (e: Event)
    requires Invariant(s) && s.controller.Joining? && !Lost(s) && !s.consumer.Exited?
    ensures Enabled(s, e) && ThreadStep(e)
  {
    StopCanProceed(s);
    e := Consume;
    if !Enabled(s, Consume) {
      var i: nat :| Enabled(s, Produce(i));
      e := Produce(i);
    }
  }

  lemma StopEnds(s: State)
    requires Invariant(s) && s.controller.Joining? && s.consumer.Exited?
    ensures Schedule(s, [Proceed]) && Stopped(Execute(s, [Proceed]))
  {
    StepKeepsInvariant(s, Proceed);
    ExecuteNothing(Step(s, Proceed));
    assert [Proceed][1..] == [];
    ExecuteStep(s, [Proceed]);
  }

  /** A waiting stop whose wakeup is not lost can return by the threads' steps alone. */
  lemma {:induction false} StopCompletes(s: State) returns (es: seq<Event>)
    requires Invariant(s) && s.controller.Joining? && !Lost(s)
    ensures forall i :: 0 <= i < |es| ==> ThreadStep(es[i])
    ensures Schedule(s, es + [Proceed]) && Stopped(Execute(s, es + [Proceed]))
    decreases Work(s)
  {
    hide Step, Enabled, Invariant, Lost, Work, Stopped, Schedule, Execute;
    if s.consumer.Exited? {
      es := [];
      assert [] + [Proceed] == [Proceed];
      StopEnds(s);
    } else {
      var e := StopStepOfThreads(s);
      StopStepKeeps(s, e);
      StopStepWorks(s, e);
      StepKeepsInvariant(s, e);
      var later := StopCompletes(Step(s, e));
      es := [e] + later;
      assert (es + [Proceed])[1..] == later + [Proceed];
      ExecuteStep(s, es + [Proceed]);
    }
  }

  /** A spurious wakeup saves even a stop whose own wakeup was lost. */
  lemma SpuriousWakeupSaves(s: State)
    requires Invariant(s) && s.controller.Joining? && s.consumer.Blocked?
    ensures Enabled(s, SpuriousWake) && Returns(Step(s, SpuriousWake))
  {
    StepKeepsInvariant(s, SpuriousWake);
    StopReturnsExactly(Step(s, SpuriousWake));
  }

  const STARTING: seq<Event> := [CallStart, Proceed, Proceed, Proceed]

  /** A start from any state without a capture can run to its end; then the capture
      runs, with a new thread at its loop, and what an earlier capture left in the
      queue is still there. */
  lemma StartCompletes(s: State)
    requires Invariant(s) && s.controller.Ready? && !s.capturing
    ensures Schedule(s, STARTING)
    ensures Execute(s, STARTING) == s.(capturing := true, shouldStop := false, consumer := AtLoop)
  {
    hide Schedule, Execute, Invariant;
    var es := STARTING;
    var s1 := Step(s, CallStart);
    var s2 := Step(s1, Proceed);
    var s3 := Step(s2, Proceed);
    var s4 := Step(s3, Proceed);
    assert es[1..][1..] == es[2..] && es[2..][1..] == es[3..] && es[3..][1..] == [];
    ExecuteNothing(s4);
    ExecuteStep(s3, es[3..]);
    ExecuteStep(s2, es[2..]);
    ExecuteStep(s1, es[1..]);
    ExecuteStep(s, es);
  }
}
