/** When the bounded queue test crashes because a buffer cannot grow any more, and when it can finish. */
module QueueLimits {

  import opened BoundedQueue
  import opened Counting
  import opened GrowingBuffers
  import opened Schedules

  function Total(config: Config): nat {
    config.producers * config.messages
  }

  predicate Holds(c: Consumer) {
    c.Notifying? || c.Receiving?
  }

  /** Every message is received, in the queue, in the hands of a consumer, or not sent yet. */
  ghost predicate Accounted(s: State) {
    |s.received| + |s.queue| + CountIf(s.consumers, Holds) + Sum(s.producers, Unsent(s.config.messages))
    == Total(s.config)
  }

  /** The vector of received messages holds up to LARGEST messages, and the queue one less. */
  predicate CannotCrash(config: Config) {
    Total(config) < LARGEST || (Total(config) == LARGEST && config.capacity < LARGEST)
  }

  ghost predicate Within(s: State) {
    Inv(s) && Accounted(s) && |s.received| <= LARGEST && |s.queue| < LARGEST && (s.crashed ==> !CannotCrash(s.config))
  }

  lemma {:induction false} AllUnsent(config: Config, producers: nat)
    ensures Sum(seq(producers, _ => NextMessage(config, 0)), Unsent(config.messages)) == producers * config.messages
  {
    if producers > 0 {
      var ps := seq(producers, _ => NextMessage(config, 0));
      assert ps[..producers - 1] == seq(producers - 1, _ => NextMessage(config, 0));
      AllUnsent(config, producers - 1);
      assert producers * config.messages == (producers - 1) * config.messages + config.messages;
    }
  }

  lemma InitWithin(config: Config)
    ensures Within(Init(config))
  {
    InitInv(config);
    AllUnsent(config, config.producers);
    CountNone(Init(config).consumers, Holds);
  }

  lemma WokenHold(a: seq<Consumer>, b: seq<Consumer>)
    requires |a| == |b| && forall i :: 0 <= i < |a| ==> b[i] == a[i] || b[i] == WokenConsumer(a[i])
    ensures CountIf(b, Holds) == CountIf(a, Holds)
  {
    CountSame(a, b, Holds);
  }

  lemma WokenUnsent(a: seq<Producer>, b: seq<Producer>, messages: nat)
    requires |a| == |b| && forall i :: 0 <= i < |a| ==> b[i] == a[i] || b[i] == WokenProducer(a[i])
    ensures Sum(b, Unsent(messages)) == Sum(a, Unsent(messages))
  {
    SumSame(a, b, Unsent(messages));
  }

  lemma TakenAccounted(s: State, i: nat, hint: nat)
    requires Accounted(s) && i < |s.consumers| && s.consumers[i].Notifying?
    ensures Accounted(ConsumerStep(s, i, hint))
  {
    CountUpdate(s.consumers, i, Consumer.Receiving(s.consumers[i].result), Holds);
    WokenUnsent(s.producers, NotifyFull(s, s.consumers[i].must, hint), s.config.messages);
  }

  lemma ConsumerStepAccounted(s: State, i: nat, hint: nat)
    requires Accounted(s) && i < |s.consumers|
    ensures Accounted(ConsumerStep(s, i, hint))
  {
    if s.consumers[i].Notifying? {
      TakenAccounted(s, i, hint);
    } else {
      CountUpdate(s.consumers, i, ConsumerStep(s, i, hint).consumers[i], Holds);
    }
  }

  lemma SentAccounted(s: State, i: nat, hint: nat)
    requires Accounted(s) && i < |s.producers| && s.producers[i].Notifying?
    ensures Accounted(ProducerStep(s, i, hint))
  {
    SumUpdate(s.producers, i, NextMessage(s.config, s.producers[i].next + 1), Unsent(s.config.messages));
    WokenHold(s.consumers, NotifyEmpty(s, s.producers[i].must, hint));
  }

  lemma ProducerStepAccounted(s: State, i: nat, hint: nat)
    requires Accounted(s) && i < |s.producers|
    requires !s.producers[i].Done? ==> s.producers[i].next < s.config.messages
    ensures Accounted(ProducerStep(s, i, hint))
  {
    if s.producers[i].Notifying? {
      SentAccounted(s, i, hint);
    } else {
      SumUpdate(s.producers, i, ProducerStep(s, i, hint).producers[i], Unsent(s.config.messages));
    }
  }

  lemma MainStepAccounted(s: State)
    requires Accounted(s)
    ensures Accounted(MainStep(s))
  {
    if s.main == Broadcasting { WokenHold(s.consumers, WakeAllConsumers(s.consumers)); }
  }

  lemma StepAccounted(s: State, m: Move)
    requires Inv(s) && Accounted(s)
    ensures Accounted(Step(s, m))
  {
    if s.crashed || Crashes(s, m) { return; }
    match m
    case ConsumerMoves(i, hint) => if i < |s.consumers| { ConsumerStepAccounted(s, i, hint); }
    case ProducerMoves(i, hint) => if i < |s.producers| { ProducerStepAccounted(s, i, hint); }
    case MainMoves => MainStepAccounted(s);
    case ConsumerWakes(_) => WokenHold(s.consumers, Step(s, m).consumers);
    case ProducerWakes(_) => WokenUnsent(s.producers, Step(s, m).producers, s.config.messages);
  }

  /** An append that crashes is made with more messages at hand than the buffers hold. */
  lemma CrashHasReason(s: State, m: Move)
    requires Within(s) && Crashes(s, m)
    ensures !CannotCrash(s.config)
  {
    if m.ConsumerMoves? {
      CountNone(s.consumers, Holds);
    } else {
      SumUpdate(s.producers, m.thread, Producer.Done, Unsent(s.config.messages));
    }
  }

  lemma StepFits(s: State, m: Move)
    requires |s.received| <= LARGEST && |s.queue| < LARGEST
    ensures |Step(s, m).received| <= LARGEST && |Step(s, m).queue| < LARGEST && Step(s, m).config == s.config
    ensures Step(s, m).crashed <==> s.crashed || Crashes(s, m)
  {}

  lemma StepWithin(s: State, m: Move)
    requires Within(s)
    ensures Within(Step(s, m)) && Step(s, m).config == s.config
  {
    StepInv(s, m);
    StepFits(s, m);
    StepAccounted(s, m);
    if Crashes(s, m) { CrashHasReason(s, m); }
  }

  lemma {:induction false} ReachableWithin(s: State)
    requires Reachable(s)
    ensures Within(s)
  {
    var moves :| s == Run(Step, Init(s.config), moves);
    InitWithin(s.config);
    forall a, m | Within(a) ensures Within(Step(a, m)) { StepWithin(a, m); }
    RunKeeps(Step, Within, Init(s.config), moves);
  }

  lemma FinishedReceivedAll(s: State)
    requires Within(s) && s.main == Finished && s.config.consumers >= 1
    ensures |s.received| == Total(s.config)
  {
    assert s.consumers[0].Done?;
    CountNone(s.consumers, Holds);
    NothingUnsent(s.producers, s.config.messages);
  }

  lemma {:induction false} NothingUnsent(ps: seq<Producer>, messages: nat)
    requires forall i :: 0 <= i < |ps| ==> ps[i].Done?
    ensures Sum(ps, Unsent(messages)) == 0
  {
    if ps != [] { NothingUnsent(ps[..|ps| - 1], messages); }
  }

  /** Without too many messages, every run of every scheduler finishes. */
  lemma SafeTestFinishes(config: Config, moves: seq<Move>, scheduler: seq<Move> -> Move, wakeups: nat)
    requires config.capacity >= 1 && config.consumers >= 1 && CannotCrash(config)
    ensures After(config, Complete(config, moves, scheduler, wakeups)).main == Finished
  {
    var all := Complete(config, moves, scheduler, wakeups);
    RunConfig(config, all);
    ReachableWithin(After(config, all));
  }

  /** With too many messages, every run of every scheduler crashes. */
  lemma LargeTestCrashes(config: Config, moves: seq<Move>, scheduler: seq<Move> -> Move, wakeups: nat)
    requires config.capacity >= 1 && config.consumers >= 1 && Total(config) > LARGEST
    ensures After(config, Complete(config, moves, scheduler, wakeups)).crashed
  {
    var all := Complete(config, moves, scheduler, wakeups);
    RunConfig(config, all);
    ReachableWithin(After(config, all));
    if After(config, all).main == Finished { FinishedReceivedAll(After(config, all)); }
  }

  /** Only the producers have moved, and none of them has had to wait. */
  ghost predicate OnlySent(s: State) {
    && Within(s) && s.received == []
    && (forall i :: 0 <= i < |s.consumers| ==> s.consumers[i].Ready?)
    && (forall i :: 0 <= i < |s.producers| ==> !s.producers[i].Asleep?)
  }

  predicate HasCrashed(s: State) {
    s.crashed
  }

  lemma NobodyToNotify(s: State, must: bool, hint: nat)
    requires forall i :: 0 <= i < |s.consumers| ==> s.consumers[i].Ready?
    ensures NotifyEmpty(s, must, hint) == s.consumers
  {
    assert forall i :: 0 <= i < |s.consumers| ==> WokenConsumer(s.consumers[i]) == s.consumers[i];
  }

  lemma SendMore(s: State, i: nat)
    requires OnlySent(s) && !s.crashed && i < |s.producers| && !s.producers[i].Done?
    requires s.config.capacity >= LARGEST && !Crashes(s, ProducerMoves(i, 0))
    ensures OnlySent(Step(s, ProducerMoves(i, 0))) && !Step(s, ProducerMoves(i, 0)).crashed
  {
    StepWithin(s, ProducerMoves(i, 0));
    if s.producers[i].Notifying? { NobodyToNotify(s, s.producers[i].must, 0); }
  }

  /** Producers that are not stopped by the capacity fill the queue until it cannot grow. */
  lemma {:induction false} ProducersCanCrash(s: State)
    requires OnlySent(s) && s.config.capacity >= LARGEST && Total(s.config) == LARGEST
    ensures CanReach(Step, s, HasCrashed)
    decreases Sum(s.producers, Unsent(s.config.messages)), CountIf(s.producers, PNotifying)
  {
    if s.crashed {
      CanReachNow(Step, s, HasCrashed);
      return;
    }
    CountNone(s.consumers, Holds);
    if forall i :: 0 <= i < |s.producers| ==> s.producers[i].Done? { NothingUnsent(s.producers, s.config.messages); }
    var i: nat :| i < |s.producers| && !s.producers[i].Done?;
    var m := ProducerMoves(i, 0);
    if Crashes(s, m) {
      CanReachNow(Step, Step(s, m), HasCrashed);
    } else {
      SendMore(s, i);
      SumUpdate(s.producers, i, Step(s, m).producers[i], Unsent(s.config.messages));
      CountUpdate(s.producers, i, Step(s, m).producers[i], PNotifying);
      ProducersCanCrash(Step(s, m));
    }
    CanReachBefore(Step, s, m, HasCrashed);
  }

  /** Some run crashes exactly when there are more messages than the vector of received ones holds, or as many as
      that and the queue may hold them all. */
  lemma CrashIsReachableIff(config: Config)
    requires config.capacity >= 1 && config.consumers >= 1
    ensures (exists s :: Reachable(s) && s.config == config && s.crashed) <==> !CannotCrash(config)
  {
    forall s | Reachable(s) && s.config == config ensures Within(s) { ReachableWithin(s); }
    if Total(config) > LARGEST {
      var all := Complete(config, [], moves => MainMoves, 0);
      LargeTestCrashes(config, [], moves => MainMoves, 0);
      RunConfig(config, all);
    } else if !CannotCrash(config) {
      InitWithin(config);
      ProducersCanCrash(Init(config));
      var moves :| HasCrashed(Run(Step, Init(config), moves));
      RunConfig(config, moves);
    }
  }

  /** A producer is about to append although the queue is not empty. */
  predicate Impolite(s: State, m: Move) {
    m.ProducerMoves? && m.thread < |s.producers| && s.producers[m.thread].Ready? && s.queue != []
  }

  /** A message in the queue always has somebody other than a producer at work for it. */
  lemma PoliteMove(s: State)
    requires Inv(s) && s.config.capacity >= 1 && s.config.consumers >= 1 && !Ended(s)
    ensures exists m :: Effective(s, m) && !Impolite(s, m)
  {
    if s.queue == [] {
      SomebodyMoves(s);
    } else if forall m :: !Effective(s, m) || Impolite(s, m) {
      assert !Effective(s, MainMoves);
      forall i | 0 <= i < |s.consumers| ensures s.consumers[i].Asleep? || s.consumers[i].Done? {
        assert !Effective(s, ConsumerMoves(i, 0));
      }
      forall i | 0 <= i < |s.producers| ensures !s.producers[i].Notifying? {
        assert !Effective(s, ProducerMoves(i, 0)) || Impolite(s, ProducerMoves(i, 0));
      }
      CountNone(s.consumers, CReady);
      CountNone(s.consumers, CAsleep);
      CountNone(s.producers, PNotifying);
      CountNone(s.producers, PMust);
    }
  }

  predicate HasFinished(s: State) {
    s.main == Finished
  }

  lemma PoliteStep(s: State, m: Move)
    requires Within(s) && Total(s.config) <= LARGEST && |s.queue| <= 1 && !s.crashed
    requires Effective(s, m) && !Impolite(s, m)
    ensures Within(Step(s, m)) && |Step(s, m).queue| <= 1 && !Step(s, m).crashed && Step(s, m).config == s.config
  {
    if m.ConsumerMoves? { CountNone(s.consumers, Holds); }
    StepWithin(s, m);
    StepFits(s, m);
  }

  lemma {:induction false} PoliteRunFinishes(s: State)
    requires Within(s) && s.config.capacity >= 1 && s.config.consumers >= 1 && Total(s.config) <= LARGEST
    requires |s.queue| <= 1 && !s.crashed
    ensures CanReach(Step, s, HasFinished)
    decreases Sum(s.producers, Unsent(s.config.messages)), |s.queue|, Stage(s.main), Pending(s), Awake(s)
  {
    if s.main == Finished {
      CanReachNow(Step, s, HasFinished);
      return;
    }
    PoliteMove(s);
    var m :| Effective(s, m) && !Impolite(s, m);
    PoliteStep(s, m);
    EffectiveMovesGetCloser(s, m);
    PoliteRunFinishes(Step(s, m));
    CanReachBefore(Step, s, m, HasFinished);
  }

  /** Some run finishes exactly when the vector of received messages can hold them all. */
  lemma FinishIsReachableIff(config: Config)
    requires config.capacity >= 1 && config.consumers >= 1
    ensures (exists s :: Reachable(s) && s.config == config && s.main == Finished) <==> Total(config) <= LARGEST
  {
    forall s | Reachable(s) && s.config == config && s.main == Finished ensures Total(config) <= LARGEST {
      ReachableWithin(s);
      FinishedReceivedAll(s);
    }
    if Total(config) <= LARGEST {
      InitWithin(config);
      PoliteRunFinishes(Init(config));
      var moves :| HasFinished(Run(Step, Init(config), moves));
      RunConfig(config, moves);
    }
  }
}
