/** The bounded producer and consumer protocol of ConditionSpeedTest, with both notification policies.
    The queue is guarded by one lock, so a move is one region between two releases of it, one notification,
    or one append to the list of received messages. An append crashes the test when the buffer cannot grow. */
module BoundedQueue {

  import opened Counting
  import opened GrowingBuffers
  import opened Schedules

  datatype Policy = NotifyOne | NotifyAll

  datatype Consumer =
    | Ready                                  // about to take the lock
    | Asleep                                 // waiting on emptyCondition
    | Notifying(result: nat, must: bool)     // about to notify fullCondition
    | Receiving(result: nat)                 // about to append to the received messages
    | Done

  /** next: the message that this producer appends next, or has just appended. */
  datatype Producer =
    | Ready(next: nat)
    | Asleep(next: nat)                      // waiting on fullCondition
    | Notifying(next: nat, must: bool)       // about to notify emptyCondition
    | Done

  datatype Main = JoiningProducers | Closing | Broadcasting | JoiningConsumers | Finished

  datatype Config = Config(policy: Policy, consumers: nat, producers: nat, capacity: nat, messages: nat)

  datatype State = State(config: Config, queue: seq<nat>, shouldContinue: bool, consumers: seq<Consumer>,
                         producers: seq<Producer>, main: Main, received: seq<nat>, crashed: bool)

  /** hint: the sleeper that notifyOne wakes, when it is asleep. A sleeper may also wake up by itself. */
  datatype Move =
    | ConsumerMoves(thread: nat, hint: nat)
    | ProducerMoves(thread: nat, hint: nat)
    | MainMoves
    | ConsumerWakes(thread: nat)
    | ProducerWakes(thread: nat)

  function NextMessage(config: Config, k: nat): Producer {
    if k < config.messages then Producer.Ready(k) else Producer.Done
  }

  function Init(config: Config): State {
    State(config, [], true, seq(config.consumers, _ => Consumer.Ready),
          seq(config.producers, _ => NextMessage(config, 0)), JoiningProducers, [], false)
  }

  function WokenConsumer(c: Consumer): Consumer {
    if c.Asleep? then Consumer.Ready else c
  }

  function WokenProducer(p: Producer): Producer {
    if p.Asleep? then Producer.Ready(p.next) else p
  }

  /** The sleeper that notifyOne wakes: any one of them, chosen by the hint, or an index out of range. */
  function PickConsumer(cs: seq<Consumer>, hint: nat): (k: nat)
    ensures k < |cs| ==> cs[k].Asleep?
    ensures k >= |cs| ==> forall c <- cs :: !c.Asleep?
  {
    if hint < |cs| && cs[hint].Asleep? then hint
    else if cs == [] then 0
    else if cs[|cs| - 1].Asleep? then |cs| - 1
    else
      var k := PickConsumer(cs[..|cs| - 1], 0);
      if k < |cs| - 1 then k else |cs|
  }

  function PickProducer(ps: seq<Producer>, hint: nat): (k: nat)
    ensures k < |ps| ==> ps[k].Asleep?
    ensures k >= |ps| ==> forall p <- ps :: !p.Asleep?
  {
    if hint < |ps| && ps[hint].Asleep? then hint
    else if ps == [] then 0
    else if ps[|ps| - 1].Asleep? then |ps| - 1
    else
      var k := PickProducer(ps[..|ps| - 1], 0);
      if k < |ps| - 1 then k else |ps|
  }

  function WakeAllConsumers(cs: seq<Consumer>): seq<Consumer> {
    seq(|cs|, i requires 0 <= i < |cs| => WokenConsumer(cs[i]))
  }

  function WakeAllProducers(ps: seq<Producer>): seq<Producer> {
    seq(|ps|, i requires 0 <= i < |ps| => WokenProducer(ps[i]))
  }

  function NotifyFull(s: State, must: bool, hint: nat): seq<Producer> {
    if s.config.policy == NotifyAll then (if must then WakeAllProducers(s.producers) else s.producers) else
    var k := PickProducer(s.producers, hint);
    if k < |s.producers| then s.producers[k := WokenProducer(s.producers[k])] else s.producers
  }

  function NotifyEmpty(s: State, must: bool, hint: nat): seq<Consumer> {
    if s.config.policy == NotifyAll then (if must then WakeAllConsumers(s.consumers) else s.consumers) else
    var k := PickConsumer(s.consumers, hint);
    if k < |s.consumers| then s.consumers[k := WokenConsumer(s.consumers[k])] else s.consumers
  }

  function ConsumerStep(s: State, i: nat, hint: nat): State
    requires i < |s.consumers|
  {
    match s.consumers[i]
    case Ready =>
      if s.queue == [] then
        s.(consumers := s.consumers[i := if s.shouldContinue then Consumer.Asleep else Consumer.Done])
      else s.(queue := s.queue[1..],
              consumers := s.consumers[i := Consumer.Notifying(s.queue[0], |s.queue| == s.config.capacity)])
    case Notifying(result, must) =>
      s.(producers := NotifyFull(s, must, hint), consumers := s.consumers[i := Receiving(result)])
    case Receiving(result) =>
      s.(received := s.received + [result], consumers := s.consumers[i := Consumer.Ready])
    case _ => s
  }

  function ProducerStep(s: State, i: nat, hint: nat): State
    requires i < |s.producers|
  {
    match s.producers[i]
    case Ready(k) =>
      if |s.queue| >= s.config.capacity then s.(producers := s.producers[i := Producer.Asleep(k)])
      else s.(queue := s.queue + [k], producers := s.producers[i := Producer.Notifying(k, s.queue == [])])
    case Notifying(k, must) =>
      s.(consumers := NotifyEmpty(s, must, hint), producers := s.producers[i := NextMessage(s.config, k + 1)])
    case _ => s
  }

  function MainStep(s: State): State {
    match s.main
    case JoiningProducers => if forall p <- s.producers :: p.Done? then s.(main := Closing) else s
    case Closing => s.(shouldContinue := false, main := Broadcasting)
    case Broadcasting => s.(consumers := WakeAllConsumers(s.consumers), main := JoiningConsumers)
    case JoiningConsumers => if forall c <- s.consumers :: c.Done? then s.(main := Finished) else s
    case Finished => s
  }

  /** The appends that crash: to the received messages when their vector is full and cannot grow, and to the queue
      when its ring has one slot left and cannot grow. */
  predicate Crashes(s: State, m: Move) {
    match m
    case ConsumerMoves(i, _) => i < |s.consumers| && s.consumers[i].Receiving? && |s.received| == LARGEST
    case ProducerMoves(i, _) =>
      i < |s.producers| && s.producers[i].Ready? && |s.queue| < s.config.capacity && |s.queue| == LARGEST - 1
    case _ => false
  }

  function Step(s: State, m: Move): State {
    if s.crashed then s
    else if Crashes(s, m) then s.(crashed := true)
    else match m
      case ConsumerMoves(i, hint) => if i < |s.consumers| then ConsumerStep(s, i, hint) else s
      case ProducerMoves(i, hint) => if i < |s.producers| then ProducerStep(s, i, hint) else s
      case MainMoves => MainStep(s)
      case ConsumerWakes(i) =>
        if i < |s.consumers| then s.(consumers := s.consumers[i := WokenConsumer(s.consumers[i])]) else s
      case ProducerWakes(i) =>
        if i < |s.producers| then s.(producers := s.producers[i := WokenProducer(s.producers[i])]) else s
  }

  predicate CReady(c: Consumer) { c.Ready? }
  predicate CAsleep(c: Consumer) { c.Asleep? }
  predicate CNotifying(c: Consumer) { c.Notifying? }
  predicate CMust(c: Consumer) { c.Notifying? && c.must }
  predicate PReady(p: Producer) { p.Ready? }
  predicate PAsleep(p: Producer) { p.Asleep? }
  predicate PNotifying(p: Producer) { p.Notifying? }
  predicate PMust(p: Producer) { p.Notifying? && p.must }

  /** While a producer sleeps, every free slot is covered by a pending notification or an awake producer. */
  ghost predicate ProducersCovered(s: State) {
    CountIf(s.producers, PAsleep) > 0 ==>
      match s.config.policy
      case NotifyOne => s.config.capacity <= |s.queue| + CountIf(s.consumers, CNotifying) + CountIf(s.producers, PReady)
      case NotifyAll => |s.queue| >= s.config.capacity || CountIf(s.consumers, CMust) > 0
  }

  /** While a consumer sleeps, every message is covered by a pending notification or an awake consumer. */
  ghost predicate ConsumersCovered(s: State) {
    CountIf(s.consumers, CAsleep) > 0 && s.shouldContinue ==>
      match s.config.policy
      case NotifyOne => |s.queue| <= CountIf(s.producers, PNotifying) + CountIf(s.consumers, CReady)
      case NotifyAll => s.queue == [] || CountIf(s.producers, PMust) > 0
  }

  ghost predicate AllDone(s: State) {
    forall i :: 0 <= i < |s.producers| ==> s.producers[i].Done?
  }

  ghost predicate ShutdownOk(s: State) {
    && (s.shouldContinue <==> s.main == JoiningProducers || s.main == Closing)
    && (s.main != JoiningProducers ==> AllDone(s))
    && (!s.shouldContinue && CountIf(s.consumers, CAsleep) > 0 ==> s.main == Broadcasting)
    && (forall i :: 0 <= i < |s.consumers| && s.consumers[i].Done? ==> !s.shouldContinue && s.queue == [])
    && (s.main == Finished ==> forall i :: 0 <= i < |s.consumers| ==> s.consumers[i].Done?)
    && |s.consumers| == s.config.consumers && |s.producers| == s.config.producers
    && |s.queue| <= s.config.capacity
    && (forall i :: 0 <= i < |s.producers| ==> s.producers[i].Done? || s.producers[i].next < s.config.messages)
  }

  ghost predicate Inv(s: State) {
    ShutdownOk(s) && ProducersCovered(s) && ConsumersCovered(s)
  }

  /** What a wakeup does to the counts of the consumers: sleepers turn ready, and nothing else changes. */
  ghost predicate ConsumersWoken(a: seq<Consumer>, b: seq<Consumer>) {
    && |a| == |b| && (forall i :: 0 <= i < |a| ==> b[i] == a[i] || b[i] == WokenConsumer(a[i]))
    && CountIf(b, CNotifying) == CountIf(a, CNotifying) && CountIf(b, CMust) == CountIf(a, CMust)
    && CountIf(b, CReady) + CountIf(b, CAsleep) == CountIf(a, CReady) + CountIf(a, CAsleep)
    && CountIf(b, CAsleep) <= CountIf(a, CAsleep)
  }

  ghost predicate ProducersWoken(a: seq<Producer>, b: seq<Producer>) {
    && |a| == |b| && (forall i :: 0 <= i < |a| ==> b[i] == a[i] || b[i] == WokenProducer(a[i]))
    && CountIf(b, PNotifying) == CountIf(a, PNotifying) && CountIf(b, PMust) == CountIf(a, PMust)
    && CountIf(b, PReady) + CountIf(b, PAsleep) == CountIf(a, PReady) + CountIf(a, PAsleep)
    && CountIf(b, PAsleep) <= CountIf(a, PAsleep)
  }

  lemma {:induction false} ConsumersWokenCounts(a: seq<Consumer>, b: seq<Consumer>)
    requires |a| == |b| && forall i :: 0 <= i < |a| ==> b[i] == a[i] || b[i] == WokenConsumer(a[i])
    ensures ConsumersWoken(a, b)
  {
    if a != [] { ConsumersWokenCounts(a[..|a| - 1], b[..|a| - 1]); }
  }

  lemma {:induction false} ProducersWokenCounts(a: seq<Producer>, b: seq<Producer>)
    requires |a| == |b| && forall i :: 0 <= i < |a| ==> b[i] == a[i] || b[i] == WokenProducer(a[i])
    ensures ProducersWoken(a, b)
  {
    if a != [] { ProducersWokenCounts(a[..|a| - 1], b[..|a| - 1]); }
  }

  /** A notification that must happen leaves fewer sleepers if there are any, and none under NotifyAll. */
  lemma NotifyEmptyWakes(s: State, must: bool, hint: nat)
    ensures var cs := NotifyEmpty(s, must, hint);
      && ConsumersWoken(s.consumers, cs)
      && (s.config.policy == NotifyOne && CountIf(s.consumers, CAsleep) > 0 ==>
            CountIf(cs, CReady) == CountIf(s.consumers, CReady) + 1)
      && (s.config.policy == NotifyAll && must ==> CountIf(cs, CAsleep) == 0)
      && (s.config.policy == NotifyAll && !must ==> cs == s.consumers)
  {
    var cs := NotifyEmpty(s, must, hint);
    ConsumersWokenCounts(s.consumers, cs);
    CountNone(cs, CAsleep);
    CountNone(s.consumers, CAsleep);
    var k := PickConsumer(s.consumers, hint);
    if k < |s.consumers| { CountUpdate(s.consumers, k, WokenConsumer(s.consumers[k]), CReady); }
  }

  lemma NotifyFullWakes(s: State, must: bool, hint: nat)
    ensures var ps := NotifyFull(s, must, hint);
      && ProducersWoken(s.producers, ps)
      && (s.config.policy == NotifyOne && CountIf(s.producers, PAsleep) > 0 ==>
            CountIf(ps, PReady) == CountIf(s.producers, PReady) + 1)
      && (s.config.policy == NotifyAll && must ==> CountIf(ps, PAsleep) == 0)
      && (s.config.policy == NotifyAll && !must ==> ps == s.producers)
  {
    var ps := NotifyFull(s, must, hint);
    ProducersWokenCounts(s.producers, ps);
    CountNone(ps, PAsleep);
    CountNone(s.producers, PAsleep);
    var k := PickProducer(s.producers, hint);
    if k < |s.producers| { CountUpdate(s.producers, k, WokenProducer(s.producers[k]), PReady); }
  }

  lemma ConsumerCounts(cs: seq<Consumer>, i: nat, c: Consumer)
    requires i < |cs|
    ensures CountIf(cs[i := c], CReady) + (if cs[i].Ready? then 1 else 0)
      == CountIf(cs, CReady) + (if c.Ready? then 1 else 0)
    ensures CountIf(cs[i := c], CAsleep) + (if cs[i].Asleep? then 1 else 0)
      == CountIf(cs, CAsleep) + (if c.Asleep? then 1 else 0)
    ensures CountIf(cs[i := c], CNotifying) + (if cs[i].Notifying? then 1 else 0)
      == CountIf(cs, CNotifying) + (if c.Notifying? then 1 else 0)
    ensures CountIf(cs[i := c], CMust) + (if CMust(cs[i]) then 1 else 0)
      == CountIf(cs, CMust) + (if CMust(c) then 1 else 0)
  {
    CountUpdate(cs, i, c, CReady);
    CountUpdate(cs, i, c, CAsleep);
    CountUpdate(cs, i, c, CNotifying);
    CountUpdate(cs, i, c, CMust);
  }

  lemma ProducerCounts(ps: seq<Producer>, i: nat, p: Producer)
    requires i < |ps|
    ensures CountIf(ps[i := p], PReady) + (if ps[i].Ready? then 1 else 0)
      == CountIf(ps, PReady) + (if p.Ready? then 1 else 0)
    ensures CountIf(ps[i := p], PAsleep) + (if ps[i].Asleep? then 1 else 0)
      == CountIf(ps, PAsleep) + (if p.Asleep? then 1 else 0)
    ensures CountIf(ps[i := p], PNotifying) + (if ps[i].Notifying? then 1 else 0)
      == CountIf(ps, PNotifying) + (if p.Notifying? then 1 else 0)
    ensures CountIf(ps[i := p], PMust) + (if PMust(ps[i]) then 1 else 0)
      == CountIf(ps, PMust) + (if PMust(p) then 1 else 0)
  {
    CountUpdate(ps, i, p, PReady);
    CountUpdate(ps, i, p, PAsleep);
    CountUpdate(ps, i, p, PNotifying);
    CountUpdate(ps, i, p, PMust);
  }

  lemma TakeCovers(s: State, i: nat, hint: nat)
    requires Inv(s) && i < |s.consumers| && !s.consumers[i].Notifying?
    ensures ProducersCovered(ConsumerStep(s, i, hint)) && ConsumersCovered(ConsumerStep(s, i, hint))
  {
    ConsumerCounts(s.consumers, i, ConsumerStep(s, i, hint).consumers[i]);
  }

  lemma TakenCovers(s: State, i: nat, hint: nat)
    requires Inv(s) && i < |s.consumers| && s.consumers[i].Notifying?
    ensures ProducersCovered(ConsumerStep(s, i, hint)) && ConsumersCovered(ConsumerStep(s, i, hint))
  {
    ConsumerCounts(s.consumers, i, ConsumerStep(s, i, hint).consumers[i]);
    NotifyFullWakes(s, s.consumers[i].must, hint);
  }

  lemma TakeShutdown(s: State, i: nat, hint: nat)
    requires ShutdownOk(s) && i < |s.consumers| && !s.consumers[i].Notifying?
    ensures ShutdownOk(ConsumerStep(s, i, hint))
  {
    CountUpdate(s.consumers, i, ConsumerStep(s, i, hint).consumers[i], CAsleep);
  }

  lemma TakenShutdown(s: State, i: nat, hint: nat)
    requires ShutdownOk(s) && i < |s.consumers| && s.consumers[i].Notifying?
    ensures ShutdownOk(ConsumerStep(s, i, hint))
  {
    CountUpdate(s.consumers, i, ConsumerStep(s, i, hint).consumers[i], CAsleep);
  }

  lemma ConsumerStepInv(s: State, i: nat, hint: nat)
    requires Inv(s) && i < |s.consumers|
    ensures Inv(ConsumerStep(s, i, hint))
  {
    if s.consumers[i].Notifying? {
      TakenShutdown(s, i, hint);
      TakenCovers(s, i, hint);
    } else {
      TakeShutdown(s, i, hint);
      TakeCovers(s, i, hint);
    }
  }

  lemma SendInv(s: State, i: nat, hint: nat)
    requires Inv(s) && i < |s.producers| && !s.producers[i].Notifying?
    ensures Inv(ProducerStep(s, i, hint))
  {
    ProducerCounts(s.producers, i, ProducerStep(s, i, hint).producers[i]);
  }

  lemma SentInv(s: State, i: nat, hint: nat)
    requires Inv(s) && i < |s.producers| && s.producers[i].Notifying?
    ensures Inv(ProducerStep(s, i, hint))
  {
    ProducerCounts(s.producers, i, ProducerStep(s, i, hint).producers[i]);
    NotifyEmptyWakes(s, s.producers[i].must, hint);
  }

  lemma ProducerStepInv(s: State, i: nat, hint: nat)
    requires Inv(s) && i < |s.producers|
    ensures Inv(ProducerStep(s, i, hint))
  {
    if s.producers[i].Notifying? {
      SentInv(s, i, hint);
    } else {
      SendInv(s, i, hint);
    }
  }

  lemma MainStepInv(s: State)
    requires Inv(s)
    ensures Inv(MainStep(s))
  {
    var r := MainStep(s);
    if s.main == Broadcasting {
      ConsumersWokenCounts(s.consumers, r.consumers);
      CountNone(r.consumers, CAsleep);
    }
    CountNone(s.producers, PAsleep);
  }

  lemma ConsumerWakesInv(s: State, i: nat)
    requires Inv(s) && i < |s.consumers|
    ensures Inv(Step(s, ConsumerWakes(i)))
  {
    ConsumerCounts(s.consumers, i, WokenConsumer(s.consumers[i]));
  }

  lemma ProducerWakesInv(s: State, i: nat)
    requires Inv(s) && i < |s.producers|
    ensures Inv(Step(s, ProducerWakes(i)))
  {
    ProducerCounts(s.producers, i, WokenProducer(s.producers[i]));
  }

  lemma StepInv(s: State, m: Move)
    requires Inv(s)
    ensures Inv(Step(s, m))
  {
    if s.crashed || Crashes(s, m) { return; }
    match m
    case ConsumerMoves(i, hint) => if i < |s.consumers| { ConsumerStepInv(s, i, hint); }
    case ProducerMoves(i, hint) => if i < |s.producers| { ProducerStepInv(s, i, hint); }
    case MainMoves => MainStepInv(s);
    case ConsumerWakes(i) => if i < |s.consumers| { ConsumerWakesInv(s, i); }
    case ProducerWakes(i) => if i < |s.producers| { ProducerWakesInv(s, i); }
  }

  lemma InitInv(config: Config)
    ensures Inv(Init(config))
  {
    CountNone(Init(config).consumers, CAsleep);
    CountNone(Init(config).producers, PAsleep);
  }

  ghost predicate Reachable(s: State) {
    exists moves :: s == Run(Step, Init(s.config), moves)
  }

  lemma RunInv(s: State, moves: seq<Move>)
    requires Inv(s)
    ensures Inv(Run(Step, s, moves))
  {
    forall a, m | Inv(a) ensures Inv(Step(a, m)) { StepInv(a, m); }
    RunKeeps(Step, Inv, s, moves);
  }

  lemma ReachableInv(s: State)
    requires Reachable(s)
    ensures Inv(s)
  {
    var moves :| s == Run(Step, Init(s.config), moves);
    InitInv(s.config);
    RunInv(Init(s.config), moves);
  }

  /** A move of a thread that is neither asleep, nor done, nor waiting for others to finish. */
  predicate Effective(s: State, m: Move) {
    !s.crashed && match m
    case ConsumerMoves(i, _) => i < |s.consumers| && !s.consumers[i].Asleep? && !s.consumers[i].Done?
    case ProducerMoves(i, _) => i < |s.producers| && !s.producers[i].Asleep? && !s.producers[i].Done?
    case MainMoves => MainStep(s) != s
    case _ => false
  }

  predicate Ended(s: State) {
    s.main == Finished || s.crashed
  }

  /** Nobody is ever left asleep with no notification to come: until the test has ended, some thread can
      move without the help of a spurious wakeup. */
  lemma NoDeadlock(s: State)
    requires Reachable(s) && s.config.capacity >= 1 && s.config.consumers >= 1 && !Ended(s)
    ensures exists m :: Effective(s, m)
  {
    ReachableInv(s);
    SomebodyMoves(s);
  }

  lemma SomebodyMoves(s: State)
    requires Inv(s) && s.config.capacity >= 1 && s.config.consumers >= 1 && !Ended(s)
    ensures exists m :: Effective(s, m)
  {
    if forall m :: !Effective(s, m) {
      assert !Effective(s, MainMoves);
      forall i | 0 <= i < |s.consumers| ensures s.consumers[i].Asleep? || s.consumers[i].Done? {
        assert !Effective(s, ConsumerMoves(i, 0));
      }
      forall i | 0 <= i < |s.producers| ensures s.producers[i].Asleep? || s.producers[i].Done? {
        assert !Effective(s, ProducerMoves(i, 0));
      }
      CountNone(s.consumers, CReady);
      CountNone(s.consumers, CNotifying);
      CountNone(s.consumers, CMust);
      CountNone(s.consumers, CAsleep);
      CountNone(s.producers, PReady);
      CountNone(s.producers, PNotifying);
      CountNone(s.producers, PMust);
      CountNone(s.producers, PAsleep);
    }
  }

  function Unsent(messages: nat): Producer -> nat {
    (p: Producer) => match p
      case Ready(k) => if k < messages then messages - k else 0
      case Asleep(k) => if k < messages then messages - k else 0
      case Notifying(k, _) => if k + 1 < messages then messages - k - 1 else 0
      case Done => 0
  }

  function Chores(c: Consumer): nat {
    match c
    case Notifying(_, _) => 2
    case Receiving(_) => 1
    case _ => 0
  }

  function Stage(m: Main): nat {
    match m
    case JoiningProducers => 4
    case Closing => 3
    case Broadcasting => 2
    case JoiningConsumers => 1
    case Finished => 0
  }

  function Pending(s: State): nat {
    Sum(s.consumers, Chores) + CountIf(s.producers, PNotifying)
  }

  function Awake(s: State): nat {
    CountIf(s.consumers, CReady) + CountIf(s.producers, PReady)
  }

  function Running(s: State): nat {
    if s.crashed then 0 else 1
  }

  /** The moves that get the test closer to its end, compared in this order: a crash, messages sent, messages
      taken, stages of the shutdown, notifications and receipts, threads that go to sleep or end. */
  ghost predicate Closer(r: State, s: State) {
    var a, b := Sum(r.producers, Unsent(s.config.messages)), Sum(s.producers, Unsent(s.config.messages));
    || Running(r) < Running(s)
    || (Running(r) == Running(s) &&
        (|| a < b
         || (a == b && |r.queue| < |s.queue|)
         || (a == b && |r.queue| == |s.queue| && Stage(r.main) < Stage(s.main))
         || (a == b && |r.queue| == |s.queue| && Stage(r.main) == Stage(s.main) && Pending(r) < Pending(s))
         || (a == b && |r.queue| == |s.queue| && Stage(r.main) == Stage(s.main) && Pending(r) == Pending(s)
             && Awake(r) < Awake(s))))
  }

  lemma NotifyingConsumerGetsCloser(s: State, i: nat, hint: nat)
    requires Inv(s) && i < |s.consumers| && s.consumers[i].Notifying?
    ensures Closer(ConsumerStep(s, i, hint), s)
  {
    var r := ConsumerStep(s, i, hint);
    SumUpdate(s.consumers, i, r.consumers[i], Chores);
    NotifyFullWakes(s, s.consumers[i].must, hint);
    SumSame(s.producers, r.producers, Unsent(s.config.messages));
  }

  lemma ConsumerGetsCloser(s: State, i: nat, hint: nat)
    requires Inv(s) && Effective(s, ConsumerMoves(i, hint))
    ensures Closer(ConsumerStep(s, i, hint), s)
  {
    if s.consumers[i].Notifying? {
      NotifyingConsumerGetsCloser(s, i, hint);
    } else {
      var r := ConsumerStep(s, i, hint);
      SumUpdate(s.consumers, i, r.consumers[i], Chores);
      CountUpdate(s.consumers, i, r.consumers[i], CReady);
    }
  }

  lemma ProducerGetsCloser(s: State, i: nat, hint: nat)
    requires Inv(s) && Effective(s, ProducerMoves(i, hint))
    ensures Closer(ProducerStep(s, i, hint), s)
  {
    var r := ProducerStep(s, i, hint);
    SumUpdate(s.producers, i, r.producers[i], Unsent(s.config.messages));
    CountUpdate(s.producers, i, r.producers[i], PReady);
    CountUpdate(s.producers, i, r.producers[i], PNotifying);
    if s.producers[i].Notifying? {
      NotifyEmptyWakes(s, s.producers[i].must, hint);
      SumSame(s.consumers, r.consumers, Chores);
    }
  }

  lemma EffectiveMovesGetCloser(s: State, m: Move)
    requires Inv(s) && Effective(s, m)
    ensures Closer(Step(s, m), s) && Step(s, m).config == s.config
  {
    if Crashes(s, m) { return; }
    match m
    case ConsumerMoves(i, hint) => ConsumerGetsCloser(s, i, hint);
    case ProducerMoves(i, hint) => ProducerGetsCloser(s, i, hint);
    case _ =>
  }

  /** A sleeper wakes up by itself. */
  predicate Wakes(s: State, m: Move) {
    !s.crashed && match m
    case ConsumerWakes(i) => i < |s.consumers| && s.consumers[i].Asleep?
    case ProducerWakes(i) => i < |s.producers| && s.producers[i].Asleep?
    case _ => false
  }

  lemma WakingKeepsTheRest(s: State, m: Move)
    requires Wakes(s, m)
    ensures var r := Step(s, m);
      && Sum(r.producers, Unsent(s.config.messages)) == Sum(s.producers, Unsent(s.config.messages))
      && r.queue == s.queue && r.main == s.main && Pending(r) == Pending(s) && r.config == s.config && !r.crashed
  {
    var r := Step(s, m);
    SumSame(s.producers, r.producers, Unsent(s.config.messages));
    SumSame(s.consumers, r.consumers, Chores);
    CountSame(s.producers, r.producers, PNotifying);
  }

  /** While there is nothing to consume, a sleeping consumer that wakes up by itself goes back to sleep: with no
      bound on such wakeups a run need not end. */
  lemma WakeupsCanCycle(s: State, i: nat)
    requires i < |s.consumers| && s.consumers[i].Asleep? && s.shouldContinue && s.queue == [] && !s.crashed
    ensures Wakes(s, ConsumerWakes(i)) && Step(s, ConsumerWakes(i)).consumers[i].Ready?
    ensures Run(Step, s, [ConsumerWakes(i), ConsumerMoves(i, 0)]) == s
  {
    var moves := [ConsumerWakes(i), ConsumerMoves(i, 0)];
    assert moves[..1] == [ConsumerWakes(i)] && moves[..1][..0] == [];
    var awake := Step(s, ConsumerWakes(i));
    assert Run(Step, s, moves[..1]) == awake;
    assert awake.consumers[i := Consumer.Asleep] == s.consumers;
  }

  /** And so does a sleeping producer while there is no room. */
  lemma ProducerWakeupsCanCycle(s: State, i: nat)
    requires i < |s.producers| && s.producers[i].Asleep? && |s.queue| >= s.config.capacity && !s.crashed
    ensures Wakes(s, ProducerWakes(i)) && Step(s, ProducerWakes(i)).producers[i] == Producer.Ready(s.producers[i].next)
    ensures Run(Step, s, [ProducerWakes(i), ProducerMoves(i, 0)]) == s
  {
    var moves := [ProducerWakes(i), ProducerMoves(i, 0)];
    assert moves[..1] == [ProducerWakes(i)] && moves[..1][..0] == [];
    var awake := Step(s, ProducerWakes(i));
    assert Run(Step, s, moves[..1]) == awake;
    assert awake.producers[i := Producer.Asleep(s.producers[i].next)] == s.producers;
  }

  /** A consumer takes the first message and then notifies: with NotifyAll every sleeping producer if the queue was
      full, and nobody otherwise; with NotifyOne one sleeping producer, whichever it may be. */
  lemma ConsumerNotifies(s: State, i: nat, hint: nat)
    requires !s.crashed && i < |s.consumers| && s.consumers[i].Ready? && s.queue != []
    ensures var r := Step(Step(s, ConsumerMoves(i, hint)), ConsumerMoves(i, hint));
      && r.queue == s.queue[1..] && r.consumers == s.consumers[i := Receiving(s.queue[0])]
      && |r.producers| == |s.producers|
      && match s.config.policy
         case NotifyAll => forall j :: 0 <= j < |s.producers| ==>
           r.producers[j] == if s.producers[j].Asleep? && |s.queue| == s.config.capacity
                             then Producer.Ready(s.producers[j].next) else s.producers[j]
         case NotifyOne =>
           if forall p <- s.producers :: !p.Asleep? then r.producers == s.producers
           else exists k :: (0 <= k < |s.producers| && s.producers[k].Asleep?
             && r.producers == s.producers[k := Producer.Ready(s.producers[k].next)]
             && (hint < |s.producers| && s.producers[hint].Asleep? ==> k == hint))
  {
    var k: nat := PickProducer(s.producers, hint);
    assert k < |s.producers| ==> s.producers[k] in s.producers;
  }

  /** A producer appends and then notifies: with NotifyAll every sleeping consumer if the queue was empty, and nobody
      otherwise; with NotifyOne one sleeping consumer, whichever it may be. */
  lemma ProducerNotifies(s: State, i: nat, hint: nat)
    requires !s.crashed && i < |s.producers| && s.producers[i].Ready?
    requires |s.queue| < s.config.capacity && |s.queue| != LARGEST - 1
    ensures var r, next := Step(Step(s, ProducerMoves(i, hint)), ProducerMoves(i, hint)), s.producers[i].next + 1;
      && r.queue == s.queue + [s.producers[i].next]
      && r.producers == s.producers[i := if next < s.config.messages then Producer.Ready(next) else Producer.Done]
      && |r.consumers| == |s.consumers|
      && match s.config.policy
         case NotifyAll => forall j :: 0 <= j < |s.consumers| ==>
           r.consumers[j] == if s.consumers[j].Asleep? && s.queue == [] then Consumer.Ready else s.consumers[j]
         case NotifyOne =>
           if forall c <- s.consumers :: !c.Asleep? then r.consumers == s.consumers
           else exists k :: (0 <= k < |s.consumers| && s.consumers[k].Asleep?
             && r.consumers == s.consumers[k := Consumer.Ready]
             && (hint < |s.consumers| && s.consumers[hint].Asleep? ==> k == hint))
  {
    var k: nat := PickConsumer(s.consumers, hint);
    assert k < |s.consumers| ==> s.consumers[k] in s.consumers;
  }

  function After(config: Config, moves: seq<Move>): State {
    Run(Step, Init(config), moves)
  }

  /** What a scheduler may ask for when this many spurious wakeups are left to it. */
  predicate MayMove(s: State, m: Move, wakeups: nat) {
    Effective(s, m) || (wakeups > 0 && Wakes(s, m))
  }

  function Left(s: State, m: Move, wakeups: nat): nat {
    if wakeups > 0 && Wakes(s, m) then wakeups - 1 else wakeups
  }

  /** From this point on, every move is one that may be made, and the one that the scheduler asks for if that may be
      made. */
  ghost predicate Obeys(config: Config, from: nat, moves: seq<Move>, scheduler: seq<Move> -> Move, wakeups: nat)
    requires from <= |moves|
    decreases |moves| - from
  {
    from < |moves| ==>
      var s, asked := After(config, moves[..from]), scheduler(moves[..from]);
      && MayMove(s, moves[from], wakeups)
      && (MayMove(s, asked, wakeups) ==> moves[from] == asked)
      && Obeys(config, from + 1, moves, scheduler, Left(s, moves[from], wakeups))
  }

  /** The move of the scheduler or, where that cannot be made, of some thread that can move. */
  ghost function Next(config: Config, moves: seq<Move>, scheduler: seq<Move> -> Move, wakeups: nat): (m: Move)
    requires config.capacity >= 1 && config.consumers >= 1 && !Ended(After(config, moves))
    ensures MayMove(After(config, moves), m, wakeups)
    ensures MayMove(After(config, moves), scheduler(moves), wakeups) ==> m == scheduler(moves)
  {
    var s := After(config, moves);
    RunConfig(config, moves);
    ReachableInv(s);
    SomebodyMoves(s);
    var m :| MayMove(s, m, wakeups) && (MayMove(s, scheduler(moves), wakeups) ==> m == scheduler(moves));
    m
  }

  /** The test run to its end by any scheduler, which sees the whole run so far, and which may use so many spurious
      wakeups, wherever it likes. Such a run always ends, with the test finished or in a crash. */
  ghost function Complete(config: Config, moves: seq<Move>, scheduler: seq<Move> -> Move, wakeups: nat)
    : (all: seq<Move>)
    requires config.capacity >= 1 && config.consumers >= 1
    ensures moves <= all && Ended(After(config, all))
    decreases Running(After(config, moves)), Sum(After(config, moves).producers, Unsent(config.messages)),
              |After(config, moves).queue|, Stage(After(config, moves).main), Pending(After(config, moves)), wakeups,
              Awake(After(config, moves))
  {
    if Ended(After(config, moves)) then moves else
    var m := Next(config, moves, scheduler, wakeups);
    Approach(config, moves, m);
    Complete(config, moves + [m], scheduler, Left(After(config, moves), m, wakeups))
  }

  /** The run is the scheduler's own: wherever it asks for a move that may be made, that is the next move. */
  lemma {:induction false} CompleteObeys(config: Config, moves: seq<Move>, scheduler: seq<Move> -> Move, wakeups: nat)
    requires config.capacity >= 1 && config.consumers >= 1
    ensures Obeys(config, |moves|, Complete(config, moves, scheduler, wakeups), scheduler, wakeups)
    decreases Running(After(config, moves)), Sum(After(config, moves).producers, Unsent(config.messages)),
              |After(config, moves).queue|, Stage(After(config, moves).main), Pending(After(config, moves)), wakeups,
              Awake(After(config, moves))
  {
    if !Ended(After(config, moves)) {
      var m := Next(config, moves, scheduler, wakeups);
      Approach(config, moves, m);
      CompleteObeys(config, moves + [m], scheduler, Left(After(config, moves), m, wakeups));
      var all := Complete(config, moves, scheduler, wakeups);
      assert moves + [m] <= all;
      assert all[..|moves|] == moves && all[|moves|] == m;
    }
  }

  lemma StepConfig(s: State, m: Move)
    ensures Step(s, m).config == s.config
  {
  }

  lemma {:induction false} RunConfig(config: Config, moves: seq<Move>)
    ensures After(config, moves).config == config && Reachable(After(config, moves))
  {
    if moves != [] {
      var front := moves[..|moves| - 1];
      RunConfig(config, front);
      StepConfig(After(config, front), moves[|moves| - 1]);
    }
    assert After(config, moves) == Run(Step, Init(config), moves);
  }

  lemma Approach(config: Config, moves: seq<Move>, m: Move)
    ensures After(config, moves + [m]) == Step(After(config, moves), m) && After(config, moves).config == config
    ensures Effective(After(config, moves), m) ==> Closer(After(config, moves + [m]), After(config, moves))
    ensures Wakes(After(config, moves), m) ==>
      var r, s := After(config, moves + [m]), After(config, moves);
      && Sum(r.producers, Unsent(config.messages)) == Sum(s.producers, Unsent(config.messages))
      && |r.queue| == |s.queue| && Stage(r.main) == Stage(s.main) && Pending(r) == Pending(s)
      && Running(r) == Running(s)
  {
    RunAppend(Step, Init(config), moves, m);
    RunConfig(config, moves);
    ReachableInv(After(config, moves));
    if Effective(After(config, moves), m) { EffectiveMovesGetCloser(After(config, moves), m); }
    if Wakes(After(config, moves), m) { WakingKeepsTheRest(After(config, moves), m); }
  }

  predicate Carries(c: Consumer, v: nat) {
    (c.Notifying? || c.Receiving?) && c.result == v
  }

  function Carrying(v: nat): Consumer -> bool {
    c => Carries(c, v)
  }

  predicate HasSent(p: Producer, v: nat, messages: nat) {
    match p
    case Ready(k) => v < k
    case Asleep(k) => v < k
    case Notifying(k, _) => v <= k
    case Done => v < messages
  }

  function Senders(v: nat, messages: nat): Producer -> bool {
    p => HasSent(p, v, messages)
  }

  /** Every message that a producer has sent is in the queue, in the hands of a consumer, or received. */
  ghost predicate Conserved(s: State, v: nat) {
    Count(s.received, v) + Count(s.queue, v) + CountIf(s.consumers, Carrying(v))
    == CountIf(s.producers, Senders(v, s.config.messages))
  }

  lemma WokenCarry(a: seq<Consumer>, b: seq<Consumer>, v: nat)
    requires |a| == |b| && forall i :: 0 <= i < |a| ==> b[i] == a[i] || b[i] == WokenConsumer(a[i])
    ensures CountIf(b, Carrying(v)) == CountIf(a, Carrying(v))
  {
    CountSame(a, b, Carrying(v));
  }

  lemma WokenSent(a: seq<Producer>, b: seq<Producer>, v: nat, messages: nat)
    requires |a| == |b| && forall i :: 0 <= i < |a| ==> b[i] == a[i] || b[i] == WokenProducer(a[i])
    ensures CountIf(b, Senders(v, messages)) == CountIf(a, Senders(v, messages))
  {
    CountSame(a, b, Senders(v, messages));
  }

  lemma TakeConserves(s: State, i: nat, hint: nat, v: nat)
    requires Conserved(s, v) && i < |s.consumers| && s.consumers[i].Ready?
    ensures Conserved(ConsumerStep(s, i, hint), v)
  {
    var r := ConsumerStep(s, i, hint);
    CountUpdate(s.consumers, i, r.consumers[i], Carrying(v));
  }

  lemma TakenConserves(s: State, i: nat, hint: nat, v: nat)
    requires Conserved(s, v) && i < |s.consumers| && s.consumers[i].Notifying?
    ensures Conserved(ConsumerStep(s, i, hint), v)
  {
    var r := ConsumerStep(s, i, hint);
    CountUpdate(s.consumers, i, r.consumers[i], Carrying(v));
    WokenSent(s.producers, r.producers, v, s.config.messages);
  }

  lemma ReceiveConserves(s: State, i: nat, hint: nat, v: nat)
    requires Conserved(s, v) && i < |s.consumers| && s.consumers[i].Receiving?
    ensures Conserved(ConsumerStep(s, i, hint), v)
  {
    CountUpdate(s.consumers, i, ConsumerStep(s, i, hint).consumers[i], Carrying(v));
    CountAppend(s.received, [s.consumers[i].result], v);
  }

  lemma SendConserves(s: State, i: nat, hint: nat, v: nat)
    requires Conserved(s, v) && i < |s.producers| && s.producers[i].Ready?
    ensures Conserved(ProducerStep(s, i, hint), v)
  {
    CountUpdate(s.producers, i, ProducerStep(s, i, hint).producers[i], Senders(v, s.config.messages));
    CountAppend(s.queue, [s.producers[i].next], v);
  }

  lemma SentConserves(s: State, i: nat, hint: nat, v: nat)
    requires Conserved(s, v) && i < |s.producers| && s.producers[i].Notifying?
    requires s.producers[i].next < s.config.messages
    ensures Conserved(ProducerStep(s, i, hint), v)
  {
    var r := ProducerStep(s, i, hint);
    CountUpdate(s.producers, i, r.producers[i], Senders(v, s.config.messages));
    WokenCarry(s.consumers, r.consumers, v);
  }

  lemma ConsumerStepConserves(s: State, i: nat, hint: nat, v: nat)
    requires Conserved(s, v) && i < |s.consumers|
    ensures Conserved(ConsumerStep(s, i, hint), v)
  {
    match s.consumers[i]
    case Ready => TakeConserves(s, i, hint, v);
    case Notifying(_, _) => TakenConserves(s, i, hint, v);
    case Receiving(_) => ReceiveConserves(s, i, hint, v);
    case _ =>
  }

  lemma ProducerStepConserves(s: State, i: nat, hint: nat, v: nat)
    requires Inv(s) && Conserved(s, v) && i < |s.producers|
    ensures Conserved(ProducerStep(s, i, hint), v)
  {
    match s.producers[i]
    case Ready(_) => SendConserves(s, i, hint, v);
    case Notifying(_, _) => SentConserves(s, i, hint, v);
    case _ =>
  }

  lemma MainStepConserves(s: State, v: nat)
    requires Conserved(s, v)
    ensures Conserved(MainStep(s), v)
  {
    if s.main == Broadcasting { WokenCarry(s.consumers, WakeAllConsumers(s.consumers), v); }
  }

  lemma ConsumerWakesConserves(s: State, i: nat, v: nat)
    requires Conserved(s, v) && i < |s.consumers|
    ensures Conserved(s.(consumers := s.consumers[i := WokenConsumer(s.consumers[i])]), v)
  {
    CountUpdate(s.consumers, i, WokenConsumer(s.consumers[i]), Carrying(v));
  }

  lemma ProducerWakesConserves(s: State, i: nat, v: nat)
    requires Conserved(s, v) && i < |s.producers|
    ensures Conserved(s.(producers := s.producers[i := WokenProducer(s.producers[i])]), v)
  {
    CountUpdate(s.producers, i, WokenProducer(s.producers[i]), Senders(v, s.config.messages));
  }

  lemma StepConserves(s: State, m: Move, v: nat)
    requires Inv(s) && Conserved(s, v)
    ensures Conserved(Step(s, m), v)
  {
    if s.crashed || Crashes(s, m) { return; }
    match m
    case ConsumerMoves(i, hint) => if i < |s.consumers| { ConsumerStepConserves(s, i, hint, v); }
    case ProducerMoves(i, hint) => if i < |s.producers| { ProducerStepConserves(s, i, hint, v); }
    case MainMoves => MainStepConserves(s, v);
    case ConsumerWakes(i) => if i < |s.consumers| { ConsumerWakesConserves(s, i, v); }
    case ProducerWakes(i) => if i < |s.producers| { ProducerWakesConserves(s, i, v); }
  }

  lemma {:induction false} RunConserves(config: Config, moves: seq<Move>, v: nat)
    ensures Conserved(Run(Step, Init(config), moves), v)
  {
    if moves == [] {
      CountNone(Init(config).consumers, Carrying(v));
      CountNone(Init(config).producers, Senders(v, config.messages));
    } else {
      var front := moves[..|moves| - 1];
      RunConserves(config, front, v);
      InitInv(config);
      RunInv(Init(config), front);
      StepConserves(Run(Step, Init(config), front), moves[|moves| - 1], v);
    }
  }

  /** In every run that finishes each message index is received exactly once from each producer. */
  lemma FinishedReceivedEverything(s: State, v: nat)
    requires Reachable(s) && s.main == Finished && s.config.consumers >= 1
    ensures multiset(s.received)[v] == if v < s.config.messages then s.config.producers else 0
  {
    var moves :| s == Run(Step, Init(s.config), moves);
    RunConserves(s.config, moves, v);
    CountIsMultiplicity(s.received, v);
    ReachableInv(s);
    CountNone(s.consumers, Carrying(v));
    assert s.consumers[0].Done?;
    if v < s.config.messages {
      CountAll(s.producers, Senders(v, s.config.messages));
    } else {
      CountNone(s.producers, Senders(v, s.config.messages));
    }
  }
}
