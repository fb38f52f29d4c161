/** AutomaticThread: a worker whose underlying thread goes away when it is idle and comes back when somebody
    notifies its condition. Every access to the flags happens under one lock, so a move is one region between
    two releases of that lock. */
module AutomaticThreads {

  import opened Schedules

  datatype PollResult = Work | Stop | Wait

  /** Where an underlying thread is while it does not hold the lock. */
  datatype Body =
    | Ready       // about to take the lock and poll: just created, or work() said Continue
    | Asleep      // in the timed wait
    | Awoken      // out of the timed wait, about to take the lock
    | Working     // in work()
    | Quitting    // work() said Stop, about to take the lock

  /** registered: still in the m_threads of the condition. bodies: the underlying threads inside their loop. */
  datatype Thread = Thread(registered: bool, isRunning: bool, isWaiting: bool, hasUnderlyingThread: bool,
                           bodies: seq<Body>)

  const NEW_THREAD := Thread(true, true, false, false, [])

  predicate IsWaiting(t: Thread) {
    t.hasUnderlyingThread && t.isWaiting
  }

  /** What Condition::notifyOne does to the bodies in the wait: the first sleeper wakes up. */
  function WakeOne(bodies: seq<Body>): seq<Body> {
    if bodies == [] then []
    else if bodies[0] == Asleep then [Awoken] + bodies[1..]
    else [bodies[0]] + WakeOne(bodies[1..])
  }

  function Notified(t: Thread): Thread {
    t.(isWaiting := false, bodies := WakeOne(t.bodies))
  }

  function Started(t: Thread): Thread {
    t.(hasUnderlyingThread := true, bodies := t.bodies + [Ready])
  }

  function TryStopped(t: Thread): Thread {
    if t.isRunning && !t.hasUnderlyingThread then t.(isRunning := false) else t
  }

  /** The first index with a registered thread that p accepts, or the length. */
  function First(ts: seq<Thread>, p: Thread -> bool): (k: nat)
    ensures k <= |ts|
    ensures k < |ts| ==> ts[k].registered && p(ts[k])
    ensures forall i :: 0 <= i < k ==> !(ts[i].registered && p(ts[i]))
  {
    if ts == [] then 0 else if ts[0].registered && p(ts[0]) then 0 else 1 + First(ts[1..], p)
  }

  predicate IsDormant(t: Thread) {
    !t.hasUnderlyingThread
  }

  function NotifiedOne(ts: seq<Thread>): (r: seq<Thread>)
    ensures |r| == |ts|
  {
    var waiting := First(ts, IsWaiting);
    if waiting < |ts| then ts[waiting := Notified(ts[waiting])] else
    var dormant := First(ts, IsDormant);
    if dormant < |ts| then ts[dormant := Started(ts[dormant])] else ts
  }

  /** start() asserts that the thread has not stopped for good. */
  predicate NotifyOneAsserts(ts: seq<Thread>) {
    var dormant := First(ts, IsDormant);
    First(ts, IsWaiting) == |ts| && dormant < |ts| && !ts[dormant].isRunning
  }

  function NotifiedBySweep(t: Thread): Thread {
    if !t.registered then t else if IsWaiting(t) then Notified(t) else if IsDormant(t) then Started(t) else t
  }

  function NotifiedAll(ts: seq<Thread>): seq<Thread> {
    seq(|ts|, i requires 0 <= i < |ts| => NotifiedBySweep(ts[i]))
  }

  predicate NotifyAllAsserts(ts: seq<Thread>) {
    exists i :: 0 <= i < |ts| && ts[i].registered && IsDormant(ts[i]) && !ts[i].isRunning
  }

  function WithoutBody(t: Thread, k: nat): Thread
    requires k < |t.bodies|
  {
    t.(hasUnderlyingThread := false, bodies := t.bodies[..k] + t.bodies[k + 1..])
  }

  function Polled(t: Thread, k: nat, answer: PollResult): Thread
    requires k < |t.bodies|
  {
    match answer
    case Work => t.(bodies := t.bodies[k := Working])
    case Stop => WithoutBody(t.(isRunning := false), k)
    case Wait => t.(isWaiting := true, bodies := t.bodies[k := Asleep])
  }

  /** The answers that the subclass gives in a region, should it be asked. */
  datatype Answers = Answers(poll: PollResult, workContinues: bool, shouldSleep: bool)

  predicate StopsForTimeout(t: Thread, k: nat, a: Answers) {
    k < |t.bodies| && t.bodies[k] == Awoken && t.isWaiting && a.shouldSleep
  }

  predicate Polls(t: Thread, k: nat, a: Answers) {
    k < |t.bodies| && (t.bodies[k] == Ready || (t.bodies[k] == Awoken && !StopsForTimeout(t, k, a)))
  }

  function BodyMoved(t: Thread, k: nat, a: Answers): Thread {
    if k >= |t.bodies| then t
    else if StopsForTimeout(t, k, a) then WithoutBody(t.(isWaiting := false), k)
    else if Polls(t, k, a) then Polled(t, k, a.poll)
    else match t.bodies[k]
      case Working => t.(bodies := t.bodies[k := if a.workContinues then Ready else Quitting])
      case Quitting => WithoutBody(t.(isRunning := false), k)
      case _ => t
  }

  /** crashed: the assertion in start() has failed. */
  datatype State = State(threads: seq<Thread>, crashed: bool)

  datatype Move =
    | Create
    | Destroy(thread: nat)                          // only without a body, which holds a reference
    | NotifyOne
    | NotifyAll
    | Notify(thread: nat)                           // past the condition; a thread without a body has nobody to wake
    | TryStop(thread: nat)
    | WaitEnds(thread: nat, body: nat)              // the timeout, or a spurious wakeup
    | BodyMoves(thread: nat, body: nat, answers: Answers)

  const INIT := State([], false)

  function OnThread(s: State, i: nat, t: Thread): State
    requires i < |s.threads|
  {
    s.(threads := s.threads[i := t])
  }

  function Step(s: State, m: Move): (r: State) {
    if s.crashed then s else
    match m
    case Create => s.(threads := s.threads + [NEW_THREAD])
    case Destroy(i) =>
      if i < |s.threads| && s.threads[i].bodies == [] then OnThread(s, i, s.threads[i].(registered := false)) else s
    case NotifyOne =>
      if NotifyOneAsserts(s.threads) then s.(crashed := true) else s.(threads := NotifiedOne(s.threads))
    case NotifyAll =>
      if NotifyAllAsserts(s.threads) then s.(crashed := true) else s.(threads := NotifiedAll(s.threads))
    case Notify(i) =>
      if i < |s.threads| then OnThread(s, i, Notified(s.threads[i])) else s
    case TryStop(i) =>
      if i < |s.threads| then OnThread(s, i, TryStopped(s.threads[i])) else s
    case WaitEnds(i, k) =>
      if i < |s.threads| && k < |s.threads[i].bodies| && s.threads[i].bodies[k] == Asleep then
        OnThread(s, i, s.threads[i].(bodies := s.threads[i].bodies[k := Awoken]))
      else s
    case BodyMoves(i, k, answers) =>
      if i < |s.threads| then OnThread(s, i, BodyMoved(s.threads[i], k, answers)) else s
  }

  /** One body at most, exactly when the flag says so, and none after the thread has stopped for good.
      A sleeping body is always announced by its flag. */
  ghost predicate ThreadOk(t: Thread) {
    && |t.bodies| == (if t.hasUnderlyingThread then 1 else 0)
    && (!t.isRunning ==> !t.hasUnderlyingThread)
    && (Asleep in t.bodies ==> t.isWaiting)
    && (t.hasUnderlyingThread ==> t.registered)
  }

  ghost predicate Inv(s: State) {
    forall t <- s.threads :: ThreadOk(t)
  }

  lemma BodyMovedOk(t: Thread, k: nat, a: Answers)
    requires ThreadOk(t)
    ensures ThreadOk(BodyMoved(t, k, a)) && (!t.isRunning ==> BodyMoved(t, k, a) == t)
  {
    if t.bodies != [] {
      assert t.bodies == [t.bodies[0]];
      assert Asleep in t.bodies <==> t.bodies[0] == Asleep;
    }
  }

  /** No move starts a second body, leaves a body to a stopped thread, or lets a stopped thread run again. */
  lemma StepThread(s: State, m: Move, i: nat)
    requires i < |s.threads| && ThreadOk(s.threads[i])
    ensures |Step(s, m).threads| >= |s.threads|
    ensures ThreadOk(Step(s, m).threads[i])
    ensures !s.threads[i].isRunning ==> !Step(s, m).threads[i].isRunning
  {
    var t := s.threads[i];
    if m.BodyMoves? {
      BodyMovedOk(t, m.body, m.answers);
    } else if m.NotifyOne? || m.NotifyAll? || m.Notify? {
      StepNotified(s, m, i);
    } else {
      assert Asleep in t.bodies ==> t.bodies == [Asleep];
    }
  }

  lemma StepNotified(s: State, m: Move, i: nat)
    requires i < |s.threads| && ThreadOk(s.threads[i]) && (m.NotifyOne? || m.NotifyAll? || m.Notify?)
    ensures |Step(s, m).threads| == |s.threads|
    ensures ThreadOk(Step(s, m).threads[i]) && Step(s, m).threads[i].isRunning == s.threads[i].isRunning
  {
    var t := s.threads[i];
    assert m.NotifyAll? && !NotifyAllAsserts(s.threads) && t.registered && IsDormant(t) ==> t.isRunning;
    NotifiedIsAwake(t);
  }

  lemma NotifiedIsAwake(t: Thread)
    requires ThreadOk(t)
    ensures ThreadOk(Notified(t)) && Asleep !in Notified(t).bodies
  {
    if t.bodies != [] {
      assert WakeOne(t.bodies[1..]) == [];
      assert WakeOne(t.bodies) == (if t.bodies[0] == Asleep then [Awoken] else [t.bodies[0]]);
    }
  }

  lemma StepInv(s: State, m: Move)
    requires Inv(s)
    ensures Inv(Step(s, m))
  {
    forall i | 0 <= i < |Step(s, m).threads| ensures ThreadOk(Step(s, m).threads[i]) {
      if i < |s.threads| { StepThread(s, m, i); }
    }
  }

  ghost predicate Reachable(s: State) {
    exists moves :: s == Run(Step, INIT, moves)
  }

  lemma RunInv(s: State, moves: seq<Move>)
    requires Inv(s)
    ensures Inv(Run(Step, s, moves))
  {
    forall a, m | Inv(a) ensures Inv(Step(a, m)) { StepInv(a, m); }
    RunKeeps(Step, Inv, s, moves);
  }

  /** Two underlying threads are never in the loop of one AutomaticThread, and once isRunning is false,
      which is what join() waits for, there is none. */
  lemma ReachableIsSafe(s: State, i: nat)
    requires Reachable(s) && i < |s.threads|
    ensures |s.threads[i].bodies| == if s.threads[i].hasUnderlyingThread then 1 else 0
    ensures !s.threads[i].isRunning ==> s.threads[i].bodies == []
    ensures s.threads[i].bodies != [] ==> s.threads[i].registered
  {
    var moves :| s == Run(Step, INIT, moves);
    RunInv(INIT, moves);
    assert ThreadOk(s.threads[i]);
  }

  /** A thread that has stopped for good never runs again, whatever anybody does. */
  lemma {:induction false} StoppedForGood(s: State, moves: seq<Move>, i: nat)
    requires Reachable(s) && i < |s.threads| && !s.threads[i].isRunning
    ensures var r := Run(Step, s, moves);
      i < |r.threads| && !r.threads[i].isRunning && r.threads[i].bodies == []
  {
    var before :| s == Run(Step, INIT, before);
    RunInv(INIT, before);
    RunInv(s, moves);
    if moves == [] {
      assert ThreadOk(s.threads[i]);
    } else {
      StoppedForGood(s, moves[..|moves| - 1], i);
      RunInv(s, moves[..|moves| - 1]);
      StepThread(Run(Step, s, moves[..|moves| - 1]), moves[|moves| - 1], i);
    }
  }

  /** Nothing in this run tells thread i to stop: poll() and work() never say so, and tryStop() is called only while
      the thread has an underlying thread. */
  ghost predicate NeverToldToStop(moves: seq<Move>, i: nat) {
    forall k :: 0 <= k < |moves| ==>
      match moves[k]
      case BodyMoves(j, _, answers) => j == i ==> answers.poll != Stop && answers.workContinues
      case TryStop(j) =>
        var s := Run(Step, INIT, moves[..k]);
        j == i < |s.threads| ==> s.threads[i].hasUnderlyingThread
      case _ => true
  }

  ghost predicate KeepsRunning(t: Thread) {
    t.isRunning && Quitting !in t.bodies
  }

  lemma BodyKeepsRunning(t: Thread, k: nat, a: Answers)
    requires ThreadOk(t) && KeepsRunning(t) && a.poll != Stop && a.workContinues
    ensures KeepsRunning(BodyMoved(t, k, a))
  {
    if t.bodies != [] {
      assert t.bodies == [t.bodies[0]] && t.bodies[0] in t.bodies;
    }
  }

  lemma WakingQuitsNobody(bodies: seq<Body>)
    requires Quitting !in bodies
    ensures Quitting !in WakeOne(bodies)
  {
    if bodies != [] { assert bodies[0] in bodies; }
  }

  lemma StepKeepsRunning(s: State, m: Move, i: nat)
    requires i < |s.threads| && ThreadOk(s.threads[i]) && KeepsRunning(s.threads[i])
    requires m.BodyMoves? && m.thread == i ==> m.answers.poll != Stop && m.answers.workContinues
    requires m == TryStop(i) ==> s.threads[i].hasUnderlyingThread
    ensures |Step(s, m).threads| >= |s.threads| && KeepsRunning(Step(s, m).threads[i])
  {
    if m.BodyMoves? {
      if m.thread == i { BodyKeepsRunning(s.threads[i], m.body, m.answers); }
    } else {
      WakingQuitsNobody(s.threads[i].bodies);
    }
  }

  /** A thread goes on for good as long as neither poll() nor work() says Stop and nobody stops it while it has no
      underlying thread. */
  lemma {:induction false} RunsOnUnlessTold(moves: seq<Move>, i: nat)
    requires NeverToldToStop(moves, i)
    ensures var s := Run(Step, INIT, moves); i < |s.threads| ==> KeepsRunning(s.threads[i])
  {
    if moves != [] {
      var front := moves[..|moves| - 1];
      assert forall k :: 0 <= k < |front| ==> front[..k] == moves[..k];
      RunsOnUnlessTold(front, i);
      RunInv(INIT, front);
      var s := Run(Step, INIT, front);
      assert moves[|moves| - 1] == TryStop(i) && i < |s.threads| ==> s.threads[i].hasUnderlyingThread;
      if i < |s.threads| {
        StepKeepsRunning(s, moves[|moves| - 1], i);
      } else {
        ThreadsRemain(s, moves[|moves| - 1]);
      }
    }
  }

  /** A destroyed thread, which no underlying thread was running, is not started again, whatever anybody does. */
  lemma {:induction false} DestroyedStaysGone(s: State, i: nat, moves: seq<Move>)
    requires Reachable(s) && !s.crashed && i < |s.threads| && s.threads[i].bodies == []
    ensures var r := Run(Step, Step(s, Destroy(i)), moves);
      i < |r.threads| && !r.threads[i].registered && r.threads[i].bodies == []
  {
    var before :| s == Run(Step, INIT, before);
    RunInv(INIT, before);
    var gone := Step(s, Destroy(i));
    StepInv(s, Destroy(i));
    RunInv(gone, moves);
    if moves == [] {
      assert ThreadOk(s.threads[i]);
    } else {
      var front := moves[..|moves| - 1];
      DestroyedStaysGone(s, i, front);
      RunInv(gone, front);
      ThreadsRemain(Run(Step, gone, front), moves[|moves| - 1]);
      UnregisteredStaysOut(Run(Step, gone, front), moves[|moves| - 1], i);
    }
  }

  lemma UnregisteredStaysOut(s: State, m: Move, i: nat)
    requires i < |s.threads| && !s.threads[i].registered && s.threads[i].bodies == []
    ensures i < |Step(s, m).threads|
    ensures !Step(s, m).threads[i].registered && Step(s, m).threads[i].bodies == []
  {
  }

  /** Does this notification choose thread i, because it waits or has no underlying thread, or is it meant for it? */
  predicate Chooses(s: State, m: Move, i: nat) {
    && i < |s.threads|
    && match m
       case NotifyOne =>
         var waiting := First(s.threads, IsWaiting);
         i == if waiting < |s.threads| then waiting else First(s.threads, IsDormant)
       case NotifyAll => s.threads[i].registered && (IsWaiting(s.threads[i]) || IsDormant(s.threads[i]))
       case Notify(k) => i == k && s.threads[i].hasUnderlyingThread
       case _ => false
  }

  predicate PollsAt(s: State, m: Move, i: nat) {
    !s.crashed && m.BodyMoves? && m.thread == i && i < |s.threads| && Polls(s.threads[i], m.body, m.answers)
  }

  predicate TimesOutAt(s: State, m: Move, i: nat) {
    !s.crashed && m.BodyMoves? && m.thread == i && i < |s.threads| && StopsForTimeout(s.threads[i], m.body, m.answers)
  }

  ghost predicate NeverPolls(s: State, moves: seq<Move>, i: nat) {
    forall k :: 0 <= k < |moves| ==> !PollsAt(Run(Step, s, moves[..k]), moves[k], i)
  }

  /** The thread has one body, which is awake and has to poll, or to stop for good, before it may sleep. */
  ghost predicate IsAlert(t: Thread) {
    t.bodies != [] && t.bodies[0] != Asleep && (t.bodies[0] == Awoken ==> !t.isWaiting)
  }

  lemma ChosenIsAlert(s: State, m: Move, i: nat)
    requires Inv(s) && Chooses(s, m, i) && !Step(s, m).crashed
    ensures IsAlert(Step(s, m).threads[i])
  {
    var t := s.threads[i];
    assert ThreadOk(t);
    NotifiedIsAwake(t);
    assert t.hasUnderlyingThread ==> IsAlert(Notified(t)) by {
      assert t.hasUnderlyingThread ==> Notified(t).bodies != [] && Notified(t).bodies[0] in Notified(t).bodies;
    }
    assert IsDormant(t) ==> Started(t).bodies == [Ready];
  }

  lemma StaysAlert(s: State, m: Move, i: nat)
    requires Inv(s) && i < |s.threads| && !PollsAt(s, m, i)
    requires IsAlert(s.threads[i]) || !s.threads[i].isRunning
    ensures var r := Step(s, m);
      i < |r.threads| && (IsAlert(r.threads[i]) || !r.threads[i].isRunning)
  {
    var t := s.threads[i];
    assert ThreadOk(t);
    StepThread(s, m, i);
    NotifiedIsAwake(t);
    if IsAlert(t) {
      assert t.bodies == [t.bodies[0]];
      assert WakeOne(t.bodies) == t.bodies by { assert WakeOne(t.bodies[1..]) == []; }
    }
  }

  /** No notification is lost. Let a notification choose thread i in a reachable state, and let anything
      happen after it except that thread i polls: other notifications, timeouts and wakeups in any order,
      and any answers of any subclass. Then thread i has not stopped for timeout and cannot do so next: its
      body is awake on its way to poll(), unless the thread has stopped for good. */
  lemma {:induction false} NotificationIsNotLost(s: State, n: Move, i: nat, moves: seq<Move>)
    requires Reachable(s) && Chooses(s, n, i) && !Step(s, n).crashed
    requires NeverPolls(Step(s, n), moves, i)
    ensures var r := Run(Step, Step(s, n), moves);
      && i < |r.threads|
      && (IsAlert(r.threads[i]) || (!r.threads[i].isRunning && r.threads[i].bodies == []))
      && forall m :: !TimesOutAt(r, m, i)
  {
    var before :| s == Run(Step, INIT, before);
    RunInv(INIT, before);
    StepInv(s, n);
    RunInv(Step(s, n), moves);
    ChosenIsAlert(s, n, i);
    AlertUntilPoll(Step(s, n), i, moves);
    AlertCannotTimeOut(Run(Step, Step(s, n), moves), i);
  }

  lemma AlertCannotTimeOut(s: State, i: nat)
    requires Inv(s) && i < |s.threads| && (IsAlert(s.threads[i]) || !s.threads[i].isRunning)
    ensures IsAlert(s.threads[i]) || (!s.threads[i].isRunning && s.threads[i].bodies == [])
    ensures forall m :: !TimesOutAt(s, m, i)
  {
    assert ThreadOk(s.threads[i]);
  }

  lemma {:induction false} AlertUntilPoll(s: State, i: nat, moves: seq<Move>)
    requires Inv(s) && i < |s.threads| && IsAlert(s.threads[i]) && NeverPolls(s, moves, i)
    ensures var r := Run(Step, s, moves);
      i < |r.threads| && (IsAlert(r.threads[i]) || !r.threads[i].isRunning)
  {
    if moves != [] {
      var front := moves[..|moves| - 1];
      assert forall k :: 0 <= k < |front| ==> front[..k] == moves[..k];
      AlertUntilPoll(s, i, front);
      RunInv(s, front);
      StaysAlert(Run(Step, s, front), moves[|moves| - 1], i);
    }
  }

  /** Thread k is the first registered one without an underlying thread. */
  predicate IsFirstDormant(ts: seq<Thread>, k: nat) {
    && k < |ts| && ts[k].registered && !ts[k].hasUnderlyingThread
    && forall j :: 0 <= j < k ==> ts[j].registered ==> ts[j].hasUnderlyingThread
  }

  /** notifyAll() fails the assertion in start() exactly when a thread that has stopped for good is still
      registered; notifyOne() exactly when no registered thread waits, and the first one without an underlying
      thread has stopped for good. */
  lemma AssertionNeedsStoppedThread(s: State)
    requires Reachable(s) && !s.crashed
    ensures Step(s, NotifyAll).crashed <==> exists t <- s.threads :: t.registered && !t.isRunning
    ensures Step(s, NotifyOne).crashed <==>
      && (forall t <- s.threads :: t.registered ==> !(t.hasUnderlyingThread && t.isWaiting))
      && exists k: nat :: IsFirstDormant(s.threads, k) && !s.threads[k].isRunning
  {
    var moves :| s == Run(Step, INIT, moves);
    RunInv(INIT, moves);
    var dormant := First(s.threads, IsDormant);
    assert dormant < |s.threads| ==> IsFirstDormant(s.threads, dormant);
    assert First(s.threads, IsWaiting) < |s.threads| <==> exists t <- s.threads :: t.registered && IsWaiting(t);
    if t :| t in s.threads && t.registered && !t.isRunning {
      var i :| 0 <= i < |s.threads| && s.threads[i] == t;
      assert ThreadOk(t) && IsDormant(s.threads[i]);
    }
  }

  /** shouldSleep() keeps its default answer. */
  predicate SleepsByDefault(m: Move) {
    m.BodyMoves? ==> m.answers.shouldSleep
  }

  /** The flag of this thread says that it waits only if its body is in, or just out of, the timed wait. */
  predicate FlagIsFresh(t: Thread) {
    IsWaiting(t) ==> BodyIs(t, Asleep) || BodyIs(t, Awoken)
  }

  /** Of the one body that a thread has at most. */
  predicate BodyIs(t: Thread, b: Body) {
    t.bodies != [] && t.bodies[0] == b
  }

  lemma BodyMovedFresh(t: Thread, k: nat, a: Answers)
    requires ThreadOk(t) && FlagIsFresh(t) && a.shouldSleep && (t.bodies == [] ==> !t.isWaiting)
    ensures var r := BodyMoved(t, k, a); FlagIsFresh(r) && (r.bodies == [] ==> !r.isWaiting)
  {
    if t.bodies != [] { assert t.bodies == [t.bodies[0]]; }
  }

  lemma StepFresh(s: State, m: Move, i: nat)
    requires Inv(s) && i < |s.threads| && FlagIsFresh(s.threads[i]) && SleepsByDefault(m)
    requires s.threads[i].bodies == [] ==> !s.threads[i].isWaiting
    ensures var t := Step(s, m).threads[i]; FlagIsFresh(t) && (t.bodies == [] ==> !t.isWaiting)
  {
    var t := s.threads[i];
    assert ThreadOk(t);
    if m.BodyMoves? {
      BodyMovedFresh(t, m.body, m.answers);
    } else {
      NotifiedIsAwake(t);
      assert IsDormant(t) ==> Started(t).bodies == [Ready];
    }
  }

  /** As long as shouldSleep() says yes, notifyOne() never takes a busy thread for a waiting one. */
  lemma {:induction false} DefaultKeepsFlagsFresh(moves: seq<Move>, i: nat)
    requires forall m <- moves :: SleepsByDefault(m)
    ensures var s := Run(Step, INIT, moves);
      i < |s.threads| ==> FlagIsFresh(s.threads[i]) && (s.threads[i].bodies == [] ==> !s.threads[i].isWaiting)
  {
    if moves != [] {
      var front := moves[..|moves| - 1];
      DefaultKeepsFlagsFresh(front, i);
      RunInv(INIT, front);
      if i < |Run(Step, INIT, front).threads| {
        StepFresh(Run(Step, INIT, front), moves[|moves| - 1], i);
      }
    }
  }

  /** The region in which the flag of thread i goes stale: its body comes out of the wait with the flag still up,
      is told not to sleep, and finds work. */
  predicate GoesStale(s: State, m: Move, i: nat) {
    && !s.crashed && i < |s.threads| && m.BodyMoves? && m.thread == i && m.body == 0
    && BodyIs(s.threads[i], Awoken) && s.threads[i].isWaiting && !m.answers.shouldSleep && m.answers.poll == Work
  }

  /** The moves that lower or refresh a stale flag of thread i: a notification that chooses the thread, and its body
      on finding no work, or on leaving its loop. */
  predicate Refreshes(s: State, m: Move, i: nat) {
    && !s.crashed && i < |s.threads|
    && if m.BodyMoves? then
         && m.thread == i && m.body == 0
         && ((BodyIs(s.threads[i], Ready) && m.answers.poll != Work) || BodyIs(s.threads[i], Quitting))
       else Chooses(s, m, i) && !Step(s, m).crashed
  }

  /** A thread that may start again has its flag down. */
  predicate RestsLowered(t: Thread) {
    t.isRunning && t.bodies == [] ==> !t.isWaiting
  }

  lemma StaleBody(t: Thread, k: nat, a: Answers)
    requires ThreadOk(t) && RestsLowered(t)
    ensures RestsLowered(BodyMoved(t, k, a))
    ensures !FlagIsFresh(BodyMoved(t, k, a)) <==>
      || (k == 0 && BodyIs(t, Awoken) && t.isWaiting && !a.shouldSleep && a.poll == Work)
      || (!FlagIsFresh(t) && !(k == 0 && ((BodyIs(t, Ready) && a.poll != Work) || BodyIs(t, Quitting))))
  {
  }

  /** Notifications: the one that is chosen has its flag down, or is started with its flag down. */
  lemma StaleNotified(s: State, m: Move, i: nat)
    requires Inv(s) && i < |s.threads| && RestsLowered(s.threads[i])
    requires m.NotifyOne? || m.NotifyAll? || m.Notify?
    ensures RestsLowered(Step(s, m).threads[i])
    ensures !FlagIsFresh(Step(s, m).threads[i]) <==> !FlagIsFresh(s.threads[i]) && !Refreshes(s, m, i)
  {
    var t := s.threads[i];
    assert ThreadOk(t);
    NotifiedIsAwake(t);
    assert !IsWaiting(Notified(t));
    assert IsDormant(t) ==> Started(t).bodies == [Ready];
  }

  lemma StaleStep(s: State, m: Move, i: nat)
    requires Inv(s) && i < |s.threads| && RestsLowered(s.threads[i])
    ensures RestsLowered(Step(s, m).threads[i])
    ensures !FlagIsFresh(Step(s, m).threads[i])
       <==> GoesStale(s, m, i) || (!FlagIsFresh(s.threads[i]) && !Refreshes(s, m, i))
  {
    var t := s.threads[i];
    assert ThreadOk(t);
    match m
    case BodyMoves(_, k, a) => StaleBody(t, k, a);
    case NotifyOne => StaleNotified(s, m, i);
    case NotifyAll => StaleNotified(s, m, i);
    case Notify(_) => StaleNotified(s, m, i);
    case _ =>
  }

  ghost function After(moves: seq<Move>): State {
    Run(Step, INIT, moves)
  }

  ghost function GoingStale(i: nat): (seq<Move>, Move) -> bool {
    (before, m) => GoesStale(After(before), m, i)
  }

  ghost function Refreshing(i: nat): (seq<Move>, Move) -> bool {
    (before, m) => Refreshes(After(before), m, i)
  }

  /** Some move of the run has made the flag of thread i stale, and none since has lowered or refreshed it. */
  ghost predicate WentStale(moves: seq<Move>, i: nat) {
    Since(GoingStale(i), Refreshing(i), moves)
  }

  lemma {:induction false} NotYetStale(moves: seq<Move>, i: nat)
    requires i >= |After(moves).threads|
    ensures !WentStale(moves, i)
  {
    if moves != [] {
      SinceStep(GoingStale(i), Refreshing(i), moves);
      ThreadsRemain(After(moves[..|moves| - 1]), moves[|moves| - 1]);
      NotYetStale(moves[..|moves| - 1], i);
    }
  }

  /** No thread leaves the list, and only Create adds one. */
  lemma ThreadsRemain(s: State, m: Move)
    ensures |Step(s, m).threads| >= |s.threads|
    ensures forall i :: |s.threads| <= i < |Step(s, m).threads| ==> Step(s, m).threads[i] == NEW_THREAD
  {}

  /** The exact condition, over all runs: the flag of a thread says that it waits although its body is neither in
      the timed wait nor just out of it, if and only if the flag has gone stale in the one way there is, and
      nothing has lowered or refreshed it since. */
  lemma {:induction false} StaleExactlyIf(moves: seq<Move>, i: nat)
    requires i < |After(moves).threads|
    ensures !FlagIsFresh(After(moves).threads[i]) <==> WentStale(moves, i)
    ensures RestsLowered(After(moves).threads[i])
  {
    if moves != [] {
      var front, last := moves[..|moves| - 1], moves[|moves| - 1];
      SinceStep(GoingStale(i), Refreshing(i), moves);
      RunInv(INIT, front);
      if i < |After(front).threads| {
        StaleExactlyIf(front, i);
        StaleStep(After(front), last, i);
      } else {
        NotYetStale(front, i);
        ThreadsRemain(After(front), last);
      }
    }
  }

  lemma ReachableStep(s: State, m: Move)
    requires Reachable(s)
    ensures Reachable(Step(s, m))
  {
    var moves :| s == Run(Step, INIT, moves);
    RunAppend(Step, INIT, moves, m);
  }

  const READY_THREAD := Thread(true, true, false, true, [Ready])
  const SLEEPING_THREAD := Thread(true, true, true, true, [Asleep])
  const AWOKEN_THREAD := Thread(true, true, true, true, [Awoken])
  const STALE_THREAD := Thread(true, true, true, true, [Working])
  const WAIT_ANSWER := Answers(Wait, true, true)
  const BUSY_ANSWER := Answers(Work, true, false)

  function Pair(a: Thread, b: Thread): State {
    State([a, b], false)
  }

  lemma TwoThreadsStart()
    ensures Reachable(Pair(READY_THREAD, READY_THREAD))
  {
    assert Reachable(INIT) by { assert INIT == Run(Step, INIT, []); }
    ReachableStep(INIT, Create);
    assert Step(INIT, Create) == State([NEW_THREAD], false);
    ReachableStep(State([NEW_THREAD], false), Create);
    assert [NEW_THREAD] + [NEW_THREAD] == [NEW_THREAD, NEW_THREAD];
    SweepStartsBoth();
    ReachableStep(Pair(NEW_THREAD, NEW_THREAD), NotifyAll);
  }

  lemma SweepStartsBoth()
    ensures Step(Pair(NEW_THREAD, NEW_THREAD), NotifyAll) == Pair(READY_THREAD, READY_THREAD)
  {
    assert [] + [Ready] == [Ready];
    assert NotifiedAll([NEW_THREAD, NEW_THREAD]) == [READY_THREAD, READY_THREAD];
  }

  lemma PairStep(a: Thread, b: Thread, i: nat, k: nat, answers: Answers)
    requires i < 2
    ensures Step(Pair(a, b), BodyMoves(i, k, answers))
      == if i == 0 then Pair(BodyMoved(a, k, answers), b) else Pair(a, BodyMoved(b, k, answers))
  {
  }

  /** Without that, it can: thread 0 comes out of its wait, is told not to sleep and finds work, with its
      flag still up. notifyOne() then chooses thread 0, which is working, and thread 1 sleeps on. */
  lemma StaleFlagCapturesNotification()
    ensures var s := Pair(STALE_THREAD, SLEEPING_THREAD);
      && Reachable(s) && !FlagIsFresh(STALE_THREAD)
      && Chooses(s, NotifyOne, 0) && Step(s, NotifyOne).threads[1] == SLEEPING_THREAD
  {
    TwoThreadsStart();
    assert [Ready][0 := Asleep] == [Asleep] && [Awoken][0 := Working] == [Working];
    ReachableStep(Pair(READY_THREAD, READY_THREAD), BodyMoves(0, 0, WAIT_ANSWER));
    PairStep(READY_THREAD, READY_THREAD, 0, 0, WAIT_ANSWER);
    ReachableStep(Pair(SLEEPING_THREAD, READY_THREAD), BodyMoves(1, 0, WAIT_ANSWER));
    PairStep(SLEEPING_THREAD, READY_THREAD, 1, 0, WAIT_ANSWER);
    ReachableStep(Pair(SLEEPING_THREAD, SLEEPING_THREAD), WaitEnds(0, 0));
    WaitEndsFirst();
    ReachableStep(Pair(AWOKEN_THREAD, SLEEPING_THREAD), BodyMoves(0, 0, BUSY_ANSWER));
    PairStep(AWOKEN_THREAD, SLEEPING_THREAD, 0, 0, BUSY_ANSWER);
    assert First(Pair(STALE_THREAD, SLEEPING_THREAD).threads, IsWaiting) == 0;
  }

  lemma WaitEndsFirst()
    ensures Step(Pair(SLEEPING_THREAD, SLEEPING_THREAD), WaitEnds(0, 0)) == Pair(AWOKEN_THREAD, SLEEPING_THREAD)
  {
    assert [Asleep][0 := Awoken] == [Awoken];
    assert [SLEEPING_THREAD, SLEEPING_THREAD][0 := AWOKEN_THREAD] == [AWOKEN_THREAD, SLEEPING_THREAD];
  }
}
