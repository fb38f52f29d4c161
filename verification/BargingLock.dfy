/** BargingLock: a mutex over a word with a locked bit and a parked bit, in which a newcomer may take the
    lock ahead of the sleeper that unlock() has just woken.

    A move is one atomic access of one thread. unlockSlow() takes two moves: the parking lot dequeues a
    sleeper, and its callback then overwrites the word with a plain store. The parking lot's bucket is
    locked in between, so nobody can park there, but other threads can still change the word. */
module BargingLock {

  import opened Basics
  import opened Schedules

  datatype Word = Word(locked: bool, parked: bool)

  /** Where a thread is. The comments name the access that its next move makes. */
  datatype Pc =
    | Idle                                         // lock(): the first compare-exchange
    | Spin(left: nat)                              // lockSlow(): the load of the spin loop
    | SpinCas(left: nat, seen: Word)               // lockSlow(): its compare-exchange
    | SlowLoad                                     // lockSlow(): the load of the parking loop
    | SlowCas(seen: Word)                          // lockSlow(): its compare-exchange
    | Mark                                         // lockSlow(): setting the parked bit
    | Park                                         // lockSlow(): compareAndPark
    | Parked                                       // asleep in the parking lot's queue
    | Dequeued                                     // taken off the queue, not yet woken
    | Held                                         // unlock(): the first compare-exchange
    | UnlockSlow                                   // unlockSlow(): unparkOne dequeues
    | Callback(woken: Option<nat>, more: bool)     // unlockSlow(): the callback's store, then the wakeup

  /** bucketBusy: an unlocker is inside unparkOne. */
  datatype State = State(spinLimit: nat, word: Word, pc: seq<Pc>, queue: seq<nat>, bucketBusy: bool)

  /** spurious: a weak compare-exchange fails although the word is as expected.
      strangers: the bucket holds sleepers of other locks, so mayHaveMoreThreads may be true for no reason. */
  datatype Move = Move(thread: nat, spurious: bool, strangers: bool)

  const FREE := Word(false, false)
  const LOCKED := Word(true, false)
  const LOCKED_AND_PARKED := Word(true, true)

  function Init(spinLimit: nat, threads: nat): State {
    State(spinLimit, FREE, seq(threads, _ => Idle), [], false)
  }

  predicate CasWins(s: State, expected: Word, m: Move) {
    s.word == expected && !m.spurious
  }

  function Goto(s: State, t: nat, p: Pc): State
    requires t < |s.pc|
  {
    s.(pc := s.pc[t := p])
  }

  function Step(s: State, m: Move): (r: State)
    ensures |r.pc| == |s.pc| && r.spinLimit == s.spinLimit
  {
    var t := m.thread;
    if t >= |s.pc| then s else
    match s.pc[t]
    case Idle =>
      if CasWins(s, FREE, m) then Goto(s.(word := LOCKED), t, Held) else Goto(s, t, Spin(s.spinLimit))
    case Spin(left) =>
      if left == 0 then Goto(s, t, SlowLoad)
      else if !s.word.locked then Goto(s, t, SpinCas(left - 1, s.word))
      else Goto(s, t, if s.word.parked then SlowLoad else Spin(left - 1))
    case SpinCas(left, seen) =>
      if CasWins(s, seen, m) then Goto(s.(word := seen.(locked := true)), t, Held)
      else Goto(s, t, if seen.parked then SlowLoad else Spin(left))
    case SlowLoad =>
      Goto(s, t, if s.word.locked then Mark else SlowCas(s.word))
    case SlowCas(seen) =>
      if CasWins(s, seen, m) then Goto(s.(word := seen.(locked := true)), t, Held) else Goto(s, t, Mark)
    case Mark =>
      Goto(if CasWins(s, LOCKED, m) then s.(word := LOCKED_AND_PARKED) else s, t, Park)
    case Park =>
      if s.bucketBusy then s
      else if s.word == LOCKED_AND_PARKED then Goto(s.(queue := s.queue + [t]), t, Parked)
      else Goto(s, t, SlowLoad)
    case Parked => s
    case Dequeued => s
    case Held =>
      if CasWins(s, LOCKED, m) then Goto(s.(word := FREE), t, Idle) else Goto(s, t, UnlockSlow)
    case UnlockSlow =>
      if s.bucketBusy then s
      else if s.queue != [] && s.queue[0] < |s.pc| then
        Goto(Goto(s.(queue := s.queue[1..], bucketBusy := true), s.queue[0], Dequeued), t,
             Callback(Some(s.queue[0]), |s.queue| > 1 || m.strangers))
      else Goto(s.(bucketBusy := true), t, Callback(None, false))
    case Callback(woken, more) =>
      var stored := s.(word := Word(false, more), bucketBusy := false);
      Goto(if woken.Some? && woken.value < |s.pc| then Goto(stored, woken.value, SlowLoad) else stored, t, Idle)
  }

  predicate Owns(p: Pc) {
    p.Held? || p.UnlockSlow? || p.Callback?
  }

  /** Awake in the parking loop of lockSlow(). */
  predicate Contends(p: Pc) {
    p.SlowLoad? || p.SlowCas? || p.Mark? || p.Park?
  }

  ghost predicate MutualExclusion(s: State) {
    forall i, j :: 0 <= i < |s.pc| && 0 <= j < |s.pc| && Owns(s.pc[i]) && Owns(s.pc[j]) ==> i == j
  }

  ghost predicate LockedBitTellsTheTruth(s: State) {
    s.word.locked <==> exists i :: 0 <= i < |s.pc| && Owns(s.pc[i])
  }

  ghost predicate QueueIsTheSleepers(s: State) {
    && (forall i: nat :: i in s.queue <==> i < |s.pc| && s.pc[i].Parked?)
    && (forall i, j :: 0 <= i < j < |s.queue| ==> s.queue[i] != s.queue[j])
  }

  /** A sleeper is announced in the word, and while the lock is free somebody awake is after it. */
  ghost predicate NoLostWakeup(s: State) {
    s.queue != [] ==>
      s.word.parked && (s.word.locked || exists i :: 0 <= i < |s.pc| && Contends(s.pc[i]))
  }

  ghost predicate PcOk(s: State, i: nat)
    requires i < |s.pc|
  {
    match s.pc[i]
    case SpinCas(_, seen) => !seen.locked
    case SlowCas(seen) => !seen.locked
    case Dequeued => exists o :: 0 <= o < |s.pc| && s.pc[o].Callback? && s.pc[o].woken == Some(i)
    case Callback(woken, more) =>
      && s.bucketBusy
      && (s.queue != [] ==> more && woken.Some?)
      && (woken.Some? ==> woken.value < |s.pc| && s.pc[woken.value].Dequeued?)
    case _ => true
  }

  ghost predicate Inv(s: State) {
    && MutualExclusion(s) && LockedBitTellsTheTruth(s) && QueueIsTheSleepers(s) && NoLostWakeup(s)
    && (forall i :: 0 <= i < |s.pc| ==> PcOk(s, i))
    && (s.bucketBusy ==> exists i :: 0 <= i < |s.pc| && s.pc[i].Callback?)
  }

  lemma OthersStay(s: State, m: Move, i: nat)
    requires QueueIsTheSleepers(s) && i < |s.pc| && i != m.thread && !s.pc[i].Parked? && !s.pc[i].Dequeued?
    requires m.thread < |s.pc| ==> PcOk(s, m.thread)
    ensures Step(s, m).pc[i] == s.pc[i]
  {
  }

  lemma OwnedBefore(s: State, m: Move, i: nat)
    requires Inv(s) && i < |s.pc| && i != m.thread
    ensures Owns(Step(s, m).pc[i]) <==> Owns(s.pc[i])
  {
    if !s.pc[i].Parked? && !s.pc[i].Dequeued? { OthersStay(s, m, i); }
  }

  lemma StepMutex(s: State, m: Move)
    requires Inv(s)
    ensures MutualExclusion(Step(s, m))
  {
    var t, r := m.thread, Step(s, m);
    forall i, j | 0 <= i < |s.pc| && 0 <= j < |s.pc| && Owns(r.pc[i]) && Owns(r.pc[j])
      ensures i == j
    {
      if i != t { OwnedBefore(s, m, i); }
      if j != t { OwnedBefore(s, m, j); }
      assert t < |s.pc| ==> PcOk(s, t);
    }
  }

  lemma StepLockedBit(s: State, m: Move)
    requires Inv(s)
    ensures LockedBitTellsTheTruth(Step(s, m))
  {
    var t, r := m.thread, Step(s, m);
    assert t < |s.pc| ==> PcOk(s, t);
    if o :| 0 <= o < |s.pc| && Owns(s.pc[o]) {
      if o != t { OwnedBefore(s, m, o); }
      assert Owns(r.pc[o]) || o == t;
    }
    assert t < |s.pc| && Owns(r.pc[t]) ==> r.word.locked;
    if o :| 0 <= o < |s.pc| && Owns(r.pc[o]) {
      if o != t { OwnedBefore(s, m, o); }
    }
  }

  lemma DequeueQueue(s: State, m: Move)
    requires QueueIsTheSleepers(s) && m.thread < |s.pc| && s.pc[m.thread].UnlockSlow?
    ensures QueueIsTheSleepers(Step(s, m))
  {
    if s.queue != [] && !s.bucketBusy {
      var r := Step(s, m);
      assert s.queue[0] in s.queue;
      assert s.queue == [s.queue[0]] + r.queue;
      assert forall i: nat :: i in r.queue <==> i in s.queue && i != s.queue[0];
    }
  }

  lemma ParkQueue(s: State, m: Move)
    requires QueueIsTheSleepers(s) && m.thread < |s.pc| && s.pc[m.thread].Park?
    ensures QueueIsTheSleepers(Step(s, m))
  {
    var t, r := m.thread, Step(s, m);
    assert r.pc[t].Parked? ==> forall i: nat :: i in r.queue <==> i in s.queue || i == t;
  }

  lemma StepQueue(s: State, m: Move)
    requires Inv(s)
    ensures QueueIsTheSleepers(Step(s, m))
  {
    var t, r := m.thread, Step(s, m);
    if t >= |s.pc| {
    } else if s.pc[t].UnlockSlow? {
      DequeueQueue(s, m);
    } else if s.pc[t].Park? {
      ParkQueue(s, m);
    } else {
      assert PcOk(s, t);
      assert r.queue == s.queue;
      assert forall i :: 0 <= i < |s.pc| ==> r.pc[i].Parked? == s.pc[i].Parked?;
    }
  }

  lemma StepWakeup(s: State, m: Move)
    requires Inv(s)
    ensures NoLostWakeup(Step(s, m))
  {
    var t, r := m.thread, Step(s, m);
    if t < |s.pc| && r.queue != [] {
      assert PcOk(s, t);
      if s.pc[t].Callback? {
        assert Contends(r.pc[s.pc[t].woken.value]);
      } else if o :| 0 <= o < |s.pc| && Contends(s.pc[o]) {
        if o != t { OthersStay(s, m, o); }
        assert Contends(r.pc[o]) || o == t;
      }
      assert Contends(r.pc[t]) || !Contends(r.pc[t]);
    }
  }

  lemma StaysDequeued(s: State, m: Move, i: nat)
    requires Inv(s) && i < |s.pc| && s.pc[i].Dequeued? && Step(s, m).pc[i].Dequeued?
    ensures PcOk(Step(s, m), i)
  {
    assert PcOk(s, i);
    var o :| 0 <= o < |s.pc| && s.pc[o].Callback? && s.pc[o].woken == Some(i);
    if o != m.thread { OthersStay(s, m, o); }
    assert Step(s, m).pc[o].Callback?;
  }

  lemma StepDequeued(s: State, m: Move, i: nat)
    requires Inv(s) && i < |s.pc| && Step(s, m).pc[i].Dequeued?
    ensures PcOk(Step(s, m), i)
  {
    if s.pc[i].Dequeued? {
      StaysDequeued(s, m, i);
    } else {
      assert Step(s, m).pc[m.thread].Callback?;
    }
  }

  lemma StepCallback(s: State, m: Move, i: nat)
    requires Inv(s) && i < |s.pc| && s.pc[i].Callback? && i != m.thread
    ensures PcOk(Step(s, m), i)
  {
    var t, r := m.thread, Step(s, m);
    assert PcOk(s, i);
    OthersStay(s, m, i);
    assert Owns(s.pc[i]);
    assert t < |s.pc| ==> !Owns(s.pc[t]);
  }

  lemma StepOwnPc(s: State, m: Move)
    requires Inv(s) && m.thread < |s.pc| && !Step(s, m).pc[m.thread].Dequeued?
    ensures PcOk(Step(s, m), m.thread)
  {
    assert PcOk(s, m.thread);
    if s.pc[m.thread].UnlockSlow? { assert s.queue != [] ==> s.queue[0] in s.queue; }
  }

  lemma StepPc(s: State, m: Move, i: nat)
    requires Inv(s) && i < |s.pc|
    ensures PcOk(Step(s, m), i)
  {
    assert PcOk(s, i);
    if Step(s, m).pc[i].Dequeued? {
      StepDequeued(s, m, i);
    } else if i != m.thread {
      assert m.thread < |s.pc| ==> PcOk(s, m.thread);
      if s.pc[i].Callback? {
        StepCallback(s, m, i);
      } else if !s.pc[i].Parked? && !s.pc[i].Dequeued? {
        OthersStay(s, m, i);
      }
    } else {
      StepOwnPc(s, m);
    }
  }

  lemma StepBucket(s: State, m: Move)
    requires Inv(s)
    ensures Step(s, m).bucketBusy ==> exists i :: 0 <= i < |s.pc| && Step(s, m).pc[i].Callback?
  {
    var t, r := m.thread, Step(s, m);
    if t < |s.pc| && r.bucketBusy {
      assert r.pc[t].Callback? || s.bucketBusy;
      if o :| 0 <= o < |s.pc| && s.pc[o].Callback? {
        if o != t { OthersStay(s, m, o); assert r.pc[o].Callback?; }
      }
    }
  }

  lemma StepInv(s: State, m: Move)
    requires Inv(s)
    ensures Inv(Step(s, m))
  {
    StepMutex(s, m);
    StepLockedBit(s, m);
    StepQueue(s, m);
    StepWakeup(s, m);
    StepBucket(s, m);
    forall i | 0 <= i < |s.pc| ensures PcOk(Step(s, m), i) { StepPc(s, m, i); }
  }

  lemma InitInv(spinLimit: nat, threads: nat)
    ensures Inv(Init(spinLimit, threads))
  {
  }

  lemma RunInv(s: State, moves: seq<Move>)
    requires Inv(s)
    ensures Inv(Run(Step, s, moves))
  {
    ghost var inv: State -> bool := Inv;
    forall a, m | inv(a) ensures inv(Step(a, m)) { StepInv(a, m); }
    RunKeeps(Step, inv, s, moves);
  }

  ghost predicate Reachable(s: State) {
    exists moves :: s == Run(Step, Init(s.spinLimit, |s.pc|), moves)
  }

  lemma ReachableInv(s: State)
    requires Reachable(s)
    ensures Inv(s)
  {
    var moves :| s == Run(Step, Init(s.spinLimit, |s.pc|), moves);
    InitInv(s.spinLimit, |s.pc|);
    RunInv(Init(s.spinLimit, |s.pc|), moves);
  }

  /** The main result: every state that any schedule of any number of threads reaches is safe. */
  lemma ReachableIsSafe(s: State)
    requires Reachable(s)
    ensures MutualExclusion(s) && LockedBitTellsTheTruth(s) && QueueIsTheSleepers(s) && NoLostWakeup(s)
  {
    ReachableInv(s);
  }

  function Holds(w: nat): State -> bool {
    (s: State) => w < |s.pc| && s.pc[w].Held?
  }

  ghost predicate CanLock(s: State, w: nat) {
    CanReach(Step, s, Holds(w))
  }

  /** No wakeup is lost, in terms of what can still happen: from every reachable state some schedule gives
      the lock to any thread of our choice that is asleep. */
  lemma SleeperCanLock(s: State, w: nat)
    requires Reachable(s) && w < |s.pc| && s.pc[w].Parked?
    ensures CanLock(s, w)
  {
    ReachableInv(s);
    ParkedCanLock(s, w);
  }

  /** How far an owner is from letting go. */
  function OwnerDistance(p: Pc): nat {
    if p.Held? then 3 else if p.UnlockSlow? then 2 else if p.Callback? then 1 else 0
  }

  /** How far a contender is from a free lock. */
  function ContenderDistance(word: Word, p: Pc): nat {
    match p
    case SlowCas(seen) => if seen == word then 4 else 8
    case SlowLoad => 5
    case Park => 6
    case Mark => 7
    case _ => 0
  }

  lemma {:induction false} AwakeCanLock(s: State, w: nat, o: nat)
    requires Inv(s) && w < |s.pc| && o < |s.pc| && Contends(s.pc[w])
    requires if s.word.locked then Owns(s.pc[o]) else o == w
    ensures CanLock(s, w)
    decreases s.word.locked, OwnerDistance(s.pc[o]) + ContenderDistance(s.word, s.pc[o])
  {
    var m := Move(o, false, false);
    var r := Step(s, m);
    StepInv(s, m);
    assert PcOk(s, o);
    assert s.bucketBusy ==> s.word.locked;
    if o == w && r.pc[w].Held? {
      CanReachNow(Step, r, Holds(w));
      CanReachBefore(Step, s, m, Holds(w));
    } else {
      if o != w { OthersStay(s, m, w); }
      if Owns(s.pc[o]) { OneUnlocker(s, o); }
      AwakeCanLock(r, w, if r.word.locked then o else w);
      CanReachBefore(Step, s, m, Holds(w));
    }
  }

  lemma OneUnlocker(s: State, o: nat)
    requires Inv(s) && o < |s.pc| && Owns(s.pc[o])
    ensures s.bucketBusy ==> s.pc[o].Callback?
  {
    if s.bucketBusy {
      var i :| 0 <= i < |s.pc| && s.pc[i].Callback?;
      assert Owns(s.pc[i]);
    }
  }

  lemma {:induction false} ParkedCanLock(s: State, w: nat)
    requires Inv(s) && w < |s.pc| && s.pc[w].Parked?
    ensures CanLock(s, w)
    decreases |s.queue| + (if s.bucketBusy then 1 else 0), 20
  {
    assert w in s.queue;
    if s.word.locked {
      var o :| 0 <= o < |s.pc| && Owns(s.pc[o]);
      HelpedCanLock(s, w, o);
    } else {
      var o :| 0 <= o < |s.pc| && Contends(s.pc[o]);
      HelpedCanLock(s, w, o);
    }
  }

  /** The helper is the owner of a locked word or a contender for a free one. */
  lemma {:induction false} HelpedCanLock(s: State, w: nat, o: nat)
    requires Inv(s) && w < |s.pc| && o < |s.pc| && (s.pc[w].Parked? || (s.pc[w].Dequeued? && s.pc[o].Callback?))
    requires if s.word.locked then Owns(s.pc[o]) else Contends(s.pc[o])
    ensures CanLock(s, w)
    decreases |s.queue| + (if s.bucketBusy then 1 else 0), OwnerDistance(s.pc[o]) + ContenderDistance(s.word, s.pc[o])
  {
    var m := Move(o, false, false);
    var r := Step(s, m);
    StepInv(s, m);
    assert PcOk(s, o) && PcOk(s, w);
    assert s.pc[w].Parked? ==> w in s.queue && s.queue[0] in s.queue;
    if s.word.locked { OneUnlocker(s, o); }
    if Contends(r.pc[w]) {
      AwakeCanLock(r, w, w);
    } else if r.word.locked {
      HelpedCanLock(r, w, o);
    } else if s.word.locked {
      ParkedCanLock(r, w);
    } else {
      HelpedCanLock(r, w, o);
    }
    CanReachBefore(Step, s, m, Holds(w));
  }

  /** In lock(), asleep included, or about to call it. */
  predicate WantsLock(p: Pc) {
    !Owns(p)
  }

  /** A weak compare-exchange that fails for no reason takes no lock and changes no word. */
  lemma SpuriousFailure(s: State, t: nat, strangers: bool)
    requires t < |s.pc| && !s.pc[t].Callback?
    ensures var r := Step(s, Move(t, true, strangers));
      r.word == s.word && (r.pc[t].Held? ==> s.pc[t].Held?) && (r.pc[t].Idle? ==> s.pc[t].Idle?)
  {
  }

  /** How many moves of its own bring a thread to the parking loop or to the lock. */
  function OwnMoves(spinLimit: nat, p: Pc): nat {
    match p
    case Idle => 2 * spinLimit + 2
    case SpinCas(left, _) => 2 * left + 2
    case Spin(left) => 2 * left + 1
    case _ => 0
  }

  /** Nobody gets stuck in lock(): from every reachable state some schedule gives the lock to any thread of our
      choice that is anywhere in lock(). */
  lemma LockerCanLock(s: State, w: nat)
    requires Reachable(s) && w < |s.pc| && WantsLock(s.pc[w])
    ensures CanLock(s, w)
  {
    ReachableInv(s);
    WantingCanLock(s, w);
  }

  lemma {:induction false} WantingCanLock(s: State, w: nat)
    requires Inv(s) && w < |s.pc| && WantsLock(s.pc[w])
    ensures CanLock(s, w)
    decreases OwnMoves(s.spinLimit, s.pc[w])
  {
    if s.pc[w].Parked? {
      ParkedCanLock(s, w);
    } else if s.pc[w].Dequeued? {
      assert PcOk(s, w);
      var o :| 0 <= o < |s.pc| && s.pc[o].Callback? && s.pc[o].woken == Some(w);
      assert Owns(s.pc[o]);
      HelpedCanLock(s, w, o);
    } else if Contends(s.pc[w]) {
      if s.word.locked {
        var o :| 0 <= o < |s.pc| && Owns(s.pc[o]);
        AwakeCanLock(s, w, o);
      } else {
        AwakeCanLock(s, w, w);
      }
    } else {
      var m := Move(w, false, false);
      StepInv(s, m);
      if Step(s, m).pc[w].Held? {
        CanReachNow(Step, Step(s, m), Holds(w));
      } else {
        WantingCanLock(Step(s, m), w);
      }
      CanReachBefore(Step, s, m, Holds(w));
    }
  }

  function SpinsToPark(word: Word, left: nat): nat {
    if word.parked then 4 else left + 4
  }

  /** After how many moves of its own a thread is asleep while the lock stays taken. */
  function MovesToPark(s: State, p: Pc): nat {
    match p
    case Idle => 1 + SpinsToPark(s.word, s.spinLimit)
    case SpinCas(left, seen) => if seen.parked then 4 else 1 + SpinsToPark(s.word, left)
    case Spin(left) => SpinsToPark(s.word, left)
    case SlowLoad => 3
    case SlowCas(_) => 3
    case Mark => 2
    case Park => if s.word.parked then 1 else 4
    case _ => 0
  }

  /** While the lock is taken and nobody else moves, a thread in lock() goes to sleep: after its last spin or, if the
      word announces sleepers already, after its next one. The parking lot must not be in use. */
  lemma {:induction false} LoneLockerParks(s: State, t: nat)
    requires t < |s.pc| && s.word.locked && !s.bucketBusy && WantsLock(s.pc[t])
    requires !s.pc[t].Parked? && !s.pc[t].Dequeued? && PcOk(s, t)
    ensures var r := Repeated(Step, s, Move(t, false, false), MovesToPark(s, s.pc[t]));
      r.pc == s.pc[t := Parked] && r.queue == s.queue + [t] && r.word == LOCKED_AND_PARKED
    decreases MovesToPark(s, s.pc[t])
  {
    var r := Step(s, Move(t, false, false));
    if !r.pc[t].Parked? {
      LoneLockerParks(r, t);
      assert r.pc[t := Parked] == s.pc[t := Parked];
    }
  }

  /** After how many moves of its own a thread has a free lock. */
  function MovesToTake(s: State, p: Pc): nat {
    match p
    case Idle => if s.word == FREE then 1 else if s.spinLimit == 0 then 4 else 3
    case Spin(left) => if left == 0 then 3 else 2
    case SpinCas(left, seen) =>
      if seen == s.word then 1 else if seen.parked then 3 else if left == 0 then 4 else 3
    case SlowLoad => 2
    case SlowCas(seen) => if seen == s.word then 1 else 5
    case Mark => 4
    case Park => 3
    case _ => 0
  }

  /** While the lock is free and nobody else moves, a thread in lock() takes it and leaves the parked bit alone. */
  lemma {:induction false} LoneLockerTakes(s: State, t: nat)
    requires t < |s.pc| && !s.word.locked && !s.bucketBusy && WantsLock(s.pc[t])
    requires !s.pc[t].Parked? && !s.pc[t].Dequeued? && PcOk(s, t)
    ensures var r := Repeated(Step, s, Move(t, false, false), MovesToTake(s, s.pc[t]));
      r.pc == s.pc[t := Held] && r.queue == s.queue && r.word == s.word.(locked := true)
    decreases MovesToTake(s, s.pc[t])
  {
    var r := Step(s, Move(t, false, false));
    if !r.pc[t].Held? {
      LoneLockerTakes(r, t);
      assert r.pc[t := Held] == s.pc[t := Held];
    }
  }

  /** unlock() by the owner while nobody else moves: one access when the parked bit is clear; otherwise the lock is
      free, the first sleeper is awake, and the parked bit says whether others sleep on or, when a sleeper has been
      woken, whether sleepers of other locks may have been taken for them. */
  lemma LoneUnlock(s: State, t: nat, strangers: bool)
    requires Inv(s) && t < |s.pc| && s.pc[t].Held?
    ensures var r := Repeated(Step, s, Move(t, false, strangers), if s.word == LOCKED then 1 else 3);
      && r.word == Word(false, s.word != LOCKED && s.queue != [] && (|s.queue| > 1 || strangers))
      && !r.bucketBusy && |r.pc| == |s.pc|
      && forall i: nat :: i < |s.pc| ==>
           r.pc[i] == if i == t then Idle else if s.queue != [] && i == s.queue[0] then SlowLoad else s.pc[i]
  {
    var m := Move(t, false, strangers);
    assert Owns(s.pc[t]);
    OneUnlocker(s, t);
    assert Repeated(Step, s, m, 1) == Step(s, m);
    if s.word != LOCKED {
      assert s.queue != [] ==> s.queue[0] in s.queue;
      var a := Step(s, m);
      var b := Step(a, m);
      assert Repeated(Step, s, m, 3) == Repeated(Step, a, m, 2) == Repeated(Step, b, m, 1) == Step(b, m);
      assert a.queue == s.queue && a.pc == s.pc[t := UnlockSlow];
    }
  }
}
