/** ThunderLock and CascadeLock: two mutexes over one word with three values and a queue of sleepers.
    They share every line of their fast paths and differ in how a sleeper comes back: ThunderLock wakes
    every sleeper, CascadeLock wakes one and makes it lock with LockedAndParked.

    A move is one atomic access of one thread, so a schedule (a sequence of moves) is one interleaving.
    A weak compare-exchange may fail although the word has the expected value: the move says so. */
module ThreeStateLocks {

  import opened Schedules

  datatype Kind = Thunder | Cascade

  datatype Word = Unlocked | Locked | LockedAndParked

  /** Where a thread is. The comments name the access that its next move makes. */
  datatype Pc =
    | Idle                     // lock(): the first compare-exchange
    | Spin(left: nat)          // lockSlow(): top of the spin loop
    | SpinCas(left: nat)       // lockSlow(): the loop saw Unlocked and tries to take the lock
    | Contend(marked: bool)    // lockSlow(): Unlocked to Locked, or to LockedAndParked when marked
    | Mark                     // lockSlow(): Locked to LockedAndParked
    | Park                     // lockSlow(): compareAndPark
    | Parked                   // asleep in the parking lot
    | Held                     // unlock(): the first compare-exchange
    | UnlockSlow               // unlockSlow(): the exchange
    | Unpark                   // unlockSlow(): the call into the parking lot

  datatype State = State(kind: Kind, spinLimit: nat, word: Word, pc: seq<Pc>, queue: seq<nat>)

  datatype Move = Move(thread: nat, spurious: bool)

  function Init(kind: Kind, spinLimit: nat, threads: nat): State {
    State(kind, spinLimit, Unlocked, seq(threads, _ => Idle), [])
  }

  /** Does this weak compare-exchange succeed? */
  predicate CasWins(s: State, expected: Word, m: Move) {
    s.word == expected && !m.spurious
  }

  function Goto(s: State, t: nat, p: Pc): State
    requires t < |s.pc|
  {
    s.(pc := s.pc[t := p])
  }

  /** Where a thread that parked, or failed to, goes round its loop again. */
  function Retry(kind: Kind): Pc {
    Contend(kind == Cascade)
  }

  function WakeAll(s: State): seq<Pc> {
    seq(|s.pc|, i requires 0 <= i < |s.pc| => if i in s.queue then Retry(s.kind) else s.pc[i])
  }

  function Step(s: State, m: Move): (r: State)
    ensures |r.pc| == |s.pc| && r.kind == s.kind && r.spinLimit == s.spinLimit
  {
    var t := m.thread;
    if t >= |s.pc| then s else
    match s.pc[t]
    case Idle =>
      if CasWins(s, Unlocked, m) then Goto(s.(word := Locked), t, Held)
      else Goto(s, t, Spin(s.spinLimit))
    case Spin(left) =>
      if left == 0 || s.word == LockedAndParked then Goto(s, t, Contend(false))
      else if s.word == Unlocked then Goto(s, t, SpinCas(left - 1))
      else Goto(s, t, Spin(left - 1))
    case SpinCas(left) =>
      if CasWins(s, Unlocked, m) then Goto(s.(word := Locked), t, Held)
      else Goto(s, t, Spin(left))
    case Contend(marked) =>
      if CasWins(s, Unlocked, m) then Goto(s.(word := if marked then LockedAndParked else Locked), t, Held)
      else Goto(s, t, Mark)
    case Mark =>
      Goto(if CasWins(s, Locked, m) then s.(word := LockedAndParked) else s, t, Park)
    case Park =>
      if s.word == LockedAndParked then Goto(s.(queue := s.queue + [t]), t, Parked)
      else Goto(s, t, Retry(s.kind))
    case Parked => s
    case Held =>
      if CasWins(s, Locked, m) then Goto(s.(word := Unlocked), t, Idle)
      else Goto(s, t, UnlockSlow)
    case UnlockSlow =>
      Goto(s.(word := Unlocked), t, if s.word == LockedAndParked then Unpark else Idle)
    case Unpark =>
      if s.kind == Thunder then Goto(s.(pc := WakeAll(s), queue := []), t, Idle)
      else if s.queue != [] && s.queue[0] < |s.pc| then
        Goto(Goto(s.(queue := s.queue[1..]), s.queue[0], Retry(s.kind)), t, Idle)
      else Goto(s, t, Idle)
  }

  predicate Owns(p: Pc) {
    p.Held? || p.UnlockSlow?
  }

  /** The threads that will still deal with a sleeper when the word is not LockedAndParked. */
  predicate Rescues(kind: Kind, p: Pc) {
    || p.Unpark?
    || (kind == Cascade && (p.Mark? || p.Park? || p == Contend(true)))
  }

  ghost predicate MutualExclusion(s: State) {
    forall i, j :: 0 <= i < |s.pc| && 0 <= j < |s.pc| && Owns(s.pc[i]) && Owns(s.pc[j]) ==> i == j
  }

  ghost predicate WordTellsTheTruth(s: State) {
    s.word != Unlocked <==> exists i :: 0 <= i < |s.pc| && Owns(s.pc[i])
  }

  ghost predicate QueueIsTheSleepers(s: State) {
    && (forall i: nat :: i in s.queue <==> i < |s.pc| && s.pc[i].Parked?)
    && (forall i, j :: 0 <= i < j < |s.queue| ==> s.queue[i] != s.queue[j])
  }

  ghost predicate NoLostWakeup(s: State) {
    s.queue == [] || s.word == LockedAndParked || exists i :: 0 <= i < |s.pc| && Rescues(s.kind, s.pc[i])
  }

  ghost predicate Inv(s: State) {
    MutualExclusion(s) && WordTellsTheTruth(s) && QueueIsTheSleepers(s) && NoLostWakeup(s)
  }

  lemma InitInv(kind: Kind, spinLimit: nat, threads: nat)
    ensures Inv(Init(kind, spinLimit, threads))
  {
  }

  /** A move leaves every other thread where it is, except for the sleepers that it wakes. */
  lemma OthersStay(s: State, m: Move, i: nat)
    requires i < |s.pc| && i != m.thread && !s.pc[i].Parked?
    requires QueueIsTheSleepers(s)
    ensures Step(s, m).pc[i] == s.pc[i]
  {
  }

  lemma StepWord(s: State, m: Move)
    requires Inv(s)
    ensures WordTellsTheTruth(Step(s, m))
  {
    var t, r := m.thread, Step(s, m);
    if o :| 0 <= o < |s.pc| && Owns(s.pc[o]) {
      if o != t { OthersStay(s, m, o); }
      assert Owns(r.pc[o]) || o == t;
    }
    assert t < |s.pc| && Owns(r.pc[t]) ==> r.word != Unlocked;
    if o :| 0 <= o < |s.pc| && Owns(r.pc[o]) {
      if o != t && !s.pc[o].Parked? { OthersStay(s, m, o); }
    }
  }

  lemma StepMutex(s: State, m: Move)
    requires MutualExclusion(s) && WordTellsTheTruth(s) && QueueIsTheSleepers(s)
    ensures MutualExclusion(Step(s, m))
  {
    var t, r := m.thread, Step(s, m);
    forall i, j | 0 <= i < |s.pc| && 0 <= j < |s.pc| && Owns(r.pc[i]) && Owns(r.pc[j])
      ensures i == j
    {
      if i != t { OwnedBefore(s, m, i); }
      if j != t { OwnedBefore(s, m, j); }
      if i == t && j != t { OwnerIsAlone(s, m, j); }
      if j == t && i != t { OwnerIsAlone(s, m, i); }
    }
  }

  /** A thread that owns the lock after its access has taken it from nobody. */
  lemma OwnerIsAlone(s: State, m: Move, j: nat)
    requires MutualExclusion(s) && WordTellsTheTruth(s) && j < |s.pc| && j != m.thread < |s.pc|
    requires Owns(Step(s, m).pc[m.thread])
    ensures !Owns(s.pc[j])
  {
  }

  lemma OwnedBefore(s: State, m: Move, i: nat)
    requires QueueIsTheSleepers(s) && i < |s.pc| && i != m.thread
    ensures Owns(Step(s, m).pc[i]) <==> Owns(s.pc[i])
  {
    if !s.pc[i].Parked? { OthersStay(s, m, i); }
  }

  lemma UnparkQueue(s: State, m: Move)
    requires QueueIsTheSleepers(s) && m.thread < |s.pc| && s.pc[m.thread].Unpark?
    ensures QueueIsTheSleepers(Step(s, m))
  {
    if s.kind == Cascade && s.queue != [] {
      var r := Step(s, m);
      assert s.queue[0] in s.queue;
      assert s.queue == [s.queue[0]] + r.queue;
      assert forall i: nat :: i in r.queue <==> i in s.queue && i != s.queue[0];
    }
  }

  lemma StepQueue(s: State, m: Move)
    requires QueueIsTheSleepers(s)
    ensures QueueIsTheSleepers(Step(s, m))
  {
    var t, r := m.thread, Step(s, m);
    if t >= |s.pc| {
    } else if s.pc[t].Unpark? {
      UnparkQueue(s, m);
    } else if r.pc[t].Parked? && !s.pc[t].Parked? {
      assert forall i: nat :: i in r.queue <==> i in s.queue || i == t;
    } else {
      assert r.queue == s.queue;
      assert forall i :: 0 <= i < |s.pc| ==> r.pc[i].Parked? == s.pc[i].Parked?;
    }
  }

  lemma StepWakeup(s: State, m: Move)
    requires WordTellsTheTruth(s) && QueueIsTheSleepers(s) && NoLostWakeup(s)
    ensures NoLostWakeup(Step(s, m))
  {
    var t, r := m.thread, Step(s, m);
    if t < |s.pc| && r.queue != [] {
      assert Rescues(s.kind, r.pc[t]) || s.kind == r.kind;
      if o :| 0 <= o < |s.pc| && Rescues(s.kind, s.pc[o]) {
        if o != t { OthersStay(s, m, o); }
        assert o != t ==> Rescues(r.kind, r.pc[o]);
      }
      if s.pc[t].Unpark? {
        assert s.kind == Cascade;
        assert s.queue[0] in s.queue;
        assert Rescues(r.kind, r.pc[s.queue[0]]);
      }
    }
  }

  lemma StepInv(s: State, m: Move)
    requires Inv(s)
    ensures Inv(Step(s, m))
  {
    StepMutex(s, m);
    StepWord(s, m);
    StepQueue(s, m);
    StepWakeup(s, m);
  }

  ghost predicate Reachable(s: State) {
    exists moves :: s == Run(Step, Init(s.kind, s.spinLimit, |s.pc|), moves)
  }

  /** The main result: every state that any schedule of any number of threads reaches is safe. */
  lemma ReachableIsSafe(s: State)
    requires Reachable(s)
    ensures MutualExclusion(s) && WordTellsTheTruth(s) && QueueIsTheSleepers(s) && NoLostWakeup(s)
  {
    var moves :| s == Run(Step, Init(s.kind, s.spinLimit, |s.pc|), moves);
    RunInv(Init(s.kind, s.spinLimit, |s.pc|), moves);
  }

  lemma RunInv(s: State, moves: seq<Move>)
    requires Inv(s)
    ensures Inv(Run(Step, s, moves))
  {
    ghost var inv: State -> bool := Inv;
    forall a, m | inv(a) ensures inv(Step(a, m)) { StepInv(a, m); }
    RunKeeps(Step, inv, s, moves);
  }

  /** Nobody is in the middle of lock() or unlock(), except asleep. */
  ghost predicate Quiescent(s: State) {
    forall i :: 0 <= i < |s.pc| ==> s.pc[i].Idle? || s.pc[i].Held? || s.pc[i].Parked?
  }

  /** A free lock has no sleepers once every call in progress has returned or gone to sleep. */
  lemma FreeLockHasNoSleepers(s: State)
    requires Reachable(s) && Quiescent(s)
    ensures s.queue != [] ==> s.word == LockedAndParked && exists i :: 0 <= i < |s.pc| && s.pc[i].Held?
  {
    ReachableIsSafe(s);
    if s.queue != [] {
      var i :| 0 <= i < |s.pc| && Owns(s.pc[i]);
      assert s.pc[i].Held?;
    }
  }

  function Holds(w: nat): State -> bool {
    (s: State) => w < |s.pc| && s.pc[w].Held?
  }

  ghost predicate CanLock(s: State, w: nat) {
    CanReach(Step, s, Holds(w))
  }

  /** No wakeup is lost, in terms of what can still happen: from every reachable state, quiescent or not,
      some schedule gives the lock to any thread of our choice that is asleep. */
  lemma SleeperCanLock(s: State, w: nat)
    requires Reachable(s) && w < |s.pc| && s.pc[w].Parked?
    ensures CanLock(s, w)
  {
    var moves :| s == Run(Step, Init(s.kind, s.spinLimit, |s.pc|), moves);
    RunInv(Init(s.kind, s.spinLimit, |s.pc|), moves);
    ParkedCanLock(s, w);
  }

  /** An awake contender gets the lock as soon as its owner has let go. */
  lemma {:induction false} AwakeCanLock(s: State, w: nat)
    requires Inv(s) && w < |s.pc| && s.pc[w].Contend?
    ensures CanLock(s, w)
    decreases if s.word == Unlocked then 0 else if exists i :: 0 <= i < |s.pc| && s.pc[i].Held? then 2 else 1
  {
    if s.word == Unlocked {
      CanReachNow(Step, Step(s, Move(w, false)), Holds(w));
      CanReachBefore(Step, s, Move(w, false), Holds(w));
    } else {
      var o :| 0 <= o < |s.pc| && Owns(s.pc[o]);
      var m := Move(o, false);
      StepInv(s, m);
      AwakeCanLock(Step(s, m), w);
      CanReachBefore(Step, s, m, Holds(w));
    }
  }

  lemma {:induction false} ParkedCanLock(s: State, w: nat)
    requires Inv(s) && w < |s.pc| && s.pc[w].Parked?
    ensures CanLock(s, w)
    decreases |s.queue|, 10
  {
    assert w in s.queue;
    if s.word == LockedAndParked {
      var o :| 0 <= o < |s.pc| && Owns(s.pc[o]);
      HelpedCanLock(s, w, o);
    } else {
      var o :| 0 <= o < |s.pc| && Rescues(s.kind, s.pc[o]);
      HelpedCanLock(s, w, o);
    }
  }

  /** How many moves of its own a helper still makes before it wakes a sleeper or announces it in the word. */
  function Distance(word: Word, p: Pc): nat {
    if p.Unpark? then 0
    else if p.UnlockSlow? then 1
    else if p.Held? then 2
    else if word == LockedAndParked then 0
    else if word == Unlocked then (if p.Contend? then 3 else if p.Park? then 4 else 5)
    else (if p.Mark? then 3 else if p.Contend? then 4 else 5)
  }

  lemma {:induction false} HelpedCanLock(s: State, w: nat, o: nat)
    requires Inv(s) && w < |s.pc| && s.pc[w].Parked? && o < |s.pc|
    requires if s.word == LockedAndParked then Owns(s.pc[o]) || s.pc[o].Unpark? else Rescues(s.kind, s.pc[o])
    ensures CanLock(s, w)
    decreases |s.queue|, Distance(s.word, s.pc[o])
  {
    var m := Move(o, false);
    var r := Step(s, m);
    StepInv(s, m);
    assert w in s.queue && s.queue[0] in s.queue;
    if r.pc[w].Parked? {
      if |r.queue| < |s.queue| {
        ParkedCanLock(r, w);
      } else if r.word == LockedAndParked && !Owns(r.pc[o]) && !r.pc[o].Unpark? {
        var h :| 0 <= h < |s.pc| && Owns(r.pc[h]);
        HelpedCanLock(r, w, h);
      } else {
        HelpedCanLock(r, w, o);
      }
    } else {
      AwakeCanLock(r, w);
    }
    CanReachBefore(Step, s, m, Holds(w));
  }

  /** In lock(), asleep included, or about to call it. */
  predicate WantsLock(p: Pc) {
    !Owns(p) && !p.Unpark?
  }

  /** A weak compare-exchange that fails for no reason takes no lock and changes no word. */
  lemma SpuriousFailure(s: State, t: nat)
    requires t < |s.pc| && !s.pc[t].UnlockSlow? && !s.pc[t].Unpark?
    ensures var r := Step(s, Move(t, true));
      r.word == s.word && (r.pc[t].Held? ==> s.pc[t].Held?) && (r.pc[t].Idle? ==> s.pc[t].Idle?)
  {
  }

  /** How many moves of its own bring a thread to the parking loop's compare-exchange, or to sleep, or to the lock. */
  function OwnMoves(spinLimit: nat, p: Pc): nat {
    match p
    case Idle => 2 * spinLimit + 5
    case SpinCas(left) => 2 * left + 5
    case Spin(left) => 2 * left + 4
    case Mark => 2
    case Park => 1
    case _ => 0
  }

  /** Nobody gets stuck in lock(): from every reachable state some schedule gives the lock to any thread of our
      choice that is anywhere in lock(). */
  lemma LockerCanLock(s: State, w: nat)
    requires Reachable(s) && w < |s.pc| && WantsLock(s.pc[w])
    ensures CanLock(s, w)
  {
    ReachableIsSafe(s);
    WantingCanLock(s, w);
  }

  lemma {:induction false} WantingCanLock(s: State, w: nat)
    requires Inv(s) && w < |s.pc| && WantsLock(s.pc[w])
    ensures CanLock(s, w)
    decreases OwnMoves(s.spinLimit, s.pc[w])
  {
    if s.pc[w].Parked? {
      ParkedCanLock(s, w);
    } else if s.pc[w].Contend? {
      AwakeCanLock(s, w);
    } else {
      var m := Move(w, false);
      StepInv(s, m);
      if Step(s, m).pc[w].Held? {
        CanReachNow(Step, Step(s, m), Holds(w));
      } else {
        WantingCanLock(Step(s, m), w);
      }
      CanReachBefore(Step, s, m, Holds(w));
    }
  }

  function SpinsToPark(word: Word, left: nat): nat {
    if word == LockedAndParked then 4 else left + 4
  }

  /** After how many moves of its own a thread is asleep while the lock stays taken. */
  function MovesToPark(s: State, p: Pc): nat {
    match p
    case Idle => 1 + SpinsToPark(s.word, s.spinLimit)
    case SpinCas(left) => 1 + SpinsToPark(s.word, left)
    case Spin(left) => SpinsToPark(s.word, left)
    case Contend(_) => 3
    case Mark => 2
    case Park => if s.word == LockedAndParked then 1 else 4
    case _ => 0
  }

  /** While the lock is taken and nobody else moves, a thread in lock() goes to sleep: after its last spin or, if the
      word announces sleepers already, after its next one. */
  lemma {:induction false} LoneLockerParks(s: State, t: nat)
    requires t < |s.pc| && s.word != Unlocked && WantsLock(s.pc[t]) && !s.pc[t].Parked?
    ensures var r := Repeated(Step, s, Move(t, false), MovesToPark(s, s.pc[t]));
      r.pc == s.pc[t := Parked] && r.queue == s.queue + [t] && r.word == LockedAndParked
    decreases MovesToPark(s, s.pc[t])
  {
    var r := Step(s, Move(t, false));
    if !r.pc[t].Parked? {
      LoneLockerParks(r, t);
      assert r.pc[t := Parked] == s.pc[t := Parked];
    }
  }

  /** After how many moves of its own a thread has a free lock. */
  function MovesToTake(p: Pc): nat {
    match p
    case Mark => 3
    case Park => 2
    case Spin(_) => 2
    case _ => 1
  }

  /** While the lock is free and nobody else moves, a thread in lock() takes it. CascadeLock takes it with
      LockedAndParked once the thread has tried to park. */
  lemma {:induction false} LoneLockerTakes(s: State, t: nat)
    requires t < |s.pc| && s.word == Unlocked && WantsLock(s.pc[t]) && !s.pc[t].Parked?
    ensures var r := Repeated(Step, s, Move(t, false), MovesToTake(s.pc[t]));
      && r.pc == s.pc[t := Held] && r.queue == s.queue
      && r.word == if s.pc[t] == Contend(true) || (s.kind == Cascade && (s.pc[t].Mark? || s.pc[t].Park?))
                   then LockedAndParked else Locked
    decreases MovesToTake(s.pc[t])
  {
    var r := Step(s, Move(t, false));
    if !r.pc[t].Held? {
      LoneLockerTakes(r, t);
      assert r.pc[t := Held] == s.pc[t := Held];
    }
  }

  /** How many moves unlock() has left. */
  function MovesToUnlock(word: Word, p: Pc): nat {
    if word == Locked then 1 else if p.Held? then 3 else 2
  }

  /** unlock() by the owner while nobody else moves: one access when no sleeper is announced; otherwise the owner
      also wakes all sleepers (ThunderLock) or exactly the first one (CascadeLock). */
  lemma {:induction false} LoneUnlock(s: State, t: nat)
    requires t < |s.pc| && Owns(s.pc[t]) && s.word != Unlocked && QueueIsTheSleepers(s)
    ensures var r := Repeated(Step, s, Move(t, false), MovesToUnlock(s.word, s.pc[t]));
      && |r.pc| == |s.pc| && r.word == Unlocked && r.pc[t].Idle?
      && forall i: nat :: i < |s.pc| && i != t ==>
           if !s.pc[i].Parked? || s.word == Locked || (s.kind == Cascade && i != s.queue[0]) then r.pc[i] == s.pc[i]
           else r.pc[i] == Contend(s.kind == Cascade)
    decreases MovesToUnlock(s.word, s.pc[t])
  {
    var m := Move(t, false);
    var a := Step(s, m);
    if s.word == Locked {
      assert Repeated(Step, s, m, 1) == a;
    } else if s.pc[t].Held? {
      assert a.queue == s.queue && a.pc == s.pc[t := UnlockSlow];
      LoneUnlock(a, t);
    } else {
      assert a.queue == s.queue && a.pc == s.pc[t := Unpark];
      assert Repeated(Step, s, m, 2) == Repeated(Step, a, m, 1) == Step(a, m);
    }
  }
}
