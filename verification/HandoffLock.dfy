/** HandoffLock: unlock() passes the ownership of the lock to the sleeper that it wakes. The word is a 32-bit
    unsigned integer: a locked bit and, in the 31 bits above it, the number of threads between their
    increment and their decrement. A move is one atomic access of one thread. */
module HandoffLock {

  import opened Counting
  import opened Schedules

  const COUNT_LIMIT := 0x8000_0000

  /** The unsigned value is count * 2 + (if locked then 1 else 0). */
  datatype Word = Word(locked: bool, count: nat)

  const FREE := Word(false, 0)
  const LOCKED := Word(true, 0)

  /** Adding parkedCountUnit to the 32-bit word, which wraps around. */
  function Increment(word: Word): Word {
    word.(count := if word.count + 1 < COUNT_LIMIT then word.count + 1 else 0)
  }

  /** Adding -parkedCountUnit to the 32-bit word, which wraps around. */
  function Decrement(word: Word): Word {
    word.(count := if word.count > 0 then word.count - 1 else COUNT_LIMIT - 1)
  }

  /** Where a thread is. The comments name the access that its next move makes. */
  datatype Pc =
    | Idle                       // lock(): the first compare-exchange
    | Load                       // lockSlow(): the load at the top of the loop
    | TakeCas(seen: Word)         // lockSlow(): setting the locked bit
    | CountCas(seen: Word)        // lockSlow(): adding one parked thread
    | Park(expected: Word)        // lockSlow(): compareAndPark
    | Parked                     // asleep in the parking lot
    | Uncount(unparked: bool)    // lockSlow(): subtracting one parked thread
    | Held                       // unlock(): the first compare-exchange
    | UnlockLoad                 // unlockSlow(): the load at the top of the loop
    | UnlockCas                  // unlockSlow(): clearing the locked bit
    | Unpark                     // unlockSlow(): unparkOne

  /** assertFailed: the release assertion in unlockSlow() has fired. */
  datatype State = State(word: Word, pc: seq<Pc>, queue: seq<nat>, assertFailed: bool)

  datatype Move = Move(thread: nat, spurious: bool)

  function Init(threads: nat): State {
    State(FREE, seq(threads, _ => Idle), [], false)
  }

  predicate CasWins(s: State, expected: Word, m: Move) {
    s.word == expected && !m.spurious
  }

  function Goto(s: State, t: nat, p: Pc): State
    requires t < |s.pc|
  {
    s.(pc := s.pc[t := p])
  }

  function Step(s: State, m: Move): (r: State)
    ensures |r.pc| == |s.pc|
  {
    var t := m.thread;
    if t >= |s.pc| then s else
    match s.pc[t]
    case Idle =>
      if CasWins(s, FREE, m) then Goto(s.(word := LOCKED), t, Held) else Goto(s, t, Load)
    case Load =>
      Goto(s, t, if s.word.locked then CountCas(s.word) else TakeCas(s.word))
    case TakeCas(seen) =>
      if CasWins(s, seen, m) then Goto(s.(word := seen.(locked := true)), t, Held) else Goto(s, t, Load)
    case CountCas(seen) =>
      if CasWins(s, seen, m) then Goto(s.(word := Increment(seen)), t, Park(Increment(seen)))
      else Goto(s, t, Load)
    case Park(expected) =>
      if s.word == expected then Goto(s.(queue := s.queue + [t]), t, Parked)
      else Goto(s, t, Uncount(false))
    case Parked => s
    case Uncount(unparked) =>
      Goto(s.(word := Decrement(s.word)), t, if unparked then Held else Load)
    case Held =>
      if CasWins(s, LOCKED, m) then Goto(s.(word := FREE), t, Idle) else Goto(s, t, UnlockLoad)
    case UnlockLoad =>
      if s.word.count != 0 then Goto(s, t, Unpark)
      else Goto(s.(assertFailed := s.assertFailed || s.word != LOCKED), t, UnlockCas)
    case UnlockCas =>
      if CasWins(s, LOCKED, m) then Goto(s.(word := FREE), t, Idle) else Goto(s, t, UnlockLoad)
    case Unpark =>
      if s.queue != [] && s.queue[0] < |s.pc| then
        Goto(Goto(s.(queue := s.queue[1..]), s.queue[0], Uncount(true)), t, Idle)
      else Goto(s, t, UnlockLoad)
  }

  /** A sleeper that was handed the lock owns it although it still has to subtract itself. */
  predicate Owns(p: Pc) {
    p.Held? || p.UnlockLoad? || p.UnlockCas? || p.Unpark? || p == Uncount(true)
  }

  /** Between the increment and the decrement. */
  predicate Counted(p: Pc) {
    p.Park? || p.Parked? || p.Uncount?
  }

  ghost predicate OneOwner(s: State) {
    forall i, j :: 0 <= i < |s.pc| && 0 <= j < |s.pc| && Owns(s.pc[i]) && Owns(s.pc[j]) ==> i == j
  }

  /** The locked bit tells whether there is an owner and the rest of the word counts the counted threads,
      of which there are none without an owner. */
  ghost predicate WordCounts(s: State) {
    && s.word.count == CountIf(s.pc, Counted)
    && (s.word.locked <==> exists i :: 0 <= i < |s.pc| && Owns(s.pc[i]))
    && (!s.word.locked ==> s.word.count == 0)
  }

  ghost predicate QueueIsTheSleepers(s: State) {
    && (forall i: nat :: i in s.queue <==> i < |s.pc| && s.pc[i].Parked?)
    && (forall i, j :: 0 <= i < j < |s.queue| ==> s.queue[i] != s.queue[j])
  }

  ghost predicate SeenOk(p: Pc) {
    && (p.TakeCas? ==> !p.seen.locked)
    && (p.CountCas? ==> p.seen.locked)
  }

  ghost predicate Inv(s: State) {
    && OneOwner(s) && WordCounts(s) && QueueIsTheSleepers(s) && !s.assertFailed
    && (forall i :: 0 <= i < |s.pc| ==> SeenOk(s.pc[i]))
  }

  lemma OthersStay(s: State, m: Move, i: nat)
    requires QueueIsTheSleepers(s) && i < |s.pc| && i != m.thread && !s.pc[i].Parked?
    ensures Step(s, m).pc[i] == s.pc[i]
  {
  }

  /** Ownership starts at a free word, or is handed by the owner to the first sleeper and to nobody else. */
  lemma NewOwner(s: State, m: Move, i: nat)
    requires Inv(s) && i < |s.pc| && Owns(Step(s, m).pc[i]) && !Owns(s.pc[i])
    ensures if i == m.thread then !s.word.locked
      else m.thread < |s.pc| && s.pc[m.thread].Unpark? && s.queue != [] && i == s.queue[0]
  {
    if i != m.thread && !s.pc[i].Parked? { OthersStay(s, m, i); }
  }

  lemma StepOwner(s: State, m: Move)
    requires Inv(s)
    ensures OneOwner(Step(s, m))
    ensures forall i: nat | i < |s.pc| && Owns(Step(s, m).pc[i]) && !Owns(s.pc[i]) ::
      if i == m.thread then !s.word.locked
      else m.thread < |s.pc| && s.pc[m.thread].Unpark? && s.queue != [] && i == s.queue[0]
  {
    var r := Step(s, m);
    forall i: nat | i < |s.pc| && Owns(r.pc[i]) && !Owns(s.pc[i])
      ensures if i == m.thread then !s.word.locked
        else m.thread < |s.pc| && s.pc[m.thread].Unpark? && s.queue != [] && i == s.queue[0]
    {
      NewOwner(s, m, i);
    }
    StepOneOwner(s, m);
  }

  lemma StepOneOwner(s: State, m: Move)
    requires Inv(s)
    ensures OneOwner(Step(s, m))
  {
    var t, r := m.thread, Step(s, m);
    forall i, j | 0 <= i < |s.pc| && 0 <= j < |s.pc| && Owns(r.pc[i]) && Owns(r.pc[j])
      ensures i == j
    {
      if i != t && !s.pc[i].Parked? { OthersStay(s, m, i); }
      if j != t && !s.pc[j].Parked? { OthersStay(s, m, j); }
    }
  }

  lemma StepCount(s: State, m: Move)
    requires Inv(s) && m.thread < |s.pc|
    ensures var t, r := m.thread, Step(s, m);
      CountIf(r.pc, Counted) + (if Counted(s.pc[t]) then 1 else 0)
      == CountIf(s.pc, Counted) + (if Counted(r.pc[t]) then 1 else 0)
  {
    var t, r := m.thread, Step(s, m);
    if s.pc[t].Unpark? && s.queue != [] {
      var head := s.queue[0];
      assert head in s.queue;
      CountUpdate(s.pc, head, Uncount(true), Counted);
      CountUpdate(s.pc[head := Uncount(true)], t, Idle, Counted);
    } else {
      CountUpdate(s.pc, t, r.pc[t], Counted);
    }
  }

  lemma StepLockedBit(s: State, m: Move)
    requires Inv(s)
    ensures Step(s, m).word.locked <==> exists i :: 0 <= i < |s.pc| && Owns(Step(s, m).pc[i])
  {
    var t, r := m.thread, Step(s, m);
    if t < |s.pc| {
      if o :| 0 <= o < |s.pc| && Owns(s.pc[o]) {
        if o != t { OthersStay(s, m, o); }
        assert Owns(r.pc[o]) || o == t;
        if s.pc[t].Unpark? && s.queue != [] {
          assert s.queue[0] in s.queue;
          assert Owns(r.pc[s.queue[0]]);
        }
      }
      assert Owns(r.pc[t]) ==> r.word.locked;
      if o :| 0 <= o < |s.pc| && Owns(r.pc[o]) {
        if o != t && !s.pc[o].Parked? { OthersStay(s, m, o); }
      }
    }
  }

  lemma StepWord(s: State, m: Move)
    requires Inv(s) && |s.pc| < COUNT_LIMIT
    ensures WordCounts(Step(s, m))
  {
    StepLockedBit(s, m);
    if m.thread < |s.pc| { StepCount(s, m); }
  }

  lemma UnparkQueue(s: State, m: Move)
    requires QueueIsTheSleepers(s) && m.thread < |s.pc| && s.pc[m.thread].Unpark?
    ensures QueueIsTheSleepers(Step(s, m))
  {
    if s.queue != [] {
      var r := Step(s, m);
      assert s.queue[0] in s.queue;
      assert s.queue == [s.queue[0]] + r.queue;
      assert forall i: nat :: i in r.queue <==> i in s.queue && i != s.queue[0];
    }
  }

  lemma ParkQueue(s: State, t: nat)
    requires QueueIsTheSleepers(s) && t < |s.pc| && !s.pc[t].Parked?
    ensures QueueIsTheSleepers(Goto(s.(queue := s.queue + [t]), t, Parked))
  {
    assert forall i: nat :: i in s.queue + [t] <==> i in s.queue || i == t;
  }

  lemma StepQueue(s: State, m: Move)
    requires QueueIsTheSleepers(s)
    ensures QueueIsTheSleepers(Step(s, m))
  {
    var t, r := m.thread, Step(s, m);
    if t >= |s.pc| {
    } else if s.pc[t].Unpark? {
      UnparkQueue(s, m);
    } else if s.pc[t].Park? && s.word == s.pc[t].expected {
      ParkQueue(s, t);
    } else {
      assert r.queue == s.queue && r.pc == s.pc[t := r.pc[t]];
    }
  }

  lemma StepSeen(s: State, m: Move)
    requires Inv(s)
    ensures forall i :: 0 <= i < |s.pc| ==> SeenOk(Step(s, m).pc[i])
  {
    forall i | 0 <= i < |s.pc| ensures SeenOk(Step(s, m).pc[i]) {
      if i != m.thread && !s.pc[i].Parked? { OthersStay(s, m, i); }
    }
  }

  lemma StepNeverFails(s: State, m: Move)
    requires Inv(s)
    ensures !Step(s, m).assertFailed
  {
    if m.thread < |s.pc| { assert s.pc[m.thread].UnlockLoad? ==> Owns(s.pc[m.thread]); }
  }

  lemma StepInv(s: State, m: Move)
    requires Inv(s) && |s.pc| < COUNT_LIMIT
    ensures Inv(Step(s, m))
  {
    StepOneOwner(s, m);
    StepWord(s, m);
    StepQueue(s, m);
    StepSeen(s, m);
    StepNeverFails(s, m);
  }

  lemma InitInv(threads: nat)
    ensures Inv(Init(threads))
  {
    CountNone(Init(threads).pc, Counted);
  }

  lemma RunInv(s: State, moves: seq<Move>)
    requires Inv(s) && |s.pc| < COUNT_LIMIT
    ensures Inv(Run(Step, s, moves))
  {
    ghost var inv: State -> bool := a => Inv(a) && |a.pc| < COUNT_LIMIT;
    forall a, m | inv(a) ensures inv(Step(a, m)) { StepInv(a, m); }
    RunKeeps(Step, inv, s, moves);
  }

  /** The threads are fewer than 2^31, so that their count fits in the word. */
  ghost predicate Reachable(s: State) {
    |s.pc| < COUNT_LIMIT && exists moves :: s == Run(Step, Init(|s.pc|), moves)
  }

  /** The main result: every state that any schedule reaches has one owner at most, a word that counts
      exactly the threads between their increment and their decrement, and an assertion that never fired. */
  lemma ReachableIsSafe(s: State)
    requires Reachable(s)
    ensures OneOwner(s) && WordCounts(s) && QueueIsTheSleepers(s) && !s.assertFailed
    ensures !s.word.locked ==> s.word == FREE && s.queue == []
  {
    var moves :| s == Run(Step, Init(|s.pc|), moves);
    InitInv(|s.pc|);
    RunInv(Init(|s.pc|), moves);
    CountNone(s.pc, Counted);
    if s.queue != [] {
      assert s.queue[0] in s.queue;
    }
  }

  function Holds(w: nat): State -> bool {
    (s: State) => w < |s.pc| && s.pc[w].Held?
  }

  ghost predicate CanLock(s: State, w: nat) {
    CanReach(Step, s, Holds(w))
  }

  /** No wakeup is lost, in terms of what can still happen: from every reachable state some schedule hands
      the lock to any thread of our choice that is asleep. */
  lemma SleeperCanLock(s: State, w: nat)
    requires Reachable(s) && w < |s.pc| && s.pc[w].Parked?
    ensures CanLock(s, w)
  {
    var moves :| s == Run(Step, Init(|s.pc|), moves);
    InitInv(|s.pc|);
    RunInv(Init(|s.pc|), moves);
    CountNone(s.pc, Counted);
    var o :| 0 <= o < |s.pc| && Owns(s.pc[o]);
    HelpedCanLock(s, w, o);
  }

  /** How far an owner is from handing the lock over. */
  function OwnerDistance(p: Pc): nat {
    match p
    case Uncount(_) => 4
    case Held => 3
    case UnlockCas => 3
    case UnlockLoad => 2
    case _ => 1
  }

  lemma {:induction false} HelpedCanLock(s: State, w: nat, o: nat)
    requires Inv(s) && |s.pc| < COUNT_LIMIT && w < |s.pc| && o < |s.pc| && Owns(s.pc[o])
    requires s.pc[w].Parked? || (w == o && s.pc[w] == Uncount(true))
    ensures CanLock(s, w)
    decreases |s.queue|, OwnerDistance(s.pc[o])
  {
    var m := Move(o, false);
    var r := Step(s, m);
    StepInv(s, m);
    if w == o {
      CanReachNow(Step, r, Holds(w));
      CanReachBefore(Step, s, m, Holds(w));
    } else {
      assert w in s.queue && s.queue[0] in s.queue;
      CountNone(s.pc, Counted);
      HelpedCanLock(r, w, if s.pc[o].Unpark? then s.queue[0] else o);
      CanReachBefore(Step, s, m, Holds(w));
    }
  }

  /** In lock(), asleep included, or about to call it. */
  predicate WantsLock(p: Pc) {
    p.Idle? || p.Load? || p.TakeCas? || p.CountCas? || p.Park? || p.Parked? || p == Uncount(false)
  }

  /** A weak compare-exchange that fails for no reason takes no lock and changes no word. */
  lemma SpuriousFailure(s: State, t: nat)
    requires t < |s.pc| && !s.pc[t].Uncount? && !s.pc[t].Unpark?
    ensures var r := Step(s, Move(t, true));
      r.word == s.word && (r.pc[t].Held? ==> s.pc[t].Held?) && (r.pc[t].Idle? ==> s.pc[t].Idle?)
  {
  }

  /** How many moves of its own bring a thread to sleep or to the lock. */
  function OwnMoves(word: Word, p: Pc): nat {
    match p
    case Idle => 9
    case Load => 5
    case TakeCas(seen) => if seen == word then 1 else 8
    case CountCas(seen) => if seen == word then 3 else 8
    case Park(expected) => if expected == word then 1 else 7
    case Uncount(_) => 6
    case _ => 0
  }

  /** Nobody gets stuck in lock(): from every reachable state some schedule gives the lock to any thread of our
      choice that is anywhere in lock(). */
  lemma LockerCanLock(s: State, w: nat)
    requires Reachable(s) && w < |s.pc| && WantsLock(s.pc[w])
    ensures CanLock(s, w)
  {
    var moves :| s == Run(Step, Init(|s.pc|), moves);
    InitInv(|s.pc|);
    RunInv(Init(|s.pc|), moves);
    WantingCanLock(s, w);
  }

  lemma {:induction false} WantingCanLock(s: State, w: nat)
    requires Inv(s) && |s.pc| < COUNT_LIMIT && w < |s.pc| && WantsLock(s.pc[w])
    ensures CanLock(s, w)
    decreases OwnMoves(s.word, s.pc[w])
  {
    if s.pc[w].Parked? {
      CountNone(s.pc, Counted);
      var o :| 0 <= o < |s.pc| && Owns(s.pc[o]);
      HelpedCanLock(s, w, o);
    } else {
      var m := Move(w, false);
      StepInv(s, m);
      if Step(s, m).pc[w].Held? {
        CanReachNow(Step, Step(s, m), Holds(w));
      } else {
        WantingCanLock(Step(s, m), w);
      }
      CanReachBefore(Step, s, m, Holds(w));
    }
  }

  /** After how many moves of its own a thread is asleep while the lock stays taken. */
  function MovesToPark(word: Word, p: Pc): nat {
    match p
    case Idle => 4
    case Load => 3
    case TakeCas(_) => 4
    case CountCas(seen) => if seen == word then 2 else 4
    case Park(expected) => if expected == word then 1 else 5
    case Uncount(_) => 4
    case _ => 0
  }

  /** While the lock is taken and nobody else moves, a thread in lock() counts itself once and goes to sleep. */
  lemma {:induction false} LoneLockerParks(s: State, t: nat)
    requires Inv(s) && |s.pc| < COUNT_LIMIT && t < |s.pc| && s.word.locked && WantsLock(s.pc[t]) && !s.pc[t].Parked?
    ensures var r := Repeated(Step, s, Move(t, false), MovesToPark(s.word, s.pc[t]));
      && r.pc == s.pc[t := Parked] && r.queue == s.queue + [t] && r.word.locked
      && r.word.count == s.word.count + if Counted(s.pc[t]) then 0 else 1
    decreases MovesToPark(s.word, s.pc[t])
  {
    var r := Step(s, Move(t, false));
    StepInv(s, Move(t, false));
    StepWord(s, Move(t, false));
    StepCount(s, Move(t, false));
    if !r.pc[t].Parked? {
      LoneLockerParks(r, t);
      assert r.pc[t := Parked] == s.pc[t := Parked];
    }
  }

  /** After how many moves of its own a thread has a free lock. */
  function MovesToTake(word: Word, p: Pc): nat {
    match p
    case Load => 2
    case TakeCas(seen) => if seen == word then 1 else 3
    case CountCas(_) => 3
    case _ => 1
  }

  /** While the lock is free and nobody else moves, a thread in lock() takes it. */
  lemma {:induction false} LoneLockerTakes(s: State, t: nat)
    requires Inv(s) && |s.pc| < COUNT_LIMIT && t < |s.pc| && !s.word.locked && WantsLock(s.pc[t])
    ensures var r := Repeated(Step, s, Move(t, false), MovesToTake(s.word, s.pc[t]));
      r.pc == s.pc[t := Held] && r.queue == s.queue && r.word == LOCKED
    decreases MovesToTake(s.word, s.pc[t])
  {
    CountNone(s.pc, Counted);
    assert !Counted(s.pc[t]) && SeenOk(s.pc[t]);
    var r := Step(s, Move(t, false));
    if !r.pc[t].Held? {
      StepInv(s, Move(t, false));
      LoneLockerTakes(r, t);
      assert r.pc[t := Held] == s.pc[t := Held];
    }
  }

  /** unlock() by the owner while nobody else moves: one access when nobody is counted; otherwise, when somebody is
      asleep, exactly the first sleeper owns the lock afterwards. */
  lemma LoneUnlock(s: State, t: nat)
    requires Inv(s) && t < |s.pc| && s.pc[t].Held? && (s.word.count > 0 ==> s.queue != [])
    ensures var r := Repeated(Step, s, Move(t, false), if s.word.count == 0 then 1 else 3);
      && r.word == s.word.(locked := s.word.count > 0) && |r.pc| == |s.pc|
      && forall i: nat :: i < |s.pc| ==>
           r.pc[i] == if i == t then Idle else if s.word.count > 0 && i == s.queue[0] then Uncount(true) else s.pc[i]
  {
    var m := Move(t, false);
    assert Owns(s.pc[t]);
    assert Repeated(Step, s, m, 1) == Step(s, m);
    if s.word.count > 0 {
      assert s.queue[0] in s.queue;
      var a := Step(s, m);
      var b := Step(a, m);
      assert Repeated(Step, s, m, 3) == Repeated(Step, a, m, 2) == Repeated(Step, b, m, 1) == Step(b, m);
      assert b.queue == s.queue && b.pc == s.pc[t := Unpark];
      assert s.queue[0] != t;
    }
  }
}
