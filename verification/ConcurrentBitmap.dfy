/** Bitmap::concurrentTestAndSet and concurrentTestAndClear on the bits of one word: the retry loop of
    Atomic::transaction around a weak compare-exchange, run by any number of threads. */
module ConcurrentBitmap {

  import opened Counting
  import opened Schedules

  type Word = seq<bool>

  /** Set the bit to the value: true for concurrentTestAndSet, false for concurrentTestAndClear. */
  datatype Op = Op(bit: nat, value: bool)

  /** An operation that has taken effect, with what it returns. */
  datatype Entry = Entry(thread: nat, op: Op, result: bool)

  /** since: the length of the log when the operation was called. at: the index of its entry. */
  datatype Pc =
    | Idle
    | Load(op: Op, since: nat)                 // transaction(): the load
    | Cas(op: Op, seen: Word, since: nat)      // transaction(): the compare-exchange
    | Returned(op: Op, result: bool, since: nat, at: nat)

  /** The log is the linearization: every operation in the order in which it took effect. */
  datatype State = State(initial: Word, word: Word, pc: seq<Pc>, log: seq<Entry>)

  datatype Move =
    | Call(thread: nat, op: Op)
    | Advance(thread: nat, spurious: bool)

  function Init(word: Word, threads: nat): State {
    State(word, word, seq(threads, _ => Idle), [])
  }

  function Goto(s: State, t: nat, p: Pc): State
    requires t < |s.pc|
  {
    s.(pc := s.pc[t := p])
  }

  /** The operation takes effect and returns. Both operations negate what transaction() returns, so they
      return true when the bit already had the value. */
  function Finish(s: State, t: nat, op: Op, changed: bool, since: nat): State
    requires t < |s.pc|
  {
    Goto(s, t, Returned(op, !changed, since, |s.log|)).(log := s.log + [Entry(t, op, !changed)])
  }

  function Step(s: State, m: Move): (r: State)
    ensures |r.pc| == |s.pc|
  {
    var t := m.thread;
    if t >= |s.pc| then s else
    match m
    case Call(_, op) =>
      if (s.pc[t].Idle? || s.pc[t].Returned?) && op.bit < |s.word| then Goto(s, t, Load(op, |s.log|)) else s
    case Advance(_, spurious) =>
      match s.pc[t]
      case Load(op, since) =>
        if op.bit < |s.word| && s.word[op.bit] == op.value then Finish(s, t, op, false, since)
        else Goto(s, t, Cas(op, s.word, since))
      case Cas(op, seen, since) =>
        if s.word == seen && !spurious && op.bit < |seen| then
          Finish(s.(word := seen[op.bit := op.value]), t, op, true, since)
        else Goto(s, t, Load(op, since))
      case _ => s
  }

  /** The sequential meaning: one operation after the other on a plain word. */
  function Replay(word: Word, log: seq<Entry>): (r: Word)
    ensures |r| == |word|
  {
    if log == [] then word else
    var before := Replay(word, log[..|log| - 1]);
    var op := log[|log| - 1].op;
    if op.bit < |word| then before[op.bit := op.value] else before
  }

  /** Every operation returned what it returns when it runs alone at its place in the log. */
  ghost predicate Legal(word: Word, log: seq<Entry>) {
    forall k :: 0 <= k < |log| ==>
      var op := log[k].op;
      op.bit < |word| && log[k].result == (Replay(word, log[..k])[op.bit] == op.value)
  }

  ghost predicate PcOk(s: State, t: nat)
    requires t < |s.pc|
  {
    match s.pc[t]
    case Idle => true
    case Load(op, since) => op.bit < |s.word| && since <= |s.log|
    case Cas(op, seen, since) =>
      op.bit < |s.word| && since <= |s.log| && |seen| == |s.word| && seen[op.bit] != op.value
    case Returned(op, result, since, at) => since <= at < |s.log| && s.log[at] == Entry(t, op, result)
  }

  ghost predicate NoEntry(log: seq<Entry>, t: nat, from: nat) {
    forall k :: from <= k < |log| ==> log[k].thread != t
  }

  /** A call takes effect at most once: while it runs the thread has no entry since the call, and when it has
      returned the thread has just that one. */
  ghost predicate OnceOk(s: State, t: nat)
    requires t < |s.pc|
  {
    match s.pc[t]
    case Idle => NoEntry(s.log, t, 0)
    case Load(_, since) => NoEntry(s.log, t, since)
    case Cas(_, _, since) => NoEntry(s.log, t, since)
    case Returned(_, _, since, at) =>
      forall k :: since <= k < |s.log| && s.log[k].thread == t ==> k == at
  }

  ghost predicate Inv(s: State) {
    && s.word == Replay(s.initial, s.log)
    && Legal(s.initial, s.log)
    && (forall t :: 0 <= t < |s.pc| ==> PcOk(s, t))
    && (forall t :: 0 <= t < |s.pc| ==> OnceOk(s, t))
  }

  lemma LegalAppend(word: Word, log: seq<Entry>, e: Entry)
    requires Legal(word, log) && e.op.bit < |word|
    requires e.result == (Replay(word, log)[e.op.bit] == e.op.value)
    ensures Legal(word, log + [e])
    ensures Replay(word, log + [e]) == Replay(word, log)[e.op.bit := e.op.value]
  {
    var longer := log + [e];
    assert longer[..|log|] == log;
    forall k | 0 <= k < |longer|
      ensures longer[k].op.bit < |word|
      ensures longer[k].result == (Replay(word, longer[..k])[longer[k].op.bit] == longer[k].op.value)
    {
      assert k < |log| ==> longer[..k] == log[..k];
    }
  }

  ghost predicate LogOk(s: State) {
    s.word == Replay(s.initial, s.log) && Legal(s.initial, s.log)
  }

  lemma LogGrows(s: State, r: State, e: Entry)
    requires LogOk(s) && e.op.bit < |s.word| && e.result == (s.word[e.op.bit] == e.op.value)
    requires r.initial == s.initial && r.log == s.log + [e] && r.word == s.word[e.op.bit := e.op.value]
    ensures LogOk(r)
  {
    LegalAppend(s.initial, s.log, e);
  }

  /** Finishing an operation in the state where its compare-exchange, or its load, has seen the word. */
  lemma FinishLog(s: State, t: nat, op: Op, since: nat)
    requires LogOk(s) && t < |s.pc| && op.bit < |s.word|
    ensures s.word[op.bit] == op.value ==> LogOk(Finish(s, t, op, false, since))
    ensures s.word[op.bit] != op.value ==> LogOk(Finish(s.(word := s.word[op.bit := op.value]), t, op, true, since))
  {
    if s.word[op.bit] == op.value {
      assert s.word[op.bit := op.value] == s.word;
      LogGrows(s, Finish(s, t, op, false, since), Entry(t, op, true));
    } else {
      LogGrows(s, Finish(s.(word := s.word[op.bit := op.value]), t, op, true, since), Entry(t, op, false));
    }
  }

  lemma StepLog(s: State, m: Move)
    requires LogOk(s) && m.thread < |s.pc| && PcOk(s, m.thread)
    ensures LogOk(Step(s, m))
  {
    if m.Advance? {
      match s.pc[m.thread]
      case Load(op, since) => FinishLog(s, m.thread, op, since);
      case Cas(op, seen, since) => FinishLog(s, m.thread, op, since);
      case _ =>
    }
  }

  lemma StepPc(s: State, m: Move, i: nat)
    requires Inv(s) && i < |s.pc|
    ensures PcOk(Step(s, m), i)
  {
    var r := Step(s, m);
    assert PcOk(s, i);
    assert r.log == s.log || (|r.log| == |s.log| + 1 && r.log[..|s.log|] == s.log);
    assert |r.word| == |s.word|;
    if i != m.thread {
      assert r.pc[i] == s.pc[i];
      if s.pc[i].Returned? { assert r.log[s.pc[i].at] == s.log[s.pc[i].at]; }
    }
  }

  lemma StepOnce(s: State, m: Move, i: nat)
    requires i < |s.pc| && OnceOk(s, i)
    ensures OnceOk(Step(s, m), i)
  {
    var r := Step(s, m);
    assert r.log == s.log || (|r.log| == |s.log| + 1 && r.log[..|s.log|] == s.log);
    if i != m.thread {
      assert r.pc[i] == s.pc[i];
      assert |r.log| > |s.log| ==> r.log[|s.log|].thread == m.thread;
    }
  }

  lemma StepInv(s: State, m: Move)
    requires Inv(s)
    ensures Inv(Step(s, m))
  {
    if m.thread < |s.pc| {
      StepLog(s, m);
      forall i | 0 <= i < |s.pc| ensures PcOk(Step(s, m), i) { StepPc(s, m, i); }
      forall i | 0 <= i < |s.pc| ensures OnceOk(Step(s, m), i) { StepOnce(s, m, i); }
    }
  }

  ghost predicate Reachable(s: State) {
    exists moves :: s == Run(Step, Init(s.initial, |s.pc|), moves)
  }

  lemma ReachableInv(s: State)
    requires Reachable(s)
    ensures Inv(s)
  {
    var moves :| s == Run(Step, Init(s.initial, |s.pc|), moves);
    forall a, m | Inv(a) ensures Inv(Step(a, m)) { StepInv(a, m); }
    RunKeeps(Step, Inv, Init(s.initial, |s.pc|), moves);
  }

  /** The main result, linearizability: after any schedule, the word is what the log leaves when its
      operations run one after the other, every operation has returned what it returns in that order, and
      its one place in that order lies between its call and its return. */
  lemma Linearizable(s: State, t: nat)
    requires Reachable(s) && t < |s.pc|
    ensures s.word == Replay(s.initial, s.log) && Legal(s.initial, s.log)
    ensures s.pc[t].Returned? ==>
      s.pc[t].since <= s.pc[t].at < |s.log| && s.log[s.pc[t].at] == Entry(t, s.pc[t].op, s.pc[t].result)
    ensures s.pc[t].Returned? ==> forall k :: s.pc[t].since <= k < |s.log| && s.log[k].thread == t ==> k == s.pc[t].at
    ensures s.pc[t].Load? || s.pc[t].Cas? ==> NoEntry(s.log, t, s.pc[t].since)
    ensures s.pc[t].Idle? ==> NoEntry(s.log, t, 0)
  {
    ReachableInv(s);
    assert PcOk(s, t) && OnceOk(s, t);
  }

  /** How many accesses of its own a call still makes when nobody interferes. */
  function AccessesLeft(word: Word, p: Pc): nat {
    match p
    case Load(op, _) => if op.bit < |word| && word[op.bit] == op.value then 1 else 2
    case Cas(op, seen, _) => if seen == word then 1 else if op.bit < |word| && word[op.bit] == op.value then 2 else 3
    case _ => 0
  }

  /** A call that no other thread interrupts any more, and whose compare-exchange does not fail for no reason, returns
      after at most three accesses. Then its bit has the value and every other bit is as before; and the call says
      whether the bit had the value already. */
  lemma {:induction false} LoneCallReturns(s: State, t: nat)
    requires t < |s.pc| && PcOk(s, t) && (s.pc[t].Load? || s.pc[t].Cas?)
    ensures var op, r := s.pc[t].op, Repeated(Step, s, Advance(t, false), AccessesLeft(s.word, s.pc[t]));
      && |r.pc| == |s.pc| && r.pc[t].Returned? && r.pc[t].op == op
      && r.pc[t].result == (s.word[op.bit] == op.value)
      && r.word == s.word[op.bit := op.value]
      && (forall i :: 0 <= i < |s.pc| && i != t ==> r.pc[i] == s.pc[i])
    decreases AccessesLeft(s.word, s.pc[t])
  {
    var r := Step(s, Advance(t, false));
    if !r.pc[t].Returned? { LoneCallReturns(r, t); }
  }

  /** So a call from start to end takes at most two accesses. */
  lemma LoneCall(s: State, t: nat, op: Op)
    requires t < |s.pc| && (s.pc[t].Idle? || s.pc[t].Returned?) && op.bit < |s.word|
    ensures var called := Step(s, Call(t, op));
      var r := Repeated(Step, called, Advance(t, false), if s.word[op.bit] == op.value then 1 else 2);
      && |r.pc| == |s.pc| && r.pc[t].Returned? && r.pc[t].op == op
      && r.pc[t].result == (s.word[op.bit] == op.value) && r.word == s.word[op.bit := op.value]
  {
    LoneCallReturns(Step(s, Call(t, op)), t);
  }

  /** A compare-exchange that fails for no reason has no effect. */
  lemma SpuriousFailure(s: State, t: nat)
    requires t < |s.pc| && s.pc[t].Cas?
    ensures var r := Step(s, Advance(t, true)); r.word == s.word && r.log == s.log && !r.pc[t].Returned?
  {
  }

  predicate Touches(e: Entry, bit: nat) {
    e.op.bit == bit
  }

  /** No bit is lost: a bit has the value of the last operation on it. */
  lemma {:induction false} BitIsLastWritten(word: Word, log: seq<Entry>, bit: nat, k: nat)
    requires bit < |word| && k < |log| && Touches(log[k], bit)
    requires forall j :: k < j < |log| ==> !Touches(log[j], bit)
    ensures Replay(word, log)[bit] == log[k].op.value
  {
    if k < |log| - 1 {
      BitIsLastWritten(word, log[..|log| - 1], bit, k);
    }
  }

  /** And a bit on which there was no operation is as it was. */
  lemma {:induction false} UntouchedBitStays(word: Word, log: seq<Entry>, bit: nat)
    requires bit < |word|
    requires forall j :: 0 <= j < |log| ==> !Touches(log[j], bit)
    ensures Replay(word, log)[bit] == word[bit]
  {
    if log != [] {
      UntouchedBitStays(word, log[..|log| - 1], bit);
    }
  }

  function Setting(bit: nat): Entry -> bool {
    (e: Entry) => e.op == Op(bit, true)
  }

  /** A setter that returned false found the bit clear. */
  function Winning(bit: nat): Entry -> bool {
    (e: Entry) => e.op == Op(bit, true) && !e.result
  }

  lemma {:induction false} WinnersOf(word: Word, log: seq<Entry>, bit: nat)
    requires Legal(word, log) && bit < |word| && !word[bit]
    requires forall j :: 0 <= j < |log| ==> log[j].op != Op(bit, false)
    ensures CountIf(log, Winning(bit)) == if CountIf(log, Setting(bit)) > 0 then 1 else 0
    ensures Replay(word, log)[bit] <==> CountIf(log, Setting(bit)) > 0
  {
    if log != [] {
      var front := log[..|log| - 1];
      forall k | 0 <= k < |front|
        ensures front[k].op.bit < |word|
        ensures front[k].result == (Replay(word, front[..k])[front[k].op.bit] == front[k].op.value)
      {
        assert front[..k] == log[..k];
      }
      WinnersOf(word, front, bit);
    }
  }

  /** Of all the calls that set a bit which was clear and which nobody clears, exactly one returns false. */
  lemma ExactlyOneSetterWins(s: State, bit: nat)
    requires Reachable(s) && bit < |s.initial| && !s.initial[bit]
    requires forall j :: 0 <= j < |s.log| ==> s.log[j].op != Op(bit, false)
    requires exists j :: 0 <= j < |s.log| && s.log[j].op == Op(bit, true)
    ensures exists w :: (0 <= w < |s.log| && s.log[w].op == Op(bit, true) && !s.log[w].result
      && forall j :: 0 <= j < |s.log| && s.log[j].op == Op(bit, true) && j != w ==> s.log[j].result)
  {
    ReachableInv(s);
    WinnersOf(s.initial, s.log, bit);
    CountNone(s.log, Setting(bit));
    OneWinner(s.log, bit);
  }

  lemma OneWinner(log: seq<Entry>, bit: nat)
    requires CountIf(log, Winning(bit)) == 1
    ensures exists w :: (0 <= w < |log| && log[w].op == Op(bit, true) && !log[w].result
      && forall j :: 0 <= j < |log| && log[j].op == Op(bit, true) && j != w ==> log[j].result)
  {
    OnlyOne(log, Winning(bit));
    var w :| 0 <= w < |log| && Winning(bit)(log[w]) && forall j :: 0 <= j < |log| && Winning(bit)(log[j]) ==> j == w;
    assert log[w].op == Op(bit, true) && !log[w].result;
    assert forall j :: 0 <= j < |log| && log[j].op == Op(bit, true) && !log[j].result ==> Winning(bit)(log[j]);
  }

  lemma {:induction false} OnlyOne<T>(s: seq<T>, p: T -> bool)
    requires CountIf(s, p) == 1
    ensures exists w :: 0 <= w < |s| && p(s[w]) && forall j :: 0 <= j < |s| && p(s[j]) ==> j == w
  {
    var front := s[..|s| - 1];
    assert forall j :: 0 <= j < |front| ==> front[j] == s[j];
    if p(s[|s| - 1]) {
      CountNone(front, p);
    } else {
      OnlyOne(front, p);
      var w :| 0 <= w < |front| && p(front[w]) && forall j :: 0 <= j < |front| && p(front[j]) ==> j == w;
      assert p(s[w]);
    }
  }

  /** What Bitmap::testAndClear returns on its own: the old value of the bit. */
  function TestAndClearResult(word: Word, bit: nat): bool
    requires bit < |word|
  {
    word[bit]
  }

  /** concurrentTestAndClear returns the opposite: true for a bit that was clear already. */
  lemma ConcurrentClearIsNegated(s: State, k: nat)
    requires Reachable(s) && k < |s.log| && !s.log[k].op.value
    ensures s.log[k].op.bit < |s.initial|
    ensures s.log[k].result == !TestAndClearResult(Replay(s.initial, s.log[..k]), s.log[k].op.bit)
  {
    ReachableInv(s);
  }
}
