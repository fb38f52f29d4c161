/** The assertions with which the bounded queue test ends, about the list of received messages. */
module ReceivedMessages {

  import opened BoundedQueue
  import opened Counting
  import opened QueueLimits
  import opened Schedules

  const UINT32 := 0x1_0000_0000

  /** Where the test looks for the message with index m of one of the producers, before the wrap to 32 bits. */
  function Slot(producers: nat, m: nat, p: nat): nat {
    m * producers + p
  }

  ghost predicate SlotHolds(sorted: seq<nat>, producers: nat, m: nat, p: nat) {
    var k := Slot(producers, m, p) % UINT32;
    k < |sorted| && sorted[k] == m
  }

  /** The expected number of messages is computed in 32 bits as well. */
  ghost predicate AssertionsPass(producers: nat, messages: nat, sorted: seq<nat>) {
    && producers * messages % UINT32 == |sorted|
    && forall m, p | 0 <= m < messages && 0 <= p < producers :: SlotHolds(sorted, producers, m, p)
  }

  ghost predicate Sorted(s: seq<nat>) {
    forall i, j :: 0 <= i < j < |s| ==> s[i] <= s[j]
  }

  function Bag(s: seq<nat>): multiset<nat> {
    multiset(s)
  }

  function Copies(n: nat, v: nat): (r: seq<nat>)
    ensures |r| == n && forall i :: 0 <= i < n ==> r[i] == v
  {
    if n == 0 then [] else Copies(n - 1, v) + [v]
  }

  /** Each index below messages, producers times each, in order. */
  function Expected(producers: nat, messages: nat): (r: seq<nat>)
    ensures forall i :: 0 <= i < |r| ==> r[i] < messages
  {
    if messages == 0 then [] else Expected(producers, messages - 1) + Copies(producers, messages - 1)
  }

  lemma {:induction false} CopiesCount(n: nat, v: nat, w: nat)
    ensures Count(Copies(n, v), w) == if w == v then n else 0
  {
    if n > 0 {
      CopiesCount(n - 1, v, w);
      CountAppend(Copies(n - 1, v), [v], w);
    }
  }

  lemma {:induction false} ExpectedLength(producers: nat, messages: nat)
    ensures |Expected(producers, messages)| == messages * producers
  {
    if messages > 0 {
      ExpectedLength(producers, messages - 1);
      assert messages * producers == (messages - 1) * producers + producers;
    }
  }

  lemma {:induction false} ExpectedCount(producers: nat, messages: nat, v: nat)
    ensures Count(Expected(producers, messages), v) == if v < messages then producers else 0
  {
    if messages > 0 {
      ExpectedCount(producers, messages - 1, v);
      CopiesCount(producers, messages - 1, v);
      CountAppend(Expected(producers, messages - 1), Copies(producers, messages - 1), v);
    }
  }

  lemma {:induction false} ExpectedSorted(producers: nat, messages: nat)
    ensures Sorted(Expected(producers, messages))
  {
    if messages > 0 { ExpectedSorted(producers, messages - 1); }
  }

  lemma {:induction false} ExpectedSlot(producers: nat, messages: nat, m: nat, p: nat)
    requires m < messages && p < producers
    ensures Slot(producers, m, p) < |Expected(producers, messages)|
    ensures Expected(producers, messages)[Slot(producers, m, p)] == m
  {
    var front := Expected(producers, messages - 1);
    ExpectedLength(producers, messages - 1);
    assert Expected(producers, messages) == front + Copies(producers, messages - 1);
    if m < messages - 1 {
      ExpectedSlot(producers, messages - 1, m, p);
    } else {
      assert Slot(producers, m, p) == |front| + p;
    }
  }

  lemma LastIsLargest(s: seq<nat>, v: nat)
    requires Sorted(s) && v in Bag(s)
    ensures s != [] && v <= s[|s| - 1]
  {
    assert v in s;
  }

  lemma BagOfFront(s: seq<nat>)
    requires s != []
    ensures Bag(s[..|s| - 1]) == Bag(s) - multiset{s[|s| - 1]}
    ensures s[|s| - 1] in Bag(s)
  {
    assert s == s[..|s| - 1] + [s[|s| - 1]];
  }

  lemma SameLast(a: seq<nat>, b: seq<nat>)
    requires Sorted(a) && Sorted(b) && Bag(a) == Bag(b) && a != [] && b != []
    ensures a[|a| - 1] == b[|b| - 1] && Bag(a[..|a| - 1]) == Bag(b[..|b| - 1])
  {
    BagOfFront(a);
    BagOfFront(b);
    LastIsLargest(a, b[|b| - 1]);
    LastIsLargest(b, a[|a| - 1]);
  }

  lemma {:induction false} SortedUnique(a: seq<nat>, b: seq<nat>)
    requires Sorted(a) && Sorted(b) && Bag(a) == Bag(b)
    ensures a == b
  {
    assert |a| == |Bag(a)| && |b| == |Bag(b)|;
    if a != [] {
      SameLast(a, b);
      SortedUnique(a[..|a| - 1], b[..|b| - 1]);
      assert a == a[..|a| - 1] + [a[|a| - 1]] && b == b[..|b| - 1] + [b[|b| - 1]];
    }
  }

  /** Whatever the schedule, sorting the received messages gives every index as often as there are producers. */
  lemma SortedIsExpected(s: State, sorted: seq<nat>)
    requires Reachable(s) && s.main == Finished && s.config.consumers >= 1
    requires Sorted(sorted) && Bag(sorted) == Bag(s.received)
    ensures sorted == Expected(s.config.producers, s.config.messages)
  {
    var r := Expected(s.config.producers, s.config.messages);
    forall v: nat ensures Bag(sorted)[v] == Bag(r)[v] {
      FinishedReceivedEverything(s, v);
      ExpectedCount(s.config.producers, s.config.messages, v);
      CountIsMultiplicity(r, v);
    }
    ExpectedSorted(s.config.producers, s.config.messages);
    SortedUnique(sorted, r);
  }

  lemma NoWrap(n: nat)
    ensures n % UINT32 == n <==> n < UINT32
  {}

  lemma ExpectedPasses(producers: nat, messages: nat)
    ensures AssertionsPass(producers, messages, Expected(producers, messages)) <==> producers * messages < UINT32
  {
    var n := producers * messages;
    var sorted := Expected(producers, messages);
    ExpectedLength(producers, messages);
    NoWrap(n);
    if n < UINT32 {
      forall m, p | 0 <= m < messages && 0 <= p < producers ensures SlotHolds(sorted, producers, m, p) {
        ExpectedSlot(producers, messages, m, p);
        NoWrap(Slot(producers, m, p));
      }
    }
  }

  ghost predicate OnlyConsumersReceive(s: State) {
    s.consumers == [] ==> s.received == []
  }

  lemma NothingReceived(s: State)
    requires Reachable(s) && s.config.consumers == 0
    ensures s.received == []
  {
    var moves :| s == Run(Step, Init(s.config), moves);
    RunKeeps(Step, OnlyConsumersReceive, Init(s.config), moves);
    ReachableInv(s);
  }

  lemma EmptyPasses(producers: nat, messages: nat)
    requires producers * messages < UINT32
    ensures AssertionsPass(producers, messages, []) <==> producers * messages == 0
  {
    NoWrap(producers * messages);
    if producers > 0 && messages > 0 { assert producers * messages >= messages; }
  }

  /** Every run that gets to the assertions at the end of the test passes them, unless there are messages and nobody
      to receive them: the vector of received messages crashes long before their number wraps around in 32 bits. */
  lemma FinalAssertionsHold(s: State, sorted: seq<nat>)
    requires Reachable(s) && s.main == Finished
    requires Sorted(sorted) && Bag(sorted) == Bag(s.received)
    ensures AssertionsPass(s.config.producers, s.config.messages, sorted)
      <==> s.config.consumers >= 1 || Total(s.config) == 0
  {
    ReachableWithin(s);
    if s.config.consumers >= 1 {
      FinishedReceivedAll(s);
      SortedIsExpected(s, sorted);
      ExpectedPasses(s.config.producers, s.config.messages);
    } else {
      NothingReceived(s);
      assert |sorted| == |Bag(sorted)| == 0;
      NothingUnsent(s.producers, s.config.messages);
      EmptyPasses(s.config.producers, s.config.messages);
    }
  }
}
