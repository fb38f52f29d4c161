/** The bounded queue test delivers messages in order: what the consumers take off the queue, in the order in which
    they take it, is what the producers have put there, and each producer counts up from 0. */
module QueueOrder {

  import opened BoundedQueue
  import opened Schedules

  /** The message that this move appends, told by what becomes of the producer. */
  function AppendedBy(s: State, m: Move): seq<nat> {
    if m.ProducerMoves? && m.thread < |s.producers| && s.producers[m.thread].Ready?
      && |Step(s, m).producers| == |s.producers| && Step(s, m).producers[m.thread].Notifying?
    then [s.producers[m.thread].next] else []
  }

  /** The message that this move takes, told by what the consumer has in its hands afterwards. */
  function TakenBy(s: State, m: Move): seq<nat> {
    if m.ConsumerMoves? && m.thread < |s.consumers| && s.consumers[m.thread].Ready?
      && |Step(s, m).consumers| == |s.consumers| && Step(s, m).consumers[m.thread].Notifying?
    then [Step(s, m).consumers[m.thread].result] else []
  }

  function Appended(config: Config, moves: seq<Move>): seq<nat> {
    if moves == [] then []
    else
      var front := moves[..|moves| - 1];
      Appended(config, front) + AppendedBy(After(config, front), moves[|moves| - 1])
  }

  function Taken(config: Config, moves: seq<Move>): seq<nat> {
    if moves == [] then []
    else
      var front := moves[..|moves| - 1];
      Taken(config, front) + TakenBy(After(config, front), moves[|moves| - 1])
  }

  lemma StepInOrder(s: State, m: Move)
    ensures TakenBy(s, m) + Step(s, m).queue == s.queue + AppendedBy(s, m)
  {
  }

  lemma InTheMiddle(a: seq<nat>, b: seq<nat>, c: seq<nat>, d: seq<nat>, e: seq<nat>)
    requires b + c == d + e
    ensures a + b + c == a + d + e
  {
    assert a + b + c == a + (b + c) && a + d + e == a + (d + e);
  }

  /** First in, first out, in every run. */
  lemma {:induction false} FirstInFirstOut(config: Config, moves: seq<Move>)
    ensures Taken(config, moves) + After(config, moves).queue == Appended(config, moves)
  {
    if moves != [] {
      var front, last := moves[..|moves| - 1], moves[|moves| - 1];
      FirstInFirstOut(config, front);
      StepInOrder(After(config, front), last);
      InTheMiddle(Taken(config, front), TakenBy(After(config, front), last), After(config, moves).queue,
                  After(config, front).queue, AppendedBy(After(config, front), last));
    }
  }

  /** The messages that producer i has appended. */
  function SentBy(config: Config, moves: seq<Move>, i: nat): seq<nat> {
    if moves == [] then []
    else
      var front, last := moves[..|moves| - 1], moves[|moves| - 1];
      SentBy(config, front, i)
      + if last.ProducerMoves? && last.thread == i then AppendedBy(After(config, front), last) else []
  }

  /** How many messages a producer has appended. */
  function Progress(p: Producer, messages: nat): nat {
    match p
    case Ready(k) => k
    case Asleep(k) => k
    case Notifying(k, _) => k + 1
    case Done => messages
  }

  lemma StepSends(s: State, m: Move, i: nat)
    requires Inv(s) && i < |s.producers|
    ensures |Step(s, m).producers| == |s.producers|
    ensures var sent := if m.ProducerMoves? && m.thread == i then AppendedBy(s, m) else [];
      && Progress(Step(s, m).producers[i], s.config.messages) == Progress(s.producers[i], s.config.messages) + |sent|
      && (sent != [] ==> sent == [Progress(s.producers[i], s.config.messages)])
  {
  }

  /** Each producer appends 0, 1, 2 and so on, in this order, and stops before the number of messages. */
  lemma {:induction false} ProducersCountUp(config: Config, moves: seq<Move>, i: nat)
    requires i < config.producers
    ensures |After(config, moves).producers| == config.producers
    ensures |SentBy(config, moves, i)| == Progress(After(config, moves).producers[i], config.messages)
    ensures |SentBy(config, moves, i)| <= config.messages
    ensures forall k :: 0 <= k < |SentBy(config, moves, i)| ==> SentBy(config, moves, i)[k] == k
  {
    RunConfig(config, moves);
    ReachableInv(After(config, moves));
    if moves != [] {
      var front, last := moves[..|moves| - 1], moves[|moves| - 1];
      ProducersCountUp(config, front, i);
      RunConfig(config, front);
      ReachableInv(After(config, front));
      StepSends(After(config, front), last, i);
    }
  }
}
