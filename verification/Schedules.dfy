/** Runs of a system whose steps are a function of the state and of a move that the scheduler chooses.
    A statement about every schedule is a statement about every interleaving. */
module Schedules {

  function Run<S, M>(step: (S, M) -> S, s: S, moves: seq<M>): S {
    if moves == [] then s else step(Run(step, s, moves[..|moves| - 1]), moves[|moves| - 1])
  }

  /** What every step keeps holds after every run. */
  lemma {:induction false} RunKeeps<S(!new), M(!new)>(step: (S, M) -> S, inv: S -> bool, s: S, moves: seq<M>)
    requires inv(s)
    requires forall a, m :: inv(a) ==> inv(step(a, m))
    ensures inv(Run(step, s, moves))
  {
    if moves != [] {
      RunKeeps(step, inv, s, moves[..|moves| - 1]);
    }
  }

  lemma {:induction false} RunPrepend<S, M>(step: (S, M) -> S, s: S, m: M, moves: seq<M>)
    ensures Run(step, s, [m] + moves) == Run(step, step(s, m), moves)
  {
    var n := |moves| - 1;
    if moves == [] {
      assert [m] + moves == [m] && Run(step, s, [m]) == step(Run(step, s, [m][..0]), m);
    } else {
      assert ([m] + moves)[..|moves|] == [m] + moves[..n];
      RunPrepend(step, s, m, moves[..n]);
    }
  }

  lemma RunAppend<S, M>(step: (S, M) -> S, s: S, moves: seq<M>, m: M)
    ensures Run(step, s, moves + [m]) == step(Run(step, s, moves), m)
  {
    assert (moves + [m])[..|moves|] == moves;
  }

  /** The same move, so many times. */
  function Repeated<S, M>(step: (S, M) -> S, s: S, m: M, n: nat): S
    decreases n
  {
    if n == 0 then s else Repeated(step, step(s, m), m, n - 1)
  }

  lemma {:induction false} RepeatedIsRun<S, M>(step: (S, M) -> S, s: S, m: M, n: nat)
    ensures Repeated(step, s, m, n) == Run(step, s, seq(n, _ => m))
    decreases n
  {
    if n > 0 {
      RepeatedIsRun(step, step(s, m), m, n - 1);
      RunPrepend(step, s, m, seq(n - 1, _ => m));
      assert [m] + seq(n - 1, _ => m) == seq(n, _ => m);
    }
  }

  /** Something happened at this point of the schedule, and nothing has ended it since. Both are told by the moves
      before a point and the move at it. */
  ghost predicate SinceAt<M>(happens: (seq<M>, M) -> bool, ends: (seq<M>, M) -> bool, moves: seq<M>, k: nat) {
    && k < |moves| && happens(moves[..k], moves[k])
    && forall j :: k < j < |moves| ==> !ends(moves[..j], moves[j])
  }

  /** That was so at some point. */
  ghost predicate Since<M>(happens: (seq<M>, M) -> bool, ends: (seq<M>, M) -> bool, moves: seq<M>) {
    exists k :: SinceAt(happens, ends, moves, k)
  }

  /** That point stays the same as long as the last move does not end it. */
  lemma SinceAtStep<M>(happens: (seq<M>, M) -> bool, ends: (seq<M>, M) -> bool, moves: seq<M>, k: nat)
    requires k + 1 < |moves|
    ensures var front, last := moves[..|moves| - 1], moves[|moves| - 1];
      SinceAt(happens, ends, moves, k) <==> SinceAt(happens, ends, front, k) && !ends(front, last)
  {
    var front := moves[..|moves| - 1];
    assert forall j :: 0 <= j < |front| ==> front[..j] == moves[..j] && front[j] == moves[j];
  }

  lemma SinceStep<M>(happens: (seq<M>, M) -> bool, ends: (seq<M>, M) -> bool, moves: seq<M>)
    requires moves != []
    ensures var front, last := moves[..|moves| - 1], moves[|moves| - 1];
      Since(happens, ends, moves) <==> happens(front, last) || (Since(happens, ends, front) && !ends(front, last))
  {
    var n := |moves| - 1;
    var front := moves[..n];
    if k: nat :| k < n && SinceAt(happens, ends, front, k) { SinceAtStep(happens, ends, moves, k); }
    if k: nat :| k < n && SinceAt(happens, ends, moves, k) { SinceAtStep(happens, ends, moves, k); }
    if happens(front, moves[n]) { assert SinceAt(happens, ends, moves, n); }
  }

  /** Some schedule reaches the goal. */
  ghost predicate CanReach<S, M(!new)>(step: (S, M) -> S, s: S, goal: S -> bool) {
    exists moves :: goal(Run(step, s, moves))
  }

  lemma CanReachNow<S, M(!new)>(step: (S, M) -> S, s: S, goal: S -> bool)
    requires goal(s)
    ensures CanReach(step, s, goal)
  {
    assert goal(Run(step, s, []));
  }

  lemma CanReachBefore<S, M(!new)>(step: (S, M) -> S, s: S, m: M, goal: S -> bool)
    requires CanReach(step, step(s, m), goal)
    ensures CanReach(step, s, goal)
  {
    var moves :| goal(Run(step, step(s, m), moves));
    RunPrepend(step, s, m, moves);
  }
}
