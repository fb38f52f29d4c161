/** BackwardsGraph: the edges of a graph turned round, with a root in front that reaches every node. */
module BackwardsGraphs {

  /** A graph whose nodes are the indices that are present; the index of a missing node gives null. */
  datatype Graph = Graph(present: seq<bool>, successors: seq<seq<nat>>, predecessors: seq<seq<nat>>)

  predicate HasNode(g: Graph, n: nat) {
    n < |g.present| && g.present[n]
  }

  predicate IsSuccessor(g: Graph, n: nat, m: nat) {
    n < |g.successors| && m in g.successors[n]
  }

  predicate IsPredecessor(g: Graph, n: nat, m: nat) {
    n < |g.predecessors| && m in g.predecessors[n]
  }

  /** Edges join nodes that are present, and predecessors and successors are each other's converse. */
  ghost predicate WellFormed(g: Graph) {
    && |g.successors| == |g.present| && |g.predecessors| == |g.present|
    && (forall n: nat, m: nat {:trigger IsSuccessor(g, n, m)} ::
          IsSuccessor(g, n, m) ==> HasNode(g, n) && HasNode(g, m))
    && (forall n: nat, m: nat :: IsSuccessor(g, n, m) <==> IsPredecessor(g, m, n))
  }

  /** A walk along predecessors. */
  ghost predicate BackWalk(g: Graph, from: nat, to: nat, steps: nat)
    decreases steps
  {
    if steps == 0 then from == to
    else exists n: nat :: BackWalk(g, from, n, steps - 1) && IsPredecessor(g, n, to)
  }

  ghost predicate BackReaches(g: Graph, from: nat, to: nat) {
    exists steps: nat :: BackWalk(g, from, to, steps)
  }

  lemma BackReachesItself(g: Graph, n: nat)
    ensures BackReaches(g, n, n)
  {
    assert BackWalk(g, n, n, 0);
  }

  lemma BackReachesFurther(g: Graph, from: nat, n: nat, m: nat)
    requires BackReaches(g, from, n) && IsPredecessor(g, n, m)
    ensures BackReaches(g, from, m)
  {
    var steps: nat :| BackWalk(g, from, n, steps);
    assert BackWalk(g, from, m, steps + 1);
  }

  /** Every predecessor of a node that has been seen and is not pending has been seen. */
  ghost predicate Closed(g: Graph, seen: set<nat>, pending: seq<nat>) {
    forall n: nat, m: nat :: IsPredecessor(g, n, m) && n in seen && n !in pending ==> m in seen
  }

  lemma {:induction false} ClosedHoldsWalks(g: Graph, seen: set<nat>, from: nat, to: nat, steps: nat)
    requires Closed(g, seen, []) && from in seen && BackWalk(g, from, to, steps)
    ensures to in seen
    decreases steps
  {
    if steps > 0 {
      var n: nat :| BackWalk(g, from, n, steps - 1) && IsPredecessor(g, n, to);
      ClosedHoldsWalks(g, seen, from, n, steps - 1);
    }
  }

  class GraphNodeWorklist {
    var seen: set<nat>
    var stack: seq<nat>

    constructor ()
      ensures seen == {} && stack == []
    {
      seen, stack := {}, [];
    }

    /** Returns true if we did not know about the node before. */
    method Push(node: nat) returns (added: bool)
      modifies this
      ensures added == (node !in old(seen)) && seen == old(seen) + {node}
      ensures stack == old(stack) + (if added then [node] else [])
    {
      added := node !in seen;
      if added {
        seen := seen + {node};
        stack := stack + [node];
      }
    }

    method PushAll(nodes: seq<nat>)
      modifies this
      ensures seen == Union(old(seen), nodes)
      ensures stack == old(stack) + NewOnes(old(seen), nodes)
    {
      for i := 0 to |nodes|
        invariant seen == Union(old(seen), nodes[..i])
        invariant stack == old(stack) + NewOnes(old(seen), nodes[..i])
      {
        assert nodes[..i + 1][..i] == nodes[..i];
        var added := Push(nodes[i]);
      }
      assert nodes[..|nodes|] == nodes;
    }

    method Pop() returns (node: nat)
      requires stack != []
      modifies this
      ensures node == old(stack)[|old(stack)| - 1] && stack == old(stack)[..|old(stack)| - 1] && seen == old(seen)
    {
      node := stack[|stack| - 1];
      stack := stack[..|stack| - 1];
    }
  }

  function Union(seen: set<nat>, nodes: seq<nat>): (r: set<nat>)
    ensures forall n :: n in r <==> n in seen || n in nodes
  {
    if nodes == [] then seen else Union(seen, nodes[..|nodes| - 1]) + {nodes[|nodes| - 1]}
  }

  /** The nodes that a worklist does not know yet, in the order in which it gets them, once each. */
  function NewOnes(seen: set<nat>, nodes: seq<nat>): (r: seq<nat>)
    ensures forall n :: n in r <==> n !in seen && n in nodes
  {
    if nodes == [] then [] else
    var front, last := nodes[..|nodes| - 1], nodes[|nodes| - 1];
    NewOnes(seen, front) + (if last in Union(seen, front) then [] else [last])
  }

  ghost predicate Explained(g: Graph, list: seq<nat>, n: nat) {
    exists r: nat :: r in list && BackReaches(g, r, n)
  }

  /** Everything that has been seen is a node behind some root successor; the root successors themselves and
      what is pending have been seen; and a node without successors is only ever seen as a root successor. */
  ghost predicate SeenFromList(g: Graph, list: seq<nat>, seen: set<nat>, pending: seq<nat>) {
    && (forall n: nat :: n in list ==> n in seen)
    && (forall n: nat :: n in pending ==> n in seen)
    && (forall n: nat :: n in seen ==> HasNode(g, n))
    && (forall n: nat {:trigger Explained(g, list, n)} :: n in seen ==> Explained(g, list, n))
    && (forall n: nat :: n in seen ==> n in list || (n < |g.successors| && g.successors[n] != []))
  }

  /** No root successor is behind an earlier one. */
  ghost predicate Irredundant(g: Graph, list: seq<nat>) {
    forall i, j :: 0 <= i < j < |list| ==> !BackReaches(g, list[i], list[j])
  }

  /** What holds between any two steps of the construction. */
  ghost predicate Building(g: Graph, list: seq<nat>, seen: set<nat>, pending: seq<nat>) {
    Closed(g, seen, pending) && SeenFromList(g, list, seen, pending) && Irredundant(g, list)
  }

  /** The root successors after one more node: it joins them if it is a candidate and not behind one of them. */
  ghost function WithCandidate(g: Graph, list: seq<nat>, keep: bool, node: nat): seq<nat> {
    if !keep || Explained(g, list, node) then list else list + [node]
  }

  predicate HasBackEdge(g: Graph, isDescendent: (nat, nat) -> bool, n: nat) {
    n < |g.successors| && exists k :: 0 <= k < |g.successors[n]| && isDescendent(n, g.successors[n][k])
  }

  predicate IsTerminal(g: Graph, n: nat) {
    n < |g.successors| && g.successors[n] == []
  }

  /** The nodes below i with a back edge, in order, have been candidates. */
  ghost function WithBackEdges(g: Graph, isDescendent: (nat, nat) -> bool, list: seq<nat>, i: nat): seq<nat> {
    if i == 0 then list
    else
      var keep := HasNode(g, i - 1) && HasBackEdge(g, isDescendent, i - 1);
      WithCandidate(g, WithBackEdges(g, isDescendent, list, i - 1), keep, i - 1)
  }

  /** The nodes below i without successors, in order, have been candidates. */
  ghost function WithTerminals(g: Graph, list: seq<nat>, i: nat): seq<nat> {
    if i == 0 then list
    else WithCandidate(g, WithTerminals(g, list, i - 1), HasNode(g, i - 1) && IsTerminal(g, i - 1), i - 1)
  }

  /** The nodes from i up, the highest first, have been candidates. */
  ghost function WithAllDownTo(g: Graph, list: seq<nat>, i: nat): seq<nat>
    decreases |g.present| - i
  {
    if i >= |g.present| then list
    else WithCandidate(g, WithAllDownTo(g, list, i + 1), HasNode(g, i), i)
  }

  /** Candidates are first the nodes with a back edge, then those without successors, then all. */
  ghost function RootSuccessors(g: Graph, isDescendent: (nat, nat) -> bool): seq<nat> {
    WithAllDownTo(g, WithTerminals(g, WithBackEdges(g, isDescendent, [], |g.present|), |g.present|), 0)
  }

  /** Has an edge that the spanning tree takes for a back edge. */
  ghost predicate Loops(g: Graph, isDescendent: (nat, nat) -> bool, n: nat) {
    exists m: nat :: IsSuccessor(g, n, m) && isDescendent(n, m)
  }

  lemma HasBackEdgeLoops(g: Graph, isDescendent: (nat, nat) -> bool, n: nat)
    ensures HasBackEdge(g, isDescendent, n) <==> Loops(g, isDescendent, n)
  {
    if Loops(g, isDescendent, n) {
      var m: nat :| IsSuccessor(g, n, m) && isDescendent(n, m);
      var k :| 0 <= k < |g.successors[n]| && g.successors[n][k] == m;
    }
    if HasBackEdge(g, isDescendent, n) {
      var k :| 0 <= k < |g.successors[n]| && isDescendent(n, g.successors[n][k]);
      assert IsSuccessor(g, n, g.successors[n][k]);
    }
  }

  ghost predicate Ascending(s: seq<nat>) {
    forall i, j :: 0 <= i < j < |s| ==> s[i] < s[j]
  }

  ghost predicate Descending(s: seq<nat>) {
    forall i, j :: 0 <= i < j < |s| ==> s[i] > s[j]
  }

  lemma LastInOrder(s: seq<nat>, last: nat)
    ensures Ascending(s) && (forall n: nat :: n in s ==> n < last) ==> Ascending(s + [last])
    ensures Descending(s) && (forall n: nat :: n in s ==> n > last) ==> Descending(s + [last])
  {
    assert forall i :: 0 <= i < |s| ==> s[i] in s;
  }

  /** Some root successor up to n that n is behind. */
  ghost predicate ExplainedUpTo(g: Graph, list: seq<nat>, n: nat) {
    exists r: nat :: r in list && r <= n && BackReaches(g, r, n)
  }

  lemma {:induction false} BackEdgesFirst(g: Graph, isDescendent: (nat, nat) -> bool, i: nat)
    ensures var list := WithBackEdges(g, isDescendent, [], i);
      Ascending(list) && forall n: nat :: n in list ==> n < i && HasNode(g, n) && Loops(g, isDescendent, n)
  {
    if i > 0 {
      BackEdgesFirst(g, isDescendent, i - 1);
      HasBackEdgeLoops(g, isDescendent, i - 1);
      LastInOrder(WithBackEdges(g, isDescendent, [], i - 1), i - 1);
    }
  }

  lemma {:induction false} BackEdgesExplained(g: Graph, isDescendent: (nat, nat) -> bool, i: nat, n: nat)
    requires n < i && HasNode(g, n) && Loops(g, isDescendent, n)
    ensures ExplainedUpTo(g, WithBackEdges(g, isDescendent, [], i), n)
  {
    var list := WithBackEdges(g, isDescendent, [], i - 1);
    var keep := HasNode(g, i - 1) && HasBackEdge(g, isDescendent, i - 1);
    BackEdgesFirst(g, isDescendent, i - 1);
    HasBackEdgeLoops(g, isDescendent, i - 1);
    CandidateExplained(g, list, keep, i - 1);
    if n < i - 1 { BackEdgesExplained(g, isDescendent, i - 1, n); }
  }

  lemma CandidateExplained(g: Graph, list: seq<nat>, keep: bool, i: nat)
    requires forall r: nat :: r in list ==> r < i
    ensures forall n: nat :: ExplainedUpTo(g, list, n) ==> ExplainedUpTo(g, WithCandidate(g, list, keep, i), n)
    ensures keep ==> ExplainedUpTo(g, WithCandidate(g, list, keep, i), i)
  {
    var longer := WithCandidate(g, list, keep, i);
    forall n: nat | ExplainedUpTo(g, list, n) ensures ExplainedUpTo(g, longer, n) {
      var r: nat :| r in list && r <= n && BackReaches(g, r, n);
      assert r in longer;
    }
    if keep {
      if Explained(g, list, i) {
        var r: nat :| r in list && BackReaches(g, r, i);
      } else {
        BackReachesItself(g, i);
        assert i in longer;
      }
    }
  }

  /** A node without successors is behind itself only. */
  lemma TerminalIsFirst(g: Graph, list: seq<nat>, n: nat)
    requires WellFormed(g) && IsTerminal(g, n)
    ensures Explained(g, list, n) <==> n in list
  {
    assert forall m: nat :: IsPredecessor(g, m, n) ==> IsSuccessor(g, n, m);
    if Explained(g, list, n) {
      var r: nat :| r in list && BackReaches(g, r, n);
      var steps: nat :| BackWalk(g, r, n, steps);
    }
    BackReachesItself(g, n);
  }

  lemma {:induction false} TerminalsNext(g: Graph, list: seq<nat>, i: nat) returns (terminals: seq<nat>)
    requires WellFormed(g) && forall n: nat :: n in list ==> !IsTerminal(g, n)
    ensures WithTerminals(g, list, i) == list + terminals && Ascending(terminals)
    ensures forall n: nat :: n in terminals <==> n < i && HasNode(g, n) && IsTerminal(g, n)
  {
    terminals := [];
    if i > 0 {
      terminals := TerminalsNext(g, list, i - 1);
      if HasNode(g, i - 1) && IsTerminal(g, i - 1) {
        TerminalIsFirst(g, list + terminals, i - 1);
        assert (list + terminals) + [i - 1] == list + (terminals + [i - 1]);
        LastInOrder(terminals, i - 1);
        terminals := terminals + [i - 1];
      }
    }
  }

  /** The last pass adds nodes that nothing in the list explains, the highest first. */
  lemma {:induction false} RestLast(g: Graph, list: seq<nat>, i: nat) returns (rest: seq<nat>)
    ensures WithAllDownTo(g, list, i) == list + rest && Descending(rest)
    ensures forall n: nat :: n in rest ==> i <= n && HasNode(g, n) && !Explained(g, list, n)
    decreases |g.present| - i
  {
    rest := [];
    if i < |g.present| {
      rest := RestLast(g, list, i + 1);
      if HasNode(g, i) && !Explained(g, list + rest, i) {
        ExplainedByMore(g, list, rest, i);
        assert (list + rest) + [i] == list + (rest + [i]);
        LastInOrder(rest, i);
        rest := rest + [i];
      }
    }
  }

  lemma ExplainedByMore(g: Graph, list: seq<nat>, rest: seq<nat>, n: nat)
    ensures Explained(g, list + rest, n) <==> Explained(g, list, n) || Explained(g, rest, n)
  {
    if Explained(g, list, n) {
      var r: nat :| r in list && BackReaches(g, r, n);
      assert r in list + rest;
    }
    if Explained(g, rest, n) {
      var r: nat :| r in rest && BackReaches(g, r, n);
      assert r in list + rest;
    }
  }

  /** Some root successor that n is behind, from the earlier passes or not below n. */
  ghost predicate ExplainedInTime(g: Graph, list: seq<nat>, all: seq<nat>, n: nat) {
    exists r: nat :: r in all && BackReaches(g, r, n) && (r in list || n <= r)
  }

  lemma {:induction false} RestExplained(g: Graph, list: seq<nat>, i: nat, n: nat)
    requires i <= n && HasNode(g, n)
    ensures ExplainedInTime(g, list, WithAllDownTo(g, list, i), n)
    decreases |g.present| - i
  {
    var before := WithAllDownTo(g, list, i + 1);
    var all := WithAllDownTo(g, list, i);
    var rest: seq<nat> := RestLast(g, list, i + 1);
    if n > i {
      RestExplained(g, list, i + 1, n);
      var r: nat :| r in before && BackReaches(g, r, n) && (r in list || n <= r);
      assert r in all;
    } else if Explained(g, before, i) {
      var r: nat :| r in before && BackReaches(g, r, i);
      assert r in all;
    } else {
      BackReachesItself(g, i);
      assert i in all;
    }
  }

  /** The passes in the order of the list: nodes with back edges, ascending; nodes without successors, ascending; and
      others, descending, each of them behind no node of the first two kinds. */
  lemma RootSuccessorsInOrder(g: Graph, isDescendent: (nat, nat) -> bool)
      returns (a: seq<nat>, b: seq<nat>, c: seq<nat>)
    requires WellFormed(g)
    ensures RootSuccessors(g, isDescendent) == a + b + c
    ensures Ascending(a) && forall n: nat :: n in a ==> HasNode(g, n) && Loops(g, isDescendent, n)
    ensures Ascending(b) && forall n: nat :: n in b <==> HasNode(g, n) && IsTerminal(g, n)
    ensures Descending(c)
    ensures forall n: nat :: n in c ==>
      HasNode(g, n) && !Loops(g, isDescendent, n) && !IsTerminal(g, n) && !Explained(g, a + b, n)
    ensures forall n: nat :: HasNode(g, n) && Loops(g, isDescendent, n) ==> ExplainedUpTo(g, a, n)
    ensures forall n: nat :: HasNode(g, n) ==> ExplainedInTime(g, a + b, a + b + c, n)
  {
    var size := |g.present|;
    a := WithBackEdges(g, isDescendent, [], size);
    BackEdgesFirst(g, isDescendent, size);
    b := TerminalsNext(g, a, size);
    c := RestLast(g, a + b, 0);
    forall n: nat | HasNode(g, n) && Loops(g, isDescendent, n)
      ensures ExplainedUpTo(g, a, n) && Explained(g, a + b, n)
    {
      BackEdgesExplained(g, isDescendent, size, n);
      ExplainedByMore(g, a, b, n);
    }
    forall n: nat | HasNode(g, n) && IsTerminal(g, n) ensures Explained(g, a + b, n) {
      TerminalIsFirst(g, a + b, n);
    }
    forall n: nat | HasNode(g, n) ensures ExplainedInTime(g, a + b, a + b + c, n) {
      RestExplained(g, a + b, 0, n);
    }
  }

  lemma {:induction false} BackReachesOn(g: Graph, from: nat, n: nat, to: nat, steps: nat)
    requires BackReaches(g, from, n) && BackWalk(g, n, to, steps)
    ensures BackReaches(g, from, to)
    decreases steps
  {
    if steps > 0 {
      var m: nat :| BackWalk(g, n, m, steps - 1) && IsPredecessor(g, m, to);
      BackReachesOn(g, from, n, m, steps - 1);
      BackReachesFurther(g, from, m, to);
    }
  }

  /** A node with successors of which none gives a back edge. */
  ghost predicate Plain(g: Graph, isDescendent: (nat, nat) -> bool, n: nat) {
    !Loops(g, isDescendent, n) && !IsTerminal(g, n)
  }

  /** The kinds of root successors stand in the list in the order of the passes, each in its own direction. */
  ghost predicate InPasses(g: Graph, isDescendent: (nat, nat) -> bool, list: seq<nat>) {
    forall i, j :: 0 <= i < j < |list| ==>
      if Plain(g, isDescendent, list[i]) then Plain(g, isDescendent, list[j]) && list[i] > list[j]
      else if IsTerminal(g, list[i]) then
        !Loops(g, isDescendent, list[j]) && (IsTerminal(g, list[j]) ==> list[i] < list[j])
      else Loops(g, isDescendent, list[j]) ==> list[i] < list[j]
  }

  lemma PassesInOrder(g: Graph, isDescendent: (nat, nat) -> bool, a: seq<nat>, b: seq<nat>, c: seq<nat>)
    requires Ascending(a) && Ascending(b) && Descending(c)
    requires forall n: nat :: n in a ==> Loops(g, isDescendent, n)
    requires forall n: nat :: n in b ==> IsTerminal(g, n)
    requires forall n: nat :: n in c ==> Plain(g, isDescendent, n)
    ensures InPasses(g, isDescendent, a + b + c)
  {
    var list := a + b + c;
    assert forall i :: 0 <= i < |a| ==> list[i] == a[i] && a[i] in a;
    assert forall i :: |a| <= i < |a| + |b| ==> list[i] == b[i - |a|] && list[i] in b;
    assert forall i :: |a| + |b| <= i < |list| ==> list[i] == c[i - |a| - |b|] && list[i] in c;
  }

  /** Whatever a plain root successor is behind is plain. */
  ghost predicate PlainBehindPlain(g: Graph, isDescendent: (nat, nat) -> bool, list: seq<nat>) {
    forall r: nat, x: nat :: r in list && Plain(g, isDescendent, r) && HasNode(g, x) && BackReaches(g, x, r) ==>
      Plain(g, isDescendent, x)
  }

  /** A node with a back edge is behind a root successor that has one: itself, or a lower one. */
  ghost predicate LoopsBehindLower(g: Graph, isDescendent: (nat, nat) -> bool, list: seq<nat>) {
    forall n: nat :: HasNode(g, n) && Loops(g, isDescendent, n) ==>
      exists r: nat :: r in list && r <= n && Loops(g, isDescendent, r) && BackReaches(g, r, n)
  }

  /** A node is behind a root successor of another kind than plain, or behind a plain one: itself, or a higher one. */
  ghost predicate BehindInTime(g: Graph, isDescendent: (nat, nat) -> bool, list: seq<nat>) {
    forall n: nat :: HasNode(g, n) ==>
      exists r: nat :: r in list && BackReaches(g, r, n) && (n <= r || !Plain(g, isDescendent, r))
  }

  /** What the three passes make of the list. */
  lemma WhoIsBehindWhom(g: Graph, isDescendent: (nat, nat) -> bool)
    requires WellFormed(g)
    ensures InPasses(g, isDescendent, RootSuccessors(g, isDescendent))
    ensures PlainBehindPlain(g, isDescendent, RootSuccessors(g, isDescendent))
    ensures LoopsBehindLower(g, isDescendent, RootSuccessors(g, isDescendent))
    ensures BehindInTime(g, isDescendent, RootSuccessors(g, isDescendent))
  {
    var list := RootSuccessors(g, isDescendent);
    var a: seq<nat>, b: seq<nat>, c: seq<nat> := RootSuccessorsInOrder(g, isDescendent);
    PassesInOrder(g, isDescendent, a, b, c);
    forall r: nat, x: nat | r in list && Plain(g, isDescendent, r) && HasNode(g, x) && BackReaches(g, x, r)
      ensures Plain(g, isDescendent, x)
    {
      if !Plain(g, isDescendent, x) { OthersExplained(g, isDescendent, a, b, x, r); }
    }
    forall n: nat | HasNode(g, n) && Loops(g, isDescendent, n)
      ensures exists r: nat :: r in list && r <= n && Loops(g, isDescendent, r) && BackReaches(g, r, n)
    {
      assert ExplainedUpTo(g, a, n);
      var r: nat :| r in a && r <= n && BackReaches(g, r, n);
      assert r in list;
    }
    forall n: nat | HasNode(g, n)
      ensures exists r: nat :: r in list && BackReaches(g, r, n) && (n <= r || !Plain(g, isDescendent, r))
    {
      assert ExplainedInTime(g, a + b, list, n);
    }
  }

  lemma OthersExplained(g: Graph, isDescendent: (nat, nat) -> bool, a: seq<nat>, b: seq<nat>, x: nat, r: nat)
    requires HasNode(g, x) && !Plain(g, isDescendent, x) && BackReaches(g, x, r)
    requires Loops(g, isDescendent, x) ==> ExplainedUpTo(g, a, x)
    requires IsTerminal(g, x) ==> x in b
    ensures Explained(g, a + b, r)
  {
    var q := x;
    if Loops(g, isDescendent, x) {
      q :| q in a && q <= x && BackReaches(g, q, x);
    } else {
      BackReachesItself(g, x);
    }
    assert q in a + b;
    var steps: nat :| BackWalk(g, x, r, steps);
    BackReachesOn(g, q, x, r, steps);
  }

  /** What has been seen is exactly what is behind a root successor. */
  lemma SeenIsExplained(g: Graph, list: seq<nat>, seen: set<nat>, n: nat)
    requires Building(g, list, seen, [])
    ensures n in seen <==> Explained(g, list, n)
  {
    if Explained(g, list, n) {
      var r: nat :| r in list && BackReaches(g, r, n);
      var steps: nat :| BackWalk(g, r, n, steps);
      ClosedHoldsWalks(g, seen, r, n, steps);
    }
  }

  lemma StartFrom(g: Graph, list: seq<nat>, seen: set<nat>, node: nat)
    requires Building(g, list, seen, []) && HasNode(g, node) && node !in seen
    ensures Building(g, list + [node], seen + {node}, [node])
  {
    BackReachesItself(g, node);
    forall n: nat | n in seen ensures Explained(g, list + [node], n) {
      assert Explained(g, list, n);
      var r: nat :| r in list && BackReaches(g, r, n);
      assert r in list + [node];
    }
    assert Explained(g, list + [node], node) by { assert node in list + [node]; }
    forall i | 0 <= i < |list| ensures !BackReaches(g, list[i], node) {
      if BackReaches(g, list[i], node) {
        var steps: nat :| BackWalk(g, list[i], node, steps);
        ClosedHoldsWalks(g, seen, list[i], node, steps);
      }
    }
  }

  lemma NextIsNode(g: Graph, list: seq<nat>, seen: set<nat>, stack: seq<nat>)
    requires WellFormed(g) && Building(g, list, seen, stack) && stack != []
    ensures var n := |stack| - 1;
      stack == stack[..n] + [stack[n]] && stack[n] < |g.predecessors|
      && forall m: nat :: m in g.predecessors[stack[n]] ==> HasNode(g, m)
  {
    var node := stack[|stack| - 1];
    assert node in stack && HasNode(g, node);
    forall m: nat | m in g.predecessors[node] ensures HasNode(g, m) {
      assert IsPredecessor(g, node, m) && IsSuccessor(g, m, node);
    }
  }

  lemma Explore(g: Graph, list: seq<nat>, seen: set<nat>, rest: seq<nat>, node: nat)
    requires WellFormed(g) && Building(g, list, seen, rest + [node]) && node < |g.predecessors|
    ensures Building(g, list, Union(seen, g.predecessors[node]), rest + NewOnes(seen, g.predecessors[node]))
  {
    var preds := g.predecessors[node];
    var seen', pending := Union(seen, preds), rest + NewOnes(seen, preds);
    assert node in rest + [node];
    forall m: nat | m in preds ensures HasNode(g, m) && Explained(g, list, m) && g.successors[m] != [] {
      assert IsPredecessor(g, node, m) && IsSuccessor(g, m, node) && Explained(g, list, node);
      var r: nat :| r in list && BackReaches(g, r, node);
      BackReachesFurther(g, r, node, m);
    }
    forall n: nat, m: nat | IsPredecessor(g, n, m) && n in seen' && n !in pending ensures m in seen' {
      if n != node { assert n in seen && n !in rest + [node]; }
    }
  }

  datatype Node = Root | Inner(node: nat)

  class BackwardsGraph {
    const graph: Graph
    var rootSuccessorList: seq<nat>
    var rootSuccessorSet: set<nat>

    ghost predicate Valid()
      reads this
    {
      && WellFormed(graph)
      && (forall n: nat :: n in rootSuccessorSet <==> n in rootSuccessorList)
    }

    /** What the construction promises: the root reaches every node, no root successor is behind an earlier
        one, and every node without successors is a root successor. */
    ghost predicate SingleRooted()
      requires Valid()
      reads this
    {
      && (forall n: nat :: HasNode(graph, n) ==> Explained(graph, rootSuccessorList, n))
      && (forall n: nat :: n in rootSuccessorList ==> HasNode(graph, n))
      && Irredundant(graph, rootSuccessorList)
      && (forall n: nat :: HasNode(graph, n) && graph.successors[n] == [] ==> n in rootSuccessorList)
    }

    method AddRootSuccessor(worklist: GraphNodeWorklist, node: nat)
      requires Valid() && HasNode(graph, node) && worklist.stack == []
      requires Building(graph, rootSuccessorList, worklist.seen, [])
      modifies this, worklist
      ensures Valid() && worklist.stack == []
      ensures Building(graph, rootSuccessorList, worklist.seen, [])
      ensures old(worklist.seen) <= worklist.seen && node in worklist.seen
      ensures rootSuccessorList == WithCandidate(graph, old(rootSuccessorList), true, node)
    {
      SeenIsExplained(graph, rootSuccessorList, worklist.seen, node);
      ghost var first, list, seen, stack := worklist.seen, rootSuccessorList + [node], worklist.seen + {node}, [node];
      var added := worklist.Push(node);
      if added {
        StartFrom(graph, rootSuccessorList, first, node);
        rootSuccessorList := rootSuccessorList + [node];
        rootSuccessorSet := rootSuccessorSet + {node};
        while worklist.stack != []
          invariant Valid() && rootSuccessorList == list && worklist.seen == seen && worklist.stack == stack
          invariant first <= seen && node in seen && Building(graph, list, seen, stack)
          decreases Unseen(graph, seen), |stack|
        {
          var next := worklist.Pop();
          NextIsNode(graph, list, seen, stack);
          Explore(graph, list, seen, worklist.stack, next);
          worklist.PushAll(graph.predecessors[next]);
          NewOnesShrinkUnseen(graph, seen, graph.predecessors[next]);
          seen, stack := worklist.seen, worklist.stack;
        }
      }
    }

    /** Between two candidates. */
    ghost predicate Constructing(worklist: GraphNodeWorklist)
      reads this, worklist
    {
      Valid() && worklist.stack == [] && Building(graph, rootSuccessorList, worklist.seen, [])
    }

    method AddIf(keep: bool, worklist: GraphNodeWorklist, node: nat)
      requires Constructing(worklist) && (keep ==> HasNode(graph, node))
      modifies this, worklist
      ensures Constructing(worklist)
      ensures rootSuccessorList == WithCandidate(graph, old(rootSuccessorList), keep, node)
      ensures old(worklist.seen) <= worklist.seen && (keep ==> node in worklist.seen)
    {
      if keep {
        AddRootSuccessor(worklist, node);
      }
    }

    method IsBackEdgeNode(isDescendent: (nat, nat) -> bool, node: nat) returns (found: bool)
      requires node < |graph.successors|
      ensures found == HasBackEdge(graph, isDescendent, node)
      ensures found <==> exists m: nat :: IsSuccessor(graph, node, m) && isDescendent(node, m)
    {
      HasBackEdgeLoops(graph, isDescendent, node);
      for k := 0 to |graph.successors[node]|
        invariant forall j :: 0 <= j < k ==> !isDescendent(node, graph.successors[node][j])
      {
        if isDescendent(node, graph.successors[node][k]) {
          return true;
        }
      }
      return false;
    }

    method AddNodesWithBackEdges(worklist: GraphNodeWorklist, isDescendent: (nat, nat) -> bool)
      requires Constructing(worklist)
      modifies this, worklist
      ensures Constructing(worklist)
      ensures rootSuccessorList == WithBackEdges(graph, isDescendent, old(rootSuccessorList), |graph.present|)
    {
      ghost var list := rootSuccessorList;
      for i := 0 to |graph.present|
        invariant Constructing(worklist)
        invariant rootSuccessorList == WithBackEdges(graph, isDescendent, list, i)
      {
        var isCandidate := false;
        if graph.present[i] {
          isCandidate := IsBackEdgeNode(isDescendent, i);
        }
        assert isCandidate == (HasNode(graph, i) && HasBackEdge(graph, isDescendent, i));
        AddIf(isCandidate, worklist, i);
      }
    }

    method AddTerminalNodes(worklist: GraphNodeWorklist)
      requires Constructing(worklist)
      modifies this, worklist
      ensures Constructing(worklist)
      ensures rootSuccessorList == WithTerminals(graph, old(rootSuccessorList), |graph.present|)
    {
      ghost var list := rootSuccessorList;
      for i := 0 to |graph.present|
        invariant Constructing(worklist)
        invariant rootSuccessorList == WithTerminals(graph, list, i)
      {
        var isCandidate := graph.present[i] && |graph.successors[i]| == 0;
        assert isCandidate == (HasNode(graph, i) && IsTerminal(graph, i));
        AddIf(isCandidate, worklist, i);
      }
    }

    method AddRemainingNodes(worklist: GraphNodeWorklist)
      requires Constructing(worklist)
      modifies this, worklist
      ensures Constructing(worklist)
      ensures rootSuccessorList == WithAllDownTo(graph, old(rootSuccessorList), 0)
      ensures forall n: nat :: HasNode(graph, n) ==> n in worklist.seen
    {
      ghost var list := rootSuccessorList;
      for i := |graph.present| downto 0
        invariant Constructing(worklist)
        invariant rootSuccessorList == WithAllDownTo(graph, list, i)
        invariant forall n: nat :: i <= n && HasNode(graph, n) ==> n in worklist.seen
      {
        AddIf(graph.present[i], worklist, i);
      }
    }

    /** isDescendent is what the spanning tree answers; nothing is assumed about it. */
    constructor (graph: Graph, isDescendent: (nat, nat) -> bool)
      requires WellFormed(graph)
      ensures Valid() && this.graph == graph && SingleRooted()
      ensures rootSuccessorList == RootSuccessors(graph, isDescendent)
      ensures InPasses(graph, isDescendent, rootSuccessorList)
      ensures PlainBehindPlain(graph, isDescendent, rootSuccessorList)
      ensures LoopsBehindLower(graph, isDescendent, rootSuccessorList)
      ensures BehindInTime(graph, isDescendent, rootSuccessorList)
    {
      this.graph := graph;
      rootSuccessorList, rootSuccessorSet := [], {};
      new;
      var worklist := new GraphNodeWorklist();
      AddNodesWithBackEdges(worklist, isDescendent);
      AddTerminalNodes(worklist);
      AddRemainingNodes(worklist);
      WhoIsBehindWhom(graph, isDescendent);
    }

    function Successors(node: Node): seq<Node>
      requires Valid() && (node.Inner? ==> HasNode(graph, node.node))
      reads this
    {
      if node.Root? then InnerNodes(rootSuccessorList) else InnerNodes(graph.predecessors[node.node])
    }

    function Predecessors(node: Node): seq<Node>
      requires Valid() && (node.Inner? ==> HasNode(graph, node.node))
      reads this
    {
      if node.Root? then []
      else (if node.node in rootSuccessorSet then [Root] else []) + InnerNodes(graph.successors[node.node])
    }

    /** Successors and predecessors are each other's converse, the root included. */
    lemma EdgesAreConverse(a: Node, b: Node)
      requires Valid() && (a.Inner? ==> HasNode(graph, a.node)) && (b.Inner? ==> HasNode(graph, b.node))
      ensures b in Successors(a) <==> a in Predecessors(b)
    {
      if b.Inner? {
        InnerNodesHas(rootSuccessorList, b.node);
        if a.Inner? {
          InnerNodesHas(graph.predecessors[a.node], b.node);
          InnerNodesHas(graph.successors[b.node], a.node);
          assert IsPredecessor(graph, a.node, b.node) <==> IsSuccessor(graph, b.node, a.node);
        }
      }
    }

    ghost predicate Walk(p: seq<Node>)
      requires Valid()
      reads this
    {
      && (forall i :: 0 <= i < |p| ==> p[i].Inner? ==> HasNode(graph, p[i].node))
      && (forall i :: 0 <= i < |p| - 1 ==> p[i + 1] in Successors(p[i]))
    }

    /** A walk along the edges of this graph leads from the root to every node. */
    lemma RootReachesEverything(n: nat)
      requires Valid() && SingleRooted() && HasNode(graph, n)
      ensures exists p :: Walk(p) && |p| >= 2 && p[0] == Root && p[|p| - 1] == Inner(n)
    {
      var r: nat :| r in rootSuccessorList && BackReaches(graph, r, n);
      var steps: nat :| BackWalk(graph, r, n, steps);
      WalkOf(r, n, steps);
    }

    lemma WalkFurther(p: seq<Node>, m: nat, n: nat)
      requires Valid() && Walk(p) && p != [] && p[|p| - 1] == Inner(m) && IsPredecessor(graph, m, n)
      requires HasNode(graph, m) && HasNode(graph, n)
      ensures Walk(p + [Inner(n)])
    {
      assert IsSuccessor(graph, n, m);
      InnerNodesHas(graph.predecessors[m], n);
      var q := p + [Inner(n)];
      forall i | 0 <= i < |q| - 1 ensures q[i + 1] in Successors(q[i]) {
        assert i < |p| - 1 ==> q[i] == p[i] && q[i + 1] == p[i + 1];
      }
    }

    lemma {:induction false} WalkOf(r: nat, n: nat, steps: nat)
      requires Valid() && r in rootSuccessorList && HasNode(graph, r) && BackWalk(graph, r, n, steps)
      ensures exists p :: Walk(p) && |p| >= 2 && p[0] == Root && p[|p| - 1] == Inner(n)
      decreases steps
    {
      if steps == 0 {
        InnerNodesHas(rootSuccessorList, r);
        assert Walk([Root, Inner(r)]);
      } else {
        var m: nat :| BackWalk(graph, r, m, steps - 1) && IsPredecessor(graph, m, n);
        WalkOf(r, m, steps - 1);
        var p :| Walk(p) && |p| >= 2 && p[0] == Root && p[|p| - 1] == Inner(m);
        WalkFurther(p, m, n);
        assert (p + [Inner(n)])[0] == Root;
      }
    }
  }

  function InnerNodes(nodes: seq<nat>): seq<Node> {
    seq(|nodes|, i requires 0 <= i < |nodes| => Inner(nodes[i]))
  }

  lemma InnerNodesHas(nodes: seq<nat>, n: nat)
    ensures Inner(n) in InnerNodes(nodes) <==> n in nodes
  {
    if n in nodes {
      var i :| 0 <= i < |nodes| && nodes[i] == n;
      assert InnerNodes(nodes)[i] == Inner(n);
    }
  }

  function Unseen(g: Graph, seen: set<nat>): set<nat> {
    set n: nat | n < |g.present| && n !in seen
  }

  lemma NewOnesShrinkUnseen(g: Graph, seen: set<nat>, nodes: seq<nat>)
    requires forall n :: n in nodes ==> HasNode(g, n)
    ensures if NewOnes(seen, nodes) == [] then Unseen(g, Union(seen, nodes)) == Unseen(g, seen)
            else Unseen(g, Union(seen, nodes)) < Unseen(g, seen)
  {
    if NewOnes(seen, nodes) != [] {
      var n := NewOnes(seen, nodes)[0];
      assert n in NewOnes(seen, nodes);
      assert n in Unseen(g, seen) && n !in Unseen(g, Union(seen, nodes));
    } else {
      assert forall n :: n in nodes && n !in seen ==> n in NewOnes(seen, nodes);
    }
  }
}
