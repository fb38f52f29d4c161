/** Brigand's sort of type lists, on sequences. The merge works on blocks of ten elements, and the sort merges
    runs of eighteen elements through an accumulator of three runs. Each function follows the template
    specialisations of the struct with the same name. */
module Brigand {

  import opened Counting
  import opened Orders

  /** What merge_insert leaves: the merged elements, and what remains of either side. */
  datatype Merging<T> = Merging(list: seq<T>, left: seq<T>, right: seq<T>)

  /** takeLeft: how the heads of both sides compare. */
  function MergeInsert<T>(takeLeft: bool, r: seq<T>, t: seq<T>, u: seq<T>, comp: (T, T) -> bool): Merging<T>
    requires t != [] && u != []
    decreases |t| + |u|
  {
    if takeLeft then
      if |t| > 1 then MergeInsert(comp(t[1], u[0]), r + [t[0]], t[1..], u, comp)
      else Merging(r + [t[0]], [], u)
    else
      if |u| > 1 then MergeInsert(comp(t[0], u[1]), r + [u[0]], t, u[1..], comp)
      else Merging(r + [u[0]], t, [])
  }

  /** One element at a time. */
  function SimpleMerge<T>(t: seq<T>, u: seq<T>, comp: (T, T) -> bool): seq<T>
    decreases |t| + |u|
  {
    if u == [] then t
    else if t == [] then u
    else if comp(t[0], u[0]) then [t[0]] + SimpleMerge(t[1..], u, comp)
    else [u[0]] + SimpleMerge(t, u[1..], comp)
  }

  lemma {:induction false} MergeInsertIsSimple<T>(r: seq<T>, t: seq<T>, u: seq<T>, ts: seq<T>, us: seq<T>,
                                                     comp: (T, T) -> bool)
    requires t != [] && u != []
    ensures var m := MergeInsert(comp(t[0], u[0]), r, t, u, comp);
      && r + SimpleMerge(t + ts, u + us, comp) == m.list + SimpleMerge(m.left + ts, m.right + us, comp)
      && |m.left| + |m.right| < |t| + |u|
    decreases |t| + |u|
  {
    if comp(t[0], u[0]) {
      assert (t + ts)[1..] == t[1..] + ts;
      if |t| > 1 {
        MergeInsertIsSimple(r + [t[0]], t[1..], u, ts, us, comp);
      } else {
        assert t[1..] + ts == [] + ts;
      }
      assert r + ([t[0]] + SimpleMerge(t[1..] + ts, u + us, comp))
        == (r + [t[0]]) + SimpleMerge(t[1..] + ts, u + us, comp);
    } else {
      assert (u + us)[1..] == u[1..] + us;
      if |u| > 1 {
        MergeInsertIsSimple(r + [u[0]], t, u[1..], ts, us, comp);
      } else {
        assert u[1..] + us == [] + us;
      }
      assert r + ([u[0]] + SimpleMerge(t + ts, u[1..] + us, comp))
        == (r + [u[0]]) + SimpleMerge(t + ts, u[1..] + us, comp);
    }
  }

  /** Merging a front part of each side puts elements in their final places and leaves the rest to merge. */
  lemma FrontStep<T>(r: seq<T>, t: seq<T>, u: seq<T>, ts: seq<T>, us: seq<T>, comp: (T, T) -> bool)
    requires t != [] && u != []
    ensures var m := MergeInsert(comp(t[0], u[0]), [], t, u, comp);
      && r + SimpleMerge(t + ts, u + us, comp) == r + m.list + SimpleMerge(m.left + ts, m.right + us, comp)
      && |m.left| + |m.right| < |t| + |u|
  {
    MergeInsertIsSimple([], t, u, ts, us, comp);
    var m := MergeInsert(comp(t[0], u[0]), [], t, u, comp);
    var merged, rest := SimpleMerge(t + ts, u + us, comp), SimpleMerge(m.left + ts, m.right + us, comp);
    Associative(r, [], merged);
    Associative(r, m.list, rest);
  }

  lemma Associative<T>(a: seq<T>, b: seq<T>, c: seq<T>)
    ensures a + (b + c) == a + b + c && [] + c == c
  {}

  lemma BlockStep<T>(r: seq<T>, t: seq<T>, u: seq<T>, comp: (T, T) -> bool)
    requires |t| >= 10 && |u| >= 10
    ensures var m := MergeInsert(comp(t[0], u[0]), [], t[..10], u[..10], comp);
      && r + SimpleMerge(t, u, comp) == r + m.list + SimpleMerge(m.left + t[10..], m.right + u[10..], comp)
      && |m.left| + |m.right| < 20
  {
    FrontStep(r, t[..10], u[..10], t[10..], u[10..], comp);
    assert t[..10] + t[10..] == t && u[..10] + u[10..] == u;
  }

  /** One element at a time. */
  lemma ElementStep<T>(r: seq<T>, t: seq<T>, u: seq<T>, comp: (T, T) -> bool)
    requires t != [] && u != []
    ensures r + SimpleMerge(t, u, comp)
      == if comp(t[0], u[0]) then r + [t[0]] + SimpleMerge(t[1..], u, comp)
         else r + [u[0]] + SimpleMerge(t, u[1..], comp)
  {
    if comp(t[0], u[0]) {
      assert r + ([t[0]] + SimpleMerge(t[1..], u, comp)) == r + [t[0]] + SimpleMerge(t[1..], u, comp);
    } else {
      assert r + ([u[0]] + SimpleMerge(t, u[1..], comp)) == r + [u[0]] + SimpleMerge(t, u[1..], comp);
    }
  }

  /** A block of ten at a time, as long as both sides have one. The result is that of merging one element at
      a time, whatever the comparison. */
  function MergeImpl<T>(r: seq<T>, t: seq<T>, u: seq<T>, comp: (T, T) -> bool): (m: seq<T>)
    ensures m == r + SimpleMerge(t, u, comp)
    decreases |t| + |u|
  {
    if |t| >= 10 && |u| >= 10 then
      BlockStep(r, t, u, comp);
      var sub := MergeInsert(comp(t[0], u[0]), [], t[..10], u[..10], comp);
      MergeImpl(r + sub.list, sub.left + t[10..], sub.right + u[10..], comp)
    else if t != [] && u != [] then
      ElementStep(r, t, u, comp);
      if comp(t[0], u[0]) then MergeImpl(r + [t[0]], t[1..], u, comp)
      else MergeImpl(r + [u[0]], t, u[1..], comp)
    else if u == [] then r + t
    else r + u
  }

  function Merge<T>(t: seq<T>, u: seq<T>, comp: (T, T) -> bool): (m: seq<T>) {
    MergeImpl([], t, u, comp)
  }

  lemma CountSplit<T>(s: seq<T>, k: nat, x: T)
    requires k <= |s|
    ensures Count(s, x) == Count(s[..k], x) + Count(s[k..], x)
  {
    assert s == s[..k] + s[k..];
    CountAppend(s[..k], s[k..], x);
  }

  lemma {:induction false} SimpleMergeCount<T>(t: seq<T>, u: seq<T>, comp: (T, T) -> bool, x: T)
    ensures Count(SimpleMerge(t, u, comp), x) == Count(t, x) + Count(u, x)
    decreases |t| + |u|
  {
    if t != [] && u != [] {
      if comp(t[0], u[0]) {
        SimpleMergeCount(t[1..], u, comp, x);
        CountAppend([t[0]], SimpleMerge(t[1..], u, comp), x);
      } else {
        SimpleMergeCount(t, u[1..], comp, x);
        CountAppend([u[0]], SimpleMerge(t, u[1..], comp), x);
      }
    }
  }

  ghost predicate NothingBefore<T>(s: seq<T>, x: T, comp: (T, T) -> bool) {
    forall i :: 0 <= i < |s| ==> !comp(s[i], x)
  }

  lemma {:induction false} MergeNothingBefore<T>(t: seq<T>, u: seq<T>, x: T, comp: (T, T) -> bool)
    requires NothingBefore(t, x, comp) && NothingBefore(u, x, comp)
    ensures NothingBefore(SimpleMerge(t, u, comp), x, comp)
    decreases |t| + |u|
  {
    if t != [] && u != [] {
      if comp(t[0], u[0]) { MergeNothingBefore(t[1..], u, x, comp); } else { MergeNothingBefore(t, u[1..], x, comp); }
    }
  }

  lemma {:induction false} SimpleMergeOrdered<T(!new)>(t: seq<T>, u: seq<T>, comp: (T, T) -> bool)
    requires StrictWeakOrder(comp) && Ordered(t, comp) && Ordered(u, comp)
    ensures Ordered(SimpleMerge(t, u, comp), comp)
    decreases |t| + |u|
  {
    if t != [] && u != [] {
      if comp(t[0], u[0]) {
        SimpleMergeOrdered(t[1..], u, comp);
        assert Law(comp, t[0], u[0], t[0]);
        assert forall j :: 0 <= j < |u| ==> Law(comp, u[j], u[0], t[0]);
        MergeNothingBefore(t[1..], u, t[0], comp);
      } else {
        SimpleMergeOrdered(t, u[1..], comp);
        assert forall j :: 0 <= j < |t| ==> Law(comp, t[j], t[0], u[0]);
        MergeNothingBefore(t, u[1..], u[0], comp);
      }
    }
  }

  lemma HeadHasPeersAlone<T(!new)>(head: T, u: seq<T>, comp: (T, T) -> bool, x: T)
    requires StrictWeakOrder(comp) && Ordered(u, comp) && u != [] && comp(head, u[0]) && Equivalent(comp, head, x)
    ensures Peers(u, comp, x) == []
  {
    forall j | 0 <= j < |u| ensures !Equivalent(comp, u[j], x) {
      assert Law(comp, head, u[j], u[0]) && Law(comp, head, x, u[j]);
      assert j > 0 ==> !comp(u[j], u[0]);
    }
    NoPeers(u, comp, x);
  }

  lemma HeadTies<T>(s: seq<T>, comp: (T, T) -> bool, x: T)
    requires s != []
    ensures Peers(s, comp, x) == (if Equivalent(comp, s[0], x) then [s[0]] else []) + Peers(s[1..], comp, x)
  {
    PeersAppend([s[0]], s[1..], comp, x);
    assert s == [s[0]] + s[1..] && [s[0]][..0] == [];
  }

  /** Equivalent elements of the right side come before those of the left side, in their order on either side. */
  lemma {:induction false} SimpleMergeTies<T(!new)>(t: seq<T>, u: seq<T>, comp: (T, T) -> bool, x: T)
    requires StrictWeakOrder(comp) && Ordered(t, comp) && Ordered(u, comp)
    ensures Peers(SimpleMerge(t, u, comp), comp, x) == Peers(u, comp, x) + Peers(t, comp, x)
    decreases |t| + |u|
  {
    if t != [] && u != [] {
      HeadTies(SimpleMerge(t, u, comp), comp, x);
      if comp(t[0], u[0]) {
        SimpleMergeTies(t[1..], u, comp, x);
        HeadTies(t, comp, x);
        assert SimpleMerge(t, u, comp)[1..] == SimpleMerge(t[1..], u, comp);
        if Equivalent(comp, t[0], x) { HeadHasPeersAlone(t[0], u, comp, x); }
      } else {
        SimpleMergeTies(t, u[1..], comp, x);
        HeadTies(u, comp, x);
        assert SimpleMerge(t, u, comp)[1..] == SimpleMerge(t, u[1..], comp);
      }
    }
  }

  lemma MergeTies<T(!new)>(t: seq<T>, u: seq<T>, comp: (T, T) -> bool, x: T)
    requires StrictWeakOrder(comp) && Ordered(t, comp) && Ordered(u, comp)
    ensures Peers(Merge(t, u, comp), comp, x) == Peers(u, comp, x) + Peers(t, comp, x)
  {
    SimpleMergeTies(t, u, comp, x);
    assert [] + SimpleMerge(t, u, comp) == SimpleMerge(t, u, comp);
  }

  lemma MergeOrdered<T(!new)>(t: seq<T>, u: seq<T>, comp: (T, T) -> bool)
    requires StrictWeakOrder(comp) && Ordered(t, comp) && Ordered(u, comp)
    ensures Ordered(Merge(t, u, comp), comp)
  {
    SimpleMergeOrdered(t, u, comp);
    assert [] + SimpleMerge(t, u, comp) == SimpleMerge(t, u, comp);
  }

  lemma MergeCount<T>(t: seq<T>, u: seq<T>, comp: (T, T) -> bool, x: T)
    ensures Count(Merge(t, u, comp), x) == Count(t, x) + Count(u, x)
  {
    SimpleMergeCount(t, u, comp, x);
    assert [] + SimpleMerge(t, u, comp) == SimpleMerge(t, u, comp);
  }

  /** Up to eighteen elements in the sort, but any number but none here. */
  function MiniSort<T>(s: seq<T>, comp: (T, T) -> bool): seq<T>
    requires s != []
  {
    if |s| >= 9 then Merge(MiniSort(s[..8], comp), MiniSort(s[8..], comp), comp)
    else if |s| >= 5 then Merge(MiniSort(s[..4], comp), MiniSort(s[4..], comp), comp)
    else if |s| == 4 then Merge(MiniSort(s[..2], comp), MiniSort(s[2..], comp), comp)
    else if |s| == 3 then Merge(MiniSort(s[..2], comp), s[2..], comp)
    else if |s| == 2 then (if comp(s[0], s[1]) then s else [s[1], s[0]])
    else s
  }

  function MiniSplit(n: nat): nat {
    if n >= 9 then 8 else if n >= 5 then 4 else 2
  }

  lemma {:induction false} MiniSortOrdered<T(!new)>(s: seq<T>, comp: (T, T) -> bool)
    requires StrictWeakOrder(comp) && s != []
    ensures Ordered(MiniSort(s, comp), comp)
  {
    if |s| == 2 {
      assert Law(comp, s[0], s[1], s[0]);
    } else if |s| > 2 {
      var k := MiniSplit(|s|);
      MiniSortOrdered(s[..k], comp);
      MiniSortOrdered(s[k..], comp);
      MergeOrdered(MiniSort(s[..k], comp), MiniSort(s[k..], comp), comp);
    }
  }

  lemma {:induction false} MiniSortCount<T>(s: seq<T>, comp: (T, T) -> bool, x: T)
    requires s != []
    ensures Count(MiniSort(s, comp), x) == Count(s, x)
  {
    if |s| > 2 {
      var k := MiniSplit(|s|);
      MiniSortCount(s[..k], comp, x);
      MiniSortCount(s[k..], comp, x);
      MergeCount(MiniSort(s[..k], comp), MiniSort(s[k..], comp), comp, x);
      CountSplit(s, k, x);
    } else if |s| == 2 {
      CountSplit(s, 1, x);
      CountAppend([s[1]], [s[0]], x);
      assert [s[1]] + [s[0]] == [s[1], s[0]];
    }
  }

  function Reversed<T>(s: seq<T>): (r: seq<T>)
    ensures |r| == |s| && forall i :: 0 <= i < |s| ==> r[i] == s[|s| - 1 - i]
  {
    if s == [] then [] else [s[|s| - 1]] + Reversed(s[..|s| - 1])
  }

  lemma ReversedAppend<T>(a: seq<T>, b: seq<T>)
    ensures Reversed(a + b) == Reversed(b) + Reversed(a)
  {
    var r := Reversed(b) + Reversed(a);
    forall i | 0 <= i < |r| ensures Reversed(a + b)[i] == r[i] {
      assert (a + b)[|r| - 1 - i] == if i < |b| then b[|b| - 1 - i] else a[|r| - 1 - i];
    }
  }

  lemma PairTies<T(!new)>(a: T, b: T, comp: (T, T) -> bool, x: T)
    requires StrictWeakOrder(comp)
    ensures Peers(MiniSort([a, b], comp), comp, x) == Reversed(Peers([a, b], comp, x))
  {
    HeadTies([a, b], comp, x);
    HeadTies([b, a], comp, x);
    HeadTies([a], comp, x);
    HeadTies([b], comp, x);
    assert [a, b][1..] == [b] && [b, a][1..] == [a];
    if comp(a, b) && Equivalent(comp, a, x) { HeadHasPeersAlone(a, [b], comp, x); }
  }

  /** Two parts that are turned round and merged are the whole turned round. */
  lemma JoinTies<T(!new)>(s: seq<T>, k: nat, left: seq<T>, right: seq<T>, comp: (T, T) -> bool, x: T)
    requires StrictWeakOrder(comp) && k <= |s| && Ordered(left, comp) && Ordered(right, comp)
    requires Peers(left, comp, x) == Reversed(Peers(s[..k], comp, x))
    requires Peers(right, comp, x) == Reversed(Peers(s[k..], comp, x))
    ensures Peers(Merge(left, right, comp), comp, x) == Reversed(Peers(s, comp, x))
  {
    MergeTies(left, right, comp, x);
    PeersAppend(s[..k], s[k..], comp, x);
    ReversedAppend(Peers(s[..k], comp, x), Peers(s[k..], comp, x));
    assert s == s[..k] + s[k..];
  }

  /** The small sort turns equivalent elements round: it is as far from stable as can be. */
  lemma {:induction false} MiniSortReversesTies<T(!new)>(s: seq<T>, comp: (T, T) -> bool, x: T)
    requires StrictWeakOrder(comp) && s != []
    ensures Peers(MiniSort(s, comp), comp, x) == Reversed(Peers(s, comp, x))
  {
    if |s| == 1 {
      HeadTies(s, comp, x);
    } else if |s| == 2 {
      PairTies(s[0], s[1], comp, x);
      assert s == [s[0], s[1]];
    } else {
      var k := MiniSplit(|s|);
      MiniSortReversesTies(s[..k], comp, x);
      MiniSortReversesTies(s[k..], comp, x);
      MiniSortOrdered(s[..k], comp);
      MiniSortOrdered(s[k..], comp);
      JoinTies(s, k, MiniSort(s[..k], comp), MiniSort(s[k..], comp), comp, x);
    }
  }

  /** The accumulator holds up to three sorted runs. */
  function SortImpl<T>(runs: seq<seq<T>>, s: seq<T>, comp: (T, T) -> bool): seq<T>
    requires |runs| <= 3
    decreases |s|
  {
    if |s| >= 256 && runs == [] then
      Merge(SortImpl([], s[..255], comp), SortImpl([], s[255..], comp), comp)
    else if |s| >= 18 then
      var run := MiniSort(s[..18], comp);
      if |runs| < 3 then SortImpl(runs + [run], s[18..], comp)
      else SortImpl([Merge(runs[0], runs[1], comp), Merge(run, runs[2], comp)], s[18..], comp)
    else if s != [] then
      var run := MiniSort(s, comp);
      if |runs| == 0 then run
      else if |runs| == 1 then Merge(run, runs[0], comp)
      else if |runs| == 2 then Merge(runs[0], Merge(run, runs[1], comp), comp)
      else Merge(Merge(runs[0], runs[1], comp), Merge(run, runs[2], comp), comp)
    else
      if |runs| == 0 then []
      else if |runs| == 1 then runs[0]
      else if |runs| == 2 then Merge(runs[0], runs[1], comp)
      else Merge(Merge(runs[0], runs[1], comp), runs[2], comp)
  }

  function Sort<T>(s: seq<T>, comp: (T, T) -> bool): seq<T> {
    SortImpl([], s, comp)
  }

  ghost predicate AllOrdered<T>(runs: seq<seq<T>>, comp: (T, T) -> bool) {
    forall i :: 0 <= i < |runs| ==> Ordered(runs[i], comp)
  }

  function RunsCount<T(==)>(runs: seq<seq<T>>, x: T): nat
    requires |runs| <= 3
  {
    (if |runs| > 0 then Count(runs[0], x) else 0) + (if |runs| > 1 then Count(runs[1], x) else 0)
    + (if |runs| > 2 then Count(runs[2], x) else 0)
  }

  lemma {:induction false} SortImplOrdered<T(!new)>(runs: seq<seq<T>>, s: seq<T>, comp: (T, T) -> bool)
    requires StrictWeakOrder(comp) && |runs| <= 3 && AllOrdered(runs, comp)
    ensures Ordered(SortImpl(runs, s, comp), comp)
    decreases |s|
  {
    if |s| >= 256 && runs == [] {
      SortImplOrdered([], s[..255], comp);
      SortImplOrdered([], s[255..], comp);
      MergeOrdered(SortImpl([], s[..255], comp), SortImpl([], s[255..], comp), comp);
    } else if |s| >= 18 {
      MiniSortOrdered(s[..18], comp);
      var run := MiniSort(s[..18], comp);
      if |runs| < 3 {
        SortImplOrdered(runs + [run], s[18..], comp);
      } else {
        MergeOrdered(runs[0], runs[1], comp);
        MergeOrdered(run, runs[2], comp);
        SortImplOrdered([Merge(runs[0], runs[1], comp), Merge(run, runs[2], comp)], s[18..], comp);
      }
    } else {
      LastRunOrdered(runs, s, comp);
    }
  }

  lemma LastRunOrdered<T(!new)>(runs: seq<seq<T>>, s: seq<T>, comp: (T, T) -> bool)
    requires StrictWeakOrder(comp) && |runs| <= 3 && AllOrdered(runs, comp) && |s| < 18
    ensures Ordered(SortImpl(runs, s, comp), comp)
  {
    if s != [] { MiniSortOrdered(s, comp); }
    var run := if s != [] then MiniSort(s, comp) else [];
    if |runs| == 1 {
      MergeOrdered(run, runs[0], comp);
    } else if |runs| == 2 {
      MergeOrdered(runs[0], runs[1], comp);
      MergeOrdered(run, runs[1], comp);
      MergeOrdered(runs[0], Merge(run, runs[1], comp), comp);
    } else if |runs| == 3 {
      MergeOrdered(runs[0], runs[1], comp);
      MergeOrdered(run, runs[2], comp);
      MergeOrdered(Merge(runs[0], runs[1], comp), Merge(run, runs[2], comp), comp);
      MergeOrdered(Merge(runs[0], runs[1], comp), runs[2], comp);
    }
  }

  lemma {:induction false} SortImplCount<T>(runs: seq<seq<T>>, s: seq<T>, comp: (T, T) -> bool, x: T)
    requires |runs| <= 3
    ensures Count(SortImpl(runs, s, comp), x) == RunsCount(runs, x) + Count(s, x)
    decreases |s|
  {
    if |s| >= 256 && runs == [] {
      SortImplCount([], s[..255], comp, x);
      SortImplCount([], s[255..], comp, x);
      MergeCount(SortImpl([], s[..255], comp), SortImpl([], s[255..], comp), comp, x);
      CountSplit(s, 255, x);
    } else if |s| >= 18 {
      CountSplit(s, 18, x);
      MiniSortCount(s[..18], comp, x);
      var run := MiniSort(s[..18], comp);
      if |runs| < 3 {
        SortImplCount(runs + [run], s[18..], comp, x);
      } else {
        MergeCount(runs[0], runs[1], comp, x);
        MergeCount(run, runs[2], comp, x);
        SortImplCount([Merge(runs[0], runs[1], comp), Merge(run, runs[2], comp)], s[18..], comp, x);
      }
    } else {
      LastRunCount(runs, s, comp, x);
    }
  }

  lemma LastRunCount<T>(runs: seq<seq<T>>, s: seq<T>, comp: (T, T) -> bool, x: T)
    requires |runs| <= 3 && |s| < 18
    ensures Count(SortImpl(runs, s, comp), x) == RunsCount(runs, x) + Count(s, x)
  {
    if s != [] { MiniSortCount(s, comp, x); }
    var run := if s != [] then MiniSort(s, comp) else [];
    if |runs| == 1 {
      MergeCount(run, runs[0], comp, x);
    } else if |runs| == 2 {
      MergeCount(runs[0], runs[1], comp, x);
      MergeCount(run, runs[1], comp, x);
      MergeCount(runs[0], Merge(run, runs[1], comp), comp, x);
    } else if |runs| == 3 {
      MergeCount(runs[0], runs[1], comp, x);
      MergeCount(run, runs[2], comp, x);
      MergeCount(Merge(runs[0], runs[1], comp), Merge(run, runs[2], comp), comp, x);
      MergeCount(Merge(runs[0], runs[1], comp), runs[2], comp, x);
    }
  }

  /** The elements equivalent to some x in the order that the sort gives them, from those of the list and of each run
      in the accumulator: every chunk is turned round, and the chunks come in this order. */
  function TieOrder<T>(runs: seq<seq<T>>, s: seq<T>, comp: (T, T) -> bool, x: T): seq<T>
    requires |runs| <= 3
    decreases |s|
  {
    if |s| >= 256 && runs == [] then TieOrder([], s[255..], comp, x) + TieOrder([], s[..255], comp, x)
    else if |s| >= 18 then
      var chunk := Reversed(Peers(s[..18], comp, x));
      if |runs| < 3 then TieOrder(runs + [chunk], s[18..], comp, x)
      else TieOrder([runs[1] + runs[0], runs[2] + chunk], s[18..], comp, x)
    else
      var chunk := Reversed(Peers(s, comp, x));
      if |runs| == 0 then chunk
      else if |runs| == 1 then runs[0] + chunk
      else if |runs| == 2 then runs[1] + chunk + runs[0]
      else runs[2] + chunk + (runs[1] + runs[0])
  }

  function TiesOfRuns<T>(runs: seq<seq<T>>, comp: (T, T) -> bool, x: T): (r: seq<seq<T>>)
    ensures |r| == |runs|
  {
    seq(|runs|, i requires 0 <= i < |runs| => Peers(runs[i], comp, x))
  }

  /** Equivalent elements end up in exactly that order: the sort is not stable, and this is what it does instead. */
  lemma {:induction false} SortImplTies<T(!new)>(runs: seq<seq<T>>, s: seq<T>, comp: (T, T) -> bool, x: T)
    requires StrictWeakOrder(comp) && |runs| <= 3 && AllOrdered(runs, comp)
    ensures Peers(SortImpl(runs, s, comp), comp, x) == TieOrder(TiesOfRuns(runs, comp, x), s, comp, x)
    decreases |s|
  {
    if |s| >= 256 && runs == [] {
      SortImplOrdered([], s[..255], comp);
      SortImplOrdered([], s[255..], comp);
      SortImplTies([], s[..255], comp, x);
      SortImplTies([], s[255..], comp, x);
      MergeTies(SortImpl([], s[..255], comp), SortImpl([], s[255..], comp), comp, x);
      assert TiesOfRuns(runs, comp, x) == [] == TiesOfRuns<T>([], comp, x);
    } else if |s| >= 18 {
      MiniSortOrdered(s[..18], comp);
      MiniSortReversesTies(s[..18], comp, x);
      var run := MiniSort(s[..18], comp);
      if |runs| < 3 {
        SortImplTies(runs + [run], s[18..], comp, x);
        OneMoreRunTies(runs, run, comp, x);
      } else {
        TwoRunsTies(runs, run, s, comp, x);
        SortImplTies([Merge(runs[0], runs[1], comp), Merge(run, runs[2], comp)], s[18..], comp, x);
      }
    } else {
      LastRunTies(runs, s, comp, x);
    }
  }

  lemma OneMoreRunTies<T>(runs: seq<seq<T>>, run: seq<T>, comp: (T, T) -> bool, x: T)
    ensures TiesOfRuns(runs + [run], comp, x) == TiesOfRuns(runs, comp, x) + [Peers(run, comp, x)]
  {
  }

  lemma TwoRunsTies<T(!new)>(runs: seq<seq<T>>, run: seq<T>, s: seq<T>, comp: (T, T) -> bool, x: T)
    requires StrictWeakOrder(comp) && |runs| == 3 && AllOrdered(runs, comp) && Ordered(run, comp)
    ensures var merged := [Merge(runs[0], runs[1], comp), Merge(run, runs[2], comp)];
      && AllOrdered(merged, comp)
      && TiesOfRuns(merged, comp, x) == [Peers(runs[1], comp, x) + Peers(runs[0], comp, x),
                                         Peers(runs[2], comp, x) + Peers(run, comp, x)]
  {
    MergeOrdered(runs[0], runs[1], comp);
    MergeOrdered(run, runs[2], comp);
    MergeTies(runs[0], runs[1], comp, x);
    MergeTies(run, runs[2], comp, x);
  }

  lemma LastRunTies<T(!new)>(runs: seq<seq<T>>, s: seq<T>, comp: (T, T) -> bool, x: T)
    requires StrictWeakOrder(comp) && |runs| <= 3 && AllOrdered(runs, comp) && |s| < 18
    ensures Peers(SortImpl(runs, s, comp), comp, x) == TieOrder(TiesOfRuns(runs, comp, x), s, comp, x)
  {
    if s != [] {
      MiniSortOrdered(s, comp);
      MiniSortReversesTies(s, comp, x);
    }
    var run := if s != [] then MiniSort(s, comp) else [];
    if |runs| == 1 {
      MergeTies(run, runs[0], comp, x);
    } else if |runs| == 2 {
      MergeOrdered(run, runs[1], comp);
      MergeTies(runs[0], runs[1], comp, x);
      MergeTies(run, runs[1], comp, x);
      MergeTies(runs[0], Merge(run, runs[1], comp), comp, x);
    } else if |runs| == 3 {
      MergeOrdered(runs[0], runs[1], comp);
      MergeOrdered(run, runs[2], comp);
      MergeTies(runs[0], runs[1], comp, x);
      MergeTies(run, runs[2], comp, x);
      MergeTies(Merge(runs[0], runs[1], comp), Merge(run, runs[2], comp), comp, x);
      MergeTies(Merge(runs[0], runs[1], comp), runs[2], comp, x);
    }
  }

  /** The sort is a sort for lists of every length: in order, and with the same elements. */
  lemma SortSorts<T(!new)>(s: seq<T>, comp: (T, T) -> bool)
    requires StrictWeakOrder(comp)
    ensures Ordered(Sort(s, comp), comp) && multiset(Sort(s, comp)) == multiset(s)
  {
    SortImplOrdered([], s, comp);
    forall x ensures multiset(Sort(s, comp))[x] == multiset(s)[x] {
      SortImplCount([], s, comp, x);
      CountIsMultiplicity(Sort(s, comp), x);
      CountIsMultiplicity(s, x);
    }
  }
}
