/** What a comparison function promises, and what it means to be in order under it. */
module Orders {

  predicate Law<T>(less: (T, T) -> bool, x: T, y: T, z: T) {
    && !less(x, x)
    && (less(x, y) && less(y, z) ==> less(x, z))
    && (!less(x, y) && !less(y, z) ==> !less(x, z))
  }

  /** What the caller promises about lessThan: it is irreflexive and transitive, and so is its negation. */
  ghost predicate StrictWeakOrder<T(!new)>(less: (T, T) -> bool) {
    forall x, y, z :: Law(less, x, y, z)
  }

  ghost predicate Ordered<T>(s: seq<T>, less: (T, T) -> bool) {
    forall i, j :: 0 <= i < j < |s| ==> !less(s[j], s[i])
  }

  predicate Equivalent<T>(less: (T, T) -> bool, x: T, y: T) {
    !less(x, y) && !less(y, x)
  }

  /** The elements that are equivalent to x, in the order in which they appear. */
  function Peers<T>(s: seq<T>, less: (T, T) -> bool, x: T): seq<T> {
    if s == [] then []
    else Peers(s[..|s| - 1], less, x) + (if Equivalent(less, s[|s| - 1], x) then [s[|s| - 1]] else [])
  }

  lemma {:induction false} PeersAppend<T>(a: seq<T>, b: seq<T>, less: (T, T) -> bool, x: T)
    ensures Peers(a + b, less, x) == Peers(a, less, x) + Peers(b, less, x)
    decreases |b|
  {
    if b == [] {
      assert a + b == a;
    } else {
      var n := |b| - 1;
      assert (a + b)[..|a| + n] == a + b[..n];
      PeersAppend(a, b[..n], less, x);
    }
  }

  lemma {:induction false} NoPeers<T>(s: seq<T>, less: (T, T) -> bool, x: T)
    requires forall i :: 0 <= i < |s| ==> !Equivalent(less, s[i], x)
    ensures Peers(s, less, x) == []
  {
    if s != [] { NoPeers(s[..|s| - 1], less, x); }
  }
}
