/** What the operations of BitVector do to the words of a vector, and what that means for the set in them. */
module BitVectorWords {
  import opened Words
  import opened PackedSets

  const BITS_IN_POINTER: nat := 64

  type Word = b: Bits | |b| == BITS_IN_POINTER witness Zeros(BITS_IN_POINTER)

  ghost function SetOf(ws: seq<Word>): set<nat> {
    Members(BITS_IN_POINTER, ws)
  }

  predicate HasBit(ws: seq<Word>, i: nat) {
    Has(BITS_IN_POINTER, ws, i)
  }

  lemma InSetOf(ws: seq<Word>, i: nat)
    ensures i in SetOf(ws) <==> HasBit(ws, i)
  {
    InMembers(BITS_IN_POINTER, ws, i);
  }

  lemma SetOfIs(ws: seq<Word>, s: set<nat>)
    requires forall i: nat :: i in s <==> HasBit(ws, i)
    ensures SetOf(ws) == s
  {
    forall i: nat ensures i in SetOf(ws) <==> i in s { InSetOf(ws, i); }
  }

  function ZeroWords(n: nat): (r: seq<Word>)
    ensures |r| == n
  {
    seq(n, _ => Zeros(BITS_IN_POINTER))
  }

  // Growing, shifting and shrinking.

  /** The words moved up by shift places in a vector of n words. */
  function Shifted(ws: seq<Word>, shift: nat, n: nat): seq<Word>
    requires shift + |ws| <= n
  {
    ZeroWords(shift) + ws + ZeroWords(n - shift - |ws|)
  }

  ghost function AllPlus(s: set<nat>, d: nat): set<nat> {
    set i | i in s :: i + d
  }

  ghost function Below(s: set<nat>, n: nat): set<nat> {
    set i | i in s && i < n
  }

  lemma PlusZero(s: set<nat>)
    ensures AllPlus(s, 0) == s
  {
    assert forall i :: i in s ==> i + 0 in AllPlus(s, 0);
  }

  /** Moving whole words up adds the distance to every member. */
  lemma ShiftAddsToMembers(ws: seq<Word>, shift: nat, n: nat)
    requires shift + |ws| <= n
    ensures SetOf(Shifted(ws, shift, n)) == AllPlus(SetOf(ws), BITS_IN_POINTER * shift)
  {
    var d := BITS_IN_POINTER * shift;
    forall i: nat ensures i in AllPlus(SetOf(ws), d) <==> HasBit(Shifted(ws, shift, n), i) {
      if i >= d {
        InSetOf(ws, i - d);
        assert i in AllPlus(SetOf(ws), d) <==> i - d in SetOf(ws);
      }
    }
    SetOfIs(Shifted(ws, shift, n), AllPlus(SetOf(ws), d));
  }

  lemma TruncationDropsMembers(ws: seq<Word>, n: nat)
    requires n <= |ws|
    ensures SetOf(ws[..n]) == Below(SetOf(ws), BITS_IN_POINTER * n)
  {
    forall i: nat ensures i in Below(SetOf(ws), BITS_IN_POINTER * n) <==> HasBit(ws[..n], i) {
      InSetOf(ws, i);
    }
    SetOfIs(ws[..n], Below(SetOf(ws), BITS_IN_POINTER * n));
  }

  // Combining two vectors word by word.

  /** Every word of a takes the ones of the word of b at its place. */
  function Merged(a: seq<Word>, b: seq<Word>): seq<Word>
    requires |a| <= |b|
  {
    seq(|a|, j requires 0 <= j < |a| => Or(a[j], b[j]))
  }

  lemma MergeIsUnion(a: seq<Word>, b: seq<Word>)
    requires |a| <= |b|
    ensures SetOf(Merged(a, b)) == SetOf(a) + Below(SetOf(b), BITS_IN_POINTER * |a|)
  {
    var s := SetOf(a) + Below(SetOf(b), BITS_IN_POINTER * |a|);
    forall i: nat ensures i in s <==> HasBit(Merged(a, b), i) {
      InSetOf(a, i);
      InSetOf(b, i);
    }
    SetOfIs(Merged(a, b), s);
  }

  lemma ExactIfOnes(a: seq<Word>, b: seq<Word>, beyond: seq<Word>)
    requires |b| <= |a| && |beyond| == |a| - |b| && forall j :: |b| <= j < |a| ==> a[j] == Ones(BITS_IN_POINTER)
    ensures SetOf(Merged(a, b + beyond)) == SetOf(a) + SetOf(b)
  {
    forall i: nat ensures i in SetOf(a) + SetOf(b) <==> HasBit(Merged(a, b + beyond), i) {
      InSetOf(a, i);
      InSetOf(b, i);
    }
    SetOfIs(Merged(a, b + beyond), SetOf(a) + SetOf(b));
  }

  lemma OnesIfExact(a: seq<Word>, b: seq<Word>, beyond: seq<Word>, j: nat)
    requires |b| <= j < |a| && |beyond| == |a| - |b| && beyond[j - |b|] == Ones(BITS_IN_POINTER)
    requires SetOf(Merged(a, b + beyond)) == SetOf(a) + SetOf(b)
    ensures a[j] == Ones(BITS_IN_POINTER)
  {
    forall k | 0 <= k < BITS_IN_POINTER ensures a[j][k] {
      var i: nat := j * BITS_IN_POINTER + k;
      InSetOf(Merged(a, b + beyond), i);
      InSetOf(a, i);
      InSetOf(b, i);
      assert i / BITS_IN_POINTER == j && i % BITS_IN_POINTER == k;
    }
  }

  /** A receiver with more words than the argument reads on past the argument's end. Whatever lies there, the
      result is the union, if and only if the receiver's excess words are all ones already. */
  lemma MergeIsExactIff(a: seq<Word>, b: seq<Word>)
    requires |b| <= |a|
    ensures (forall beyond: seq<Word> :: |beyond| == |a| - |b| ==> SetOf(Merged(a, b + beyond)) == SetOf(a) + SetOf(b))
       <==> (forall j :: |b| <= j < |a| ==> a[j] == Ones(BITS_IN_POINTER))
  {
    if forall j :: |b| <= j < |a| ==> a[j] == Ones(BITS_IN_POINTER) {
      forall beyond: seq<Word> | |beyond| == |a| - |b| ensures SetOf(Merged(a, b + beyond)) == SetOf(a) + SetOf(b) {
        ExactIfOnes(a, b, beyond);
      }
    }
    if forall beyond: seq<Word> :: |beyond| == |a| - |b| ==> SetOf(Merged(a, b + beyond)) == SetOf(a) + SetOf(b) {
      var beyond: seq<Word> := seq(|a| - |b|, _ => Ones(BITS_IN_POINTER));
      assert SetOf(Merged(a, b + beyond)) == SetOf(a) + SetOf(b);
      forall j: nat | |b| <= j < |a| ensures a[j] == Ones(BITS_IN_POINTER) { OnesIfExact(a, b, beyond, j); }
    }
  }

  /** An empty vector of two words that takes in an empty one of one word, with ones behind it, has 64 in it. */
  lemma MergeReadsBeyond()
    ensures 64 in SetOf(Merged(ZeroWords(2), ZeroWords(1) + [Ones(BITS_IN_POINTER)]))
    ensures SetOf(ZeroWords(2)) + SetOf(ZeroWords(1)) == {}
  {
    InSetOf(Merged(ZeroWords(2), ZeroWords(1) + [Ones(BITS_IN_POINTER)]), 64);
    SetOfIs(ZeroWords(2), {});
    SetOfIs(ZeroWords(1), {});
  }

  /** Every word of a keeps the ones of the word of b at its place; words past the end of b become zero. */
  function Filtered(a: seq<Word>, b: seq<Word>): seq<Word> {
    seq(|a|, j requires 0 <= j < |a| => if j < |b| then And(a[j], b[j]) else Zeros(BITS_IN_POINTER))
  }

  lemma FilterIsIntersection(a: seq<Word>, b: seq<Word>)
    ensures SetOf(Filtered(a, b)) == SetOf(a) * SetOf(b)
  {
    forall i: nat ensures i in SetOf(a) * SetOf(b) <==> HasBit(Filtered(a, b), i) {
      InSetOf(a, i);
      InSetOf(b, i);
    }
    SetOfIs(Filtered(a, b), SetOf(a) * SetOf(b));
  }

  /** The members of both, and those of the receiver past the first word. */
  ghost function FilteredInline(receiver: set<nat>, argument: set<nat>): set<nat> {
    receiver * argument + (receiver - Below(receiver, BITS_IN_POINTER))
  }

  /** An inline argument acts on the first word alone: members past it survive, and the result is the
      intersection if and only if there are none. */
  lemma FilterByOneWord(a: seq<Word>, w: Word)
    requires a != []
    ensures SetOf(a[0 := And(a[0], w)]) == FilteredInline(SetOf(a), SetOf([w]))
    ensures SetOf(a[0 := And(a[0], w)]) == SetOf(a) * SetOf([w]) <==> forall i :: i in SetOf(a) ==> i < BITS_IN_POINTER
  {
    var s := FilteredInline(SetOf(a), SetOf([w]));
    forall i: nat ensures i in s <==> HasBit(a[0 := And(a[0], w)], i) {
      InSetOf(a, i);
      InSetOf([w], i);
    }
    SetOfIs(a[0 := And(a[0], w)], s);
    forall i: nat | i in SetOf([w]) ensures i < BITS_IN_POINTER { InSetOf([w], i); }
    if i: nat :| i in SetOf(a) && i >= BITS_IN_POINTER { assert i in s; }
  }

  /** The vector with 64 alone, filtered by the empty inline vector, still has 64 in it. */
  lemma FilterKeepsSixtyFour()
    ensures var ws: seq<Word> := [Zeros(BITS_IN_POINTER), Mask(BITS_IN_POINTER, 0)];
      && SetOf(ws) == {64} && SetOf([Zeros(BITS_IN_POINTER)]) == {}
      && SetOf(ws[0 := And(ws[0], Zeros(BITS_IN_POINTER))]) == {64}
  {
    var ws: seq<Word> := [Zeros(BITS_IN_POINTER), Mask(BITS_IN_POINTER, 0)];
    SetOfIs(ws, {64});
    SetOfIs([Zeros(BITS_IN_POINTER)], {});
    SetOfIs(ws[0 := And(ws[0], Zeros(BITS_IN_POINTER))], {64});
  }

  /** Every word of a loses the ones of the word of b at its place. */
  function Excluded(a: seq<Word>, b: seq<Word>): seq<Word> {
    seq(|a|, j requires 0 <= j < |a| => if j < |b| then And(a[j], Not(b[j])) else a[j])
  }

  lemma ExcludeIsDifference(a: seq<Word>, b: seq<Word>)
    ensures SetOf(Excluded(a, b)) == SetOf(a) - SetOf(b)
  {
    forall i: nat ensures i in SetOf(a) - SetOf(b) <==> HasBit(Excluded(a, b), i) {
      InSetOf(a, i);
      InSetOf(b, i);
    }
    SetOfIs(Excluded(a, b), SetOf(a) - SetOf(b));
  }

  // Comparing and hashing.

  /** Equal words as far as both go, and zeros in the rest of the longer one. */
  ghost predicate SameWords(a: seq<Word>, b: seq<Word>) {
    && (forall j :: 0 <= j < |a| && j < |b| ==> a[j] == b[j])
    && (forall j :: |b| <= j < |a| ==> a[j] == Zeros(BITS_IN_POINTER))
    && (forall j :: |a| <= j < |b| ==> b[j] == Zeros(BITS_IN_POINTER))
  }

  function WordOrZeros(ws: seq<Word>, j: nat): Word {
    if j < |ws| then ws[j] else Zeros(BITS_IN_POINTER)
  }

  lemma SameSetIffSameWords(a: seq<Word>, b: seq<Word>)
    ensures SetOf(a) == SetOf(b) <==> SameWords(a, b)
  {
    if SameWords(a, b) {
      forall i: nat ensures i in SetOf(a) <==> HasBit(b, i) { InSetOf(a, i); }
      SetOfIs(b, SetOf(a));
    }
    if SetOf(a) == SetOf(b) {
      forall j: nat ensures WordOrZeros(a, j) == WordOrZeros(b, j) {
        forall k | 0 <= k < BITS_IN_POINTER ensures WordOrZeros(a, j)[k] == WordOrZeros(b, j)[k] {
          var i: nat := j * BITS_IN_POINTER + k;
          assert i / BITS_IN_POINTER == j && i % BITS_IN_POINTER == k;
          InSetOf(a, i);
          InSetOf(b, i);
        }
      }
      assert forall j: nat :: j < |a| ==> a[j] == WordOrZeros(a, j) == WordOrZeros(b, j);
      assert forall j: nat :: j < |b| ==> b[j] == WordOrZeros(b, j) == WordOrZeros(a, j);
    }
  }

  /** The words xored together, from the last to the first. */
  function XorAll(ws: seq<Word>): Word {
    if ws == [] then Zeros(BITS_IN_POINTER) else Xor(XorAll(ws[1..]), ws[0])
  }

  /** The members whose place in their word is k. */
  ghost function AtPlace(s: set<nat>, k: nat): set<nat> {
    set i | i in s && i % BITS_IN_POINTER == k
  }

  /** Those in words from j on. */
  ghost function InPlace(s: set<nat>, k: nat, j: nat): set<nat> {
    set i | i in s && i % BITS_IN_POINTER == k && i / BITS_IN_POINTER >= j
  }

  lemma OneMoreInPlace(ws: seq<Word>, k: nat, j: nat)
    requires k < BITS_IN_POINTER && j < |ws|
    ensures |InPlace(SetOf(ws), k, j)| == |InPlace(SetOf(ws), k, j + 1)| + if ws[j][k] then 1 else 0
  {
    var i: nat := j * BITS_IN_POINTER + k;
    InSetOf(ws, i);
    var more, less := InPlace(SetOf(ws), k, j), InPlace(SetOf(ws), k, j + 1);
    if ws[j][k] {
      assert more == less + {i};
    } else {
      assert more == less;
    }
  }

  lemma {:induction false} XorCounts(ws: seq<Word>, k: nat, j: nat)
    requires k < BITS_IN_POINTER && j <= |ws|
    ensures XorAll(ws[j..])[k] <==> |InPlace(SetOf(ws), k, j)| % 2 == 1
    decreases |ws| - j
  {
    if j < |ws| {
      XorCounts(ws, k, j + 1);
      OneMoreInPlace(ws, k, j);
      assert ws[j..][1..] == ws[j + 1..];
    } else {
      forall i: nat ensures i !in InPlace(SetOf(ws), k, j) { InSetOf(ws, i); }
      assert InPlace(SetOf(ws), k, j) == {};
    }
  }

  /** A bit of the words xored together tells whether an odd number of members has that place in its word. */
  lemma XorIsParity(ws: seq<Word>, k: nat)
    requires k < BITS_IN_POINTER
    ensures XorAll(ws)[k] <==> |AtPlace(SetOf(ws), k)| % 2 == 1
  {
    XorCounts(ws, k, 0);
    assert ws[0..] == ws;
    assert InPlace(SetOf(ws), k, 0) == AtPlace(SetOf(ws), k);
  }

  /** So vectors that hold the same set feed the same value to the hash, whatever their lengths. */
  lemma SameSetSameHash(a: seq<Word>, b: seq<Word>)
    requires SetOf(a) == SetOf(b)
    ensures XorAll(a) == XorAll(b)
  {
    forall k | 0 <= k < BITS_IN_POINTER ensures XorAll(a)[k] == XorAll(b)[k] {
      XorIsParity(a, k);
      XorIsParity(b, k);
    }
  }
}
