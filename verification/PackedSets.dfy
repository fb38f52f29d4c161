/** Sets of numbers packed into words of w bits: number i is bit i % w of word i / w. */
module PackedSets {
  import opened Words

  ghost predicate Wide(w: nat, ws: seq<Bits>) {
    forall j :: 0 <= j < |ws| ==> |ws[j]| == w
  }

  predicate Has(w: nat, ws: seq<Bits>, i: nat)
    requires w > 0
  {
    i / w < |ws| && i % w < |ws[i / w]| && ws[i / w][i % w]
  }

  ghost function Members(w: nat, ws: seq<Bits>): set<nat>
    requires w > 0
  {
    set i: nat | i < w * |ws| && Has(w, ws, i)
  }

  lemma Split(w: nat, i: nat)
    requires w > 0
    ensures i == i / w * w + i % w && 0 <= i % w < w && 0 <= i / w
  {}

  lemma {:induction false} Scaled(w: nat, m: nat, n: nat)
    requires m < n
    ensures m * w + w <= n * w
  {
    assert n * w == (m + 1) * w + (n - m - 1) * w;
  }

  lemma TimesGrows(n: nat, a: nat, b: nat)
    requires a <= b
    ensures n * a <= n * b
  {
    assert n * b == n * a + n * (b - a);
  }

  lemma Joined(w: nat, j: nat, b: nat)
    requires b < w
    ensures (j * w + b) / w == j && (j * w + b) % w == b
  {
    var i := j * w + b;
    Split(w, i);
    if i / w > j { Scaled(w, j, i / w); }
    if i / w < j { Scaled(w, i / w, j); }
  }

  /** In a table of at most 2^16 places, a power of two, only the low half of a hash picks the place. */
  lemma LowHalf(high: nat, low: nat, tableSize: nat)
    requires tableSize > 0 && 0x1_0000 % tableSize == 0
    ensures (high * 0x1_0000 + low) % tableSize == low % tableSize
  {
    Split(tableSize, 0x1_0000);
    Split(tableSize, low);
    var factor := 0x1_0000 / tableSize;
    assert high * 0x1_0000 == high * factor * tableSize;
    assert high * 0x1_0000 + low == (high * factor + low / tableSize) * tableSize + low % tableSize;
    Joined(tableSize, high * factor + low / tableSize, low % tableSize);
  }

  lemma InRange(w: nat, n: nat, i: nat)
    requires w > 0
    ensures i < w * n <==> i / w < n
  {
    Split(w, i);
    if i / w < n {
      Scaled(w, i / w, n);
    } else if n < i / w {
      Scaled(w, n, i / w);
    }
  }

  lemma InMembers(w: nat, ws: seq<Bits>, i: nat)
    requires w > 0
    ensures i in Members(w, ws) <==> Has(w, ws, i)
  {
    InRange(w, |ws|, i);
  }

  /** Bit b of word j is the number j * w + b. */
  lemma At(w: nat, ws: seq<Bits>, j: nat, b: nat)
    requires Wide(w, ws) && j < |ws| && b < w
    ensures j * w + b in Members(w, ws) <==> ws[j][b]
    ensures Has(w, ws, j * w + b) <==> ws[j][b]
  {
    Joined(w, j, b);
    InMembers(w, ws, j * w + b);
  }

  /** A set of numbers is the members if each number is in it just when its bit is set. */
  lemma MembersAre(w: nat, ws: seq<Bits>, s: set<nat>)
    requires w > 0 && forall i: nat :: i in s <==> Has(w, ws, i)
    ensures Members(w, ws) == s
  {
    forall i: nat ensures i in Members(w, ws) <==> i in s {
      InMembers(w, ws, i);
    }
  }

  lemma ZerosAreEmpty(w: nat, ws: seq<Bits>)
    requires w > 0 && forall j :: 0 <= j < |ws| ==> ws[j] == Zeros(w)
    ensures Wide(w, ws) && Members(w, ws) == {}
  {
    MembersAre(w, ws, {});
  }

  /** Setting or clearing one bit adds or removes one number. */
  lemma BitUpdate(w: nat, ws: seq<Bits>, i: nat, value: bool)
    requires w > 0 && Wide(w, ws) && i / w < |ws|
    ensures var after := ws[i / w := ws[i / w][i % w := value]];
      Wide(w, after) && Members(w, after) == if value then Members(w, ws) + {i} else Members(w, ws) - {i}
  {
    var after := ws[i / w := ws[i / w][i % w := value]];
    var s := if value then Members(w, ws) + {i} else Members(w, ws) - {i};
    forall n: nat ensures n in s <==> Has(w, after, n) {
      InMembers(w, ws, n);
      Split(w, n);
      Split(w, i);
    }
    MembersAre(w, after, s);
  }

  /** Index is the first number from start whose membership is value, or the size if there is none below it. */
  ghost predicate IsFirst(members: set<nat>, size: nat, start: nat, value: bool, index: nat) {
    && index <= size && (index < size ==> start <= index && (index in members) == value)
    && forall i: nat :: start <= i < index ==> (i in members) != value
  }

  lemma FirstIsUnique(members: set<nat>, size: nat, start: nat, value: bool, index: nat, index': nat)
    requires IsFirst(members, size, start, value, index) && IsFirst(members, size, start, value, index')
    ensures index == index'
  {
    assert index < index' ==> (index in members) != value;
    assert index' < index ==> (index' in members) != value;
  }

  /** No number from start up to end has this value. */
  ghost predicate Lacks(w: nat, ws: seq<Bits>, value: bool, start: nat, end: nat)
    requires w > 0
  {
    forall i: nat :: start <= i < end ==> Has(w, ws, i) != value
  }

  /** A search that has come up to bit k of word j comes further if the next bits have the other value. */
  lemma LacksToo(w: nat, ws: seq<Bits>, value: bool, start: nat, j: nat, k: nat, end: nat)
    requires w > 0 && Wide(w, ws) && j < |ws| && k <= end <= w
    requires Lacks(w, ws, value, start, j * w + k)
    requires forall b :: k <= b < end ==> ws[j][b] != value
    ensures Lacks(w, ws, value, start, j * w + end)
  {
    forall i: nat | start <= i < j * w + end ensures Has(w, ws, i) != value {
      if i >= j * w + k { At(w, ws, j, i - j * w); }
    }
  }

  /** One step of a search by words: word j, from bit k on. Words without the value are skipped whole. */
  method SearchWord(w: nat, word: Bits, k: nat, value: bool, ghost ws: seq<Bits>, ghost j: nat, ghost start: nat)
      returns (found: bool, index: nat)
    requires w > 0 && Wide(w, ws) && j < |ws| && word == ws[j] && k < w
    requires Lacks(w, ws, value, start, j * w + k)
    ensures if found
            then k <= index < w && Has(w, ws, j * w + index) == value && Lacks(w, ws, value, start, j * w + index)
            else Lacks(w, ws, value, start, (j + 1) * w)
  {
    assert (j + 1) * w == j * w + w;
    var skipValue := if value then Zeros(w) else Ones(w);
    if word != skipValue {
      found, index := FindBitInWordFast(word, k, w, value);
      LacksToo(w, ws, value, start, j, k, index);
      if found { At(w, ws, j, index); }
    } else {
      LacksToo(w, ws, value, start, j, k, w);
      found, index := false, w;
    }
  }

  ghost function MembersFrom(w: nat, ws: seq<Bits>, start: nat): set<nat>
    requires w > 0
  {
    set i | i in Members(w, ws) && i >= start
  }

  lemma CountOne(w: nat, ws: seq<Bits>, start: nat)
    requires w > 0
    ensures |MembersFrom(w, ws, start)| == |MembersFrom(w, ws, start + 1)| + if Has(w, ws, start) then 1 else 0
  {
    InMembers(w, ws, start);
    if Has(w, ws, start) {
      assert MembersFrom(w, ws, start) == MembersFrom(w, ws, start + 1) + {start};
    } else {
      assert MembersFrom(w, ws, start) == MembersFrom(w, ws, start + 1);
    }
  }

  lemma {:induction false} CountBits(w: nat, ws: seq<Bits>, j: nat, k: nat)
    requires w > 0 && Wide(w, ws) && j < |ws| && k <= w
    ensures |MembersFrom(w, ws, j * w)| == BitCount(ws[j][..k]) + |MembersFrom(w, ws, j * w + k)|
    decreases k
  {
    if k > 0 {
      CountBits(w, ws, j, k - 1);
      CountOne(w, ws, j * w + k - 1);
      At(w, ws, j, k - 1);
      assert ws[j][..k][..k - 1] == ws[j][..k - 1];
    }
  }

  /** Counting word by word. */
  lemma CountWord(w: nat, ws: seq<Bits>, j: nat)
    requires w > 0 && Wide(w, ws) && j < |ws|
    ensures |MembersFrom(w, ws, j * w)| == BitCount(ws[j]) + |MembersFrom(w, ws, (j + 1) * w)|
  {
    CountBits(w, ws, j, w);
    assert ws[j][..w] == ws[j];
    assert (j + 1) * w == j * w + w;
  }

  lemma NoneFromEnd(w: nat, ws: seq<Bits>, start: nat)
    requires w > 0 && start >= |ws| * w
    ensures MembersFrom(w, ws, start) == {}
  {}
}
