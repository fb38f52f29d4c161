/** Bitmap: a set of numbers below a fixed size, in an array of words of a fixed width. */
module Bitmaps {
  import opened Words
  import opened PackedSets

  /** The values of size_t. */
  const SIZE_LIMIT: nat := 0x1_0000_0000_0000_0000

  /** The words of a bitmap are counted in 32 bits, and are at most as wide as a register. */
  const WORDS_LIMIT: nat := 0x1_0000_0000
  const REGISTER_WIDTH: nat := 64

  /** i is start, or n after such a number. */
  predicate IsNth(n: nat, start: nat, i: nat)
    requires n > 0
    decreases i
  {
    i == start || (i >= start + n && IsNth(n, start, i - n))
  }

  /** Every n-th number from start, below end. */
  ghost function EachNth(n: nat, start: nat, end: nat): set<nat>
    requires n > 0
  {
    set i: nat | i < end && IsNth(n, start, i)
  }

  /** That is the same as a whole number of steps from start. */
  lemma {:induction false} IsNthMeans(n: nat, start: nat, i: nat)
    requires n > 0
    ensures IsNth(n, start, i) <==> i >= start && (i - start) % n == 0
    decreases i
  {
    if i >= start + n {
      IsNthMeans(n, start, i - n);
      OneMoreStep(n, i - start - n);
    } else if i > start {
      Joined(n, 0, i - start);
    }
  }

  lemma OneMoreStep(n: nat, x: nat)
    requires n > 0
    ensures (x + n) % n == x % n
  {
    Split(n, x);
    assert (x / n + 1) * n == x / n * n + n;
    Joined(n, x / n + 1, x % n);
  }

  /** The next one after p is p + n. */
  lemma {:induction false} NextNth(n: nat, start: nat, p: nat, i: nat)
    requires n > 0 && IsNth(n, start, p) && p < i <= p + n
    ensures IsNth(n, start, i) <==> i == p + n
    decreases p
  {
    if p > start { NextNth(n, start, p - n, i - n); }
  }

  lemma OneMore(n: nat, start: nat, p: nat)
    requires n > 0 && IsNth(n, start, p)
    ensures EachNth(n, start, p + n) == EachNth(n, start, p) + {p} && IsNth(n, start, p + n)
  {
    forall i: nat | p < i <= p + n ensures IsNth(n, start, i) <==> i == p + n {
      NextNth(n, start, p, i);
    }
  }

  /** The first one at or past the end has nothing between it and the end. */
  lemma NoMore(n: nat, start: nat, p: nat, end: nat)
    requires n > 0 && IsNth(n, start, p) && end <= p && (p == start || p < end + n)
    ensures start <= end ==> EachNth(n, start, p) == EachNth(n, start, end)
  {
    forall i: nat | end <= i < p && start <= end ensures !IsNth(n, start, i) {
      if IsNth(n, start, i) { NextNth(n, start, i, p); }
    }
  }

  /** The numbers from low up to start, start included, that steps of d down from start reach. */
  ghost function Down(d: nat, low: nat, start: nat): set<nat>
    requires d > 0
  {
    set i: nat | low <= i <= start && IsNth(d, i, start)
  }

  /** Where the word of number i begins. */
  function WordStart(w: nat, i: nat): (low: nat)
    requires w > 0
    ensures low <= i < low + w && i - low == i % w
  {
    i - i % w
  }

  /** What a stride that wraps around adds below start: it steps down by what the stride lacks to 2^64, to the
      beginning of the word that start is in. */
  ghost function SteppedDown(w: nat, n: nat, start: nat): set<nat>
    requires w > 0 && n < SIZE_LIMIT
  {
    Down(SIZE_LIMIT - n, WordStart(w, start), start) - {start}
  }

  /** What setEachNthBit adds. */
  ghost function Added(w: nat, n: nat, start: nat, end: nat): set<nat>
    requires w > 0 && 0 < n < SIZE_LIMIT
  {
    EachNth(n, start, end) + if start < end then SteppedDown(w, n, start) else {}
  }

  lemma AddedBelow(w: nat, n: nat, start: nat, end: nat)
    requires w > 0 && 0 < n < SIZE_LIMIT
    ensures Added(w, n, start, end) <= UpTo(end)
  {}

  /** That is every n-th number from start, below end, and nothing else, if and only if there is nothing to add or
      the stride does not wrap around at start's place in its word. */
  lemma AddsEachNthIff(w: nat, n: nat, start: nat, end: nat)
    requires w > 0 && 0 < n < SIZE_LIMIT && start <= end
    ensures Added(w, n, start, end) == EachNth(n, start, end) <==> start == end || start % w + n < SIZE_LIMIT
  {
    StrideIsExactIff(w, n, start);
    if start < end && SteppedDown(w, n, start) != {} {
      var i :| i in SteppedDown(w, n, start);
      assert i in Added(w, n, start, end) && i !in EachNth(n, start, end);
    }
  }

  /** Nothing is added below start if and only if the stride does not wrap around at start's place in its word. */
  lemma StrideIsExactIff(w: nat, n: nat, start: nat)
    requires w > 0 && 0 < n < SIZE_LIMIT
    ensures SteppedDown(w, n, start) == {} <==> start % w + n < SIZE_LIMIT
  {
    var d, low := SIZE_LIMIT - n, WordStart(w, start);
    if start - low >= d {
      NextNth(d, start - d, start - d, start);
      assert start - d in SteppedDown(w, n, start);
    } else {
      forall i: nat | low <= i < start ensures !IsNth(d, i, start) { NextNth(d, i, i, start); }
    }
  }

  /** With the largest stride, 5 adds everything below it in its word. */
  lemma LargestStrideStepsDown()
    ensures SteppedDown(64, SIZE_LIMIT - 1, 5) == {0, 1, 2, 3, 4}
  {
    forall i: nat | i <= 5 ensures IsNth(1, i, 5) {}
  }

  lemma {:induction false} Downwards(d: nat, start: nat, p: nat, i: nat)
    requires d > 0 && IsNth(d, p, start) && i < p <= i + d
    ensures IsNth(d, i, start) <==> i + d == p
    decreases start
  {
    if start > p { Downwards(d, start - d, p, i); }
  }

  /** One step of a stride that wraps around, at p. */
  lemma OneDown(d: nat, low: nat, start: nat, p: nat)
    requires d > 0 && low <= p <= start && IsNth(d, p, start)
    ensures if p - low >= d then IsNth(d, p - d, start) && Down(d, p - d + 1, start) == Down(d, p + 1, start) + {p}
            else Down(d, low, start) == Down(d, p + 1, start) + {p}
  {
    forall i: nat | i < p <= i + d ensures IsNth(d, i, start) <==> i + d == p { Downwards(d, start, p, i); }
  }

  /** A stride as large as that reaches nothing after start. */
  lemma OnlyStart(n: nat, start: nat, end: nat)
    requires n > 0 && start < end <= start + n
    ensures EachNth(n, start, end) == {start}
  {
    forall i: nat | start < i < end ensures !IsNth(n, start, i) { NextNth(n, start, start, i); }
  }

  /** A run of setEachNthBit: low is where the word of start begins, and before what was there. */
  datatype Stride = Stride(n: nat, start: nat, low: nat, before: set<nat>)

  ghost predicate Proper(s: Stride, w: nat) {
    0 < s.n < SIZE_LIMIT && w <= REGISTER_WIDTH && s.low <= s.start < s.low + w && s.start + w < SIZE_LIMIT
  }

  ghost predicate Wraps(s: Stride) {
    s.start - s.low + s.n >= SIZE_LIMIT
  }

  /** What the bitmap holds when the number to look at next is p. A stride that wraps around steps down from
      start to low, and then leaves the bitmap. */
  ghost predicate SoFar(s: Stride, p: nat, contents: set<nat>) {
    && 0 < s.n < SIZE_LIMIT
    && if !Wraps(s) then IsNth(s.n, s.start, p) && contents == s.before + EachNth(s.n, s.start, p)
       else if p <= s.start then
         && s.low <= p && IsNth(SIZE_LIMIT - s.n, p, s.start)
         && contents == s.before + Down(SIZE_LIMIT - s.n, p + 1, s.start)
       else p >= s.n && contents == s.before + Down(SIZE_LIMIT - s.n, s.low, s.start)
  }

  lemma OneStepUp(s: Stride, w: nat, base: nat, index: nat, contents: set<nat>)
    requires Proper(s, w) && SoFar(s, base + index, contents) && index < w && base + w < SIZE_LIMIT - REGISTER_WIDTH
    requires !Wraps(s) && (base + index <= s.start ==> base == s.low)
    ensures index + s.n < SIZE_LIMIT && base + index + s.n > s.start
    ensures SoFar(s, base + index + s.n, contents + {base + index})
  {
    var p := base + index;
    OneMore(s.n, s.start, p);
  }

  lemma OneStepDown(s: Stride, w: nat, base: nat, index: nat, contents: set<nat>)
    requires Proper(s, w) && SoFar(s, base + index, contents) && index < w && base + w < SIZE_LIMIT - REGISTER_WIDTH
    requires Wraps(s) && (base + index <= s.start ==> base == s.low)
    ensures base + index <= s.start
    ensures if index + s.n >= SIZE_LIMIT then SoFar(s, base + index + s.n - SIZE_LIMIT, contents + {base + index})
            else SoFar(s, base + index + s.n, contents + {base + index}) && base + index + s.n > s.start
  {
    OneDown(SIZE_LIMIT - s.n, s.low, s.start, base + index);
  }

  lemma ModuloLimit(x: nat)
    requires x < 2 * SIZE_LIMIT
    ensures x % SIZE_LIMIT == if x < SIZE_LIMIT then x else x - SIZE_LIMIT
  {}

  /** Setting the bit of p and going on by the stride. */
  lemma OneStep(s: Stride, w: nat, base: nat, index: nat, contents: set<nat>)
    requires Proper(s, w) && SoFar(s, base + index, contents) && index < w && base + w < SIZE_LIMIT - REGISTER_WIDTH
    requires base + index <= s.start ==> base == s.low
    ensures var next := (index + s.n) % SIZE_LIMIT;
      && SoFar(s, base + next, contents + {base + index}) && (base + next <= s.start ==> base == s.low)
      && if Wraps(s) then next < index || next >= w else next == index + s.n
  {
    ModuloLimit(index + s.n);
    if Wraps(s) {
      OneStepDown(s, w, base, index, contents);
    } else {
      OneStepUp(s, w, base, index, contents);
    }
  }

  /** The next number is in the same word, one place up, or begins the next word. */
  lemma NextPlace(w: nat, i: nat)
    requires w > 0
    ensures if i % w + 1 < w then (i + 1) / w == i / w && (i + 1) % w == i % w + 1 else (i + 1) % w == 0
  {
    Split(w, i);
    if i % w + 1 < w {
      Joined(w, i / w, i % w + 1);
    } else {
      assert (i / w + 1) * w == i / w * w + w;
      Joined(w, i / w + 1, 0);
    }
  }

  function WordsFor(w: nat, size: nat): nat
    requires w > 0
  {
    (size + w - 1) / w
  }

  /** There are words for every number below the size; the last one may be partial. */
  lemma WordsCover(w: nat, size: nat)
    requires w > 0
    ensures size <= WordsFor(w, size) * w < size + w
    ensures size % w != 0 ==> WordsFor(w, size) == size / w + 1
    ensures size % w == 0 ==> WordsFor(w, size) == size / w
  {
    Split(w, size + w - 1);
    Split(w, size);
    if size % w != 0 {
      assert (size / w + 1) * w == size / w * w + w;
      Joined(w, size / w + 1, size % w - 1);
    } else {
      Joined(w, size / w, w - 1);
    }
  }

  /** Which bits are not padding. */
  lemma InsideSize(w: nat, size: nat, j: nat, k: nat)
    requires k < w && j < WordsFor(w, size)
    ensures j * w + k < size <==> size % w == 0 || j < WordsFor(w, size) - 1 || k < size % w
  {
    WordsCover(w, size);
    Split(w, size);
    if j < size / w { Scaled(w, j, size / w); }
  }

  /** (1 << n) - 1 */
  function LowMask(w: nat, n: nat): (r: Bits)
    ensures |r| == w && forall k :: 0 <= k < w ==> r[k] == (k < n)
  {
    seq(w, k => k < n)
  }

  predicate Under(i: nat, n: nat) {
    i < n
  }

  ghost function UpTo(n: nat): (r: set<nat>)
    ensures forall i: nat :: i in r <==> i < n
  {
    set i: nat | i < n && Under(i, n)
  }

  lemma Inverted(w: nat, before: seq<Bits>, after: seq<Bits>, i: nat)
    requires w > 0 && Wide(w, before) && |before| == |after| && i / w < |before|
    requires forall j :: 0 <= j < |after| ==> after[j] == Not(before[j])
    ensures i in Members(w, after) <==> i !in Members(w, before)
  {
    InMembers(w, before, i);
    InMembers(w, after, i);
    Split(w, i);
  }

  class Bitmap {
    const wordSize: nat
    const size: nat
    const bits: array<Bits>

    ghost predicate Shaped()
      reads bits
    {
      wordSize > 0 && bits.Length == WordsFor(wordSize, size) && Wide(wordSize, bits[..])
    }

    /** What the type of the words and the type of their number allow. */
    ghost predicate Sized() {
      wordSize <= REGISTER_WIDTH && bits.Length < WORDS_LIMIT
    }

    /** The padding of a partial last word stays zero. */
    ghost predicate Valid()
      reads bits
    {
      Shaped() && Contents() <= UpTo(size)
    }

    ghost function Contents(): set<nat>
      requires Shaped()
      reads bits
    {
      Members(wordSize, bits[..])
    }

    lemma Reading(i: nat)
      requires Shaped()
      ensures i in Contents() <==> Has(wordSize, bits[..], i)
      ensures i < size ==> i / wordSize < bits.Length
      ensures i / wordSize < bits.Length ==> |bits[i / wordSize]| == wordSize && i % wordSize < wordSize
    {
      InMembers(wordSize, bits[..], i);
      Split(wordSize, i);
      WordsCover(wordSize, size);
      InRange(wordSize, bits.Length, i);
    }

    constructor (wordSize: nat, size: nat)
      requires 0 < wordSize <= REGISTER_WIDTH && WordsFor(wordSize, size) < WORDS_LIMIT
      ensures Valid() && Sized() && this.wordSize == wordSize && this.size == size && Contents() == {}
    {
      this.wordSize, this.size := wordSize, size;
      bits := new Bits[WordsFor(wordSize, size)](_ => Zeros(wordSize));
      new;
      ZerosAreEmpty(wordSize, bits[..]);
    }

    /** bits[n / wordSize] & (one << (n % wordSize)), which also reads the padding. */
    predicate Get(n: nat)
      requires Shaped() && n / wordSize < bits.Length
      reads bits
      ensures Get(n) == (n in Contents())
    {
      Reading(n);
      And(bits[n / wordSize], Mask(wordSize, n % wordSize)) != Zeros(wordSize)
    }

    method TestAndSet(n: nat) returns (result: bool)
      requires Valid() && n < size
      modifies bits
      ensures Valid() && result == (n in old(Contents())) && Contents() == old(Contents()) + {n}
    {
      Reading(n);
      result := Get(n);
      SetBit(n / wordSize, n % wordSize, n);
    }

    method TestAndClear(n: nat) returns (result: bool)
      requires Valid() && n < size
      modifies bits
      ensures Valid() && result == (n in old(Contents())) && Contents() == old(Contents()) - {n}
    {
      Reading(n);
      result := Get(n);
      var index, place := n / wordSize, n % wordSize;
      BitUpdate(wordSize, bits[..], n, false);
      ghost var before := bits[..];
      assert And(bits[index], Not(Mask(wordSize, place))) == bits[index][place := false];
      bits[index] := And(bits[index], Not(Mask(wordSize, place)));
      assert bits[..] == before[index := before[index][place := false]];
    }

    /** bits[index] |= one << place */
    method SetBit(index: nat, place: nat, ghost n: nat)
      requires Shaped() && index < bits.Length && place < wordSize && n == index * wordSize + place
      modifies bits
      ensures Shaped() && Contents() == old(Contents()) + {n}
    {
      Joined(wordSize, index, place);
      BitUpdate(wordSize, bits[..], n, true);
      ghost var before := bits[..];
      assert Or(bits[index], Mask(wordSize, place)) == bits[index][place := true];
      bits[index] := Or(bits[index], Mask(wordSize, place));
      assert bits[..] == before[index := before[index][place := true]];
    }

    method CleanseLastWord()
      requires Shaped()
      modifies bits
      ensures Valid() && Contents() == old(Contents()) * UpTo(size)
    {
      WordsCover(wordSize, size);
      ghost var before := bits[..];
      if size % wordSize != 0 {
        var last := bits.Length - 1;
        bits[last] := And(bits[last], LowMask(wordSize, size % wordSize));
      }
      forall i: nat ensures i in Contents() <==> Has(wordSize, before, i) && i < size {
        Reading(i);
        Split(wordSize, i);
        Split(wordSize, size);
        if i / wordSize < size / wordSize { Scaled(wordSize, i / wordSize, size / wordSize); }
      }
      forall i: nat ensures Has(wordSize, before, i) <==> i in Members(wordSize, before) {
        InMembers(wordSize, before, i);
      }
    }

    /** The complement below the size. */
    method Invert()
      requires Valid()
      modifies bits
      ensures Valid() && Contents() == UpTo(size) - old(Contents())
    {
      ghost var before := bits[..];
      for i := 0 to bits.Length
        invariant forall j :: 0 <= j < i ==> bits[j] == Not(before[j])
        invariant forall j :: i <= j < bits.Length ==> bits[j] == before[j]
      {
        bits[i] := Not(bits[i]);
      }
      forall i: nat | i < size ensures i in Contents() <==> i !in Members(wordSize, before) {
        Reading(i);
        Inverted(wordSize, before, bits[..], i);
      }
      CleanseLastWord();
    }

    method SetAll()
      requires Valid()
      modifies bits
      ensures Valid() && Contents() == UpTo(size)
    {
      forall j | 0 <= j < bits.Length { bits[j] := Ones(wordSize); }
      ghost var all := Contents();
      forall i: nat | i < size ensures i in all { Reading(i); }
      CleanseLastWord();
    }

    /** Whether every bit of word j that is not padding is set. */
    ghost predicate WordFull(j: nat)
      requires Shaped() && j < bits.Length
      reads bits
    {
      forall k :: 0 <= k < wordSize && (size % wordSize == 0 || j < bits.Length - 1 || k < size % wordSize) ==>
        bits[j][k]
    }

    lemma FullWords()
      requires Valid()
      ensures (forall j :: 0 <= j < bits.Length ==> WordFull(j)) <==> Contents() == UpTo(size)
    {
      if forall j :: 0 <= j < bits.Length ==> WordFull(j) {
        forall i: nat | i < size ensures i in Contents() {
          Reading(i);
          Split(wordSize, i);
          InsideSize(wordSize, size, i / wordSize, i % wordSize);
          assert WordFull(i / wordSize);
        }
      }
      if Contents() == UpTo(size) {
        forall j, k | 0 <= j < bits.Length && 0 <= k < wordSize
            && (size % wordSize == 0 || j < bits.Length - 1 || k < size % wordSize) ensures bits[j][k]
        {
          InsideSize(wordSize, size, j, k);
          At(wordSize, bits[..], j, k);
        }
      }
    }

    method IsFull() returns (full: bool)
      requires Valid()
      ensures full <==> Contents() == UpTo(size)
    {
      FullWords();
      for i := 0 to bits.Length
        invariant forall j :: 0 <= j < i ==> WordFull(j)
      {
        if bits[i] != Ones(wordSize) {
          if size % wordSize != 0 {
            if i == bits.Length - 1 {
              var mask := LowMask(wordSize, size % wordSize);
              assert And(bits[i], mask) == mask <==> WordFull(i);
              if And(bits[i], mask) == mask {
                return true;
              }
            }
          }
          assert !WordFull(i);
          return false;
        }
      }
      return true;
    }

    /** The number of members from start up. A start past the words must not have to read one. */
    method Count(start: nat) returns (result: nat)
      requires Valid() && (start % wordSize == 0 || start / wordSize < bits.Length)
      ensures result == |MembersFrom(wordSize, bits[..], start)|
    {
      var from;
      result, from := CountToWord(start);
      Split(wordSize, from);
      var i := from / wordSize;
      while i < bits.Length
        invariant result + |MembersFrom(wordSize, bits[..], i * wordSize)| == |MembersFrom(wordSize, bits[..], start)|
      {
        CountWord(wordSize, bits[..], i);
        result := result + BitCount(bits[i]);
        i := i + 1;
      }
      if bits.Length < i { Scaled(wordSize, bits.Length, i); }
      NoneFromEnd(wordSize, bits[..], i * wordSize);
    }

    /** The members from start up to where the next word begins, bit by bit. */
    method CountToWord(start: nat) returns (result: nat, from: nat)
      requires Valid() && (start % wordSize == 0 || start / wordSize < bits.Length)
      ensures from % wordSize == 0
      ensures result + |MembersFrom(wordSize, bits[..], from)| == |MembersFrom(wordSize, bits[..], start)|
    {
      ghost var ws := bits[..];
      result, from := 0, start;
      while from % wordSize != 0
        invariant from % wordSize == 0 || from / wordSize < bits.Length
        invariant result + |MembersFrom(wordSize, ws, from)| == |MembersFrom(wordSize, ws, start)|
        decreases if from % wordSize == 0 then 0 else wordSize - from % wordSize
      {
        NextPlace(wordSize, from);
        CountOne(wordSize, ws, from);
        Reading(from);
        if Get(from) {
          result := result + 1;
        }
        from := from + 1;
      }
    }

    lemma InsideWords(i: nat)
      requires Shaped() && i <= bits.Length * wordSize
      ensures if i % wordSize != 0 then i / wordSize < bits.Length else i / wordSize <= bits.Length
    {
      Split(wordSize, i);
      Joined(wordSize, bits.Length, 0);
      if bits.Length < i / wordSize { Scaled(wordSize, bits.Length, i / wordSize); }
    }

    /** Whether none of n numbers from i up is a member. */
    ghost predicate Free(i: nat, n: nat)
      requires Shaped()
      reads bits
    {
      forall k: nat :: i <= k < i + n ==> k !in Contents()
    }

    /** The start of the first run of that many numbers below the size that are not members; -1 if there is none. */
    method FindRunOfZeros(runLength: nat) returns (result: int)
      requires Valid()
      ensures var n := if runLength == 0 then 1 else runLength;
        if result == -1 then forall i: nat :: i + n <= size ==> !Free(i, n)
        else 0 <= result <= size - n && Free(result, n) && forall i: nat :: i < result ==> !Free(i, n)
    {
      var n := if runLength == 0 then 1 else runLength;
      if n > size {
        return -1;
      }
      for i := 0 to size - n + 1
        invariant forall k: nat :: k < i ==> !Free(k, n)
      {
        var found := true;
        for j := i to i + n
          invariant found && Free(i, j - i)
        {
          Reading(j);
          if Get(j) {
            found := false;
            break;
          }
        }
        if found {
          return i;
        }
      }
      return -1;
    }

    /** The first number from start whose membership is value, or the size if there is none below it. A start
        past the size is itself the answer if it is clear padding that was asked for. */
    ghost predicate FindsFrom(start: nat, value: bool, result: nat)
      requires Shaped()
      reads bits
    {
      && (start <= size ==> IsFirst(Contents(), size, start, value, result))
      && (start > size ==> result == if !value && start < bits.Length * wordSize then start else size)
    }

    method FindBit(start: nat, value: bool) returns (result: nat)
      requires Valid()
      ensures FindsFrom(start, value, result)
    {
      var wordIndex: nat, startIndexInWord: nat;
      ghost var base: nat;
      wordIndex, startIndexInWord, base := Locate(start);
      while wordIndex < bits.Length
        invariant base == wordIndex * wordSize && startIndexInWord < wordSize && start <= base + startIndexInWord
        invariant Lacks(wordSize, bits[..], value, start, base + startIndexInWord)
      {
        var found, index := SearchFrom(wordIndex, startIndexInWord, value, start, base);
        if found {
          return wordIndex * wordSize + index;
        }
        base := base + wordSize;
        wordIndex := wordIndex + 1;
        startIndexInWord := 0;
      }
      NotFound(start, value, wordIndex, base + startIndexInWord);
      return size;
    }

    method SearchFrom(wordIndex: nat, k: nat, value: bool, ghost start: nat, ghost base: nat)
        returns (found: bool, index: nat)
      requires Valid() && wordIndex < bits.Length && k < wordSize && base == wordIndex * wordSize
      requires start <= base + k && Lacks(wordSize, bits[..], value, start, base + k)
      ensures if found then FindsFrom(start, value, base + index)
              else Lacks(wordSize, bits[..], value, start, base + wordSize)
      ensures !found ==> base + wordSize == (wordIndex + 1) * wordSize
    {
      found, index := SearchWord(wordSize, bits[wordIndex], k, value, bits[..], wordIndex, start);
      if found {
        Joined(wordSize, wordIndex, index);
        FoundAt(start, value, base + index);
      }
    }

    /** The first padding bit, which is zero, stands at the size itself. */
    lemma FoundAt(start: nat, value: bool, at: nat)
      requires Valid() && start <= at && at / wordSize < bits.Length
      requires Lacks(wordSize, bits[..], value, start, at) && Has(wordSize, bits[..], at) == value
      ensures FindsFrom(start, value, at)
    {
      Reading(at);
      if start <= size {
        LacksMembers(start, at, value);
        Reading(size);
      } else {
        Reading(start);
        InRange(wordSize, bits.Length, at);
      }
    }

    lemma NotFound(start: nat, value: bool, wordIndex: nat, p: nat)
      requires Valid() && wordIndex >= bits.Length && p >= wordIndex * wordSize
      requires Lacks(wordSize, bits[..], value, start, p)
      ensures FindsFrom(start, value, size)
    {
      if wordIndex > bits.Length { Scaled(wordSize, bits.Length, wordIndex); }
      WordsCover(wordSize, size);
      if start <= size {
        LacksMembers(start, p, value);
      } else {
        Reading(start);
      }
    }

    lemma LacksMembers(start: nat, end: nat, value: bool)
      requires Shaped() && Lacks(wordSize, bits[..], value, start, end)
      ensures forall i: nat :: start <= i < end ==> (i in Contents()) != value
    {
      forall i: nat | start <= i < end ensures (i in Contents()) != value { InMembers(wordSize, bits[..], i); }
    }

    /** The word and the place in it of a number. */
    method Locate(i: nat) returns (wordIndex: nat, index: nat, ghost base: nat)
      requires Shaped()
      ensures i == base + index && index < wordSize && base == wordIndex * wordSize && base == WordStart(wordSize, i)
      ensures wordIndex == i / wordSize && index == i % wordSize
      ensures i <= size ==> wordIndex <= bits.Length && (index > 0 ==> wordIndex < bits.Length)
    {
      wordIndex := i / wordSize;
      index := i - wordIndex * wordSize;
      base := wordIndex * wordSize;
      Split(wordSize, i);
      WordsCover(wordSize, size);
      if i <= size { InsideWords(i); }
    }

    lemma NextBase(j: nat, end: nat)
      requires j < end
      ensures (j + 1) * wordSize == j * wordSize + wordSize <= end * wordSize
    {
      Scaled(wordSize, j, end);
    }

    /** Sets the number at this place and goes on by the stride, in 64-bit arithmetic. */
    method SetNth(wordIndex: nat, index: nat, n: nat, ghost s: Stride, ghost base: nat) returns (next: nat)
      requires Shaped() && Proper(s, wordSize) && s.n == n && SoFar(s, base + index, Contents())
      requires index < wordSize && wordIndex < bits.Length && base == wordIndex * wordSize
      requires base + wordSize < SIZE_LIMIT - REGISTER_WIDTH && (base + index <= s.start ==> base == s.low)
      modifies bits
      ensures Shaped() && SoFar(s, base + next, Contents()) && (base + next <= s.start ==> base == s.low)
      ensures if Wraps(s) then next < index || next >= wordSize else next == index + n
    {
      ghost var after := Contents() + {base + index};
      OneStep(s, wordSize, base, index, Contents());
      next := (index + n) % SIZE_LIMIT;
      SetBit(wordIndex, index, base + index);
      assert Contents() == after;
    }

    /** Sets the next numbers as far as their place in the word is below limit, in 64-bit arithmetic. */
    method SetNths(wordIndex: nat, from: nat, limit: nat, n: nat, ghost s: Stride, ghost base: nat) returns (index: nat)
      requires Shaped() && Proper(s, wordSize) && s.n == n && SoFar(s, base + from, Contents())
      requires limit <= wordSize && (limit > 0 ==> wordIndex < bits.Length) && base == wordIndex * wordSize
      requires base + wordSize < SIZE_LIMIT - REGISTER_WIDTH && (base + from <= s.start ==> base == s.low)
      modifies bits
      ensures Shaped() && SoFar(s, base + index, Contents()) && index >= limit
      ensures !Wraps(s) ==> index >= from && (index == from || index < limit + n)
      ensures from >= limit ==> index == from
    {
      index := from;
      while index < limit
        invariant Shaped() && SoFar(s, base + index, Contents()) && (base + index <= s.start ==> base == s.low)
        invariant !Wraps(s) ==> index >= from && (index == from || index < limit + n)
        invariant from >= limit ==> index == from
        decreases if !Wraps(s) then limit - index else if index < limit then index + 1 else 0
      {
        index := SetNth(wordIndex, index, n, s, base);
      }
    }

    /** Sets the next numbers in all words before endWordIndex. */
    method SetNthsInWords(from: nat, fromIndex: nat, endWordIndex: nat, n: nat, ghost s: Stride, ghost endBase: nat)
        returns (index: nat)
      requires Shaped() && Proper(s, wordSize) && s.n == n && s.low == from * wordSize
      requires from <= endWordIndex <= bits.Length && endBase == endWordIndex * wordSize
      requires endBase + wordSize < SIZE_LIMIT - REGISTER_WIDTH
      requires s.start == s.low + fromIndex && SoFar(s, s.start, Contents())
      modifies bits
      ensures Shaped() && SoFar(s, endBase + index, Contents()) && (endBase + index <= s.start ==> endBase == s.low)
      ensures !Wraps(s) ==> index < n || endBase + index == s.start
      ensures from == endWordIndex ==> index == fromIndex
    {
      var wordIndex := from;
      index := fromIndex;
      ghost var base: nat := wordIndex * wordSize;
      while wordIndex < endWordIndex
        invariant from <= wordIndex <= endWordIndex && base == wordIndex * wordSize <= endBase
        invariant Shaped() && SoFar(s, base + index, Contents()) && (base + index <= s.start ==> base == s.low)
        invariant !Wraps(s) ==> index < n || base + index == s.start
        invariant from == endWordIndex ==> index == fromIndex
      {
        NextBase(wordIndex, endWordIndex);
        index := SetNths(wordIndex, index, wordSize, n, s, base);
        index := index - wordSize;
        wordIndex := wordIndex + 1;
        base := base + wordSize;
      }
    }

    /** The places of both ends of a range, and where the words of the two begin. */
    method LocateRange(start: nat, end: nat)
        returns (wordIndex: nat, index: nat, endWordIndex: nat, endIndex: nat, ghost low: nat, ghost endBase: nat)
      requires Shaped() && Sized() && start <= end <= size
      ensures start == low + index && index < wordSize
      ensures low == wordIndex * wordSize && low == WordStart(wordSize, start)
      ensures end == endBase + endIndex && endIndex < wordSize && endBase == endWordIndex * wordSize
      ensures wordIndex <= endWordIndex <= bits.Length && (endIndex > 0 ==> endWordIndex < bits.Length)
      ensures endBase + wordSize < SIZE_LIMIT - REGISTER_WIDTH
      ensures start == end ==> wordIndex == endWordIndex && index == endIndex
    {
      wordIndex, index, low := Locate(start);
      endWordIndex, endIndex, endBase := Locate(end);
      if endWordIndex < wordIndex { Scaled(wordSize, endWordIndex, wordIndex); }
      SizeBelowLimit();
    }

    /** The loops of SetEachNthBit: p is the first number that they come to at or past the end. */
    method SetBelow(n: nat, start: nat, end: nat) returns (ghost s: Stride, ghost p: nat)
      requires Shaped() && Sized() && 0 < n < SIZE_LIMIT && start <= end <= size
      modifies bits
      ensures s == Stride(n, start, WordStart(wordSize, start), old(Contents()))
      ensures Shaped() && Proper(s, wordSize) && SoFar(s, p, Contents())
      ensures end <= p && end < SIZE_LIMIT - REGISTER_WIDTH
      ensures !Wraps(s) ==> p == start || p < end + n
      ensures start == end ==> p == start
    {
      var wordIndex: nat, index: nat, endWordIndex: nat, endIndex: nat;
      ghost var low: nat, endBase: nat;
      wordIndex, index, endWordIndex, endIndex, low, endBase := LocateRange(start, end);
      s := Stride(n, start, low, Contents());
      Begin(s);
      index := SetNthsInWords(wordIndex, index, endWordIndex, n, s, endBase);
      index := SetNths(endWordIndex, index, endIndex, n, s, endBase);
      p := endBase + index;
    }

    /** Adds every n-th number from start, below end; and, if the stride wraps around, the numbers that it reaches
        by stepping down from start in its word. */
    method SetEachNthBit(n: nat, start: nat, end: nat)
      requires Valid() && Sized() && 0 < n < SIZE_LIMIT && start <= end <= size
      modifies bits
      ensures Valid() && Contents() == old(Contents()) + Added(wordSize, n, start, end)
    {
      ghost var s, p := SetBelow(n, start, end);
      Finish(s, wordSize, end, p, Contents());
      AddedBelow(wordSize, n, start, end);
      CleanseLastWord();
    }

    lemma SizeBelowLimit()
      requires Shaped() && Sized()
      ensures size + wordSize + wordSize < SIZE_LIMIT - REGISTER_WIDTH
    {
      WordsCover(wordSize, size);
      TimesGrows(bits.Length, wordSize, REGISTER_WIDTH);
    }
  }

  lemma Begin(s: Stride)
    requires 0 < s.n < SIZE_LIMIT && s.low <= s.start
    ensures SoFar(s, s.start, s.before)
  {
    assert EachNth(s.n, s.start, s.start) == {} && Down(SIZE_LIMIT - s.n, s.start + 1, s.start) == {};
  }

  /** What has been added once p is at or past the end. */
  lemma Finish(s: Stride, w: nat, end: nat, p: nat, contents: set<nat>)
    requires w > 0 && Proper(s, w) && s.low == WordStart(w, s.start) && s.start <= end <= p && SoFar(s, p, contents)
    requires end < SIZE_LIMIT - REGISTER_WIDTH
    requires !Wraps(s) ==> p == s.start || p < end + s.n
    requires s.start == end ==> p == s.start
    ensures contents == s.before + Added(w, s.n, s.start, end)
  {
    StrideIsExactIff(w, s.n, s.start);
    if !Wraps(s) {
      NoMore(s.n, s.start, p, end);
    } else if s.start < end {
      OnlyStart(s.n, s.start, end);
    } else {
      assert EachNth(s.n, s.start, end) == {} && Down(SIZE_LIMIT - s.n, s.start + 1, s.start) == {};
    }
  }
}
