/** BitVector: a set of numbers in one word with a marker bit, or in an array of words. */
module BitVectors {
  import opened Basics
  import opened Words
  import opened PackedSets
  import opened BitVectorWords

  const MAX_INLINE_BITS: nat := BITS_IN_POINTER - 1

  /** The marker bit tells an inline word from a pointer to out-of-line words. */
  datatype BitsOrPointer = Inline(bits: Word) | OutOfLine(words: array<Word>)

  function MakeInlineBits(bits: Word): Word {
    bits[MAX_INLINE_BITS := true]
  }

  function CleanseInlineBits(bits: Word): Word {
    bits[MAX_INLINE_BITS := false]
  }

  const MARKER: Word := Mask(BITS_IN_POINTER, MAX_INLINE_BITS)

  /** The marker bit gets out of the way of every combination of words. */
  lemma MarkerIsHarmless(a: Word, b: Word)
    ensures CleanseInlineBits(Or(a, b)) == Or(CleanseInlineBits(a), CleanseInlineBits(b))
    ensures CleanseInlineBits(And(a, b)) == And(CleanseInlineBits(a), CleanseInlineBits(b))
    ensures CleanseInlineBits(Or(And(a, b), MARKER)) == And(CleanseInlineBits(a), b)
    ensures And(CleanseInlineBits(a), Not(b)) == And(CleanseInlineBits(a), Not(CleanseInlineBits(b)))
  {}

  lemma MarkedAreEqual(a: Word, b: Word)
    requires a[MAX_INLINE_BITS] && b[MAX_INLINE_BITS]
    ensures a == b <==> CleanseInlineBits(a) == CleanseInlineBits(b)
  {
    assert a == MakeInlineBits(CleanseInlineBits(a));
    assert b == MakeInlineBits(CleanseInlineBits(b));
  }

  function NumWords(numBits: nat): nat {
    (numBits + BITS_IN_POINTER - 1) / BITS_IN_POINTER
  }

  lemma ShiftedSize(n: nat, shiftInBits: nat)
    requires shiftInBits % 64 == 0
    ensures BITS_IN_POINTER * (shiftInBits / BITS_IN_POINTER) == shiftInBits
    ensures NumWords(BITS_IN_POINTER * n + shiftInBits) == n + shiftInBits / BITS_IN_POINTER
    ensures NumWords(MAX_INLINE_BITS + shiftInBits) == 1 + shiftInBits / BITS_IN_POINTER
  {}

  /** What fits inline. */
  lemma InlinePart(ws: seq<Word>)
    requires ws != []
    ensures SetOf([CleanseInlineBits(ws[0])]) == Below(SetOf(ws), MAX_INLINE_BITS)
  {
    forall i: nat ensures i in Below(SetOf(ws), MAX_INLINE_BITS) <==> HasBit([CleanseInlineBits(ws[0])], i) {
      InSetOf(ws, i);
    }
    SetOfIs([CleanseInlineBits(ws[0])], Below(SetOf(ws), MAX_INLINE_BITS));
  }

  lemma AllBelow(a: seq<Word>, b: seq<Word>)
    requires forall j :: |a| <= j < |b| ==> b[j] == Zeros(BITS_IN_POINTER)
    ensures Below(SetOf(b), BITS_IN_POINTER * |a|) == SetOf(b)
  {
    forall i: nat | i in SetOf(b) ensures i < BITS_IN_POINTER * |a| { InSetOf(b, i); }
  }

  lemma MergeFirst(a: seq<Word>, w: Word)
    requires a != []
    ensures SetOf(a[0 := Or(a[0], w)]) == SetOf(a) + SetOf([w])
  {
    forall i: nat ensures i in SetOf(a) + SetOf([w]) <==> HasBit(a[0 := Or(a[0], w)], i) {
      InSetOf(a, i);
      InSetOf([w], i);
    }
    SetOfIs(a[0 := Or(a[0], w)], SetOf(a) + SetOf([w]));
  }

  ghost predicate Ascending(s: seq<nat>) {
    forall i, j :: 0 <= i < j < |s| ==> s[i] < s[j]
  }

  class BitVector {
    var bitsOrPointer: BitsOrPointer

    ghost predicate Valid()
      reads this
    {
      match bitsOrPointer
      case Inline(bits) => bits[MAX_INLINE_BITS]
      case OutOfLine(words) => words.Length > 0
    }

    predicate IsInline()
      reads this
    {
      bitsOrPointer.Inline?
    }

    ghost function Storage(): set<object>
      reads this
    {
      if IsInline() then {} else {bitsOrPointer.words}
    }

    ghost function AllWords(): (ws: seq<Word>)
      reads this, Storage()
    {
      if IsInline() then [CleanseInlineBits(bitsOrPointer.bits)] else bitsOrPointer.words[..]
    }

    /** The numbers in the vector. */
    ghost function Contents(): set<nat>
      reads this, Storage()
    {
      SetOf(AllWords())
    }

    function Size(): nat
      reads this
    {
      if IsInline() then MAX_INLINE_BITS else BITS_IN_POINTER * bitsOrPointer.words.Length
    }

    lemma ContentsBelowSize(i: nat)
      requires Valid()
      ensures i in Contents() <==> i < Size() && HasBit(AllWords(), i)
    {
      InSetOf(AllWords(), i);
    }

    constructor ()
      ensures Valid() && IsInline() && Contents() == {}
    {
      bitsOrPointer := Inline(MakeInlineBits(Zeros(BITS_IN_POINTER)));
      new;
      SetOfIs(AllWords(), {});
    }

    /** The word at this place of whichever storage is in use, marker bit included. */
    function WordAt(index: nat): Word
      requires if IsInline() then index == 0 else index < bitsOrPointer.words.Length
      reads this, Storage()
    {
      if IsInline() then bitsOrPointer.bits else bitsOrPointer.words[index]
    }

    method StoreWord(index: nat, word: Word)
      requires Valid()
      requires if IsInline() then index == 0 && word[MAX_INLINE_BITS] else index < bitsOrPointer.words.Length
      modifies this, Storage()
      ensures Valid() && Storage() == old(Storage()) && IsInline() == old(IsInline())
      ensures AllWords() == old(AllWords())[index := if IsInline() then CleanseInlineBits(word) else word]
    {
      if IsInline() {
        bitsOrPointer := Inline(word);
      } else {
        bitsOrPointer.words[index] := word;
      }
    }

    // Sizes.

    /** Moves to new out-of-line words, shift places further up if they are more than before. The result is
        false when the debug assertion on the new size would fail. */
    method ResizeOutOfLine(numBits: nat, shiftInWords: nat) returns (asserted: bool)
      requires Valid() && numBits > 0
      requires IsInline() || numBits > Size() ==> shiftInWords + |AllWords()| <= NumWords(numBits)
      modifies this
      ensures asserted <==> numBits > MAX_INLINE_BITS
      ensures Valid() && !IsInline() && fresh(Storage())
      ensures AllWords() == if old(IsInline()) || numBits > old(Size())
        then Shifted(old(AllWords()), shiftInWords, NumWords(numBits))
        else old(AllWords())[..NumWords(numBits)]
    {
      asserted := numBits > MAX_INLINE_BITS;
      var newNumWords := NumWords(numBits);
      var newWords := new Word[newNumWords];
      if IsInline() {
        forall j | 0 <= j < shiftInWords { newWords[j] := Zeros(BITS_IN_POINTER); }
        newWords[shiftInWords] := CleanseInlineBits(bitsOrPointer.bits);
        forall j | shiftInWords + 1 <= j < newNumWords { newWords[j] := Zeros(BITS_IN_POINTER); }
      } else {
        var oldWords := bitsOrPointer.words;
        if numBits > Size() {
          forall j | 0 <= j < shiftInWords { newWords[j] := Zeros(BITS_IN_POINTER); }
          forall j | 0 <= j < oldWords.Length { newWords[shiftInWords + j] := oldWords[j]; }
          forall j | shiftInWords + oldWords.Length <= j < newNumWords { newWords[j] := Zeros(BITS_IN_POINTER); }
        } else {
          forall j | 0 <= j < newNumWords { newWords[j] := oldWords[j]; }
        }
      }
      bitsOrPointer := OutOfLine(newWords);
    }

    method EnsureSize(numBits: nat)
      requires Valid()
      modifies this
      ensures Valid() && Size() >= numBits && Contents() == old(Contents())
      ensures if numBits <= old(Size()) then bitsOrPointer == old(bitsOrPointer)
              else !IsInline() && fresh(Storage()) && |AllWords()| == NumWords(numBits)
      ensures numBits > old(Size()) ==> Size() < numBits + BITS_IN_POINTER
    {
      if numBits <= Size() {
        return;
      }
      ShiftAddsToMembers(AllWords(), 0, NumWords(numBits));
      PlusZero(Contents());
      var asserted := ResizeOutOfLine(numBits, 0);
      assert asserted;
    }

    /** Keeps the members below the new size, which is not always numBits. The result is false when the debug
        assertion on the bits that become inline would fail. */
    method Resize(numBits: nat) returns (asserted: bool)
      requires Valid()
      modifies this
      ensures Valid() && Contents() == Below(old(Contents()), Size())
      ensures Size() == if numBits <= MAX_INLINE_BITS then MAX_INLINE_BITS else BITS_IN_POINTER * NumWords(numBits)
      ensures numBits > MAX_INLINE_BITS ==> numBits <= Size() < numBits + BITS_IN_POINTER
      ensures asserted <==> !(numBits <= MAX_INLINE_BITS && !old(IsInline()) && MAX_INLINE_BITS in old(Contents()))
      ensures bitsOrPointer == old(bitsOrPointer) || fresh(Storage())
    {
      if numBits <= MAX_INLINE_BITS {
        if IsInline() {
          ghost var all := Contents();
          forall i: nat | i in all ensures i < Size() { ContentsBelowSize(i); }
          assert Below(all, Size()) == all;
          return true;
        }
        var first := bitsOrPointer.words[0];
        InlinePart(AllWords());
        ContentsBelowSize(MAX_INLINE_BITS);
        asserted := !first[MAX_INLINE_BITS];
        bitsOrPointer := Inline(MakeInlineBits(first));
        assert CleanseInlineBits(MakeInlineBits(first)) == CleanseInlineBits(first);
        return;
      }
      if IsInline() || numBits > Size() {
        ShiftAddsToMembers(AllWords(), 0, NumWords(numBits));
        PlusZero(Contents());
      } else {
        TruncationDropsMembers(AllWords(), NumWords(numBits));
      }
      asserted := ResizeOutOfLine(numBits, 0);
      assert asserted;
      forall i: nat | i in Contents() ensures i < Size() { ContentsBelowSize(i); }
    }

    /** Adds the shift to every member. The result is false when the debug assertion on the new size would fail. */
    method ShiftRightByMultipleOf64(shiftInBits: nat) returns (asserted: bool)
      requires Valid() && shiftInBits % 64 == 0
      modifies this
      ensures Valid() && !IsInline() && fresh(Storage()) && Contents() == AllPlus(old(Contents()), shiftInBits)
      ensures old(Size()) + shiftInBits <= Size() < old(Size()) + shiftInBits + BITS_IN_POINTER
      ensures asserted <==> !(old(IsInline()) && shiftInBits == 0)
    {
      var shiftInWords := shiftInBits / BITS_IN_POINTER;
      var numBits := Size() + shiftInBits;
      ghost var before := AllWords();
      ShiftedSize(|before|, shiftInBits);
      ShiftAddsToMembers(before, shiftInWords, NumWords(numBits));
      asserted := ResizeOutOfLine(numBits, shiftInWords);
      assert Shifted(before, 0, |before|) == before;
    }

    method ClearAll()
      requires Valid()
      modifies this, Storage()
      ensures Valid() && Contents() == {} && Storage() == old(Storage()) && Size() == old(Size())
    {
      if IsInline() {
        bitsOrPointer := Inline(MakeInlineBits(Zeros(BITS_IN_POINTER)));
      } else {
        var words := bitsOrPointer.words;
        forall j | 0 <= j < words.Length { words[j] := Zeros(BITS_IN_POINTER); }
      }
      SetOfIs(AllWords(), {});
    }

    // Single bits.

    function QuickGet(bit: nat): (r: bool)
      requires Valid() && bit < Size()
      reads this, Storage()
      ensures r == (bit in Contents())
    {
      ContentsBelowSize(bit);
      var word := WordAt(bit / BITS_IN_POINTER);
      And(word, Mask(BITS_IN_POINTER, bit % BITS_IN_POINTER)) != Zeros(BITS_IN_POINTER)
    }

    function Get(bit: nat): (r: bool)
      requires Valid()
      reads this, Storage()
      ensures r == (bit in Contents())
    {
      ContentsBelowSize(bit);
      if bit >= Size() then false else QuickGet(bit)
    }

    method QuickSet(bit: nat) returns (result: bool)
      requires Valid() && bit < Size()
      modifies this, Storage()
      ensures Valid() && Storage() == old(Storage()) && Size() == old(Size())
      ensures result == (bit in old(Contents())) && Contents() == old(Contents()) + {bit}
    {
      var index, place := bit / BITS_IN_POINTER, bit % BITS_IN_POINTER;
      var word, mask := WordAt(index), Mask(BITS_IN_POINTER, place);
      result := QuickGet(bit);
      BitUpdate(BITS_IN_POINTER, AllWords(), bit, true);
      assert Or(word, mask) == word[place := true];
      StoreWord(index, Or(word, mask));
    }

    method QuickClear(bit: nat) returns (result: bool)
      requires Valid() && bit < Size()
      modifies this, Storage()
      ensures Valid() && Storage() == old(Storage()) && Size() == old(Size())
      ensures result == (bit in old(Contents())) && Contents() == old(Contents()) - {bit}
    {
      var index, place := bit / BITS_IN_POINTER, bit % BITS_IN_POINTER;
      var word, mask := WordAt(index), Mask(BITS_IN_POINTER, place);
      result := QuickGet(bit);
      BitUpdate(BITS_IN_POINTER, AllWords(), bit, false);
      assert And(word, Not(mask)) == word[place := false];
      StoreWord(index, And(word, Not(mask)));
    }

    method Set(bit: nat) returns (result: bool)
      requires Valid()
      modifies this, Storage()
      ensures Valid() && result == (bit in old(Contents())) && Contents() == old(Contents()) + {bit}
      ensures if bit < old(Size()) then Size() == old(Size()) else bit < Size() <= bit + BITS_IN_POINTER
    {
      EnsureSize(bit + 1);
      result := QuickSet(bit);
    }

    method Clear(bit: nat) returns (result: bool)
      requires Valid()
      modifies this, Storage()
      ensures Valid() && result == (bit in old(Contents())) && Contents() == old(Contents()) - {bit}
      ensures Size() == old(Size())
    {
      if bit >= Size() {
        ContentsBelowSize(bit);
        return false;
      }
      result := QuickClear(bit);
    }

    // Whole vectors.

    /** Two vectors are the same object, or share no words. */
    ghost predicate Separate(other: BitVector)
      reads this, other
    {
      this == other || Storage() * other.Storage() == {}
    }

    /** Assignment copies; out-of-line words are never shared. */
    method Assign(other: BitVector)
      requires Valid() && other.Valid()
      modifies this
      ensures Valid() && Contents() == old(other.Contents()) && IsInline() == old(other.IsInline()) && fresh(Storage())
      ensures Size() == old(other.Size())
    {
      if IsInline() && other.IsInline() {
        bitsOrPointer := other.bitsOrPointer;
      } else {
        SetSlow(other);
      }
    }

    method SetSlow(other: BitVector)
      requires Valid() && other.Valid()
      modifies this
      ensures Valid() && Contents() == old(other.Contents()) && IsInline() == old(other.IsInline()) && fresh(Storage())
      ensures Size() == old(other.Size())
    {
      var newBitsOrPointer;
      if other.IsInline() {
        newBitsOrPointer := other.bitsOrPointer;
      } else {
        var words := other.bitsOrPointer.words;
        var newWords := new Word[NumWords(other.Size())];
        forall j | 0 <= j < words.Length { newWords[j] := words[j]; }
        assert newWords[..] == words[..];
        newBitsOrPointer := OutOfLine(newWords);
      }
      bitsOrPointer := newBitsOrPointer;
    }

    /** beyond is what lies in memory behind the words of the argument. A receiver with more out-of-line words
        than the argument reads it; any other gets the union. */
    method Merge(other: BitVector, beyond: seq<Word>)
      requires Valid() && other.Valid() && Separate(other) && |beyond| >= |AllWords()|
      modifies this, Storage()
      ensures Valid() && Size() == Max(old(Size()), old(other.Size()))
      ensures if !old(IsInline()) && !old(other.IsInline()) && |old(AllWords())| > |old(other.AllWords())|
              then AllWords() == Merged(old(AllWords()), old(other.AllWords()) + beyond)
              else Contents() == old(Contents()) + old(other.Contents())
    {
      if !IsInline() || !other.IsInline() {
        MergeSlow(other, beyond);
        return;
      }
      MergeIsUnion(AllWords(), other.AllWords());
      AllBelow(AllWords(), other.AllWords());
      MarkerIsHarmless(bitsOrPointer.bits, other.bitsOrPointer.bits);
      StoreWord(0, Or(bitsOrPointer.bits, other.bitsOrPointer.bits));
      assert AllWords() == Merged(old(AllWords()), old(other.AllWords()));
    }

    method MergeSlow(other: BitVector, beyond: seq<Word>)
      requires Valid() && other.Valid() && Separate(other) && |beyond| >= |AllWords()|
      requires !IsInline() || !other.IsInline()
      modifies this, Storage()
      ensures Valid() && Size() == Max(old(Size()), old(other.Size()))
      ensures if !old(IsInline()) && !old(other.IsInline()) && |old(AllWords())| > |old(other.AllWords())|
              then AllWords() == Merged(old(AllWords()), old(other.AllWords()) + beyond)
              else Contents() == old(Contents()) + old(other.Contents())
    {
      if other.IsInline() {
        MergeFirst(AllWords(), other.AllWords()[0]);
        StoreWord(0, Or(WordAt(0), CleanseInlineBits(other.bitsOrPointer.bits)));
        return;
      }
      EnsureSize(other.Size());
      ghost var a, b := AllWords(), other.AllWords();
      MergeWords(bitsOrPointer.words, other.bitsOrPointer.words, beyond);
      if |a| == |b| {
        assert Merged(a, b + beyond) == Merged(a, b);
        MergeIsUnion(a, b);
        AllBelow(a, b);
      }
    }

    /** An inline argument filters only the first word of out-of-line words: members past it survive. */
    method Filter(other: BitVector)
      requires Valid() && other.Valid() && Separate(other)
      modifies this, Storage()
      ensures Valid() && Storage() == old(Storage()) && Size() == old(Size())
      ensures if !IsInline() && old(other.IsInline())
              then Contents() == FilteredInline(old(Contents()), old(other.Contents()))
              else Contents() == old(Contents()) * old(other.Contents())
    {
      if !IsInline() || !other.IsInline() {
        FilterSlow(other);
        return;
      }
      FilterIsIntersection(AllWords(), other.AllWords());
      MarkerIsHarmless(bitsOrPointer.bits, other.bitsOrPointer.bits);
      StoreWord(0, And(bitsOrPointer.bits, other.bitsOrPointer.bits));
      assert AllWords() == Filtered(old(AllWords()), old(other.AllWords()));
    }

    method FilterSlow(other: BitVector)
      requires Valid() && other.Valid() && Separate(other) && (!IsInline() || !other.IsInline())
      modifies this, Storage()
      ensures Valid() && Storage() == old(Storage()) && Size() == old(Size())
      ensures if old(other.IsInline())
              then Contents() == FilteredInline(old(Contents()), old(other.Contents()))
              else Contents() == old(Contents()) * old(other.Contents())
    {
      FilterIsIntersection(AllWords(), other.AllWords());
      if other.IsInline() {
        FilterByOneWord(AllWords(), other.AllWords()[0]);
        StoreWord(0, And(WordAt(0), CleanseInlineBits(other.bitsOrPointer.bits)));
        return;
      }
      if IsInline() {
        MarkerIsHarmless(bitsOrPointer.bits, other.WordAt(0));
        var bits := And(bitsOrPointer.bits, other.WordAt(0));
        StoreWord(0, Or(bits, MARKER));
        assert AllWords() == Filtered(old(AllWords()), old(other.AllWords()));
        return;
      }
      FilterWords(bitsOrPointer.words, other.bitsOrPointer.words);
    }

    method Exclude(other: BitVector)
      requires Valid() && other.Valid() && Separate(other)
      modifies this, Storage()
      ensures Valid() && Storage() == old(Storage()) && Size() == old(Size())
      ensures Contents() == old(Contents()) - old(other.Contents())
    {
      if !IsInline() || !other.IsInline() {
        ExcludeSlow(other);
        return;
      }
      ExcludeIsDifference(AllWords(), other.AllWords());
      MarkerIsHarmless(bitsOrPointer.bits, other.bitsOrPointer.bits);
      MarkerIsHarmless(bitsOrPointer.bits, Not(other.bitsOrPointer.bits));
      var bits := And(bitsOrPointer.bits, Not(other.bitsOrPointer.bits));
      StoreWord(0, Or(bits, MARKER));
      assert AllWords() == Excluded(old(AllWords()), old(other.AllWords()));
    }

    method ExcludeSlow(other: BitVector)
      requires Valid() && other.Valid() && Separate(other) && (!IsInline() || !other.IsInline())
      modifies this, Storage()
      ensures Valid() && Storage() == old(Storage()) && Size() == old(Size())
      ensures Contents() == old(Contents()) - old(other.Contents())
    {
      ExcludeIsDifference(AllWords(), other.AllWords());
      if other.IsInline() {
        StoreWord(0, And(WordAt(0), Not(CleanseInlineBits(other.bitsOrPointer.bits))));
        assert AllWords() == Excluded(old(AllWords()), old(other.AllWords()));
        return;
      }
      if IsInline() {
        MarkerIsHarmless(bitsOrPointer.bits, Not(other.WordAt(0)));
        var bits := And(bitsOrPointer.bits, Not(other.WordAt(0)));
        StoreWord(0, Or(bits, MARKER));
        assert AllWords() == Excluded(old(AllWords()), old(other.AllWords()));
        return;
      }
      ExcludeWords(bitsOrPointer.words, other.bitsOrPointer.words);
    }

    // Comparing, hashing and counting.

    method Equals(other: BitVector) returns (same: bool)
      requires Valid() && other.Valid()
      ensures same <==> Contents() == other.Contents()
    {
      if IsInline() && other.IsInline() {
        SameSetIffSameWords(AllWords(), other.AllWords());
        assert SameWords(AllWords(), other.AllWords()) <==> AllWords()[0] == other.AllWords()[0];
        MarkedAreEqual(bitsOrPointer.bits, other.bitsOrPointer.bits);
        return bitsOrPointer.bits == other.bitsOrPointer.bits;
      }
      same := EqualsSlowCase(other);
    }

    method EqualsSlowCase(other: BitVector) returns (result: bool)
      requires Valid() && other.Valid() && (!IsInline() || !other.IsInline())
      ensures result <==> Contents() == other.Contents()
    {
      result := EqualsSlowCaseFast(other);
      var expected := EqualsSlowCaseSimple(other);
      assert result == expected;
    }

    method EqualsSlowCaseFast(other: BitVector) returns (result: bool)
      requires Valid() && other.Valid() && (!IsInline() || !other.IsInline())
      ensures result <==> Contents() == other.Contents()
    {
      if IsInline() != other.IsInline() {
        result := EqualsSlowCaseSimple(other);
        return;
      }
      SameSetIffSameWords(AllWords(), other.AllWords());
      var mine, others := bitsOrPointer.words, other.bitsOrPointer.words;
      var minNumWords, maxNumWords, longer := others.Length, mine.Length, mine;
      if mine.Length < others.Length {
        minNumWords, maxNumWords, longer := mine.Length, others.Length, others;
      }
      for i := minNumWords to maxNumWords
        invariant forall j :: minNumWords <= j < i ==> longer[j] == Zeros(BITS_IN_POINTER)
      {
        if longer[i] != Zeros(BITS_IN_POINTER) {
          return false;
        }
      }
      for i := minNumWords downto 0
        invariant forall j :: i <= j < minNumWords ==> mine[j] == others[j]
      {
        if mine[i] != others[i] {
          return false;
        }
      }
      return true;
    }

    method EqualsSlowCaseSimple(other: BitVector) returns (result: bool)
      requires Valid() && other.Valid()
      ensures result <==> Contents() == other.Contents()
    {
      var n := Max(Size(), other.Size());
      for i := n downto 0
        invariant forall j: nat :: i <= j < n ==> (j in Contents() <==> j in other.Contents())
      {
        if Get(i) != other.Get(i) {
          return false;
        }
      }
      forall i: nat ensures i in Contents() <==> i in other.Contents() {
        ContentsBelowSize(i);
        other.ContentsBelowSize(i);
      }
      return true;
    }

    /** The value that hash() feeds to the integer hash. */
    method HashValue() returns (value: Word)
      requires Valid()
      ensures value == XorAll(AllWords())
      ensures forall k :: 0 <= k < BITS_IN_POINTER ==> (value[k] <==> |AtPlace(Contents(), k)| % 2 == 1)
    {
      if IsInline() {
        assert XorAll([]) == Zeros(BITS_IN_POINTER);
        value := CleanseInlineBits(bitsOrPointer.bits);
      } else {
        value := HashSlowCase();
      }
      forall k | 0 <= k < BITS_IN_POINTER ensures value[k] <==> |AtPlace(Contents(), k)| % 2 == 1 {
        XorIsParity(AllWords(), k);
      }
    }

    method HashSlowCase() returns (result: Word)
      requires Valid() && !IsInline()
      ensures result == XorAll(AllWords())
    {
      var words := bitsOrPointer.words;
      result := Zeros(BITS_IN_POINTER);
      for i := words.Length downto 0
        invariant result == XorAll(words[i..])
      {
        assert words[i..][1..] == words[i + 1..];
        result := Xor(result, words[i]);
      }
    }

    /** Equal vectors hash alike, whichever of them are inline and however many trailing zeros they have. */
    lemma EqualVectorsHashAlike(other: BitVector)
      requires Valid() && other.Valid() && Contents() == other.Contents()
      ensures XorAll(AllWords()) == XorAll(other.AllWords())
    {
      SameSetSameHash(AllWords(), other.AllWords());
    }

    method CountOfBits() returns (result: nat)
      requires Valid()
      ensures result == |Contents()|
    {
      assert MembersFrom(BITS_IN_POINTER, AllWords(), 0) == Contents();
      if IsInline() {
        CountWord(BITS_IN_POINTER, AllWords(), 0);
        NoneFromEnd(BITS_IN_POINTER, AllWords(), BITS_IN_POINTER);
        assert |MembersFrom(BITS_IN_POINTER, AllWords(), 0)| == BitCount(AllWords()[0]);
        return BitCount(CleanseInlineBits(bitsOrPointer.bits));
      }
      var words := bitsOrPointer.words;
      result := 0;
      NoneFromEnd(BITS_IN_POINTER, AllWords(), words.Length * BITS_IN_POINTER);
      for i := words.Length downto 0
        invariant result == |MembersFrom(BITS_IN_POINTER, AllWords(), i * BITS_IN_POINTER)|
      {
        CountWord(BITS_IN_POINTER, AllWords(), i);
        result := result + BitCount(words[i]);
      }
    }

    method IsEmpty() returns (empty: bool)
      requires Valid()
      ensures empty <==> Contents() == {}
    {
      SetOfIs([], {});
      SameSetIffSameWords(AllWords(), []);
      if IsInline() {
        assert SameWords(AllWords(), []) <==> AllWords()[0] == Zeros(BITS_IN_POINTER);
        return CleanseInlineBits(bitsOrPointer.bits) == Zeros(BITS_IN_POINTER);
      }
      var words := bitsOrPointer.words;
      for i := words.Length downto 0
        invariant forall j :: i <= j < words.Length ==> words[j] == Zeros(BITS_IN_POINTER)
      {
        if words[i] != Zeros(BITS_IN_POINTER) {
          return false;
        }
      }
      return true;
    }

    // Searching.

    method FindBit(start: nat, value: bool) returns (result: nat)
      requires Valid() && (IsInline() ==> start <= Size())
      ensures IsFirst(Contents(), Size(), start, value, result)
    {
      result := FindBitFast(start, value);
      var expected := FindBitSimple(start, value);
      FirstIsUnique(Contents(), Size(), start, value, result, expected);
      assert result == expected;
    }

    /** The shift of an inline word by its width or more would be undefined. */
    method FindBitFast(start: nat, value: bool) returns (result: nat)
      requires Valid() && (IsInline() ==> start <= Size())
      ensures IsFirst(Contents(), Size(), start, value, result)
    {
      if IsInline() {
        var found;
        found, result := FindBitInWordFast(bitsOrPointer.bits, start, MAX_INLINE_BITS, value);
        forall i: nat | i < MAX_INLINE_BITS ensures i in Contents() <==> bitsOrPointer.bits[i] { ContentsBelowSize(i); }
        return;
      }
      result := FindBitInWords(bitsOrPointer.words, start, value);
      forall i: nat ensures i in Contents() <==> HasBit(AllWords(), i) { ContentsBelowSize(i); }
    }

    method FindBitSimple(start: nat, value: bool) returns (result: nat)
      requires Valid()
      ensures IsFirst(Contents(), Size(), start, value, result)
    {
      var index := start;
      while index < Size()
        invariant start <= index && (index <= Size() || index == start)
        invariant forall i: nat :: start <= i < index ==> (i in Contents()) != value
      {
        if Get(index) == value {
          return index;
        }
        index := index + 1;
      }
      return Size();
    }

    /** Iteration from begin() to the end visits the members in ascending order, each once. */
    method Iterate() returns (visited: seq<nat>)
      requires Valid()
      ensures Ascending(visited) && forall i: nat :: i in visited <==> i in Contents()
    {
      visited := [];
      var index := FindBit(0, true);
      while index < Size()
        invariant index <= Size() && Ascending(visited) && (index < Size() ==> index in Contents())
        invariant forall i: nat :: i in visited <==> i in Contents() && i < index
        decreases Size() - index
      {
        assert forall i :: 0 <= i < |visited| ==> visited[i] in visited;
        visited := visited + [index];
        index := FindBit(index + 1, true);
      }
      forall i: nat | i in Contents() ensures i < Size() { ContentsBelowSize(i); }
    }
  }

  /** A vector with 63 in it, out of line, trips the debug assertion when it is resized to an inline one. */
  method ResizeTripsAssertion() returns (asserted: bool, ghost result: set<nat>)
    ensures !asserted && result == {}
  {
    var v := new BitVector();
    v.EnsureSize(BITS_IN_POINTER);
    var old63 := v.QuickSet(MAX_INLINE_BITS);
    asserted := v.Resize(0);
    result := v.Contents();
  }

  /** So does an empty inline vector that is shifted by 0. */
  method ShiftTripsAssertion() returns (asserted: bool, ghost result: set<nat>)
    ensures !asserted && result == {}
  {
    var v := new BitVector();
    asserted := v.ShiftRightByMultipleOf64(0);
    result := v.Contents();
  }

  method FindBitInWords(words: array<Word>, start: nat, value: bool) returns (result: nat)
    ensures result <= BITS_IN_POINTER * words.Length
    ensures result < BITS_IN_POINTER * words.Length ==> start <= result && HasBit(words[..], result) == value
    ensures Lacks(BITS_IN_POINTER, words[..], value, start, result)
  {
    ghost var ws := words[..];
    var wordIndex := start / BITS_IN_POINTER;
    var startIndexInWord: nat := start - wordIndex * BITS_IN_POINTER;
    while wordIndex < words.Length
      invariant startIndexInWord < BITS_IN_POINTER
      invariant start <= wordIndex * BITS_IN_POINTER + startIndexInWord
      invariant Lacks(BITS_IN_POINTER, ws, value, start, wordIndex * BITS_IN_POINTER + startIndexInWord)
    {
      var found, index := SearchWord(BITS_IN_POINTER, words[wordIndex], startIndexInWord, value, ws, wordIndex, start);
      if found {
        return wordIndex * BITS_IN_POINTER + index;
      }
      wordIndex := wordIndex + 1;
      startIndexInWord := 0;
    }
    return BITS_IN_POINTER * words.Length;
  }

  method MergeWords(a: array<Word>, b: array<Word>, beyond: seq<Word>)
    requires a.Length <= b.Length + |beyond|
    modifies a
    ensures a[..] == Merged(old(a[..]), old(b[..]) + beyond)
  {
    ghost var before, other := a[..], b[..];
    ghost var after := Merged(before, other + beyond);
    for i := a.Length downto 0
      invariant forall j :: 0 <= j < i ==> a[j] == before[j]
      invariant forall j :: i <= j < a.Length ==> a[j] == after[j]
    {
      a[i] := Or(a[i], if i < b.Length then b[i] else beyond[i - b.Length]);
    }
  }

  method FilterWords(a: array<Word>, b: array<Word>)
    modifies a
    ensures a[..] == Filtered(old(a[..]), old(b[..]))
  {
    ghost var before := a[..];
    ghost var after := Filtered(before, b[..]);
    var common := Min(a.Length, b.Length);
    for i := common downto 0
      invariant forall j :: 0 <= j < i ==> a[j] == before[j]
      invariant forall j :: i <= j < common ==> a[j] == after[j]
    {
      a[i] := And(a[i], b[i]);
    }
    var i := b.Length;
    while i < a.Length
      invariant i >= b.Length && forall j :: 0 <= j < i && j < a.Length ==> a[j] == after[j]
    {
      a[i] := Zeros(BITS_IN_POINTER);
      i := i + 1;
    }
  }

  method ExcludeWords(a: array<Word>, b: array<Word>)
    modifies a
    ensures a[..] == Excluded(old(a[..]), old(b[..]))
  {
    ghost var before := a[..];
    ghost var after := Excluded(before, b[..]);
    var common := Min(a.Length, b.Length);
    for i := common downto 0
      invariant forall j :: 0 <= j < i || common <= j < a.Length ==> a[j] == before[j]
      invariant forall j :: i <= j < common ==> a[j] == after[j]
    {
      a[i] := And(a[i], Not(b[i]));
    }
  }
}
