/** Machine words as sequences of bits, lowest bit first, and sets of numbers packed into words of w bits. */
module Words {

  type Bits = seq<bool>

  function Zeros(w: nat): (r: Bits)
    ensures |r| == w
  {
    seq(w, _ => false)
  }

  function Ones(w: nat): (r: Bits)
    ensures |r| == w
  {
    seq(w, _ => true)
  }

  /** One in bit k alone. */
  function Mask(w: nat, k: nat): (r: Bits)
    ensures |r| == w
  {
    seq(w, i => i == k)
  }

  function Or(a: Bits, b: Bits): (r: Bits)
    requires |a| == |b|
    ensures |r| == |a| && forall k :: 0 <= k < |a| ==> r[k] == (a[k] || b[k])
  {
    seq(|a|, k requires 0 <= k < |a| => a[k] || b[k])
  }

  function And(a: Bits, b: Bits): (r: Bits)
    requires |a| == |b|
    ensures |r| == |a| && forall k :: 0 <= k < |a| ==> r[k] == (a[k] && b[k])
  {
    seq(|a|, k requires 0 <= k < |a| => a[k] && b[k])
  }

  function Xor(a: Bits, b: Bits): (r: Bits)
    requires |a| == |b|
    ensures |r| == |a| && forall k :: 0 <= k < |a| ==> r[k] == (a[k] != b[k])
  {
    seq(|a|, k requires 0 <= k < |a| => a[k] != b[k])
  }

  function Not(a: Bits): (r: Bits)
    ensures |r| == |a| && forall k :: 0 <= k < |a| ==> r[k] == !a[k]
  {
    seq(|a|, k requires 0 <= k < |a| => !a[k])
  }

  /** The bits move down by n places; zeros come in at the top. */
  function ShiftRight(a: Bits, n: nat): (r: Bits)
    requires n <= |a|
    ensures |r| == |a| && forall k :: 0 <= k < |a| ==> r[k] == (k + n < |a| && a[k + n])
  {
    a[n..] + Zeros(n)
  }

  /** The number of ones. */
  function BitCount(a: Bits): nat {
    if a == [] then 0 else BitCount(a[..|a| - 1]) + if a[|a| - 1] then 1 else 0
  }

  /** How many zeros stand below the lowest one; all of them if there is no one. */
  function CountTrailingZeros(a: Bits): (n: nat)
    ensures n <= |a| && (n < |a| ==> a[n]) && forall k :: 0 <= k < n ==> !a[k]
  {
    if a == [] || a[0] then 0 else 1 + CountTrailingZeros(a[1..])
  }

  /** The first place from start, below end, with this value; end if there is none. */
  ghost predicate Finds(word: Bits, start: nat, end: nat, value: bool, found: bool, index: nat) {
    && end <= |word| && (if found then start <= index < end && word[index] == value else index == end)
    && forall k :: start <= k < index ==> word[k] != value
  }

  /** The portable search, bit by bit. */
  method FindBitInWord(word: Bits, start: nat, end: nat, value: bool) returns (found: bool, index: nat)
    requires start <= |word| && end <= |word|
    ensures Finds(word, start, end, value, found, index)
  {
    index := start;
    var rest := ShiftRight(word, index);
    while index < end
      invariant index <= |word| && rest == ShiftRight(word, index) && (start <= end ==> index <= end)
      invariant forall k :: start <= k < index ==> word[k] != value
    {
      if rest[0] == value {
        return true, index;
      }
      index := index + 1;
      rest := ShiftRight(rest, 1);
    }
    return false, end;
  }

  /** Ones exactly where the bits from start on have this value. */
  lemma WithValue(word: Bits, start: nat, value: bool, rest: Bits)
    requires start <= |word|
    requires rest == Xor(ShiftRight(word, start), if value then Zeros(|word|) else Ones(|word|))
    ensures forall k :: start <= k < |word| ==> rest[k - start] == (word[k] == value)
  {
    forall k | start <= k < |word| ensures rest[k - start] == (word[k] == value) {
      assert ShiftRight(word, start)[k - start] == word[k];
    }
  }

  /** The search by counting trailing zeros, on processors that do it fast. */
  method FindBitInWordFast(word: Bits, start: nat, end: nat, value: bool) returns (found: bool, index: nat)
    requires start <= |word| && end <= |word|
    ensures Finds(word, start, end, value, found, index)
  {
    var shifted := ShiftRight(word, start);
    var rest := Xor(shifted, if value then Zeros(|word|) else Ones(|word|));
    var n := CountTrailingZeros(rest);
    index := start + n;
    WithValue(word, start, value, rest);
    forall k | start <= k < |word| && k <= index ensures (word[k] == value) == (k == index) {
      assert rest[k - start] == (word[k] == value);
    }
    if index < end {
      return true, index;
    }
    return false, end;
  }
}
