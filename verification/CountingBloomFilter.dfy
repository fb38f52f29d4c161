/** CountingBloomFilter: two buckets for each key, eight bits for each bucket, and counts that stick at 255. */
module CountingBloomFilters {

  import opened Counting
  import opened PackedSets

  const MAXIMUM_COUNT := 255

  /** hash & keyMask and (hash >> 16) & keyMask, for a table whose size is a power of two. */
  function FirstBucket(hash: nat, tableSize: nat): nat
    requires tableSize > 0
  {
    hash % tableSize
  }

  function SecondBucket(hash: nat, tableSize: nat): nat
    requires tableSize > 0
  {
    (hash / 0x1_0000) % tableSize
  }

  function Up(count: nat): nat {
    if count < MAXIMUM_COUNT then count + 1 else count
  }

  /** The decrement of an unsigned eight-bit counter, which wraps around at 0. */
  function Down(count: nat): nat {
    if count < MAXIMUM_COUNT then (if count == 0 then 255 else count - 1) else count
  }

  /** Both increments, one after the other: the two buckets of a key may be the same. */
  function Added(buckets: seq<nat>, hash: nat): (r: seq<nat>)
    requires buckets != []
    ensures |r| == |buckets|
  {
    var i, j := FirstBucket(hash, |buckets|), SecondBucket(hash, |buckets|);
    var once := buckets[i := Up(buckets[i])];
    once[j := Up(once[j])]
  }

  function Removed(buckets: seq<nat>, hash: nat): (r: seq<nat>)
    requires buckets != []
    ensures |r| == |buckets|
  {
    var i, j := FirstBucket(hash, |buckets|), SecondBucket(hash, |buckets|);
    var once := buckets[i := Down(buckets[i])];
    once[j := Down(once[j])]
  }

  predicate MayContain(buckets: seq<nat>, hash: nat)
    requires buckets != []
  {
    buckets[FirstBucket(hash, |buckets|)] != 0 && buckets[SecondBucket(hash, |buckets|)] != 0
  }

  predicate LikelyEmpty(buckets: seq<nat>) {
    forall i :: 0 <= i < |buckets| ==> buckets[i] == 0 || buckets[i] == MAXIMUM_COUNT
  }

  datatype Op = Add(hash: nat) | Remove(hash: nat) | Clear

  function Apply(buckets: seq<nat>, op: Op): (r: seq<nat>)
    requires buckets != []
    ensures |r| == |buckets|
  {
    match op
    case Add(hash) => Added(buckets, hash)
    case Remove(hash) => Removed(buckets, hash)
    case Clear => seq(|buckets|, _ => 0)
  }

  /** The buckets after a run that starts with an empty filter. */
  function After(tableSize: nat, ops: seq<Op>): (r: seq<nat>)
    requires tableSize > 0
    ensures |r| == tableSize
  {
    if ops == [] then seq(tableSize, _ => 0) else Apply(After(tableSize, ops[..|ops| - 1]), ops[|ops| - 1])
  }

  function Without(keys: seq<nat>, hash: nat): seq<nat> {
    if keys == [] then []
    else if keys[|keys| - 1] == hash then keys[..|keys| - 1]
    else Without(keys[..|keys| - 1], hash) + [keys[|keys| - 1]]
  }

  /** The keys that have been added and not removed, as often as they have been. */
  function Live(ops: seq<Op>): seq<nat> {
    if ops == [] then [] else
    var before := Live(ops[..|ops| - 1]);
    match ops[|ops| - 1]
    case Add(hash) => before + [hash]
    case Remove(hash) => Without(before, hash)
    case Clear => []
  }

  /** Only live keys are removed. */
  ghost predicate RemovesLiveKeys(ops: seq<Op>) {
    forall k :: 0 <= k < |ops| && ops[k].Remove? ==> ops[k].hash in Live(ops[..k])
  }

  /** How often a key counts in a bucket: twice when both of its buckets are this one. */
  function Weight(tableSize: nat, b: nat): nat -> nat
    requires tableSize > 0
  {
    (hash: nat) =>
      (if FirstBucket(hash, tableSize) == b then 1 else 0) + (if SecondBucket(hash, tableSize) == b then 1 else 0)
  }

  function Contributions(tableSize: nat, ops: seq<Op>, b: nat): nat
    requires tableSize > 0
  {
    Sum(Live(ops), Weight(tableSize, b))
  }

  /** The largest number of contributions that the bucket has had since it was last cleared. */
  function Peak(tableSize: nat, ops: seq<Op>, b: nat): nat
    requires tableSize > 0
  {
    if ops == [] || ops[|ops| - 1].Clear? then 0 else
    var before, now := Peak(tableSize, ops[..|ops| - 1], b), Contributions(tableSize, ops, b);
    if before < now then now else before
  }

  lemma {:induction false} WithoutSum(keys: seq<nat>, hash: nat, w: nat -> nat)
    requires hash in keys
    ensures Sum(Without(keys, hash), w) + w(hash) == Sum(keys, w)
  {
    var n := |keys| - 1;
    if keys[n] != hash {
      assert hash in keys[..n];
      WithoutSum(keys[..n], hash, w);
      assert (Without(keys[..n], hash) + [keys[n]])[..|Without(keys[..n], hash)|] == Without(keys[..n], hash);
    }
  }

  lemma {:induction false} SumAtLeast(keys: seq<nat>, hash: nat, w: nat -> nat)
    requires hash in keys
    ensures Sum(keys, w) >= w(hash)
  {
    var n := |keys| - 1;
    if keys[n] != hash { SumAtLeast(keys[..n], hash, w); }
  }

  /** A bucket counts a key once or, when both of its buckets are this one, twice. */
  lemma AddedAt(buckets: seq<nat>, hash: nat, b: nat)
    requires b < |buckets|
    ensures var w := Weight(|buckets|, b)(hash);
      Added(buckets, hash)[b] == if w == 0 then buckets[b] else if w == 1 then Up(buckets[b]) else Up(Up(buckets[b]))
  {
  }

  /** What that comes to: a bucket grows by as many of the key's buckets as it is, up to 255; and it shrinks by as many
      unless it has overflowed, but wraps around, and is then taken for overflowed, if it was smaller than that. */
  lemma ChangesExactly(buckets: seq<nat>, hash: nat, b: nat)
    requires b < |buckets| && buckets[b] <= 255
    ensures var first, second := hash % |buckets|, hash / 0x1_0000 % |buckets|;
      var times := (if b == first then 1 else 0) + (if b == second then 1 else 0);
      && Added(buckets, hash)[b] == (if buckets[b] + times <= 255 then buckets[b] + times else 255)
      && Removed(buckets, hash)[b] == (if times <= buckets[b] < 255 then buckets[b] - times else 255)
  {
  }

  lemma RemovedAt(buckets: seq<nat>, hash: nat, b: nat)
    requires b < |buckets|
    ensures var w := Weight(|buckets|, b)(hash);
      Removed(buckets, hash)[b] ==
        if w == 0 then buckets[b] else if w == 1 then Down(buckets[b]) else Down(Down(buckets[b]))
  {
  }

  lemma ContributionsStep(tableSize: nat, ops: seq<Op>, b: nat)
    requires tableSize > 0 && ops != [] && RemovesLiveKeys(ops)
    ensures var before, now := Contributions(tableSize, ops[..|ops| - 1], b), Contributions(tableSize, ops, b);
      match ops[|ops| - 1]
      case Add(hash) => now == before + Weight(tableSize, b)(hash)
      case Remove(hash) => now + Weight(tableSize, b)(hash) == before
      case Clear => now == 0
  {
    var front, w := ops[..|ops| - 1], Weight(tableSize, b);
    match ops[|ops| - 1]
    case Add(hash) => assert (Live(front) + [hash])[..|Live(front)|] == Live(front);
    case Remove(hash) => WithoutSum(Live(front), hash, w);
    case Clear =>
  }

  /** What a bucket holds that has had this many contributions at most, and has so many now. */
  function Exact(peak: nat, contributions: nat): nat {
    if peak >= MAXIMUM_COUNT then MAXIMUM_COUNT else contributions
  }

  lemma AddKeepsExact(peak: nat, n: nat, w: nat)
    requires n <= peak && w <= 2
    ensures var count, now := Exact(peak, n), n + w;
      Exact(if peak < now then now else peak, now) ==
        if w == 0 then count else if w == 1 then Up(count) else Up(Up(count))
  {}

  lemma RemoveKeepsExact(peak: nat, n: nat, w: nat)
    requires n <= peak && w <= 2 && w <= n
    ensures var count := Exact(peak, n);
      (if w == 0 then count else if w == 1 then Down(count) else Down(Down(count))) == Exact(peak, n - w)
  {}

  ghost predicate IsExact(tableSize: nat, ops: seq<Op>, b: nat)
    requires tableSize > 0 && b < tableSize
  {
    && After(tableSize, ops)[b] == Exact(Peak(tableSize, ops, b), Contributions(tableSize, ops, b))
    && Contributions(tableSize, ops, b) <= Peak(tableSize, ops, b)
  }

  lemma AddStaysExact(tableSize: nat, front: seq<Op>, ops: seq<Op>, hash: nat, b: nat)
    requires tableSize > 0 && b < tableSize && RemovesLiveKeys(ops) && ops == front + [Add(hash)]
    requires IsExact(tableSize, front, b)
    ensures IsExact(tableSize, ops, b)
  {
    assert ops[..|ops| - 1] == front;
    ContributionsStep(tableSize, ops, b);
    AddedAt(After(tableSize, front), hash, b);
    AddKeepsExact(Peak(tableSize, front, b), Contributions(tableSize, front, b), Weight(tableSize, b)(hash));
  }

  lemma RemoveStaysExact(tableSize: nat, front: seq<Op>, ops: seq<Op>, hash: nat, b: nat)
    requires tableSize > 0 && b < tableSize && RemovesLiveKeys(ops) && ops == front + [Remove(hash)]
    requires IsExact(tableSize, front, b)
    ensures IsExact(tableSize, ops, b)
  {
    assert ops[..|ops| - 1] == front;
    ContributionsStep(tableSize, ops, b);
    RemovedAt(After(tableSize, front), hash, b);
    RemoveKeepsExact(Peak(tableSize, front, b), Contributions(tableSize, front, b), Weight(tableSize, b)(hash));
  }

  /** The exact contents of every bucket after every run that removes live keys only: the number of
      contributions of the live keys, unless that number has ever reached 255 since the last clear. */
  lemma {:induction false} BucketsAreExact(tableSize: nat, ops: seq<Op>, b: nat)
    requires tableSize > 0 && b < tableSize && RemovesLiveKeys(ops)
    ensures IsExact(tableSize, ops, b)
  {
    if ops != [] {
      var front := ops[..|ops| - 1];
      assert forall k :: 0 <= k < |front| ==> front[..k] == ops[..k];
      BucketsAreExact(tableSize, front, b);
      match ops[|ops| - 1]
      case Add(hash) => AddStaysExact(tableSize, front, ops, hash, b);
      case Remove(hash) => RemoveStaysExact(tableSize, front, ops, hash, b);
      case Clear =>
    }
  }

  /** The filter never denies a live key, and the assertions in remove() hold. */
  lemma NoFalseNegatives(tableSize: nat, ops: seq<Op>, hash: nat)
    requires tableSize > 0 && RemovesLiveKeys(ops) && hash in Live(ops)
    ensures MayContain(After(tableSize, ops), hash)
  {
    var i, j := FirstBucket(hash, tableSize), SecondBucket(hash, tableSize);
    BucketsAreExact(tableSize, ops, i);
    BucketsAreExact(tableSize, ops, j);
    SumAtLeast(Live(ops), hash, Weight(tableSize, i));
    SumAtLeast(Live(ops), hash, Weight(tableSize, j));
  }

  /** Without live keys the filter is likely empty, and a bucket is clear unless it has overflowed. */
  lemma EmptyWithoutKeys(tableSize: nat, ops: seq<Op>)
    requires tableSize > 0 && RemovesLiveKeys(ops) && Live(ops) == []
    ensures LikelyEmpty(After(tableSize, ops))
    ensures forall b :: 0 <= b < tableSize ==>
      (After(tableSize, ops)[b] == 0 <==> Peak(tableSize, ops, b) < MAXIMUM_COUNT)
  {
    forall b | 0 <= b < tableSize
      ensures After(tableSize, ops)[b] == Exact(Peak(tableSize, ops, b), 0)
    {
      BucketsAreExact(tableSize, ops, b);
    }
  }

  lemma LiveKeyIsThere(tableSize: nat, ops: seq<Op>, hash: nat)
    requires tableSize > 0
    ensures RemovesLiveKeys(ops) && hash in Live(ops) ==> MayContain(After(tableSize, ops), hash)
  {
    if RemovesLiveKeys(ops) && hash in Live(ops) { NoFalseNegatives(tableSize, ops, hash); }
  }

  /** A key that is added n times and never removed counts n times in each of its buckets, twice that if the two are
      the same, up to 255. */
  lemma {:induction false} AddedManyTimes(tableSize: nat, hash: nat, n: nat)
    requires tableSize > 0
    ensures var buckets := After(tableSize, seq(n, _ => Add(hash)));
      var first, second := hash % tableSize, hash / 0x1_0000 % tableSize;
      var count := if first == second then 2 * n else n;
      forall b :: 0 <= b < tableSize ==>
        buckets[b] == if b != first && b != second then 0 else if count < 255 then count else 255
  {
    if n > 0 {
      AddedManyTimes(tableSize, hash, n - 1);
      var ops := seq(n, _ => Add(hash));
      assert ops[..n - 1] == seq(n - 1, _ => Add(hash)) && ops[n - 1] == Add(hash);
      assert After(tableSize, ops) == Added(After(tableSize, seq(n - 1, _ => Add(hash))), hash);
    }
  }

  /** When a filter with one key denies another hash: the whole hash picks its first bucket, and the half from bit 16
      up the second. In a table of at most 2^16 buckets only the low half counts for the first bucket. */
  lemma OneKeyDenies(tableSize: nat, high: nat, low: nat, otherHigh: nat, otherLow: nat)
    requires tableSize > 0 && low < 0x1_0000 && otherLow < 0x1_0000
    ensures var hash, other := high * 0x1_0000 + low, otherHigh * 0x1_0000 + otherLow;
      var taken := {hash % tableSize, high % tableSize};
      !MayContain(After(tableSize, [Add(hash)]), other)
      <==> other % tableSize !in taken || otherHigh % tableSize !in taken
    ensures 0x1_0000 % tableSize == 0 ==>
      var taken := {low % tableSize, high % tableSize};
      !MayContain(After(tableSize, [Add(high * 0x1_0000 + low)]), otherHigh * 0x1_0000 + otherLow)
      <==> otherLow % tableSize !in taken || otherHigh % tableSize !in taken
  {
    var hash, other := high * 0x1_0000 + low, otherHigh * 0x1_0000 + otherLow;
    Joined(0x1_0000, high, low);
    Joined(0x1_0000, otherHigh, otherLow);
    assert [Add(hash)][..0] == [];
    assert After(tableSize, [Add(hash)]) == Added(seq(tableSize, _ => 0), hash);
    if 0x1_0000 % tableSize == 0 {
      LowHalf(high, low, tableSize);
      LowHalf(otherHigh, otherLow, tableSize);
    }
  }

  class CountingBloomFilter {
    const buckets: array<nat>
    ghost var ops: seq<Op> // everything that has been done to the filter

    /** The buckets are what this run leaves. */
    ghost predicate Valid()
      reads this, buckets
    {
      buckets.Length > 0 && buckets[..] == After(buckets.Length, ops)
    }

    /** A run that removes live keys only: for such a run each bucket is known exactly. */
    ghost predicate Proper()
      reads this
    {
      RemovesLiveKeys(ops)
    }

    /** The keys that have been added and not removed. */
    ghost function Keys(): seq<nat>
      reads this
    {
      Live(ops)
    }

    /** The contents of bucket b, in terms of the keys. */
    ghost predicate BucketIsExact(b: nat)
      requires b < buckets.Length
      reads this, buckets
    {
      buckets[b] == Exact(Peak(buckets.Length, ops, b), Contributions(buckets.Length, ops, b))
    }

    constructor (tableSize: nat)
      requires tableSize > 0
      ensures Valid() && Proper() && Keys() == [] && buckets.Length == tableSize && fresh(buckets)
    {
      buckets := new nat[tableSize](_ => 0);
      ops := [];
      new;
      assert buckets[..] == seq(tableSize, _ => 0);
    }

    method Add(hash: nat)
      requires Valid()
      modifies `ops, buckets
      ensures Valid() && ops == old(ops) + [Op.Add(hash)] && Keys() == old(Keys()) + [hash]
      ensures old(Proper()) ==> Proper() && forall b: nat :: b < buckets.Length ==> BucketIsExact(b)
    {
      var first, second := FirstBucket(hash, buckets.Length), SecondBucket(hash, buckets.Length);
      if buckets[first] < MAXIMUM_COUNT {
        buckets[first] := buckets[first] + 1;
      }
      if buckets[second] < MAXIMUM_COUNT {
        buckets[second] := buckets[second] + 1;
      }
      Note(Op.Add(hash));
    }

    /** The source asserts, in debug builds, that neither bucket is empty; for a live key that holds. */
    method Remove(hash: nat)
      requires Valid() && MayContain(buckets[..], hash)
      modifies `ops, buckets
      ensures Valid() && ops == old(ops) + [Op.Remove(hash)] && Keys() == Without(old(Keys()), hash)
      ensures old(Proper() && hash in Keys()) ==> Proper() && forall b: nat :: b < buckets.Length ==> BucketIsExact(b)
    {
      var first, second := FirstBucket(hash, buckets.Length), SecondBucket(hash, buckets.Length);
      if buckets[first] < MAXIMUM_COUNT {
        buckets[first] := if buckets[first] == 0 then 255 else buckets[first] - 1;
      }
      if buckets[second] < MAXIMUM_COUNT {
        buckets[second] := if buckets[second] == 0 then 255 else buckets[second] - 1;
      }
      Note(Op.Remove(hash));
    }

    method Clear()
      requires Valid()
      modifies `ops, buckets
      ensures Valid() && ops == old(ops) + [Op.Clear] && Keys() == []
      ensures old(Proper()) ==> Proper() && forall b: nat :: b < buckets.Length ==> buckets[b] == 0
    {
      for i := 0 to buckets.Length
        invariant forall j :: 0 <= j < i ==> buckets[j] == 0
        invariant ops == old(ops)
      {
        buckets[i] := 0;
      }
      assert buckets[..] == seq(buckets.Length, _ => 0);
      Note(Op.Clear);
    }

    /** Takes down what has been done to the buckets. */
    ghost method Note(op: Op)
      requires buckets.Length > 0 && buckets[..] == Apply(After(buckets.Length, ops), op)
      modifies `ops
      ensures Valid() && ops == old(ops) + [op]
      ensures op.Add? ==> Keys() == old(Keys()) + [op.hash]
      ensures op.Remove? ==> Keys() == Without(old(Keys()), op.hash)
      ensures op.Clear? ==> Keys() == []
      ensures old(Proper()) && (op.Remove? ==> op.hash in old(Keys())) ==>
        Proper() && forall b: nat :: b < buckets.Length ==> BucketIsExact(b)
    {
      ghost var before := ops;
      ops := before + [op];
      assert ops[..|before|] == before;
      if RemovesLiveKeys(before) && (op.Remove? ==> op.hash in Live(before)) {
        assert forall k :: 0 <= k <= |before| ==> ops[..k] == before[..k];
        forall b: nat | b < buckets.Length ensures BucketIsExact(b) { BucketsAreExact(buckets.Length, ops, b); }
      }
    }

    /** Never false for a live key. */
    predicate MayContainKey(hash: nat)
      requires Valid()
      reads this, buckets
      ensures MayContainKey(hash) <==> MayContain(buckets[..], hash)
      ensures Proper() && hash in Keys() ==> MayContainKey(hash)
    {
      LiveKeyIsThere(buckets.Length, ops, hash);
      buckets[FirstBucket(hash, buckets.Length)] != 0 && buckets[SecondBucket(hash, buckets.Length)] != 0
    }

    /** Whether every bucket is empty or has overflowed, as all are when there are no keys. */
    method IsLikelyEmpty() returns (r: bool)
      requires Valid()
      ensures r == LikelyEmpty(buckets[..])
      ensures Proper() && Keys() == [] ==> r
    {
      if Proper() && Keys() == [] { EmptyWithoutKeys(buckets.Length, ops); }
      for i := 0 to buckets.Length
        invariant forall j :: 0 <= j < i ==> buckets[j] == 0 || buckets[j] == MAXIMUM_COUNT
      {
        if buckets[i] != 0 && buckets[i] != MAXIMUM_COUNT {
          assert buckets[..][i] == buckets[i];
          return false;
        }
      }
      return true;
    }
  }
}
