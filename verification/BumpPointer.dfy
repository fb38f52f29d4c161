/** BumpPointerAllocator: a doubly linked chain of memory pools that behaves as one stack of blocks. */
module BumpPointers {

  import opened Basics

  const ADDRESS_LIMIT: nat := 0x1_0000_0000_0000_0000
  const MINIMUM_BUMP_POOL_SIZE: nat := 0x1000

  /** sizeof(BumpPointerPool): four pointers, and a page allocation of three words. */
  const POOL_OBJECT_SIZE: nat := 56

  function Pow2(e: nat): (p: nat)
    ensures p > 0
  {
    if e == 0 then 1 else 2 * Pow2(e - 1)
  }

  lemma {:induction false} Pow2Grows(a: nat, b: nat)
    requires a <= b
    ensures Pow2(a) <= Pow2(b)
    decreases b
  {
    if a < b { Pow2Grows(a, b - 1); }
  }

  lemma {:induction false} Pow2Splits(a: nat, b: nat)
    ensures Pow2(a + b) == Pow2(a) * Pow2(b)
  {
    if a > 0 { Pow2Splits(a - 1, b); }
  }

  lemma Squared(e: nat, p: nat)
    requires Pow2(e) == p
    ensures Pow2(2 * e) == p * p
  {
    Pow2Splits(e, e);
  }

  lemma SixtyFour(e: nat)
    requires e == 8
    ensures Pow2(2 * (2 * (2 * e))) == ADDRESS_LIMIT
  {
    assert Pow2(e) == 0x100 by { assert Pow2(8) == 0x100; }
    Squared(e, 0x100);
    Squared(2 * e, 0x1_0000);
    Squared(2 * (2 * e), 0x1_0000_0000);
  }

  /** Doubling a power of two in 64 bits gives the next one, or 0 after the last one. */
  lemma Doubling(e: nat)
    requires e < 64
    ensures Pow2(e) <= ADDRESS_LIMIT / 2 && (e == 63 <==> Pow2(e) == ADDRESS_LIMIT / 2)
    ensures Pow2(e) * 2 % ADDRESS_LIMIT == if e == 63 then 0 else Pow2(e + 1)
  {
    var eight, last: nat := 8, 63;
    SixtyFour(eight);
    assert 2 * (2 * (2 * eight)) == last + 1;
    if e < last {
      Pow2Grows(e + 1, last);
      assert Pow2(e + 1) <= Pow2(last);
    }
  }

  ghost predicate IsPowerOfTwo(n: nat) {
    exists e: nat :: e < 64 && n == Pow2(e)
  }

  lemma PowersOfTwo(n: nat)
    requires IsPowerOfTwo(n)
    ensures 0 < n <= ADDRESS_LIMIT / 2 && IsPowerOfTwo(MINIMUM_BUMP_POOL_SIZE)
    ensures if n == ADDRESS_LIMIT / 2 then n * 2 % ADDRESS_LIMIT == 0
            else n * 2 % ADDRESS_LIMIT == n * 2 && IsPowerOfTwo(n * 2)
  {
    assert Pow2(12) == MINIMUM_BUMP_POOL_SIZE;
    var e: nat :| e < 64 && n == Pow2(e);
    Doubling(e);
    if e < 63 { assert n * 2 == Pow2(e + 1); }
  }

  /** A power of two with room for the capacity and the pool object, not less than the minimum and a page, and no more
      than doubling asks for. */
  ghost predicate IsPoolSize(size: nat, capacity: nat, pageSize: nat) {
    && IsPowerOfTwo(size) && size < ADDRESS_LIMIT
    && capacity + POOL_OBJECT_SIZE <= size && MINIMUM_BUMP_POOL_SIZE <= size && pageSize <= size
    && (size == Max(MINIMUM_BUMP_POOL_SIZE, pageSize) || size < 2 * (capacity + POOL_OBJECT_SIZE))
  }

  /** The size of a new pool, by doubling in 64-bit arithmetic: no size if adding the pool object or doubling
      wraps around, and otherwise the first doubling that fits. */
  method PoolSize(capacity: nat, pageSize: nat) returns (size: Option<nat>)
    requires capacity < ADDRESS_LIMIT && IsPowerOfTwo(pageSize)
    ensures size.None? <==> capacity + POOL_OBJECT_SIZE > ADDRESS_LIMIT / 2
    ensures size.Some? ==> IsPoolSize(size.value, capacity, pageSize)
  {
    var minimumCapacity := (capacity + POOL_OBJECT_SIZE) % ADDRESS_LIMIT;
    if minimumCapacity < POOL_OBJECT_SIZE {
      return None;
    }
    PowersOfTwo(pageSize);
    var first := Max(MINIMUM_BUMP_POOL_SIZE, pageSize);
    var poolSize := first;
    while poolSize < minimumCapacity
      invariant IsPowerOfTwo(poolSize) && first <= poolSize <= ADDRESS_LIMIT / 2
      invariant poolSize == first || poolSize < 2 * minimumCapacity
      decreases ADDRESS_LIMIT - poolSize
    {
      PowersOfTwo(poolSize);
      poolSize := poolSize * 2 % ADDRESS_LIMIT;
      if poolSize == 0 {
        return None;
      }
      PowersOfTwo(poolSize);
    }
    return Some(poolSize);
  }

  /** A block in use: the position of its pool in the chain, and its size. */
  datatype Block = Block(pool: nat, size: nat)

  /** The bytes that these blocks take in pool i. */
  function UsedIn(blocks: seq<Block>, i: nat): nat {
    if blocks == [] then 0
    else var last := blocks[|blocks| - 1];
      UsedIn(blocks[..|blocks| - 1], i) + if last.pool == i then last.size else 0
  }

  /** The blocks lie in order along the chain, none of them past pool top. */
  ghost predicate Stacked(blocks: seq<Block>, top: nat) {
    && (forall k :: 0 <= k < |blocks| ==> blocks[k].pool <= top && blocks[k].size > 0)
    && (forall j, k :: 0 <= j < k < |blocks| ==> blocks[j].pool <= blocks[k].pool)
  }

  lemma {:induction false} UsedByFewer(blocks: seq<Block>, k: nat, i: nat)
    requires k < |blocks|
    ensures UsedIn(blocks[..k], i) + (if blocks[k].pool == i then blocks[k].size else 0) <= UsedIn(blocks, i)
    decreases |blocks|
  {
    var front := blocks[..|blocks| - 1];
    if k == |blocks| - 1 {
    } else {
      assert front[..k] == blocks[..k];
      UsedByFewer(front, k, i);
    }
  }

  lemma {:induction false} UnusedPastTop(blocks: seq<Block>, top: nat, i: nat)
    requires Stacked(blocks, top) && i > top
    ensures UsedIn(blocks, i) == 0
    decreases |blocks|
  {
    if blocks != [] {
      UnusedPastTop(blocks[..|blocks| - 1], top, i);
    }
  }

  /** The blocks below block k use as much of an earlier pool as all blocks do. */
  lemma {:induction false} UsedBelow(blocks: seq<Block>, top: nat, k: nat, i: nat)
    requires Stacked(blocks, top) && k < |blocks| && i < blocks[k].pool
    ensures UsedIn(blocks[..k], i) == UsedIn(blocks, i)
    decreases |blocks|
  {
    var front := blocks[..|blocks| - 1];
    assert blocks[k].pool <= blocks[|blocks| - 1].pool;
    if k < |blocks| - 1 {
      assert front[..k] == blocks[..k];
      UsedBelow(front, top, k, i);
    }
  }

  class BumpPointerPool {
    var current: nat
    const start: nat
    const limit: nat // the address of the pool object itself, which lies at the end of its memory
    var next: BumpPointerPool?
    var previous: BumpPointerPool?
    var released: bool // whether destroy() has given the memory back
    ghost var place: nat // where it stands in the chain

    constructor (base: nat, size: nat)
      requires size >= POOL_OBJECT_SIZE // the object must fit
      ensures start == current == base && limit == base + size - POOL_OBJECT_SIZE
      ensures next == null && previous == null && !released
    {
      current, start, limit := base, base, base + size - POOL_OBJECT_SIZE;
      next, previous, released := null, null, false;
    }

    /** The memory of this pool, the pool object at its end included. */
    function MemorySize(): nat {
      if start <= limit then limit + POOL_OBJECT_SIZE - start else 0
    }

    predicate HasRoom(size: nat)
      reads this
    {
      current + size <= limit
    }

    predicate Spans(position: nat) {
      start <= position <= limit
    }

    /** The memory allocate offers for any pool size overlaps none of these pools. */
    static ghost predicate Offers(allocate: nat -> nat, pools: seq<BumpPointerPool>) {
      forall size: nat, i :: 0 <= i < |pools| ==>
        allocate(size) + size <= pools[i].start || pools[i].limit + POOL_OBJECT_SIZE <= allocate(size)
    }

    static method Create(capacity: nat, pageSize: nat, allocate: nat -> nat, ghost pools: seq<BumpPointerPool>)
        returns (pool: BumpPointerPool?)
      requires capacity < ADDRESS_LIMIT && IsPowerOfTwo(pageSize) && Offers(allocate, pools)
      ensures pool == null <==> capacity + POOL_OBJECT_SIZE > ADDRESS_LIMIT / 2
      ensures pool != null ==> fresh(pool) && pool.next == null && pool.previous == null && !pool.released
      ensures pool != null ==> pool.current == pool.start && pool.start + capacity <= pool.limit
      ensures pool != null ==>
        IsPoolSize(pool.MemorySize(), capacity, pageSize) && pool.start == allocate(pool.MemorySize())
      ensures pool != null ==>
        forall i :: 0 <= i < |pools| ==> pools[i].limit < pool.start || pool.limit < pools[i].start
    {
      var size := PoolSize(capacity, pageSize);
      if size.None? {
        return null;
      }
      pool := new BumpPointerPool(allocate(size.value), size.value);
    }

    method EnsureCapacity(size: nat, pageSize: nat, allocate: nat -> nat, ghost owner: BumpPointerAllocator)
        returns (pool: BumpPointerPool)
      requires owner.Valid() && owner.IsCurrent(this)
      requires 0 < size <= ADDRESS_LIMIT / 2 - POOL_OBJECT_SIZE && IsPowerOfTwo(pageSize)
      requires Offers(allocate, owner.pools)
      modifies owner, owner.pools
      ensures owner.Valid() && owner.IsCurrent(pool) && pool.current + size <= pool.limit
      ensures owner.blocks == old(owner.blocks) && owner.head == old(owner.head)
      ensures old(owner.top) <= owner.top && old(owner.pools) <= owner.pools
      ensures forall i :: old(owner.top) <= i < owner.top < |owner.pools| ==>
        owner.pools[i].current + size > owner.pools[i].limit
      ensures owner.pools == old(owner.pools) || (owner.pools == old(owner.pools) + [pool] && fresh(pool))
      ensures fresh(pool) ==> IsPoolSize(pool.MemorySize(), size, pageSize) && pool.current == pool.start
    {
      if current + size <= limit {
        return this;
      }
      pool := EnsureCapacityCrossPool(this, size, pageSize, allocate, owner);
    }

    method Alloc(size: nat, ghost owner: BumpPointerAllocator) returns (position: nat)
      requires owner.Valid() && owner.IsCurrent(this) && size > 0 && HasRoom(size)
      modifies this`current, owner`blocks
      ensures owner.Valid() && owner.blocks == old(owner.blocks) + [Block(owner.top, size)]
      ensures position == owner.AddressOf(|old(owner.blocks)|)
    {
      position := current;
      current := current + size;
      owner.Push(size);
    }

    /** Null stands for the deliberate crash on a position that is in no pool. The debug assertion fails on a position
        in the unused part of a pool. The position of a block frees that block and all later ones. */
    method Dealloc(position: nat, ghost owner: BumpPointerAllocator)
        returns (pool: BumpPointerPool?, asserted: bool)
      requires owner.Valid() && owner.IsCurrent(this)
      modifies owner`top, owner`blocks, owner.pools`current
      ensures pool == null <==> Outside(owner.pools, old(owner.top), position)
      ensures asserted <==> InUsedPart(owner.pools, old(Ends(owner.pools)), old(owner.top), position)
      ensures forall k: nat :: k < |old(owner.blocks)| && position == Address(owner.pools, old(owner.blocks), k) ==>
        asserted && owner.Valid() && pool != null && owner.IsCurrent(pool) && owner.blocks == old(owner.blocks)[..k]
    {
      ghost var before := Ends(owner.pools);
      EndsAre(owner.pools, owner.blocks, before);
      ghost var i;
      pool, asserted, i := Unwind(position, owner.pools, owner.top, before);
      owner.Free(before, position, i);
    }

    method Unwind(position: nat, ghost pools: seq<BumpPointerPool>, ghost top: nat, ghost before: seq<nat>)
        returns (pool: BumpPointerPool?, asserted: bool, ghost i: int)
      requires Linked(pools) && Apart(pools) && top < |pools| && this == pools[top] && before == Ends(pools)
      modifies pools`current
      ensures Linked(pools) && Unwound(pools, before, top, position, i)
      ensures pool == if i == -1 then null else pools[i]
      ensures asserted <==> i == -1 || position <= before[i]
      ensures asserted <==> InUsedPart(pools, before, top, position)
      ensures pool == null <==> Outside(pools, top, position)
    {
      if start <= position <= limit {
        asserted := position <= current;
        current := position;
        pool, i := this, top;
      } else {
        pool, asserted, i := DeallocCrossPool(this, position, pools, top);
      }
      SpannedOnce(pools, before, top, position, i);
    }

    static method DeallocCrossPool(from: BumpPointerPool, position: nat, ghost pools: seq<BumpPointerPool>,
                                   ghost top: nat)
        returns (pool: BumpPointerPool?, asserted: bool, ghost i: int)
      requires Linked(pools) && Apart(pools) && top < |pools| && from == pools[top] && !from.Spans(position)
      modifies pools`current
      ensures Unwound(pools, old(Ends(pools)), top, position, i)
      ensures pool == if i == -1 then null else pools[i]
      ensures asserted <==> i == -1 || position <= old(Ends(pools))[i]
    {
      pool, asserted, i := from, true, top;
      while true
        invariant 0 <= i <= top && pool == pools[i]
        invariant forall j :: i <= j <= top ==> !pools[j].Spans(position)
        invariant asserted && forall j :: 0 <= j < |pools| ==>
          pools[j].current == if i < j <= top then pools[j].start else old(pools[j].current)
        decreases i
      {
        pool.current := pool.start;
        pool, i := pool.previous, i - 1;
        if pool == null {
          return;
        }
        if pool.start <= position <= pool.limit {
          asserted := position <= pool.current;
          pool.current := position;
          return;
        }
      }
    }

    /** Empties the first pool and gives the others back. */
    method Shrink(ghost owner: BumpPointerAllocator)
      requires owner.Valid() && owner.pools != [] && this == owner.pools[0]
      modifies owner, `current, `next, owner.pools`released
      ensures owner.Valid() && owner.pools == [this] && owner.blocks == []
      ensures owner.head == this && owner.IsCurrent(this)
      ensures forall i :: 1 <= i < |old(owner.pools)| ==> old(owner.pools)[i].released
    {
      current := start;
      DestroyOthers(owner.pools);
      owner.pools, owner.top, owner.blocks := [this], 0, [];
    }

    /** Gives the pools after this one back, reading none of them after that. */
    method DestroyOthers(ghost pools: seq<BumpPointerPool>)
      requires Linked(pools) && pools != [] && this == pools[0]
      modifies `next, pools`released
      ensures next == null && !released && forall i :: 1 <= i < |pools| ==> pools[i].released
    {
      ghost var i := 1;
      while next != null
        invariant 1 <= i <= |pools| && next == if i < |pools| then pools[i] else null
        invariant forall j :: 1 <= j < i ==> pools[j].released
        invariant forall j :: i <= j < |pools| ==> !pools[j].released
        invariant !released
        decreases |pools| - i
      {
        assert !next.released;
        var nextNext := next.next;
        next.released := true;
        next := nextNext;
        i := i + 1;
      }
    }

    static method EnsureCapacityCrossPool(from: BumpPointerPool, size: nat, pageSize: nat, allocate: nat -> nat,
                                          ghost owner: BumpPointerAllocator)
        returns (result: BumpPointerPool)
      requires owner.Valid() && owner.IsCurrent(from) && !from.HasRoom(size)
      requires 0 < size <= ADDRESS_LIMIT / 2 - POOL_OBJECT_SIZE && IsPowerOfTwo(pageSize)
      requires Offers(allocate, owner.pools)
      modifies owner, owner.pools
      ensures owner.Valid() && owner.IsCurrent(result) && result.current + size <= result.limit
      ensures owner.blocks == old(owner.blocks) && owner.head == old(owner.head)
      ensures old(owner.top) <= owner.top && old(owner.pools) <= owner.pools
      ensures forall i :: old(owner.top) <= i < owner.top < |owner.pools| ==>
        owner.pools[i].current + size > owner.pools[i].limit
      ensures owner.pools == old(owner.pools) || (owner.pools == old(owner.pools) + [result] && fresh(result))
      ensures fresh(result) ==> IsPoolSize(result.MemorySize(), size, pageSize) && result.current == result.start
    {
      var previousPool, pool;
      ghost var i;
      previousPool, pool, i := FindRoom(from, size, owner);
      if pool != null {
        owner.top := i + 1;
        return pool;
      }
      result := previousPool.Grow(size, pageSize, allocate, owner);
    }

    /** Walks from pool top towards the end of the chain to the first pool with room. */
    static method FindRoom(from: BumpPointerPool, size: nat, ghost owner: BumpPointerAllocator)
        returns (previousPool: BumpPointerPool, pool: BumpPointerPool?, ghost i: nat)
      requires owner.Valid() && owner.IsCurrent(from) && !from.HasRoom(size)
      ensures owner.top <= i < |owner.pools| && previousPool == owner.pools[i] && pool == previousPool.next
      ensures forall j :: owner.top <= j <= i ==> !owner.pools[j].HasRoom(size)
      ensures if i + 1 < |owner.pools| then pool == owner.pools[i + 1] && pool.HasRoom(size) else pool == null
    {
      i := owner.top;
      previousPool := from;
      pool := from.next;
      while pool != null && pool.current + size > pool.limit
        invariant owner.top <= i < |owner.pools| && previousPool == owner.pools[i] && pool == previousPool.next
        invariant forall j :: owner.top <= j <= i ==> !owner.pools[j].HasRoom(size)
        decreases |owner.pools| - i
      {
        previousPool := pool;
        pool := pool.next;
        i := i + 1;
      }
    }

    /** At the end of the chain, a new pool. */
    method Grow(size: nat, pageSize: nat, allocate: nat -> nat, ghost owner: BumpPointerAllocator)
        returns (pool: BumpPointerPool)
      requires owner.Valid() && owner.pools != [] && this == owner.pools[|owner.pools| - 1]
      requires size <= ADDRESS_LIMIT / 2 - POOL_OBJECT_SIZE && IsPowerOfTwo(pageSize) && Offers(allocate, owner.pools)
      modifies owner`pools, owner`top, `next
      ensures owner.Valid() && fresh(pool) && pool.HasRoom(size)
      ensures IsPoolSize(pool.MemorySize(), size, pageSize) && pool.current == pool.start
      ensures owner.pools == old(owner.pools) + [pool] && owner.top == |old(owner.pools)|
    {
      pool := Create(size, pageSize, allocate, owner.pools);
      Append(pool, owner.pools);
      owner.Extend(pool);
    }

    /** Links a new pool behind this one, the last in the chain. */
    method Append(pool: BumpPointerPool, ghost pools: seq<BumpPointerPool>)
      requires Linked(pools) && pools != [] && this == pools[|pools| - 1]
      requires pool !in pools && pool.next == null && !pool.released
      modifies `next, pool`previous, pool`place
      ensures Linked(pools + [pool])
    {
      next := pool;
      pool.previous := this;
      pool.place := |pools|;
    }
  }

  /** Neighbours in the chain point at each other, and no pool has been given back. */
  ghost predicate Linked(pools: seq<BumpPointerPool>)
    reads pools`next, pools`previous, pools`released, pools`place
  {
    && (forall i {:trigger pools[i]} :: 0 <= i < |pools| ==> pools[i].place == i)
    && (forall i {:trigger pools[i].next} :: 0 <= i < |pools| ==>
         pools[i].next == if i + 1 < |pools| then pools[i + 1] else null)
    && (forall i {:trigger pools[i].previous} :: 0 <= i < |pools| ==>
         pools[i].previous == if i > 0 then pools[i - 1] else null)
    && (forall i {:trigger pools[i].released} :: 0 <= i < |pools| ==> !pools[i].released)
  }

  ghost predicate Apart(pools: seq<BumpPointerPool>) {
    && (forall i {:trigger pools[i].limit} :: 0 <= i < |pools| ==> pools[i].start <= pools[i].limit)
    && (forall i, j {:trigger pools[i].limit, pools[j].start} :: 0 <= i < |pools| && 0 <= j < |pools| && i != j ==>
         pools[i].limit < pools[j].start || pools[j].limit < pools[i].start)
  }

  /** Each pool has handed out exactly the memory of the blocks in it. */
  ghost predicate Holding(pools: seq<BumpPointerPool>, blocks: seq<Block>)
    reads pools`current
  {
    forall i {:trigger pools[i].current} :: 0 <= i < |pools| ==>
      pools[i].current == pools[i].start + UsedIn(blocks, i) && pools[i].current <= pools[i].limit
  }

  /** Where the used part of each pool ends. */
  ghost function Ends(pools: seq<BumpPointerPool>): (ends: seq<nat>)
    reads pools
    ensures |ends| == |pools|
    ensures forall j {:trigger ends[j]} {:trigger pools[j].current} :: 0 <= j < |pools| ==> ends[j] == pools[j].current
  {
    seq(|pools|, j requires 0 <= j < |pools| reads pools => pools[j].current)
  }

  lemma EndsAre(pools: seq<BumpPointerPool>, blocks: seq<Block>, ends: seq<nat>)
    requires Holding(pools, blocks) && ends == Ends(pools)
    ensures EndsAsUsed(pools, blocks, ends)
  {
    forall j | 0 <= j < |pools| ensures ends[j] == pools[j].start + UsedIn(blocks, j) <= pools[j].limit {
      assert ends[j] == pools[j].current;
    }
  }

  /** Holding, of ends that have been noted. */
  ghost predicate EndsAsUsed(pools: seq<BumpPointerPool>, blocks: seq<Block>, ends: seq<nat>) {
    && |ends| == |pools|
    && forall j {:trigger ends[j]} :: 0 <= j < |pools| ==>
         ends[j] == pools[j].start + UsedIn(blocks, j) <= pools[j].limit
  }

  /** The pools behind the one with this position, up to pool top, are empty, and that one ends at the position;
      the rest of the chain is as before. */
  ghost predicate Unwound(pools: seq<BumpPointerPool>, before: seq<nat>, top: nat, position: nat, i: int)
    requires |before| == |pools|
    reads pools`current
  {
    && -1 <= i <= top < |pools|
    && (forall j :: i < j <= top ==> !pools[j].Spans(position))
    && (i >= 0 ==> pools[i].Spans(position))
    && (forall j {:trigger pools[j].current} {:trigger before[j]} :: 0 <= j < |pools| ==>
         pools[j].current == if j == i then position else if i < j <= top then pools[j].start else before[j])
  }

  /** Where block k starts: behind the earlier blocks of its pool. */
  function Address(pools: seq<BumpPointerPool>, blocks: seq<Block>, k: nat): nat
    requires k < |blocks| && blocks[k].pool < |pools|
  {
    pools[blocks[k].pool].start + UsedIn(blocks[..k], blocks[k].pool)
  }

  /** The blocks fit into the memory of their pools. */
  ghost predicate Fits(pools: seq<BumpPointerPool>, blocks: seq<Block>) {
    forall j {:trigger UsedIn(blocks, j)} :: 0 <= j < |pools| ==> pools[j].start + UsedIn(blocks, j) <= pools[j].limit
  }

  /** The end of the used part of pool j after unwinding from pool top to block k. */
  function AfterPop(pools: seq<BumpPointerPool>, blocks: seq<Block>, top: nat, k: nat, j: nat): nat
    requires k < |blocks| && j < |pools| && blocks[k].pool < |pools|
  {
    if j == blocks[k].pool then Address(pools, blocks, k)
    else if blocks[k].pool < j <= top then pools[j].start
    else pools[j].start + UsedIn(blocks, j)
  }

  ghost predicate EndsAfterPop(pools: seq<BumpPointerPool>, blocks: seq<Block>, top: nat, k: nat)
    requires k < |blocks| && blocks[k].pool < |pools|
    reads pools`current
  {
    forall j {:trigger pools[j].current} :: 0 <= j < |pools| ==> pools[j].current == AfterPop(pools, blocks, top, k, j)
  }

  /** The position is in no pool up to pool top. */
  ghost predicate Outside(pools: seq<BumpPointerPool>, top: nat, position: nat)
    requires top < |pools|
  {
    forall j :: 0 <= j <= top ==> position < pools[j].start || pools[j].limit < position
  }

  /** A position in a pool lies in the part of it that was in use. */
  ghost predicate InUsedPart(pools: seq<BumpPointerPool>, ends: seq<nat>, top: nat, position: nat)
    requires |ends| == |pools| && top < |pools|
  {
    forall j :: 0 <= j <= top && pools[j].start <= position <= pools[j].limit ==> position <= ends[j]
  }

  /** At most one pool spans a position. */
  lemma SpannedOnce(pools: seq<BumpPointerPool>, before: seq<nat>, top: nat, position: nat, i: int)
    requires Apart(pools) && |before| == |pools| && -1 <= i <= top < |pools| && (i >= 0 ==> pools[i].Spans(position))
    requires forall j :: i < j <= top ==> !pools[j].Spans(position)
    ensures InUsedPart(pools, before, top, position) <==> i == -1 || position <= before[i]
  {
    assert forall j :: 0 <= j < i && pools[j].Spans(position) ==>
      pools[j].limit < pools[i].start || pools[i].limit < pools[j].start;
  }

  lemma UnwoundToBlock(pools: seq<BumpPointerPool>, before: seq<nat>, blocks: seq<Block>, top: nat, position: nat,
                       i: int, k: nat)
    requires |before| == |pools| && Unwound(pools, before, top, position, i)
    requires Stacked(blocks, top) && k < |blocks| && Address(pools, blocks, k) == position
    requires EndsAsUsed(pools, blocks, before)
    requires forall j :: 0 <= j < |pools| ==> (pools[j].Spans(position) <==> j == blocks[k].pool)
    ensures Fits(pools, blocks)
    ensures i == blocks[k].pool && position <= before[i]
    ensures EndsAfterPop(pools, blocks, top, k)
  {
    UsedByFewer(blocks, k, blocks[k].pool);
    assert pools[blocks[k].pool].Spans(position);
    assert i >= 0 ==> pools[i].Spans(position);
    assert forall j :: 0 <= j < |pools| ==> before[j] <= pools[j].limit;
  }

  /** Blocks do not overlap, and each lies in the memory of its pool. */
  lemma BlocksApart(pools: seq<BumpPointerPool>, blocks: seq<Block>, top: nat, j: nat, k: nat)
    requires Apart(pools) && Fits(pools, blocks) && Stacked(blocks, top) && top < |pools| && j < k < |blocks|
    ensures Address(pools, blocks, j) + blocks[j].size <= Address(pools, blocks, k)
         || Address(pools, blocks, k) + blocks[k].size <= Address(pools, blocks, j)
    ensures pools[blocks[k].pool].start <= Address(pools, blocks, k)
         && Address(pools, blocks, k) + blocks[k].size <= pools[blocks[k].pool].limit
  {
    var p, q := pools[blocks[j].pool], pools[blocks[k].pool];
    UsedByFewer(blocks, j, blocks[j].pool);
    UsedByFewer(blocks, k, blocks[k].pool);
    assert p.start + UsedIn(blocks, blocks[j].pool) <= p.limit && q.start + UsedIn(blocks, blocks[k].pool) <= q.limit;
    assert blocks[..k][..j] == blocks[..j];
    UsedByFewer(blocks[..k], j, blocks[j].pool);
  }

  /** The one block at this position, which is then in the block's pool and no other; |blocks| for none. */
  lemma BlockAt(pools: seq<BumpPointerPool>, blocks: seq<Block>, top: nat, position: nat) returns (k: nat)
    requires Apart(pools) && Fits(pools, blocks) && Stacked(blocks, top) && top < |pools|
    ensures k <= |blocks|
    ensures forall j: nat :: j < |blocks| && Address(pools, blocks, j) == position ==> j == k
    ensures k < |blocks| ==> Address(pools, blocks, k) == position
    ensures k < |blocks| ==> forall i :: 0 <= i < |pools| ==> (pools[i].Spans(position) <==> i == blocks[k].pool)
  {
    if x: nat :| x < |blocks| && Address(pools, blocks, x) == position {
      k := x;
      forall j: nat | j < |blocks| && Address(pools, blocks, j) == position ensures j == k {
        if j < k { BlocksApart(pools, blocks, top, j, k); }
        if k < j { BlocksApart(pools, blocks, top, k, j); }
      }
      var pool := pools[blocks[k].pool];
      UsedByFewer(blocks, k, blocks[k].pool);
      assert pool.start + UsedIn(blocks, blocks[k].pool) <= pool.limit && pool.Spans(position);
    } else {
      k := |blocks|;
    }
  }

  /** The chain after unwinding to block k holds the earlier blocks. */
  lemma Popped(pools: seq<BumpPointerPool>, blocks: seq<Block>, top: nat, k: nat)
    requires Stacked(blocks, top) && top < |pools| && k < |blocks|
    requires Fits(pools, blocks)
    requires EndsAfterPop(pools, blocks, top, k)
    ensures Holding(pools, blocks[..k]) && Stacked(blocks[..k], blocks[k].pool)
  {
    forall j | 0 <= j < |pools|
      ensures pools[j].current == pools[j].start + UsedIn(blocks[..k], j) && pools[j].current <= pools[j].limit
    {
      UsedByFewer(blocks, k, j);
      if j < blocks[k].pool { UsedBelow(blocks, top, k, j); }
      if j > blocks[k].pool { UnusedPastTop(blocks[..k], blocks[k].pool, j); }
      if j > top { UnusedPastTop(blocks, top, j); }
    }
  }

  class BumpPointerAllocator {
    var head: BumpPointerPool?
    ghost var pools: seq<BumpPointerPool>
    ghost var top: nat // the position in the chain of the pool that the client uses
    ghost var blocks: seq<Block>

    ghost predicate Valid()
      reads this, pools
    {
      && (if pools == [] then head == null else head == pools[0])
      && (if pools == [] then top == 0 else top < |pools|)
      && Linked(pools) && Apart(pools) && Holding(pools, blocks)
      && Stacked(blocks, top) && (pools == [] ==> blocks == [])
    }

    ghost predicate IsCurrent(pool: BumpPointerPool)
      reads this
    {
      top < |pools| && pools[top] == pool
    }

    ghost function AddressOf(k: nat): nat
      requires Valid() && k < |blocks|
      reads this, pools
    {
      Address(pools, blocks, k)
    }

    lemma PoolsPastTopAreEmpty(i: nat)
      requires Valid() && top < i < |pools|
      ensures pools[i].current == pools[i].start
    {
      UnusedPastTop(blocks, top, i);
    }

    ghost method Extend(pool: BumpPointerPool)
      requires pools != [] && head == pools[0] && top < |pools| && Holding(pools, blocks) && Stacked(blocks, top)
      requires Linked(pools + [pool]) && Apart(pools + [pool]) && pool.current == pool.start
      modifies `top, `pools
      ensures Valid() && top == old(|pools|) && pools == old(pools) + [pool]
    {
      UnusedPastTop(blocks, top, |pools|);
      assert pool == (pools + [pool])[|pools|];
      top, pools := |pools|, pools + [pool];
    }

    /** Puts a block on top, once the current pool ends behind it. */
    ghost method Push(size: nat)
      requires top < |pools| && head == pools[0] && size > 0 && Linked(pools) && Apart(pools) && Stacked(blocks, top)
      requires forall j {:trigger pools[j].current} :: 0 <= j < |pools| ==>
        && pools[j].current == pools[j].start + UsedIn(blocks, j) + (if j == top then size else 0)
        && pools[j].current <= pools[j].limit
      modifies `blocks
      ensures Valid() && blocks == old(blocks) + [Block(top, size)]
    {
      ghost var before := blocks;
      blocks := before + [Block(top, size)];
      assert blocks[..|before|] == before;
    }

    /** Takes the block at this position and all later ones off, once the chain has been unwound to the position. */
    ghost method Free(before: seq<nat>, position: nat, i: int)
      requires |before| == |pools| && Unwound(pools, before, top, position, i) && EndsAsUsed(pools, blocks, before)
      requires head == pools[0] && Linked(pools) && Apart(pools) && Stacked(blocks, top)
      modifies `top, `blocks
      ensures forall k: nat :: k < |old(blocks)| && position == Address(pools, old(blocks), k) ==>
        Valid() && top == i && blocks == old(blocks)[..k] && position <= before[i]
    {
      assert Fits(pools, blocks) by { assert forall j :: 0 <= j < |pools| ==> before[j] <= pools[j].limit; }
      var k := BlockAt(pools, blocks, top, position);
      if k < |blocks| {
        UnwoundToBlock(pools, before, blocks, top, position, i, k);
        Popped(pools, blocks, top, k);
        top, blocks := blocks[k].pool, blocks[..k];
      }
    }

    constructor ()
      ensures Valid() && pools == [] && blocks == []
    {
      head, pools, top, blocks := null, [], 0, [];
    }

    method StartAllocator(pageSize: nat, allocate: nat -> nat) returns (pool: BumpPointerPool?)
      requires Valid() && blocks == [] && top == 0
      requires IsPowerOfTwo(pageSize) && BumpPointerPool.Offers(allocate, pools)
      modifies this
      ensures Valid() && blocks == [] && pool != null && IsCurrent(pool) && top == 0
      ensures old(pools) == [] ==>
        pool.current == pool.start && pool.MemorySize() == Max(MINIMUM_BUMP_POOL_SIZE, pageSize)
      ensures if old(pools) == [] then fresh(pool) && pools == [pool] else pool == old(head) && pools == old(pools)
    {
      if head == null {
        head := BumpPointerPool.Create(0, pageSize, allocate, pools);
        head.place := 0;
        pools := [head];
      }
      return head;
    }

    method StopAllocator()
      requires Valid()
      modifies this, pools
      ensures Valid() && blocks == [] && top == 0 && head == old(head) && |pools| <= 1
      ensures forall p :: p in old(pools) ==> p.released || [p] == pools
    {
      if head != null {
        ghost var before := pools;
        head.Shrink(this);
        assert forall p :: p in before ==> p == head || p in before[1..];
      }
    }
  }
}
