/** BloomFilter: two bits for each key, and union of filters. */
module BloomFilters {
  import opened Words
  import opened PackedSets

  const BITS_PER_POSITION: nat := 32

  /** The two places of a key: hash & keyMask and (hash >> 16) & keyMask, for a power of two as table size. */
  function Places(hash: nat, tableSize: nat): set<nat>
    requires tableSize > 0
  {
    {hash % tableSize, hash / 0x1_0000 % tableSize}
  }

  /** The places of a whole set of keys. */
  ghost function AllPlaces(keys: set<nat>, tableSize: nat): (r: set<nat>)
    requires tableSize > 0
    ensures forall p :: p in r <==> exists hash :: hash in keys && p in Places(hash, tableSize)
  {
    set hash, p | hash in keys && p in Places(hash, tableSize) :: p
  }

  class BloomFilter {
    const tableSize: nat
    const bitArray: array<Bits>
    ghost var keys: set<nat> // what has been added, here or to a filter that was added here

    /** The bits that are set are exactly the places of the keys. */
    ghost predicate Valid()
      reads this, bitArray
    {
      && tableSize > 0 && tableSize == BITS_PER_POSITION * bitArray.Length && Wide(BITS_PER_POSITION, bitArray[..])
      && Members(BITS_PER_POSITION, bitArray[..]) == AllPlaces(keys, tableSize)
    }

    constructor (tableSize: nat)
      requires tableSize > 0 && tableSize % BITS_PER_POSITION == 0
      ensures Valid() && keys == {} && this.tableSize == tableSize && fresh(bitArray)
    {
      this.tableSize, keys := tableSize, {};
      bitArray := new Bits[tableSize / BITS_PER_POSITION](_ => Zeros(BITS_PER_POSITION));
      new;
      ZerosAreEmpty(BITS_PER_POSITION, bitArray[..]);
      assert AllPlaces({}, tableSize) == {};
    }

    predicate IsBitSet(place: nat)
      requires Valid() && place < tableSize
      reads this, bitArray
      ensures IsBitSet(place) == (place in AllPlaces(keys, tableSize))
    {
      InMembers(BITS_PER_POSITION, bitArray[..], place);
      And(bitArray[place / BITS_PER_POSITION], Mask(BITS_PER_POSITION, place % BITS_PER_POSITION))
        != Zeros(BITS_PER_POSITION)
    }

    /** No false negatives, and a false positive only where other keys have taken both places. */
    predicate MayContain(hash: nat)
      requires Valid()
      reads this, bitArray
      ensures MayContain(hash) <==> Places(hash, tableSize) <= AllPlaces(keys, tableSize)
      ensures hash in keys ==> MayContain(hash)
    {
      IsBitSet(hash % tableSize) && IsBitSet(hash / 0x1_0000 % tableSize)
    }

    /** When a filter with one key denies another hash: the whole hash picks its first place, and the half from bit 16
        up the second. In a table of at most 2^16 bits only the low half counts for the first place. */
    lemma OneKeyDenies(high: nat, low: nat, otherHigh: nat, otherLow: nat)
      requires Valid() && keys == {high * 0x1_0000 + low} && low < 0x1_0000 && otherLow < 0x1_0000
      ensures var hash, other := high * 0x1_0000 + low, otherHigh * 0x1_0000 + otherLow;
        var places := {hash % tableSize, high % tableSize};
        !MayContain(other) <==> other % tableSize !in places || otherHigh % tableSize !in places
      ensures 0x1_0000 % tableSize == 0 ==>
        var places := {low % tableSize, high % tableSize};
        !MayContain(otherHigh * 0x1_0000 + otherLow)
        <==> otherLow % tableSize !in places || otherHigh % tableSize !in places
    {
      var hash, other := high * 0x1_0000 + low, otherHigh * 0x1_0000 + otherLow;
      Joined(0x1_0000, high, low);
      Joined(0x1_0000, otherHigh, otherLow);
      assert AllPlaces({hash}, tableSize) == Places(hash, tableSize);
      assert Places(other, tableSize) == {other % tableSize, otherHigh % tableSize};
      if 0x1_0000 % tableSize == 0 {
        LowHalf(high, low, tableSize);
        LowHalf(otherHigh, otherLow, tableSize);
      }
    }

    method SetBit(place: nat)
      requires Wide(BITS_PER_POSITION, bitArray[..]) && place < BITS_PER_POSITION * bitArray.Length
      modifies bitArray
      ensures Wide(BITS_PER_POSITION, bitArray[..])
      ensures Members(BITS_PER_POSITION, bitArray[..]) == Members(BITS_PER_POSITION, old(bitArray[..])) + {place}
    {
      var index, k := place / BITS_PER_POSITION, place % BITS_PER_POSITION;
      ghost var before := bitArray[..];
      BitUpdate(BITS_PER_POSITION, before, place, true);
      assert Or(bitArray[index], Mask(BITS_PER_POSITION, k)) == bitArray[index][k := true];
      bitArray[index] := Or(bitArray[index], Mask(BITS_PER_POSITION, k));
      assert bitArray[..] == before[index := before[index][k := true]];
    }

    method Add(hash: nat)
      requires Valid()
      modifies `keys, bitArray
      ensures Valid() && keys == old(keys) + {hash}
    {
      SetBit(hash % tableSize);
      SetBit(hash / 0x1_0000 % tableSize);
      keys := keys + {hash};
      UnionOfPlaces(old(keys), {hash}, tableSize);
      assert AllPlaces({hash}, tableSize) == Places(hash, tableSize);
    }

    /** Afterwards this filter answers for the keys of both. */
    method AddFilter(other: BloomFilter)
      requires Valid() && other.Valid() && tableSize == other.tableSize && (other == this || other.bitArray != bitArray)
      modifies `keys, bitArray
      ensures Valid() && keys == old(keys) + old(other.keys)
    {
      OrWords(bitArray, other.bitArray);
      UnionOfPlaces(keys, other.keys, tableSize);
      keys := keys + other.keys;
    }

    method Clear()
      requires Valid()
      modifies `keys, bitArray
      ensures Valid() && keys == {}
    {
      forall j | 0 <= j < bitArray.Length { bitArray[j] := Zeros(BITS_PER_POSITION); }
      keys := {};
      ZerosAreEmpty(BITS_PER_POSITION, bitArray[..]);
      assert AllPlaces({}, tableSize) == {};
    }
  }

  method OrWords(a: array<Bits>, b: array<Bits>)
    requires a.Length == b.Length && Wide(BITS_PER_POSITION, a[..]) && Wide(BITS_PER_POSITION, b[..])
    modifies a
    ensures Wide(BITS_PER_POSITION, a[..])
    ensures Members(BITS_PER_POSITION, a[..])
      == old(Members(BITS_PER_POSITION, a[..]) + Members(BITS_PER_POSITION, b[..]))
  {
    ghost var was, other := a[..], b[..];
    for i := 0 to a.Length
      invariant forall j :: 0 <= j < i ==> a[j] == Or(was[j], other[j])
      invariant forall j :: i <= j < a.Length ==> a[j] == was[j] && b[j] == other[j]
    {
      a[i] := Or(a[i], b[i]);
    }
    OrIsUnion(was, other, a[..]);
  }

  lemma UnionOfPlaces(a: set<nat>, b: set<nat>, tableSize: nat)
    requires tableSize > 0
    ensures AllPlaces(a + b, tableSize) == AllPlaces(a, tableSize) + AllPlaces(b, tableSize)
  {}

  lemma OrIsUnion(a: seq<Bits>, b: seq<Bits>, r: seq<Bits>)
    requires Wide(BITS_PER_POSITION, a) && Wide(BITS_PER_POSITION, b) && |a| == |b| == |r|
    requires forall j :: 0 <= j < |r| ==> r[j] == Or(a[j], b[j])
    ensures Members(BITS_PER_POSITION, r) == Members(BITS_PER_POSITION, a) + Members(BITS_PER_POSITION, b)
  {
    forall i: nat
      ensures i in Members(BITS_PER_POSITION, a) + Members(BITS_PER_POSITION, b) <==> Has(BITS_PER_POSITION, r, i)
    {
      InMembers(BITS_PER_POSITION, a, i);
      InMembers(BITS_PER_POSITION, b, i);
    }
    MembersAre(BITS_PER_POSITION, r, Members(BITS_PER_POSITION, a) + Members(BITS_PER_POSITION, b));
  }
}
