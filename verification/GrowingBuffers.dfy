/** The vector and the double-ended queue of unsigned numbers, as the bounded queue test uses them: how their buffers
    grow and at which length an append crashes because the next buffer would be too large. */
module GrowingBuffers {

  import opened Basics

  /** The most elements of 4 bytes that a buffer may have room for. */
  const ELEMENT_LIMIT := 0xFFFF_FFFF / 4

  /** The largest capacity that a buffer gets by growing from nothing. */
  const LARGEST := 1_053_818_052

  function Expanded(capacity: nat): nat {
    Max(16, capacity + capacity / 4 + 1)
  }

  /** The capacity after so many expansions. */
  function Capacity(expansions: nat): nat {
    if expansions == 0 then 0 else Expanded(Capacity(expansions - 1))
  }

  lemma {:induction false} CapacityGrows(a: nat, b: nat)
    requires a < b
    ensures Capacity(a) < Capacity(b)
  {
    if a < b - 1 { CapacityGrows(a, b - 1); }
  }

  lemma NineExpansions(n: nat, a: nat, b: nat, c: nat, d: nat, e: nat, f: nat, g: nat, h: nat, i: nat) returns (m: nat)
    requires a == Expanded(Capacity(n)) && b == Expanded(a) && c == Expanded(b) && d == Expanded(c) && e == Expanded(d)
    requires f == Expanded(e) && g == Expanded(f) && h == Expanded(g) && i == Expanded(h)
    ensures Capacity(m) == i
  {
    assert Capacity(n + 1) == a && Capacity(n + 2) == b && Capacity(n + 3) == c;
    assert Capacity(n + 4) == d && Capacity(n + 5) == e && Capacity(n + 6) == f;
    assert Capacity(n + 7) == g && Capacity(n + 8) == h;
    m := n + 9;
  }

  lemma FirstExpansions(n: nat) returns (m: nat)
    requires Capacity(n) == 0
    ensures Capacity(m) == 6159
  {
    m := NineExpansions(n, 16, 21, 27, 34, 43, 54, 68, 86, 108);
    m := NineExpansions(m, 136, 171, 214, 268, 336, 421, 527, 659, 824);
    m := NineExpansions(m, 1031, 1289, 1612, 2016, 2521, 3152, 3941, 4927, 6159);
  }

  lemma SecondExpansions(n: nat) returns (m: nat)
    requires Capacity(n) == 6159
    ensures Capacity(m) == 2547973
  {
    m := NineExpansions(n, 7699, 9624, 12031, 15039, 18799, 23499, 29374, 36718, 45898);
    m := NineExpansions(m, 57373, 71717, 89647, 112059, 140074, 175093, 218867, 273584, 341981);
    m := NineExpansions(m, 427477, 534347, 667934, 834918, 1043648, 1304561, 1630702, 2038378, 2547973);
  }

  lemma ThirdExpansions(n: nat) returns (m: nat)
    requires Capacity(n) == 2547973
    ensures Capacity(m) == LARGEST
  {
    m := NineExpansions(n, 3184967, 3981209, 4976512, 6220641, 7775802, 9719753, 12149692, 15187116, 18983896);
    m := NineExpansions(m, 23729871, 29662339, 37077924, 46347406, 57934258, 72417823, 90522279, 113152849, 141441062);
    m := NineExpansions(m, 176801328, 221001661, 276252077, 345315097, 431643872, 539554841, 674443552, 843054441,
                        LARGEST);
  }

  lemma LargestIsReached() returns (n: nat)
    ensures Capacity(n) == LARGEST
  {
    n := FirstExpansions(0);
    n := SecondExpansions(n);
    n := ThirdExpansions(n);
  }

  ghost predicate IsCapacity(capacity: nat) {
    capacity <= ELEMENT_LIMIT && exists n :: capacity == Capacity(n)
  }

  /** The next buffer is too large exactly for a buffer of the largest capacity. */
  lemma OnlyLargestCannotGrow(capacity: nat)
    requires IsCapacity(capacity)
    ensures capacity <= LARGEST
    ensures Expanded(capacity) <= ELEMENT_LIMIT <==> capacity != LARGEST
    ensures Expanded(capacity) <= ELEMENT_LIMIT ==> IsCapacity(Expanded(capacity))
  {
    var n :| capacity == Capacity(n);
    var k := LargestIsReached();
    assert Capacity(n + 1) == Expanded(capacity) && Capacity(k + 1) == Expanded(LARGEST);
    if n < k {
      CapacityGrows(n, k);
      if n + 1 < k { CapacityGrows(n + 1, k); }
    }
    if k + 1 < n { CapacityGrows(k + 1, n); }
  }

  /** Room for so many elements, or none when there may not be so many. */
  method AllocateBuffer(capacity: nat) returns (buffer: array?<nat>)
    ensures buffer == null <==> capacity > ELEMENT_LIMIT
    ensures buffer != null ==> fresh(buffer) && buffer.Length == capacity
  {
    if capacity > ELEMENT_LIMIT { return null; }
    buffer := new nat[capacity];
  }

  /** Copies the elements from start to end, to the place at of another buffer. */
  method Move(source: array<nat>, start: nat, end: nat, target: array<nat>, at: nat)
    requires start <= end <= source.Length && at + (end - start) <= target.Length && source != target
    modifies target
    ensures target[at..at + (end - start)] == source[start..end]
    ensures target[..at] == old(target[..at]) && target[at + (end - start)..] == old(target[at + (end - start)..])
  {
    for i := 0 to end - start
      invariant target[at..at + i] == source[start..start + i]
      invariant target[..at] == old(target[..at]) && target[at + i..] == old(target[at + i..])
    {
      target[at + i] := source[start + i];
    }
  }

  class Vector {
    var buffer: array<nat>
    var size: nat

    ghost predicate Valid()
      reads this
    {
      size <= buffer.Length && IsCapacity(buffer.Length)
    }

    ghost function Contents(): seq<nat>
      reads this, buffer
      requires Valid()
    {
      buffer[..size]
    }

    constructor ()
      ensures Valid() && Contents() == [] && fresh(buffer)
    {
      buffer := new nat[0];
      size := 0;
      assert Capacity(0) == 0;
    }

    /** Appends, into a larger buffer if this one is full, and crashes when there may be no larger one. */
    method Append(value: nat) returns (crashed: bool)
      requires Valid()
      modifies this, buffer
      ensures Valid() && (buffer == old(buffer) || fresh(buffer))
      ensures crashed <==> |old(Contents())| == LARGEST
      ensures Contents() == if crashed then old(Contents()) else old(Contents()) + [value]
    {
      crashed := false;
      OnlyLargestCannotGrow(buffer.Length);
      if size == buffer.Length {
        crashed := ExpandCapacity(size + 1);
        if crashed { return; }
      }
      buffer[size] := value;
      size := size + 1;
    }

    method ExpandCapacity(minimum: nat) returns (crashed: bool)
      requires Valid() && minimum <= Expanded(buffer.Length)
      modifies `buffer
      ensures Valid() && Contents() == old(Contents())
      ensures crashed <==> old(buffer.Length) == LARGEST
      ensures if crashed then buffer == old(buffer) else fresh(buffer) && buffer.Length == Expanded(old(buffer.Length))
    {
      OnlyLargestCannotGrow(buffer.Length);
      crashed := ReserveCapacity(Max(minimum, Expanded(buffer.Length)));
    }

    /** Moves the elements into a buffer of this capacity, unless there is that much room. */
    method ReserveCapacity(capacity: nat) returns (crashed: bool)
      requires size <= buffer.Length <= ELEMENT_LIMIT
      modifies `buffer
      ensures size <= buffer.Length && buffer[..size] == old(buffer[..size])
      ensures crashed <==> capacity > ELEMENT_LIMIT
      ensures if crashed || capacity <= old(buffer.Length) then buffer == old(buffer)
        else fresh(buffer) && buffer.Length == capacity
    {
      if capacity <= buffer.Length { return false; }
      var larger := AllocateBuffer(capacity);
      if larger == null { return true; }
      Move(buffer, 0, size, larger, 0);
      buffer := larger;
      return false;
    }
  }

  /** The elements from start to end, around the last cell if end comes first. */
  ghost function Ring(cells: seq<nat>, start: nat, end: nat): seq<nat>
    requires start <= |cells| && end <= |cells|
  {
    if start <= end then cells[start..end] else cells[start..] + cells[..end]
  }

  lemma RingAppend(cells: seq<nat>, start: nat, end: nat, value: nat)
    requires start < |cells| && end < |cells| && |Ring(cells, start, end)| + 1 < |cells|
    ensures Ring(cells[end := value], start, if end == |cells| - 1 then 0 else end + 1)
      == Ring(cells, start, end) + [value]
  {
    var next := cells[end := value];
    if start <= end {
      assert next[start..end + 1] == cells[start..end] + [value];
    } else {
      assert next[start..] == cells[start..] && next[..end + 1] == cells[..end] + [value];
    }
  }

  /** A ring around the last cell keeps its elements when its first part moves to the end of more cells. */
  lemma RingMoved(cells: seq<nat>, start: nat, end: nat, larger: seq<nat>, newStart: nat)
    requires end < start <= |cells| && end < newStart <= |larger|
    requires larger[..end] == cells[..end] && larger[newStart..] == cells[start..]
    ensures Ring(larger, newStart, end) == Ring(cells, start, end)
  {}

  /** A ring buffer of which at least one slot is free once there are any. */
  class Deque {
    var buffer: array<nat>
    var start: nat
    var end: nat

    ghost predicate Valid()
      reads this
    {
      && IsCapacity(buffer.Length)
      && (if buffer.Length == 0 then start == end == 0 else start < buffer.Length && end < buffer.Length)
    }

    ghost function Contents(): seq<nat>
      reads this, buffer
      requires Valid()
    {
      Ring(buffer[..], start, end)
    }

    constructor ()
      ensures Valid() && Contents() == [] && fresh(buffer)
    {
      buffer := new nat[0];
      start, end := 0, 0;
      assert Capacity(0) == 0;
    }

    method Size() returns (n: nat)
      requires Valid()
      ensures n == |Contents()|
    {
      n := if start <= end then end - start else end + buffer.Length - start;
    }

    method IsEmpty() returns (empty: bool)
      requires Valid()
      ensures empty <==> Contents() == []
    {
      empty := start == end;
    }

    /** Expands the buffer when one slot is left, and crashes when there may be no larger one. */
    method ExpandCapacityIfNeeded() returns (crashed: bool)
      requires Valid()
      modifies `buffer, `start
      ensures Valid() && Contents() == old(Contents()) && (buffer == old(buffer) || fresh(buffer))
      ensures crashed <==> |old(Contents())| == LARGEST - 1
      ensures !crashed ==> |Contents()| + 1 < buffer.Length
    {
      OnlyLargestCannotGrow(buffer.Length);
      crashed := false;
      if start != 0 {
        if end + 1 != start { return; }
      } else if end != 0 {
        if end != buffer.Length - 1 { return; }
      } else if buffer.Length != 0 {
        return;
      }
      crashed := ExpandCapacity();
    }

    /** Moves the elements up to the end to the front of a larger buffer and the others to its back. */
    method MoveAroundEnd(larger: array<nat>) returns (newStart: nat)
      requires end < start < buffer.Length < larger.Length && larger != buffer
      modifies larger
      ensures start < newStart < larger.Length
      ensures Ring(larger[..], newStart, end) == Ring(buffer[..], start, end)
    {
      var capacity := buffer.Length;
      Move(buffer, 0, end, larger, 0);
      ghost var front := larger[..];
      assert front[..end] == buffer[..][..end];
      newStart := larger.Length - (capacity - start);
      Move(buffer, start, capacity, larger, newStart);
      assert larger[..newStart][..end] == front[..newStart][..end];
      assert larger[..][newStart..] == larger[newStart..newStart + (capacity - start)] == buffer[..][start..];
      RingMoved(buffer[..], start, end, larger[..], newStart);
    }

    method ExpandCapacity() returns (crashed: bool)
      requires Valid()
      modifies `buffer, `start
      ensures Valid() && Contents() == old(Contents())
      ensures crashed <==> old(buffer.Length) == LARGEST
      ensures if crashed then buffer == old(buffer) else fresh(buffer) && buffer.Length == Expanded(old(buffer.Length))
    {
      OnlyLargestCannotGrow(buffer.Length);
      var capacity := buffer.Length;
      var larger := AllocateBuffer(Expanded(capacity));
      if larger == null { return true; }
      if start <= end {
        Move(buffer, start, end, larger, start);
        assert larger[..][start..end] == buffer[..][start..end];
      } else {
        var newStart := MoveAroundEnd(larger);
        start := newStart;
      }
      buffer := larger;
      return false;
    }

    method Append(value: nat) returns (crashed: bool)
      requires Valid()
      modifies this, buffer
      ensures Valid() && (buffer == old(buffer) || fresh(buffer))
      ensures crashed <==> |old(Contents())| == LARGEST - 1
      ensures Contents() == if crashed then old(Contents()) else old(Contents()) + [value]
    {
      crashed := ExpandCapacityIfNeeded();
      if crashed { return; }
      RingAppend(buffer[..], start, end, value);
      buffer[end] := value;
      end := if end == buffer.Length - 1 then 0 else end + 1;
    }

    /** The first element, which must exist. */
    method TakeFirst() returns (crashed: bool, first: nat)
      requires Valid()
      modifies this
      ensures Valid() && buffer == old(buffer)
      ensures crashed <==> old(Contents()) == []
      ensures if crashed then Contents() == old(Contents()) else [first] + Contents() == old(Contents())
    {
      if start == end { return true, 0; }
      first := buffer[start];
      start := if start == buffer.Length - 1 then 0 else start + 1;
      return false, first;
    }
  }
}
