/**
 The ring buffer under the scanner. Head, tail and the empty flag refine a plain sequence, the
 contents in reading order, for every position of head and tail.
 */
module CircularBuffers {

  const CIRCULAR_BUFFER_MINIMUM_SIZE: nat := 0x80

  /** An index behind the head, taken modulo the capacity. */
  function Wrap(x: nat, capacity: nat): (slot: nat)
    requires x < 2 * capacity
    ensures slot < capacity
  {
    if x < capacity then x else x - capacity
  }

  lemma WrapIsModulo(x: nat, capacity: nat)
    requires x < 2 * capacity
    ensures x % capacity == Wrap(x, capacity)
  {
    if x >= capacity {
      ModuloDropsPeriod(x - capacity, capacity);
    }
  }

  lemma ModuloDropsPeriod(x: nat, c: nat)
    requires x < c
    ensures (x + c) % c == x
  {
  }

  /** A slot moved forward modulo the capacity, as the code computes it. */
  function Forward(x: nat, n: nat, capacity: nat): (slot: nat)
    requires x < capacity && n <= capacity
    ensures slot == Wrap(x + n, capacity)
  {
    WrapIsModulo(x + n, capacity);
    (x + n) % capacity
  }

  function SizeOf(head: nat, tail: nat, isEmpty: bool, capacity: nat): nat
    requires head < capacity && tail < capacity
  {
    if tail == head then (if isEmpty then 0 else capacity)
    else if head < tail then tail - head
    else capacity - head + tail
  }

  /** The logical contents of a ring: size elements from head on. */
  function ContentsOf<T>(ring: seq<T>, head: nat, size: nat): (s: seq<T>)
    requires head < |ring| && size <= |ring|
    ensures |s| == size
  {
    seq(size, i requires 0 <= i < size => ring[Wrap(head + i, |ring|)])
  }

  /** Moving the head forward drops from the front. */
  lemma ContentsDrop<T>(ring: seq<T>, head: nat, size: nat, n: nat)
    requires head < |ring| && n <= size <= |ring|
    ensures ContentsOf(ring, Wrap(head + n, |ring|), size - n) == ContentsOf(ring, head, size)[n..]
  {
    var c := |ring|;
    forall i | 0 <= i < size - n
      ensures ContentsOf(ring, Wrap(head + n, c), size - n)[i] == ContentsOf(ring, head, size)[n..][i]
    {
      assert Wrap(Wrap(head + n, c) + i, c) == Wrap(head + (n + i), c);
    }
  }

  /** Filling a stretch of free slots from the tail on appends it. */
  lemma ContentsAppend<T>(ring: seq<T>, ring': seq<T>, head: nat, size: nat, tail: nat, n: nat)
    requires head < |ring| == |ring'| && size + n <= |ring|
    requires tail == Wrap(head + size, |ring|) && tail + n <= |ring|
    requires forall i | 0 <= i < |ring| && !(tail <= i < tail + n) :: ring'[i] == ring[i]
    ensures ContentsOf(ring', head, size + n) == ContentsOf(ring, head, size) + ring'[tail..tail + n]
  {
    var c := |ring|;
    var extended := ContentsOf(ring, head, size) + ring'[tail..tail + n];
    forall i | 0 <= i < size + n ensures ContentsOf(ring', head, size + n)[i] == extended[i]
    {
      if i < size {
        assert !(tail <= Wrap(head + i, c) < tail + n);
      } else {
        assert Wrap(head + i, c) == tail + (i - size);
      }
    }
  }

  /** A shorter view from the same head is a prefix. */
  lemma ContentsPrefix<T>(ring: seq<T>, head: nat, size: nat, n: nat)
    requires head < |ring| && n <= size <= |ring|
    ensures ContentsOf(ring, head, n) == ContentsOf(ring, head, size)[..n]
  {
  }

  lemma WrapOfSlot(slot: nat, capacity: nat)
    requires slot < capacity
    ensures Wrap(slot, capacity) == slot
  {
  }

  /** Moving the tail on adds to the size, which starts over beyond the capacity. */
  lemma SizeAfterReserve(head: nat, held: nat, n: nat, capacity: nat)
    requires head < capacity && held <= capacity && 0 < n <= capacity - Wrap(head + held, capacity)
    ensures SizeOf(head, Wrap(Wrap(head + held, capacity) + n, capacity), false, capacity)
         == if held + n <= capacity then held + n else held + n - capacity
  {
  }

  lemma ContentsPush<T>(ring: seq<T>, head: nat, size: nat, item: T)
    requires head < |ring| && size < |ring|
    ensures ContentsOf(ring[Wrap(head + size, |ring|) := item], head, size + 1) == ContentsOf(ring, head, size) + [item]
  {
    var tail := Wrap(head + size, |ring|);
    var ring' := ring[tail := item];
    ContentsAppend(ring, ring', head, size, tail, 1);
    assert ring'[tail..tail + 1] == [item];
  }

  class CircularBuffer<T(0)> {
    var isEmpty: bool
    const capacity: nat
    const buffer: array<T>
    var head: nat
    var tail: nat

    ghost predicate Valid()
      reads this
    {
      && buffer.Length == capacity >= CIRCULAR_BUFFER_MINIMUM_SIZE
      && head < capacity && tail < capacity
      && (isEmpty ==> head == tail)
    }

    ghost function Contents(): (s: seq<T>)
      reads this, buffer
      requires Valid()
      ensures |s| == GetSize()
    {
      ContentsOf(buffer[..], head, GetSize())
    }

    constructor (capacity: nat)
      ensures Valid() && fresh(buffer) && Contents() == []
      ensures this.capacity == if capacity < 128 then 128 else capacity
    {
      isEmpty := true;
      var size := if capacity < CIRCULAR_BUFFER_MINIMUM_SIZE then CIRCULAR_BUFFER_MINIMUM_SIZE else capacity;
      this.capacity := size;
      buffer := new T[size];
      head := 0;
      tail := 0;
    }

    function GetSize(): (size: nat)
      reads this
      requires Valid()
      ensures size <= capacity && tail == Wrap(head + size, capacity) && (isEmpty <==> size == 0)
    {
      SizeOf(head, tail, isEmpty, capacity)
    }

    function GetSpace(): nat
      reads this
      requires Valid()
    {
      capacity - GetSize()
    }

    /** operator[]: the element at a logical index; indices beyond the ring go around it. */
    function At(index: nat): (item: T)
      reads this, buffer
      requires Valid()
      ensures index < GetSize() ==> item == Contents()[index]
    {
      assert index < GetSize() ==> (head + index) % capacity == Wrap(head + index, capacity) by {
        if index < GetSize() { WrapIsModulo(head + index, capacity); }
      }
      buffer[(head + index) % capacity]
    }

    method Push(item: T) returns (pushed: nat)
      requires Valid()
      modifies this, buffer
      ensures Valid()
      ensures pushed == if |old(Contents())| < capacity then 1 else 0
      ensures Contents() == old(Contents()) + if pushed == 1 then [item] else []
    {
      if isEmpty || tail != head {
        ContentsPush(buffer[..], head, GetSize(), item);
        ghost var ring := buffer[..][tail := item];
        buffer[tail] := item;
        assert buffer[..] == ring;
        tail := Forward(tail, 1, capacity);
        isEmpty := false;
        return 1;
      }
      return 0;
    }

    method PushMany(items: array<T>, size: nat) returns (pushed: nat)
      requires Valid() && size <= items.Length && items != buffer
      modifies this, buffer
      ensures Valid()
      ensures pushed == if size < old(GetSpace()) then size else old(GetSpace())
      ensures Contents() == old(Contents()) + items[..pushed]
    {
      hide Forward;
      var sizeToPush := GetSpace();
      if sizeToPush > size {
        sizeToPush := size;
      }
      ghost var held := GetSize();
      assert items[..0] == [];
      for i := 0 to sizeToPush
        invariant head == old(head) && isEmpty == old(isEmpty) && tail == Wrap(head + held + i, capacity)
        invariant ContentsOf(buffer[..], head, held + i) == old(Contents()) + items[..i]
      {
        ContentsPush(buffer[..], head, held + i, items[i]);
        assert items[..i + 1] == items[..i] + [items[i]];
        ghost var ring := buffer[..][tail := items[i]];
        buffer[tail] := items[i];
        assert buffer[..] == ring;
        tail := Forward(tail, 1, capacity);
      }
      if sizeToPush > 0 {
        isEmpty := false;
      }
      assert GetSize() == held + sizeToPush;
      return sizeToPush;
    }

    method Pop(items: array<T>, size: nat) returns (popped: nat)
      requires Valid() && size <= items.Length && items != buffer
      modifies this, items
      ensures Valid()
      ensures popped == if size < |old(Contents())| then size else |old(Contents())|
      ensures items[..popped] == old(Contents())[..popped] && items[popped..] == old(items[popped..])
      ensures Contents() == old(Contents())[popped..]
    {
      hide Forward;
      var sz := GetSize();
      var popSize := sz;
      if size < popSize {
        popSize := size;
      }
      ghost var held := Contents();
      for i := 0 to popSize
        invariant head == Wrap(old(head) + i, capacity) && tail == old(tail) && isEmpty == old(isEmpty)
        invariant forall k | 0 <= k < i :: items[k] == held[k]
        invariant forall k | i <= k < items.Length :: items[k] == old(items[k])
      {
        items[i] := buffer[head];
        head := Forward(head, 1, capacity);
      }
      ContentsDrop(buffer[..], old(head), sz, popSize);
      if popSize == sz {
        isEmpty := true;
      }
      return popSize;
    }

    /**
     Claims up to `size` slots behind the contents for the caller to fill: the returned stretch of
     the array, whose elements are the new end of the contents. If there is no room for it, all but the
     oldest elements are lost: the size grows beyond the capacity and starts over.
     */
    method Reserve(size: nat) returns (offset: nat, newSize: nat)
      requires Valid()
      modifies this
      ensures Valid() && offset == old(tail) && head == old(head)
      ensures newSize == if size < capacity - offset then size else capacity - offset
      ensures offset + newSize <= capacity
      ensures newSize <= old(GetSpace()) ==>
                GetSize() == old(GetSize()) + newSize
                && Contents() == old(Contents()) + buffer[offset..offset + newSize]
      ensures newSize > old(GetSpace()) ==>
                GetSize() == old(GetSize()) + newSize - capacity && Contents() == old(Contents())[..GetSize()]
    {
      hide Forward, SizeOf, ContentsOf, Wrap;
      var h := if head == 0 then capacity else 0;
      if h > tail {
        newSize := if size < h - tail then size else h - tail;
      } else {
        newSize := if size < capacity - tail then size else capacity - tail;
      }
      offset := tail;
      ghost var held, space := GetSize(), GetSpace();
      if newSize <= space {
        ContentsAppend(buffer[..], buffer[..], head, held, tail, newSize);
      } else {
        ContentsPrefix(buffer[..], head, held, held + newSize - capacity);
      }
      if newSize > 0 {
        SizeAfterReserve(head, held, newSize, capacity);
        isEmpty := false;
      } else {
        WrapOfSlot(tail, capacity);
      }
      tail := Forward(tail, newSize, capacity);
    }

    method Clear()
      requires Valid()
      modifies this
      ensures Valid() && Contents() == []
    {
      isEmpty := true;
      head := 0;
      tail := 0;
    }

    method Drop(size: nat) returns (dropped: nat)
      requires Valid()
      modifies this
      ensures Valid()
      ensures dropped == if size < |old(Contents())| then size else |old(Contents())|
      ensures Contents() == old(Contents())[dropped..]
    {
      hide Forward;
      var sz := GetSize();
      dropped := sz;
      if size < dropped {
        dropped := size;
      }
      ContentsDrop(buffer[..], head, sz, dropped);
      head := Forward(head, dropped, capacity);
      if dropped == sz {
        isEmpty := true;
      }
    }
  }
}
