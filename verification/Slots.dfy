/** A flat buffer seen as consecutive slots of equal size. */
module Slots {

  lemma SlotFits(i: nat, capacity: nat, size: nat)
    requires i < capacity
    ensures (i + 1) * size <= capacity * size
    ensures (i + 1) * size == i * size + size
  {}

  function Slot<T>(mem: seq<T>, i: nat, capacity: nat, size: nat): (s: seq<T>)
    requires i < capacity && |mem| == capacity * size
    ensures |s| == size
  {
    SlotFits(i, capacity, size);
    mem[i * size..i * size + size]
  }

  lemma SlotsDisjoint(i: nat, j: nat, k: nat, size: nat)
    requires i != j && k < size
    ensures !(j * size <= i * size + k < j * size + size)
  {
    if i < j {
      SlotFits(i, j, size);
    } else {
      SlotFits(j, i, size);
    }
  }

  /** `mem` with `data` written at `at`; a write that does not fit is left out. */
  function Put<T>(mem: seq<T>, at: nat, data: seq<T>): (m: seq<T>)
    ensures |m| == |mem|
  {
    if at + |data| <= |mem| then mem[..at] + data + mem[at + |data|..] else mem
  }

  lemma PutOutside<T>(mem: seq<T>, at: nat, data: seq<T>, lo: nat, hi: nat)
    requires at + |data| <= |mem| && lo <= hi <= |mem| && (hi <= at || at + |data| <= lo)
    ensures Put(mem, at, data)[lo..hi] == mem[lo..hi]
  {}

  /** Writing the front of one slot changes that slot alone. */
  lemma PutOtherSlot<T>(mem: seq<T>, i: nat, data: seq<T>, capacity: nat, size: nat, j: nat)
    requires i < capacity && |data| <= size && |mem| == capacity * size && j < capacity && j != i
    ensures Slot(Put(mem, i * size, data), j, capacity, size) == Slot(mem, j, capacity, size)
  {
    hide Put;
    SlotFits(i, capacity, size);
    SlotFits(j, capacity, size);
    if i < j {
      SlotFits(i, j, size);
    } else {
      SlotFits(j, i, size);
    }
    PutOutside(mem, i * size, data, j * size, j * size + size);
  }

  lemma PutSlot<T>(mem: seq<T>, i: nat, data: seq<T>, capacity: nat, size: nat)
    requires i < capacity && |data| <= size && |mem| == capacity * size
    ensures i * size + |data| <= |mem|
    ensures data <= Slot(Put(mem, i * size, data), i, capacity, size)
    ensures forall j: nat :: j < capacity && j != i ==>
              Slot(Put(mem, i * size, data), j, capacity, size) == Slot(mem, j, capacity, size)
  {
    SlotFits(i, capacity, size);
    PutInside(mem, i * size, data, size);
    hide Put, Slot;
    forall j: nat | j < capacity && j != i
      ensures Slot(Put(mem, i * size, data), j, capacity, size) == Slot(mem, j, capacity, size)
    {
      PutOtherSlot(mem, i, data, capacity, size, j);
    }
  }

  lemma PutInside<T>(mem: seq<T>, at: nat, data: seq<T>, size: nat)
    requires |data| <= size && at + size <= |mem|
    ensures data <= Put(mem, at, data)[at..at + size]
  {}
}
