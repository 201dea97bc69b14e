/** Positions of a ring buffer index that starts at 0 and moves by (index + 1) % size. */
module RingIndex {

  /** The index after k moves. */
  function Slot(k: nat, size: nat): (i: nat)
    requires size >= 1
    ensures i < size
  {
    if k == 0 then 0 else (Slot(k - 1, size) + 1) % size
  }

  lemma NextIndex(i: nat, size: nat)
    requires i < size
    ensures (i + 1) % size == if i + 1 == size then 0 else i + 1
  {
  }

  lemma {:induction false} SlotAhead(j: nat, d: nat, size: nat)
    requires d < size
    ensures Slot(j + d, size) == if Slot(j, size) + d < size then Slot(j, size) + d else Slot(j, size) + d - size
  {
    if d > 0 {
      SlotAhead(j, d - 1, size);
      NextIndex(Slot(j + d - 1, size), size);
    }
  }

  /** Two positions less than the size apart are different slots. */
  lemma SlotsDiffer(j: nat, k: nat, size: nat)
    requires j < k < j + size
    ensures Slot(j, size) != Slot(k, size)
  {
    SlotAhead(j, k - j, size);
  }
}
