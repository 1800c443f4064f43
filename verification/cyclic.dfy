/** Going around a fixed number of slots, as the probes of the hash table and the scan of
    the poll backend do. */
module Cyclic {
  import opened Bits

  /** The slot `n` steps after `start`. */
  function Slot(start: nat, n: nat, slots: nat): (i: nat)
    requires start < slots && n <= slots
    ensures i < slots
  {
    if start + n < slots then start + n else start + n - slots
  }

  /** How many steps it takes from `start` to slot `i`. */
  function Distance(start: nat, i: nat, slots: nat): (d: nat)
    requires start < slots && i < slots
    ensures d < slots && Slot(start, d, slots) == i
  {
    if i >= start then i - start else i + slots - start
  }

  /** Distinct steps of one round visit distinct slots. */
  lemma SlotInjective(start: nat, m: nat, n: nat, slots: nat)
    requires start < slots && m < slots && n < slots
    ensures Slot(start, m, slots) == Slot(start, n, slots) ==> m == n
  {}

  lemma SlotIsModulo(start: nat, n: nat, slots: nat)
    requires start < slots && n <= slots
    ensures (start + n) % slots == Slot(start, n, slots)
  {
    if start + n < slots {
      ModUnique(start + n, slots, 0, start + n);
    } else {
      ModUnique(start + n, slots, 1, start + n - slots);
    }
  }
}
