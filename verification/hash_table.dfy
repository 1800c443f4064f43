/** The hash table as it is written: arrays updated in place inside probe and rehash
    loops. Every method is proved to compute the step function of the same name, so
    whatever holds of those over whole runs holds of this code. */
module HashTable {
  import opened Arrays
  import opened Bits
  import opened Cyclic
  import opened TableModel
  import opened TableProbes
  import opened TablePlace
  import opened TableRemove
  import opened TableRehash
  import opened TableSteps
  import opened TableRuns
  import opened TableWalk
  import Rounding

  /** `(hash + 1) & mask`. */
  function NextSlot(i: nat, slots: nat): nat
    requires slots > 0
  {
    And(i + 1, slots - 1)
  }

  lemma NextSlotWraps(home: nat, n: nat, slots: nat)
    requires IsPow2(slots) && home < slots && n < slots
    ensures NextSlot(Slot(home, n, slots), slots) == if n + 1 < slots then Slot(home, n + 1, slots) else home
  {
    var i := Slot(home, n, slots);
    MaskOfCapacity(i + 1, slots);
    if i + 1 == slots { ModUnique(i + 1, slots, 1, 0); } else { ModUnique(i + 1, slots, 0, i + 1); }
  }

  /** The probe loop of the rehash: the first `EMPTY` slot. */
  method FindEmpty(index: array<u32>, home: nat) returns (target: Option<nat>)
    requires IsPow2(index.Length) && home < index.Length
    ensures target == FirstEmpty(index[..], home, 0)
  {
    var hash := home;
    for n := 0 to index.Length
      invariant hash == if n < index.Length then Slot(home, n, index.Length) else home
      invariant FirstEmpty(index[..], home, 0) == FirstEmpty(index[..], home, n)
    {
      if index[hash] == EMPTY {
        return Some(hash);
      }
      NextSlotWraps(home, n, index.Length);
      hash := NextSlot(hash, index.Length);
    }
    return None;
  }

  /** The arrays hold the index and the used entries of `t`. */
  ghost predicate Backs<K, V>(index: array<u32>, entries: array<Entry<K, V>>, t: Table<K, V>)
    reads index, entries
  {
    && t.index == index[..] && IsPow2(index.Length)
    && |t.entries| <= entries.Length && t.entries == entries[..|t.entries|]
    && MarksInRange(t.index, |t.entries|)
  }

  /** The probe loop of get and delete: the slot of the live entry with this key. */
  method LookupLoop<K(==), V>(index: array<u32>, entries: array<Entry<K, V>>, key: K, start: nat, ghost t: Table<K, V>)
      returns (slot: Option<nat>)
    requires start < index.Length && Backs(index, entries, t)
    ensures slot == Lookup(t, key, start, 0)
  {
    var hash := start;
    for n := 0 to index.Length
      invariant hash == if n < index.Length then Slot(start, n, index.Length) else start
      invariant Lookup(t, key, start, 0) == Lookup(t, key, start, n)
    {
      var element := index[hash];
      assert element == t.index[hash];
      if element == EMPTY {
        return None;
      } else if element != DELETED {
        assert t.entries[element - 1] == entries[element - 1];
        if entries[element - 1].key == key {
          return Some(hash);
        }
      }
      NextSlotWraps(start, n, index.Length);
      hash := NextSlot(hash, index.Length);
    }
    return None;
  }

  /** The probe loop of set: the slot with this key, or the first slot free for it. */
  method ProbeLoop<K(==), V>(index: array<u32>, entries: array<Entry<K, V>>, key: K, start: nat, ghost t: Table<K, V>)
      returns (found: Option<nat>, target: Option<nat>)
    requires start < index.Length && Backs(index, entries, t)
    ensures found == Lookup(t, key, start, 0)
    ensures found.None? ==> target == FirstFree(t.index, start, 0)
  {
    var hash := start;
    target := None;
    for n := 0 to index.Length
      invariant hash == if n < index.Length then Slot(start, n, index.Length) else start
      invariant Lookup(t, key, start, 0) == Lookup(t, key, start, n)
      invariant FirstFree(t.index, start, 0) == if target.Some? then target else FirstFree(t.index, start, n)
    {
      var element := index[hash];
      assert element == t.index[hash];
      if element == DELETED {
        if target.None? { target := Some(hash); }
      } else if element == EMPTY {
        if target.None? { target := Some(hash); }
        return None, target;
      } else {
        assert t.entries[element - 1] == entries[element - 1];
        if entries[element - 1].key == key {
          return Some(hash), target;
        }
      }
      NextSlotWraps(start, n, index.Length);
      hash := NextSlot(hash, index.Length);
    }
    return None, target;
  }

  /** Fill entry `idx` and link it behind `tail`, the way both insertion and rehashing do. */
  method LinkEntry<K, V>(entries: array<Entry<K, V>>, ghost used: nat, idx: u32, tail: u32, e: Entry<K, V>, ghost t: Table<K, V>)
    requires used <= entries.Length && idx <= used && idx < entries.Length && idx < NONE
    requires t.entries == entries[..used] && t.tail == tail && (tail == NONE || (tail < used && tail != idx))
    requires used <= NONE
    modifies entries
    ensures entries[..if idx < used then used else used + 1] == PlacedEntries(t, idx, e.(prev := tail, next := NONE))
  {
    entries[idx] := e;
    if tail == NONE {
      entries[idx] := entries[idx].(prev := NONE, next := NONE);
    } else {
      entries[tail] := entries[tail].(next := idx);
      entries[idx] := entries[idx].(prev := tail, next := NONE);
    }
  }

  /** One round of `htable_rehash` for a live slot: probe for an `EMPTY` slot, copy, link. */
  method MoveEntry<K, V>(e: Entry<K, V>, index: array<u32>, entries: array<Entry<K, V>>, used: nat, head: u32, tail: u32,
                         ghost acc: Table<K, V>)
      returns (ok: bool, newHead: u32, newTail: u32)
    requires IsPow2(index.Length) && used < entries.Length && used < MAX_SLOTS - 2
    requires tail == NONE || tail < used
    requires acc == Table(index[..], entries[..used], [], acc.freedCap, used, head, tail, acc.order)
    modifies index, entries
    ensures index.Length > 0
    ensures ok <==> FirstEmpty(acc.index, Home(e.hash, index.Length), 0).Some?
    ensures ok ==>
      var slot := FirstEmpty(acc.index, Home(e.hash, index.Length), 0).value;
      Table(index[..], entries[..used + 1], [], acc.freedCap, used + 1, newHead, newTail, acc.order + [newTail])
      == Place(acc, slot, e.key, e.dup, e.data, e.hash, false)
  {
    var home := And(e.hash, index.Length - 1);
    MaskOfCapacity(e.hash, index.Length);
    newHead, newTail := head, tail;
    var target := FindEmpty(index, home);
    if target.None? {
      return false, newHead, newTail;
    }
    LinkEntry(entries, used, used, tail, e, acc);
    index[target.value] := used + 1;
    if tail == NONE { newHead := used; }
    newTail := used;
    ok := true;
  }

  lemma PlaceBounds<K, V>(h: K -> u64, src: Table<K, V>, acc: Table<K, V>, i: nat)
    requires Inv(h, src) && |src.index| <= MAX_SLOTS / 2 && i < |src.index|
    requires RehashInv(h, src, acc, i)
    ensures IsPow2(|acc.index|) && |acc.entries| < MAX_SLOTS - 2
    ensures acc.tail == NONE || acc.tail < |acc.entries|
    ensures Live(src.index[i]) ==> src.index[i] - 1 in src.order
    ensures Live(src.index[i]) ==> |acc.entries| < EntryCapacity(|acc.index|)
    ensures Live(src.index[i]) ==>
      FirstEmpty(acc.index, Home(src.entries[src.index[i] - 1].hash, |acc.index|), 0).Some?
  {
    if Live(src.index[i]) { NextCanBePlaced(h, src, acc, i); }
  }

  /** The arrays and counters of a rehash in progress hold `t`. */
  ghost predicate Building<K, V>(t: Table<K, V>, index: array<u32>, entries: array<Entry<K, V>>, used: nat, head: u32, tail: u32)
    reads index, entries
  {
    used <= entries.Length && t == Table(index[..], entries[..used], [], t.freedCap, used, head, tail, t.order)
  }

  /** One round of `htable_rehash`: slot `i` of the old index. */
  method RehashRound<K, V>(ghost h: K -> u64, ghost src: Table<K, V>, i: nat, ghost acc: Table<K, V>,
                           index: array<u32>, entries: array<Entry<K, V>>,
                           newIndex: array<u32>, newEntries: array<Entry<K, V>>, used: nat, head: u32, tail: u32)
      returns (ok: bool, used': nat, head': u32, tail': u32, ghost next: Table<K, V>)
    requires Inv(h, src) && |src.index| <= MAX_SLOTS / 2 && i < |src.index| && Backs(index, entries, src)
    requires newIndex.Length == 2 * index.Length && newEntries.Length == EntryCapacity(newIndex.Length)
    requires newIndex != index && newEntries != entries
    requires acc == Rehashed(src, i) && RehashInv(h, src, acc, i)
    requires Building(acc, newIndex, newEntries, used, head, tail)
    modifies newIndex, newEntries
    ensures ok
    ensures next == Rehashed(src, i + 1) && RehashInv(h, src, next, i + 1)
    ensures Building(next, newIndex, newEntries, used', head', tail')
  {
    hide Inv, RehashInv, RehashStep, IsPow2, Place, FirstEmpty;
    next := RoundFacts(h, src, i, acc);
    var element := index[i];
    assert element == src.index[i];
    ok, used', head', tail' := true, used, head, tail;
    if element != EMPTY && element != DELETED {
      assert src.entries[element - 1] == entries[element - 1];
      ok, head', tail' := MoveEntry(entries[element - 1], newIndex, newEntries, used, head, tail, acc);
      used' := used + 1;
    }
  }

  /** The loop of `htable_rehash`: the new arrays receive exactly the grown table, and
      the loop never runs out of entries or slots. */
  method RehashLoop<K, V>(ghost h: K -> u64, ghost src: Table<K, V>, index: array<u32>, entries: array<Entry<K, V>>,
                          newIndex: array<u32>, newEntries: array<Entry<K, V>>)
      returns (ok: bool, used: nat, head: u32, tail: u32)
    requires Inv(h, src) && |src.index| <= MAX_SLOTS / 2 && Backs(index, entries, src)
    requires newIndex.Length == 2 * index.Length && newEntries.Length == EntryCapacity(newIndex.Length)
    requires newIndex != index && newEntries != entries
    requires newIndex[..] == seq(newIndex.Length, _ => EMPTY)
    modifies newIndex, newEntries
    ensures ok && Building(Grown(src), newIndex, newEntries, used, head, tail)
  {
    hide Inv, RehashInv, RehashStep, Rehashed, IsPow2;
    RehashStarts(h, src);
    used, head, tail, ok := 0, NONE, NONE, true;
    ghost var acc := Blank<K, V>(newIndex.Length, src.freedCap);
    for i := 0 to index.Length
      invariant MarksInRange(src.index, |src.entries|) && 0 < |src.index|
      invariant acc == Rehashed(src, i) && RehashInv(h, src, acc, i)
      invariant Building(acc, newIndex, newEntries, used, head, tail)
    {
      ok, used, head, tail, acc := RehashRound(h, src, i, acc, index, entries, newIndex, newEntries, used, head, tail);
      if !ok {
        return;
      }
    }
  }

  lemma NextTable<K, V>(src: Table<K, V>, acc: Table<K, V>, i: nat)
    requires i < |src.index| && MarksInRange(src.index, |src.entries|)
    requires acc.freed == [] && |acc.entries| < MAX_SLOTS - 1 && 0 < |acc.index|
    ensures !Live(src.index[i]) ==> RehashStep(src, acc, i) == acc
    ensures Live(src.index[i]) ==>
      var e := src.entries[src.index[i] - 1];
      var r := FirstEmpty(acc.index, Home(e.hash, |acc.index|), 0);
      r.Some? ==> RehashStep(src, acc, i) == Place(acc, r.value, e.key, e.dup, e.data, e.hash, false)
  {}

  /** What one round computes, and the facts it rests on. */
  lemma RoundFacts<K, V>(h: K -> u64, src: Table<K, V>, i: nat, acc: Table<K, V>) returns (next: Table<K, V>)
    requires Inv(h, src) && |src.index| <= MAX_SLOTS / 2 && i < |src.index|
    requires MarksInRange(src.index, |src.entries|) && acc == Rehashed(src, i) && RehashInv(h, src, acc, i)
    ensures next == Rehashed(src, i + 1) && RehashInv(h, src, next, i + 1)
    ensures IsPow2(|acc.index|) && |acc.entries| < MAX_SLOTS - 2
    ensures acc.tail == NONE || acc.tail < |acc.entries|
    ensures !Live(src.index[i]) ==> next == acc
    ensures Live(src.index[i]) ==>
      && |acc.entries| < EntryCapacity(|acc.index|)
      && var e := src.entries[src.index[i] - 1];
      var r := FirstEmpty(acc.index, Home(e.hash, |acc.index|), 0);
      r.Some? && next == Place(acc, r.value, e.key, e.dup, e.data, e.hash, false)
  {
    hide Inv, RehashInv, RehashStep, Place, FirstEmpty;
    PlaceBounds(h, src, acc, i);
    next := RehashAdvances'(h, src, i, acc);
    NextTable(src, acc, i);
  }

  lemma RehashAdvances'<K, V>(h: K -> u64, src: Table<K, V>, i: nat, before: Table<K, V>) returns (acc: Table<K, V>)
    requires Inv(h, src) && |src.index| <= MAX_SLOTS / 2 && i < |src.index|
    requires MarksInRange(src.index, |src.entries|)
    requires RehashInv(h, src, before, i) && before == Rehashed(src, i) && |before.entries| < MAX_SLOTS - 1
    ensures RehashInv(h, src, acc, i + 1) && acc == Rehashed(src, i + 1) && acc == RehashStep(src, before, i)
  {
    acc := RehashAdvances(h, src, i, before);
  }

  class HTable<K(0,==), V(0)> {
    const hashOf: K -> u64
    var indexList: array<u32>
    var entries: array<Entry<K, V>>
    var deletedIndexList: array<u32>
    var count: nat
    var entryNextInsert: nat
    var deletedCount: nat
    var headIdx: u32
    var tailIdx: u32
    ghost var order: seq<u32>

    ghost function Repr(): set<object>
      reads this
    {
      {this, indexList, entries, deletedIndexList}
    }

    ghost predicate Shaped()
      reads Repr()
    {
      && indexList != deletedIndexList
      && entryNextInsert <= entries.Length == EntryCapacity(indexList.Length)
      && deletedCount <= deletedIndexList.Length
    }

    /** The abstract state: used entries and freed stack are the used prefixes of the arrays. */
    ghost function View(): Table<K, V>
      reads Repr()
      requires Shaped()
    {
      Table(indexList[..], entries[..entryNextInsert], deletedIndexList[..deletedCount], deletedIndexList.Length,
            count, headIdx, tailIdx, order)
    }

    ghost predicate Valid()
      reads Repr()
    {
      Shaped() && Inv(hashOf, View())
    }

    /** The table of `htable_create` once its allocations have succeeded. */
    constructor (capacity: nat, hashOf: K -> u64)
      requires IsPow2(capacity) && 2 <= capacity <= MAX_SLOTS
      ensures Valid() && fresh(Repr()) && this.hashOf == hashOf
      ensures View() == Blank(capacity, 0)
    {
      this.hashOf := hashOf;
      indexList := new u32[capacity](_ => EMPTY);
      entries := new Entry<K, V>[EntryCapacity(capacity)];
      deletedIndexList := new u32[0];
      count, entryNextInsert, deletedCount := 0, 0, 0;
      headIdx, tailIdx, order := NONE, NONE, [];
      new;
      assert indexList[..] == seq(capacity, _ => EMPTY);
      BlankInv<K, V>(hashOf, capacity, 0);
    }

    /** `htable_create`: `null` when an allocation fails. The capacity is a power of two. */
    static method Create(initialCap: u64, hashOf: K -> u64, structOk: bool, mem: Memory) returns (t: HTable?<K, V>)
      requires 2 <= initialCap <= Rounding.TWO_63
      ensures t == null <==> !(structOk && Rounding.RoundCeil2(initialCap) <= MAX_SLOTS && mem.indexOk && mem.entriesOk)
      ensures t != null ==>
        && fresh(t) && fresh(t.Repr()) && t.Valid() && t.hashOf == hashOf
        && t.View() == Blank(Rounding.RoundCeil2(initialCap), 0)
        && Contents(t.View()) == map[]
        && t.indexList.Length == Rounding.RoundCeil2(initialCap) && t.entries.Length == 3 * t.indexList.Length / 4
    {
      var capacity: nat := Rounding.RoundCeil2(initialCap);
      if !structOk || capacity > MAX_SLOTS || !mem.indexOk || !mem.entriesOk {
        return null;
      }
      assert Pow2(1) == 2;
      t := new HTable(capacity, hashOf);
      BlankInv<K, V>(hashOf, capacity, 0);
    }

    /** Where get and delete find the key. */
    method LookupSlot(key: K) returns (slot: Option<nat>)
      requires Valid()
      ensures slot == Lookup(View(), key, Home(hashOf(key), indexList.Length), 0)
    {
      var start := And(hashOf(key), indexList.Length - 1);
      MaskOfCapacity(hashOf(key), indexList.Length);
      slot := LookupLoop(indexList, entries, key, start, View());
    }

    /** Where set finds the key, or the slot to put it in. */
    method ProbeSlot(key: K) returns (found: Option<nat>, target: Option<nat>)
      requires Valid()
      ensures found == Lookup(View(), key, Home(hashOf(key), indexList.Length), 0)
      ensures found.None? ==> target == FirstFree(View().index, Home(hashOf(key), indexList.Length), 0)
    {
      var start := And(hashOf(key), indexList.Length - 1);
      MaskOfCapacity(hashOf(key), indexList.Length);
      found, target := ProbeLoop(indexList, entries, key, start, View());
    }

    /** `htable_get_with_flag`. */
    method GetWithFlag(key: K) returns (data: Option<V>)
      requires Valid()
      ensures data == if key in Contents(View()) then Some(Contents(View())[key]) else None
    {
      GetCorrect(hashOf, View(), key);
      var slot := LookupSlot(key);
      match slot
      case None => data := None;
      case Some(i) =>
        assert View().index[i] == indexList[i];
        assert View().entries[indexList[i] - 1] == entries[indexList[i] - 1];
        data := Some(entries[indexList[i] - 1].data);
    }

    /** `htable_grow`: twice the index, or nothing when an allocation fails. */
    method Grow(mem: Memory) returns (ok: bool)
      requires Valid()
      modifies this
      ensures Valid() && fresh(Repr() - old(Repr()))
      ensures ok <==> GrowthGranted(old(indexList.Length), mem)
      ensures ok ==> old(|View().index|) <= MAX_SLOTS / 2 && View() == Grown(old(View()))
      ensures !ok ==> View() == old(View()) && Repr() == old(Repr())
      ensures indexList.Length == (if ok then 2 * old(indexList.Length) else old(indexList.Length))
      ensures entries.Length == 3 * indexList.Length / 4
    {
      hide Inv, Grown, Bindings, KeysInOrder, ScanKeys;
      if indexList.Length > MAX_SLOTS / 2 || !mem.indexOk || !mem.entriesOk {
        return false;
      }
      ghost var src := View();
      GrowFacts(hashOf, src);
      GrownCorrect(hashOf, src);
      var newIndex := new u32[2 * indexList.Length](_ => EMPTY);
      var newEntries := new Entry<K, V>[EntryCapacity(2 * indexList.Length)];
      assert newIndex[..] == seq(newIndex.Length, _ => EMPTY);
      var used, head, tail;
      ok, used, head, tail := RehashLoop(hashOf, src, indexList, entries, newIndex, newEntries);
      if !ok {
        return false;
      }
      Install(newIndex, newEntries, used, head, tail, Grown(src));
    }

    /** Replace the arrays and counters by those of a finished rehash. */
    method Install(newIndex: array<u32>, newEntries: array<Entry<K, V>>, used: nat, head: u32, tail: u32, ghost t: Table<K, V>)
      requires Building(t, newIndex, newEntries, used, head, tail)
      requires newEntries.Length == EntryCapacity(newIndex.Length) && newIndex != deletedIndexList
      requires t.freedCap == deletedIndexList.Length && t.count == count
      modifies this
      ensures Shaped() && View() == t
      ensures indexList == newIndex && entries == newEntries && deletedIndexList == old(deletedIndexList)
    {
      indexList, entries := newIndex, newEntries;
      entryNextInsert, deletedCount, headIdx, tailIdx := used, 0, head, tail;
      order := t.order;
      assert deletedIndexList[..0] == [];
    }

    /** Take an entry slot off the freed stack, or the next unused one. */
    method TakeEntry(freedOk: bool) returns (idx: u32)
      requires Shaped() && entryNextInsert < NONE
      requires deletedCount > 0 || entryNextInsert < entries.Length
      requires deletedCount > 0 ==> deletedIndexList[deletedCount - 1] < entryNextInsert
      modifies this`deletedCount, this`entryNextInsert, this`deletedIndexList
      ensures Shaped() && fresh({deletedIndexList} - {old(deletedIndexList)})
      ensures idx == old(NextEntry(View()))
      ensures entryNextInsert == if idx < old(entryNextInsert) then old(entryNextInsert) else old(entryNextInsert) + 1
      ensures deletedIndexList[..deletedCount] ==
              old(if deletedCount > 0 then deletedIndexList[..deletedCount - 1] else [])
      ensures deletedIndexList.Length ==
              old(if deletedCount > 0 then ShrunkCapacity(deletedIndexList.Length, deletedCount - 1, freedOk)
                  else deletedIndexList.Length)
    {
      if deletedCount > 0 {
        deletedCount := deletedCount - 1;
        idx := deletedIndexList[deletedCount];
        if deletedIndexList.Length > 16 && deletedCount < deletedIndexList.Length / 4 {
          var newCapacity := if deletedCount < 4 then 4 else deletedIndexList.Length / 2;
          if freedOk {
            deletedIndexList := Reallocate(deletedIndexList, newCapacity);
          }
        }
      } else {
        idx := entryNextInsert;
        entryNextInsert := entryNextInsert + 1;
      }
    }

    /** Fill entry `idx`, link it at the end of the list and mark the slot. */
    method WriteEntry(target: nat, idx: u32, e: Entry<K, V>, ghost t: Table<K, V>)
      requires Shaped() && target < indexList.Length && |t.entries| < NONE
      requires idx <= |t.entries| && idx < entryNextInsert
      requires entryNextInsert == if idx < |t.entries| then |t.entries| else |t.entries| + 1
      requires t.index == indexList[..] && t.entries == entries[..|t.entries|] && t.tail == tailIdx
      requires tailIdx == NONE || (tailIdx < |t.entries| && tailIdx != idx)
      modifies entries, indexList, this`count, this`headIdx, this`tailIdx, this`order
      ensures Shaped() && count == old(count) + 1
      ensures indexList[..] == t.index[target := idx + 1]
      ensures entries[..entryNextInsert] == PlacedEntries(t, idx, e.(prev := t.tail, next := NONE))
      ensures headIdx == (if t.tail == NONE then idx else old(headIdx)) && tailIdx == idx
      ensures order == old(order) + [idx]
    {
      LinkEntry(entries, |t.entries|, idx, tailIdx, e, t);
      indexList[target] := idx + 1;
      if tailIdx == NONE { headIdx := idx; }
      tailIdx, order := idx, order + [idx];
      count := count + 1;
    }

    /** The end of `htable_set_with_flag`: take an entry, fill it, link it, mark the slot. */
    method InsertEntry(target: nat, key: K, dup: nat, data: V, rawHash: u64, mem: Memory)
      requires Valid() && CanPlace(hashOf, View(), target, key, rawHash)
      modifies Repr()
      ensures Shaped() && fresh(Repr() - old(Repr()))
      ensures old(NextEntry(View()) <= |View().entries| < MAX_SLOTS - 1)
      ensures View() == Place(old(View()), target, key, dup, data, rawHash, mem.freedOk)
    {
      hide Inv, CanPlace, PlacedEntries;
      ghost var t := View();
      InsertFacts(hashOf, t, target, key, rawHash);
      var idx := TakeEntry(mem.freedOk);
      WriteEntry(target, idx, Entry(key, dup, data, rawHash, NONE, NONE), t);
    }

    /** `entry->data = data`. */
    method OverwriteEntry(slot: nat, data: V)
      requires Shaped() && slot < indexList.Length && 1 <= indexList[slot] <= entryNextInsert && Live(indexList[slot])
      modifies entries
      ensures Shaped()
      ensures View() == Overwrite(old(View()), slot, data)
    {
      ghost var t := View();
      var e := indexList[slot] - 1;
      assert t.index[slot] == e + 1 && t.entries[e] == entries[e];
      entries[e] := entries[e].(data := data);
      assert entries[..entryNextInsert] == t.entries[e := t.entries[e].(data := data)];
    }

    /** `htable_set_with_flag` after the load test. */
    method StoreWithFlag(key: K, dup: nat, data: V, flagIn: bool, mem: Memory) returns (ok: bool, flag: bool)
      requires Valid() && !NeedsGrowth(View())
      modifies Repr()
      ensures Valid() && fresh(Repr() - old(Repr()))
      ensures var o := old(Store(hashOf, View(), key, data, dup, mem));
              View() == o.table && ok == o.ok && flag == o.flag.GetOr(flagIn)
    {
      hide Inv, CanPlace, Store, Place, Overwrite;
      ghost var t := View();
      StoreFacts(hashOf, t, key, data, dup, mem);
      var found, target := ProbeSlot(key);
      if found.Some? {
        assert t.index[found.value] == indexList[found.value];
        OverwriteEntry(found.value, data);
        return true, false;
      }
      if target.None? {
        return false, false;
      }
      if !mem.dupOk {
        return false, flagIn;
      }
      InsertEntry(target.value, key, dup, data, hashOf(key), mem);
      return true, true;
    }

    /** `htable_set_with_flag`: bind the key, or fail for lack of memory and change nothing.
        `flag` is what `*flag_created` holds afterwards, `flagIn` what it held before. */
    method SetWithFlag(key: K, dup: nat, data: V, flagIn: bool, mem: Memory) returns (ok: bool, flag: bool)
      requires Valid()
      modifies Repr()
      ensures Valid() && fresh(Repr() - old(Repr()))
      ensures var o := old(SetStep(hashOf, View(), key, data, dup, mem));
              View() == o.table && ok == o.ok && flag == o.flag.GetOr(flagIn)
      ensures Contents(View()) == if ok then old(Contents(View()))[key := data] else old(Contents(View()))
      ensures ok ==> flag == (key !in old(Contents(View())))
      ensures !ok ==> !(GrowthGranted(old(indexList.Length), mem) && mem.dupOk)
      ensures var full := old(entryNextInsert) >= 3 * old(indexList.Length) / 4
                          || 4 * (old(count) + 1) >= 3 * old(indexList.Length);
              var granted := 2 * old(indexList.Length) <= 0x1_0000_0000 && mem.indexOk && mem.entriesOk;
              && indexList.Length == (if full && granted then 2 * old(indexList.Length) else old(indexList.Length))
              && entries.Length == 3 * indexList.Length / 4
              && (full && !granted ==> !ok && !flag)
    {
      hide Inv, Store, Bindings, Grown;
      ghost var t := View();
      SetCorrect(hashOf, t, key, data, dup, mem);
      RoomAfterLoadTest(hashOf, t);
      SetContents(hashOf, t, key, data, dup, mem);
      if entryNextInsert >= entries.Length || (count + 1) * 4 >= indexList.Length * 3 {
        var grown := Grow(mem);
        if !grown {
          return false, false;
        }
      }
      assert entryNextInsert < entries.Length;
      ok, flag := StoreWithFlag(key, dup, data, flagIn, mem);
    }

    /** `htable_delete_with_flag`: `None` stands for `NULL` with the flag cleared; `freed` is
        the duplicate of the key that is freed. */
    method DeleteWithFlag(key: K, mem: Memory) returns (data: Option<V>, freed: Option<nat>)
      requires Valid()
      modifies Repr()
      ensures Valid() && fresh(Repr() - old(Repr()))
      ensures var o := old(DeleteStep(hashOf, View(), key, mem)); View() == o.table && data == o.data && freed == o.freed
      ensures data.Some? ==> key in old(Contents(View())) && data.value == old(Contents(View()))[key]
      ensures data.Some? ==> Contents(View()) == old(Contents(View())) - {key}
      ensures freed == if data.Some? then Some(old(Bindings(View())[key]).dup) else None
      ensures data.None? ==> View() == old(View()) && (key !in Contents(View()) || !mem.freedOk)
    {
      hide Inv, Bindings, Contents, DeleteStep, Remove, Lookup;
      ghost var t := View();
      DeleteCorrect(hashOf, t, key, mem);
      DeleteFacts(hashOf, t, key, mem);
      DeleteContents(hashOf, t, key, mem);
      var slot := LookupSlot(key);
      if slot.None? {
        return None, None;
      }
      assert t.index[slot.value] == indexList[slot.value];
      assert t.entries[indexList[slot.value] - 1] == entries[indexList[slot.value] - 1];
      var reserved := ReserveFreed(mem.freedOk);
      if !reserved {
        return None, None;
      }
      RemoveForgetsCapacity(t, slot.value, deletedIndexList.Length);
      data, freed := UnlinkEntry(slot.value);
    }

    /** Make room for one more freed entry: double the stack, starting at 16. */
    method ReserveFreed(reallocOk: bool) returns (ok: bool)
      requires Shaped()
      modifies this`deletedIndexList
      ensures Shaped() && fresh({deletedIndexList} - {old(deletedIndexList)})
      ensures ok <==> old(deletedCount < deletedIndexList.Length) || reallocOk
      ensures View() == if ok then old(View()).(freedCap := RoomyCapacity(deletedCount, old(deletedIndexList.Length)))
                        else old(View())
    {
      if deletedCount >= deletedIndexList.Length {
        if !reallocOk {
          return false;
        }
        deletedIndexList := Reallocate(deletedIndexList,
                                       if deletedIndexList.Length > 0 then 2 * deletedIndexList.Length else 16);
      }
      ok := true;
    }

    /** The end of `htable_delete_with_flag`: free the key, push the entry on the freed
        stack, unlink it, leave a tombstone. The entry itself keeps its key and data. */
    method UnlinkEntry(slot: nat) returns (data: Option<V>, freed: Option<nat>)
      requires Shaped() && slot < indexList.Length && 1 <= indexList[slot] <= entryNextInsert < NONE
      requires Live(indexList[slot]) && count > 0 && deletedCount < deletedIndexList.Length
      requires indexList[slot] - 1 in order
      requires entries[indexList[slot] - 1].next == NONE || entries[indexList[slot] - 1].next < entryNextInsert
      requires entries[indexList[slot] - 1].prev == NONE || entries[indexList[slot] - 1].prev < entryNextInsert
      modifies indexList, entries, deletedIndexList, this`deletedCount, this`count, this`headIdx, this`tailIdx, this`order
      ensures Shaped()
      ensures View() == Remove(old(View()), slot, deletedIndexList.Length)
      ensures data == Some(old(entries[indexList[slot] - 1].data))
      ensures freed == Some(old(entries[indexList[slot] - 1].dup))
    {
      hide Position, Without, UnlinkedEntries;
      var idx := indexList[slot] - 1;
      ghost var t := View();
      assert t.index[slot] == idx + 1 && t.entries[idx] == entries[idx];
      freed := Some(entries[idx].dup);
      data := Some(entries[idx].data);
      Unlink(idx);
      MarkDeleted(slot, idx);
      count := count - 1;
    }

    /** Take entry `idx` out of the iteration list. */
    method Unlink(idx: u32)
      requires Shaped() && idx < entryNextInsert < NONE && idx in order
      requires entries[idx].next == NONE || entries[idx].next < entryNextInsert
      requires entries[idx].prev == NONE || entries[idx].prev < entryNextInsert
      modifies entries, this`headIdx, this`tailIdx, this`order
      ensures Shaped()
      ensures entries[..entryNextInsert] == UnlinkedEntries(old(entries[..entryNextInsert]), idx)
      ensures headIdx == old(if idx == headIdx then entries[idx].next else headIdx)
      ensures tailIdx == old(if idx == tailIdx then entries[idx].prev else tailIdx)
      ensures order == Without(old(order), Position(old(order), idx))
    {
      if idx == headIdx { headIdx := entries[idx].next; }
      if idx == tailIdx { tailIdx := entries[idx].prev; }
      UnlinkLinks(entries, entryNextInsert, idx);
      order := Without(order, Position(order, idx));
    }

    method MarkDeleted(slot: nat, idx: u32)
      requires Shaped() && slot < indexList.Length && deletedCount < deletedIndexList.Length
      modifies indexList, deletedIndexList, this`deletedCount
      ensures Shaped()
      ensures indexList[..] == old(indexList[..])[slot := DELETED]
      ensures deletedIndexList[..deletedCount] == old(deletedIndexList[..deletedCount]) + [idx]
    {
      deletedIndexList[deletedCount] := idx;
      deletedCount := deletedCount + 1;
      indexList[slot] := DELETED;
    }

    /** The loop of `htable_free_with_cleanup`: which key duplicates it frees and which
        data it hands to the callback, in order. */
    method FreeWithCleanup(hasCallback: bool) returns (freedKeys: seq<nat>, callbacks: seq<V>)
      requires Valid()
      ensures freedKeys == OwnedKeys(View())
      ensures callbacks == if hasCallback then DataInOrder(View()) else []
    {
      hide Inv, Partition, OwnedKeys, DataInOrder, Links;
      ghost var t := View();
      ListLengths(hashOf, t);
      var idx := headIdx;
      freedKeys, callbacks := [], [];
      ghost var p := 0;
      while idx != NONE
        invariant p <= |order| && idx == if p < |order| then order[p] else NONE
        invariant freedKeys == OwnedKeys(t)[..p]
        invariant callbacks == if hasCallback then DataInOrder(t)[..p] else []
        decreases |order| - p
      {
        ListedEntry(hashOf, t, p);
        assert t.entries[idx] == entries[idx];
        freedKeys := freedKeys + [entries[idx].dup];
        if hasCallback { callbacks := callbacks + [entries[idx].data]; }
        idx := entries[idx].next;
        p := p + 1;
      }
    }

    /** The body of a foreach step that deletes the current entry if asked to; the walk can go on. */
    method VisitCurrent(drop: bool, reallocOk: bool, idx: u32, ghost was: seq<u32>, ghost keys: seq<K>, ghost deleted: seq<bool>)
        returns (gone: bool, next: u32)
      requires Valid() && idx != NONE && Walking(View(), was, keys, |deleted|, deleted, idx)
      modifies Repr()
      ensures Valid() && fresh(Repr() - old(Repr()))
      ensures |deleted| < |keys|
      ensures Walking(View(), was, keys, |deleted| + 1, deleted + [gone], next)
      ensures gone ==> drop
      ensures drop && reallocOk ==> gone
      ensures Contents(View()) == old(Contents(View())) - if gone then {keys[|deleted|]} else {}
    {
      hide Inv, Contents, Bindings, DeleteStep, Walking;
      ghost var t := View();
      WalkFacts(hashOf, t, was, keys, |deleted|, deleted, idx);
      assert t.entries[idx] == entries[idx];
      gone := false;
      if drop {
        var mem := Memory(true, true, true, reallocOk);
        DeleteContents(hashOf, t, entries[idx].key, mem);
        WalkDelete(hashOf, t, was, keys, |deleted|, deleted, idx, mem);
        var data, _ := DeleteWithFlag(entries[idx].key, mem);
        gone := data.Some?;
        assert gone ==> View().entries[idx] == entries[idx];
      }
      next := entries[idx].next;
    }

    /** A foreach whose body deletes the current entry when `drop` asks for it: every
        entry of the table is still visited exactly once, in order. A deletion can fail
        for lack of memory; `deleted` tells which ones took place. */
    method ForeachDeleting(drop: K -> bool, reallocOk: nat -> bool) returns (visited: seq<u32>, deleted: seq<bool>)
      requires Valid()
      modifies Repr()
      ensures Valid() && fresh(Repr() - old(Repr()))
      ensures visited == old(order) && |deleted| == |visited| == |old(KeysHeld(hashOf, View()))|
      ensures order == Kept(old(order), deleted)
      ensures Contents(View()) == old(Contents(View())) - Dropped(old(KeysHeld(hashOf, View())), deleted)
      ensures DropsAsAsked(old(KeysHeld(hashOf, View())), deleted, drop, reallocOk)
    {
      hide Inv, Contents, Progress, DropsAsAsked, Kept, Dropped, KeysHeld, Walking, Bindings;
      ghost var t0 := View();
      var idx := headIdx;
      visited, deleted := [], [];
      ProgressStarts(hashOf, t0, drop, reallocOk);
      while idx != NONE
        invariant Valid() && fresh(Repr() - old(Repr()))
        invariant Progress(hashOf, t0, View(), visited, deleted, idx, drop, reallocOk)
        invariant |visited| <= |t0.order|
        decreases |t0.order| - |visited|
      {
        ghost var t := View();
        ProgressFacts(hashOf, t0, t, visited, deleted, idx, drop, reallocOk);
        assert t.entries[idx] == entries[idx];
        var asked, granted := drop(entries[idx].key), reallocOk(|visited|);
        var gone, next := VisitCurrent(asked, granted, idx, t0.order, KeysHeld(hashOf, t0), deleted);
        ProgressStep(hashOf, t0, t, View(), visited, deleted, idx, gone, next, drop, reallocOk);
        visited, deleted, idx := visited + [idx], deleted + [gone], next;
      }
      ProgressEnds(hashOf, t0, View(), visited, deleted, drop, reallocOk);
    }
  }

  lemma ListLengths<K, V>(h: K -> u64, t: Table<K, V>)
    requires Inv(h, t)
    ensures Partition(t) && |OwnedKeys(t)| == |DataInOrder(t)| == |t.order|
    ensures t.head == if t.order == [] then NONE else t.order[0]
    ensures NONE !in t.order
  {}

  /** The entry at position `p` of the iteration list. */
  lemma ListedEntry<K, V>(h: K -> u64, t: Table<K, V>, p: nat)
    requires Inv(h, t) && p < |t.order|
    ensures Partition(t) && |OwnedKeys(t)| == |DataInOrder(t)| == |t.order|
    ensures t.order[p] < |t.entries|
    ensures var e := t.entries[t.order[p]];
            e.next == NextOf(t.order, p) && OwnedKeys(t)[p] == e.dup && DataInOrder(t)[p] == e.data
  {
    assert LinkedAt(t.order, t.entries, p);
  }

  /** Join the neighbours of entry `idx`; a link that is no entry number is `NONE`. */
  method UnlinkLinks<K, V>(entries: array<Entry<K, V>>, used: nat, idx: nat)
    requires idx < used <= entries.Length && used < NONE
    requires entries[idx].next == NONE || entries[idx].next < used
    requires entries[idx].prev == NONE || entries[idx].prev < used
    modifies entries
    ensures entries[..used] == UnlinkedEntries(old(entries[..used]), idx)
    ensures entries[idx].data == old(entries[idx].data)
  {
    if entries[idx].next != NONE {
      entries[entries[idx].next] := entries[entries[idx].next].(prev := entries[idx].prev);
    }
    if entries[idx].prev != NONE {
      entries[entries[idx].prev] := entries[entries[idx].prev].(next := entries[idx].next);
    }
  }

  lemma GrowFacts<K, V>(h: K -> u64, t: Table<K, V>)
    requires Inv(h, t)
    ensures IsPow2(|t.index|) && 2 <= |t.index| <= MAX_SLOTS && MarksInRange(t.index, |t.entries|)
  {}

  lemma InsertFacts<K, V>(h: K -> u64, t: Table<K, V>, target: nat, key: K, hash: u64)
    requires CanPlace(h, t, target, key, hash)
    ensures target < |t.index| && NextEntry(t) <= |t.entries| < MAX_SLOTS - 1
    ensures NextEntry(t) < EntryCapacity(|t.index|) && |t.entries| <= EntryCapacity(|t.index|)
    ensures t.tail == NONE || (t.tail < |t.entries| && t.tail != NextEntry(t))
    ensures t.freed != [] ==> NextEntry(t) < |t.entries|
  {
    NextEntryIsNew(t);
    if t.order != [] { assert t.order[|t.order| - 1] in t.order; }
  }

  lemma RemoveForgetsCapacity<K, V>(t: Table<K, V>, slot: nat, cap: nat)
    requires slot < |t.index| && 1 <= t.index[slot] <= |t.entries| && Live(t.index[slot])
    requires t.count > 0 && t.index[slot] - 1 in t.order
    ensures Remove(t.(freedCap := cap), slot, cap) == Remove(t, slot, cap)
  {}
}
