/** The calls of the hash table as functions on its state, and what each one does
    to the map the table stands for. Every allocation may fail. */
module TableSteps {
  import opened Bits
  import opened Cyclic
  import opened TableModel
  import opened TableProbes
  import opened TablePlace
  import opened TableRemove
  import opened TableRehash

  /** Which allocations of one call succeed: the index and the entries of a larger
      table, the duplicate of the key, and the resizing of the freed stack. */
  datatype Memory = Memory(indexOk: bool, entriesOk: bool, dupOk: bool, freedOk: bool)

  predicate NeedsGrowth<K, V>(t: Table<K, V>) {
    |t.entries| >= EntryCapacity(|t.index|) || (t.count + 1) * 4 >= |t.index| * 3
  }

  predicate GrowthGranted(slots: nat, mem: Memory) {
    slots <= MAX_SLOTS / 2 && mem.indexOk && mem.entriesOk
  }

  /** `flag` is what the call stores through `flag_created`, or nothing. */
  datatype SetOutcome<K, V> = SetOutcome(table: Table<K, V>, ok: bool, flag: Option<bool>)

  /** The state in which the probe starts. */
  ghost function Prepared<K, V>(h: K -> u64, t: Table<K, V>): Table<K, V>
    requires Inv(h, t) && |t.index| <= MAX_SLOTS / 2
  {
    if NeedsGrowth(t) then Grown(t) else t
  }

  /** After the load test there is an entry to use and a slot to put it in, whether
      or not the table had to grow: one doubling restores the load condition. */
  lemma RoomAfterLoadTest<K, V>(h: K -> u64, t: Table<K, V>)
    requires Inv(h, t)
    ensures !NeedsGrowth(t) ==> |t.entries| < EntryCapacity(|t.index|) < |t.index|
    ensures |t.index| <= MAX_SLOTS / 2 ==>
      var t1 := Prepared(h, t);
      && Inv(h, t1) && !NeedsGrowth(t1)
      && |t1.entries| < 3 * |t1.index| / 4 && 4 * (t1.count + 1) < 3 * |t1.index|
      && |t1.index| == (if |t.entries| >= 3 * |t.index| / 4 || 4 * (t.count + 1) >= 3 * |t.index| then 2 * |t.index|
                        else |t.index|)
      && Bindings(t1) == Bindings(t) && t1.count == t.count && t1.freedCap == t.freedCap
  {
    if |t.index| <= MAX_SLOTS / 2 && NeedsGrowth(t) {
      GrownCorrect(h, t);
      assert t.count <= |t.entries| <= EntryCapacity(|t.index|);
    }
  }

  /** The probe and what follows it, on a table with room. */
  ghost function Store<K, V>(h: K -> u64, t: Table<K, V>, key: K, data: V, dup: nat, mem: Memory): SetOutcome<K, V>
    requires Inv(h, t) && !NeedsGrowth(t)
  {
    var home := Home(h(key), |t.index|);
    match Lookup(t, key, home, 0)
    case Some(slot) => SetOutcome(Overwrite(t, slot, data), true, Some(false))
    case None =>
      match FirstFree(t.index, home, 0)
      case None => SetOutcome(t, false, Some(false))
      case Some(slot) =>
        NextEntryIsNew(t);
        if !mem.dupOk then SetOutcome(t, false, None)
        else SetOutcome(Place(t, slot, key, dup, data, h(key), mem.freedOk), true, Some(true))
  }

  /** `htable_set_with_flag`. `dup` names the duplicate of the key, should one be made. */
  ghost function SetStep<K, V>(h: K -> u64, t: Table<K, V>, key: K, data: V, dup: nat, mem: Memory): SetOutcome<K, V>
    requires Inv(h, t)
  {
    RoomAfterLoadTest(h, t);
    if NeedsGrowth(t) then
      if GrowthGranted(|t.index|, mem) then Store(h, Prepared(h, t), key, data, dup, mem)
      else SetOutcome(t, false, Some(false))
    else Store(h, t, key, data, dup, mem)
  }

  /** Lookup decides whether the key is bound, and finds the entry that binds it. */
  lemma LookupDecides<K, V>(h: K -> u64, t: Table<K, V>, key: K)
    requires Inv(h, t)
    ensures var r := Lookup(t, key, Home(h(key), |t.index|), 0);
            && (r.Some? <==> key in Bindings(t))
            && (r.None? ==> Unbound(t, key))
            && (r.Some? ==>
                  var e := t.index[r.value] - 1;
                  && e in t.order && e < |t.entries| && t.entries[e].key == key
                  && Bindings(t)[key] == Binding(t.entries[e].dup, t.entries[e].data))
  {
    LookupExact(h, t, key);
    match Lookup(t, key, Home(h(key), |t.index|), 0) {
      case None =>
        if key in Bindings(t) {
          var e := BoundKeyIsHeld(t, key);
        }
      case Some(slot) =>
        HeldKeyIsBound(t, t.index[slot] - 1);
    }
  }

  lemma StoreNew<K, V>(h: K -> u64, t: Table<K, V>, key: K, data: V, dup: nat, mem: Memory)
    requires Inv(h, t) && !NeedsGrowth(t) && key !in Bindings(t)
    ensures var o := Store(h, t, key, data, dup, mem);
            if mem.dupOk then
              && o.ok && o.flag == Some(true) && Inv(h, o.table)
              && Bindings(o.table) == Bindings(t)[key := Binding(dup, data)]
              && |o.table.index| == |t.index|
            else
              o == SetOutcome(t, false, None)
  {
    var home := Home(h(key), |t.index|);
    LookupDecides(h, t, key);
    FreeSlotExists(t, home);
    if mem.dupOk {
      PlaceCorrect(h, t, FirstFree(t.index, home, 0).value, key, dup, data, h(key), mem.freedOk);
    }
  }

  lemma StoreBound<K, V>(h: K -> u64, t: Table<K, V>, key: K, data: V, dup: nat, mem: Memory)
    requires Inv(h, t) && !NeedsGrowth(t) && key in Bindings(t)
    ensures var o := Store(h, t, key, data, dup, mem);
            && o.ok && o.flag == Some(false) && Inv(h, o.table)
            && Bindings(o.table) == Bindings(t)[key := Binding(Bindings(t)[key].dup, data)]
            && |o.table.index| == |t.index|
  {
    LookupDecides(h, t, key);
    OverwriteCorrect(h, t, Lookup(t, key, Home(h(key), |t.index|), 0).value, data);
  }

  lemma StoreCorrect<K, V>(h: K -> u64, t: Table<K, V>, key: K, data: V, dup: nat, mem: Memory)
    requires Inv(h, t) && !NeedsGrowth(t)
    ensures var o := Store(h, t, key, data, dup, mem);
            && Inv(h, o.table)
            && (o.ok <==> key in Bindings(t) || mem.dupOk)
            && (!o.ok ==> o.table == t && o.flag == None)
            && (o.ok ==>
                  && o.flag == Some(key !in Bindings(t))
                  && Bindings(o.table) ==
                     Bindings(t)[key := Binding(if key in Bindings(t) then Bindings(t)[key].dup else dup, data)])
            && |o.table.index| == |t.index|
  {
    if key in Bindings(t) {
      StoreBound(h, t, key, data, dup, mem);
    } else {
      StoreNew(h, t, key, data, dup, mem);
    }
  }

  /** How a call to set changes the bindings, and when it fails: only for lack of memory. */
  lemma SetCorrect<K, V>(h: K -> u64, t: Table<K, V>, key: K, data: V, dup: nat, mem: Memory)
    requires Inv(h, t)
    ensures var o := SetStep(h, t, key, data, dup, mem);
            && Inv(h, o.table)
            && (o.ok <==> (NeedsGrowth(t) ==> GrowthGranted(|t.index|, mem)) && (key in Bindings(t) || mem.dupOk))
            && (!o.ok ==> Bindings(o.table) == Bindings(t))
            && (o.ok ==>
                  && o.flag == Some(key !in Bindings(t))
                  && Bindings(o.table) ==
                     Bindings(t)[key := Binding(if key in Bindings(t) then Bindings(t)[key].dup else dup, data)])
            && (o.flag == Some(true) ==> o.ok)
            && |o.table.index| ==
                 (if NeedsGrowth(t) && GrowthGranted(|t.index|, mem) then 2 * |t.index| else |t.index|)
    ensures var o := SetStep(h, t, key, data, dup, mem);
            var full := |t.entries| >= 3 * |t.index| / 4 || 4 * (t.count + 1) >= 3 * |t.index|;
            var granted := 2 * |t.index| <= 0x1_0000_0000 && mem.indexOk && mem.entriesOk;
            && |o.table.index| == (if full && granted then 2 * |t.index| else |t.index|)
            && (o.ok <==> (full ==> granted) && (key in Bindings(t) || mem.dupOk))
            && (!o.ok ==> o.flag == if full && !granted then Some(false) else None)
  {
    RoomAfterLoadTest(h, t);
    if NeedsGrowth(t) {
      if GrowthGranted(|t.index|, mem) {
        GrownCorrect(h, t);
        StoreCorrect(h, Prepared(h, t), key, data, dup, mem);
      }
    } else {
      StoreCorrect(h, t, key, data, dup, mem);
    }
  }

  /** `data` is what the call returns; `None` stands for `NULL` with the flag cleared.
      `freed` is the duplicate of the key that the call frees. */
  datatype DeleteOutcome<K, V> = DeleteOutcome(table: Table<K, V>, data: Option<V>, freed: Option<nat>)

  function RoomyCapacity(used: nat, cap: nat): nat {
    if used < cap then cap else if cap > 0 then 2 * cap else 16
  }

  /** `htable_delete_with_flag`. */
  ghost function DeleteStep<K, V>(h: K -> u64, t: Table<K, V>, key: K, mem: Memory): DeleteOutcome<K, V>
    requires Inv(h, t)
  {
    match Lookup(t, key, Home(h(key), |t.index|), 0)
    case None => DeleteOutcome(t, None, None)
    case Some(slot) =>
      assert t.index[slot] - 1 in t.order;
      if |t.freed| >= t.freedCap && !mem.freedOk then DeleteOutcome(t, None, None)
      else
        var e := t.entries[t.index[slot] - 1];
        DeleteOutcome(Remove(t, slot, RoomyCapacity(|t.freed|, t.freedCap)), Some(e.data), Some(e.dup))
  }

  lemma DeleteCorrect<K, V>(h: K -> u64, t: Table<K, V>, key: K, mem: Memory)
    requires Inv(h, t)
    ensures var o := DeleteStep(h, t, key, mem);
            && Inv(h, o.table)
            && (o.data.Some? <==> key in Bindings(t) && (|t.freed| < t.freedCap || mem.freedOk))
            && (o.data.Some? ==> o.data.value == Bindings(t)[key].data && Bindings(o.table) == Bindings(t) - {key}
                                 && o.table.count == t.count - 1)
            && o.freed == (if o.data.Some? then Some(Bindings(t)[key].dup) else None)
            && (o.data.None? ==> o.table == t)
            && |o.table.index| == |t.index| && |o.table.entries| == |t.entries|
    ensures var o := DeleteStep(h, t, key, mem);
            o.data.Some? ==>
              && |o.table.freed| == |t.freed| + 1 && o.table.freed[..|t.freed|] == t.freed
              && Holds(t, key, o.table.freed[|t.freed|])
              && o.table.freedCap ==
                   if |t.freed| < t.freedCap then t.freedCap else if t.freedCap == 0 then 16 else t.freedCap + t.freedCap
  {
    hide Inv, Lookup, Remove, RoomyCapacity, Bindings, DeleteStep, Home, KeysInOrder;
    DeleteFacts(h, t, key, mem);
    LookupDecides(h, t, key);
    if key in Bindings(t) && (|t.freed| < t.freedCap || mem.freedOk) {
      var slot := Lookup(t, key, Home(h(key), |t.index|), 0).value;
      RoomForFreed(h, t);
      RemoveCorrect(h, t, slot, RoomyCapacity(|t.freed|, t.freedCap));
      RemoveSizes(t, slot, RoomyCapacity(|t.freed|, t.freedCap));
      DoubledWhenFull(|t.freed|, t.freedCap);
    }
  }

  lemma DoubledWhenFull(used: nat, cap: nat)
    ensures RoomyCapacity(used, cap) == if used < cap then cap else if cap == 0 then 16 else cap + cap
  {}

  /** `htable_get_with_flag`. */
  ghost function GetStep<K, V>(h: K -> u64, t: Table<K, V>, key: K): Option<V>
    requires Inv(h, t)
  {
    match Lookup(t, key, Home(h(key), |t.index|), 0)
    case None => None
    case Some(slot) => Some(t.entries[t.index[slot] - 1].data)
  }

  lemma GetCorrect<K, V>(h: K -> u64, t: Table<K, V>, key: K)
    requires Inv(h, t)
    ensures GetStep(h, t, key) == if key in Bindings(t) then Some(Bindings(t)[key].data) else None
  {
    hide Inv, Lookup, Bindings, Home;
    LookupDecides(h, t, key);
  }

  lemma SetContents<K, V>(h: K -> u64, t: Table<K, V>, key: K, data: V, dup: nat, mem: Memory)
    requires Inv(h, t)
    ensures var o := SetStep(h, t, key, data, dup, mem);
            && (key in Bindings(t) <==> key in Contents(t))
            && Contents(o.table) == if o.ok then Contents(t)[key := data] else Contents(t)
  {
    hide Inv, SetStep, Bindings;
    SetCorrect(h, t, key, data, dup, mem);
  }

  lemma DeleteContents<K, V>(h: K -> u64, t: Table<K, V>, key: K, mem: Memory)
    requires Inv(h, t)
    ensures var o := DeleteStep(h, t, key, mem);
            && (o.data.Some? ==> key in Contents(t) && o.data.value == Contents(t)[key]
                                 && Contents(o.table) == Contents(t) - {key})
            && (o.data.None? ==> key !in Contents(t) || !mem.freedOk)
  {
    hide Inv, DeleteStep, Bindings;
    DeleteCorrect(h, t, key, mem);
  }

  // ---- the cases of a call, with what each rests on ----

  /** What `Store` is in each of its cases, with the facts each case rests on. */
  lemma StoreFacts<K, V>(h: K -> u64, t: Table<K, V>, key: K, data: V, dup: nat, mem: Memory)
    requires Inv(h, t) && !NeedsGrowth(t)
    ensures MarksInRange(t.index, |t.entries|) && 0 < |t.index|
    ensures var o := Store(h, t, key, data, dup, mem);
            && Inv(h, o.table)
            && match Lookup(t, key, Home(h(key), |t.index|), 0)
               case Some(slot) =>
                 o == SetOutcome(Overwrite(t, slot, data), true, Some(false))
               case None =>
                 var r := FirstFree(t.index, Home(h(key), |t.index|), 0);
                 && r.Some? && CanPlace(h, t, r.value, key, h(key))
                 && NextEntry(t) <= |t.entries| < MAX_SLOTS - 1
                 && o == (if mem.dupOk then SetOutcome(Place(t, r.value, key, dup, data, h(key), mem.freedOk), true, Some(true))
                          else SetOutcome(t, false, None))
  {
    LookupDecides(h, t, key);
    StoreCorrect(h, t, key, data, dup, mem);
    FreeSlotExists(t, Home(h(key), |t.index|));
    NextEntryIsNew(t);
  }

  lemma DeleteFacts<K, V>(h: K -> u64, t: Table<K, V>, key: K, mem: Memory)
    requires Inv(h, t)
    ensures MarksInRange(t.index, |t.entries|) && 0 < |t.index|
    ensures var o := DeleteStep(h, t, key, mem);
            match Lookup(t, key, Home(h(key), |t.index|), 0)
            case None => o == DeleteOutcome(t, None, None)
            case Some(slot) =>
              && t.count > 0 && t.index[slot] - 1 in t.order && |t.entries| < NONE
              && (t.entries[t.index[slot] - 1].next == NONE || t.entries[t.index[slot] - 1].next < |t.entries|)
              && (t.entries[t.index[slot] - 1].prev == NONE || t.entries[t.index[slot] - 1].prev < |t.entries|)
              && o == if |t.freed| >= t.freedCap && !mem.freedOk then DeleteOutcome(t, None, None)
                      else DeleteOutcome(Remove(t, slot, RoomyCapacity(|t.freed|, t.freedCap)),
                                         Some(t.entries[t.index[slot] - 1].data),
                                         Some(t.entries[t.index[slot] - 1].dup))
  {
    hide Inv, Lookup, Remove, RoomyCapacity, Home;
    RoomForFreed(h, t);
    match Lookup(t, key, Home(h(key), |t.index|), 0)
    case None =>
    case Some(slot) => LiveSlotFacts(h, t, slot);
  }

  /** The stack of freed entries, doubled if need be, has room for one more. */
  lemma RoomForFreed<K, V>(h: K -> u64, t: Table<K, V>)
    requires Inv(h, t)
    ensures |t.freed| < RoomyCapacity(|t.freed|, t.freedCap)
    ensures MarksInRange(t.index, |t.entries|) && 0 < |t.index|
  {}

  /** The entry of a live slot, and its neighbours in the list. */
  lemma LiveSlotFacts<K, V>(h: K -> u64, t: Table<K, V>, slot: nat)
    requires Inv(h, t) && slot < |t.index| && Live(t.index[slot])
    ensures t.count > 0 && t.index[slot] - 1 in t.order && t.index[slot] - 1 < |t.entries| < NONE
    ensures var e := t.entries[t.index[slot] - 1];
            && (e.next == NONE || e.next < |t.entries|) && (e.prev == NONE || e.prev < |t.entries|)
  {
    var p := RemovePosition(t, slot);
    assert LinkedAt(t.order, t.entries, p);
    assert p + 1 < |t.order| ==> t.order[p + 1] < |t.entries|;
    assert p > 0 ==> t.order[p - 1] < |t.entries|;
  }

  lemma RemoveSizes<K, V>(t: Table<K, V>, slot: nat, cap: nat)
    requires slot < |t.index| && Live(t.index[slot]) && t.index[slot] - 1 < |t.entries|
    requires t.count > 0 && t.index[slot] - 1 in t.order
    ensures var t' := Remove(t, slot, cap);
            && |t'.index| == |t.index| && |t'.entries| == |t.entries| && t'.count == t.count - 1
            && t'.freed == t.freed + [t.index[slot] - 1] && t'.freedCap == cap
  {}

  // ---- where a new key is stored ----

  /** On a table with room: the entry freed last if there is one, otherwise the next unused
      one; the slot is the first in probe order that is not live; the freed stack is popped,
      and perhaps shrunk. */
  lemma StorePlaces<K, V>(h: K -> u64, t: Table<K, V>, key: K, data: V, dup: nat, mem: Memory) returns (i: nat)
    requires Inv(h, t) && !NeedsGrowth(t) && key !in Bindings(t) && mem.dupOk
    ensures i < |t.index| && h(key) % |t.index| < |t.index|
    ensures !Live(t.index[i])
    ensures forall n: nat :: n < Distance(h(key) % |t.index|, i, |t.index|) ==> Live(t.index[Slot(h(key) % |t.index|, n, |t.index|)])
    ensures var t' := Store(h, t, key, data, dup, mem).table;
            var e := if t.freed != [] then t.freed[|t.freed| - 1] else |t.entries|;
            && e < MAX_SLOTS - 1 && t'.index == t.index[i := e + 1]
            && Holds(t', key, e) && t'.entries[e].dup == dup && t'.entries[e].data == data
            && t'.freed == (if t.freed != [] then t.freed[..|t.freed| - 1] else [])
            && t'.freedCap ==
                 if t.freed != [] && mem.freedOk && t.freedCap > 16 && |t.freed| - 1 < t.freedCap / 4 then
                   if |t.freed| - 1 < 4 then 4 else t.freedCap / 2
                 else t.freedCap
  {
    hide Inv, FirstFree, Lookup, Bindings, Place, Store, CanPlace, NeedsGrowth;
    LookupDecides(h, t, key);
    StoreFacts(h, t, key, data, dup, mem);
    i := FirstFree(t.index, Home(h(key), |t.index|), 0).value;
    FirstFreeIsNearest(t.index, Home(h(key), |t.index|), 0);
    TailIsListed(h, t);
    PlacedHere(t, i, key, dup, data, h(key), mem.freedOk);
  }

  lemma TailIsListed<K, V>(h: K -> u64, t: Table<K, V>)
    requires Inv(h, t)
    ensures t.tail == NONE || (t.tail < |t.entries| && t.tail != NextEntry(t))
  {
    NextEntryIsNew(t);
    if t.order != [] { assert t.order[|t.order| - 1] in t.order; }
  }

  lemma PlacedHere<K, V>(t: Table<K, V>, slot: nat, key: K, dup: nat, data: V, hash: u64, shrinkOk: bool)
    requires slot < |t.index| && NextEntry(t) <= |t.entries| < MAX_SLOTS - 1
    requires t.tail == NONE || (t.tail < |t.entries| && t.tail != NextEntry(t))
    ensures var t' := Place(t, slot, key, dup, data, hash, shrinkOk);
            var e := if t.freed != [] then t.freed[|t.freed| - 1] else |t.entries|;
            && Holds(t', key, e) && t'.entries[e].dup == dup && t'.entries[e].data == data
            && t'.index == t.index[slot := e + 1]
            && t'.freed == (if t.freed != [] then t.freed[..|t.freed| - 1] else [])
            && t'.freedCap ==
                 if t.freed != [] && shrinkOk && t.freedCap > 16 && |t.freed| - 1 < t.freedCap / 4 then
                   if |t.freed| - 1 < 4 then 4 else t.freedCap / 2
                 else t.freedCap
  {
    var e := NextEntry(t);
    assert (t.order + [e])[|t.order|] == e;
  }

  /** A deletion followed by the insertion of a new key that does not make the table grow:
      the new key gets the very entry that was given up. */
  lemma NewestFreedIsReused<K, V>(h: K -> u64, t: Table<K, V>, first: K, key: K, data: V, dup: nat,
                                  mem: Memory, mem': Memory) returns (e: u32)
    requires Inv(h, t) && DeleteStep(h, t, first, mem).data.Some?
    requires Inv(h, DeleteStep(h, t, first, mem).table)
    requires var t1 := DeleteStep(h, t, first, mem).table;
             !NeedsGrowth(t1) && key !in Bindings(t1) && mem'.dupOk
    ensures Holds(t, first, e)
    ensures Holds(SetStep(h, DeleteStep(h, t, first, mem).table, key, data, dup, mem').table, key, e)
  {
    hide Inv, DeleteStep, Store, Bindings, NeedsGrowth;
    DeleteCorrect(h, t, first, mem);
    var t1 := DeleteStep(h, t, first, mem).table;
    e := t1.freed[|t.freed|];
    var _ := StorePlaces(h, t1, key, data, dup, mem');
    StepIsStore(h, t1, key, data, dup, mem');
  }

  lemma StepIsStore<K, V>(h: K -> u64, t: Table<K, V>, key: K, data: V, dup: nat, mem: Memory)
    requires Inv(h, t) && !NeedsGrowth(t)
    ensures SetStep(h, t, key, data, dup, mem) == Store(h, t, key, data, dup, mem)
  {
    hide Inv, Store;
  }
}
