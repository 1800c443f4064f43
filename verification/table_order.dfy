/** The iteration order over calls: insertion appends, overwriting and failing change
    nothing, deletion takes one key out, and growth puts the keys in slot order. */
module TableOrder {
  import opened Bits
  import opened TableModel
  import opened TablePlace
  import opened TableRemove
  import opened TableRehash
  import opened TableSteps

  lemma InvMeansPartition<K, V>(h: K -> u64, t: Table<K, V>)
    requires Inv(h, t)
    ensures Partition(t)
  {}

  lemma StoreOrder<K, V>(h: K -> u64, t: Table<K, V>, key: K, data: V, dup: nat, mem: Memory)
    requires Inv(h, t) && !NeedsGrowth(t)
    ensures var o := Store(h, t, key, data, dup, mem);
            && Partition(t) && Partition(o.table)
            && KeysInOrder(o.table) == KeysInOrder(t) + if o.flag == Some(true) then [key] else []
  {
    hide Inv, Store, Lookup, FirstFree, KeysInOrder, Partition, Place, Overwrite, CanPlace;
    StoreFacts(h, t, key, data, dup, mem);
    InvMeansPartition(h, t);
    InvMeansPartition(h, Store(h, t, key, data, dup, mem).table);
    match Lookup(t, key, Home(h(key), |t.index|), 0)
    case Some(slot) => OverwriteCorrect(h, t, slot, data);
    case None =>
      if mem.dupOk {
        PlaceCorrect(h, t, FirstFree(t.index, Home(h(key), |t.index|), 0).value, key, dup, data, h(key), mem.freedOk);
      }
  }

  /** Set: a new key comes last; otherwise the order is as it was, or that of the old slots
      when the table has grown. */
  lemma OrderAfterSet<K, V>(h: K -> u64, t: Table<K, V>, key: K, data: V, dup: nat, mem: Memory)
    requires Inv(h, t)
    ensures var o := SetStep(h, t, key, data, dup, mem);
            && Partition(o.table)
            && KeysInOrder(o.table)
               == (if (|t.entries| >= 3 * |t.index| / 4 || 4 * (t.count + 1) >= 3 * |t.index|)
                      && 2 * |t.index| <= 0x1_0000_0000 && mem.indexOk && mem.entriesOk
                   then ScanKeys(t) else KeysInOrder(t))
                  + (if o.flag == Some(true) then [key] else [])
  {
    RoomAfterLoadTest(h, t);
    InvMeansPartition(h, t);
    hide Inv, Store, KeysInOrder, ScanKeys, Partition, Grown;
    if !NeedsGrowth(t) {
      StoreOrder(h, t, key, data, dup, mem);
    } else if GrowthGranted(|t.index|, mem) {
      GrownCorrect(h, t);
      StoreOrder(h, Prepared(h, t), key, data, dup, mem);
    }
  }

  /** Delete: exactly the deleted key leaves its place. */
  lemma OrderAfterDelete<K, V>(h: K -> u64, t: Table<K, V>, key: K, mem: Memory) returns (p: nat)
    requires Inv(h, t)
    ensures var o := DeleteStep(h, t, key, mem);
            && Partition(t) && Partition(o.table)
            && (o.data.None? ==> o.table == t)
            && (o.data.Some? ==>
                  && p < |KeysInOrder(t)| && KeysInOrder(t)[p] == key
                  && KeysInOrder(o.table) == KeysInOrder(t)[..p] + KeysInOrder(t)[p + 1..])
  {
    hide Inv, DeleteStep, Lookup, Remove, Bindings, KeysInOrder, Partition, RoomyCapacity;
    InvMeansPartition(h, t);
    DeleteFacts(h, t, key, mem);
    p := 0;
    match Lookup(t, key, Home(h(key), |t.index|), 0)
    case None =>
    case Some(slot) =>
      if |t.freed| < t.freedCap || mem.freedOk {
        p := OrderAfterRemove(h, t, slot);
      }
  }

  lemma OrderAfterRemove<K, V>(h: K -> u64, t: Table<K, V>, slot: nat) returns (p: nat)
    requires Inv(h, t) && slot < |t.index| && Live(t.index[slot])
    ensures t.count > 0 && t.index[slot] - 1 in t.order && t.index[slot] - 1 < |t.entries|
    ensures var t' := Remove(t, slot, RoomyCapacity(|t.freed|, t.freedCap));
            && Partition(t) && Partition(t')
            && p < |KeysInOrder(t)| && KeysInOrder(t)[p] == t.entries[t.index[slot] - 1].key
            && KeysInOrder(t') == KeysInOrder(t)[..p] + KeysInOrder(t)[p + 1..]
  {
    hide Inv, Remove, Bindings, RoomyCapacity;
    RoomForFreed(h, t);
    RemoveCorrect(h, t, slot, RoomyCapacity(|t.freed|, t.freedCap));
    InvMeansPartition(h, t);
    InvMeansPartition(h, Remove(t, slot, RoomyCapacity(|t.freed|, t.freedCap)));
    p := Position(t.order, t.index[slot] - 1);
  }
}
