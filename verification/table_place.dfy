/** Inserting a new entry keeps the invariant and binds exactly one more key. */
module TablePlace {
  import opened Bits
  import opened TableModel

  /** What holds where an insertion happens: a free slot at the end of an open
      probe path, a key that is not bound yet, and room for the entry. */
  ghost predicate CanPlace<K, V>(h: K -> u64, t: Table<K, V>, slot: nat, key: K, hash: u64) {
    && Inv(h, t) && hash == h(key)
    && slot < |t.index| && !Live(t.index[slot]) && PathOpen(t.index, Home(hash, |t.index|), slot)
    && (t.freed != [] || |t.entries| < EntryCapacity(|t.index|))
    && Unbound(t, key)
  }

  lemma NextEntryIsNew<K, V>(t: Table<K, V>)
    requires Shape(t) && Partition(t)
    ensures NextEntry(t) <= |t.entries| < MAX_SLOTS - 1
    ensures NextEntry(t) !in t.order
  {
    if t.freed == [] {
      forall p | 0 <= p < |t.order| ensures t.order[p] != |t.entries| {}
    }
  }

  /** Insertion leaves the payload of every live entry alone. */
  ghost predicate SamePayload<K, V>(a: Entry<K, V>, b: Entry<K, V>) {
    a.key == b.key && a.dup == b.dup && a.data == b.data && a.hash == b.hash
  }

  lemma PlacedPayloads<K, V>(t: Table<K, V>, slot: nat, key: K, dup: nat, data: V, hash: u64, shrinkOk: bool)
    requires Shape(t) && Partition(t) && slot < |t.index|
    ensures NextEntry(t) <= |t.entries| < MAX_SLOTS - 1
    ensures var t' := Place(t, slot, key, dup, data, hash, shrinkOk);
            && |t.entries| <= |t'.entries|
            && NextEntry(t) < |t'.entries|
            && t'.entries[NextEntry(t)] == Entry(key, dup, data, hash, t.tail, NONE)
            && forall e :: 0 <= e < |t.entries| && e != NextEntry(t) ==> SamePayload(t.entries[e], t'.entries[e])
  {
    NextEntryIsNew(t);
  }

  lemma PlaceShape<K, V>(t: Table<K, V>, slot: nat, key: K, dup: nat, data: V, hash: u64, shrinkOk: bool)
    requires Shape(t) && Partition(t) && slot < |t.index|
    requires t.freed != [] || |t.entries| < EntryCapacity(|t.index|)
    ensures NextEntry(t) <= |t.entries| < MAX_SLOTS - 1
    ensures var t' := Place(t, slot, key, dup, data, hash, shrinkOk); Shape(t') && Partition(t')
  {
    NextEntryIsNew(t);
    var t' := Place(t, slot, key, dup, data, hash, shrinkOk);
    forall p, q | 0 <= p < q < |t'.order| ensures t'.order[p] != t'.order[q] {
      assert t.order[p] in t.order;
    }
    forall p | 0 <= p < |t'.freed| ensures t'.freed[p] !in t'.order {
      assert t'.freed[p] == t.freed[p] != t.freed[|t.freed| - 1];
    }
  }

  lemma MarkedElsewhere(index: seq<u32>, slot: nat, mark: u32, e: u32)
    requires slot < |index| && Marked(index, e) && index[slot] != e + 1
    ensures Marked(index[slot := mark], e)
  {
    var i :| 0 <= i < |index| && index[i] == e + 1;
    assert index[slot := mark][i] == e + 1;
  }

  lemma MarkedAdd(index: seq<u32>, order: seq<u32>, slot: nat, idx: u32)
    requires slot < |index| && !Live(index[slot]) && idx < NONE - 1
    requires forall p :: 0 <= p < |order| ==> order[p] < NONE - 1
    requires forall e {:trigger Marked(index, e)} :: e in order ==> Marked(index, e)
    ensures forall e {:trigger Marked(index[slot := idx + 1], e)} ::
      e in order + [idx] ==> Marked(index[slot := idx + 1], e)
  {
    var index' := index[slot := idx + 1];
    forall e | e in order + [idx] ensures Marked(index', e) {
      if e == idx {
        assert index'[slot] == idx + 1;
      } else {
        assert e in order && Marked(index, e);
        MarkedElsewhere(index, slot, idx + 1, e);
      }
    }
  }

  lemma SlotsMatchAdd(index: seq<u32>, order: seq<u32>, slot: nat, idx: u32)
    requires SlotsMatch(index, order) && slot < |index| && !Live(index[slot])
    requires idx !in order && idx < NONE - 1 && forall p :: 0 <= p < |order| ==> order[p] < NONE - 1
    ensures SlotsMatch(index[slot := idx + 1], order + [idx])
  {
    var index', order' := index[slot := idx + 1], order + [idx];
    MarkedAdd(index, order, slot, idx);
    assert order'[|order|] == idx;
    forall i | 0 <= i < |index| && Live(index[i]) ensures index[i] != idx + 1 && index[i] - 1 in order' {
      assert index[i] - 1 in order;
    }
  }

  /** Filling a slot, live or not, opens no gap in any probe path. */
  lemma ReachableAdd<K, V>(index: seq<u32>, entries: seq<Entry<K, V>>, entries': seq<Entry<K, V>>, slot: nat, idx: u32)
    requires slot < |index| && MarksInRange(index, |entries|) && Reachable(index, entries)
    requires idx < |entries'| && |entries| <= |entries'| && idx < NONE - 1
    requires forall i :: 0 <= i < |index| && Live(index[i]) ==> entries'[index[i] - 1].hash == entries[index[i] - 1].hash
    requires PathOpen(index, Home(entries'[idx].hash, |index|), slot)
    ensures MarksInRange(index[slot := idx + 1], |entries'|) && Reachable(index[slot := idx + 1], entries')
  {
    var index' := index[slot := idx + 1];
    forall i | 0 <= i < |index'| && Live(index'[i])
      ensures PathOpen(index', Home(entries'[index'[i] - 1].hash, |index'|), i)
    {
      var home := Home(entries'[index'[i] - 1].hash, |index'|);
      assert PathOpen(index, home, i);
    }
  }

  /** The parts of the invariant that speak of keys only. */
  ghost predicate KeysOk<K, V>(h: K -> u64, t: Table<K, V>) {
    Shape(t) && Partition(t) && KeysDistinct(t) && HashesCached(h, t)
  }

  ghost predicate Unbound<K, V>(t: Table<K, V>, key: K) {
    forall e :: !Holds(t, key, e)
  }

  lemma PlaceKeys<K, V>(h: K -> u64, t: Table<K, V>, t': Table<K, V>, idx: u32, key: K)
    requires KeysOk(h, t) && Unbound(t, key)
    requires Partition(t') && idx < |t'.entries| && |t.entries| <= |t'.entries|
    requires t'.order == t.order + [idx] && idx !in t.order
    requires t'.entries[idx].key == key && t'.entries[idx].hash == h(key)
    requires forall e :: 0 <= e < |t.entries| && e != idx ==> SamePayload(t.entries[e], t'.entries[e])
    ensures KeysDistinct(t') && HashesCached(h, t')
  {
    forall e | e in t'.order && e != idx
      ensures e in t.order && SamePayload(t.entries[e], t'.entries[e]) && t.entries[e].key != key
    {
      assert e in t.order;
      assert !Holds(t, key, e);
    }
  }

  lemma PlaceIndex<K, V>(t: Table<K, V>, t': Table<K, V>, slot: nat, idx: u32)
    requires Partition(t) && SlotsMatch(t.index, t.order)
    requires MarksInRange(t.index, |t.entries|) && Reachable(t.index, t.entries)
    requires slot < |t.index| && !Live(t.index[slot])
    requires idx < |t'.entries| && idx < NONE - 1 && |t.entries| <= |t'.entries| && |t.entries| < NONE - 1
    requires t'.order == t.order + [idx] && idx !in t.order && t'.index == t.index[slot := idx + 1]
    requires forall e :: 0 <= e < |t.entries| && e != idx ==> SamePayload(t.entries[e], t'.entries[e])
    requires PathOpen(t.index, Home(t'.entries[idx].hash, |t.index|), slot)
    ensures SlotsMatch(t'.index, t'.order)
    ensures MarksInRange(t'.index, |t'.entries|) && Reachable(t'.index, t'.entries)
  {
    SlotsMatchAdd(t.index, t.order, slot, idx);
    forall i | 0 <= i < |t.index| && Live(t.index[i])
      ensures t'.entries[t.index[i] - 1].hash == t.entries[t.index[i] - 1].hash
    {
      assert t.index[i] - 1 in t.order;
      assert SamePayload(t.entries[t.index[i] - 1], t'.entries[t.index[i] - 1]);
    }
    ReachableAdd(t.index, t.entries, t'.entries, slot, idx);
  }

  lemma LinksAppend<K, V>(order: seq<u32>, entries: seq<Entry<K, V>>, head: u32, tail: u32, idx: u32, e: Entry<K, V>)
    requires Links(order, entries, head, tail) && Unique(order)
    requires idx !in order && idx <= |entries| < NONE
    requires e.prev == tail && e.next == NONE
    requires forall p :: 0 <= p < |order| ==> order[p] < |entries|
    ensures var linked := if tail < |entries| then entries[tail := entries[tail].(next := idx)] else entries;
            var entries' := if idx < |entries| then linked[idx := e] else linked + [e];
            Links(order + [idx], entries', if tail == NONE then idx else head, idx)
  {
    var linked := if tail < |entries| then entries[tail := entries[tail].(next := idx)] else entries;
    var entries' := if idx < |entries| then linked[idx := e] else linked + [e];
    var order' := order + [idx];
    forall p: nat | p < |order'| ensures LinkedAt(order', entries', p) {
      if p < |order| {
        assert LinkedAt(order, entries, p);
        assert order[p] in order;
        if p + 1 < |order| { assert order[p] != order[|order| - 1]; }
      }
    }
  }

  /** The bindings depend only on which entries are live and on their payloads. */
  lemma BindsExactly<K, V>(t: Table<K, V>, m: map<K, Binding<V>>)
    requires Partition(t) && KeysDistinct(t)
    requires forall e :: e in t.order ==>
      t.entries[e].key in m && m[t.entries[e].key] == Binding(t.entries[e].dup, t.entries[e].data)
    requires forall k :: k in m ==> exists e :: Holds(t, k, e)
    ensures Bindings(t) == m
  {
    forall k | k in m ensures k in Bindings(t) && Bindings(t)[k] == m[k] {
      var e :| Holds(t, k, e);
    }
  }

  lemma PlaceBinds<K, V>(h: K -> u64, t: Table<K, V>, t': Table<K, V>, idx: u32, key: K)
    requires KeysOk(h, t) && Unbound(t, key)
    requires Partition(t') && KeysDistinct(t') && idx < |t'.entries| && |t.entries| <= |t'.entries|
    requires t'.order == t.order + [idx] && idx !in t.order
    requires t'.entries[idx].key == key
    requires forall e :: 0 <= e < |t.entries| && e != idx ==> SamePayload(t.entries[e], t'.entries[e])
    ensures Bindings(t') == Bindings(t)[key := Binding(t'.entries[idx].dup, t'.entries[idx].data)]
    ensures key !in Bindings(t)
  {
    var m := Bindings(t)[key := Binding(t'.entries[idx].dup, t'.entries[idx].data)];
    forall e | e in t.order ensures e in t'.order && t.entries[e].key != key {
      assert !Holds(t, key, e);
      var p :| 0 <= p < |t.order| && t.order[p] == e;
      assert t'.order[p] == e;
    }
    forall e | e in t'.order
      ensures t'.entries[e].key in m && m[t'.entries[e].key] == Binding(t'.entries[e].dup, t'.entries[e].data)
    {
      if e != idx {
        assert e in t.order;
        assert SamePayload(t.entries[e], t'.entries[e]);
      }
    }
    forall k | k in m ensures exists e :: Holds(t', k, e) {
      if k == key {
        assert t'.order[|t.order|] == idx;
        assert Holds(t', k, idx);
      } else {
        var e :| e in t.order && t.entries[e].key == k;
        assert SamePayload(t.entries[e], t'.entries[e]);
        assert Holds(t', k, e);
      }
    }
    BindsExactly(t', m);
  }

  lemma PlaceAppends<K, V>(t: Table<K, V>, t': Table<K, V>, idx: u32)
    requires Partition(t) && Partition(t') && |t.entries| <= |t'.entries|
    requires t'.order == t.order + [idx] && idx !in t.order && idx < |t'.entries|
    requires forall e :: 0 <= e < |t.entries| && e != idx ==> SamePayload(t.entries[e], t'.entries[e])
    ensures KeysInOrder(t') == KeysInOrder(t) + [t'.entries[idx].key]
  {
    forall p | 0 <= p < |t.order| ensures t'.entries[t'.order[p]].key == t.entries[t.order[p]].key {
      assert t.order[p] in t.order;
      assert SamePayload(t.entries[t.order[p]], t'.entries[t.order[p]]);
    }
  }

  /** Insertion: the invariant holds again, the key is bound, it comes last in the iteration order. */
  lemma PlaceCorrect<K, V>(h: K -> u64, t: Table<K, V>, slot: nat, key: K, dup: nat, data: V, hash: u64, shrinkOk: bool)
    requires CanPlace(h, t, slot, key, hash)
    ensures NextEntry(t) <= |t.entries| < MAX_SLOTS - 1
    ensures var t' := Place(t, slot, key, dup, data, hash, shrinkOk);
            && Inv(h, t')
            && Bindings(t') == Bindings(t)[key := Binding(dup, data)]
            && key !in Bindings(t)
            && KeysInOrder(t') == KeysInOrder(t) + [key]
  {
    PlaceShape(t, slot, key, dup, data, hash, shrinkOk);
    PlacedPayloads(t, slot, key, dup, data, hash, shrinkOk);
    NextEntryIsNew(t);
    var t' := Place(t, slot, key, dup, data, hash, shrinkOk);
    var idx := NextEntry(t);
    PlaceIndex(t, t', slot, idx);
    LinksAppend(t.order, t.entries, t.head, t.tail, idx, Entry(key, dup, data, hash, t.tail, NONE));
    PlaceKeys(h, t, t', idx, key);
    PlaceBinds(h, t, t', idx, key);
    PlaceAppends(t, t', idx);
  }
}
