/** Overwriting and deleting keep the invariant and change exactly one binding. */
module TableRemove {
  import opened Bits
  import opened TableModel
  import opened TablePlace

  lemma WithoutElements(s: seq<u32>, p: nat)
    requires p < |s| && Unique(s)
    ensures Unique(Without(s, p))
    ensures forall x :: x in Without(s, p) <==> x in s && x != s[p]
  {
    var w := Without(s, p);
    forall a | 0 <= a < |w| ensures w[a] == s[if a < p then a else a + 1] {}
    forall x | x in s && x != s[p] ensures x in w {
      var a :| 0 <= a < |s| && s[a] == x;
      assert w[if a < p then a else a - 1] == x;
    }
  }

  lemma RemoveShape<K, V>(t: Table<K, V>, slot: nat, freedCap: nat)
    requires Shape(t) && Partition(t) && slot < |t.index| && Live(t.index[slot]) && t.index[slot] - 1 in t.order
    requires |t.freed| < freedCap
    ensures t.count > 0 && t.index[slot] - 1 < |t.entries|
    ensures var t' := Remove(t, slot, freedCap); Shape(t') && Partition(t')
  {
    var e := t.index[slot] - 1;
    var p := Position(t.order, e);
    assert p < |t.order|;
    WithoutElements(t.order, p);
    var t' := Remove(t, slot, freedCap);
    forall q | 0 <= q < |t'.freed| ensures t'.freed[q] < |t'.entries| && t'.freed[q] !in t'.order {}
    forall q | 0 <= q < |t'.order| ensures t'.order[q] < |t'.entries| { assert t'.order[q] in t.order; }
    forall a, b | 0 <= a < b < |t'.freed| ensures t'.freed[a] != t'.freed[b] {
      if b == |t.freed| { assert t.freed[a] !in t.order; }
    }
  }

  lemma UnlinkedPayloads<K, V>(entries: seq<Entry<K, V>>, e: nat)
    requires e < |entries|
    ensures |UnlinkedEntries(entries, e)| == |entries|
    ensures forall d :: 0 <= d < |entries| ==> SamePayload(entries[d], UnlinkedEntries(entries, e)[d])
  {}

  lemma SlotsMatchRemove(index: seq<u32>, order: seq<u32>, slot: nat, p: nat)
    requires SlotsMatch(index, order) && Unique(order)
    requires slot < |index| && Live(index[slot]) && p < |order| && order[p] == index[slot] - 1
    requires forall p :: 0 <= p < |order| ==> order[p] < NONE - 1
    ensures SlotsMatch(index[slot := DELETED], Without(order, p))
  {
    hide SlotsMatch, Marked, Without;
    var index', order' := index[slot := DELETED], Without(order, p);
    WithoutElements(order, p);
    forall e | e in order' ensures Marked(index', e) {
      ListedIsMarked(index, order, e);
      MarkedElsewhere(index, slot, DELETED, e);
    }
    forall i | 0 <= i < |index'| && Live(index'[i]) ensures index'[i] - 1 in order' {
      LiveSlotsDiffer(index, order, i, slot);
    }
    forall i, j | 0 <= i < j < |index'| && Live(index'[i]) ensures index'[i] != index'[j] {
      if j != slot { LiveSlotsDiffer(index, order, i, j); }
    }
    SlotsMatchWhen(index', order');
  }

  lemma ListedIsMarked(index: seq<u32>, order: seq<u32>, e: u32)
    requires SlotsMatch(index, order) && e in order
    ensures Marked(index, e)
  {}

  lemma LiveSlotsDiffer(index: seq<u32>, order: seq<u32>, i: nat, j: nat)
    requires SlotsMatch(index, order) && i < |index| && j < |index| && i != j && Live(index[i])
    ensures index[i] - 1 in order && index[i] != index[j]
  {}

  lemma SlotsMatchWhen(index: seq<u32>, order: seq<u32>)
    requires forall i :: 0 <= i < |index| && Live(index[i]) ==> index[i] - 1 in order
    requires forall i, j :: 0 <= i < j < |index| && Live(index[i]) ==> index[i] != index[j]
    requires forall e {:trigger Marked(index, e)} :: e in order ==> Marked(index, e)
    ensures SlotsMatch(index, order)
  {}

  /** A tombstone keeps every probe path open. */
  lemma ReachableRemove<K, V>(index: seq<u32>, entries: seq<Entry<K, V>>, entries': seq<Entry<K, V>>, slot: nat)
    requires slot < |index| && MarksInRange(index, |entries|) && Reachable(index, entries)
    requires |entries'| == |entries| && forall d :: 0 <= d < |entries| ==> SamePayload(entries[d], entries'[d])
    ensures MarksInRange(index[slot := DELETED], |entries'|) && Reachable(index[slot := DELETED], entries')
  {
    var index' := index[slot := DELETED];
    forall i | 0 <= i < |index'| && Live(index'[i])
      ensures PathOpen(index', Home(entries'[index'[i] - 1].hash, |index'|), i)
    {
      assert SamePayload(entries[index[i] - 1], entries'[index[i] - 1]);
      assert PathOpen(index, Home(entries'[index'[i] - 1].hash, |index|), i);
    }
  }

  /** Unlinking redirects the neighbours of `e` past it and touches no other link. */
  lemma UnlinkedLinks<K, V>(entries: seq<Entry<K, V>>, e: nat, d: nat)
    requires e < |entries| && d < |entries| < NONE
    ensures var entries' := UnlinkedEntries(entries, e);
            && entries'[d].next == (if d == entries[e].prev then entries[e].next else entries[d].next)
            && entries'[d].prev == (if d == entries[e].next then entries[e].prev else entries[d].prev)
  {}

  /** Where the element at `q0 != p` stands once the one at `p` is gone. */
  lemma NeighboursAfterRemove(order: seq<u32>, p: nat, q0: nat)
    requires p < |order| && q0 < |order| && p != q0 && Unique(order) && NONE !in order
    ensures var q, order' := if q0 < p then q0 else q0 - 1, Without(order, p);
            && q < |order'| && order'[q] == order[q0]
            && NextOf(order', q) == (if order[q0] == PrevOf(order, p) then NextOf(order, p) else NextOf(order, q0))
            && PrevOf(order', q) == (if order[q0] == NextOf(order, p) then PrevOf(order, p) else PrevOf(order, q0))
  {
    assert order[q0] in order;
    assert order[q0] == PrevOf(order, p) <==> q0 == p - 1;
    assert order[q0] == NextOf(order, p) <==> q0 == p + 1;
  }

  /** The position in the old list of the element now at `q`. */
  function Skipping(p: nat, q: nat): nat {
    if q < p then q else q + 1
  }

  lemma LinksRemoveInner<K, V>(order: seq<u32>, entries: seq<Entry<K, V>>, p: nat, q: nat)
    requires p < |order| && q + 1 < |order| && |entries| < NONE && Unique(order) && NONE !in order
    requires LinkedAt(order, entries, p) && LinkedAt(order, entries, Skipping(p, q))
    ensures LinkedAt(Without(order, p), UnlinkedEntries(entries, order[p]), q)
  {
    NeighboursAfterRemove(order, p, Skipping(p, q));
    UnlinkedLinks(entries, order[p], order[Skipping(p, q)]);
    assert order[Skipping(p, q)] in order;
  }

  lemma LinksRemoveEnds(order: seq<u32>, p: nat)
    requires p < |order| && Unique(order)
    ensures var e, order' := order[p], Without(order, p);
            && (if e == order[0] then NextOf(order, p) else order[0]) == (if order' == [] then NONE else order'[0])
            && (if e == order[|order| - 1] then PrevOf(order, p) else order[|order| - 1])
               == (if order' == [] then NONE else order'[|order'| - 1])
  {
    assert order[p] == order[0] <==> p == 0;
    assert order[p] == order[|order| - 1] <==> p == |order| - 1;
  }

  /** Unlinking takes one element out of the list and joins its neighbours. */
  lemma LinksRemove<K, V>(order: seq<u32>, entries: seq<Entry<K, V>>, head: u32, tail: u32, p: nat)
    requires p < |order| && |entries| < NONE && Unique(order)
    requires forall q :: 0 <= q < |order| ==> order[q] < |entries|
    requires Links(order, entries, head, tail)
    ensures var e := order[p];
            e < |entries| &&
            Links(Without(order, p), UnlinkedEntries(entries, e),
                  if e == head then entries[e].next else head, if e == tail then entries[e].prev else tail)
  {
    assert LinkedAt(order, entries, p);
    forall q: nat | q < |order| - 1
      ensures LinkedAt(Without(order, p), UnlinkedEntries(entries, order[p]), q)
    {
      assert LinkedAt(order, entries, Skipping(p, q));
      LinksRemoveInner(order, entries, p, q);
    }
    LinksRemoveEnds(order, p);
  }

  lemma RemoveKeys<K, V>(h: K -> u64, t: Table<K, V>, t': Table<K, V>, e: u32)
    requires KeysOk(h, t) && Partition(t') && |t'.entries| == |t.entries| && e in t.order
    requires forall x :: x in t'.order <==> x in t.order && x != e
    requires forall d :: 0 <= d < |t.entries| ==> SamePayload(t.entries[d], t'.entries[d])
    ensures KeysDistinct(t') && HashesCached(h, t')
    ensures Bindings(t') == Bindings(t) - {t.entries[e].key}
  {
    forall d | d in t'.order ensures d in t.order && SamePayload(t.entries[d], t'.entries[d]) {}
    var m := Bindings(t) - {t.entries[e].key};
    forall k | k in m ensures exists d :: Holds(t', k, d) {
      var d :| d in t.order && t.entries[d].key == k;
      assert SamePayload(t.entries[d], t'.entries[d]);
      assert Holds(t', k, d);
    }
    BindsExactly(t', m);
  }

  lemma RemoveIndex<K, V>(t: Table<K, V>, entries': seq<Entry<K, V>>, slot: nat, p: nat)
    requires Shape(t) && Partition(t) && SlotsMatch(t.index, t.order)
    requires MarksInRange(t.index, |t.entries|) && Reachable(t.index, t.entries)
    requires slot < |t.index| && Live(t.index[slot]) && p < |t.order| && t.order[p] == t.index[slot] - 1
    requires |entries'| == |t.entries| && forall d :: 0 <= d < |t.entries| ==> SamePayload(t.entries[d], entries'[d])
    ensures var index' := t.index[slot := DELETED];
            && SlotsMatch(index', Without(t.order, p))
            && MarksInRange(index', |entries'|) && Reachable(index', entries')
  {
    SlotsMatchRemove(t.index, t.order, slot, p);
    ReachableRemove(t.index, t.entries, entries', slot);
  }

  lemma RemovePosition<K, V>(t: Table<K, V>, slot: nat) returns (p: nat)
    requires SlotsMatch(t.index, t.order) && slot < |t.index| && Live(t.index[slot])
    ensures t.index[slot] - 1 in t.order
    ensures p < |t.order| && p == Position(t.order, t.index[slot] - 1) && t.order[p] == t.index[slot] - 1
  {
    p := Position(t.order, t.index[slot] - 1);
  }

  lemma RemoveKeepsInv<K, V>(h: K -> u64, t: Table<K, V>, slot: nat, freedCap: nat)
    requires Inv(h, t) && slot < |t.index| && Live(t.index[slot]) && |t.freed| < freedCap
    ensures t.count > 0 && t.index[slot] - 1 in t.order && t.index[slot] - 1 < |t.entries|
    ensures Inv(h, Remove(t, slot, freedCap))
  {
    var p := RemovePosition(t, slot);
    RemoveShape(t, slot, freedCap);
    var t' := Remove(t, slot, freedCap);
    UnlinkedPayloads(t.entries, t.order[p]);
    RemoveIndex(t, t'.entries, slot, p);
    LinksRemove(t.order, t.entries, t.head, t.tail, p);
    RemoveMeaning(h, t, t', p);
  }

  /** Deletion: the invariant holds again, and exactly the entry's key is no longer bound. */
  lemma RemoveCorrect<K, V>(h: K -> u64, t: Table<K, V>, slot: nat, freedCap: nat)
    requires Inv(h, t) && slot < |t.index| && Live(t.index[slot]) && |t.freed| < freedCap
    ensures t.count > 0 && t.index[slot] - 1 in t.order && t.index[slot] - 1 < |t.entries|
    ensures var t', e := Remove(t, slot, freedCap), t.index[slot] - 1;
            && Inv(h, t')
            && Bindings(t') == Bindings(t) - {t.entries[e].key}
            && KeysInOrder(t') == KeysInOrder(t)[..Position(t.order, e)] + KeysInOrder(t)[Position(t.order, e) + 1..]
  {
    var p := RemovePosition(t, slot);
    RemoveKeepsInv(h, t, slot, freedCap);
    UnlinkedPayloads(t.entries, t.order[p]);
    RemoveMeaning(h, t, Remove(t, slot, freedCap), p);
  }

  lemma RemoveMeaning<K, V>(h: K -> u64, t: Table<K, V>, t': Table<K, V>, p: nat)
    requires KeysOk(h, t) && Partition(t') && |t'.entries| == |t.entries|
    requires p < |t.order| && t'.order == Without(t.order, p)
    requires forall d :: 0 <= d < |t.entries| ==> SamePayload(t.entries[d], t'.entries[d])
    ensures KeysDistinct(t') && HashesCached(h, t')
    ensures Bindings(t') == Bindings(t) - {t.entries[t.order[p]].key}
    ensures KeysInOrder(t') == KeysInOrder(t)[..p] + KeysInOrder(t)[p + 1..]
  {
    WithoutElements(t.order, p);
    RemoveKeys(h, t, t', t.order[p]);
    RemoveFromOrder(t, t', p);
  }

  lemma RemoveFromOrder<K, V>(t: Table<K, V>, t': Table<K, V>, p: nat)
    requires Partition(t) && Partition(t') && |t'.entries| == |t.entries|
    requires p < |t.order| && t'.order == Without(t.order, p)
    requires forall d :: 0 <= d < |t.entries| ==> SamePayload(t.entries[d], t'.entries[d])
    ensures KeysInOrder(t') == KeysInOrder(t)[..p] + KeysInOrder(t)[p + 1..]
  {
    forall q | 0 <= q < |t'.order|
      ensures t'.entries[t'.order[q]].key == t.entries[t.order[if q < p then q else q + 1]].key
    {
      assert SamePayload(t.entries[t'.order[q]], t'.entries[t'.order[q]]);
    }
  }

  /** Everything but the data of one entry stays as it was. */
  lemma OverwriteParts<K, V>(t: Table<K, V>, d: u32, data: V)
    requires d < |t.entries|
    ensures var entries' := t.entries[d := t.entries[d].(data := data)];
            forall e :: 0 <= e < |t.entries| ==>
              && entries'[e].key == t.entries[e].key && entries'[e].dup == t.entries[e].dup
              && entries'[e].hash == t.entries[e].hash
              && entries'[e].prev == t.entries[e].prev && entries'[e].next == t.entries[e].next
              && (e != d ==> entries'[e].data == t.entries[e].data)
  {}

  /** Overwriting: only the data bound to the key changes, and nothing moves. */
  lemma OverwriteCorrect<K, V>(h: K -> u64, t: Table<K, V>, slot: nat, data: V)
    requires Inv(h, t) && slot < |t.index| && Live(t.index[slot])
    ensures t.index[slot] - 1 in t.order && t.index[slot] - 1 < |t.entries|
    ensures var t', e := Overwrite(t, slot, data), t.entries[t.index[slot] - 1];
            && Inv(h, t')
            && e.key in Bindings(t)
            && Bindings(t') == Bindings(t)[e.key := Binding(e.dup, data)]
            && KeysInOrder(t') == KeysInOrder(t)
  {
    var d := t.index[slot] - 1;
    assert d in t.order;
    OverwriteKeys(h, t, d, data);
    OverwriteReachable(t.index, t.entries, d, data);
    OverwriteLinks(t.order, t.entries, t.head, t.tail, d, data);
    OverwriteBinds(t, d, data);
  }

  lemma OverwriteKeys<K, V>(h: K -> u64, t: Table<K, V>, d: u32, data: V)
    requires KeysOk(h, t) && d in t.order
    ensures var t' := t.(entries := t.entries[d := t.entries[d].(data := data)]); KeysOk(h, t')
  {
    OverwriteParts(t, d, data);
    var t' := t.(entries := t.entries[d := t.entries[d].(data := data)]);
    assert Partition(t');
    assert HashesCached(h, t');
  }

  lemma OverwriteReachable<K, V>(index: seq<u32>, entries: seq<Entry<K, V>>, d: nat, data: V)
    requires MarksInRange(index, |entries|) && Reachable(index, entries) && d < |entries|
    ensures Reachable(index, entries[d := entries[d].(data := data)])
  {
    var entries' := entries[d := entries[d].(data := data)];
    forall i | 0 <= i < |index| && Live(index[i])
      ensures PathOpen(index, Home(entries'[index[i] - 1].hash, |index|), i)
    {
      assert entries'[index[i] - 1].hash == entries[index[i] - 1].hash;
    }
  }

  lemma OverwriteLinks<K, V>(order: seq<u32>, entries: seq<Entry<K, V>>, head: u32, tail: u32, d: nat, data: V)
    requires d < |entries|
    requires Links(order, entries, head, tail)
    ensures Links(order, entries[d := entries[d].(data := data)], head, tail)
  {
    var entries' := entries[d := entries[d].(data := data)];
    forall p: nat | p < |order| ensures LinkedAt(order, entries', p) {
      assert LinkedAt(order, entries, p);
    }
  }

  lemma OverwriteBinds<K, V>(t: Table<K, V>, d: u32, data: V)
    requires Partition(t) && KeysDistinct(t) && d in t.order
    ensures var t', e := t.(entries := t.entries[d := t.entries[d].(data := data)]), t.entries[d];
            && Partition(t') && KeysDistinct(t')
            && e.key in Bindings(t)
            && Bindings(t') == Bindings(t)[e.key := Binding(e.dup, data)]
            && KeysInOrder(t') == KeysInOrder(t)
  {
    OverwriteParts(t, d, data);
    var t' := t.(entries := t.entries[d := t.entries[d].(data := data)]);
    assert Partition(t') && KeysDistinct(t');
    OverwrittenMap(t, t', d, data);
  }

  lemma BoundKeyIsHeld<K, V>(t: Table<K, V>, key: K) returns (e: u32)
    requires Partition(t) && KeysDistinct(t) && key in Bindings(t)
    ensures Holds(t, key, e) && Bindings(t)[key] == Binding(t.entries[e].dup, t.entries[e].data)
  {
    e :| e in t.order && t.entries[e].key == key;
  }

  lemma HeldKeyIsBound<K, V>(t: Table<K, V>, e: u32)
    requires Partition(t) && KeysDistinct(t) && e in t.order
    ensures e < |t.entries| && t.entries[e].key in Bindings(t)
    ensures Bindings(t)[t.entries[e].key] == Binding(t.entries[e].dup, t.entries[e].data)
  {}

  lemma OverwrittenMap<K, V>(t: Table<K, V>, t': Table<K, V>, d: u32, data: V)
    requires Partition(t) && KeysDistinct(t) && d in t.order
    requires Partition(t') && KeysDistinct(t') && t'.order == t.order && |t'.entries| == |t.entries|
    requires forall e :: 0 <= e < |t.entries| ==>
      t'.entries[e].key == t.entries[e].key && t'.entries[e].dup == t.entries[e].dup
      && t'.entries[e].data == if e == d then data else t.entries[e].data
    ensures t.entries[d].key in Bindings(t)
    ensures Bindings(t') == Bindings(t)[t.entries[d].key := Binding(t.entries[d].dup, data)]
    ensures KeysInOrder(t') == KeysInOrder(t)
  {
    HeldKeyIsBound(t, d);
    HeldKeyIsBound(t', d);
    var m := Bindings(t)[t.entries[d].key := Binding(t.entries[d].dup, data)];
    forall k | k in m ensures k in Bindings(t') && Bindings(t')[k] == m[k] {
      var e := BoundKeyIsHeld(t, k);
      HeldKeyIsBound(t', e);
    }
    forall k | k in Bindings(t') ensures k in m {
      var e := BoundKeyIsHeld(t', k);
      HeldKeyIsBound(t, e);
    }
    assert Bindings(t') == m;
  }
}
