/** Walking the iteration list, also while the body of the loop deletes the current entry. */
module TableWalk {
  import opened Bits
  import opened TableModel
  import opened TablePlace
  import opened TableRemove
  import opened TableSteps

  ghost function DataInOrder<K, V>(t: Table<K, V>): seq<V>
    requires Partition(t)
  {
    seq(|t.order|, p requires 0 <= p < |t.order| => t.entries[t.order[p]].data)
  }

  /** Iteration meets every bound key exactly once and nothing else. */
  lemma IterationIsComplete<K, V>(h: K -> u64, t: Table<K, V>)
    requires Inv(h, t)
    ensures Unique(KeysInOrder(t)) && |KeysInOrder(t)| == t.count
    ensures forall k :: k in KeysInOrder(t) <==> k in Contents(t)
  {
    var keys := KeysInOrder(t);
    forall p, q | 0 <= p < q < |keys| ensures keys[p] != keys[q] {
      assert t.order[p] in t.order && t.order[q] in t.order && t.order[p] != t.order[q];
    }
    forall k ensures k in keys <==> k in Contents(t) {
      if k in keys {
        var p :| 0 <= p < |keys| && keys[p] == k;
        assert t.order[p] in t.order;
        HeldKeyIsBound(t, t.order[p]);
      }
      if k in Contents(t) {
        var e := BoundKeyIsHeld(t, k);
        var p :| 0 <= p < |t.order| && t.order[p] == e;
        assert keys[p] == k;
      }
    }
  }

  /** The data met along the way are the plain map's, key by key; teardown hands over
      exactly these, so nothing deleted or overwritten is among them. */
  lemma DataFollowKeys<K, V>(h: K -> u64, t: Table<K, V>, p: nat)
    requires Inv(h, t) && p < t.count
    ensures |KeysInOrder(t)| == |DataInOrder(t)| == t.count
    ensures KeysInOrder(t)[p] in Contents(t) && DataInOrder(t)[p] == Contents(t)[KeysInOrder(t)[p]]
  {
    HeldKeyIsBound(t, t.order[p]);
  }

  /** `next` and `prev` of live entries are inverse to each other, up to the two ends. */
  lemma LinksAreInverse<K, V>(h: K -> u64, t: Table<K, V>, e: u32)
    requires Inv(h, t) && e in t.order
    ensures e < |t.entries|
    ensures var next, prev := t.entries[e].next, t.entries[e].prev;
            && (next == NONE <==> e == t.tail)
            && (prev == NONE <==> e == t.head)
            && (next != NONE ==> next in t.order && next < |t.entries| && t.entries[next].prev == e)
            && (prev != NONE ==> prev in t.order && prev < |t.entries| && t.entries[prev].next == e)
  {
    var p :| 0 <= p < |t.order| && t.order[p] == e;
    assert LinkedAt(t.order, t.entries, p);
    if p + 1 < |t.order| {
      assert LinkedAt(t.order, t.entries, p + 1);
      assert t.order[p] != t.order[|t.order| - 1];
    }
    if p > 0 {
      assert LinkedAt(t.order, t.entries, p - 1);
      assert t.order[0] != t.order[p];
    }
  }

  /** What is left of a list when the marked elements are taken out. */
  function Kept(s: seq<u32>, gone: seq<bool>): seq<u32>
    requires |gone| <= |s|
  {
    if gone == [] then [] else
      Kept(s, gone[..|gone| - 1]) + if gone[|gone| - 1] then [] else [s[|gone| - 1]]
  }

  function Dropped<K>(keys: seq<K>, gone: seq<bool>): set<K>
    requires |gone| <= |keys|
  {
    set p | 0 <= p < |gone| && gone[p] :: keys[p]
  }

  /** Only what was asked for is deleted, and all of it unless memory runs out. */
  ghost predicate DropsAsAsked<K>(keys: seq<K>, gone: seq<bool>, drop: K -> bool, reallocOk: nat -> bool)
    requires |gone| <= |keys|
  {
    forall p :: 0 <= p < |gone| ==> (gone[p] ==> drop(keys[p])) && (drop(keys[p]) && reallocOk(p) ==> gone[p])
  }

  lemma DropsNothing<K>(keys: seq<K>, drop: K -> bool, reallocOk: nat -> bool)
    ensures DropsAsAsked(keys, [], drop, reallocOk)
    ensures Dropped(keys, []) == {}
  {}

  lemma DropsOneMore<K>(keys: seq<K>, gone: seq<bool>, b: bool, drop: K -> bool, reallocOk: nat -> bool)
    requires |gone| < |keys| && DropsAsAsked(keys, gone, drop, reallocOk)
    requires (b ==> drop(keys[|gone|])) && (drop(keys[|gone|]) && reallocOk(|gone|) ==> b)
    ensures DropsAsAsked(keys, gone + [b], drop, reallocOk)
    ensures Dropped(keys, gone + [b]) == Dropped(keys, gone) + if b then {keys[|gone|]} else {}
  {
    var more := gone + [b];
    forall k | k in Dropped(keys, gone) ensures k in Dropped(keys, more) {
      var p :| 0 <= p < |gone| && gone[p] && keys[p] == k;
      assert more[p];
    }
    if b { assert more[|gone|]; }
    forall k | k in Dropped(keys, more) ensures k in Dropped(keys, gone) || (b && k == keys[|gone|]) {
      var p :| 0 <= p < |more| && more[p] && keys[p] == k;
      if p < |gone| { assert gone[p]; }
    }
  }

  ghost function KeysHeld<K, V>(h: K -> u64, t: Table<K, V>): (keys: seq<K>)
    requires Inv(h, t)
    ensures |keys| == |t.order| && keys == KeysInOrder(t)
  {
    KeysInOrder(t)
  }

  /** The walk stands at position `n` of the list as it was: what it kept lies behind it,
      the rest ahead is untouched. */
  ghost predicate Walking<K, V>(t: Table<K, V>, was: seq<u32>, keys: seq<K>, n: nat, gone: seq<bool>, idx: u32) {
    && n == |gone| <= |was| == |keys|
    && idx == (if n < |was| then was[n] else NONE)
    && t.order == Kept(was, gone) + was[n..]
    && NONE !in was
    && forall p :: n <= p < |was| ==> was[p] < |t.entries| && t.entries[was[p]].key == keys[p]
  }

  lemma WalkStarts<K, V>(h: K -> u64, t: Table<K, V>)
    requires Inv(h, t)
    ensures Walking(t, t.order, KeysHeld(h, t), 0, [], t.head)
  {
    NoneNotListed(t);
    assert Kept(t.order, []) + t.order[0..] == t.order;
  }

  lemma NoneNotListed<K, V>(t: Table<K, V>)
    requires Shape(t) && Partition(t)
    ensures NONE !in t.order
  {
    forall p | 0 <= p < |t.order| ensures t.order[p] != NONE {}
  }

  lemma WalkAt<K, V>(t: Table<K, V>, was: seq<u32>, keys: seq<K>, n: nat, gone: seq<bool>, idx: u32)
    requires Walking(t, was, keys, n, gone, idx) && idx != NONE
    ensures n < |was| && idx == was[n]
  {}

  lemma WalkEnds<K, V>(t: Table<K, V>, was: seq<u32>, keys: seq<K>, n: nat, gone: seq<bool>)
    requires Walking(t, was, keys, n, gone, NONE)
    ensures n == |was| && t.order == Kept(was, gone)
  {
    assert forall p :: 0 <= p < |was| ==> was[p] in was;
  }

  lemma KeptOneMore(was: seq<u32>, gone: seq<bool>, b: bool)
    requires |gone| < |was|
    ensures var q := |Kept(was, gone)|; var t := Kept(was, gone) + was[|gone|..];
            && t[q] == was[|gone|]
            && (b ==> Kept(was, gone + [b]) + was[|gone| + 1..] == Without(t, q))
            && (!b ==> Kept(was, gone + [b]) + was[|gone| + 1..] == t)
            && NextOf(t, q) == if |gone| + 1 < |was| then was[|gone| + 1] else NONE
  {
    hide Kept, Without, NextOf;
    var front, x, back := Kept(was, gone), was[|gone|], was[|gone| + 1..];
    KeptUnfolds(was, gone, b);
    assert was[|gone|..] == [x] + back;
    TakeOneOut(front, x, back);
    assert back != [] ==> back[0] == was[|gone| + 1];
    assert front + [] == front;
  }

  lemma KeptUnfolds(was: seq<u32>, gone: seq<bool>, b: bool)
    requires |gone| < |was|
    ensures Kept(was, gone + [b]) == Kept(was, gone) + if b then [] else [was[|gone|]]
  {
    assert (gone + [b])[..|gone|] == gone;
  }

  lemma TakeOneOut(front: seq<u32>, x: u32, back: seq<u32>)
    ensures var t := front + ([x] + back);
            && t[|front|] == x && Without(t, |front|) == front + back && (front + [x]) + back == t
            && NextOf(t, |front|) == if back != [] then back[0] else NONE
  {}

  lemma WalkFacts<K, V>(h: K -> u64, t: Table<K, V>, was: seq<u32>, keys: seq<K>, n: nat, gone: seq<bool>, idx: u32)
    requires Inv(h, t) && Walking(t, was, keys, n, gone, idx) && idx != NONE
    ensures n == |gone| < |was| == |keys| && idx == was[n] && idx < |t.entries| && t.entries[idx].key == keys[n]
    ensures Walking(t, was, keys, n + 1, gone + [false], t.entries[idx].next)
  {
    KeptOneMore(was, gone, false);
    assert LinkedAt(t.order, t.entries, |Kept(was, gone)|);
  }

  /** Looking up the key of the entry at position `q` of the list leads back to that entry. */
  lemma LookupAt<K, V>(h: K -> u64, t: Table<K, V>, q: nat) returns (slot: nat)
    requires Inv(h, t) && q < |t.order|
    ensures t.order[q] < |t.entries|
    ensures Lookup(t, t.entries[t.order[q]].key, Home(h(t.entries[t.order[q]].key), |t.index|), 0) == Some(slot)
    ensures slot < |t.index| && t.index[slot] - 1 == t.order[q] && Position(t.order, t.order[q]) == q
    ensures t.order[q] in t.order
    ensures t.entries[t.order[q]].key in Bindings(t)
  {
    var e := t.order[q];
    var key := t.entries[e].key;
    assert e in t.order;
    HeldKeyIsBound(t, e);
    LookupDecides(h, t, key);
    slot := Lookup(t, key, Home(h(key), |t.index|), 0).value;
    assert t.index[slot] - 1 == e;
    assert t.order[Position(t.order, e)] == e;
  }

  /** Deleting the entry at position `q` of the list by its key; its own link stays readable. */
  lemma DeleteAt<K, V>(h: K -> u64, t: Table<K, V>, q: nat, mem: Memory)
    requires Inv(h, t) && q < |t.order|
    ensures var e := t.order[q];
            && e < |t.entries|
            && var o := DeleteStep(h, t, t.entries[e].key, mem);
               && (mem.freedOk ==> o.data.Some?)
               && (o.data.None? ==> o.table == t)
               && (o.data.Some? ==>
                     && o.table.order == Without(t.order, q) && o.table.entries == UnlinkedEntries(t.entries, e))
  {
    hide Inv, Lookup, UnlinkedEntries, Position, Without, Bindings;
    var slot := LookupAt(h, t, q);
    DeleteCorrect(h, t, t.entries[t.order[q]].key, mem);
  }

  lemma UnlinkedKeepsOwnLink<K, V>(t: Table<K, V>, q: nat)
    requires Partition(t) && Links(t.order, t.entries, t.head, t.tail) && q < |t.order| && |t.entries| < NONE
    ensures t.order[q] < |t.entries|
    ensures UnlinkedEntries(t.entries, t.order[q])[t.order[q]].next == NextOf(t.order, q)
  {
    var e := t.order[q];
    assert LinkedAt(t.order, t.entries, q);
    UnlinkedLinks(t.entries, e, e);
    assert e == t.entries[e].prev ==> q > 0 && t.order[q - 1] == t.order[q];
  }

  lemma WalkAfterUnlink<K, V>(t: Table<K, V>, t': Table<K, V>, was: seq<u32>, keys: seq<K>, n: nat, gone: seq<bool>,
                              idx: u32)
    requires Walking(t, was, keys, n, gone, idx) && idx != NONE
    requires |t'.entries| == |t.entries| && forall d :: 0 <= d < |t.entries| ==> SamePayload(t.entries[d], t'.entries[d])
    requires |Kept(was, gone)| < |t.order| && t'.order == Without(t.order, |Kept(was, gone)|)
    requires idx < |t.entries| && t'.entries[idx].next == NextOf(t.order, |Kept(was, gone)|)
    ensures Walking(t', was, keys, n + 1, gone + [true], t'.entries[idx].next)
  {
    WalkAt(t, was, keys, n, gone, idx);
    KeptOneMore(was, gone, true);
    hide Kept;
    forall p | n + 1 <= p < |was| ensures was[p] < |t'.entries| && t'.entries[was[p]].key == keys[p] {
      assert SamePayload(t.entries[was[p]], t'.entries[was[p]]);
    }
  }

  /** Deleting the entry the walk stands on: the walk goes on behind it. */
  lemma WalkDelete<K, V>(h: K -> u64, t: Table<K, V>, was: seq<u32>, keys: seq<K>, n: nat, gone: seq<bool>, idx: u32,
                         mem: Memory)
    requires Inv(h, t) && Walking(t, was, keys, n, gone, idx) && idx != NONE
    ensures n < |was| && n < |keys|
    ensures var o := DeleteStep(h, t, keys[n], mem);
            && (mem.freedOk ==> o.data.Some?)
            && (o.data.None? ==> o.table == t)
            && (o.data.Some? ==>
                  idx < |o.table.entries| &&
                  Walking(o.table, was, keys, n + 1, gone + [true], o.table.entries[idx].next))
  {
    WalkFacts(h, t, was, keys, n, gone, idx);
    WalkPosition(t, was, keys, n, gone, idx);
    var q := |Kept(was, gone)|;
    assert Partition(t) && Links(t.order, t.entries, t.head, t.tail) && |t.entries| < NONE;
    hide Inv, DeleteStep, UnlinkedEntries, Kept, Walking, Partition, Links;
    DeleteAt(h, t, q, mem);
    UnlinkedKeepsOwnLink(t, q);
    UnlinkedPayloads(t.entries, idx);
    var o := DeleteStep(h, t, keys[n], mem);
    if o.data.Some? {
      WalkAfterUnlink(t, o.table, was, keys, n, gone, idx);
    }
  }

  lemma WalkPosition<K, V>(t: Table<K, V>, was: seq<u32>, keys: seq<K>, n: nat, gone: seq<bool>, idx: u32)
    requires Walking(t, was, keys, n, gone, idx) && idx != NONE
    ensures n == |gone| <= |was|
    ensures |Kept(was, gone)| < |t.order| && t.order[|Kept(was, gone)|] == idx
  {
    KeptOneMore(was, gone, true);
  }

  /** Everything a deleting walk over `t0` has achieved when it stands at `idx` in state `t`. */
  ghost predicate Progress<K, V>(h: K -> u64, t0: Table<K, V>, t: Table<K, V>, visited: seq<u32>, gone: seq<bool>,
                                 idx: u32, drop: K -> bool, reallocOk: nat -> bool) {
    && Inv(h, t0) && |visited| == |gone| <= |t0.order|
    && Walking(t, t0.order, KeysHeld(h, t0), |gone|, gone, idx)
    && visited == t0.order[..|visited|]
    && Contents(t) == Contents(t0) - Dropped(KeysHeld(h, t0), gone)
    && DropsAsAsked(KeysHeld(h, t0), gone, drop, reallocOk)
  }

  lemma ProgressStarts<K, V>(h: K -> u64, t0: Table<K, V>, drop: K -> bool, reallocOk: nat -> bool)
    requires Inv(h, t0)
    ensures Progress(h, t0, t0, [], [], t0.head, drop, reallocOk)
  {
    WalkStarts(h, t0);
    hide Inv, Walking, Contents, DropsAsAsked, Dropped;
    DropsNothing(KeysHeld(h, t0), drop, reallocOk);
  }

  lemma ProgressFacts<K, V>(h: K -> u64, t0: Table<K, V>, t: Table<K, V>, visited: seq<u32>, gone: seq<bool>,
                            idx: u32, drop: K -> bool, reallocOk: nat -> bool)
    requires Inv(h, t) && Progress(h, t0, t, visited, gone, idx, drop, reallocOk) && idx != NONE
    ensures Inv(h, t0) && |visited| == |gone| < |t0.order|
    ensures Walking(t, t0.order, KeysHeld(h, t0), |gone|, gone, idx)
    ensures idx < |t.entries| && t.entries[idx].key == KeysHeld(h, t0)[|gone|]
  {
    hide Inv, Contents, DropsAsAsked, Dropped;
    WalkFacts(h, t, t0.order, KeysHeld(h, t0), |gone|, gone, idx);
  }

  lemma ProgressStep<K, V>(h: K -> u64, t0: Table<K, V>, t: Table<K, V>, t': Table<K, V>, visited: seq<u32>, gone: seq<bool>,
                           idx: u32, b: bool, next: u32, drop: K -> bool, reallocOk: nat -> bool)
    requires Progress(h, t0, t, visited, gone, idx, drop, reallocOk) && idx != NONE && |gone| < |t0.order|
    requires Walking(t', t0.order, KeysHeld(h, t0), |gone| + 1, gone + [b], next)
    requires Contents(t') == Contents(t) - if b then {KeysHeld(h, t0)[|gone|]} else {}
    requires b ==> drop(KeysHeld(h, t0)[|gone|])
    requires drop(KeysHeld(h, t0)[|gone|]) && reallocOk(|gone|) ==> b
    ensures Progress(h, t0, t', visited + [idx], gone + [b], next, drop, reallocOk)
  {
    hide Inv, Walking, Contents, DropsAsAsked, Dropped, KeysHeld;
    var keys := KeysHeld(h, t0);
    WalkAt(t, t0.order, keys, |gone|, gone, idx);
    DropsOneMore(keys, gone, b, drop, reallocOk);
    assert t0.order[..|gone| + 1] == t0.order[..|gone|] + [t0.order[|gone|]];
  }

  lemma ProgressEnds<K, V>(h: K -> u64, t0: Table<K, V>, t: Table<K, V>, visited: seq<u32>, gone: seq<bool>,
                           drop: K -> bool, reallocOk: nat -> bool)
    requires Progress(h, t0, t, visited, gone, NONE, drop, reallocOk)
    ensures Inv(h, t0) && visited == t0.order && |gone| == |visited| == |KeysHeld(h, t0)|
    ensures t.order == Kept(t0.order, gone)
    ensures Contents(t) == Contents(t0) - Dropped(KeysHeld(h, t0), gone)
    ensures DropsAsAsked(KeysHeld(h, t0), gone, drop, reallocOk)
  {
    hide Inv, Contents, DropsAsAsked, Dropped, KeysHeld;
    WalkEnds(t, t0.order, KeysHeld(h, t0), |gone|, gone);
  }
}
