/** Growing: every live entry is moved, in slot order, into an index of twice the
    size. Nothing is lost, nothing is bound twice, no tombstone survives. */
module TableRehash {
  import opened Bits
  import opened TableModel
  import opened TableProbes
  import opened TablePlace

  /** The empty table that `htable_create` and the start of a rehash have in common. */
  function Blank<K, V>(slots: nat, freedCap: nat): Table<K, V> {
    Table(seq(slots, _ => EMPTY), [], [], freedCap, 0, NONE, NONE, [])
  }

  /** One round of the rehash loop: old slot `i` goes into the new table. Without an
      `EMPTY` slot the C code gives up; `RehashNeverFails` shows that there is one. */
  function RehashStep<K, V>(src: Table<K, V>, acc: Table<K, V>, i: nat): Table<K, V>
    requires i < |src.index| && MarksInRange(src.index, |src.entries|)
    requires acc.freed == [] && |acc.entries| < MAX_SLOTS - 1 && 0 < |acc.index|
  {
    if !Live(src.index[i]) then acc
    else
      var e := src.entries[src.index[i] - 1];
      match FirstEmpty(acc.index, Home(e.hash, |acc.index|), 0)
      case None => acc
      case Some(slot) => Place(acc, slot, e.key, e.dup, e.data, e.hash, false)
  }

  /** The new table after the first `i` old slots. */
  function Rehashed<K, V>(src: Table<K, V>, i: nat): (acc: Table<K, V>)
    requires i <= |src.index| && 0 < |src.index| <= MAX_SLOTS / 2 && MarksInRange(src.index, |src.entries|)
    ensures acc.freed == [] && |acc.entries| <= i && |acc.index| == 2 * |src.index|
  {
    if i == 0 then Blank(2 * |src.index|, src.freedCap) else RehashStep(src, Rehashed(src, i - 1), i - 1)
  }

  function Grown<K, V>(src: Table<K, V>): Table<K, V>
    requires 0 < |src.index| <= MAX_SLOTS / 2 && MarksInRange(src.index, |src.entries|)
  {
    Rehashed(src, |src.index|)
  }

  /** The live entries met in the first `i` slots, in slot order. */
  function Scan(index: seq<u32>, i: nat): seq<u32>
    requires i <= |index|
  {
    if i == 0 then [] else if Live(index[i - 1]) then Scan(index, i - 1) + [index[i - 1] - 1] else Scan(index, i - 1)
  }

  lemma {:induction false} ScanElements(index: seq<u32>, i: nat, e: u32)
    requires i <= |index|
    ensures e in Scan(index, i) <==> exists j :: 0 <= j < i && Live(index[j]) && index[j] == e + 1
  {
    if i > 0 {
      ScanElements(index, i - 1, e);
      if Live(index[i - 1]) { assert Scan(index, i)[|Scan(index, i - 1)|] == index[i - 1] - 1; }
    }
  }

  lemma {:induction false} ScanUnique(index: seq<u32>, i: nat)
    requires i <= |index|
    requires forall a, b :: 0 <= a < b < |index| && Live(index[a]) ==> index[a] != index[b]
    ensures Unique(Scan(index, i))
  {
    if i > 0 {
      ScanUnique(index, i - 1);
      if Live(index[i - 1]) { ScanElements(index, i - 1, index[i - 1] - 1); }
    }
  }

  /** The scan goes through the slots upwards. */
  lemma {:induction false} ScanAscends(index: seq<u32>, i: nat, j: nat, k: nat) returns (p: nat, q: nat)
    requires j < k < i <= |index| && Live(index[j]) && Live(index[k])
    ensures p < q < |Scan(index, i)|
    ensures Scan(index, i)[p] == index[j] - 1 && Scan(index, i)[q] == index[k] - 1
  {
    if k < i - 1 {
      p, q := ScanAscends(index, i - 1, j, k);
    } else {
      ScanElements(index, k, index[j] - 1);
      p :| 0 <= p < |Scan(index, k)| && Scan(index, k)[p] == index[j] - 1;
      q := |Scan(index, k)|;
    }
  }

  lemma ScanIsOrder(index: seq<u32>, order: seq<u32>)
    requires SlotsMatch(index, order) && Unique(order) && forall p :: 0 <= p < |order| ==> order[p] < NONE - 1
    ensures Unique(Scan(index, |index|))
    ensures forall e :: e in Scan(index, |index|) <==> e in order
    ensures |Scan(index, |index|)| == |order|
  {
    var scan := Scan(index, |index|);
    ScanUnique(index, |index|);
    forall e: u32 ensures e in scan <==> e in order {
      ScanElements(index, |index|, e);
      if e in order { assert Marked(index, e); }
      if e in scan {
        var j :| 0 <= j < |index| && Live(index[j]) && index[j] == e + 1;
        assert index[j] - 1 in order;
      }
    }
    SubsetIsShorter(scan, order);
    SubsetIsShorter(order, scan);
  }

  /** Distinct elements of another sequence are at most as many as it has. */
  lemma {:induction false} SubsetIsShorter(s: seq<u32>, r: seq<u32>)
    requires Unique(s) && forall e :: e in s ==> e in r
    ensures |s| <= |r|
  {
    if s != [] {
      var rest, x := s[..|s| - 1], s[|s| - 1];
      assert x in r;
      var p :| 0 <= p < |r| && r[p] == x;
      var others := Without(r, p);
      forall e | e in rest ensures e in others {
        assert e in s && e != x;
        var q :| 0 <= q < |r| && r[q] == e;
        assert others[if q < p then q else q - 1] == e;
      }
      SubsetIsShorter(rest, others);
    }
  }

  /** The new table holds, in order, copies of the entries scanned so far. */
  ghost predicate Copies<K, V>(src: Table<K, V>, acc: Table<K, V>, scan: seq<u32>) {
    && |acc.entries| == |scan| && |acc.order| == |scan|
    && (forall p :: 0 <= p < |scan| ==> acc.order[p] == p)
    && (forall p :: 0 <= p < |scan| ==> scan[p] < |src.entries| && SamePayload(src.entries[scan[p]], acc.entries[p]))
  }

  ghost predicate RehashInv<K, V>(h: K -> u64, src: Table<K, V>, acc: Table<K, V>, i: nat)
    requires i <= |src.index|
  {
    && Inv(h, acc) && acc.freed == [] && acc.freedCap == src.freedCap && |acc.index| == 2 * |src.index|
    && DELETED !in acc.index
    && Copies(src, acc, Scan(src.index, i))
  }

  lemma BlankInv<K, V>(h: K -> u64, slots: nat, freedCap: nat)
    requires IsPow2(slots) && 2 <= slots <= MAX_SLOTS
    ensures Inv<K, V>(h, Blank(slots, freedCap))
    ensures Bindings<K, V>(Blank(slots, freedCap)) == map[]
    ensures DELETED !in Blank<K, V>(slots, freedCap).index
  {
    var t := Blank<K, V>(slots, freedCap);
    assert forall i :: 0 <= i < |t.index| ==> !Live(t.index[i]);
  }

  /** An entry not scanned yet has a key the new table does not bind yet. */
  lemma NextIsUnbound<K, V>(src: Table<K, V>, acc: Table<K, V>, i: nat)
    requires Partition(src) && SlotsMatch(src.index, src.order) && KeysDistinct(src)
    requires MarksInRange(src.index, |src.entries|)
    requires i < |src.index| && Live(src.index[i]) && Copies(src, acc, Scan(src.index, i))
    ensures Unbound(acc, src.entries[src.index[i] - 1].key)
  {
    hide Partition, SlotsMatch, KeysDistinct, Copies, Scan;
    var e := src.index[i] - 1;
    forall d: u32 ensures !Holds(acc, src.entries[e].key, d) {
      if d in acc.order {
        CopyHasOtherKey(src, acc, i, d);
      }
    }
  }

  /** The slot that the `p`-th scanned entry was met in. */
  lemma ScannedAt(index: seq<u32>, i: nat, p: nat) returns (j: nat)
    requires i <= |index| && p < |Scan(index, i)|
    ensures j < i && Live(index[j]) && index[j] - 1 == Scan(index, i)[p]
  {
    var e := Scan(index, i)[p];
    assert e in Scan(index, i);
    ScanElements(index, i, e);
    j :| 0 <= j < i && Live(index[j]) && index[j] == e + 1;
  }

  lemma OtherEntriesHaveOtherKeys<K, V>(src: Table<K, V>, j: nat, i: nat)
    requires Partition(src) && SlotsMatch(src.index, src.order) && KeysDistinct(src)
    requires j < i < |src.index| && Live(src.index[j]) && Live(src.index[i])
    ensures src.index[j] - 1 < |src.entries| && src.index[i] - 1 < |src.entries|
    ensures src.entries[src.index[j] - 1].key != src.entries[src.index[i] - 1].key
  {
    var d, e := src.index[j] - 1, src.index[i] - 1;
    assert src.index[j] != src.index[i];
    assert d in src.order && e in src.order;
  }

  lemma CopyHasOtherKey<K, V>(src: Table<K, V>, acc: Table<K, V>, i: nat, d: u32)
    requires Partition(src) && SlotsMatch(src.index, src.order) && KeysDistinct(src)
    requires MarksInRange(src.index, |src.entries|)
    requires i < |src.index| && Live(src.index[i]) && Copies(src, acc, Scan(src.index, i))
    requires d in acc.order
    ensures d < |acc.entries| && acc.entries[d].key != src.entries[src.index[i] - 1].key
  {
    var scan := Scan(src.index, i);
    assert d < |scan| && SamePayload(src.entries[scan[d]], acc.entries[d]);
    hide Copies, Scan, Partition, KeysDistinct, SlotsMatch;
    var j := ScannedAt(src.index, i, d);
    OtherEntriesHaveOtherKeys(src, j, i);
  }

  lemma ScanPrefixFits(index: seq<u32>, i: nat)
    requires i < |index| && Live(index[i])
    ensures |Scan(index, i)| < |Scan(index, |index|)|
    decreases |index| - i
  {
    var j := i + 1;
    assert |Scan(index, j)| == |Scan(index, i)| + 1;
    while j < |index|
      invariant i < j <= |index| && |Scan(index, j)| > |Scan(index, i)|
    {
      j := j + 1;
    }
  }

  /** Both the capacity assert and the "no slot" exit of the loop are out of reach. */
  lemma RehashHasRoom<K, V>(h: K -> u64, src: Table<K, V>, acc: Table<K, V>, i: nat, home: nat)
    requires Inv(h, src) && |src.index| <= MAX_SLOTS / 2 && i < |src.index| && Live(src.index[i])
    requires RehashInv(h, src, acc, i) && home < |acc.index|
    ensures |acc.entries| < EntryCapacity(|acc.index|)
    ensures FirstEmpty(acc.index, home, 0).Some?
    ensures PathOpen(acc.index, home, FirstEmpty(acc.index, home, 0).value)
  {
    ScanPrefixFits(src.index, i);
    ScanIsOrder(src.index, src.order);
    FreeSlotExists(acc, home);
    NoTombstonesNoDifference(acc.index, home, 0);
  }

  lemma NextCanBePlaced<K, V>(h: K -> u64, src: Table<K, V>, acc: Table<K, V>, i: nat)
    requires Inv(h, src) && |src.index| <= MAX_SLOTS / 2 && i < |src.index| && Live(src.index[i])
    requires RehashInv(h, src, acc, i)
    ensures src.index[i] - 1 in src.order && src.index[i] - 1 < |src.entries|
    ensures var e := src.entries[src.index[i] - 1];
            var r := FirstEmpty(acc.index, Home(e.hash, |acc.index|), 0);
            r.Some? && CanPlace(h, acc, r.value, e.key, e.hash)
  {
    assert src.index[i] - 1 in src.order;
    RehashHasRoom(h, src, acc, i, Home(src.entries[src.index[i] - 1].hash, |acc.index|));
    NextIsUnbound(src, acc, i);
  }

  lemma RehashStepKeeps<K, V>(h: K -> u64, src: Table<K, V>, acc: Table<K, V>, i: nat)
    requires Inv(h, src) && |src.index| <= MAX_SLOTS / 2 && i < |src.index|
    requires RehashInv(h, src, acc, i) && |acc.entries| < MAX_SLOTS - 1
    ensures RehashInv(h, src, RehashStep(src, acc, i), i + 1)
  {
    if Live(src.index[i]) {
      NextCanBePlaced(h, src, acc, i);
      var e := src.entries[src.index[i] - 1];
      var slot := FirstEmpty(acc.index, Home(e.hash, |acc.index|), 0).value;
      assert Shape(acc) && Partition(acc);
      hide Inv, CanPlace, Partition;
      PlaceCorrect(h, acc, slot, e.key, e.dup, e.data, e.hash, false);
      CopiesOneMore(src, acc, RehashStep(src, acc, i), i, slot);
    }
  }

  lemma CopiesOneMore<K, V>(src: Table<K, V>, acc: Table<K, V>, acc': Table<K, V>, i: nat, slot: nat)
    requires MarksInRange(src.index, |src.entries|) && i < |src.index| && Live(src.index[i])
    requires Shape(acc) && Partition(acc) && acc.freed == [] && |acc.entries| < MAX_SLOTS - 2 && slot < |acc.index|
    requires DELETED !in acc.index && Copies(src, acc, Scan(src.index, i))
    requires var e := src.entries[src.index[i] - 1];
             acc' == Place(acc, slot, e.key, e.dup, e.data, e.hash, false)
    ensures DELETED !in acc'.index
    ensures Copies(src, acc', Scan(src.index, i + 1))
  {
    var e := src.entries[src.index[i] - 1];
    PlacedPayloads(acc, slot, e.key, e.dup, e.data, e.hash, false);
    var scan := Scan(src.index, i);
    forall p | 0 <= p < |scan| ensures SamePayload(src.entries[scan[p]], acc'.entries[p]) {
      assert SamePayload(acc.entries[p], acc'.entries[p]);
    }
  }

  lemma RehashStarts<K, V>(h: K -> u64, src: Table<K, V>)
    requires Inv(h, src) && |src.index| <= MAX_SLOTS / 2
    ensures MarksInRange(src.index, |src.entries|) && 0 < |src.index|
    ensures Rehashed(src, 0) == Blank(2 * |src.index|, src.freedCap)
    ensures RehashInv(h, src, Rehashed(src, 0), 0)
  {
    DoublePow2(|src.index|);
    BlankInv<K, V>(h, 2 * |src.index|, src.freedCap);
  }

  lemma RehashAdvances<K, V>(h: K -> u64, src: Table<K, V>, i: nat, before: Table<K, V>) returns (acc: Table<K, V>)
    requires Inv(h, src) && |src.index| <= MAX_SLOTS / 2 && i < |src.index|
    requires RehashInv(h, src, before, i) && before == Rehashed(src, i)
    ensures RehashInv(h, src, acc, i + 1) && acc == Rehashed(src, i + 1)
  {
    RehashStepKeeps(h, src, before, i);
    acc := RehashStep(src, before, i);
  }

  lemma RehashedKeeps<K, V>(h: K -> u64, src: Table<K, V>, n: nat) returns (acc: Table<K, V>)
    requires Inv(h, src) && |src.index| <= MAX_SLOTS / 2 && n <= |src.index|
    ensures RehashInv(h, src, acc, n) && acc == Rehashed(src, n)
  {
    hide Inv, RehashInv, RehashStep, Rehashed;
    RehashStarts(h, src);
    acc := Rehashed(src, 0);
    for i := 0 to n
      invariant RehashInv(h, src, acc, i) && acc == Rehashed(src, i)
    {
      acc := RehashAdvances(h, src, i, acc);
    }
  }

  /** The rehash loop runs to its end: at every live slot there is room and a target. */
  lemma RehashNeverFails<K, V>(h: K -> u64, src: Table<K, V>, i: nat)
    requires Inv(h, src) && |src.index| <= MAX_SLOTS / 2 && i < |src.index| && Live(src.index[i])
    ensures src.index[i] - 1 in src.order && src.index[i] - 1 < |src.entries|
    ensures var acc := Rehashed(src, i);
            && |acc.entries| < EntryCapacity(|acc.index|)
            && FirstEmpty(acc.index, Home(src.entries[src.index[i] - 1].hash, |acc.index|), 0).Some?
  {
    assert src.index[i] - 1 in src.order;
    var acc := RehashedKeeps(h, src, i);
    RehashHasRoom(h, src, acc, i, Home(src.entries[src.index[i] - 1].hash, 2 * |src.index|));
  }

  ghost function ScanKeys<K, V>(t: Table<K, V>): seq<K>
    requires Partition(t) && SlotsMatch(t.index, t.order) && MarksInRange(t.index, |t.entries|)
  {
    ScanInRange(t);
    var scan := Scan(t.index, |t.index|);
    seq(|scan|, p requires 0 <= p < |scan| => t.entries[scan[p]].key)
  }

  lemma ScanInRange<K, V>(t: Table<K, V>)
    requires MarksInRange(t.index, |t.entries|)
    ensures forall p :: 0 <= p < |Scan(t.index, |t.index|)| ==> Scan(t.index, |t.index|)[p] < |t.entries|
  {
    var scan := Scan(t.index, |t.index|);
    forall p | 0 <= p < |scan| ensures scan[p] < |t.entries| {
      assert scan[p] in scan;
      ScanElements(t.index, |t.index|, scan[p]);
    }
  }

  /** Growth preserves meaning: same bindings, no tombstones, dense entries, intact
      probe chains; the iteration order becomes the old slot order. */
  lemma GrownCorrect<K, V>(h: K -> u64, src: Table<K, V>)
    requires Inv(h, src) && |src.index| <= MAX_SLOTS / 2
    ensures var t := Grown(src);
            && Inv(h, t)
            && Bindings(t) == Bindings(src)
            && KeysInOrder(t) == ScanKeys(src)
            && DELETED !in t.index && t.freed == [] && t.freedCap == src.freedCap
            && |t.entries| == t.count == src.count && |t.index| == 2 * |src.index|
  {
    var t := RehashedKeeps(h, src, |src.index|);
    ScanIsOrder(src.index, src.order);
    GrownBinds(src, t);
  }

  lemma GrownBinds<K, V>(src: Table<K, V>, t: Table<K, V>)
    requires Partition(src) && KeysDistinct(src) && Partition(t) && KeysDistinct(t)
    requires Copies(src, t, Scan(src.index, |src.index|))
    requires forall e :: e in Scan(src.index, |src.index|) <==> e in src.order
    ensures Bindings(t) == Bindings(src)
  {
    var scan, m := Scan(src.index, |src.index|), Bindings(src);
    forall p | p in t.order
      ensures t.entries[p].key in m && m[t.entries[p].key] == Binding(t.entries[p].dup, t.entries[p].data)
    {
      assert SamePayload(src.entries[scan[p]], t.entries[p]);
      assert scan[p] in scan && scan[p] in src.order;
    }
    forall k | k in m ensures exists p :: Holds(t, k, p) {
      var e :| e in src.order && src.entries[e].key == k;
      assert e in scan;
      var p :| 0 <= p < |scan| && scan[p] == e;
      assert SamePayload(src.entries[scan[p]], t.entries[p]);
      assert t.order[p] == p;
      assert Holds(t, k, p);
    }
    BindsExactly(t, m);
  }
}
