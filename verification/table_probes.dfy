/** Linear probing: what the three probe loops find, and why they always find it. */
module TableProbes {
  import opened Bits
  import opened Cyclic
  import opened TableModel

  ghost predicate OnlySlotWith<K, V>(t: Table<K, V>, key: K, i: nat)
    requires MarksInRange(t.index, |t.entries|)
  {
    forall j :: 0 <= j < |t.index| && Live(t.index[j]) && t.entries[t.index[j] - 1].key == key ==> j == i
  }

  lemma OneSlotPerKey<K, V>(t: Table<K, V>, key: K, i: nat)
    requires Partition(t) && SlotsMatch(t.index, t.order) && KeysDistinct(t) && MarksInRange(t.index, |t.entries|)
    requires i < |t.index| && Live(t.index[i]) && t.entries[t.index[i] - 1].key == key
    ensures OnlySlotWith(t, key, i)
  {
    forall j | 0 <= j < |t.index| && Live(t.index[j]) && t.entries[t.index[j] - 1].key == key ensures j == i {
      assert t.index[j] - 1 in t.order && t.index[i] - 1 in t.order;
      assert t.index[j] == t.index[i];
    }
  }

  /** A probe for a bound key runs to the slot of the entry that binds it, however
      many tombstones lie in between and whether or not an `EMPTY` slot exists. */
  lemma {:induction false} LookupReaches<K, V>(t: Table<K, V>, key: K, home: nat, n: nat, i: nat)
    requires MarksInRange(t.index, |t.entries|)
    requires home < |t.index| && i < |t.index| && n <= Distance(home, i, |t.index|)
    requires Live(t.index[i]) && t.entries[t.index[i] - 1].key == key
    requires OnlySlotWith(t, key, i) && PathOpen(t.index, home, i)
    ensures Lookup(t, key, home, n) == Some(i)
    decreases |t.index| - n
  {
    if n < Distance(home, i, |t.index|) {
      SlotInjective(home, n, Distance(home, i, |t.index|), |t.index|);
      assert t.index[Slot(home, n, |t.index|)] != EMPTY;
      LookupReaches(t, key, home, n + 1, i);
    }
  }

  lemma HeldEntryHasSlot<K, V>(t: Table<K, V>, e: u32) returns (i: nat)
    requires SlotsMatch(t.index, t.order) && e in t.order && e < MAX_SLOTS - 2
    ensures i < |t.index| && t.index[i] == e + 1 && Live(t.index[i])
  {
    assert Marked(t.index, e);
    i :| 0 <= i < |t.index| && t.index[i] == e + 1;
  }

  /** Lookup is exact: it finds the slot of the entry that holds the key, and fails only
      when no live entry holds it - also when the probe ran through all the slots. */
  lemma LookupExact<K, V>(h: K -> u64, t: Table<K, V>, key: K)
    requires Inv(h, t)
    ensures var r := Lookup(t, key, Home(h(key), |t.index|), 0);
            match r
            case Some(i) => Holds(t, key, t.index[i] - 1)
            case None => forall e :: !Holds(t, key, e)
  {
    var r := Lookup(t, key, Home(h(key), |t.index|), 0);
    if r.None? {
      forall e | Holds(t, key, e) ensures false {
        var i := HeldEntryHasSlot(t, e);
        OneSlotPerKey(t, key, i);
        LookupReaches(t, key, Home(h(key), |t.index|), 0, i);
      }
    }
  }

  // ---- free slots ----

  lemma WithoutLargest(s: seq<nat>, p: nat, n: nat)
    requires Unique(s) && p < |s| && s[p] == n - 1 && forall q :: 0 <= q < |s| ==> s[q] < n
    ensures var rest := s[..p] + s[p + 1..];
            Unique(rest) && forall q :: 0 <= q < |rest| ==> rest[q] < n - 1
  {
    var rest := s[..p] + s[p + 1..];
    forall q | 0 <= q < |rest| ensures rest[q] == s[if q < p then q else q + 1] {}
    forall a, b | 0 <= a < b < |rest| ensures rest[a] != rest[b] {
      assert s[if a < p then a else a + 1] != s[if b < p then b else b + 1];
    }
    forall q | 0 <= q < |rest| ensures rest[q] < n - 1 {
      assert s[if q < p then q else q + 1] != s[p];
    }
  }

  /** Pigeonhole: distinct numbers below `n` are at most `n` many. */
  lemma {:induction false} DistinctAtMost(s: seq<nat>, n: nat)
    requires Unique(s) && forall p :: 0 <= p < |s| ==> s[p] < n
    ensures |s| <= n
  {
    if s != [] {
      assert s[0] < n;
      if exists p :: 0 <= p < |s| && s[p] == n - 1 {
        var p :| 0 <= p < |s| && s[p] == n - 1;
        WithoutLargest(s, p, n);
        DistinctAtMost(s[..p] + s[p + 1..], n - 1);
      } else {
        DistinctAtMost(s, n - 1);
      }
    }
  }

  /** With fewer used entries than slots, some slot holds no live entry. */
  lemma SomeSlotIsFree<K, V>(t: Table<K, V>) returns (i: nat)
    requires MarksInRange(t.index, |t.entries|) && SlotsMatch(t.index, t.order) && |t.entries| < |t.index|
    ensures i < |t.index| && !Live(t.index[i])
  {
    if forall j :: 0 <= j < |t.index| ==> Live(t.index[j]) {
      var numbers: seq<nat> := seq(|t.index|, j requires 0 <= j < |t.index| => t.index[j] - 1);
      DistinctAtMost(numbers, |t.entries|);
    }
    i :| 0 <= i < |t.index| && !Live(t.index[i]);
  }

  lemma {:induction false} FirstFreeFinds(index: seq<u32>, home: nat, n: nat, i: nat)
    requires home < |index| && i < |index| && n <= Distance(home, i, |index|)
    requires !Live(index[i])
    ensures FirstFree(index, home, n).Some?
    decreases |index| - n
  {
    if Live(index[Slot(home, n, |index|)]) {
      assert n != Distance(home, i, |index|);
      FirstFreeFinds(index, home, n + 1, i);
    }
  }

  /** The slot found is reached without meeting `EMPTY`. */
  lemma {:induction false} FirstFreePath(index: seq<u32>, home: nat, n: nat)
    requires home < |index| && n <= |index|
    requires forall m: nat :: m < n ==> index[Slot(home, m, |index|)] != EMPTY
    ensures var r := FirstFree(index, home, n); r.Some? ==> PathOpen(index, home, r.value)
    decreases |index| - n
  {
    if n < |index| {
      var s := Slot(home, n, |index|);
      if Live(index[s]) {
        FirstFreePath(index, home, n + 1);
      } else {
        SlotInjective(home, n, Distance(home, s, |index|), |index|);
      }
    }
  }

  /** The slot found is the nearest one that is not live. */
  lemma {:induction false} FirstFreeIsNearest(index: seq<u32>, home: nat, n: nat)
    requires home < |index| && n <= |index|
    requires forall m: nat :: m < n ==> Live(index[Slot(home, m, |index|)])
    ensures var r := FirstFree(index, home, n);
            r.Some? ==> forall m: nat :: m < Distance(home, r.value, |index|) ==> Live(index[Slot(home, m, |index|)])
    decreases |index| - n
  {
    if n < |index| {
      var s := Slot(home, n, |index|);
      if Live(index[s]) {
        FirstFreeIsNearest(index, home, n + 1);
      } else {
        SlotInjective(home, n, Distance(home, s, |index|), |index|);
      }
    }
  }

  lemma NoTombstonesNoDifference(index: seq<u32>, home: nat, n: nat)
    requires home < |index| && n <= |index|
    requires DELETED !in index
    ensures FirstEmpty(index, home, n) == FirstFree(index, home, n)
    decreases |index| - n
  {
    if n < |index| {
      var s := Slot(home, n, |index|);
      assert index[s] in index;
    }
  }

  /** An insertion always has a target: the "no slot" exits cannot be taken. */
  lemma FreeSlotExists<K, V>(t: Table<K, V>, home: nat)
    requires MarksInRange(t.index, |t.entries|) && SlotsMatch(t.index, t.order) && |t.entries| < |t.index| && home < |t.index|
    ensures FirstFree(t.index, home, 0).Some?
    ensures PathOpen(t.index, home, FirstFree(t.index, home, 0).value)
  {
    var i := SomeSlotIsFree(t);
    FirstFreeFinds(t.index, home, 0, i);
    FirstFreePath(t.index, home, 0);
  }
}
