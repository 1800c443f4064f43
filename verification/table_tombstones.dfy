/** The load test does not count tombstones: a table of any size can be driven into a
    state without a single `EMPTY` slot, where only the bound on the probe ends a search. */
module TableTombstones {
  import opened Bits
  import opened Cyclic
  import opened TableModel
  import opened TableRehash
  import opened TableSteps
  import opened TableRuns

  const PLENTY: Memory := Memory(true, true, true, true)

  /** Integer keys that hash to themselves. */
  function Same(key: u64): u64 { key }

  /** Insert and delete the first `n` keys, one after the other. */
  function Churn(n: nat): seq<Op<u64, int>>
    requires n <= MAX_SLOTS
  {
    if n == 0 then [] else Churn(n - 1) + [Set(n - 1, 0, PLENTY), Delete(n - 1, PLENTY)]
  }

  /** Nothing is bound, and every insertion so far has left a tombstone. */
  ghost predicate Churned(t: Table<u64, int>, slots: nat, n: nat) {
    && Inv(Same, t) && |t.index| == slots && t.count == 0 && |t.entries| <= 1
    && forall i :: 0 <= i < slots ==> t.index[i] == if i < n then DELETED else EMPTY
  }

  lemma ChurnedFacts(t: Table<u64, int>, slots: nat, n: nat)
    requires Churned(t, slots, n) && 4 <= slots
    ensures NextEntry(t) == 0 && !NeedsGrowth(t) && t.order == []
  {}

  lemma HomeOfKey(n: u64, slots: nat)
    requires n < slots
    ensures Home(Same(n), slots) == n && Slot(n, 0, slots) == n
  {}

  /** A key whose home slot is `EMPTY` is not found, and that slot is free for it. */
  lemma EmptyHome(t: Table<u64, int>, n: u64)
    requires MarksInRange(t.index, |t.entries|) && n < |t.index| && t.index[n] == EMPTY
    ensures Lookup(t, n, n, 0) == None && FirstFree(t.index, n, 0) == Some(n)
  {}

  /** A key in its home slot is found there. */
  lemma KeyAtHome(t: Table<u64, int>, n: u64)
    requires MarksInRange(t.index, |t.entries|) && n < |t.index|
    requires t.index[n] == 1 && |t.entries| == 1 && t.entries[0].key == n
    ensures Lookup(t, n, n, 0) == Some(n)
  {}

  /** The next key lands in its home slot, without growth. */
  lemma NextKeyLandsAtHome(t: Table<u64, int>, slots: nat, n: nat, dup: nat)
    requires Churned(t, slots, n) && n < slots && 4 <= slots <= MAX_SLOTS
    ensures var t' := SetStep(Same, t, n, 0, dup, PLENTY).table;
            && Inv(Same, t') && t'.index == t.index[n := 1] && t'.count == 1 && |t'.entries| == 1
            && t'.entries[0].key == n
  {
    hide Inv, Store, SetStep, Lookup, FirstFree, NeedsGrowth;
    ChurnedFacts(t, slots, n);
    StepIsStore(Same, t, n, 0, dup, PLENTY);
    StoreFacts(Same, t, n, 0, dup, PLENTY);
    HomeOfKey(n, slots);
    EmptyHome(t, n);
  }

  lemma DeletionLeavesTombstone(t: Table<u64, int>, slots: nat, n: nat)
    requires Inv(Same, t) && |t.index| == slots && n < slots <= MAX_SLOTS
    requires t.index[n] == 1 && t.count == 1 && |t.entries| == 1 && t.entries[0].key == n
    ensures var t' := DeleteStep(Same, t, n, PLENTY).table;
            Inv(Same, t') && t'.index == t.index[n := DELETED] && t'.count == 0 && |t'.entries| == 1
  {
    hide Inv, DeleteStep, Lookup, Bindings;
    DeleteCorrect(Same, t, n, PLENTY);
    DeleteFacts(Same, t, n, PLENTY);
    HomeOfKey(n, slots);
    KeyAtHome(t, n);
  }

  lemma {:induction false} AfterOneMore<K, V>(h: K -> u64, r: Run<K, V>, ops: seq<Op<K, V>>, a: Op<K, V>)
    ensures After(h, r, ops + [a]) == Step(h, After(h, r, ops), a)
    decreases |ops|
  {
    hide Step;
    if ops == [] {
      assert (ops + [a])[0] == a && (ops + [a])[1..] == [];
    } else {
      assert (ops + [a])[1..] == ops[1..] + [a];
      AfterOneMore(h, Step(h, r, ops[0]), ops[1..], a);
    }
  }

  lemma AfterSetAndDelete(r: Run<u64, int>, slots: nat, n: nat)
    requires Churned(r.table, slots, n) && n < slots && 4 <= slots <= MAX_SLOTS
    ensures Churned(Step(Same, Step(Same, r, Set(n, 0, PLENTY)), Delete(n, PLENTY)).table, slots, n + 1)
  {
    hide Inv, SetStep, DeleteStep, NeedsGrowth, Bindings;
    NextKeyLandsAtHome(r.table, slots, n, r.issued);
    DeletionLeavesTombstone(SetStep(Same, r.table, n, 0, r.issued, PLENTY).table, slots, n);
  }

  lemma BlankIsChurned(slots: nat)
    requires IsPow2(slots) && 4 <= slots <= MAX_SLOTS
    ensures Churned(After(Same, Start<u64, int>(slots), []).table, slots, 0)
  {
    hide Inv;
    BlankInv<u64, int>(Same, slots, 0);
  }

  lemma {:induction false} ChurnLeavesTombstones(slots: nat, n: nat)
    requires IsPow2(slots) && 4 <= slots <= MAX_SLOTS && n <= slots
    ensures Churned(After(Same, Start<u64, int>(slots), Churn(n)).table, slots, n)
  {
    hide Step, Churned, After;
    if n == 0 {
      BlankIsChurned(slots);
    } else {
      ChurnLeavesTombstones(slots, n - 1);
      var start, ops := Start<u64, int>(slots), Churn(n - 1);
      AfterOneMore(Same, start, ops, Set(n - 1, 0, PLENTY));
      AfterOneMore(Same, start, ops + [Set(n - 1, 0, PLENTY)], Delete(n - 1, PLENTY));
      assert Churn(n) == ops + [Set(n - 1, 0, PLENTY)] + [Delete(n - 1, PLENTY)];
      AfterSetAndDelete(After(Same, start, ops), slots, n - 1);
    }
  }

  /** What the first `k` calls of a churn are: whole rounds, and perhaps one more insertion. */
  lemma {:induction false} ChurnPrefix(n: nat, k: nat) returns (m: nat)
    requires n <= MAX_SLOTS && k <= 2 * n
    ensures |Churn(n)| == 2 * n && m <= n
    ensures if k % 2 == 0 then Churn(n)[..k] == Churn(m)
            else m < n && Churn(n)[..k] == Churn(m) + [Set(m, 0, PLENTY)]
  {
    if n == 0 {
      m := 0;
    } else if k <= 2 * (n - 1) {
      m := ChurnPrefix(n - 1, k);
      assert Churn(n)[..k] == Churn(n - 1)[..k];
    } else {
      m := ChurnPrefix(n - 1, 0);
      m := if k == 2 * n then n else n - 1;
      assert Churn(n) == Churn(n - 1) + [Set(n - 1, 0, PLENTY), Delete(n - 1, PLENTY)];
      assert k == 2 * n ==> Churn(n)[..k] == Churn(n);
      assert k == 2 * n - 1 ==> Churn(n)[..k] == Churn(n - 1) + [Set(n - 1, 0, PLENTY)];
    }
  }

  /** Along the way never more than one key is bound, and the table does not grow. */
  lemma ChurnStaysSmall(slots: nat, k: nat)
    requires IsPow2(slots) && 4 <= slots <= MAX_SLOTS && k <= 2 * slots
    ensures k <= |Churn(slots)|
    ensures var t := After(Same, Start<u64, int>(slots), Churn(slots)[..k]).table;
            t.count <= 1 && |t.index| == slots
  {
    var m := ChurnPrefix(slots, k);
    ChurnLeavesTombstones(slots, m);
    if k % 2 == 1 { LastInsertion(slots, m); }
  }

  lemma LastInsertion(slots: nat, n: nat)
    requires IsPow2(slots) && 4 <= slots <= MAX_SLOTS && n < slots
    ensures var t := After(Same, Start<u64, int>(slots), Churn(n) + [Set(n, 0, PLENTY)]).table;
            && Inv(Same, t) && |t.index| == slots && t.count == 1
            && forall i :: 0 <= i < slots ==> t.index[i] == if i < n then DELETED else if i == n then 1 else EMPTY
  {
    ChurnLeavesTombstones(slots, n);
    var r := After(Same, Start<u64, int>(slots), Churn(n));
    AfterOneMore(Same, Start<u64, int>(slots), Churn(n), Set(n, 0, PLENTY));
    NextKeyLandsAtHome(r.table, slots, n, r.issued);
  }

  /** For every capacity there is a run of calls, never with more than one key bound, after
      which no slot is `EMPTY` and none of the calls has made the table grow. */
  lemma TombstonesFillTheIndex(slots: nat)
    requires IsPow2(slots) && 4 <= slots <= MAX_SLOTS
    ensures var ops := Churn(slots - 1) + [Set(slots - 1, 0, PLENTY)];
            && (forall k :: 0 <= k <= |ops| ==>
                  var t := After(Same, Start<u64, int>(slots), ops[..k]).table; t.count <= 1 && |t.index| == slots)
            && var t := After(Same, Start<u64, int>(slots), ops).table;
               Inv(Same, t) && EMPTY !in t.index && t.count == 1
  {
    hide Churn, After, Inv;
    var ops := Churn(slots - 1) + [Set(slots - 1, 0, PLENTY)];
    AlmostAllRounds(slots);
    forall k | 0 <= k <= |ops|
      ensures var t := After(Same, Start<u64, int>(slots), ops[..k]).table; t.count <= 1 && |t.index| == slots
    {
      assert ops[..k] == Churn(slots)[..k];
      ChurnStaysSmall(slots, k);
    }
    LastInsertion(slots, slots - 1);
  }

  lemma AlmostAllRounds(n: nat)
    requires 0 < n <= MAX_SLOTS
    ensures |Churn(n)| == 2 * n
    ensures Churn(n - 1) + [Set(n - 1, 0, PLENTY)] == Churn(n)[..2 * n - 1]
  {
    var _ := ChurnPrefix(n - 1, 0);
    assert Churn(n) == Churn(n - 1) + [Set(n - 1, 0, PLENTY), Delete(n - 1, PLENTY)];
  }
}
