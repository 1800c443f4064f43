/** Whole runs of calls on one table: the map it represents, the duplicated keys it
    owns, and the space it takes, whatever allocations fail on the way. */
module TableRuns {
  import opened Bits
  import opened TableModel
  import opened TablePlace
  import opened TableRehash
  import opened TableSteps

  datatype Op<K, V> =
    | Set(key: K, data: V, mem: Memory)
    | Get(key: K)
    | Delete(key: K, mem: Memory)

  /** What a call answers. */
  datatype Reply<V> =
    | SetReply(ok: bool, flag: Option<bool>)
    | GetReply(found: Option<V>)
    | DeleteReply(data: Option<V>)

  /** The table together with the history a run leaves: how many key duplicates were
      made, which of them were freed, the largest count ever reached, and how many
      entries rehashes copied. */
  datatype Run<K, V> = Run(table: Table<K, V>, issued: nat, freedKeys: seq<nat>, peak: nat, copied: nat)

  function Max(a: nat, b: nat): nat {
    if a < b then b else a
  }

  /** Only states that satisfy the invariant run; `StepKeepsInv` shows that no other is reached. */
  ghost function Answer<K, V>(h: K -> u64, r: Run<K, V>, op: Op<K, V>): Reply<V> {
    if !Inv(h, r.table) then GetReply(None)
    else match op
      case Set(key, data, mem) => var o := SetStep(h, r.table, key, data, r.issued, mem); SetReply(o.ok, o.flag)
      case Get(key) => GetReply(GetStep(h, r.table, key))
      case Delete(key, mem) => DeleteReply(DeleteStep(h, r.table, key, mem).data)
  }

  ghost function AfterSet<K, V>(h: K -> u64, r: Run<K, V>, key: K, data: V, mem: Memory): Run<K, V>
    requires Inv(h, r.table)
  {
    var o := SetStep(h, r.table, key, data, r.issued, mem);
    Run(o.table,
        if o.flag == Some(true) then r.issued + 1 else r.issued,
        r.freedKeys,
        Max(r.peak, o.table.count),
        if NeedsGrowth(r.table) && GrowthGranted(|r.table.index|, mem) then r.copied + |Grown(r.table).entries| else r.copied)
  }

  ghost function AfterDelete<K, V>(h: K -> u64, r: Run<K, V>, key: K, mem: Memory): Run<K, V>
    requires Inv(h, r.table)
  {
    var o := DeleteStep(h, r.table, key, mem);
    Run(o.table, r.issued,
        if o.freed.Some? then r.freedKeys + [o.freed.value] else r.freedKeys,
        r.peak, r.copied)
  }

  ghost function Step<K, V>(h: K -> u64, r: Run<K, V>, op: Op<K, V>): Run<K, V> {
    if !Inv(h, r.table) then r
    else match op
      case Set(key, data, mem) => AfterSet(h, r, key, data, mem)
      case Get(key) => r
      case Delete(key, mem) => AfterDelete(h, r, key, mem)
  }

  ghost function After<K, V>(h: K -> u64, r: Run<K, V>, ops: seq<Op<K, V>>): Run<K, V>
    decreases |ops|
  {
    if ops == [] then r else After(h, Step(h, r, ops[0]), ops[1..])
  }

  lemma StepKeepsInv<K, V>(h: K -> u64, r: Run<K, V>, op: Op<K, V>)
    requires Inv(h, r.table)
    ensures Inv(h, Step(h, r, op).table)
  {
    hide Inv;
    match op
    case Set(key, data, mem) => SetCorrect(h, r.table, key, data, r.issued, mem);
    case Get(key) =>
    case Delete(key, mem) => DeleteCorrect(h, r.table, key, mem);
  }

  /** The structural invariant holds after every call of every run. */
  lemma {:induction false} RunKeepsInv<K, V>(h: K -> u64, r: Run<K, V>, ops: seq<Op<K, V>>)
    requires Inv(h, r.table)
    ensures Inv(h, After(h, r, ops).table)
    decreases |ops|
  {
    hide Inv, Step;
    if ops != [] {
      StepKeepsInv(h, r, ops[0]);
      RunKeepsInv(h, Step(h, r, ops[0]), ops[1..]);
    }
  }

  ghost function Start<K, V>(slots: nat): Run<K, V> {
    Run(Blank(slots, 0), 0, [], 0, 0)
  }

  // ---- the map of a run ----

  /** What the answers say happened to a plain map. */
  function Replay<K(==), V>(m: map<K, V>, op: Op<K, V>, reply: Reply<V>): map<K, V> {
    match (op, reply)
    case (Set(key, data, _), SetReply(ok, _)) => if ok then m[key := data] else m
    case (Delete(key, _), DeleteReply(data)) => if data.Some? then m - {key} else m
    case _ => m
  }

  /** The answers a plain map of at most `slots` index slots may give: the right one, or
      a failure that a failed allocation explains. */
  predicate Honest<K(==), V(==)>(m: map<K, V>, slots: nat, op: Op<K, V>, reply: Reply<V>) {
    match (op, reply)
    case (Set(key, _, mem), SetReply(ok, flag)) =>
      && (ok ==> flag == Some(key !in m))
      && (!ok ==> !(GrowthGranted(slots, mem) && mem.dupOk))
    case (Get(key), GetReply(found)) => found == if key in m then Some(m[key]) else None
    case (Delete(key, mem), DeleteReply(data)) =>
      && (data.Some? ==> key in m && data == Some(m[key]))
      && (data.None? ==> key !in m || !mem.freedOk)
    case _ => false
  }

  lemma StepRefines<K, V>(h: K -> u64, r: Run<K, V>, op: Op<K, V>)
    requires Inv(h, r.table)
    ensures Honest(Contents(r.table), |r.table.index|, op, Answer(h, r, op))
    ensures Contents(Step(h, r, op).table) == Replay(Contents(r.table), op, Answer(h, r, op))
  {
    hide Inv, Bindings, SetStep, DeleteStep, GetStep;
    match op
    case Set(key, data, mem) => SetCorrect(h, r.table, key, data, r.issued, mem);
    case Get(key) => GetCorrect(h, r.table, key);
    case Delete(key, mem) => DeleteCorrect(h, r.table, key, mem);
  }

  /** The plain map that the answers of a run build up from `m`. */
  ghost function ReplayAll<K, V>(h: K -> u64, r: Run<K, V>, ops: seq<Op<K, V>>, m: map<K, V>): map<K, V>
    decreases |ops|
  {
    if ops == [] then m
    else ReplayAll(h, Step(h, r, ops[0]), ops[1..], Replay(m, ops[0], Answer(h, r, ops[0])))
  }

  ghost predicate AllHonest<K, V>(h: K -> u64, r: Run<K, V>, ops: seq<Op<K, V>>, m: map<K, V>)
    decreases |ops|
  {
    ops == [] ||
    (&& Honest(m, |r.table.index|, ops[0], Answer(h, r, ops[0]))
     && AllHonest(h, Step(h, r, ops[0]), ops[1..], Replay(m, ops[0], Answer(h, r, ops[0]))))
  }

  /** Map refinement over any run: every answer is the plain map's answer, or a failure
      with a failed allocation behind it, and the table stands for exactly that map. */
  lemma {:induction false} RunRefinesMap<K, V>(h: K -> u64, r: Run<K, V>, ops: seq<Op<K, V>>)
    requires Inv(h, r.table)
    ensures AllHonest(h, r, ops, Contents(r.table))
    ensures Contents(After(h, r, ops).table) == ReplayAll(h, r, ops, Contents(r.table))
    decreases |ops|
  {
    hide Inv, Step, Answer, Contents, Honest, Replay;
    if ops != [] {
      StepRefines(h, r, ops[0]);
      StepKeepsInv(h, r, ops[0]);
      RunRefinesMap(h, Step(h, r, ops[0]), ops[1..]);
    }
  }

  // ---- ownership of the duplicated keys ----

  /** Every duplicate made so far was freed once, or is owned by exactly one binding. */
  ghost predicate Ledger<K, V>(r: Run<K, V>) {
    var b := Bindings(r.table);
    && Unique(r.freedKeys)
    && (forall i :: 0 <= i < |r.freedKeys| ==> r.freedKeys[i] < r.issued)
    && (forall k :: k in b ==> b[k].dup < r.issued && b[k].dup !in r.freedKeys)
    && (forall k, l :: k in b && l in b && k != l ==> b[k].dup != b[l].dup)
    && r.table.count + |r.freedKeys| == r.issued
  }

  lemma SetCount<K, V>(h: K -> u64, t: Table<K, V>, key: K, data: V, dup: nat, mem: Memory)
    requires Inv(h, t)
    ensures var o := SetStep(h, t, key, data, dup, mem);
            && o.table.count == t.count + (if o.flag == Some(true) then 1 else 0)
            && |o.table.entries| <= Max(if NeedsGrowth(t) && GrowthGranted(|t.index|, mem) then t.count else |t.entries|,
                                       o.table.count)
  {
    RoomAfterLoadTest(h, t);
    if NeedsGrowth(t) {
      if GrowthGranted(|t.index|, mem) {
        GrownCorrect(h, t);
        StoreCount(h, Prepared(h, t), key, data, dup, mem);
      }
    } else {
      StoreCount(h, t, key, data, dup, mem);
    }
  }

  lemma StoreCount<K, V>(h: K -> u64, t: Table<K, V>, key: K, data: V, dup: nat, mem: Memory)
    requires Inv(h, t) && !NeedsGrowth(t)
    ensures var o := Store(h, t, key, data, dup, mem);
            && o.table.count == t.count + (if o.flag == Some(true) then 1 else 0)
            && |o.table.entries| <= Max(|t.entries|, o.table.count)
  {
    assert t.freed == [] ==> |t.entries| == t.count by { InvCounts(h, t); }
    hide Inv, Lookup, FirstFree, CanPlace, NeedsGrowth, Store;
    StoreFacts(h, t, key, data, dup, mem);
  }

  lemma StepKeepsLedger<K, V>(h: K -> u64, r: Run<K, V>, op: Op<K, V>)
    requires Inv(h, r.table) && Ledger(r)
    ensures Ledger(Step(h, r, op))
  {
    hide Inv, Bindings, SetStep, DeleteStep;
    match op
    case Set(key, data, mem) =>
      SetCorrect(h, r.table, key, data, r.issued, mem);
      SetCount(h, r.table, key, data, r.issued, mem);
      assert r.issued !in r.freedKeys;
    case Get(key) =>
    case Delete(key, mem) =>
      DeleteCorrect(h, r.table, key, mem);
  }

  lemma {:induction false} RunKeepsLedger<K, V>(h: K -> u64, r: Run<K, V>, ops: seq<Op<K, V>>)
    requires Inv(h, r.table) && Ledger(r)
    ensures Ledger(After(h, r, ops))
    decreases |ops|
  {
    hide Inv, Step, Ledger;
    if ops != [] {
      StepKeepsLedger(h, r, ops[0]);
      StepKeepsInv(h, r, ops[0]);
      RunKeepsLedger(h, Step(h, r, ops[0]), ops[1..]);
    }
  }

  /** The duplicates that teardown frees, in iteration order. */
  ghost function OwnedKeys<K, V>(t: Table<K, V>): seq<nat>
    requires Partition(t)
  {
    seq(|t.order|, p requires 0 <= p < |t.order| => t.entries[t.order[p]].dup)
  }

  /** A run ended by teardown frees every duplicate exactly once: by delete or at the end. */
  lemma TeardownFreesEachKeyOnce<K, V>(h: K -> u64, r: Run<K, V>)
    requires Inv(h, r.table) && Ledger(r)
    ensures var freed := r.freedKeys + OwnedKeys(r.table);
            && Unique(freed) && |freed| == r.issued
            && forall i :: 0 <= i < |freed| ==> freed[i] < r.issued
  {
    var t, owned := r.table, OwnedKeys(r.table);
    forall p | 0 <= p < |owned| ensures owned[p] < r.issued && owned[p] !in r.freedKeys {
      OwnedIsBound(t, p);
    }
    forall p, q | 0 <= p < q < |owned| ensures owned[p] != owned[q] {
      OwnedIsBound(t, p);
      OwnedIsBound(t, q);
      assert t.order[p] != t.order[q];
      assert t.order[p] in t.order && t.order[q] in t.order;
    }
  }

  lemma OwnedIsBound<K, V>(t: Table<K, V>, p: nat)
    requires Partition(t) && KeysDistinct(t) && p < |t.order|
    ensures t.order[p] in t.order
    ensures var k := t.entries[t.order[p]].key;
            k in Bindings(t) && Bindings(t)[k].dup == OwnedKeys(t)[p] && Bindings(t)[k].data == t.entries[t.order[p]].data
  {}

  // ---- space ----

  /** The index never outgrows the largest count by more than a constant factor, and all
      the copying ever done is paid for by the size reached. */
  ghost predicate SpaceBound<K, V>(r: Run<K, V>, slots0: nat) {
    && |r.table.entries| <= r.peak && r.table.count <= r.peak
    && 3 * |r.table.index| <= Max(Max(3 * slots0, 12), 8 * (r.peak + 1))
    && 4 * r.copied <= 3 * (|r.table.index| - slots0)
  }

  /** One doubling, in numbers: it happens only when the peak already fills the index. */
  lemma DoublingIsPaidFor(slots: nat, used: nat, count: nat, peak: nat, copied: nat, slots0: nat)
    requires slots == 2 || slots % 4 == 0
    requires used >= slots * 3 / 4 || (count + 1) * 4 >= slots * 3
    requires count <= used <= slots * 3 / 4 && used <= peak
    requires 4 * copied <= 3 * (slots - slots0)
    ensures 3 * (2 * slots) <= Max(12, 8 * (peak + 1))
    ensures 4 * (copied + count) <= 3 * (2 * slots - slots0)
  {}

  lemma CapacityFacts<K, V>(h: K -> u64, t: Table<K, V>)
    requires Inv(h, t)
    ensures |t.index| == 2 || |t.index| % 4 == 0
    ensures t.count <= |t.entries| <= EntryCapacity(|t.index|)
  {
    if |t.index| > 2 { Pow2MultipleOf4(|t.index|); }
  }

  /** The sizes after a call to set: what `SetCorrect` and `SetCount` say, without the map. */
  lemma SetSizes<K, V>(h: K -> u64, t: Table<K, V>, key: K, data: V, dup: nat, mem: Memory)
    requires Inv(h, t)
    ensures var o, grows := SetStep(h, t, key, data, dup, mem), NeedsGrowth(t) && GrowthGranted(|t.index|, mem);
            && |o.table.index| == (if grows then 2 * |t.index| else |t.index|)
            && |o.table.entries| <= Max(if grows then t.count else |t.entries|, o.table.count)
  {
    hide Inv, Bindings, SetStep;
    SetCorrect(h, t, key, data, dup, mem);
    SetCount(h, t, key, data, dup, mem);
  }

  /** A growth copies the live entries and no others. */
  lemma GrowthCopies<K, V>(h: K -> u64, t: Table<K, V>)
    requires Inv(h, t) && |t.index| <= MAX_SLOTS / 2
    ensures 0 < |t.index| && MarksInRange(t.index, |t.entries|) && |Grown(t).entries| == t.count
  {
    hide Grown;
    GrownCorrect(h, t);
  }

  lemma SetKeepsSpaceBound<K, V>(h: K -> u64, r: Run<K, V>, key: K, data: V, mem: Memory, slots0: nat)
    requires Inv(h, r.table) && SpaceBound(r, slots0)
    ensures SpaceBound(AfterSet(h, r, key, data, mem), slots0)
  {
    hide Inv, SetStep, Bindings, Grown;
    var t := r.table;
    CapacityFacts(h, t);
    SetSizes(h, t, key, data, r.issued, mem);
    if NeedsGrowth(t) {
      if GrowthGranted(|t.index|, mem) { GrowthCopies(h, t); }
      DoublingIsPaidFor(|t.index|, |t.entries|, t.count, r.peak, r.copied, slots0);
    }
  }

  lemma StepKeepsSpaceBound<K, V>(h: K -> u64, r: Run<K, V>, op: Op<K, V>, slots0: nat)
    requires Inv(h, r.table) && SpaceBound(r, slots0)
    ensures SpaceBound(Step(h, r, op), slots0)
  {
    hide Inv, Bindings, SetStep, DeleteStep, AfterSet;
    match op
    case Set(key, data, mem) => SetKeepsSpaceBound(h, r, key, data, mem, slots0);
    case Get(key) =>
    case Delete(key, mem) => DeleteCorrect(h, r.table, key, mem);
  }

  lemma {:induction false} RunKeepsSpaceBound<K, V>(h: K -> u64, r: Run<K, V>, ops: seq<Op<K, V>>, slots0: nat)
    requires Inv(h, r.table) && SpaceBound(r, slots0)
    ensures SpaceBound(After(h, r, ops), slots0)
    decreases |ops|
  {
    hide Inv, Step, SpaceBound;
    if ops != [] {
      StepKeepsSpaceBound(h, r, ops[0], slots0);
      StepKeepsInv(h, r, ops[0]);
      RunKeepsSpaceBound(h, Step(h, r, ops[0]), ops[1..], slots0);
    }
  }

  lemma SpaceInNumbers<K, V>(r: Run<K, V>, slots: nat)
    requires SpaceBound(r, slots)
    ensures |r.table.index| <= slots || 3 * |r.table.index| <= 12 || 3 * |r.table.index| <= 8 * (r.peak + 1)
    ensures 4 * r.copied <= 3 * (|r.table.index| - slots)
  {}

  lemma AfterPrefix<K, V>(h: K -> u64, r: Run<K, V>, ops: seq<Op<K, V>>, k: nat)
    requires 0 < k <= |ops|
    ensures After(h, r, ops[..k]) == After(h, Step(h, r, ops[0]), ops[1..][..k - 1])
  {
    hide Step;
    assert ops[..k][0] == ops[0] && ops[..k][1..] == ops[1..][..k - 1];
  }

  lemma StepPeak<K, V>(h: K -> u64, r: Run<K, V>, op: Op<K, V>)
    requires Inv(h, r.table) && r.table.count <= r.peak
    ensures var r' := Step(h, r, op);
            && r.peak <= r'.peak && r'.table.count <= r'.peak
            && (r'.peak == r.peak || r'.peak == r'.table.count)
  {
    hide Inv, Bindings, SetStep, DeleteStep;
    if op.Delete? { DeleteCorrect(h, r.table, op.key, op.mem); }
  }

  /** `peak` is the largest count there has been: none after any call was larger, and one of
      them, or what came before, was as large. */
  lemma {:induction false} PeakIsLargestCount<K, V>(h: K -> u64, r: Run<K, V>, ops: seq<Op<K, V>>) returns (top: nat)
    requires Inv(h, r.table) && r.table.count <= r.peak
    ensures var last := After(h, r, ops);
            && r.peak <= last.peak
            && (forall k :: 0 <= k <= |ops| ==> After(h, r, ops[..k]).table.count <= last.peak)
            && top <= |ops| && (last.peak == r.peak || After(h, r, ops[..top]).table.count == last.peak)
    decreases |ops|
  {
    hide Inv, Step;
    if ops == [] {
      top := 0;
    } else {
      var r1, last := Step(h, r, ops[0]), After(h, r, ops);
      StepPeak(h, r, ops[0]);
      StepKeepsInv(h, r, ops[0]);
      var later := PeakIsLargestCount(h, r1, ops[1..]);
      forall k | 0 <= k <= |ops| ensures After(h, r, ops[..k]).table.count <= last.peak {
        if k > 0 { AfterPrefix(h, r, ops, k); }
      }
      top := 1 + if last.peak == r1.peak then 0 else later;
      AfterPrefix(h, r, ops, top);
      assert ops[1..][..0] == [];
    }
  }

  /** The load factor stays below three quarters. */
  lemma StepKeepsLoad<K, V>(h: K -> u64, r: Run<K, V>, op: Op<K, V>)
    requires Inv(h, r.table) && 4 * r.table.count < 3 * |r.table.index|
    ensures 4 * Step(h, r, op).table.count < 3 * |Step(h, r, op).table.index|
  {
    hide Inv, Bindings, SetStep, DeleteStep, Grown, NeedsGrowth, GrowthGranted;
    match op
    case Set(key, data, mem) =>
      SetCorrect(h, r.table, key, data, r.issued, mem);
      SetCount(h, r.table, key, data, r.issued, mem);
    case Get(key) =>
    case Delete(key, mem) => DeleteCorrect(h, r.table, key, mem);
  }

  lemma {:induction false} RunKeepsLoad<K, V>(h: K -> u64, r: Run<K, V>, ops: seq<Op<K, V>>)
    requires Inv(h, r.table) && 4 * r.table.count < 3 * |r.table.index|
    ensures 4 * After(h, r, ops).table.count < 3 * |After(h, r, ops).table.index|
    decreases |ops|
  {
    hide Inv, Step;
    if ops != [] {
      StepKeepsLoad(h, r, ops[0]);
      StepKeepsInv(h, r, ops[0]);
      RunKeepsLoad(h, Step(h, r, ops[0]), ops[1..]);
    }
  }

  /** Everything at once, from creation on, after any calls with any allocation failures. */
  lemma EveryRun<K, V>(h: K -> u64, slots: nat, ops: seq<Op<K, V>>)
    requires IsPow2(slots) && 2 <= slots <= MAX_SLOTS
    ensures var start, r := Start(slots), After(h, Start(slots), ops);
            && Inv(h, r.table)
            && AllHonest(h, start, ops, map[])
            && Contents(r.table) == ReplayAll(h, start, ops, map[])
            && Ledger(r)
            && SpaceBound(r, slots)
            && r.table.count + |r.table.freed| == |r.table.entries| <= 3 * |r.table.index| / 4
            && 4 * r.table.count < 3 * |r.table.index|
            && (|r.table.index| <= slots || 3 * |r.table.index| <= 12 || 3 * |r.table.index| <= 8 * (r.peak + 1))
            && 4 * r.copied <= 3 * (|r.table.index| - slots)
  {
    hide Inv, After, AllHonest, ReplayAll, Ledger, SpaceBound, Contents, Bindings;
    var start := Start<K, V>(slots);
    StartFacts<K, V>(h, slots);
    RunKeepsInv(h, start, ops);
    RunRefinesMap(h, start, ops);
    RunKeepsLedger(h, start, ops);
    RunKeepsSpaceBound(h, start, ops, slots);
    RunKeepsLoad(h, start, ops);
    InvCounts(h, After(h, start, ops).table);
    SpaceInNumbers(After(h, start, ops), slots);
  }

  lemma StartFacts<K, V>(h: K -> u64, slots: nat)
    requires IsPow2(slots) && 2 <= slots <= MAX_SLOTS
    ensures var start := Start<K, V>(slots);
            Inv(h, start.table) && Contents(start.table) == map[] && Ledger(start) && SpaceBound(start, slots)
  {
    hide Inv;
    BlankInv<K, V>(h, slots, 0);
    assert Contents(Start<K, V>(slots).table) == map[];
  }

  lemma InvCounts<K, V>(h: K -> u64, t: Table<K, V>)
    requires Inv(h, t)
    ensures t.count + |t.freed| == |t.entries| <= 3 * |t.index| / 4
  {}
}
