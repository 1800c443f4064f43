/** The hash table's state as a value: the linear-probing index with tombstones,
    the entry array, the stack of freed entry slots and the linked iteration list,
    together with the invariant that makes the five agree. */
module TableModel {
  import opened Bits
  import opened Cyclic

  const EMPTY: u32 := 0
  const DELETED: u32 := 0xFFFF_FFFF

  /** `UINT32_MAX` as a list end. */
  const NONE: u32 := 0xFFFF_FFFF

  /** No allocator grants an index of more than 2^32 slots, so `idx + 1` stays clear of `DELETED`. */
  const MAX_SLOTS: nat := 0x1_0000_0000

  datatype Option<+T> = None | Some(value: T) {
    function GetOr(default: T): T {
      match this
      case None => default
      case Some(v) => v
    }
  }

  /** An entry. `dup` names the duplicate of the key that the entry owns. */
  datatype Entry<K, V> = Entry(key: K, dup: nat, data: V, hash: u64, prev: u32, next: u32)

  /** What a key is bound to. */
  datatype Binding<V> = Binding(dup: nat, data: V)

  /** `entries` is the used prefix `[0, entry_next_insert)` of the entry array,
      `freed` the stack `deleted_index_list[0..deleted_count)`. `order` is the
      iteration list; `Links` says that the `prev`/`next` fields spell it out. */
  datatype Table<K, V> = Table(
    index: seq<u32>,
    entries: seq<Entry<K, V>>,
    freed: seq<u32>,
    freedCap: nat,
    count: nat,
    head: u32,
    tail: u32,
    order: seq<u32>)

  function EntryCapacity(slots: nat): nat {
    slots * 3 / 4
  }

  predicate Live(mark: u32) {
    mark != EMPTY && mark != DELETED
  }

  /** Every mark in the index is `EMPTY`, `DELETED`, or one more than the number of a used entry. */
  ghost predicate MarksInRange(index: seq<u32>, used: nat) {
    forall i :: 0 <= i < |index| && Live(index[i]) ==> 1 <= index[i] <= used
  }

  function Home(hash: u64, slots: nat): (i: nat)
    requires slots > 0
    ensures i < slots
  {
    hash % slots
  }

  ghost predicate Unique<T>(s: seq<T>) {
    forall p, q :: 0 <= p < q < |s| ==> s[p] != s[q]
  }

  // ---- the invariant, part by part ----

  ghost predicate Shape<K, V>(t: Table<K, V>) {
    && IsPow2(|t.index|) && 2 <= |t.index| <= MAX_SLOTS
    && |t.entries| <= EntryCapacity(|t.index|)
    && |t.freed| <= t.freedCap
    && t.count == |t.order|
  }

  /** Live entries and freed entries partition the used prefix. */
  ghost predicate Partition<K, V>(t: Table<K, V>) {
    && Unique(t.order) && Unique(t.freed)
    && |t.order| + |t.freed| == |t.entries|
    && (forall p :: 0 <= p < |t.order| ==> t.order[p] < |t.entries|)
    && (forall p :: 0 <= p < |t.freed| ==> t.freed[p] < |t.entries| && t.freed[p] !in t.order)
  }

  /** Some slot refers to entry `e`. */
  ghost predicate Marked(index: seq<u32>, e: u32) {
    exists i :: 0 <= i < |index| && index[i] == e + 1
  }

  /** Live index slots and live entries correspond one to one. */
  ghost predicate SlotsMatch(index: seq<u32>, order: seq<u32>) {
    && (forall i :: 0 <= i < |index| && Live(index[i]) ==> index[i] - 1 in order)
    && (forall i, j :: 0 <= i < j < |index| && Live(index[i]) ==> index[i] != index[j])
    && (forall e {:trigger Marked(index, e)} :: e in order ==> Marked(index, e))
  }

  ghost predicate KeysDistinct<K, V>(t: Table<K, V>)
    requires Partition(t)
  {
    forall d, e :: d in t.order && e in t.order && d != e ==> t.entries[d].key != t.entries[e].key
  }

  ghost predicate HashesCached<K, V>(h: K -> u64, t: Table<K, V>)
    requires Partition(t)
  {
    forall e :: e in t.order ==> t.entries[e].hash == h(t.entries[e].key)
  }

  /** No probe for slot `i` meets an `EMPTY` slot before it gets there. */
  ghost predicate PathOpen(index: seq<u32>, home: nat, i: nat)
    requires home < |index| && i < |index|
  {
    forall n: nat :: n < Distance(home, i, |index|) ==> index[Slot(home, n, |index|)] != EMPTY
  }

  /** Every live slot can be reached from the home slot of its entry. */
  ghost predicate Reachable<K, V>(index: seq<u32>, entries: seq<Entry<K, V>>)
    requires MarksInRange(index, |entries|)
  {
    forall i :: 0 <= i < |index| && Live(index[i]) ==>
      PathOpen(index, Home(entries[index[i] - 1].hash, |index|), i)
  }

  function NextOf(order: seq<u32>, p: nat): u32
    requires p < |order|
  {
    if p + 1 < |order| then order[p + 1] else NONE
  }

  function PrevOf(order: seq<u32>, p: nat): u32
    requires p < |order|
  {
    if p > 0 then order[p - 1] else NONE
  }

  ghost predicate LinkedAt<K, V>(order: seq<u32>, entries: seq<Entry<K, V>>, p: nat) {
    && p < |order| && order[p] < |entries|
    && entries[order[p]].next == NextOf(order, p) && entries[order[p]].prev == PrevOf(order, p)
  }

  /** The link fields spell out `order`, forwards and backwards. */
  ghost predicate Links<K, V>(order: seq<u32>, entries: seq<Entry<K, V>>, head: u32, tail: u32) {
    && head == (if order == [] then NONE else order[0])
    && tail == (if order == [] then NONE else order[|order| - 1])
    && forall p: nat {:trigger LinkedAt(order, entries, p)} :: p < |order| ==> LinkedAt(order, entries, p)
  }

  ghost predicate Inv<K, V>(h: K -> u64, t: Table<K, V>) {
    && Shape(t) && Partition(t) && SlotsMatch(t.index, t.order)
    && KeysDistinct(t) && HashesCached(h, t)
    && MarksInRange(t.index, |t.entries|) && Reachable(t.index, t.entries)
    && Links(t.order, t.entries, t.head, t.tail)
  }

  // ---- what the table means ----

  /** The live entry that holds `key`. */
  ghost predicate Holds<K, V>(t: Table<K, V>, key: K, e: u32) {
    e in t.order && e < |t.entries| && t.entries[e].key == key
  }

  /** The binding of each live entry's key; of interest when the keys are distinct. */
  ghost function Bindings<K, V>(t: Table<K, V>): map<K, Binding<V>> {
    if Partition(t) && KeysDistinct(t) then
      map e | e in t.order :: t.entries[e].key := Binding(t.entries[e].dup, t.entries[e].data)
    else map[]
  }

  /** The map the table stands for. */
  ghost function Contents<K, V>(t: Table<K, V>): map<K, V> {
    map k | k in Bindings(t) :: Bindings(t)[k].data
  }

  /** The keys in iteration order. */
  ghost function KeysInOrder<K, V>(t: Table<K, V>): seq<K>
    requires Partition(t)
  {
    seq(|t.order|, p requires 0 <= p < |t.order| => t.entries[t.order[p]].key)
  }

  // ---- the operations on values ----

  /** Get and delete: the slot of the live entry with `key`, from probe step `n` on. */
  function Lookup<K(==), V>(t: Table<K, V>, key: K, home: nat, n: nat): (r: Option<nat>)
    requires home < |t.index| && n <= |t.index|
    requires MarksInRange(t.index, |t.entries|)
    ensures r.Some? ==> r.value < |t.index| && Live(t.index[r.value]) && t.entries[t.index[r.value] - 1].key == key
    decreases |t.index| - n
  {
    if n == |t.index| then None
    else
      var i := Slot(home, n, |t.index|);
      if t.index[i] == EMPTY then None
      else if Live(t.index[i]) && t.entries[t.index[i] - 1].key == key then Some(i)
      else Lookup(t, key, home, n + 1)
  }

  /** The first slot from probe step `n` on that holds no live entry. */
  function FirstFree(index: seq<u32>, home: nat, n: nat): (r: Option<nat>)
    requires home < |index| && n <= |index|
    ensures r.Some? ==> r.value < |index| && !Live(index[r.value])
    decreases |index| - n
  {
    if n == |index| then None
    else if !Live(index[Slot(home, n, |index|)]) then Some(Slot(home, n, |index|))
    else FirstFree(index, home, n + 1)
  }

  /** The first `EMPTY` slot from probe step `n` on; rehashing looks for nothing else. */
  function FirstEmpty(index: seq<u32>, home: nat, n: nat): (r: Option<nat>)
    requires home < |index| && n <= |index|
    ensures r.Some? ==> r.value < |index| && index[r.value] == EMPTY
    decreases |index| - n
  {
    if n == |index| then None
    else if index[Slot(home, n, |index|)] == EMPTY then Some(Slot(home, n, |index|))
    else FirstEmpty(index, home, n + 1)
  }

  /** The capacity of the freed stack after one entry was popped off it. */
  function ShrunkCapacity(cap: nat, left: nat, reallocOk: bool): nat {
    if cap > 16 && left < cap / 4 && reallocOk then (if left < 4 then 4 else cap / 2) else cap
  }

  /** The entry slot the next insertion uses: a freed one if there is one. */
  function NextEntry<K, V>(t: Table<K, V>): nat {
    if t.freed != [] then t.freed[|t.freed| - 1] else |t.entries|
  }

  function PlacedEntries<K, V>(t: Table<K, V>, idx: u32, e: Entry<K, V>): seq<Entry<K, V>>
    requires idx <= |t.entries|
  {
    var linked := if t.tail < |t.entries| then t.entries[t.tail := t.entries[t.tail].(next := idx)] else t.entries;
    if idx < |t.entries| then linked[idx := e] else linked + [e]
  }

  /** Put a new entry into the free slot `slot` and at the end of the iteration list. */
  function Place<K, V>(t: Table<K, V>, slot: nat, key: K, dup: nat, data: V, hash: u64, shrinkOk: bool): Table<K, V>
    requires slot < |t.index| && NextEntry(t) <= |t.entries| < MAX_SLOTS - 1
  {
    var idx := NextEntry(t);
    var freed := if t.freed != [] then t.freed[..|t.freed| - 1] else [];
    Table(
      t.index[slot := idx + 1],
      PlacedEntries(t, idx, Entry(key, dup, data, hash, t.tail, NONE)),
      freed,
      if t.freed != [] then ShrunkCapacity(t.freedCap, |freed|, shrinkOk) else t.freedCap,
      t.count + 1,
      if t.tail == NONE then idx else t.head,
      idx,
      t.order + [idx])
  }

  function Overwrite<K, V>(t: Table<K, V>, slot: nat, data: V): Table<K, V>
    requires slot < |t.index| && Live(t.index[slot]) && t.index[slot] - 1 < |t.entries|
  {
    var e := t.index[slot] - 1;
    t.(entries := t.entries[e := t.entries[e].(data := data)])
  }

  /** The position of `e`, or the length. */
  function Position(s: seq<u32>, e: u32): (p: nat)
    ensures p <= |s| && (p < |s| ==> s[p] == e) && (p == |s| <==> e !in s)
  {
    if s == [] then 0 else if s[0] == e then 0 else 1 + Position(s[1..], e)
  }

  function Without(s: seq<u32>, p: nat): seq<u32>
    requires p < |s|
  {
    s[..p] + s[p + 1..]
  }

  function UnlinkedEntries<K, V>(entries: seq<Entry<K, V>>, e: nat): seq<Entry<K, V>>
    requires e < |entries|
  {
    var next, prev := entries[e].next, entries[e].prev;
    var back := if next < |entries| then entries[next := entries[next].(prev := prev)] else entries;
    if prev < |entries| then back[prev := back[prev].(next := next)] else back
  }

  /** Turn slot `slot` into a tombstone and its entry into a freed one. */
  function Remove<K, V>(t: Table<K, V>, slot: nat, freedCap: nat): Table<K, V>
    requires slot < |t.index| && Live(t.index[slot]) && t.index[slot] - 1 < |t.entries|
    requires t.count > 0 && t.index[slot] - 1 in t.order
  {
    var e := t.index[slot] - 1;
    Table(
      t.index[slot := DELETED],
      UnlinkedEntries(t.entries, e),
      t.freed + [e],
      freedCap,
      t.count - 1,
      if e == t.head then t.entries[e].next else t.head,
      if e == t.tail then t.entries[e].prev else t.tail,
      Without(t.order, Position(t.order, e)))
  }
}
