# Models and proofs for freehttpd's stateful cores

freehttpd is a C web server. This project models the parts of it in which several
data structures have to stay in step, and proves what their callers rely on.

* **The generic hash table** (`src/hash/htable.c`): a linear-probing index with
  tombstones, a dense entry array, a stack of freed entries, an iteration list threaded
  through the entries, and growth. `table_model.dfy` holds the state as a value and the
  invariant that ties the five together; `table_probes.dfy`, `table_place.dfy`,
  `table_remove.dfy` and `table_rehash.dfy` prove the single moves; `table_steps.dfy`,
  `table_order.dfy` and `table_walk.dfy` the calls, the iteration order and the foreach;
  `table_runs.dfy` whole runs: refinement of a plain map, ownership of duplicated keys,
  space and copying; `table_tombstones.dfy` the state without an empty slot.
  `hash_table.dfy` is the code itself, arrays and loops, proved to compute the same steps.
* **The provided-buffer protocol of the io_uring backend** (`src/event/xio_uring.c`):
  `uring_model.dfy` is the user side as a value, `uring_protocol.dfy` the step system of
  kernel and user, `uring_buffers.dfy` and `uring_nodes.dfy` the two invariants,
  `uring_runs.dfy` what holds in every reachable state and over a whole life.
  `uring.dfy` is the code: offset and count arrays, the buffer ring, and a doubly linked
  free list of heap nodes.
* **The generic poll(2) backend** (`src/event/xpoll.c`, the branches for unknown
  platforms): `poll_scan.dfy` the rotating scan and its scheduling guarantee,
  `poll_registry.dfy` the registry as a map, `xpoll.dfy` the code.
* **The arithmetic underneath**: `rounding.dfy` (power-of-two rounding), `int_hash.dfy`
  (the SplitMix64 finalizer), `rapid_hash.dfy` (the portable 128-bit product and the key
  walk of `rapidhashMicro_internal`), `bits.dfy` (machine words as numbers),
  `cyclic.dfy` (slots around a ring), `arrays.dfy` (`realloc`).

Imperative C code is imperative Dafny here: a class with the C fields, methods with the C
loops. Each method is proved against a function on values, and the theorems about whole
runs are about those functions, so they carry over to the code. Every allocation may fail:
which ones do is a parameter of each call. `dafny verify dfyconfig.toml` checks the whole project.

## What the proofs found

* The registry of the poll backend does not repoint the descriptor whose slot an interior
  deletion moves. `PollRegistry.DeletedAgreesIffLast` gives the exact condition under which
  deletion is right, `PollRegistry.MovedDescriptorIsLost` what happens otherwise.
* The capacity chosen for the descriptor table looks at the descriptor only once the table
  holds 2^16 entries, so an ADD can write past the table and return true.
  `PollRegistry.ChosenCapacityReaches` says exactly when the capacity suffices,
  `PollRegistry.FirstAddIsSoundBelow16` that the first ADD is right exactly below 16, and
  `PollRegistry.RunRefinesMap` that this and interior deletion are all that can go wrong.
* The offset arithmetic of `fh_xio_wait` agrees with a clamped sum exactly as long as offset
  plus size does not wrap at 64 bits (`UringModel.AdvanceFollowsKernel`). The protocol itself
  admits only kernel advances below 2^32, the range of a submission's length field, and
  agreement with the kernel is claimed for those.
* Tombstones alone can fill a hash index of any size
  (`TableTombstones.TombstonesFillTheIndex`); probes end all the same, because they are
  capped at the capacity, and an insertion still finds its slot.

## Model

| member | source | states |
|---|---|---|
| `TableRuns.EveryRun` | src/hash/htable.c:15-429 | After any sequence of set, get and delete from creation, with any allocations failing: the structural invariant holds, every answer is the plain map's or a failure that a failed allocation explains, the table stands for exactly the map the answers build up, every key duplicate is owned once or was freed once; in numbers, 4 * count < 3 * index_capacity, live plus freed entries equal `entry_next_insert` <= 3/4 of the capacity, and the capacity and copy bounds hold |
| `TableRuns.RunRefinesMap` | src/hash/htable.c:164-429 | From any state with the invariant, a run of any length answers like a plain map and represents the map those answers produce; failed calls leave it as it was |
| `TableRuns.StepRefines` | src/hash/htable.c:164-429 | One call: the answer is honest for the plain map, and the new contents are the plain map after that answer |
| `TableRuns.RunKeepsInv` | src/hash/htable.c:164-429 | The invariant tying index, entries, freed stack, iteration list and counters together survives any run |
| `TableRuns.StepKeepsInv` | src/hash/htable.c:164-429 | The same for one call |
| `TableRuns.RunKeepsLedger` | src/hash/htable.c:205-224 | Over any run every duplicated key is either freed exactly once, by the delete that unbinds it, or owned by exactly one binding, and count plus freed equals the duplicates made |
| `TableRuns.StepKeepsLedger` | src/hash/htable.c:205-224 | The same for one call: overwriting makes no duplicate; the duplicate that the delete step reports freed is the one the binding owned, and was not freed before |
| `TableRuns.TeardownFreesEachKeyOnce` | src/hash/htable.c:444-462 | A run ended by teardown frees every duplicate ever made exactly once: the frees by delete and by teardown are distinct and as many as the duplicates |
| `TableRuns.RunKeepsSpaceBound` | src/hash/htable.c:121-176 | 3 * index_capacity stays within max(3 * initial, 12, 8 * (peak + 1)) for any churn, and all copying by rehashes is at most 3/4 of the capacity gained |
| `TableRuns.RunKeepsLoad` | src/hash/htable.c:168-170 | 4 * count < 3 * index_capacity is kept by every run |
| `TableRuns.PeakIsLargestCount` | src/hash/htable.c:272 | The peak that the bounds speak of is the largest count after any prefix of the run, and was reached |
| `TableRuns.DoublingIsPaidFor` | src/hash/htable.c:124-125 | The arithmetic of one doubling: it happens only when the peak fills the old index, and its copies are paid for by the new slots |
| `TableRuns.SetCount` | src/hash/htable.c:228-274 | A set raises the count exactly when it creates, and the used entries never exceed the larger of what was used and the new count |
| `TableTombstones.TombstonesFillTheIndex` | src/hash/htable.c:168-170 | For every capacity from 4 on there is a run after which no slot is EMPTY, and after none of its calls is more than one key bound or has the table grown: the load test ignores tombstones, and only the bound on the probe ends a search |
| `TableSteps.SetCorrect` | src/hash/htable.c:164-275 | Set grows the table exactly when the entries are used up or 4 * (count + 1) >= 3 * index_capacity, with memory granted, and then doubles the index; it succeeds exactly when a growth it needs is granted and the key is bound or can be duplicated; it then binds the key, keeping the duplicate already owned on overwrite; on failure the bindings are unchanged, and the flag is cleared for a refused growth and left alone for a refused duplicate |
| `TableSteps.DeleteCorrect` | src/hash/htable.c:341-429 | Delete succeeds exactly when the key is bound and the freed stack has or gets room; it unbinds that key alone, answers its data, frees the duplicate its binding owned, and pushes its entry on the freed stack, whose capacity doubles from 16 when full; otherwise nothing at all changes and nothing is freed |
| `TableSteps.GetCorrect` | src/hash/htable.c:285-324 | Get answers the bound data, or nothing when the key is unbound |
| `TableSteps.SetContents` | src/hash/htable.c:164-275 | Set on the plain map: contents updated at the key, or unchanged |
| `TableSteps.DeleteContents` | src/hash/htable.c:341-429 | Delete on the plain map: contents without the key, or unchanged |
| `TableSteps.LookupDecides` | src/hash/htable.c:292-323 | The probe finds a slot exactly when the key is bound, and it is the slot of the binding |
| `TableSteps.RoomAfterLoadTest` | src/hash/htable.c:168-176 | After the load test the used entries are below 3/4 of the capacity and 4 * (count + 1) < 3 * index_capacity, whether or not the table grew: one doubling always suffices, and the assert at line 176 cannot fail |
| `TableSteps.StoreCorrect` | src/hash/htable.c:178-274 | The probe and what follows it, on a table with room: fails only when the duplicate cannot be made |
| `TableSteps.StorePlaces` | src/hash/htable.c:178-256 | A new key goes into the nearest slot from its home that is not live, and into the entry freed last if there is one, otherwise the next unused one; the freed stack is popped and halved or cut to 4 when it has become sparse |
| `TableSteps.NewestFreedIsReused` | src/hash/htable.c:228-230 | A new key inserted after a deletion gets the very entry that was given up |
| `TableProbes.LookupExact` | src/hash/htable.c:292-323 | A probe that meets EMPTY or runs through all index slots proves the key absent; one that stops at a slot has the entry that holds the key |
| `TableProbes.LookupReaches` | src/hash/htable.c:292-319 | A probe for a bound key runs to its slot through any number of tombstones |
| `TableProbes.FreeSlotExists` | src/hash/htable.c:216-221 | An insertion always has a target slot, reached through no EMPTY slot: the "no target" exit cannot be taken |
| `TableProbes.FirstFreeIsNearest` | src/hash/htable.c:183-214 | The insertion slot found is the nearest to the home slot that is not live |
| `TableProbes.SomeSlotIsFree` | src/hash/htable.c:216-221 | With fewer used entries than slots some slot is not live (pigeonhole) |
| `TablePlace.PlaceCorrect` | src/hash/htable.c:226-274 | Insertion keeps the invariant, binds the new key, changes no other binding and comes last in the iteration order |
| `TablePlace.NextEntryIsNew` | src/hash/htable.c:228-251 | The entry taken off the freed stack or the end of the array is not in use |
| `TablePlace.ReachableAdd` | src/hash/htable.c:253-256 | Filling the first free slot keeps every probe chain intact |
| `TablePlace.LinksAppend` | src/hash/htable.c:258-270 | Linking behind the tail spells out the longer list, forwards and backwards |
| `TableRemove.RemoveCorrect` | src/hash/htable.c:396-417 | Deletion keeps the invariant, unbinds exactly the entry's key and takes one element out of the iteration order |
| `TableRemove.ReachableRemove` | src/hash/htable.c:414 | A tombstone keeps every probe chain intact |
| `TableRemove.LinksRemove` | src/hash/htable.c:400-412 | Joining the neighbours spells out the list without the element, also at head and tail |
| `TableRemove.OverwriteCorrect` | src/hash/htable.c:205-210 | Overwriting changes the data bound to the key and nothing else, the order included |
| `TableRehash.GrownCorrect` | src/hash/htable.c:55-162 | Growth keeps the bindings, leaves no tombstone and no freed entry, numbers the entries densely, keeps the probe chains intact, and iterates in old slot order |
| `TableRehash.RehashNeverFails` | src/hash/htable.c:64-111 | For every live slot of any table the capacity assert of the rehash loop holds and an EMPTY slot is found: its failure exit is unreachable |
| `TableRehash.RehashHasRoom` | src/hash/htable.c:70-108 | The same at any round, given the invariant of the loop |
| `TableRehash.RehashStepKeeps` | src/hash/htable.c:64-111 | One round keeps the loop's invariant: the new table holds copies of the entries scanned so far, in order |
| `TableRehash.ScanIsOrder` | src/hash/htable.c:64-68 | The slot scan meets every live entry exactly once |
| `TableRehash.ScanAscends` | src/hash/htable.c:64-68 | Growth takes the entries in ascending order of their old slots |
| `TableOrder.OrderAfterSet` | src/hash/htable.c:258-270 | A new key comes last; otherwise the order is unchanged, or that of the old slots exactly when the load test asks for growth and memory is granted |
| `TableOrder.OrderAfterDelete` | src/hash/htable.c:400-412 | Exactly the deleted key leaves its place in the order |
| `TableWalk.IterationIsComplete` | src/hash/htable.h:72-86 | Following `next_idx` from the head meets every bound key exactly once and nothing else |
| `TableWalk.DataFollowKeys` | src/hash/htable.c:448-456 | The data met on the way are the plain map's data for the keys met, so teardown hands over no deleted or overwritten data |
| `TableWalk.LinksAreInverse` | src/hash/htable.c:258-270 | `prev_idx` is the inverse of `next_idx`, and the two ends are head and tail |
| `TableWalk.WalkDelete` | src/hash/htable.h:76-86 | Deleting the entry a foreach stands on leaves its own link readable and leading to the entry that follows it |
| `HashTable.HTable.SetWithFlag` | src/hash/htable.c:164-275 | The imperative set computes the specified step on the arrays: same new state, answer and flag; the contents gain the binding or stay; the index doubles exactly when the load test, in numbers, asks for it and memory is granted |
| `HashTable.HTable.DeleteWithFlag` | src/hash/htable.c:341-429 | The imperative delete computes the specified step; the contents lose the key and the duplicate freed is the one its binding owned, or the whole state is unchanged and nothing is freed |
| `HashTable.HTable.GetWithFlag` | src/hash/htable.c:285-324 | The probe loop answers what the represented map says |
| `HashTable.HTable.Grow` | src/hash/htable.c:121-162 | Grows to exactly the rehashed table, with twice the slots and 3/4 as many entries as slots, or changes nothing when an allocation fails |
| `HashTable.RehashLoop` | src/hash/htable.c:55-119 | The loop fills the new arrays with exactly the grown table and never gives up |
| `HashTable.FindEmpty` | src/hash/htable.c:94-105 | The first EMPTY slot in probe order, or none after a full round |
| `HashTable.LookupLoop` | src/hash/htable.c:289-320 | The slot that the probe specification names, found by the masked loop |
| `HashTable.ProbeLoop` | src/hash/htable.c:178-214 | The slot with the key, or else the first slot not live |
| `HashTable.LinkEntry` | src/hash/htable.c:253-270 | The entry is written and linked at the end of the list |
| `HashTable.MoveEntry` | src/hash/htable.c:72-110 | One live entry is copied, linked and marked, exactly like an insertion |
| `HashTable.NextSlotWraps` | src/hash/htable.c:213 | `(hash + 1) & mask` is the next slot in cyclic order |
| `HashTable.HTable.Create` | src/hash/htable.c:15-53 | Creates an empty table whose capacity is the power of two that rounding names and whose entries are 3/4 of it, or null when an allocation fails |
| `HashTable.HTable.constructor` | src/hash/htable.c:25-43 | The new table is the blank one and satisfies the invariant |
| `HashTable.HTable.InsertEntry` | src/hash/htable.c:226-274 | Places the entry into the target slot as specified, with the freed stack popped and perhaps shrunk |
| `HashTable.HTable.TakeEntry` | src/hash/htable.c:228-251 | Pops the freed stack or takes the next entry; shrinking keeps the stack's contents |
| `HashTable.HTable.ReserveFreed` | src/hash/htable.c:368-388 | Room for one more freed entry, doubling from 16; a failed realloc changes nothing |
| `HashTable.HTable.UnlinkEntry` | src/hash/htable.c:396-417 | Frees the key of the entry, pushes the entry on the freed stack, unlinks it and leaves a tombstone, as specified |
| `HashTable.HTable.OverwriteEntry` | src/hash/htable.c:207 | Only the data of that entry changes |
| `HashTable.HTable.StoreWithFlag` | src/hash/htable.c:178-274 | Everything after the load test computes the specified step |
| `HashTable.HTable.FreeWithCleanup` | src/hash/htable.c:444-462 | Frees the owned duplicates and calls back with the data of every live entry, each once, in list order |
| `HashTable.HTable.ForeachDeleting` | src/hash/htable.h:72-86 | A foreach whose body deletes the current entry on request visits every entry of the starting table once, in order, and loses exactly the entries deleted |
| `Rounding.RoundCeil2` | src/utils/utils.c:16-23 | For 2 < v <= 2^63 the clz form is a power of two r with v <= r < 2v |
| `Rounding.RoundCeil2Smear` | src/utils/utils.c:25-32 | The bit-smearing form equals the clz form up to 2^63, and wraps to 0 above |
| `Rounding.RoundingIsUnique` | src/utils/utils.c:16-34 | Only one power of two lies in [v, 2v) |
| `Rounding.SmearStep` | src/utils/utils.c:26-31 | One smearing step doubles the run of ones below the highest bit |
| `Rounding.SmearFormRounds` | src/utils/utils.c:25-32 | Six smearing steps and an increment: the clz form's value, or 0 above 2^63 |
| `Bits.MaskOfCapacity` | src/hash/htable.c:60 | `& (capacity - 1)` is reduction modulo a power-of-two capacity |
| `IntHash.DistinctKeysHashApart` | src/hash/int_htable.c:9-21 | Two integer keys hash alike exactly when equal, and every 64-bit word is some key's hash |
| `IntHash.KeyHashByStages` | src/hash/int_htable.c:9-21 | The finalizer bit by bit: xor with the shift by 30, a product, xor with the shift by 27, a product, xor with the shift by 31, with the constants of the source |
| `IntHash.HashUndone` | src/hash/int_htable.c:9-21 | The explicit inverse recovers the key from its hash |
| `IntHash.UnhashUndone` | src/hash/int_htable.c:9-21 | The hash recovers the word from the inverse |
| `IntHash.XorShiftUndone` | src/hash/int_htable.c:14 | An xor-shift by k with 3k >= 64 is undone, from either side, by the xor with the shifts by k and 2k |
| `IntHash.MultipliersInvert` | src/hash/int_htable.c:15-17 | Each odd multiplier has the given inverse modulo 2^64 |
| `RapidHash.RapidMum` | src/hash/rapidhash.h:185-197 | The portable branch returns the exact 128-bit product: lo + 2^64 * hi == a * b for all 64-bit a and b |
| `RapidHash.AddProducts` | src/hash/rapidhash.h:187-190 | The carry chain loses nothing when the true sum fits 128 bits |
| `RapidHash.RapidMix` | src/hash/rapidhash.h:208 | The xor of the low and the high half of the exact product a * b |
| `RapidHash.RapidHashMicro` | src/hash/rapidhash.h:356-414 | The loop, the nested steps and the tail make exactly the reads laid out for the length and return the reference digest of the words read |
| `RapidHash.MicroReadsExactlyTheKey` | src/hash/rapidhash.h:356-414 | For every length, every read lies inside the key, its word is what the key holds there, and every byte is read |
| `RapidHash.WordsDetermineKey` | src/hash/rapidhash.h:356-414 | Two keys of the same length whose digested words are the same are the same key, for every length |
| `RapidHash.MicroIsReference` | src/hash/rapidhash.h:356-414 | The walk of the code digests the words of its reads as a closed formula says: five lanes over stripes of ten words, merged, a single lane over the pairs left, and the last sixteen bytes; or two or three words for short keys |
| `RapidHash.HashStripes` | src/hash/rapidhash.h:379-395 | The 80-byte loop over five accumulators computes the specified walk and leaves at most 80 bytes |
| `RapidHash.HashSteps` | src/hash/rapidhash.h:396-407 | The nested 16-byte steps compute the specified seed |
| `RapidHash.ReadShort` | src/hash/rapidhash.h:361-377 | The branch for at most 16 bytes |
| `RapidHash.StripesReach` | src/hash/rapidhash.h:379-395 | The stripes take all but the last 1 to 80 bytes, lane by lane |
| `RapidHash.StepsReach` | src/hash/rapidhash.h:396-407 | The nested steps take every further 16 bytes that end before the key does |
| `RapidHash.LayoutCovers` | src/hash/rapidhash.h:361-408 | The reads laid out for a length cover every byte of it |
| `PollScan.NoStarvation` | src/event/xpoll.c:412-448 | Over consecutive calls whose limits add up to n, a descriptor ready in each of them is reported in one, however the others behave |
| `PollScan.MissedComesNearer` | src/event/xpoll.c:412-447 | A ready slot that a call passes over is at least max_events nearer to the next cursor |
| `PollScan.CursorFollowsReports` | src/event/xpoll.c:447 | The next scan begins where this one did if fewer than max_events were reported, otherwise behind the last slot reported |
| `PollScan.ReportedByReadiness` | src/event/xpoll.c:418-445 | Reported are ready slots in cyclic order, and a ready slot is passed over only when max_events nearer ones were ready |
| `PollScan.ReadyAmongExactly` | src/event/xpoll.c:418-445 | The slots reported are exactly the ready ones among those examined |
| `PollScan.ReadyAmongUnique` | src/event/xpoll.c:418-445 | No slot is reported twice in a call |
| `PollScan.ReadyAmongInOrder` | src/event/xpoll.c:418-445 | Of two slots reported, the earlier one is nearer to where the scan began |
| `PollScan.ExaminedStops` | src/event/xpoll.c:418 | A scan that stops before a full round has reported exactly max_events; none reports more |
| `XPoll.ScanSlots` | src/event/xpoll.c:412-448 | The rotating loop reports the slots the scan specification names, in order and with their own fd and data, stores the specified cursor, and terminates across the wrap |
| `XPoll.ScanRound` | src/event/xpoll.c:418-445 | One more slot examined keeps the reports those of the slots examined so far |
| `XPoll.ScanSlot` | src/event/xpoll.c:435-444 | Each round examines the next slot in cyclic order, also when the index jumps back |
| `XPoll.ScanEnds` | src/event/xpoll.c:447 | The cursor stored is (begin + examined) modulo the count, and running out of slots means a full round |
| `XPoll.Poll.Wait` | src/event/xpoll.c:398-448 | Errors, the empty registry (0), and the scan, for any sign of the limit: the events are those of ready slots, nearest to the cursor first and at most max_events; a ready slot is left out only when that many nearer ones were ready; the cursor stays if fewer were reported and otherwise moves behind the last one |
| `XPoll.InvalidIsError` | src/event/xpoll.c:422-430 | An invalid descriptor is reported as an error and never as invalid, with all other bits as they were; other events are reported as they are, with their own descriptor and data |
| `PollRegistry.RunRefinesMap` | src/event/xpoll.c:173-293 | Over any run of ADD, MOD and DEL, with any reallocation failures: table and slots are inverse after every call if and only if no DEL removes a slot that is not the last and no ADD overruns the table; and then they stand for the map that the answers build up |
| `PollRegistry.CallRefinesMap` | src/event/xpoll.c:173-293 | A call leaves table and slots inverse if and only if it neither deletes a slot that is not the last nor overruns the table; then it acts on the map as it answers |
| `PollRegistry.AnswerIsTheMaps` | src/event/xpoll.c:177-256 | ADD returns true exactly for a new descriptor with memory granted, an overrunning one included; MOD and DEL exactly for a registered one |
| `PollRegistry.FirstAddIsSoundBelow16` | src/event/xpoll.c:177-233 | The first ADD after creation, with memory granted, returns true for every descriptor, makes a table of 16 entries and one slot, and leaves the registry right exactly for descriptors below 16 |
| `PollRegistry.AddCases` | src/event/xpoll.c:177-233 | The outcomes of ADD: refused, or a slot appended with the table entry written inside or outside the table |
| `PollRegistry.DeletedAgreesIffLast` | src/event/xpoll.c:258-267 | DEL keeps the agreement if and only if it gives up the last slot |
| `PollRegistry.DeletedLosesOne` | src/event/xpoll.c:258-267 | DEL of any slot loses exactly that slot from the live ones |
| `PollRegistry.OthersSurviveDeletion` | src/event/xpoll.c:258-267 | After any DEL every slot keeps its place but the last, which takes the one given up, and every descriptor but the moved one is found where its slot is |
| `PollRegistry.MovedDescriptorIsLost` | src/event/xpoll.c:258-267 | After an interior DEL the moved descriptor is still polled, while its table entry points past the live slots |
| `PollRegistry.InteriorDeleteExample` | src/event/xpoll.c:258-267 | A run from creation, two ADDs and the DEL of the first: right before the DEL and wrong after it |
| `PollRegistry.ChosenCapacityReaches` | src/event/xpoll.c:179-182 | Exactly when the capacity chosen for the table reaches the descriptor it is grown for |
| `PollRegistry.LiveIsBounded` | src/event/xpoll.c:225 | There are fewer live slots than the "no slot" mark |
| `PollRegistry.RegisteredMeans` | src/event/xpoll.c:237-238 | The test for a table entry decides membership in the map |
| `PollRegistry.AddedCorrect` | src/event/xpoll.c:225-231 | A new slot binds the descriptor to its events, as the 16 bits stored, and its data |
| `PollRegistry.ModifiedCorrect` | src/event/xpoll.c:244-246 | MOD rebinds that descriptor alone, to the 16 bits stored of its events and its data |
| `PollRegistry.PolledEventsKeepsLowFlags` | src/event/xpoll.c:228 | The low sixteen flags are stored as given; edge, exclusive and all higher ones are dropped |
| `PollRegistry.WidenedKeeps` | src/event/xpoll.c:184-195 | Growing the table changes nothing it means |
| `XPoll.Poll.Add` | src/event/xpoll.c:175-234 | Returns true exactly for a new descriptor with memory granted; says when the table is overrun, which is exactly when the registry is wrong afterwards; otherwise the map gains the binding, or stays |
| `XPoll.Poll.Modify` | src/event/xpoll.c:236-247 | Success exactly for a registered descriptor; the map is updated there |
| `XPoll.Poll.Remove` | src/event/xpoll.c:249-293 | Success exactly for a registered descriptor; the live slots lose exactly it, and the registry stays valid if and only if it was the last |
| `XPoll.Poll.AddOrModify` | src/event/xpoll.c:455-477 | Returns true exactly for a registered descriptor or with memory granted; binds the descriptor unless the ADD overruns the table |
| `XPoll.Poll.WidenTable` | src/event/xpoll.c:177-196 | The table grows to 16, to twice its size or to fd + 1 entries, with the old ones kept and the new ones unused |
| `XPoll.Poll.ReserveSlot` | src/event/xpoll.c:203-223 | Room for one more slot, with a capacity of 16 or doubled; either reallocation may fail without harm |
| `XPoll.Poll.ShrinkSlots` | src/event/xpoll.c:269-287 | Quarters a capacity above 16 of which less than a quarter is used, unless both reallocations fail; the live slots stay |
| `XPoll.Poll.DropSlot` | src/event/xpoll.c:258-267 | The deleted slot is overwritten by the last one, the others keep their places |
| `UringRuns.EveryReachableState` | src/event/xio_uring.c:143-757 | In every state reachable by any interleaving of submissions, kernel completions, reaps and frees, the buffer and the node invariants hold |
| `UringRuns.StepKeepsGood` | src/event/xio_uring.c:626-757 | Every step of either party keeps both invariants |
| `UringRuns.KernelAndUserAgree` | src/event/xio_uring.c:396-446 | `buf_offsets[bid]` is the start of the oldest unreaped completion for that buffer, or the position of the kernel, which moves by a rule of its own, if there is none; the low 31 bits of `buf_refcount` count the results held, and DONE is set exactly when the offset has reached 4096 |
| `UringRuns.ReapMovesOffset` | src/event/xio_uring.c:686-697 | Handling a completion moves the offset of its buffer by nothing after a failure, by the length asked for after a READ or WRITE, by what was transferred within that length after a RECV or SEND, never past 4096; one reference more, and no other buffer changes |
| `UringRuns.ResultIsGenuine` | src/event/xio_uring.c:448-468 | A request granted at any time gets a number of its own, and after any further run every result for that number carries its op and udata, the flags and result of the completion, and its own buffer or the part of the provided buffer the kernel wrote |
| `UringRuns.ResultMatchesSubmission` | src/event/xio_uring.c:662-684 | In a reachable state the result of a completion carries its flags and result, the op and udata of the request recorded for its submission, and that request's own buffer or the place where the kernel wrote |
| `UringRuns.InFlightRequestsAreApart` | src/event/xio_uring.c:699-700 | No two submissions in flight share a node, and the node of each still holds the request made with it |
| `UringRuns.SentOnlyGrows` | src/event/xio_uring.c:481-605 | What was submitted under a number never changes |
| `UringRuns.KernelWritesApart` | src/event/xio_uring.c:686-697 | What the kernel writes next lies behind every view held or still queued for the buffer |
| `UringRuns.HeldViewsAreDisjoint` | src/event/xio_uring.c:614-624 | Two results held at the same time share no byte of a buffer |
| `UringRuns.HeldViewIsInside` | src/event/xio_uring.c:614-624 | A view held starts and ends inside its 4096-byte buffer, and what was written fits in it |
| `UringRuns.EveryBufferInOnePlace` | src/event/xio_uring.c:228-233 | Every buffer is in the kernel's ring, once, or used up with a result held or queued: never both, never neither |
| `UringRuns.ReaddedExactlyAtTheEnd` | src/event/xio_uring.c:721-734 | A free re-adds the buffer exactly when DONE is set and the last result is freed, and it is not in the ring then; the count asserted to be positive is |
| `UringRuns.WaitIsManyReaps` | src/event/xio_uring.c:626-708 | A wait that handles k completions is k steps of the protocol: same state, and its results are the ones then held |
| `UringRuns.DrainIsManyReaps` | src/event/xio_uring.c:289-305 | A batch handled by the drain is that many steps: it frees the nodes of the final completions in order |
| `UringRuns.QueueIsReadable` | src/event/xio_uring.c:661-665 | In a reachable state every queued completion is for a node in flight and a known buffer, and none follows the final one of its node |
| `UringRuns.WholeLifeReleasesEachNodeOnce` | src/event/xio_uring.c:251-339 | After any run, a drain that finds its mark and the end of `fh_xio_free`, every node ever allocated has been freed exactly once |
| `UringRuns.FreeReleasesEachNodeOnce` | src/event/xio_uring.c:251-339 | The same for `fh_xio_free` as the code performs it: what was freed before, the final completions of the batches its drain is given, and the free list are every node ever allocated, each once |
| `UringRuns.DrainCallReleases` | src/event/xio_uring.c:276-308 | A drain releases exactly the nodes of the final completions it is given, and is over when a batch has the mark |
| `UringRuns.ResultsFreeIsManyFrees` | src/event/xio_uring.c:744-757 | A batched free of held results is that many free steps of the protocol |
| `UringRuns.FindingTheMarkDrains` | src/event/xio_uring.c:257-309 | When the drain finds its mark, no request is in the kernel's hands and no completion of one is left |
| `UringBuffers.InitialBuffers` | src/event/xio_uring.c:228-233 | The invariant holds at creation, with all 1024 buffers in the ring |
| `UringBuffers.CompleteKeepsBuffers` | src/event/xio_uring.c:396-446 | A completion taken from the ring head keeps the buffer invariant |
| `UringBuffers.ReapKeepsBuffers` | src/event/xio_uring.c:686-697 | Handling a completion keeps it; its view starts where the kernel wrote |
| `UringBuffers.ReapPosition` | src/event/xio_uring.c:686-697 | The user's offset moves to where the kernel's position went, and DONE is set exactly at the end of the buffer |
| `UringBuffers.FreeKeepsBuffers` | src/event/xio_uring.c:710-742 | Freeing any held result keeps it |
| `UringBuffers.LastOfFinished` | src/event/xio_uring.c:726-727 | The decrement leaves exactly DONE if and only if the buffer is finished and this is its only result |
| `UringBuffers.PushKeepsRing` | src/event/xio_uring.c:731-734 | A re-added buffer does not overwrite an entry the kernel owns, and is in the ring once |
| `UringNodes.SubmitKeepsNodes` | src/event/xio_uring.c:448-468 | A submission, granted or not, keeps every node in exactly one place and with at most one submission |
| `UringNodes.CompleteKeepsNodes` | src/event/xio_uring.c:699-700 | A completion posted keeps the node invariant |
| `UringNodes.TakeKeepsNodes` | src/event/xio_uring.c:699-700 | Taking a completion keeps it: with a final one its submission has landed, and the node is on the free list or released |
| `UringNodes.DrainedMeansLanded` | src/event/xio_uring.c:289-303 | When the kernel works for nobody and only its own completions are queued, no submission is in flight |
| `UringNodes.TeardownReleasesEachNodeOnce` | src/event/xio_uring.c:331-336 | Nodes freed before plus the free list are all nodes allocated, without repetition |
| `UringModel.BatchedFreeRefinesSingle` | src/event/xio_uring.c:744-757 | On any results the batched free leaves the same counts, offsets, ring contents and tail as freeing them one by one |
| `UringModel.FreeAheadIsFreeLater` | src/event/xio_uring.c:731-733 | Writing ahead of the tail and publishing first reach the same ring slot, the 16-bit tail wrapping |
| `UringModel.AdvanceFollowsKernel` | src/event/xio_uring.c:693-696 | The stored offset is the clamped position exactly when offset plus size does not wrap at 64 bits; a sum that wraps moves it back |
| `UringModel.SizesByCase` | src/event/xio_uring.c:396-446 | The size computed for a completion: 0 for a failure, the length asked for for READ and WRITE, the smaller of length and result for RECV and SEND, the result for ACCEPT |
| `UringProtocol.UserSizeIsKernelAdvance` | src/event/xio_uring.c:407-414 | The size the user computes is how far the kernel moves |
| `UringModel.ResultByCase` | src/event/xio_uring.c:668-684 | The fields of a result, with the own buffer of the request before the provided one |
| `UringModel.ReapedByCase` | src/event/xio_uring.c:686-700 | The state after a completion in numbers: count, DONE, offset, and where the node goes |
| `UringModel.FreedByCase` | src/event/xio_uring.c:710-742 | The state after a free in numbers: a count of 2^31 + 1 starts the buffer over at the tail of the ring, any other goes down by one |
| `UringModel.FlagLayout` | src/event/xio_uring.c:661-662 | The flag bits 0, 1 and 4 and the buffer number in the upper half |
| `UringModel.MaskIsModulo` | src/event/xio_uring.c:731-733 | `& buf_mask` is reduction modulo the ring's size |
| `Uring.Xio.Wait` | src/event/xio_uring.c:626-708 | The loop leaves the specified state and results for the completions it handles, one result for each that is a request's: it stops at the end of the queue or once max_results, or 2048 if that is less, are in, and not before; a request's completion in the queue gives at least one result; failing returns -1 and changes nothing |
| `Uring.Xio.Handle` | src/event/xio_uring.c:661-700 | One completion of a request: result, count, DONE, offset and node as specified |
| `Uring.Xio.CountUse` | src/event/xio_uring.c:686-697 | One more reference, DONE when no more of the buffer follows, the offset moved on |
| `Uring.Xio.DropResult` | src/event/xio_uring.c:710-735 | One reference less; the last of a finished buffer resets it and writes it into the ring |
| `Uring.Xio.ResultFree` | src/event/xio_uring.c:737-742 | The specified single free, with the tail published |
| `Uring.Xio.ResultsFree` | src/event/xio_uring.c:744-757 | The batched loop ends in the state that freeing one by one gives |
| `Uring.Xio.Prepare` | src/event/xio_uring.c:448-468 | Ends as the protocol's submission does: a node popped or allocated and filled, or ENOMEM with nothing changed, or EAGAIN with the node given back |
| `Uring.Xio.Drain` | src/event/xio_uring.c:251-309 | Frees the nodes of the final completions of every batch; goes on until the first batch with the mark, the first failed wait, or no more |
| `Uring.Xio.FreeFinal` | src/event/xio_uring.c:289-303 | One batch: final completions free their nodes, and the mark is noticed wherever it is |
| `Uring.Xio.Free` | src/event/xio_uring.c:314-339 | Frees what the drain frees and then the free list from its head, and says whether the drain found its mark |
| `Uring.Xio.constructor` | src/event/xio_uring.c:153-234 | The user side starts with all offsets and counts 0, an empty free list, and buffer b in place b of the ring, with the tail at 1024 |
| `Uring.FreeList.Disown` | src/event/xio_uring.c:353-372 | The linked list gains the node at its end, or the node is freed when 2048 are listed |
| `Uring.FreeList.Get` | src/event/xio_uring.c:374-391 | The newest node leaves the linked list, or a new one is allocated |
| `Uring.FreeList.FreeAll` | src/event/xio_uring.c:331-336 | Every listed node is freed once, from the head on |

## Left out

Assumptions and limits of the models:

- TableModel: index capacities above 2^32 are not granted (`MAX_SLOTS`), so that `idx + 1` stays clear of the tombstone mark and `idx` of the list-end mark.
- TableModel: keys are values compared with `==`, and the hash is any function of the key; pointers to key memory appear only as the numbers of the duplicates.
- HashTable.HTable.Create: capacities above 2^63 are excluded, because the shift in `util_round_ceil2_ull` is undefined there, and those below 2, which the code asserts away.
- Rounding.RoundCeil2: the same bound of 2^63; `Rounding.RoundCeil2Smear` covers all of 64 bits.
- HashTable.HTable.FreeWithCleanup: the frees and callbacks are returned as sequences; the `free` of the four blocks at the end is not modelled.
- HashTable.HTable.ForeachDeleting: the body of the loop is a predicate on keys that says what to delete; insertion during iteration is not modelled.
- `htable_set`, `htable_get`, `htable_has`, `htable_delete`, `htable_count`, `htable_free`: wrappers that add nothing.
- UringProtocol: the kernel takes buffers from the ring head only, consumes them in the order of its completions, advances by the size `fh_xio_data_populate` computes and never past the end of the buffer, by less than 2^32 at a time, writes no more than it advances, leaves out BUF_MORE exactly when the buffer is used up, posts one final completion per request, and uses provided buffers only for requests without a buffer of their own. The client frees only results it holds, each once, and holds fewer than 2^31.
- UringRuns.FreeReleasesEachNodeOnce: each batch that a drain is given is what then stands at the front of the protocol's queue (`UringRuns.Witnessed`).
- UringProtocol: a fresh node is one never handed out before; the reuse of addresses after `free` is not modelled.
- UringRuns.WholeLifeReleasesEachNodeOnce: the completion that marks the end of a drain is posted only when no request is left in the kernel's hands, which is what `IOSQE_IO_DRAIN` asks for; after a failed drain the code leaks, and nothing is claimed.
- UringRuns.EveryReachableState: is about runs before teardown; what holds during the drain is in the lemmas about nodes.
- Uring.Xio.Wait: the queue is the sequence of completions visible to the call, and whether the wait failed is a parameter; timeouts and `errno` are left out.
- Uring.Xio.Wait: asks for the order of completions that `UringRuns.QueueIsReadable` proves of every reachable state.
- Uring.Xio.DropResult: the assertion that the count is positive is not part of the method; `UringRuns.ReaddedExactlyAtTheEnd` proves it in every reachable state.
- Uring.Xio.Prepare: `io_uring_get_sqe` and the submission that retries it are one parameter; the fields of the submission entry are not modelled, and the fields of the node that no completion reads are left out.
- UringModel: the layout of the completion flags is liburing's, which is not part of this model.
- PollRegistry.Added: a table entry written past the end of the table is written nowhere in the model, which says that it happened and not what it overwrites.
- XPoll.Poll.Add: the same; `overran` tells the caller, and a registry that was overrun or had an interior slot deleted takes no further calls in the model.
- XPoll.Poll.Wait: the result and the `revents` of `poll(2)` are parameters; negative descriptors, which `poll(2)` ignores, are not modelled; the values of the POLL constants are those of Linux.
- PollScan.NoStarvation: the registry does not change between the calls.
- RapidHash.RapidHashMicro: the form without RAPIDHASH_PROTECTED; words are read little-endian, which the big-endian branches restore by swapping bytes.

Parts of the repository that are not modelled:

- `src/event/xio_xpoll.c`, which is unfinished.
- The epoll and kqueue branches of `src/event/xpoll.c`: thin wrappers around system calls.
- Ring set-up, memory mapping, huge pages and valgrind hooks in `src/event/xio_uring.c`: foreign calls.
- The MSVC and 128-bit-integer branches of `rapid_mum`, `rapidhash`, `rapidhashNano` and the seeded wrappers in `src/hash/rapidhash.h`: repetitions.
- The statistical quality of the hashes: no exact claim to prove.
- `src/core`, `src/progs`, `src/log`, `src/utils/datetime.c`, `libtest` and `build-aux`: sockets, command line, logging and scripts.
