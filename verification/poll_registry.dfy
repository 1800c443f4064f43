/** The descriptor registry of the generic poll backend: a table from descriptors to
    slots and the dense array of slots, which together stand for a map. */
module PollRegistry {
  import opened Bits
  import TableProbes

  type EventMask = u32

  const XPOLL_EDGE: EventMask := 0x4000_0000

  /** `mask & flag`, for a flag of one bit. */
  predicate HasFlag(mask: EventMask, flag: EventMask)
    requires flag > 0
  {
    mask % (2 * flag) >= flag
  }

  /** `mask & ~flag`. */
  function Cleared(mask: EventMask, flag: EventMask): EventMask
    requires flag > 0
  {
    if HasFlag(mask, flag) && mask >= flag then mask - flag else mask
  }

  /** A C `short`, which is what `struct pollfd` has for events, as the 32-bit mask that it
      converts to: the sign is extended. */
  type Short = m: EventMask | m < 0x8000 || m >= 0xFFFF_8000

  function ToShort(mask: EventMask): Short {
    var low := mask % 0x1_0000;
    if low < 0x8000 then low else low + 0xFFFF_0000
  }

  /** The edge flag is not for poll; of the rest the low half is stored. */
  function PolledEvents(events: EventMask): Short {
    ToShort(Cleared(events, XPOLL_EDGE))
  }

  /** The low sixteen flags are stored as they are; edge, exclusive and all others are dropped. */
  lemma PolledEventsKeepsLowFlags(events: EventMask)
    ensures PolledEvents(events) % 0x1_0000 == events % 0x1_0000
    ensures events % 0x1_0000 < 0x8000 ==> PolledEvents(events) < 0x8000
  {
    var high, low := events / 0x1_0000, events % 0x1_0000;
    var cleared := Cleared(events, XPOLL_EDGE);
    assert cleared == 0x1_0000 * high + low || cleared == 0x1_0000 * (high - 0x4000) + low;
    ModUnique(cleared, 0x1_0000, if cleared == events then high else high - 0x4000, low);
    hide Cleared;
    if low >= 0x8000 { ModUnique(low + 0xFFFF_0000, 0x1_0000, 0xFFFF, low); }
  }

  /** `UINT32_MAX`: the descriptor has no slot. */
  const NO_SLOT: u32 := 0xFFFF_FFFF

  /** A descriptor is a non-negative C `int`. */
  type Fd = x: int | 0 <= x < 0x8000_0000

  /** `pfd_list[i]` together with `fd_info_list[i]`, without `revents`. */
  datatype Watch<U> = Watch(fd: Fd, events: Short, udata: U)

  /** `live` is `[0, pfd_count)` of the two lists. */
  datatype Registry<U> = Registry(table: seq<u32>, live: seq<Watch<U>>)

  predicate Registered<U>(r: Registry<U>, fd: int) {
    0 <= fd < |r.table| && r.table[fd] != NO_SLOT
  }

  /** Table and slots are inverse to each other. */
  ghost predicate Agree<U>(r: Registry<U>) {
    && (forall i :: 0 <= i < |r.live| ==> r.live[i].fd < |r.table| && r.table[r.live[i].fd] == i)
    && (forall fd :: 0 <= fd < |r.table| && r.table[fd] != NO_SLOT ==>
          r.table[fd] < |r.live| && r.live[r.table[fd]].fd == fd)
  }

  /** The map from descriptors to events and user data. */
  ghost function Meaning<U>(r: Registry<U>): map<Fd, Watch<U>>
    requires Agree(r)
  {
    map fd: Fd | fd < |r.table| && r.table[fd] != NO_SLOT :: r.live[r.table[fd]]
  }

  /** The table capacity chosen to hold `fd`. Only the last case looks at `fd`. */
  function TableCapacity(cap: nat, fd: Fd): nat {
    if cap < 16 then 16 else if cap < 0x1_0000 then 2 * cap else fd + 1
  }

  /** A descriptor beyond the table lies inside the capacity chosen for it exactly when
      the table was past 2^16, or the step up to 16 or to twice the size reaches it. */
  lemma ChosenCapacityReaches(cap: nat, fd: Fd)
    requires fd >= cap
    ensures fd < TableCapacity(cap, fd) <==> cap >= 0x1_0000 || fd < 16 || (cap >= 16 && fd < 2 * cap)
  {}

  /** The table as `XPOLL_CTL_ADD` leaves it once it has been grown for `fd`. */
  function Widened(table: seq<u32>, fd: Fd): seq<u32> {
    if fd < |table| then table
    else if TableCapacity(|table|, fd) < |table| then table
    else table + seq(TableCapacity(|table|, fd) - |table|, _ => NO_SLOT)
  }

  /** A slot appended and the table entry written. A descriptor past the end of the table is
      written outside of it: the slot is there, and no entry of the table leads to it. */
  function Added<U>(r: Registry<U>, fd: Fd, events: EventMask, udata: U): Registry<U> {
    Registry(if fd < |r.table| then r.table[fd := |r.live| % TWO_32] else r.table,
             r.live + [Watch(fd, PolledEvents(events), udata)])
  }

  function Modified<U>(r: Registry<U>, fd: Fd, events: EventMask, udata: U): Registry<U>
    requires Registered(r, fd) && r.table[fd] < |r.live|
  {
    var idx := r.table[fd];
    r.(live := r.live[idx := r.live[idx].(events := PolledEvents(events), udata := udata)])
  }

  /** `XPOLL_CTL_DEL`: the last slot moves into the one given up; no table entry follows it. */
  function Deleted<U>(r: Registry<U>, fd: Fd): Registry<U>
    requires Registered(r, fd) && r.table[fd] < |r.live|
  {
    var idx, last := r.table[fd], |r.live| - 1;
    var moved := if |r.live| > 1 then r.live[idx := r.live[last]] else r.live;
    Registry(r.table[fd := NO_SLOT], moved[..last])
  }

  /** The test for a table entry decides membership in the map. */
  lemma RegisteredMeans<U>(r: Registry<U>, fd: Fd)
    requires Agree(r)
    ensures Registered(r, fd) <==> fd in Meaning(r)
    ensures Registered(r, fd) ==> r.table[fd] < |r.live| && Meaning(r)[fd] == r.live[r.table[fd]]
  {}

  lemma WidenedKeeps<U>(r: Registry<U>, fd: Fd)
    requires Agree(r)
    ensures Agree(r.(table := Widened(r.table, fd)))
    ensures Meaning(r.(table := Widened(r.table, fd))) == Meaning(r)
  {
    var r' := r.(table := Widened(r.table, fd));
    forall f | 0 <= f < |r'.table| && r'.table[f] != NO_SLOT ensures f < |r.table| && r'.table[f] == r.table[f] {}
    assert Agree(r');
    assert Meaning(r') == Meaning(r);
  }

  /** There are no more slots than descriptors. */
  lemma LiveIsBounded<U>(r: Registry<U>)
    requires Agree(r)
    ensures |r.live| <= 0x8000_0000 < NO_SLOT
  {
    var fds: seq<nat> := seq(|r.live|, i requires 0 <= i < |r.live| => r.live[i].fd);
    forall p, q | 0 <= p < q < |fds| ensures fds[p] != fds[q] {
      assert r.table[r.live[p].fd] == p && r.table[r.live[q].fd] == q;
    }
    TableProbes.DistinctAtMost(fds, 0x8000_0000);
  }

  lemma AddedCorrect<U>(r: Registry<U>, fd: Fd, events: EventMask, udata: U)
    requires Agree(r) && fd < |r.table| && !Registered(r, fd)
    ensures |r.live| < NO_SLOT
    ensures var r' := Added(r, fd, events, udata);
            Agree(r') && Meaning(r') == Meaning(r)[fd := Watch(fd, PolledEvents(events), udata)]
  {
    hide Agree, Meaning, PolledEvents, Registered;
    LiveIsBounded(r);
    assert |r.live| % TWO_32 == |r.live|;
    AddedAgrees(r, fd, Watch(fd, PolledEvents(events), udata));
  }

  lemma AddedAgrees<U>(r: Registry<U>, fd: Fd, w: Watch<U>)
    requires Agree(r) && fd < |r.table| && !Registered(r, fd) && |r.live| < NO_SLOT && w.fd == fd
    ensures var r' := Registry(r.table[fd := |r.live|], r.live + [w]);
            Agree(r') && Meaning(r') == Meaning(r)[fd := w]
  {
    var r' := Registry(r.table[fd := |r.live|], r.live + [w]);
    forall i | 0 <= i < |r'.live| ensures r'.live[i].fd < |r'.table| && r'.table[r'.live[i].fd] == i {}
    assert Agree(r');
    assert Meaning(r') == Meaning(r)[fd := w];
  }

  lemma ModifiedCorrect<U>(r: Registry<U>, fd: Fd, events: EventMask, udata: U)
    requires Agree(r) && Registered(r, fd)
    ensures var r' := Modified(r, fd, events, udata);
            Agree(r') && Meaning(r') == Meaning(r)[fd := Watch(fd, PolledEvents(events), udata)]
  {
    var r' := Modified(r, fd, events, udata);
    assert Agree(r');
    assert Meaning(r') == Meaning(r)[fd := Watch(fd, PolledEvents(events), udata)];
  }

  /** Overwriting element `idx` by the last one and dropping the last loses element `idx`. */
  lemma SwapRemoveLosesOne<T>(s: seq<T>, idx: nat)
    requires idx < |s|
    ensures multiset(s[idx := s[|s| - 1]][..|s| - 1]) == multiset(s) - multiset{s[idx]}
  {
    var last := |s| - 1;
    assert s == s[..last] + [s[last]];
    if idx < last {
      var left, right := s[..idx], s[idx + 1..last];
      assert s[..last] == left + [s[idx]] + right;
      assert s[idx := s[last]][..last] == left + [s[last]] + right;
      SwapInTheMiddle(left, s[idx], right, s[last]);
    } else {
      assert s[idx := s[last]][..last] == s[..last];
    }
  }

  lemma SwapInTheMiddle<T>(left: seq<T>, x: T, right: seq<T>, y: T)
    ensures multiset(left + [y] + right) == multiset(left + [x] + right + [y]) - multiset{x}
  {
  }

  /** Deletion loses exactly the deleted slot, whichever one it was. */
  lemma DeletedLosesOne<U>(r: Registry<U>, fd: Fd)
    requires Agree(r) && Registered(r, fd)
    ensures multiset(Deleted(r, fd).live) == multiset(r.live) - multiset{r.live[r.table[fd]]}
    ensures r.live[r.table[fd]].fd == fd
  {
    SwapRemoveLosesOne(r.live, r.table[fd]);
    if |r.live| == 1 {
      assert r.live[0 := r.live[0]] == r.live;
    }
  }

  /** Deletion keeps table and slots in agreement exactly when it gives up the last slot.
      Otherwise the descriptor whose slot moved keeps a table entry for its old place. */
  lemma DeletedAgreesIffLast<U>(r: Registry<U>, fd: Fd)
    requires Agree(r) && Registered(r, fd)
    ensures Agree(Deleted(r, fd)) <==> r.table[fd] == |r.live| - 1
    ensures r.table[fd] == |r.live| - 1 ==> Meaning(Deleted(r, fd)) == Meaning(r) - {fd}
  {
    LiveIsBounded(r);
    var r', last := Deleted(r, fd), |r.live| - 1;
    if r.table[fd] == last {
      forall i | 0 <= i < |r'.live| ensures r'.live[i] == r.live[i] && r'.live[i].fd != fd {
        assert r.table[r.live[i].fd] == i;
      }
      assert Agree(r');
      assert Meaning(r') == Meaning(r) - {fd};
    } else {
      var moved := r.live[last].fd;
      assert r.table[moved] == last && moved != fd;
      assert r'.table[moved] == last && last >= |r'.live|;
    }
  }

  /** What a deletion of any slot leaves right: every other slot keeps its place but the last,
      which takes the one given up, and every descriptor but the moved one is found where its
      slot is. */
  lemma OthersSurviveDeletion<U>(r: Registry<U>, fd: Fd, other: Fd)
    requires Agree(r) && Registered(r, fd)
    ensures var r', idx, last := Deleted(r, fd), r.table[fd], |r.live| - 1;
            && |r'.live| == last && |r'.table| == |r.table|
            && (forall i :: 0 <= i < last ==> r'.live[i] == r.live[if i == idx then last else i])
            && !Registered(r', fd)
            && (other != fd && other != r.live[last].fd ==>
                  && (Registered(r', other) <==> Registered(r, other))
                  && (Registered(r, other) ==>
                        r'.table[other] < |r'.live| && r'.live[r'.table[other]] == r.live[r.table[other]]))
  {
    LiveIsBounded(r);
    var last := |r.live| - 1;
    if Registered(r, other) && other != fd {
      assert r.live[r.table[other]].fd == other && r.live[r.table[fd]].fd == fd;
    }
  }

  /** After deleting another slot than the last, the descriptor whose slot moved is still
      watched, but modifying or deleting it would look past the live slots. */
  lemma MovedDescriptorIsLost<U>(r: Registry<U>, fd: Fd)
    requires Agree(r) && Registered(r, fd) && r.table[fd] < |r.live| - 1
    ensures var r', moved := Deleted(r, fd), r.live[|r.live| - 1];
            && moved in r'.live
            && Registered(r', moved.fd) && r'.table[moved.fd] >= |r'.live|
  {
    LiveIsBounded(r);
    var r', idx := Deleted(r, fd), r.table[fd];
    var moved := r.live[|r.live| - 1];
    assert r'.live[idx] == moved;
    assert r.table[moved.fd] == |r.live| - 1;
  }

  // ---- runs ----

  datatype Call<U> =
    | Add(fd: Fd, events: EventMask, udata: U, tableOk: bool, slotOk: bool)
    | Modify(fd: Fd, events: EventMask, udata: U)
    | Remove(fd: Fd)

  /** One call. Adding fails when the descriptor is registered or memory is short, the
      other two when it is not registered. */
  function Apply<U>(r: Registry<U>, call: Call<U>): Registry<U> {
    match call
    case Add(fd, events, udata, tableOk, slotOk) =>
      if fd >= |r.table| && !tableOk then r
      else
        var r1 := r.(table := Widened(r.table, fd));
        if Registered(r1, fd) || !slotOk then r1 else Added(r1, fd, events, udata)
    case Modify(fd, events, udata) =>
      if Registered(r, fd) && r.table[fd] < |r.live| then Modified(r, fd, events, udata) else r
    case Remove(fd) =>
      if Registered(r, fd) && r.table[fd] < |r.live| then Deleted(r, fd) else r
  }

  /** Whether the call returns true. */
  predicate Succeeds<U>(r: Registry<U>, call: Call<U>) {
    match call
    case Add(_, _, _, _, _) => |Apply(r, call).live| > |r.live|
    case Modify(fd, _, _) => Registered(r, fd)
    case Remove(fd) => Registered(r, fd)
  }

  /** An ADD that grows the table, though not far enough, and then writes past its end. */
  predicate Overruns<U>(r: Registry<U>, call: Call<U>) {
    call.Add? && call.fd >= |r.table| && call.fd >= TableCapacity(|r.table|, call.fd) && call.tableOk && call.slotOk
  }

  predicate RemovesLastSlot<U>(r: Registry<U>, call: Call<U>) {
    call.Remove? && Registered(r, call.fd) ==> r.table[call.fd] == |r.live| - 1
  }

  predicate Sound<U>(r: Registry<U>, call: Call<U>) {
    RemovesLastSlot(r, call) && !Overruns(r, call)
  }

  /** The call on a plain map, given its answer. */
  function OnMap<U>(m: map<Fd, Watch<U>>, call: Call<U>, ok: bool): map<Fd, Watch<U>> {
    if !ok then m
    else match call
      case Add(fd, events, udata, _, _) => m[fd := Watch(fd, PolledEvents(events), udata)]
      case Modify(fd, events, udata) => m[fd := Watch(fd, PolledEvents(events), udata)]
      case Remove(fd) => m - {fd}
  }

  lemma AddFacts<U>(r: Registry<U>, fd: Fd)
    requires Agree(r)
    ensures |r.live| < NO_SLOT
    ensures var r1 := r.(table := Widened(r.table, fd));
            && Agree(r1) && Meaning(r1) == Meaning(r)
            && (Registered(r1, fd) <==> fd in Meaning(r)) && (Registered(r, fd) <==> fd in Meaning(r))
            && (fd < |r1.table| <==> fd < |r.table| || fd < TableCapacity(|r.table|, fd))
  {
    LiveIsBounded(r);
    WidenedKeeps(r, fd);
  }

  /** Every answer is the plain map's, unless memory is short. That holds of an overrunning
      ADD too: it returns true like any other. */
  lemma AnswerIsTheMaps<U>(r: Registry<U>, call: Call<U>)
    requires Agree(r)
    ensures call.Add? ==>
      (Succeeds(r, call) <==> call.fd !in Meaning(r) && call.slotOk && (call.fd < |r.table| || call.tableOk))
    ensures !call.Add? ==> (Succeeds(r, call) <==> call.fd in Meaning(r))
  {
    hide Agree, Meaning, Widened, Registered, PolledEvents, TableCapacity;
    RegisteredMeans(r, call.fd);
    if call.Add? { AddFacts(r, call.fd); }
  }

  /** A slot whose descriptor lies past the table cannot agree with it. */
  lemma OverrunDisagrees<U>(r: Registry<U>, fd: Fd, events: EventMask, udata: U)
    requires fd >= |r.table|
    ensures !Agree(Added(r, fd, events, udata))
  {
    assert Added(r, fd, events, udata).live[|r.live|].fd == fd;
  }

  lemma AddRefinesMap<U>(r: Registry<U>, call: Call<U>)
    requires Agree(r) && call.Add?
    ensures Agree(Apply(r, call)) <==> !Overruns(r, call)
    ensures !Overruns(r, call) ==>
      Agree(Apply(r, call)) && Meaning(Apply(r, call)) == OnMap(Meaning(r), call, Succeeds(r, call))
  {
    hide Agree, Meaning, Widened, Added, Registered, PolledEvents, TableCapacity;
    var fd := call.fd;
    AddFacts(r, fd);
    AnswerIsTheMaps(r, call);
    var r1 := r.(table := Widened(r.table, fd));
    if fd < |r.table| || call.tableOk {
      if !(Registered(r1, fd) || !call.slotOk) {
        if fd < |r1.table| {
          AddedCorrect(r1, fd, call.events, call.udata);
        } else {
          OverrunDisagrees(r1, fd, call.events, call.udata);
        }
      } else if Registered(r1, fd) {
        RegisteredIsInside(r1, fd);
      }
    }
  }

  /** What an ADD does in each of its cases. */
  lemma AddCases<U>(r: Registry<U>, call: Call<U>)
    requires Agree(r) && call.Add?
    ensures var fd, r1 := call.fd, r.(table := Widened(r.table, call.fd));
            if fd >= |r.table| && !call.tableOk then
              Apply(r, call) == r && !Overruns(r, call)
            else if (fd < |r1.table| && r1.table[fd] != NO_SLOT) || !call.slotOk then
              Apply(r, call) == r1 && !Overruns(r, call)
            else
              && Apply(r, call) == Added(r1, fd, call.events, call.udata)
              && Overruns(r, call) == (fd >= |r1.table|)
  {
    hide Agree, Meaning, Widened, Added, PolledEvents, TableCapacity;
    AddFacts(r, call.fd);
  }

  lemma AddSucceeds<U>(r: Registry<U>, call: Call<U>)
    requires call.Add?
    ensures Succeeds(r, call) <==> |Apply(r, call).live| > |r.live|
  {
    hide Apply;
  }

  lemma RegisteredIsInside<U>(r: Registry<U>, fd: int)
    requires Registered(r, fd)
    ensures fd < |r.table|
  {}

  /** A call keeps table and slots inverse exactly unless it removes a slot that is not the
      last, or overruns the table; when it keeps them so, it acts on the map as it answers. */
  lemma CallRefinesMap<U>(r: Registry<U>, call: Call<U>)
    requires Agree(r)
    ensures Agree(Apply(r, call)) <==> Sound(r, call)
    ensures Sound(r, call) ==>
      Agree(Apply(r, call)) && Meaning(Apply(r, call)) == OnMap(Meaning(r), call, Succeeds(r, call))
  {
    match call
    case Add(fd, events, udata, tableOk, slotOk) =>
      hide Agree, Meaning, Apply, OnMap, Overruns;
      AddRefinesMap(r, call);
    case Modify(fd, events, udata) =>
      if Registered(r, fd) { ModifiedCorrect(r, fd, events, udata); }
    case Remove(fd) =>
      if Registered(r, fd) { DeletedAgreesIffLast(r, fd); }
  }

  function ApplyAll<U>(r: Registry<U>, calls: seq<Call<U>>): Registry<U>
    decreases |calls|
  {
    if calls == [] then r else ApplyAll(Apply(r, calls[0]), calls[1..])
  }

  predicate AllSound<U>(r: Registry<U>, calls: seq<Call<U>>)
    decreases |calls|
  {
    calls == [] || (Sound(r, calls[0]) && AllSound(Apply(r, calls[0]), calls[1..]))
  }

  /** Table and slots are inverse after every call of the run. */
  ghost predicate AllAgree<U>(r: Registry<U>, calls: seq<Call<U>>)
    decreases |calls|
  {
    calls == [] || (Agree(Apply(r, calls[0])) && AllAgree(Apply(r, calls[0]), calls[1..]))
  }

  ghost function OnMapAll<U>(r: Registry<U>, calls: seq<Call<U>>, m: map<Fd, Watch<U>>): map<Fd, Watch<U>>
    decreases |calls|
  {
    if calls == [] then m else OnMapAll(Apply(r, calls[0]), calls[1..], OnMap(m, calls[0], Succeeds(r, calls[0])))
  }

  /** A run keeps the registry right throughout exactly when every call of it is sound, and
      then the registry stands for the map that the answers build up. */
  lemma {:induction false} RunRefinesMap<U>(r: Registry<U>, calls: seq<Call<U>>)
    requires Agree(r)
    ensures AllAgree(r, calls) <==> AllSound(r, calls)
    ensures AllSound(r, calls) ==>
      Agree(ApplyAll(r, calls)) && Meaning(ApplyAll(r, calls)) == OnMapAll(r, calls, Meaning(r))
    decreases |calls|
  {
    hide Agree, Meaning, Apply, Sound, OnMap, Succeeds;
    if calls != [] {
      CallRefinesMap(r, calls[0]);
      if Sound(r, calls[0]) { RunRefinesMap(Apply(r, calls[0]), calls[1..]); }
    }
  }

  /** MOD of a descriptor that is not registered changes nothing. */
  lemma ModifyWhenAbsent<U>(r: Registry<U>, fd: Fd, events: EventMask, udata: U)
    requires Agree(r)
    ensures fd !in Meaning(r) ==> Apply(r, Modify(fd, events, udata)) == r
  {
    RegisteredMeans(r, fd);
  }

  // ---- what goes wrong, from creation on ----

  function Created<U>(): Registry<U> {
    Registry([], [])
  }

  /** The very first ADD, with memory granted, returns true for every descriptor, and leaves
      a registry that agrees exactly for those below 16. */
  lemma FirstAddIsSoundBelow16<U>(fd: Fd, events: EventMask, udata: U)
    ensures var call := Add(fd, events, udata, true, true);
            var r := Apply(Created<U>(), call);
            && Succeeds(Created<U>(), call)
            && |r.table| == 16 && |r.live| == 1 && r.live[0].fd == fd
            && (Agree(r) <==> fd < 16)
  {
    var call := Add(fd, events, udata, true, true);
    CallRefinesMap(Created<U>(), call);
    AnswerIsTheMaps(Created<U>(), call);
    assert |Widened(Created<U>().table, fd)| == 16;
  }

  /** Two descriptors registered from creation on, and the first removed: the registry agrees
      before the deletion and not after it. */
  lemma InteriorDeleteExample()
    ensures var added := ApplyAll(Created<int>(), [Add(0, 1, 10, true, true), Add(1, 1, 11, true, true)]);
            && ApplyAll(Created<int>(), [Add(0, 1, 10, true, true), Add(1, 1, 11, true, true), Remove(0)])
               == Apply(added, Remove(0))
            && Agree(added) && !Agree(Apply(added, Remove(0)))
  {
    hide PolledEvents, Agree;
    var add0, add1 := Add(0, 1, 10, true, true), Add(1, 1, 11, true, true);
    var r0 := Created<int>();
    AgreesWhenCreated<int>();
    var r1 := Apply(r0, add0);
    CallRefinesMap(r0, add0);
    var r2 := Apply(r1, add1);
    CallRefinesMap(r1, add1);
    CallRefinesMap(r2, Remove(0));
    TwoThenOne(r0, add0, add1, Remove(0));
  }

  lemma AgreesWhenCreated<U>()
    ensures Agree(Created<U>())
  {}

  lemma ApplyFirst<U>(r: Registry<U>, call: Call<U>, rest: seq<Call<U>>)
    ensures ApplyAll(r, [call] + rest) == ApplyAll(Apply(r, call), rest)
  {
    hide Apply;
    assert ([call] + rest)[0] == call && ([call] + rest)[1..] == rest;
  }

  lemma TwoThenOne<U>(r: Registry<U>, a: Call<U>, b: Call<U>, c: Call<U>)
    ensures ApplyAll(r, [a, b]) == Apply(Apply(r, a), b)
    ensures ApplyAll(r, [a, b, c]) == Apply(Apply(Apply(r, a), b), c)
  {
    hide Apply;
    ApplyFirst(r, a, [b]);
    ApplyFirst(Apply(r, a), b, []);
    ApplyFirst(r, a, [b, c]);
    ApplyFirst(Apply(r, a), b, [c]);
    ApplyFirst(Apply(Apply(r, a), b), c, []);
    assert [a, b] == [a] + [b] && [b] == [b] + [] && [a, b, c] == [a] + [b, c] && [b, c] == [b] + [c] && [c] == [c] + [];
  }
}
