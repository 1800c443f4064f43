/** The generic poll(2) backend as it is written: arrays that grow and shrink, a table
    of descriptors, and a scan that goes around the slots. */
module XPoll {
  import opened Arrays
  import opened Bits
  import opened Cyclic
  import opened PollRegistry
  import opened PollScan

  const POLLNVAL: EventMask := 0x20
  const XPOLL_ERROR: EventMask := 0x8

  datatype Pfd = Pfd(fd: Fd, events: Short, revents: Short)

  datatype Event<U> = Event(events: EventMask, fd: Fd, udata: U)

  /** `mask | XPOLL_ERROR`. */
  function WithError(mask: EventMask): EventMask {
    if HasFlag(mask, XPOLL_ERROR) then mask else mask + XPOLL_ERROR
  }

  /** What is reported for a ready slot: an invalid descriptor counts as an error. */
  function EventFor<U>(fd: Fd, udata: U, revents: Short): Event<U> {
    Event(if HasFlag(revents, POLLNVAL) then WithError(Cleared(revents, POLLNVAL)) else revents, fd, udata)
  }

  /** An invalid descriptor is reported as an error and not as invalid; any other event as it is. */
  lemma InvalidIsError<U>(fd: Fd, udata: U, revents: Short)
    ensures var e := EventFor(fd, udata, revents);
            && e.fd == fd && e.udata == udata && !HasFlag(e.events, POLLNVAL)
            && (HasFlag(revents, POLLNVAL) ==> HasFlag(e.events, XPOLL_ERROR))
            && (forall i: nat :: i != 3 && i != 5 ==> Bit(e.events, i) == Bit(revents, i))
            && (!HasFlag(revents, POLLNVAL) ==> e.events == revents)
  {
    hide HasFlag;
    var q, low := revents / 64, revents % 64;
    assert revents == 64 * q + low;
    LowFlags(q, low);
    if low >= 32 {
      LowFlags(q, low - 32);
      FlagIsBit(revents);
      ClearBit(revents, 5);
      if low % 16 < 8 {
        LowFlags(q, low - 24);
        FlagIsBit(revents - 32);
        RaiseBit(revents - 32, 3);
      }
    }
    assert !HasFlag(revents, POLLNVAL) ==> EventFor(fd, udata, revents).events == revents;
  }

  /** The two flags are bits 5 and 3. */
  lemma FlagIsBit(mask: EventMask)
    ensures HasFlag(mask, POLLNVAL) == Bit(mask, 5)
    ensures HasFlag(mask, XPOLL_ERROR) == Bit(mask, 3)
    ensures Pow2(5) == POLLNVAL && Pow2(3) == XPOLL_ERROR
  {
    RemainderHasBit(mask, 5);
    RemainderHasBit(mask, 3);
    assert Pow2(6) == 64 && Pow2(4) == 16;
  }

  /** The two flags lie in the low six bits. */
  lemma LowFlags(q: nat, low: nat)
    requires low < 64 && 64 * q + low < TWO_32
    ensures HasFlag(64 * q + low, POLLNVAL) <==> low >= 32
    ensures HasFlag(64 * q + low, XPOLL_ERROR) <==> low % 16 >= 8
  {
    ModUnique(64 * q + low, 64, q, low);
    ModUnique(64 * q + low, 16, 4 * q + low / 16, low % 16);
  }

  /** One event per slot, in order, each with its own descriptor and user data. */
  ghost predicate ReportsOn<U>(events: seq<Event<U>>, slots: seq<nat>, live: seq<Watch<U>>, revents: seq<Short>)
    requires |events| == |slots| && |live| == |revents|
  {
    forall j :: 0 <= j < |slots| ==>
      slots[j] < |live| && events[j] == EventFor(live[slots[j]].fd, live[slots[j]].udata, revents[slots[j]])
  }

  /** A negative limit is never below the count of events, so it acts like 0 in the loop. */
  function AtLeast0(max: int): nat {
    if max < 0 then 0 else max
  }

  function Ready(revents: seq<Short>): (ready: seq<bool>)
    ensures |ready| == |revents|
  {
    seq(|revents|, i requires 0 <= i < |revents| => revents[i] != 0)
  }

  class Poll<U(0)> {
    var fdTable: array<u32>
    var pfdList: array<Pfd>
    var fdInfo: array<U>
    var pfdCount: nat
    var pfdCap: nat
    var lastWaitIndex: nat

    ghost function Repr(): set<object>
      reads this
    {
      {this, fdTable, pfdList, fdInfo}
    }

    /** Never more slots than the capacity, never more capacity than either list holds,
        whichever reallocations failed. */
    ghost predicate Shaped()
      reads this
    {
      && fdTable as object != fdInfo && pfdList as object != fdInfo && fdTable as object != pfdList
      && pfdCount <= pfdCap && pfdCap <= pfdList.Length && pfdCap <= fdInfo.Length
    }

    ghost function Live(): (live: seq<Watch<U>>)
      reads this, pfdList, fdInfo
      requires Shaped()
      ensures |live| == pfdCount
    {
      seq(pfdCount, i requires 0 <= i < pfdCount && Shaped() reads this, pfdList, fdInfo =>
        Watch(pfdList[i].fd, pfdList[i].events, fdInfo[i]))
    }

    ghost function View(): Registry<U>
      reads this, Repr()
      requires Shaped()
    {
      Registry(fdTable[..], Live())
    }

    ghost predicate Valid()
      reads this, Repr()
    {
      Shaped() && Agree(View())
    }

    /** `xpoll_create`: everything empty. */
    constructor ()
      ensures Valid() && fresh(Repr())
      ensures View() == Registry([], []) && lastWaitIndex == 0
    {
      fdTable := new u32[0];
      pfdList := new Pfd[0];
      fdInfo := new U[0];
      pfdCount, pfdCap, lastWaitIndex := 0, 0, 0;
    }

    /** Make the table hold `fd`, marking the new entries unused. */
    method WidenTable(fd: Fd, tableOk: bool) returns (ok: bool)
      requires Shaped()
      modifies this`fdTable
      ensures Shaped() && fresh(Repr() - old(Repr()))
      ensures ok <==> old(fd < fdTable.Length) || tableOk
      ensures Live() == old(Live())
      ensures fdTable[..] == if ok then Widened(old(fdTable[..]), fd) else old(fdTable[..])
      ensures var cap := old(fdTable.Length);
              && fdTable.Length == (if !ok || fd < cap then cap
                                    else if cap < 16 then 16 else if cap < 65536 then cap + cap else fd + 1)
              && (forall i :: 0 <= i < cap ==> fdTable[i] == old(fdTable[i]))
              && (forall i :: cap <= i < fdTable.Length ==> fdTable[i] == 0xFFFF_FFFF)
    {
      if fd >= fdTable.Length {
        if !tableOk {
          return false;
        }
        var cap := fdTable.Length;
        var newFds := Reallocate(fdTable, TableCapacity(cap, fd));
        for i := cap to newFds.Length
          invariant forall j :: 0 <= j < cap ==> newFds[j] == old(fdTable[j])
          invariant forall j :: cap <= j < i ==> newFds[j] == NO_SLOT
        {
          newFds[i] := NO_SLOT;
        }
        fdTable := newFds;
      }
      ok := true;
    }

    /** Room for one more slot. The two lists are reallocated one after the other, so the
        first may be larger than the capacity afterwards. */
    method ReserveSlot(listOk: bool, infoOk: bool) returns (ok: bool)
      requires Shaped()
      modifies this`pfdList, this`fdInfo, this`pfdCap
      ensures Shaped() && fresh(Repr() - old(Repr()))
      ensures ok <==> old(pfdCount < pfdCap) || (listOk && infoOk)
      ensures ok ==> pfdCount < pfdCap
      ensures pfdCap == (if !ok || old(pfdCount < pfdCap) then old(pfdCap)
                         else if old(pfdCap) < 16 then 16 else old(pfdCap) + old(pfdCap))
      ensures Live() == old(Live())
    {
      if pfdCount >= pfdCap {
        var newCap := if pfdCap < 16 then 16 else 2 * pfdCap;
        if !listOk {
          return false;
        }
        pfdList := Reallocate(pfdList, newCap);
        if !infoOk {
          return false;
        }
        fdInfo := Reallocate(fdInfo, newCap);
        pfdCap := newCap;
      }
      ok := true;
    }

    /** `XPOLL_CTL_ADD`. `overran` is set where the C code writes its table entry past the end
        of the table, which happens when the capacity chosen does not reach the descriptor. */
    method Add(fd: Fd, udata: U, events: EventMask, tableOk: bool, listOk: bool, infoOk: bool)
        returns (ok: bool, overran: bool)
      requires Valid()
      modifies Repr()
      ensures Shaped() && fresh(Repr() - old(Repr()))
      ensures var slotOk := old(pfdCount < pfdCap) || (listOk && infoOk);
              var call := PollRegistry.Add(fd, events, udata, tableOk, slotOk);
              && View() == Apply(old(View()), call)
              && (ok <==> fd !in old(Meaning(View())) && (old(fd < fdTable.Length) || tableOk) && slotOk)
              && overran == Overruns(old(View()), call)
      ensures lastWaitIndex == old(lastWaitIndex)
      ensures Valid() <==> !overran
      ensures !overran ==> Valid()
      ensures !overran ==>
        Meaning(View()) ==
          if ok then old(Meaning(View()))[fd := Watch(fd, PolledEvents(events), udata)] else old(Meaning(View()))
    {
      hide Agree, Meaning, Widened, PolledEvents, TableCapacity, Apply, Overruns, Registered, Succeeds;
      overran := false;
      ghost var r := View();
      ghost var slotOk := pfdCount < pfdCap || (listOk && infoOk);
      ghost var call := PollRegistry.Add(fd, events, udata, tableOk, slotOk);
      AddFacts(r, fd);
      AddRefinesMap(r, call);
      AnswerIsTheMaps(r, call);
      AddCases(r, call);
      AddSucceeds(r, call);
      var widened := WidenTable(fd, tableOk);
      if !widened {
        return false, overran;
      }
      if fd < fdTable.Length && fdTable[fd] != NO_SLOT {
        return false, overran;
      }
      ok := ReserveSlot(listOk, infoOk);
      if !ok {
        return false, overran;
      }
      overran := AppendSlot(fd, udata, PolledEvents(events));
    }

    /** The end of `XPOLL_CTL_ADD`. */
    method AppendSlot(fd: Fd, udata: U, polled: Short) returns (overran: bool)
      requires Shaped() && pfdCount < pfdCap && pfdCount < NO_SLOT
      modifies fdTable, pfdList, fdInfo, this`pfdCount
      ensures Shaped()
      ensures overran == (fd >= fdTable.Length)
      ensures fdTable[..] == if overran then old(fdTable[..]) else old(fdTable[..])[fd := old(pfdCount)]
      ensures Live() == old(Live()) + [Watch(fd, polled, udata)]
      ensures pfdList[old(pfdCount)].revents == 0
    {
      var idx := pfdCount;
      pfdCount := pfdCount + 1;
      pfdList[idx] := Pfd(fd, polled, 0);
      fdInfo[idx] := udata;
      overran := fd >= fdTable.Length;
      if !overran {
        fdTable[fd] := idx;
      }
    }

    /** `XPOLL_CTL_MOD`. */
    method Modify(fd: Fd, udata: U, events: EventMask) returns (ok: bool)
      requires Valid()
      modifies pfdList, fdInfo
      ensures Valid()
      ensures ok <==> fd in old(Meaning(View()))
      ensures View() == Apply(old(View()), PollRegistry.Modify(fd, events, udata))
      ensures Meaning(View()) ==
              if ok then old(Meaning(View()))[fd := Watch(fd, PolledEvents(events), udata)] else old(Meaning(View()))
    {
      hide Agree, Meaning, PolledEvents;
      ghost var r := View();
      RegisteredMeans(r, fd);
      CallRefinesMap(r, PollRegistry.Modify(fd, events, udata));
      if pfdCount == 0 || fd >= fdTable.Length || fdTable[fd] == NO_SLOT {
        return false;
      }
      var idx := fdTable[fd];
      assert r.table[fd] == idx;
      UpdateSlot(idx, udata, PolledEvents(events));
      ok := true;
    }

    method UpdateSlot(idx: nat, udata: U, polled: Short)
      requires Shaped() && idx < pfdCount
      modifies pfdList, fdInfo
      ensures Shaped() && fdTable[..] == old(fdTable[..])
      ensures Live() == old(Live()[idx := Watch(pfdList[idx].fd, polled, udata)])
    {
      pfdList[idx] := pfdList[idx].(events := polled);
      fdInfo[idx] := udata;
    }

    /** The shrinking at the end of `XPOLL_CTL_DEL`: each list may or may not follow. */
    method ShrinkSlots(listOk: bool, infoOk: bool)
      requires Shaped()
      modifies this`pfdList, this`fdInfo, this`pfdCap
      ensures Shaped() && fresh(Repr() - old(Repr()))
      ensures var cap := old(pfdCap);
              pfdCap == if cap > 16 && pfdCount < cap / 4 && (listOk || infoOk) then cap / 4 else cap
      ensures Live() == old(Live())
    {
      if pfdCap > 16 && pfdCount < pfdCap / 4 {
        var newCap := pfdCap / 4;
        if listOk { pfdList := Reallocate(pfdList, newCap); }
        if infoOk { fdInfo := Reallocate(fdInfo, newCap); }
        if listOk || infoOk { pfdCap := newCap; }
      }
    }

    /** `XPOLL_CTL_DEL`. What the new state means, `DeletedAgreesIffLast` says. */
    method Remove(fd: Fd, listOk: bool, infoOk: bool) returns (ok: bool)
      requires Valid()
      modifies Repr()
      ensures Shaped() && fresh(Repr() - old(Repr()))
      ensures ok <==> fd in old(Meaning(View()))
      ensures lastWaitIndex == old(lastWaitIndex)
      ensures View() == Apply(old(View()), PollRegistry.Remove(fd))
      ensures Valid() <==> RemovesLastSlot(old(View()), PollRegistry.Remove(fd))
      ensures Valid() ==> Meaning(View()) == old(Meaning(View())) - {fd}
      ensures ok ==> multiset(Live()) == old(multiset(Live())) - multiset{old(Meaning(View())[fd])}
    {
      hide Agree, Meaning, Deleted;
      ghost var r := View();
      RegisteredMeans(r, fd);
      CallRefinesMap(r, PollRegistry.Remove(fd));
      if pfdCount == 0 || fd >= fdTable.Length || fdTable[fd] == NO_SLOT {
        return false;
      }
      assert r.table[fd] == fdTable[fd];
      DeletedLosesOne(r, fd);
      var idx := fdTable[fd];
      DropSlot(fd, idx);
      ShrinkSlots(listOk, infoOk);
      ok := true;
    }

    method DropSlot(fd: Fd, idx: u32)
      requires Shaped() && fd < fdTable.Length && fdTable[fd] == idx < pfdCount && idx != NO_SLOT
      modifies fdTable, pfdList, fdInfo, this`pfdCount
      ensures Shaped()
      ensures old(Registered(View(), fd)) && View() == Deleted(old(View()), fd)
      ensures pfdCount == old(pfdCount) - 1
      ensures forall i :: 0 <= i < pfdCount ==> Live()[i] == old(Live())[if i == idx then old(pfdCount) - 1 else i]
    {
      ghost var r := View();
      fdTable[fd] := NO_SLOT;
      if pfdCount > 1 {
        pfdList[idx] := pfdList[pfdCount - 1];
        fdInfo[idx] := fdInfo[pfdCount - 1];
      }
      pfdCount := pfdCount - 1;
      assert Live() == Deleted(r, fd).live;
    }

    /** `xpoll_add_or_modify_fd`. */
    method AddOrModify(fd: Fd, udata: U, events: EventMask, tableOk: bool, listOk: bool, infoOk: bool)
        returns (ok: bool, overran: bool)
      requires Valid()
      modifies Repr()
      ensures Shaped() && fresh(Repr() - old(Repr()))
      ensures lastWaitIndex == old(lastWaitIndex)
      ensures overran <==>
        && fd !in old(Meaning(View()))
        && Overruns(old(View()), PollRegistry.Add(fd, events, udata, tableOk, old(pfdCount < pfdCap) || (listOk && infoOk)))
      ensures Valid() <==> !overran
      ensures !overran ==> Valid()
      ensures !overran ==>
        Meaning(View()) ==
          if ok then old(Meaning(View()))[fd := Watch(fd, PolledEvents(events), udata)] else old(Meaning(View()))
      ensures ok <==>
        || fd in old(Meaning(View()))
        || ((old(fd < fdTable.Length) || tableOk) && (old(pfdCount < pfdCap) || (listOk && infoOk)))
    {
      hide Agree, Meaning, PolledEvents, TableCapacity, Apply, Overruns;
      ModifyWhenAbsent(View(), fd, events, udata);
      ok := Modify(fd, udata, events);
      overran := false;
      if !ok {
        ok, overran := Add(fd, udata, events, tableOk, listOk, infoOk);
      }
    }

    /** `xpoll_wait` for a given outcome of `poll(2)`: its return value and, if that is not
        negative, the `revents` it filled in. `slots` are the slots reported. */
    method Wait(pollResult: int, revents: seq<Short>, maxEvents: int)
        returns (ret: int, events: seq<Event<U>>, ghost slots: seq<nat>)
      requires Shaped() && (pollResult >= 0 ==> |revents| == pfdCount)
      modifies pfdList, this`lastWaitIndex
      ensures Shaped() && Live() == old(Live())
      ensures maxEvents == 0 ==> ret == -1
      ensures maxEvents != 0 && pollResult < 0 ==> ret == pollResult
      ensures maxEvents != 0 && pollResult >= 0 && pfdCount == 0 ==> ret == 0
      ensures ret < 0 || pfdCount == 0 ==> events == [] && lastWaitIndex == old(lastWaitIndex)
      ensures ret >= 0 ==> ret == |events|
      ensures maxEvents != 0 && pollResult >= 0 && pfdCount > 0 ==>
        var begin := old(lastWaitIndex) % pfdCount;
        && slots == Reported(Ready(revents), begin, AtLeast0(maxEvents))
        && ret == |slots| && ReportsOn(events, slots, Live(), revents)
        && lastWaitIndex == NextCursor(Ready(revents), begin, AtLeast0(maxEvents))
      ensures maxEvents != 0 && pollResult >= 0 && pfdCount > 0 ==>
        var begin, n := old(lastWaitIndex) % pfdCount, pfdCount;
        && 0 <= ret <= (if maxEvents < 0 then 0 else maxEvents)
        && (forall p :: 0 <= p < ret ==> slots[p] < n && revents[slots[p]] != 0)
        && (forall p, q :: 0 <= p < q < ret ==> Distance(begin, slots[p], n) < Distance(begin, slots[q], n))
        && (forall i :: 0 <= i < n && revents[i] != 0 && i !in slots ==>
              && ret == (if maxEvents < 0 then 0 else maxEvents)
              && forall p :: 0 <= p < ret ==> Distance(begin, slots[p], n) < Distance(begin, i, n))
        && lastWaitIndex == (if maxEvents < 0 || ret < maxEvents then begin else (slots[ret - 1] + 1) % n)
    {
      events, slots := [], [];
      if maxEvents == 0 {
        return -1, [], [];
      }
      if pollResult < 0 {
        return pollResult, [], [];
      }
      if pfdCount == 0 {
        return 0, [], [];
      }
      hide Reported, NextCursor, ReportsOn, Distance;
      StoreRevents(revents);
      ghost var live := Live();
      events, lastWaitIndex := ScanSlots(pfdList, fdInfo, pfdCount, lastWaitIndex % pfdCount, AtLeast0(maxEvents), live, revents);
      assert Live() == live;
      ret := |events|;
      ghost var begin := old(lastWaitIndex) % pfdCount;
      slots := Reported(Ready(revents), begin, AtLeast0(maxEvents));
      ReportedByReadiness(Ready(revents), begin, AtLeast0(maxEvents));
      CursorFollowsReports(Ready(revents), begin, AtLeast0(maxEvents));
    }

    /** What `poll(2)` does to the list. */
    method StoreRevents(revents: seq<Short>)
      requires Shaped() && |revents| == pfdCount
      modifies pfdList
      ensures Live() == old(Live())
      ensures forall i :: 0 <= i < pfdCount ==> pfdList[i].revents == revents[i]
    {
      for i := 0 to pfdCount
        invariant forall j :: 0 <= j < i ==> pfdList[j].revents == revents[j]
        invariant forall j :: 0 <= j < pfdCount ==>
                    pfdList[j].fd == old(pfdList[j].fd) && pfdList[j].events == old(pfdList[j].events)
      {
        pfdList[i] := pfdList[i].(revents := revents[i]);
      }
    }
  }

  /** Where the scan stands after `steps` slots: straight on from `begin`, or past the wrap. */
  ghost predicate ScanAt(begin: nat, n: nat, steps: nat, i: nat, limit: nat, rotated: bool) {
    && begin < n && steps <= n
    && (!rotated ==> limit == n && i == begin + steps && (i == n ==> begin == 0) && i <= n)
    && (rotated ==> 0 < begin == limit && begin + steps == n + i && i <= begin)
  }

  /** Each round examines the next slot in cyclic order, also when the index jumps back. */
  lemma ScanSlot(begin: nat, n: nat, steps: nat, i: nat, limit: nat, rotated: bool)
    requires ScanAt(begin, n, steps, i, limit, rotated) && i < limit
    ensures steps < n && i < n && i == Slot(begin, steps, n)
    ensures if i + 1 >= n && !rotated && begin != 0 then ScanAt(begin, n, steps + 1, 0, begin, true)
            else ScanAt(begin, n, steps + 1, i + 1, limit, rotated)
  {}

  lemma ScanEnds(begin: nat, n: nat, steps: nat, i: nat, limit: nat, rotated: bool)
    requires ScanAt(begin, n, steps, i, limit, rotated)
    ensures i >= limit ==> steps == n
    ensures (if i >= n then 0 else i) == (begin + steps) % n
  {
    SlotIsModulo(begin, steps, n);
  }

  /** What the scan has reported after `steps` slots; it is still to stop where the
      specification says. */
  ghost predicate Scanned<U>(events: seq<Event<U>>, live: seq<Watch<U>>, revents: seq<Short>, begin: nat, max: nat, steps: nat) {
    && begin < |live| == |revents| && steps <= |revents|
    && |events| == |ReadyAmong(Ready(revents), begin, steps)| <= max
    && Examined(Ready(revents), begin, max, 0) == Examined(Ready(revents), begin, max, steps)
    && ReportsOn(events, ReadyAmong(Ready(revents), begin, steps), live, revents)
  }

  lemma ScanStarts<U>(live: seq<Watch<U>>, revents: seq<Short>, begin: nat, max: nat)
    requires begin < |live| == |revents|
    ensures Scanned([], live, revents, begin, max, 0)
  {}

  /** One more slot examined. */
  lemma ScanRound<U>(events: seq<Event<U>>, live: seq<Watch<U>>, revents: seq<Short>, begin: nat, max: nat, steps: nat)
    requires Scanned(events, live, revents, begin, max, steps) && steps < |revents| && |events| < max
    ensures var i := Slot(begin, steps, |revents|);
            Scanned(if revents[i] != 0 then events + [EventFor(live[i].fd, live[i].udata, revents[i])] else events,
                    live, revents, begin, max, steps + 1)
  {
    hide EventFor;
    var i := Slot(begin, steps, |revents|);
    var slots := ReadyAmong(Ready(revents), begin, steps);
    assert ReadyAmong(Ready(revents), begin, steps + 1) == slots + if revents[i] != 0 then [i] else [];
    assert slots + [] == slots;
  }

  /** Where the scan ends, what it has reported is what the specification says. */
  lemma ScanIsDone<U>(events: seq<Event<U>>, live: seq<Watch<U>>, revents: seq<Short>, begin: nat, max: nat, steps: nat)
    requires Scanned(events, live, revents, begin, max, steps) && (steps == |revents| || |events| >= max)
    ensures begin < |Ready(revents)| && Examined(Ready(revents), begin, max, 0) == steps
    ensures |events| == |Reported(Ready(revents), begin, max)|
    ensures ReportsOn(events, Reported(Ready(revents), begin, max), live, revents)
  {}

  /** The rotating scan over `n` slots. `steps` counts the slots examined, which is what
      makes the loop end although `i` jumps back once. */
  method ScanSlots<U>(pfdList: array<Pfd>, fdInfo: array<U>, n: nat, begin: nat, maxEvents: nat,
                      ghost live: seq<Watch<U>>, ghost revents: seq<Short>)
      returns (events: seq<Event<U>>, cursor: nat)
    requires begin < n == |live| == |revents| && n <= pfdList.Length && n <= fdInfo.Length
    requires forall i :: 0 <= i < n ==>
      live[i].fd == pfdList[i].fd && live[i].udata == fdInfo[i] && revents[i] == pfdList[i].revents
    ensures var slots := Reported(Ready(revents), begin, maxEvents);
            |events| == |slots| && ReportsOn(events, slots, live, revents)
    ensures cursor == NextCursor(Ready(revents), begin, maxEvents)
  {
    hide EventFor, Scanned, ScanAt, ReportsOn, Examined, ReadyAmong, Reported, Slot;
    ghost var steps := 0;
    var i: nat, limit: nat, rotated := begin, n, false;
    events := [];
    ScanStarts(live, revents, begin, maxEvents);
    ScanAtStart(begin, n);
    while i < limit && |events| < maxEvents
      invariant ScanAt(begin, n, steps, i, limit, rotated) && steps <= n
      invariant Scanned(events, live, revents, begin, maxEvents, steps)
      decreases n - steps
    {
      ScanSlot(begin, n, steps, i, limit, rotated);
      ScanRound(events, live, revents, begin, maxEvents, steps);
      if pfdList[i].revents != 0 {
        events := events + [EventFor(pfdList[i].fd, fdInfo[i], pfdList[i].revents)];
      }
      if i + 1 >= n && !rotated && begin != 0 {
        rotated, limit, i := true, begin, 0;
      } else {
        i := i + 1;
      }
      steps := steps + 1;
    }
    ScanEnds(begin, n, steps, i, limit, rotated);
    ScanIsDone(events, live, revents, begin, maxEvents, steps);
    cursor := if i >= n then 0 else i;
  }

  lemma ScanAtStart(begin: nat, n: nat)
    requires begin < n
    ensures ScanAt(begin, n, 0, begin, n, false)
  {}
}
