/** The io_uring backend as it is written: arrays of offsets and counts, a buffer ring,
    and a doubly linked list of free request nodes. */
module Uring {
  import opened Bits
  import opened TableModel
  import opened UringModel
  import opened UringProtocol

  /** A request node. `next` and `prev` are in use while it is on the free list. */
  class DataNode {
    var next: DataNode?
    var prev: DataNode?
    var req: Request

    constructor ()
      ensures next == null && prev == null
    {
      next, prev, req := null, null, Request(Read, 0, None, 0);
    }
  }

  ghost function NextNode(list: seq<DataNode>, i: nat): DataNode?
    requires i < |list|
  {
    if i + 1 < |list| then list[i + 1] else null
  }

  ghost function PrevNode(list: seq<DataNode>, i: nat): DataNode?
    requires i < |list|
  {
    if i > 0 then list[i - 1] else null
  }

  /** The links of the nodes spell out the list. */
  ghost predicate Linked(list: seq<DataNode>, head: DataNode?, tail: DataNode?)
    reads list
  {
    && (forall i, j :: 0 <= i < j < |list| ==> list[i] != list[j])
    && head == (if list == [] then null else list[0])
    && tail == (if list == [] then null else list[|list| - 1])
    && (forall i {:trigger list[i].next} :: 0 <= i < |list| ==> list[i].next == NextNode(list, i))
    && (forall i {:trigger list[i].prev} :: 0 <= i < |list| ==> list[i].prev == PrevNode(list, i))
  }

  /** The free list on its own: a stack of at most 2048 nodes, newest at the tail. */
  class FreeList {
    var head: DataNode?
    var tail: DataNode?
    var count: nat
    ghost var nodes: seq<DataNode>
    ghost var released: seq<DataNode>

    ghost predicate Valid()
      reads this, nodes
    {
      count == |nodes| <= MAX_FREE_NODES && Linked(nodes, head, tail)
    }

    constructor ()
      ensures Valid() && nodes == [] && released == []
    {
      head, tail, count, nodes, released := null, null, 0, [], [];
    }

    /** `fh_xio_data_disown`: push, or free the node when the list is full. */
    method Disown(n: DataNode)
      requires Valid() && n !in nodes
      modifies this, nodes, n`next, n`prev
      ensures Valid()
      ensures if |old(nodes)| >= 2048 then nodes == old(nodes) && released == old(released) + [n]
              else nodes == old(nodes) + [n] && released == old(released)
      ensures forall m :: m in old(nodes) ==> m.req == old(m.req)
    {
      if count >= MAX_FREE_NODES {
        released := released + [n];
        return;
      }
      n.next := null;
      n.prev := tail;
      if tail != null {
        tail.next := n;
      } else {
        head := n;
      }
      tail := n;
      count := count + 1;
      nodes := nodes + [n];
    }

    /** `fh_xio_data_get`: pop the newest node, or allocate one. */
    method Get(mallocOk: bool) returns (n: DataNode?)
      requires Valid()
      modifies this, nodes
      ensures Valid() && released == old(released)
      ensures n == null <==> old(nodes) == [] && !mallocOk
      ensures if old(nodes) == [] then nodes == [] && (n != null ==> fresh(n))
              else n == old(nodes)[|old(nodes)| - 1] && nodes == old(nodes)[..|old(nodes)| - 1]
      ensures n != null ==> n.next == null && n.prev == null && n !in nodes
      ensures forall m :: m in old(nodes) ==> m.req == old(m.req)
    {
      if count == 0 {
        if !mallocOk {
          return null;
        }
        n := new DataNode();
        return n;
      }
      ghost var last := |nodes| - 1;
      assert tail == nodes[last];
      var data := tail;
      assert data.prev == PrevNode(nodes, last);
      tail := data.prev;
      if tail != null {
        assert tail == nodes[last - 1];
        tail.next := null;
      } else {
        head := null;
      }
      count := count - 1;
      nodes := nodes[..last];
      data.next, data.prev := null, null;
      n := data;
    }

    /** The loop at the end of `fh_xio_free`: free the list from its head. */
    method FreeAll()
      requires Valid()
      modifies this
      ensures released == old(released) + old(nodes)
      ensures head == null
    {
      ghost var i := 0;
      while head != null
        invariant i <= |nodes| && nodes == old(nodes) && unchanged(nodes)
        invariant Linked(nodes, old(head), old(tail))
        invariant head == if i < |nodes| then nodes[i] else null
        invariant released == old(released) + nodes[..i]
        decreases |nodes| - i
      {
        var data := head;
        head := data.next;
        released := released + [data];
        i := i + 1;
      }
      assert nodes[..i] == nodes;
    }
  }

  ghost function Owners(cq: seq<Cqe<DataNode>>): set<DataNode> {
    set i | 0 <= i < |cq| && cq[i].owner.Node? :: cq[i].owner.node
  }

  /** The first entries of the caller's array are `rs`, the others as they were. */
  ghost predicate Filled(a: seq<Result>, rs: seq<Result>, before: seq<Result>) {
    |a| == |before| && |rs| <= |a| && a == rs + before[|rs|..]
  }

  lemma FillNext(a: seq<Result>, rs: seq<Result>, before: seq<Result>, r: Result)
    requires Filled(a, rs, before) && |rs| < |a|
    ensures Filled(a[|rs| := r], rs + [r], before)
  {}

  /** The free nodes come from the free list as it was or from the queue. */
  ghost predicate Among(nodes: seq<DataNode>, before: seq<DataNode>, cq: seq<Cqe<DataNode>>) {
    forall n :: n in nodes ==> n in before || n in Owners(cq)
  }

  /** The completions from the `i`-th on are for nodes that are not free. */
  ghost predicate AllBusy(cq: seq<Cqe<DataNode>>, i: nat, nodes: seq<DataNode>) {
    forall j :: i <= j < |cq| && cq[j].owner.Node? ==> cq[j].owner.node !in nodes
  }

  lemma BusyStep(cq: seq<Cqe<DataNode>>, i: nat, nodes: seq<DataNode>, before: seq<DataNode>)
    requires i < |cq| && Orderly(cq, before) && AllBusy(cq, i, nodes) && Among(nodes, before, cq)
    ensures AllBusy(cq, i + 1, nodes)
    ensures cq[i].owner.Node? ==>
      var n := cq[i].owner.node;
      n !in nodes && n in Owners(cq) && Among(nodes + [n], before, cq)
      && (!HasMore(cq[i].flags) ==> AllBusy(cq, i + 1, nodes + [n]))
  {}

  /** `fh_xio_wait` after `k` completions and `count` results: where the loop stands. */
  ghost predicate SoFar(user: User<DataNode>, cq: seq<Cqe<DataNode>>, reqs: map<DataNode, Request>, k: nat,
                        count: int, limit: nat, now: User<DataNode>, a: seq<Result>, before: seq<Result>)
    requires Sized(user) && Readable(cq, reqs)
  {
    && k <= |cq| && now == WaitUpTo(user, cq, reqs, k).user
    && count == |WaitUpTo(user, cq, reqs, k).results| <= limit && Filled(a, WaitUpTo(user, cq, reqs, k).results, before)
    && (forall j :: 0 <= j < k ==> |WaitUpTo(user, cq, reqs, j).results| < limit)
    && Among(now.free, user.free, cq) && AllBusy(cq, k, now.free)
  }

  lemma SoFarAtStart(user: User<DataNode>, cq: seq<Cqe<DataNode>>, reqs: map<DataNode, Request>, limit: nat, a: seq<Result>)
    requires Sized(user) && Readable(cq, reqs) && Orderly(cq, user.free)
    ensures SoFar(user, cq, reqs, 0, 0, limit, user, a, a)
  {}

  /** What the next completion needs, and where the loop stands after it. */
  lemma SoFarNext(user: User<DataNode>, cq: seq<Cqe<DataNode>>, reqs: map<DataNode, Request>, k: nat,
                  count: int, limit: nat, now: User<DataNode>, a: seq<Result>, before: seq<Result>)
    requires Sized(user) && Readable(cq, reqs) && Orderly(cq, user.free) && limit <= |before|
    requires SoFar(user, cq, reqs, k, count, limit, now, a, before) && k < |cq| && count < limit
    ensures Sized(now) && |a| == |before| && 0 <= count < |a|
    ensures forall n :: n in now.free ==> n in user.free || n in Owners(cq)
    ensures var cqe := cq[k];
      if cqe.owner.Internal? then SoFar(user, cq, reqs, k + 1, count, limit, now, a, before)
      else
        && cqe.owner.node !in now.free && cqe.owner.node in reqs && cqe.owner.node in Owners(cq)
        && (HasBuffer(cqe.flags) ==> Bid(cqe.flags) < BUF_COUNT)
        && var req := reqs[cqe.owner.node];
           SoFar(user, cq, reqs, k + 1, count + 1, limit, Reaped(now, cqe, req), a[count := ResultOf(now, cqe, req)], before)
  {
    WaitStep(user, cq, reqs, k + 1);
    BusyStep(cq, k, now.free, user.free);
    var cqe := cq[k];
    if cqe.owner.Node? {
      var req := reqs[cqe.owner.node];
      FillNext(a, WaitUpTo(user, cq, reqs, k).results, before, ResultOf(now, cqe, req));
      ReapedFree(now, cqe, req);
      hide Reaped, ResultOf, WaitUpTo, Filled;
    }
  }

  lemma SoFarAtEnd(user: User<DataNode>, cq: seq<Cqe<DataNode>>, reqs: map<DataNode, Request>, k: nat,
                   count: int, limit: nat, now: User<DataNode>, a: seq<Result>, before: seq<Result>)
    requires Sized(user) && Readable(cq, reqs) && SoFar(user, cq, reqs, k, count, limit, now, a, before)
    ensures k <= |cq| && now == WaitUpTo(user, cq, reqs, k).user
    ensures count == |WaitUpTo(user, cq, reqs, k).results| && Filled(a, WaitUpTo(user, cq, reqs, k).results, before)
    ensures count == Requests(cq, k) && forall j :: 0 <= j < k ==> Requests(cq, j) < limit
  {
    ResultPerRequest(user, cq, reqs, k);
    forall j | 0 <= j < k ensures Requests(cq, j) < limit {
      ResultPerRequest(user, cq, reqs, j);
    }
  }

  lemma ReapedFree(u: User<DataNode>, cqe: Cqe<DataNode>, req: Request)
    requires Sized(u) && cqe.owner.Node? && (HasBuffer(cqe.flags) ==> Bid(cqe.flags) < BUF_COUNT)
    ensures Reaped(u, cqe, req).free == u.free
      || (!HasMore(cqe.flags) && Reaped(u, cqe, req).free == u.free + [cqe.owner.node])
  {}

  const ENOMEM: int := 12
  const EAGAIN: int := 11

  /** The loop at the end of `fh_xio_create`. */
  method AddAllBuffers(ring: array<u16>, tail: u16)
    requires ring.Length == BUF_COUNT && tail == 0
    modifies ring
    ensures ring[..] == AllBids()
  {
    hide And, AllBids;
    for i := 0 to BUF_COUNT
      invariant forall j :: 0 <= j < i ==> ring[j] == j
    {
      MaskIsModulo(tail + i);
      ring[And(tail + i, BUF_COUNT - 1)] := i;
    }
    assert ring[..] == AllBids();
  }

  class Xio {
    const bufOffsets: array<u32>
    const bufRefcount: array<u32>
    const ring: array<u16>
    var ringTail: u16
    const list: FreeList

    ghost predicate Valid()
      reads this, list, list.nodes
    {
      && bufOffsets.Length == bufRefcount.Length == ring.Length == BUF_COUNT
      && bufOffsets != bufRefcount
      && list.Valid()
    }

    /** The state of the user side as the protocol sees it. */
    ghost function View(): User<DataNode>
      reads this, bufOffsets, bufRefcount, ring, list
    {
      User(bufOffsets[..], bufRefcount[..], ring[..], ringTail, list.nodes, list.released)
    }

    lemma ViewIsSized()
      requires Valid()
      ensures Sized(View()) && View().free == list.nodes
    {}

    /** `fh_xio_create`, once the kernel has granted the ring: every buffer is in it. */
    constructor ()
      ensures Valid() && View() == Initial<DataNode>().user
      ensures forall b :: 0 <= b < 1024 ==> bufOffsets[b] == 0 && bufRefcount[b] == 0 && ring[b] == b
      ensures ringTail == 1024 && list.nodes == []
      ensures fresh(bufOffsets) && fresh(bufRefcount) && fresh(ring) && fresh(list)
    {
      bufOffsets := new u32[BUF_COUNT](_ => 0);
      bufRefcount := new u32[BUF_COUNT](_ => 0);
      ring := new u16[BUF_COUNT];
      ringTail := 0;
      list := new FreeList();
      new;
      AddAllBuffers(ring, ringTail);
      ringTail := (ringTail + BUF_COUNT) % 0x1_0000;
      assert bufOffsets[..] == seq(BUF_COUNT, _ => 0) && bufRefcount[..] == seq(BUF_COUNT, _ => 0);
    }

    /** A request before it is submitted: `fh_xio_request_prep_common` and the filling of
        the node that every `fh_xio_request_*` function ends with. `spare` is the node that
        was allocated, if one had to be. */
    method Prepare(req: Request, mallocOk: bool, sqeOk: bool) returns (rc: int, n: DataNode?, ghost spare: Option<DataNode>)
      requires Valid()
      modifies list, list.nodes
      ensures Valid()
      ensures spare.Some? ==> fresh(spare.value)
      ensures spare.Some? <==> old(list.nodes) == [] && mallocOk
      ensures match PrepCommon(old(View()), spare, sqeOk)
              case NoMemory => rc == -ENOMEM && n == null && View() == old(View())
              case NoEntry(user) => rc == -EAGAIN && n == null && View() == user
              case Granted(user, node) =>
                rc == 0 && n == node && View() == user && node !in list.nodes && node.req == req
    {
      hide Linked;
      spare := None;
      var data := list.Get(mallocOk);
      if data == null {
        return -ENOMEM, null, None;
      }
      spare := if old(list.nodes) == [] then Some(data) else None;
      ghost var before := list.nodes;
      if !sqeOk {
        list.Disown(data);
        return -EAGAIN, null, spare;
      }
      data.req := req;
      return 0, data, spare;
    }

    /** The counting part of that body: one more reference, and the offset moved on. */
    method CountUse(b: u16, more: bool, size: u64)
      requires bufOffsets.Length == bufRefcount.Length == BUF_COUNT && bufOffsets != bufRefcount && b < BUF_COUNT
      modifies bufOffsets, bufRefcount
      ensures bufOffsets[..] == old(bufOffsets[..])[b := Advanced(old(bufOffsets[b]), size)]
      ensures var counted := (old(bufRefcount[b]) + 1) % TWO_32;
              bufRefcount[..] == old(bufRefcount[..])[b := if more then counted else SetDone(counted)]
    {
      hide Or, SetDone;
      bufRefcount[b] := (bufRefcount[b] + 1) % TWO_32;
      if !more {
        SetDoneIsOr(bufRefcount[b]);
        bufRefcount[b] := Or(bufRefcount[b], FLAG_DONE);
      }
      if (bufOffsets[b] + size) % TWO_64 >= BUF_SIZE {
        bufOffsets[b] := BUF_SIZE;
      } else {
        bufOffsets[b] := (bufOffsets[b] + size) % TWO_32;
      }
    }

    /** The body of the loop of `fh_xio_wait`, for the completion of a request. */
    method Handle(cqe: Cqe<DataNode>) returns (r: Result)
      requires Valid() && cqe.owner.Node? && cqe.owner.node !in list.nodes
      requires HasBuffer(cqe.flags) ==> Bid(cqe.flags) < BUF_COUNT
      modifies bufOffsets, bufRefcount, list, list.nodes, cqe.owner.node`next, cqe.owner.node`prev
      ensures Valid()
      ensures r == ResultOf(old(View()), cqe, old(cqe.owner.node.req))
      ensures View() == Reaped(old(View()), cqe, old(cqe.owner.node.req))
      ensures list.nodes == old(list.nodes) || (!HasMore(cqe.flags) && list.nodes == old(list.nodes) + [cqe.owner.node])
      ensures forall m :: m in old(list.nodes) ==> m.req == old(m.req)
    {
      var data, b := cqe.owner.node, Bid(cqe.flags);
      var buf := OwnBuffer(data.req);
      if buf == NoBuffer && HasBuffer(cqe.flags) {
        buf := Provided(b, bufOffsets[b]);
      }
      r := Result(data.req.op, cqe.flags, cqe.res, buf, data.req.udata);
      var size := AdvanceSize(data.req, cqe.res);
      if HasBuffer(cqe.flags) {
        CountUse(b, HasBufMore(cqe.flags), size);
      }
      assert View() == CountBuffer(old(View()), cqe.flags, size);
      hide CountBuffer, ResultOf, Linked;
      if !HasMore(cqe.flags) {
        list.Disown(data);
      }
    }

    /** `fh_xio_wait`: `failed` when the wait itself failed, other than by timing out. The
        completions before the first at which enough results are in have been handled. */
    method Wait(cq: seq<Cqe<DataNode>>, failed: bool, maxResults: nat, results: array<Result>,
                ghost reqs: map<DataNode, Request>)
      returns (count: int, advance: nat)
      requires Valid() && maxResults <= results.Length
      requires Readable(cq, reqs) && Orderly(cq, list.nodes)
      requires forall n :: n in reqs ==> n.req == reqs[n]
      modifies bufOffsets, bufRefcount, list, list.nodes, Owners(cq), results
      ensures Valid() && advance <= |cq|
      ensures -1 <= count && (count == -1) == (failed && cq == [])
      ensures var w := WaitUpTo(old(View()), cq, reqs, advance);
              && View() == w.user
              && |w.results| == (if count == -1 then 0 else count) <= maxResults
              && Filled(results[..], w.results, old(results[..]))
      ensures count != -1 ==> count == Requests(cq, advance)
      ensures forall k :: 0 <= k < advance ==> Requests(cq, k) < maxResults && Requests(cq, k) < 2048
      ensures advance < |cq| ==> count == if maxResults < 2048 then maxResults else 2048
      ensures maxResults > 0 && (exists i :: 0 <= i < |cq| && cq[i].owner.Node?) ==> count >= 1
      ensures forall n :: n in reqs ==> n.req == reqs[n]
    {
      hide WaitUpTo, Reaped, ResultOf, Linked, Orderly, Among, AllBusy, Readable, Filled, View, SoFar, Requests;
      ViewIsSized();
      count, advance := 0, 0;
      ghost var user, before := View(), results[..];
      var limit := if maxResults < MAX_RESULTS then maxResults else MAX_RESULTS;
      SoFarAtStart(user, cq, reqs, limit, before);
      if failed && cq == [] {
        WaitStart(user, cq, reqs);
        return -1, 0;
      }
      while advance < |cq|
        invariant Valid() && advance <= |cq| && 0 <= count <= limit
        invariant SoFar(user, cq, reqs, advance, count, limit, View(), results[..], before)
        invariant forall n :: n in reqs ==> n.req == reqs[n]
      {
        if count >= limit {
          break;
        }
        var cqe := cq[advance];
        ViewIsSized();
        SoFarNext(user, cq, reqs, advance, count, limit, View(), results[..], before);
        if cqe.owner.Internal? {
          advance := advance + 1;
          continue;
        }
        ghost var was := results[..];
        var r := Handle(cqe);
        results[count] := r;
        assert results[..] == was[count := r];
        count := count + 1;
        advance := advance + 1;
      }
      SoFarAtEnd(user, cq, reqs, advance, count, limit, View(), results[..], before);
      if i :| 0 <= i < |cq| && cq[i].owner.Node? {
        if advance == |cq| { SomeRequest(cq, |cq|, i); }
      }
    }

    /** `fh_xio_result_free_internal`. */
    method DropResult(result: Result, ahead: nat) returns (readded: bool)
      requires Valid() && (HasBuffer(result.flags) ==> Bid(result.flags) < BUF_COUNT)
      modifies bufOffsets, bufRefcount, ring
      ensures Valid()
      ensures var o := FreeInternal(old(View()), result.flags, ahead);
              View() == o.user && readded == o.readded
    {
      hide Linked;
      if !HasBuffer(result.flags) {
        return false;
      }
      var b := Bid(result.flags);
      bufRefcount[b] := (bufRefcount[b] - 1) % TWO_32;
      if bufRefcount[b] != FLAG_DONE {
        return false;
      }
      bufOffsets[b] := 0;
      bufRefcount[b] := 0;
      MaskIsModulo(ringTail + ahead);
      ring[And(ringTail + ahead, BUF_COUNT - 1)] := b;
      return true;
    }

    /** `fh_xio_result_free`. */
    method ResultFree(result: Result)
      requires Valid() && (HasBuffer(result.flags) ==> Bid(result.flags) < BUF_COUNT)
      modifies `ringTail, bufOffsets, bufRefcount, ring
      ensures Valid() && View() == Freed(old(View()), result.flags)
    {
      hide Linked, FreeInternal;
      var readded := DropResult(result, 0);
      if readded {
        ringTail := (ringTail + 1) % 0x1_0000;
      }
    }

    /** `fh_xio_results_free`: the ring entries are written ahead of a tail that is published
        once, and the outcome is that of freeing the results one by one. */
    method ResultsFree(results: array<Result>, count: nat)
      requires Valid() && count <= results.Length && ValidBids(results[..count])
      modifies `ringTail, bufOffsets, bufRefcount, ring
      ensures Valid() && View() == FreedEach(old(View()), results[..count])
    {
      hide Linked, FreeInternal, FreedEach;
      ghost var user, all := View(), results[..count];
      var advance := 0;
      for i := 0 to count
        invariant Valid() && results[..count] == all
        invariant (View(), advance) == FreedAhead(user, all[..i])
      {
        assert all[..i + 1][..i] == all[..i] && all[..i + 1][i] == results[i];
        var readded := DropResult(results[i], advance);
        if readded {
          advance := advance + 1;
        }
      }
      assert all[..count] == all;
      BatchedFreeRefinesSingle(user, all);
      ringTail := (ringTail + advance) % 0x1_0000;
    }

    /** `fh_xio_drain`, with the submission entries it gets and what its waits come back
        with: final completions free their nodes until the mark is found. */
    method Drain(entries: nat, wakeups: seq<Wakeup<DataNode>>) returns (ok: bool, used: nat)
      requires Valid()
      modifies list`released
      ensures Valid() && used <= |wakeups|
      ensures View() == old(View()).(released := old(list.released) + FinalNodesOf(wakeups[..used]))
      ensures forall k :: 0 <= k < used - 1 ==>
                !wakeups[k].Failed? && (wakeups[k].Arrived? ==> !HasMark(wakeups[k].cqes))
      ensures ok == (used > 0 && wakeups[used - 1].Arrived? && HasMark(wakeups[used - 1].cqes))
      ensures !ok ==> entries < 2 || used == |wakeups| || (used > 0 && wakeups[used - 1].Failed?)
      ensures entries < 2 ==> used == 0
    {
      hide Linked, FinalNodesOf, FinalNodes, HasMark;
      ok, used := false, 0;
      NoWakeups<DataNode>();
      assert wakeups[..0] == [];
      if entries < 2 {
        return;
      }
      while !ok && used < |wakeups|
        invariant Valid() && used <= |wakeups|
        invariant View() == old(View()).(released := old(list.released) + FinalNodesOf(wakeups[..used]))
        invariant forall k :: 0 <= k < used - 1 ==> !EndsDrain(wakeups[k])
        invariant ok == (used > 0 && EndsDrain(wakeups[used - 1]))
        invariant used > 0 ==> !wakeups[used - 1].Failed?
      {
        var w := wakeups[used];
        assert wakeups[..used + 1] == wakeups[..used] + [w];
        OneMoreWakeup(wakeups[..used], w);
        used := used + 1;
        if w.Interrupted? {
          continue;
        }
        if w.Failed? {
          return;
        }
        ok := FreeFinal(w.cqes);
      }
    }

    /** One batch of completions of `fh_xio_drain`. */
    method FreeFinal(cqes: seq<Cqe<DataNode>>) returns (done: bool)
      requires Valid()
      modifies list`released
      ensures Valid() && done == HasMark(cqes)
      ensures View() == old(View()).(released := old(list.released) + FinalNodes(cqes))
    {
      hide Linked, HasMark, FinalNodes;
      done := false;
      NoCompletions<DataNode>();
      assert cqes[..0] == [];
      for i := 0 to |cqes|
        invariant Valid() && done == HasMark(cqes[..i])
        invariant View() == old(View()).(released := old(list.released) + FinalNodes(cqes[..i]))
      {
        var cqe := cqes[i];
        OneMoreCompletion(cqes[..i], cqe);
        assert cqes[..i + 1] == cqes[..i] + [cqe];
        if MarksEnd(cqe) {
          done := true;
        } else if cqe.owner.Internal? || HasMore(cqe.flags) {
          continue;
        } else {
          list.released := list.released + [cqe.owner.node];
        }
      }
      assert cqes[..|cqes|] == cqes;
    }

    /** `fh_xio_free`: drain, then free the free list, whether or not the drain succeeded. */
    method Free(entries: nat, wakeups: seq<Wakeup<DataNode>>) returns (drained: bool, used: nat)
      requires Valid()
      modifies list
      ensures used <= |wakeups|
      ensures drained == (used > 0 && wakeups[used - 1].Arrived? && HasMark(wakeups[used - 1].cqes))
      ensures !drained ==> entries < 2 || used == |wakeups| || (used > 0 && wakeups[used - 1].Failed?)
      ensures list.released == old(list.released) + FinalNodesOf(wakeups[..used]) + old(list.nodes)
    {
      hide Linked, FinalNodesOf;
      drained, used := Drain(entries, wakeups);
      ViewIsSized();
      list.FreeAll();
    }
  }
}
