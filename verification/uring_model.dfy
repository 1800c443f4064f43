/** The user side of the provided-buffer protocol as a value: buffer offsets and
    reference counts, the buffer ring, and the list of free request nodes. */
module UringModel {
  import opened Bits
  import opened TableModel

  const BUF_COUNT: nat := 1024
  const BUF_SIZE: nat := 4096
  const FLAG_DONE: u32 := 0x8000_0000
  const MAX_FREE_NODES: nat := 2048
  const MAX_RESULTS: nat := 2048

  // ---- completion flags, laid out as in liburing ----

  predicate HasBuffer(flags: u32) { flags % 2 == 1 }
  predicate HasMore(flags: u32) { flags / 2 % 2 == 1 }
  predicate HasBufMore(flags: u32) { flags / 16 % 2 == 1 }
  function Bid(flags: u32): u16 { flags / 0x1_0000 }

  /** The same by bits: IORING_CQE_F_BUFFER, F_MORE and F_BUF_MORE are bits 0, 1 and 4, and
      the buffer's number is in the upper half. */
  lemma FlagLayout(flags: u32)
    ensures HasBuffer(flags) == Bit(flags, 0)
    ensures HasMore(flags) == Bit(flags, 1)
    ensures HasBufMore(flags) == Bit(flags, 4)
    ensures flags == 0x1_0000 * Bid(flags) + flags % 0x1_0000
  {
    BitBelow(flags, 1);
    BitBelow(flags / 2 / 2, 2);
    assert flags / 2 / 2 / 2 / 2 == flags / 16;
  }

  lemma BitBelow(x: nat, k: nat)
    requires 1 <= k <= 2
    ensures Bit(x, k) == if k == 1 then x / 2 % 2 == 1 else x / 2 / 2 % 2 == 1
    ensures Bit(x / 2 / 2, 0) == Bit(x, 2)
    ensures Bit(x, k + 2) == Bit(x / 2 / 2, k)
  {
    if k == 2 {
      assert Bit(x, 2) == Bit(x / 2, 1) == Bit(x / 2 / 2, 0);
    }
    assert Bit(x, k + 2) == Bit(x / 2, k + 1) == Bit(x / 2 / 2, k);
  }

  datatype Op = Read | Write | Recv | Send | Accept

  /** What a request node holds. `buf` is the caller's own buffer, if any. */
  datatype Request = Request(op: Op, udata: nat, buf: Option<nat>, size: u64)

  datatype Buffer = NoBuffer | Own(ptr: nat) | Provided(bid: u16, offset: nat)

  datatype Result = Result(op: Op, flags: u32, res: int, buf: Buffer, udata: nat)

  /** Whose completion this is: a request node's, or one of the ring's own, which either
      marks the end of a drain or carries no data at all. */
  datatype Owner<N> = Internal(marksEnd: bool) | Node(node: N)

  datatype Cqe<N> = Cqe(owner: Owner<N>, res: i32, flags: u32)

  /** The size that `fh_xio_data_populate` gives for a completion. */
  function AdvanceSize(req: Request, res: i32): u64 {
    var got: u64 := if res < 0 then 0 else res;
    match req.op
    case Read => if res < 0 then 0 else req.size
    case Write => if res < 0 then 0 else req.size
    case Recv => if req.size < got then req.size else got
    case Send => if req.size < got then req.size else got
    case Accept => got
  }

  /** That size, case by case: nothing for a failure; for a READ or WRITE what was asked for,
      however little was transferred; for a RECV or SEND what was transferred, but no more than
      was asked for; for an ACCEPT the result. */
  lemma SizesByCase(req: Request, res: i32)
    ensures res < 0 ==> AdvanceSize(req, res) == 0
    ensures res >= 0 && (req.op.Read? || req.op.Write?) ==> AdvanceSize(req, res) == req.size
    ensures res >= 0 && (req.op.Recv? || req.op.Send?) ==>
      AdvanceSize(req, res) <= res && AdvanceSize(req, res) <= req.size && AdvanceSize(req, res) in {res, req.size}
    ensures res >= 0 && req.op.Accept? ==> AdvanceSize(req, res) == res
  {}

  function OwnBuffer(req: Request): Buffer {
    if req.op.Accept? || req.buf.None? then NoBuffer else Own(req.buf.value)
  }

  /** Where the kernel's position ends up: never past the end of the buffer. */
  function Clamp(position: nat): u32 {
    if position >= BUF_SIZE then BUF_SIZE else position
  }

  /** The user's own arithmetic: the sum that is compared wraps at 64 bits, the offset that
      is stored at 32. */
  function Advanced(offset: u32, size: u64): u32 {
    if (offset + size) % TWO_64 >= BUF_SIZE then BUF_SIZE else (offset + size) % TWO_32
  }

  /** The user's offset follows the kernel's position exactly when the sum does not wrap; a
      sum that wraps leaves what it wrapped to, which is behind the offset. */
  lemma AdvanceFollowsKernel(offset: u32, size: u64)
    requires offset <= BUF_SIZE
    ensures Advanced(offset, size) == Clamp(offset + size) <==> offset + size < TWO_64
    ensures offset + size < TWO_64 ==> Advanced(offset, size) == if offset + size < 4096 then offset + size else 4096
    ensures offset + size >= TWO_64 ==> Advanced(offset, size) == offset + size - TWO_64 < offset
  {
    if offset + size >= TWO_64 {
      assert (offset + size) % TWO_64 == offset + size - TWO_64;
      assert (offset + size) % TWO_32 == offset + size - TWO_64 by {
        assert TWO_64 == TWO_32 * TWO_32;
      }
    }
  }

  /** `free` is the free list from head to tail, `released` the nodes given to `free(3)` so far. */
  datatype User<N> = User(
    offsets: seq<u32>,
    refs: seq<u32>,
    ring: seq<u16>,
    tail: u16,
    free: seq<N>,
    released: seq<N>)

  predicate Sized<N>(u: User<N>) {
    |u.offsets| == BUF_COUNT && |u.refs| == BUF_COUNT && |u.ring| == BUF_COUNT
  }

  /** `fh_xio_data_disown`. */
  function Disown<N>(u: User<N>, n: N): User<N> {
    if |u.free| >= MAX_FREE_NODES then u.(released := u.released + [n]) else u.(free := u.free + [n])
  }

  /** How `fh_xio_request_prep_common` ends. */
  datatype Preparation<N> = NoMemory | NoEntry(user: User<N>) | Granted(user: User<N>, node: N)

  /** `fh_xio_request_prep_common`: the newest free node, or a spare one that `malloc` grants
      when the list is empty; given back at once when there is no submission entry. */
  function PrepCommon<N>(u: User<N>, spare: Option<N>, sqeOk: bool): Preparation<N> {
    if u.free == [] && spare.None? then NoMemory
    else
      var n := if u.free != [] then u.free[|u.free| - 1] else spare.value;
      var taken := if u.free != [] then u.(free := u.free[..|u.free| - 1]) else u;
      if sqeOk then Granted(taken, n) else NoEntry(Disown(taken, n))
  }

  function SetDone(count: u32): u32 {
    if count < FLAG_DONE then count + FLAG_DONE else count
  }

  /** Setting the flag is the bitwise or with it. */
  lemma SetDoneIsOr(count: u32)
    ensures Or(count, FLAG_DONE) == SetDone(count)
  {
    Pow2At16();
    Pow2Adds(15, 16);
    assert Pow2(16) == 2 * Pow2(15) && Pow2(31) == FLAG_DONE;
    OrTopBit(count, 31);
  }

  /** The buffer part of handling one completion in `fh_xio_wait`. */
  function CountBuffer<N>(u: User<N>, flags: u32, size: u64): User<N>
    requires Sized(u) && (HasBuffer(flags) ==> Bid(flags) < BUF_COUNT)
  {
    if !HasBuffer(flags) then u
    else
      var b := Bid(flags);
      var counted := (u.refs[b] + 1) % TWO_32;
      u.(refs := u.refs[b := if HasBufMore(flags) then counted else SetDone(counted)],
         offsets := u.offsets[b := Advanced(u.offsets[b], size)])
  }

  /** The result that one completion becomes. */
  function ResultOf<N>(u: User<N>, cqe: Cqe<N>, req: Request): Result
    requires Sized(u) && (HasBuffer(cqe.flags) ==> Bid(cqe.flags) < BUF_COUNT)
  {
    var provided := if HasBuffer(cqe.flags) then Provided(Bid(cqe.flags), u.offsets[Bid(cqe.flags)]) else NoBuffer;
    Result(req.op, cqe.flags, cqe.res, if OwnBuffer(req) != NoBuffer then OwnBuffer(req) else provided, req.udata)
  }

  /** One round of `fh_xio_wait` for the completion of a request. */
  function Reaped<N>(u: User<N>, cqe: Cqe<N>, req: Request): User<N>
    requires Sized(u) && cqe.owner.Node? && (HasBuffer(cqe.flags) ==> Bid(cqe.flags) < BUF_COUNT)
  {
    var counted := CountBuffer(u, cqe.flags, AdvanceSize(req, cqe.res));
    if HasMore(cqe.flags) then counted else Disown(counted, cqe.owner.node)
  }

  /** What `fh_xio_wait` has done after the first `k` completions, and the results so far. */
  datatype Waited<N> = Waited(user: User<N>, results: seq<Result>)

  /** Every completion is the ring's own or belongs to a known node and buffer. */
  predicate Readable<N(==)>(cq: seq<Cqe<N>>, reqs: map<N, Request>) {
    forall i :: 0 <= i < |cq| && cq[i].owner.Node? ==>
      cq[i].owner.node in reqs && (HasBuffer(cq[i].flags) ==> Bid(cq[i].flags) < BUF_COUNT)
  }

  function WaitUpTo<N(==)>(u: User<N>, cq: seq<Cqe<N>>, reqs: map<N, Request>, k: nat): (w: Waited<N>)
    requires Sized(u) && Readable(cq, reqs) && k <= |cq|
    ensures Sized(w.user) && |w.results| <= k
  {
    if k == 0 then Waited(u, [])
    else
      var w := WaitUpTo(u, cq, reqs, k - 1);
      var cqe := cq[k - 1];
      if cqe.owner.Internal? then w
      else
        Waited(Reaped(w.user, cqe, reqs[cqe.owner.node]),
               w.results + [ResultOf(w.user, cqe, reqs[cqe.owner.node])])
  }

  /** The result of a completion, field by field: the caller's own buffer if the request had
      one, otherwise the place in the provided buffer, if any. */
  lemma ResultByCase<N>(u: User<N>, cqe: Cqe<N>, req: Request)
    requires Sized(u) && (HasBuffer(cqe.flags) ==> Bid(cqe.flags) < BUF_COUNT)
    ensures var r := ResultOf(u, cqe, req);
            && r.op == req.op && r.udata == req.udata && r.res == cqe.res && r.flags == cqe.flags
            && (!req.op.Accept? && req.buf.Some? ==> r.buf == Own(req.buf.value))
            && (req.op.Accept? || req.buf.None? ==>
                  r.buf == if HasBuffer(cqe.flags) then Provided(Bid(cqe.flags), u.offsets[Bid(cqe.flags)]) else NoBuffer)
  {}

  /** The state after a completion, in numbers: the buffer it used has one reference more, is
      marked done when no more of it follows, and its offset moves on; a final completion puts
      the node at the end of the free list, or frees it when 2048 are listed. */
  lemma ReapedByCase<N>(u: User<N>, cqe: Cqe<N>, req: Request)
    requires Sized(u) && cqe.owner.Node? && (HasBuffer(cqe.flags) ==> Bid(cqe.flags) < BUF_COUNT)
    ensures var u', n := Reaped(u, cqe, req), cqe.owner.node;
            && u'.ring == u.ring && u'.tail == u.tail
            && (!HasBuffer(cqe.flags) ==> u'.offsets == u.offsets && u'.refs == u.refs)
            && (if HasMore(cqe.flags) then u'.free == u.free && u'.released == u.released
                else if |u.free| < 2048 then u'.free == u.free + [n] && u'.released == u.released
                else u'.free == u.free && u'.released == u.released + [n])
    ensures HasBuffer(cqe.flags) ==>
      var u', b := Reaped(u, cqe, req), Bid(cqe.flags);
      var count := if u.refs[b] == 0xFFFF_FFFF then 0 else u.refs[b] + 1;
      var moved := if cqe.res < 0 then 0
                   else if req.op.Read? || req.op.Write? then req.size
                   else if req.op.Accept? || cqe.res < req.size then cqe.res else req.size;
      && u'.refs == u.refs[b := if HasBufMore(cqe.flags) || count >= 0x8000_0000 then count else count + 0x8000_0000]
      && (u.offsets[b] <= 4096 && u.offsets[b] + moved < TWO_64 ==>
            u'.offsets == u.offsets[b := if u.offsets[b] + moved < 4096 then u.offsets[b] + moved else 4096])
  {
    if HasBuffer(cqe.flags) && u.offsets[Bid(cqe.flags)] <= 4096 {
      AdvanceFollowsKernel(u.offsets[Bid(cqe.flags)], AdvanceSize(req, cqe.res));
    }
    hide Advanced;
  }

  /** How many of the first `k` completions are for requests. */
  function Requests<N>(cq: seq<Cqe<N>>, k: nat): nat
    requires k <= |cq|
  {
    if k == 0 then 0 else Requests(cq, k - 1) + if cq[k - 1].owner.Node? then 1 else 0
  }

  /** One result for each completion of a request. */
  lemma {:induction false} ResultPerRequest<N>(u: User<N>, cq: seq<Cqe<N>>, reqs: map<N, Request>, k: nat)
    requires Sized(u) && Readable(cq, reqs) && k <= |cq|
    ensures |WaitUpTo(u, cq, reqs, k).results| == Requests(cq, k)
  {
    hide Reaped, ResultOf;
    if k > 0 { ResultPerRequest(u, cq, reqs, k - 1); }
  }

  lemma {:induction false} SomeRequest<N>(cq: seq<Cqe<N>>, k: nat, i: nat)
    requires i < k <= |cq| && cq[i].owner.Node?
    ensures Requests(cq, k) >= 1
  {
    if i < k - 1 { SomeRequest(cq, k - 1, i); }
  }

  lemma WaitStart<N>(u: User<N>, cq: seq<Cqe<N>>, reqs: map<N, Request>)
    requires Sized(u) && Readable(cq, reqs)
    ensures WaitUpTo(u, cq, reqs, 0) == Waited(u, [])
  {}

  lemma WaitStep<N>(u: User<N>, cq: seq<Cqe<N>>, reqs: map<N, Request>, k: nat)
    requires Sized(u) && Readable(cq, reqs) && 0 < k <= |cq|
    ensures cq[k - 1].owner.Node? ==> cq[k - 1].owner.node in reqs
    ensures cq[k - 1].owner.Node? && HasBuffer(cq[k - 1].flags) ==> Bid(cq[k - 1].flags) < BUF_COUNT
    ensures var w, cqe := WaitUpTo(u, cq, reqs, k - 1), cq[k - 1];
            WaitUpTo(u, cq, reqs, k) ==
              if cqe.owner.Internal? then w
              else Waited(Reaped(w.user, cqe, reqs[cqe.owner.node]),
                          w.results + [ResultOf(w.user, cqe, reqs[cqe.owner.node])])
  {}

  /** No completion is for a free node, and none follows the final one of its node. */
  ghost predicate Orderly<N>(cq: seq<Cqe<N>>, free: seq<N>) {
    && (forall i :: 0 <= i < |cq| && cq[i].owner.Node? ==> cq[i].owner.node !in free)
    && (forall i, j :: 0 <= i < j < |cq| && cq[i].owner.Node? && cq[i].owner == cq[j].owner ==> HasMore(cq[i].flags))
  }

  // ---- draining ----

  /** What one wait of `fh_xio_drain` came back with. */
  datatype Wakeup<N> = Interrupted | Failed | Arrived(cqes: seq<Cqe<N>>)

  predicate MarksEnd<N>(cqe: Cqe<N>) {
    cqe.owner.Internal? && cqe.owner.marksEnd
  }

  predicate HasMark<N>(cqes: seq<Cqe<N>>) {
    exists i :: 0 <= i < |cqes| && MarksEnd(cqes[i])
  }

  /** The mark has come, or the wait failed. */
  predicate EndsDrain<N>(w: Wakeup<N>) {
    w.Failed? || (w.Arrived? && HasMark(w.cqes))
  }

  /** The nodes of the final completions, in the order of the queue. */
  function FinalNodes<N>(cqes: seq<Cqe<N>>): seq<N> {
    if cqes == [] then []
    else
      var last := cqes[|cqes| - 1];
      FinalNodes(cqes[..|cqes| - 1]) + if last.owner.Internal? || HasMore(last.flags) then [] else [last.owner.node]
  }

  lemma NoCompletions<N>()
    ensures !HasMark<N>([]) && FinalNodes<N>([]) == []
  {}

  lemma OneMoreCompletion<N>(cqes: seq<Cqe<N>>, cqe: Cqe<N>)
    ensures HasMark(cqes + [cqe]) == (HasMark(cqes) || MarksEnd(cqe))
    ensures FinalNodes(cqes + [cqe])
         == FinalNodes(cqes) + if cqe.owner.Internal? || HasMore(cqe.flags) then [] else [cqe.owner.node]
  {
    var all := cqes + [cqe];
    assert all[..|all| - 1] == cqes && all[|cqes|] == cqe;
    forall i | 0 <= i < |cqes| ensures all[i] == cqes[i] {}
  }

  function FinalNodesOf<N>(wakeups: seq<Wakeup<N>>): seq<N> {
    if wakeups == [] then []
    else
      var last := wakeups[|wakeups| - 1];
      FinalNodesOf(wakeups[..|wakeups| - 1]) + if last.Arrived? then FinalNodes(last.cqes) else []
  }

  lemma NoWakeups<N>()
    ensures FinalNodesOf<N>([]) == []
  {}

  lemma OneMoreWakeup<N>(wakeups: seq<Wakeup<N>>, w: Wakeup<N>)
    ensures FinalNodesOf(wakeups + [w]) == FinalNodesOf(wakeups) + if w.Arrived? then FinalNodes(w.cqes) else []
  {
    assert (wakeups + [w])[..|wakeups|] == wakeups;
  }

  // ---- giving results back ----

  datatype FreeOutcome<N> = FreeOutcome(user: User<N>, readded: bool)

  /** `fh_xio_result_free_internal`: drop one reference; when it was the last one to a
      finished buffer, reset the buffer and write it into the ring `ahead` of the tail. */
  function FreeInternal<N>(u: User<N>, flags: u32, ahead: nat): FreeOutcome<N>
    requires Sized(u) && (HasBuffer(flags) ==> Bid(flags) < BUF_COUNT)
  {
    if !HasBuffer(flags) then FreeOutcome(u, false)
    else
      var b := Bid(flags);
      var left := (u.refs[b] - 1) % TWO_32;
      if left != FLAG_DONE then FreeOutcome(u.(refs := u.refs[b := left]), false)
      else FreeOutcome(u.(refs := u.refs[b := 0], offsets := u.offsets[b := 0],
                          ring := u.ring[(u.tail + ahead) % BUF_COUNT := b]), true)
  }

  /** `io_uring_buf_ring_advance`. */
  function Published<N>(u: User<N>, count: nat): User<N> {
    u.(tail := (u.tail + count) % 0x1_0000)
  }

  /** `fh_xio_result_free`. */
  function Freed<N>(u: User<N>, flags: u32): (u': User<N>)
    requires Sized(u) && (HasBuffer(flags) ==> Bid(flags) < BUF_COUNT)
    ensures Sized(u')
  {
    var o := FreeInternal(u, flags, 0);
    if o.readded then Published(o.user, 1) else o.user
  }

  /** The state after a single free, in numbers: one reference less; when that leaves the done
      mark alone, the buffer starts over and is published at the tail of the ring. */
  lemma FreedByCase<N>(u: User<N>, flags: u32)
    requires Sized(u) && (HasBuffer(flags) ==> Bid(flags) < BUF_COUNT)
    ensures !HasBuffer(flags) ==> Freed(u, flags) == u
    ensures HasBuffer(flags) ==>
      var u', b := Freed(u, flags), Bid(flags);
      && u'.free == u.free && u'.released == u.released
      && (if u.refs[b] == 0x8000_0001 then
            && u'.refs == u.refs[b := 0] && u'.offsets == u.offsets[b := 0]
            && u'.ring == u.ring[u.tail % 1024 := b]
            && u'.tail == if u.tail == 0xFFFF then 0 else u.tail + 1
          else
            && u'.refs == u.refs[b := if u.refs[b] == 0 then 0xFFFF_FFFF else u.refs[b] - 1]
            && u'.offsets == u.offsets && u'.ring == u.ring && u'.tail == u.tail)
  {}

  predicate ValidBids(results: seq<Result>) {
    forall i :: 0 <= i < |results| && HasBuffer(results[i].flags) ==> Bid(results[i].flags) < BUF_COUNT
  }

  /** Freeing results one by one, in order. */
  function FreedEach<N>(u: User<N>, results: seq<Result>): (u': User<N>)
    requires Sized(u) && ValidBids(results)
    ensures Sized(u')
  {
    if results == [] then u
    else Freed(FreedEach(u, results[..|results| - 1]), results[|results| - 1].flags)
  }

  /** The loop of `fh_xio_results_free`: the ring entries are written ahead of a tail that
      is published once, at the end. */
  function FreedAhead<N>(u: User<N>, results: seq<Result>): (r: (User<N>, nat))
    requires Sized(u) && ValidBids(results)
    ensures Sized(r.0)
  {
    if results == [] then (u, 0)
    else
      var (before, advance) := FreedAhead(u, results[..|results| - 1]);
      var o := FreeInternal(before, results[|results| - 1].flags, advance);
      (o.user, if o.readded then advance + 1 else advance)
  }

  /** `& buf_mask` is reduction modulo the ring's size. */
  lemma MaskIsModulo(x: nat)
    ensures And(x, BUF_COUNT - 1) == x % BUF_COUNT
  {
    assert Pow2(10) == BUF_COUNT;
    MaskOfCapacity(x, BUF_COUNT);
  }

  /** A wrapped tail names the same ring slot, and wraps the same way when it moves on. */
  lemma TailSlot(x: nat)
    ensures (x % 0x1_0000) % BUF_COUNT == x % BUF_COUNT
    ensures (x % 0x1_0000 + 1) % 0x1_0000 == (x + 1) % 0x1_0000
  {
    var q, r := x / 0x1_0000, x % 0x1_0000;
    assert x == 0x1_0000 * q + r && r == BUF_COUNT * (r / BUF_COUNT) + r % BUF_COUNT;
    ModUnique(x, BUF_COUNT, 64 * q + r / BUF_COUNT, r % BUF_COUNT);
    if r + 1 < 0x1_0000 {
      ModUnique(x + 1, 0x1_0000, q, r + 1);
    } else {
      ModUnique(x + 1, 0x1_0000, q + 1, 0);
    }
  }

  /** Writing `ahead` of the tail and publishing later, or publishing first: the same slot. */
  lemma FreeAheadIsFreeLater<N>(u: User<N>, flags: u32, ahead: nat)
    requires Sized(u) && (HasBuffer(flags) ==> Bid(flags) < BUF_COUNT)
    ensures var o := FreeInternal(u, flags, ahead);
            && o.user.tail == u.tail
            && Freed(Published(u, ahead), flags) == Published(o.user, if o.readded then ahead + 1 else ahead)
  {
    TailSlot(u.tail + ahead);
  }

  /** The batched free refines the single one: on any results, valid or not, it leaves the
      same reference counts, offsets, ring contents and tail. */
  lemma {:induction false} BatchedFreeRefinesSingle<N>(u: User<N>, results: seq<Result>)
    requires Sized(u) && ValidBids(results)
    ensures var (after, advance) := FreedAhead(u, results);
            after.tail == u.tail && Published(after, advance) == FreedEach(u, results)
  {
    if results != [] {
      var rest := results[..|results| - 1];
      BatchedFreeRefinesSingle(u, rest);
      var (before, advance) := FreedAhead(u, rest);
      hide FreeInternal, Freed;
      FreeAheadIsFreeLater(before, results[|results| - 1].flags, advance);
    }
  }
}
