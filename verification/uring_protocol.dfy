/** The provided-buffer protocol between the kernel and the user side: a kernel that
    consumes buffers a part at a time and posts completions, and a user that rebuilds
    every view from its own offsets and gives buffers back. */
module UringProtocol {
  import opened Bits
  import opened TableModel
  import opened UringModel

  /** What the kernel was given with one submission: the node as user data, and the request. */
  datatype Sent<N> = Sent(node: N, req: Request)

  /** A completion in the queue, with what only the kernel knows: the submission it is for,
      the request made with it, and the position in the buffer where it wrote. */
  datatype Posted<N> = Posted(cqe: Cqe<N>, id: nat, req: Request, start: nat)

  /** A result the client has not given back, with the part of the buffer it covers. */
  datatype Held = Held(result: Result, start: nat, end: nat)

  /** The kernel owns ring entries `khead` up to the published tail and has consumed
      `kpos[b]` bytes of buffer `b`; `queue` names the buffers it owns, in ring order. `sent`
      records every submission, and its place there is its number: `inflight` are those whose
      final completion the user has not handled, `active` those the kernel still works for.
      `mem` is what the nodes in memory hold, `issued` every node ever allocated. */
  datatype Sys<N> = Sys(
    user: User<N>,
    mem: map<N, Request>,
    sent: seq<Sent<N>>,
    inflight: set<nat>,
    active: set<nat>,
    issued: set<N>,
    cq: seq<Posted<N>>,
    khead: nat,
    kpos: seq<nat>,
    queue: seq<u16>,
    held: seq<Held>)

  datatype Step<N> =
    | Submit(req: Request, spare: Option<N>, sqeOk: bool)
    | Complete(id: nat, res: i32, flags: u32)
    | PostInternal(marksEnd: bool, res: i32, flags: u32)
    | Reap
    | Free(i: nat)
    | DrainReap

  /** Every buffer once, in the order in which they are put into the ring. */
  function AllBids(): (bids: seq<u16>)
    ensures |bids| == 1024 && forall i :: 0 <= i < 1024 ==> bids[i] == i
  {
    seq(BUF_COUNT, i requires 0 <= i < BUF_COUNT => i as u16)
  }

  /** `fh_xio_create`. */
  function Initial<N>(): Sys<N> {
    Sys(User(seq(BUF_COUNT, _ => 0), seq(BUF_COUNT, _ => 0), AllBids(), BUF_COUNT, [], []),
        map[], [], {}, {}, {}, [], 0, seq(BUF_COUNT, _ => 0), AllBids(), [])
  }

  /** The kernel's own rule: how far a completion with this result moves it in its buffer. A
      failed request leaves it where it is. File requests use up the length they were
      submitted with, socket requests only what went over the wire. */
  function KernelAdvance(req: Request, res: i32): u64 {
    if res < 0 then 0
    else if req.op.Accept? then res
    else if req.op.Read? || req.op.Write? || req.size < res then req.size
    else res
  }

  /** The user computes what the kernel does. */
  lemma UserSizeIsKernelAdvance(req: Request, res: i32)
    ensures AdvanceSize(req, res) == KernelAdvance(req, res)
  {}

  function End<N>(p: Posted<N>): u32 {
    Clamp(p.start + KernelAdvance(p.req, p.cqe.res))
  }

  predicate Uses<N>(p: Posted<N>, b: nat) {
    p.cqe.owner.Node? && HasBuffer(p.cqe.flags) && Bid(p.cqe.flags) == b
  }

  predicate About<N>(p: Posted<N>, id: nat) {
    p.cqe.owner.Node? && p.id == id
  }

  /** A completion of the ring's own; number, request and position are not used. */
  function OwnPost<N>(marksEnd: bool, res: i32, flags: u32): Posted<N> {
    Posted(Cqe(Internal(marksEnd), res, flags), 0, Request(Read, 0, None, 0), 0)
  }

  function HeldFrom<N>(u: User<N>, p: Posted<N>): Held
    requires Sized(u) && (HasBuffer(p.cqe.flags) ==> Bid(p.cqe.flags) < BUF_COUNT)
  {
    Held(ResultOf(u, p.cqe, p.req), p.start, End(p))
  }

  // ---- what each party may do ----

  /** The rules of the environment. The kernel completes only active submissions, and goes
      by what it was given with them, whatever the nodes hold by then; it takes
      the buffer at its ring head, and only for requests without one; it writes no more
      than it advances, and advances by less than 2^32; it announces more of the buffer
      exactly when some is left; it marks the end of a drain only when no request is left
      that it works for. The client frees only results it holds, and holds fewer than 2^31. */
  ghost predicate Allowed<N>(s: Sys<N>, step: Step<N>) {
    match step
    case Submit(req, spare, _) => spare.Some? ==> spare.value !in s.issued
    case Complete(id, res, flags) =>
      && id in s.active && id < |s.sent|
      && (HasBuffer(flags) ==>
            && var req := s.sent[id].req;
            && req.buf.None? && !req.op.Accept?
            && Sized(s.user) && |s.kpos| == BUF_COUNT
            && s.user.tail != s.khead % 0x1_0000 && Bid(flags) == s.user.ring[s.khead % BUF_COUNT]
            && Bid(flags) < BUF_COUNT
            && KernelAdvance(req, res) < TWO_32
            && var end := Clamp(s.kpos[Bid(flags)] + KernelAdvance(req, res));
               && res <= end - s.kpos[Bid(flags)]
               && (HasBufMore(flags) <==> end < BUF_SIZE))
    case PostInternal(marksEnd, _, _) => marksEnd ==> s.active == {}
    case Reap => s.cq != [] && |s.held| + 1 < FLAG_DONE
    case Free(i) => i < |s.held|
    case DrainReap => s.cq != []
  }

  /** `fh_xio_request_prep_common` and the filling of the node; a node granted goes to the
      kernel under a new number. */
  function AfterSubmit<N>(s: Sys<N>, req: Request, spare: Option<N>, sqeOk: bool): Sys<N> {
    var obtained := if s.user.free == [] && spare.Some? then {spare.value} else {};
    match PrepCommon(s.user, spare, sqeOk)
    case NoMemory => s
    case NoEntry(u) => s.(user := u, issued := s.issued + obtained)
    case Granted(u, n) =>
      s.(user := u, issued := s.issued + obtained, mem := s.mem[n := req], sent := s.sent + [Sent(n, req)],
         inflight := s.inflight + {|s.sent|}, active := s.active + {|s.sent|})
  }

  ghost function AfterComplete<N>(s: Sys<N>, id: nat, res: i32, flags: u32): Sys<N>
    requires Allowed(s, Complete(id, res, flags))
  {
    var active := if HasMore(flags) then s.active else s.active - {id};
    var cqe := Cqe(Node(s.sent[id].node), res, flags);
    if !HasBuffer(flags) then
      s.(active := active, cq := s.cq + [Posted(cqe, id, s.sent[id].req, 0)])
    else
      var b := Bid(flags);
      var p := Posted(cqe, id, s.sent[id].req, s.kpos[b]);
      var s1 := s.(active := active, cq := s.cq + [p], kpos := s.kpos[b := End(p)]);
      if HasBufMore(flags) then s1
      else s1.(khead := s.khead + 1, queue := if s.queue == [] then [] else s.queue[1..])
  }

  function BufferKnown<N>(s: Sys<N>, p: Posted<N>): bool {
    && Sized(s.user)
    && (p.cqe.owner.Node? ==> p.cqe.owner.node in s.mem && (HasBuffer(p.cqe.flags) ==> Bid(p.cqe.flags) < BUF_COUNT))
  }

  /** One completion handled by `fh_xio_wait`, from what the node in memory says. */
  function AfterReap<N(==)>(s: Sys<N>): Sys<N>
    requires s.cq != [] && BufferKnown(s, s.cq[0])
  {
    var p := s.cq[0];
    if p.cqe.owner.Internal? then s.(cq := s.cq[1..])
    else
      var n := p.cqe.owner.node;
      s.(user := Reaped(s.user, p.cqe, s.mem[n]),
         inflight := if HasMore(p.cqe.flags) then s.inflight else s.inflight - {p.id},
         cq := s.cq[1..],
         held := s.held + [Held(ResultOf(s.user, p.cqe, s.mem[n]), p.start, End(p))])
  }

  function WithoutHeld(held: seq<Held>, i: nat): seq<Held>
    requires i < |held|
  {
    held[..i] + held[i + 1..]
  }

  function AfterFree<N>(s: Sys<N>, i: nat): Sys<N>
    requires i < |s.held| && Sized(s.user) && |s.kpos| == BUF_COUNT
    requires HasBuffer(s.held[i].result.flags) ==> Bid(s.held[i].result.flags) < BUF_COUNT
  {
    var flags := s.held[i].result.flags;
    var s1 := s.(user := Freed(s.user, flags), held := WithoutHeld(s.held, i));
    if FreeInternal(s.user, flags, 0).readded then
      s1.(queue := s.queue + [Bid(flags)], kpos := s.kpos[Bid(flags) := 0])
    else s1
  }

  /** One completion handled by `fh_xio_drain`: a final one frees its node outright. */
  function AfterDrainReap<N>(s: Sys<N>): Sys<N>
    requires s.cq != []
  {
    var p := s.cq[0];
    if p.cqe.owner.Internal? || HasMore(p.cqe.flags) then s.(cq := s.cq[1..])
    else
      s.(cq := s.cq[1..], inflight := s.inflight - {p.id},
         user := s.user.(released := s.user.released + [p.cqe.owner.node]))
  }
}
