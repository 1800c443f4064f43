/** The buffer invariant of the protocol: kernel and user agree on every position, every
    buffer is in exactly one place, and no two views the client holds overlap. */
module UringBuffers {
  import opened Bits
  import opened TableModel
  import opened TableProbes
  import opened UringModel
  import opened UringProtocol

  // ---- agreement of positions ----

  /** The unreaped completions for buffer `b` join up, each starting where the one before
      it ended, from `from` to `to`; the announcement of more is true of each. */
  ghost predicate Chain<N>(cq: seq<Posted<N>>, b: nat, from: nat, to: nat)
    decreases |cq|
  {
    if cq == [] then from == to
    else if Uses(cq[0], b) then
      && cq[0].start == from && from < BUF_SIZE
      && (HasBufMore(cq[0].cqe.flags) <==> End(cq[0]) < BUF_SIZE)
      && cq[0].cqe.res <= End(cq[0]) - from
      && Chain(cq[1..], b, End(cq[0]), to)
    else Chain(cq[1..], b, from, to)
  }

  lemma {:induction false} ChainAdvances<N>(cq: seq<Posted<N>>, b: nat, from: nat, to: nat)
    requires Chain(cq, b, from, to) && from <= BUF_SIZE
    ensures from <= to <= BUF_SIZE
    decreases |cq|
  {
    if cq != [] {
      ChainAdvances(cq[1..], b, if Uses(cq[0], b) then End(cq[0]) else from, to);
    }
  }

  lemma {:induction false} ChainAppend<N>(cq: seq<Posted<N>>, b: nat, from: nat, to: nat, p: Posted<N>)
    requires Chain(cq, b, from, to)
    requires Uses(p, b) ==>
      && p.start == to < BUF_SIZE && (HasBufMore(p.cqe.flags) <==> End(p) < BUF_SIZE)
      && p.cqe.res <= End(p) - to
    ensures Chain(cq + [p], b, from, if Uses(p, b) then End(p) else to)
    decreases |cq|
  {
    if cq == [] {
      assert (cq + [p])[1..] == [];
      assert Chain((cq + [p])[1..], b, if Uses(p, b) then End(p) else from, if Uses(p, b) then End(p) else to);
    } else {
      assert (cq + [p])[1..] == cq[1..] + [p];
      ChainAppend(cq[1..], b, if Uses(cq[0], b) then End(cq[0]) else from, to, p);
    }
  }

  // ---- counting held results ----

  predicate On(h: Held, b: nat) {
    HasBuffer(h.result.flags) && Bid(h.result.flags) == b
  }

  function CountOn(held: seq<Held>, b: nat): (c: nat)
    ensures c <= |held|
  {
    if held == [] then 0
    else CountOn(held[..|held| - 1], b) + if On(held[|held| - 1], b) then 1 else 0
  }

  lemma CountAppend(held: seq<Held>, h: Held, b: nat)
    ensures CountOn(held + [h], b) == CountOn(held, b) + if On(h, b) then 1 else 0
  {
    assert (held + [h])[..|held|] == held;
  }

  lemma {:induction false} CountConcat(s: seq<Held>, r: seq<Held>, b: nat)
    ensures CountOn(s + r, b) == CountOn(s, b) + CountOn(r, b)
  {
    if r == [] {
      assert s + r == s;
    } else {
      assert (s + r)[..|s + r| - 1] == s + r[..|r| - 1];
      CountConcat(s, r[..|r| - 1], b);
    }
  }

  lemma CountWithout(held: seq<Held>, i: nat, b: nat)
    requires i < |held|
    ensures CountOn(held, b) == CountOn(WithoutHeld(held, i), b) + if On(held[i], b) then 1 else 0
  {
    assert held == held[..i] + ([held[i]] + held[i + 1..]);
    CountConcat(held[..i], [held[i]] + held[i + 1..], b);
    CountConcat([held[i]], held[i + 1..], b);
    CountConcat(held[..i], held[i + 1..], b);
    assert CountOn([held[i]], b) == if On(held[i], b) then 1 else 0 by { CountAppend([], held[i], b); assert [] + [held[i]] == [held[i]]; }
  }

  lemma {:induction false} CountZero(held: seq<Held>, b: nat)
    requires CountOn(held, b) == 0
    ensures forall i :: 0 <= i < |held| ==> !On(held[i], b)
  {
    if held != [] { CountZero(held[..|held| - 1], b); }
  }

  // ---- the invariant ----

  /** The ring entries between the kernel's head and the published tail are `queue`. */
  ghost predicate RingHolds<N>(s: Sys<N>)
    requires Sized(s.user)
  {
    && |s.queue| <= BUF_COUNT
    && s.user.tail == (s.khead + |s.queue|) % 0x1_0000
    && forall i {:trigger s.queue[i]} :: 0 <= i < |s.queue| ==> s.user.ring[(s.khead + i) % BUF_COUNT] == s.queue[i]
  }

  /** The kernel owns exactly the buffers it has not used up, each of them once. */
  ghost predicate Ownership<N>(s: Sys<N>)
    requires |s.kpos| == BUF_COUNT
  {
    && Unique(s.queue)
    && (forall i :: 0 <= i < |s.queue| ==> s.queue[i] < BUF_COUNT)
    && (forall b: u16 :: b < BUF_COUNT ==> (b in s.queue <==> s.kpos[b] < BUF_SIZE))
  }

  /** Positions and counts of one buffer. */
  ghost predicate BufferOk<N>(s: Sys<N>, b: nat)
    requires Sized(s.user) && |s.kpos| == BUF_COUNT && b < BUF_COUNT
  {
    && s.user.offsets[b] <= BUF_SIZE
    && Chain(s.cq, b, s.user.offsets[b], s.kpos[b])
    && s.user.refs[b] == CountOn(s.held, b) + (if s.user.offsets[b] == BUF_SIZE then FLAG_DONE else 0)
    && (s.user.offsets[b] == BUF_SIZE ==> CountOn(s.held, b) >= 1)
  }

  /** A held view is where its result says, inside its buffer and before the user's offset. */
  ghost predicate ViewOk<N>(s: Sys<N>, h: Held)
    requires Sized(s.user)
  {
    HasBuffer(h.result.flags) ==>
      var b := Bid(h.result.flags);
      && b < BUF_COUNT
      && h.result.buf == Provided(b, h.start)
      && h.start <= h.end <= s.user.offsets[b] <= BUF_SIZE
      && h.result.res <= h.end - h.start
  }

  ghost predicate Apart(h: Held, k: Held) {
    HasBuffer(h.result.flags) && HasBuffer(k.result.flags) && Bid(h.result.flags) == Bid(k.result.flags) ==>
      h.end <= k.start || k.end <= h.start
  }

  ghost predicate Views<N>(s: Sys<N>)
    requires Sized(s.user)
  {
    && (forall i :: 0 <= i < |s.held| ==> ViewOk(s, s.held[i]))
    && (forall i, j :: 0 <= i < j < |s.held| ==> Apart(s.held[i], s.held[j]))
  }

  /** Completions on provided buffers are for requests that have none of their own. */
  ghost predicate Fitting<N>(p: Posted<N>) {
    p.cqe.owner.Node? && HasBuffer(p.cqe.flags) ==>
      && Bid(p.cqe.flags) < BUF_COUNT && OwnBuffer(p.req) == NoBuffer
      && KernelAdvance(p.req, p.cqe.res) < TWO_32
  }

  ghost predicate AllFitting<N>(cq: seq<Posted<N>>) {
    forall i :: 0 <= i < |cq| ==> Fitting(cq[i])
  }

  ghost predicate BufInv<N>(s: Sys<N>) {
    && Sized(s.user) && |s.kpos| == BUF_COUNT
    && |s.held| < FLAG_DONE
    && RingHolds(s) && Ownership(s) && Views(s) && AllFitting(s.cq)
    && forall b: nat {:trigger BufferOk(s, b)} :: b < BUF_COUNT ==> BufferOk(s, b)
  }

  lemma InitialBuffers<N>()
    ensures BufInv(Initial<N>())
  {
    hide AllBids, BufInv;
    UntouchedIsGood(Initial<N>());
  }

  /** Nothing queued and nothing held, all positions and counts 0, and the ring full. */
  lemma UntouchedIsGood<N>(s: Sys<N>)
    requires Sized(s.user) && |s.kpos| == BUF_COUNT && s.cq == [] && s.held == []
    requires forall b :: 0 <= b < BUF_COUNT ==> s.user.offsets[b] == 0 && s.kpos[b] == 0 && s.user.refs[b] == 0
    requires s.khead == 0 && s.user.tail == BUF_COUNT && s.queue == s.user.ring == AllBids()
    ensures BufInv(s)
  {
    hide AllBids, BufferOk, RingHolds, Ownership;
    FullRing(s);
    forall b: nat | b < BUF_COUNT ensures BufferOk(s, b) { UntouchedBuffer(s, b); }
  }

  lemma UntouchedBuffer<N>(s: Sys<N>, b: nat)
    requires Sized(s.user) && |s.kpos| == BUF_COUNT && b < BUF_COUNT
    requires s.cq == [] && s.held == [] && s.user.offsets[b] == 0 && s.kpos[b] == 0 && s.user.refs[b] == 0
    ensures BufferOk(s, b)
  {}

  lemma FullRing<N>(s: Sys<N>)
    requires Sized(s.user) && s.khead == 0 && s.user.tail == BUF_COUNT && s.queue == s.user.ring == AllBids()
    requires |s.kpos| == BUF_COUNT && forall b :: 0 <= b < BUF_COUNT ==> s.kpos[b] == 0
    ensures RingHolds(s) && Ownership(s)
  {
    hide AllBids;
    forall b: u16 | b < BUF_COUNT ensures b in s.queue { assert s.queue[b] == b; }
  }

  // ---- every step keeps it ----

  /** Steps that touch neither positions, counts, ring nor queue of the buffers. */
  lemma SameBuffers<N>(s: Sys<N>, s': Sys<N>)
    requires BufInv(s)
    requires s'.user.offsets == s.user.offsets && s'.user.refs == s.user.refs
    requires s'.user.ring == s.user.ring && s'.user.tail == s.user.tail
    requires s'.cq == s.cq && s'.khead == s.khead && s'.kpos == s.kpos && s'.queue == s.queue && s'.held == s.held
    ensures BufInv(s')
  {
    forall b: nat | b < BUF_COUNT ensures BufferOk(s', b) { assert BufferOk(s, b); }
    forall i | 0 <= i < |s'.held| ensures ViewOk(s', s'.held[i]) { assert ViewOk(s, s.held[i]); }
  }

  /** Posting a completion that uses no buffer. */
  lemma PostKeepsBuffers<N>(s: Sys<N>, s': Sys<N>, p: Posted<N>)
    requires BufInv(s)
    requires s'.user == s.user && s'.cq == s.cq + [p]
    requires s'.khead == s.khead && s'.kpos == s.kpos && s'.queue == s.queue && s'.held == s.held
    requires forall b :: !Uses(p, b)
    ensures BufInv(s')
  {
    assert !Uses(p, Bid(p.cqe.flags));
    forall b: nat | b < BUF_COUNT ensures BufferOk(s', b) {
      assert BufferOk(s, b);
      ChainAppend(s.cq, b, s.user.offsets[b], s.kpos[b], p);
    }
    forall i | 0 <= i < |s'.held| ensures ViewOk(s', s'.held[i]) { assert ViewOk(s, s.held[i]); }
  }

  /** The buffer the kernel finds at its ring head is the first it owns, and not used up. */
  lemma HeadOfRing<N>(s: Sys<N>)
    requires BufInv(s) && s.user.tail != s.khead % 0x1_0000
    ensures s.queue != [] && s.user.ring[s.khead % BUF_COUNT] == s.queue[0] < BUF_COUNT
    ensures s.kpos[s.queue[0]] < BUF_SIZE
  {
    assert s.queue != [];
    assert s.queue[0] in s.queue;
  }

  /** The kernel consumes from its ring head and posts: chains grow at their ends, and an
      exhausted buffer leaves the ring. */
  lemma CompleteKeepsBuffers<N>(s: Sys<N>, id: nat, res: i32, flags: u32)
    requires BufInv(s) && Allowed(s, Complete(id, res, flags)) && HasBuffer(flags)
    ensures BufInv(AfterComplete(s, id, res, flags))
  {
    HeadOfRing(s);
    var b0 := s.queue[0];
    var s' := AfterComplete(s, id, res, flags);
    var p := Posted(Cqe(Node(s.sent[id].node), res, flags), id, s.sent[id].req, s.kpos[b0]);
    assert Fitting(p) && Uses(p, b0) && p.cqe.res <= End(p) - s.kpos[b0];
    assert HasBufMore(flags) <==> End(p) < BUF_SIZE;
    assert s'.user == s.user && s'.held == s.held && s'.cq == s.cq + [p] && s'.kpos == s.kpos[b0 := End(p)];
    assert if HasBufMore(flags) then s'.khead == s.khead && s'.queue == s.queue
           else s'.khead == s.khead + 1 && s'.queue == s.queue[1..];
    hide Clamp, KernelAdvance, AfterComplete, Allowed;
    PostMovesPosition(s, s', b0, p);
    if !HasBufMore(flags) { PopKeepsRing(s, s'); }
    PopKeepsOwnership(s, s', b0);
  }

  lemma PostMovesPosition<N>(s: Sys<N>, s': Sys<N>, b0: u16, p: Posted<N>)
    requires BufInv(s) && b0 < BUF_COUNT && s.kpos[b0] < BUF_SIZE
    requires s'.user == s.user && s'.held == s.held && s'.cq == s.cq + [p] && s'.kpos == s.kpos[b0 := End(p)]
    requires Uses(p, b0) && p.start == s.kpos[b0] && p.cqe.res <= End(p) - p.start
    requires HasBufMore(p.cqe.flags) <==> End(p) < BUF_SIZE
    ensures Views(s') && forall b: nat {:trigger BufferOk(s', b)} :: b < BUF_COUNT ==> BufferOk(s', b)
  {
    forall b: nat | b < BUF_COUNT ensures BufferOk(s', b) {
      assert BufferOk(s, b);
      ChainAppend(s.cq, b, s.user.offsets[b], s.kpos[b], p);
    }
    forall i | 0 <= i < |s'.held| ensures ViewOk(s', s'.held[i]) { assert ViewOk(s, s.held[i]); }
  }

  lemma PopKeepsOwnership<N>(s: Sys<N>, s': Sys<N>, b0: u16)
    requires |s.kpos| == |s'.kpos| == BUF_COUNT && Ownership(s) && s.queue != [] && s.queue[0] == b0 < BUF_COUNT
    requires s'.kpos == s.kpos[b0 := s'.kpos[b0]]
    requires if s'.kpos[b0] < BUF_SIZE then s'.queue == s.queue else s'.queue == s.queue[1..]
    ensures Ownership(s')
  {
    assert s.queue == [b0] + s.queue[1..];
    assert forall i :: 0 <= i < |s.queue[1..]| ==> s.queue[1..][i] == s.queue[i + 1] != s.queue[0];
    forall b: u16 | b < BUF_COUNT ensures b in s'.queue <==> s'.kpos[b] < BUF_SIZE {
      assert b in s.queue <==> s.kpos[b] < BUF_SIZE;
    }
  }

  lemma PopKeepsRing<N>(s: Sys<N>, s': Sys<N>)
    requires Sized(s.user) && RingHolds(s) && s.queue != []
    requires s'.user == s.user && s'.khead == s.khead + 1 && s'.queue == s.queue[1..]
    ensures RingHolds(s')
  {
    forall i | 0 <= i < |s'.queue| ensures s'.user.ring[(s'.khead + i) % BUF_COUNT] == s'.queue[i] {
      assert s.queue[i + 1] == s'.queue[i];
    }
  }

  /** A completion handled: the user's offset moves to where the next one starts. */
  lemma ReapKeepsBuffers<N>(s: Sys<N>, s': Sys<N>)
    requires BufInv(s) && s.cq != [] && |s.held| + 1 < FLAG_DONE
    requires var p := s.cq[0];
             && p.cqe.owner.Node? && HasBuffer(p.cqe.flags)
             && s'.user.offsets == CountBuffer(s.user, p.cqe.flags, AdvanceSize(p.req, p.cqe.res)).offsets
             && s'.user.refs == CountBuffer(s.user, p.cqe.flags, AdvanceSize(p.req, p.cqe.res)).refs
             && s'.user.ring == s.user.ring && s'.user.tail == s.user.tail
             && s'.cq == s.cq[1..] && s'.khead == s.khead && s'.kpos == s.kpos && s'.queue == s.queue
             && s'.held == s.held + [HeldFrom(s.user, p)]
    ensures BufInv(s')
    ensures HeldFrom(s.user, s.cq[0]).result.buf == Provided(Bid(s.cq[0].cqe.flags), s.cq[0].start)
  {
    var p := s.cq[0];
    var b0 := Bid(p.cqe.flags);
    var h := HeldFrom(s.user, p);
    assert Fitting(p) && BufferOk(s, b0) && Uses(p, b0);
    ReapPosition(s, p, b0);
    ReapKeepsViews(s, s', h, b0);
    hide Advanced, CountBuffer, Clamp, AdvanceSize, KernelAdvance, Views;
    forall b: nat | b < BUF_COUNT ensures BufferOk(s', b) {
      assert BufferOk(s, b);
      CountAppend(s.held, h, b);
    }
    assert AllFitting(s'.cq) by { forall i | 0 <= i < |s'.cq| ensures Fitting(s'.cq[i]) { assert s'.cq[i] == s.cq[i + 1]; } }
  }

  /** A view that starts at the user's offset and ends at the new one is apart from the others. */
  lemma ReapKeepsViews<N>(s: Sys<N>, s': Sys<N>, h: Held, b: u16)
    requires Sized(s.user) && Views(s) && b < BUF_COUNT && On(h, b)
    requires h.result.buf == Provided(b, h.start) && h.result.res <= h.end - h.start
    requires s.user.offsets[b] == h.start <= h.end <= BUF_SIZE
    requires Sized(s'.user) && s'.user.offsets == s.user.offsets[b := h.end] && s'.held == s.held + [h]
    ensures Views(s')
  {
    forall i | 0 <= i < |s'.held| ensures ViewOk(s', s'.held[i]) {
      if i < |s.held| { assert ViewOk(s, s.held[i]); }
    }
    forall i, j | 0 <= i < j < |s'.held| ensures Apart(s'.held[i], s'.held[j]) {
      assert ViewOk(s, s.held[i]);
    }
  }

  /** The user's offset is where the kernel wrote, and moves on by what the kernel consumed. */
  lemma ReapPosition<N>(s: Sys<N>, p: Posted<N>, b: u16)
    requires BufInv(s) && |s.held| + 1 < FLAG_DONE
    requires s.cq != [] && p == s.cq[0] && b < BUF_COUNT && Uses(p, b)
    ensures p.start == s.user.offsets[b] < BUF_SIZE
    ensures CountBuffer(s.user, p.cqe.flags, AdvanceSize(p.req, p.cqe.res)).offsets == s.user.offsets[b := End(p)]
    ensures CountBuffer(s.user, p.cqe.flags, AdvanceSize(p.req, p.cqe.res)).refs
         == s.user.refs[b := CountOn(s.held, b) + 1 + if End(p) == BUF_SIZE then FLAG_DONE else 0]
    ensures HasBufMore(p.cqe.flags) <==> End(p) < BUF_SIZE
    ensures Chain(s.cq[1..], b, End(p), s.kpos[b]) && p.start <= End(p) && p.cqe.res <= End(p) - p.start
  {
    hide AdvanceSize, KernelAdvance;
    UserSizeIsKernelAdvance(p.req, p.cqe.res);
    assert BufferOk(s, b);
  }

  lemma ReapOtherKeepsBuffers<N>(s: Sys<N>, s': Sys<N>, held': seq<Held>)
    requires BufInv(s) && s.cq != [] && forall b :: !Uses(s.cq[0], b)
    requires s'.user.offsets == s.user.offsets && s'.user.refs == s.user.refs
    requires s'.user.ring == s.user.ring && s'.user.tail == s.user.tail
    requires s'.cq == s.cq[1..] && s'.khead == s.khead && s'.kpos == s.kpos && s'.queue == s.queue
    requires s'.held == s.held + held' && |held'| <= 1 && |s'.held| < FLAG_DONE
    requires forall i :: 0 <= i < |held'| ==> !HasBuffer(held'[i].result.flags)
    ensures BufInv(s')
  {
    forall b: nat | b < BUF_COUNT ensures BufferOk(s', b) {
      assert BufferOk(s, b);
      if |held'| == 1 {
        assert held' == [held'[0]];
        CountAppend(s.held, held'[0], b);
      } else {
        assert s'.held == s.held;
      }
    }
    forall i | 0 <= i < |s'.held| ensures ViewOk(s', s'.held[i]) {
      if i < |s.held| { assert ViewOk(s, s.held[i]); }
    }
    assert AllFitting(s'.cq) by { forall i | 0 <= i < |s'.cq| ensures Fitting(s'.cq[i]) { assert s'.cq[i] == s.cq[i + 1]; } }
  }

  // ---- giving back ----

  lemma WithoutHeldElement(held: seq<Held>, i: nat, j: nat)
    requires i < |held| && j < |WithoutHeld(held, i)|
    ensures WithoutHeld(held, i)[j] == held[if j < i then j else j + 1]
  {}

  lemma FreeKeepsViews<N>(s: Sys<N>, s': Sys<N>, i: nat)
    requires Sized(s.user) && Sized(s'.user) && Views(s) && i < |s.held| && s'.held == WithoutHeld(s.held, i)
    requires s'.user.offsets == s.user.offsets
    ensures Views(s')
  {
    forall j | 0 <= j < |s'.held| ensures ViewOk(s', s'.held[j]) {
      WithoutHeldElement(s.held, i, j);
      assert ViewOk(s, s.held[if j < i then j else j + 1]);
    }
    forall j, k | 0 <= j < k < |s'.held| ensures Apart(s'.held[j], s'.held[k]) {
      WithoutHeldElement(s.held, i, j);
      WithoutHeldElement(s.held, i, k);
    }
  }

  /** A result freed that is not the last one of a finished buffer: one reference less. */
  lemma DropKeepsBuffers<N>(s: Sys<N>, i: nat)
    requires BufInv(s) && i < |s.held|
    requires HasBuffer(s.held[i].result.flags) ==> Bid(s.held[i].result.flags) < BUF_COUNT
    requires !FreeInternal(s.user, s.held[i].result.flags, 0).readded
    ensures BufInv(AfterFree(s, i))
  {
    var s' := AfterFree(s, i);
    FreeKeepsViews(s, s', i);
    hide Views, BufferOk, CountOn;
    forall b: nat | b < BUF_COUNT ensures BufferOk(s', b) { DropKeepsBuffer(s, i, b); }
  }

  lemma DropKeepsBuffer<N>(s: Sys<N>, i: nat, b: nat)
    requires BufInv(s) && i < |s.held| && b < BUF_COUNT
    requires HasBuffer(s.held[i].result.flags) ==> Bid(s.held[i].result.flags) < BUF_COUNT
    requires !FreeInternal(s.user, s.held[i].result.flags, 0).readded
    ensures Sized(AfterFree(s, i).user) && BufferOk(AfterFree(s, i), b)
  {
    hide Views, Ownership, RingHolds, AllFitting, Chain;
    assert BufferOk(s, b);
    CountWithout(s.held, i, b);
  }

  lemma LastReference(count: nat, finished: bool)
    requires 1 <= count < FLAG_DONE
    ensures (count + (if finished then FLAG_DONE else 0) - 1) % TWO_32 == FLAG_DONE <==> finished && count == 1
  {}

  lemma FinishedIsNotQueued<N>(s: Sys<N>, b: u16)
    requires BufInv(s) && b < BUF_COUNT && s.user.offsets[b] == BUF_SIZE
    ensures s.kpos[b] == BUF_SIZE && b !in s.queue
  {
    assert BufferOk(s, b);
    ChainAdvances(s.cq, b, s.user.offsets[b], s.kpos[b]);
  }

  lemma HeldIsCounted<N>(s: Sys<N>, i: nat)
    requires BufInv(s) && i < |s.held|
    requires HasBuffer(s.held[i].result.flags) && Bid(s.held[i].result.flags) < BUF_COUNT
    ensures var b := Bid(s.held[i].result.flags);
            && Sized(s.user)
            && 1 <= CountOn(s.held, b) < FLAG_DONE
            && s.user.refs[b] == CountOn(s.held, b) + (if s.user.offsets[b] == BUF_SIZE then FLAG_DONE else 0)
  {
    hide Chain;
    assert BufferOk(s, Bid(s.held[i].result.flags));
    CountWithout(s.held, i, Bid(s.held[i].result.flags));
  }

  /** The last result of a finished buffer is the only one held, and nothing of the buffer
      is queued any more. */
  lemma LastOfFinished<N>(s: Sys<N>, i: nat)
    requires BufInv(s) && i < |s.held|
    requires HasBuffer(s.held[i].result.flags) && Bid(s.held[i].result.flags) < BUF_COUNT
    ensures var b := Bid(s.held[i].result.flags);
            && FreeInternal(s.user, s.held[i].result.flags, 0).readded == (s.user.offsets[b] == BUF_SIZE && CountOn(s.held, b) == 1)
            && (s.user.offsets[b] == BUF_SIZE ==> s.kpos[b] == BUF_SIZE && b !in s.queue)
  {
    HeldIsCounted(s, i);
    var b := Bid(s.held[i].result.flags);
    if s.user.offsets[b] == BUF_SIZE { FinishedIsNotQueued(s, b); }
    hide BufInv, CountOn;
    LastReference(CountOn(s.held, b), s.user.offsets[b] == BUF_SIZE);
  }

  lemma {:induction false} FinishedChainIsEmpty<N>(cq: seq<Posted<N>>, b: nat, to: nat, x: nat)
    requires Chain(cq, b, BUF_SIZE, to)
    ensures Chain(cq, b, x, x)
    decreases |cq|
  {
    if cq != [] { FinishedChainIsEmpty(cq[1..], b, to, x); }
  }

  lemma DistinctResidues(k: nat, i: nat, n: nat)
    requires i < n < BUF_COUNT
    ensures (k + i) % BUF_COUNT != (k + n) % BUF_COUNT
  {}

  /** The re-added buffer goes behind the others; the ring has room for it. */
  lemma PushKeepsRing<N>(s: Sys<N>, s': Sys<N>, b: u16)
    requires Sized(s.user) && Sized(s'.user) && RingHolds(s) && Unique(s.queue) && b !in s.queue && b < BUF_COUNT
    requires forall i :: 0 <= i < |s.queue| ==> s.queue[i] < BUF_COUNT
    requires s'.khead == s.khead && s'.queue == s.queue + [b]
    requires s'.user.ring == s.user.ring[s.user.tail % BUF_COUNT := b] && s'.user.tail == (s.user.tail + 1) % 0x1_0000
    ensures RingHolds(s') && Unique(s'.queue)
  {
    var numbers: seq<nat> := s'.queue;
    forall p, q | 0 <= p < q < |s'.queue| ensures s'.queue[p] != s'.queue[q] {
      assert s.queue[p] in s.queue;
    }
    DistinctAtMost(numbers, BUF_COUNT);
    TailSlot(s.khead + |s.queue|);
    forall i | 0 <= i < |s'.queue| ensures s'.user.ring[(s'.khead + i) % BUF_COUNT] == s'.queue[i] {
      if i < |s.queue| {
        assert s.queue[i] == s'.queue[i];
        DistinctResidues(s.khead, i, |s.queue|);
      }
    }
  }

  /** The last result of a finished buffer freed: the buffer starts over at the ring's tail. */
  lemma ReaddKeepsBuffers<N>(s: Sys<N>, i: nat)
    requires BufInv(s) && i < |s.held|
    requires HasBuffer(s.held[i].result.flags) && Bid(s.held[i].result.flags) < BUF_COUNT
    requires FreeInternal(s.user, s.held[i].result.flags, 0).readded
    ensures BufInv(AfterFree(s, i))
  {
    var s', b0 := AfterFree(s, i), Bid(s.held[i].result.flags);
    LastOfFinished(s, i);
    PushKeepsRing(s, s', b0);
    CountWithout(s.held, i, b0);
    CountZero(s'.held, b0);
    forall b: nat | b < BUF_COUNT ensures BufferOk(s', b) {
      assert BufferOk(s, b);
      CountWithout(s.held, i, b);
      if b == b0 { FinishedChainIsEmpty(s.cq, b, s.kpos[b], 0); }
    }
    forall j | 0 <= j < |s'.held| ensures ViewOk(s', s'.held[j]) {
      WithoutHeldElement(s.held, i, j);
      assert ViewOk(s, s.held[if j < i then j else j + 1]);
      assert !On(s'.held[j], b0);
    }
    forall j, k | 0 <= j < k < |s'.held| ensures Apart(s'.held[j], s'.held[k]) {
      WithoutHeldElement(s.held, i, j);
      WithoutHeldElement(s.held, i, k);
    }
    forall b: u16 | b < BUF_COUNT ensures b in s'.queue <==> s'.kpos[b] < BUF_SIZE {
      assert b in s.queue <==> s.kpos[b] < BUF_SIZE;
      if b == b0 { assert s'.queue[|s.queue|] == b0; }
    }
  }

  /** Freeing any held result keeps the invariant. */
  lemma FreeKeepsBuffers<N>(s: Sys<N>, i: nat)
    requires BufInv(s) && i < |s.held|
    ensures HasBuffer(s.held[i].result.flags) ==> Bid(s.held[i].result.flags) < BUF_COUNT
    ensures BufInv(AfterFree(s, i))
  {
    assert ViewOk(s, s.held[i]);
    if FreeInternal(s.user, s.held[i].result.flags, 0).readded {
      ReaddKeepsBuffers(s, i);
    } else {
      DropKeepsBuffers(s, i);
    }
  }
}
