/** Whole runs of the protocol: both invariants hold in every reachable state, and what
    they mean for the client. */
module UringRuns {
  import opened Bits
  import opened TableModel
  import opened UringModel
  import opened UringProtocol
  import opened UringBuffers
  import opened UringNodes

  ghost predicate Good<N>(s: Sys<N>) {
    BufInv(s) && NodeInv(s)
  }

  /** One step of either party; a step that is not allowed, or that the user side could not
      make sense of, does not happen. `ReapIsDefined` and `FreeIsDefined` show that the
      second never keeps an allowed step from happening. */
  ghost function Next<N>(s: Sys<N>, step: Step<N>): Sys<N> {
    if !Allowed(s, step) then s
    else match step
      case Submit(req, spare, sqeOk) => AfterSubmit(s, req, spare, sqeOk)
      case Complete(id, res, flags) => AfterComplete(s, id, res, flags)
      case PostInternal(marksEnd, res, flags) => s.(cq := s.cq + [OwnPost(marksEnd, res, flags)])
      case Reap => if BufferKnown(s, s.cq[0]) then AfterReap(s) else s
      case Free(i) => if FreeKnown(s, i) then AfterFree(s, i) else s
      case DrainReap => AfterDrainReap(s)
  }

  ghost predicate FreeKnown<N>(s: Sys<N>, i: nat) {
    && i < |s.held| && Sized(s.user) && |s.kpos| == BUF_COUNT
    && (HasBuffer(s.held[i].result.flags) ==> Bid(s.held[i].result.flags) < BUF_COUNT)
  }

  lemma ReapIsDefined<N>(s: Sys<N>)
    requires Good(s) && s.cq != []
    ensures BufferKnown(s, s.cq[0])
    ensures s.cq[0].cqe.owner.Node? ==> s.mem[s.cq[0].cqe.owner.node] == s.cq[0].req
  {
    assert Fitting(s.cq[0]) && Current(s, s.cq[0]);
  }

  lemma FreeIsDefined<N>(s: Sys<N>, i: nat)
    requires Good(s) && i < |s.held|
    ensures FreeKnown(s, i)
  {
    FreeKeepsBuffers(s, i);
  }

  lemma ReapKeepsGood<N>(s: Sys<N>)
    requires Good(s) && Allowed(s, Step<N>.Reap)
    ensures BufferKnown(s, s.cq[0]) && Good(AfterReap(s))
  {
    ReapIsDefined(s);
    var p, s' := s.cq[0], AfterReap(s);
    if p.cqe.owner.Node? && HasBuffer(p.cqe.flags) {
      ReapKeepsBuffers(s, s');
    } else if p.cqe.owner.Node? {
      ReapOtherKeepsBuffers(s, s', [HeldFrom(s.user, p)]);
    } else {
      ReapOtherKeepsBuffers(s, s', []);
    }
    TakeKeepsNodes(s, s');
  }

  lemma CompleteKeepsGood<N>(s: Sys<N>, id: nat, res: i32, flags: u32)
    requires Good(s) && Allowed(s, Complete(id, res, flags))
    ensures Good(AfterComplete(s, id, res, flags))
  {
    hide BufInv, NodeInv;
    CompleteKeepsNodes(s, id, res, flags);
    if HasBuffer(flags) {
      CompleteKeepsBuffers(s, id, res, flags);
    } else {
      PostKeepsBuffers(s, AfterComplete(s, id, res, flags),
                       Posted(Cqe(Node(s.sent[id].node), res, flags), id, s.sent[id].req, 0));
    }
  }

  lemma SubmitKeepsGood<N>(s: Sys<N>, req: Request, spare: Option<N>, sqeOk: bool)
    requires Good(s) && Allowed(s, Submit(req, spare, sqeOk))
    ensures Good(AfterSubmit(s, req, spare, sqeOk))
  {
    hide BufInv, NodeInv;
    SubmitKeepsNodes(s, req, spare, sqeOk);
    SameBuffers(s, AfterSubmit(s, req, spare, sqeOk));
  }

  lemma FreeKeepsGood<N>(s: Sys<N>, i: nat)
    requires Good(s) && i < |s.held|
    ensures FreeKnown(s, i) && Good(AfterFree(s, i))
  {
    FreeIsDefined(s, i);
    FreeKeepsBuffers(s, i);
    FreeKeepsNodes(s, AfterFree(s, i));
  }

  lemma FreeKeepsNodes<N>(s: Sys<N>, s': Sys<N>)
    requires NodeInv(s)
    requires s'.user.free == s.user.free && s'.user.released == s.user.released && s'.sent == s.sent
    requires s'.mem == s.mem && s'.inflight == s.inflight && s'.active == s.active && s'.issued == s.issued && s'.cq == s.cq
    ensures NodeInv(s')
  {
    SamePlaces(s, s');
    hide Placed;
    forall i | 0 <= i < |s'.cq| ensures Current(s', s'.cq[i]) { assert Current(s, s.cq[i]); }
    forall id | id in s'.inflight ensures Posts(s'.cq, id, id in s'.active) { assert Posts(s.cq, id, id in s.active); }
  }

  lemma StepKeepsGood<N>(s: Sys<N>, step: Step<N>)
    requires Good(s) && !step.DrainReap?
    ensures Good(Next(s, step))
  {
    hide Good;
    if Allowed(s, step) {
      match step
      case Submit(req, spare, sqeOk) => SubmitKeepsGood(s, req, spare, sqeOk);
      case Complete(id, res, flags) => CompleteKeepsGood(s, id, res, flags);
      case PostInternal(marksEnd, res, flags) => PostInternalKeepsGood(s, OwnPost(marksEnd, res, flags));
      case Reap => ReapKeepsGood(s);
      case Free(i) => FreeKeepsGood(s, i);
    }
  }

  lemma PostInternalKeepsGood<N>(s: Sys<N>, p: Posted<N>)
    requires Good(s) && p.cqe.owner.Internal?
    ensures Good(s.(cq := s.cq + [p]))
  {
    hide BufInv, NodeInv;
    PostInternalKeepsNodes(s, p);
    PostKeepsBuffers(s, s.(cq := s.cq + [p]), p);
  }

  ghost function After<N>(s: Sys<N>, steps: seq<Step<N>>): Sys<N>
    decreases |steps|
  {
    if steps == [] then s else After(Next(s, steps[0]), steps[1..])
  }

  lemma {:induction false} RunKeepsGood<N>(s: Sys<N>, steps: seq<Step<N>>)
    requires Good(s) && forall i :: 0 <= i < |steps| ==> !steps[i].DrainReap?
    ensures Good(After(s, steps))
    decreases |steps|
  {
    hide Good, Next;
    if steps != [] {
      StepKeepsGood(s, steps[0]);
      RunKeepsGood(Next(s, steps[0]), steps[1..]);
    }
  }

  /** Every state reachable from creation satisfies both invariants. */
  lemma EveryReachableState<N>(steps: seq<Step<N>>)
    requires forall i :: 0 <= i < |steps| ==> !steps[i].DrainReap?
    ensures Good(After(Initial<N>(), steps))
  {
    InitialBuffers<N>();
    InitialNodes<N>();
    RunKeepsGood(Initial<N>(), steps);
  }

  // ---- teardown ----

  predicate DuringDrain<N>(step: Step<N>) {
    step.Complete? || step.PostInternal? || step.DrainReap?
  }

  lemma DrainStepKeepsNodes<N>(s: Sys<N>, step: Step<N>)
    requires NodeInv(s) && DuringDrain(step)
    ensures NodeInv(Next(s, step))
  {
    if Allowed(s, step) {
      match step
      case Complete(id, res, flags) => CompleteKeepsNodes(s, id, res, flags);
      case PostInternal(marksEnd, res, flags) => PostInternalKeepsNodes(s, OwnPost(marksEnd, res, flags));
      case DrainReap => TakeKeepsNodes(s, AfterDrainReap(s));
    }
  }

  lemma {:induction false} DrainKeepsNodes<N>(s: Sys<N>, steps: seq<Step<N>>)
    requires NodeInv(s) && forall i :: 0 <= i < |steps| ==> DuringDrain(steps[i])
    ensures NodeInv(After(s, steps))
    decreases |steps|
  {
    hide NodeInv, Next, DuringDrain;
    if steps != [] {
      DrainStepKeepsNodes(s, steps[0]);
      DrainKeepsNodes(Next(s, steps[0]), steps[1..]);
    }
  }

  /** Once the mark is queued, nothing is left to be posted for any node. */
  ghost predicate MarkIsLast<N>(s: Sys<N>) {
    forall i :: 0 <= i < |s.cq| && MarksEnd(s.cq[i].cqe) ==>
      s.active == {} && forall j :: i < j < |s.cq| ==> s.cq[j].cqe.owner.Internal?
  }

  ghost predicate NoMark<N>(s: Sys<N>) {
    forall i :: 0 <= i < |s.cq| ==> !MarksEnd(s.cq[i].cqe)
  }

  /** Steps before teardown: no drain has been asked for yet. */
  predicate BeforeDrain<N>(step: Step<N>) {
    !step.DrainReap? && (step.PostInternal? ==> !step.marksEnd)
  }

  lemma StepPostsNoMark<N>(s: Sys<N>, step: Step<N>)
    requires NoMark(s) && BeforeDrain(step)
    ensures NoMark(Next(s, step))
  {}

  lemma {:induction false} RunPostsNoMark<N>(s: Sys<N>, steps: seq<Step<N>>)
    requires NoMark(s) && forall i :: 0 <= i < |steps| ==> BeforeDrain(steps[i])
    ensures NoMark(After(s, steps))
    decreases |steps|
  {
    hide NoMark, Next, BeforeDrain;
    if steps != [] {
      StepPostsNoMark(s, steps[0]);
      RunPostsNoMark(Next(s, steps[0]), steps[1..]);
    }
  }

  lemma DrainStepKeepsMarkLast<N>(s: Sys<N>, step: Step<N>)
    requires MarkIsLast(s) && DuringDrain(step)
    ensures MarkIsLast(Next(s, step))
    ensures Drained(s) ==> Drained(Next(s, step))
    ensures TakesMark(s, step) ==> Drained(Next(s, step))
  {
    if Allowed(s, step) && step.DrainReap? {
      var s' := Next(s, step);
      forall i | 0 <= i < |s'.cq| ensures s'.cq[i] == s.cq[i + 1] {}
    }
  }

  /** `fh_xio_drain` finds the completion that marks the end. */
  ghost predicate TakesMark<N>(s: Sys<N>, step: Step<N>) {
    step.DrainReap? && s.cq != [] && MarksEnd(s.cq[0].cqe)
  }

  /** Some step of the run finds the mark. */
  ghost predicate FindsMark<N>(s: Sys<N>, steps: seq<Step<N>>)
    decreases |steps|
  {
    steps != [] && (TakesMark(s, steps[0]) || FindsMark(Next(s, steps[0]), steps[1..]))
  }

  lemma {:induction false} FindingTheMarkDrains<N>(s: Sys<N>, steps: seq<Step<N>>)
    requires MarkIsLast(s) && forall i :: 0 <= i < |steps| ==> DuringDrain(steps[i])
    requires Drained(s) || FindsMark(s, steps)
    ensures Drained(After(s, steps))
    decreases |steps|
  {
    hide MarkIsLast, Drained, Next, DuringDrain, TakesMark;
    if steps != [] {
      DrainStepKeepsMarkLast(s, steps[0]);
      FindingTheMarkDrains(Next(s, steps[0]), steps[1..]);
    }
  }

  /** A run, a drain that finds its mark, and the end of `fh_xio_free`, which frees the free
      list: every node ever allocated is freed, and no node twice. */
  lemma WholeLifeReleasesEachNodeOnce<N>(steps: seq<Step<N>>, drain: seq<Step<N>>)
    requires forall i :: 0 <= i < |steps| ==> BeforeDrain(steps[i])
    requires forall i :: 0 <= i < |drain| ==> DuringDrain(drain[i])
    requires FindsMark(After(Initial<N>(), steps), drain)
    ensures var s := After(After(Initial<N>(), steps), drain);
            var all := s.user.released + s.user.free;
            Unique(all) && forall n :: n in all <==> n in s.issued
  {
    EveryReachableState(steps);
    RunPostsNoMark(Initial<N>(), steps);
    DrainKeepsNodes(After(Initial<N>(), steps), drain);
    FindingTheMarkDrains(After(Initial<N>(), steps), drain);
    TeardownReleasesEachNodeOnce(After(After(Initial<N>(), steps), drain));
  }

  // ---- one call is many steps ----

  function Cqes<N>(cq: seq<Posted<N>>): (r: seq<Cqe<N>>)
    ensures |r| == |cq| && forall i :: 0 <= i < |cq| ==> r[i] == cq[i].cqe
  {
    seq(|cq|, i requires 0 <= i < |cq| => cq[i].cqe)
  }

  function Results(held: seq<Held>): (r: seq<Result>)
    ensures |r| == |held| && forall i :: 0 <= i < |held| ==> r[i] == held[i].result
  {
    seq(|held|, i requires 0 <= i < |held| => held[i].result)
  }

  /** What a call of `fh_xio_wait` may rely on when it looks at the queue. */
  lemma QueueIsReadable<N>(s: Sys<N>)
    requires Good(s)
    ensures Readable(Cqes(s.cq), s.mem) && Orderly(Cqes(s.cq), s.user.free)
  {
    forall i | 0 <= i < |s.cq| && s.cq[i].cqe.owner.Node?
      ensures s.cq[i].cqe.owner.node in s.mem && s.cq[i].cqe.owner.node !in s.user.free
      ensures HasBuffer(s.cq[i].cqe.flags) ==> Bid(s.cq[i].cqe.flags) < BUF_COUNT
    {
      assert Current(s, s.cq[i]) && Fitting(s.cq[i]);
    }
    forall i, j | 0 <= i < j < |s.cq| && s.cq[i].cqe.owner.Node? && s.cq[i].cqe.owner == s.cq[j].cqe.owner
      ensures HasMore(s.cq[i].cqe.flags)
    {
      var id := s.cq[i].id;
      assert Current(s, s.cq[i]) && Current(s, s.cq[j]);
      assert Posts(s.cq, id, id in s.active);
      FinalIsLast(s.cq, id, id in s.active, i, j);
    }
  }

  lemma {:induction false} FinalIsLast<N>(cq: seq<Posted<N>>, id: nat, working: bool, i: nat, j: nat)
    requires Posts(cq, id, working) && i < j < |cq| && About(cq[i], id) && About(cq[j], id)
    ensures HasMore(cq[i].cqe.flags)
    decreases |cq|
  {
    assert cq[1..][j - 1] == cq[j];
    if i > 0 {
      assert cq[1..][i - 1] == cq[i];
      FinalIsLast(cq[1..], id, working, i - 1, j - 1);
    }
  }

  ghost function Reaping<N>(s: Sys<N>, k: nat): Sys<N> {
    if k == 0 then s else Next(Reaping(s, k - 1), Step<N>.Reap)
  }

  /** A call of `fh_xio_wait` that handles `k` completions is `k` steps of the protocol: the
      same state of the user side, and the results it returns are the ones then held. */
  lemma {:induction false} WaitIsManyReaps<N>(s: Sys<N>, k: nat)
    requires Good(s) && k <= |s.cq| && |s.held| + k < FLAG_DONE
    ensures Readable(Cqes(s.cq), s.mem)
    ensures var w, s' := WaitUpTo(s.user, Cqes(s.cq), s.mem, k), Reaping(s, k);
            && s'.user == w.user && Results(s'.held) == Results(s.held) + w.results
            && s'.cq == s.cq[k..] && s'.mem == s.mem && Good(s') && |s'.held| <= |s.held| + k
  {
    hide Good, WaitUpTo, Reaped, ResultOf, Next, Results, Readable, Orderly;
    QueueIsReadable(s);
    SizedWhenGood(s);
    WaitStart(s.user, Cqes(s.cq), s.mem);
    if k > 0 {
      WaitIsManyReaps(s, k - 1);
      var s1 := Reaping(s, k - 1);
      assert s1.cq[0] == s.cq[k - 1] && s1.cq[1..] == s.cq[k..];
      OneReap(s1);
      WaitStep(s.user, Cqes(s.cq), s.mem, k);
    }
  }

  lemma SizedWhenGood<N>(s: Sys<N>)
    requires Good(s)
    ensures Sized(s.user)
  {}

  lemma OneReap<N>(s: Sys<N>)
    requires Good(s) && s.cq != [] && |s.held| + 1 < FLAG_DONE
    ensures BufferKnown(s, s.cq[0])
    ensures var cqe, s' := s.cq[0].cqe, Next(s, Step<N>.Reap);
            && Good(s') && s'.cq == s.cq[1..] && s'.mem == s.mem && |s'.held| <= |s.held| + 1
            && s'.user == (if cqe.owner.Internal? then s.user else Reaped(s.user, cqe, s.mem[cqe.owner.node]))
            && Results(s'.held) == Results(s.held)
                 + (if cqe.owner.Internal? then [] else [ResultOf(s.user, cqe, s.mem[cqe.owner.node])])
  {
    ReapIsDefined(s);
    StepKeepsGood(s, Step<N>.Reap);
    var s' := AfterReap(s);
    assert Next(s, Step<N>.Reap) == s';
    if s.cq[0].cqe.owner.Node? {
      assert Results(s'.held) == Results(s.held) + [s'.held[|s.held|].result];
    } else {
      assert Results(s'.held) == Results(s.held) + [];
    }
  }

  ghost function Draining<N>(s: Sys<N>, k: nat): Sys<N> {
    if k == 0 then s else Next(Draining(s, k - 1), Step<N>.DrainReap)
  }

  lemma OneDrainReap<N>(s: Sys<N>)
    requires s.cq != []
    ensures var s', cqe := Next(s, Step<N>.DrainReap), s.cq[0].cqe;
            && s'.cq == s.cq[1..]
            && s'.user.released == s.user.released
                 + if cqe.owner.Internal? || HasMore(cqe.flags) then [] else [cqe.owner.node]
  {}

  /** A batch handled by `fh_xio_drain` is that many steps: the nodes of its final
      completions are freed, in order. */
  lemma {:induction false} DrainIsManyReaps<N>(s: Sys<N>, k: nat)
    requires k <= |s.cq|
    ensures var s' := Draining(s, k);
            s'.user.released == s.user.released + FinalNodes(Cqes(s.cq)[..k]) && s'.cq == s.cq[k..]
  {
    hide FinalNodes, Next;
    if k == 0 {
      NoCompletions<N>();
      assert Cqes(s.cq)[..0] == [] && s.user.released + [] == s.user.released;
    } else {
      DrainIsManyReaps(s, k - 1);
      var s1 := Draining(s, k - 1);
      OneDrainReap(s1);
      OneMoreCompletion(Cqes(s.cq)[..k - 1], s.cq[k - 1].cqe);
      assert Cqes(s.cq)[..k] == Cqes(s.cq)[..k - 1] + [s.cq[k - 1].cqe];
      assert s1.cq[0] == s.cq[k - 1] && s1.cq[1..] == s.cq[k..];
    }
  }

  // ---- a whole call of `fh_xio_drain` ----

  /** The system after the waits of one drain: before each the kernel makes the steps
      `kernel[i]`, and a batch that arrives is taken off the queue. */
  ghost function DrainCall<N>(s: Sys<N>, kernel: seq<seq<Step<N>>>, wakeups: seq<Wakeup<N>>): Sys<N>
    requires |kernel| == |wakeups|
    decreases |wakeups|
  {
    if wakeups == [] then s
    else
      var last := |wakeups| - 1;
      var s1 := After(DrainCall(s, kernel[..last], wakeups[..last]), kernel[last]);
      if wakeups[last].Arrived? then Draining(s1, |wakeups[last].cqes|) else s1
  }

  /** Each batch that arrives is what then stands at the front of the queue. */
  ghost predicate Witnessed<N>(s: Sys<N>, kernel: seq<seq<Step<N>>>, wakeups: seq<Wakeup<N>>)
    requires |kernel| == |wakeups|
    decreases |wakeups|
  {
    wakeups == [] ||
    var last := |wakeups| - 1;
    && Witnessed(s, kernel[..last], wakeups[..last])
    && (forall i :: 0 <= i < |kernel[last]| ==> kernel[last][i].Complete? || kernel[last][i].PostInternal?)
    && (wakeups[last].Arrived? ==>
          wakeups[last].cqes <= Cqes(After(DrainCall(s, kernel[..last], wakeups[..last]), kernel[last]).cq))
  }

  /** What a drain keeps, and has released since it began in `s`. */
  ghost predicate DrainedSince<N>(s: Sys<N>, s': Sys<N>, released: seq<N>) {
    && NodeInv(s') && MarkIsLast(s')
    && s'.user.released == s.user.released + released && s'.user.free == s.user.free && s'.issued == s.issued
  }

  lemma {:induction false} KernelStepsReleaseNothing<N>(s: Sys<N>, s1: Sys<N>, released: seq<N>, steps: seq<Step<N>>)
    requires DrainedSince(s, s1, released)
    requires forall i :: 0 <= i < |steps| ==> steps[i].Complete? || steps[i].PostInternal?
    ensures DrainedSince(s, After(s1, steps), released)
    ensures Drained(s1) ==> Drained(After(s1, steps))
    decreases |steps|
  {
    if steps != [] {
      var s2 := Next(s1, steps[0]);
      DrainStepKeepsNodes(s1, steps[0]);
      DrainStepKeepsMarkLast(s1, steps[0]);
      assert s2.user == s1.user && s2.issued == s1.issued;
      hide NodeInv, MarkIsLast, Next, Drained;
      KernelStepsReleaseNothing(s, s2, released, steps[1..]);
    }
  }

  /** A batch taken off: its final completions release their nodes, and the mark in it means
      that the drain is over. */
  lemma {:induction false} BatchReleases<N>(s: Sys<N>, s1: Sys<N>, released: seq<N>, k: nat)
    requires DrainedSince(s, s1, released) && k <= |s1.cq|
    ensures DrainedSince(s, Draining(s1, k), released + FinalNodes(Cqes(s1.cq)[..k]))
    ensures Drained(s1) || HasMark(Cqes(s1.cq)[..k]) ==> Drained(Draining(s1, k))
    decreases k
  {
    hide NodeInv, MarkIsLast, Next, Drained, HasMark, FinalNodes, Cqes, DrainedSince;
    NoCompletions<N>();
    if k == 0 {
      assert Cqes(s1.cq)[..0] == [] && released + [] == released;
    } else {
      BatchReleases(s, s1, released, k - 1);
      var s2, cqes := Draining(s1, k - 1), Cqes(s1.cq);
      DrainIsManyReaps(s1, k - 1);
      assert s2.cq[0] == s1.cq[k - 1] && cqes[k - 1] == s2.cq[0].cqe;
      DrainReapReleases(s, s2, released + FinalNodes(cqes[..k - 1]));
      OneMoreCompletion(cqes[..k - 1], cqes[k - 1]);
      assert cqes[..k] == cqes[..k - 1] + [cqes[k - 1]];
      AppendOne(released, FinalNodes(cqes[..k - 1]), FinalNodes(cqes[..k]));
    }
  }

  /** The same for one completion. */
  lemma DrainReapReleases<N>(s: Sys<N>, s2: Sys<N>, released: seq<N>)
    requires DrainedSince(s, s2, released) && s2.cq != []
    ensures var cqe, s' := s2.cq[0].cqe, Next(s2, Step<N>.DrainReap);
            && DrainedSince(s, s', released + if cqe.owner.Internal? || HasMore(cqe.flags) then [] else [cqe.owner.node])
            && (Drained(s2) || MarksEnd(cqe) ==> Drained(s'))
  {
    OneDrainReap(s2);
    DrainStepKeepsNodes(s2, Step<N>.DrainReap);
    DrainStepKeepsMarkLast(s2, Step<N>.DrainReap);
    DrainReapKeepsRest(s2);
    hide NodeInv, MarkIsLast, Next, Drained;
  }

  lemma AppendOne<N>(a: seq<N>, b: seq<N>, c: seq<N>)
    ensures forall x: seq<N> :: c == b + x ==> a + c == (a + b) + x
  {
    forall x: seq<N> | c == b + x ensures a + c == (a + b) + x {}
  }

  lemma DrainReapKeepsRest<N>(s: Sys<N>)
    ensures Next(s, Step<N>.DrainReap).user.free == s.user.free && Next(s, Step<N>.DrainReap).issued == s.issued
  {}

  /** A drain as the code makes it releases exactly the nodes of the final completions it is
      given, and is over when one of the batches has the mark. */
  lemma {:induction false} DrainCallReleases<N>(s: Sys<N>, kernel: seq<seq<Step<N>>>, wakeups: seq<Wakeup<N>>)
    requires NodeInv(s) && MarkIsLast(s) && |kernel| == |wakeups| && Witnessed(s, kernel, wakeups)
    ensures DrainedSince(s, DrainCall(s, kernel, wakeups), FinalNodesOf(wakeups))
    ensures wakeups != [] && wakeups[|wakeups| - 1].Arrived? && HasMark(wakeups[|wakeups| - 1].cqes) ==>
              Drained(DrainCall(s, kernel, wakeups))
    decreases |wakeups|
  {
    if wakeups == [] {
      assert s.user.released + [] == s.user.released;
    } else {
      var last := |wakeups| - 1;
      DrainCallReleases(s, kernel[..last], wakeups[..last]);
      hide NodeInv, MarkIsLast, Drained, HasMark, FinalNodes, After, Draining, DrainedSince;
      var s0, released := DrainCall(s, kernel[..last], wakeups[..last]), FinalNodesOf(wakeups[..last]);
      KernelStepsReleaseNothing(s, s0, released, kernel[last]);
      var s1 := After(s0, kernel[last]);
      if wakeups[last].Arrived? {
        var k := |wakeups[last].cqes|;
        assert Cqes(s1.cq)[..k] == wakeups[last].cqes;
        BatchReleases(s, s1, released, k);
      } else {
        assert FinalNodesOf(wakeups) == released + [] == released;
      }
    }
  }

  /** A run, and `fh_xio_free` as the code performs it, with a drain that is given the mark:
      the nodes released before, those the drain frees and those on the free list are every
      node ever allocated, each once. */
  lemma FreeReleasesEachNodeOnce<N>(steps: seq<Step<N>>, kernel: seq<seq<Step<N>>>, wakeups: seq<Wakeup<N>>)
    requires forall i :: 0 <= i < |steps| ==> BeforeDrain(steps[i])
    requires |kernel| == |wakeups| && Witnessed(After(Initial<N>(), steps), kernel, wakeups)
    requires wakeups != [] && wakeups[|wakeups| - 1].Arrived? && HasMark(wakeups[|wakeups| - 1].cqes)
    ensures var s := After(Initial<N>(), steps);
            var all := s.user.released + FinalNodesOf(wakeups) + s.user.free;
            Unique(all) && forall n :: n in all <==> n in s.issued
  {
    EveryReachableState(steps);
    RunPostsNoMark(Initial<N>(), steps);
    var s := After(Initial<N>(), steps);
    DrainCallReleases(s, kernel, wakeups);
    TeardownReleasesEachNodeOnce(DrainCall(s, kernel, wakeups));
  }

  // ---- a whole call of `fh_xio_results_free` ----

  /** Freeing the held results `picks[0]`, `picks[1]`, ..., each counted among those then held. */
  ghost function Freeing<N>(s: Sys<N>, picks: seq<nat>, k: nat): Sys<N>
    requires k <= |picks|
  {
    if k == 0 then s else Next(Freeing(s, picks, k - 1), Step<N>.Free(picks[k - 1]))
  }

  ghost predicate Picked<N>(s: Sys<N>, picks: seq<nat>, results: seq<Result>) {
    |results| == |picks| && forall k :: 0 <= k < |picks| ==>
      picks[k] < |Freeing(s, picks, k).held| && results[k] == Freeing(s, picks, k).held[picks[k]].result
  }

  /** A batched free of results that are held is that many steps of the protocol. */
  lemma {:induction false} ResultsFreeIsManyFrees<N>(s: Sys<N>, picks: seq<nat>, results: seq<Result>, k: nat)
    requires Good(s) && Picked(s, picks, results) && k <= |picks|
    ensures Good(Freeing(s, picks, k)) && ValidBids(results[..k]) && Sized(s.user)
    ensures Freeing(s, picks, k).user == FreedEach(s.user, results[..k])
    decreases k
  {
    hide Good, FreedEach, Freed, Next, ValidBids, Sized, Picked, Freeing;
    PickedLength(s, picks, results);
    SizedWhenGood(s);
    if k == 0 {
      assert results[..0] == [];
      FreedNothing(s.user);
      FreeingNothing(s, picks);
    } else {
      ResultsFreeIsManyFrees(s, picks, results, k - 1);
      PickedAt(s, picks, results, k - 1);
      OneFree(Freeing(s, picks, k - 1), picks[k - 1]);
      FreedOneMore(s.user, results[..k - 1], results[k - 1]);
      assert results[..k] == results[..k - 1] + [results[k - 1]];
    }
  }

  lemma OneFree<N>(s: Sys<N>, i: nat)
    requires Good(s) && i < |s.held|
    ensures FreeKnown(s, i) && Good(Next(s, Step<N>.Free(i)))
    ensures Next(s, Step<N>.Free(i)).user == Freed(s.user, s.held[i].result.flags)
  {
    FreeIsDefined(s, i);
    StepKeepsGood(s, Step<N>.Free(i));
    hide Good, Freed;
  }

  lemma PickedLength<N>(s: Sys<N>, picks: seq<nat>, results: seq<Result>)
    requires Picked(s, picks, results)
    ensures |results| == |picks|
  {}

  lemma PickedAt<N>(s: Sys<N>, picks: seq<nat>, results: seq<Result>, k: nat)
    requires Picked(s, picks, results) && k < |picks|
    ensures picks[k] < |Freeing(s, picks, k).held| && |results| == |picks|
    ensures results[k] == Freeing(s, picks, k).held[picks[k]].result
    ensures Freeing(s, picks, k + 1) == Next(Freeing(s, picks, k), Step<N>.Free(picks[k]))
  {
    hide Next;
  }

  lemma FreeingNothing<N>(s: Sys<N>, picks: seq<nat>)
    ensures Freeing(s, picks, 0) == s
  {}

  lemma FreedNothing<N>(u: User<N>)
    requires Sized(u)
    ensures ValidBids([]) && FreedEach(u, []) == u
  {}

  lemma FreedOneMore<N>(u: User<N>, results: seq<Result>, last: Result)
    requires Sized(u) && ValidBids(results) && (HasBuffer(last.flags) ==> Bid(last.flags) < BUF_COUNT)
    ensures ValidBids(results + [last])
    ensures FreedEach(u, results + [last]) == Freed(FreedEach(u, results), last.flags)
  {
    assert (results + [last])[..|results|] == results;
  }

  // ---- what the invariants mean ----

  /** The start of the oldest queued completion for buffer `b`, or `otherwise` if there is none. */
  function OldestStart<N>(cq: seq<Posted<N>>, b: nat, otherwise: nat): nat
    decreases |cq|
  {
    if cq == [] then otherwise else if Uses(cq[0], b) then cq[0].start else OldestStart(cq[1..], b, otherwise)
  }

  lemma {:induction false} ChainStarts<N>(cq: seq<Posted<N>>, b: nat, from: nat, to: nat)
    requires Chain(cq, b, from, to)
    ensures OldestStart(cq, b, to) == from
    decreases |cq|
  {
    if cq != [] && !Uses(cq[0], b) { ChainStarts(cq[1..], b, from, to); }
  }

  /** Kernel and user agree: the user's offset is the start of the oldest unreaped completion
      for the buffer, or the kernel's position if there is none; and the low bits of the
      reference count are the number of results held. */
  lemma KernelAndUserAgree<N>(s: Sys<N>, b: u16)
    requires Good(s) && b < 1024
    ensures s.user.offsets[b] == OldestStart(s.cq, b, s.kpos[b])
    ensures s.user.refs[b] % 0x8000_0000 == CountOn(s.held, b)
    ensures s.user.refs[b] >= 0x8000_0000 <==> s.user.offsets[b] == 4096
  {
    assert BufferOk(s, b);
    ChainStarts(s.cq, b, s.user.offsets[b], s.kpos[b]);
  }

  /** Handling a completion on a provided buffer moves the offset of that buffer alone: by
      nothing after a failure, by the length asked for after a READ or WRITE, and by what was
      transferred, within that length, after a RECV or SEND; never past 4096. (No ACCEPT uses a buffer.) The count of
      that buffer goes up by one. */
  lemma ReapMovesOffset<N>(s: Sys<N>)
    requires Good(s) && Allowed(s, Step<N>.Reap) && s.cq[0].cqe.owner.Node? && HasBuffer(s.cq[0].cqe.flags)
    ensures BufferKnown(s, s.cq[0]) && s.cq[0].id < |s.sent|
    ensures var p, req, res := s.cq[0], s.sent[s.cq[0].id].req, s.cq[0].cqe.res;
            var b, user := Bid(p.cqe.flags), AfterReap(s).user;
            var moved :=
              if res < 0 then 0
              else if req.op.Read? || req.op.Write? then req.size
              else if req.op.Accept? || res < req.size then res else req.size;
            && user.offsets == s.user.offsets[b := if s.user.offsets[b] + moved < 4096 then s.user.offsets[b] + moved else 4096]
            && user.refs[b] % 0x8000_0000 == s.user.refs[b] % 0x8000_0000 + 1
            && (forall c :: 0 <= c < 1024 && c != b ==> user.refs[c] == s.user.refs[c])
  {
    var p := s.cq[0];
    assert Current(s, p) && Fitting(p);
    assert BufferOk(s, Bid(p.cqe.flags));
    ReapIsDefined(s);
    ReapPosition(s, p, Bid(p.cqe.flags));
    assert AfterReap(s).user.offsets == CountBuffer(s.user, p.cqe.flags, AdvanceSize(p.req, p.cqe.res)).offsets;
    assert AfterReap(s).user.refs == CountBuffer(s.user, p.cqe.flags, AdvanceSize(p.req, p.cqe.res)).refs;
    hide CountBuffer, Advanced, AfterReap, Reaped, BufInv, NodeInv, Chain;
  }

  /** No two submissions in flight share a node, and the node of each still holds the request
      made with it. */
  lemma InFlightRequestsAreApart<N>(s: Sys<N>, a: nat, b: nat)
    requires Good(s) && a in s.inflight && b in s.inflight
    ensures a < |s.sent| && b < |s.sent|
    ensures s.sent[a].node == s.sent[b].node ==> a == b
    ensures s.sent[a].node in s.mem && s.mem[s.sent[a].node] == s.sent[a].req
  {}

  /** A result points to where the kernel wrote, and carries the data of the request made with
      the submission that the completion is for. */
  lemma ResultMatchesSubmission<N>(s: Sys<N>)
    requires Good(s) && Allowed(s, Step<N>.Reap) && s.cq[0].cqe.owner.Node?
    ensures BufferKnown(s, s.cq[0]) && s.cq[0].id < |s.sent|
    ensures var p, req := s.cq[0], s.sent[s.cq[0].id].req;
            var r := AfterReap(s).held[|s.held|].result;
            && r.op == req.op && r.udata == req.udata && r.res == p.cqe.res && r.flags == p.cqe.flags
            && r.buf == (if !req.op.Accept? && req.buf.Some? then Own(req.buf.value)
                         else if HasBuffer(p.cqe.flags) then Provided(Bid(p.cqe.flags), p.start) else NoBuffer)
  {
    assert Current(s, s.cq[0]);
    ReapIsDefined(s);
    if HasBuffer(s.cq[0].cqe.flags) { ReapKeepsBuffers(s, AfterReap(s)); }
  }

  lemma {:induction false} SentOnlyGrows<N>(s: Sys<N>, steps: seq<Step<N>>)
    ensures s.sent <= After(s, steps).sent
    decreases |steps|
  {
    if steps != [] {
      assert s.sent <= Next(s, steps[0]).sent;
      hide Next;
      SentOnlyGrows(Next(s, steps[0]), steps[1..]);
    }
  }

  /** From a submission to its results: a request granted at any time gets a number, and after
      any further run every result for that number carries that request's op, data and own
      buffer, whatever else was submitted, completed and recycled in between. */
  lemma ResultIsGenuine<N>(s: Sys<N>, req: Request, spare: Option<N>, steps: seq<Step<N>>)
    requires Good(s) && Allowed(s, Submit(req, spare, true)) && (s.user.free != [] || spare.Some?)
    requires forall i :: 0 <= i < |steps| ==> !steps[i].DrainReap?
    requires var s2 := After(Next(s, Submit(req, spare, true)), steps);
             Allowed(s2, Step<N>.Reap) && About(s2.cq[0], |s.sent|)
    ensures var s2 := After(Next(s, Submit(req, spare, true)), steps);
            BufferKnown(s2, s2.cq[0])
    ensures var s2 := After(Next(s, Submit(req, spare, true)), steps);
            var p, r := s2.cq[0], AfterReap(s2).held[|s2.held|].result;
            && r.op == req.op && r.udata == req.udata && r.res == p.cqe.res && r.flags == p.cqe.flags
            && r.buf == (if !req.op.Accept? && req.buf.Some? then Own(req.buf.value)
                         else if HasBuffer(p.cqe.flags) then Provided(Bid(p.cqe.flags), p.start) else NoBuffer)
  {
    SubmissionIsRecorded(s, req, spare);
    hide Good, Next, AfterReap, NodeInv, BufInv;
    var s1 := Next(s, Submit(req, spare, true));
    var s2 := After(s1, steps);
    StepKeepsGood(s, Submit(req, spare, true));
    RunKeepsGood(s1, steps);
    SentOnlyGrows(s1, steps);
    assert s2.sent[|s.sent|] == s1.sent[|s.sent|];
    ResultMatchesSubmission(s2);
  }

  lemma SubmissionIsRecorded<N>(s: Sys<N>, req: Request, spare: Option<N>)
    requires Allowed(s, Submit(req, spare, true)) && (s.user.free != [] || spare.Some?)
    ensures var s1 := Next(s, Submit(req, spare, true));
            |s1.sent| == |s.sent| + 1 && s1.sent[|s.sent|].req == req
  {}

  /** Everything queued for a buffer ends before the kernel's position. */
  lemma {:induction false} ChainBehind<N>(cq: seq<Posted<N>>, b: nat, from: nat, to: nat, i: nat)
    requires Chain(cq, b, from, to) && from <= BUF_SIZE && i < |cq| && Uses(cq[i], b)
    ensures from <= cq[i].start <= End(cq[i]) <= to <= BUF_SIZE
    decreases |cq|
  {
    ChainAdvances(cq, b, from, to);
    if i == 0 {
      ChainAdvances(cq[1..], b, End(cq[0]), to);
    } else {
      assert cq[1..][i - 1] == cq[i];
      ChainBehind(cq[1..], b, if Uses(cq[0], b) then End(cq[0]) else from, to, i - 1);
    }
  }

  /** What the kernel writes next overlaps no view the client holds or is still to receive. */
  lemma KernelWritesApart<N>(s: Sys<N>, id: nat, res: i32, flags: u32)
    requires Good(s) && Allowed(s, Complete(id, res, flags)) && HasBuffer(flags)
    ensures var b := Bid(flags);
            && b < BUF_COUNT
            && (forall i :: 0 <= i < |s.held| && On(s.held[i], b) ==> s.held[i].end <= s.kpos[b])
            && (forall i :: 0 <= i < |s.cq| && Uses(s.cq[i], b) ==> End(s.cq[i]) <= s.kpos[b])
            && s.kpos[b] < BUF_SIZE
  {
    var b := Bid(flags);
    HeadOfRing(s);
    assert BufferOk(s, b);
    ChainAdvances(s.cq, b, s.user.offsets[b], s.kpos[b]);
    forall i | 0 <= i < |s.held| && On(s.held[i], b) ensures s.held[i].end <= s.kpos[b] { assert ViewOk(s, s.held[i]); }
    forall i | 0 <= i < |s.cq| && Uses(s.cq[i], b) ensures End(s.cq[i]) <= s.kpos[b] {
      ChainBehind(s.cq, b, s.user.offsets[b], s.kpos[b], i);
    }
  }

  /** A view held lies inside its buffer, and what was written fits in it. */
  lemma HeldViewIsInside<N>(s: Sys<N>, i: nat)
    requires Good(s) && i < |s.held| && HasBuffer(s.held[i].result.flags)
    ensures var h := s.held[i];
            && h.result.buf == Provided(Bid(h.result.flags), h.start)
            && h.start <= h.end <= 4096 && h.result.res <= h.end - h.start
  {
    assert ViewOk(s, s.held[i]);
  }

  /** Two results held at the same time never share a byte, and none leaves its buffer. */
  lemma HeldViewsAreDisjoint<N>(s: Sys<N>, i: nat, j: nat, at: nat)
    requires Good(s) && i < j < |s.held|
    requires HasBuffer(s.held[i].result.flags) && HasBuffer(s.held[j].result.flags)
    requires s.held[i].start <= at < s.held[i].end && s.held[j].start <= at < s.held[j].end
    ensures at < BUF_SIZE && Bid(s.held[i].result.flags) != Bid(s.held[j].result.flags)
  {
    assert ViewOk(s, s.held[i]) && ViewOk(s, s.held[j]);
    assert Apart(s.held[i], s.held[j]);
  }

  /** The completions queued and results held for a buffer. */
  ghost predicate InUse<N>(s: Sys<N>, b: nat) {
    CountOn(s.held, b) >= 1 || exists i :: 0 <= i < |s.cq| && Uses(s.cq[i], b)
  }

  lemma {:induction false} ChainMoves<N>(cq: seq<Posted<N>>, b: nat, from: nat, to: nat)
    requires Chain(cq, b, from, to) && from != to
    ensures exists i :: 0 <= i < |cq| && Uses(cq[i], b)
    decreases |cq|
  {
    if cq != [] && !Uses(cq[0], b) {
      ChainMoves(cq[1..], b, from, to);
      var i :| 0 <= i < |cq[1..]| && Uses(cq[1..][i], b);
      assert Uses(cq[i + 1], b);
    }
  }

  /** Conservation: a buffer is owned by the kernel's ring, once, or it is used up and some
      result of it is held or still to be handed out; never both, never neither. */
  lemma EveryBufferInOnePlace<N>(s: Sys<N>, b: u16)
    requires Good(s) && b < 1024
    ensures (b in s.queue) != (s.kpos[b] == 4096 && InUse(s, b))
    ensures multiset(s.queue)[b] <= 1
  {
    assert BufferOk(s, b);
    ChainAdvances(s.cq, b, s.user.offsets[b], s.kpos[b]);
    if s.kpos[b] == BUF_SIZE && s.user.offsets[b] != BUF_SIZE {
      ChainMoves(s.cq, b, s.user.offsets[b], s.kpos[b]);
    }
    UniqueOnce(s.queue, b);
  }

  lemma UniqueOnce(q: seq<u16>, b: u16)
    requires Unique(q)
    ensures multiset(q)[b] <= 1
  {
    if q != [] {
      var rest := q[..|q| - 1];
      UniqueOnce(rest, b);
      assert q == rest + [q[|q| - 1]];
      if q[|q| - 1] == b { assert b !in rest; }
    }
  }

  /** A buffer goes back to the ring exactly when its last result is freed after the final
      one was handed out; and the count that the code asserts to be positive is. */
  lemma ReaddedExactlyAtTheEnd<N>(s: Sys<N>, i: nat)
    requires Good(s) && i < |s.held| && HasBuffer(s.held[i].result.flags)
    ensures FreeKnown(s, i)
    ensures s.user.refs[Bid(s.held[i].result.flags)] % FLAG_DONE > 0
    ensures var b, s' := Bid(s.held[i].result.flags), AfterFree(s, i);
            if s.user.refs[b] >= 0x8000_0000 && CountOn(s.held, b) == 1 then
              && b !in s.queue && s'.queue == s.queue + [b]
              && s'.user.offsets[b] == 0 && s'.user.refs[b] == 0 && s'.kpos[b] == 0
            else
              s'.queue == s.queue && s'.user.offsets == s.user.offsets && s'.user.tail == s.user.tail
  {
    FreeIsDefined(s, i);
    LastOfFinished(s, i);
    CountWithout(s.held, i, Bid(s.held[i].result.flags));
    KernelAndUserAgree(s, Bid(s.held[i].result.flags));
  }
}
