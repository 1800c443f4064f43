/** The request nodes of the protocol: each one ever allocated is in exactly one of
    in-flight, free list or released, and completions carry their own request. */
module UringNodes {
  import opened Bits
  import opened TableModel
  import opened UringModel
  import opened UringProtocol

  ghost predicate Unmentioned<N>(cq: seq<Posted<N>>, id: nat) {
    forall i :: 0 <= i < |cq| ==> !About(cq[i], id)
  }

  /** The completions still queued for submission `id`: after a final one there is none, and
      the final one is there exactly when the kernel has stopped working for it. */
  ghost predicate Posts<N>(cq: seq<Posted<N>>, id: nat, working: bool)
    decreases |cq|
  {
    if cq == [] then working
    else if About(cq[0], id) && !HasMore(cq[0].cqe.flags) then !working && Unmentioned(cq[1..], id)
    else Posts(cq[1..], id, working)
  }

  /** A queued completion is for a submission in flight, with its node and its request. */
  ghost predicate Current<N>(s: Sys<N>, p: Posted<N>) {
    p.cqe.owner.Node? ==>
      p.id in s.inflight && p.id < |s.sent| && s.sent[p.id] == Sent(p.cqe.owner.node, p.req)
  }

  /** Node `n` is with the kernel. */
  ghost predicate Flies<N>(s: Sys<N>, n: N) {
    exists id :: id in s.inflight && id < |s.sent| && s.sent[id].node == n
  }

  /** Free, in flight, released: every node is in exactly one place, and with at most one
      submission. */
  ghost predicate Placed<N>(s: Sys<N>) {
    && Unique(s.user.free) && Unique(s.user.released) && |s.user.free| <= MAX_FREE_NODES
    && (forall n :: n in s.user.free ==> n in s.issued && n !in s.user.released)
    && (forall n :: n in s.user.released ==> n in s.issued)
    && (forall id :: id in s.inflight ==>
          && id < |s.sent| && s.sent[id].node in s.issued
          && s.sent[id].node !in s.user.free && s.sent[id].node !in s.user.released)
    && (forall a, b :: a in s.inflight && b in s.inflight && a != b ==> s.sent[a].node != s.sent[b].node)
    && (forall n :: n in s.issued ==> n in s.user.free || n in s.user.released || Flies(s, n))
  }

  /** The node of a submission in flight still holds the request made with it. */
  ghost predicate Remembered<N>(s: Sys<N>) {
    forall id :: id in s.inflight ==>
      id < |s.sent| && s.sent[id].node in s.mem && s.mem[s.sent[id].node] == s.sent[id].req
  }

  ghost predicate NodeInv<N>(s: Sys<N>) {
    && Placed(s) && Remembered(s)
    && s.active <= s.inflight
    && (forall i :: 0 <= i < |s.cq| ==> Current(s, s.cq[i]))
    && (forall id {:trigger Posts(s.cq, id, id in s.active)} :: id in s.inflight ==> Posts(s.cq, id, id in s.active))
  }

  lemma InitialNodes<N>()
    ensures NodeInv(Initial<N>())
  {}

  lemma {:induction false} NewSubmissionPosts<N>(cq: seq<Posted<N>>, id: nat)
    requires Unmentioned(cq, id)
    ensures Posts(cq, id, true)
    decreases |cq|
  {
    if cq != [] {
      assert !About(cq[0], id);
      forall i | 0 <= i < |cq[1..]| ensures !About(cq[1..][i], id) { assert cq[1..][i] == cq[i + 1]; }
      NewSubmissionPosts(cq[1..], id);
    }
  }

  /** Posting for a submission the kernel works for; others are not affected. */
  lemma {:induction false} PostsAppend<N>(cq: seq<Posted<N>>, id: nat, working: bool, p: Posted<N>)
    requires Posts(cq, id, working) && (About(p, id) ==> working)
    ensures Posts(cq + [p], id, if About(p, id) && !HasMore(p.cqe.flags) then false else working)
    decreases |cq|
  {
    if cq == [] {
      assert (cq + [p])[1..] == [];
      assert (cq + [p])[0] == p;
    } else {
      assert (cq + [p])[0] == cq[0];
      assert (cq + [p])[1..] == cq[1..] + [p];
      if About(cq[0], id) && !HasMore(cq[0].cqe.flags) {
        forall i | 0 <= i < |cq[1..] + [p]| ensures !About((cq[1..] + [p])[i], id) {}
      } else {
        PostsAppend(cq[1..], id, working, p);
      }
    }
  }

  lemma LastOfUnique<N>(left: seq<N>, n: N)
    requires Unique(left + [n])
    ensures Unique(left) && n !in left
  {
    var all := left + [n];
    forall p | 0 <= p < |left| ensures left[p] == all[p] != all[|left|] {}
  }

  /** The node that a submission takes is in no other place. */
  lemma TakenIsNowhere<N>(s: Sys<N>, n: N, left: seq<N>)
    requires Placed(s)
    requires s.user.free == left + [n] || (s.user.free == left == [] && n !in s.issued)
    ensures Unique(left) && n !in left && n !in s.user.released
    ensures forall id :: id in s.inflight ==> id < |s.sent| && s.sent[id].node != n
  {
    if s.user.free == left + [n] {
      LastOfUnique(left, n);
      assert s.user.free[|left|] == n;
    }
  }

  /** A submission that gets no entry: its node is on the free list again. */
  lemma ReturnedKeepsPlaces<N>(s: Sys<N>, s': Sys<N>)
    requires Placed(s) && s'.user.released == s.user.released
    requires s'.sent == s.sent && s'.inflight == s.inflight
    requires || (s'.user.free == s.user.free && s'.issued == s.issued)
             || exists n :: s.user.free == [] && s'.user.free == [n] && n !in s.issued && s'.issued == s.issued + {n}
    ensures Placed(s')
  {
    forall n | n in s'.issued ensures n in s'.user.free || n in s'.user.released || Flies(s', n) {
      if n in s.issued && Flies(s, n) {
        var id :| id in s.inflight && id < |s.sent| && s.sent[id].node == n;
        assert id in s'.inflight && s'.sent[id].node == n;
      }
    }
  }

  /** A submission granted: its node is with the kernel, under a new number. */
  lemma GrantedKeepsPlaces<N>(s: Sys<N>, s': Sys<N>, n: N, req: Request, left: seq<N>)
    requires Placed(s) && s'.user.released == s.user.released && s'.user.free == left
    requires s.user.free == left + [n] || (s.user.free == left == [] && n !in s.issued)
    requires s'.issued == s.issued + {n}
    requires s'.sent == s.sent + [Sent(n, req)] && s'.inflight == s.inflight + {|s.sent|}
    ensures Placed(s')
  {
    TakenIsNowhere(s, n, left);
    forall m | m in left ensures m in s.user.free {}
    forall m | m in s'.issued ensures m in s'.user.free || m in s'.user.released || Flies(s', m) {
      if m == n {
        assert s'.sent[|s.sent|].node == n && |s.sent| in s'.inflight;
      } else if m in s.user.free {
        assert m in left;
      } else if m !in s.user.released {
        var id :| id in s.inflight && id < |s.sent| && s.sent[id].node == m;
        assert id in s'.inflight && s'.sent[id].node == m;
      }
    }
  }

  /** The node that a submission takes, and what is left of the free list. */
  function TakenNode<N>(u: User<N>, spare: Option<N>): N
    requires u.free != [] || spare.Some?
  {
    if u.free != [] then u.free[|u.free| - 1] else spare.value
  }

  function LeftFree<N>(u: User<N>): seq<N> {
    if u.free != [] then u.free[..|u.free| - 1] else []
  }

  lemma SubmitEffect<N>(s: Sys<N>, req: Request, spare: Option<N>, sqeOk: bool)
    requires |s.user.free| <= MAX_FREE_NODES && (s.user.free != [] || spare.Some?)
    ensures var n, left, s' := TakenNode(s.user, spare), LeftFree(s.user), AfterSubmit(s, req, spare, sqeOk);
            && s.user.free == (if s.user.free != [] then left + [n] else left)
            && s'.user.free == (if sqeOk then left else left + [n])
            && s'.user.released == s.user.released && s'.cq == s.cq
            && s'.issued == (if s.user.free != [] then s.issued else s.issued + {n})
            && (sqeOk ==>
                  && s'.mem == s.mem[n := req] && s'.sent == s.sent + [Sent(n, req)]
                  && s'.inflight == s.inflight + {|s.sent|} && s'.active == s.active + {|s.sent|})
            && (!sqeOk ==>
                  && s'.mem == s.mem && s'.sent == s.sent && s'.inflight == s.inflight && s'.active == s.active)
  {
    if s.user.free != [] {
      assert s.user.free == LeftFree(s.user) + [TakenNode(s.user, spare)];
    }
  }

  lemma SubmitKeepsNodes<N>(s: Sys<N>, req: Request, spare: Option<N>, sqeOk: bool)
    requires NodeInv(s) && Allowed(s, Submit(req, spare, sqeOk))
    ensures NodeInv(AfterSubmit(s, req, spare, sqeOk))
  {
    if s.user.free != [] || spare.Some? {
      FreeIsIssued(s);
      assert s.user.free == [] ==> spare.value !in s.issued;
      hide NodeInv, Allowed, AfterSubmit;
      SubmitEffect(s, req, spare, sqeOk);
      var s', n := AfterSubmit(s, req, spare, sqeOk), TakenNode(s.user, spare);
      assert s.user.free != [] ==> n in s.issued && s.issued + {n} == s.issued;
      if sqeOk {
        GrantedKeepsNodes(s, s', n, req, LeftFree(s.user));
      } else {
        ReturnedKeepsNodes(s, s');
      }
    }
  }

  lemma FreeIsIssued<N>(s: Sys<N>)
    requires NodeInv(s)
    ensures |s.user.free| <= MAX_FREE_NODES && forall n :: n in s.user.free ==> n in s.issued
  {}

  lemma ReturnedKeepsNodes<N>(s: Sys<N>, s': Sys<N>)
    requires NodeInv(s) && s'.user.released == s.user.released
    requires s'.sent == s.sent && s'.inflight == s.inflight && s'.active == s.active && s'.mem == s.mem && s'.cq == s.cq
    requires || (s'.user.free == s.user.free && s'.issued == s.issued)
             || exists n :: s.user.free == [] && s'.user.free == [n] && n !in s.issued && s'.issued == s.issued + {n}
    ensures NodeInv(s')
  {
    ReturnedKeepsPlaces(s, s');
    hide Placed;
    forall i | 0 <= i < |s'.cq| ensures Current(s', s'.cq[i]) { assert Current(s, s.cq[i]); }
    forall id | id in s'.inflight ensures Posts(s'.cq, id, id in s'.active) { assert Posts(s.cq, id, id in s.active); }
  }

  lemma GrantedKeepsNodes<N>(s: Sys<N>, s': Sys<N>, n: N, req: Request, left: seq<N>)
    requires NodeInv(s) && s'.user.released == s.user.released && s'.user.free == left
    requires s.user.free == left + [n] || (s.user.free == left == [] && n !in s.issued)
    requires s'.issued == s.issued + {n} && s'.mem == s.mem[n := req]
    requires s'.sent == s.sent + [Sent(n, req)]
    requires s'.inflight == s.inflight + {|s.sent|} && s'.active == s.active + {|s.sent|} && s'.cq == s.cq
    ensures NodeInv(s')
  {
    var id := |s.sent|;
    GrantedKeepsPlaces(s, s', n, req, left);
    TakenIsNowhere(s, n, left);
    hide Placed;
    forall i | 0 <= i < |s'.cq| ensures Current(s', s'.cq[i]) && !About(s'.cq[i], id) { assert Current(s, s.cq[i]); }
    NewSubmissionPosts(s.cq, id);
    forall a | a in s'.inflight ensures Posts(s'.cq, a, a in s'.active) {
      if a != id { assert Posts(s.cq, a, a in s.active); }
    }
  }

  lemma CompleteKeepsNodes<N>(s: Sys<N>, id: nat, res: i32, flags: u32)
    requires NodeInv(s) && Allowed(s, Complete(id, res, flags))
    ensures NodeInv(AfterComplete(s, id, res, flags))
  {
    var s' := AfterComplete(s, id, res, flags);
    var p := s'.cq[|s.cq|];
    assert s'.cq == s.cq + [p] && About(p, id) && p.cqe.flags == flags;
    assert s.sent[id] == Sent(p.cqe.owner.node, p.req);
    assert s'.inflight == s.inflight && s'.mem == s.mem && s'.user == s.user && s'.issued == s.issued && s'.sent == s.sent;
    assert s'.active == if HasMore(flags) then s.active else s.active - {id};
    hide AfterComplete, Allowed;
    SamePlaces(s, s');
    hide Placed;
    forall i | 0 <= i < |s'.cq| ensures Current(s', s'.cq[i]) {
      if i < |s.cq| { assert Current(s, s.cq[i]); }
    }
    forall a | a in s'.inflight ensures Posts(s'.cq, a, a in s'.active) {
      assert Posts(s.cq, a, a in s.active);
      PostsAppend(s.cq, a, a in s.active, p);
    }
  }

  lemma SamePlaces<N>(s: Sys<N>, s': Sys<N>)
    requires Placed(s) && s'.user.free == s.user.free && s'.user.released == s.user.released
    requires s'.issued == s.issued && s'.sent == s.sent && s'.inflight == s.inflight
    ensures Placed(s')
  {
    forall n | Flies(s, n) ensures Flies(s', n) {
      var id :| id in s.inflight && id < |s.sent| && s.sent[id].node == n;
      assert id in s'.inflight && s'.sent[id].node == n;
    }
  }

  lemma PostInternalKeepsNodes<N>(s: Sys<N>, p: Posted<N>)
    requires NodeInv(s) && p.cqe.owner.Internal?
    ensures NodeInv(s.(cq := s.cq + [p]))
  {
    var s' := s.(cq := s.cq + [p]);
    SamePlaces(s, s');
    hide Placed;
    forall i | 0 <= i < |s'.cq| ensures Current(s', s'.cq[i]) {
      if i < |s.cq| { assert Current(s, s.cq[i]); }
    }
    forall a | a in s'.inflight ensures Posts(s'.cq, a, a in s'.active) {
      assert Posts(s.cq, a, a in s.active);
      PostsAppend(s.cq, a, a in s.active, p);
    }
  }

  /** The node of a submission that has landed is on the free list or released. */
  lemma LandedKeepsPlaces<N>(s: Sys<N>, s': Sys<N>, id: nat)
    requires Placed(s) && id in s.inflight
    requires s'.issued == s.issued && s'.sent == s.sent && s'.inflight == s.inflight - {id}
    requires id < |s.sent|
    requires var n := s.sent[id].node;
             || (s'.user.free == s.user.free && s'.user.released == s.user.released + [n])
             || (s'.user.free == s.user.free + [n] && s'.user.released == s.user.released && |s.user.free| < MAX_FREE_NODES)
    ensures Placed(s')
  {
    var n := s.sent[id].node;
    assert n in s'.user.free + s'.user.released by {
      assert (s.user.released + [n])[|s.user.released|] == n && (s.user.free + [n])[|s.user.free|] == n;
    }
    forall m | m in s'.issued ensures m in s'.user.free || m in s'.user.released || Flies(s', m) {
      if m != n && Flies(s, m) {
        var a :| a in s.inflight && a < |s.sent| && s.sent[a].node == m;
        assert a in s'.inflight && s'.sent[a].node == m;
      }
    }
  }

  /** Taking the oldest completion off the queue: when it was final, its submission has landed. */
  lemma TakeKeepsNodes<N>(s: Sys<N>, s': Sys<N>)
    requires NodeInv(s) && s.cq != [] && s'.cq == s.cq[1..]
    requires s'.active == s.active && s'.mem == s.mem && s'.issued == s.issued && s'.sent == s.sent
    requires var p := s.cq[0];
             if p.cqe.owner.Internal? || HasMore(p.cqe.flags) then
               s'.inflight == s.inflight && s'.user.free == s.user.free && s'.user.released == s.user.released
             else
               var n := p.cqe.owner.node;
               && s'.inflight == s.inflight - {p.id}
               && ((s'.user.free == s.user.free && s'.user.released == s.user.released + [n])
                   || (s'.user.free == s.user.free + [n] && s'.user.released == s.user.released
                       && |s.user.free| < MAX_FREE_NODES))
    ensures NodeInv(s')
  {
    var p := s.cq[0];
    assert Current(s, p);
    if p.cqe.owner.Internal? || HasMore(p.cqe.flags) {
      SamePlaces(s, s');
    } else {
      assert Posts(s.cq, p.id, p.id in s.active);
      LandedKeepsPlaces(s, s', p.id);
    }
    hide Placed;
    forall i | 0 <= i < |s'.cq| ensures Current(s', s'.cq[i]) {
      assert s'.cq[i] == s.cq[i + 1] && Current(s, s.cq[i + 1]);
      if p.cqe.owner.Node? && !HasMore(p.cqe.flags) { assert !About(s.cq[1..][i], p.id); }
    }
    forall a | a in s'.inflight ensures Posts(s'.cq, a, a in s'.active) {
      assert Posts(s.cq, a, a in s.active);
    }
  }

  lemma {:induction false} UnmentionedMeansWorking<N>(cq: seq<Posted<N>>, id: nat, working: bool)
    requires Unmentioned(cq, id) && Posts(cq, id, working)
    ensures working
    decreases |cq|
  {
    if cq != [] {
      assert !About(cq[0], id);
      forall i | 0 <= i < |cq[1..]| ensures !About(cq[1..][i], id) { assert cq[1..][i] == cq[i + 1]; }
      UnmentionedMeansWorking(cq[1..], id, working);
    }
  }

  /** A drain is over when the kernel works for nobody and only completions of the ring's
      own are left in the queue. */
  ghost predicate Drained<N>(s: Sys<N>) {
    s.active == {} && forall i :: 0 <= i < |s.cq| ==> s.cq[i].cqe.owner.Internal?
  }

  lemma DrainedMeansLanded<N>(s: Sys<N>)
    requires NodeInv(s) && Drained(s)
    ensures s.inflight == {}
  {
    forall id ensures id !in s.inflight {
      if id in s.inflight {
        assert Posts(s.cq, id, id in s.active);
        UnmentionedMeansWorking(s.cq, id, id in s.active);
      }
    }
  }

  /** `fh_xio_free` after a successful drain: the nodes released during the run and the
      drain, and then the free list from its head, are every node allocated, each once. */
  lemma TeardownReleasesEachNodeOnce<N>(s: Sys<N>)
    requires NodeInv(s) && Drained(s)
    ensures var all := s.user.released + s.user.free;
            Unique(all) && forall n :: n in all <==> n in s.issued
  {
    DrainedMeansLanded(s);
    var released, free := s.user.released, s.user.free;
    forall p, q | 0 <= p < q < |released + free| ensures (released + free)[p] != (released + free)[q] {
      if p < |released| <= q {
        assert (released + free)[p] in released && (released + free)[q] in free;
      }
    }
  }
}
