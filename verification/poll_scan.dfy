/** The rotating scan of the generic poll backend, as a function of which descriptors
    are ready, and the scheduling guarantee it gives over consecutive calls. */
module PollScan {
  import opened Bits
  import opened Cyclic

  /** The ready slots among the first `k` in cyclic order from `begin`, in that order. */
  function ReadyAmong(ready: seq<bool>, begin: nat, k: nat): (slots: seq<nat>)
    requires begin < |ready| && k <= |ready|
    ensures |slots| <= k
  {
    if k == 0 then []
    else
      var i := Slot(begin, k - 1, |ready|);
      ReadyAmong(ready, begin, k - 1) + if ready[i] then [i] else []
  }

  /** How many slots a scan examines from step `k` on: it ends after a whole round or
      when `max` descriptors have been reported. */
  function Examined(ready: seq<bool>, begin: nat, max: nat, k: nat): (r: nat)
    requires begin < |ready| && k <= |ready|
    ensures k <= r <= |ready|
    decreases |ready| - k
  {
    if k == |ready| || |ReadyAmong(ready, begin, k)| >= max then k else Examined(ready, begin, max, k + 1)
  }

  function Reported(ready: seq<bool>, begin: nat, max: nat): seq<nat>
    requires begin < |ready|
  {
    ReadyAmong(ready, begin, Examined(ready, begin, max, 0))
  }

  /** Where the next scan begins. */
  function NextCursor(ready: seq<bool>, begin: nat, max: nat): (c: nat)
    requires begin < |ready|
    ensures c < |ready|
  {
    (begin + Examined(ready, begin, max, 0)) % |ready|
  }

  /** A scan cut short has reported exactly `max`; one that was not has seen every slot. */
  lemma {:induction false} ExaminedStops(ready: seq<bool>, begin: nat, max: nat, k: nat)
    requires begin < |ready| && k <= |ready| && |ReadyAmong(ready, begin, k)| <= max
    ensures var r := Examined(ready, begin, max, k);
            && |ReadyAmong(ready, begin, r)| <= max
            && (r < |ready| ==> |ReadyAmong(ready, begin, r)| == max)
    decreases |ready| - k
  {
    if k < |ready| && |ReadyAmong(ready, begin, k)| < max {
      ExaminedStops(ready, begin, max, k + 1);
    }
  }

  /** The slots reported are exactly the ready ones among those examined. */
  lemma {:induction false} ReadyAmongExactly(ready: seq<bool>, begin: nat, k: nat, d: nat)
    requires begin < |ready| && k <= |ready| && d < |ready|
    ensures d in ReadyAmong(ready, begin, k) <==> ready[d] && Distance(begin, d, |ready|) < k
  {
    if k > 0 {
      ReadyAmongExactly(ready, begin, k - 1, d);
      assert Slot(begin, k - 1, |ready|) == d <==> Distance(begin, d, |ready|) == k - 1;
    }
  }

  /** No slot is reported twice. */
  lemma {:induction false} ReadyAmongUnique(ready: seq<bool>, begin: nat, k: nat)
    requires begin < |ready| && k <= |ready|
    ensures forall p, q :: 0 <= p < q < |ReadyAmong(ready, begin, k)| ==>
              ReadyAmong(ready, begin, k)[p] != ReadyAmong(ready, begin, k)[q]
  {
    if k > 0 {
      var i := Slot(begin, k - 1, |ready|);
      ReadyAmongUnique(ready, begin, k - 1);
      ReadyAmongExactly(ready, begin, k - 1, i);
      assert Distance(begin, i, |ready|) == k - 1;
    }
  }

  /** The slots are reported in the order in which a walk from `begin` meets them. */
  lemma {:induction false} ReadyAmongInOrder(ready: seq<bool>, begin: nat, k: nat, p: nat, q: nat)
    requires begin < |ready| && k <= |ready| && p < q < |ReadyAmong(ready, begin, k)|
    ensures var slots := ReadyAmong(ready, begin, k);
            && slots[p] < |ready| && slots[q] < |ready|
            && Distance(begin, slots[p], |ready|) < Distance(begin, slots[q], |ready|) < k
  {
    var slots, before := ReadyAmong(ready, begin, k), ReadyAmong(ready, begin, k - 1);
    if q < |before| {
      ReadyAmongInOrder(ready, begin, k - 1, p, q);
    } else {
      assert slots[p] == before[p] && before[p] in before && slots[q] == Slot(begin, k - 1, |ready|);
      ReadyAmongInRange(ready, begin, k - 1);
      ReadyAmongExactly(ready, begin, k - 1, before[p]);
    }
  }

  lemma {:induction false} ReadyAmongInRange(ready: seq<bool>, begin: nat, k: nat)
    requires begin < |ready| && k <= |ready|
    ensures forall i :: i in ReadyAmong(ready, begin, k) ==> i < |ready|
  {
    if k > 0 { ReadyAmongInRange(ready, begin, k - 1); }
  }

  /** The last slot examined is one before which fewer than `max` were ready. */
  lemma {:induction false} ExaminedIsNeeded(ready: seq<bool>, begin: nat, max: nat, k: nat)
    requires begin < |ready| && k <= |ready|
    ensures var r := Examined(ready, begin, max, k); r > k ==> |ReadyAmong(ready, begin, r - 1)| < max
    decreases |ready| - k
  {
    if k < |ready| && |ReadyAmong(ready, begin, k)| < max {
      ExaminedIsNeeded(ready, begin, max, k + 1);
    }
  }

  /** Where the next scan begins, in terms of what was reported: where this one began, if it
      reported fewer than it might; otherwise behind the last slot reported. */
  lemma CursorFollowsReports(ready: seq<bool>, begin: nat, max: nat)
    requires begin < |ready|
    ensures var n, slots := |ready|, Reported(ready, begin, max);
            && |slots| <= max
            && NextCursor(ready, begin, max) ==
                 if max == 0 || |slots| < max then begin else (slots[|slots| - 1] + 1) % n
  {
    hide ReadyAmong, Examined, NextCursor, Slot;
    var k := Examined(ready, begin, max, 0);
    NoneAtFirst(ready, begin, max);
    ExaminedStops(ready, begin, max, 0);
    CursorIsSlot(ready, begin, max);
    if k == 0 || k == |ready| { WholeRound(begin, |ready|); }
    if max > 0 && |Reported(ready, begin, max)| == max {
      ExaminedIsNeeded(ready, begin, max, 0);
      LastReported(ready, begin, k);
      SlotAfter(begin, k, |ready|);
    }
  }

  lemma CursorIsSlot(ready: seq<bool>, begin: nat, max: nat)
    requires begin < |ready|
    ensures NextCursor(ready, begin, max) == Slot(begin, Examined(ready, begin, max, 0), |ready|)
  {
    SlotIsModulo(begin, Examined(ready, begin, max, 0), |ready|);
  }

  lemma WholeRound(begin: nat, n: nat)
    requires begin < n
    ensures Slot(begin, 0, n) == Slot(begin, n, n) == begin
  {
  }

  lemma NoneAtFirst(ready: seq<bool>, begin: nat, max: nat)
    requires begin < |ready|
    ensures ReadyAmong(ready, begin, 0) == [] && (max == 0 ==> Examined(ready, begin, max, 0) == 0)
  {
  }

  /** A step that adds to the slots adds the slot it examines. */
  lemma LastReported(ready: seq<bool>, begin: nat, k: nat)
    requires begin < |ready| && 0 < k <= |ready|
    requires |ReadyAmong(ready, begin, k - 1)| < |ReadyAmong(ready, begin, k)|
    ensures ReadyAmong(ready, begin, k)[|ReadyAmong(ready, begin, k)| - 1] == Slot(begin, k - 1, |ready|)
  {
  }

  lemma SlotAfter(begin: nat, k: nat, n: nat)
    requires begin < n && 0 < k <= n
    ensures (Slot(begin, k - 1, n) + 1) % n == Slot(begin, k, n)
  {
    var i := Slot(begin, k - 1, n);
    if i + 1 < n {
      ModUnique(i + 1, n, 0, i + 1);
    } else {
      ModUnique(i + 1, n, 1, 0);
    }
  }

  /** What is reported, slot by slot: ready slots, in the order of a walk from `begin`, and a
      ready one is passed over only when `max` nearer ones were ready. */
  lemma ReportedByReadiness(ready: seq<bool>, begin: nat, max: nat)
    requires begin < |ready|
    ensures var n, slots := |ready|, Reported(ready, begin, max);
            && (forall p :: 0 <= p < |slots| ==> slots[p] < n && ready[slots[p]])
            && (forall p, q :: 0 <= p < q < |slots| ==> Distance(begin, slots[p], n) < Distance(begin, slots[q], n))
            && (forall i :: 0 <= i < n && ready[i] && i !in slots ==>
                  |slots| == max && forall p :: 0 <= p < |slots| ==> Distance(begin, slots[p], n) < Distance(begin, i, n))
  {
    var n, k, slots := |ready|, Examined(ready, begin, max, 0), Reported(ready, begin, max);
    ExaminedStops(ready, begin, max, 0);
    ReadyAmongInRange(ready, begin, k);
    hide Reported, ReadyAmong, Examined;
    assert slots == ReadyAmong(ready, begin, k);
    forall p | 0 <= p < |slots| ensures slots[p] < n && ready[slots[p]] && Distance(begin, slots[p], n) < k {
      assert slots[p] in slots;
      ReadyAmongExactly(ready, begin, k, slots[p]);
    }
    forall p, q | 0 <= p < q < |slots| ensures Distance(begin, slots[p], n) < Distance(begin, slots[q], n) {
      ReadyAmongInOrder(ready, begin, k, p, q);
    }
    forall i | 0 <= i < n && ready[i] && i !in slots ensures k <= Distance(begin, i, n) < n {
      ReadyAmongExactly(ready, begin, k, i);
    }
  }

  /** A ready slot that a scan passes over gets nearer by at least `max`. */
  lemma MissedComesNearer(ready: seq<bool>, begin: nat, max: nat, d: nat)
    requires begin < |ready| && d < |ready| && ready[d] && max > 0
    requires d !in Reported(ready, begin, max)
    ensures Distance(NextCursor(ready, begin, max), d, |ready|) + max <= Distance(begin, d, |ready|)
  {
    var n, k := |ready|, Examined(ready, begin, max, 0);
    ExaminedStops(ready, begin, max, 0);
    ReadyAmongExactly(ready, begin, k, d);
    assert max <= k <= Distance(begin, d, n) < n;
    assert (begin + k) % n == Slot(begin, k, n) by { SlotIsModulo(begin, k, n); }
  }

  /** Where the scans of consecutive calls begin. */
  function CursorBefore(calls: seq<seq<bool>>, begin: nat, n: nat, max: nat, j: nat): (c: nat)
    requires begin < n && j <= |calls| && forall r :: r in calls ==> |r| == n
    ensures c < n
  {
    if j == 0 then begin
    else
      assert calls[j - 1] in calls;
      NextCursor(calls[j - 1], CursorBefore(calls, begin, n, max, j - 1), max)
  }

  /** No starvation: over calls that can report `n` descriptors in all - `ceil(n / max)`
      of them - a descriptor that is ready every time is reported at least once, however
      the others behave. */
  lemma NoStarvation(calls: seq<seq<bool>>, begin: nat, n: nat, max: nat, d: nat) returns (j: nat)
    requires begin < n && d < n && max > 0
    requires forall r :: r in calls ==> |r| == n && r[d]
    requires |calls| * max >= n
    ensures j < |calls| && calls[j] in calls && d in Reported(calls[j], CursorBefore(calls, begin, n, max, j), max)
  {
    j := 0;
    while true
      invariant j < |calls|
      invariant Distance(CursorBefore(calls, begin, n, max, j), d, n) + j * max < n
      decreases |calls| - j
    {
      assert calls[j] in calls;
      var cursor := CursorBefore(calls, begin, n, max, j);
      if d in Reported(calls[j], cursor, max) {
        return;
      }
      MissedComesNearer(calls[j], cursor, max, d);
      assert (j + 1) * max == j * max + max;
      if j + 1 == |calls| {
        assert false;
      }
      j := j + 1;
    }
  }
}
