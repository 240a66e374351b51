/** What the locking protocol of the SA manager guarantees over whole runs. */
module SaRuns {
  import opened Bytes
  import opened SaProtocol

  ghost predicate Next(s: State, s': State) {
    s' == s || exists step :: Enabled(s, step) && s' == Apply(s, step)
  }

  /** A run of the manager.  Finite runs are runs that stutter from some point on. */
  ghost predicate Run(r: nat -> State) {
    Init(r(0)) && forall i: nat :: StepAt(r, i)
  }

  ghost predicate StepAt(r: nat -> State, i: nat) { Next(r(i), r(i + 1)) }

  lemma {:induction false} RunHasInv(r: nat -> State, i: nat)
    requires Run(r)
    ensures Inv(r(i))
  {
    if i == 0 {
      InitHasInv(r(0));
    } else {
      RunHasInv(r, i - 1);
      assert StepAt(r, i - 1);
      if r(i) != r(i - 1) {
        var step :| Enabled(r(i - 1), step) && r(i) == Apply(r(i - 1), step);
        StepKeepsInv(r(i - 1), step);
      }
    }
  }

  // ---------------------------------------------------------------- safety

  /** At every moment of every run an entry has at most one holder and at most one remover,
      every entry a thread works with is installed and allocated, and an entry that is being
      freed is used by nobody. */
  lemma MutualExclusion(r: nat -> State, i: nat, t: Tid, u: Tid)
    requires Run(r) && t in r(i).pcs && u in r(i).pcs && t != u
    ensures r(i).pcs[t].Holding? ==> r(i).pcs[u] != r(i).pcs[t]
    ensures r(i).pcs[t].Removing? && r(i).pcs[u].Removing? ==> r(i).pcs[u].e != r(i).pcs[t].e
    ensures r(i).pcs[t].Freeing? ==> r(i).pcs[t].e in r(i).entries && r(i).pcs[t].e !in r(i).list
                                     && r(i).pcs[u] != r(i).pcs[t] && !Uses(r(i).pcs[u], r(i).pcs[t].e)
    ensures forall e | Uses(r(i).pcs[t], e) :: e in r(i).list && e in r(i).entries
  {
    var s := r(i);
    RunHasInv(r, i);
    forall e | Uses(s.pcs[t], e) ensures e in s.list && e in s.entries { UsersAreListed(s, t, e); }
    var pc := s.pcs[t];
    if pc.Freeing? {
      SomeThread(s, pc.e, Frees, t);
      assert Ledger(s, pc.e);
      if Uses(s.pcs[u], pc.e) { UsersAreListed(s, u, pc.e); }
      if s.pcs[u] == pc { SoleThread(s, pc.e, Frees, t, u); }
    }
    if pc.Holding? && s.pcs[u] == pc {
      assert Ledger(s, pc.e);
      SoleThread(s, pc.e, Holds, t, u);
    }
    if pc.Removing? && s.pcs[u].Removing? && s.pcs[u].e == pc.e {
      assert Ledger(s, pc.e);
      SoleThread(s, pc.e, Removes, t, u);
    }
  }

  lemma UsersAreListed(s: State, t: Tid, e: Eid)
    requires Inv(s) && t in s.pcs && Uses(s.pcs[t], e)
    ensures e in s.list && e in s.entries
  {
    var tie := if s.pcs[t].Holding? then Holds else if s.pcs[t].Waiting? then Waits else Removes;
    SomeThread(s, e, tie, t);
    assert Ledger(s, e);
  }

  /** An entry leaves the list only while it is unlocked and nobody waits for it, no thread but
      the one that unlinks it is tied to it, and if it awaits deletion it is unlinked by the
      thread that marked it. */
  lemma LeavesUnused(s: State, step: Step, e: Eid)
    requires Inv(s) && Enabled(s, step) && e in s.list && e !in Apply(s, step).list
    ensures !s.entries[e].locked && s.entries[e].waiting == 0
    ensures forall u | u in s.pcs && u != step.t :: !Uses(s.pcs[u], e)
    ensures step.StartRemove? || step.RetryRemove? || step.FlushNext?
    ensures s.entries[e].awaits ==> Tied(s.pcs[step.t], e, Removes)
  {
    assert Ledger(s, e);
    LeavingStep(s, step, e);
    forall u | u in s.pcs && u != step.t ensures !Uses(s.pcs[u], e) {
      NoThread(s, e, Holds, u);
      NoThread(s, e, Waits, u);
      if s.entries[e].awaits {
        if Tied(s.pcs[u], e, Removes) { SoleThread(s, e, Removes, step.t, u); }
      } else {
        NoThread(s, e, Removes, u);
      }
    }
  }

  lemma LeavingStep(s: State, step: Step, e: Eid)
    requires Inv(s) && Enabled(s, step) && e in s.list && e !in Apply(s, step).list
    ensures !s.entries[e].locked && s.entries[e].waiting == 0
    ensures step.StartRemove? || step.RetryRemove? || step.FlushNext?
    ensures s.entries[e].awaits ==> Tied(s.pcs[step.t], e, Removes)
  {
    OnlyRemoversUnlink(s, step, e);
    var pc := s.pcs[step.t];
    if step.StartRemove? {
      RemoveLeaves(Begin(s, step.t, step.e, step.kind), step.t, step.e, step.kind, AwaitUnlock, e);
    } else if step.RetryRemove? {
      RemoveLeaves(s, step.t, pc.e, pc.kind, pc.stage, e);
    } else {
      var f := s.list[pc.next];
      RemoveLeaves(Begin(s.(mutex := None), step.t, f, Flush), step.t, f, Flush, AwaitUnlock, e);
    }
  }

  lemma RemoveLeaves(s: State, t: Tid, f: Eid, kind: Remover, stage: Stage, e: Eid)
    requires Distinct(s.list) && f in s.list && f in s.entries
    requires e in s.list && e !in Remove(s, t, f, kind, stage).list
    ensures e == f && s.entries[e].waiting == 0 && (stage.AwaitUnlock? ==> !s.entries[e].locked)
  {
    UnlinkMembers(s.list, IndexOf(s.list, f));
  }

  lemma OnlyRemoversUnlink(s: State, step: Step, e: Eid)
    requires Enabled(s, step) && e in s.list && e !in Apply(s, step).list
    ensures step.StartRemove? || step.RetryRemove? || step.FlushNext?
  {
  }

  /** No lost wake-up: whenever a thread sleeps on an entry that is unlocked, some thread has
      already been woken on that entry; and a woken thread can go on as soon as the mutex is
      free. */
  lemma NoLostWakeup(r: nat -> State, i: nat, t: Tid, e: Eid)
    requires Run(r) && t in r(i).pcs && Asleep(r(i).pcs[t], e) && !Fields(r(i), e).locked
    ensures exists u :: u in r(i).pcs && Woken(r(i).pcs[u], e) && (r(i).mutex.None? ==> CanGoOn(r(i), u))
  {
    var s := r(i);
    RunHasInv(r, i);
    UsersAreListed(s, t, e);
    assert Alert(s, e);
    var u :| u in s.pcs && Woken(s.pcs[u], e);
    if s.mutex.None? { WokenCanGoOn(s, u, e); }
  }

  ghost predicate CanGoOn(s: State, u: Tid) {
    exists step: Step :: step.t == u && (step.Retry? || step.RetryRemove?) && Enabled(s, step)
  }

  lemma WokenCanGoOn(s: State, u: Tid, e: Eid)
    requires Inv(s) && s.mutex.None? && u in s.pcs && Woken(s.pcs[u], e)
    ensures CanGoOn(s, u)
  {
    UsersAreListed(s, u, e);
    if s.pcs[u].Removing? {
      assert Enabled(s, RetryRemove(u));
    } else {
      LeaveKeepsSafe(s, u);
      var s1 := Left(s, u);
      var en := s1.entries[e];
      var idle := Goto(s1, u, Idle);
      var wake := if en.locked && !en.awaits then None
                  else if !en.awaits && s.pcs[u].client.Checkout? then None
                  else SomeSignal(idle, e);
      assert Enabled(s, Retry(u, wake));
    }
  }

  ghost function SomeSignal(s: State, e: Eid): (wake: Option<Tid>)
    ensures CanSignal(s, e, wake)
  {
    if SomeAsleep(s, e) then
      var u :| u in s.pcs && Asleep(s.pcs[u], e);
      Some(u)
    else None
  }

  // ---------------------------------------------------------------- liveness

  ghost predicate Runs(s: State, s': State, t: Tid) {
    exists step: Step :: step.t == t && (step.Retry? || step.RetryRemove?) && Enabled(s, step) && s' == Apply(s, step)
  }

  ghost predicate Ready(s: State, t: Tid) {
    t in s.pcs && (s.pcs[t].Waiting? || s.pcs[t].Removing?) && s.pcs[t].awake
  }

  /** The scheduler lets every woken thread reacquire the mutex at some time. */
  ghost predicate Fair(r: nat -> State) {
    forall i: nat, t :: Ready(r(i), t) ==> RunsLater(r, i, t)
  }

  ghost predicate RunsLater(r: nat -> State, i: nat, t: Tid) {
    exists j: nat :: j >= i && RunsAt(r, j, t)
  }

  ghost predicate RunsAt(r: nat -> State, j: nat, t: Tid) { Runs(r(j), r(j + 1), t) }

  /** Whoever checks an SA out checks it in at some time. */
  ghost predicate HoldersReturn(r: nat -> State) {
    forall i: nat, t, e :: HoldsAt(r(i), t, e) ==> exists j: nat :: j >= i && !HoldsAt(r(j), t, e)
  }

  ghost predicate HoldsAt(s: State, t: Tid, e: Eid) { t in s.pcs && s.pcs[t] == Holding(e) }

  ghost predicate Pending(s: State, t: Tid, e: Eid) { t in s.pcs && Tied(s.pcs[t], e, Removes) }

  /** `e` leaves the list between moments `k` and `k + 1`. */
  ghost predicate Leaves(r: nat -> State, k: nat, e: Eid) { e in r(k).list && e !in r(k + 1).list }

  /** Either `e` is unlinked, or `t` goes on removing it and nobody newly waits for it or
      locks it. */
  ghost predicate StaysPending(s: State, s': State, t: Tid, e: Eid) {
    || e !in s'.list
    || (Pending(s', t, e) && Fields(s', e).waiting <= Fields(s, e).waiting
        && (Fields(s', e).locked ==> Fields(s, e).locked))
  }

  lemma AcquireStaysPending(s: State, u: Tid, f: Eid, client: Client, wake: Option<Tid>, t: Tid, e: Eid)
    requires CanAcquire(s, u, f, client, wake) && u != t && Pending(s, t, e) && e in s.list && e in s.entries
    requires s.entries[e].awaits
    ensures StaysPending(s, Acquire(s, u, f, client, wake), t, e)
  {
  }

  lemma RemoveStaysPending(s: State, u: Tid, f: Eid, kind: Remover, stage: Stage, t: Tid, e: Eid)
    requires Listed(s) && Pending(s, t, e) && e in s.list && f in s.list && (u == t <==> f == e)
    ensures StaysPending(s, Remove(s, u, f, kind, stage), t, e)
  {
    UnlinkMembers(s.list, IndexOf(s.list, f));
  }

  lemma PendingApply(s: State, step: Step, t: Tid, e: Eid)
    requires Inv(s) && Enabled(s, step) && Pending(s, t, e)
    ensures StaysPending(s, Apply(s, step), t, e)
  {
    RemoverFindsEntry(s, t);
    var u := step.t;
    match step
    case Enter(_, f, client, wake) => AcquireStaysPending(s, u, f, client, wake, t, e);
    case Retry(_, wake) =>
      LeaveKeepsSafe(s, u);
      AcquireStaysPending(Left(s, u), u, s.pcs[u].e, s.pcs[u].client, wake, t, e);
    case RetryRemove(_) =>
      if u != t && s.pcs[u].e == e {
        assert Ledger(s, e);
        SoleThread(s, e, Removes, t, u);
      }
      RemoveStaysPending(s, u, s.pcs[u].e, s.pcs[u].kind, s.pcs[u].stage, t, e);
    case StartRemove(_, f, kind) =>
      if !s.entries[f].awaits { RemoveStaysPending(Begin(s, u, f, kind), u, f, kind, AwaitUnlock, t, e); }
    case FlushNext(_) => FlushStaysPending(s, u, t, e);
    case Free(_) =>
      SomeThread(s, s.pcs[u].e, Frees, u);
      assert Ledger(s, s.pcs[u].e);
    case _ =>
  }

  lemma FlushStaysPending(s: State, u: Tid, t: Tid, e: Eid)
    requires Inv(s) && Enabled(s, FlushNext(u)) && Pending(s, t, e) && e in s.list && s.entries[e].awaits
    ensures StaysPending(s, Apply(s, FlushNext(u)), t, e)
  {
    if s.pcs[u].next < |s.list| {
      var f := s.list[s.pcs[u].next];
      if !s.entries[f].awaits {
        RemoveStaysPending(Begin(s.(mutex := None), u, f, Flush), u, f, Flush, AwaitUnlock, t, e);
      }
    }
  }

  lemma PendingNext(r: nat -> State, i: nat, t: Tid, e: Eid)
    requires Run(r) && Pending(r(i), t, e)
    ensures e in r(i).list && StaysPending(r(i), r(i + 1), t, e)
  {
    RunHasInv(r, i);
    RemoverFindsEntry(r(i), t);
    assert StepAt(r, i);
    if r(i + 1) != r(i) {
      var step :| Enabled(r(i), step) && r(i + 1) == Apply(r(i), step);
      PendingApply(r(i), step, t, e);
    }
  }

  // ------------------------------------------------ who moves while an entry is removed

  ghost predicate WaitsAwake(s: State, w: Tid, e: Eid) { w in s.pcs && s.pcs[w].Waiting? && Woken(s.pcs[w], e) }

  ghost predicate WaiterAwake(s: State, e: Eid) { exists w :: WaitsAwake(s, w, e) }

  /** A woken waiter stays woken until it runs, and it runs only to give up. */
  lemma WaiterGivesUp(s: State, s': State, w: Tid, t: Tid, e: Eid)
    requires Inv(s) && Next(s, s') && Pending(s, t, e) && WaitsAwake(s, w, e)
    ensures WaitsAwake(s', w, e) || Fields(s', e).waiting < Fields(s, e).waiting || e !in s'.list
    ensures Runs(s, s', w) ==> Fields(s', e).waiting < Fields(s, e).waiting
  {
    RemoverFindsEntry(s, t);
    if s' != s {
      var step :| Enabled(s, step) && s' == Apply(s, step);
      if step.t != w {
        OthersStayAwake(s, step, w);
      } else {
        WaiterOwnStep(s, step, e);
      }
    }
    if Runs(s, s', w) {
      WaiterRuns(s, s', w, t, e);
    }
  }

  lemma WaiterRuns(s: State, s': State, w: Tid, t: Tid, e: Eid)
    requires Inv(s) && Pending(s, t, e) && WaitsAwake(s, w, e) && Runs(s, s', w)
    ensures Fields(s', e).waiting < Fields(s, e).waiting
  {
    RemoverFindsEntry(s, t);
    var step: Step :| step.t == w && (step.Retry? || step.RetryRemove?) && Enabled(s, step) && s' == Apply(s, step);
    WaiterOwnStep(s, step, e);
  }

  lemma WaiterOwnStep(s: State, step: Step, e: Eid)
    requires Safe(s) && Enabled(s, step) && WaitsAwake(s, step.t, e) && Fields(s, e).awaits
    ensures Fields(Apply(s, step), e).waiting < Fields(s, e).waiting
  {
    LeaveKeepsSafe(s, step.t);
    assert step.Retry?;
  }

  lemma WaiterNext(r: nat -> State, i: nat, w: Tid, t: Tid, e: Eid)
    requires Run(r) && Pending(r(i), t, e) && WaitsAwake(r(i), w, e)
    ensures WaitsAwake(r(i + 1), w, e) || Fields(r(i + 1), e).waiting < Fields(r(i), e).waiting || e !in r(i + 1).list
    ensures RunsAt(r, i, w) ==> Fields(r(i + 1), e).waiting < Fields(r(i), e).waiting
  {
    RunHasInv(r, i);
    assert StepAt(r, i);
    WaiterGivesUp(r(i), r(i + 1), w, t, e);
  }

  /** Only its own step puts a woken thread to sleep again or moves it elsewhere. */
  lemma OthersStayAwake(s: State, step: Step, w: Tid)
    requires Enabled(s, step) && step.t != w && Ready(s, w)
    ensures w in Apply(s, step).pcs && Apply(s, step).pcs[w] == s.pcs[w]
  {
    OthersKeepPc(s, step, w);
  }

  /** A thread that does not sleep: nobody else moves it. */
  ghost predicate Up(s: State, w: Tid) {
    w in s.pcs && !((s.pcs[w].Waiting? || s.pcs[w].Removing?) && !s.pcs[w].awake)
  }

  ghost predicate KeepsPc(s: State, s': State, w: Tid) { w in s.pcs && w in s'.pcs && s'.pcs[w] == s.pcs[w] }

  lemma AcquireKeepsPc(s: State, t: Tid, e: Eid, client: Client, wake: Option<Tid>, w: Tid)
    requires CanAcquire(s, t, e, client, wake) && t != w && Up(s, w)
    ensures KeepsPc(s, Acquire(s, t, e, client, wake), w)
  {
  }

  lemma RemoveKeepsPc(s: State, t: Tid, e: Eid, kind: Remover, stage: Stage, w: Tid)
    requires e in s.entries && e in s.list && t != w && Up(s, w)
    ensures KeepsPc(s, Remove(s, t, e, kind, stage), w)
  {
  }

  lemma OthersKeepPc(s: State, step: Step, w: Tid)
    requires Enabled(s, step) && step.t != w && Up(s, w)
    ensures KeepsPc(s, Apply(s, step), w)
  {
    var pc := s.pcs[step.t];
    match step
    case Enter(t, e, client, wake) => AcquireKeepsPc(s, t, e, client, wake, w);
    case Retry(t, wake) => AcquireKeepsPc(Left(s, t), t, pc.e, pc.client, wake, w);
    case StartRemove(t, e, kind) =>
      if !s.entries[e].awaits {
        RemoveKeepsPc(Begin(s, t, e, kind), t, e, kind, AwaitUnlock, w);
      }
    case RetryRemove(t) => RemoveKeepsPc(s, t, pc.e, pc.kind, pc.stage, w);
    case FlushNext(t) =>
      if pc.next < |s.list| && !s.entries[s.list[pc.next]].awaits {
        var e := s.list[pc.next];
        RemoveKeepsPc(Begin(s.(mutex := None), t, e, Flush), t, e, Flush, AwaitUnlock, w);
      }
    case _ =>
  }

  lemma RemoverRuns(s: State, s': State, t: Tid, e: Eid)
    requires Inv(s) && Next(s, s') && Pending(s, t, e) && s.pcs[t].awake && !Fields(s, e).locked
    ensures (Pending(s', t, e) && s'.pcs[t].awake)
            || (Fields(s, e).waiting == 0 && e !in s'.list)
            || (Fields(s, e).waiting > 0 && WaiterAwake(s', e))
    ensures Runs(s, s', t) ==> (Fields(s, e).waiting == 0 && e !in s'.list)
                               || (Fields(s, e).waiting > 0 && WaiterAwake(s', e))
  {
    RemoverFindsEntry(s, t);
    RemoverOwnStep(s, t, e);
    if s' != s {
      var step :| Enabled(s, step) && s' == Apply(s, step);
      if step.t != t { OthersStayAwake(s, step, t); }
    }
  }

  lemma RemoverNext(r: nat -> State, i: nat, t: Tid, e: Eid)
    requires Run(r) && Pending(r(i), t, e) && r(i).pcs[t].awake && !Fields(r(i), e).locked
    ensures (Pending(r(i + 1), t, e) && r(i + 1).pcs[t].awake) || e !in r(i + 1).list || WaiterAwake(r(i + 1), e)
    ensures RunsAt(r, i, t) ==> e !in r(i + 1).list || WaiterAwake(r(i + 1), e)
  {
    RunHasInv(r, i);
    assert StepAt(r, i);
    RemoverRuns(r(i), r(i + 1), t, e);
  }

  lemma RemoverOwnStep(s: State, t: Tid, e: Eid)
    requires Inv(s) && Pending(s, t, e) && s.pcs[t].awake && !Fields(s, e).locked && e in s.list
    ensures var s' := Remove(s, t, e, s.pcs[t].kind, s.pcs[t].stage);
            if Fields(s, e).waiting == 0 then e !in s'.list else WaiterAwake(s', e)
  {
    if Fields(s, e).waiting == 0 {
      UnlinkMembers(s.list, IndexOf(s.list, e));
    } else {
      assert Ledger(s, e);
      var w :| w in Threads(s, e, Waits);
      assert WaitsAwake(Remove(s, t, e, s.pcs[t].kind, s.pcs[t].stage), w, e);
    }
  }

  // ---------------------------------------------------------------- removal completes

  /** With a woken waiter, the number of waiters drops or the entry is unlinked. */
  lemma {:induction false} WaitersDrop(r: nat -> State, i: nat, j: nat, w: Tid, t: Tid, e: Eid) returns (k: nat)
    requires Run(r) && i <= j && RunsAt(r, j, w)
    requires Pending(r(i), t, e) && !Fields(r(i), e).locked && WaitsAwake(r(i), w, e)
    ensures i <= k <= j
    ensures Leaves(r, k, e) || (Pending(r(k + 1), t, e) && !Fields(r(k + 1), e).locked
                                && Fields(r(k + 1), e).waiting < Fields(r(i), e).waiting)
    decreases j - i
  {
    PendingNext(r, i, t, e);
    WaiterNext(r, i, w, t, e);
    if e !in r(i + 1).list || Fields(r(i + 1), e).waiting < Fields(r(i), e).waiting {
      k := i;
    } else {
      k := WaitersDrop(r, i + 1, j, w, t, e);
    }
  }

  /** A woken remover runs at some time; it unlinks the entry, or wakes a waiter. */
  lemma {:induction false} RemoverActs(r: nat -> State, i: nat, j: nat, t: Tid, e: Eid) returns (k: nat)
    requires Run(r) && i <= j && RunsAt(r, j, t)
    requires Pending(r(i), t, e) && !Fields(r(i), e).locked && r(i).pcs[t].awake
    ensures i <= k <= j
    ensures Leaves(r, k, e) || (Pending(r(k + 1), t, e) && !Fields(r(k + 1), e).locked
                                && Fields(r(k + 1), e).waiting <= Fields(r(i), e).waiting
                                && WaiterAwake(r(k + 1), e))
    decreases j - i
  {
    PendingNext(r, i, t, e);
    RemoverNext(r, i, t, e);
    if e !in r(i + 1).list || WaiterAwake(r(i + 1), e) {
      k := i;
    } else {
      k := RemoverActs(r, i + 1, j, t, e);
    }
  }

  /** Once the entry is unlocked, its removal completes, by induction on waiting_threads. */
  lemma {:induction false} UnlockedIsRemoved(r: nat -> State, i: nat, t: Tid, e: Eid) returns (k: nat)
    requires Run(r) && Fair(r) && Pending(r(i), t, e) && !Fields(r(i), e).locked
    ensures k >= i && Leaves(r, k, e)
    decreases Fields(r(i), e).waiting, 1
  {
    RunHasInv(r, i);
    if WaiterAwake(r(i), e) {
      var w :| WaitsAwake(r(i), w, e);
      k := AwakeWaiterIsRemoved(r, i, w, t, e);
    } else {
      RemoverIsAwake(r(i), t, e);
      assert Ready(r(i), t) && RunsLater(r, i, t);
      var j: nat :| j >= i && RunsAt(r, j, t);
      k := RemoverActs(r, i, j, t, e);
      if !Leaves(r, k, e) {
        var w :| WaitsAwake(r(k + 1), w, e);
        k := AwakeWaiterIsRemoved(r, k + 1, w, t, e);
      }
    }
  }

  lemma {:induction false} AwakeWaiterIsRemoved(r: nat -> State, i: nat, w: Tid, t: Tid, e: Eid) returns (k: nat)
    requires Run(r) && Fair(r) && Pending(r(i), t, e) && !Fields(r(i), e).locked && WaitsAwake(r(i), w, e)
    ensures k >= i && Leaves(r, k, e)
    decreases Fields(r(i), e).waiting, 0
  {
    assert Ready(r(i), w) && RunsLater(r, i, w);
    var j: nat :| j >= i && RunsAt(r, j, w);
    k := WaitersDrop(r, i, j, w, t, e);
    if !Leaves(r, k, e) {
      k := UnlockedIsRemoved(r, k + 1, t, e);
    }
  }

  lemma RemoverIsAwake(s: State, t: Tid, e: Eid)
    requires Inv(s) && Pending(s, t, e) && !Fields(s, e).locked && !WaiterAwake(s, e)
    ensures s.pcs[t].awake
  {
    if Asleep(s.pcs[t], e) {
      assert Alert(s, e);
      var u :| u in s.pcs && Woken(s.pcs[u], e);
      if s.pcs[u].Waiting? {
        assert WaitsAwake(s, u, e);
      } else {
        assert Ledger(s, e);
        SoleThread(s, e, Removes, t, u);
      }
    }
  }

  /** Removal completes: in every fair run in which checked out SAs are checked in again, a
      thread that has begun to remove an entry unlinks it at some time. */
  lemma RemovalCompletes(r: nat -> State, i: nat, t: Tid, e: Eid) returns (k: nat)
    requires Run(r) && Fair(r) && HoldersReturn(r) && Pending(r(i), t, e)
    ensures k >= i && Leaves(r, k, e)
  {
    RunHasInv(r, i);
    if Fields(r(i), e).locked {
      assert Ledger(r(i), e);
      var h :| h in Threads(r(i), e, Holds);
      assert HoldsAt(r(i), h, e);
      var j: nat :| j >= i && !HoldsAt(r(j), h, e);
      k := HolderLeaves(r, i, j, h, t, e);
      if !Leaves(r, k, e) {
        k := UnlockedIsRemoved(r, k + 1, t, e);
      }
    } else {
      k := UnlockedIsRemoved(r, i, t, e);
    }
  }

  lemma {:induction false} HolderLeaves(r: nat -> State, i: nat, j: nat, h: Tid, t: Tid, e: Eid) returns (k: nat)
    requires Run(r) && i <= j && Pending(r(i), t, e) && HoldsAt(r(i), h, e) && !HoldsAt(r(j), h, e)
    ensures k >= i
    ensures Leaves(r, k, e) || (Pending(r(k + 1), t, e) && !Fields(r(k + 1), e).locked)
    decreases j - i
  {
    PendingNext(r, i, t, e);
    HolderNext(r, i, h, e);
    if e !in r(i + 1).list || !Fields(r(i + 1), e).locked {
      k := i;
    } else {
      k := HolderLeaves(r, i + 1, j, h, t, e);
    }
  }

  lemma HolderNext(r: nat -> State, i: nat, h: Tid, e: Eid)
    requires Run(r) && HoldsAt(r(i), h, e)
    ensures HoldsAt(r(i + 1), h, e) || !Fields(r(i + 1), e).locked
  {
    RunHasInv(r, i);
    assert StepAt(r, i);
    HolderStep(r(i), r(i + 1), h, e);
  }

  lemma HolderStep(s: State, s': State, h: Tid, e: Eid)
    requires Inv(s) && Next(s, s') && HoldsAt(s, h, e)
    ensures HoldsAt(s', h, e) || !Fields(s', e).locked
  {
    HolderFindsEntry(s, h);
    if s' != s {
      var step :| Enabled(s, step) && s' == Apply(s, step);
      if step.t != h {
        OthersKeepHolding(s, step, h);
      } else {
        assert step.Checkin?;
      }
    }
  }

  lemma OthersKeepHolding(s: State, step: Step, h: Tid)
    requires Enabled(s, step) && step.t != h && h in s.pcs && s.pcs[h].Holding?
    ensures h in Apply(s, step).pcs && Apply(s, step).pcs[h] == s.pcs[h]
  {
    OthersKeepPc(s, step, h);
  }

  lemma HolderIsListed(s: State, t: Tid)
    requires Inv(s) && t in s.pcs && s.pcs[t].Holding?
    ensures s.pcs[t].e in s.entries
  {
    UsersAreListed(s, t, s.pcs[t].e);
  }

  lemma OneHolder(s: State, t: Tid, u: Tid)
    requires Inv(s) && t in s.pcs && u in s.pcs && s.pcs[t].Holding? && s.pcs[u] == s.pcs[t]
    ensures t == u
  {
    var e := s.pcs[t].e;
    assert Ledger(s, e);
    SoleThread(s, e, Holds, t, u);
  }

  /** Only adding makes an entry, and then it is a new one. */
  lemma EntriesStay(s: State, step: Step, e: Eid)
    requires Enabled(s, step) && e in Apply(s, step).entries
    ensures e in s.entries || (step.Add? && step.e == e)
  {
  }
}
