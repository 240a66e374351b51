/** What flush_sas achieves (flush_entries in ipsec_sa_mgr.c), while other threads go on. */
module SaFlush {
  import opened Bytes
  import opened Lists
  import opened SaProtocol
  import opened SaRuns

  /** In the list `a` comes before `b`. */
  ghost predicate InOrder(list: seq<Eid>, a: Eid, b: Eid) {
    exists i, j :: 0 <= i < j < |list| && list[i] == a && list[j] == b
  }

  /** The flushing thread has not come to `e` yet. */
  ghost predicate Ahead(s: State, t: Tid, e: Eid) {
    && t in s.pcs
    && match s.pcs[t]
       case Flushing(next) => next <= |s.list| && e in s.list[next..]
       case Removing(f, kind, _, _) => kind == Flush && InOrder(s.list, f, e)
       case _ => false
  }

  /** The entry is being deleted, or the flushing thread will come to it. */
  ghost predicate Covered(s: State, t: Tid, e: Eid) {
    e in s.entries && (s.entries[e].awaits || Ahead(s, t, e))
  }

  // ---------------------------------------------------------------- the list

  lemma UnlinkKeepsOrder(list: seq<Eid>, k: nat, a: Eid, b: Eid)
    requires k < |list| && InOrder(list, a, b) && Distinct(list) && list[k] != a && list[k] != b
    ensures InOrder(Unlink(list, k), a, b)
  {
    var i, j :| 0 <= i < j < |list| && list[i] == a && list[j] == b;
    var left := Unlink(list, k);
    var i', j' := if i < k then i else i - 1, if j < k then j else j - 1;
    assert left[i'] == a && left[j'] == b;
  }

  lemma AddKeepsOrder(list: seq<Eid>, x: Eid, a: Eid, b: Eid)
    requires InOrder(list, a, b)
    ensures InOrder([x] + list, a, b)
  {
    var i, j :| 0 <= i < j < |list| && list[i] == a && list[j] == b;
    assert ([x] + list)[i + 1] == a && ([x] + list)[j + 1] == b;
  }

  /** What is behind an unlinked entry is where that was, or behind it. */
  lemma UnlinkAhead(list: seq<Eid>, a: Eid, b: Eid)
    requires Distinct(list) && InOrder(list, a, b)
    ensures a in list && var k := IndexOf(list, a); b in Unlink(list, k)[k..]
  {
    var i, j :| 0 <= i < j < |list| && list[i] == a && list[j] == b;
    var k := IndexOf(list, a);
    assert i == k;
    assert Unlink(list, k)[k..][j - 1 - k] == b;
  }

  /** The entry that a flush comes to next is before all that are ahead. */
  lemma NextIsBefore(list: seq<Eid>, next: nat, e: Eid)
    requires next < |list| && e in list[next..] && e != list[next]
    ensures InOrder(list, list[next], e) && e in list[next + 1..]
  {
    var m :| 0 <= m < |list[next..]| && list[next..][m] == e;
    assert list[next + m] == e && list[next + 1..][m - 1] == e;
  }

  // ---------------------------------------------------------------- the flushing thread

  /** The wait loops and the removal of an entry before `e` */
  lemma RemoveKeepsCovered(s: State, t: Tid, f: Eid, stage: Stage, e: Eid)
    requires Distinct(s.list) && t in s.pcs && f in s.list && f in s.entries
    requires e in s.entries && e != f && (s.entries[e].awaits || InOrder(s.list, f, e))
    ensures Covered(Remove(s, t, f, Flush, stage), t, e)
  {
    if InOrder(s.list, f, e) {
      UnlinkAhead(s.list, f, e);
    }
  }

  lemma OwnFlush(s: State, t: Tid, e: Eid)
    requires Inv(s) && Enabled(s, FlushNext(t)) && Covered(s, t, e) && e in Apply(s, FlushNext(t)).list
    ensures Covered(Apply(s, FlushNext(t)), t, e)
  {
    var next := s.pcs[t].next;
    if next < |s.list| {
      var f := s.list[next];
      if f != e {
        if !s.entries[e].awaits {
          NextIsBefore(s.list, next, e);
        }
        if !s.entries[f].awaits {
          RemoveKeepsCovered(Begin(s.(mutex := None), t, f, Flush), t, f, AwaitUnlock, e);
        }
      } else if !s.entries[e].awaits {
        OwnRemoval(Begin(s.(mutex := None), t, e, Flush), t, e);
      }
    }
  }

  /** An entry that is removed awaits that, or is gone. */
  lemma OwnRemoval(s: State, t: Tid, e: Eid)
    requires Distinct(s.list) && t in s.pcs && e in s.list && e in s.entries && s.entries[e].awaits
    ensures var s' := Remove(s, t, e, Flush, AwaitUnlock);
            e in s'.list ==> e in s'.entries && s'.entries[e].awaits
  {
    var k := IndexOf(s.list, e);
    assert e !in Unlink(s.list, k);
  }

  lemma OwnStep(s: State, step: Step, e: Eid)
    requires Inv(s) && Enabled(s, step) && Ahead(s, step.t, e) && e in s.entries && e in Apply(s, step).list
    ensures Covered(Apply(s, step), step.t, e)
  {
    match step
    case FlushNext(t) => OwnFlush(s, t, e);
    case RetryRemove(t) =>
      var i, j :| 0 <= i < j < |s.list| && s.list[i] == s.pcs[t].e && s.list[j] == e;
      RemoveKeepsCovered(s, t, s.pcs[t].e, s.pcs[t].stage, e);
    case Spurious(t) =>
  }

  // ---------------------------------------------------------------- the other threads

  /** What a step does to the list: nothing, one entry more, or one less */
  ghost predicate Changed(list: seq<Eid>, list': seq<Eid>) {
    list' == list || (list' != [] && list'[1..] == list) || exists k: nat :: IsUnlink(list, list', k)
  }

  ghost predicate IsUnlink(list: seq<Eid>, list': seq<Eid>, k: nat) { k < |list| && list' == Unlink(list, k) }

  lemma RemoveChanges(s: State, t: Tid, f: Eid, kind: Remover, stage: Stage)
    requires f in s.entries && f in s.list
    ensures Changed(s.list, Remove(s, t, f, kind, stage).list)
  {
    assert IsUnlink(s.list, Unlink(s.list, IndexOf(s.list, f)), IndexOf(s.list, f));
  }

  lemma StepChanges(s: State, step: Step)
    requires Enabled(s, step)
    ensures Changed(s.list, Apply(s, step).list)
  {
    match step
    case StartRemove(t, e, kind) =>
      RemoveChanges(Begin(s, t, e, kind), t, e, kind, AwaitUnlock);
    case RetryRemove(t) => RemoveChanges(s, t, s.pcs[t].e, s.pcs[t].kind, s.pcs[t].stage);
    case FlushNext(t) =>
      if s.pcs[t].next < |s.list| {
        var e := s.list[s.pcs[t].next];
        RemoveChanges(Begin(s.(mutex := None), t, e, Flush), t, e, Flush, AwaitUnlock);
      }
    case _ =>
  }

  lemma OrderStays(list: seq<Eid>, list': seq<Eid>, a: Eid, b: Eid)
    requires Distinct(list) && Changed(list, list') && InOrder(list, a, b) && a in list' && b in list'
    ensures InOrder(list', a, b)
  {
    if list' != [] && list'[1..] == list {
      AddKeepsOrder(list, list'[0], a, b);
      assert list' == [list'[0]] + list;
    } else if list' != list {
      var k: nat :| IsUnlink(list, list', k);
      assert list[k] !in list';
      UnlinkKeepsOrder(list, k, a, b);
    }
  }

  /** The thread removes what it removed; it may have been woken. */
  ghost predicate StillRemoves(s: State, s': State, t: Tid) {
    && t in s.pcs && s.pcs[t].Removing? && t in s'.pcs && s'.pcs[t].Removing?
    && s'.pcs[t].e == s.pcs[t].e && s'.pcs[t].kind == s.pcs[t].kind
  }

  lemma AcquireKeepsRemover(s: State, u: Tid, f: Eid, client: Client, wake: Option<Tid>, t: Tid)
    requires CanAcquire(s, u, f, client, wake) && u != t && t in s.pcs && s.pcs[t].Removing?
    ensures StillRemoves(s, Acquire(s, u, f, client, wake), t)
  {
  }

  lemma RemoveKeepsRemover(s: State, u: Tid, f: Eid, kind: Remover, stage: Stage, t: Tid)
    requires f in s.entries && f in s.list && u != t && t in s.pcs && s.pcs[t].Removing?
    ensures StillRemoves(s, Remove(s, u, f, kind, stage), t)
  {
  }

  lemma OthersKeepRemover(s: State, step: Step, t: Tid)
    requires Enabled(s, step) && step.t != t && t in s.pcs && s.pcs[t].Removing?
    ensures StillRemoves(s, Apply(s, step), t)
  {
    match step
    case Enter(u, f, client, wake) => AcquireKeepsRemover(s, u, f, client, wake, t);
    case Retry(u, wake) => AcquireKeepsRemover(Left(s, u), u, s.pcs[u].e, s.pcs[u].client, wake, t);
    case StartRemove(u, f, kind) => RemoveKeepsRemover(Begin(s, u, f, kind), u, f, kind, AwaitUnlock, t);
    case RetryRemove(u) => RemoveKeepsRemover(s, u, s.pcs[u].e, s.pcs[u].kind, s.pcs[u].stage, t);
    case FlushNext(u) =>
      if s.pcs[u].next < |s.list| {
        var f := s.list[s.pcs[u].next];
        RemoveKeepsRemover(Begin(s.(mutex := None), u, f, Flush), u, f, Flush, AwaitUnlock, t);
      }
    case _ =>
  }

  lemma OthersStep(s: State, step: Step, t: Tid, e: Eid)
    requires Inv(s) && Enabled(s, step) && step.t != t && Ahead(s, t, e) && e in s.list && e in Apply(s, step).list
    ensures Ahead(Apply(s, step), t, e)
  {
    var s' := Apply(s, step);
    if s.pcs[t].Removing? {
      var f := s.pcs[t].e;
      OthersKeepRemover(s, step, t);
      UsersAreListed(s, t, f);
      if f !in s'.list {
        LeavesUnused(s, step, f);
        assert Uses(s.pcs[t], f);
        assert false;
      }
      StepChanges(s, step);
      OrderStays(s.list, s'.list, f, e);
    }
  }

  // ---------------------------------------------------------------- whole runs

  /** An entry that is being deleted stays so while it is installed. */
  lemma AwaitsStays(s: State, step: Step, e: Eid)
    requires Inv(s) && Enabled(s, step) && e in s.list && s.entries[e].awaits && e in Apply(s, step).list
    ensures e in Apply(s, step).entries && Apply(s, step).entries[e].awaits
  {
    StepKeepsInv(s, step);
  }

  lemma StepKeepsCovered(s: State, step: Step, t: Tid, e: Eid)
    requires Inv(s) && Enabled(s, step) && Covered(s, t, e) && e in s.list && e in Apply(s, step).list
    ensures Covered(Apply(s, step), t, e)
  {
    if s.entries[e].awaits {
      AwaitsStays(s, step, e);
    } else if step.t == t {
      OwnStep(s, step, e);
    } else {
      StepKeepsInv(s, step);
      OthersStep(s, step, t, e);
    }
  }

  lemma {:induction false} RunKeepsCovered(r: nat -> State, i: nat, j: nat, t: Tid, e: Eid)
    requires Run(r) && i <= j && Covered(r(i), t, e) && forall k | i <= k <= j :: e in r(k).list
    ensures Covered(r(j), t, e)
    decreases j - i
  {
    if i < j {
      RunHasInv(r, i);
      assert StepAt(r, i);
      if r(i + 1) != r(i) {
        var step :| Enabled(r(i), step) && r(i + 1) == Apply(r(i), step);
        StepKeepsCovered(r(i), step, t, e);
      }
      RunKeepsCovered(r, i + 1, j, t, e);
    }
  }

  /** Thread `t` starts a flush at moment `i`, and at moment `j` it is through with it. */
  ghost predicate Flushed(r: nat -> State, i: nat, j: nat, t: Tid) {
    && i < j && t in r(i).pcs && r(i).pcs[t].Idle?
    && Enabled(r(i), StartFlush(t)) && r(i + 1) == Apply(r(i), StartFlush(t))
    && t in r(j).pcs && r(j).pcs[t].Idle?
  }

  /** flush_sas: whatever other threads do meanwhile, each entry that was installed when it began has
      left the list when it ends, unless another thread is about to remove it. */
  lemma FlushIsComplete(r: nat -> State, i: nat, j: nat, t: Tid, e: Eid)
    requires Run(r) && Flushed(r, i, j, t) && forall k | i <= k <= j :: e in r(k).list
    ensures exists u :: u != t && Pending(r(j), u, e)
  {
    RunHasInv(r, i);
    assert r(i + 1).list[0..] == r(i + 1).list;
    RunKeepsCovered(r, i + 1, j, t, e);
    RunHasInv(r, j);
    assert Ledger(r(j), e) && Count(r(j), e, Removes) == 1;
    var u :| u in Threads(r(j), e, Removes);
    assert u != t && Pending(r(j), u, e);
  }
}
