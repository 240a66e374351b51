/** The locking protocol of the SA manager (ipsec_sa_mgr.c) as a transition system.

    Every operation of the manager runs under one mutex, which it gives up only while it
    waits on the condition variable of one SA entry.  A step below is therefore one stretch of
    code between two such points.  The flush loop is cut finer: it keeps the mutex between
    entries, so `mutex` names the flushing thread and blocks every step that has to lock.

    Condition variables follow POSIX: `signal` wakes one sleeper if there is one, `broadcast`
    wakes all of them, and a sleeper may wake up spuriously. */
module SaProtocol {
  import opened Bytes
  import opened Lists

  type Tid = nat
  type Eid = nat

  /** The protocol fields of ipsec_sa_entry_t. */
  datatype Entry = Entry(locked: bool, waiting: nat, awaits: bool)

  /** Callers of wait_for_entry: a checkout keeps the entry, the others give it back at once. */
  datatype Client = Checkout | Update | Query

  /** Callers of wait_remove_entry. */
  datatype Remover = Delete | Expire | Flush

  /** The two wait loops of wait_remove_entry. */
  datatype Stage = AwaitUnlock | AwaitWaiters

  datatype Pc =
    | Idle
    | Holding(e: Eid)
    | Waiting(e: Eid, client: Client, awake: bool)
    | Removing(e: Eid, kind: Remover, stage: Stage, awake: bool)
    | Flushing(next: nat)
    | Freeing(e: Eid)

  /** `entries` is the memory of the entries, `list` the installed ones in order.  A deleted
      entry is unlinked under the mutex and freed after it (state `Freeing`). */
  datatype State = State(list: seq<Eid>, entries: map<Eid, Entry>, pcs: map<Tid, Pc>, mutex: Option<Tid>)

  predicate Uses(pc: Pc, e: Eid) { (pc.Holding? || pc.Waiting? || pc.Removing?) && pc.e == e }

  predicate Asleep(pc: Pc, e: Eid) { (pc.Waiting? || pc.Removing?) && pc.e == e && !pc.awake }

  predicate Woken(pc: Pc, e: Eid) { (pc.Waiting? || pc.Removing?) && pc.e == e && pc.awake }

  function WakeUp(pc: Pc): Pc
    requires pc.Waiting? || pc.Removing?
  {
    pc.(awake := true)
  }

  /** `wake` is a possible outcome of one signal on the condition variable of `e`. */
  predicate CanSignal(s: State, e: Eid, wake: Option<Tid>) {
    match wake
    case Some(u) => u in s.pcs && Asleep(s.pcs[u], e)
    case None => forall u | u in s.pcs :: !Asleep(s.pcs[u], e)
  }

  function Signal(s: State, e: Eid, wake: Option<Tid>): State
    requires CanSignal(s, e, wake)
  {
    match wake
    case Some(u) => s.(pcs := s.pcs[u := WakeUp(s.pcs[u])])
    case None => s
  }

  function Broadcast(s: State, e: Eid): State {
    s.(pcs := map u | u in s.pcs :: if Asleep(s.pcs[u], e) then WakeUp(s.pcs[u]) else s.pcs[u])
  }

  function Goto(s: State, t: Tid, pc: Pc): State { s.(pcs := s.pcs[t := pc]) }

  function SetEntry(s: State, e: Eid, en: Entry): State { s.(entries := s.entries[e := en]) }

  /** The wait_for_entry loop of thread `t` from its head, and what the caller does next. */
  predicate CanAcquire(s: State, t: Tid, e: Eid, client: Client, wake: Option<Tid>) {
    && e in s.entries
    && var en := s.entries[e];
       if en.locked && !en.awaits then wake == None
       else if en.awaits then CanSignal(Goto(s, t, Idle), e, wake)
       else if client.Checkout? then wake == None
       else CanSignal(Goto(s, t, Idle), e, wake)
  }

  function Acquire(s: State, t: Tid, e: Eid, client: Client, wake: Option<Tid>): State
    requires CanAcquire(s, t, e, client, wake)
  {
    var en := s.entries[e];
    if en.locked && !en.awaits then
      Goto(SetEntry(s, e, en.(waiting := en.waiting + 1)), t, Waiting(e, client, false))
    else if en.awaits then
      Signal(Goto(s, t, Idle), e, wake)
    else if client.Checkout? then
      Goto(SetEntry(s, e, en.(locked := true)), t, Holding(e))
    else
      Signal(Goto(s, t, Idle), e, wake)
  }

  function IndexOf(list: seq<Eid>, e: Eid): (i: nat)
    requires e in list
    ensures i < |list| && list[i] == e && e !in list[..i]
  {
    if list[0] == e then 0 else 1 + IndexOf(list[1..], e)
  }

  function Unlink(list: seq<Eid>, i: nat): seq<Eid>
    requires i < |list|
  {
    list[..i] + list[i + 1..]
  }

  /** The wait loops of wait_remove_entry from `stage` on, and the removal that follows them. */
  function Remove(s: State, t: Tid, e: Eid, kind: Remover, stage: Stage): State
    requires e in s.entries && e in s.list
  {
    var en := s.entries[e];
    if stage.AwaitUnlock? && en.locked then
      Goto(s, t, Removing(e, kind, AwaitUnlock, false))
    else if en.waiting > 0 then
      Goto(Broadcast(s, e), t, Removing(e, kind, AwaitWaiters, false))
    else
      Unlinked(s, t, e, kind)
  }

  function Unlinked(s: State, t: Tid, e: Eid, kind: Remover): State
    requires e in s.list
  {
    var i := IndexOf(s.list, e);
    var s1 := s.(list := Unlink(s.list, i));
    match kind
    case Delete => Goto(s1, t, Freeing(e))
    case Expire => Goto(s1.(entries := s1.entries - {e}), t, Idle)
    case Flush => Goto(s1.(entries := s1.entries - {e}, mutex := Some(t)), t, Flushing(i))
  }

  /** Thread `t` has marked `e` for deletion and is about to enter the wait loops. */
  function Begin(s: State, t: Tid, e: Eid, kind: Remover): State
    requires e in s.entries
  {
    Goto(SetEntry(s, e, s.entries[e].(awaits := true)), t, Removing(e, kind, AwaitUnlock, true))
  }

  /** What checkin looks for: a listed entry that is locked. */
  predicate Locked(s: State, e: Eid) { e in s.list && e in s.entries && s.entries[e].locked }

  datatype Step =
    | Add(t: Tid, e: Eid)
    | Enter(t: Tid, e: Eid, client: Client, wake: Option<Tid>)
    | Retry(t: Tid, wake: Option<Tid>)
    | Checkin(t: Tid, wake: Option<Tid>)
    | StartRemove(t: Tid, e: Eid, kind: Remover)
    | RetryRemove(t: Tid)
    | StartFlush(t: Tid)
    | FlushNext(t: Tid)
    | Free(t: Tid)
    | Spurious(t: Tid)

  function Left(s: State, t: Tid): State
    requires t in s.pcs && s.pcs[t].Waiting? && s.pcs[t].e in s.entries && s.entries[s.pcs[t].e].waiting > 0
  {
    var en := s.entries[s.pcs[t].e];
    Goto(SetEntry(s, s.pcs[t].e, en.(waiting := en.waiting - 1)), t, Idle)
  }

  predicate Enabled(s: State, step: Step) {
    && step.t in s.pcs
    && var pc := s.pcs[step.t];
       match step
       case Add(t, e) => s.mutex.None? && pc.Idle? && e !in s.entries
       case Enter(t, e, client, wake) => s.mutex.None? && pc.Idle? && e in s.list && CanAcquire(s, t, e, client, wake)
       case Retry(t, wake) =>
         && s.mutex.None? && pc.Waiting? && pc.awake
         && pc.e in s.entries && s.entries[pc.e].waiting > 0
         && CanAcquire(Left(s, t), t, pc.e, pc.client, wake)
       case Checkin(t, wake) =>
         && s.mutex.None? && pc.Holding?
         && (Locked(s, pc.e) ==> CanSignal(Goto(s, t, Idle), pc.e, wake))
       case StartRemove(t, e, kind) => s.mutex.None? && pc.Idle? && e in s.list && e in s.entries && !kind.Flush?
       case RetryRemove(t) => s.mutex.None? && pc.Removing? && pc.awake && pc.e in s.entries && pc.e in s.list
       case StartFlush(t) => s.mutex.None? && pc.Idle?
       case FlushNext(t) =>
         && s.mutex == Some(t) && pc.Flushing?
         && (pc.next < |s.list| ==> s.list[pc.next] in s.entries)
       case Free(t) => pc.Freeing? && pc.e in s.entries
       case Spurious(t) => (pc.Waiting? || pc.Removing?) && !pc.awake
  }

  function Apply(s: State, step: Step): State
    requires Enabled(s, step)
  {
    var pc := s.pcs[step.t];
    match step
    case Add(t, e) => s.(list := [e] + s.list, entries := s.entries[e := Entry(false, 0, false)])
    case Enter(t, e, client, wake) => Acquire(s, t, e, client, wake)
    case Retry(t, wake) => Acquire(Left(s, t), t, pc.e, pc.client, wake)
    case Checkin(t, wake) =>
      if Locked(s, pc.e) then
        SetEntry(Signal(Goto(s, t, Idle), pc.e, wake), pc.e, s.entries[pc.e].(locked := false))
      else
        Goto(s, t, Idle)
    case StartRemove(t, e, kind) =>
      if s.entries[e].awaits then s
      else Remove(Begin(s, t, e, kind), t, e, kind, AwaitUnlock)
    case RetryRemove(t) => Remove(s, t, pc.e, pc.kind, pc.stage)
    case StartFlush(t) => Goto(s.(mutex := Some(t)), t, Flushing(0))
    case FlushNext(t) =>
      if pc.next >= |s.list| then Goto(s.(mutex := None), t, Idle)
      else
        var e := s.list[pc.next];
        if s.entries[e].awaits then Goto(s, t, Flushing(pc.next + 1))
        else Remove(Begin(s.(mutex := None), t, e, Flush), t, e, Flush, AwaitUnlock)
    case Free(t) => Goto(s.(entries := s.entries - {pc.e}), t, Idle)
    case Spurious(t) => Goto(s, t, WakeUp(pc))
  }

  // ---------------------------------------------------------------- invariants

  ghost predicate Distinct(list: seq<Eid>) {
    forall i, j | 0 <= i < j < |list| :: list[i] != list[j]
  }

  /** The four ways in which a thread can be tied to an entry. */
  datatype Tie = Holds | Waits | Removes | Frees

  predicate Tied(pc: Pc, e: Eid, tie: Tie) {
    match tie
    case Holds => pc.Holding? && pc.e == e
    case Waits => pc.Waiting? && pc.e == e
    case Removes => pc.Removing? && pc.e == e
    case Frees => pc.Freeing? && pc.e == e
  }

  ghost function Threads(s: State, e: Eid, tie: Tie): set<Tid> {
    set t | t in s.pcs && Tied(s.pcs[t], e, tie)
  }

  ghost function Count(s: State, e: Eid, tie: Tie): nat { |Threads(s, e, tie)| }

  /** The protocol fields of an installed entry; an entry that is not installed has no users. */
  function Fields(s: State, e: Eid): Entry {
    if e in s.list && e in s.entries then s.entries[e] else Entry(false, 0, false)
  }

  function One(b: bool): nat { if b then 1 else 0 }

  /** The fields of an entry count the threads that are tied to it: it is locked exactly while
      one thread holds it, waiting_threads counts the threads in wait_for_entry, it awaits
      deletion exactly while one thread removes it, and it is unlinked but not freed exactly
      while one thread is about to free it. */
  ghost predicate Ledger(s: State, e: Eid) {
    && Count(s, e, Holds) == One(Fields(s, e).locked)
    && Count(s, e, Waits) == Fields(s, e).waiting
    && Count(s, e, Removes) == One(Fields(s, e).awaits)
    && Count(s, e, Frees) == One(e in s.entries && e !in s.list)
  }

  /** A remover that has left the first wait loop finds the entry unlocked from then on. */
  ghost predicate UnlockedForRemoval(s: State) {
    forall t | t in s.pcs && s.pcs[t].Removing? && s.pcs[t].stage.AwaitWaiters? ::
      !Fields(s, s.pcs[t].e).locked
  }

  ghost predicate MutexOwned(s: State) {
    && (forall t | t in s.pcs && s.pcs[t].Flushing? :: s.mutex == Some(t))
    && (s.mutex.Some? ==> s.mutex.value in s.pcs && s.pcs[s.mutex.value].Flushing?)
  }

  ghost predicate Listed(s: State) {
    Distinct(s.list) && forall e | e in s.list :: e in s.entries
  }

  ghost predicate Safe(s: State) {
    Listed(s) && (forall e :: Ledger(s, e)) && UnlockedForRemoval(s) && MutexOwned(s)
  }

  ghost predicate SomeAsleep(s: State, e: Eid) { exists t :: t in s.pcs && Asleep(s.pcs[t], e) }

  ghost predicate SomeWoken(s: State, e: Eid) { exists t :: t in s.pcs && Woken(s.pcs[t], e) }

  /** No lost wake-up on `e`: while it is unlocked, a sleeper implies a woken thread. */
  ghost predicate Alert(s: State, e: Eid) {
    !Fields(s, e).locked && SomeAsleep(s, e) ==> SomeWoken(s, e)
  }

  ghost predicate Inv(s: State) {
    Safe(s) && forall e :: Alert(s, e)
  }

  ghost predicate Init(s: State) {
    s.list == [] && s.entries == map[] && s.mutex.None? && forall t | t in s.pcs :: s.pcs[t].Idle?
  }

  // ---------------------------------------------------------------- counting

  /** Threads other than `t` are untouched. */
  ghost predicate OthersSame(s: State, s': State, t: Tid) {
    && t in s.pcs && s'.pcs.Keys == s.pcs.Keys
    && forall u | u in s.pcs && u != t :: s'.pcs[u] == s.pcs[u]
  }

  lemma MoveCounts(s: State, s': State, t: Tid)
    requires OthersSame(s, s', t)
    ensures forall e, tie ::
              Count(s', e, tie) == Count(s, e, tie) - One(Tied(s.pcs[t], e, tie)) + One(Tied(s'.pcs[t], e, tie))
  {
    forall e, tie
      ensures Count(s', e, tie) == Count(s, e, tie) - One(Tied(s.pcs[t], e, tie)) + One(Tied(s'.pcs[t], e, tie))
    {
      var rest := Threads(s, e, tie) - {t};
      assert Threads(s, e, tie) == if Tied(s.pcs[t], e, tie) then rest + {t} else rest;
      assert Threads(s', e, tie) == if Tied(s'.pcs[t], e, tie) then rest + {t} else rest;
    }
  }

  lemma NoThread(s: State, e: Eid, tie: Tie, t: Tid)
    requires Count(s, e, tie) == 0 && t in s.pcs
    ensures !Tied(s.pcs[t], e, tie)
  {
    assert t !in Threads(s, e, tie);
  }

  lemma SomeThread(s: State, e: Eid, tie: Tie, t: Tid)
    requires t in s.pcs && Tied(s.pcs[t], e, tie)
    ensures Count(s, e, tie) > 0
  {
    assert t in Threads(s, e, tie);
  }

  lemma SoleThread(s: State, e: Eid, tie: Tie, t: Tid, u: Tid)
    requires Count(s, e, tie) <= 1
    requires t in s.pcs && Tied(s.pcs[t], e, tie)
    requires u in s.pcs && Tied(s.pcs[u], e, tie)
    ensures t == u
  {
    if t != u {
      assert {t, u} <= Threads(s, e, tie);
      assert |{t, u}| <= |Threads(s, e, tie)| by { SubsetSize({t, u}, Threads(s, e, tie)); }
    }
  }

  /** `s'` differs from `s` only in that some sleepers have been woken. */
  ghost predicate OnlyWoken(s: State, s': State) {
    && s'.list == s.list && s'.entries == s.entries && s'.mutex == s.mutex
    && s'.pcs.Keys == s.pcs.Keys
    && forall u | u in s.pcs :: s'.pcs[u] == s.pcs[u]
                                || ((s.pcs[u].Waiting? || s.pcs[u].Removing?) && s'.pcs[u] == WakeUp(s.pcs[u]))
  }

  lemma WakingKeepsSafe(s: State, s': State)
    requires Safe(s) && OnlyWoken(s, s')
    ensures Safe(s')
  {
    forall e ensures Ledger(s', e) {
      assert Ledger(s, e);
      forall tie ensures Threads(s', e, tie) == Threads(s, e, tie) {}
    }
  }

  lemma WakingKeepsAlert(s: State, s': State, e: Eid)
    requires OnlyWoken(s, s') && Alert(s, e)
    ensures Alert(s', e)
  {
    if SomeAsleep(s', e) {
      var t :| t in s'.pcs && Asleep(s'.pcs[t], e);
      assert Asleep(s.pcs[t], e);
      if SomeWoken(s, e) {
        var u :| u in s.pcs && Woken(s.pcs[u], e);
        assert Woken(s'.pcs[u], e);
      }
    }
  }

  lemma SignalAlerts(s: State, e: Eid, wake: Option<Tid>)
    requires CanSignal(s, e, wake)
    ensures OnlyWoken(s, Signal(s, e, wake))
    ensures Alert(Signal(s, e, wake), e)
  {
    if wake.Some? {
      assert Woken(Signal(s, e, wake).pcs[wake.value], e);
    }
  }

  /** The move of a thread that is not tied to `f`, before and after. */
  lemma MoveKeepsAlert(s: State, s': State, t: Tid, f: Eid)
    requires OthersSame(s, s', t) && Fields(s', f) == Fields(s, f)
    requires !Uses(s.pcs[t], f) && !Uses(s'.pcs[t], f)
    requires Alert(s, f)
    ensures Alert(s', f)
  {
    if SomeAsleep(s', f) {
      var u :| u in s'.pcs && Asleep(s'.pcs[u], f);
      assert Asleep(s.pcs[u], f);
      if SomeWoken(s, f) {
        var w :| w in s.pcs && Woken(s.pcs[w], f);
        assert Woken(s'.pcs[w], f);
      }
    }
  }

  lemma UntiedIsAlert(s: State, e: Eid)
    requires Count(s, e, Waits) == 0 && Count(s, e, Removes) == 0
    ensures Alert(s, e)
  {
    forall u | u in s.pcs ensures !Asleep(s.pcs[u], e) {
      NoThread(s, e, Waits, u);
      NoThread(s, e, Removes, u);
    }
  }

  // ---------------------------------------------------------------- wait_for_entry

  lemma WaitKeepsSafe(s: State, t: Tid, e: Eid, client: Client)
    requires Safe(s) && t in s.pcs && s.pcs[t].Idle? && e in s.list && s.entries[e].locked
    ensures Safe(Goto(SetEntry(s, e, s.entries[e].(waiting := s.entries[e].waiting + 1)), t, Waiting(e, client, false)))
  {
    var s' := Goto(SetEntry(s, e, s.entries[e].(waiting := s.entries[e].waiting + 1)), t, Waiting(e, client, false));
    MoveCounts(s, s', t);
    forall f ensures Ledger(s', f) {
      assert Ledger(s, f);
    }
  }

  lemma LockKeepsSafe(s: State, t: Tid, e: Eid)
    requires Safe(s) && t in s.pcs && s.pcs[t].Idle? && e in s.list && !s.entries[e].locked && !s.entries[e].awaits
    ensures Safe(Goto(SetEntry(s, e, s.entries[e].(locked := true)), t, Holding(e)))
  {
    var s' := Goto(SetEntry(s, e, s.entries[e].(locked := true)), t, Holding(e));
    MoveCounts(s, s', t);
    forall f ensures Ledger(s', f) {
      assert Ledger(s, f);
    }
    assert Ledger(s, e);
    forall u | u in s'.pcs && s'.pcs[u].Removing? && s'.pcs[u].stage.AwaitWaiters? ensures s'.pcs[u].e != e {
      NoThread(s, e, Removes, u);
    }
  }

  lemma LeaveKeepsSafe(s: State, t: Tid)
    requires Safe(s) && t in s.pcs && s.pcs[t].Waiting?
    ensures s.pcs[t].e in s.list && s.entries[s.pcs[t].e].waiting > 0
    ensures Safe(Left(s, t))
  {
    var e := s.pcs[t].e;
    SomeThread(s, e, Waits, t);
    assert Ledger(s, e);
    var s' := Left(s, t);
    MoveCounts(s, s', t);
    forall f ensures Ledger(s', f) {
      assert Ledger(s, f);
    }
  }

  lemma AcquireKeeps(s: State, t: Tid, e: Eid, client: Client, wake: Option<Tid>)
    requires Safe(s) && t in s.pcs && s.pcs[t].Idle? && e in s.list && CanAcquire(s, t, e, client, wake)
    ensures var s' := Acquire(s, t, e, client, wake);
            Safe(s') && Alert(s', e) && forall f | f != e && Alert(s, f) :: Alert(s', f)
  {
    var en := s.entries[e];
    var s' := Acquire(s, t, e, client, wake);
    if (en.locked && !en.awaits) || (!en.awaits && client.Checkout?) {
      if en.locked { WaitKeepsSafe(s, t, e, client); } else { LockKeepsSafe(s, t, e); }
      forall f | f != e && Alert(s, f) ensures Alert(s', f) {
        MoveKeepsAlert(s, s', t, f);
      }
    } else {
      assert Goto(s, t, Idle) == s;
      SignalAlerts(s, e, wake);
      WakingKeepsSafe(s, s');
      forall f | f != e && Alert(s, f) ensures Alert(s', f) {
        WakingKeepsAlert(s, s', f);
      }
    }
  }

  lemma EnterKeepsInv(s: State, t: Tid, e: Eid, client: Client, wake: Option<Tid>)
    requires Inv(s) && Enabled(s, Enter(t, e, client, wake))
    ensures Inv(Apply(s, Enter(t, e, client, wake)))
  {
    AcquireKeeps(s, t, e, client, wake);
  }

  lemma RetryKeepsInv(s: State, t: Tid, wake: Option<Tid>)
    requires Inv(s) && Enabled(s, Retry(t, wake))
    ensures Inv(Apply(s, Retry(t, wake)))
  {
    var e := s.pcs[t].e;
    LeaveKeepsSafe(s, t);
    var s1 := Left(s, t);
    forall f | f != e ensures Alert(s1, f) {
      MoveKeepsAlert(s, s1, t, f);
    }
    AcquireKeeps(s1, t, e, s.pcs[t].client, wake);
  }

  // ---------------------------------------------------------------- checkin

  lemma HolderFindsEntry(s: State, t: Tid)
    requires Safe(s) && t in s.pcs && s.pcs[t].Holding?
    ensures Locked(s, s.pcs[t].e)
  {
    SomeThread(s, s.pcs[t].e, Holds, t);
    assert Ledger(s, s.pcs[t].e);
  }

  lemma UnlockKeeps(s: State, t: Tid)
    requires Inv(s) && t in s.pcs && s.pcs[t].Holding? && Locked(s, s.pcs[t].e)
    ensures var e := s.pcs[t].e;
            var s1 := Goto(SetEntry(s, e, s.entries[e].(locked := false)), t, Idle);
            Safe(s1) && forall f | f != e :: Alert(s1, f)
  {
    var e := s.pcs[t].e;
    var s1 := Goto(SetEntry(s, e, s.entries[e].(locked := false)), t, Idle);
    MoveCounts(s, s1, t);
    forall f ensures Ledger(s1, f) {
      assert Ledger(s, f);
    }
    forall f | f != e ensures Alert(s1, f) {
      MoveKeepsAlert(s, s1, t, f);
    }
  }

  lemma CheckinKeepsInv(s: State, t: Tid, wake: Option<Tid>)
    requires Inv(s) && Enabled(s, Checkin(t, wake))
    ensures Inv(Apply(s, Checkin(t, wake)))
  {
    var e := s.pcs[t].e;
    HolderFindsEntry(s, t);
    UnlockKeeps(s, t);
    var s1 := Goto(SetEntry(s, e, s.entries[e].(locked := false)), t, Idle);
    var s' := Signal(s1, e, wake);
    assert s' == Apply(s, Checkin(t, wake));
    SignalAlerts(s1, e, wake);
    WakingKeepsSafe(s1, s');
    forall f | f != e ensures Alert(s', f) {
      WakingKeepsAlert(s1, s', f);
    }
  }

  // ---------------------------------------------------------------- wait_remove_entry

  lemma BeginKeepsInv(s: State, t: Tid, e: Eid, kind: Remover)
    requires Inv(s) && s.mutex.None? && t in s.pcs && s.pcs[t].Idle? && e in s.list && !s.entries[e].awaits
    ensures Inv(Begin(s, t, e, kind))
  {
    var s' := Begin(s, t, e, kind);
    MoveCounts(s, s', t);
    forall f ensures Ledger(s', f) {
      assert Ledger(s, f);
    }
    assert Woken(s'.pcs[t], e);
    forall f | f != e ensures Alert(s', f) {
      MoveKeepsAlert(s, s', t, f);
    }
  }

  lemma RemoverFindsEntry(s: State, t: Tid)
    requires Safe(s) && t in s.pcs && s.pcs[t].Removing?
    ensures s.pcs[t].e in s.list && s.entries[s.pcs[t].e].awaits
  {
    SomeThread(s, s.pcs[t].e, Removes, t);
    assert Ledger(s, s.pcs[t].e);
  }

  lemma UnlinkMembers(list: seq<Eid>, i: nat)
    requires i < |list| && Distinct(list)
    ensures Distinct(Unlink(list, i))
    ensures forall f :: f in Unlink(list, i) <==> f in list && f != list[i]
  {
    var r := Unlink(list, i);
    forall f | f in list && f != list[i] ensures f in r {
      var k :| 0 <= k < |list| && list[k] == f;
      assert r[if k < i then k else k - 1] == f;
    }
  }

  lemma SleepKeepsInv(s: State, t: Tid)
    requires Inv(s) && t in s.pcs && s.pcs[t].Removing? && Fields(s, s.pcs[t].e).locked
    ensures Inv(Goto(s, t, Removing(s.pcs[t].e, s.pcs[t].kind, AwaitUnlock, false)))
  {
    var e := s.pcs[t].e;
    var s' := Goto(s, t, Removing(e, s.pcs[t].kind, AwaitUnlock, false));
    MoveCounts(s, s', t);
    forall f ensures Ledger(s', f) {
      assert Ledger(s, f);
    }
    forall f | f != e ensures Alert(s', f) {
      MoveKeepsAlert(s, s', t, f);
    }
  }

  lemma BroadcastKeepsInv(s: State, t: Tid)
    requires Inv(s) && t in s.pcs && s.pcs[t].Removing?
    requires !Fields(s, s.pcs[t].e).locked && Fields(s, s.pcs[t].e).waiting > 0
    ensures Inv(Goto(Broadcast(s, s.pcs[t].e), t, Removing(s.pcs[t].e, s.pcs[t].kind, AwaitWaiters, false)))
  {
    var e := s.pcs[t].e;
    var s1 := Broadcast(s, e);
    WakingKeepsSafe(s, s1);
    var s' := Goto(s1, t, Removing(e, s.pcs[t].kind, AwaitWaiters, false));
    MoveCounts(s1, s', t);
    forall f ensures Ledger(s', f) {
      assert Ledger(s1, f);
    }
    forall f | f != e ensures Alert(s', f) {
      WakingKeepsAlert(s, s1, f);
      MoveKeepsAlert(s1, s', t, f);
    }
    assert Ledger(s, e);
    var u :| u in Threads(s, e, Waits);
    assert Woken(s'.pcs[u], e);
  }

  lemma UnlinkKeepsSafe(s: State, t: Tid)
    requires Safe(s) && s.mutex.None? && t in s.pcs && s.pcs[t].Removing?
    requires s.pcs[t].e in s.list && !Fields(s, s.pcs[t].e).locked && Fields(s, s.pcs[t].e).waiting == 0
    ensures Safe(Unlinked(s, t, s.pcs[t].e, s.pcs[t].kind))
  {
    var e := s.pcs[t].e;
    var s' := Unlinked(s, t, e, s.pcs[t].kind);
    UnlinkMembers(s.list, IndexOf(s.list, e));
    MoveCounts(s, s', t);
    SomeThread(s, e, Removes, t);
    forall f ensures Ledger(s', f) {
      UnlinkKeepsLedger(s, t, f);
    }
  }

  /** What an unlinking does to the fields of an entry */
  lemma UnlinkFields(s: State, t: Tid, f: Eid)
    requires Listed(s) && t in s.pcs && s.pcs[t].Removing? && s.pcs[t].e in s.list
    ensures var e := s.pcs[t].e;
            var s' := Unlinked(s, t, e, s.pcs[t].kind);
            && OthersSame(s, s', t)
            && Fields(s', f) == (if f == e then Entry(false, 0, false) else Fields(s, f))
            && (f != e ==> (f in s'.entries && f !in s'.list <==> f in s.entries && f !in s.list))
            && (f == e ==> (f in s'.entries && f !in s'.list <==> s.pcs[t].kind.Delete?))
            && (forall tie :: Tied(s'.pcs[t], f, tie) <==> tie.Frees? && f == e && s.pcs[t].kind.Delete?)
  {
    UnlinkMembers(s.list, IndexOf(s.list, s.pcs[t].e));
  }

  lemma UnlinkKeepsLedger(s: State, t: Tid, f: Eid)
    requires Safe(s) && t in s.pcs && s.pcs[t].Removing?
    requires s.pcs[t].e in s.list && !Fields(s, s.pcs[t].e).locked && Fields(s, s.pcs[t].e).waiting == 0
    ensures Ledger(Unlinked(s, t, s.pcs[t].e, s.pcs[t].kind), f)
  {
    var e := s.pcs[t].e;
    var s' := Unlinked(s, t, e, s.pcs[t].kind);
    UnlinkFields(s, t, f);
    MoveCounts(s, s', t);
    assert Ledger(s, f);
    if f == e {
      SomeThread(s, e, Removes, t);
    }
  }

  lemma UnlinkKeepsInv(s: State, t: Tid)
    requires Inv(s) && s.mutex.None? && t in s.pcs && s.pcs[t].Removing?
    requires s.pcs[t].e in s.list && !Fields(s, s.pcs[t].e).locked && Fields(s, s.pcs[t].e).waiting == 0
    ensures Inv(Unlinked(s, t, s.pcs[t].e, s.pcs[t].kind))
  {
    var e := s.pcs[t].e;
    var s' := Unlinked(s, t, e, s.pcs[t].kind);
    UnlinkKeepsSafe(s, t);
    UnlinkMembers(s.list, IndexOf(s.list, e));
    forall f ensures Alert(s', f) {
      if f == e {
        assert Ledger(s', e);
        UntiedIsAlert(s', e);
      } else {
        MoveKeepsAlert(s, s', t, f);
      }
    }
  }

  lemma RemoveKeepsInv(s: State, t: Tid)
    requires Inv(s) && s.mutex.None? && t in s.pcs && s.pcs[t].Removing?
    ensures s.pcs[t].e in s.list && s.pcs[t].e in s.entries
    ensures Inv(Remove(s, t, s.pcs[t].e, s.pcs[t].kind, s.pcs[t].stage))
  {
    RemoverFindsEntry(s, t);
    var en := s.entries[s.pcs[t].e];
    if s.pcs[t].stage.AwaitUnlock? && en.locked {
      SleepKeepsInv(s, t);
    } else if en.waiting > 0 {
      BroadcastKeepsInv(s, t);
    } else {
      UnlinkKeepsInv(s, t);
    }
  }

  // ---------------------------------------------------------------- the other operations

  /** A move between states that are tied to no entry. */
  lemma UntiedMoveKeepsInv(s: State, s': State, t: Tid)
    requires Inv(s) && OthersSame(s, s', t) && s'.list == s.list && s'.entries == s.entries
    requires s.pcs[t].Idle? || s.pcs[t].Flushing?
    requires s'.pcs[t].Idle? || s'.pcs[t].Flushing?
    requires MutexOwned(s')
    ensures Inv(s')
  {
    MoveCounts(s, s', t);
    forall f ensures Ledger(s', f) {
      assert Ledger(s, f);
    }
    forall f ensures Alert(s', f) {
      MoveKeepsAlert(s, s', t, f);
    }
  }

  lemma AddKeepsInv(s: State, t: Tid, e: Eid)
    requires Inv(s) && Enabled(s, Add(t, e))
    ensures Inv(Apply(s, Add(t, e)))
  {
    var s' := Apply(s, Add(t, e));
    MoveCounts(s, s', t);
    forall f ensures Ledger(s', f) {
      assert Ledger(s, f);
    }
    forall f ensures Alert(s', f) {
      if f == e {
        assert Ledger(s', e);
        UntiedIsAlert(s', e);
      } else {
        MoveKeepsAlert(s, s', t, f);
      }
    }
  }

  lemma FreeKeepsInv(s: State, t: Tid)
    requires Inv(s) && Enabled(s, Free(t))
    ensures Inv(Apply(s, Free(t)))
  {
    var e := s.pcs[t].e;
    var s' := Apply(s, Free(t));
    SomeThread(s, e, Frees, t);
    assert Ledger(s, e);
    MoveCounts(s, s', t);
    forall f ensures Ledger(s', f) {
      assert Ledger(s, f);
    }
    forall f ensures Alert(s', f) {
      MoveKeepsAlert(s, s', t, f);
    }
  }

  lemma FlushKeepsInv(s: State, t: Tid)
    requires Inv(s) && Enabled(s, FlushNext(t))
    ensures Inv(Apply(s, FlushNext(t)))
  {
    var next := s.pcs[t].next;
    var idle := Goto(s.(mutex := None), t, Idle);
    UntiedMoveKeepsInv(s, idle, t);
    if next < |s.list| {
      var e := s.list[next];
      if s.entries[e].awaits {
        UntiedMoveKeepsInv(s, Goto(s, t, Flushing(next + 1)), t);
      } else {
        BeginKeepsInv(idle, t, e, Flush);
        assert Begin(idle, t, e, Flush) == Begin(s.(mutex := None), t, e, Flush);
        RemoveKeepsInv(Begin(idle, t, e, Flush), t);
      }
    }
  }

  // ---------------------------------------------------------------- every run

  lemma StepKeepsInv(s: State, step: Step)
    requires Inv(s) && Enabled(s, step)
    ensures Inv(Apply(s, step))
  {
    match step
    case Add(t, e) => AddKeepsInv(s, t, e);
    case Enter(t, e, client, wake) => EnterKeepsInv(s, t, e, client, wake);
    case Retry(t, wake) => RetryKeepsInv(s, t, wake);
    case Checkin(t, wake) => CheckinKeepsInv(s, t, wake);
    case StartRemove(t, e, kind) =>
      if !s.entries[e].awaits {
        BeginKeepsInv(s, t, e, kind);
        RemoveKeepsInv(Begin(s, t, e, kind), t);
      }
    case RetryRemove(t) => RemoveKeepsInv(s, t);
    case StartFlush(t) => UntiedMoveKeepsInv(s, Apply(s, step), t);
    case FlushNext(t) => FlushKeepsInv(s, t);
    case Free(t) => FreeKeepsInv(s, t);
    case Spurious(t) =>
      WakingKeepsSafe(s, Apply(s, step));
      forall f ensures Alert(Apply(s, step), f) {
        WakingKeepsAlert(s, Apply(s, step), f);
      }
  }

  lemma InitHasInv(s: State)
    requires Init(s)
    ensures Inv(s)
  {
    forall e ensures Ledger(s, e) {
      forall tie ensures Threads(s, e, tie) == {} {}
    }
  }
}
