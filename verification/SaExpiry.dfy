/** Expiry of an SA by several threads (expire and update_usestats of ipsec_sa.c over
    ipsec_sa_mgr.c).  A thread that holds an SA counts its use without the mutex of the manager;
    sa_expired expires an SA under that mutex without checking it out.  So the test, the setting of
    the flag and the sending of the event in expire are three steps, and others run in between. */
module SaExpiry {
  import opened Bytes
  import opened IpsecSa
  import opened SaProtocol
  import opened SaRuns
  import SaTimer

  // ---------------------------------------------------------------- the parts of expire

  /** The test of expire */
  predicate MayExpire(sa: SaState, kind: Event) { !sa.hardExpired && (kind == Hard || !sa.softExpired) }

  function Flagged(sa: SaState, kind: Event): SaState {
    if kind == Hard then sa.(hardExpired := true) else sa.(softExpired := true)
  }

  function Reported(sa: SaState, kind: Event): SaState { sa.(events := sa.events + [kind]) }

  /** update_usestats up to its calls of expire, and the call it makes */
  function Counted(sa: SaState, bytes: U32): SaState {
    sa.(packets := ToU64(sa.packets + 1), bytes := ToU64(sa.bytes + bytes))
  }

  function Due(sa: SaState): Option<Event> {
    if Reaches(sa.lifetime.packets.life, sa.packets) || Reaches(sa.lifetime.bytes.life, sa.bytes) then Some(Hard)
    else if Reaches(sa.lifetime.packets.rekey, sa.packets) || Reaches(sa.lifetime.bytes.rekey, sa.bytes) then Some(Soft)
    else None
  }

  function Whole(sa: SaState, kind: Event): SaState {
    if MayExpire(sa, kind) then Reported(Flagged(sa, kind), kind) else sa
  }

  /** Without anybody in between, the parts make up the operations of one thread. */
  lemma PartsMakeUp(sa: SaState, bytes: U32, kind: Event)
    ensures Expired(sa, kind == Hard) == Whole(sa, kind)
    ensures var c := Counted(sa, bytes);
            Used(sa, bytes) == if Due(c).None? then c else Whole(c, Due(c).value)
  {
  }

  // ---------------------------------------------------------------- threads

  /** A call of expire past its test; `flagged` after it has set the flag */
  datatype Call = Call(e: Eid, kind: Event, flagged: bool)

  /** A thread in sa_expired, which has the mutex */
  datatype Firing = Firing(t: Tid, e: Eid, kind: Event)

  /** `jobs` are the pending timers: the hard offset of the job of each SA that has one. */
  datatype World = World(s: State, sas: map<Eid, SaState>, jobs: map<Eid, U32>, calls: map<Tid, Call>,
                         firing: Option<Firing>)

  /** schedule_expiration for an SA that is installed under this entry */
  function Scheduled(jobs: map<Eid, U32>, e: Eid, sa: SaState): map<Eid, U32> {
    match SaTimer.Schedule(sa.lifetime.time)
    case Some(job) => jobs[e := job.hardOffset]
    case None => jobs - {e}
  }

  /** What sa_expired makes of its job: scheduled again for the hard expiry, or done */
  function Rescheduled(jobs: map<Eid, U32>, e: Eid): map<Eid, U32>
    requires e in jobs
  {
    if jobs[e] != 0 then jobs[e := 0] else jobs - {e}
  }

  function KindOf(hardOffset: U32): Event { if hardOffset == 0 then Hard else Soft }

  /** A step of the SA manager (with the SA that add_sa installs); update_usestats by a holder up to
      the test; sa_expired up to the test; the two parts of expire behind the test; the rest of
      sa_expired */
  datatype Move =
    | Manage(step: Step, sa: SaState)
    | Record(t: Tid, bytes: U32)
    | Fire(t: Tid, e: Eid)
    | Flag(t: Tid)
    | Report(t: Tid)
    | Finish(t: Tid)

  predicate CanMove(w: World, m: Move) {
    match m
    case Manage(step, sa) =>
      && Enabled(w.s, step) && step.t !in w.calls && (step.Add? ==> Fresh(sa))
      && (w.firing.None? || step.Free? || step.Spurious?)
    case Record(t, _) =>
      t in w.s.pcs && w.s.pcs[t].Holding? && t !in w.calls && w.s.pcs[t].e in w.sas
    case Fire(t, e) =>
      && t in w.s.pcs && w.s.pcs[t].Idle? && t !in w.calls && e in w.jobs
      && w.firing.None? && w.s.mutex.None? && e in w.s.list && e in w.sas
    case Flag(t) => t in w.calls && !w.calls[t].flagged && w.calls[t].e in w.sas
    case Report(t) => t in w.calls && w.calls[t].flagged && w.calls[t].e in w.sas
    case Finish(t) =>
      && w.firing.Some? && w.firing.value.t == t && t !in w.calls
      && (w.firing.value.kind == Hard ==> Enabled(w.s, StartRemove(t, w.firing.value.e, Expire)))
  }

  /** The test of expire; who passes it goes on. */
  function Tested(w: World, t: Tid, e: Eid, kind: Event): World
    requires e in w.sas
  {
    if MayExpire(w.sas[e], kind) then w.(calls := w.calls[t := Call(e, kind, false)]) else w
  }

  function Moved(w: World, m: Move): World
    requires CanMove(w, m)
  {
    match m
    case Manage(step, sa) =>
      var w1 := w.(s := Apply(w.s, step));
      if step.Add? then w1.(sas := w.sas[step.e := sa], jobs := Scheduled(w.jobs, step.e, sa)) else w1
    case Record(t, bytes) =>
      var e := w.s.pcs[t].e;
      var sa := Counted(w.sas[e], bytes);
      var w1 := w.(sas := w.sas[e := sa]);
      if Due(sa).None? then w1 else Tested(w1, t, e, Due(sa).value)
    case Fire(t, e) =>
      var kind := KindOf(w.jobs[e]);
      Tested(w.(firing := Some(Firing(t, e, kind)), jobs := Rescheduled(w.jobs, e)), t, e, kind)
    case Flag(t) =>
      var c := w.calls[t];
      w.(sas := w.sas[c.e := Flagged(w.sas[c.e], c.kind)], calls := w.calls[t := c.(flagged := true)])
    case Report(t) =>
      var c := w.calls[t];
      w.(sas := w.sas[c.e := Reported(w.sas[c.e], c.kind)], calls := w.calls - {t})
    case Finish(t) =>
      var f := w.firing.value;
      var w1 := w.(firing := None);
      if f.kind == Hard then w1.(s := Apply(w.s, StartRemove(t, f.e, Expire))) else w1
  }

  // ---------------------------------------------------------------- moves of one thread in a row

  /** Who is inside of expire sets the flag and sends the event. */
  ghost function Through(w: World, t: Tid): World {
    if t !in w.calls || w.calls[t].flagged || w.calls[t].e !in w.sas then w
    else Moved(Moved(w, Flag(t)), Report(t))
  }

  /** Without anybody in between, a holder that records a use has done update_usestats, and nothing
      else has changed. */
  lemma UseInOneGo(w: World, t: Tid, bytes: U32)
    requires CanMove(w, Record(t, bytes))
    ensures var e := w.s.pcs[t].e;
            Through(Moved(w, Record(t, bytes)), t) == w.(sas := w.sas[e := Used(w.sas[e], bytes)])
  {
    var e, c := w.s.pcs[t].e, Counted(w.sas[w.s.pcs[t].e], bytes);
    PartsMakeUp(w.sas[e], bytes, Hard);
    if Due(c).Some? {
      TestedInOneGo(w.(sas := w.sas[e := c]), t, e, Due(c).value);
      assert w.sas[e := c][e := Whole(c, Due(c).value)] == w.sas[e := Whole(c, Due(c).value)];
    }
  }

  lemma TestedInOneGo(w: World, t: Tid, e: Eid, kind: Event)
    requires e in w.sas && t !in w.calls
    ensures Through(Tested(w, t, e, kind), t) == w.(sas := w.sas[e := Whole(w.sas[e], kind)])
  {
    var call := Call(e, kind, false);
    assert w.calls[t := call][t := call.(flagged := true)] - {t} == w.calls;
    assert w.sas[e := Flagged(w.sas[e], kind)][e := Reported(Flagged(w.sas[e], kind), kind)]
           == w.sas[e := Reported(Flagged(w.sas[e], kind), kind)];
    assert w.sas[e := w.sas[e]] == w.sas;
  }

  /** sa_expired in a row: the SA is expired, soft while a hard offset is left, and then the job waits
      for that, or is gone and the removal of the SA begins. */
  lemma FireInOneGo(w: World, t: Tid, e: Eid)
    requires CanMove(w, Fire(t, e)) && e in w.s.entries
    ensures var hard := w.jobs[e] == 0;
            var w1 := Through(Moved(w, Fire(t, e)), t);
            && CanMove(w1, Finish(t))
            && Moved(w1, Finish(t))
               == w.(sas := w.sas[e := Expired(w.sas[e], hard)], jobs := if hard then w.jobs - {e} else w.jobs[e := 0],
                     s := if hard then Apply(w.s, StartRemove(t, e, Expire)) else w.s)
  {
    var kind := KindOf(w.jobs[e]);
    PartsMakeUp(w.sas[e], 0, kind);
    TestedInOneGo(w.(firing := Some(Firing(t, e, kind)), jobs := Rescheduled(w.jobs, e)), t, e, kind);
  }

  // ---------------------------------------------------------------- the invariant

  /** What has been sent is flagged. */
  ghost predicate Backed(sa: SaState) {
    (Soft in sa.events ==> sa.softExpired) && (Hard in sa.events ==> sa.hardExpired)
  }

  predicate HasFlag(sa: SaState, kind: Event) { if kind == Hard then sa.hardExpired else sa.softExpired }

  /** The call is from sa_expired. */
  predicate FromTimer(w: World, t: Tid) {
    t in w.calls && w.firing.Some? && w.firing.value.t == t && w.firing.value.e == w.calls[t].e
  }

  /** A thread expires an SA that it holds, or that its timer is about. */
  ghost predicate Entitled(w: World, t: Tid) {
    && t in w.calls && w.calls[t].e in w.s.entries && w.calls[t].e in w.sas
    && (HoldsAt(w.s, t, w.calls[t].e) || FromTimer(w, t))
    && (w.calls[t].flagged ==> HasFlag(w.sas[w.calls[t].e], w.calls[t].kind))
  }

  ghost predicate Sound(w: World) {
    && Inv(w.s)
    && (forall e | e in w.s.entries :: e in w.sas)
    && (forall e | e in w.sas :: Backed(w.sas[e]))
    && (forall t | t in w.calls :: Entitled(w, t))
    && (w.firing.Some? ==> w.firing.value.e in w.s.list && w.s.mutex.None?)
  }

  lemma ManageKeepsSound(w: World, step: Step, sa: SaState)
    requires Sound(w) && CanMove(w, Manage(step, sa))
    ensures Sound(Moved(w, Manage(step, sa)))
  {
    var w' := Moved(w, Manage(step, sa));
    StepKeepsInv(w.s, step);
    forall e | e in w'.s.entries ensures e in w'.sas {
      EntriesStay(w.s, step, e);
    }
    forall t | t in w'.calls ensures Entitled(w', t) {
      assert Entitled(w, t);
      if HoldsAt(w.s, t, w.calls[t].e) {
        OthersKeepHolding(w.s, step, t);
        HolderIsListed(w'.s, t);
      }
    }
  }

  lemma FinishKeepsSound(w: World, t: Tid)
    requires Sound(w) && CanMove(w, Finish(t))
    ensures Sound(Moved(w, Finish(t)))
  {
    var w', f := Moved(w, Finish(t)), w.firing.value;
    if f.kind == Hard {
      var step := StartRemove(t, f.e, Expire);
      StepKeepsInv(w.s, step);
      forall e | e in w'.s.entries ensures e in w'.sas {
        EntriesStay(w.s, step, e);
      }
      forall u | u in w'.calls ensures Entitled(w', u) {
        assert Entitled(w, u);
        OthersKeepHolding(w.s, step, u);
        HolderIsListed(w'.s, u);
      }
    } else {
      forall u | u in w'.calls ensures Entitled(w', u) {
        assert Entitled(w, u);
      }
    }
  }

  lemma RecordKeepsSound(w: World, t: Tid, bytes: U32)
    requires Sound(w) && CanMove(w, Record(t, bytes))
    ensures Sound(Moved(w, Record(t, bytes)))
  {
    var w' := Moved(w, Record(t, bytes));
    HolderIsListed(w.s, t);
    forall u | u in w'.calls ensures Entitled(w', u) {
      assert u in w.calls ==> Entitled(w, u);
    }
    forall e | e in w'.sas ensures Backed(w'.sas[e]) {
      assert Backed(w.sas[e]);
    }
  }

  lemma FireKeepsSound(w: World, t: Tid, e: Eid)
    requires Sound(w) && CanMove(w, Fire(t, e))
    ensures Sound(Moved(w, Fire(t, e)))
  {
    var w' := Moved(w, Fire(t, e));
    forall u | u in w'.calls ensures Entitled(w', u) {
      assert u in w.calls ==> Entitled(w, u);
    }
  }

  lemma FlagKeepsSound(w: World, t: Tid)
    requires Sound(w) && CanMove(w, Flag(t))
    ensures Sound(Moved(w, Flag(t)))
  {
    var w' := Moved(w, Flag(t));
    forall u | u in w'.calls ensures Entitled(w', u) {
      assert Entitled(w, u);
    }
    forall e | e in w'.sas ensures Backed(w'.sas[e]) {
      assert Backed(w.sas[e]);
    }
  }

  lemma ReportKeepsSound(w: World, t: Tid)
    requires Sound(w) && CanMove(w, Report(t))
    ensures Sound(Moved(w, Report(t)))
  {
    var w' := Moved(w, Report(t));
    forall u | u in w'.calls ensures Entitled(w', u) {
      assert Entitled(w, u);
    }
    forall e | e in w'.sas ensures Backed(w'.sas[e]) {
      assert Backed(w.sas[e]) && Entitled(w, t);
    }
  }

  lemma MoveKeepsSound(w: World, m: Move)
    requires Sound(w) && CanMove(w, m)
    ensures Sound(Moved(w, m))
  {
    match m
    case Manage(step, sa) => ManageKeepsSound(w, step, sa);
    case Record(t, bytes) => RecordKeepsSound(w, t, bytes);
    case Fire(t, e) => FireKeepsSound(w, t, e);
    case Flag(t) => FlagKeepsSound(w, t);
    case Report(t) => ReportKeepsSound(w, t);
    case Finish(t) => FinishKeepsSound(w, t);
  }

  // ---------------------------------------------------------------- runs

  ghost predicate StepAt(ws: seq<World>, ms: seq<Move>, i: nat)
    requires i < |ms| < |ws|
  {
    CanMove(ws[i], ms[i]) && ws[i + 1] == Moved(ws[i], ms[i])
  }

  /** The states and moves of a run from an empty SA manager on */
  ghost predicate Trace(ws: seq<World>, ms: seq<Move>) {
    && |ws| == |ms| + 1
    && Init(ws[0].s) && ws[0].sas == map[] && ws[0].jobs == map[] && ws[0].calls == map[] && ws[0].firing.None?
    && forall i | 0 <= i < |ms| :: StepAt(ws, ms, i)
  }

  lemma {:induction false} TraceIsSound(ws: seq<World>, ms: seq<Move>, n: nat)
    requires Trace(ws, ms) && n < |ws|
    ensures Sound(ws[n])
  {
    if n == 0 {
      InitHasInv(ws[0].s);
    } else {
      TraceIsSound(ws, ms, n - 1);
      assert StepAt(ws, ms, n - 1);
      MoveKeepsSound(ws[n - 1], ms[n - 1]);
    }
  }

  /** A thread is past the test of expire from moment `i` to moment `n`. */
  ghost predicate InsideFrom(ws: seq<World>, t: Tid, i: nat, n: nat) {
    n < |ws| && forall k | i <= k <= n :: t in ws[k].calls
  }

  /** At moment `j` an event is sent for an SA. */
  ghost predicate SendsAt(ws: seq<World>, ms: seq<Move>, j: nat, e: Eid, kind: Event) {
    && j < |ms| && j < |ws| && ms[j].Report? && ms[j].t in ws[j].calls
    && ws[j].calls[ms[j].t].e == e && ws[j].calls[ms[j].t].kind == kind
  }

  /** Nothing may follow hard, and soft may not follow soft. */
  predicate Spoils(kind: Event, earlier: Event) { kind == Soft || earlier == Hard }

  /** The call on SA `e` that sends at moment `l` has been overtaken at moment `j`: while it was past
      its test, another call on that SA sent its event.  Only soft may overtake hard. */
  ghost predicate Overtaken(ws: seq<World>, ms: seq<Move>, e: Eid, j: nat, l: nat) {
    exists kind, earlier ::
      && SendsAt(ws, ms, l, e, kind) && SendsAt(ws, ms, j, e, earlier) && Spoils(kind, earlier)
      && j < l && InsideFrom(ws, ms[l].t, j, l)
  }

  const ORDERS: seq<seq<Event>> := [[], [Soft], [Hard], [Soft, Hard]]

  // ---------------------------------------------------------------- what a call finds

  /** When a call passes its test, nothing that spoils it has been sent. */
  lemma CallIsNew(w: World, m: Move, t: Tid)
    requires Sound(w) && CanMove(w, m) && t in Moved(w, m).calls && t !in w.calls
    ensures var c := Moved(w, m).calls[t];
            c.e in Moved(w, m).sas && forall x | x in Moved(w, m).sas[c.e].events :: !Spoils(c.kind, x)
  {
    var c := Moved(w, m).calls[t];
    assert (m.Record? || m.Fire?) && Backed(w.sas[c.e]) && MayExpire(w.sas[c.e], c.kind);
    forall x | x in w.sas[c.e].events ensures !Spoils(c.kind, x) {
      assert x == Soft || x == Hard;
    }
  }

  /** What a move sends for an SA */
  function SentBy(w: World, m: Move, e: Eid): seq<Event>
    requires CanMove(w, m)
  {
    if m.Report? && w.calls[m.t].e == e then [w.calls[m.t].kind] else []
  }

  lemma ManageGoesOn(w: World, step: Step, sa: SaState, t: Tid)
    requires Sound(w) && CanMove(w, Manage(step, sa)) && t in w.calls
    ensures var w', e := Moved(w, Manage(step, sa)), w.calls[t].e;
            w'.calls == w.calls && e in w.sas && e in w'.sas && w'.sas[e] == w.sas[e]
  {
    assert Entitled(w, t);
  }

  /** The call is for the same SA and of the same kind, and `sent` has been sent for that SA. */
  ghost predicate GoesOn(w: World, w': World, t: Tid, sent: seq<Event>) {
    && t in w.calls && t in w'.calls && w'.calls[t].e == w.calls[t].e && w'.calls[t].kind == w.calls[t].kind
    && var e := w.calls[t].e; e in w.sas && e in w'.sas && w'.sas[e].events == w.sas[e].events + sent
  }

  lemma ReportGoesOn(w: World, u: Tid, t: Tid)
    requires Sound(w) && CanMove(w, Report(u)) && t in Moved(w, Report(u)).calls
    ensures GoesOn(w, Moved(w, Report(u)), t, SentBy(w, Report(u), w.calls[t].e))
  {
    assert Entitled(w, t);
  }

  lemma RecordGoesOn(w: World, u: Tid, bytes: U32, t: Tid)
    requires Sound(w) && CanMove(w, Record(u, bytes)) && t in w.calls
    ensures GoesOn(w, Moved(w, Record(u, bytes)), t, [])
  {
    assert Entitled(w, t);
  }

  lemma QuietGoesOn(w: World, m: Move, t: Tid)
    requires Sound(w) && CanMove(w, m) && (m.Fire? || m.Flag? || m.Finish?) && t in w.calls
    ensures GoesOn(w, Moved(w, m), t, [])
  {
    assert Entitled(w, t);
  }

  /** While a call goes on, what has been sent for its SA changes only by what is sent. */
  lemma CallGoesOn(w: World, m: Move, t: Tid)
    requires Sound(w) && CanMove(w, m) && t in Moved(w, m).calls && t in w.calls
    ensures GoesOn(w, Moved(w, m), t, SentBy(w, m, w.calls[t].e))
  {
    match m
    case Manage(step, sa) => ManageGoesOn(w, step, sa, t);
    case Record(u, bytes) => RecordGoesOn(w, u, bytes, t);
    case Report(u) => ReportGoesOn(w, u, t);
    case _ => QuietGoesOn(w, m, t);
  }

  /** The same along a run */
  lemma CallInRun(ws: seq<World>, ms: seq<Move>, p: nat, t: Tid)
    requires Trace(ws, ms) && p < |ms| && t in ws[p + 1].calls
    ensures var e, kind := ws[p + 1].calls[t].e, ws[p + 1].calls[t].kind;
            && e in ws[p + 1].sas
            && (t !in ws[p].calls ==> forall x | x in ws[p + 1].sas[e].events :: !Spoils(kind, x))
            && (t in ws[p].calls ==>
                  && ws[p].calls[t].e == e && ws[p].calls[t].kind == kind && e in ws[p].sas
                  && forall x :: x in ws[p + 1].sas[e].events <==> x in ws[p].sas[e].events || SendsAt(ws, ms, p, e, x))
  {
    assert StepAt(ws, ms, p);
    TraceIsSound(ws, ms, p);
    if t in ws[p].calls {
      CallGoesOn(ws[p], ms[p], t);
    } else {
      CallIsNew(ws[p], ms[p], t);
    }
  }

  /** What spoils a call has been sent while it was past its test. */
  lemma {:induction false} SpoilersOvertake(ws: seq<World>, ms: seq<Move>, n: nat, t: Tid, x: Event)
      returns (j: nat)
    requires Trace(ws, ms) && n < |ws| && t in ws[n].calls && ws[n].calls[t].e in ws[n].sas
    requires x in ws[n].sas[ws[n].calls[t].e].events && Spoils(ws[n].calls[t].kind, x)
    ensures j < n && SendsAt(ws, ms, j, ws[n].calls[t].e, x) && InsideFrom(ws, t, j, n)
  {
    j := n - 1;
    CallInRun(ws, ms, j, t);
    if x in ws[j].sas[ws[j].calls[t].e].events {
      j := SpoilersOvertake(ws, ms, j, t, x);
    }
  }

  /** What was sent while a call was past its test is there when it sends. */
  lemma {:induction false} SentStays(ws: seq<World>, ms: seq<Move>, j: nat, n: nat, t: Tid, e: Eid, x: Event)
    requires Trace(ws, ms) && j < n && SendsAt(ws, ms, j, e, x) && InsideFrom(ws, t, j, n)
    requires ws[n].calls[t].e == e
    ensures e in ws[n].sas && x in ws[n].sas[e].events
    decreases n
  {
    var p := n - 1;
    CallInRun(ws, ms, p, t);
    assert t in ws[p].calls;
    if j < p {
      SentStays(ws, ms, j, p, t, e, x);
    }
  }

  lemma {:induction false} CallKeeps(ws: seq<World>, ms: seq<Move>, j: nat, n: nat, t: Tid)
    requires Trace(ws, ms) && j <= n && InsideFrom(ws, t, j, n)
    ensures ws[j].calls[t].e == ws[n].calls[t].e
  {
    if j < n {
      CallKeeps(ws, ms, j, n - 1, t);
      CallInRun(ws, ms, n - 1, t);
    }
  }

  // ---------------------------------------------------------------- the order of the events

  ghost predicate InOrder(w: World, e: Eid) { e in w.sas ==> w.sas[e].events in ORDERS }

  ghost predicate AlwaysInOrder(ws: seq<World>, e: Eid) { forall n | 0 <= n < |ws| :: InOrder(ws[n], e) }

  ghost predicate NeverOvertaken(ws: seq<World>, ms: seq<Move>, e: Eid) {
    forall j: nat, l: nat :: !Overtaken(ws, ms, e, j, l)
  }

  lemma EventFits(events: seq<Event>, kind: Event)
    requires events in ORDERS
    ensures events + [kind] in ORDERS <==> forall x | x in events :: !Spoils(kind, x)
  {
    var after := events + [kind];
    assert after == if events == [] then [kind] else if |events| == 1 then [events[0], kind] else [Soft, Hard, kind];
    assert events != [] ==> events[|events| - 1] in events;
  }

  lemma {:induction false} StaysInOrder(ws: seq<World>, ms: seq<Move>, e: Eid, n: nat)
    requires Trace(ws, ms) && n < |ws| && NeverOvertaken(ws, ms, e)
    ensures InOrder(ws[n], e)
  {
    if n > 0 {
      var p := n - 1;
      StaysInOrder(ws, ms, e, p);
      assert StepAt(ws, ms, p);
      if ms[p].Report? && ws[p].calls[ms[p].t].e == e {
        SendsInOrder(ws, ms, e, p);
      }
    }
  }

  lemma SpoiledIsOvertaken(ws: seq<World>, ms: seq<Move>, p: nat, e: Eid, kind: Event, x: Event) returns (j: nat)
    requires Trace(ws, ms) && SendsAt(ws, ms, p, e, kind) && e in ws[p].sas
    requires x in ws[p].sas[e].events && Spoils(kind, x)
    ensures Overtaken(ws, ms, e, j, p)
  {
    j := SpoilersOvertake(ws, ms, p, ms[p].t, x);
  }

  lemma SendsInOrder(ws: seq<World>, ms: seq<Move>, e: Eid, p: nat)
    requires Trace(ws, ms) && p < |ms| && NeverOvertaken(ws, ms, e) && InOrder(ws[p], e)
    requires ms[p].Report? && ms[p].t in ws[p].calls && ws[p].calls[ms[p].t].e == e
    ensures InOrder(ws[p + 1], e)
  {
    assert StepAt(ws, ms, p);
    var kind := ws[p].calls[ms[p].t].kind;
    assert SendsAt(ws, ms, p, e, kind);
    forall x | x in ws[p].sas[e].events ensures !Spoils(kind, x) {
      if Spoils(kind, x) {
        var j := SpoiledIsOvertaken(ws, ms, p, e, kind, x);
        assert false;
      }
    }
    EventFits(ws[p].sas[e].events, kind);
  }

  lemma OvertakenSpoils(ws: seq<World>, ms: seq<Move>, e: Eid, j: nat, l: nat)
    requires Trace(ws, ms) && Overtaken(ws, ms, e, j, l)
    ensures l + 1 < |ws| && (!InOrder(ws[l], e) || !InOrder(ws[l + 1], e))
  {
    var kind, x :| && SendsAt(ws, ms, l, e, kind) && SendsAt(ws, ms, j, e, x) && Spoils(kind, x)
                   && j < l && InsideFrom(ws, ms[l].t, j, l);
    SentStays(ws, ms, j, l, ms[l].t, e, x);
    assert StepAt(ws, ms, l);
    assert ws[l + 1].sas[e].events == ws[l].sas[e].events + [kind];
    if ws[l].sas[e].events in ORDERS {
      EventFits(ws[l].sas[e].events, kind);
    }
  }

  /** In every interleaving of any number of threads: an SA reports nothing, soft, hard, or soft and
      then hard at all times, if and only if no call is overtaken between its test and its event,
      except a hard one by a soft one. */
  lemma EventsExactly(ws: seq<World>, ms: seq<Move>, e: Eid)
    requires Trace(ws, ms)
    ensures AlwaysInOrder(ws, e) <==> NeverOvertaken(ws, ms, e)
  {
    if NeverOvertaken(ws, ms, e) {
      forall n | 0 <= n < |ws| ensures InOrder(ws[n], e) {
        StaysInOrder(ws, ms, e, n);
      }
    } else {
      var j: nat, l: nat :| Overtaken(ws, ms, e, j, l);
      OvertakenSpoils(ws, ms, e, j, l);
    }
  }

  /** When one call overtakes another, one is from a holder of the SA and one from its timer. */
  lemma TimerIsInvolved(ws: seq<World>, ms: seq<Move>, e: Eid, j: nat, l: nat)
    requires Trace(ws, ms) && Overtaken(ws, ms, e, j, l)
    ensures j < |ws| && exists t, u | t != u ::
              && FromTimer(ws[j], t) && ws[j].calls[t].e == e
              && u in ws[j].calls && ws[j].calls[u].e == e && HoldsAt(ws[j].s, u, e)
  {
    TraceIsSound(ws, ms, j);
    assert StepAt(ws, ms, j);
    var w, t, u := ws[j], ms[l].t, ms[j].t;
    assert t in ws[j + 1].calls && t != u;
    assert t in w.calls && Entitled(w, t) && Entitled(w, u);
    CallKeeps(ws, ms, j, l, t);
    if HoldsAt(w.s, t, e) && HoldsAt(w.s, u, e) {
      OneHolder(w.s, t, u);
    }
    assert FromTimer(w, t) || FromTimer(w, u);
    assert HoldsAt(w.s, t, e) || HoldsAt(w.s, u, e);
  }

  // ---------------------------------------------------------------- lifetimes without overtaking

  ghost predicate HasLifetime(ws: seq<World>, e: Eid, life: Lifetime) {
    forall n | 0 <= n < |ws| && e in ws[n].sas :: ws[n].sas[e].lifetime == life
  }

  lemma {:induction false} NoLifeNoTimer(ws: seq<World>, ms: seq<Move>, e: Eid, life: Lifetime, n: nat)
    requires Trace(ws, ms) && HasLifetime(ws, e, life) && life.time.life == 0 && n < |ws|
    ensures e !in ws[n].jobs && (ws[n].firing.Some? ==> ws[n].firing.value.e != e)
  {
    if n > 0 {
      NoLifeNoTimer(ws, ms, e, life, n - 1);
      assert StepAt(ws, ms, n - 1);
      assert e in ws[n].sas ==> ws[n].sas[e].lifetime == life;
    }
  }

  ghost predicate OnlyTimer(w: World, e: Eid) {
    forall t | t in w.calls && w.calls[t].e == e :: FromTimer(w, t)
  }

  lemma {:induction false} NoLimitsNoCalls(ws: seq<World>, ms: seq<Move>, e: Eid, life: Lifetime, n: nat)
    requires Trace(ws, ms) && HasLifetime(ws, e, life) && SaTimer.NoUsageLimits(life) && n < |ws|
    ensures OnlyTimer(ws[n], e)
  {
    if n > 0 {
      NoLimitsNoCalls(ws, ms, e, life, n - 1);
      assert StepAt(ws, ms, n - 1);
      OnlyTimerStays(ws[n - 1], ms[n - 1], e, life);
    }
  }

  lemma OnlyTimerStays(w: World, m: Move, e: Eid, life: Lifetime)
    requires CanMove(w, m) && OnlyTimer(w, e)
    requires SaTimer.NoUsageLimits(life) && (e in w.sas ==> w.sas[e].lifetime == life)
    ensures OnlyTimer(Moved(w, m), e)
  {
  }

  /** An SA with only one kind of limit, of time or of use, reports its events in order. */
  lemma OneKindIsInOrder(ws: seq<World>, ms: seq<Move>, e: Eid, life: Lifetime)
    requires Trace(ws, ms) && HasLifetime(ws, e, life)
    requires life.time.life == 0 || SaTimer.NoUsageLimits(life)
    ensures AlwaysInOrder(ws, e)
  {
    forall j: nat, l: nat ensures !Overtaken(ws, ms, e, j, l) {
      if Overtaken(ws, ms, e, j, l) {
        TimerIsInvolved(ws, ms, e, j, l);
        if life.time.life == 0 {
          NoLifeNoTimer(ws, ms, e, life, j);
        } else {
          NoLimitsNoCalls(ws, ms, e, life, j);
        }
        assert false;
      }
    }
    EventsExactly(ws, ms, e);
  }
}
