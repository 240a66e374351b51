/** Which lifetimes let the events of an SA get out of order: interleavings in which the timer
    overtakes the thread that holds the SA. */
module SaExpiryRuns {
  import opened Bytes
  import opened IpsecSa
  import opened SaProtocol
  import opened SaExample
  import opened SaExpiry
  import SaTimer

  const TIMER: Tid := 1

  /** The SA is checked out by one thread, and the other one is the timer. */
  function Held(x: SaState, jobs: map<Eid, U32>, calls: map<Tid, Call>, firing: Option<Firing>): World {
    World(Installed(true, false, Holding(SA), Idle), map[SA := x], jobs, calls, firing)
  }

  /** A run leads there in which the SA always has this lifetime. */
  ghost predicate Reachable(w: World, life: Lifetime) {
    exists ws: seq<World>, ms: seq<Move> :: Trace(ws, ms) && ws[|ms|] == w && HasLifetime(ws, SA, life)
  }

  lemma Next(w: World, m: Move, life: Lifetime)
    requires Reachable(w, life) && CanMove(w, m)
    requires SA in Moved(w, m).sas ==> Moved(w, m).sas[SA].lifetime == life
    ensures Reachable(Moved(w, m), life)
  {
    var ws: seq<World>, ms: seq<Move> :| Trace(ws, ms) && ws[|ms|] == w && HasLifetime(ws, SA, life);
    var ws', ms' := ws + [Moved(w, m)], ms + [m];
    forall i | 0 <= i < |ms'| ensures StepAt(ws', ms', i) {
      assert i < |ms| ==> StepAt(ws, ms, i);
    }
    assert Trace(ws', ms') && ws'[|ms'|] == Moved(w, m) && HasLifetime(ws', SA, life);
  }

  lemma CheckedOut(sa: SaState)
    requires Fresh(sa)
    ensures Reachable(Held(sa, Scheduled(map[], SA, sa), map[], None), sa.lifetime)
  {
    var w := World(Sample(0), map[], map[], map[], None);
    var ws, ms: seq<Move> := [w], [];
    assert Trace(ws, ms) && ws[|ms|] == w && HasLifetime(ws, SA, sa.lifetime);
    FirstSteps(0);
    Next(w, Manage(Taken(0), sa), sa.lifetime);
    var w1 := Moved(w, Manage(Taken(0), sa));
    FirstSteps(1);
    Next(w1, Manage(Taken(1), sa), sa.lifetime);
  }

  /** One of the limits of use that are set */
  function SomeLimit(life: Lifetime): U64 {
    if life.packets.life != 0 then life.packets.life
    else if life.packets.rekey != 0 then life.packets.rekey
    else if life.bytes.life != 0 then life.bytes.life
    else life.bytes.rekey
  }

  ghost predicate Unflagged(x: SaState) { !x.softExpired && !x.hardExpired && x.events == [] }

  /** Packets of one byte each until the holder calls expire and passes its test */
  lemma {:induction false} UseUp(x: SaState, jobs: map<Eid, U32>, life: Lifetime) returns (y: SaState, kind: Event)
    requires Reachable(Held(x, jobs, map[], None), life) && x.lifetime == life && Unflagged(x)
    requires x.packets == x.bytes < SomeLimit(life)
    ensures Reachable(Held(y, jobs, map[HOLDER := Call(SA, kind, false)], None), life)
    ensures y.lifetime == life && Unflagged(y)
    decreases SomeLimit(life) - x.packets
  {
    var w := Held(x, jobs, map[], None);
    Next(w, Record(HOLDER, 1), life);
    y := Counted(x, 1);
    assert w.sas[SA := y] == map[SA := y];
    if Due(y).Some? {
      kind := Due(y).value;
    } else {
      y, kind := UseUp(y, jobs, life);
    }
  }

  /** The timer fires and sends while the holder is past its test. */
  lemma TimerSends(x: SaState, c: Call, kind: Event, offset: U32, life: Lifetime)
    requires kind == KindOf(offset) && MayExpire(x, kind) && x.lifetime == life
    requires Reachable(Held(x, map[SA := offset], map[HOLDER := c], None), life)
    ensures Reachable(Held(Whole(x, kind), Rescheduled(map[SA := offset], SA), map[HOLDER := c],
                           Some(Firing(TIMER, SA, kind))), life)
  {
    var w := Held(x, map[SA := offset], map[HOLDER := c], None);
    Next(w, Fire(TIMER, SA), life);
    var w1 := Moved(w, Fire(TIMER, SA));
    Next(w1, Flag(TIMER), life);
    var w2 := Moved(w1, Flag(TIMER));
    Next(w2, Report(TIMER), life);
    var w3 := Moved(w2, Report(TIMER));
    assert w3.calls == map[HOLDER := c] && w3.sas == map[SA := Whole(x, kind)];
  }

  /** The holder then sets its flag and sends all the same. */
  lemma HolderSends(x: SaState, kind: Event, jobs: map<Eid, U32>, firing: Option<Firing>, life: Lifetime)
    requires x.lifetime == life
    requires Reachable(Held(x, jobs, map[HOLDER := Call(SA, kind, false)], firing), life)
    ensures Reachable(Held(Reported(Flagged(x, kind), kind), jobs, map[], firing), life)
  {
    var w := Held(x, jobs, map[HOLDER := Call(SA, kind, false)], firing);
    Next(w, Flag(HOLDER), life);
    var w1 := Moved(w, Flag(HOLDER));
    Next(w1, Report(HOLDER), life);
    var w2 := Moved(w1, Report(HOLDER));
    assert w2.calls == map[] && w2.sas == map[SA := Reported(Flagged(x, kind), kind)];
  }

  lemma SoftIsFinished(x: SaState, c: Call, jobs: map<Eid, U32>, life: Lifetime)
    requires x.lifetime == life
    requires Reachable(Held(x, jobs, map[HOLDER := c], Some(Firing(TIMER, SA, Soft))), life)
    ensures Reachable(Held(x, jobs, map[HOLDER := c], None), life)
  {
    Next(Held(x, jobs, map[HOLDER := c], Some(Firing(TIMER, SA, Soft))), Finish(TIMER), life);
  }

  /** What is reported in the end */
  function Disorder(offset: U32, kind: Event): seq<Event> {
    if offset == 0 then [Hard, kind] else if kind == Soft then [Soft, Soft] else [Soft, Hard, Hard]
  }

  lemma DisorderIsNoOrder(offset: U32, kind: Event)
    ensures Disorder(offset, kind) !in ORDERS
  {
    if offset == 0 {
      EventFits([Hard], kind);
      assert [Hard] + [kind] == [Hard, kind];
    } else if kind == Soft {
      EventFits([Soft], Soft);
      assert [Soft] + [Soft] == [Soft, Soft];
    } else {
      EventFits([Soft, Hard], Hard);
      assert [Soft, Hard] + [Hard] == [Soft, Hard, Hard];
    }
  }

  /** The holder is past its test when the timer fires: once, or a second time for the hard expiry. */
  lemma GetsOutOfOrder(x: SaState, kind: Event, offset: U32, life: Lifetime) returns (w: World)
    requires Unflagged(x) && x.lifetime == life
    requires Reachable(Held(x, map[SA := offset], map[HOLDER := Call(SA, kind, false)], None), life)
    ensures Reachable(w, life) && SA in w.sas && w.sas[SA].events == Disorder(offset, kind)
  {
    var c, first := Call(SA, kind, false), KindOf(offset);
    TimerSends(x, c, first, offset, life);
    var y, jobs := Whole(x, first), Rescheduled(map[SA := offset], SA);
    var firing := Some(Firing(TIMER, SA, first));
    if offset != 0 && kind == Hard {
      SoftIsFinished(y, c, jobs, life);
      assert jobs == map[SA := 0];
      TimerSends(y, c, Hard, 0, life);
      y, jobs, firing := Whole(y, Hard), Rescheduled(map[SA := 0], SA), Some(Firing(TIMER, SA, Hard));
    }
    HolderSends(y, kind, jobs, firing, life);
    w := Held(Reported(Flagged(y, kind), kind), jobs, map[], firing);
  }

  ghost predicate OrdersEvents(life: Lifetime) {
    forall ws: seq<World>, ms: seq<Move>, e | Trace(ws, ms) && HasLifetime(ws, e, life) :: AlwaysInOrder(ws, e)
  }

  lemma BothKindsDisorder(sa: SaState)
    requires Fresh(sa) && sa.lifetime.time.life != 0 && !SaTimer.NoUsageLimits(sa.lifetime)
    ensures !OrdersEvents(sa.lifetime)
  {
    var life := sa.lifetime;
    CheckedOut(sa);
    var offset := SaTimer.Schedule(life.time).value.hardOffset;
    assert Scheduled(map[], SA, sa) == map[SA := offset];
    var x, kind := UseUp(sa, map[SA := offset], life);
    var w := GetsOutOfOrder(x, kind, offset, life);
    var ws: seq<World>, ms: seq<Move> :| Trace(ws, ms) && ws[|ms|] == w && HasLifetime(ws, SA, life);
    DisorderIsNoOrder(offset, kind);
    assert !InOrder(ws[|ms|], SA);
  }

  /** In all interleavings, the SAs with this lifetime report nothing, soft, hard, or soft and then
      hard, if and only if only time or only use limits their life. */
  lemma LifetimeExactly(sa: SaState)
    requires Fresh(sa)
    ensures OrdersEvents(sa.lifetime) <==> sa.lifetime.time.life == 0 || SaTimer.NoUsageLimits(sa.lifetime)
  {
    if sa.lifetime.time.life == 0 || SaTimer.NoUsageLimits(sa.lifetime) {
      forall ws: seq<World>, ms: seq<Move>, e | Trace(ws, ms) && HasLifetime(ws, e, sa.lifetime)
        ensures AlwaysInOrder(ws, e)
      {
        OneKindIsInOrder(ws, ms, e, sa.lifetime);
      }
    } else {
      BothKindsDisorder(sa);
    }
  }

  /** An SA whose first packet reaches its rekey limit and whose timer knows only the hard expiry
      reports soft after hard. */
  lemma SoftAfterHard(sa: SaState)
    requires Fresh(sa) && sa.lifetime == Lifetime(Limit(10, 0), Limit(0, 0), Limit(0, 1))
    ensures exists ws: seq<World>, ms: seq<Move> ::
              Trace(ws, ms) && SA in ws[|ms|].sas && ws[|ms|].sas[SA].events == [Hard, Soft]
  {
    var life := sa.lifetime;
    CheckedOut(sa);
    assert Scheduled(map[], SA, sa) == map[SA := 0];
    var w := Held(sa, map[SA := 0], map[], None);
    Next(w, Record(HOLDER, 1), life);
    var x := Counted(sa, 1);
    assert w.sas[SA := x] == map[SA := x];
    var w' := GetsOutOfOrder(x, Soft, 0, life);
    var ws: seq<World>, ms: seq<Move> :| Trace(ws, ms) && ws[|ms|] == w' && HasLifetime(ws, SA, life);
  }
}
