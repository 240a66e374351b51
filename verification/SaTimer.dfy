/** The expiry timer of an SA (schedule_expiration and sa_expired of ipsec_sa_mgr.c): one job that
    expires the SA softly, reschedules itself, and then expires it for good and removes it. */
module SaTimer {
  import opened Bytes
  import opened Lists
  import opened EspContext
  import opened IpsecSa

  /** A pending sa_expired job: when it is due, and the delay until the hard expiry (0: it is one) */
  datatype Job = Job(due: nat, hardOffset: U32)

  datatype Firing = Firing(at: nat, event: Event)

  /** An SA since its installation at time 0, the pending job, and the events it has sent.  `deleted`
      tells that something else has removed the SA. */
  datatype Timed = Timed(sa: SaState, installed: bool, deleted: bool, job: Option<Job>, now: nat, log: seq<Firing>)

  // ---------------------------------------------------------------- steps

  /** schedule_expiration; the lifetimes are 64 bits wide, the timer takes 32 bits. */
  function Schedule(time: Limit): Option<Job> {
    if time.life == 0 then None
    else if time.life <= time.rekey || time.rekey == 0 then Some(Job(ToU32(time.life), 0))
    else Some(Job(ToU32(time.rekey), ToU32(time.life - time.rekey)))
  }

  function Install(sa: SaState): Timed {
    Timed(sa, true, false, Schedule(sa.lifetime.time), 0, [])
  }

  function Stamped(events: seq<Event>, now: nat): (r: seq<Firing>)
    ensures |r| == |events| && forall i | 0 <= i < |r| :: r[i] == Firing(now, events[i])
  {
    seq(|events|, i requires 0 <= i < |events| => Firing(now, events[i]))
  }

  /** The SA has become `sa`; whatever it has sent meanwhile is logged with the time. */
  function Became(t: Timed, sa: SaState): Timed
    requires |t.sa.events| <= |sa.events|
  {
    t.(sa := sa, log := t.log + Stamped(sa.events[|t.sa.events|..], t.now))
  }

  /** sa_expired: nothing if the SA is gone; otherwise it is expired, and either the job is
      scheduled again or the SA is removed. */
  function Fired(t: Timed): Timed
    requires t.job.Some?
  {
    var offset := t.job.value.hardOffset;
    if !t.installed then t.(job := None)
    else if offset != 0 then Became(t, Expired(t.sa, false)).(job := Some(Job(t.now + offset, 0)))
    else Became(t, Expired(t.sa, true)).(job := None, installed := false)
  }

  datatype Step = Pass(seconds: nat) | Use(bytes: U32) | Fire | Delete

  /** Time does not pass over a job that is due. */
  predicate Enabled(t: Timed, step: Step) {
    match step
    case Pass(n) => t.job.None? || t.now + n <= t.job.value.due
    case Use(_) => t.installed
    case Fire => t.job.Some? && t.job.value.due == t.now
    case Delete => t.installed
  }

  function Apply(t: Timed, step: Step): Timed
    requires Enabled(t, step)
  {
    match step
    case Pass(n) => t.(now := t.now + n)
    case Use(bytes) => Became(t, Used(t.sa, bytes))
    case Fire => Fired(t)
    case Delete => t.(installed := false, deleted := true)
  }

  predicate Runs(t: Timed, steps: seq<Step>)
    decreases steps
  {
    steps == [] || (Enabled(t, steps[0]) && Runs(Apply(t, steps[0]), steps[1..]))
  }

  function After(t: Timed, steps: seq<Step>): Timed
    requires Runs(t, steps)
    decreases steps
  {
    if steps == [] then t else After(Apply(t, steps[0]), steps[1..])
  }

  // ---------------------------------------------------------------- a timed run is a run

  /** What the steps do to the SA */
  function OpsOf(t: Timed, steps: seq<Step>): seq<Op>
    requires Runs(t, steps)
    decreases steps
  {
    if steps == [] then []
    else
      var op := match steps[0]
        case Use(bytes) => [Op.Use(bytes)]
        case Fire => if t.installed then [Op.Timer(t.job.value.hardOffset == 0)] else []
        case Pass(_) => []
        case Delete => [];
      op + OpsOf(Apply(t, steps[0]), steps[1..])
  }

  lemma {:induction false} TimedRunIsRun(t: Timed, steps: seq<Step>)
    requires Runs(t, steps)
    ensures After(t, steps).sa == Run(t.sa, OpsOf(t, steps))
    decreases steps
  {
    if steps != [] {
      var ops, rest := OpsOf(t, steps), OpsOf(Apply(t, steps[0]), steps[1..]);
      TimedRunIsRun(Apply(t, steps[0]), steps[1..]);
      if ops != rest {
        assert ops[1..] == rest;
      }
    }
  }

  ghost function Sent(log: seq<Firing>): seq<Event> {
    if log == [] then [] else Sent(log[..|log| - 1]) + [log[|log| - 1].event]
  }

  lemma {:induction false} SentAppend(log: seq<Firing>, more: seq<Firing>)
    ensures Sent(log + more) == Sent(log) + Sent(more)
    decreases |more|
  {
    if more == [] {
      assert log + more == log;
    } else {
      var n := |more| - 1;
      assert (log + more)[..|log| + n] == log + more[..n];
      SentAppend(log, more[..n]);
      Assoc(Sent(log), Sent(more[..n]), [more[n].event]);
    }
  }

  lemma {:induction false} SentStamped(events: seq<Event>, now: nat)
    ensures Sent(Stamped(events, now)) == events
  {
    if events != [] {
      var n := |events| - 1;
      assert Stamped(events, now)[..n] == Stamped(events[..n], now);
      SentStamped(events[..n], now);
      assert events == events[..n] + [events[n]];
    }
  }

  lemma BecameLogs(t: Timed, sa: SaState)
    requires Sent(t.log) == t.sa.events && t.sa.events <= sa.events
    ensures Sent(Became(t, sa).log) == sa.events
  {
    var more := sa.events[|t.sa.events|..];
    SentAppend(t.log, Stamped(more, t.now));
    SentStamped(more, t.now);
  }

  lemma {:induction false} LogIsEvents(t: Timed, steps: seq<Step>)
    requires Runs(t, steps) && Sent(t.log) == t.sa.events
    ensures Sent(After(t, steps).log) == After(t, steps).sa.events
    decreases steps
  {
    if steps != [] {
      match steps[0] {
        case Use(bytes) => BecameLogs(t, Used(t.sa, bytes));
        case Fire => if t.installed { BecameLogs(t, Expired(t.sa, t.job.value.hardOffset == 0)); }
        case Pass(_) =>
        case Delete =>
      }
      LogIsEvents(Apply(t, steps[0]), steps[1..]);
    }
  }

  /** Over any timed run in which uses and firings come one after the other, whatever the limits, an
      SA logs nothing, soft, hard, or soft and then hard. */
  lemma LogOfRun(sa: SaState, steps: seq<Step>)
    requires Fresh(sa) && Runs(Install(sa), steps)
    ensures Sent(After(Install(sa), steps).log) in [[], [Soft], [Hard], [Soft, Hard]]
  {
    var t := Install(sa);
    LogIsEvents(t, steps);
    TimedRunIsRun(t, steps);
    EventsOfRun(sa, OpsOf(t, steps));
  }

  // ---------------------------------------------------------------- what is wanted

  predicate HasRekey(time: Limit) { 0 < time.rekey < time.life }

  function SoftWanted(time: Limit): seq<Firing> { if HasRekey(time) then [Firing(time.rekey, Soft)] else [] }

  /** What the configuration asks for: soft at the rekey time if that comes first, hard at the
      end of life */
  function Wanted(time: Limit): seq<Firing> {
    if time.life == 0 then [] else SoftWanted(time) + [Firing(time.life, Hard)]
  }

  /** Nothing unwanted has been sent, and nothing wanted is overdue while the SA is there. */
  ghost predicate OnTime(t: Timed) {
    var wanted := Wanted(t.sa.lifetime.time);
    t.log <= wanted && (!t.deleted ==> forall f | f in wanted && f.at < t.now :: f in t.log)
  }

  /** Each delay the timer is given fits 32 bits. */
  predicate FitsTimer(time: Limit) {
    if HasRekey(time) then time.rekey < 0x1_0000_0000 && time.life - time.rekey < 0x1_0000_0000
    else time.life < 0x1_0000_0000
  }

  /** Only time ends the life of the SA. */
  predicate NoUsageLimits(life: Lifetime) {
    life.packets == Limit(0, 0) && life.bytes == Limit(0, 0)
  }

  // ---------------------------------------------------------------- the two stages

  /** The flags of the SA are what the log says. */
  ghost predicate Flagged(sa: SaState, log: seq<Firing>) {
    && (sa.softExpired <==> exists f | f in log :: f.event == Soft)
    && (sa.hardExpired <==> exists f | f in log :: f.event == Hard)
  }

  /** Where the job and the log are */
  ghost predicate Stage(t: Timed) {
    var time := t.sa.lifetime.time;
    && NoUsageLimits(t.sa.lifetime) && Flagged(t.sa, t.log)
    && match t.job
       case Some(job) =>
         && t.now <= job.due && time.life > 0 && (t.installed || t.deleted)
         && (if job.hardOffset == 0 then job.due == time.life && t.log == SoftWanted(time)
             else HasRekey(time) && job.due == time.rekey && job.hardOffset == time.life - time.rekey && t.log == [])
       case None =>
         || t.log == Wanted(time)
         || (t.deleted && !t.installed && t.log <= Wanted(time))
  }

  lemma StageIsOnTime(t: Timed)
    requires Stage(t)
    ensures OnTime(t)
  {
    var time := t.sa.lifetime.time;
    assert time.life > 0 ==> SoftWanted(time) <= Wanted(time);
  }

  lemma InstallHasStage(sa: SaState)
    requires Fresh(sa) && NoUsageLimits(sa.lifetime) && FitsTimer(sa.lifetime.time)
    ensures Stage(Install(sa))
  {
  }

  /** Without usage limits, using an SA sends nothing. */
  lemma UseIsSilent(sa: SaState, bytes: U32)
    requires NoUsageLimits(sa.lifetime)
    ensures var u := Used(sa, bytes);
            u.events == sa.events && u.softExpired == sa.softExpired && u.hardExpired == sa.hardExpired
            && u.lifetime == sa.lifetime
  {
  }

  lemma UseKeepsStage(t: Timed, bytes: U32)
    requires Stage(t) && t.installed
    ensures Stage(Apply(t, Step.Use(bytes)))
  {
    UseIsSilent(t.sa, bytes);
    assert t.log + [] == t.log;
  }

  lemma FireKeepsStage(t: Timed)
    requires Stage(t) && Enabled(t, Fire)
    ensures Stage(Apply(t, Fire))
  {
    var time := t.sa.lifetime.time;
    if t.installed {
      var hard := t.job.value.hardOffset == 0;
      var sa := Expired(t.sa, hard);
      var event := if hard then Hard else Soft;
      assert sa.events[|t.sa.events|..] == [event];
      assert Stamped([event], t.now) == [Firing(t.now, event)];
      assert Apply(t, Fire).log == t.log + [Firing(t.now, event)];
      assert Firing(t.now, event) in Apply(t, Fire).log;
    }
  }

  lemma StepKeepsStage(t: Timed, step: Step)
    requires Stage(t) && Enabled(t, step)
    ensures Stage(Apply(t, step))
  {
    match step
    case Pass(n) =>
    case Use(bytes) => UseKeepsStage(t, bytes);
    case Fire => FireKeepsStage(t);
    case Delete =>
  }

  lemma {:induction false} RunKeepsStage(t: Timed, steps: seq<Step>)
    requires Stage(t) && Runs(t, steps)
    ensures Stage(After(t, steps))
    decreases steps
  {
    if steps != [] {
      StepKeepsStage(t, steps[0]);
      RunKeepsStage(Apply(t, steps[0]), steps[1..]);
    }
  }

  // ---------------------------------------------------------------- when the delays do not fit

  /** Waiting for the job and running it */
  lemma NextFiring(t: Timed)
    requires t.job.Some? && t.now <= t.job.value.due
    ensures var steps := [Pass(t.job.value.due - t.now), Fire];
            Runs(t, steps) && After(t, steps) == Fired(t.(now := t.job.value.due))
  {
    var wait := Pass(t.job.value.due - t.now);
    var t1 := Apply(t, wait);
    assert [wait, Fire][1..] == [Fire] && [Fire][1..] == [];
    assert Runs(Apply(t1, Fire), []);
  }

  lemma {:induction false} RunsOn(t: Timed, a: seq<Step>, b: seq<Step>)
    requires Runs(t, a) && Runs(After(t, a), b)
    ensures Runs(t, a + b) && After(t, a + b) == After(After(t, a), b)
    decreases a
  {
    if a == [] {
      assert a + b == b;
    } else {
      assert (a + b)[1..] == a[1..] + b;
      RunsOn(Apply(t, a[0]), a[1..], b);
    }
  }

  /** What a new SA sends when its job runs first */
  lemma FirstFiring(sa: SaState)
    requires Fresh(sa) && sa.lifetime.time.life > 0
    ensures var t := Install(sa);
            var job := t.job.value;
            var event := if job.hardOffset == 0 then Hard else Soft;
            && t.job.Some? && t.now <= job.due
            && Fired(t.(now := job.due)).log == [Firing(job.due, event)]
            && Fired(t.(now := job.due)).sa.lifetime == sa.lifetime
  {
    var t := Install(sa);
    var job := t.job.value;
    var event := if job.hardOffset == 0 then Hard else Soft;
    assert Expired(sa, job.hardOffset == 0).events[|sa.events|..] == [event];
  }

  /** What it sends when its job runs again */
  lemma SecondFiring(sa: SaState)
    requires Fresh(sa) && sa.lifetime.time.life > 0 && Install(sa).job.value.hardOffset != 0
    ensures var job := Install(sa).job.value;
            var t := Fired(Install(sa).(now := job.due));
            && t.job == Some(Job(job.due + job.hardOffset, 0)) && t.now == job.due
            && Fired(t.(now := t.job.value.due)).log == [Firing(job.due, Soft), Firing(job.due + job.hardOffset, Hard)]
            && Fired(t.(now := t.job.value.due)).sa.lifetime == sa.lifetime
  {
    FirstFiring(sa);
    var job := Install(sa).job.value;
    var t := Fired(Install(sa).(now := job.due));
    assert Expired(t.sa, true).events[|t.sa.events|..] == [Hard];
  }

  /** The event or the time is wrong for the first or the second firing. */
  lemma WrongFiring(time: Limit)
    requires !FitsTimer(time)
    ensures time.life > 0
    ensures var job := Schedule(time).value;
            if HasRekey(time) && job.due == time.rekey && job.hardOffset != 0
            then job.due + job.hardOffset != time.life
            else Firing(job.due, if job.hardOffset == 0 then Hard else Soft) != Wanted(time)[0]
  {
  }

  lemma LateRun(sa: SaState) returns (steps: seq<Step>)
    requires Fresh(sa) && !FitsTimer(sa.lifetime.time)
    ensures Runs(Install(sa), steps) && !OnTime(After(Install(sa), steps))
  {
    var t, time := Install(sa), sa.lifetime.time;
    WrongFiring(time);
    FirstFiring(sa);
    NextFiring(t);
    var job := t.job.value;
    steps := [Pass(job.due), Fire];
    if HasRekey(time) && job.due == time.rekey && job.hardOffset != 0 {
      SecondFiring(sa);
      var t1 := After(t, steps);
      NextFiring(t1);
      var more := [Pass(t1.job.value.due - t1.now), Fire];
      RunsOn(t, steps, more);
      steps := steps + more;
      assert After(t, steps).log[1] != Wanted(time)[1];
    } else {
      assert After(t, steps).log[0] != Wanted(time)[0];
    }
  }

  /** A life of 2^32 seconds ends at once. */
  lemma LongLifeEndsAtOnce(sa: SaState)
    requires Fresh(sa) && sa.lifetime.time == Limit(0x1_0000_0000, 0)
    ensures Runs(Install(sa), [Fire]) && After(Install(sa), [Fire]).log == [Firing(0, Hard)]
  {
    FirstFiring(sa);
    assert [Fire][1..] == [];
    assert Install(sa).(now := 0) == Install(sa);
  }

  /** However it is used in between, an SA without usage limits sends what is configured, soft at
      the rekey time and hard at exactly the end of its life, if and only if its delays fit the
      timer. */
  lemma TimerExactly(sa: SaState)
    requires Fresh(sa) && NoUsageLimits(sa.lifetime)
    ensures (forall steps | Runs(Install(sa), steps) :: OnTime(After(Install(sa), steps))) <==>
            FitsTimer(sa.lifetime.time)
  {
    if FitsTimer(sa.lifetime.time) {
      forall steps | Runs(Install(sa), steps) ensures OnTime(After(Install(sa), steps)) {
        InstallHasStage(sa);
        RunKeepsStage(Install(sa), steps);
        StageIsOnTime(After(Install(sa), steps));
      }
    } else {
      var steps := LateRun(sa);
    }
  }

  // ---------------------------------------------------------------- implementation

  /** The job of one installed SA */
  class Timer {
    const sa: Sa
    var installed: bool
    var job: Option<Job>
    ghost var now: nat
    ghost var log: seq<Firing>

    ghost predicate Valid()
      reads this, sa, sa.ctx, sa.ctx.window
    {
      sa.Valid()
    }

    ghost function State(): Timed
      reads this, sa, sa.ctx
    {
      Timed(sa.State(), installed, false, job, now, log)
    }

    /** schedule_expiration for an SA that has just been installed */
    constructor (sa: Sa)
      requires sa.Valid()
      ensures Valid() && this.sa == sa && State() == Install(sa.State())
    {
      this.sa, installed := sa, true;
      var time := sa.lifetime.time;
      var due, offset := ToU32(time.rekey), ToU32(time.life - time.rekey);
      if time.life <= time.rekey || time.rekey == 0 {
        due, offset := ToU32(time.life), 0;
      }
      job := if time.life == 0 then None else Some(Job(due, offset));
      now, log := 0, [];
    }

    /** sa_expired, when the job is due */
    method SaExpired()
      requires Valid() && Enabled(State(), Fire)
      modifies this, sa`softExpired, sa`hardExpired, sa`events
      ensures Valid() && State() == Apply(old(State()), Fire)
    {
      if !installed {
        job := None;
        return;
      }
      var offset := job.value.hardOffset;
      sa.Expire(offset == 0);
      log := log + Stamped(sa.events[|old(sa.events)|..], now);
      if offset != 0 {
        job := Some(Job(job.value.due + offset, 0));
      } else {
        job, installed := None, false;
      }
    }
  }
}
