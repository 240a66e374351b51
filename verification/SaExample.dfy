/** A fair run of the SA manager in which a removal is pending: one thread holds an SA while another
    begins to delete it. */
module SaExample {
  import opened Bytes
  import opened SaProtocol
  import opened SaRuns

  const HOLDER: Tid := 0
  const DELETER: Tid := 1
  const SA: Eid := 7

  function Pcs(holder: Pc, deleter: Pc): map<Tid, Pc> { map[HOLDER := holder, DELETER := deleter] }

  function Installed(locked: bool, awaits: bool, holder: Pc, deleter: Pc): State {
    State([SA], map[SA := Entry(locked, 0, awaits)], Pcs(holder, deleter), None)
  }

  /** Added, checked out, deletion begun, checked in, unlinked, freed, and nothing more */
  function Sample(i: nat): State {
    if i == 0 then State([], map[], Pcs(Idle, Idle), None)
    else if i == 1 then Installed(false, false, Idle, Idle)
    else if i == 2 then Installed(true, false, Holding(SA), Idle)
    else if i == 3 then Installed(true, true, Holding(SA), Removing(SA, Delete, AwaitUnlock, false))
    else if i == 4 then Installed(false, true, Idle, Removing(SA, Delete, AwaitUnlock, true))
    else if i == 5 then State([], map[SA := Entry(false, 0, true)], Pcs(Idle, Freeing(SA)), None)
    else State([], map[], Pcs(Idle, Idle), None)
  }

  function Taken(i: nat): Step {
    if i == 0 then Add(HOLDER, SA)
    else if i == 1 then Enter(HOLDER, SA, Checkout, None)
    else if i == 2 then StartRemove(DELETER, SA, Delete)
    else if i == 3 then Checkin(HOLDER, Some(DELETER))
    else if i == 4 then RetryRemove(DELETER)
    else Free(DELETER)
  }

  lemma SampleSteps(i: nat)
    requires i <= 5
    ensures Enabled(Sample(i), Taken(i)) && Apply(Sample(i), Taken(i)) == Sample(i + 1)
  {
    if i <= 2 {
      FirstSteps(i);
    } else {
      LastSteps(i);
    }
  }

  lemma FirstSteps(i: nat)
    requires i <= 2
    ensures Enabled(Sample(i), Taken(i)) && Apply(Sample(i), Taken(i)) == Sample(i + 1)
  {
  }

  lemma LastSteps(i: nat)
    requires 3 <= i <= 5
    ensures Enabled(Sample(i), Taken(i)) && Apply(Sample(i), Taken(i)) == Sample(i + 1)
  {
  }

  lemma SampleRuns()
    ensures Run(Sample)
  {
    forall i: nat ensures StepAt(Sample, i) {
      if i <= 5 {
        SampleSteps(i);
      }
    }
  }

  lemma SampleIsFair()
    ensures Fair(Sample)
  {
    forall i: nat, t | Ready(Sample(i), t) ensures RunsLater(Sample, i, t) {
      SampleSteps(4);
      assert i == 4 && t == DELETER;
      assert Taken(4).RetryRemove? && Taken(4).t == DELETER;
      assert RunsAt(Sample, 4, DELETER);
    }
  }

  lemma SampleReturns()
    ensures HoldersReturn(Sample)
  {
    forall i: nat, t, e | HoldsAt(Sample(i), t, e) ensures exists j: nat :: j >= i && !HoldsAt(Sample(j), t, e) {
      assert !HoldsAt(Sample(i + 4), t, e);
    }
  }

  /** All that is asked for the completion of removals is met by a run, while a removal is pending
      behind a holder. */
  lemma RemovalIsPossible()
    ensures exists r: nat -> State, i: nat, t, e ::
              Run(r) && Fair(r) && HoldersReturn(r) && Pending(r(i), t, e) && Fields(r(i), e).locked
  {
    SampleRuns();
    SampleIsFair();
    SampleReturns();
    assert Pending(Sample(3), DELETER, SA) && Fields(Sample(3), SA).locked;
  }
}
