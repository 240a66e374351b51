/** Several threads that process inbound packets of the same SAs (process_inbound of
    ipsec_processor.c over ipsec_sa_mgr.c): verifying and marking a sequence number are two steps of a
    thread, and other threads run in between. */
module SaWindow {
  import opened Bytes
  import opened EspContext
  import opened SaProtocol
  import opened SaRuns

  /** The SA manager, the anti-replay state of each entry, the number each thread has verified and not
      yet marked, and the numbers each SA has let through */
  datatype World = World(s: State, replays: map<Eid, Replay>, checked: map<Tid, U32>, accepted: map<Eid, seq<U32>>)

  /** A step of the SA manager, or of decrypt on the SA that a thread has checked out: verify_seqno,
      and set_authenticated_seqno if the ICV turns out to be right */
  datatype Move = Manage(step: Step) | Verify(t: Tid, seqno: U32) | Finish(t: Tid, genuine: bool)

  predicate CanMove(w: World, m: Move) {
    match m
    case Manage(step) => Enabled(w.s, step) && step.t !in w.checked
    case Verify(t, seqno) =>
      t in w.s.pcs && w.s.pcs[t].Holding? && t !in w.checked && w.s.pcs[t].e in w.replays
    case Finish(t, _) =>
      && t in w.checked && t in w.s.pcs && w.s.pcs[t].Holding?
      && w.s.pcs[t].e in w.replays && w.s.pcs[t].e in w.accepted
  }

  function Moved(w: World, m: Move): World
    requires CanMove(w, m)
  {
    match m
    case Manage(step) =>
      var w1 := w.(s := Apply(w.s, step));
      if step.Add? then w1.(replays := w.replays[step.e := NewReplay(true)], accepted := w.accepted[step.e := []])
      else w1
    case Verify(t, seqno) =>
      if Accepts(w.replays[w.s.pcs[t].e], seqno) then w.(checked := w.checked[t := seqno]) else w
    case Finish(t, genuine) =>
      var e, seqno := w.s.pcs[t].e, w.checked[t];
      var w1 := w.(checked := w.checked - {t});
      if !genuine then w1
      else w1.(replays := w.replays[e := Authenticate(w.replays[e], seqno)],
               accepted := w.accepted[e := w.accepted[e] + [seqno]])
  }

  /** Without anybody in between, a thread that verifies and marks a number has received it: it is let
      through exactly if it is acceptable and genuine, and nothing else changes. */
  lemma DecryptInOneGo(w: World, t: Tid, seqno: U32, genuine: bool)
    requires CanMove(w, Verify(t, seqno)) && w.s.pcs[t].e in w.accepted
    ensures var e, w1 := w.s.pcs[t].e, Moved(w, Verify(t, seqno));
            && (t in w1.checked <==> Accepts(w.replays[e], seqno))
            && if t !in w1.checked then w1 == w
               else CanMove(w1, Finish(t, genuine))
                    && Moved(w1, Finish(t, genuine))
                       == w.(replays := w.replays[e := Receive(w.replays[e], Attempt(seqno, genuine))],
                             accepted := w.accepted[e := w.accepted[e] + if genuine then [seqno] else []])
  {
    var e := w.s.pcs[t].e;
    assert w.checked[t := seqno] - {t} == w.checked;
    assert w.accepted[e] + [] == w.accepted[e];
    assert w.replays[e := w.replays[e]] == w.replays && w.accepted[e := w.accepted[e]] == w.accepted;
  }

  // ---------------------------------------------------------------- the invariant

  ghost predicate NoRepeats(numbers: seq<U32>) { forall i, j | 0 <= i < j < |numbers| :: numbers[i] != numbers[j] }

  /** What an SA has let through is what its window has seen, each number once. */
  ghost predicate Recorded(w: World, e: Eid) {
    && e in w.replays && e in w.accepted && w.replays[e].inbound
    && (forall x :: x in w.accepted[e] <==> x in w.replays[e].seen) && NoRepeats(w.accepted[e])
  }

  /** What a thread has verified is still acceptable. */
  ghost predicate StillGood(w: World, t: Tid) {
    && t in w.s.pcs && w.s.pcs[t].Holding? && w.s.pcs[t].e in w.replays
    && t in w.checked && Accepts(w.replays[w.s.pcs[t].e], w.checked[t])
  }

  ghost predicate Sound(w: World) {
    && Inv(w.s)
    && (forall e | e in w.s.entries :: Recorded(w, e))
    && (forall t | t in w.checked :: StillGood(w, t))
  }

  lemma ManageKeepsSound(w: World, step: Step)
    requires Sound(w) && CanMove(w, Manage(step))
    ensures Sound(Moved(w, Manage(step)))
  {
    var w' := Moved(w, Manage(step));
    StepKeepsInv(w.s, step);
    forall e | e in w'.s.entries ensures Recorded(w', e) {
      EntriesStay(w.s, step, e);
    }
    forall t | t in w'.checked ensures StillGood(w', t) {
      assert StillGood(w, t);
      OthersKeepHolding(w.s, step, t);
      HolderIsListed(w.s, t);
    }
  }

  lemma VerifyKeepsSound(w: World, t: Tid, seqno: U32)
    requires Sound(w) && CanMove(w, Verify(t, seqno))
    ensures Sound(Moved(w, Verify(t, seqno)))
  {
    var w' := Moved(w, Verify(t, seqno));
    forall e | e in w'.s.entries ensures Recorded(w', e) {
      assert Recorded(w, e);
    }
    forall u | u in w'.checked ensures StillGood(w', u) {
      assert u != t ==> StillGood(w, u);
    }
  }

  lemma MarkRecords(w: World, t: Tid)
    requires Sound(w) && CanMove(w, Finish(t, true))
    ensures Recorded(Moved(w, Finish(t, true)), w.s.pcs[t].e)
  {
    var e, seqno := w.s.pcs[t].e, w.checked[t];
    HolderIsListed(w.s, t);
    assert Recorded(w, e) && StillGood(w, t);
    var numbers := w.accepted[e] + [seqno];
    assert forall x :: x in numbers <==> x in w.accepted[e] || x == seqno;
  }

  lemma FinishKeepsSound(w: World, t: Tid, genuine: bool)
    requires Sound(w) && CanMove(w, Finish(t, genuine))
    ensures Sound(Moved(w, Finish(t, genuine)))
  {
    var w' := Moved(w, Finish(t, genuine));
    if genuine {
      MarkRecords(w, t);
    }
    forall e | e in w'.s.entries ensures Recorded(w', e) {
      assert Recorded(w, e);
    }
    forall u | u in w'.checked ensures StillGood(w', u) {
      assert StillGood(w, u);
      if w.s.pcs[u] == w.s.pcs[t] {
        OneHolder(w.s, t, u);
      }
    }
  }

  // ---------------------------------------------------------------- runs

  ghost predicate MovesTo(w: World, w': World) { w' == w || exists m :: CanMove(w, m) && w' == Moved(w, m) }

  ghost predicate MoveAt(r: nat -> World, i: nat) { MovesTo(r(i), r(i + 1)) }

  ghost predicate WorldRun(r: nat -> World) {
    Init(r(0).s) && r(0).checked == map[] && forall i: nat :: MoveAt(r, i)
  }

  lemma {:induction false} RunIsSound(r: nat -> World, i: nat)
    requires WorldRun(r)
    ensures Sound(r(i))
  {
    if i == 0 {
      InitHasInv(r(0).s);
    } else {
      RunIsSound(r, i - 1);
      assert MoveAt(r, i - 1);
      var w, w' := r(i - 1), r(i);
      if w' != w {
        var m :| CanMove(w, m) && w' == Moved(w, m);
        match m
        case Manage(step) => ManageKeepsSound(w, step);
        case Verify(t, seqno) => VerifyKeepsSound(w, t, seqno);
        case Finish(t, genuine) => FinishKeepsSound(w, t, genuine);
      }
    }
  }

  /** However the threads interleave, no SA lets a sequence number through twice, and a number that a
      thread has verified cannot be marked by another thread before it is done. */
  lemma NeverTwiceConcurrently(r: nat -> World, i: nat, e: Eid)
    requires WorldRun(r) && e in r(i).s.entries
    ensures e in r(i).accepted && NoRepeats(r(i).accepted[e])
    ensures forall t | t in r(i).checked && HoldsAt(r(i).s, t, e) :: r(i).checked[t] !in r(i).accepted[e]
  {
    RunIsSound(r, i);
    var w := r(i);
    assert Recorded(w, e);
    forall t | t in w.checked && HoldsAt(w.s, t, e) ensures w.checked[t] !in w.accepted[e] {
      assert StillGood(w, t);
    }
  }
}
