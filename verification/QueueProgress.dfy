/**
 Progress of the task queue: without new calls and without timeouts or spurious wake-ups, every
 run of the machine is short, and where it can go no further nobody sleeps on a queued task.
 */
module QueueProgress {
  import opened CText
  import opened TaskQueue

  /** A step of the operations under way: no new call, no timeout, no spurious wake-up. */
  predicate Quiet(l: Label) {
    !l.Call? && !l.Rouse?
  }

  predicate AllQuiet(ls: seq<Label>) {
    forall l :: l in ls ==> Quiet(l)
  }

  ghost predicate Stuck(s: State) {
    forall l :: Quiet(l) ==> Step(s, l) == None
  }

  // ---------- the measure ----------

  /** How much a thread may still do; a pusher pays for its task and for the sleeper it rouses. */
  function Weight(pc: Pc): nat {
    match pc
    case PushStart(_) => 9
    case PushHeld(_) => 8
    case PushDone => 6
    case PushUnlocked => 5
    case PopStart(_, _) => 4
    case Woken(_) => 4
    case PopHeld(_, _, _) => 3
    case Taking(_, _) => 2
    case Returning(_, _) => 1
    case Asleep(_) => 0
  }

  ghost function TotalWeight(pcs: map<Tid, Pc>): nat
    decreases |pcs|
  {
    if pcs == map[] then 0
    else
      var t :| t in pcs;
      Weight(pcs[t]) + TotalWeight(pcs - {t})
  }

  ghost function Measure(s: State): nat {
    TotalWeight(s.pcs) + |s.tasks|
  }

  /** Any thread can be counted first. */
  lemma {:induction false} WeightOf(pcs: map<Tid, Pc>, t: Tid)
    requires t in pcs
    ensures TotalWeight(pcs) == Weight(pcs[t]) + TotalWeight(pcs - {t})
    decreases |pcs|
  {
    var u :| u in pcs && TotalWeight(pcs) == Weight(pcs[u]) + TotalWeight(pcs - {u});
    if u != t {
      WeightOf(pcs - {u}, t);
      WeightOf(pcs - {t}, u);
      assert pcs - {u} - {t} == pcs - {t} - {u};
    }
  }

  lemma WeightMoved(pcs: map<Tid, Pc>, t: Tid, pc: Pc)
    ensures TotalWeight(pcs[t := pc]) == TotalWeight(pcs - {t}) + Weight(pc)
    ensures t in pcs ==> TotalWeight(pcs[t := pc]) == TotalWeight(pcs) - Weight(pcs[t]) + Weight(pc)
  {
    WeightOf(pcs[t := pc], t);
    assert pcs[t := pc] - {t} == pcs - {t};
    if t in pcs {
      WeightOf(pcs, t);
    }
  }

  lemma StepByMove(s: State, next: State, t: Tid)
    requires t in s.pcs && t in next.pcs && next.pcs == s.pcs[t := next.pcs[t]]
    requires Weight(next.pcs[t]) + |next.tasks| < Weight(s.pcs[t]) + |s.tasks|
    ensures Measure(next) < Measure(s)
  {
    WeightMoved(s.pcs, t, next.pcs[t]);
  }

  lemma StepByLeaving(s: State, next: State, t: Tid)
    requires t in s.pcs && next.pcs == s.pcs - {t} && next.tasks == s.tasks && Weight(s.pcs[t]) > 0
    ensures Measure(next) < Measure(s)
  {
    WeightOf(s.pcs, t);
  }

  lemma NotifyDecreases(s: State, t: Tid, w: Tid)
    requires DoNotify(s, t, Some(w)).Some?
    ensures Measure(DoNotify(s, t, Some(w)).value) < Measure(s)
  {
    assert w in Sleepers(s) && w in s.pcs - {t};
    WeightOf(s.pcs, t);
    WeightMoved(s.pcs - {t}, w, Woken(s.pcs[w].kind));
  }

  lemma ActDecreases(s: State, t: Tid)
    requires DoAct(s, t).Some?
    ensures Measure(DoAct(s, t).value) < Measure(s)
  {
    var next := DoAct(s, t).value;
    assert next.pcs == s.pcs[t := next.pcs[t]];
    StepByMove(s, next, t);
  }

  /** Every quiet step spends some of the measure. */
  lemma QuietDecreases(s: State, l: Label)
    requires Quiet(l) && Step(s, l).Some?
    ensures Measure(Step(s, l).value) < Measure(s)
  {
    match l {
      case Lock(t, timedOut) => StepByMove(s, Step(s, l).value, t);
      case Act(t) => ActDecreases(s, t);
      case Unlock(t) =>
        if s.pcs[t].Returning? {
          StepByLeaving(s, Step(s, l).value, t);
        } else {
          StepByMove(s, Step(s, l).value, t);
        }
      case Notify(t, waiter) =>
        if waiter.Some? {
          NotifyDecreases(s, t, waiter.value);
        } else {
          StepByLeaving(s, Step(s, l).value, t);
        }
    }
  }

  /** So a quiet run has at most as many steps as the measure it starts with. */
  lemma {:induction false} QuietRunsEnd(s: State, ls: seq<Label>)
    requires AllQuiet(ls) && Run(s, ls).Some?
    ensures |ls| + Measure(Run(s, ls).value) <= Measure(s)
    decreases |ls|
  {
    if ls != [] {
      QuietDecreases(s, ls[0]);
      QuietRunsEnd(Step(s, ls[0]).value, ls[1..]);
    }
  }

  // ---------- where it ends ----------

  /** A thread inside an operation and not asleep can step, or the lock holder can. */
  lemma AwakeCanStep(s: State, t: Tid) returns (l: Label)
    requires LockInv(s) && t in s.pcs && !s.pcs[t].Asleep?
    ensures Quiet(l) && Step(s, l).Some?
  {
    if s.lock.Some? {
      var h := s.lock.value;
      l := if s.pcs[h].PushDone? || s.pcs[h].Returning? then Unlock(h) else Act(h);
    } else if s.pcs[t] != PushUnlocked {
      l := Lock(t, false);
    } else if w :| w in Sleepers(s) {
      l := Notify(t, Some(w));
    } else {
      l := Notify(t, None);
    }
  }

  /**
   No sleeper is left behind.  From any reachable state, whatever the operations under way do, with
   no new call, timeout or spurious wake-up needed: they come to an end in at most `Measure(s)`
   steps, and where they do, every thread is idle or asleep, and if one sleeps no task is queued.
   */
  lemma NobodySleepsOnATask(s: State, ls: seq<Label>)
    requires Reachable(s) && AllQuiet(ls) && Run(s, ls).Some?
    ensures |ls| <= Measure(s)
    ensures var end := Run(s, ls).value;
            Stuck(end) ==>
              && (forall t :: t in end.pcs ==> end.pcs[t].Asleep?)
              && end.lock == None
              && (Sleepers(end) != {} ==> end.tasks == [])
  {
    ReachableInv(s);
    QuietRunsEnd(s, ls);
    InvOverRun(s, ls);
    var end := Run(s, ls).value;
    if Stuck(end) {
      StuckEnd(end);
    }
  }

  lemma StuckEnd(s: State)
    requires Inv(s) && Stuck(s)
    ensures forall t :: t in s.pcs ==> s.pcs[t].Asleep?
    ensures s.lock == None && (Sleepers(s) != {} ==> s.tasks == [])
  {
    forall t | t in s.pcs ensures s.pcs[t].Asleep? {
      if !s.pcs[t].Asleep? {
        var l := AwakeCanStep(s, t);
        assert false;
      }
    }
    assert s.lock == None;
    assert Pending(s) == {} && Roused(s) == {} && Takers(s) == {};
  }

  /** And it does come to such an end: some quiet run leads there. */
  lemma QuietEndExists(s: State) returns (ls: seq<Label>)
    ensures AllQuiet(ls) && Run(s, ls).Some? && Stuck(Run(s, ls).value)
    decreases Measure(s)
  {
    if Stuck(s) {
      ls := [];
    } else {
      var l :| Quiet(l) && Step(s, l) != None;
      QuietDecreases(s, l);
      var rest := QuietEndExists(Step(s, l).value);
      ls := [l] + rest;
      assert ls[1..] == rest;
    }
  }
}
