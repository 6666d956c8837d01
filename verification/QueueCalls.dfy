/**
 What the queue's machine makes of the calls that are made: each position belongs to the thread's
 last call, what is pushed is what callers pushed, only timed pops sleep, and a timed pop returns
 nothing only after its wait timed out.
 */
module QueueCalls {
  import opened CText
  import opened TaskQueue

  /** A thread's last call, and whether its wait has reported a timeout since. */
  datatype LastCall = NoCall | Called(op: Op, timedOut: bool)

  function CallOf(ls: seq<Label>, t: Tid): LastCall {
    if ls == [] then NoCall
    else
      var before := CallOf(ls[..|ls| - 1], t);
      match ls[|ls| - 1]
      case Call(u, op) => if u == t then Called(op, false) else before
      case Lock(u, timedOut) =>
        if u == t && timedOut && before.Called? then Called(before.op, true) else before
      case _ => before
  }

  /** In terms of the labels: the call is there, no later one is, and the timeout is between. */
  lemma {:induction false} CallOfMeans(ls: seq<Label>, t: Tid) returns (i: nat)
    requires CallOf(ls, t).Called?
    ensures i < |ls| && ls[i] == Call(t, CallOf(ls, t).op)
    ensures forall j :: i < j < |ls| && ls[j].Call? ==> ls[j].t != t
    ensures CallOf(ls, t).timedOut <==> exists j :: i < j < |ls| && ls[j] == Lock(t, true)
  {
    var n := |ls| - 1;
    if ls[n].Call? && ls[n].t == t {
      i := n;
    } else {
      i := CallOfMeans(ls[..n], t);
      if ls[n] == Lock(t, true) {
        assert i < n;
      } else if CallOf(ls, t).timedOut {
        var j :| i < j < n && ls[..n][j] == Lock(t, true);
        assert ls[j] == Lock(t, true);
      } else if j :| i < j < |ls| && ls[j] == Lock(t, true) {
        assert ls[..n][j] == Lock(t, true);
      }
    }
  }

  /** The position is one of the call's own: its task, its kind, and a wait only for a timed pop. */
  predicate PcFits(pc: Pc, call: LastCall) {
    call.Called? &&
    match call.op
    case Push(task) => pc == PushStart(task) || pc == PushHeld(task) || pc == PushDone || pc == PushUnlocked
    case Pop(timed, kind) =>
      match pc
      case PopStart(pcTimed, pcKind) => pcTimed == timed && pcKind == kind && !call.timedOut
      case PopHeld(pcKind, mayWait, _) => pcKind == kind && (mayWait <==> timed && !call.timedOut)
      case Asleep(pcKind) => pcKind == kind && timed && !call.timedOut
      case Woken(pcKind) => pcKind == kind && timed && !call.timedOut
      case Taking(pcKind, _) => pcKind == kind
      case Returning(pcKind, got) => pcKind == kind && (got == [] && timed ==> call.timedOut)
      case _ => false
  }

  lemma {:induction false} RunSnoc(s: State, ls: seq<Label>, l: Label)
    ensures Run(s, ls + [l]) == match Run(s, ls) case Some(mid) => Step(mid, l) case None => None
    decreases |ls|
  {
    if ls == [] {
      assert [] + [l] == [l] && [l][1..] == [];
    } else {
      assert (ls + [l])[1..] == ls[1..] + [l];
      if Step(s, ls[0]).Some? {
        RunSnoc(Step(s, ls[0]).value, ls[1..], l);
      }
    }
  }

  lemma RunLastStep(ls: seq<Label>)
    requires ls != [] && Run(INIT, ls).Some?
    ensures var init := ls[..|ls| - 1];
            Run(INIT, init).Some? && Step(Run(INIT, init).value, ls[|ls| - 1]) == Run(INIT, ls)
  {
    RunSnoc(INIT, ls[..|ls| - 1], ls[|ls| - 1]);
    assert ls == ls[..|ls| - 1] + [ls[|ls| - 1]];
  }

  ghost predicate AllFit(s: State, ls: seq<Label>) {
    forall t :: t in s.pcs ==> PcFits(s.pcs[t], CallOf(ls, t))
  }

  /** Every step keeps each thread at a position of its last call. */
  lemma FitKept(s: State, l: Label, before: seq<Label>, after: seq<Label>)
    requires ResultInv(s) && AllFit(s, before) && Step(s, l).Some? && after == before + [l]
    ensures AllFit(Step(s, l).value, after)
  {
    var next := Step(s, l).value;
    assert after[..|after| - 1] == before;
    forall t | t in next.pcs ensures PcFits(next.pcs[t], CallOf(after, t)) {
      assert t in s.pcs ==> PcFits(s.pcs[t], CallOf(before, t));
    }
  }

  lemma {:induction false} CallsFit(ls: seq<Label>)
    requires Run(INIT, ls).Some?
    ensures AllFit(Run(INIT, ls).value, ls)
    decreases |ls|
  {
    if ls != [] {
      var init := ls[..|ls| - 1];
      RunLastStep(ls);
      CallsFit(init);
      var mid := Run(INIT, init).value;
      assert Reachable(mid);
      ReachableInv(mid);
      FitKept(mid, ls[|ls| - 1], init, ls);
    }
  }

  /** Only the caller of a timed pop ever sleeps, and only while its wait has not timed out. */
  lemma OnlyTimedPopsSleep(ls: seq<Label>, t: Tid)
    requires Run(INIT, ls).Some? && t in Sleepers(Run(INIT, ls).value)
    ensures CallOf(ls, t).Called? && CallOf(ls, t).op.Pop? && CallOf(ls, t).op.timed && !CallOf(ls, t).timedOut
  {
    CallsFit(ls);
  }

  /** A timed pop that is about to return nothing has waited, and its wait has timed out since the call. */
  lemma EmptyTimedPopTimedOut(ls: seq<Label>, t: Tid, kind: Kind) returns (i: nat, j: nat)
    requires Run(INIT, ls).Some? && t in Run(INIT, ls).value.pcs
    requires Run(INIT, ls).value.pcs[t] == Returning(kind, [])
    requires CallOf(ls, t).Called? && CallOf(ls, t).op == Pop(true, kind)
    ensures i < j < |ls| && ls[i] == Call(t, Pop(true, kind)) && ls[j] == Lock(t, true)
    ensures forall k :: i < k < |ls| && ls[k].Call? ==> ls[k].t != t
  {
    CallsFit(ls);
    i := CallOfMeans(ls, t);
    j :| i < j < |ls| && ls[j] == Lock(t, true);
  }

  /** A notify, a timeout and a spurious wake-up need no lock, and a notify may choose any sleeper. */
  lemma WakingNeedsNoLock(s: State, t: Tid)
    requires t in s.pcs && s.pcs[t] == PushUnlocked
    ensures forall w :: w in Sleepers(s) ==> Step(s, Notify(t, Some(w))).Some? && Step(s, Rouse(w)).Some?
    ensures Sleepers(s) == {} ==> Step(s, Notify(t, None)).Some?
  {
  }

  // ---------- what is pushed ----------

  /** How often a task was pushed, by the calls. */
  function PushCalls(ls: seq<Label>, task: Task): nat {
    if ls == [] then 0
    else
      PushCalls(ls[..|ls| - 1], task)
      + match ls[|ls| - 1] case Call(_, op) => (if op == Push(task) then 1 else 0) case _ => 0
  }

  /** The callers of a push that have not yet put this task into the queue. */
  function Pushing(s: State, task: Task): set<Tid> {
    set t | t in s.pcs && (s.pcs[t] == PushStart(task) || s.pcs[t] == PushHeld(task))
  }

  lemma PushedAppend(events: seq<Event>, e: Event, task: Task)
    ensures multiset(PushedTasks(events + [e]))[task]
            == multiset(PushedTasks(events))[task] + if e == Pushed(task) then 1 else 0
  {
    assert (events + [e])[..|events|] == events;
  }

  /** How often a task was pushed, by the events and by the calls still under way. */
  function Accounted(s: State, task: Task): nat {
    multiset(PushedTasks(s.events))[task] + |Pushing(s, task)|
  }

  lemma PushCall(s: State, t: Tid, op: Op, task: Task)
    requires DoCall(s, t, op).Some?
    ensures Accounted(DoCall(s, t, op).value, task) == Accounted(s, task) + if op == Push(task) then 1 else 0
  {
    var next := DoCall(s, t, op).value;
    PusherEnters(s, next, t, next.pcs[t], task);
  }

  lemma PusherEnters(s: State, next: State, t: Tid, pc: Pc, task: Task)
    requires t !in s.pcs && next.pcs == s.pcs[t := pc]
    ensures |Pushing(next, task)| == |Pushing(s, task)| + if Pushes(pc, task) then 1 else 0
  {
    if Pushes(pc, task) {
      assert Pushing(next, task) == Pushing(s, task) + {t} && t !in Pushing(s, task);
    } else {
      assert Pushing(next, task) == Pushing(s, task);
    }
  }

  lemma PushAct(s: State, t: Tid, task: Task)
    requires DoAct(s, t).Some?
    ensures Accounted(DoAct(s, t).value, task) == Accounted(s, task)
  {
    var next := DoAct(s, t).value;
    if s.pcs[t].PushHeld? {
      PushedAppend(s.events, Pushed(s.pcs[t].task), task);
      PusherLeaves(s, next, t, task);
    } else {
      PopActs(s, t, task);
      PopMoves(s, next, t, next.pcs[t], task);
    }
  }

  lemma PopActs(s: State, t: Tid, task: Task)
    requires DoAct(s, t).Some? && !s.pcs[t].PushHeld?
    ensures var next := DoAct(s, t).value;
            && next.events == s.events
            && t in next.pcs && next.pcs == s.pcs[t := next.pcs[t]]
            && !Pushes(s.pcs[t], task) && !Pushes(next.pcs[t], task)
  {
  }

  lemma PopMoves(s: State, next: State, t: Tid, pc: Pc, task: Task)
    requires t in s.pcs && next.pcs == s.pcs[t := pc] && !Pushes(s.pcs[t], task) && !Pushes(pc, task)
    ensures Pushing(next, task) == Pushing(s, task)
  {
  }

  lemma PusherLeaves(s: State, next: State, t: Tid, task: Task)
    requires t in s.pcs && s.pcs[t].PushHeld? && next.pcs == s.pcs[t := PushDone]
    ensures |Pushing(next, task)| == |Pushing(s, task)| - if s.pcs[t].task == task then 1 else 0
  {
    if s.pcs[t].task == task {
      assert Pushing(next, task) == Pushing(s, task) - {t} && t in Pushing(s, task);
    } else {
      assert Pushing(next, task) == Pushing(s, task);
    }
  }

  predicate Pushes(pc: Pc, task: Task) {
    pc == PushStart(task) || pc == PushHeld(task)
  }

  /** A move of one thread that does not touch its push. */
  lemma SamePushing(s: State, next: State, t: Tid, task: Task)
    requires t in s.pcs && next.pcs - {t} == s.pcs - {t}
    requires (t in next.pcs && Pushes(next.pcs[t], task)) <==> Pushes(s.pcs[t], task)
    ensures Pushing(next, task) == Pushing(s, task)
  {
    forall u ensures u in Pushing(next, task) <==> u in Pushing(s, task) {
      if u != t {
        assert u in next.pcs - {t} <==> u in s.pcs - {t};
        if u in s.pcs {
          assert (next.pcs - {t})[u] == (s.pcs - {t})[u];
        }
      }
    }
  }

  lemma PushUnlock(s: State, t: Tid, task: Task)
    requires DoUnlock(s, t).Some?
    ensures Accounted(DoUnlock(s, t).value, task) == Accounted(s, task)
  {
    var next := DoUnlock(s, t).value;
    assert next.pcs - {t} == s.pcs - {t};
    SamePushing(s, next, t, task);
    if s.pcs[t].Returning? {
      PushedAppend(s.events, Popped(s.pcs[t].kind, s.pcs[t].got), task);
    }
  }

  lemma PushNotify(s: State, t: Tid, waiter: Option<Tid>, task: Task)
    requires DoNotify(s, t, waiter).Some?
    ensures Accounted(DoNotify(s, t, waiter).value, task) == Accounted(s, task)
  {
    assert Pushing(DoNotify(s, t, waiter).value, task) == Pushing(s, task);
  }

  /** A call of a push adds one to its task's account; no other step changes any account. */
  lemma PushStep(s: State, l: Label, task: Task)
    requires Step(s, l).Some?
    ensures Accounted(Step(s, l).value, task)
            == Accounted(s, task) + if l.Call? && l.op == Push(task) then 1 else 0
  {
    match l {
      case Call(t, op) => PushCall(s, t, op, task);
      case Act(t) => PushAct(s, t, task);
      case Unlock(t) => PushUnlock(s, t, task);
      case Lock(t, timedOut) => SamePushing(s, Step(s, l).value, t, task);
      case Notify(t, waiter) => PushNotify(s, t, waiter, task);
      case Rouse(t) => SamePushing(s, Step(s, l).value, t, task);
    }
  }

  /**
   Over every run, what was pushed is what the callers pushed: each task as often as it was passed to
   a call, but for the calls that have not reached the queue yet.
   */
  lemma {:induction false} PushedIsCalled(ls: seq<Label>, task: Task)
    requires Run(INIT, ls).Some?
    ensures var s := Run(INIT, ls).value;
            multiset(PushedTasks(s.events))[task] + |Pushing(s, task)| == PushCalls(ls, task)
    decreases |ls|
  {
    if ls == [] {
      assert Pushing(INIT, task) == {};
    } else {
      var init := ls[..|ls| - 1];
      RunLastStep(ls);
      PushedIsCalled(init, task);
      PushStep(Run(INIT, init).value, ls[|ls| - 1], task);
    }
  }
}
