/**
 `AsyncTaskQueue` under interleaving.  Any number of threads run the five operations; every lock,
 test, push, pop, unlock, notify and wake-up is a step of its own.  The condition variable follows
 section 30.5.1 of ISO/IEC 14882:2011: waiting releases the lock and blocks in one step, a notify
 moves one waiter (if any) out of the wait set, and a waiter may also leave it by itself.
 */
module TaskQueue {
  import opened CText

  type Tid = nat
  type Task = nat

  /** How many tasks a consumer takes: `TimePop` and `TryPop` one, the bulk operations all. */
  datatype Kind = One | All

  datatype Op = Push(task: Task) | Pop(timed: bool, kind: Kind)

  /** Where a thread is inside an operation. */
  datatype Pc =
    | PushStart(task: Task)               // before `_lock.lock()`
    | PushHeld(task: Task)                // holds the lock, has not pushed
    | PushDone                            // holds the lock, has pushed
    | PushUnlocked                        // has unlocked, has not called `notify_one`
    | PopStart(timed: bool, kind: Kind)   // before taking the lock
    | PopHeld(kind: Kind, mayWait: bool, roused: bool)  // holds the lock, about to test for tasks
    | Asleep(kind: Kind)                  // in the wait set
    | Woken(kind: Kind)                   // out of the wait set, must take the lock again
    | Taking(kind: Kind, got: seq<Task>)  // holds the lock, found the queue non-empty
    | Returning(kind: Kind, got: seq<Task>)  // holds the lock, result fixed

  predicate Holds(pc: Pc) {
    pc.PushHeld? || pc.PushDone? || pc.PopHeld? || pc.Taking? || pc.Returning?
  }

  /** What the operations did, in the order of their critical sections. */
  datatype Event = Pushed(task: Task) | Popped(kind: Kind, got: seq<Task>)

  /** A thread is idle, between calls, when it has no entry in `pcs`. */
  datatype State = State(lock: Option<Tid>, tasks: seq<Task>, pcs: map<Tid, Pc>, events: seq<Event>)

  const INIT := State(None, [], map[], [])

  datatype Label =
    | Call(t: Tid, op: Op)
    | Lock(t: Tid, timedOut: bool)        // `timedOut`: it ends a wait that reports a timeout
    | Act(t: Tid)
    | Unlock(t: Tid)
    | Notify(t: Tid, waiter: Option<Tid>)
    | Rouse(t: Tid)                       // a timeout or a spurious wake-up

  // ---------- steps ----------

  function DoCall(s: State, t: Tid, op: Op): Option<State> {
    if t in s.pcs then None
    else
      match op
      case Push(task) => Some(s.(pcs := s.pcs[t := PushStart(task)]))
      case Pop(timed, kind) => Some(s.(pcs := s.pcs[t := PopStart(timed, kind)]))
  }

  function DoLock(s: State, t: Tid, timedOut: bool): Option<State> {
    if t !in s.pcs || s.lock.Some? then None
    else
      match s.pcs[t]
      case PushStart(task) =>
        if timedOut then None else Some(s.(lock := Some(t), pcs := s.pcs[t := PushHeld(task)]))
      case PopStart(timed, kind) =>
        if timedOut then None else Some(s.(lock := Some(t), pcs := s.pcs[t := PopHeld(kind, timed, false)]))
      case Woken(kind) => Some(s.(lock := Some(t), pcs := s.pcs[t := PopHeld(kind, !timedOut, true)]))
      case _ => None
  }

  function DoAct(s: State, t: Tid): Option<State> {
    if t !in s.pcs then None
    else
      match s.pcs[t]
      case PushHeld(task) =>
        Some(State(s.lock, s.tasks + [task], s.pcs[t := PushDone], s.events + [Pushed(task)]))
      case PopHeld(kind, mayWait, _) =>
        if s.tasks != [] then Some(s.(pcs := s.pcs[t := Taking(kind, [])]))
        else if mayWait then Some(s.(lock := None, pcs := s.pcs[t := Asleep(kind)]))
        else Some(s.(pcs := s.pcs[t := Returning(kind, [])]))
      case Taking(kind, got) =>
        if s.tasks == [] then Some(s.(pcs := s.pcs[t := Returning(kind, got)]))
        else
          var more := got + [s.tasks[0]];
          Some(s.(tasks := s.tasks[1..],
                  pcs := s.pcs[t := if kind.One? then Returning(kind, more) else Taking(kind, more)]))
      case _ => None
  }

  function DoUnlock(s: State, t: Tid): Option<State> {
    if t !in s.pcs then None
    else
      match s.pcs[t]
      case PushDone => Some(s.(lock := None, pcs := s.pcs[t := PushUnlocked]))
      case Returning(kind, got) =>
        Some(s.(lock := None, pcs := s.pcs - {t}, events := s.events + [Popped(kind, got)]))
      case _ => None
  }

  function DoNotify(s: State, t: Tid, waiter: Option<Tid>): Option<State> {
    if t !in s.pcs || s.pcs[t] != PushUnlocked then None
    else
      match waiter
      case None => if Sleepers(s) == {} then Some(s.(pcs := s.pcs - {t})) else None
      case Some(w) =>
        if w !in Sleepers(s) then None
        else Some(s.(pcs := (s.pcs - {t})[w := Woken(s.pcs[w].kind)]))
  }

  function DoRouse(s: State, t: Tid): Option<State> {
    if t !in Sleepers(s) then None else Some(s.(pcs := s.pcs[t := Woken(s.pcs[t].kind)]))
  }

  /** The state after a step, or `None` when the step cannot be taken. */
  function Step(s: State, l: Label): Option<State> {
    match l
    case Call(t, op) => DoCall(s, t, op)
    case Lock(t, timedOut) => DoLock(s, t, timedOut)
    case Act(t) => DoAct(s, t)
    case Unlock(t) => DoUnlock(s, t)
    case Notify(t, waiter) => DoNotify(s, t, waiter)
    case Rouse(t) => DoRouse(s, t)
  }

  function Run(s: State, ls: seq<Label>): Option<State>
    decreases |ls|
  {
    if ls == [] then Some(s)
    else
      match Step(s, ls[0])
      case None => None
      case Some(next) => Run(next, ls[1..])
  }

  // ---------- the thread sets ----------

  /** Threads blocked in `wait_for`. */
  function Sleepers(s: State): set<Tid> {
    set t | t in s.pcs && s.pcs[t].Asleep?
  }

  /** Pushers that enqueued but have not yet called `notify_one`. */
  function Pending(s: State): set<Tid> {
    set t | t in s.pcs && (s.pcs[t].PushDone? || s.pcs[t].PushUnlocked?)
  }

  /** Threads that left the wait set and have not yet tested the predicate again. */
  function Roused(s: State): set<Tid> {
    set t | t in s.pcs && (s.pcs[t].Woken? || (s.pcs[t].PopHeld? && s.pcs[t].roused))
  }

  /** Threads that found the queue non-empty and, still under the lock, have not finished taking. */
  function Takers(s: State): set<Tid> {
    set t | t in s.pcs && s.pcs[t].Taking?
  }

  // ---------- the atomic FIFO ----------

  /** The queue after the events, or `None` if some event is not one of an atomic FIFO queue. */
  function Replay(events: seq<Event>): Option<seq<Task>> {
    if events == [] then Some([])
    else
      match Replay(events[..|events| - 1])
      case None => None
      case Some(queue) => Perform(queue, events[|events| - 1])
  }

  /** One atomic operation: an empty result only from an empty queue, one task from its front, or all. */
  function Perform(queue: seq<Task>, e: Event): Option<seq<Task>> {
    match e
    case Pushed(task) => Some(queue + [task])
    case Popped(One, got) =>
      if got == [] then (if queue == [] then Some([]) else None)
      else if queue != [] && got == [queue[0]] then Some(queue[1..])
      else None
    case Popped(All, got) => if got == queue then Some([]) else None
  }

  /** The tasks taken by the critical section in progress. */
  function InHand(s: State): seq<Task> {
    if s.lock.Some? && s.lock.value in s.pcs then
      match s.pcs[s.lock.value]
      case Taking(_, got) => got
      case Returning(_, got) => got
      case _ => []
    else []
  }

  // ---------- the invariant ----------

  /** The lock is held by exactly the thread whose position says so. */
  ghost predicate LockInv(s: State) {
    forall t :: s.lock == Some(t) <==> t in s.pcs && Holds(s.pcs[t])
  }

  ghost predicate ResultInv(s: State) {
    forall t :: t in s.pcs ==>
      match s.pcs[t]
      case Taking(kind, got) => (kind.One? ==> got == []) && (got == [] ==> s.tasks != [])
      case Returning(One, got) => |got| <= 1 && (got == [] ==> s.tasks == [])
      case Returning(All, _) => s.tasks == []
      case _ => true
  }

  ghost predicate FifoInv(s: State) {
    Replay(s.events) == Some(InHand(s) + s.tasks)
  }

  /** Where a thread sleeps un-notified, every queued task has a thread on its way to it. */
  ghost predicate WakeInv(s: State) {
    Sleepers(s) != {} ==> |s.tasks| <= |Pending(s)| + |Roused(s)| + |Takers(s)|
  }

  ghost predicate Inv(s: State) {
    LockInv(s) && ResultInv(s) && FifoInv(s) && WakeInv(s)
  }

  // ---------- every step keeps it ----------

  lemma LockKept(s: State, l: Label)
    requires LockInv(s) && Step(s, l).Some?
    ensures LockInv(Step(s, l).value)
  {
  }

  lemma ResultKept(s: State, l: Label)
    requires LockInv(s) && ResultInv(s) && Step(s, l).Some?
    ensures ResultInv(Step(s, l).value)
  {
  }

  lemma ReplayAppend(events: seq<Event>, e: Event, queue: seq<Task>)
    requires Replay(events) == Some(queue)
    ensures Replay(events + [e]) == Perform(queue, e)
  {
    assert (events + [e])[..|events|] == events;
  }

  lemma FifoAct(s: State, t: Tid)
    requires LockInv(s) && ResultInv(s) && FifoInv(s) && DoAct(s, t).Some?
    ensures FifoInv(DoAct(s, t).value)
  {
    if s.pcs[t].PushHeld? {
      FifoPush(s, t);
    } else {
      FifoTake(s, t);
    }
  }

  lemma FifoPush(s: State, t: Tid)
    requires LockInv(s) && FifoInv(s) && t in s.pcs && s.pcs[t].PushHeld?
    ensures FifoInv(DoAct(s, t).value)
  {
    var next := DoAct(s, t).value;
    assert s.lock == Some(t) && InHand(s) == [] && InHand(next) == [];
    assert [] + s.tasks == s.tasks && [] + next.tasks == next.tasks;
    ReplayAppend(s.events, Pushed(s.pcs[t].task), s.tasks);
  }

  /** Testing and taking move tasks from `_tasks` to the hand, in order. */
  lemma FifoTake(s: State, t: Tid)
    requires LockInv(s) && ResultInv(s) && FifoInv(s) && DoAct(s, t).Some? && !s.pcs[t].PushHeld?
    ensures FifoInv(DoAct(s, t).value)
  {
    var next := DoAct(s, t).value;
    assert s.lock == Some(t);
    assert InHand(next) + next.tasks == InHand(s) + s.tasks;
  }

  lemma FifoUnlock(s: State, t: Tid)
    requires LockInv(s) && ResultInv(s) && FifoInv(s) && DoUnlock(s, t).Some?
    ensures FifoInv(DoUnlock(s, t).value)
  {
    var next := DoUnlock(s, t).value;
    assert s.lock == Some(t) && InHand(next) == [];
    assert [] + next.tasks == next.tasks;
    if s.pcs[t].Returning? {
      var kind, got := s.pcs[t].kind, s.pcs[t].got;
      ReplayAppend(s.events, Popped(kind, got), got + s.tasks);
      ReturnPops(kind, got, s.tasks);
    }
  }

  /** A result and what it left are one atomic pop. */
  lemma ReturnPops(kind: Kind, got: seq<Task>, left: seq<Task>)
    requires if kind.One? then |got| <= 1 && (got == [] ==> left == []) else left == []
    ensures Perform(got + left, Popped(kind, got)) == Some(left)
  {
    if |got| == 1 {
      assert (got + left)[1..] == left && got == [(got + left)[0]];
    }
    assert left == [] ==> got + left == got;
  }

  /** A step either leaves the atomic queue as it is or performs one operation on it. */
  lemma FifoKept(s: State, l: Label)
    requires LockInv(s) && ResultInv(s) && FifoInv(s) && Step(s, l).Some?
    ensures FifoInv(Step(s, l).value)
  {
    match l {
      case Act(t) => FifoAct(s, t);
      case Unlock(t) => FifoUnlock(s, t);
      case Call(t, op) => assert InHand(Step(s, l).value) == InHand(s);
      case Lock(t, timedOut) => assert InHand(Step(s, l).value) == InHand(s);
      case Notify(t, waiter) => assert InHand(Step(s, l).value) == InHand(s);
      case Rouse(t) => assert InHand(Step(s, l).value) == InHand(s);
    }
  }

  // ---------- no lost wake-up ----------

  lemma WakeCall(s: State, t: Tid, op: Op)
    requires WakeInv(s) && DoCall(s, t, op).Some?
    ensures WakeInv(DoCall(s, t, op).value)
  {
    var next := DoCall(s, t, op).value;
    assert Sleepers(next) == Sleepers(s) && Pending(next) == Pending(s);
    assert Roused(next) == Roused(s) && Takers(next) == Takers(s);
  }

  lemma WakeLock(s: State, t: Tid, timedOut: bool)
    requires WakeInv(s) && DoLock(s, t, timedOut).Some?
    ensures WakeInv(DoLock(s, t, timedOut).value)
  {
    var next := DoLock(s, t, timedOut).value;
    assert Sleepers(next) == Sleepers(s) && Pending(next) == Pending(s);
    assert Roused(next) == Roused(s) && Takers(next) == Takers(s);
  }

  /** A push adds one task and one pusher that has not notified yet. */
  lemma WakePush(s: State, t: Tid)
    requires WakeInv(s) && t in s.pcs && s.pcs[t].PushHeld? && DoAct(s, t).Some?
    ensures WakeInv(DoAct(s, t).value)
  {
    BecomesPending(s, t, DoAct(s, t).value);
  }

  lemma BecomesPending(s: State, t: Tid, next: State)
    requires t in s.pcs && s.pcs[t].PushHeld? && next.pcs == s.pcs[t := PushDone]
    ensures Sleepers(next) == Sleepers(s) && Roused(next) == Roused(s) && Takers(next) == Takers(s)
    ensures |Pending(next)| == |Pending(s)| + 1
  {
    assert Pending(next) == Pending(s) + {t} && t !in Pending(s);
  }

  /** A test either finds the queue empty or turns the (roused) thread into a taker. */
  lemma WakeTest(s: State, t: Tid)
    requires WakeInv(s) && t in s.pcs && s.pcs[t].PopHeld? && DoAct(s, t).Some?
    ensures WakeInv(DoAct(s, t).value)
  {
    if s.tasks != [] {
      BecomesTaker(s, t);
    }
  }

  lemma BecomesTaker(s: State, t: Tid)
    requires t in s.pcs && s.pcs[t].PopHeld?
    ensures var next := s.(pcs := s.pcs[t := Taking(s.pcs[t].kind, [])]);
            && Sleepers(next) == Sleepers(s) && Pending(next) == Pending(s)
            && |Takers(next)| == |Takers(s)| + 1 && |Roused(s)| <= |Roused(next)| + 1
  {
    var next := s.(pcs := s.pcs[t := Taking(s.pcs[t].kind, [])]);
    assert Takers(next) == Takers(s) + {t} && t !in Takers(s);
    assert Roused(next) == Roused(s) - {t};
  }

  /** A taker leaves with one task or goes on until none is left. */
  lemma WakeTake(s: State, t: Tid)
    requires ResultInv(s) && WakeInv(s) && t in s.pcs && s.pcs[t].Taking? && DoAct(s, t).Some?
    ensures WakeInv(DoAct(s, t).value)
  {
    var next := DoAct(s, t).value;
    if next.tasks != [] {
      assert Sleepers(next) == Sleepers(s) && Pending(next) == Pending(s) && Roused(next) == Roused(s);
      assert Takers(next) == if s.pcs[t].kind.One? then Takers(s) - {t} else Takers(s);
    }
  }

  lemma WakeUnlock(s: State, t: Tid)
    requires WakeInv(s) && DoUnlock(s, t).Some?
    ensures WakeInv(DoUnlock(s, t).value)
  {
    var next := DoUnlock(s, t).value;
    assert Sleepers(next) == Sleepers(s) && Pending(next) == Pending(s);
    assert Roused(next) == Roused(s) && Takers(next) == Takers(s);
  }

  /** The notify spends one pusher and rouses one sleeper, unless nobody sleeps. */
  lemma WakeNotify(s: State, t: Tid, waiter: Option<Tid>)
    requires WakeInv(s) && DoNotify(s, t, waiter).Some?
    ensures WakeInv(DoNotify(s, t, waiter).value)
  {
    var next := DoNotify(s, t, waiter).value;
    if waiter.Some? {
      var w := waiter.value;
      assert w in Sleepers(s);
      assert Pending(next) == Pending(s) - {t} && t in Pending(s);
      assert Roused(next) == Roused(s) + {w} && w !in Roused(s);
      assert Takers(next) == Takers(s);
    } else {
      assert Sleepers(next) == {};
    }
  }

  lemma WakeRouse(s: State, t: Tid)
    requires WakeInv(s) && DoRouse(s, t).Some?
    ensures WakeInv(DoRouse(s, t).value)
  {
    var next := DoRouse(s, t).value;
    assert t in Sleepers(s);
    assert Pending(next) == Pending(s) && Takers(next) == Takers(s);
    assert Roused(next) == Roused(s) + {t} && t !in Roused(s);
  }

  lemma WakeKept(s: State, l: Label)
    requires LockInv(s) && ResultInv(s) && WakeInv(s) && Step(s, l).Some?
    ensures WakeInv(Step(s, l).value)
  {
    match l {
      case Call(t, op) => WakeCall(s, t, op);
      case Lock(t, timedOut) => WakeLock(s, t, timedOut);
      case Act(t) =>
        if s.pcs[t].PushHeld? {
          WakePush(s, t);
        } else if s.pcs[t].PopHeld? {
          WakeTest(s, t);
        } else {
          WakeTake(s, t);
        }
      case Unlock(t) => WakeUnlock(s, t);
      case Notify(t, waiter) => WakeNotify(s, t, waiter);
      case Rouse(t) => WakeRouse(s, t);
    }
  }

  lemma InvKept(s: State, l: Label)
    requires Inv(s) && Step(s, l).Some?
    ensures Inv(Step(s, l).value)
  {
    LockKept(s, l);
    ResultKept(s, l);
    FifoKept(s, l);
    WakeKept(s, l);
  }

  lemma {:induction false} InvOverRun(s: State, ls: seq<Label>)
    requires Inv(s) && Run(s, ls).Some?
    ensures Inv(Run(s, ls).value)
    decreases |ls|
  {
    if ls != [] {
      InvKept(s, ls[0]);
      InvOverRun(Step(s, ls[0]).value, ls[1..]);
    }
  }

  // ---------- what holds over every run ----------

  ghost predicate Reachable(s: State) {
    exists ls :: Run(INIT, ls) == Some(s)
  }

  lemma ReachableInv(s: State)
    requires Reachable(s)
    ensures Inv(s)
  {
    var ls :| Run(INIT, ls) == Some(s);
    assert InHand(INIT) + INIT.tasks == [];
    assert Inv(INIT);
    InvOverRun(INIT, ls);
  }

  /**
   No lost wake-up.  While some thread sleeps un-notified, each queued task is matched by a pusher
   that has not notified yet, by a roused thread that has not tested again, or by the one lock
   holder that has tested and is taking.  With none of these, a sleeper means an empty queue.
   */
  lemma NoLostWakeUp(s: State)
    requires Reachable(s)
    ensures Sleepers(s) != {} ==> |s.tasks| <= |Pending(s)| + |Roused(s)| + |Takers(s)|
    ensures |Takers(s)| <= 1 && (s.lock == None ==> Takers(s) == {})
    ensures Sleepers(s) != {} && s.lock == None ==> |s.tasks| <= |Pending(s)| + |Roused(s)|
    ensures Sleepers(s) != {} && Pending(s) == {} && Roused(s) == {} && s.lock == None ==> s.tasks == []
  {
    ReachableInv(s);
    if s.lock == None {
      assert Takers(s) == {};
    } else {
      assert Takers(s) <= {s.lock.value};
      assert Takers(s) == {} || Takers(s) == {s.lock.value};
    }
  }

  function PushedTasks(events: seq<Event>): seq<Task> {
    if events == [] then []
    else
      PushedTasks(events[..|events| - 1])
      + match events[|events| - 1] case Pushed(task) => [task] case Popped(_, _) => []
  }

  function TakenTasks(events: seq<Event>): seq<Task> {
    if events == [] then []
    else
      TakenTasks(events[..|events| - 1])
      + match events[|events| - 1] case Pushed(_) => [] case Popped(_, got) => got
  }

  lemma {:induction false} ReplayConserves(events: seq<Event>)
    requires Replay(events).Some?
    ensures PushedTasks(events) == TakenTasks(events) + Replay(events).value
  {
    if events != [] {
      var init, e := events[..|events| - 1], events[|events| - 1];
      ReplayConserves(init);
      ReplayStep(PushedTasks(init), TakenTasks(init), Replay(init).value, e);
    }
  }

  lemma ReplayStep(pushed: seq<Task>, taken: seq<Task>, queue: seq<Task>, e: Event)
    requires pushed == taken + queue && Perform(queue, e).Some?
    ensures e.Pushed? ==> pushed + [e.task] == taken + Perform(queue, e).value
    ensures e.Popped? ==> pushed == taken + e.got + Perform(queue, e).value
  {
    if e.Popped? {
      assert e.got + Perform(queue, e).value == queue;
    }
  }

  /**
   The queue refines an atomic FIFO: in every reachable state the operations in lock order are
   operations of one FIFO queue, which holds the tasks in hand followed by `_tasks`.  So what was
   taken, then what is in hand, then `_tasks`, is what was pushed: nothing lost, doubled or reordered.
   */
  lemma RefinesAtomicFifo(s: State)
    requires Reachable(s)
    ensures Replay(s.events) == Some(InHand(s) + s.tasks)
    ensures PushedTasks(s.events) == TakenTasks(s.events) + InHand(s) + s.tasks
  {
    ReachableInv(s);
    ReplayConserves(s.events);
  }

  /** A call returns nothing only when `_tasks` is empty under its own lock. */
  lemma EmptyResultOnlyIfEmpty(s: State, t: Tid)
    requires Reachable(s) && t in s.pcs && s.pcs[t].Returning? && s.pcs[t].got == []
    ensures s.tasks == [] && s.lock == Some(t)
  {
    ReachableInv(s);
    if s.pcs[t].kind.One? {
      assert s.tasks == [];
    }
  }

  /** A thread outside the critical sections, in particular after any return, holds no lock. */
  lemma LockReleased(s: State, t: Tid)
    requires Reachable(s) && (t !in s.pcs || !Holds(s.pcs[t]))
    ensures s.lock != Some(t)
  {
    ReachableInv(s);
  }
}
