/**
 The operations of `AsyncTaskQueue` as the source writes them, each run without interference, and
 the proof that such a run is a run of the interleaved machine.
 */
module AsyncTasks {
  import opened CText
  import opened TaskQueue

  /** `TryPop` on a queue value: the front task, or null, and what is left. */
  function TryPopped(queue: seq<Task>): (r: (Option<Task>, seq<Task>))
    ensures r.0 == None <==> queue == []
    ensures queue == (if r.0.Some? then [r.0.value] else []) + r.1
  {
    if queue == [] then (None, []) else (Some(queue[0]), queue[1..])
  }

  /** `TryPop` repeated until it returns null: the tasks returned, and what is left. */
  function PopUntilNull(queue: seq<Task>): (seq<Task>, seq<Task>)
    decreases |queue|
  {
    match TryPopped(queue)
    case (None, left) => ([], left)
    case (Some(task), left) =>
      var (others, end) := PopUntilNull(left);
      ([task] + others, end)
  }

  lemma {:induction false} PopUntilNullDrains(queue: seq<Task>)
    ensures PopUntilNull(queue) == (queue, [])
    decreases |queue|
  {
    if queue != [] {
      PopUntilNullDrains(queue[1..]);
    }
  }

  class AsyncTaskQueue {
    var locked: bool
    var tasks: seq<Task>

    constructor ()
      ensures !locked && tasks == []
    {
      locked, tasks := false, [];
    }

    method Push(task: Task)
      requires !locked
      modifies this
      ensures !locked && tasks == old(tasks) + [task]
    {
      locked := true;
      tasks := tasks + [task];
      locked := false;
    }

    method TryPop() returns (task: Option<Task>)
      requires !locked
      modifies this
      ensures !locked && (task, tasks) == TryPopped(old(tasks))
    {
      locked := true;
      if tasks == [] {
        locked := false;
        return None;
      }
      task := Some(tasks[0]);
      tasks := tasks[1..];
      locked := false;
    }

    /**
     `_cv.wait_for` with the non-empty test: an empty queue gives up the lock until, with nobody
     else running, the timeout returns it.
     */
    method WaitFor()
      requires locked
      modifies this`locked
      ensures locked
    {
      if tasks == [] {
        locked := false;
        locked := true;
      }
    }

    method TimePop() returns (task: Option<Task>)
      requires !locked
      modifies this
      ensures !locked && (task, tasks) == TryPopped(old(tasks))
    {
      locked := true;
      WaitFor();
      if tasks == [] {
        locked := false;
        return None;
      }
      task := Some(tasks[0]);
      tasks := tasks[1..];
      locked := false;
    }

    /** The drain loop both bulk operations run under the lock. */
    method Drain(out: seq<Task>) returns (filled: seq<Task>)
      requires locked
      modifies this`tasks
      ensures filled == out + PopUntilNull(old(tasks)).0
      ensures tasks == PopUntilNull(old(tasks)).1 == []
    {
      filled := out;
      PopUntilNullDrains(tasks);
      while tasks != []
        invariant filled + tasks == out + old(tasks)
        decreases |tasks|
      {
        filled := filled + [tasks[0]];
        tasks := tasks[1..];
      }
    }

    method PopAll(out: seq<Task>) returns (filled: seq<Task>)
      requires !locked
      modifies this
      ensures !locked && filled == out + PopUntilNull(old(tasks)).0 && tasks == []
    {
      locked := true;
      filled := Drain(out);
      locked := false;
    }

    method TimePopAll(out: seq<Task>) returns (filled: seq<Task>)
      requires !locked
      modifies this
      ensures !locked && filled == out + PopUntilNull(old(tasks)).0 && tasks == []
    {
      locked := true;
      WaitFor();
      if tasks == [] {
        locked := false;
        return out;
      }
      filled := Drain(out);
      locked := false;
    }
  }

  // ---------- uninterrupted runs of the machine ----------

  lemma RunCons(s: State, l: Label, rest: seq<Label>)
    requires Step(s, l).Some?
    ensures Run(s, [l] + rest) == Run(Step(s, l).value, rest)
  {
    assert ([l] + rest)[1..] == rest;
  }

  lemma RunLast(s: State, l: Label)
    ensures Run(s, [l]) == Step(s, l)
  {
    assert [l][1..] == [];
  }

  /** `n` steps under the lock, then the unlock. */
  function Acts(t: Tid, n: nat): seq<Label> {
    if n == 0 then [Unlock(t)] else [Act(t)] + Acts(t, n - 1)
  }

  lemma {:induction false} TakingRun(s: State, t: Tid)
    requires t in s.pcs && s.pcs[t].Taking? && s.pcs[t].kind.All?
    ensures Run(s, Acts(t, |s.tasks| + 1))
            == Some(State(None, [], s.pcs - {t}, s.events + [Popped(All, s.pcs[t].got + s.tasks)]))
    decreases |s.tasks|
  {
    var got := s.pcs[t].got;
    var next := Step(s, Act(t)).value;
    RunCons(s, Act(t), Acts(t, |s.tasks|));
    assert next.pcs - {t} == s.pcs - {t};
    if s.tasks == [] {
      RunLast(next, Unlock(t));
      assert got + s.tasks == got;
    } else {
      TakingRun(next, t);
      assert got + s.tasks == (got + [s.tasks[0]]) + s.tasks[1..];
    }
  }

  /** The state once a consumer has taken the lock and tested the queue. */
  function Entered(s: State, t: Tid, kind: Kind): State {
    s.(lock := Some(t), pcs := s.pcs[t := if s.tasks == [] then Returning(kind, []) else Taking(kind, [])])
  }

  /** A consumer alone takes the lock and tests: `Taking` on a non-empty queue. */
  lemma EnterAlone(s: State, t: Tid, timed: bool, kind: Kind, tail: seq<Label>)
    requires s.lock == None && t !in s.pcs && (timed ==> s.tasks != [])
    ensures Run(s, [Call(t, Pop(timed, kind))] + ([Lock(t, false)] + ([Act(t)] + tail)))
            == Run(Entered(s, t, kind), tail)
  {
    var s1 := Step(s, Call(t, Pop(timed, kind))).value;
    var s2 := Step(s1, Lock(t, false)).value;
    var s3 := Step(s2, Act(t)).value;
    RunCons(s, Call(t, Pop(timed, kind)), [Lock(t, false)] + ([Act(t)] + tail));
    RunCons(s1, Lock(t, false), [Act(t)] + tail);
    RunCons(s2, Act(t), tail);
    assert s3.pcs == Entered(s, t, kind).pcs;
  }

  function Alone(t: Tid, timed: bool, kind: Kind, tail: seq<Label>): seq<Label> {
    [Call(t, Pop(timed, kind))] + ([Lock(t, false)] + ([Act(t)] + tail))
  }

  /** A pop of either kind that finds the queue empty, run alone, leaves it so. */
  lemma PopEmptyAlone(s: State, t: Tid, kind: Kind)
    requires s.lock == None && t !in s.pcs && s.tasks == []
    ensures Run(s, Alone(t, false, kind, Acts(t, 0))) == Some(s.(events := s.events + [Popped(kind, [])]))
  {
    EnterAlone(s, t, false, kind, Acts(t, 0));
    var s3 := Entered(s, t, kind);
    assert s3.pcs - {t} == s.pcs;
    RunLast(s3, Unlock(t));
  }

  /** `PopAll`, and `TimePopAll` on a non-empty queue, run alone: one atomic drain of the queue. */
  lemma PopAllAlone(s: State, t: Tid, timed: bool)
    requires s.lock == None && t !in s.pcs && (timed ==> s.tasks != [])
    ensures Run(s, Alone(t, timed, All, Acts(t, if s.tasks == [] then 0 else |s.tasks| + 1)))
            == Some(s.(tasks := [], events := s.events + [Popped(All, PopUntilNull(s.tasks).0)]))
  {
    PopUntilNullDrains(s.tasks);
    if s.tasks == [] {
      PopEmptyAlone(s, t, All);
    } else {
      var s3 := Entered(s, t, All);
      EnterAlone(s, t, timed, All, Acts(t, |s.tasks| + 1));
      TakingRun(s3, t);
      assert s3.pcs - {t} == s.pcs;
      assert [] + s.tasks == s.tasks;
    }
  }

  lemma TakeOneRun(s: State, t: Tid)
    requires t in s.pcs && s.pcs[t] == Taking(One, []) && s.tasks != []
    ensures Run(s, Acts(t, 1))
            == Some(State(None, s.tasks[1..], s.pcs - {t}, s.events + [Popped(One, [s.tasks[0]])]))
  {
    var next := Step(s, Act(t)).value;
    assert [] + [s.tasks[0]] == [s.tasks[0]];
    assert Acts(t, 1) == [Act(t)] + Acts(t, 0) && Acts(t, 0) == [Unlock(t)];
    RunCons(s, Act(t), Acts(t, 0));
    RunLast(next, Unlock(t));
    assert next.pcs - {t} == s.pcs - {t};
  }

  /** `TryPop`, and `TimePop` on a non-empty queue, run alone: one atomic pop. */
  lemma PopOneAlone(s: State, t: Tid, timed: bool)
    requires s.lock == None && t !in s.pcs && (timed ==> s.tasks != [])
    ensures var (task, left) := TryPopped(s.tasks);
            Run(s, Alone(t, timed, One, Acts(t, if s.tasks == [] then 0 else 1)))
            == Some(s.(tasks := left, events := s.events + [Popped(One, if task.Some? then [task.value] else [])]))
  {
    if s.tasks == [] {
      PopEmptyAlone(s, t, One);
    } else {
      var s3 := Entered(s, t, One);
      EnterAlone(s, t, timed, One, Acts(t, 1));
      TakeOneRun(s3, t);
      assert s3.pcs - {t} == s.pcs;
    }
  }

  /** `Push` run alone: the caller's task is queued last, and one sleeper, if any, is woken. */
  lemma PushAlone(s: State, t: Tid, task: Task, waiter: Option<Tid>)
    requires s.lock == None && t !in s.pcs
    requires if waiter.Some? then waiter.value in Sleepers(s) else Sleepers(s) == {}
    ensures Run(s, [Call(t, Push(task))] + ([Lock(t, false)] + ([Act(t)] + ([Unlock(t)] + [Notify(t, waiter)]))))
            == Some(State(None, s.tasks + [task],
                          if waiter.Some? then s.pcs[waiter.value := Woken(s.pcs[waiter.value].kind)] else s.pcs,
                          s.events + [Pushed(task)]))
  {
    var s1 := Step(s, Call(t, Push(task))).value;
    var s2 := Step(s1, Lock(t, false)).value;
    var s3 := Step(s2, Act(t)).value;
    var s4 := Step(s3, Unlock(t)).value;
    RunCons(s, Call(t, Push(task)), [Lock(t, false)] + ([Act(t)] + ([Unlock(t)] + [Notify(t, waiter)])));
    RunCons(s1, Lock(t, false), [Act(t)] + ([Unlock(t)] + [Notify(t, waiter)]));
    RunCons(s2, Act(t), [Unlock(t)] + [Notify(t, waiter)]);
    RunCons(s3, Unlock(t), [Notify(t, waiter)]);
    RunLast(s4, Notify(t, waiter));
    SameSleepers(s, s4, t);
    assert s4.pcs - {t} == s.pcs;
  }

  lemma SameSleepers(s: State, s4: State, t: Tid)
    requires t !in s.pcs && s4.pcs == s.pcs[t := PushUnlocked]
    ensures Sleepers(s4) == Sleepers(s)
  {
  }

  // ---------- waiting ----------

  /** A timed pop on an empty queue goes to sleep and gives up the lock. */
  lemma TimedPopSleeps(s: State, t: Tid, kind: Kind)
    requires s.lock == None && t !in s.pcs && s.tasks == []
    ensures Run(s, [Call(t, Pop(true, kind))] + ([Lock(t, false)] + [Act(t)]))
            == Some(s.(pcs := s.pcs[t := Asleep(kind)]))
    ensures t in Sleepers(s.(pcs := s.pcs[t := Asleep(kind)]))
  {
    var s1 := Step(s, Call(t, Pop(true, kind))).value;
    var s2 := Step(s1, Lock(t, false)).value;
    RunCons(s, Call(t, Pop(true, kind)), [Lock(t, false)] + [Act(t)]);
    RunCons(s1, Lock(t, false), [Act(t)]);
    RunLast(s2, Act(t));
    assert Step(s2, Act(t)).value.pcs == s.pcs[t := Asleep(kind)];
  }

  /** Roused without a timeout, it sleeps again while the queue is empty. */
  lemma RousedSleepsAgain(s: State, t: Tid)
    requires s.lock == None && t in Sleepers(s) && s.tasks == []
    ensures Run(s, [Rouse(t)] + ([Lock(t, false)] + [Act(t)])) == Some(s)
  {
    var s1 := Step(s, Rouse(t)).value;
    var s2 := Step(s1, Lock(t, false)).value;
    RunCons(s, Rouse(t), [Lock(t, false)] + [Act(t)]);
    RunCons(s1, Lock(t, false), [Act(t)]);
    RunLast(s2, Act(t));
    assert Step(s2, Act(t)).value.pcs == s.pcs;
  }

  /** Timed out on an empty queue, it returns nothing. */
  lemma TimeoutReturnsNothing(s: State, t: Tid)
    requires s.lock == None && t in Sleepers(s) && s.tasks == []
    ensures Run(s, [Rouse(t)] + ([Lock(t, true)] + ([Act(t)] + [Unlock(t)])))
            == Some(s.(pcs := s.pcs - {t}, events := s.events + [Popped(s.pcs[t].kind, [])]))
  {
    var s1 := Step(s, Rouse(t)).value;
    var s2 := Step(s1, Lock(t, true)).value;
    var s3 := Step(s2, Act(t)).value;
    RunCons(s, Rouse(t), [Lock(t, true)] + ([Act(t)] + [Unlock(t)]));
    RunCons(s1, Lock(t, true), [Act(t)] + [Unlock(t)]);
    RunCons(s2, Act(t), [Unlock(t)]);
    RunLast(s3, Unlock(t));
    assert s3.pcs - {t} == s.pcs - {t};
  }

  /** Woken for a task, timed out or not, it takes what is queued: the front task, or all of them. */
  lemma WokenTakes(s: State, t: Tid, timedOut: bool)
    requires s.lock == None && t in s.pcs && s.pcs[t].Woken? && s.tasks != []
    ensures var n := if s.pcs[t].kind.One? then 1 else |s.tasks|;
            Run(s, [Lock(t, timedOut)] + ([Act(t)] + Acts(t, if s.pcs[t].kind.One? then 1 else |s.tasks| + 1)))
            == Some(State(None, s.tasks[n..], s.pcs - {t}, s.events + [Popped(s.pcs[t].kind, s.tasks[..n])]))
  {
    var kind := s.pcs[t].kind;
    var more := Acts(t, if kind.One? then 1 else |s.tasks| + 1);
    var s1 := Step(s, Lock(t, timedOut)).value;
    var s2 := Step(s1, Act(t)).value;
    RunCons(s, Lock(t, timedOut), [Act(t)] + more);
    RunCons(s1, Act(t), more);
    assert s2.pcs - {t} == s.pcs - {t};
    if kind.One? {
      TakeOneRun(s2, t);
      assert s.tasks[..1] == [s.tasks[0]];
    } else {
      TakingRun(s2, t);
      assert [] + s.tasks == s.tasks == s.tasks[..|s.tasks|];
      assert s.tasks[|s.tasks|..] == [];
    }
  }
}
