/**
 `MysqlDB::Flush` against the worker threads of `AsyncWorkFunc`, under interleaving.  One thread adds
 tasks and flushes; each of any number of workers drains its own queue, executes what it took, and
 then raises its flag if a flush is under way.  Draining is one step: it is one critical section of
 the queue.  The test `taskQueue->Empty()` is always true, because it reads a counter that no
 operation updates, so what the worker tests is `_flushing` alone.
 */
module AsyncFlush {
  import opened CText

  type Task = nat

  /** Where a worker is in its loop. */
  datatype WorkerPc =
    | AtPop                      // before or inside `TimePopAll`, which has not yet taken anything
    | Working(hand: seq<Task>)   // executing what it took; with an empty hand, about to test `_flushing`
    | Raising                    // has read `_flushing` as true, has not set its flag

  /** A worker with its queue and flag, and for the record all that was pushed to it and executed by it. */
  datatype Worker = Worker(queue: seq<Task>, pc: WorkerPc, flag: bool, pushed: seq<Task>, done: seq<Task>)

  /** Where the main thread is: outside `Flush`, clearing flag `k`, or waiting for flag `k`. */
  datatype MainPc = Idle | Clearing(k: nat) | Waiting(k: nat)

  datatype State = State(main: MainPc, flushing: bool, workers: seq<Worker>)

  datatype Label = Push(i: nat, task: Task) | StartFlush | Main | Work(i: nat)

  // ---------- steps ----------

  function Hand(w: Worker): seq<Task> {
    if w.pc.Working? then w.pc.hand else []
  }

  function Worked(w: Worker, flushing: bool): Worker {
    match w.pc
    case AtPop => w.(queue := [], pc := Working(w.queue))
    case Working(hand) =>
      if hand != [] then w.(pc := Working(hand[1..]), done := w.done + [hand[0]])
      else w.(pc := if flushing then Raising else AtPop)
    case Raising => w.(flag := true, pc := AtPop)
  }

  function DoMain(s: State): Option<State> {
    match s.main
    case Idle => None
    case Clearing(k) =>
      if k < |s.workers| then
        Some(s.(main := Clearing(k + 1), workers := s.workers[k := s.workers[k].(flag := false)]))
      else Some(s.(main := Waiting(0), flushing := true))
    case Waiting(k) =>
      if k >= |s.workers| then Some(s.(main := Idle, flushing := false))
      else if s.workers[k].flag then Some(s.(main := Waiting(k + 1)))
      else None
  }

  /** The state after a step, or `None` when the step cannot be taken. */
  function Step(s: State, l: Label): Option<State> {
    match l
    case Push(i, task) =>
      if s.main != Idle || i >= |s.workers| then None
      else
        var w := s.workers[i];
        Some(s.(workers := s.workers[i := w.(queue := w.queue + [task], pushed := w.pushed + [task])]))
    case StartFlush => if s.main != Idle || s.flushing then None else Some(s.(main := Clearing(0)))
    case Main => DoMain(s)
    case Work(i) =>
      if i >= |s.workers| then None
      else Some(s.(workers := s.workers[i := Worked(s.workers[i], s.flushing)]))
  }

  /** A run inside one flush: it may return only at the end of `ls`. */
  function FlushRun(s: State, ls: seq<Label>): Option<State>
    decreases |ls|
  {
    if ls == [] then Some(s)
    else if s.main == Idle then None
    else
      match Step(s, ls[0])
      case None => None
      case Some(next) => FlushRun(next, ls[1..])
  }

  /** From the call in state `s`, `ls` are the steps of all threads until the flush returns in `end`. */
  predicate Flushes(s: State, ls: seq<Label>, end: State) {
    && Step(s, StartFlush).Some?
    && FlushRun(Step(s, StartFlush).value, ls) == Some(end)
    && end.main == Idle
  }

  // ---------- what every step keeps ----------

  /** No task of a worker is lost, doubled or reordered; `_flushing` is set exactly while a flush waits. */
  ghost predicate Inv(s: State) {
    && (s.flushing <==> s.main.Waiting?)
    && forall i :: 0 <= i < |s.workers| ==> Conserved(s.workers[i])
  }

  predicate Conserved(w: Worker) {
    w.pushed == w.done + Hand(w) + w.queue
  }

  lemma WorkedConserves(w: Worker, flushing: bool)
    requires Conserved(w)
    ensures Conserved(Worked(w, flushing))
  {
    if w.pc.Working? && w.pc.hand != [] {
      var hand := w.pc.hand;
      assert w.done + hand == w.done + [hand[0]] + hand[1..];
    }
  }

  /** Whatever any thread does next, tasks are conserved. */
  lemma InvKept(s: State, l: Label)
    requires Inv(s) && Step(s, l).Some?
    ensures Inv(Step(s, l).value)
  {
    match l {
      case Push(i, task) =>
        var w := s.workers[i];
        assert w.done + Hand(w) + w.queue + [task] == w.done + Hand(w) + (w.queue + [task]);
      case StartFlush =>
      case Main =>
      case Work(i) => WorkedConserves(s.workers[i], s.flushing);
    }
  }

  /** There is one main thread: outside a flush it can always start one, and inside it does nothing else. */
  lemma OneMainThread(s: State, l: Label)
    requires Inv(s)
    ensures Step(s, StartFlush).Some? <==> s.main == Idle
    ensures s.main != Idle && Step(s, l).Some? ==> l.Main? || l.Work?
  {
  }

  ghost predicate AllDone(s: State) {
    forall i :: 0 <= i < |s.workers| ==> s.workers[i].done == s.workers[i].pushed
  }

  // ---------- when a flush is complete ----------

  /** The worker will drain its queue before it can raise its flag. */
  predicate Ready(w: Worker) {
    w.queue == [] || w.pc == AtPop
  }

  predicate AllReady(s: State) {
    forall i :: 0 <= i < |s.workers| ==> Ready(s.workers[i])
  }

  /** The flag of worker `i` was cleared by the flush under way, and has been raised since. */
  predicate RaisedAgain(s: State, i: nat) {
    && i < |s.workers| && s.workers[i].flag
    && (s.main.Clearing? ==> i < s.main.k)
  }

  /** Inside a flush: the flags waited for so far are up, and a raised flag means a ready worker. */
  ghost predicate Raised(s: State) {
    && (forall i :: 0 <= i < |s.workers| && RaisedAgain(s, i) ==> Ready(s.workers[i]))
    && (s.main.Waiting? ==> forall i :: 0 <= i < |s.workers| && i < s.main.k ==> s.workers[i].flag)
  }

  /** Moreover, if all workers were ready at the call, a raised flag means nothing is left. */
  ghost predicate Draining(s: State) {
    && AllReady(s)
    && forall i :: 0 <= i < |s.workers| && RaisedAgain(s, i) ==> s.workers[i].queue == [] == Hand(s.workers[i])
  }

  lemma RaisedKept(s: State, l: Label)
    requires s.main != Idle && Raised(s) && Step(s, l).Some?
    ensures Step(s, l).value.main != Idle ==> Raised(Step(s, l).value)
    ensures Step(s, l).value.main == Idle ==> AllReady(Step(s, l).value)
  {
    var next := Step(s, l).value;
    if next.main == Idle {
      forall i | 0 <= i < |s.workers| ensures Ready(s.workers[i]) {
        assert RaisedAgain(s, i);
      }
    } else {
      forall i | 0 <= i < |next.workers| && RaisedAgain(next, i) ensures Ready(next.workers[i]) {
        assert RaisedAgain(s, i) || l == Work(i);
      }
    }
  }

  lemma DrainingKept(s: State, l: Label)
    requires s.main != Idle && Raised(s) && Draining(s) && Step(s, l).Some?
    ensures Draining(Step(s, l).value)
    ensures Step(s, l).value.main == Idle ==>
              forall i :: 0 <= i < |s.workers| ==> RaisedAgain(Step(s, l).value, i)
  {
    var next := Step(s, l).value;
    forall i | 0 <= i < |next.workers| && RaisedAgain(next, i)
      ensures next.workers[i].queue == [] == Hand(next.workers[i])
    {
      assert RaisedAgain(s, i) || l == Work(i);
      assert Ready(s.workers[i]);
    }
  }

  /** Over one flush: it keeps the invariant, and ends with every worker ready. */
  lemma {:induction false} FlushLeavesReady(s: State, ls: seq<Label>, end: State)
    requires s.main != Idle && Inv(s) && Raised(s) && FlushRun(s, ls) == Some(end) && end.main == Idle
    ensures Inv(end) && AllReady(end)
    ensures Draining(s) ==> AllDone(end)
    decreases |ls|
  {
    var next := Step(s, ls[0]).value;
    InvKept(s, ls[0]);
    RaisedKept(s, ls[0]);
    if Draining(s) {
      DrainingKept(s, ls[0]);
    }
    if next.main == Idle {
      assert ls[1..] == [] && end == next;
      if Draining(s) {
        AllRaisedAllDone(end);
      }
    } else {
      FlushLeavesReady(next, ls[1..], end);
    }
  }

  lemma AllRaisedAllDone(s: State)
    requires Inv(s) && Draining(s) && forall i :: 0 <= i < |s.workers| ==> RaisedAgain(s, i)
    ensures AllDone(s)
  {
    forall i | 0 <= i < |s.workers| ensures s.workers[i].done == s.workers[i].pushed {
      assert RaisedAgain(s, i) && Conserved(s.workers[i]);
    }
  }

  // ---------- how a flush comes to an end ----------

  lemma {:induction false} RunThen(s: State, ls: seq<Label>, mid: State, more: seq<Label>)
    requires FlushRun(s, ls) == Some(mid)
    ensures FlushRun(s, ls + more) == FlushRun(mid, more)
    decreases |ls|
  {
    if ls == [] {
      assert ls + more == more;
    } else {
      assert (ls + more)[1..] == ls[1..] + more;
      RunThen(Step(s, ls[0]).value, ls[1..], mid, more);
    }
  }

  lemma RunOne(s: State, l: Label)
    requires s.main != Idle
    ensures FlushRun(s, [l]) == Step(s, l)
  {
    assert [l][1..] == [];
  }

  /** Only worker `j` has moved, and its flag is up; past its drain, it has left its queue alone. */
  ghost predicate OnlyRaised(s: State, j: nat, end: State) {
    && j < |s.workers| == |end.workers|
    && end == s.(workers := s.workers[j := end.workers[j]]) && end.workers[j].flag
    && (s.workers[j].pc != AtPop ==> end.workers[j].queue == s.workers[j].queue)
  }

  function Ahead(pc: WorkerPc): nat {
    match pc case Raising => 0 case Working(hand) => 1 + |hand| case AtPop => 0
  }

  /** Inside a flush a worker past its drain raises its flag without looking at its queue again. */
  lemma RaiseFlag(s: State, j: nat) returns (ls: seq<Label>, end: State)
    requires s.main != Idle && s.flushing && j < |s.workers| && s.workers[j].pc != AtPop
    ensures FlushRun(s, ls) == Some(end) && OnlyRaised(s, j, end)
    decreases Ahead(s.workers[j].pc)
  {
    var next := Step(s, Work(j)).value;
    RunOne(s, Work(j));
    if s.workers[j].pc == Raising {
      ls, end := [Work(j)], next;
    } else {
      var rest;
      rest, end := RaiseFlag(next, j);
      ls := [Work(j)] + rest;
      RunThen(s, [Work(j)], next, rest);
    }
  }

  lemma DrainAndRaise(s: State, j: nat) returns (ls: seq<Label>, end: State)
    requires s.main != Idle && s.flushing && j < |s.workers|
    ensures FlushRun(s, ls) == Some(end) && OnlyRaised(s, j, end)
  {
    if s.workers[j].pc == AtPop {
      var next := Step(s, Work(j)).value;
      var rest;
      rest, end := RaiseFlag(next, j);
      ls := [Work(j)] + rest;
      RunOne(s, Work(j));
      RunThen(s, [Work(j)], next, rest);
    } else {
      ls, end := RaiseFlag(s, j);
    }
  }

  /** Workers from `k` on that were past their drain still have what was in their queues. */
  ghost predicate QueuesLeft(s: State, k: nat, end: State) {
    && |end.workers| == |s.workers|
    && (forall i :: k <= i < |s.workers| && s.workers[i].pc != AtPop ==> end.workers[i].queue == s.workers[i].queue)
    && (forall i :: 0 <= i < |s.workers| && i < k ==> end.workers[i] == s.workers[i])
  }

  /** Each worker in turn raises its flag, and the flush returns. */
  lemma FinishFlush(s: State, k: nat) returns (ls: seq<Label>, end: State)
    requires s.main == Waiting(k) && s.flushing && k <= |s.workers|
    ensures FlushRun(s, ls) == Some(end) && end.main == Idle && QueuesLeft(s, k, end)
    decreases |s.workers| - k
  {
    if k == |s.workers| {
      end := Step(s, Main).value;
      ls := [Main];
      RunOne(s, Main);
    } else {
      var raise, raised := DrainAndRaise(s, k);
      var next := Step(raised, Main).value;
      RunOne(raised, Main);
      RunThen(s, raise, raised, [Main]);
      var rest;
      rest, end := FinishFlush(next, k + 1);
      ls := raise + [Main] + rest;
      RunThen(s, raise + [Main], next, rest);
    }
  }

  /** The flags are cleared one after the other, and the flush waits. */
  lemma ClearFlags(s: State, k: nat) returns (ls: seq<Label>, end: State)
    requires s.main == Clearing(k) && k <= |s.workers|
    ensures FlushRun(s, ls) == Some(end) && end.main == Waiting(0) && end.flushing
    ensures |end.workers| == |s.workers|
    ensures forall i :: 0 <= i < |s.workers| ==>
              end.workers[i].queue == s.workers[i].queue && end.workers[i].pc == s.workers[i].pc
    decreases |s.workers| - k
  {
    var next := Step(s, Main).value;
    RunOne(s, Main);
    if k == |s.workers| {
      ls, end := [Main], next;
    } else {
      var rest;
      rest, end := ClearFlags(next, k + 1);
      ls := [Main] + rest;
      RunThen(s, [Main], next, rest);
    }
  }

  /** From any call some run of the threads returns and leaves the queues of workers past their drain. */
  lemma FlushCanReturn(s: State) returns (ls: seq<Label>, end: State)
    requires Step(s, StartFlush).Some?
    ensures Flushes(s, ls, end) && QueuesLeft(s, 0, end)
  {
    var start := Step(s, StartFlush).value;
    var clear, waiting := ClearFlags(start, 0);
    var rest;
    rest, end := FinishFlush(waiting, 0);
    ls := clear + rest;
    RunThen(start, clear, waiting, rest);
  }

  // ---------- the results ----------

  /** Every way the flush can go executes every task pushed before it. */
  ghost predicate AlwaysComplete(s: State) {
    forall ls, end :: Flushes(s, ls, end) ==> AllDone(end)
  }

  lemma FlushFacts(s: State, ls: seq<Label>, end: State)
    requires Inv(s) && Flushes(s, ls, end)
    ensures Inv(end) && AllReady(end)
    ensures AllReady(s) ==> AllDone(end)
  {
    var start := Step(s, StartFlush).value;
    assert Raised(start);
    if AllReady(s) {
      assert Draining(start);
    }
    FlushLeavesReady(start, ls, end);
  }

  /**
   A flush is sure to execute every task pushed before it if and only if, at the call, each worker
   either has nothing queued or has yet to drain its queue.  A worker that has tasks queued and is
   past its drain can raise its flag with them still there.
   */
  lemma FlushExact(s: State)
    requires Inv(s) && Step(s, StartFlush).Some?
    ensures AlwaysComplete(s) <==> AllReady(s)
  {
    if AllReady(s) {
      forall ls, end | Flushes(s, ls, end) ensures AllDone(end) {
        FlushFacts(s, ls, end);
      }
    } else {
      var ls, end := FlushCanReturn(s);
      FlushFacts(s, ls, end);
      var i :| 0 <= i < |s.workers| && !Ready(s.workers[i]);
      assert end.workers[i].queue == s.workers[i].queue != [];
      assert Conserved(end.workers[i]);
      assert end.workers[i].done != end.workers[i].pushed;
      assert !AllDone(end);
    }
  }

  /** The workers go on between two calls of the main thread. */
  function WorkOn(s: State, turns: seq<nat>): Option<State>
    decreases |turns|
  {
    if turns == [] then Some(s)
    else
      match Step(s, Work(turns[0]))
      case None => None
      case Some(next) => WorkOn(next, turns[1..])
  }

  lemma {:induction false} WorkKeepsReady(s: State, turns: seq<nat>)
    requires Inv(s) && AllReady(s) && WorkOn(s, turns).Some?
    ensures Inv(WorkOn(s, turns).value) && AllReady(WorkOn(s, turns).value)
    decreases |turns|
  {
    if turns != [] {
      InvKept(s, Work(turns[0]));
      WorkKeepsReady(Step(s, Work(turns[0])).value, turns[1..]);
    }
  }

  /**
   Two flushes with no push between them always do: the first leaves every worker with nothing
   queued or about to drain, whatever the workers do before the second.
   */
  lemma SecondFlushCompletes(s: State, first: seq<Label>, mid: State, turns: seq<nat>, second: seq<Label>, end: State)
    requires Inv(s) && Flushes(s, first, mid)
    requires WorkOn(mid, turns).Some? && Flushes(WorkOn(mid, turns).value, second, end)
    ensures AllDone(end)
  {
    FlushFacts(s, first, mid);
    WorkKeepsReady(mid, turns);
    FlushFacts(WorkOn(mid, turns).value, second, end);
  }

  /**
   The shortest failure: one worker whose wait for tasks has just timed out, then a push, then a
   flush.  The flush returns with the task still queued.
   */
  lemma PushAfterTimeoutIsMissed(task: Task) returns (ls: seq<Label>, end: State)
    ensures var idle := State(Idle, false, [Worker([], AtPop, false, [], [])]);
            var timedOut := Step(idle, Work(0)).value;
            var pushed := Step(timedOut, Push(0, task)).value;
            && Inv(pushed) && Flushes(pushed, ls, end) && !AllDone(end)
            && |end.workers| == 1 && end.workers[0].queue == [task]
  {
    var idle := State(Idle, false, [Worker([], AtPop, false, [], [])]);
    var timedOut := Step(idle, Work(0)).value;
    var pushed := Step(timedOut, Push(0, task)).value;
    ls, end := FlushCanReturn(pushed);
    FlushFacts(pushed, ls, end);
    assert end.workers[0].queue == [task] && Conserved(end.workers[0]);
  }

  // ---------- what is pushed, and when flags move ----------

  function Run(s: State, ls: seq<Label>): Option<State>
    decreases |ls|
  {
    if ls == [] then Some(s)
    else
      match Step(s, ls[0])
      case None => None
      case Some(next) => Run(next, ls[1..])
  }

  /** The tasks that callers pushed to worker `i`, in order. */
  function PushesTo(ls: seq<Label>, i: nat): seq<Task> {
    if ls == [] then []
    else PushOf(ls[0], i) + PushesTo(ls[1..], i)
  }

  function PushOf(l: Label, i: nat): seq<Task> {
    match l
    case Push(j, task) => if j == i then [task] else []
    case _ => []
  }

  /** Over any run the record of a worker's tasks is what callers pushed to it; with `Inv`, so are the tasks. */
  lemma {:induction false} PushedIsCalled(s: State, ls: seq<Label>, i: nat)
    requires Run(s, ls).Some? && i < |s.workers|
    ensures var end := Run(s, ls).value;
            |end.workers| == |s.workers| && end.workers[i].pushed == s.workers[i].pushed + PushesTo(ls, i)
    decreases |ls|
  {
    if ls == [] {
      assert s.workers[i].pushed + [] == s.workers[i].pushed;
    } else {
      PushedByStep(s, ls[0], i);
      PushedIsCalled(Step(s, ls[0]).value, ls[1..], i);
      Associates(s.workers[i].pushed, PushOf(ls[0], i), PushesTo(ls[1..], i));
    }
  }

  lemma PushedByStep(s: State, l: Label, i: nat)
    requires Step(s, l).Some? && i < |s.workers|
    ensures var next := Step(s, l).value;
            |next.workers| == |s.workers| && next.workers[i].pushed == s.workers[i].pushed + PushOf(l, i)
  {
  }

  lemma Associates(a: seq<Task>, b: seq<Task>, c: seq<Task>)
    ensures a + b + c == a + (b + c)
  {
  }

  lemma {:induction false} InvOverRun(s: State, ls: seq<Label>)
    requires Inv(s) && Run(s, ls).Some?
    ensures Inv(Run(s, ls).value)
    decreases |ls|
  {
    if ls != [] {
      InvKept(s, ls[0]);
      InvOverRun(Step(s, ls[0]).value, ls[1..]);
    }
  }

  /** No flush is under way and no worker is about to raise its flag. */
  predicate NoFlush(s: State) {
    && s.main == Idle && !s.flushing
    && forall i :: 0 <= i < |s.workers| ==> s.workers[i].pc != Raising
  }

  /** Without a flush no flag is ever raised or cleared. */
  lemma {:induction false} FlagsStayPut(s: State, ls: seq<Label>)
    requires NoFlush(s) && Run(s, ls).Some? && StartFlush !in ls
    ensures var end := Run(s, ls).value;
            && NoFlush(end) && |end.workers| == |s.workers|
            && forall i :: 0 <= i < |s.workers| ==> end.workers[i].flag == s.workers[i].flag
    decreases |ls|
  {
    if ls != [] {
      assert ls[0] != StartFlush;
      FlagsStayPut(Step(s, ls[0]).value, ls[1..]);
    }
  }
}
