/**
 The end of `MysqlDB::Destroy` against the worker threads, under interleaving: after its flush the
 main thread sets `_stoping`, then sets `_stopedNum` to zero, and then waits until as many workers
 have counted themselves as there are.  A worker leaves its loop at a test that finds `_stoping` set
 and counts itself in a further step.  The rest of a worker's loop takes no part in this.
 */
module AsyncDestroy {
  import opened CText

  /** Where a worker is: in its loop, past the test that found `_stoping` set, or gone. */
  datatype WorkerPc = Looping | Leaving | Gone

  /** Where the main thread is: before each of its three steps, or past the wait. */
  datatype MainPc = Stopping | Resetting | Waiting | Joining

  datatype State = State(main: MainPc, stopping: bool, stopped: nat, workers: seq<WorkerPc>)

  datatype Label = Main | Work(i: nat)

  // ---------- steps ----------

  function DoMain(s: State): Option<State> {
    match s.main
    case Stopping => Some(s.(main := Resetting, stopping := true))
    case Resetting => Some(s.(main := Waiting, stopped := 0))
    case Waiting => if s.stopped == |s.workers| then Some(s.(main := Joining)) else None
    case Joining => None
  }

  function DoWork(s: State, i: nat): Option<State>
    requires i < |s.workers|
  {
    match s.workers[i]
    case Looping => if s.stopping then Some(s.(workers := s.workers[i := Leaving])) else Some(s)
    case Leaving => Some(s.(workers := s.workers[i := Gone], stopped := s.stopped + 1))
    case Gone => None
  }

  /** The state after a step, or `None` when the step cannot be taken. */
  function Step(s: State, l: Label): Option<State> {
    match l
    case Main => DoMain(s)
    case Work(i) => if i < |s.workers| then DoWork(s, i) else None
  }

  function Run(s: State, ls: seq<Label>): Option<State>
    decreases |ls|
  {
    if ls == [] then Some(s)
    else
      match Step(s, ls[0])
      case None => None
      case Some(next) => Run(next, ls[1..])
  }

  // ---------- counting ----------

  function Count(ws: seq<WorkerPc>, pc: WorkerPc): nat {
    if ws == [] then 0 else (if ws[0] == pc then 1 else 0) + Count(ws[1..], pc)
  }

  lemma {:induction false} CountMoved(ws: seq<WorkerPc>, i: nat, to: WorkerPc, pc: WorkerPc)
    requires i < |ws|
    ensures Count(ws[i := to], pc)
            == Count(ws, pc) - (if ws[i] == pc then 1 else 0) + (if to == pc then 1 else 0)
  {
    if i == 0 {
      assert ws[0 := to][1..] == ws[1..];
    } else {
      CountMoved(ws[1..], i - 1, to, pc);
      assert ws[i := to][1..] == ws[1..][i - 1 := to];
    }
  }

  lemma {:induction false} CountAll(ws: seq<WorkerPc>)
    ensures Count(ws, Looping) + Count(ws, Leaving) + Count(ws, Gone) == |ws|
  {
    if ws != [] {
      CountAll(ws[1..]);
    }
  }

  lemma {:induction false} CountFinds(ws: seq<WorkerPc>, pc: WorkerPc) returns (i: nat)
    requires Count(ws, pc) > 0
    ensures i < |ws| && ws[i] == pc
  {
    if ws[0] == pc {
      i := 0;
    } else {
      var j := CountFinds(ws[1..], pc);
      i := j + 1;
    }
  }

  // ---------- what is lost ----------

  /** While the count starts from zero it is the number of workers that are gone; later some may be missing. */
  predicate Missing(s: State, lost: nat) {
    && s.stopped + lost == Count(s.workers, Gone)
    && (s.main == Stopping ==> !s.stopping && lost == 0 && s.stopped == 0 && Count(s.workers, Leaving) == 0)
    && (s.main == Resetting ==> s.stopping && lost == 0)
    && (s.main == Waiting || s.main == Joining ==> s.stopping)
    && (s.main == Joining ==> lost == 0)
  }

  /** Every step keeps it for some number of missing workers: none before the reset. */
  lemma SomeMissing(s: State, l: Label, lost: nat) returns (after: nat)
    requires Missing(s, lost) && Step(s, l).Some?
    ensures Missing(Step(s, l).value, after)
  {
    if s.main == Waiting || s.main == Joining {
      MissingKept(s, l, lost);
      after := lost;
    } else if l == Main {
      after := if s.main == Resetting then s.stopped else 0;
    } else {
      NoneLeavesEarly(s, l.i);
      CountMoved(s.workers, l.i, Leaving, Gone);
      CountMoved(s.workers, l.i, Gone, Gone);
      after := 0;
    }
  }

  /** Before the stop flag is set no worker is past its loop. */
  lemma NoneLeavesEarly(s: State, i: nat)
    requires Missing(s, 0) && i < |s.workers|
    ensures s.main == Stopping ==> s.workers[i] == Looping && Step(s, Work(i)) == Some(s)
  {
    if s.main == Stopping {
      CountFound(s.workers, i);
    }
  }

  lemma {:induction false} CountFound(ws: seq<WorkerPc>, i: nat)
    requires i < |ws|
    ensures Count(ws, ws[i]) > 0
  {
    if i > 0 {
      CountFound(ws[1..], i - 1);
    }
  }

  /** Every state a call of `Destroy` reaches has a number of missing workers. */
  lemma {:induction false} MissingReached(s: State, ls: seq<Label>, lost: nat) returns (after: nat)
    requires Missing(s, lost) && Run(s, ls).Some?
    ensures Missing(Run(s, ls).value, after)
    decreases |ls|
  {
    if ls == [] {
      after := lost;
    } else {
      var next := SomeMissing(s, ls[0], lost);
      after := MissingReached(Step(s, ls[0]).value, ls[1..], next);
    }
  }

  /** Every step but the reset keeps what is missing. */
  lemma MissingKept(s: State, l: Label, lost: nat)
    requires Missing(s, lost) && Step(s, l).Some?
    requires s.main == Waiting || s.main == Joining
    ensures Missing(Step(s, l).value, lost)
    ensures Step(s, l).value.main in {Waiting, Joining}
  {
    if l.Work? {
      CountMoved(s.workers, l.i, Leaving, Gone);
      CountMoved(s.workers, l.i, Gone, Gone);
    } else {
      CountAll(s.workers);
    }
  }

  lemma {:induction false} MissingOverRun(s: State, ls: seq<Label>, lost: nat)
    requires Missing(s, lost) && Run(s, ls).Some?
    requires s.main == Waiting || s.main == Joining
    ensures Missing(Run(s, ls).value, lost)
    decreases |ls|
  {
    if ls != [] {
      MissingKept(s, ls[0], lost);
      MissingOverRun(Step(s, ls[0]).value, ls[1..], lost);
    }
  }

  // ---------- how the wait ends ----------

  /** Each worker takes its remaining steps, and the wait is over. */
  lemma FinishWait(s: State) returns (ls: seq<Label>)
    requires Missing(s, 0) && s.main == Waiting
    ensures Run(s, ls).Some? && Run(s, ls).value.main == Joining
    decreases 2 * Count(s.workers, Looping) + Count(s.workers, Leaving)
  {
    CountAll(s.workers);
    if s.stopped == |s.workers| {
      ls := [Main];
      assert [Main][1..] == [];
    } else {
      var i;
      if Count(s.workers, Looping) > 0 {
        i := CountFinds(s.workers, Looping);
      } else {
        i := CountFinds(s.workers, Leaving);
      }
      WorkerMoves(s, i);
      var rest := FinishWait(Step(s, Work(i)).value);
      ls := [Work(i)] + rest;
      assert ls[1..] == rest;
    }
  }

  lemma WorkerMoves(s: State, i: nat)
    requires Missing(s, 0) && s.main == Waiting && i < |s.workers| && s.workers[i] != Gone
    ensures Step(s, Work(i)).Some?
    ensures var next := Step(s, Work(i)).value;
            && Missing(next, 0) && next.main == Waiting
            && 2 * Count(next.workers, Looping) + Count(next.workers, Leaving)
               < 2 * Count(s.workers, Looping) + Count(s.workers, Leaving)
  {
    var to := if s.workers[i] == Looping then Leaving else Gone;
    MissingKept(s, Work(i), 0);
    CountMoved(s.workers, i, to, Looping);
    CountMoved(s.workers, i, to, Leaving);
  }

  /** Some run of the threads from here lets the wait end. */
  ghost predicate CanJoin(s: State) {
    exists ls :: Run(s, ls).Some? && Run(s, ls).value.main == Joining
  }

  /**
   When the counter is about to be reset, `Destroy` can still return if and only if no worker has
   counted itself yet; otherwise that count is lost and the wait never ends, whatever the threads do.
   */
  lemma DestroyReturnsExact(s: State)
    requires s.main == Resetting && Missing(s, 0)
    ensures CanJoin(s) <==> s.stopped == 0
  {
    var next := Step(s, Main).value;
    if s.stopped == 0 {
      var rest := FinishWait(next);
      assert ([Main] + rest)[1..] == rest;
      assert Run(s, [Main] + rest) == Run(next, rest);
    } else {
      forall ls | Run(s, ls).Some? ensures Run(s, ls).value.main != Joining {
        NeverJoins(s, ls);
      }
    }
  }

  /** Before the reset nothing is lost; the reset loses what has been counted. */
  lemma {:induction false} NeverJoins(s: State, ls: seq<Label>)
    requires s.main == Resetting && Missing(s, 0) && s.stopped > 0 && Run(s, ls).Some?
    ensures Run(s, ls).value.main != Joining
    decreases |ls|
  {
    if ls != [] {
      var next := Step(s, ls[0]).value;
      if ls[0] == Main {
        MissingOverRun(next, ls[1..], s.stopped);
      } else {
        CountMoved(s.workers, ls[0].i, Leaving, Gone);
        CountMoved(s.workers, ls[0].i, Gone, Gone);
        NeverJoins(next, ls[1..]);
      }
    }
  }

  lemma {:induction false} NoneGone(n: nat)
    ensures Count(seq(n, _ => Looping), Gone) == 0 && Count(seq(n, _ => Looping), Leaving) == 0
  {
    if n > 0 {
      NoneGone(n - 1);
      assert seq(n, _ => Looping)[1..] == seq(n - 1, _ => Looping);
    }
  }

  function Called(n: nat): State {
    State(Stopping, false, 0, seq(n, _ => Looping))
  }

  /**
   From the call on: before the stop flag is set nothing has moved, and when the counter is about to
   be reset it is the number of workers that have left, so that `DestroyReturnsExact` applies.
   */
  lemma DestroyReaches(n: nat, ls: seq<Label>)
    requires Run(Called(n), ls).Some?
    ensures var s := Run(Called(n), ls).value;
            && (s.main == Stopping ==> forall i :: 0 <= i < |s.workers| ==> s.workers[i] == Looping)
            && (s.main == Resetting ==> Missing(s, 0) && (CanJoin(s) <==> Count(s.workers, Gone) == 0))
  {
    NoneGone(n);
    var lost := MissingReached(Called(n), ls, 0);
    var s := Run(Called(n), ls).value;
    if s.main == Stopping {
      forall i | 0 <= i < |s.workers| ensures s.workers[i] == Looping {
        NoneLeavesEarly(s, i);
      }
    } else if s.main == Resetting {
      DestroyReturnsExact(s);
    }
  }

  /**
   So the call of `Destroy` can return for any number of workers, and with at least one it can also
   hang: one worker reads `_stoping` and counts itself between the two assignments.
   */
  lemma DestroyCanHang(n: nat)
    ensures CanJoin(Called(n))
    ensures n > 0 ==> Run(Called(n), [Main, Work(0), Work(0)]).Some?
                      && !CanJoin(Run(Called(n), [Main, Work(0), Work(0)]).value)
  {
    var s := Called(n);
    NoneGone(n);
    var s1 := Step(s, Main).value;
    DestroyReturnsExact(s1);
    var ls :| Run(s1, ls).Some? && Run(s1, ls).value.main == Joining;
    assert ([Main] + ls)[1..] == ls;
    assert Run(s, [Main] + ls) == Run(s1, ls);
    if n > 0 {
      var s2 := Step(s1, Work(0)).value;
      var s3 := Step(s2, Work(0)).value;
      assert [Main, Work(0), Work(0)][1..] == [Work(0), Work(0)];
      assert [Work(0), Work(0)][1..] == [Work(0)] && [Work(0)][1..] == [];
      CountMoved(s1.workers, 0, Leaving, Gone);
      CountMoved(s2.workers, 0, Gone, Gone);
      DestroyReturnsExact(s3);
    }
  }
}
