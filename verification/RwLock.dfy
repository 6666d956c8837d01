/**
 The Windows reader/writer lock of `thr_rwlock.h` under interleaving.  One plain boolean,
 `have_exclusive_srwlock`, tells `native_rw_unlock` which release to call; acquiring, writing the
 flag, reading it and releasing are steps of their own.
 */
module RwLock {
  import opened CText

  type Tid = nat

  /** Where a thread is between and inside the calls. */
  datatype Pc =
    | Idle
    | HasShared          // `native_rw_rdlock` or `native_rw_tryrdlock` has returned 0
    | AcquiredExclusive  // the SRW lock is taken, the flag not yet set
    | HasExclusive       // `native_rw_wrlock` or `native_rw_trywrlock` has returned 0
    | UnlockCalled       // `native_rw_unlock` is about to read the flag
    | ReadTrue           // the flag was true and is about to be cleared
    | Cleared            // about to call `ReleaseSRWLockExclusive`
    | ReadFalse          // about to call `ReleaseSRWLockShared`

  /**
   `exclusive` and `shared` are the owners the SRW lock has; `broken` records a release that does
   not match what the caller holds, which the SRW lock leaves undefined.
   */
  datatype State = State(exclusive: Option<Tid>, shared: set<Tid>, flag: bool, pcs: map<Tid, Pc>, broken: bool)

  /** `native_rw_init` */
  const INIT := State(None, {}, false, map[], false)

  function PcOf(s: State, t: Tid): Pc {
    if t in s.pcs then s.pcs[t] else Idle
  }

  datatype Label =
    | AcquireShared(t: Tid)         // a successful shared acquire, blocking or tried
    | AcquireExclusive(t: Tid)      // a successful exclusive acquire, blocking or tried
    | TryFails(t: Tid, shared: bool)  // EBUSY: the state does not change
    | SetFlag(t: Tid)
    | CallUnlock(t: Tid)            // made by a thread on what it holds
    | ReadFlag(t: Tid)
    | ClearFlag(t: Tid)
    | ReleaseExclusive(t: Tid)
    | ReleaseShared(t: Tid)

  predicate SharedFree(s: State) {
    s.exclusive == None
  }

  predicate ExclusiveFree(s: State) {
    s.exclusive == None && s.shared == {}
  }

  /** The state after a step, or `None` when the thread is not at that step or must block. */
  function Step(s: State, l: Label): Option<State> {
    match l
    case AcquireShared(t) =>
      if PcOf(s, t).Idle? && SharedFree(s) then
        Some(s.(shared := s.shared + {t}, pcs := s.pcs[t := HasShared]))
      else None
    case AcquireExclusive(t) =>
      if PcOf(s, t).Idle? && ExclusiveFree(s) then
        Some(s.(exclusive := Some(t), pcs := s.pcs[t := AcquiredExclusive]))
      else None
    case TryFails(t, shared) =>
      if PcOf(s, t).Idle? && !(if shared then SharedFree(s) else ExclusiveFree(s)) then Some(s) else None
    case SetFlag(t) =>
      if PcOf(s, t).AcquiredExclusive? then Some(s.(flag := true, pcs := s.pcs[t := HasExclusive])) else None
    case CallUnlock(t) =>
      if PcOf(s, t).HasShared? || PcOf(s, t).HasExclusive? then Some(s.(pcs := s.pcs[t := UnlockCalled])) else None
    case ReadFlag(t) =>
      if PcOf(s, t).UnlockCalled? then Some(s.(pcs := s.pcs[t := if s.flag then ReadTrue else ReadFalse])) else None
    case ClearFlag(t) =>
      if PcOf(s, t).ReadTrue? then Some(s.(flag := false, pcs := s.pcs[t := Cleared])) else None
    case ReleaseExclusive(t) =>
      if PcOf(s, t).Cleared? then
        if s.exclusive == Some(t) then Some(s.(exclusive := None, pcs := s.pcs[t := Idle]))
        else Some(s.(broken := true, pcs := s.pcs[t := Idle]))
      else None
    case ReleaseShared(t) =>
      if PcOf(s, t).ReadFalse? then
        if t in s.shared then Some(s.(shared := s.shared - {t}, pcs := s.pcs[t := Idle]))
        else Some(s.(broken := true, pcs := s.pcs[t := Idle]))
      else None
  }

  function Run(s: State, ls: seq<Label>): Option<State>
    decreases |ls|
  {
    if ls == [] then Some(s)
    else
      match Step(s, ls[0])
      case None => None
      case Some(next) => Run(next, ls[1..])
  }

  /** The positions a thread can have while it owns the lock exclusively, or shared. */
  predicate ExclusivePosition(pc: Pc) {
    pc.AcquiredExclusive? || pc.HasExclusive? || pc.UnlockCalled? || pc.ReadTrue? || pc.Cleared?
  }

  predicate SharedPosition(pc: Pc) {
    pc.HasShared? || pc.UnlockCalled? || pc.ReadFalse?
  }

  /** Position, ownership and flag agree for every thread. */
  ghost predicate Inv(s: State) {
    && !s.broken
    && (s.exclusive.Some? ==> s.shared == {})
    && (s.flag ==> s.exclusive.Some?)
    && forall t: Tid ::
      var pc := PcOf(s, t);
      if s.exclusive == Some(t) then ExclusivePosition(pc) && (s.flag <==> !pc.AcquiredExclusive? && !pc.Cleared?)
      else if t in s.shared then SharedPosition(pc)
      else pc.Idle?
  }

  lemma InvKept(s: State, l: Label)
    requires Inv(s) && Step(s, l).Some?
    ensures Inv(Step(s, l).value)
  {
    var next := Step(s, l).value;
    assert forall u :: u != l.t ==> PcOf(next, u) == PcOf(s, u);
  }

  lemma {:induction false} InvOverRun(s: State, ls: seq<Label>)
    requires Inv(s) && Run(s, ls).Some?
    ensures Inv(Run(s, ls).value)
    decreases |ls|
  {
    if ls != [] {
      InvKept(s, ls[0]);
      InvOverRun(Step(s, ls[0]).value, ls[1..]);
    }
  }

  ghost predicate Reachable(s: State) {
    exists ls :: Run(INIT, ls) == Some(s)
  }

  lemma ReachableInv(s: State)
    requires Reachable(s)
    ensures Inv(s)
  {
    var ls :| Run(INIT, ls) == Some(s);
    assert forall t :: PcOf(INIT, t) == Idle;
    InvOverRun(INIT, ls);
  }

  /**
   `native_rw_unlock` calls the right release: an exclusive owner finds the flag true, a shared
   owner finds it false, and no run of any number of threads ever releases what it does not hold.
   */
  lemma UnlockPicksTheRightRelease(s: State, t: Tid)
    requires Reachable(s)
    ensures !s.broken
    ensures PcOf(s, t).UnlockCalled? ==> (s.flag <==> s.exclusive == Some(t)) && (!s.flag <==> t in s.shared)
    ensures PcOf(s, t).Cleared? ==> s.exclusive == Some(t)
    ensures PcOf(s, t).ReadFalse? ==> t in s.shared
  {
    ReachableInv(s);
  }

  /**
   A writer never coexists with a reader or another writer, whatever they are doing: from its
   acquire to its release, everyone else is outside.
   */
  lemma WriterAlone(s: State, t: Tid, u: Tid)
    requires Reachable(s) && t != u && s.exclusive == Some(t)
    ensures PcOf(s, u) == Idle
  {
    ReachableInv(s);
    assert s.exclusive != Some(u) && u !in s.shared;
  }

  /**
   What a thread outside can do: it takes the lock shared unless someone owns it exclusively, whoever
   else reads, and exclusively when nobody owns it; a try fails exactly where the other would block.
   */
  lemma IdleSteps(s: State, t: Tid)
    requires PcOf(s, t) == Idle
    ensures Step(s, AcquireShared(t)).Some? <==> s.exclusive == None
    ensures Step(s, AcquireExclusive(t)).Some? <==> s.exclusive == None && s.shared == {}
    ensures Step(s, TryFails(t, true)).Some? <==> s.exclusive.Some?
    ensures Step(s, TryFails(t, false)).Some? <==> s.exclusive.Some? || s.shared != {}
  {
  }

  /** A thread inside never has to wait: its next step, or its unlock, can be taken. */
  lemma BusyCanStep(s: State, t: Tid) returns (l: Label)
    requires PcOf(s, t) != Idle
    ensures l.t == t && !l.TryFails? && Step(s, l).Some?
  {
    match PcOf(s, t) {
      case HasShared | HasExclusive => l := CallUnlock(t);
      case AcquiredExclusive => l := SetFlag(t);
      case UnlockCalled => l := ReadFlag(t);
      case ReadTrue => l := ClearFlag(t);
      case Cleared => l := ReleaseExclusive(t);
      case ReadFalse => l := ReleaseShared(t);
    }
  }

  /** The thread's next step writes the flag, or touches it at all. */
  predicate AboutToWrite(pc: Pc) {
    pc.AcquiredExclusive? || pc.ReadTrue?
  }

  predicate AboutToAccess(pc: Pc) {
    AboutToWrite(pc) || pc.UnlockCalled?
  }

  /** Every step that writes the flag, and every step that reads it, is announced by its thread's position. */
  lemma AccessesAnnounced(s: State, l: Label)
    requires Step(s, l).Some?
    ensures l.SetFlag? || l.ClearFlag? || Step(s, l).value.flag != s.flag ==> AboutToWrite(PcOf(s, l.t))
    ensures l.SetFlag? || l.ClearFlag? || l.ReadFlag? ==> AboutToAccess(PcOf(s, l.t))
  {
  }

  /** A release of a lock the caller does not hold that way is recorded, and the record is never erased. */
  lemma WrongReleaseRecorded(s: State, l: Label)
    requires Step(s, l).Some?
    ensures l.ReleaseExclusive? && s.exclusive != Some(l.t) ==> Step(s, l).value.broken
    ensures l.ReleaseShared? && l.t !in s.shared ==> Step(s, l).value.broken
    ensures s.broken ==> Step(s, l).value.broken
  {
  }

  /** The plain flag has no data race: while one thread may write it no other may touch it. */
  lemma FlagRaceFree(s: State, t: Tid, u: Tid)
    requires Reachable(s) && t != u && AboutToWrite(PcOf(s, t))
    ensures s.exclusive == Some(t)
    ensures !AboutToAccess(PcOf(s, u))
  {
    ReachableInv(s);
    assert s.exclusive == Some(t);
    assert s.exclusive != Some(u) && u !in s.shared;
  }

  /** With every thread between calls and nothing held, the lock is as `native_rw_init` left it. */
  lemma QuietIsInit(s: State)
    requires Reachable(s) && forall t :: PcOf(s, t) == Idle
    ensures s.exclusive == None && s.shared == {} && !s.flag && !s.broken
  {
    ReachableInv(s);
    forall t ensures t !in s.shared && s.exclusive != Some(t) {
      assert PcOf(s, t) == Idle;
    }
  }

  lemma RunCons(s: State, l: Label, rest: seq<Label>)
    requires Step(s, l).Some?
    ensures Run(s, [l] + rest) == Run(Step(s, l).value, rest)
  {
    assert ([l] + rest)[1..] == rest;
  }

  /** The two states differ at most in how an idle thread is recorded. */
  ghost predicate Same(s: State, s': State) {
    s' == s.(pcs := s'.pcs) && forall u :: PcOf(s', u) == PcOf(s, u)
  }

  lemma UnlockExclusiveRun(s: State, t: Tid)
    requires PcOf(s, t).HasExclusive? && s.exclusive == Some(t) && s.flag
    ensures Run(s, [CallUnlock(t)] + ([ReadFlag(t)] + ([ClearFlag(t)] + ([ReleaseExclusive(t)] + []))))
            == Some(s.(exclusive := None, flag := false, pcs := s.pcs[t := Idle]))
  {
    var s3 := Step(s, CallUnlock(t)).value;
    var s4 := Step(s3, ReadFlag(t)).value;
    var s5 := Step(s4, ClearFlag(t)).value;
    RunCons(s, CallUnlock(t), [ReadFlag(t)] + ([ClearFlag(t)] + ([ReleaseExclusive(t)] + [])));
    RunCons(s3, ReadFlag(t), [ClearFlag(t)] + ([ReleaseExclusive(t)] + []));
    RunCons(s4, ClearFlag(t), [ReleaseExclusive(t)] + []);
    RunCons(s5, ReleaseExclusive(t), []);
    assert Step(s5, ReleaseExclusive(t)).value.pcs == s.pcs[t := Idle];
  }

  /** `native_rw_unlock` undoes `native_rw_wrlock`, run without interference. */
  lemma UnlockUndoesWrLock(s: State, t: Tid)
    requires Reachable(s) && PcOf(s, t) == Idle && ExclusiveFree(s)
    ensures var unlock := [CallUnlock(t)] + ([ReadFlag(t)] + ([ClearFlag(t)] + ([ReleaseExclusive(t)] + [])));
            var end := Run(s, [AcquireExclusive(t)] + ([SetFlag(t)] + unlock));
            end.Some? && Same(s, end.value)
  {
    ReachableInv(s);
    var s1 := Step(s, AcquireExclusive(t)).value;
    var s2 := Step(s1, SetFlag(t)).value;
    var unlock := [CallUnlock(t)] + ([ReadFlag(t)] + ([ClearFlag(t)] + ([ReleaseExclusive(t)] + [])));
    RunCons(s, AcquireExclusive(t), [SetFlag(t)] + unlock);
    RunCons(s1, SetFlag(t), unlock);
    UnlockExclusiveRun(s2, t);
  }

  /** `native_rw_unlock` undoes `native_rw_rdlock`, whoever else reads. */
  lemma UnlockUndoesRdLock(s: State, t: Tid)
    requires Reachable(s) && PcOf(s, t) == Idle && SharedFree(s)
    ensures var end := Run(s, [AcquireShared(t)] + ([CallUnlock(t)] + ([ReadFlag(t)] + ([ReleaseShared(t)] + []))));
            end.Some? && Same(s, end.value)
  {
    ReachableInv(s);
    var s1 := Step(s, AcquireShared(t)).value;
    var s2 := Step(s1, CallUnlock(t)).value;
    var s3 := Step(s2, ReadFlag(t)).value;
    RunCons(s, AcquireShared(t), [CallUnlock(t)] + ([ReadFlag(t)] + ([ReleaseShared(t)] + [])));
    RunCons(s1, CallUnlock(t), [ReadFlag(t)] + ([ReleaseShared(t)] + []));
    RunCons(s2, ReadFlag(t), [ReleaseShared(t)] + []);
    RunCons(s3, ReleaseShared(t), []);
    assert t !in s.shared;
    assert s.shared + {t} - {t} == s.shared;
  }

  // ---------- the calls as the source writes them ----------

  const EBUSY := 16

  /** The lock's memory; the SRW lock is its owners. */
  class NativeRwLock {
    var exclusive: Option<Tid>
    var shared: set<Tid>
    var haveExclusive: bool

    /** No call is in progress. */
    ghost predicate Valid()
      reads this
    {
      (haveExclusive <==> exclusive.Some?) && (exclusive.Some? ==> shared == {})
    }

    constructor Init()
      ensures Valid() && exclusive == None && shared == {}
    {
      exclusive, shared, haveExclusive := None, {}, false;
    }

    /** `native_rw_rdlock` at the moment its acquire succeeds. */
    method RdLock(t: Tid) returns (error: int)
      requires Valid() && exclusive == None
      modifies this
      ensures Valid() && error == 0
      ensures shared == old(shared) + {t} && exclusive == old(exclusive)
    {
      shared := shared + {t};
      error := 0;
    }

    method TryRdLock(t: Tid) returns (error: int)
      requires Valid()
      modifies this
      ensures Valid() && exclusive == old(exclusive)
      ensures error == if old(exclusive) == None then 0 else EBUSY
      ensures shared == if error == 0 then old(shared) + {t} else old(shared)
    {
      if exclusive != None {
        return EBUSY;
      }
      shared := shared + {t};
      error := 0;
    }

    /** `native_rw_wrlock` at the moment its acquire succeeds. */
    method WrLock(t: Tid) returns (error: int)
      requires Valid() && exclusive == None && shared == {}
      modifies this
      ensures Valid() && error == 0
      ensures exclusive == Some(t) && shared == old(shared)
    {
      exclusive := Some(t);
      haveExclusive := true;
      error := 0;
    }

    method TryWrLock(t: Tid) returns (error: int)
      requires Valid()
      modifies this
      ensures Valid() && shared == old(shared)
      ensures error == if old(exclusive) == None && old(shared) == {} then 0 else EBUSY
      ensures exclusive == if error == 0 then Some(t) else old(exclusive)
    {
      if exclusive != None || shared != {} {
        return EBUSY;
      }
      exclusive := Some(t);
      haveExclusive := true;
      error := 0;
    }

    /** `native_rw_unlock` gives back what the caller holds and nothing else. */
    method Unlock(t: Tid) returns (error: int)
      requires Valid() && (exclusive == Some(t) || t in shared)
      modifies this
      ensures Valid() && error == 0
      ensures exclusive == None
      ensures shared == old(shared) - {t}
    {
      if haveExclusive {
        haveExclusive := false;
        exclusive := None;
      } else {
        shared := shared - {t};
      }
      error := 0;
    }
  }
}
