/** What `whereis` answers, told by the registrations and deaths of the run so far. */
module SchedulerNames {
  import opened SchedulerState
  import opened SchedulerCascade
  import opened SchedulerDeath
  import opened SchedulerRuns

  lemma UnnameNone(s: State)
    ensures Unname(s.registry, {}) == s.registry
  {
  }

  lemma DeliverNames(s: State, q: Pid, msg: Msg)
    requires q in Live(s)
    ensures Deliver(s, q, msg).registry == s.registry && Deliver(s, q, msg).procs.Keys == s.procs.Keys
  {
    DeliverIs(s, q, msg);
    hide Deliver;
  }

  lemma SpawnNames(s: State, link: bool)
    requires Valid(s) && CurrentLive(s)
    ensures Spawn(s, link).registry == s.registry && s.procs.Keys <= Spawn(s, link).procs.Keys
  {
    SpawnAt(s, link);
    hide Spawn, Valid;
  }

  lemma FinishNames(s: State, pid: Pid, normal: bool)
    requires Valid(s) && pid in s.procs
    ensures Finish(s, pid, normal).registry == Unname(s.registry, s.procs.Keys - Finish(s, pid, normal).procs.Keys)
  {
    ValidAt(s, pid);
    FinishRemoves(s, pid, normal);
    hide Finish, Doomed, Abnormal, Survives;
  }

  lemma ExitNames(s: State, to: Pid, reason: Term)
    requires Valid(s)
    ensures SignalExit(s, to, reason).registry
         == Unname(s.registry, s.procs.Keys - SignalExit(s, to, reason).procs.Keys)
  {
    hide Valid, Deliver, Finish, Unname;
    UnnameNone(s);
    if IsLive(s, to) {
      DeliverNames(s, to, Exit(s.current, reason));
      ValidBlame(s, to, reason);
      BlameKeys(s, to, reason);
      FinishNames(Blame(s, to, reason), to, false);
    }
    assert s.procs.Keys - s.procs.Keys == {};
  }

  lemma FiresNames(s: State, pid: Pid)
    requires pid in s.procs
    ensures TimerFires(s, pid).registry == s.registry && TimerFires(s, pid).procs.Keys == s.procs.Keys
  {
  }

  lemma DispatchNames(s: State)
    requires Valid(s) && s.runq != []
    ensures Dispatch(s).registry == s.registry && Dispatch(s).procs.Keys == s.procs.Keys
  {
    DispatchIs(s);
    hide Dispatch, Valid;
  }

  /** One step: a registration binds its name, and every other step unbinds the names of those it removes. */
  lemma NamesStep(s: State, a: Action)
    requires Valid(s) && Enabled(s, a)
    ensures var r := Apply(s, a);
      r.registry == if a.DoRegister? then s.registry[a.name := a.pid]
                    else Unname(s.registry, s.procs.Keys - r.procs.Keys)
  {
    hide Valid, Spawn, Deliver, Finish, SignalExit, TimerFires, Dispatch, Unname;
    UnnameNone(s);
    assert s.procs.Keys - s.procs.Keys == {};
    match a
    case DoSpawn(link) =>
      SpawnNames(s, link);
      assert s.procs.Keys - Spawn(s, link).procs.Keys == {};
    case DoSend(to, msg) => if IsLive(s, to) { DeliverNames(s, to, msg); }
    case DoExit2(to, reason) => ExitNames(s, to, reason);
    case Returns(normal) => if s.current != 1 { FinishNames(s, s.current, normal); }
    case Dispatches => DispatchNames(s);
    case Fires(pid) => FiresNames(s, pid);
    case _ => assert s.procs.Keys - Apply(s, a).procs.Keys == {};
  }

  lemma WhereisStep(s: State, a: Action, name: nat, pid: Pid)
    requires Valid(s) && Enabled(s, a) && pid != 0
    ensures Whereis(Apply(s, a), name) == pid
       <==> a == DoRegister(name, pid)
            || (Whereis(s, name) == pid && !(a.DoRegister? && a.name == name)
                && (pid in s.procs ==> pid in Apply(s, a).procs))
  {
    NamesStep(s, a);
    hide Valid, Apply, Enabled;
  }

  // ---- Over a run ----

  /** Step `j` neither binds `name` again nor removes `pid`. */
  ghost predicate LeavesName(ss: seq<State>, acts: seq<Action>, name: nat, pid: Pid, j: nat)
    requires |ss| == |acts| + 1 && j < |acts|
  {
    !(acts[j].DoRegister? && acts[j].name == name) && (pid in ss[j].procs ==> pid in ss[j + 1].procs)
  }

  /** Step `i` bound `name` to `pid`, and no step after it and before state `n` undid that. */
  ghost predicate BoundSince(ss: seq<State>, acts: seq<Action>, name: nat, pid: Pid, i: nat, n: nat)
    requires IsRun(ss, acts)
  {
    && i < n < |ss|
    && acts[i] == DoRegister(name, pid)
    && forall j | i < j < n :: LeavesName(ss, acts, name, pid, j)
  }

  ghost predicate Bound(ss: seq<State>, acts: seq<Action>, name: nat, pid: Pid, n: nat)
    requires IsRun(ss, acts)
  {
    exists i: nat :: BoundSince(ss, acts, name, pid, i, n)
  }

  lemma BoundGrows(ss: seq<State>, acts: seq<Action>, name: nat, pid: Pid, n: nat)
    requires IsRun(ss, acts) && n < |acts| && Bound(ss, acts, name, pid, n) && LeavesName(ss, acts, name, pid, n)
    ensures Bound(ss, acts, name, pid, n + 1)
  {
    RunLength(ss, acts);
    hide IsRun, LeavesName;
    var i: nat :| BoundSince(ss, acts, name, pid, i, n);
    assert BoundSince(ss, acts, name, pid, i, n + 1);
  }

  lemma BoundShrinks(ss: seq<State>, acts: seq<Action>, name: nat, pid: Pid, n: nat)
    requires IsRun(ss, acts) && n < |acts| && Bound(ss, acts, name, pid, n + 1)
    ensures acts[n] == DoRegister(name, pid) || (Bound(ss, acts, name, pid, n) && LeavesName(ss, acts, name, pid, n))
  {
    RunLength(ss, acts);
    hide IsRun, LeavesName;
    var i: nat :| BoundSince(ss, acts, name, pid, i, n + 1);
    assert i < n ==> BoundSince(ss, acts, name, pid, i, n);
  }

  lemma BoundStep(ss: seq<State>, acts: seq<Action>, name: nat, pid: Pid, n: nat)
    requires IsRun(ss, acts) && n < |acts|
    ensures Bound(ss, acts, name, pid, n + 1)
       <==> acts[n] == DoRegister(name, pid) || (Bound(ss, acts, name, pid, n) && LeavesName(ss, acts, name, pid, n))
  {
    RunLength(ss, acts);
    hide IsRun, LeavesName;
    if acts[n] == DoRegister(name, pid) {
      assert BoundSince(ss, acts, name, pid, n, n + 1);
    } else {
      hide Bound;
      if Bound(ss, acts, name, pid, n + 1) { BoundShrinks(ss, acts, name, pid, n); }
      if Bound(ss, acts, name, pid, n) && LeavesName(ss, acts, name, pid, n) { BoundGrows(ss, acts, name, pid, n); }
    }
  }

  /** `whereis` answers with the process of the latest registration of the name, as long as it has not died since. */
  lemma {:induction false} WhereisHistory(ss: seq<State>, acts: seq<Action>, name: nat, pid: Pid, n: nat)
    requires IsRun(ss, acts) && ss[0] == INITIAL && n < |ss| && pid != 0
    ensures Whereis(ss[n], name) == pid <==> Bound(ss, acts, name, pid, n)
  {
    if n > 0 {
      WhereisHistory(ss, acts, name, pid, n - 1);
      RunLength(ss, acts);
      RunStep(ss, acts, n - 1);
      InitialValid();
      hide Valid, Apply, Enabled, IsRun, Bound, Whereis;
      RunValid(ss, acts, n - 1);
      WhereisStep(ss[n - 1], acts[n - 1], name, pid);
      BoundStep(ss, acts, name, pid, n - 1);
    }
  }

  // ---- Whether it names a live process ----

  /** `r` has no process that `s` had not. */
  ghost predicate NoneBorn(s: State, r: State) {
    r.nextPid == s.nextPid && r.procs.Keys <= s.procs.Keys
  }

  lemma DeliverBears(s: State, q: Pid, msg: Msg)
    requires q in Live(s)
    ensures NoneBorn(s, Deliver(s, q, msg))
  {
    DeliverIs(s, q, msg);
    hide Deliver;
  }

  lemma FinishBears(s: State, pid: Pid, normal: bool)
    requires Valid(s) && pid in s.procs
    ensures NoneBorn(s, Finish(s, pid, normal))
  {
    ValidAt(s, pid);
    FinishRemoves(s, pid, normal);
    hide Finish, Doomed, Abnormal, Survives;
  }

  lemma ExitBears(s: State, to: Pid, reason: Term)
    requires Valid(s)
    ensures NoneBorn(s, SignalExit(s, to, reason))
  {
    hide Valid, Deliver, Finish;
    if IsLive(s, to) {
      DeliverBears(s, to, Exit(s.current, reason));
      ValidBlame(s, to, reason);
      BlameKeys(s, to, reason);
      FinishBears(Blame(s, to, reason), to, false);
    }
  }

  lemma FiresBears(s: State, pid: Pid)
    requires pid in s.procs
    ensures NoneBorn(s, TimerFires(s, pid))
  {
  }

  lemma DispatchBears(s: State)
    requires Valid(s) && s.runq != []
    ensures NoneBorn(s, Dispatch(s))
  {
    DispatchIs(s);
    hide Dispatch, Valid;
  }

  lemma SpawnBears(s: State, link: bool)
    requires Valid(s) && CurrentLive(s)
    ensures var r := Spawn(s, link); r.nextPid == s.nextPid + 1 && r.procs.Keys == s.procs.Keys + {s.nextPid}
  {
    SpawnAt(s, link);
    hide Spawn, Valid;
  }

  /** Only a spawn adds a process, and it takes the next pid. */
  lemma BirthStep(s: State, a: Action)
    requires Valid(s) && Enabled(s, a)
    ensures var r := Apply(s, a);
      if a.DoSpawn? then r.nextPid == s.nextPid + 1 && r.procs.Keys == s.procs.Keys + {s.nextPid} else NoneBorn(s, r)
  {
    hide Valid, Spawn, Deliver, Finish, SignalExit, TimerFires, Dispatch;
    match a
    case DoSpawn(link) => SpawnBears(s, link);
    case DoSend(to, msg) => if IsLive(s, to) { DeliverBears(s, to, msg); }
    case DoExit2(to, reason) => ExitBears(s, to, reason);
    case Returns(normal) => if s.current != 1 { FinishBears(s, s.current, normal); }
    case Dispatches => DispatchBears(s);
    case Fires(pid) => FiresBears(s, pid);
    case _ =>
  }

  lemma BoundBack(ss: seq<State>, acts: seq<Action>, name: nat, pid: Pid, i: nat, n: nat)
    requires IsRun(ss, acts) && BoundSince(ss, acts, name, pid, i, n)
    ensures i < n <= |acts| < |ss|
    ensures n == i + 1 ==> ss[n].procs == ss[i].procs && ss[n].nextPid == ss[i].nextPid
    ensures n > i + 1 ==>
      BoundSince(ss, acts, name, pid, i, n - 1) && (pid in ss[n - 1].procs ==> pid in ss[n].procs)
  {
    RunStep(ss, acts, i);
    RunLength(ss, acts);
    hide IsRun, Enabled;
    if n > i + 1 {
      hide Apply;
      assert LeavesName(ss, acts, name, pid, n - 1);
    }
  }

  /** The same step for one process. */
  lemma BirthOf(s: State, a: Action, pid: Pid)
    requires Valid(s) && Enabled(s, a)
    ensures var r := Apply(s, a);
      && s.nextPid <= r.nextPid <= s.nextPid + 1
      && (pid in r.procs ==> pid in s.procs || s.nextPid <= pid < r.nextPid)
      && (s.nextPid <= pid < r.nextPid ==> pid in r.procs)
  {
    hide Valid, Apply, Enabled;
    BirthStep(s, a);
  }

  /** A name leads to a live process exactly when that process lived when it was registered, or was spawned since. */
  lemma {:induction false} WhereisLive(ss: seq<State>, acts: seq<Action>, name: nat, pid: Pid, i: nat, n: nat)
    requires IsRun(ss, acts) && Valid(ss[0]) && BoundSince(ss, acts, name, pid, i, n)
    ensures ss[i].nextPid <= ss[n].nextPid
    ensures pid in ss[n].procs <==> pid in ss[i].procs || ss[i].nextPid <= pid < ss[n].nextPid
    decreases n
  {
    hide Valid, IsRun, Apply, Enabled, BoundSince;
    BoundBack(ss, acts, name, pid, i, n);
    if n > i + 1 {
      RunStep(ss, acts, n - 1);
      RunValid(ss, acts, n - 1);
      BirthOf(ss[n - 1], acts[n - 1], pid);
      WhereisLive(ss, acts, name, pid, i, n - 1);
    }
  }
}
