/** Links, monitors and the current process of a run, told by the spawns, monitor calls, dispatches and deaths. */
module SchedulerTables {
  import opened SchedulerState
  import opened SchedulerCascade
  import opened SchedulerDeath
  import opened SchedulerRuns
  import opened SchedulerDelivery
  import opened SchedulerNames
  import opened SchedulerHistory

  // ---- Links ----

  lemma DeathLinks(s: State, pid: Pid, normal: bool, q: Pid, x: Pid)
    requires Valid(s) && pid in s.procs
    requires q in Finish(s, pid, normal).procs && x in Finish(s, pid, normal).procs
    ensures q in s.procs && x in s.procs
    ensures x in Finish(s, pid, normal).procs[q].links <==> x in s.procs[q].links
  {
    ValidAt(s, pid);
    FinishRemoves(s, pid, normal);
    hide Finish, Doomed, Survives, Requeued, SameCounters, Valid;
    var r, removed := Finish(s, pid, normal), Doomed(s, pid, Abnormal(s, pid, normal));
    KilledAt(s, r, removed, pid, ReasonOf(s.procs[pid]), q);
    KilledAt(s, r, removed, pid, ReasonOf(s.procs[pid]), x);
  }

  lemma ExitLinks(s: State, to: Pid, reason: Term, q: Pid, x: Pid)
    requires Valid(s) && q in SignalExit(s, to, reason).procs && x in SignalExit(s, to, reason).procs
    ensures q in s.procs && x in s.procs
    ensures x in SignalExit(s, to, reason).procs[q].links <==> x in s.procs[q].links
  {
    hide Valid, Deliver, Finish, Live;
    if IsLive(s, to) {
      DeliverLinks(s, to, Exit(s.current, reason), q);
      DeliverLinks(s, to, Exit(s.current, reason), x);
      ValidBlame(s, to, reason);
      BlameKeys(s, to, reason);
      if !s.procs[to].trapExit && reason != NormalAtom {
        DeathLinks(Blame(s, to, reason), to, false, q, x);
      }
    }
  }

  lemma DeliverLinks(s: State, to: Pid, msg: Msg, q: Pid)
    requires IsLive(s, to)
    ensures q in Deliver(s, to, msg).procs <==> q in s.procs
    ensures q in s.procs ==> Deliver(s, to, msg).procs[q].links == s.procs[q].links
  {
    DeliverIs(s, to, msg);
    hide Deliver;
  }

  lemma FiresLinks(s: State, pid: Pid, q: Pid)
    requires pid in s.procs && q in s.procs
    ensures q in TimerFires(s, pid).procs && TimerFires(s, pid).procs[q].links == s.procs[q].links
  {
  }

  /** `pid` and `child`, in either order. */
  ghost predicate Pair(q: Pid, x: Pid, pid: Pid, child: Pid) {
    (q == pid && x == child) || (q == child && x == pid)
  }

  lemma SpawnLinked(s: State, link: bool, q: Pid, x: Pid)
    requires Valid(s) && CurrentLive(s) && q in Spawn(s, link).procs
    ensures x in Spawn(s, link).procs[q].links
       <==> (link && Pair(q, x, s.current, s.nextPid)) || (q in s.procs && x in s.procs[q].links)
  {
    SpawnIs(s, link);
    hide Spawn, Valid;
  }

  /** One step: only a linked spawn makes a link, and only a death takes one away. */
  lemma LinksStep(s: State, a: Action, q: Pid, x: Pid)
    requires Valid(s) && Enabled(s, a) && q in Apply(s, a).procs && x in Apply(s, a).procs
    ensures x in Apply(s, a).procs[q].links
       <==> (a == DoSpawn(true) && Pair(q, x, s.current, s.nextPid)) || (q in s.procs && x in s.procs[q].links)
  {
    hide Valid, Spawn, Deliver, Finish, SignalExit, TimerFires, Dispatch, Pair;
    match a
    case DoSpawn(link) => SpawnLinked(s, link, q, x);
    case DoSend(to, msg) => if IsLive(s, to) { DeliverLinks(s, to, msg, q); }
    case DoExit2(to, reason) => ExitLinks(s, to, reason, q, x);
    case Returns(normal) => if s.current != 1 { DeathLinks(s, s.current, normal, q, x); }
    case Dispatches => DispatchIs(s);
    case Fires(pid) =>
      FiresKeys(s, pid);
      FiresLinks(s, pid, q);
    case _ =>
  }

  /** One of the two spawned the other with a link. */
  ghost function SpawnsLinked(ss: seq<State>, acts: seq<Action>, q: Pid, x: Pid): nat -> bool {
    (i: nat) => i < |acts| && i < |ss| && acts[i] == DoSpawn(true) && Pair(q, x, ss[i].current, ss[i].nextPid)
  }

  lemma SpawnsBorn(ss: seq<State>, acts: seq<Action>, q: Pid, x: Pid, i: nat)
    requires IsRun(ss, acts) && Valid(ss[0]) && i < |acts| && SpawnsLinked(ss, acts, q, x)(i)
    ensures i + 1 < |ss| && q in ss[i + 1].procs && x in ss[i + 1].procs
  {
    RunStep(ss, acts, i);
    RunLength(ss, acts);
    RunValid(ss, acts, i);
    hide Valid, IsRun, Spawn;
    SpawnBears(ss[i], true);
  }

  lemma LinksClosed(s: State, q: Pid, x: Pid)
    requires Valid(s) && q in s.procs && x in s.procs[q].links
    ensures x in s.procs
  {
  }

  /** Two live processes are linked exactly when one of them spawned the other with a link. */
  lemma {:induction false} LinksHistory(ss: seq<State>, acts: seq<Action>, q: Pid, x: Pid, n: nat)
    requires IsRun(ss, acts) && ss[0] == INITIAL && n < |ss| && q in ss[n].procs && x in ss[n].procs
    ensures x in ss[n].procs[q].links <==> Happened(SpawnsLinked(ss, acts, q, x), n)
  {
    var f := SpawnsLinked(ss, acts, q, x);
    hide Valid, Apply, Enabled, IsRun, Happened, SpawnsLinked;
    if n == 0 {
      NotHappened(f, 0);
    } else {
      InitialValid();
      RunLength(ss, acts);
      RunStep(ss, acts, n - 1);
      RunValid(ss, acts, n - 1);
      HappenedStep(f, n - 1);
      LinksStep(ss[n - 1], acts[n - 1], q, x);
      LinkAt(ss, acts, q, x, n - 1);
      if q in ss[n - 1].procs && x in ss[n - 1].procs {
        LinksHistory(ss, acts, q, x, n - 1);
      } else {
        if q in ss[n - 1].procs && x in ss[n - 1].procs[q].links { LinksClosed(ss[n - 1], q, x); }
        NeverLinked(ss, acts, q, x, n - 1);
      }
    }
  }

  lemma LinkAt(ss: seq<State>, acts: seq<Action>, q: Pid, x: Pid, i: nat)
    requires i < |acts| && i < |ss|
    ensures SpawnsLinked(ss, acts, q, x)(i) <==>
      acts[i] == DoSpawn(true) && Pair(q, x, ss[i].current, ss[i].nextPid)
  {
  }

  lemma NeverLinked(ss: seq<State>, acts: seq<Action>, q: Pid, x: Pid, n: nat)
    requires IsRun(ss, acts) && Valid(ss[0]) && n < |acts| && n + 1 < |ss|
    requires q in ss[n + 1].procs && x in ss[n + 1].procs && (q !in ss[n].procs || x !in ss[n].procs)
    ensures !Happened(SpawnsLinked(ss, acts, q, x), n)
  {
    hide Valid, Apply, Enabled, IsRun, Happened, SpawnsLinked;
    var f, y := SpawnsLinked(ss, acts, q, x), if q in ss[n].procs then x else q;
    Newborn(ss, acts, y, n);
    forall i: nat | i < n ensures !f(i) {
      if f(i) { SpawnsBorn(ss, acts, q, x, i); }
    }
    NotHappened(f, n);
  }

  // ---- Monitors ----

  ghost predicate Stays(s: State, r: State, x: Pid) {
    x in s.procs ==> x in r.procs
  }

  ghost predicate KeepsMonitors(s: State, r: State) {
    r.monitors == s.monitors && r.nextRef == s.nextRef && s.procs.Keys <= r.procs.Keys
  }

  lemma PruneHas(monitors: seq<Monitor>, gone: set<Pid>, m: Monitor)
    ensures m in Prune(monitors, gone) <==> m in monitors && m.owner !in gone && m.target !in gone
  {
    PruneMembers(monitors, gone);
    assert m in Prune(monitors, gone) <==> m in multiset(Prune(monitors, gone));
    assert m in monitors <==> m in multiset(monitors);
  }

  lemma DeathMonitors(s: State, pid: Pid, normal: bool, m: Monitor)
    requires Valid(s) && pid in s.procs
    ensures var r := Finish(s, pid, normal);
      && r.nextRef == s.nextRef
      && (m in r.monitors <==> m in s.monitors && Stays(s, r, m.owner) && Stays(s, r, m.target))
  {
    ValidAt(s, pid);
    FinishRemoves(s, pid, normal);
    hide Finish, Doomed, Survives, Requeued, Valid;
    PruneHas(s.monitors, Doomed(s, pid, Abnormal(s, pid, normal)), m);
    assert forall x :: x in Doomed(s, pid, Abnormal(s, pid, normal)) <==> !Stays(s, Finish(s, pid, normal), x);
  }

  lemma ExitMonitors(s: State, to: Pid, reason: Term, m: Monitor)
    requires Valid(s)
    ensures var r := SignalExit(s, to, reason);
      && r.nextRef == s.nextRef
      && (m in r.monitors <==> m in s.monitors && Stays(s, r, m.owner) && Stays(s, r, m.target))
  {
    hide Valid, Deliver, Finish, Live;
    if IsLive(s, to) {
      DeliverMonitors(s, to, Exit(s.current, reason));
      ValidBlame(s, to, reason);
      BlameKeys(s, to, reason);
      if !s.procs[to].trapExit && reason != NormalAtom {
        DeathMonitors(Blame(s, to, reason), to, false, m);
      }
    }
  }

  lemma DeliverMonitors(s: State, to: Pid, msg: Msg)
    requires IsLive(s, to)
    ensures KeepsMonitors(s, Deliver(s, to, msg))
  {
    DeliverIs(s, to, msg);
    hide Deliver;
  }

  lemma SpawnMonitors(s: State, link: bool)
    requires Valid(s) && CurrentLive(s)
    ensures KeepsMonitors(s, Spawn(s, link))
  {
    SpawnAt(s, link);
    hide Spawn, Valid;
  }

  lemma FiresMonitors(s: State, pid: Pid)
    requires pid in s.procs
    ensures KeepsMonitors(s, TimerFires(s, pid))
  {
  }

  lemma DispatchMonitors(s: State)
    requires Valid(s) && s.runq != []
    ensures KeepsMonitors(s, Dispatch(s))
  {
    DispatchIs(s);
    hide Dispatch, Valid;
  }

  /** One step: a monitor comes with a monitor call and goes with its reference, its owner or its target. */
  lemma MonitorsStep(s: State, a: Action, m: Monitor)
    requires Valid(s) && Enabled(s, a)
    ensures var r := Apply(s, a);
      && r.nextRef == (if a.DoMonitor? then s.nextRef + 1 else s.nextRef)
      && (m in r.monitors <==>
           (a.DoMonitor? && m == Monitor(s.current, a.target, s.nextRef))
           || (m in s.monitors && a != DoDemonitor(m.ref) && Stays(s, r, m.owner) && Stays(s, r, m.target)))
  {
    hide Valid, Spawn, Deliver, Finish, SignalExit, TimerFires, Dispatch, WithoutRef;
    match a
    case DoSpawn(link) => SpawnMonitors(s, link);
    case DoSend(to, msg) => if IsLive(s, to) { DeliverMonitors(s, to, msg); }
    case DoExit2(to, reason) => ExitMonitors(s, to, reason, m);
    case DoDemonitor(ref) => WithoutRefMembers(s.monitors, ref);
    case Returns(normal) => if s.current != 1 { DeathMonitors(s, s.current, normal, m); }
    case Dispatches => DispatchMonitors(s);
    case Fires(pid) => FiresMonitors(s, pid);
    case _ =>
  }

  /** The monitor call that made `m`. */
  ghost function MadeMonitor(ss: seq<State>, acts: seq<Action>, m: Monitor): nat -> bool {
    (i: nat) => i < |acts| && i < |ss| && acts[i] == DoMonitor(m.target)
                && ss[i].current == m.owner && ss[i].nextRef == m.ref
  }

  /** The steps that take `m` away: its reference is demonitored, or its owner or its target dies. */
  ghost function DropsMonitor(ss: seq<State>, acts: seq<Action>, m: Monitor): nat -> bool {
    (i: nat) => i < |acts| && i + 1 < |ss|
                && (acts[i] == DoDemonitor(m.ref)
                    || !Stays(ss[i], ss[i + 1], m.owner) || !Stays(ss[i], ss[i + 1], m.target))
  }

  /** A monitor entry is there exactly when such a call made it and nothing has taken it away since. */
  lemma {:induction false} MonitorsHistory(ss: seq<State>, acts: seq<Action>, m: Monitor, n: nat)
    requires IsRun(ss, acts) && ss[0] == INITIAL && n < |ss|
    ensures m in ss[n].monitors <==> Held(MadeMonitor(ss, acts, m), DropsMonitor(ss, acts, m), n)
  {
    var made, drops := MadeMonitor(ss, acts, m), DropsMonitor(ss, acts, m);
    hide Valid, Apply, Enabled, IsRun, Held, Stays;
    if n == 0 {
      NotHeld(made, drops, 0);
    } else {
      MonitorsHistory(ss, acts, m, n - 1);
      InitialValid();
      RunLength(ss, acts);
      RunStep(ss, acts, n - 1);
      RunValid(ss, acts, n - 1);
      HeldStep(made, drops, n - 1);
      MonitorsStep(ss[n - 1], acts[n - 1], m);
    }
  }

  // ---- The current process ----

  /** The dispatches that find process `q` alive. */
  ghost function Dispatched(ss: seq<State>, acts: seq<Action>, q: Pid): nat -> bool {
    (i: nat) => i < |acts| && i < |ss| && acts[i].Dispatches? && ss[i].runq != []
                && ss[i].runq[0].pid == q && q in ss[i].procs
  }

  /** The dispatches that find another process alive. */
  ghost function DispatchedOther(ss: seq<State>, acts: seq<Action>, q: Pid): nat -> bool {
    (i: nat) => i < |acts| && i < |ss| && acts[i].Dispatches? && ss[i].runq != []
                && ss[i].runq[0].pid != q && ss[i].runq[0].pid in ss[i].procs
  }

  lemma DeathCurrent(s: State, pid: Pid, normal: bool)
    requires Valid(s) && pid in s.procs
    ensures var r := Finish(s, pid, normal); r.current == s.current && r.mainDone == s.mainDone
  {
    ValidAt(s, pid);
    FinishRemoves(s, pid, normal);
    hide Finish, Doomed, Survives, Requeued, Valid;
  }

  lemma ExitCurrent(s: State, to: Pid, reason: Term)
    requires Valid(s)
    ensures var r := SignalExit(s, to, reason); r.current == s.current && r.mainDone == s.mainDone
  {
    hide Valid, Deliver, Finish, Live;
    if IsLive(s, to) {
      DeliverCurrent(s, to, Exit(s.current, reason));
      ValidBlame(s, to, reason);
      BlameKeys(s, to, reason);
      DeathCurrent(Blame(s, to, reason), to, false);
    }
  }

  lemma DeliverCurrent(s: State, to: Pid, msg: Msg)
    requires IsLive(s, to)
    ensures var r := Deliver(s, to, msg); r.current == s.current && r.mainDone == s.mainDone
  {
    DeliverIs(s, to, msg);
    hide Deliver;
  }

  lemma SpawnCurrent(s: State, link: bool)
    requires Valid(s) && CurrentLive(s)
    ensures var r := Spawn(s, link); r.current == s.current && r.mainDone == s.mainDone
  {
    SpawnAt(s, link);
    hide Spawn, Valid;
  }

  lemma FiresCurrent(s: State, pid: Pid)
    ensures var r := TimerFires(s, pid); r.current == s.current && r.mainDone == s.mainDone
  {
  }

  /** Only a dispatch changes who runs, and only the return of process 1 ends the main program. */
  lemma CurrentStep(s: State, a: Action)
    requires Valid(s) && Enabled(s, a)
    ensures var r := Apply(s, a);
      && r.current == (if a.Dispatches? && s.runq[0].pid in s.procs then s.runq[0].pid else s.current)
      && (r.mainDone <==> a.Returns? && s.current == 1)
  {
    hide Valid, Spawn, Deliver, Finish, SignalExit, TimerFires, Dispatch;
    match a
    case DoSpawn(link) => SpawnCurrent(s, link);
    case DoSend(to, msg) => if IsLive(s, to) { DeliverCurrent(s, to, msg); }
    case DoExit2(to, reason) => ExitCurrent(s, to, reason);
    case Returns(normal) => if s.current != 1 { DeathCurrent(s, s.current, normal); }
    case Dispatches => DispatchIs(s);
    case Fires(pid) => FiresCurrent(s, pid);
    case _ =>
  }

  /** The current process is the one that the last dispatch found alive, and process 1 before any did. */
  lemma {:induction false} CurrentHistory(ss: seq<State>, acts: seq<Action>, q: Pid, n: nat)
    requires IsRun(ss, acts) && ss[0] == INITIAL && n < |ss|
    ensures ss[n].current == q
       <==> Held(Dispatched(ss, acts, q), DispatchedOther(ss, acts, q), n)
            || (q == 1 && !Happened(DispatchedOther(ss, acts, q), n))
  {
    var mine, others := Dispatched(ss, acts, q), DispatchedOther(ss, acts, q);
    hide Valid, Apply, Enabled, IsRun, Held, Happened;
    if n == 0 {
      NotHeld(mine, others, 0);
      NotHappened(others, 0);
    } else {
      CurrentHistory(ss, acts, q, n - 1);
      InitialValid();
      RunLength(ss, acts);
      RunStep(ss, acts, n - 1);
      RunValid(ss, acts, n - 1);
      HeldStep(mine, others, n - 1);
      HappenedStep(others, n - 1);
      CurrentStep(ss[n - 1], acts[n - 1]);
      if acts[n - 1].Dispatches? { DispatchHasWork(ss[n - 1], acts[n - 1]); }
    }
  }

  lemma DispatchHasWork(s: State, a: Action)
    requires Enabled(s, a) && a.Dispatches?
    ensures s.runq != []
  {
  }

  /** The main program is done exactly when process 1 returned in the step just taken; no step follows. */
  lemma MainDoneHistory(ss: seq<State>, acts: seq<Action>, n: nat)
    requires IsRun(ss, acts) && ss[0] == INITIAL && n < |ss|
    ensures ss[n].mainDone <==> n > 0 && acts[n - 1].Returns? && ss[n - 1].current == 1
    ensures ss[n].mainDone ==> n == |acts|
  {
    InitialValid();
    RunLength(ss, acts);
    if n < |acts| { RunStep(ss, acts, n); }
    if n > 0 {
      RunStep(ss, acts, n - 1);
      RunValid(ss, acts, n - 1);
      hide Valid, Apply, IsRun;
      CurrentStep(ss[n - 1], acts[n - 1]);
    }
  }
}
