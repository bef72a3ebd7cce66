/** Runs of the scheduler: any interleaving of import calls, dispatches, timers and returns. */
module SchedulerRuns {
  import opened Collections
  import opened SchedulerState
  import opened SchedulerCascade
  import opened SchedulerDeath

  datatype Action =
    | DoSpawn(link: bool)
    | DoSend(to: Pid, msg: Msg)
    | DoSetTrapExit(on: bool)
    | DoExit(reason: Term)
    | DoExit2(to: Pid, reason: Term)
    | DoRegister(name: nat, pid: Pid)
    | DoMonitor(target: Pid)
    | DoDemonitor(ref: nat)
    | DoRecvRemove
    | DoRecvAdvance
    | DoRecvWait
    | DoRecvWaitTimeout
    | DoYield
    | Returns(normal: bool)
    | Dispatches
    | Fires(pid: Pid)

  ghost predicate NobodyRuns(s: State) {
    forall q | q in s.procs :: s.procs[q].status != Running
  }

  ghost predicate Enabled(s: State, a: Action) {
    && !s.mainDone
    && match a
       case Dispatches => s.runq != [] && NobodyRuns(s)
       case Fires(pid) => pid in s.procs && s.procs[pid].timer
       case _ => CurrentLive(s) && s.procs[s.current].status == Running
  }

  function Apply(s: State, a: Action): State
    requires a.Dispatches? ==> s.runq != []
    requires !a.Dispatches? && !a.Fires? ==> CurrentLive(s)
  {
    match a
    case DoSpawn(link) => Spawn(s, link)
    case DoSend(to, msg) => Send(s, to, msg)
    case DoSetTrapExit(on) => SetTrapExit(s, on)
    case DoExit(reason) => ExitSelf(s, reason)
    case DoExit2(to, reason) => SignalExit(s, to, reason)
    case DoRegister(name, pid) => Register(s, name, pid)
    case DoMonitor(target) => AddMonitor(s, target)
    case DoDemonitor(ref) => Demonitor(s, ref)
    case DoRecvRemove => RecvRemove(s)
    case DoRecvAdvance => RecvAdvance(s)
    case DoRecvWait => RecvWait(s)
    case DoRecvWaitTimeout => RecvWaitTimeout(s)
    case DoYield => Yield(s)
    case Returns(normal) => Return(s, normal)
    case Dispatches => Dispatch(s)
    case Fires(pid) => TimerFires(s, pid)
  }

  // ---- The invariant ----

  ghost predicate ProcOk(p: Proc) {
    && !p.dead && p.status != Done
    && p.resolve == p.reject == (p.status in {Waiting, Runnable, Ready})
    && (p.timer ==> p.status == Waiting)
  }

  ghost predicate QueuedOnce(s: State, q: Pid)
    requires q in s.procs
  {
    && multiset(s.runq)[Job(q, Start)] == (if s.procs[q].status == New then 1 else 0)
    && multiset(s.runq)[Job(q, Resume)] == (if s.procs[q].status in {Runnable, Ready} then 1 else 0)
  }

  ghost predicate LinksOk(s: State) {
    && Symmetric(s)
    && forall q, x | q in s.procs && x in s.procs[q].links :: x in s.procs
  }

  ghost predicate MonitorsOk(s: State) {
    forall m | m in s.monitors :: m.owner in s.procs && m.ref < s.nextRef
  }

  ghost predicate PidsOk(s: State) {
    && (forall q | q in s.procs :: q < s.nextPid)
    && (forall j | j in s.runq :: j.pid < s.nextPid)
  }

  ghost predicate ProcsOk(s: State) {
    && (forall q | q in s.procs :: ProcOk(s.procs[q]))
    && (forall q | q in s.procs && s.procs[q].status == Running :: q == s.current)
  }

  /** A process has one entry in the run queue iff it is new, woken or preempted, and none otherwise. */
  ghost predicate QueueOk(s: State) {
    forall q | q in s.procs :: QueuedOnce(s, q)
  }

  ghost predicate TimersOk(s: State) {
    s.pendingTimers == |Timers(s)|
  }

  ghost predicate Valid(s: State) {
    ProcsOk(s) && QueueOk(s) && TimersOk(s) && LinksOk(s) && MonitorsOk(s) && PidsOk(s)
  }

  lemma InitialValid()
    ensures Valid(INITIAL)
  {
    assert Timers(INITIAL) == {};
  }

  // ---- Every step keeps the invariant ----

  /** A step that changes one record, and the queue and the timer count only as that record requires. */
  lemma ValidUpdate(s: State, r: State, q: Pid)
    requires Valid(s) && q in s.procs && q in r.procs
    requires r.procs == s.procs[q := r.procs[q]] && r.procs[q].links == s.procs[q].links
    requires r.monitors == s.monitors && r.nextRef == s.nextRef && r.nextPid == s.nextPid
    requires ProcOk(r.procs[q]) && QueuedOnce(r, q)
    requires forall x, k | x in s.procs && x != q :: multiset(r.runq)[Job(x, k)] == multiset(s.runq)[Job(x, k)]
    requires forall j | j in r.runq :: j in s.runq || j.pid == q
    requires forall x | x in r.procs && r.procs[x].status == Running :: x == r.current
    requires r.pendingTimers - (if r.procs[q].timer then 1 else 0) == s.pendingTimers - (if s.procs[q].timer then 1 else 0)
    ensures Valid(r)
  {
    hide LinksOk, MonitorsOk, QueueOk, Live, Timers;
    TimersUpdate(s, r, q);
    TimersMember(s, q);
    TimersMember(r, q);
    LinksUnchanged(s, r);
    MonitorsUnchanged(s, r);
    QueueUnchanged(s, r, q);
  }

  lemma TimersMember(s: State, q: Pid)
    requires ProcsOk(s) || (q in s.procs && ProcOk(s.procs[q]))
    requires q in s.procs
    ensures q in Timers(s) <==> s.procs[q].timer
  {
  }

  lemma QueueUnchanged(s: State, r: State, q: Pid)
    requires QueueOk(s) && q in s.procs && q in r.procs && r.procs == s.procs[q := r.procs[q]]
    requires QueuedOnce(r, q)
    requires forall x, k | x in s.procs && x != q :: multiset(r.runq)[Job(x, k)] == multiset(s.runq)[Job(x, k)]
    ensures QueueOk(r)
  {
    forall x | x in r.procs ensures QueuedOnce(r, x) { assert x != q ==> QueuedOnce(s, x); }
  }

  lemma MonitorsUnchanged(s: State, r: State)
    requires MonitorsOk(s) && r.monitors == s.monitors && r.nextRef == s.nextRef && r.procs.Keys == s.procs.Keys
    ensures MonitorsOk(r)
  {
  }

  lemma LinksUnchanged(s: State, r: State)
    requires LinksOk(s) && r.procs.Keys == s.procs.Keys
    requires forall x | x in s.procs :: r.procs[x].links == s.procs[x].links && !s.procs[x].dead && !r.procs[x].dead
    ensures LinksOk(r)
  {
    assert Live(r) == Live(s);
  }

  lemma QueueAppend(runq: seq<Job>, j: Job)
    ensures forall i :: multiset(runq + [j])[i] == multiset(runq)[i] + (if i == j then 1 else 0)
  {
  }

  lemma QueuePop(runq: seq<Job>)
    requires runq != []
    ensures forall i :: multiset(runq)[i] == multiset(runq[1..])[i] + (if i == runq[0] then 1 else 0)
    ensures forall j | j in runq[1..] :: j in runq
  {
    assert runq == [runq[0]] + runq[1..];
  }

  lemma ValidAt(s: State, q: Pid)
    requires Valid(s) && q in s.procs
    ensures QueuedOnce(s, q) && ProcOk(s.procs[q])
  {
  }

  lemma ValidLocal(s: State, a: Action)
    requires Valid(s) && Enabled(s, a)
    requires a.DoSetTrapExit? || a.DoExit? || a.DoRecvRemove? || a.DoRecvAdvance? || a.DoRecvWait?
    ensures Valid(Apply(s, a))
  {
    hide LinksOk, MonitorsOk, PidsOk, QueueOk, TimersOk;
    assert QueuedOnce(s, s.current) by { ValidAt(s, s.current); }
    ValidUpdate(s, Apply(s, a), s.current);
  }

  lemma ValidWaitTimeout(s: State)
    requires Valid(s) && Enabled(s, DoRecvWaitTimeout)
    ensures Valid(RecvWaitTimeout(s))
  {
    hide LinksOk, MonitorsOk, PidsOk, QueueOk, TimersOk;
    var r := RecvWaitTimeout(s);
    assert r.procs == s.procs[s.current := r.procs[s.current]];
    ValidAt(s, s.current);
    ValidUpdate(s, r, s.current);
  }

  lemma ValidYield(s: State)
    requires Valid(s) && Enabled(s, DoYield)
    ensures Valid(Yield(s))
  {
    hide LinksOk, MonitorsOk, PidsOk, QueueOk, TimersOk;
    QueueAppend(s.runq, Job(s.current, Resume));
    ValidAt(s, s.current);
    ValidUpdate(s, Yield(s), s.current);
  }

  lemma FiresIs(s: State, pid: Pid)
    requires pid in s.procs && !s.procs[pid].dead && s.procs[pid].status == Waiting
    ensures TimerFires(s, pid) == s.(
      procs := s.procs[pid := s.procs[pid].(status := Ready, timedOut := true, timer := false)],
      runq := s.runq + [Job(pid, Resume)],
      pendingTimers := if s.procs[pid].timer then s.pendingTimers - 1 else s.pendingTimers)
  {
    var a := s.procs[pid].(status := Ready, timedOut := true);
    assert s.procs[pid := a][pid := a.(timer := false)] == s.procs[pid := a.(timer := false)];
  }

  lemma ValidFires(s: State, pid: Pid)
    requires Valid(s) && pid in s.procs
    ensures Valid(TimerFires(s, pid))
  {
    hide LinksOk, MonitorsOk, PidsOk, QueueOk, TimersOk, TimerFires;
    if s.procs[pid].status == Waiting {
      FiresIs(s, pid);
      QueueAppend(s.runq, Job(pid, Resume));
      ValidAt(s, pid);
      ValidUpdate(s, TimerFires(s, pid), pid);
    } else {
      FiresNot(s, pid);
    }
  }

  lemma FiresNot(s: State, pid: Pid)
    requires pid in s.procs && s.procs[pid].status != Waiting
    ensures TimerFires(s, pid) == s
  {
  }

  /** Under the invariant the entry at the head of the queue finds a new, or a parked and woken, process, or none. */
  lemma DispatchIs(s: State)
    requires Valid(s) && s.runq != []
    ensures var q := s.runq[0].pid;
      Dispatch(s) == if q !in s.procs then s.(runq := s.runq[1..])
                     else s.(runq := s.runq[1..], current := q,
                             procs := s.procs[q := s.procs[q].(status := Running, resolve := false, reject := false)])
    ensures var job := s.runq[0];
      job.pid in s.procs ==>
        if job.kind == Start then s.procs[job.pid].status == New
        else s.procs[job.pid].status in {Runnable, Ready} && s.procs[job.pid].resolve && s.procs[job.pid].reject
  {
    var job := s.runq[0];
    assert multiset(s.runq)[job] >= 1;
    if job.pid in s.procs {
      ValidAt(s, job.pid);
    }
  }

  lemma ValidDispatch(s: State)
    requires Valid(s) && Enabled(s, Dispatches)
    ensures Valid(Dispatch(s))
  {
    hide LinksOk, MonitorsOk, PidsOk, QueueOk, TimersOk, Dispatch;
    var job, r := s.runq[0], Dispatch(s);
    QueuePop(s.runq);
    DispatchIs(s);
    if job.pid in s.procs {
      ValidAt(s, job.pid);
      ValidUpdate(s, r, job.pid);
    } else {
      MonitorsUnchanged(s, r);
      ValidSameProcs(s, r);
    }
  }

  lemma ValidSameProcs(s: State, r: State)
    requires Valid(s)
    requires r == s.(runq := r.runq, registry := r.registry, mainDone := r.mainDone,
                     monitors := r.monitors, nextRef := r.nextRef)
    requires MonitorsOk(r)
    requires forall x, k | x in s.procs :: multiset(r.runq)[Job(x, k)] == multiset(s.runq)[Job(x, k)]
    requires forall j | j in r.runq :: j in s.runq
    ensures Valid(r)
  {
    assert Timers(r) == Timers(s);
    QueueSameProcs(s, r);
    hide LinksOk, QueueOk, MonitorsOk;
    LinksUnchanged(s, r);
  }

  lemma QueueSameProcs(s: State, r: State)
    requires QueueOk(s) && r.procs == s.procs
    requires forall x, k | x in s.procs :: multiset(r.runq)[Job(x, k)] == multiset(s.runq)[Job(x, k)]
    ensures QueueOk(r)
  {
    forall x | x in r.procs ensures QueuedOnce(r, x) { assert QueuedOnce(s, x); }
  }

  lemma ValidDeliver(s: State, q: Pid, msg: Msg)
    requires Valid(s) && q in s.procs
    ensures Valid(Deliver(s, q, msg))
  {
    hide LinksOk, MonitorsOk, PidsOk, QueueOk, TimersOk, Deliver;
    var r := Deliver(s, q, msg);
    DeliverIs(s, q, msg);
    QueueAppend(s.runq, Job(q, Resume));
    ValidAt(s, q);
    ValidUpdate(s, r, q);
  }

  lemma ValidSpawn(s: State, link: bool)
    requires Valid(s) && Enabled(s, DoSpawn(link))
    ensures Valid(Spawn(s, link))
  {
    hide Spawn, LinksOk, QueueOk, PidsOk;
    SpawnLinks(s, link);
    SpawnAt(s, link);
    SpawnQueue(s, link);
    SpawnPids(s, link);
    SpawnTimers(s, Spawn(s, link));
  }

  ghost predicate Alike(p: Proc, p': Proc) {
    && p'.status == p.status && p'.timer == p.timer && p'.dead == p.dead
    && p'.resolve == p.resolve && p'.reject == p.reject
  }

  /** Apart from links, nobody else changes and the new process is as `newProc` makes it. */
  lemma SpawnAt(s: State, link: bool)
    requires Valid(s) && CurrentLive(s)
    ensures var pid, r := s.nextPid, Spawn(s, link);
      && r == s.(nextPid := pid + 1, runq := s.runq + [Job(pid, Start)], procs := r.procs)
      && pid !in s.procs && r.procs.Keys == s.procs.Keys + {pid}
      && Alike(NEW_PROC, r.procs[pid])
      && forall x | x in s.procs :: Alike(s.procs[x], r.procs[x])
  {
    SpawnIs(s, link);
    hide Spawn, Valid, LinksOk, QueueOk, PidsOk;
  }

  lemma SpawnTimers(s: State, r: State)
    requires r.procs.Keys == s.procs.Keys + {s.nextPid} && s.nextPid !in s.procs
    requires Alike(NEW_PROC, r.procs[s.nextPid]) && forall x | x in s.procs :: Alike(s.procs[x], r.procs[x])
    ensures Timers(r) == Timers(s)
  {
  }

  lemma SpawnPids(s: State, link: bool)
    requires Valid(s) && CurrentLive(s)
    ensures PidsOk(Spawn(s, link))
  {
    SpawnAt(s, link);
    hide Spawn, LinksOk, QueueOk, TimersOk, MonitorsOk, ProcsOk;
  }

  lemma SpawnIs(s: State, link: bool)
    requires Valid(s) && CurrentLive(s)
    ensures var pid, c, r := s.nextPid, s.current, Spawn(s, link);
      && pid !in s.procs && c in s.procs && c != pid && pid !in s.procs[c].links
      && r == s.(nextPid := pid + 1, runq := s.runq + [Job(pid, Start)],
                 procs := if link then s.procs[pid := NEW_PROC.(links := [c])]
                                              [c := s.procs[c].(links := s.procs[c].links + [pid])]
                          else s.procs[pid := NEW_PROC])
  {
    hide QueueOk, TimersOk, MonitorsOk;
    var pid, c := s.nextPid, s.current;
    assert pid !in s.procs && pid !in s.procs[c].links;
    if link {
      assert WithLink([], c) == [c];
      var a, b := NEW_PROC, NEW_PROC.(links := [c]);
      assert s.procs[pid := a][pid := b] == s.procs[pid := b];
    }
  }

  lemma SpawnLinks(s: State, link: bool)
    requires Valid(s) && CurrentLive(s)
    ensures LinksOk(Spawn(s, link))
  {
    var r := Spawn(s, link);
    forall q | q in r.procs
      ensures NoDuplicates(r.procs[q].links) && q !in r.procs[q].links
      ensures forall x | x in r.procs[q].links :: x in r.procs && q in r.procs[x].links
    {
      SpawnLinksAt(s, link, q);
    }
    hide Spawn, Valid;
  }

  lemma SpawnLinksAt(s: State, link: bool, q: Pid)
    requires Valid(s) && CurrentLive(s) && q in Spawn(s, link).procs
    ensures var r := Spawn(s, link);
      && NoDuplicates(r.procs[q].links) && q !in r.procs[q].links
      && forall x | x in r.procs[q].links :: x in r.procs && q in r.procs[x].links
  {
    SpawnIs(s, link);
    ClosedLinks(s, q);
    hide Spawn, Valid, CurrentLive, NoDuplicates;
    var pid, c, r := s.nextPid, s.current, Spawn(s, link);
    if link && q == c {
      NoDuplicatesSnoc(s.procs[c].links, pid);
      assert r.procs[c].links == s.procs[c].links + [pid];
    } else if q == pid {
      NoDuplicatesSmall(r.procs[pid].links);
    }
  }

  lemma NoDuplicatesSnoc(links: seq<Pid>, pid: Pid)
    requires NoDuplicates(links) && pid !in links
    ensures NoDuplicates(links + [pid])
  {
  }

  lemma NoDuplicatesSmall(links: seq<Pid>)
    requires |links| <= 1
    ensures NoDuplicates(links)
  {
  }

  /** In a valid state links name each other, each once and never their owner. */
  lemma ClosedLinks(s: State, q: Pid)
    requires Valid(s)
    ensures q in s.procs ==>
      && NoDuplicates(s.procs[q].links) && q !in s.procs[q].links
      && forall x | x in s.procs[q].links :: x in s.procs && q in s.procs[x].links
  {
    hide QueueOk, TimersOk, MonitorsOk, PidsOk;
  }

  lemma FreshUnqueued(s: State)
    requires PidsOk(s)
    ensures forall k :: multiset(s.runq)[Job(s.nextPid, k)] == 0
  {
    assert forall k :: Job(s.nextPid, k) !in s.runq;
  }

  lemma SpawnQueue(s: State, link: bool)
    requires Valid(s) && CurrentLive(s)
    ensures QueueOk(Spawn(s, link))
  {
    var pid, r := s.nextPid, Spawn(s, link);
    QueueAppend(s.runq, Job(pid, Start));
    FreshUnqueued(s);
    SpawnAt(s, link);
    assert QueuedOnce(r, pid);
    hide LinksOk, Spawn, TimersOk, MonitorsOk, ProcsOk, PidsOk;
    hide QueuedOnce;
    forall q | q in r.procs ensures QueuedOnce(r, q) {
      if q != pid {
        assert QueuedOnce(s, q);
        QueuedElsewhere(s, r, q, Job(pid, Start));
      }
    }
  }

  lemma QueuedElsewhere(s: State, r: State, q: Pid, j: Job)
    requires q in s.procs && q in r.procs && QueuedOnce(s, q) && Alike(s.procs[q], r.procs[q])
    requires r.runq == s.runq + [j] && j.pid != q
    ensures QueuedOnce(r, q)
  {
  }

  lemma {:induction false} WithoutRefMembers(monitors: seq<Monitor>, ref: nat)
    ensures forall m :: m in WithoutRef(monitors, ref) <==> m in monitors && m.ref != ref
  {
    if monitors != [] {
      WithoutRefMembers(monitors[1..], ref);
      assert monitors == [monitors[0]] + monitors[1..];
    }
  }

  lemma ValidTables(s: State, a: Action)
    requires Valid(s) && Enabled(s, a)
    requires a.DoRegister? || a.DoMonitor? || a.DoDemonitor?
    ensures Valid(Apply(s, a))
  {
    var r := Apply(s, a);
    if a.DoDemonitor? { WithoutRefMembers(s.monitors, a.ref); }
    assert MonitorsOk(r);
    hide Valid, MonitorsOk;
    ValidSameProcs(s, r);
  }

  // ---- Deaths keep the invariant ----

  lemma {:induction false} PruneSubset(monitors: seq<Monitor>, gone: set<Pid>)
    ensures forall m | m in Prune(monitors, gone) :: m in monitors && m.owner !in gone && m.target !in gone
  {
    if monitors != [] {
      PruneSubset(monitors[1..], gone);
    }
  }

  lemma SurvivorOk(p: Proc, p': Proc, q: Pid, monitors: seq<Monitor>, removed: set<Pid>, reason: Term)
    requires ProcOk(p) && Survives(p, p', q, monitors, removed, removed, reason)
    ensures ProcOk(p')
    ensures p'.status == p.status || (p.status == Waiting && p'.status == Runnable)
    ensures forall x :: x in p'.links <==> x in p.links && x !in removed
    ensures NoDuplicates(p.links) ==> NoDuplicates(p'.links)
  {
    WithoutMembers(p.links, removed);
  }

  /** Survivors of a cascade that removed `removed`, seen one at a time. */
  lemma KilledAt(s: State, r: State, removed: set<Pid>, pid: Pid, reason: Term, q: Pid)
    requires Valid(s) && Kills(s, r, removed, pid, {}, reason) && q in r.procs
    ensures q in Live(r) && q in s.procs && q !in removed
    ensures Survives(s.procs[q], r.procs[q], q, s.monitors, removed, removed, reason)
    ensures ProcOk(r.procs[q])
    ensures r.procs[q].status == s.procs[q].status || (s.procs[q].status == Waiting && r.procs[q].status == Runnable)
    ensures forall x :: x in r.procs[q].links <==> x in s.procs[q].links && x !in removed
    ensures NoDuplicates(r.procs[q].links)
  {
    hide Survives, Requeued, SameCounters, QueueOk, MonitorsOk;
    ValidAt(s, q);
    assert q in Live(s);
    SurvivorOk(s.procs[q], r.procs[q], q, s.monitors, removed, reason);
  }

  lemma ValidKilled(s: State, r: State, removed: set<Pid>, pid: Pid, reason: Term)
    requires Valid(s) && Kills(s, r, removed, pid, {}, reason)
    ensures Valid(r)
  {
    KilledLinks(s, r, removed, pid, reason);
    KilledQueue(s, r, removed, pid, reason);
    KilledProcs(s, r, removed, pid, reason);
    hide Survives, QueueOk, LinksOk, ProcsOk, Timers;
    KilledPids(s, r, removed, pid, reason);
    PruneSubset(s.monitors, removed);
  }

  lemma KilledProcs(s: State, r: State, removed: set<Pid>, pid: Pid, reason: Term)
    requires Valid(s) && Kills(s, r, removed, pid, {}, reason)
    ensures ProcsOk(r)
  {
    forall q | q in r.procs ensures ProcOk(r.procs[q]) && (r.procs[q].status == Running ==> q == r.current) {
      KilledAt(s, r, removed, pid, reason, q);
    }
  }

  lemma KilledPids(s: State, r: State, removed: set<Pid>, pid: Pid, reason: Term)
    requires PidsOk(s) && Kills(s, r, removed, pid, {}, reason)
    ensures PidsOk(r)
  {
    hide Survives;
  }

  lemma KilledLinks(s: State, r: State, removed: set<Pid>, pid: Pid, reason: Term)
    requires Valid(s) && Kills(s, r, removed, pid, {}, reason)
    ensures LinksOk(r)
  {
    hide Survives, Requeued, QueueOk, MonitorsOk, SameCounters, TimersOk, PidsOk;
    forall q | q in r.procs
      ensures NoDuplicates(r.procs[q].links)
      ensures forall x :: x in r.procs[q].links <==> x in s.procs[q].links && x !in removed
    {
      KilledAt(s, r, removed, pid, reason, q);
    }
  }

  lemma KilledQueue(s: State, r: State, removed: set<Pid>, pid: Pid, reason: Term)
    requires Valid(s) && Kills(s, r, removed, pid, {}, reason)
    ensures QueueOk(r)
  {
    forall q | q in r.procs ensures QueuedOnce(r, q) {
      KilledAt(s, r, removed, pid, reason, q);
      ValidAt(s, q);
      hide Survives, MonitorsOk, SameCounters, TimersOk, PidsOk, LinksOk, Valid;
      assert q in Live(s);
    }
  }

  lemma ValidFinish(s: State, pid: Pid, normal: bool)
    requires Valid(s) && pid in s.procs
    ensures Valid(Finish(s, pid, normal))
  {
    ValidAt(s, pid);
    FinishRemoves(s, pid, normal);
    hide Kills, Finish, Doomed;
    ValidKilled(s, Finish(s, pid, normal), Doomed(s, pid, Abnormal(s, pid, normal)), pid, ReasonOf(s.procs[pid]));
  }

  lemma ValidBlame(s: State, pid: Pid, reason: Term)
    requires Valid(s) && pid in s.procs
    ensures Valid(Blame(s, pid, reason))
  {
    hide LinksOk, MonitorsOk, PidsOk, QueueOk, TimersOk;
    ValidAt(s, pid);
    ValidUpdate(s, Blame(s, pid, reason), pid);
  }

  lemma ValidSignalExit(s: State, to: Pid, reason: Term)
    requires Valid(s)
    ensures Valid(SignalExit(s, to, reason))
  {
    hide Valid, Deliver, Finish, Blame;
    if IsLive(s, to) {
      ValidDeliver(s, to, Exit(s.current, reason));
      ValidBlame(s, to, reason);
      BlameKeys(s, to, reason);
      ValidFinish(Blame(s, to, reason), to, false);
    }
  }

  lemma BlameKeys(s: State, pid: Pid, reason: Term)
    requires pid in s.procs
    ensures Blame(s, pid, reason).procs.Keys == s.procs.Keys
  {
  }

  lemma ValidMainDone(s: State)
    requires Valid(s)
    ensures Valid(s.(mainDone := true))
  {
    hide LinksOk, QueueOk;
    ValidSameProcs(s, s.(mainDone := true));
  }

  /** Every step of every interleaving keeps the invariant. */
  lemma StepValid(s: State, a: Action)
    requires Valid(s) && Enabled(s, a)
    ensures Valid(Apply(s, a))
  {
    hide Valid, Finish, Deliver, Dispatch, SignalExit, TimerFires, Spawn;
    match a
    case DoSpawn(link) => ValidSpawn(s, link);
    case DoSend(to, msg) => if IsLive(s, to) { ValidDeliver(s, to, msg); }
    case DoExit2(to, reason) => ValidSignalExit(s, to, reason);
    case DoRegister(_, _) => ValidTables(s, a);
    case DoMonitor(_) => ValidTables(s, a);
    case DoDemonitor(_) => ValidTables(s, a);
    case DoRecvWaitTimeout => ValidWaitTimeout(s);
    case DoYield => ValidYield(s);
    case Returns(normal) => if s.current == 1 { ValidMainDone(s); } else { ValidFinish(s, s.current, normal); }
    case Dispatches => ValidDispatch(s);
    case Fires(pid) => ValidFires(s, pid);
    case _ => ValidLocal(s, a);
  }

  /** A step from `s` to `r` keeps the invariant whenever it is one that can happen. */
  ghost predicate Keeps(s: State, a: Action, r: State) {
    Valid(s) && Enabled(s, a) ==> Valid(r)
  }

  lemma StepKeeps(s: State, a: Action)
    ensures Valid(s) && Enabled(s, a) ==> Valid(Apply(s, a))
  {
    hide Valid, Enabled;
    if Valid(s) && Enabled(s, a) {
      StepValid(s, a);
    }
  }

  // ---- Runs ----

  ghost predicate IsRun(ss: seq<State>, acts: seq<Action>) {
    && |ss| == |acts| + 1
    && forall i | 0 <= i < |acts| :: Enabled(ss[i], acts[i]) && ss[i + 1] == Apply(ss[i], acts[i])
  }

  lemma RunLength(ss: seq<State>, acts: seq<Action>)
    requires IsRun(ss, acts)
    ensures |ss| == |acts| + 1
  {
  }

  lemma RunStep(ss: seq<State>, acts: seq<Action>, i: nat)
    requires IsRun(ss, acts) && i < |acts|
    ensures Enabled(ss[i], acts[i]) && ss[i + 1] == Apply(ss[i], acts[i])
  {
  }

  lemma {:induction false} RunValid(ss: seq<State>, acts: seq<Action>, n: nat)
    requires IsRun(ss, acts) && Valid(ss[0]) && n < |ss|
    ensures Valid(ss[n])
  {
    if n > 0 {
      RunValid(ss, acts, n - 1);
      StepValid(ss[n - 1], acts[n - 1]);
    }
  }
}
