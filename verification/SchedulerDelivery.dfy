/** What runs deliver: wake-ups, selective receive, and where every message goes. */
module SchedulerDelivery {
  import opened Collections
  import opened SchedulerState
  import opened SchedulerCascade
  import opened SchedulerDeath
  import opened SchedulerRuns

  // ---- What one step puts into one mailbox ----

  /** Messages that the death of `pid` puts into the mailbox of a survivor `q`. */
  ghost function DeathGains(s: State, pid: Pid, normal: bool, q: Pid): multiset<Msg>
    requires pid in s.procs && q in s.procs
  {
    var removed, reason := Doomed(s, pid, Abnormal(s, pid, normal)), ReasonOf(s.procs[pid]);
    (if s.procs[q].trapExit then ExitsFor(s.procs[q].links, removed, reason) else multiset{})
    + DownsFor(s.monitors, q, removed, reason)
  }

  /** Messages that step `a` puts into the mailbox of `q`. */
  ghost function Gains(s: State, a: Action, q: Pid): multiset<Msg>
    requires q in s.procs && Enabled(s, a)
  {
    match a
    case DoSend(to, msg) => if to == q then multiset{msg} else multiset{}
    case DoExit2(to, reason) =>
      if to !in s.procs || s.procs[to].dead then multiset{}
      else if s.procs[to].trapExit then (if to == q then multiset{Exit(s.current, reason)} else multiset{})
      else if reason == NormalAtom then multiset{}
      else DeathGains(Blame(s, to, reason), to, false, q)
    case Returns(normal) => if s.current == 1 then multiset{} else DeathGains(s, s.current, normal, q)
    case _ => multiset{}
  }

  /** Steps by which `q` itself changes its own record. */
  ghost predicate Own(s: State, a: Action, q: Pid) {
    match a
    case DoSetTrapExit(_) => s.current == q
    case DoExit(_) => s.current == q
    case DoRecvRemove => s.current == q
    case DoRecvAdvance => s.current == q
    case DoRecvWait => s.current == q
    case DoRecvWaitTimeout => s.current == q
    case DoYield => s.current == q
    case Dispatches => s.runq != [] && s.runq[0].pid == q
    case Fires(pid) => pid == q
    case _ => false
  }

  lemma ReceivedLinks(p: Proc, p': Proc)
    requires p' == p.(links := p'.links)
    ensures Received(p, p', multiset{})
  {
  }

  lemma DeathReceives(s: State, pid: Pid, normal: bool, q: Pid)
    requires Valid(s) && pid in s.procs && q in s.procs && q in Finish(s, pid, normal).procs
    ensures Received(s.procs[q], Finish(s, pid, normal).procs[q], DeathGains(s, pid, normal, q))
  {
    ValidAt(s, pid);
    FinishRemoves(s, pid, normal);
    hide Finish, Received, Doomed, Kills;
    KilledAt(s, Finish(s, pid, normal), Doomed(s, pid, Abnormal(s, pid, normal)), pid, ReasonOf(s.procs[pid]), q);
  }

  /** Others only ever append to the mailbox of `q`, exactly `Gains`, and wake it if it was waiting. */
  lemma StepReceives(s: State, a: Action, q: Pid)
    requires Valid(s) && Enabled(s, a) && q in s.procs && q in Apply(s, a).procs && !Own(s, a, q)
    ensures Received(s.procs[q], Apply(s, a).procs[q], Gains(s, a, q))
  {
    hide Received, Valid, Finish, Deliver, Dispatch, TimerFires, DeathGains, Spawn, SignalExit, Own;
    if a.DoSpawn? {
      SpawnReceives(s, a.link, q);
    } else if a.DoExit2? {
      ExitReceives(s, a.to, a.reason, q);
    } else if a.DoSend? && a.to in s.procs {
      ValidAt(s, a.to);
      SendReceives(s, a.to, a.msg, q);
    } else if a.Returns? && s.current != 1 {
      DeathReceives(s, s.current, a.normal, q);
    } else {
      QuietStep(s, a, q);
      ReceivedNothing(s.procs[q]);
    }
  }

  lemma QuietStep(s: State, a: Action, q: Pid)
    requires Valid(s) && Enabled(s, a) && q in s.procs && !Own(s, a, q)
    requires !a.DoSpawn? && !a.DoExit2? && (a.DoSend? ==> a.to !in s.procs) && (a.Returns? ==> s.current == 1)
    ensures q in Apply(s, a).procs && Apply(s, a).procs[q] == s.procs[q] && Gains(s, a, q) == multiset{}
  {
    hide Valid, Finish, Deliver, Dispatch, SignalExit, TimerFires, DeathGains, Spawn;
    if a.Dispatches? { DispatchIs(s); }
    if a.Fires? { FiresElsewhere(s, a.pid, q); }
  }

  lemma SpawnReceives(s: State, link: bool, q: Pid)
    requires Valid(s) && CurrentLive(s) && q in s.procs
    ensures q in Spawn(s, link).procs && Received(s.procs[q], Spawn(s, link).procs[q], multiset{})
  {
    SpawnIs(s, link);
    hide Spawn;
    ReceivedLinks(s.procs[q], Spawn(s, link).procs[q]);
  }

  lemma FiresElsewhere(s: State, pid: Pid, q: Pid)
    requires pid in s.procs && q in s.procs && q != pid
    ensures TimerFires(s, pid).procs.Keys == s.procs.Keys && TimerFires(s, pid).procs[q] == s.procs[q]
  {
  }

  lemma SendReceives(s: State, to: Pid, msg: Msg, q: Pid)
    requires Valid(s) && to in s.procs && q in s.procs
    ensures q in Deliver(s, to, msg).procs
    ensures Received(s.procs[q], Deliver(s, to, msg).procs[q], if to == q then multiset{msg} else multiset{})
  {
    ValidAt(s, to);
    DeliverIs(s, to, msg);
    DeliveredReceives(s.procs[to], s.procs[to].links, msg);
    ReceivedNothing(s.procs[q]);
  }

  lemma ExitReceives(s: State, to: Pid, reason: Term, q: Pid)
    requires Valid(s) && Enabled(s, DoExit2(to, reason)) && q in s.procs && q in SignalExit(s, to, reason).procs
    ensures Received(s.procs[q], SignalExit(s, to, reason).procs[q], Gains(s, DoExit2(to, reason), q))
  {
    hide Valid, Finish, Deliver, DeathGains, Received;
    ReceivedNothing(s.procs[q]);
    if to in s.procs {
      ValidAt(s, to);
      if s.procs[to].trapExit {
        SendReceives(s, to, Exit(s.current, reason), q);
      } else if reason != NormalAtom {
        ValidBlame(s, to, reason);
        DeathReceives(Blame(s, to, reason), to, false, q);
        if q == to { FinishGone(Blame(s, to, reason), to); }
      }
    }
  }

  lemma FinishGone(s: State, pid: Pid)
    requires Valid(s) && pid in s.procs
    ensures pid !in Finish(s, pid, false).procs
  {
    ValidAt(s, pid);
    FinishRemoves(s, pid, false);
    hide Finish, Kills, Doomed;
    DoomedSelf(s, pid);
    assert pid in s.procs.Keys - Finish(s, pid, false).procs.Keys;
  }

  lemma DoomedSelf(s: State, pid: Pid)
    requires pid in Live(s)
    ensures forall abnormal :: pid in Doomed(s, pid, abnormal)
  {
    DoomedClosed(s, pid);
  }

  /** The owner's own steps: only `recv_remove` touches the mailbox, and it takes the message under the cursor. */
  lemma OwnStep(s: State, a: Action, q: Pid)
    requires Valid(s) && Enabled(s, a) && q in s.procs && Own(s, a, q)
    ensures q in Apply(s, a).procs && Gains(s, a, q) == multiset{}
    ensures var p, p' := s.procs[q], Apply(s, a).procs[q];
      && p'.mailbox == (if a.DoRecvRemove? && p.cursor < |p.mailbox|
                        then p.mailbox[..p.cursor] + p.mailbox[p.cursor + 1..] else p.mailbox)
      && p'.cursor == (match a
                       case DoRecvAdvance => p.cursor + 1
                       case DoRecvRemove => 0
                       case DoRecvWait => 0
                       case DoRecvWaitTimeout => 0
                       case _ => p.cursor)
      && (p.status == Waiting && p'.status == Waiting ==> p' == p)
  {
    hide TimerFires, Dispatch;
    match a
    case Dispatches => DispatchIs(s);
    case Fires(pid) =>
      if s.procs[pid].status == Waiting { ValidAt(s, pid); FiresIs(s, pid); } else { FiresNot(s, pid); }
    case _ =>
  }

  // ---- No lost wake-up ----

  /** A message never reaches a process that goes on waiting. */
  lemma WaitingUntouched(s: State, a: Action, q: Pid)
    requires Valid(s) && Enabled(s, a) && q in s.procs && q in Apply(s, a).procs
    requires s.procs[q].status == Waiting && Apply(s, a).procs[q].status == Waiting
    ensures Apply(s, a).procs[q].mailbox == s.procs[q].mailbox
  {
    if Own(s, a, q) {
      OwnStep(s, a, q);
    } else {
      StepReceives(s, a, q);
    }
  }

  /** Processes park only when the scan has reached the end of the mailbox, as the compiled receive loop does. */
  ghost predicate ParksAfterScan(ss: seq<State>, acts: seq<Action>)
    requires IsRun(ss, acts)
  {
    forall i | 0 <= i < |acts| && acts[i] in {DoRecvWait, DoRecvWaitTimeout} ::
      ss[i].procs[ss[i].current].cursor >= |ss[i].procs[ss[i].current].mailbox|
  }

  /** `q` parked at step `i` after looking at its whole mailbox, and nothing has arrived up to state `n`. */
  ghost predicate ParkedSince(ss: seq<State>, acts: seq<Action>, q: Pid, i: nat, n: nat)
    requires IsRun(ss, acts)
  {
    && i < n < |ss|
    && acts[i] in {DoRecvWait, DoRecvWaitTimeout} && ss[i].current == q
    && q in ss[i].procs && ss[i].procs[q].cursor >= |ss[i].procs[q].mailbox|
    && forall j | i < j <= n :: q in ss[j].procs && ss[j].procs[q].mailbox == ss[i].procs[q].mailbox
  }

  lemma StartsWaiting(s: State, a: Action, q: Pid)
    requires Valid(s) && Enabled(s, a) && q in Apply(s, a).procs && Apply(s, a).procs[q].status == Waiting
    requires q !in s.procs || s.procs[q].status != Waiting
    ensures q in s.procs && a in {DoRecvWait, DoRecvWaitTimeout} && s.current == q
    ensures Apply(s, a).procs[q].mailbox == s.procs[q].mailbox
  {
    hide Valid, Dispatch, TimerFires, Finish, Deliver, Spawn, SignalExit;
    if q !in s.procs {
      StepKeys(s, a, q);
    } else if !Own(s, a, q) {
      StepReceives(s, a, q);
    } else {
      if a.Dispatches? { DispatchIs(s); }
      if a.Fires? { FiresNot(s, q); }
    }
  }

  /** Only a spawn adds a process, and it starts out new. */
  lemma StepKeys(s: State, a: Action, q: Pid)
    requires Valid(s) && Enabled(s, a) && q in Apply(s, a).procs && q !in s.procs
    ensures Apply(s, a).procs[q].status == New
  {
    hide Valid, Dispatch, TimerFires, Finish, Deliver, Spawn, Blame;
    match a
    case DoSpawn(link) => SpawnAt(s, link);
    case DoSend(to, msg) => if IsLive(s, to) { DeliverIs(s, to, msg); }
    case DoExit(reason) => BlameKeys(s, s.current, reason);
    case DoExit2(to, reason) =>
      if IsLive(s, to) {
        DeliverIs(s, to, Exit(s.current, reason));
        ValidBlame(s, to, reason);
        BlameKeys(s, to, reason);
        FinishShrinks(Blame(s, to, reason), to, false);
      }
    case Returns(normal) => FinishShrinks(s, s.current, normal);
    case Dispatches => DispatchIs(s);
    case Fires(pid) => FiresKeys(s, pid);
    case _ =>
  }

  lemma FiresKeys(s: State, pid: Pid)
    requires pid in s.procs
    ensures TimerFires(s, pid).procs.Keys == s.procs.Keys
  {
  }

  lemma FinishShrinks(s: State, pid: Pid, normal: bool)
    requires Valid(s) && pid in s.procs
    ensures Finish(s, pid, normal).procs.Keys <= s.procs.Keys
  {
    ValidAt(s, pid);
    FinishRemoves(s, pid, normal);
    hide Finish, Doomed;
  }

  lemma ParkedExtends(ss: seq<State>, acts: seq<Action>, q: Pid, i: nat, n: nat)
    requires IsRun(ss, acts) && n + 1 < |ss| && ParkedSince(ss, acts, q, i, n)
    requires q in ss[n + 1].procs && ss[n + 1].procs[q].mailbox == ss[n].procs[q].mailbox
    ensures ParkedSince(ss, acts, q, i, n + 1)
  {
    hide Enabled, Apply;
  }

  lemma ParkedNow(ss: seq<State>, acts: seq<Action>, q: Pid, n: nat)
    requires IsRun(ss, acts) && n + 1 < |ss| && ParksAfterScan(ss, acts)
    requires acts[n] in {DoRecvWait, DoRecvWaitTimeout} && ss[n].current == q && q in ss[n].procs
    requires q in ss[n + 1].procs && ss[n + 1].procs[q].mailbox == ss[n].procs[q].mailbox
    ensures ParkedSince(ss, acts, q, n, n + 1)
  {
    hide Apply;
  }

  /** A waiting process has seen everything in its mailbox: it parked after a full scan and got nothing since. */
  lemma {:induction false} NoLostWakeup(ss: seq<State>, acts: seq<Action>, q: Pid, n: nat) returns (i: nat)
    requires IsRun(ss, acts) && ss[0] == INITIAL && ParksAfterScan(ss, acts)
    requires n < |ss| && q in ss[n].procs && ss[n].procs[q].status == Waiting
    ensures ParkedSince(ss, acts, q, i, n)
  {
    InitialValid();
    if n == 0 {
      assert false;
    } else {
      RunLength(ss, acts);
      RunStep(ss, acts, n - 1);
      hide Valid, Apply, Enabled, IsRun, ParksAfterScan, ParkedSince;
      RunValid(ss, acts, n - 1);
      var s, a := ss[n - 1], acts[n - 1];
      if q in s.procs && s.procs[q].status == Waiting {
        i := NoLostWakeup(ss, acts, q, n - 1);
        WaitingUntouched(s, a, q);
        ParkedExtends(ss, acts, q, i, n - 1);
      } else {
        i := n - 1;
        StartsWaiting(s, a, q);
        ParkedNow(ss, acts, q, n - 1);
      }
    }
  }

  // ---- Deadlock ----

  /** The main loop's last branch: nothing queued, nothing in flight, no timer to wait for, main not done. */
  ghost predicate Stuck(s: State) {
    !s.mainDone && s.runq == [] && NobodyRuns(s) && s.pendingTimers <= 0
  }

  lemma NoTimers(s: State)
    requires Valid(s) && s.pendingTimers <= 0
    ensures forall q | q in s.procs :: !s.procs[q].timer
  {
    assert Timers(s) == {};
    assert forall q | q in s.procs && s.procs[q].timer :: q in Timers(s);
  }

  /** The loop gives up exactly when no step is possible any more. */
  lemma StuckIffNoStep(s: State)
    requires Valid(s) && !s.mainDone
    ensures Stuck(s) <==> forall a :: !Enabled(s, a)
  {
    if Stuck(s) {
      NoTimers(s);
    } else if s.runq != [] && NobodyRuns(s) {
      assert Enabled(s, Dispatches);
    } else if !NobodyRuns(s) {
      assert CurrentLive(s);
      assert Enabled(s, DoYield);
    } else {
      var pid :| pid in Timers(s);
      assert Enabled(s, Fires(pid));
    }
  }

  /** When the loop reports a deadlock, everyone left waits without a timer, having seen all its messages. */
  lemma DeadlockReportTrue(ss: seq<State>, acts: seq<Action>, q: Pid) returns (i: nat)
    requires IsRun(ss, acts) && ss[0] == INITIAL && ParksAfterScan(ss, acts)
    requires Stuck(ss[|acts|]) && q in ss[|acts|].procs
    ensures ss[|acts|].procs[q].status == Waiting && !ss[|acts|].procs[q].timer
    ensures ParkedSince(ss, acts, q, i, |acts|)
  {
    InitialValid();
    var s := ss[|acts|];
    RunValid(ss, acts, |acts|);
    ValidAt(s, q);
    NoTimers(s);
    i := NoLostWakeup(ss, acts, q, |acts|);
  }

  // ---- Selective receive ----

  /** `q` looks for what it wants: it steps over what fails, takes what matches, parks only at the end. */
  ghost predicate Scans(s: State, a: Action, q: Pid, wanted: Msg -> bool) {
    s.current == q && q in s.procs ==>
      var p := s.procs[q];
      && (a.DoRecvAdvance? ==> p.cursor < |p.mailbox| && !wanted(p.mailbox[p.cursor]))
      && (a.DoRecvRemove? ==> p.cursor < |p.mailbox| && wanted(p.mailbox[p.cursor]))
      && (a in {DoRecvWait, DoRecvWaitTimeout} ==> p.cursor >= |p.mailbox|)
  }

  ghost predicate Takes(s: State, a: Action, q: Pid) {
    a.DoRecvRemove? && s.current == q
  }

  ghost predicate NoneBefore(p: Proc, wanted: Msg -> bool) {
    p.cursor <= |p.mailbox| && forall k | 0 <= k < p.cursor :: !wanted(p.mailbox[k])
  }

  lemma ScanStep(s: State, a: Action, q: Pid, wanted: Msg -> bool)
    requires Valid(s) && Enabled(s, a) && q in s.procs && q in Apply(s, a).procs
    requires Scans(s, a, q, wanted) && !Takes(s, a, q) && NoneBefore(s.procs[q], wanted)
    ensures NoneBefore(Apply(s, a).procs[q], wanted)
    ensures s.procs[q].mailbox <= Apply(s, a).procs[q].mailbox
  {
    hide Valid, Dispatch, TimerFires, Finish, Deliver, Spawn, SignalExit;
    if Own(s, a, q) {
      OwnStep(s, a, q);
    } else {
      StepReceives(s, a, q);
    }
  }

  lemma {:induction false} ScanRun(ss: seq<State>, acts: seq<Action>, q: Pid, wanted: Msg -> bool, n: nat)
    requires IsRun(ss, acts) && Valid(ss[0]) && n < |ss|
    requires forall i | 0 <= i <= n :: q in ss[i].procs
    requires forall i | 0 <= i < n :: Scans(ss[i], acts[i], q, wanted) && !Takes(ss[i], acts[i], q)
    requires ss[0].procs[q].cursor == 0
    ensures NoneBefore(ss[n].procs[q], wanted)
    ensures ss[0].procs[q].mailbox <= ss[n].procs[q].mailbox
  {
    hide Valid, Apply, Enabled, Scans, Takes;
    if n > 0 {
      ScanRun(ss, acts, q, wanted, n - 1);
      RunValid(ss, acts, n - 1);
      RunStep(ss, acts, n - 1);
      ScanStep(ss[n - 1], acts[n - 1], q, wanted);
    }
  }

  /**
   * However sends, exits and other processes interleave with the scan, the message taken is the earliest
   * matching one, and the others stay in arrival order.
   */
  lemma SelectiveReceive(ss: seq<State>, acts: seq<Action>, q: Pid, wanted: Msg -> bool)
    requires IsRun(ss, acts) && Valid(ss[0]) && acts != []
    requires forall i | 0 <= i < |ss| :: q in ss[i].procs
    requires forall i | 0 <= i < |acts| :: Scans(ss[i], acts[i], q, wanted)
    requires forall i | 0 <= i < |acts| - 1 :: !Takes(ss[i], acts[i], q)
    requires ss[0].procs[q].cursor == 0 && Takes(ss[|acts| - 1], acts[|acts| - 1], q)
    ensures var box, k := ss[|acts| - 1].procs[q].mailbox, ss[|acts| - 1].procs[q].cursor;
      && ss[0].procs[q].mailbox <= box
      && k < |box| && CurrentMsg(ss[|acts| - 1]) == Some(box[k])
      && wanted(box[k]) && (forall j | 0 <= j < k :: !wanted(box[j]))
      && ss[|acts|].procs[q].mailbox == box[..k] + box[k + 1..]
      && ss[|acts|].procs[q].cursor == 0
  {
    var n := |acts| - 1;
    ScanRun(ss, acts, q, wanted, n);
    RunValid(ss, acts, n);
    OwnStep(ss[n], acts[n], q);
  }

  // ---- Conservation ----

  /** The message that `q` removes in this step: the one `recv_cur` shows, if there is one. */
  ghost function Taken(s: State, a: Action, q: Pid): multiset<Msg>
    requires Enabled(s, a)
  {
    if Takes(s, a, q) && CurrentMsg(s).Some? then multiset{CurrentMsg(s).value} else multiset{}
  }

  lemma StepConserves(s: State, a: Action, q: Pid)
    requires Valid(s) && Enabled(s, a) && q in s.procs && q in Apply(s, a).procs
    ensures multiset(Apply(s, a).procs[q].mailbox) + Taken(s, a, q) == multiset(s.procs[q].mailbox) + Gains(s, a, q)
  {
    hide Valid, Dispatch, TimerFires, Finish, Deliver, Spawn, SignalExit, RecvRemove;
    if Own(s, a, q) {
      OwnStep(s, a, q);
      RemovedOne(s.procs[q].mailbox, s.procs[q].cursor);
    } else {
      hide Gains;
      StepReceives(s, a, q);
    }
  }

  lemma RemovedOne(box: seq<Msg>, k: nat)
    ensures k < |box| ==> multiset(box[..k] + box[k + 1..]) + multiset{box[k]} == multiset(box)
  {
    if k < |box| {
      assert box == box[..k] + [box[k]] + box[k + 1..];
    }
  }

  ghost function AllGains(ss: seq<State>, acts: seq<Action>, q: Pid, n: nat): multiset<Msg>
    requires IsRun(ss, acts) && n < |ss| && forall i | 0 <= i <= n :: q in ss[i].procs
  {
    if n == 0 then multiset{} else AllGains(ss, acts, q, n - 1) + Gains(ss[n - 1], acts[n - 1], q)
  }

  ghost function AllTaken(ss: seq<State>, acts: seq<Action>, q: Pid, n: nat): multiset<Msg>
    requires IsRun(ss, acts) && n < |ss| && forall i | 0 <= i <= n :: q in ss[i].procs
  {
    if n == 0 then multiset{} else AllTaken(ss, acts, q, n - 1) + Taken(ss[n - 1], acts[n - 1], q)
  }

  /** Over a whole run, every message delivered to a live process was taken once or is still in its mailbox. */
  lemma {:induction false} Conservation(ss: seq<State>, acts: seq<Action>, q: Pid, n: nat)
    requires IsRun(ss, acts) && Valid(ss[0]) && n < |ss|
    requires forall i | 0 <= i <= n :: q in ss[i].procs
    ensures multiset(ss[n].procs[q].mailbox) + AllTaken(ss, acts, q, n)
         == multiset(ss[0].procs[q].mailbox) + AllGains(ss, acts, q, n)
  {
    hide Valid, Apply, Enabled, Gains, Taken;
    if n == 0 {
      assert AllTaken(ss, acts, q, 0) == multiset{} == AllGains(ss, acts, q, 0);
    } else {
      Conservation(ss, acts, q, n - 1);
      RunValid(ss, acts, n - 1);
      RunStep(ss, acts, n - 1);
      StepConserves(ss[n - 1], acts[n - 1], q);
      Balance(multiset(ss[n].procs[q].mailbox), multiset(ss[n - 1].procs[q].mailbox), multiset(ss[0].procs[q].mailbox),
              AllTaken(ss, acts, q, n - 1), Taken(ss[n - 1], acts[n - 1], q),
              AllGains(ss, acts, q, n - 1), Gains(ss[n - 1], acts[n - 1], q));
    }
  }

  lemma Balance<T>(now: multiset<T>, before: multiset<T>, start: multiset<T>,
                   taken: multiset<T>, took: multiset<T>, gained: multiset<T>, gain: multiset<T>)
    requires before + taken == start + gained && now + took == before + gain
    ensures now + (taken + took) == start + (gained + gain)
  {
    assert now + (taken + took) == (now + took) + taken;
    assert start + (gained + gain) == (start + gained) + gain;
  }

  // ---- Monitors need a live caller ----

  /** A monitor call keeps every owner live exactly when its caller is live: a killed but running stack breaks it. */
  lemma MonitorNeedsLiveCaller(s: State, target: Pid)
    requires MonitorsOk(s)
    ensures MonitorsOk(AddMonitor(s, target)) <==> s.current in s.procs
  {
    var r := AddMonitor(s, target);
    assert r.monitors[|s.monitors|] == Monitor(s.current, target, s.nextRef);
  }
}
