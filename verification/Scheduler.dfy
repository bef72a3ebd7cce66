/**
 * The scheduler itself: tables and queues updated in place by the import calls,
 * the timer callbacks and the main loop. Every method states its whole new state
 * through the transition functions of SchedulerState.
 */
module Scheduler {
  import opened Collections
  import S = SchedulerState
  import opened SchedulerState
  import Cascade = SchedulerCascade
  import Runs = SchedulerRuns

  lemma SignalKeepsLive(s: State, pid: Pid, linked: Pid, reason: Term)
    requires linked in Live(s)
    ensures Live(S.Signal(s, pid, linked, reason)) == Live(s)
  {
  }

  lemma BlameKeepsLive(s: State, pid: Pid, reason: Term)
    requires pid in s.procs
    ensures Live(S.Blame(s, pid, reason)) == Live(s)
  {
  }

  lemma FinishKeeps(s: State, pid: Pid, normal: bool)
    requires pid in s.procs
    ensures Runs.Valid(s) ==> Runs.Valid(S.Finish(s, pid, normal))
  {
    hide Runs.Valid;
    if Runs.Valid(s) {
      Runs.ValidFinish(s, pid, normal);
    }
  }

  class Scheduler {
    var procs: map<Pid, Proc>
    var registry: map<nat, Pid>
    var monitors: seq<Monitor>
    var runq: seq<Job>
    var nextPid: Pid
    var nextRef: nat
    var current: Pid
    var pendingTimers: int
    var mainDone: bool

    ghost function Abs(): State
      reads this
    {
      State(procs, registry, monitors, runq, nextPid, nextRef, current, pendingTimers, mainDone)
    }

    /** The start of `main`: the entry point is running as process 1. */
    constructor ()
      ensures Abs() == S.INITIAL && Runs.Valid(Abs())
    {
      procs := map[1 := NEW_PROC.(status := Running)];
      registry, monitors, runq := map[], [], [];
      nextPid, nextRef, current, pendingTimers, mainDone := 2, 1, 1, 0, false;
      new;
      Runs.InitialValid();
    }

    // ---- Internal helpers ----

    method ClearTimer(pid: Pid)
      requires pid in procs
      modifies this
      ensures Abs() == S.ClearTimer(old(Abs()), pid)
    {
      if procs[pid].timer {
        procs := procs[pid := procs[pid].(timer := false)];
        pendingTimers := pendingTimers - 1;
      }
    }

    method Wake(pid: Pid)
      modifies this
      ensures Abs() == S.Wake(old(Abs()), pid)
    {
      if pid !in procs || procs[pid].dead || procs[pid].status != Waiting { return; }
      procs := procs[pid := procs[pid].(status := Runnable)];
      ClearTimer(pid);
      runq := runq + [Job(pid, Resume)];
    }

    method Push(pid: Pid, msg: Msg)
      requires pid in procs
      modifies this
      ensures Abs() == S.Deliver(old(Abs()), pid, msg)
    {
      procs := procs[pid := procs[pid].(mailbox := procs[pid].mailbox + [msg])];
      Wake(pid);
    }

    method UnwindParked(pid: Pid)
      requires pid in procs
      modifies this
      ensures Abs() == S.UnwindParked(old(Abs()), pid)
    {
      ClearTimer(pid);
      if procs[pid].reject {
        procs := procs[pid := procs[pid].(resolve := false, reject := false)];
      }
    }

    /** `finish`: the process dies, its links are signalled (killing in turn), its monitors report, its record goes. */
    method Finish(pid: Pid, normal: bool)
      modifies this
      ensures Abs() == S.Finish(old(Abs()), pid, normal)
      ensures old(Runs.Valid(Abs())) ==> Runs.Valid(Abs())
      decreases Live(Abs()), 0
    {
      hide Runs.Valid;
      if pid in procs { FinishKeeps(Abs(), pid, normal); }
      if pid !in procs || procs[pid].dead { return; }
      var p := procs[pid];
      Die(pid);
      assert Live(Abs()) == Live(old(Abs())) - {pid} by { Cascade.DieEffect(old(Abs()), pid); }
      var reason := if p.exitReason.Some? then p.exitReason.value else NormalAtom;
      SignalLinks(pid, p.links, reason, p.abnormal || !normal);
      ReportToMonitors(pid, reason);
      procs := procs - {pid};
    }

    /** The head of `finish`: mark dead, unwind the parked stack, drop the registered names. */
    method Die(pid: Pid)
      requires pid in procs
      modifies this
      ensures Abs() == S.Die(old(Abs()), pid)
    {
      procs := procs[pid := procs[pid].(dead := true, status := Done)];
      UnwindParked(pid);
      registry := Unname(registry, {pid});
    }

    /** The loop of `finish` over the links: a message for a trapping process, death for the others if abnormal. */
    method SignalLinks(pid: Pid, links: seq<Pid>, reason: Term, abnormal: bool)
      modifies this
      ensures Abs() == S.Propagate(old(Abs()), pid, links, reason, abnormal)
      decreases Live(Abs()), 2
    {
      var i := 0;
      while i < |links|
        invariant i <= |links|
        invariant Live(Abs()) <= Live(old(Abs()))
        invariant S.Propagate(old(Abs()), pid, links, reason, abnormal)
               == S.Propagate(Abs(), pid, links[i..], reason, abnormal)
      {
        ghost var here := Abs();
        var linked := links[i];
        assert links[i..] == [linked] + links[i + 1..];
        Cascade.PropagateUnfolds(here, pid, links[i..], reason, abnormal);
        i := i + 1;
        SignalOne(pid, linked, reason, abnormal);
      }
    }

    method SignalOne(pid: Pid, linked: Pid, reason: Term, abnormal: bool)
      modifies this
      ensures Abs() == Cascade.PropagateStep(old(Abs()), pid, linked, reason, abnormal)
      ensures Live(Abs()) <= Live(old(Abs()))
      decreases Live(Abs()), 1
    {
      hide S.Finish, Without;
      if linked !in procs || procs[linked].dead { return; }
      SignalKeepsLive(Abs(), pid, linked, reason);
      procs := procs[linked := procs[linked].(links := Without(procs[linked].links, {pid}))];
      if procs[linked].trapExit {
        Push(linked, Exit(pid, reason));
      } else if abnormal {
        procs := procs[linked := procs[linked].(abnormal := true, exitReason := Some(reason))];
        BlameKeepsLive(S.Signal(old(Abs()), pid, linked, reason), linked, reason);
        Finish(linked, false);
      }
    }

    /** The backward loop of `finish` over the monitors, splicing out every entry of the dead process. */
    method ReportToMonitors(pid: Pid, reason: Term)
      modifies this
      ensures Abs() == S.Report(old(Abs()), pid, reason, |old(monitors)|)
    {
      var j := |monitors|;
      while j > 0
        invariant 0 <= j <= |monitors|
        invariant S.Report(old(Abs()), pid, reason, |old(monitors)|) == S.Report(Abs(), pid, reason, j)
      {
        ghost var here := Abs();
        Cascade.ReportUnfolds(here, pid, reason, j);
        j := j - 1;
        ReportOne(pid, reason, j);
      }
    }

    method ReportOne(pid: Pid, reason: Term, j: nat)
      requires j < |monitors|
      modifies this
      ensures Abs() == Cascade.ReportStep(old(Abs()), pid, reason, j)
    {
      var m := monitors[j];
      if m.target == pid {
        monitors := monitors[..j] + monitors[j + 1..];
        if m.owner !in procs || procs[m.owner].dead { return; }
        Push(m.owner, Down(m.ref, pid, reason));
      } else if m.owner == pid {
        monitors := monitors[..j] + monitors[j + 1..];
      }
    }

    /** `signal_exit`: deliver an exit signal from the current process. */
    method SignalExit(pid: Pid, reason: Term)
      modifies this
      ensures Abs() == S.SignalExit(old(Abs()), pid, reason)
      ensures Runs.Keeps(old(Abs()), Runs.DoExit2(pid, reason), Abs())
    {
      hide Runs.Valid;
      Runs.StepKeeps(Abs(), Runs.DoExit2(pid, reason));
      if pid !in procs || procs[pid].dead { return; }
      if procs[pid].trapExit {
        Push(pid, Exit(current, reason));
      } else if reason != NormalAtom {
        procs := procs[pid := procs[pid].(exitReason := Some(reason), abnormal := true)];
        assert Abs() == S.Blame(old(Abs()), pid, reason);
        Finish(pid, false);
      }
    }

    // ---- The `proc` imports ----

    /** `spawn`, and with `link` also `spawn_link` and `spawn_opt`. */
    method Spawn(link: bool) returns (pid: Pid)
      requires link ==> S.CurrentLive(Abs())
      modifies this
      ensures pid == old(nextPid) && Abs() == S.Spawn(old(Abs()), link)
      ensures Runs.Keeps(old(Abs()), Runs.DoSpawn(link), Abs())
    {
      hide Runs.Valid;
      Runs.StepKeeps(Abs(), Runs.DoSpawn(link));
      pid := nextPid;
      nextPid := nextPid + 1;
      procs := procs[pid := NEW_PROC];
      if link {
        procs := procs[pid := procs[pid].(links := WithLink(procs[pid].links, current))];
        procs := procs[current := procs[current].(links := WithLink(procs[current].links, pid))];
      }
      runq := runq + [Job(pid, Start)];
    }

    method Send(pid: Pid, msg: Msg) returns (sent: Msg)
      modifies this
      ensures sent == msg && Abs() == S.Send(old(Abs()), pid, msg)
      ensures Runs.Keeps(old(Abs()), Runs.DoSend(pid, msg), Abs())
    {
      hide Runs.Valid;
      Runs.StepKeeps(Abs(), Runs.DoSend(pid, msg));
      if pid in procs && !procs[pid].dead { Push(pid, msg); }
      sent := msg;
    }

    method SetTrapExit(on: bool)
      requires S.CurrentLive(Abs())
      modifies this
      ensures Abs() == S.SetTrapExit(old(Abs()), on)
      ensures Runs.Keeps(old(Abs()), Runs.DoSetTrapExit(on), Abs())
    {
      hide Runs.Valid;
      Runs.StepKeeps(Abs(), Runs.DoSetTrapExit(on));
      procs := procs[current := procs[current].(trapExit := on)];
    }

    /** `exit/1`: records the reason; the throw that follows is the return of the stack as a failure. */
    method ExitSelf(reason: Term)
      requires S.CurrentLive(Abs())
      modifies this
      ensures Abs() == S.ExitSelf(old(Abs()), reason)
      ensures Runs.Keeps(old(Abs()), Runs.DoExit(reason), Abs())
    {
      hide Runs.Valid;
      Runs.StepKeeps(Abs(), Runs.DoExit(reason));
      procs := procs[current := procs[current].(exitReason := Some(reason), abnormal := true)];
    }

    method Register(name: nat, pid: Pid)
      modifies this
      ensures Abs() == S.Register(old(Abs()), name, pid)
      ensures Runs.Keeps(old(Abs()), Runs.DoRegister(name, pid), Abs())
    {
      hide Runs.Valid;
      Runs.StepKeeps(Abs(), Runs.DoRegister(name, pid));
      registry := registry[name := pid];
    }

    method Whereis(name: nat) returns (pid: Pid)
      ensures pid == S.Whereis(Abs(), name)
    {
      pid := if name in registry then registry[name] else 0;
    }

    method MonitorPid(target: Pid) returns (ref: nat)
      modifies this
      ensures ref == old(nextRef) && Abs() == S.AddMonitor(old(Abs()), target)
      ensures Runs.Keeps(old(Abs()), Runs.DoMonitor(target), Abs())
    {
      hide Runs.Valid;
      Runs.StepKeeps(Abs(), Runs.DoMonitor(target));
      ref := nextRef;
      nextRef := nextRef + 1;
      monitors := monitors + [Monitor(current, target, ref)];
    }

    method Demonitor(ref: nat)
      modifies this
      ensures Abs() == S.Demonitor(old(Abs()), ref)
      ensures Runs.Keeps(old(Abs()), Runs.DoDemonitor(ref), Abs())
    {
      hide Runs.Valid;
      Runs.StepKeeps(Abs(), Runs.DoDemonitor(ref));
      var i := |monitors|;
      assert monitors[..i] + monitors[i..] == monitors && monitors[..i] == monitors;
      hide WithoutRef;
      while i > 0
        invariant 0 <= i <= |monitors|
        invariant Abs() == old(Abs()).(monitors := monitors)
        invariant WithoutRef(old(monitors), ref) == WithoutRef(monitors[..i], ref) + monitors[i..]
      {
        i := i - 1;
        WithoutRefSplice(monitors, i, ref);
        if monitors[i].ref == ref { monitors := monitors[..i] + monitors[i + 1..]; }
      }
      WithoutRefNothing(monitors, ref);
    }

    /** A monitor reference doubles as a reply alias: the owner of the first entry with it, or 0. */
    method AliasPid(ref: nat) returns (pid: Pid)
      ensures (pid == 0 && forall m | m in monitors :: m.ref != ref)
           || (exists i | 0 <= i < |monitors| ::
                 && monitors[i].ref == ref && monitors[i].owner == pid
                 && forall k | 0 <= k < i :: monitors[k].ref != ref)
    {
      for i := 0 to |monitors|
        invariant forall k | 0 <= k < i :: monitors[k].ref != ref
      {
        if monitors[i].ref == ref { return monitors[i].owner; }
      }
      return 0;
    }

    method RecvHas() returns (r: nat)
      requires S.CurrentLive(Abs())
      ensures r == 1 <==> S.CurrentMsg(Abs()).Some?
      ensures r <= 1
    {
      r := if procs[current].cursor < |procs[current].mailbox| then 1 else 0;
    }

    method RecvCur() returns (m: Option<Msg>)
      requires S.CurrentLive(Abs())
      ensures m == S.CurrentMsg(Abs())
    {
      var p := procs[current];
      m := if p.cursor < |p.mailbox| then Some(p.mailbox[p.cursor]) else None;
    }

    method RecvRemove()
      requires S.CurrentLive(Abs())
      modifies this
      ensures Abs() == S.RecvRemove(old(Abs()))
      ensures Runs.Keeps(old(Abs()), Runs.DoRecvRemove, Abs())
    {
      hide Runs.Valid;
      Runs.StepKeeps(Abs(), Runs.DoRecvRemove);
      var p := procs[current];
      if p.cursor < |p.mailbox| {
        p := p.(mailbox := p.mailbox[..p.cursor] + p.mailbox[p.cursor + 1..]);
      }
      procs := procs[current := p.(cursor := 0)];
    }

    method RecvAdvance()
      requires S.CurrentLive(Abs())
      modifies this
      ensures Abs() == S.RecvAdvance(old(Abs()))
      ensures Runs.Keeps(old(Abs()), Runs.DoRecvAdvance, Abs())
    {
      hide Runs.Valid;
      Runs.StepKeeps(Abs(), Runs.DoRecvAdvance);
      procs := procs[current := procs[current].(cursor := procs[current].cursor + 1)];
    }

    method RecvWait()
      requires S.CurrentLive(Abs())
      modifies this
      ensures Abs() == S.RecvWait(old(Abs()))
      ensures Runs.Keeps(old(Abs()), Runs.DoRecvWait, Abs())
    {
      hide Runs.Valid;
      Runs.StepKeeps(Abs(), Runs.DoRecvWait);
      procs := procs[current := procs[current].(status := Waiting, cursor := 0, resolve := true, reject := true)];
    }

    method RecvWaitTimeout()
      requires S.CurrentLive(Abs())
      modifies this
      ensures Abs() == S.RecvWaitTimeout(old(Abs()))
      ensures Runs.Keeps(old(Abs()), Runs.DoRecvWaitTimeout, Abs())
    {
      hide Runs.Valid;
      Runs.StepKeeps(Abs(), Runs.DoRecvWaitTimeout);
      RecvWait();
      procs := procs[current := procs[current].(timedOut := false)];
      pendingTimers := pendingTimers + 1;
      procs := procs[current := procs[current].(timer := true)];
    }

    method Yield()
      requires S.CurrentLive(Abs())
      modifies this
      ensures Abs() == S.Yield(old(Abs()))
      ensures Runs.Keeps(old(Abs()), Runs.DoYield, Abs())
    {
      hide Runs.Valid;
      Runs.StepKeeps(Abs(), Runs.DoYield);
      procs := procs[current := procs[current].(status := Ready, resolve := true, reject := true)];
      runq := runq + [Job(current, Resume)];
    }

    // ---- Timers and the main loop ----

    method TimerFires(pid: Pid)
      modifies this
      ensures Abs() == S.TimerFires(old(Abs()), pid)
      ensures Runs.Keeps(old(Abs()), Runs.Fires(pid), Abs())
    {
      hide Runs.Valid;
      Runs.StepKeeps(Abs(), Runs.Fires(pid));
      if pid in procs && !procs[pid].dead && procs[pid].status == Waiting {
        procs := procs[pid := procs[pid].(status := Ready, timedOut := true)];
        ClearTimer(pid);
        runq := runq + [Job(pid, Resume)];
      }
    }

    method StartChild(pid: Pid)
      modifies this
      ensures Abs() == S.StartChild(old(Abs()), pid)
    {
      if pid !in procs || procs[pid].dead { return; }
      current := pid;
      procs := procs[pid := procs[pid].(status := Running)];
    }

    /** Returns whether a parked stack was there to resume, and what it gets if it parked with a timeout. */
    method ResumeProc(pid: Pid) returns (resumed: bool, answer: nat)
      modifies this
      ensures Abs() == S.ResumeProc(old(Abs()), pid)
      ensures resumed <==> pid in old(procs) && !old(procs)[pid].dead && old(procs)[pid].resolve
      ensures resumed ==> answer == S.TimeoutAnswer(old(procs)[pid])
    {
      if pid !in procs || procs[pid].dead { return false, 0; }
      current := pid;
      answer := if procs[pid].timedOut then 0 else 1;
      resumed := procs[pid].resolve;
      procs := procs[pid := procs[pid].(status := Running, resolve := false, reject := false)];
    }

    /** One turn of the main loop with work in the queue; a live process picked for resumption is always parked. */
    method Dispatch()
      requires Runs.Valid(Abs()) && Runs.Enabled(Abs(), Runs.Dispatches)
      modifies this
      ensures Abs() == S.Dispatch(old(Abs())) && Runs.Valid(Abs())
    {
      Runs.ValidDispatch(Abs());
      Runs.DispatchIs(Abs());
      var job := runq[0];
      runq := runq[1..];
      if job.kind == Start {
        StartChild(job.pid);
      } else {
        var resumed, _ := ResumeProc(job.pid);
        assert job.pid in old(procs) ==> resumed;
      }
    }

    /** A stack completes. */
    method Returned(normal: bool)
      modifies this
      ensures Abs() == S.Return(old(Abs()), normal)
      ensures Runs.Keeps(old(Abs()), Runs.Returns(normal), Abs())
    {
      hide Runs.Valid;
      Runs.StepKeeps(Abs(), Runs.Returns(normal));
      if current == 1 { mainDone := true; } else { Finish(current, normal); }
    }
  }

  lemma WithoutRefNothing(ms: seq<Monitor>, ref: nat)
    ensures WithoutRef(ms[..0], ref) == []
  {
  }

  /** One turn of the splicing loop leaves what is still to come unchanged. */
  lemma WithoutRefSplice(ms: seq<Monitor>, i: nat, ref: nat)
    requires i < |ms|
    ensures var next := if ms[i].ref == ref then ms[..i] + ms[i + 1..] else ms;
      && i <= |next|
      && WithoutRef(next[..i], ref) + next[i..] == WithoutRef(ms[..i + 1], ref) + ms[i + 1..]
  {
    hide WithoutRef;
    assert ms[..i + 1] == ms[..i] + [ms[i]];
    WithoutRefAppend(ms[..i], ms[i], ref);
    assert (ms[..i] + ms[i + 1..])[..i] == ms[..i] && (ms[..i] + ms[i + 1..])[i..] == ms[i + 1..];
    assert ms[i..] == [ms[i]] + ms[i + 1..];
  }

  lemma {:induction false} WithoutRefAppend(ms: seq<Monitor>, m: Monitor, ref: nat)
    ensures WithoutRef(ms + [m], ref) == WithoutRef(ms, ref) + if m.ref == ref then [] else [m]
  {
    if ms == [] {
      assert ms + [m] == [m];
    } else {
      assert (ms + [m])[1..] == ms[1..] + [m];
      WithoutRefAppend(ms[1..], m, ref);
    }
  }
}
