/** The run queue is first in, first out: whoever is queued is dispatched after those before it and no others. */
module SchedulerFairness {
  import opened SchedulerState
  import opened SchedulerCascade
  import opened SchedulerDeath
  import opened SchedulerRuns

  lemma SpawnAppends(s: State, link: bool)
    requires Valid(s) && CurrentLive(s)
    ensures s.runq <= Spawn(s, link).runq
  {
    SpawnAt(s, link);
    hide Spawn, Valid;
  }

  lemma DeliverAppends(s: State, q: Pid, msg: Msg)
    requires q in Live(s)
    ensures s.runq <= Deliver(s, q, msg).runq
  {
    DeliverIs(s, q, msg);
    hide Deliver;
  }

  lemma FinishAppends(s: State, pid: Pid, normal: bool)
    requires Valid(s) && pid in s.procs
    ensures s.runq <= Finish(s, pid, normal).runq
  {
    ValidAt(s, pid);
    FinishRemoves(s, pid, normal);
    hide Finish, Doomed, Abnormal, Survives;
  }

  lemma ExitAppends(s: State, to: Pid, reason: Term)
    requires Valid(s)
    ensures s.runq <= SignalExit(s, to, reason).runq
  {
    hide Valid, Deliver, Finish, Blame;
    if IsLive(s, to) {
      DeliverAppends(s, to, Exit(s.current, reason));
      ValidBlame(s, to, reason);
      BlameKeys(s, to, reason);
      BlameQueue(s, to, reason);
      FinishAppends(Blame(s, to, reason), to, false);
    }
  }

  lemma BlameQueue(s: State, pid: Pid, reason: Term)
    requires pid in s.procs
    ensures Blame(s, pid, reason).runq == s.runq
  {
  }

  lemma FiresAppends(s: State, pid: Pid)
    ensures s.runq <= TimerFires(s, pid).runq
  {
  }

  /** A dispatch takes the first entry; every other step only appends. */
  lemma QueueStep(s: State, a: Action)
    requires Valid(s) && Enabled(s, a)
    ensures if a.Dispatches? then Apply(s, a).runq == s.runq[1..] else s.runq <= Apply(s, a).runq
  {
    hide Valid, Spawn, Deliver, Finish, SignalExit, TimerFires, Dispatch;
    match a
    case DoSpawn(link) => SpawnAppends(s, link);
    case DoSend(to, msg) => if IsLive(s, to) { DeliverAppends(s, to, msg); }
    case DoExit2(to, reason) => ExitAppends(s, to, reason);
    case Returns(normal) => FinishAppends(s, s.current, normal);
    case Dispatches => DispatchIs(s);
    case Fires(pid) => FiresAppends(s, pid);
    case _ =>
  }

  // ---- Over a run ----

  /** The dispatches among steps `i` to `n - 1`. */
  function DispatchesIn(acts: seq<Action>, i: nat, n: nat): nat
    requires i <= n <= |acts|
    decreases n
  {
    if n == i then 0 else DispatchesIn(acts, i, n - 1) + if acts[n - 1].Dispatches? then 1 else 0
  }

  lemma RunQueueStep(ss: seq<State>, acts: seq<Action>, i: nat)
    requires IsRun(ss, acts) && Valid(ss[0]) && i < |acts|
    ensures |ss| == |acts| + 1
    ensures if acts[i].Dispatches? then |ss[i].runq| > 0 && ss[i + 1].runq == ss[i].runq[1..]
            else ss[i].runq <= ss[i + 1].runq
  {
    RunLength(ss, acts);
    RunStep(ss, acts, i);
    hide Valid, Apply, IsRun;
    RunValid(ss, acts, i);
    QueueStep(ss[i], acts[i]);
  }

  /** An entry moves up by one place with every dispatch, and is never overtaken. */
  lemma {:induction false} NoOvertaking(ss: seq<State>, acts: seq<Action>, i: nat, n: nat, k: nat)
    requires IsRun(ss, acts) && Valid(ss[0]) && i <= n <= |acts| < |ss|
    requires k < |ss[i].runq| && DispatchesIn(acts, i, n) <= k
    ensures k - DispatchesIn(acts, i, n) < |ss[n].runq|
    ensures ss[n].runq[k - DispatchesIn(acts, i, n)] == ss[i].runq[k]
    decreases n
  {
    hide Valid, IsRun;
    if n > i {
      RunQueueStep(ss, acts, n - 1);
      NoOvertaking(ss, acts, i, n - 1, k);
    }
  }

  /** The entry at place `k` is dispatched by the `k + 1`-st dispatch from then on, and runs if it still lives. */
  lemma FairDispatch(ss: seq<State>, acts: seq<Action>, i: nat, n: nat, k: nat)
    requires IsRun(ss, acts) && Valid(ss[0]) && i <= n < |acts|
    requires k < |ss[i].runq| && DispatchesIn(acts, i, n) == k && acts[n].Dispatches?
    ensures var q := ss[i].runq[k].pid;
      q in ss[n].procs ==> ss[n + 1].current == q && q in ss[n + 1].procs && ss[n + 1].procs[q].status == Running
  {
    hide Valid, Dispatch;
    NoOvertaking(ss, acts, i, n, k);
    RunValid(ss, acts, n);
    DispatchIs(ss[n]);
  }
}
