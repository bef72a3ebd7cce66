/** What a timed receive is resumed with: 1 if a message came first, 0 if its timer did. */
module SchedulerTimeouts {
  import opened SchedulerState
  import opened SchedulerCascade
  import opened SchedulerRuns
  import opened SchedulerDelivery

  ghost predicate Silent(acts: seq<Action>, q: Pid, i: nat, n: nat) {
    forall j | i <= j < n && j < |acts| :: acts[j] != Fires(q)
  }

  /** The timer of `q` fired between `i` and `n`, and until then `q` had received nothing. */
  ghost predicate FiredFirst(ss: seq<State>, acts: seq<Action>, q: Pid, i: nat, n: nat)
    requires |ss| == |acts| + 1 && i <= n <= |acts| && forall j | i <= j <= n :: q in ss[j].procs
  {
    exists f | i < f < n :: acts[f] == Fires(q) && ss[f].procs[q].mailbox == ss[i].procs[q].mailbox
  }

  /** `q` parks with a timeout in step `i` and is not resumed before state `n`. */
  ghost predicate TimedSince(ss: seq<State>, acts: seq<Action>, q: Pid, i: nat, n: nat) {
    && |ss| == |acts| + 1 && i < n <= |acts|
    && acts[i] == DoRecvWaitTimeout && ss[i].current == q
    && (forall j | i <= j <= n :: q in ss[j].procs)
    && forall j | i < j < n && acts[j].Dispatches? :: ss[j].runq != [] && ss[j].runq[0].pid != q
  }

  /** While parked since its mailbox was `before`: waiting and untouched, or woken by a message, or timed out. */
  ghost predicate Parked(before: seq<Msg>, p: Proc) {
    && before <= p.mailbox
    && match p.status
       case Waiting => p.timer && !p.timedOut && p.mailbox == before
       case Runnable => !p.timer && !p.timedOut && |p.mailbox| > |before|
       case Ready => !p.timer && p.timedOut
       case _ => false
  }

  /** The record of a parked process tells which of the two came first. */
  ghost predicate Pending(ss: seq<State>, acts: seq<Action>, q: Pid, i: nat, n: nat)
    requires TimedSince(ss, acts, q, i, n)
  {
    && Parked(ss[i].procs[q].mailbox, ss[n].procs[q])
    && if ss[n].procs[q].status == Ready then FiredFirst(ss, acts, q, i, n) else Silent(acts, q, i, n)
  }

  lemma PendingStart(ss: seq<State>, acts: seq<Action>, q: Pid, i: nat)
    requires IsRun(ss, acts) && TimedSince(ss, acts, q, i, i + 1)
    ensures Pending(ss, acts, q, i, i + 1)
  {
    RunStep(ss, acts, i);
  }

  /** A parked process takes no step of its own but the firing of its timer. */
  lemma PendingOthers(s: State, a: Action, q: Pid)
    requires Valid(s) && Enabled(s, a) && q in s.procs && s.procs[q].status in {Waiting, Runnable, Ready}
    requires a.Dispatches? ==> s.runq[0].pid != q
    ensures Own(s, a, q) ==> a == Fires(q) && s.procs[q].status == Waiting
  {
    ValidAt(s, q);
  }

  lemma PendingFires(s: State, q: Pid)
    requires Valid(s) && Enabled(s, Fires(q)) && s.procs[q].status == Waiting
    ensures var r := Apply(s, Fires(q));
      q in r.procs && r.procs[q] == s.procs[q].(status := Ready, timedOut := true, timer := false)
  {
    ValidAt(s, q);
    FiresIs(s, q);
  }

  lemma ReceivedParked(before: seq<Msg>, p: Proc, p': Proc, msgs: multiset<Msg>)
    requires Parked(before, p) && Received(p, p', msgs)
    ensures Parked(before, p') && (p'.status == Ready <==> p.status == Ready)
  {
  }

  lemma HistoryStep(ss: seq<State>, acts: seq<Action>, q: Pid, i: nat, n: nat)
    requires TimedSince(ss, acts, q, i, n + 1) && i < n < |acts|
    ensures Silent(acts, q, i, n) && acts[n] != Fires(q) ==> Silent(acts, q, i, n + 1)
    ensures FiredFirst(ss, acts, q, i, n) ==> FiredFirst(ss, acts, q, i, n + 1)
    ensures acts[n] == Fires(q) && ss[n].procs[q].mailbox == ss[i].procs[q].mailbox
        ==> FiredFirst(ss, acts, q, i, n + 1)
  {
  }

  lemma PendingStep(ss: seq<State>, acts: seq<Action>, q: Pid, i: nat, n: nat)
    requires IsRun(ss, acts) && i < n < |acts| && TimedSince(ss, acts, q, i, n + 1) && TimedSince(ss, acts, q, i, n)
    requires Valid(ss[n]) && Pending(ss, acts, q, i, n)
    ensures Pending(ss, acts, q, i, n + 1)
  {
    RunStep(ss, acts, n);
    HistoryStep(ss, acts, q, i, n);
    var s, a, r := ss[n], acts[n], ss[n + 1];
    hide Valid, Enabled, Apply, IsRun, FiredFirst, Silent;
    PendingOthers(s, a, q);
    if Own(s, a, q) {
      PendingFires(s, q);
    } else {
      hide Received, Gains;
      StepReceives(s, a, q);
      ReceivedParked(ss[i].procs[q].mailbox, s.procs[q], r.procs[q], Gains(s, a, q));
      hide Parked;
      assert a != Fires(q);
    }
  }

  lemma {:induction false} PendingRun(ss: seq<State>, acts: seq<Action>, q: Pid, i: nat, n: nat)
    requires IsRun(ss, acts) && Valid(ss[0]) && TimedSince(ss, acts, q, i, n)
    ensures Pending(ss, acts, q, i, n)
    decreases n
  {
    hide Valid, IsRun, Pending;
    if n == i + 1 {
      PendingStart(ss, acts, q, i);
    } else {
      PendingRun(ss, acts, q, i, n - 1);
      RunValid(ss, acts, n - 1);
      PendingStep(ss, acts, q, i, n - 1);
    }
  }

  lemma FiredNotSilent(ss: seq<State>, acts: seq<Action>, q: Pid, i: nat, n: nat)
    requires TimedSince(ss, acts, q, i, n) && FiredFirst(ss, acts, q, i, n)
    ensures !Silent(acts, q, i, n)
  {
  }

  /**
   * When a process that parked with a timeout is resumed, it is handed 0 exactly when its timer fired before any
   * message came, and 1 exactly when the timer did not fire, and then its mailbox has grown.
   */
  lemma TimeoutAnswerTrue(ss: seq<State>, acts: seq<Action>, q: Pid, i: nat, n: nat)
    requires IsRun(ss, acts) && Valid(ss[0]) && TimedSince(ss, acts, q, i, n)
    requires n < |acts| && acts[n].Dispatches? && ss[n].runq[0].pid == q
    ensures TimeoutAnswer(ss[n].procs[q]) == 0 <==> FiredFirst(ss, acts, q, i, n)
    ensures TimeoutAnswer(ss[n].procs[q]) == 1 <==> Silent(acts, q, i, n)
    ensures TimeoutAnswer(ss[n].procs[q]) == 1 ==> |ss[n].procs[q].mailbox| > |ss[i].procs[q].mailbox|
    ensures ss[i].procs[q].mailbox <= ss[n].procs[q].mailbox
  {
    RunStep(ss, acts, n);
    RunValid(ss, acts, n);
    DispatchIs(ss[n]);
    hide Valid, IsRun, Apply, FiredFirst, Silent;
    PendingRun(ss, acts, q, i, n);
    if FiredFirst(ss, acts, q, i, n) { FiredNotSilent(ss, acts, q, i, n); }
  }
}
