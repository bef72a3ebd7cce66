/** What the records and tables of a run hold, told by the steps that wrote them. */
module SchedulerHistory {
  import opened Collections
  import opened SchedulerState
  import opened SchedulerCascade
  import opened SchedulerDeath
  import opened SchedulerRuns
  import opened SchedulerDelivery
  import opened SchedulerNames

  // ---- Flags that only their process sets ----

  /** The fields of a record that no step of others writes. */
  ghost predicate SameFlags(p: Proc, p': Proc) {
    p'.trapExit == p.trapExit && p'.exitReason == p.exitReason && p'.abnormal == p.abnormal
  }

  lemma ReceivedFlags(p: Proc, p': Proc, msgs: multiset<Msg>)
    requires Received(p, p', msgs)
    ensures SameFlags(p, p')
  {
  }

  lemma OwnFlags(s: State, a: Action, q: Pid)
    requires Valid(s) && Enabled(s, a) && q in s.procs && Own(s, a, q)
    ensures q in Apply(s, a).procs
    ensures var p, p' := s.procs[q], Apply(s, a).procs[q];
      match a
      case DoSetTrapExit(on) => SameFlags(p.(trapExit := on), p')
      case DoExit(reason) => SameFlags(p.(exitReason := Some(reason), abnormal := true), p')
      case _ => SameFlags(p, p')
  {
    hide TimerFires, Dispatch;
    match a
    case Dispatches => DispatchIs(s);
    case Fires(pid) =>
      if s.procs[pid].status == Waiting { ValidAt(s, pid); FiresIs(s, pid); } else { FiresNot(s, pid); }
    case _ =>
  }

  /** One step: the flags of a process change only when it traps exits or exits itself. */
  lemma FlagsStep(s: State, a: Action, q: Pid)
    requires Valid(s) && Enabled(s, a) && q in s.procs && q in Apply(s, a).procs
    ensures var p, p' := s.procs[q], Apply(s, a).procs[q];
      if a.DoSetTrapExit? && s.current == q then SameFlags(p.(trapExit := a.on), p')
      else if a.DoExit? && s.current == q then SameFlags(p.(exitReason := Some(a.reason), abnormal := true), p')
      else SameFlags(p, p')
  {
    hide Valid, SameFlags, Finish, Deliver, Dispatch, SignalExit, TimerFires, Spawn;
    if Own(s, a, q) {
      OwnFlags(s, a, q);
    } else {
      hide Received;
      StepReceives(s, a, q);
      ReceivedFlags(s.procs[q], Apply(s, a).procs[q], Gains(s, a, q));
    }
  }

  lemma NewbornFlags(s: State, a: Action, q: Pid)
    requires Valid(s) && Enabled(s, a) && q !in s.procs && q in Apply(s, a).procs
    ensures var p := Apply(s, a).procs[q]; !p.trapExit && p.exitReason == None && !p.abnormal && p.mailbox == []
  {
    hide Valid, Spawn;
    BirthStep(s, a);
    if a.DoSpawn? {
      SpawnIs(s, a.link);
    }
  }

  /** A process that has just been born was never there before, so it has not taken any step. */
  lemma {:induction false} NeverBefore(ss: seq<State>, acts: seq<Action>, q: Pid, i: nat, n: nat)
    requires IsRun(ss, acts) && Valid(ss[0]) && i <= n < |ss|
    requires q in ss[i].procs
    ensures q < ss[n].nextPid
    decreases n
  {
    hide Valid, IsRun, Apply, Enabled;
    if n == i {
      RunValid(ss, acts, n);
      PidBelow(ss[n], q);
    } else {
      NeverBefore(ss, acts, q, i, n - 1);
      RunLength(ss, acts);
      RunStep(ss, acts, n - 1);
      RunValid(ss, acts, n - 1);
      BirthOf(ss[n - 1], acts[n - 1], q);
    }
  }

  lemma PidBelow(s: State, q: Pid)
    requires Valid(s) && q in s.procs
    ensures q < s.nextPid
  {
  }

  lemma Newborn(ss: seq<State>, acts: seq<Action>, q: Pid, n: nat)
    requires IsRun(ss, acts) && Valid(ss[0]) && n < |acts| && q !in ss[n].procs && q in ss[n + 1].procs
    ensures forall i | 0 <= i <= n :: q !in ss[i].procs
  {
    RunLength(ss, acts);
    RunStep(ss, acts, n);
    hide Valid, IsRun, Apply, Enabled;
    RunValid(ss, acts, n);
    BirthOf(ss[n], acts[n], q);
    forall i | 0 <= i <= n ensures q !in ss[i].procs {
      if q in ss[i].procs { NeverBefore(ss, acts, q, i, n); }
    }
  }

  // ---- What held since ----

  /** `sets` happened at step `i`, and `clears` at no step after it and before state `n`. */
  ghost predicate Since(sets: nat -> bool, clears: nat -> bool, i: nat, n: nat) {
    i < n && sets(i) && forall j | i < j < n :: !clears(j)
  }

  ghost predicate Held(sets: nat -> bool, clears: nat -> bool, n: nat) {
    exists i: nat :: Since(sets, clears, i, n)
  }

  lemma HeldStep(sets: nat -> bool, clears: nat -> bool, n: nat)
    ensures Held(sets, clears, n + 1) <==> sets(n) || (Held(sets, clears, n) && !clears(n))
  {
    if sets(n) {
      assert Since(sets, clears, n, n + 1);
    } else {
      if Held(sets, clears, n) && !clears(n) {
        var i: nat :| Since(sets, clears, i, n);
        assert Since(sets, clears, i, n + 1);
      }
      if Held(sets, clears, n + 1) {
        var i: nat :| Since(sets, clears, i, n + 1);
        assert Since(sets, clears, i, n);
      }
    }
  }

  lemma NotHeld(sets: nat -> bool, clears: nat -> bool, n: nat)
    requires forall i: nat | i < n :: !sets(i)
    ensures !Held(sets, clears, n)
  {
  }

  ghost predicate Happened(f: nat -> bool, n: nat) {
    exists i: nat :: i < n && f(i)
  }

  lemma NotHappened(f: nat -> bool, n: nat)
    requires forall i: nat | i < n :: !f(i)
    ensures !Happened(f, n)
  {
  }

  lemma HappenedStep(f: nat -> bool, n: nat)
    ensures Happened(f, n + 1) <==> Happened(f, n) || f(n)
  {
    if Happened(f, n + 1) {
      var i: nat :| i < n + 1 && f(i);
      assert i < n || i == n;
    }
  }

  /** `q` itself takes a step at which it sets its trap flag to `on`. */
  ghost function Traps(ss: seq<State>, acts: seq<Action>, q: Pid, on: bool): nat -> bool {
    (i: nat) => i < |acts| && i < |ss| && ss[i].current == q && acts[i] == DoSetTrapExit(on)
  }

  lemma NoSteps(ss: seq<State>, acts: seq<Action>, q: Pid, i: nat)
    requires IsRun(ss, acts) && i < |acts| && q !in ss[i].procs && ss[i].current == q
    ensures acts[i].Dispatches? || acts[i].Fires?
  {
    RunStep(ss, acts, i);
  }

  /** A live process traps exits exactly when the last `set_trap_exit` it called turned that on. */
  lemma {:induction false} TrapExitHistory(ss: seq<State>, acts: seq<Action>, q: Pid, n: nat)
    requires IsRun(ss, acts) && ss[0] == INITIAL && n < |ss| && q in ss[n].procs
    ensures ss[n].procs[q].trapExit <==> Held(Traps(ss, acts, q, true), Traps(ss, acts, q, false), n)
  {
    var on, off := Traps(ss, acts, q, true), Traps(ss, acts, q, false);
    hide Valid, Apply, Enabled, IsRun, Held;
    if n == 0 {
      NotHeld(on, off, 0);
    } else {
      InitialValid();
      RunLength(ss, acts);
      RunStep(ss, acts, n - 1);
      RunValid(ss, acts, n - 1);
      HeldStep(on, off, n - 1);
      if q in ss[n - 1].procs {
        TrapExitHistory(ss, acts, q, n - 1);
        FlagsStep(ss[n - 1], acts[n - 1], q);
      } else {
        NewbornFlags(ss[n - 1], acts[n - 1], q);
        Newborn(ss, acts, q, n - 1);
        forall i: nat | i < n ensures !on(i) {
          if on(i) { NoSteps(ss, acts, q, i); }
        }
        NotHeld(on, off, n);
      }
    }
  }

  ghost function Exits(ss: seq<State>, acts: seq<Action>, q: Pid): nat -> bool {
    (i: nat) => i < |acts| && i < |ss| && ss[i].current == q && acts[i].DoExit?
  }

  ghost function ExitsWith(ss: seq<State>, acts: seq<Action>, q: Pid, reason: Term): nat -> bool {
    (i: nat) => i < |acts| && i < |ss| && ss[i].current == q && acts[i] == DoExit(reason)
  }

  /** A live process carries the reason of the last `exit/1` it called, if it called one. */
  lemma {:induction false} ExitHistory(ss: seq<State>, acts: seq<Action>, q: Pid, reason: Term, n: nat)
    requires IsRun(ss, acts) && ss[0] == INITIAL && n < |ss| && q in ss[n].procs
    ensures ss[n].procs[q].exitReason == Some(reason)
       <==> Held(ExitsWith(ss, acts, q, reason), Exits(ss, acts, q), n)
  {
    var gives, exits := ExitsWith(ss, acts, q, reason), Exits(ss, acts, q);
    hide Valid, Apply, Enabled, IsRun, Held;
    if n == 0 {
      NotHeld(gives, exits, 0);
    } else {
      InitialValid();
      RunLength(ss, acts);
      RunStep(ss, acts, n - 1);
      RunValid(ss, acts, n - 1);
      HeldStep(gives, exits, n - 1);
      if q in ss[n - 1].procs {
        ExitHistory(ss, acts, q, reason, n - 1);
        FlagsStep(ss[n - 1], acts[n - 1], q);
      } else {
        NewbornFlags(ss[n - 1], acts[n - 1], q);
        Newborn(ss, acts, q, n - 1);
        forall i: nat | i < n ensures !gives(i) {
          if gives(i) { NoSteps(ss, acts, q, i); }
        }
        NotHeld(gives, exits, n);
      }
    }
  }

  /** It counts as abnormal from its first `exit/1` on. */
  lemma {:induction false} AbnormalHistory(ss: seq<State>, acts: seq<Action>, q: Pid, n: nat)
    requires IsRun(ss, acts) && ss[0] == INITIAL && n < |ss| && q in ss[n].procs
    ensures ss[n].procs[q].abnormal <==> Happened(Exits(ss, acts, q), n)
    ensures ss[n].procs[q].abnormal <==> ss[n].procs[q].exitReason.Some?
  {
    var exits := Exits(ss, acts, q);
    hide Valid, Apply, Enabled, IsRun, Happened;
    if n == 0 {
      NotHappened(exits, 0);
    } else {
      InitialValid();
      RunLength(ss, acts);
      RunStep(ss, acts, n - 1);
      RunValid(ss, acts, n - 1);
      if q in ss[n - 1].procs {
        HappenedStep(exits, n - 1);
        AbnormalHistory(ss, acts, q, n - 1);
        FlagsStep(ss[n - 1], acts[n - 1], q);
      } else {
        NewbornFlags(ss[n - 1], acts[n - 1], q);
        Newborn(ss, acts, q, n - 1);
        forall i: nat | i < n ensures !exits(i) {
          if exits(i) { NoSteps(ss, acts, q, i); }
        }
        NotHappened(exits, n);
      }
    }
  }

  /** The reason of the last `exit/1` that `q` called before state `n`, or `:normal` if it called none. */
  ghost predicate ReasonIs(ss: seq<State>, acts: seq<Action>, q: Pid, reason: Term, n: nat) {
    if Happened(Exits(ss, acts, q), n) then Held(ExitsWith(ss, acts, q, reason), Exits(ss, acts, q), n)
    else reason == NormalAtom
  }

  /** Every process has a reason to die with, and it is the one its record gives. */
  lemma ReasonHistory(ss: seq<State>, acts: seq<Action>, q: Pid, n: nat)
    requires IsRun(ss, acts) && ss[0] == INITIAL && n < |ss| && q in ss[n].procs
    ensures ReasonIs(ss, acts, q, ReasonOf(ss[n].procs[q]), n)
  {
    hide IsRun, Held, Happened;
    ExitHistory(ss, acts, q, ReasonOf(ss[n].procs[q]), n);
    AbnormalHistory(ss, acts, q, n);
  }

  lemma LinksAreSymmetric(s: State)
    requires Valid(s)
    ensures Symmetric(s)
  {
    hide ProcsOk, QueueOk, TimersOk, MonitorsOk, PidsOk, Symmetric;
  }

  /**
   * What the others hear when a stack completes: the reason of its last `exit/1`, or `:normal` without one; and the
   * death goes along the links if it called `exit/1` at all, whatever the reason, or was thrown out.
   */
  lemma ReturnReports(ss: seq<State>, acts: seq<Action>, n: nat, x: Pid, msg: Msg) returns (reason: Term)
    requires IsRun(ss, acts) && ss[0] == INITIAL && n < |acts| && acts[n].Returns? && ss[n].current != 1
    requires x in ss[n + 1].procs
    ensures var s, q := ss[n], ss[n].current;
      && q in s.procs && x in s.procs
      && ReasonIs(ss, acts, q, reason, n)
      && multiset(ss[n + 1].procs[x].mailbox)[msg]
         == multiset(s.procs[x].mailbox)[msg]
            + Gained(s, x, Doomed(s, q, Happened(Exits(ss, acts, q), n) || !acts[n].normal), reason, msg)
  {
    var s, q := ss[n], ss[n].current;
    InitialValid();
    RunStep(ss, acts, n);
    hide Valid, IsRun, Held, Happened, Exits, ExitsWith, ReasonIs, Gained, Doomed, Finish, Symmetric;
    RunValid(ss, acts, n);
    LinksAreSymmetric(s);
    ReturnGains(s, acts[n].normal, x, msg);
    reason := ReasonOf(s.procs[q]);
    ReasonHistory(ss, acts, q, n);
    AbnormalHistory(ss, acts, q, n);
  }

  lemma ReturnGains(s: State, normal: bool, x: Pid, msg: Msg)
    requires Valid(s) && s.current in Live(s) && Symmetric(s) && x in Finish(s, s.current, normal).procs
    ensures x in s.procs
    ensures multiset(Finish(s, s.current, normal).procs[x].mailbox)[msg]
         == multiset(s.procs[x].mailbox)[msg]
            + Gained(s, x, Doomed(s, s.current, Abnormal(s, s.current, normal)), ReasonOf(s.procs[s.current]), msg)
  {
    FinishReports(s, s.current, normal);
    ValidFinish(s, s.current, normal);
    ValidAt(Finish(s, s.current, normal), x);
    hide Finish, Doomed, Gained, Valid;
  }
}