/** The effect of one death, stated without mention of the order of the recursion. */
module SchedulerDeath {
  import opened Collections
  import opened SchedulerState
  import opened SchedulerCascade

  /** A chain of links along which a fatal exit signal travels: everyone after the first dies of it. */
  ghost predicate ExitPath(s: State, path: seq<Pid>) {
    && path != []
    && (forall i | 0 <= i < |path| :: path[i] in Live(s))
    && (forall i | 0 < i < |path| :: path[i] in s.procs[path[i - 1]].links && !s.procs[path[i]].trapExit)
  }

  ghost predicate Reaches(s: State, pid: Pid, x: Pid) {
    exists path :: ExitPath(s, path) && path[0] == pid && path[|path| - 1] == x
  }

  /** The processes that the death of `pid` takes along, itself included. */
  ghost function Doomed(s: State, pid: Pid, abnormal: bool): set<Pid> {
    if abnormal then set x | x in Live(s) && Reaches(s, pid, x) else {pid}
  }

  lemma DoomedClosed(s: State, pid: Pid)
    requires pid in Live(s)
    ensures pid in Doomed(s, pid, true) && Closed(s, Doomed(s, pid, true))
  {
    assert ExitPath(s, [pid]) && [pid][0] == pid && [pid][|[pid]| - 1] == pid;
    var C := Doomed(s, pid, true);
    forall x, y | x in C && y in s.procs[x].links && y in Live(s) && !s.procs[y].trapExit ensures y in C {
      var path :| ExitPath(s, path) && path[0] == pid && path[|path| - 1] == x;
      var longer := path + [y];
      assert ExitPath(s, longer) && longer[0] == pid && longer[|longer| - 1] == y;
    }
  }

  lemma {:induction false} PathStays(s: State, path: seq<Pid>, C: set<Pid>)
    requires ExitPath(s, path) && Closed(s, C) && path[0] in C
    ensures path[|path| - 1] in C
    decreases |path|
  {
    if |path| > 1 {
      var init := path[..|path| - 1];
      assert ExitPath(s, init);
      PathStays(s, init, C);
    }
  }

  /** A cascade removes exactly the processes reachable along links through processes that do not trap. */
  lemma FinishRemoves(s: State, pid: Pid, normal: bool)
    requires pid in Live(s) && Symmetric(s)
    ensures var removed := Doomed(s, pid, Abnormal(s, pid, normal));
      && s.procs.Keys - Finish(s, pid, normal).procs.Keys == removed
      && Kills(s, Finish(s, pid, normal), removed, pid, {}, ReasonOf(s.procs[pid]))
  {
    hide Finish, Kills;
    var r, abnormal := Finish(s, pid, normal), Abnormal(s, pid, normal);
    var killed, doomed := Live(s) - Live(r), Doomed(s, pid, abnormal);
    if abnormal { DoomedClosed(s, pid); }
    FinishKills(s, pid, normal, doomed);
    if abnormal {
      forall x | x in doomed ensures x in killed {
        var path :| ExitPath(s, path) && path[0] == pid && path[|path| - 1] == x;
        PathStays(s, path, killed);
      }
    }
    assert killed == doomed;
    KillsKeys(s, r, killed, pid, {}, ReasonOf(s.procs[pid]));
  }

  lemma KillsKeys(s: State, r: State, killed: set<Pid>, pid: Pid, reached: set<Pid>, reason: Term)
    requires Kills(s, r, killed, pid, reached, reason)
    ensures s.procs.Keys - r.procs.Keys == killed
  {
  }

  // ---- What each survivor gains, message by message ----

  lemma {:induction false} ExitsCount(links: seq<Pid>, gone: set<Pid>, reason: Term)
    requires NoDuplicates(links)
    ensures forall x :: ExitsFor(links, gone, reason)[Exit(x, reason)] == if x in links && x in gone then 1 else 0
    ensures forall m :: m in ExitsFor(links, gone, reason) ==> m.Exit? && m.reason == reason
  {
    if links != [] {
      assert links == [links[0]] + links[1..] && NoDuplicates(links[1..]);
      ExitsCount(links[1..], gone, reason);
    }
  }

  lemma {:induction false} DownsCount(monitors: seq<Monitor>, q: Pid, gone: set<Pid>, reason: Term)
    ensures forall ref, t ::
      DownsFor(monitors, q, gone, reason)[Down(ref, t, reason)]
        == if t in gone then multiset(monitors)[Monitor(q, t, ref)] else 0
    ensures forall m :: m in DownsFor(monitors, q, gone, reason) ==> m.Down? && m.reason == reason
  {
    if monitors != [] {
      assert monitors == [monitors[0]] + monitors[1..];
      DownsCount(monitors[1..], q, gone, reason);
    }
  }

  lemma {:induction false} PruneMembers(monitors: seq<Monitor>, gone: set<Pid>)
    ensures forall m ::
      multiset(Prune(monitors, gone))[m]
        == if m.owner in gone || m.target in gone then 0 else multiset(monitors)[m]
  {
    if monitors != [] {
      assert monitors == [monitors[0]] + monitors[1..];
      PruneMembers(monitors[1..], gone);
    }
  }

  /** What `q` gains: one EXIT per removed neighbour if it traps, one DOWN per monitor on a removed process. */
  ghost function Gained(s: State, q: Pid, removed: set<Pid>, reason: Term, msg: Msg): nat
    requires q in s.procs
  {
    match msg
    case User(_) => 0
    case Exit(x, why) =>
      if why == reason && s.procs[q].trapExit && x in s.procs[q].links && x in removed then 1 else 0
    case Down(ref, t, why) =>
      if why == reason && t in removed then multiset(s.monitors)[Monitor(q, t, ref)] else 0
  }

  lemma SurvivorGains(s: State, p': Proc, q: Pid, removed: set<Pid>, reason: Term)
    requires q in Live(s) && NoDuplicates(s.procs[q].links)
    requires Survives(s.procs[q], p', q, s.monitors, removed, removed, reason)
    ensures s.procs[q].mailbox <= p'.mailbox
    ensures forall msg :: multiset(p'.mailbox)[msg]
                       == multiset(s.procs[q].mailbox)[msg] + Gained(s, q, removed, reason, msg)
    ensures forall x :: x in p'.links <==> x in s.procs[q].links && x !in removed
  {
    WithoutMembers(s.procs[q].links, removed);
    hide ExitsFor, DownsFor, Gained, NoDuplicates;
    forall msg ensures multiset(p'.mailbox)[msg]
                    == multiset(s.procs[q].mailbox)[msg] + Gained(s, q, removed, reason, msg)
    {
      GainedIs(s, q, removed, reason, msg);
    }
  }

  lemma GainedIs(s: State, q: Pid, removed: set<Pid>, reason: Term, msg: Msg)
    requires q in s.procs && NoDuplicates(s.procs[q].links)
    ensures var exits := if s.procs[q].trapExit then ExitsFor(s.procs[q].links, removed, reason) else multiset{};
      (exits + DownsFor(s.monitors, q, removed, reason))[msg] == Gained(s, q, removed, reason, msg)
  {
    hide ExitsFor, DownsFor;
    ExitsCount(s.procs[q].links, removed, reason);
    DownsCount(s.monitors, q, removed, reason);
  }

  /** The whole contract of a death: who goes, what is gained, and that nothing still names the dead. */
  lemma FinishReports(s: State, pid: Pid, normal: bool)
    requires pid in Live(s) && Symmetric(s)
    ensures var r := Finish(s, pid, normal);
            var removed, reason := Doomed(s, pid, Abnormal(s, pid, normal)), ReasonOf(s.procs[pid]);
      && r.procs.Keys == s.procs.Keys - removed
      && (forall q | q in Live(r) ::
           && s.procs[q].mailbox <= r.procs[q].mailbox
           && (forall msg :: multiset(r.procs[q].mailbox)[msg]
                          == multiset(s.procs[q].mailbox)[msg] + Gained(s, q, removed, reason, msg))
           && (forall x :: x in r.procs[q].links <==> x in s.procs[q].links && x !in removed)
           && r.procs[q].trapExit == s.procs[q].trapExit)
      && (forall m :: multiset(r.monitors)[m]
                   == if m.owner in removed || m.target in removed then 0 else multiset(s.monitors)[m])
      && r.registry == map n | n in s.registry && s.registry[n] !in removed :: s.registry[n]
  {
    var r := Finish(s, pid, normal);
    var removed, reason := Doomed(s, pid, Abnormal(s, pid, normal)), ReasonOf(s.procs[pid]);
    FinishRemoves(s, pid, normal);
    hide Finish, Doomed, Survives;
    PruneMembers(s.monitors, removed);
    forall q | q in Live(r)
      ensures Survives(s.procs[q], r.procs[q], q, s.monitors, removed, removed, reason)
      ensures s.procs[q].mailbox <= r.procs[q].mailbox
      ensures forall msg :: multiset(r.procs[q].mailbox)[msg]
                         == multiset(s.procs[q].mailbox)[msg] + Gained(s, q, removed, reason, msg)
      ensures forall x :: x in r.procs[q].links <==> x in s.procs[q].links && x !in removed
      ensures r.procs[q].trapExit == s.procs[q].trapExit
    {
      SurvivorGains(s, r.procs[q], q, removed, reason);
      SurvivorKeeps(s.procs[q], r.procs[q], q, s.monitors, removed, reason);
    }
  }

  lemma SurvivorKeeps(p: Proc, p': Proc, q: Pid, monitors: seq<Monitor>, removed: set<Pid>, reason: Term)
    requires Survives(p, p', q, monitors, removed, removed, reason)
    ensures p'.trapExit == p.trapExit
  {
  }

  // ---- Quirks of the code worth stating ----

  /** `exit/1` marks the exit abnormal whatever its reason, so even `:normal` takes the linked processes along. */
  lemma NormalExitStillKills(s: State, pid: Pid, x: Pid)
    requires pid in Live(s) && x in Live(s) && Symmetric(s) && x != pid
    requires x in s.procs[pid].links && !s.procs[x].trapExit
    ensures x !in Finish(Blame(s, pid, NormalAtom), pid, false).procs
  {
    var b := Blame(s, pid, NormalAtom);
    BlameKeepsLinks(s, pid, NormalAtom);
    hide Finish, Kills, Symmetric, Reaches, ExitPath;
    FinishRemoves(b, pid, false);
    OneStepReaches(b, pid, x);
    assert x in Doomed(b, pid, true);
  }

  lemma BlameKeepsLinks(s: State, pid: Pid, reason: Term)
    requires pid in Live(s)
    ensures Live(Blame(s, pid, reason)) == Live(s)
    ensures Symmetric(s) ==> Symmetric(Blame(s, pid, reason))
  {
    assert Live(Blame(s, pid, reason)) == Live(s);
  }

  lemma OneStepReaches(s: State, pid: Pid, x: Pid)
    requires pid in Live(s) && x in Live(s) && x in s.procs[pid].links && !s.procs[x].trapExit
    ensures Reaches(s, pid, x)
  {
    var path := [pid, x];
    assert ExitPath(s, path) && path[0] == pid && path[|path| - 1] == x;
  }
}
