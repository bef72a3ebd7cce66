/**
 * What a death does, whatever order the recursion visits the links in:
 * who dies, what every survivor receives, and what the tables still mention.
 */
module SchedulerCascade {
  import opened Collections
  import opened SchedulerState

  // ---- What a survivor must receive ----

  /** One EXIT for each linked process that is gone. */
  ghost function ExitsFor(links: seq<Pid>, gone: set<Pid>, reason: Term): multiset<Msg> {
    if links == [] then multiset{}
    else (if links[0] in gone then multiset{Exit(links[0], reason)} else multiset{})
         + ExitsFor(links[1..], gone, reason)
  }

  /** One DOWN for each monitor that `q` holds on a process that is gone. */
  ghost function DownsFor(monitors: seq<Monitor>, q: Pid, gone: set<Pid>, reason: Term): multiset<Msg> {
    if monitors == [] then multiset{}
    else
      var m := monitors[0];
      (if m.owner == q && m.target in gone then multiset{Down(m.ref, m.target, reason)} else multiset{})
      + DownsFor(monitors[1..], q, gone, reason)
  }

  /** The monitors that neither watch nor belong to a process that is gone. */
  function Prune(monitors: seq<Monitor>, gone: set<Pid>): seq<Monitor> {
    if monitors == [] then []
    else if monitors[0].owner in gone || monitors[0].target in gone then Prune(monitors[1..], gone)
    else [monitors[0]] + Prune(monitors[1..], gone)
  }

  /** `p` became `p'` by receiving exactly `msgs` in some order; a waiting process that got any was woken. */
  ghost predicate Received(p: Proc, p': Proc, msgs: multiset<Msg>) {
    && p' == p.(links := p'.links, mailbox := p'.mailbox, status := p'.status, timer := p'.timer)
    && p.mailbox <= p'.mailbox
    && multiset(p'.mailbox) == multiset(p.mailbox) + msgs
    && if p.status == Waiting && |p'.mailbox| > |p.mailbox| then p'.status == Runnable && !p'.timer
       else p'.status == p.status && p'.timer == p.timer
  }

  ghost predicate Survives(p: Proc, p': Proc, q: Pid, monitors: seq<Monitor>,
                           unlinked: set<Pid>, killed: set<Pid>, reason: Term)
  {
    && p'.links == Without(p.links, unlinked)
    && Received(p, p', (if p.trapExit then ExitsFor(p.links, unlinked, reason) else multiset{})
                       + DownsFor(monitors, q, killed, reason))
  }

  // ---- The relation that one piece of a cascade establishes ----

  ghost function Timers(s: State): set<Pid> {
    set q | q in s.procs && !s.procs[q].dead && s.procs[q].timer
  }

  /** Killed by `pid` itself (whose signal reached `reached`) or by what it killed in turn. */
  ghost function Unlinked(q: Pid, killed: set<Pid>, pid: Pid, reached: set<Pid>): set<Pid> {
    if q in reached then killed + {pid} else killed
  }

  ghost predicate SameCounters(s: State, r: State) {
    && r.nextPid == s.nextPid && r.nextRef == s.nextRef
    && r.current == s.current && r.mainDone == s.mainDone
    && r.pendingTimers - |Timers(r)| == s.pendingTimers - |Timers(s)|
  }

  /** The run queue grew by one resume for each survivor that was woken. */
  ghost predicate Requeued(s: State, r: State) {
    && s.runq <= r.runq
    && (forall j | j in r.runq :: j in s.runq || j.pid in Live(s))
    && forall q | q in Live(r) && q in Live(s) ::
        && multiset(r.runq)[Job(q, Start)] == multiset(s.runq)[Job(q, Start)]
        && multiset(r.runq)[Job(q, Resume)] == multiset(s.runq)[Job(q, Resume)]
           + if r.procs[q].status == s.procs[q].status then 0 else 1
  }

  ghost predicate Kills(s: State, r: State, killed: set<Pid>, pid: Pid, reached: set<Pid>, reason: Term) {
    && killed <= Live(s)
    && r.procs.Keys == s.procs.Keys - killed
    && Live(r) == Live(s) - killed
    && (forall x | x in s.procs && s.procs[x].dead :: r.procs[x] == s.procs[x])
    && (forall q | q in Live(r) ::
         Survives(s.procs[q], r.procs[q], q, s.monitors, Unlinked(q, killed, pid, reached), killed, reason))
    && r.monitors == Prune(s.monitors, killed)
    && r.registry == Unname(s.registry, killed)
    && SameCounters(s, r)
    && Requeued(s, r)
  }

  // ---- Link sets ----

  ghost function Members(links: seq<Pid>): set<Pid> {
    set x | x in links
  }

  /** Links between live processes are mutual, and no process is linked to itself. */
  ghost predicate Symmetric(s: State) {
    && (forall q | q in Live(s) :: NoDuplicates(s.procs[q].links) && q !in s.procs[q].links)
    && (forall q, x | q in Live(s) && x in Live(s) && x in s.procs[q].links :: q in s.procs[x].links)
  }

  /** No exit signal can leave `C` to kill a process outside it. */
  ghost predicate Closed(s: State, C: set<Pid>) {
    forall x, y | x in C && x in Live(s) && y in s.procs[x].links && y in Live(s) && !s.procs[y].trapExit :: y in C
  }

  lemma {:induction false} WithoutMembers(links: seq<Pid>, gone: set<Pid>)
    ensures forall x :: x in Without(links, gone) <==> x in links && x !in gone
    ensures NoDuplicates(links) ==> NoDuplicates(Without(links, gone))
  {
    if links != [] {
      WithoutMembers(links[1..], gone);
      assert links == [links[0]] + links[1..];
      if NoDuplicates(links) { assert NoDuplicates(links[1..]); }
    }
  }

  lemma {:induction false} WithoutTwice(links: seq<Pid>, a: set<Pid>, b: set<Pid>)
    ensures Without(Without(links, a), b) == Without(links, a + b)
  {
    if links != [] {
      WithoutTwice(links[1..], a, b);
    }
  }

  lemma {:induction false} WithoutNone(links: seq<Pid>, gone: set<Pid>)
    requires forall x | x in gone :: x !in links
    ensures Without(links, gone) == links
    ensures forall reason :: ExitsFor(links, gone, reason) == multiset{}
  {
    if links != [] {
      assert links[0] in links && forall x | x in links[1..] :: x in links;
      WithoutNone(links[1..], gone);
    }
  }

  lemma {:induction false} ExitsSplit(links: seq<Pid>, a: set<Pid>, b: set<Pid>, reason: Term)
    ensures ExitsFor(links, a + b, reason) == ExitsFor(links, a, reason) + ExitsFor(Without(links, a), b, reason)
  {
    if links != [] {
      ExitsSplit(links[1..], a, b, reason);
    }
  }

  lemma {:induction false} ExitsOne(links: seq<Pid>, x: Pid, reason: Term)
    requires NoDuplicates(links)
    ensures ExitsFor(links, {x}, reason) == if x in links then multiset{Exit(x, reason)} else multiset{}
  {
    if links != [] {
      assert NoDuplicates(links[1..]) && links == [links[0]] + links[1..];
      ExitsOne(links[1..], x, reason);
    }
  }

  // ---- Monitors ----

  lemma {:induction false} PruneTwice(monitors: seq<Monitor>, a: set<Pid>, b: set<Pid>)
    ensures Prune(Prune(monitors, a), b) == Prune(monitors, a + b)
  {
    if monitors != [] {
      PruneTwice(monitors[1..], a, b);
    }
  }

  lemma {:induction false} DownsSplit(monitors: seq<Monitor>, q: Pid, a: set<Pid>, b: set<Pid>, reason: Term)
    requires q !in a
    ensures DownsFor(monitors, q, a + b, reason)
         == DownsFor(monitors, q, a, reason) + DownsFor(Prune(monitors, a), q, b, reason)
  {
    if monitors != [] {
      DownsSplit(monitors[1..], q, a, b, reason);
    }
  }

  lemma {:induction false} PruneNone(monitors: seq<Monitor>)
    ensures Prune(monitors, {}) == monitors
    ensures forall q, reason :: DownsFor(monitors, q, {}, reason) == multiset{}
  {
    if monitors != [] {
      PruneNone(monitors[1..]);
    }
  }

  lemma {:induction false} PruneAppend(ms: seq<Monitor>, m: Monitor, gone: set<Pid>)
    ensures Prune(ms + [m], gone)
         == Prune(ms, gone) + if m.owner in gone || m.target in gone then [] else [m]
    ensures forall q, reason ::
      DownsFor(ms + [m], q, gone, reason) == DownsFor(ms, q, gone, reason)
        + if m.owner == q && m.target in gone then multiset{Down(m.ref, m.target, reason)} else multiset{}
  {
    if ms != [] {
      PruneAppend(ms[1..], m, gone);
      assert (ms + [m])[1..] == ms[1..] + [m];
    } else {
      assert ms + [m] == [m];
    }
  }

  // ---- Composing pieces of a cascade ----

  lemma SurvivesTwice(p: Proc, m: Proc, r: Proc, q: Pid, monitors: seq<Monitor>,
                      u1: set<Pid>, k1: set<Pid>, u2: set<Pid>, k2: set<Pid>, reason: Term)
    requires Survives(p, m, q, monitors, u1, k1, reason)
    requires Survives(m, r, q, Prune(monitors, k1), u2, k2, reason)
    requires q !in k1
    ensures Survives(p, r, q, monitors, u1 + u2, k1 + k2, reason)
  {
    WithoutTwice(p.links, u1, u2);
    ExitsSplit(p.links, u1, u2, reason);
    DownsSplit(monitors, q, k1, k2, reason);
  }

  lemma SurvivesNothing(p: Proc, q: Pid, monitors: seq<Monitor>, reason: Term)
    ensures Survives(p, p, q, monitors, {}, {}, reason)
  {
    PruneNone(monitors);
    WithoutNone(p.links, {});
  }

  lemma KillsNothing(s: State, pid: Pid, reason: Term)
    ensures Kills(s, s, {}, pid, {}, reason)
  {
    PruneNone(s.monitors);
    forall q | q in Live(s) { SurvivesNothing(s.procs[q], q, s.monitors, reason); }
    assert Unname(s.registry, {}) == s.registry;
  }

  lemma KillsTwice(s: State, m: State, r: State, k1: set<Pid>, k2: set<Pid>,
                   pid: Pid, reached1: set<Pid>, reached2: set<Pid>, reason: Term)
    requires Kills(s, m, k1, pid, reached1, reason)
    requires Kills(m, r, k2, pid, reached2, reason)
    ensures Kills(s, r, k1 + k2, pid, reached1 + reached2, reason)
  {
    PruneTwice(s.monitors, k1, k2);
    UnnameTwice(s.registry, k1, k2);
    forall q | q in Live(r)
      ensures Survives(s.procs[q], r.procs[q], q, s.monitors,
                       Unlinked(q, k1 + k2, pid, reached1 + reached2), k1 + k2, reason)
    {
      KillsTwiceAt(s, m, r, k1, k2, pid, reached1, reached2, reason, q);
    }
    assert Requeued(s, r) by {
      KillsWoken(s, m, k1, pid, reached1, reason);
      KillsWoken(m, r, k2, pid, reached2, reason);
      RequeuedTwice(s, m, r);
    }
  }

  lemma UnnameTwice(registry: map<nat, Pid>, a: set<Pid>, b: set<Pid>)
    ensures Unname(Unname(registry, a), b) == Unname(registry, a + b)
  {
  }

  lemma KillsTwiceAt(s: State, m: State, r: State, k1: set<Pid>, k2: set<Pid>,
                     pid: Pid, reached1: set<Pid>, reached2: set<Pid>, reason: Term, q: Pid)
    requires Kills(s, m, k1, pid, reached1, reason)
    requires Kills(m, r, k2, pid, reached2, reason)
    requires q in Live(r)
    ensures Survives(s.procs[q], r.procs[q], q, s.monitors,
                     Unlinked(q, k1 + k2, pid, reached1 + reached2), k1 + k2, reason)
  {
    var u1, u2 := Unlinked(q, k1, pid, reached1), Unlinked(q, k2, pid, reached2);
    SurvivesTwice(s.procs[q], m.procs[q], r.procs[q], q, s.monitors, u1, k1, u2, k2, reason);
    assert u1 + u2 == Unlinked(q, k1 + k2, pid, reached1 + reached2);
  }

  /** A survivor's status changes only by being woken. */
  ghost predicate OnlyWoken(s: State, r: State) {
    forall q | q in Live(s) && q in Live(r) && r.procs[q].status != s.procs[q].status ::
      s.procs[q].status == Waiting && r.procs[q].status == Runnable
  }

  lemma RequeuedTwice(s: State, m: State, r: State)
    requires Live(r) <= Live(m) <= Live(s)
    requires OnlyWoken(s, m) && OnlyWoken(m, r)
    requires Requeued(s, m) && Requeued(m, r)
    ensures Requeued(s, r) && OnlyWoken(s, r)
  {
  }

  lemma KillsWoken(s: State, r: State, killed: set<Pid>, pid: Pid, reached: set<Pid>, reason: Term)
    requires Kills(s, r, killed, pid, reached, reason)
    ensures OnlyWoken(s, r)
  {
  }

  lemma SameCountersTwice(s: State, m: State, r: State)
    requires SameCounters(s, m) && SameCounters(m, r)
    ensures SameCounters(s, r)
  {
  }

  lemma SymmetricKept(s: State, m: State, killed: set<Pid>, pid: Pid, reached: set<Pid>, reason: Term)
    requires Kills(s, m, killed, pid, reached, reason)
    requires Symmetric(s) && pid !in Live(s)
    ensures Symmetric(m)
  {
    forall q | q in Live(m)
      ensures NoDuplicates(m.procs[q].links)
      ensures forall x :: x in m.procs[q].links <==> x in s.procs[q].links && x !in Unlinked(q, killed, pid, reached)
    {
      WithoutMembers(s.procs[q].links, Unlinked(q, killed, pid, reached));
    }
  }

  lemma ClosedLater(s: State, m: State, killed: set<Pid>, pid: Pid, reached: set<Pid>, reason: Term, C: set<Pid>)
    requires Kills(s, m, killed, pid, reached, reason)
    requires Closed(s, C)
    ensures Closed(m, C)
  {
    forall q | q in Live(m) { WithoutMembers(s.procs[q].links, Unlinked(q, killed, pid, reached)); }
  }

  lemma ClosedUnion(s: State, m: State, k1: set<Pid>, k2: set<Pid>, pid: Pid, reached: set<Pid>, reason: Term)
    requires Kills(s, m, k1, pid, reached, reason)
    requires pid !in Live(s)
    requires Closed(s, k1) && Closed(m, k2)
    ensures Closed(s, k1 + k2)
  {
    forall q | q in Live(m) { WithoutMembers(s.procs[q].links, Unlinked(q, k1, pid, reached)); }
  }

  // ---- Single effects ----

  /** One record changed: the timer count follows it. */
  lemma TimersUpdate(s: State, r: State, q: Pid)
    requires q in s.procs && q in r.procs && r.procs == s.procs[q := r.procs[q]]
    ensures |Timers(r)| - (if q in Timers(r) then 1 else 0) == |Timers(s)| - (if q in Timers(s) then 1 else 0)
  {
    assert Timers(r) - {q} == Timers(s) - {q};
    assert |Timers(r) - {q}| == |Timers(r)| - if q in Timers(r) then 1 else 0;
    assert |Timers(s) - {q}| == |Timers(s)| - if q in Timers(s) then 1 else 0;
  }

  function Delivered(p: Proc, msg: Msg): Proc {
    if p.status == Waiting && !p.dead then p.(mailbox := p.mailbox + [msg], status := Runnable, timer := false)
    else p.(mailbox := p.mailbox + [msg])
  }

  lemma DeliverIs(s: State, q: Pid, msg: Msg)
    requires q in Live(s)
    ensures Deliver(s, q, msg) == s.(
      procs := s.procs[q := Delivered(s.procs[q], msg)],
      runq := if s.procs[q].status == Waiting then s.runq + [Job(q, Resume)] else s.runq,
      pendingTimers := if s.procs[q].status == Waiting && s.procs[q].timer then s.pendingTimers - 1 else s.pendingTimers)
  {
    var p := s.procs[q];
    var a := p.(mailbox := p.mailbox + [msg]);
    var b := a.(status := Runnable);
    assert s.procs[q := a][q := b] == s.procs[q := b];
    assert s.procs[q := b][q := b.(timer := false)] == s.procs[q := b.(timer := false)];
  }

  lemma DeliveredReceives(p: Proc, links: seq<Pid>, msg: Msg)
    requires !p.dead
    ensures Received(p, Delivered(p.(links := links), msg), multiset{msg})
  {
    assert multiset(p.mailbox + [msg]) == multiset(p.mailbox) + multiset{msg};
  }

  lemma DeliverEffect(s: State, q: Pid, msg: Msg)
    requires q in Live(s)
    ensures SameCounters(s, Deliver(s, q, msg))
    ensures Requeued(s, Deliver(s, q, msg))
  {
    DeliverIs(s, q, msg);
    TimersUpdate(s, Deliver(s, q, msg), q);
  }

  /** A step that touches the record of one survivor only. */
  lemma OneKills(s: State, r: State, pid: Pid, q: Pid, reason: Term)
    requires q in Live(s) && q in Live(r)
    requires r == s.(procs := s.procs[q := r.procs[q]], runq := r.runq, pendingTimers := r.pendingTimers)
    requires Survives(s.procs[q], r.procs[q], q, s.monitors, {pid}, {}, reason)
    requires SameCounters(s, r) && Requeued(s, r)
    ensures Kills(s, r, {}, pid, {q}, reason)
  {
    hide SameCounters, Requeued, Survives;
    var none: set<Pid> := {};
    PruneNone(s.monitors);
    assert Unname(s.registry, none) == s.registry;
    assert Live(r) == Live(s) == Live(s) - none;
    assert r.procs.Keys == s.procs.Keys == s.procs.Keys - none;
    forall x | x in Live(r)
      ensures Survives(s.procs[x], r.procs[x], x, s.monitors, Unlinked(x, none, pid, {q}), none, reason)
    {
      assert Unlinked(q, none, pid, {q}) == {pid};
      if x != q { SurvivesNothing(s.procs[x], x, s.monitors, reason); }
    }
  }

  /** The record of a survivor after one exit signal. */
  function Signalled(p: Proc, pid: Pid, reason: Term): Proc {
    var cut := p.(links := Without(p.links, {pid}));
    if p.trapExit then Delivered(cut, Exit(pid, reason)) else cut
  }

  lemma SignalSurvives(p: Proc, pid: Pid, q: Pid, monitors: seq<Monitor>, reason: Term)
    requires NoDuplicates(p.links) && pid in p.links && !p.dead
    ensures Survives(p, Signalled(p, pid, reason), q, monitors, {pid}, {}, reason)
  {
    var exits := ExitsFor(p.links, {pid}, reason);
    var downs := DownsFor(monitors, q, {}, reason);
    var none: multiset<Msg> := multiset{};
    assert exits == multiset{Exit(pid, reason)} by { ExitsOne(p.links, pid, reason); }
    assert downs == none by { PruneNone(monitors); }
    assert exits + none == exits && none + none == none;
    DeliveredReceives(p, p.links, Exit(pid, reason));
    DeliveredReceives(p, Without(p.links, {pid}), Exit(pid, reason));
  }

  lemma SignalIs(s: State, pid: Pid, linked: Pid, reason: Term)
    requires linked in Live(s)
    ensures Signal(s, pid, linked, reason).procs == s.procs[linked := Signalled(s.procs[linked], pid, reason)]
    ensures Signal(s, pid, linked, reason) == s.(procs := Signal(s, pid, linked, reason).procs,
              runq := Signal(s, pid, linked, reason).runq, pendingTimers := Signal(s, pid, linked, reason).pendingTimers)
  {
    var p := s.procs[linked].(links := Without(s.procs[linked].links, {pid}));
    if p.trapExit {
      var msg := Exit(pid, reason);
      DeliverIs(SetProc(s, linked, p), linked, msg);
      assert s.procs[linked := p][linked := Delivered(p, msg)] == s.procs[linked := Delivered(p, msg)];
    }
  }

  lemma SignalCounts(s: State, pid: Pid, linked: Pid, reason: Term)
    requires linked in Live(s)
    ensures SameCounters(s, Signal(s, pid, linked, reason)) && Requeued(s, Signal(s, pid, linked, reason))
  {
    var p := s.procs[linked].(links := Without(s.procs[linked].links, {pid}));
    var cut := SetProc(s, linked, p);
    TimersUpdate(s, cut, linked);
    assert Live(cut) == Live(s);
    assert forall q | q in Live(s) :: cut.procs[q].status == s.procs[q].status;
    if p.trapExit {
      DeliverEffect(cut, linked, Exit(pid, reason));
    }
  }

  lemma SignalKills(s: State, pid: Pid, linked: Pid, reason: Term)
    requires Symmetric(s) && linked in Live(s) && pid !in Live(s) && pid in s.procs[linked].links
    ensures Live(Signal(s, pid, linked, reason)) == Live(s)
    ensures Kills(s, Signal(s, pid, linked, reason), {}, pid, {linked}, reason)
  {
    SignalIs(s, pid, linked, reason);
    SignalCounts(s, pid, linked, reason);
    SignalSurvives(s.procs[linked], pid, linked, s.monitors, reason);
    OneKills(s, Signal(s, pid, linked, reason), pid, linked, reason);
  }

  function Corpse(p: Proc): Proc {
    if p.reject then p.(dead := true, status := Done, timer := false, resolve := false, reject := false)
    else p.(dead := true, status := Done, timer := false)
  }

  lemma DieIs(s: State, pid: Pid)
    requires pid in Live(s)
    ensures Die(s, pid) == s.(procs := s.procs[pid := Corpse(s.procs[pid])],
                              registry := Unname(s.registry, {pid}),
                              pendingTimers := if s.procs[pid].timer then s.pendingTimers - 1 else s.pendingTimers)
  {
    var p := s.procs[pid];
    var a := p.(dead := true, status := Done);
    var b := a.(timer := false);
    assert s.procs[pid := a][pid := b] == s.procs[pid := b];
    var c := (if p.timer then b else a).(resolve := false, reject := false);
    assert s.procs[pid := a][pid := c] == s.procs[pid := c];
    assert s.procs[pid := b][pid := c] == s.procs[pid := c];
  }

  lemma DieEffect(s: State, pid: Pid)
    requires pid in Live(s)
    ensures Live(Die(s, pid)) == Live(s) - {pid}
    ensures SameCounters(s, Die(s, pid))
  {
    DieIs(s, pid);
    TimersUpdate(s, Die(s, pid), pid);
  }

  // ---- The loop over monitors ----

  ghost predicate Reports(s: State, r: State, pid: Pid, handled: seq<Monitor>, reason: Term) {
    && r.procs.Keys == s.procs.Keys
    && (forall x | x in s.procs && s.procs[x].dead :: r.procs[x] == s.procs[x])
    && (forall q | q in Live(s) ::
         && q in Live(r)
         && r.procs[q].links == s.procs[q].links
         && Received(s.procs[q], r.procs[q], DownsFor(handled, q, {pid}, reason)))
    && r.registry == s.registry
    && SameCounters(s, r)
    && Requeued(s, r)
  }

  lemma ReceivedNothing(p: Proc)
    ensures Received(p, p, multiset{})
  {
  }

  lemma ReportsNothing(s: State, r: State, pid: Pid, handled: seq<Monitor>, reason: Term)
    requires r == s.(monitors := r.monitors)
    requires forall q | q in Live(s) :: DownsFor(handled, q, {pid}, reason) == multiset{}
    ensures Reports(s, r, pid, handled, reason)
  {
    assert Timers(r) == Timers(s) && Live(r) == Live(s);
    forall q | q in Live(s) { ReceivedNothing(s.procs[q]); }
  }

  lemma DownsOne(m: Monitor, q: Pid, gone: set<Pid>, reason: Term)
    ensures DownsFor([m], q, gone, reason)
         == if m.owner == q && m.target in gone then multiset{Down(m.ref, m.target, reason)} else multiset{}
  {
    assert [m][1..] == [];
  }

  lemma ReportsOne(s: State, pid: Pid, m: Monitor, reason: Term)
    requires m.owner in Live(s) && m.target == pid
    ensures Reports(s, Deliver(s, m.owner, Down(m.ref, pid, reason)), pid, [m], reason)
  {
    hide Received, SameCounters, Requeued, DownsFor, Deliver, Delivered;
    var msg := Down(m.ref, pid, reason);
    var r := Deliver(s, m.owner, msg);
    DeliverEffect(s, m.owner, msg);
    DeliverIs(s, m.owner, msg);
    assert !Delivered(s.procs[m.owner], msg).dead by { DeliveredAlive(s.procs[m.owner], msg); }
    forall q | q in Live(s)
      ensures Received(s.procs[q], r.procs[q], DownsFor([m], q, {pid}, reason)) && r.procs[q].links == s.procs[q].links
    {
      ReportsOneAt(s.procs[q], pid, m, reason, q);
      DeliveredAlive(s.procs[q], msg);
    }
  }

  lemma DeliveredAlive(p: Proc, msg: Msg)
    ensures Delivered(p, msg).dead == p.dead && Delivered(p, msg).links == p.links
  {
  }

  lemma ReportsOneAt(p: Proc, pid: Pid, m: Monitor, reason: Term, q: Pid)
    requires m.target == pid && !p.dead
    ensures Received(p, if q == m.owner then Delivered(p, Down(m.ref, pid, reason)) else p,
                     DownsFor([m], q, {pid}, reason))
  {
    DownsOne(m, q, {pid}, reason);
    DeliveredReceives(p, p.links, Down(m.ref, pid, reason));
    ReceivedNothing(p);
  }

  lemma ReceivedTwice(p: Proc, m: Proc, r: Proc, a: multiset<Msg>, b: multiset<Msg>)
    requires Received(p, m, a) && Received(m, r, b)
    ensures Received(p, r, a + b)
  {
  }

  lemma ReportsTwice(s: State, m: State, r: State, pid: Pid, last: seq<Monitor>, first: seq<Monitor>, reason: Term)
    requires Reports(s, m, pid, last, reason) && Reports(m, r, pid, first, reason)
    requires forall q | q in Live(s) ::
      DownsFor(last, q, {pid}, reason) + DownsFor(first, q, {pid}, reason) == DownsFor(first + last, q, {pid}, reason)
    ensures Reports(s, r, pid, first + last, reason)
  {
    ReportsWoken(s, m, pid, last, reason);
    ReportsWoken(m, r, pid, first, reason);
    forall q | q in Live(s)
      ensures Received(s.procs[q], r.procs[q], DownsFor(first + last, q, {pid}, reason))
    {
      ReceivedTwice(s.procs[q], m.procs[q], r.procs[q],
                    DownsFor(last, q, {pid}, reason), DownsFor(first, q, {pid}, reason));
    }
    assert Requeued(s, r) by { RequeuedTwice(s, m, r); }
  }

  /** One iteration of the backward loop. */
  function ReportStep(s: State, pid: Pid, reason: Term, i: nat): State
    requires i < |s.monitors|
  {
    var m := s.monitors[i];
    var spliced := s.(monitors := s.monitors[..i] + s.monitors[i + 1..]);
    if m.target != pid then (if m.owner == pid then spliced else s)
    else if IsLive(spliced, m.owner) then Deliver(spliced, m.owner, Down(m.ref, pid, reason))
    else spliced
  }

  lemma ReportStepMonitors(s: State, pid: Pid, reason: Term, i: nat)
    requires i < |s.monitors|
    ensures var m, r := s.monitors[i], ReportStep(s, pid, reason, i);
      r.monitors == s.monitors[..i] + (if m.owner == pid || m.target == pid then [] else [m]) + s.monitors[i + 1..]
  {
    var m := s.monitors[i];
    assert s.monitors == s.monitors[..i] + [m] + s.monitors[i + 1..];
    var spliced := s.(monitors := s.monitors[..i] + s.monitors[i + 1..]);
    assert spliced.monitors == s.monitors[..i] + [] + s.monitors[i + 1..];
    if IsLive(spliced, m.owner) {
      DeliverIs(spliced, m.owner, Down(m.ref, pid, reason));
    }
  }

  lemma ReportStepReports(s: State, pid: Pid, reason: Term, i: nat)
    requires i < |s.monitors|
    ensures Reports(s, ReportStep(s, pid, reason, i), pid, [s.monitors[i]], reason)
  {
    var m, r := s.monitors[i], ReportStep(s, pid, reason, i);
    var spliced := s.(monitors := s.monitors[..i] + s.monitors[i + 1..]);
    forall q { DownsOne(m, q, {pid}, reason); }
    if m.target == pid && IsLive(spliced, m.owner) {
      ReportsOne(spliced, pid, m, reason);
      ReportsFrom(s, spliced, r, pid, m, reason);
    } else {
      ReportsNothing(s, r, pid, [m], reason);
    }
  }

  lemma ReportsFrom(s: State, spliced: State, r: State, pid: Pid, m: Monitor, reason: Term)
    requires spliced == s.(monitors := spliced.monitors)
    requires Reports(spliced, r, pid, [m], reason)
    ensures Reports(s, r, pid, [m], reason)
  {
    assert Timers(spliced) == Timers(s) && Live(spliced) == Live(s);
  }

  lemma ReportsWoken(s: State, r: State, pid: Pid, handled: seq<Monitor>, reason: Term)
    requires Reports(s, r, pid, handled, reason)
    ensures Live(r) == Live(s) && OnlyWoken(s, r)
  {
  }

  lemma ReportUnfolds(s: State, pid: Pid, reason: Term, i: nat)
    requires 0 < i <= |s.monitors|
    ensures i - 1 <= |ReportStep(s, pid, reason, i - 1).monitors|
    ensures Report(s, pid, reason, i) == Report(ReportStep(s, pid, reason, i - 1), pid, reason, i - 1)
  {
    ReportStepMonitors(s, pid, reason, i - 1);
  }

  lemma Regroup<T>(a: seq<T>, b: seq<T>, c: seq<T>)
    ensures (a + b + c)[..|a|] == a && (a + b + c)[|a|..] == b + c
    ensures forall p: seq<T> :: p + (b + c) == (p + b) + c
  {
  }

  lemma {:induction false} ReportPrunes(s: State, pid: Pid, reason: Term, i: nat)
    requires i <= |s.monitors|
    ensures Report(s, pid, reason, i).monitors == Prune(s.monitors[..i], {pid}) + s.monitors[i..]
    decreases i
  {
    hide Report, ReportStep, Prune;
    if i == 0 {
      ReportPrunesNone(s, pid, reason);
    } else {
      var m, first, rest := s.monitors[i - 1], s.monitors[..i - 1], s.monitors[i..];
      var kept := if m.owner == pid || m.target == pid then [] else [m];
      var next := ReportStep(s, pid, reason, i - 1);
      ReportUnfolds(s, pid, reason, i);
      ReportStepMonitors(s, pid, reason, i - 1);
      Regroup(first, kept, rest);
      ReportPrunes(next, pid, reason, i - 1);
      assert s.monitors[..i] == first + [m];
      PruneAppend(first, m, {pid});
    }
  }

  lemma ReportPrunesNone(s: State, pid: Pid, reason: Term)
    ensures Report(s, pid, reason, 0).monitors == Prune(s.monitors[..0], {pid}) + s.monitors[0..]
  {
    assert s.monitors[..0] == [] && s.monitors[0..] == s.monitors;
  }

  lemma {:induction false} ReportReports(s: State, pid: Pid, reason: Term, i: nat)
    requires i <= |s.monitors|
    ensures Reports(s, Report(s, pid, reason, i), pid, s.monitors[..i], reason)
    decreases i
  {
    if i == 0 {
      assert s.monitors[..0] == [];
      ReportsNothing(s, s, pid, [], reason);
    } else {
      hide Reports, Report, ReportStep, DownsFor;
      var m, first := s.monitors[i - 1], s.monitors[..i - 1];
      var next := ReportStep(s, pid, reason, i - 1);
      ReportUnfolds(s, pid, reason, i);
      assert next.monitors[..i - 1] == first by { ReportStepMonitors(s, pid, reason, i - 1); }
      ReportStepReports(s, pid, reason, i - 1);
      ReportReports(next, pid, reason, i - 1);
      assert s.monitors[..i] == first + [m];
      forall q ensures DownsFor([m], q, {pid}, reason) + DownsFor(first, q, {pid}, reason)
                    == DownsFor(first + [m], q, {pid}, reason)
      {
        DownsAppend(first, m, q, pid, reason);
      }
      ReportsTwice(s, next, Report(next, pid, reason, i - 1), pid, [m], first, reason);
    }
  }

  lemma DownsAppend(first: seq<Monitor>, m: Monitor, q: Pid, pid: Pid, reason: Term)
    ensures DownsFor([m], q, {pid}, reason) + DownsFor(first, q, {pid}, reason)
         == DownsFor(first + [m], q, {pid}, reason)
  {
    DownsOne(m, q, {pid}, reason);
    PruneAppend(first, m, {pid});
  }

  // ---- The cascade ----

  lemma SurvivesFinish(p: Proc, m: Proc, r: Proc, q: Pid, monitors: seq<Monitor>,
                       killed: set<Pid>, pid: Pid, reached: set<Pid>, reason: Term)
    requires Survives(p, m, q, monitors, Unlinked(q, killed, pid, reached), killed, reason)
    requires m.links == r.links && Received(m, r, DownsFor(Prune(monitors, killed), q, {pid}, reason))
    requires q !in killed && (pid in p.links ==> q in reached)
    ensures Survives(p, r, q, monitors, killed + {pid}, killed + {pid}, reason)
  {
    var u, none: set<Pid> := Unlinked(q, killed, pid, reached), {};
    assert Survives(m, r, q, Prune(monitors, killed), none, {pid}, reason) by {
      WithoutNone(m.links, none);
      var exits: multiset<Msg> := multiset{};
      assert exits + DownsFor(Prune(monitors, killed), q, {pid}, reason)
          == DownsFor(Prune(monitors, killed), q, {pid}, reason);
    }
    hide Survives;
    SurvivesTwice(p, m, r, q, monitors, u, killed, none, {pid}, reason);
    assert u + none == u;
    if q !in reached { SurvivesWider(p, r, q, monitors, killed, killed + {pid}, pid, reason); }
  }

  lemma SurvivesWider(p: Proc, r: Proc, q: Pid, monitors: seq<Monitor>, unlinked: set<Pid>, killed: set<Pid>, pid: Pid, reason: Term)
    requires Survives(p, r, q, monitors, unlinked, killed, reason)
    requires pid !in p.links
    ensures Survives(p, r, q, monitors, unlinked + {pid}, killed, reason)
  {
    WithoutMembers(p.links, unlinked);
    WithoutNone(Without(p.links, unlinked), {pid});
    WithoutTwice(p.links, unlinked, {pid});
    ExitsSplit(p.links, unlinked, {pid}, reason);
  }

  /** The parts of `finish` put together. */
  lemma FinishJoins(s: State, d: State, sg: State, rp: State, pid: Pid, killed: set<Pid>, reached: set<Pid>, reason: Term)
    requires pid in Live(s) && Symmetric(s)
    requires reached == Members(s.procs[pid].links)
    requires d == Die(s, pid)
    requires Kills(d, sg, killed, pid, reached, reason)
    requires Reports(sg, rp, pid, sg.monitors, reason) && rp.monitors == Prune(sg.monitors, {pid})
    requires rp == sg.(procs := rp.procs, monitors := rp.monitors, runq := rp.runq, pendingTimers := rp.pendingTimers)
    ensures Kills(s, rp.(procs := rp.procs - {pid}), killed + {pid}, pid, {}, reason)
    ensures Live(rp.(procs := rp.procs - {pid})) == Live(s) - (killed + {pid})
  {
    hide Survives, Symmetric, SameCounters, Prune, Unname;
    var r := rp.(procs := rp.procs - {pid});
    var all := killed + {pid};
    DieIs(s, pid);
    FinishLive(s, d, sg, rp, pid, killed, reached, reason);
    FinishTables(s, d, sg, rp, pid, killed, reached, reason);
    forall q | q in Live(r)
      ensures Survives(s.procs[q], r.procs[q], q, s.monitors, Unlinked(q, all, pid, {}), all, reason)
    {
      FinishJoinsAt(s, d, sg, rp, pid, killed, reached, reason, q);
    }
    assert Requeued(s, r) by {
      KillsWoken(d, sg, killed, pid, reached, reason);
      ReportsWoken(sg, rp, pid, sg.monitors, reason);
      RequeuedFinish(s, d, sg, rp, r);
    }
  }

  lemma FinishLive(s: State, d: State, sg: State, rp: State, pid: Pid, killed: set<Pid>, reached: set<Pid>, reason: Term)
    requires pid in Live(s) && d == Die(s, pid)
    requires Kills(d, sg, killed, pid, reached, reason)
    requires Reports(sg, rp, pid, sg.monitors, reason)
    ensures pid !in killed && pid in rp.procs && rp.procs[pid].dead
    ensures var r, all := rp.(procs := rp.procs - {pid}), killed + {pid};
      && all <= Live(s) && Live(r) == Live(s) - all
      && Live(rp) == Live(sg) == Live(r) && Live(d) == Live(s) - {pid}
      && r.procs.Keys == s.procs.Keys - all
      && (forall x | x in s.procs && s.procs[x].dead :: r.procs[x] == s.procs[x])
  {
    hide Survives, Requeued, Received, Prune, Unname, Die, SameCounters;
    var r, all := rp.(procs := rp.procs - {pid}), killed + {pid};
    DieIs(s, pid);
    DieEffect(s, pid);
    ReportsWoken(sg, rp, pid, sg.monitors, reason);
    assert pid !in Live(d) && pid !in killed && sg.procs[pid] == d.procs[pid];
    assert Live(r) == Live(s) - all;
    assert r.procs.Keys == s.procs.Keys - all;
  }

  lemma FinishTables(s: State, d: State, sg: State, rp: State, pid: Pid, killed: set<Pid>, reached: set<Pid>, reason: Term)
    requires pid in Live(s) && d == Die(s, pid)
    requires Kills(d, sg, killed, pid, reached, reason)
    requires Reports(sg, rp, pid, sg.monitors, reason) && rp.monitors == Prune(sg.monitors, {pid})
    requires rp == sg.(procs := rp.procs, monitors := rp.monitors, runq := rp.runq, pendingTimers := rp.pendingTimers)
    requires pid in rp.procs && rp.procs[pid].dead
    ensures rp.monitors == Prune(s.monitors, killed + {pid})
    ensures rp.registry == Unname(s.registry, killed + {pid})
    ensures SameCounters(s, rp.(procs := rp.procs - {pid}))
  {
    hide Survives, Requeued, Received, Prune, Unname, Die, SameCounters;
    DieIs(s, pid);
    DieEffect(s, pid);
    SameCountersTwice(s, d, sg);
    SameCountersTwice(s, sg, rp);
    PruneTwice(s.monitors, killed, {pid});
    UnnameTwice(s.registry, {pid}, killed);
    assert {pid} + killed == killed + {pid};
    CountersAfterRemoval(s, rp, rp.(procs := rp.procs - {pid}), pid);
  }

  lemma CountersAfterRemoval(s: State, rp: State, r: State, pid: Pid)
    requires SameCounters(s, rp) && pid in rp.procs && rp.procs[pid].dead
    requires r == rp.(procs := rp.procs - {pid})
    ensures SameCounters(s, r)
  {
    assert Timers(r) == Timers(rp);
  }

  lemma FinishJoinsAt(s: State, d: State, sg: State, rp: State, pid: Pid, killed: set<Pid>, reached: set<Pid>,
                      reason: Term, q: Pid)
    requires pid in Live(s) && Symmetric(s) && q in Live(s)
    requires reached == Members(s.procs[pid].links)
    requires d.monitors == s.monitors && q in d.procs && d.procs[q] == s.procs[q]
    requires Kills(d, sg, killed, pid, reached, reason)
    requires q in Live(sg) && q !in killed
    requires Reports(sg, rp, pid, sg.monitors, reason)
    ensures Survives(s.procs[q], rp.procs[q], q, s.monitors, killed + {pid}, killed + {pid}, reason)
  {
    hide Survives, Requeued, Received, Prune, SameCounters;
    SurvivesFinish(s.procs[q], sg.procs[q], rp.procs[q], q, s.monitors, killed, pid, reached, reason);
  }

  lemma RequeuedFinish(s: State, d: State, sg: State, rp: State, r: State)
    requires d.runq == s.runq && r.runq == rp.runq
    requires Live(r) <= Live(rp) <= Live(sg) <= Live(d) <= Live(s)
    requires forall q | q in Live(d) :: d.procs[q] == s.procs[q]
    requires forall q | q in Live(r) :: r.procs[q] == rp.procs[q]
    requires Requeued(d, sg) && Requeued(sg, rp)
    requires OnlyWoken(d, sg) && OnlyWoken(sg, rp)
    ensures Requeued(s, r)
  {
    RequeuedTwice(d, sg, rp);
  }

  ghost predicate Abnormal(s: State, pid: Pid, normal: bool)
    requires pid in s.procs
  {
    s.procs[pid].abnormal || !normal
  }

  /** Everything one `finish` does, for any closed set `C` around the dying process. */
  lemma FinishKills(s: State, pid: Pid, normal: bool, C: set<Pid>)
    requires pid in Live(s) && Symmetric(s)
    requires pid in C && (Abnormal(s, pid, normal) ==> Closed(s, C))
    ensures var r, killed := Finish(s, pid, normal), Live(s) - Live(Finish(s, pid, normal));
      && Kills(s, r, killed, pid, {}, ReasonOf(s.procs[pid]))
      && pid in killed && killed <= C
      && (if Abnormal(s, pid, normal) then Closed(s, killed) else killed == {pid})
    decreases Live(s), 0
  {
    hide Kills, Reports, Closed, Symmetric, Die, Propagate, Report, Prune;
    var p := s.procs[pid];
    var reason, abnormal := ReasonOf(p), Abnormal(s, pid, normal);
    var d := Die(s, pid);
    DiePrepares(s, pid, C);
    PropagateKills(d, pid, p.links, reason, abnormal, C);
    var sg := Propagate(d, pid, p.links, reason, abnormal);
    var killed := Live(d) - Live(sg);
    var n := |sg.monitors|;
    var rp := Report(sg, pid, reason, n);
    assert sg.monitors[..n] == sg.monitors && sg.monitors[n..] == [];
    ReportReports(sg, pid, reason, n);
    ReportPrunes(sg, pid, reason, n);
    ReportKeeps(sg, pid, reason, n);
    FinishJoins(s, d, sg, rp, pid, killed, Members(p.links), reason);
    if abnormal { ClosedFinish(s, d, pid, killed); }
    assert Finish(s, pid, normal) == rp.(procs := rp.procs - {pid});
    assert Live(s) - (Live(s) - (killed + {pid})) == killed + {pid};
  }

  lemma DiePrepares(s: State, pid: Pid, C: set<Pid>)
    requires pid in Live(s) && Symmetric(s)
    ensures var d := Die(s, pid);
      && Live(d) == Live(s) - {pid}
      && Symmetric(d)
      && NoDuplicates(s.procs[pid].links)
      && (forall x | x in s.procs[pid].links && x in Live(d) :: pid in d.procs[x].links)
      && (pid in C && Closed(s, C) ==>
           Closed(d, C) && forall x | x in s.procs[pid].links && x in Live(d) && !d.procs[x].trapExit :: x in C)
  {
    DieIs(s, pid);
    DieEffect(s, pid);
  }

  lemma ClosedFinish(s: State, d: State, pid: Pid, killed: set<Pid>)
    requires pid in Live(s) && Symmetric(s) && d == Die(s, pid)
    requires Closed(d, killed)
    requires forall x | x in s.procs[pid].links && x in Live(d) && !d.procs[x].trapExit :: x in killed
    ensures Closed(s, killed + {pid})
  {
    DieIs(s, pid);
    DieEffect(s, pid);
  }

  lemma {:induction false} ReportKeeps(s: State, pid: Pid, reason: Term, i: nat)
    requires i <= |s.monitors|
    ensures var r := Report(s, pid, reason, i);
      r == s.(procs := r.procs, monitors := r.monitors, runq := r.runq, pendingTimers := r.pendingTimers)
    decreases i
  {
    if i != 0 {
      ReportUnfolds(s, pid, reason, i);
      ReportKeeps(ReportStep(s, pid, reason, i - 1), pid, reason, i - 1);
    }
  }

  lemma PropagateKills(s: State, pid: Pid, links: seq<Pid>, reason: Term, abnormal: bool, C: set<Pid>)
    requires pid !in Live(s) && Symmetric(s) && NoDuplicates(links)
    requires forall x | x in links && x in Live(s) :: pid in s.procs[x].links
    requires abnormal ==> Closed(s, C) && forall x | x in links && x in Live(s) && !s.procs[x].trapExit :: x in C
    ensures var r := Propagate(s, pid, links, reason, abnormal); var killed := Live(s) - Live(r);
      && Kills(s, r, killed, pid, Members(links), reason)
      && killed <= C
      && if abnormal then Closed(s, killed) && forall x | x in links && x in Live(s) && !s.procs[x].trapExit :: x in killed
         else killed == {}
    decreases Live(s), 1 + |links|
  {
    hide Kills, Closed, Symmetric, PropagateStep, Without;
    var r := Propagate(s, pid, links, reason, abnormal);
    if links == [] {
      KillsNothing(s, pid, reason);
      ClosedNothing(s);
      var none: set<Pid> := {};
      assert r == s && Live(s) - Live(r) == none && Members(links) == none;
    } else {
      var linked, rest := links[0], links[1..];
      var m := PropagateStep(s, pid, linked, reason, abnormal);
      PropagateStepKills(s, pid, linked, reason, abnormal, C);
      var k1 := Live(s) - Live(m);
      SymmetricKept(s, m, k1, pid, {linked}, reason);
      assert NoDuplicates(rest) && linked !in rest && forall x | x in rest :: x in links;
      PropagateUnfolds(s, pid, links, reason, abnormal);
      PropagatePrepares(s, m, k1, pid, linked, reason);
      if abnormal { ClosedLater(s, m, k1, pid, {linked}, reason, C); }
      PropagateKills(m, pid, rest, reason, abnormal, C);
      PropagateJoins(s, m, r, pid, links, reason, abnormal);
    }
  }

  lemma PropagateUnfolds(s: State, pid: Pid, links: seq<Pid>, reason: Term, abnormal: bool)
    requires links != []
    ensures Propagate(s, pid, links, reason, abnormal)
         == Propagate(PropagateStep(s, pid, links[0], reason, abnormal), pid, links[1..], reason, abnormal)
  {
    hide Finish;
    if IsLive(s, links[0]) {
      var cut := Signal(s, pid, links[0], reason);
      if !cut.procs[links[0]].trapExit && abnormal {
      } else {
        assert PropagateStep(s, pid, links[0], reason, abnormal) == cut;
      }
    }
  }

  lemma KillsLive(s: State, r: State, killed: set<Pid>, pid: Pid, reached: set<Pid>, reason: Term)
    requires Kills(s, r, killed, pid, reached, reason)
    ensures killed <= Live(s) && Live(r) == Live(s) - killed
  {
  }

  lemma PropagatePrepares(s: State, m: State, killed: set<Pid>, pid: Pid, linked: Pid, reason: Term)
    requires pid !in Live(s) && Kills(s, m, killed, pid, {linked}, reason)
    ensures Live(m) == Live(s) - killed
    ensures forall x | x in Live(m) :: m.procs[x].trapExit == s.procs[x].trapExit
    ensures forall x | x in Live(m) && x != linked && pid in s.procs[x].links :: pid in m.procs[x].links
  {
    forall x | x in Live(m) { WithoutMembers(s.procs[x].links, Unlinked(x, killed, pid, {linked})); }
  }

  /** The head of the list of links, then the rest. */
  lemma PropagateJoins(s: State, m: State, r: State, pid: Pid, links: seq<Pid>, reason: Term, abnormal: bool)
    requires links != [] && pid !in Live(s)
    requires var k1, k2 := Live(s) - Live(m), Live(m) - Live(r);
      && Kills(s, m, k1, pid, {links[0]}, reason)
      && Kills(m, r, k2, pid, Members(links[1..]), reason)
      && if abnormal then
           && Closed(s, k1) && Closed(m, k2)
           && (links[0] in Live(s) && !s.procs[links[0]].trapExit ==> links[0] in k1)
           && (forall x | x in links[1..] && x in Live(m) && !m.procs[x].trapExit :: x in k2)
         else k1 == {} && k2 == {}
    ensures var killed := Live(s) - Live(r);
      && Kills(s, r, killed, pid, Members(links), reason)
      && killed == (Live(s) - Live(m)) + (Live(m) - Live(r))
      && if abnormal then Closed(s, killed) && forall x | x in links && x in Live(s) && !s.procs[x].trapExit :: x in killed
         else killed == {}
  {
    hide Kills, Closed;
    var k1, k2 := Live(s) - Live(m), Live(m) - Live(r);
    PropagatePrepares(s, m, k1, pid, links[0], reason);
    var reached, rest := Members(links), Members(links[1..]);
    KillsLive(m, r, k2, pid, rest, reason);
    assert reached == {links[0]} + rest by {
      forall x ensures x in links <==> x == links[0] || x in links[1..] { assert links == [links[0]] + links[1..]; }
    }
    assert Live(s) - Live(r) == k1 + k2;
    KillsTwice(s, m, r, k1, k2, pid, {links[0]}, rest, reason);
    if abnormal {
      ClosedUnion(s, m, k1, k2, pid, {links[0]}, reason);
    } else {
      assert k1 + k2 == {};
    }
  }

  /** One iteration of the loop over links. */
  function PropagateStep(s: State, pid: Pid, linked: Pid, reason: Term, abnormal: bool): State {
    if !IsLive(s, linked) then s
    else
      var cut := Signal(s, pid, linked, reason);
      if !cut.procs[linked].trapExit && abnormal then Finish(Blame(cut, linked, reason), linked, false)
      else cut
  }

  lemma PropagateStepKills(s: State, pid: Pid, linked: Pid, reason: Term, abnormal: bool, C: set<Pid>)
    requires pid !in Live(s) && Symmetric(s)
    requires linked in Live(s) ==> pid in s.procs[linked].links
    requires abnormal ==> Closed(s, C) && (linked in Live(s) && !s.procs[linked].trapExit ==> linked in C)
    ensures var m := PropagateStep(s, pid, linked, reason, abnormal); var killed := Live(s) - Live(m);
      && Kills(s, m, killed, pid, {linked}, reason)
      && killed <= C
      && if abnormal then Closed(s, killed) && (linked in Live(s) && !s.procs[linked].trapExit ==> linked in killed)
         else killed == {}
    decreases Live(s), 1
  {
    hide Kills, Closed, Symmetric, Signal, Blame, Finish, Without;
    var m := PropagateStep(s, pid, linked, reason, abnormal);
    ClosedNothing(s);
    if linked !in Live(s) {
      KillsNothing(s, pid, reason);
      KillsElsewhere(s, pid, linked, reason);
      assert Live(s) - Live(m) == {};
    } else {
      SignalKills(s, pid, linked, reason);
      SignalIs(s, pid, linked, reason);
      if s.procs[linked].trapExit || !abnormal {
        assert Live(s) - Live(m) == {};
      } else {
        var b := Blame(Signal(s, pid, linked, reason), linked, reason);
        BlameIs(s, pid, linked, reason);
        BlamePrepares(s, b, pid, linked, reason, C);
        FinishKills(b, linked, false, C);
        BlamedKills(s, b, m, pid, linked, reason, Live(s) - Live(m));
      }
    }
  }

  lemma ClosedNothing(s: State)
    ensures Closed(s, {})
  {
  }

  lemma BlamePrepares(s: State, b: State, pid: Pid, linked: Pid, reason: Term, C: set<Pid>)
    requires Symmetric(s) && linked in Live(s) && pid !in Live(s)
    requires b == s.(procs := s.procs[linked := Blamed(s.procs[linked], pid, reason)])
    requires Closed(s, C)
    ensures Live(b) == Live(s) && Symmetric(b) && Closed(b, C)
  {
    WithoutMembers(s.procs[linked].links, {pid});
    assert Live(b) == Live(s);
  }

  lemma KillsElsewhere(s: State, pid: Pid, linked: Pid, reason: Term)
    requires linked !in Live(s) && Kills(s, s, {}, pid, {}, reason)
    ensures Kills(s, s, {}, pid, {linked}, reason)
  {
    assert forall q | q in Live(s) :: Unlinked(q, {}, pid, {}) == Unlinked(q, {}, pid, {linked});
  }

  /** A linked process about to be killed, with the link cut and the blame passed on. */
  function Blamed(p: Proc, pid: Pid, reason: Term): Proc {
    p.(links := Without(p.links, {pid}), abnormal := true, exitReason := Some(reason))
  }

  lemma BlameIs(s: State, pid: Pid, linked: Pid, reason: Term)
    requires linked in Live(s) && !s.procs[linked].trapExit
    ensures Blame(Signal(s, pid, linked, reason), linked, reason)
         == s.(procs := s.procs[linked := Blamed(s.procs[linked], pid, reason)])
  {
    var a := s.procs[linked].(links := Without(s.procs[linked].links, {pid}));
    var b := Blamed(s.procs[linked], pid, reason);
    assert s.procs[linked := a][linked := b] == s.procs[linked := b];
  }

  lemma BlamedKills(s: State, b: State, m: State, pid: Pid, linked: Pid, reason: Term, killed: set<Pid>)
    requires linked in Live(s) && pid !in Live(s)
    requires b == s.(procs := s.procs[linked := Blamed(s.procs[linked], pid, reason)])
    requires Kills(b, m, killed, linked, {}, reason) && linked in killed && Closed(b, killed)
    ensures Kills(s, m, killed, pid, {linked}, reason) && Closed(s, killed)
  {
    hide Survives, Received, Prune, Unname, Requeued, SameCounters, Closed;
    assert Live(b) == Live(s);
    CountersBlamed(s, b, m, linked);
    hide Unlinked;
    forall q | q in Live(m)
      ensures q != linked && Unlinked(q, killed, linked, {}) == Unlinked(q, killed, pid, {linked})
    {
      UnlinkedBlamed(q, killed, linked, pid);
    }
    RequeuedBlamed(s, b, m);
    BlamedClosed(s, b, pid, linked, reason, killed);
  }

  lemma UnlinkedBlamed(q: Pid, killed: set<Pid>, linked: Pid, pid: Pid)
    requires q != linked
    ensures Unlinked(q, killed, linked, {}) == Unlinked(q, killed, pid, {linked})
  {
  }

  lemma CountersBlamed(s: State, b: State, m: State, linked: Pid)
    requires linked in Live(s) && linked in b.procs && b == s.(procs := s.procs[linked := b.procs[linked]])
    requires b.procs[linked].timer == s.procs[linked].timer && !b.procs[linked].dead
    requires SameCounters(b, m)
    ensures SameCounters(s, m)
  {
    assert Timers(b) == Timers(s);
  }

  lemma RequeuedBlamed(s: State, b: State, m: State)
    requires Live(b) == Live(s) && b.runq == s.runq && Requeued(b, m)
    requires forall q | q in Live(s) :: b.procs[q].status == s.procs[q].status
    ensures Requeued(s, m)
  {
  }

  lemma BlamedClosed(s: State, b: State, pid: Pid, linked: Pid, reason: Term, killed: set<Pid>)
    requires linked in Live(s) && pid !in Live(s)
    requires b == s.(procs := s.procs[linked := Blamed(s.procs[linked], pid, reason)])
    requires Closed(b, killed)
    ensures Closed(s, killed)
  {
    assert Live(b) == Live(s);
    WithoutMembers(s.procs[linked].links, {pid});
  }
}
