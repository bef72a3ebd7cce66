/**
 * The state of the process scheduler and the transitions of its import calls,
 * as functions on one value. The class in Scheduler.dfy performs the same
 * transitions step by step on mutable fields.
 */
module SchedulerState {
  import opened Collections

  type Pid = nat

  /** A term that lives in the guest; only the identity of the atom `:normal` matters here. */
  datatype Term = NormalAtom | Opaque(id: int)

  /** What can sit in a mailbox: a sent term, an exit signal turned into a message, a monitor's report. */
  datatype Msg =
    | User(body: Term)
    | Exit(from: Pid, reason: Term)
    | Down(ref: nat, target: Pid, reason: Term)

  datatype Status = New | Running | Waiting | Runnable | Ready | Done

  /** A process record. `resolve` and `reject` say whether the parked stack's two handles are set. */
  datatype Proc = Proc(
    mailbox: seq<Msg>, cursor: nat, status: Status, links: seq<Pid>, trapExit: bool,
    exitReason: Option<Term>, abnormal: bool, resolve: bool, reject: bool,
    timer: bool, timedOut: bool, dead: bool)

  datatype Kind = Start | Resume
  datatype Job = Job(pid: Pid, kind: Kind)
  datatype Monitor = Monitor(owner: Pid, target: Pid, ref: nat)

  datatype State = State(
    procs: map<Pid, Proc>, registry: map<nat, Pid>, monitors: seq<Monitor>, runq: seq<Job>,
    nextPid: Pid, nextRef: nat, current: Pid, pendingTimers: int, mainDone: bool)

  const NEW_PROC := Proc([], 0, New, [], false, None, false, false, false, false, false, false)

  /** Process 1 runs the entry point from the start; everything else is empty. */
  const INITIAL := State(map[1 := NEW_PROC.(status := Running)], map[], [], [], 2, 1, 1, 0, false)

  ghost function Live(s: State): set<Pid> {
    set q | q in s.procs && !s.procs[q].dead
  }

  predicate IsLive(s: State, pid: Pid) {
    pid in s.procs && !s.procs[pid].dead
  }

  // ---- Sets of links and tables, as the code's Set and Map operations ----

  /** `links.delete` for every member of `gone`. */
  function Without(links: seq<Pid>, gone: set<Pid>): seq<Pid> {
    if links == [] then []
    else if links[0] in gone then Without(links[1..], gone)
    else [links[0]] + Without(links[1..], gone)
  }

  /** `links.add`. */
  function WithLink(links: seq<Pid>, pid: Pid): seq<Pid> {
    if pid in links then links else links + [pid]
  }

  function Unname(registry: map<nat, Pid>, gone: set<Pid>): map<nat, Pid> {
    map n | n in registry && registry[n] !in gone :: registry[n]
  }

  // ---- Timers, waking, delivery ----

  function SetProc(s: State, pid: Pid, p: Proc): State {
    s.(procs := s.procs[pid := p])
  }

  function ClearTimer(s: State, pid: Pid): State
    requires pid in s.procs
  {
    if s.procs[pid].timer then
      SetProc(s, pid, s.procs[pid].(timer := false)).(pendingTimers := s.pendingTimers - 1)
    else s
  }

  function Wake(s: State, pid: Pid): State {
    if !IsLive(s, pid) || s.procs[pid].status != Waiting then s
    else
      var woken := ClearTimer(SetProc(s, pid, s.procs[pid].(status := Runnable)), pid);
      woken.(runq := woken.runq + [Job(pid, Resume)])
  }

  function Deliver(s: State, pid: Pid, m: Msg): State
    requires pid in s.procs
  {
    Wake(SetProc(s, pid, s.procs[pid].(mailbox := s.procs[pid].mailbox + [m])), pid)
  }

  function UnwindParked(s: State, pid: Pid): State
    requires pid in s.procs
  {
    var c := ClearTimer(s, pid);
    if c.procs[pid].reject then SetProc(c, pid, c.procs[pid].(resolve := false, reject := false)) else c
  }

  // ---- Death ----

  function ReasonOf(p: Proc): Term {
    if p.exitReason.Some? then p.exitReason.value else NormalAtom
  }

  /** The head of `finish`: mark dead, unwind the parked stack, drop registered names. */
  function Die(s: State, pid: Pid): State
    requires pid in s.procs
  {
    var dead := SetProc(s, pid, s.procs[pid].(dead := true, status := Done));
    var unwound := UnwindParked(dead, pid);
    unwound.(registry := Unname(unwound.registry, {pid}))
  }

  /** What one dying process does to one linked process, short of killing it. */
  function Signal(s: State, pid: Pid, linked: Pid, reason: Term): State
    requires linked in s.procs
  {
    var L := s.procs[linked].(links := Without(s.procs[linked].links, {pid}));
    var cut := SetProc(s, linked, L);
    if L.trapExit then Deliver(cut, linked, Exit(pid, reason)) else cut
  }

  function Blame(s: State, pid: Pid, reason: Term): State
    requires pid in s.procs
  {
    SetProc(s, pid, s.procs[pid].(abnormal := true, exitReason := Some(reason)))
  }

  /** `finish`: the whole cascade started by the death of `pid`. */
  function Finish(s: State, pid: Pid, normal: bool): (r: State)
    ensures Live(r) <= Live(s)
    ensures IsLive(s, pid) ==> pid !in Live(r)
    decreases Live(s), 0
  {
    if !IsLive(s, pid) then s
    else
      var p := s.procs[pid];
      var dead := Die(s, pid);
      assert Live(dead) == Live(s) - {pid};
      var signalled := Propagate(dead, pid, p.links, ReasonOf(p), p.abnormal || !normal);
      var reported := Report(signalled, pid, ReasonOf(p), |signalled.monitors|);
      reported.(procs := reported.procs - {pid})
  }

  /** The loop of `finish` over the links of the dead process. */
  function Propagate(s: State, pid: Pid, links: seq<Pid>, reason: Term, abnormal: bool): (r: State)
    ensures Live(r) <= Live(s)
    decreases Live(s), 1 + |links|
  {
    if links == [] then s
    else
      var linked := links[0];
      var next :=
        if !IsLive(s, linked) then s
        else
          var cut := Signal(s, pid, linked, reason);
          assert Live(cut) == Live(s);
          if !cut.procs[linked].trapExit && abnormal then
            assert Live(Blame(cut, linked, reason)) == Live(s);
            Finish(Blame(cut, linked, reason), linked, false)
          else cut;
      Propagate(next, pid, links[1..], reason, abnormal)
  }

  /** The backward loop of `finish` over monitors `i - 1` down to 0. */
  function Report(s: State, pid: Pid, reason: Term, i: nat): (r: State)
    requires i <= |s.monitors|
    ensures Live(r) == Live(s)
    decreases i
  {
    if i == 0 then s
    else
      var m := s.monitors[i - 1];
      var spliced := s.(monitors := s.monitors[..i - 1] + s.monitors[i..]);
      if m.target == pid then
        Report(if IsLive(spliced, m.owner) then Deliver(spliced, m.owner, Down(m.ref, pid, reason)) else spliced,
               pid, reason, i - 1)
      else
        Report(if m.owner == pid then spliced else s, pid, reason, i - 1)
  }

  // ---- Import calls ----

  predicate CurrentLive(s: State) {
    IsLive(s, s.current)
  }

  /** `spawn`, `spawn_link` and `spawn_opt`; the new process is always `s.nextPid`. */
  function Spawn(s: State, link: bool): State
    requires link ==> CurrentLive(s)
  {
    var pid := s.nextPid;
    var born := SetProc(s, pid, NEW_PROC).(nextPid := pid + 1);
    var linked :=
      if !link then born
      else
        var child := SetProc(born, pid, born.procs[pid].(links := WithLink(born.procs[pid].links, s.current)));
        SetProc(child, s.current, child.procs[s.current].(links := WithLink(child.procs[s.current].links, pid)));
    linked.(runq := linked.runq + [Job(pid, Start)])
  }

  function Send(s: State, pid: Pid, msg: Msg): State {
    if IsLive(s, pid) then Deliver(s, pid, msg) else s
  }

  function SetTrapExit(s: State, on: bool): State
    requires CurrentLive(s)
  {
    SetProc(s, s.current, s.procs[s.current].(trapExit := on))
  }

  /** `exit/1`, up to the throw that unwinds the caller. */
  function ExitSelf(s: State, reason: Term): State
    requires CurrentLive(s)
  {
    Blame(s, s.current, reason)
  }

  function SignalExit(s: State, pid: Pid, reason: Term): State {
    if !IsLive(s, pid) then s
    else if s.procs[pid].trapExit then Deliver(s, pid, Exit(s.current, reason))
    else if reason != NormalAtom then Finish(Blame(s, pid, reason), pid, false)
    else s
  }

  function Register(s: State, name: nat, pid: Pid): State {
    s.(registry := s.registry[name := pid])
  }

  /** What `whereis` answers; 0 stands for no process. */
  function Whereis(s: State, name: nat): Pid {
    if name in s.registry then s.registry[name] else 0
  }

  function AddMonitor(s: State, target: Pid): State {
    s.(monitors := s.monitors + [Monitor(s.current, target, s.nextRef)], nextRef := s.nextRef + 1)
  }

  /** The monitors left when those with reference `ref` are spliced out. */
  function WithoutRef(monitors: seq<Monitor>, ref: nat): seq<Monitor> {
    if monitors == [] then []
    else if monitors[0].ref == ref then WithoutRef(monitors[1..], ref)
    else [monitors[0]] + WithoutRef(monitors[1..], ref)
  }

  function Demonitor(s: State, ref: nat): State {
    s.(monitors := WithoutRef(s.monitors, ref))
  }

  /** The message under the cursor of the current process, as long as the cursor is inside its mailbox. */
  function CurrentMsg(s: State): Option<Msg>
    requires CurrentLive(s)
  {
    var p := s.procs[s.current];
    if p.cursor < |p.mailbox| then Some(p.mailbox[p.cursor]) else None
  }

  function RecvRemove(s: State): State
    requires CurrentLive(s)
  {
    var p := s.procs[s.current];
    var rest := if p.cursor < |p.mailbox| then p.mailbox[..p.cursor] + p.mailbox[p.cursor + 1..] else p.mailbox;
    SetProc(s, s.current, p.(mailbox := rest, cursor := 0))
  }

  function RecvAdvance(s: State): State
    requires CurrentLive(s)
  {
    SetProc(s, s.current, s.procs[s.current].(cursor := s.procs[s.current].cursor + 1))
  }

  function RecvWait(s: State): State
    requires CurrentLive(s)
  {
    SetProc(s, s.current, s.procs[s.current].(status := Waiting, cursor := 0, resolve := true, reject := true))
  }

  function RecvWaitTimeout(s: State): State
    requires CurrentLive(s)
  {
    var w := RecvWait(s);
    SetProc(w, s.current, w.procs[s.current].(timedOut := false, timer := true)).(pendingTimers := w.pendingTimers + 1)
  }

  /** What a stack parked in `recv_wait_timeout` is resumed with: 0 falls through to the `after` body. */
  function TimeoutAnswer(p: Proc): nat {
    if p.timedOut then 0 else 1
  }

  function Yield(s: State): State
    requires CurrentLive(s)
  {
    SetProc(s, s.current, s.procs[s.current].(status := Ready, resolve := true, reject := true))
      .(runq := s.runq + [Job(s.current, Resume)])
  }

  // ---- Scheduler steps ----

  /** The callback of a receive timer. */
  function TimerFires(s: State, pid: Pid): State {
    if IsLive(s, pid) && s.procs[pid].status == Waiting then
      var fired := ClearTimer(SetProc(s, pid, s.procs[pid].(status := Ready, timedOut := true)), pid);
      fired.(runq := fired.runq + [Job(pid, Resume)])
    else s
  }

  function StartChild(s: State, pid: Pid): State {
    if IsLive(s, pid) then SetProc(s, pid, s.procs[pid].(status := Running)).(current := pid) else s
  }

  function ResumeProc(s: State, pid: Pid): State {
    if IsLive(s, pid) then
      SetProc(s, pid, s.procs[pid].(status := Running, resolve := false, reject := false)).(current := pid)
    else s
  }

  /** One turn of the main loop on a non-empty run queue. */
  function Dispatch(s: State): State
    requires s.runq != []
  {
    var popped := s.(runq := s.runq[1..]);
    if s.runq[0].kind == Start then StartChild(popped, s.runq[0].pid) else ResumeProc(popped, s.runq[0].pid)
  }

  /** The running stack completes; for process 1 the entry point's result ends the main loop. */
  function Return(s: State, normal: bool): State {
    if s.current == 1 then s.(mainDone := true) else Finish(s, s.current, normal)
  }
}
