/** Runs of compiled code, and why the kept functions are enough for them. */
module CallMachine {
  import opened Collections
  import opened Reachability

  // ---- Control flow inside one function ----

  /** The registers an instruction really writes; a call leaves its answer in x0. */
  function Dests(i: Instr): seq<Reg> {
    match i
    case MakeFun(_, dst, _) => [dst]
    case Move(_, dst) => [dst]
    case Bif(_, dst, _) => [dst]
    case GetMapElements(_, dests, _) => dests
    case Op(_, _, dests, _, _) => dests
    case _ => if IsCall(i) then [X(0)] else []
  }

  function XDests(i: Instr): set<nat> {
    set r | r in Dests(i) && r.X? :: r.n
  }

  predicate IsCall(i: Instr) {
    i.Call? || i.CallExt? || i.Apply? || i.CallFun?
  }

  predicate Tail(i: Instr) {
    (i.Call? || i.CallExt? || i.Apply?) && i.tail
  }

  predicate Falls(i: Instr) {
    if i.Op? then i.falls else !Tail(i) && !i.Ret?
  }

  function Jumps(i: Instr): seq<nat> {
    match i
    case Bif(_, _, fail) => fail
    case GetMapElements(_, _, fail) => fail
    case Op(_, _, _, jumps, _) => jumps
    case Try(handler) => [handler]
    case _ => []
  }

  /** One move of control, with the x registers written on the way: all when falling through, any when jumping. */
  datatype Hop = Hop(from: nat, to: nat, wrote: set<nat>)

  ghost predicate IsHop(body: Body, h: Hop) {
    && h.from < |body|
    && var i := body[h.from];
       || (Falls(i) && h.to == h.from + 1 && h.wrote == XDests(i))
       || (h.to < |body| && body[h.to].Label? && body[h.to].l in Jumps(i) && h.wrote <= XDests(i))
  }

  /** Control can get from the entry of the function to `pc` along `path`. */
  ghost predicate IsPath(body: Body, path: seq<Hop>, pc: nat) {
    if path == [] then pc == 0
    else
      var h := path[|path| - 1];
      IsHop(body, h) && h.to == pc && IsPath(body, path[..|path| - 1], h.from)
  }

  // ---- Where the value of a register comes from ----

  datatype Origin = Dead | Param | WrittenAt(pc: nat)

  /** What put the value into `x[r]` that is there at the end of the path: calls leave nothing but x0. */
  function OriginOf(k: Key, body: Body, path: seq<Hop>, r: nat): Origin {
    if path == [] then (if r < k.a then Param else Dead)
    else
      var h := path[|path| - 1];
      if r in h.wrote then WrittenAt(h.from)
      else if h.from < |body| && IsCall(body[h.from]) then Dead
      else OriginOf(k, body, path[..|path| - 1], r)
  }

  ghost predicate Listed(i: Instr, r: nat) {
    exists w | w in RegWrites(i) :: w.0 == X(r)
  }

  /** A value the analysis of names knows nothing about. */
  ghost predicate Unseen(body: Body, r: nat, o: Origin) {
    o.Param? || (o.WrittenAt? && o.pc < |body| && !Listed(body[o.pc], r))
  }

  /** A path to a narrowed apply along which the name comes from a parameter or from a write that is not listed. */
  ghost predicate BadPath(k: Key, body: Body, path: seq<Hop>, pc: nat) {
    && pc < |body| && body[pc].Apply? && ConstNames(body, body[pc].arity)
    && IsPath(body, path, pc)
    && !OriginOf(k, body, path, body[pc].arity).Dead?
    && Unseen(body, body[pc].arity + 1, OriginOf(k, body, path, body[pc].arity + 1))
  }

  /** A call that picks a function at run time although the worklist does not count it among those that do. */
  predicate HiddenDispatch(i: Instr) {
    i.CallExt? && (i.target == Key("erlang", "hibernate", 3) || i.target == Key("erlang", "make_fun", 3))
  }

  ghost predicate HiddenPath(body: Body, path: seq<Hop>, pc: nat) {
    pc < |body| && HiddenDispatch(body[pc]) && IsPath(body, path, pc)
  }

  /** The worklist overlooks nothing in this function; that depends on its own code only. */
  ghost predicate Analysable(k: Key, body: Body) {
    AnyWild(body) || forall path, pc :: !BadPath(k, body, path, pc) && !HiddenPath(body, path, pc)
  }

  ghost predicate AllAnalysable(p: Program, kept: set<Key>) {
    forall k | k in kept && k in p.fns && k != LEAF :: Analysable(k, p.fns[k])
  }

  /**
   * The writes that the analysis of names does not see: those of `get_map_elements` and `make_fun`, the answer of a
   * call, and what another instruction writes besides its last slot.
   */
  lemma UnlistedWrites(i: Instr, r: nat)
    ensures r in XDests(i) && !Listed(i, r) <==>
      match i
      case GetMapElements(_, dests, _) => X(r) in dests
      case MakeFun(_, dst, _) => dst == X(r)
      case CallFun(callee) => r == 0 && callee != Some(X(0))
      case Op(_, last, dests, _, _) => X(r) in dests && last != Some(X(r))
      case Move(_, _) => false
      case Bif(_, _, _) => false
      case _ => r == 0 && IsCall(i)
  {
    hide RegWrites;
    if Listed(i, r) {
      var w :| w in RegWrites(i) && w.0 == X(r);
      WritesAre(i, r, w);
    }
    WritesAre(i, r, (X(r), OtherWrite));
    if i.Move? && i.src.AtomSource? { WritesAre(i, r, (X(r), ConstAtom(i.src.name))); }
    if i.Move? && i.src.LiteralSource? && i.src.term.AtomTerm? {
      WritesAre(i, r, (X(r), ConstAtom(i.src.term.name)));
    }
    assert X(r) in Dests(i) <==> r in XDests(i);
  }

  // ---- The machine ----

  datatype Value = AtomValue(name: Atom) | OtherValue

  /** An activation that waits for a call, or is left when the call raises. */
  datatype Frame = Frame(key: Key, pc: nat, handlers: set<nat>)

  /**
   * One thread of control: the running function, the next instruction, the live x registers, the exception handlers
   * set up so far, the waiting activations, and every function value made so far.
   */
  datatype Config = Config(cur: Key, pc: nat, regs: map<nat, Value>, handlers: set<nat>,
                           callers: seq<Frame>, funs: set<Key>)

  datatype Event =
    | Do(hop: Hop)
    | Make(fun: Key)
    | Enter(target: Key)
    | CallClosure(target: Key)
    | Return
    | Unwind(handler: nat)
    | Abandon

  /** The code that runs for `k`: the leaf's own body never does. */
  function Code(p: Program, k: Key): Body
    requires k in p.fns
  {
    if k == LEAF then [] else p.fns[k]
  }

  /** The value a write leaves: the atom for a constant move, anything for the others. */
  ghost predicate CanWrite(i: Instr, v: Value) {
    match i
    case Move(AtomSource(a), _) => v == AtomValue(a)
    case Move(LiteralSource(AtomTerm(a)), _) => v == AtomValue(a)
    case _ => true
  }

  /** What `x[r]` may hold after a hop. */
  ghost predicate MayHold(i: Instr, wrote: set<nat>, before: map<nat, Value>, r: nat, v: Value) {
    if r in wrote then CanWrite(i, v) else !IsCall(i) && r in before && v == before[r]
  }

  /** The builtins that run a function whose name they are given. */
  predicate RunsByName(k: Key) {
    k.m == "erlang"
    && (k.f == "apply" || k.f == "spawn" || k.f == "spawn_opt" || (k.f == "hibernate" && k.a == 3))
  }

  ghost predicate Invokes(i: Instr, regs: map<nat, Value>, target: Key) {
    match i
    case Call(k, _) => target == k
    case CallExt(k, _) => target == k || RunsByName(k)
    case Apply(n, _) =>
      && target.a == n
      && n in regs && regs[n] == AtomValue(target.m)
      && n + 1 in regs && regs[n + 1] == AtomValue(target.f)
    case _ => false
  }

  ghost predicate Makes(i: Instr, k: Key) {
    || k in LiteralFunsIn(i)
    || (i.MakeFun? && k == i.target)
    || (i.CallExt? && i.target == Key("erlang", "make_fun", 3))
  }

  /** `t` has just entered `k`, whose arguments are its only live registers. */
  ghost predicate Entered(s: Config, k: Key, tail: bool, t: Config) {
    && t.cur == k && t.pc == 0 && t.handlers == {} && t.funs == s.funs
    && (forall r :: r in t.regs ==> r < k.a)
    && t.callers == if tail then s.callers else [Frame(s.cur, s.pc, s.handlers)] + s.callers
  }

  /** Back in the caller, which goes on behind its call, or at it when that is a builtin still at work. */
  ghost predicate Returned(p: Program, s: Config, t: Config) {
    && s.callers != []
    && var f := s.callers[0];
       && t.cur == f.key && t.handlers == f.handlers && t.callers == s.callers[1..] && t.funs == s.funs
       && ((t.pc == f.pc && t.regs == map[])
           || (t.pc == f.pc + 1 && f.key in p.fns && f.pc < |Code(p, f.key)| && IsCall(Code(p, f.key)[f.pc])
               && Falls(Code(p, f.key)[f.pc]) && forall r :: r in t.regs ==> r == 0))
  }

  /**
   * The steps of the machine. `Do` passes one instruction; on a call it stands for a call that has been answered.
   * `Enter` follows a call into a function of the program, and `CallClosure` a call of a function value, which a
   * builtin may make too. Any instruction may raise, into a handler of its own activation or of a waiting one.
   */
  ghost predicate Step(p: Program, s: Config, e: Event, t: Config) {
    && s.cur in p.fns
    && var code := Code(p, s.cur);
       match e
       case Do(h) =>
         && h.from == s.pc && IsHop(code, h)
         && t.cur == s.cur && t.pc == h.to && t.callers == s.callers && t.funs == s.funs
         && (forall q | q in t.handlers && q !in s.handlers ::
              q < |code| && code[s.pc].Try? && code[q] == Label(code[s.pc].handler))
         && (forall r :: r in t.regs ==> MayHold(code[s.pc], h.wrote, s.regs, r, t.regs[r]))
       case Make(k) =>
         && s.pc < |code| && Makes(code[s.pc], k)
         && t == s.(funs := s.funs + {k})
       case Enter(k) =>
         && s.pc < |code| && k in p.fns && Invokes(code[s.pc], s.regs, k)
         && Entered(s, k, Tail(code[s.pc]), t)
       case CallClosure(k) =>
         && s.pc < |code| && (code[s.pc].CallFun? || code[s.pc].CallExt?)
         && k in p.fns && k in s.funs
         && Entered(s, k, false, t)
       case Return =>
         && s.pc < |code| && (code[s.pc].Ret? || Tail(code[s.pc]))
         && Returned(p, s, t)
       case Unwind(q) =>
         && q in s.handlers
         && t == s.(pc := q, regs := map[])
       case Abandon =>
         && s.callers != []
         && t == Config(s.callers[0].key, s.callers[0].pc, map[], s.callers[0].handlers, s.callers[1..], s.funs)
  }

  ghost predicate Starts(p: Program, seeds: seq<Key>, s: Config) {
    && s.cur in seeds && s.cur in p.fns && s.pc == 0
    && (forall r :: r in s.regs ==> r < s.cur.a)
    && s.handlers == {} && s.callers == [] && s.funs == {}
  }

  ghost predicate IsRun(p: Program, seeds: seq<Key>, states: seq<Config>, events: seq<Event>) {
    && |states| == |events| + 1
    && Starts(p, seeds, states[0])
    && forall i | 0 <= i < |events| :: Step(p, states[i], events[i], states[i + 1])
  }

  // ---- What every run keeps ----

  ghost predicate Gets(body: Body, pc: nat) {
    exists path :: IsPath(body, path, pc)
  }

  /** The registers hold what the path says: nothing where it says dead, and the atom of a constant move. */
  ghost predicate Fits(k: Key, body: Body, path: seq<Hop>, regs: map<nat, Value>) {
    forall r | r in regs ::
      var o := OriginOf(k, body, path, r);
      !o.Dead? && (o.WrittenAt? ==> o.pc < |body| && r in XDests(body[o.pc]) && CanWrite(body[o.pc], regs[r]))
  }

  ghost predicate Tracked(k: Key, body: Body, pc: nat, regs: map<nat, Value>) {
    exists path :: IsPath(body, path, pc) && Fits(k, body, path, regs)
  }

  ghost predicate AllGet(body: Body, pcs: set<nat>) {
    forall q | q in pcs :: Gets(body, q)
  }

  ghost predicate FrameOk(p: Program, kept: set<Key>, f: Frame) {
    f.key in kept && f.key in p.fns && Gets(Code(p, f.key), f.pc) && AllGet(Code(p, f.key), f.handlers)
  }

  ghost predicate Inside(p: Program, kept: set<Key>, s: Config) {
    && s.cur in kept && s.cur in p.fns
    && Tracked(s.cur, Code(p, s.cur), s.pc, s.regs)
    && AllGet(Code(p, s.cur), s.handlers)
    && (forall i | 0 <= i < |s.callers| :: FrameOk(p, kept, s.callers[i]))
    && (forall k :: k in s.funs && k in p.fns ==> k in kept)
  }

  lemma EntryTracked(k: Key, body: Body, regs: map<nat, Value>)
    requires forall r :: r in regs ==> r < k.a
    ensures Tracked(k, body, 0, regs)
  {
    assert IsPath(body, [], 0) && Fits(k, body, [], regs);
  }

  lemma NothingTracked(k: Key, body: Body, pc: nat)
    requires Gets(body, pc)
    ensures Tracked(k, body, pc, map[])
  {
    var path :| IsPath(body, path, pc);
    assert Fits(k, body, path, map[]);
  }

  lemma TrackedGets(k: Key, body: Body, pc: nat, regs: map<nat, Value>)
    requires Tracked(k, body, pc, regs)
    ensures Gets(body, pc)
  {
  }

  lemma PathExtends(body: Body, path: seq<Hop>, h: Hop)
    requires IsPath(body, path, h.from) && IsHop(body, h)
    ensures IsPath(body, path + [h], h.to)
  {
    hide IsHop;
    assert (path + [h])[..|path|] == path;
  }

  lemma HopGets(body: Body, h: Hop)
    requires Gets(body, h.from) && IsHop(body, h)
    ensures Gets(body, h.to)
  {
    hide IsHop, IsPath;
    var path :| IsPath(body, path, h.from);
    PathExtends(body, path, h);
  }

  lemma OriginExtends(k: Key, body: Body, path: seq<Hop>, h: Hop, r: nat)
    requires h.from < |body|
    ensures OriginOf(k, body, path + [h], r) ==
      if r in h.wrote then WrittenAt(h.from)
      else if IsCall(body[h.from]) then Dead
      else OriginOf(k, body, path, r)
  {
    assert (path + [h])[..|path|] == path;
  }

  lemma HopTracked(k: Key, body: Body, h: Hop, before: map<nat, Value>, after: map<nat, Value>)
    requires Tracked(k, body, h.from, before) && IsHop(body, h)
    requires forall r :: r in after ==> MayHold(body[h.from], h.wrote, before, r, after[r])
    ensures Tracked(k, body, h.to, after)
  {
    hide IsPath, OriginOf, XDests;
    var path :| IsPath(body, path, h.from) && Fits(k, body, path, before);
    PathExtends(body, path, h);
    forall r | r in after
      ensures var o := OriginOf(k, body, path + [h], r);
        !o.Dead? && (o.WrittenAt? ==> o.pc < |body| && r in XDests(body[o.pc]) && CanWrite(body[o.pc], after[r]))
    {
      OriginExtends(k, body, path, h, r);
      assert MayHold(body[h.from], h.wrote, before, r, after[r]);
    }
    assert Fits(k, body, path + [h], after);
  }

  /** A write the analysis lists, where it found only constants, leaves one of its names. */
  lemma ListedWriteIsName(body: Body, i: Instr, n: nat, v: Value)
    requires i in body && ConstNames(body, n) && n + 1 in XDests(i) && Listed(i, n + 1) && CanWrite(i, v)
    ensures v.AtomValue? && v.name in RegConstAtoms(body, n + 1).0
  {
    var w :| w in RegWrites(i) && w.0 == X(n + 1);
    ConstAtomsAre(body, n + 1, i, w);
  }

  /** At a narrowed apply with both registers live the name is one of the names found. */
  lemma NameFound(k: Key, body: Body, pc: nat, regs: map<nat, Value>)
    requires !AnyWild(body) && Analysable(k, body) && Tracked(k, body, pc, regs)
    requires pc < |body| && body[pc].Apply? && ConstNames(body, body[pc].arity)
    requires body[pc].arity in regs && body[pc].arity + 1 in regs
    ensures regs[body[pc].arity + 1].AtomValue?
    ensures regs[body[pc].arity + 1].name in RegConstAtoms(body, body[pc].arity + 1).0
  {
    hide ConstNames, RegConstAtoms, IsPath, OriginOf, XDests, AnyWild, Listed, HiddenPath, CanWrite;
    var n := body[pc].arity;
    var path :| IsPath(body, path, pc) && Fits(k, body, path, regs);
    assert !BadPath(k, body, path, pc);
    var o := OriginOf(k, body, path, n + 1);
    ListedWriteIsName(body, body[o.pc], n, regs[n + 1]);
  }

  lemma ClosedAt(p: Program, kept: set<Key>, k: Key, t: Key)
    requires Closed(p, kept) && k in kept && k in p.fns && t in p.fns && t in Successors(p, k)
    ensures t in kept
  {
    hide Successors;
  }

  lemma WildEverywhere(p: Program, k: Key, t: Key)
    requires WellFormed(p) && k in p.fns && AnyWild(p.fns[k]) && t in p.fns
    ensures t in Successors(p, k)
  {
  }

  lemma NotHidden(k: Key, body: Body, pc: nat)
    requires !AnyWild(body) && Analysable(k, body) && Gets(body, pc) && pc < |body|
    ensures !HiddenDispatch(body[pc])
  {
    hide IsPath, BadPath, HiddenDispatch, AnyWild;
    var path :| IsPath(body, path, pc);
    assert !HiddenPath(body, path, pc);
  }

  /** What an instruction calls in its function's own code is among the edges of that function. */
  lemma InvokedFollows(p: Program, k: Key, pc: nat, regs: map<nat, Value>, t: Key)
    requires WellFormed(p) && k in p.fns && k != LEAF && !AnyWild(p.fns[k]) && Analysable(k, p.fns[k])
    requires Tracked(k, p.fns[k], pc, regs) && pc < |p.fns[k]| && t in p.fns && Invokes(p.fns[k][pc], regs, t)
    ensures t in Successors(p, k)
  {
    hide ConstNames, RegConstAtoms, AnyWild, Successors, WildDispatch, Analysable, Tracked, EdgeRefs;
    var body := p.fns[k];
    TrackedGets(k, body, pc, regs);
    NotHidden(k, body, pc);
    if body[pc].Apply? {
      if ConstNames(body, body[pc].arity) { NameFound(k, body, pc, regs); }
      ApplyIsSuccessor(p, k, body[pc], t);
    } else if body[pc].CallExt? && RunsByName(body[pc].target) {
      WildIsSuccessor(p, k, body[pc], t);
    } else {
      CallListed(body[pc], t);
      EdgeIsSuccessor(p, k, body[pc], t);
    }
  }

  lemma CallListed(i: Instr, t: Key)
    requires (i.Call? || i.CallExt?) && i.target == t
    ensures t in EdgeRefs(i)
  {
  }

  lemma InvokedKept(p: Program, kept: set<Key>, s: Config, t: Key)
    requires WellFormed(p) && Closed(p, kept) && AllAnalysable(p, kept) && Inside(p, kept, s)
    requires s.pc < |Code(p, s.cur)| && t in p.fns && Invokes(Code(p, s.cur)[s.pc], s.regs, t)
    ensures t in kept
  {
    hide Successors, Closed, Tracked, Invokes, AnyWild, Analysable;
    if AnyWild(p.fns[s.cur]) {
      WildEverywhere(p, s.cur, t);
    } else {
      InvokedFollows(p, s.cur, s.pc, s.regs, t);
    }
    ClosedAt(p, kept, s.cur, t);
  }

  lemma MadeKept(p: Program, kept: set<Key>, s: Config, t: Key)
    requires WellFormed(p) && Closed(p, kept) && AllAnalysable(p, kept) && Inside(p, kept, s)
    requires s.pc < |Code(p, s.cur)| && t in p.fns && Makes(Code(p, s.cur)[s.pc], t)
    ensures t in kept
  {
    hide Successors, Closed, Tracked, LiteralFunsIn, AnyWild, Analysable;
    var body := p.fns[s.cur];
    if AnyWild(body) {
      WildEverywhere(p, s.cur, t);
    } else {
      TrackedGets(s.cur, body, s.pc, s.regs);
      NotHidden(s.cur, body, s.pc);
      EdgeIsSuccessor(p, s.cur, body[s.pc], t);
    }
    ClosedAt(p, kept, s.cur, t);
  }

  lemma DoInside(p: Program, kept: set<Key>, s: Config, h: Hop, t: Config)
    requires Inside(p, kept, s) && Step(p, s, Do(h), t)
    ensures Inside(p, kept, t)
  {
    hide Tracked, MayHold, FrameOk, Gets, IsHop;
    var code := Code(p, s.cur);
    HopFrom(code, h);
    HopTracked(s.cur, code, h, s.regs, t.regs);
    TrackedGets(s.cur, code, s.pc, s.regs);
    forall q | q in t.handlers ensures Gets(code, q) {
      if q !in s.handlers {
        TryGets(code, s.pc, q);
      }
    }
  }

  lemma HopFrom(body: Body, h: Hop)
    requires IsHop(body, h)
    ensures h.from < |body|
  {
  }

  lemma TryGets(body: Body, pc: nat, q: nat)
    requires Gets(body, pc) && pc < |body| && q < |body| && body[pc].Try? && body[q] == Label(body[pc].handler)
    ensures Gets(body, q)
  {
    hide Gets;
    HopGets(body, Hop(pc, q, {}));
  }

  lemma EnteredInside(p: Program, kept: set<Key>, s: Config, k: Key, tail: bool, t: Config)
    requires Inside(p, kept, s) && k in kept && k in p.fns && Entered(s, k, tail, t)
    ensures Inside(p, kept, t)
  {
    hide Tracked, Gets;
    TrackedGets(s.cur, Code(p, s.cur), s.pc, s.regs);
    EntryTracked(k, Code(p, k), t.regs);
  }

  lemma ReturnedInside(p: Program, kept: set<Key>, s: Config, t: Config)
    requires Inside(p, kept, s) && Returned(p, s, t)
    ensures Inside(p, kept, t)
  {
    hide Tracked, Gets;
    var f := s.callers[0];
    assert FrameOk(p, kept, f);
    var code := Code(p, f.key);
    NothingTracked(f.key, code, f.pc);
    if t.pc != f.pc {
      CallHop(code, f.pc);
      HopTracked(f.key, code, Hop(f.pc, f.pc + 1, {0}), map[], t.regs);
    }
  }

  lemma CallHop(body: Body, pc: nat)
    requires pc < |body| && IsCall(body[pc]) && Falls(body[pc])
    ensures IsHop(body, Hop(pc, pc + 1, {0}))
    ensures forall v :: CanWrite(body[pc], v)
  {
    assert Dests(body[pc]) == [X(0)];
    assert X(0) in Dests(body[pc]);
  }

  lemma StepInside(p: Program, kept: set<Key>, s: Config, e: Event, t: Config)
    requires WellFormed(p) && Closed(p, kept) && AllAnalysable(p, kept)
    requires Inside(p, kept, s) && Step(p, s, e, t)
    ensures Inside(p, kept, t)
  {
    hide Closed, AllAnalysable, Tracked, Gets, Makes, Invokes, Entered, Returned;
    match e
    case Do(h) => DoInside(p, kept, s, h, t);
    case Make(k) => if k in p.fns { MadeKept(p, kept, s, k); }
    case Enter(k) =>
      InvokedKept(p, kept, s, k);
      EnteredInside(p, kept, s, k, Tail(Code(p, s.cur)[s.pc]), t);
    case CallClosure(k) => EnteredInside(p, kept, s, k, false, t);
    case Return => ReturnedInside(p, kept, s, t);
    case Unwind(q) => NothingTracked(s.cur, Code(p, s.cur), q);
    case Abandon =>
      assert FrameOk(p, kept, s.callers[0]);
      NothingTracked(t.cur, Code(p, t.cur), t.pc);
  }

  lemma StartInside(p: Program, seeds: seq<Key>, kept: set<Key>, s: Config)
    requires Starts(p, seeds, s) && forall k :: k in seeds && k in p.fns ==> k in kept
    ensures Inside(p, kept, s)
  {
    hide Tracked;
    EntryTracked(s.cur, Code(p, s.cur), s.regs);
  }

  lemma {:induction false} RunInside(
    p: Program, seeds: seq<Key>, kept: set<Key>, states: seq<Config>, events: seq<Event>, n: nat)
    requires WellFormed(p) && Closed(p, kept) && AllAnalysable(p, kept)
    requires forall k :: k in seeds && k in p.fns ==> k in kept
    requires IsRun(p, seeds, states, events) && n < |states|
    ensures Inside(p, kept, states[n])
    decreases n
  {
    hide Step, Closed, AllAnalysable, Starts, Inside;
    if n == 0 {
      StartInside(p, seeds, kept, states[0]);
    } else {
      RunInside(p, seeds, kept, states, events, n - 1);
      StepInside(p, kept, states[n - 1], events[n - 1], states[n]);
    }
  }

  /** A configuration that runs, waits in, or holds a value of a function that was pruned. */
  ghost predicate Outside(p: Program, kept: set<Key>, s: Config) {
    || s.cur !in kept
    || (exists f | f in s.callers :: f.key !in kept)
    || (exists k | k in s.funs :: k in p.fns && k !in kept)
  }

  lemma InsideNotOutside(p: Program, kept: set<Key>, s: Config)
    requires Inside(p, kept, s)
    ensures !Outside(p, kept, s)
  {
    hide Tracked, AllGet, Gets;
    forall f | f in s.callers ensures f.key in kept {
      var i :| 0 <= i < |s.callers| && s.callers[i] == f;
    }
  }

  /** No run from an export calls a pruned function or makes a value of one. */
  lemma KeptRuns(p: Program, seeds: seq<Key>, states: seq<Config>, events: seq<Event>)
    requires WellFormed(p) && AllAnalysable(p, Reachable(p, seeds)) && IsRun(p, seeds, states, events)
    ensures forall s | s in states :: !Outside(p, Reachable(p, seeds), s)
  {
    hide Closed, AllAnalysable, Reachable, IsRun, Inside, Outside;
    ReachableIsLeast(p, seeds);
    forall n | 0 <= n < |states| ensures !Outside(p, Reachable(p, seeds), states[n]) {
      RunInside(p, seeds, Reachable(p, seeds), states, events, n);
      InsideNotOutside(p, Reachable(p, seeds), states[n]);
    }
  }
}
