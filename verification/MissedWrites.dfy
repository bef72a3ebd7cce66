/** The converse: whatever the worklist overlooks in a function lets some program reach a pruned one. */
module MissedWrites {
  import opened Collections
  import opened Reachability
  import opened CallMachine

  /** A run of `p` from a seed that calls a pruned function, or makes a value of one. */
  ghost predicate Escapes(p: Program, seeds: seq<Key>, states: seq<Config>, events: seq<Event>) {
    IsRun(p, seeds, states, events) && exists s | s in states :: Outside(p, Reachable(p, seeds), s)
  }

  function NamesOf(keys: seq<Key>): seq<Atom> {
    if keys == [] then [] else [keys[0].f] + NamesOf(keys[1..])
  }

  lemma {:induction false} NameListed(keys: seq<Key>, k: Key)
    requires k in keys
    ensures k.f in NamesOf(keys)
  {
    if k != keys[0] {
      NameListed(keys[1..], k);
    }
  }

  /** Some name is longer than all of these, so not among them. */
  lemma {:induction false} Longer(names: seq<Atom>) returns (bound: nat)
    ensures forall a | a in names :: |a| < bound
  {
    if names == [] {
      bound := 0;
    } else {
      var b := Longer(names[1..]);
      bound := if b <= |names[0]| then |names[0]| + 1 else b;
      assert names == [names[0]] + names[1..];
    }
  }

  /** A function name that nothing in `body` mentions. */
  lemma FreshName(k: Key, body: Body, n: nat) returns (f: Atom)
    ensures f != k.f && f != LEAF.f
    ensures forall t | t in FlatMap(body, EdgeRefs) || t in FlatMap(body, LiteralFunsIn) :: t.f != f
    ensures f !in RegConstAtoms(body, n + 1).0
  {
    hide FlatMap, EdgeRefs, LiteralFunsIn, RegConstAtoms;
    var keys := FlatMap(body, EdgeRefs) + FlatMap(body, LiteralFunsIn);
    var names := NamesOf(keys) + RegConstAtoms(body, n + 1).0 + [k.f, LEAF.f];
    var bound := Longer(names);
    f := seq(bound, _ => 'a');
    forall t | t in keys ensures t.f in names {
      NameListed(keys, t);
    }
    assert k.f in names && LEAF.f in names;
  }

  /** The program with `k` and one function that `k` does not mention. */
  function Trap(k: Key, body: Body, target: Key): Program {
    Program(map[k := body, target := []], [k, target])
  }

  lemma TrapPrunes(k: Key, body: Body, target: Key)
    requires target.f != k.f && !AnyWild(body)
    requires target.a in Arities(body) ==>
      ConstNames(body, target.a) && target.f !in RegConstAtoms(body, target.a + 1).0
    requires forall t | t in FlatMap(body, EdgeRefs) || t in FlatMap(body, LiteralFunsIn) :: t.f != target.f
    ensures WellFormed(Trap(k, body, target))
    ensures target !in Reachable(Trap(k, body, target), [k])
  {
    hide FlatMap, EdgeRefs, LiteralFunsIn, RegConstAtoms, ConstNames, ApplyTargetsAt, AnyWild, Reachable, Arities;
    var p := Trap(k, body, target);
    forall t | t in Successors(p, k) && t in p.fns ensures t == k {
      if t == target {
        TrapNotApplied(k, body, target);
      }
    }
    assert Closed(p, {k});
    ReachableIsLeast(p, [k]);
  }

  lemma TrapNotApplied(k: Key, body: Body, target: Key)
    requires target.a in Arities(body) ==>
      ConstNames(body, target.a) && target.f !in RegConstAtoms(body, target.a + 1).0
    ensures target !in ApplyTargets(Trap(k, body, target), body)
  {
    hide FlatMap, RegConstAtoms, ConstNames, ApplyTargetsAt, Arities;
    var p := Trap(k, body, target);
    var g := m => ApplyTargetsAt(p, body, m);
    assert ApplyTargets(p, body) == FlatMap(Arities(body), g);
    FlatMapHas(Arities(body), g, target);
    forall m | m in Arities(body) ensures target !in g(m) {
      ApplyTargetAt(p, body, m, target);
    }
  }

  // ---- Following a path ----

  /** The atom a constant move leaves, or else this one. */
  function Left(i: Instr, default: Atom): Atom {
    match i
    case Move(AtomSource(a), _) => a
    case Move(LiteralSource(AtomTerm(a)), _) => a
    case _ => default
  }

  /** The value a register gets from its origin, where the choice is free `default`. */
  function From(body: Body, o: Origin, default: Atom): Value {
    AtomValue(if o.WrittenAt? && o.pc < |body| then Left(body[o.pc], default) else default)
  }

  /** Module and name register at the end of the path. */
  function RegsAt(k: Key, body: Body, path: seq<Hop>, n: nat, m: Atom, f: Atom): map<nat, Value> {
    map r | r in {n, n + 1} && !OriginOf(k, body, path, r).Dead? ::
      From(body, OriginOf(k, body, path, r), if r == n then m else f)
  }

  function At(k: Key, pc: nat, regs: map<nat, Value>): Config {
    Config(k, pc, regs, {}, [], {})
  }

  lemma LeftCanBeWritten(i: Instr, default: Atom)
    ensures CanWrite(i, AtomValue(Left(i, default)))
  {
  }

  lemma HopStep(k: Key, body: Body, path: seq<Hop>, h: Hop, n: nat, m: Atom, f: Atom, p: Program)
    requires k in p.fns && k != LEAF && p.fns[k] == body && IsHop(body, h)
    ensures Step(p, At(k, h.from, RegsAt(k, body, path, n, m, f)), Do(h),
                 At(k, h.to, RegsAt(k, body, path + [h], n, m, f)))
  {
    hide IsHop, OriginOf, CanWrite, Left;
    HopFrom(body, h);
    var before, after := RegsAt(k, body, path, n, m, f), RegsAt(k, body, path + [h], n, m, f);
    forall r | r in after ensures MayHold(body[h.from], h.wrote, before, r, after[r]) {
      OriginExtends(k, body, path, h, r);
      LeftCanBeWritten(body[h.from], if r == n then m else f);
    }
  }

  lemma StartsAt(k: Key, body: Body, n: nat, m: Atom, f: Atom, p: Program)
    requires k in p.fns
    ensures Starts(p, [k], At(k, 0, RegsAt(k, body, [], n, m, f)))
  {
  }

  lemma RunExtends(p: Program, seeds: seq<Key>, states: seq<Config>, events: seq<Event>, e: Event, t: Config)
    requires IsRun(p, seeds, states, events) && Step(p, states[|events|], e, t)
    ensures IsRun(p, seeds, states + [t], events + [e])
  {
    hide Step, Starts;
  }

  /** The machine can follow any path through the function. */
  lemma {:induction false} FollowPath(k: Key, body: Body, path: seq<Hop>, pc: nat, n: nat, m: Atom, f: Atom, p: Program)
    returns (states: seq<Config>, events: seq<Event>)
    requires k in p.fns && k != LEAF && p.fns[k] == body && IsPath(body, path, pc)
    ensures IsRun(p, [k], states, events)
    ensures states[|events|] == At(k, pc, RegsAt(k, body, path, n, m, f))
    decreases |path|
  {
    hide Step, IsHop, RegsAt, IsRun;
    if path == [] {
      StartsAt(k, body, n, m, f, p);
      states, events := [At(k, 0, RegsAt(k, body, [], n, m, f))], [];
      OneStateRuns(p, k, states[0]);
    } else {
      var first, h := path[..|path| - 1], path[|path| - 1];
      states, events := FollowPath(k, body, first, h.from, n, m, f, p);
      HopStep(k, body, first, h, n, m, f, p);
      assert first + [h] == path;
      RunLength(p, [k], states, events);
      var t := At(k, pc, RegsAt(k, body, path, n, m, f));
      RunExtends(p, [k], states, events, Do(h), t);
      states, events := states + [t], events + [Do(h)];
    }
  }

  lemma RunLength(p: Program, seeds: seq<Key>, states: seq<Config>, events: seq<Event>)
    requires IsRun(p, seeds, states, events)
    ensures |states| == |events| + 1
  {
  }

  lemma OneStateRuns(p: Program, k: Key, s: Config)
    requires Starts(p, [k], s)
    ensures IsRun(p, [k], [s], [])
  {
  }

  /** A run and one more step, to a configuration outside. */
  lemma EscapeBy(p: Program, k: Key, states: seq<Config>, events: seq<Event>, e: Event, t: Config)
    requires IsRun(p, [k], states, events) && Step(p, states[|events|], e, t) && Outside(p, Reachable(p, [k]), t)
    ensures Escapes(p, [k], states + [t], events + [e])
  {
    RunExtends(p, [k], states, events, e, t);
    hide IsRun, Reachable, Outside, Step;
    assert t in states + [t];
  }

  // ---- Names ----

  lemma UnseenIsFree(body: Body, r: nat, o: Origin, default: Atom)
    requires Unseen(body, r, o) && (o.WrittenAt? ==> r in XDests(body[o.pc]))
    ensures From(body, o, default) == AtomValue(default)
  {
    hide RegWrites;
    if o.WrittenAt? && body[o.pc].Move? {
      MoveListed(body[o.pc], r);
    }
  }

  lemma MoveListed(i: Instr, r: nat)
    requires i.Move? && i.dst == X(r)
    ensures Listed(i, r)
  {
    assert |RegWrites(i)| == 1 && RegWrites(i)[0].0 == X(r);
    assert RegWrites(i)[0] in RegWrites(i);
  }

  /** What is said to be written somewhere is written there. */
  lemma {:induction false} OriginWrites(k: Key, body: Body, path: seq<Hop>, pc: nat, r: nat)
    requires IsPath(body, path, pc)
    ensures var o := OriginOf(k, body, path, r); o.WrittenAt? ==> o.pc < |body| && r in XDests(body[o.pc])
    decreases |path|
  {
    if path != [] {
      var h := path[|path| - 1];
      HopWrites(body, h);
      hide IsHop, XDests;
      OriginWrites(k, body, path[..|path| - 1], h.from, r);
    }
  }

  lemma HopWrites(body: Body, h: Hop)
    requires IsHop(body, h)
    ensures h.from < |body| && h.wrote <= XDests(body[h.from])
  {
  }

  lemma FromOf(body: Body, o: Origin, default: Atom)
    ensures var v := From(body, o, default); From(body, o, v.name) == v
  {
  }

  lemma BadPathEscapes(k: Key, body: Body, path: seq<Hop>, pc: nat)
    returns (p: Program, states: seq<Config>, events: seq<Event>)
    requires k != LEAF && !AnyWild(body) && BadPath(k, body, path, pc)
    ensures Around(k, body, p, [k]) && Escapes(p, [k], states, events)
  {
    hide ConstNames, AnyWild, Reachable, RegConstAtoms, FlatMap, IsPath, OriginOf, Unseen, Escapes, Step, IsRun,
      Arities, XDests, EdgeRefs, LiteralFunsIn, Analysable, Around;
    var n := body[pc].arity;
    var f := FreshName(k, body, n);
    var from := From(body, OriginOf(k, body, path, n), k.m);
    var target := Key(from.name, f, n);
    p := Trap(k, body, target);
    TrapPrunes(k, body, target);
    TrapAround(k, body, target);
    states, events := FollowPath(k, body, path, pc, n, from.name, f, p);
    FromOf(body, OriginOf(k, body, path, n), k.m);
    OriginWrites(k, body, path, pc, n + 1);
    UnseenIsFree(body, n + 1, OriginOf(k, body, path, n + 1), f);
    UnseenLives(body, n + 1, OriginOf(k, body, path, n + 1));
    var t := EnterTarget(p, k, pc, RegsAt(k, body, path, n, from.name, f), target);
    EscapeBy(p, k, states, events, Enter(target), t);
    states, events := states + [t], events + [Enter(target)];
  }

  lemma UnseenLives(body: Body, r: nat, o: Origin)
    requires Unseen(body, r, o)
    ensures !o.Dead?
  {
  }

  lemma EnterTarget(p: Program, k: Key, pc: nat, regs: map<nat, Value>, target: Key) returns (t: Config)
    requires k in p.fns && k != LEAF && pc < |p.fns[k]| && target in p.fns && Invokes(p.fns[k][pc], regs, target)
    requires target !in Reachable(p, [k])
    ensures Step(p, At(k, pc, regs), Enter(target), t) && Outside(p, Reachable(p, [k]), t)
  {
    hide Invokes, Reachable;
    t := Config(target, 0, map[], {}, if Tail(p.fns[k][pc]) then [] else [Frame(k, pc, {})], {});
  }

  // ---- Hidden dispatches ----

  /** An arity that no apply of `body` has. */
  lemma {:induction false} FreshArity(ns: seq<nat>) returns (n: nat)
    ensures forall m | m in ns :: m < n
  {
    if ns == [] {
      n := 0;
    } else {
      var b := FreshArity(ns[1..]);
      n := if b <= ns[0] then ns[0] + 1 else b;
      assert ns == [ns[0]] + ns[1..];
    }
  }

  lemma HiddenPathEscapes(k: Key, body: Body, path: seq<Hop>, pc: nat)
    returns (p: Program, states: seq<Config>, events: seq<Event>)
    requires k != LEAF && !AnyWild(body) && HiddenPath(body, path, pc)
    ensures Around(k, body, p, [k]) && Escapes(p, [k], states, events)
  {
    hide ConstNames, AnyWild, Reachable, RegConstAtoms, FlatMap, IsPath, OriginOf, Escapes, Step, IsRun, Arities,
      EdgeRefs, LiteralFunsIn, Analysable, Around;
    var n := FreshArity(Arities(body));
    var f := FreshName(k, body, n);
    var target := Key(k.m, f, n);
    p := Trap(k, body, target);
    TrapPrunes(k, body, target);
    TrapAround(k, body, target);
    states, events := FollowPath(k, body, path, pc, n, k.m, f, p);
    var regs := RegsAt(k, body, path, n, k.m, f);
    if body[pc].target.f == "hibernate" {
      var t := EnterTarget(p, k, pc, regs, target);
      EscapeBy(p, k, states, events, Enter(target), t);
      states, events := states + [t], events + [Enter(target)];
    } else {
      var t := MakeTarget(p, k, pc, regs, target);
      EscapeBy(p, k, states, events, Make(target), t);
      states, events := states + [t], events + [Make(target)];
    }
  }

  lemma MakeTarget(p: Program, k: Key, pc: nat, regs: map<nat, Value>, target: Key) returns (t: Config)
    requires k in p.fns && k != LEAF && pc < |p.fns[k]| && target in p.fns && Makes(p.fns[k][pc], target)
    requires target !in Reachable(p, [k])
    ensures Step(p, At(k, pc, regs), Make(target), t) && Outside(p, Reachable(p, [k]), t)
  {
    hide Makes, Reachable;
    t := At(k, pc, regs).(funs := {target});
    assert target in t.funs;
  }

  // ---- Both directions ----

  /** A program around `k`: nothing is overlooked in its other kept functions. */
  ghost predicate Around(k: Key, body: Body, p: Program, seeds: seq<Key>) {
    && WellFormed(p) && k in p.fns && p.fns[k] == body
    && forall x | x in p.fns && x in Reachable(p, seeds) && x != LEAF && x != k :: Analysable(x, p.fns[x])
  }

  /** No program around `k` has a run that reaches a pruned function. */
  ghost predicate Safe(k: Key, body: Body) {
    forall p, seeds, states, events :: Around(k, body, p, seeds) ==> !Escapes(p, seeds, states, events)
  }

  lemma TrapAround(k: Key, body: Body, target: Key)
    requires WellFormed(Trap(k, body, target)) && target != k
    ensures Around(k, body, Trap(k, body, target), [k])
  {
    hide Reachable;
    EmptyAnalysable(target);
  }

  lemma EmptyAnalysable(k: Key)
    ensures Analysable(k, [])
  {
  }

  lemma SafeAround(k: Key, body: Body, p: Program, seeds: seq<Key>, states: seq<Config>, events: seq<Event>)
    requires Analysable(k, body) && Around(k, body, p, seeds)
    ensures !Escapes(p, seeds, states, events)
  {
    hide Reachable, IsRun, Outside, Analysable;
    if IsRun(p, seeds, states, events) {
      KeptRuns(p, seeds, states, events);
    }
  }

  /**
   * Pruning is right about a function in every program around it exactly when the worklist overlooks nothing in it:
   * no path to a narrowed apply along which the name comes from elsewhere, and no path to a hidden dispatch.
   */
  lemma SafeIffAnalysable(k: Key, body: Body)
    requires k != LEAF
    ensures Safe(k, body) <==> Analysable(k, body)
  {
    hide Around, Escapes, BadPath, HiddenPath, AnyWild;
    if Analysable(k, body) {
      forall p, seeds, states, events | Around(k, body, p, seeds) ensures !Escapes(p, seeds, states, events) {
        SafeAround(k, body, p, seeds, states, events);
      }
    } else {
      var path, pc :| BadPath(k, body, path, pc) || HiddenPath(body, path, pc);
      if BadPath(k, body, path, pc) {
        var p, states, events := BadPathEscapes(k, body, path, pc);
      } else {
        var p, states, events := HiddenPathEscapes(k, body, path, pc);
      }
    }
  }

  // ---- Examples ----

  /** The case the analysis does miss: `get_map_elements` overwriting a name that a move put there. */
  const MAP_OVERWRITE: Body := [
    Move(AtomSource("Elixir.Mod"), X(0)),
    Move(AtomSource("handle"), X(1)),
    GetMapElements(OtherTerm, [X(1)], []),
    Apply(0, false)
  ]

  lemma MapElementsMissed(k: Key)
    requires k != LEAF
    ensures !Safe(k, MAP_OVERWRITE)
  {
    hide Safe;
    var body := MAP_OVERWRITE;
    MapOverwriteNarrowed();
    var path := [Hop(0, 1, {0}), Hop(1, 2, {1}), Hop(2, 3, {1})];
    MapOverwritePath(k, path);
    hide BadPath, AnyWild;
    SafeIffAnalysable(k, body);
  }

  lemma MapOverwritePath(k: Key, path: seq<Hop>)
    requires path == [Hop(0, 1, {0}), Hop(1, 2, {1}), Hop(2, 3, {1})] && ConstNames(MAP_OVERWRITE, 0)
    ensures BadPath(k, MAP_OVERWRITE, path, 3)
  {
    hide ConstNames;
    var body := MAP_OVERWRITE;
    assert Dests(body[0]) == [X(0)] && X(0) in Dests(body[0]);
    assert Dests(body[1]) == [X(1)] && X(1) in Dests(body[1]);
    assert Dests(body[2]) == [X(1)] && X(1) in Dests(body[2]);
    assert path[..2][..1] == path[..1] && path[..1][..0] == [];
    assert IsPath(body, path[..1], 1) && IsPath(body, path[..2], 2) && IsPath(body, path, 3);
    assert OriginOf(k, body, path[..1], 0) == WrittenAt(0) == OriginOf(k, body, path[..2], 0);
    assert OriginOf(k, body, path, 1) == WrittenAt(2) && OriginOf(k, body, path, 0) == WrittenAt(0);
  }

  lemma MapOverwriteNarrowed()
    ensures ConstNames(MAP_OVERWRITE, 0) && !AnyWild(MAP_OVERWRITE)
  {
    var body := MAP_OVERWRITE;
    assert FlatMap(body[3..], RegWrites) == [];
    assert body[2..][1..] == body[3..] && body[1..][1..] == body[2..];
    assert FlatMap(body[2..], RegWrites) == [];
    assert FlatMap(body[1..], RegWrites) == [(X(1), ConstAtom("handle"))];
    assert FlatMap(body, RegWrites) == [(X(0), ConstAtom("Elixir.Mod")), (X(1), ConstAtom("handle"))];
    var f := (w: (Reg, Write)) => w.0 == X(1);
    var all := FlatMap(body, RegWrites);
    var last := (X(1), ConstAtom("handle"));
    assert all[1..] == [last] && [last][1..] == [];
    assert Filter([last], f) == [last];
    assert Filter(all, f) == [last];
    assert WritesTo(body, 1) == Filter(all, f);
    ConstAtomsAre(body, 1, body[1], last);
  }

  /** Straight-line code that overwrites a parameter with a constant name before its apply is safe. */
  const PARAM_OVERWRITE: Body := [
    Move(AtomSource("Elixir.Mod"), X(1)),
    Move(AtomSource("handle"), X(2)),
    Apply(1, false)
  ]

  lemma OverwrittenParameterSafe(k: Key)
    requires k != LEAF
    ensures Safe(k, PARAM_OVERWRITE)
  {
    hide Safe;
    var body := PARAM_OVERWRITE;
    forall path, pc ensures !BadPath(k, body, path, pc) && !HiddenPath(body, path, pc) {
      OnlyStraight(k, path, pc);
    }
    hide BadPath, HiddenPath;
    SafeIffAnalysable(k, body);
  }

  lemma OnlyStraight(k: Key, path: seq<Hop>, pc: nat)
    ensures !BadPath(k, PARAM_OVERWRITE, path, pc) && !HiddenPath(PARAM_OVERWRITE, path, pc)
  {
    hide ConstNames;
    var body := PARAM_OVERWRITE;
    assert Dests(body[1]) == [X(2)] && X(2) in Dests(body[1]);
    if pc == 2 && IsPath(body, path, 2) {
      assert path != [];
      var h := path[|path| - 1];
      assert h.from == 1 && 2 in h.wrote;
      assert OriginOf(k, body, path, 2) == WrittenAt(1);
      MoveListed(body[1], 2);
    }
  }
}
