/** Dead-function elimination: the worklist that decides which compiled functions are kept. */
module Reachability {
  import opened Collections

  type Atom = string

  datatype Key = Key(m: Atom, f: Atom, a: nat)

  datatype Reg = X(n: nat) | Y(n: nat)

  /** Constant terms, as far as captured functions are concerned. */
  datatype Term =
    | AtomTerm(name: Atom)
    | FunTerm(fun: Key)
    | TupleTerm(elems: seq<Term>)
    | ListTerm(elems: seq<Term>)
    | MapTerm(entries: seq<Entry>)
    | OtherTerm

  datatype Entry = Entry(key: Term, value: Term)

  datatype Source = AtomSource(name: Atom) | LiteralSource(term: Term) | OperandSource

  /**
   * Instructions, with the slots the analysis looks at and the labels they can jump to. `Op` is every tuple not
   * listed by name: its constant arguments, the register in its last slot if there is one, the registers it really
   * writes, its jumps, and whether it can fall through. `Ret` and the other bare atoms carry nothing.
   */
  datatype Instr =
    | Call(target: Key, tail: bool)
    | CallExt(target: Key, tail: bool)
    | CallFun(callee: Option<Reg>)
    | MakeFun(target: Key, dst: Reg, free: seq<Term>)
    | Move(src: Source, dst: Reg)
    | Bif(args: seq<Term>, dst: Reg, fail: seq<nat>)
    | GetMapElements(from: Term, dests: seq<Reg>, fail: seq<nat>)
    | Apply(arity: nat, tail: bool)
    | Label(l: nat)
    | Try(handler: nat)
    | Ret
    | Op(args: seq<Term>, last: Option<Reg>, dests: seq<Reg>, jumps: seq<nat>, falls: bool)

  type Body = seq<Instr>

  /** The functions by key, and the order in which the map lists its keys. */
  datatype Program = Program(fns: map<Key, Body>, order: seq<Key>)

  ghost predicate WellFormed(p: Program) {
    forall k :: k in p.order <==> k in p.fns
  }

  /** The overridden adapter entry, treated as a leaf. */
  const LEAF := Key("Elixir.Req.Finch", "run", 1)

  // ---- What one instruction refers to ----

  function EdgeRefs(i: Instr): seq<Key> {
    match i
    case Call(k, _) => [k]
    case CallExt(k, _) => [k]
    case MakeFun(k, _, _) => [k]
    case _ => []
  }

  function LiteralFuns(t: Term): seq<Key> {
    match t
    case FunTerm(k) => [k]
    case TupleTerm(ts) => LiteralFunsAll(ts)
    case ListTerm(ts) => LiteralFunsAll(ts)
    case MapTerm(es) => LiteralFunsEntries(es)
    case _ => []
  }

  function LiteralFunsAll(ts: seq<Term>): seq<Key> {
    if ts == [] then [] else LiteralFuns(ts[0]) + LiteralFunsAll(ts[1..])
  }

  function LiteralFunsEntries(es: seq<Entry>): seq<Key> {
    if es == [] then [] else LiteralFunsEntry(es[0]) + LiteralFunsEntries(es[1..])
  }

  function LiteralFunsEntry(e: Entry): seq<Key> {
    LiteralFuns(e.key) + LiteralFuns(e.value)
  }

  function LiteralFunsIn(i: Instr): seq<Key> {
    match i
    case MakeFun(_, _, free) => LiteralFunsAll(free)
    case Move(LiteralSource(t), _) => LiteralFuns(t)
    case Bif(args, _, _) => LiteralFunsAll(args)
    case GetMapElements(from, _, _) => LiteralFuns(from)
    case Op(args, _, _, _, _) => LiteralFunsAll(args)
    case _ => []
  }

  predicate WildDispatch(i: Instr) {
    i.CallExt? && i.target.m == "erlang" && i.target.f in ["spawn_opt", "apply", "spawn"]
  }

  function FlatMap<A, B>(s: seq<A>, f: A -> seq<B>): seq<B> {
    if s == [] then [] else f(s[0]) + FlatMap(s[1..], f)
  }

  function Filter<A>(s: seq<A>, f: A -> bool): seq<A> {
    if s == [] then [] else (if f(s[0]) then [s[0]] else []) + Filter(s[1..], f)
  }

  function Uniq<A(==)>(s: seq<A>): seq<A> {
    if s == [] then []
    else [s[0]] + Filter(Uniq(s[1..]), x => x != s[0])
  }

  lemma {:induction false} FlatMapHas<A, B>(s: seq<A>, f: A -> seq<B>, b: B)
    ensures b in FlatMap(s, f) <==> exists a | a in s :: b in f(a)
  {
    if s != [] {
      FlatMapHas(s[1..], f, b);
      assert s == [s[0]] + s[1..];
    }
  }

  lemma {:induction false} FilterHas<A>(s: seq<A>, f: A -> bool, a: A)
    ensures a in Filter(s, f) <==> a in s && f(a)
  {
    if s != [] {
      FilterHas(s[1..], f, a);
      assert s == [s[0]] + s[1..];
    }
  }

  lemma {:induction false} UniqHas<A>(s: seq<A>, a: A)
    ensures a in Uniq(s) <==> a in s
  {
    if s != [] {
      UniqHas(s[1..], a);
      FilterHas(Uniq(s[1..]), x => x != s[0], a);
      assert s == [s[0]] + s[1..];
    }
  }

  // ---- Constant names reaching an apply ----

  datatype Write = ConstAtom(name: Atom) | OtherWrite

  function RegWrites(i: Instr): seq<(Reg, Write)> {
    match i
    case Move(AtomSource(a), X(n)) => [(X(n), ConstAtom(a))]
    case Move(LiteralSource(AtomTerm(a)), X(n)) => [(X(n), ConstAtom(a))]
    case Move(_, X(n)) => [(X(n), OtherWrite)]
    case Bif(_, X(n), _) => [(X(n), OtherWrite)]
    case GetMapElements(_, _, _) => []
    case CallFun(Some(X(n))) => [(X(n), OtherWrite)]
    case Op(_, Some(X(n)), _, _, _) => [(X(n), OtherWrite)]
    case _ => []
  }

  function WritesTo(body: Body, k: nat): seq<(Reg, Write)> {
    Filter(FlatMap(body, RegWrites), (w: (Reg, Write)) => w.0 == X(k))
  }

  function ConstAtoms(w: (Reg, Write)): seq<Atom> {
    if w.1.ConstAtom? then [w.1.name] else []
  }

  function RegConstAtoms(body: Body, k: nat): (seq<Atom>, bool) {
    var writes := WritesTo(body, k);
    var atoms := FlatMap(writes, ConstAtoms);
    var allConst := writes != [] && forall w | w in writes :: w.1.ConstAtom?;
    (Uniq(atoms), allConst)
  }

  function ApplyArity(i: Instr): seq<nat> {
    if i.Apply? then [i.arity] else []
  }

  function Arities(body: Body): seq<nat> {
    Uniq(FlatMap(body, ApplyArity))
  }

  function OfArity(p: Program, n: nat): seq<Key> {
    Filter(p.order, (k: Key) => k.a == n)
  }

  /** Only constant names reach the apply of arity `n`, and there is at least one. */
  predicate ConstNames(body: Body, n: nat) {
    RegConstAtoms(body, n + 1).1 && RegConstAtoms(body, n + 1).0 != []
  }

  function ApplyTargetsAt(p: Program, body: Body, n: nat): seq<Key> {
    if ConstNames(body, n)
    then Filter(OfArity(p, n), (k: Key) => k.f in RegConstAtoms(body, n + 1).0)
    else OfArity(p, n)
  }

  function ApplyTargets(p: Program, body: Body): seq<Key> {
    FlatMap(Arities(body), n => ApplyTargetsAt(p, body, n))
  }

  // ---- The worklist ----

  predicate AnyWild(body: Body) {
    exists i | i in body :: WildDispatch(i)
  }

  /** Everything the worklist adds when it keeps function `k`. */
  function Successors(p: Program, k: Key): seq<Key>
    requires k in p.fns
  {
    var body := p.fns[k];
    var targets := if k == LEAF then [] else FlatMap(body, EdgeRefs) + FlatMap(body, LiteralFunsIn);
    var extra := if AnyWild(body) then p.order else ApplyTargets(p, body);
    targets + extra
  }

  function DoReach(p: Program, work: seq<Key>, seen: set<Key>): set<Key>
    decreases p.fns.Keys - seen, work
  {
    if work == [] then seen
    else if work[0] in seen || work[0] !in p.fns then DoReach(p, work[1..], seen)
    else DoReach(p, Successors(p, work[0]) + work[1..], seen + {work[0]})
  }

  function Reachable(p: Program, seeds: seq<Key>): set<Key> {
    DoReach(p, seeds, {})
  }

  ghost predicate Closed(p: Program, kept: set<Key>) {
    forall k, t :: k in kept && k in p.fns && t in Successors(p, k) && t in p.fns ==> t in kept
  }

  lemma {:induction false} DoReachCloses(p: Program, work: seq<Key>, seen: set<Key>)
    requires seen <= p.fns.Keys
    requires forall k, t :: k in seen && t in Successors(p, k) && t in p.fns ==> t in seen || t in work
    ensures var kept := DoReach(p, work, seen);
            && seen <= kept <= p.fns.Keys
            && Closed(p, kept)
            && forall k :: k in work && k in p.fns ==> k in kept
    decreases p.fns.Keys - seen, work
  {
    hide Successors;
    if work != [] {
      assert work == [work[0]] + work[1..];
      if work[0] in seen || work[0] !in p.fns {
        DoReachCloses(p, work[1..], seen);
      } else {
        DoReachCloses(p, Successors(p, work[0]) + work[1..], seen + {work[0]});
      }
    }
  }

  lemma {:induction false} DoReachLeast(p: Program, work: seq<Key>, seen: set<Key>, other: set<Key>)
    requires seen <= other && Closed(p, other)
    requires forall k :: k in work && k in p.fns ==> k in other
    ensures DoReach(p, work, seen) <= other
    decreases p.fns.Keys - seen, work
  {
    hide Successors;
    if work != [] {
      assert work == [work[0]] + work[1..];
      if work[0] in seen || work[0] !in p.fns {
        DoReachLeast(p, work[1..], seen, other);
      } else {
        DoReachLeast(p, Successors(p, work[0]) + work[1..], seen + {work[0]}, other);
      }
    }
  }

  /** The kept set is the least set of known functions with the seeds in it and every edge followed. */
  lemma ReachableIsLeast(p: Program, seeds: seq<Key>)
    ensures var kept := Reachable(p, seeds);
            && kept <= p.fns.Keys
            && Closed(p, kept)
            && (forall k :: k in seeds && k in p.fns ==> k in kept)
            && forall other :: Closed(p, other) && (forall k :: k in seeds && k in p.fns ==> k in other)
                 ==> kept <= other
  {
    hide Successors;
    DoReachCloses(p, seeds, {});
    forall other | Closed(p, other) && (forall k :: k in seeds && k in p.fns ==> k in other)
      ensures Reachable(p, seeds) <= other
    {
      DoReachLeast(p, seeds, {}, other);
    }
  }

  // ---- What the edges are ----

  lemma EdgeIsSuccessor(p: Program, k: Key, i: Instr, t: Key)
    requires k in p.fns && k != LEAF && i in p.fns[k] && (t in EdgeRefs(i) || t in LiteralFunsIn(i))
    ensures t in Successors(p, k)
  {
    FlatMapHas(p.fns[k], EdgeRefs, t);
    FlatMapHas(p.fns[k], LiteralFunsIn, t);
  }

  lemma WildIsSuccessor(p: Program, k: Key, i: Instr, t: Key)
    requires WellFormed(p) && k in p.fns && i in p.fns[k] && WildDispatch(i) && t in p.fns
    ensures t in Successors(p, k)
  {
  }

  lemma ArityListed(body: Body, i: Instr)
    requires i in body && i.Apply?
    ensures i.arity in Arities(body)
  {
    FlatMapHas(body, ApplyArity, i.arity);
    UniqHas(FlatMap(body, ApplyArity), i.arity);
  }

  lemma ApplyTargetAt(p: Program, body: Body, n: nat, t: Key)
    requires WellFormed(p)
    ensures t in ApplyTargetsAt(p, body, n) <==>
      t in p.fns && t.a == n && (ConstNames(body, n) ==> t.f in RegConstAtoms(body, n + 1).0)
  {
    hide RegConstAtoms;
    FilterHas(p.order, (k: Key) => k.a == n, t);
    FilterHas(OfArity(p, n), (k: Key) => k.f in RegConstAtoms(body, n + 1).0, t);
  }

  lemma ApplyIsSuccessor(p: Program, k: Key, i: Instr, t: Key)
    requires WellFormed(p) && k in p.fns && i in p.fns[k] && i.Apply? && t in p.fns && t.a == i.arity
    requires ConstNames(p.fns[k], i.arity) ==> t.f in RegConstAtoms(p.fns[k], i.arity + 1).0
    ensures t in Successors(p, k)
  {
    hide RegConstAtoms, ConstNames, Arities, ApplyTargetsAt, FlatMap, OfArity;
    var body := p.fns[k];
    ArityListed(body, i);
    ApplyTargetAt(p, body, i.arity, t);
    var f := n => ApplyTargetsAt(p, body, n);
    assert t in f(i.arity);
    FlatMapHas(Arities(body), f, t);
    assert ApplyTargets(p, body) == FlatMap(Arities(body), f);
    assert t in (if AnyWild(body) then p.order else ApplyTargets(p, body));
  }

  /** Where every listed write to `x[k]` is a constant atom, the names are exactly those atoms. */
  lemma ConstAtomsAre(body: Body, k: nat, i: Instr, w: (Reg, Write))
    requires i in body && w in RegWrites(i) && w.0 == X(k) && RegConstAtoms(body, k).1
    ensures w.1.ConstAtom? && w.1.name in RegConstAtoms(body, k).0
  {
    var f := (w: (Reg, Write)) => w.0 == X(k);
    FlatMapHas(body, RegWrites, w);
    FilterHas(FlatMap(body, RegWrites), f, w);
    assert w.1.ConstAtom?;
    FlatMapHas(WritesTo(body, k), ConstAtoms, w.1.name);
    UniqHas(FlatMap(WritesTo(body, k), ConstAtoms), w.1.name);
  }

  // ---- What the narrowing goes by, instruction by instruction ----

  /** A move of this atom into `x[k]`. */
  ghost predicate MovesAtom(i: Instr, k: nat, a: Atom) {
    i.Move? && i.dst == X(k) && (i.src == AtomSource(a) || i.src == LiteralSource(AtomTerm(a)))
  }

  /** Something that leaves, or is taken to leave, a value in `x[k]` that is not known at compile time. */
  ghost predicate LeavesUnknown(i: Instr, k: nat) {
    match i
    case Move(src, dst) => dst == X(k) && !src.AtomSource? && !(src.LiteralSource? && src.term.AtomTerm?)
    case Bif(_, dst, _) => dst == X(k)
    case CallFun(callee) => callee == Some(X(k))
    case Op(_, last, _, _, _) => last == Some(X(k))
    case _ => false
  }

  lemma WritesAre(i: Instr, k: nat, w: (Reg, Write))
    requires w.0 == X(k)
    ensures w in RegWrites(i) <==> (w.1.ConstAtom? && MovesAtom(i, k, w.1.name)) || (w.1.OtherWrite? && LeavesUnknown(i, k))
  {
    assert |RegWrites(i)| <= 1;
    assert RegWrites(i) != [] ==> RegWrites(i) == [RegWrites(i)[0]];
  }

  lemma WrittenTo(body: Body, k: nat, w: (Reg, Write))
    requires w.0 == X(k)
    ensures w in WritesTo(body, k) <==> exists i | i in body :: w in RegWrites(i)
  {
    FlatMapHas(body, RegWrites, w);
    FilterHas(FlatMap(body, RegWrites), (w: (Reg, Write)) => w.0 == X(k), w);
  }

  lemma WritesToThat(body: Body, k: nat, w: (Reg, Write))
    requires w in WritesTo(body, k)
    ensures w.0 == X(k)
  {
    FilterHas(FlatMap(body, RegWrites), (w: (Reg, Write)) => w.0 == X(k), w);
  }

  /** The names found are those that some move puts into the register. */
  lemma NamesAre(body: Body, k: nat, a: Atom)
    ensures a in RegConstAtoms(body, k).0 <==> exists i | i in body :: MovesAtom(i, k, a)
  {
    hide RegWrites, WritesTo, FlatMap;
    var w := (X(k), ConstAtom(a));
    WrittenTo(body, k, w);
    forall i | i in body ensures w in RegWrites(i) <==> MovesAtom(i, k, a) { WritesAre(i, k, w); }
    UniqHas(FlatMap(WritesTo(body, k), ConstAtoms), a);
    FlatMapHas(WritesTo(body, k), ConstAtoms, a);
    forall v | v in WritesTo(body, k) && a in ConstAtoms(v) ensures v == w {
      WritesToThat(body, k, v);
    }
    assert a in ConstAtoms(w);
  }

  /** Atoms are moved into `x[k]`, and no instruction anywhere leaves anything unknown there. */
  ghost predicate OnlyAtoms(body: Body, k: nat) {
    (exists i, a | i in body :: MovesAtom(i, k, a)) && forall i | i in body :: !LeavesUnknown(i, k)
  }

  lemma AllConstIff(body: Body, k: nat)
    ensures RegConstAtoms(body, k).1 <==> OnlyAtoms(body, k)
  {
    hide RegWrites, WritesTo, FlatMap, MovesAtom, LeavesUnknown;
    var writes, other := WritesTo(body, k), (X(k), OtherWrite);
    WrittenTo(body, k, other);
    forall i | i in body ensures other in RegWrites(i) <==> LeavesUnknown(i, k) { WritesAre(i, k, other); }
    if RegConstAtoms(body, k).1 {
      var w := writes[0];
      assert w in writes;
      WritesToThat(body, k, w);
      WrittenTo(body, k, w);
      var i :| i in body && w in RegWrites(i);
      WritesAre(i, k, w);
      assert MovesAtom(i, k, w.1.name);
    }
    if i, a :| i in body && MovesAtom(i, k, a) {
      var w := (X(k), ConstAtom(a));
      WritesAre(i, k, w);
      WrittenTo(body, k, w);
    }
    forall w | w in writes && !w.1.ConstAtom? ensures w == other { WritesToThat(body, k, w); }
  }

  lemma ConstNamesIff(body: Body, n: nat)
    ensures ConstNames(body, n) <==> OnlyAtoms(body, n + 1)
  {
    hide RegConstAtoms, MovesAtom, LeavesUnknown;
    var k := n + 1;
    AllConstIff(body, k);
    if i, a :| i in body && MovesAtom(i, k, a) {
      NamesAre(body, k, a);
      assert RegConstAtoms(body, k).0 != [];
    }
  }

  /**
   * The targets of an apply: the functions of its arity, all of them as soon as one instruction anywhere leaves an
   * unknown value in the name register or none moves an atom there; else those with a name that is moved there.
   */
  lemma NarrowedExactly(p: Program, body: Body, n: nat, t: Key)
    requires WellFormed(p)
    ensures t in ApplyTargetsAt(p, body, n) <==>
      t in p.fns && t.a == n && (OnlyAtoms(body, n + 1) ==> exists i | i in body :: MovesAtom(i, n + 1, t.f))
  {
    hide RegConstAtoms, ConstNames, ApplyTargetsAt, OnlyAtoms, MovesAtom;
    ApplyTargetAt(p, body, n, t);
    ConstNamesIff(body, n);
    NamesAre(body, n + 1, t.f);
  }

  // ---- Captured functions ----

  /** The parts of a constant term, keys and values of a map alike. */
  function PartsOf(t: Term): seq<Term> {
    match t
    case TupleTerm(ts) => ts
    case ListTerm(ts) => ts
    case MapTerm(es) => KeysAndValues(es)
    case _ => []
  }

  function KeysAndValues(es: seq<Entry>): (r: seq<Term>)
    ensures forall i | 0 <= i < |es| :: es[i].key in r && es[i].value in r
    ensures forall u | u in r :: exists i | 0 <= i < |es| :: u == es[i].key || u == es[i].value
  {
    if es == [] then []
    else
      assert es == [es[0]] + es[1..];
      [es[0].key, es[0].value] + KeysAndValues(es[1..])
  }

  /** `u` lies inside `t` at this place: each number picks a part. */
  ghost predicate LiesAt(t: Term, place: seq<nat>, u: Term)
    decreases place
  {
    if place == [] then t == u
    else place[0] < |PartsOf(t)| && LiesAt(PartsOf(t)[place[0]], place[1..], u)
  }

  lemma PartsFound(t: Term, k: Key)
    requires !t.FunTerm?
    ensures k in LiteralFuns(t) <==> exists u | u in PartsOf(t) :: k in LiteralFuns(u)
  {
    match t
    case TupleTerm(ts) => AllFound(ts, k);
    case ListTerm(ts) => AllFound(ts, k);
    case MapTerm(es) => EntriesFound(es, k);
    case _ =>
  }

  lemma {:induction false} AllFound(ts: seq<Term>, k: Key)
    ensures k in LiteralFunsAll(ts) <==> exists u | u in ts :: k in LiteralFuns(u)
  {
    if ts != [] {
      AllFound(ts[1..], k);
      assert LiteralFunsAll(ts) == LiteralFuns(ts[0]) + LiteralFunsAll(ts[1..]);
      assert ts == [ts[0]] + ts[1..];
      hide LiteralFuns, LiteralFunsAll;
      if u :| u in ts && k in LiteralFuns(u) { assert u == ts[0] || u in ts[1..]; }
    }
  }

  lemma {:induction false} EntriesFound(es: seq<Entry>, k: Key)
    ensures k in LiteralFunsEntries(es) <==> exists u | u in KeysAndValues(es) :: k in LiteralFuns(u)
  {
    if es != [] {
      EntriesFound(es[1..], k);
      assert KeysAndValues(es) == [es[0].key, es[0].value] + KeysAndValues(es[1..]);
      hide LiteralFuns, LiteralFunsEntries;
      assert LiteralFunsEntry(es[0]) == LiteralFuns(es[0].key) + LiteralFuns(es[0].value);
    }
  }

  /** The function lies somewhere inside. */
  ghost predicate LiesIn(t: Term, k: Key) {
    exists place :: LiesAt(t, place, FunTerm(k))
  }

  lemma LiesInPart(t: Term, k: Key)
    ensures LiesIn(t, k) <==> t == FunTerm(k) || exists u | u in PartsOf(t) :: LiesIn(u, k)
  {
    hide PartsOf;
    var parts := PartsOf(t);
    if t == FunTerm(k) { assert LiesAt(t, [], t); }
    if u :| u in parts && LiesIn(u, k) {
      var j :| 0 <= j < |parts| && parts[j] == u;
      var place :| LiesAt(u, place, FunTerm(k));
      assert ([j] + place)[1..] == place;
      assert LiesAt(t, [j] + place, FunTerm(k));
    }
    if place :| LiesAt(t, place, FunTerm(k)) && place != [] {
      assert parts[place[0]] in parts && LiesAt(parts[place[0]], place[1..], FunTerm(k));
    }
  }

  lemma NoParts(t: Term)
    requires t.FunTerm?
    ensures PartsOf(t) == []
  {
  }

  /** The functions found in a constant are exactly those that lie anywhere inside it. */
  lemma {:induction false} LiteralFunsAre(t: Term, k: Key)
    ensures k in LiteralFuns(t) <==> LiesIn(t, k)
  {
    LiesInPart(t, k);
    if t.FunTerm? {
      NoParts(t);
    } else {
      PartsFound(t, k);
      hide LiteralFuns, LiesIn, PartsOf;
      forall u | u in PartsOf(t) ensures k in LiteralFuns(u) <==> LiesIn(u, k) {
        PartSmaller(t, u);
        LiteralFunsAre(u, k);
      }
    }
  }

  lemma PartSmaller(t: Term, u: Term)
    requires u in PartsOf(t)
    ensures u < t
  {
  }
}
