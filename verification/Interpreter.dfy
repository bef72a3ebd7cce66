/** The bytecode interpreter: operands, one instruction, and runs of a code table. */
module Interpreter {
  import opened Collections

  type Name = string

  datatype List<T> = Nil | Cons(head: T, tail: List<T>)

  /** Terms: integers, atoms and (possibly improper) lists. */
  datatype Value = Int(n: int) | Atom(a: Name) | Empty | Pair(hd: Value, tl: Value)

  datatype Operand =
    | X(r: nat)
    | Y(r: nat)
    | Integer(n: int)
    | AtomOp(a: Name)
    | Literal(v: Value)
    | NilOp

  datatype Arith = Plus | Minus | Times

  datatype Test = IsNonemptyList(s: Operand) | IsNil(s: Operand) | IsEqExact(a: Operand, b: Operand)
                | IsLt(a: Operand, b: Operand) | IsGe(a: Operand, b: Operand)

  datatype Instr =
    | Move(src: Operand, dst: Operand)
    | GcBif(op: Arith, a: Operand, b: Operand, dst: Operand)
    | SelectVal(src: Operand, default: int, pairs: List<(int, int)>)
    | TestElse(test: Test, fail: int)
    | GetList(src: Operand, h: Operand, t: Operand)
    | PutList(h: Operand, t: Operand, dst: Operand)
    | Call(f: Name, arity: nat)
    | CallOnly(f: Name, arity: nat)
    | CallLast(f: Name, arity: nat)
    | Jump(lbl: int)
    | ReturnX0
    | Ignored

  type Instrs = List<Instr>
  type Blocks = List<(int, Instrs)>

  datatype Function = Function(name: Name, arity: nat, entry: int, blocks: Blocks)

  type Code = List<Function>

  /** A point of execution inside one function. */
  datatype State = State(instrs: Instrs, blocks: Blocks, xs: seq<Value>, ys: seq<Value>)

  // ---- Structures ----

  function Lookup(code: Code, f: Name, a: nat): Option<Function> {
    match code
    case Nil => None
    case Cons(fn, rest) => if fn.name == f && fn.arity == a then Some(fn) else Lookup(rest, f, a)
  }

  function Block(blocks: Blocks, lbl: int): Option<Instrs> {
    match blocks
    case Nil => None
    case Cons((l, instrs), rest) => if l == lbl then Some(instrs) else Block(rest, lbl)
  }

  function Select(v: Value, pairs: List<(int, int)>, default: int): int {
    match pairs
    case Nil => default
    case Cons((x, l), rest) => if v == Int(x) then l else Select(v, rest, default)
  }

  /** The first `n` values, with zeros where there are too few. */
  function Pad(args: seq<Value>, n: nat): (xs: seq<Value>)
    ensures |xs| == n
  {
    seq(n, i requires 0 <= i => if i < |args| then args[i] else Int(0))
  }

  // ---- Operands ----

  function GetOp(o: Operand, xs: seq<Value>, ys: seq<Value>): Option<Value> {
    match o
    case X(n) => if n < |xs| then Some(xs[n]) else None
    case Y(n) => if n < |ys| then Some(ys[n]) else None
    case Integer(n) => Some(Int(n))
    case AtomOp(a) => Some(Atom(a))
    case Literal(v) => Some(v)
    case NilOp => Some(Empty)
  }

  /** The two register lists after a write; a write outside them, or to a constant, has no clause. */
  function SetOp(o: Operand, v: Value, xs: seq<Value>, ys: seq<Value>): Option<(seq<Value>, seq<Value>)> {
    match o
    case X(n) => if n < |xs| then Some((xs[n := v], ys)) else None
    case Y(n) => if n < |ys| then Some((xs, ys[n := v])) else None
    case _ => None
  }

  function ArithOp(op: Arith, a: Value, b: Value): Option<Value> {
    if !a.Int? || !b.Int? then None
    else match op
      case Plus => Some(Int(a.n + b.n))
      case Minus => Some(Int(a.n - b.n))
      case Times => Some(Int(a.n * b.n))
  }

  function Rank(v: Value): nat {
    match v
    case Int(_) => 0
    case Atom(_) => 1
    case Empty => 2
    case Pair(_, _) => 3
  }

  predicate NameLess(a: Name, b: Name) {
    if b == "" then false
    else if a == "" then true
    else if a[0] == b[0] then NameLess(a[1..], b[1..])
    else a[0] < b[0]
  }

  /** The order of terms: numbers, then atoms, then lists. */
  predicate Less(a: Value, b: Value) {
    if Rank(a) != Rank(b) then Rank(a) < Rank(b)
    else match a
      case Int(n) => n < b.n
      case Atom(s) => NameLess(s, b.a)
      case Empty => false
      case Pair(h, t) => if h == b.hd then Less(t, b.tl) else Less(h, b.hd)
  }

  function Holds(t: Test, xs: seq<Value>, ys: seq<Value>): Option<bool> {
    match t
    case IsNonemptyList(s) =>
      (match GetOp(s, xs, ys) case Some(v) => Some(v.Pair?) case None => None)
    case IsNil(s) =>
      (match GetOp(s, xs, ys) case Some(v) => Some(v == Empty) case None => None)
    case _ =>
      (match (GetOp(t.a, xs, ys), GetOp(t.b, xs, ys))
       case (Some(v), Some(w)) =>
         Some(if t.IsEqExact? then v == w else if t.IsLt? then Less(v, w) else !Less(v, w))
       case _ => None)
  }

  // ---- One instruction ----

  datatype Next =
    | Go(s: State)
    | Calls(f: Name, a: nat, args: seq<Value>, back: State)
    | TailCalls(f: Name, a: nat, args: seq<Value>)
    | Answer(v: Value)
    | NoClause

  function Wrote(o: Operand, v: Option<Value>, s: State, rest: Instrs): Next {
    if v.None? then NoClause
    else match SetOp(o, v.value, s.xs, s.ys)
      case Some((xs, ys)) => Go(State(rest, s.blocks, xs, ys))
      case None => NoClause
  }

  function Jumped(s: State, lbl: int): Next {
    match Block(s.blocks, lbl)
    case Some(instrs) => Go(s.(instrs := instrs))
    case None => NoClause
  }

  function Step(s: State): Next {
    if s.instrs.Nil? then
      match GetOp(X(0), s.xs, []) case Some(v) => Answer(v) case None => NoClause
    else
      var rest := s.instrs.tail;
      match s.instrs.head
      case Move(src, dst) => Wrote(dst, GetOp(src, s.xs, s.ys), s, rest)
      case GcBif(op, a, b, dst) =>
        (match (GetOp(a, s.xs, s.ys), GetOp(b, s.xs, s.ys))
         case (Some(v), Some(w)) => Wrote(dst, ArithOp(op, v, w), s, rest)
         case _ => NoClause)
      case SelectVal(src, default, pairs) =>
        (match GetOp(src, s.xs, s.ys)
         case Some(v) => Jumped(s, Select(v, pairs, default))
         case None => NoClause)
      case TestElse(test, fail) =>
        (match Holds(test, s.xs, s.ys)
         case Some(b) => if b then Go(s.(instrs := rest)) else Jumped(s, fail)
         case None => NoClause)
      case GetList(src, h, t) =>
        (match GetOp(src, s.xs, s.ys)
         case Some(Pair(hd, tl)) =>
           (match Wrote(h, Some(hd), s, rest)
            case Go(s1) => Wrote(t, Some(tl), s1, rest)
            case _ => NoClause)
         case _ => NoClause)
      case PutList(h, t, dst) =>
        (match (GetOp(h, s.xs, s.ys), GetOp(t, s.xs, s.ys))
         case (Some(v), Some(w)) => Wrote(dst, Some(Pair(v, w)), s, rest)
         case _ => NoClause)
      case Call(f, a) =>
        if a <= |s.xs| then Calls(f, a, s.xs[..a], s.(instrs := rest)) else NoClause
      case CallOnly(f, a) => if a <= |s.xs| then TailCalls(f, a, s.xs[..a]) else NoClause
      case CallLast(f, a) => if a <= |s.xs| then TailCalls(f, a, s.xs[..a]) else NoClause
      case Jump(lbl) => Jumped(s, lbl)
      case ReturnX0 => (match GetOp(X(0), s.xs, s.ys) case Some(v) => Answer(v) case None => NoClause)
      case Ignored => Go(s.(instrs := rest))
  }

  // ---- Runs ----

  datatype Outcome = Done(v: Value) | Crash | OutOfFuel

  function Exec(code: Code, s: State, fuel: nat): Outcome
    decreases fuel, 0
  {
    if fuel == 0 then OutOfFuel
    else match Step(s)
      case Go(s') => Exec(code, s', fuel - 1)
      case Calls(f, a, args, back) =>
        (match Run(code, f, a, args, fuel - 1)
         case Done(v) => if back.xs == [] then Crash else Exec(code, back.(xs := back.xs[0 := v]), fuel - 1)
         case o => o)
      case TailCalls(f, a, args) => Run(code, f, a, args, fuel - 1)
      case Answer(v) => Done(v)
      case NoClause => Crash
  }

  function Run(code: Code, f: Name, a: nat, args: seq<Value>, fuel: nat): Outcome
    decreases fuel, 1
  {
    match Lookup(code, f, a)
    case None => Crash
    case Some(fn) =>
      match Block(fn.blocks, fn.entry)
      case None => Crash
      case Some(instrs) => Exec(code, State(instrs, fn.blocks, Pad(args, 8), Pad([], 8)), fuel)
  }

  /** The run ends, and with this value. */
  ghost predicate Returns(code: Code, f: Name, args: seq<Value>, v: Value) {
    exists fuel: nat :: Run(code, f, |args|, args, fuel) == Done(v)
  }

  ghost predicate ReturnsFrom(code: Code, s: State, v: Value) {
    exists fuel: nat :: Exec(code, s, fuel) == Done(v)
  }

  lemma {:induction false} ExecMore(code: Code, s: State, fuel: nat, more: nat)
    requires Exec(code, s, fuel) != OutOfFuel && fuel <= more
    ensures Exec(code, s, more) == Exec(code, s, fuel)
    decreases fuel, 0
  {
    match Step(s)
    case Go(s') => ExecMore(code, s', fuel - 1, more - 1);
    case Calls(f, a, args, back) =>
      RunMore(code, f, a, args, fuel - 1, more - 1);
      match Run(code, f, a, args, fuel - 1) {
        case Done(v) =>
          if back.xs != [] {
            ExecMore(code, back.(xs := back.xs[0 := v]), fuel - 1, more - 1);
          }
        case _ =>
      }
    case TailCalls(f, a, args) => RunMore(code, f, a, args, fuel - 1, more - 1);
    case _ =>
  }

  lemma {:induction false} RunMore(code: Code, f: Name, a: nat, args: seq<Value>, fuel: nat, more: nat)
    requires Run(code, f, a, args, fuel) != OutOfFuel && fuel <= more
    ensures Run(code, f, a, args, more) == Run(code, f, a, args, fuel)
    decreases fuel, 1
  {
    match Lookup(code, f, a)
    case None =>
    case Some(fn) =>
      match Block(fn.blocks, fn.entry)
      case None =>
      case Some(instrs) => ExecMore(code, State(instrs, fn.blocks, Pad(args, 8), Pad([], 8)), fuel, more);
  }

  /** A call that returns `v` gives `v` for all large enough fuel, and never anything else. */
  lemma ReturnsOnly(code: Code, f: Name, args: seq<Value>, v: Value, fuel: nat)
    requires Returns(code, f, args, v)
    ensures Run(code, f, |args|, args, fuel) in {OutOfFuel, Done(v)}
  {
    hide Run;
    var enough: nat :| Run(code, f, |args|, args, enough) == Done(v);
    if Run(code, f, |args|, args, fuel) != OutOfFuel {
      if fuel <= enough {
        RunMore(code, f, |args|, args, fuel, enough);
      } else {
        RunMore(code, f, |args|, args, enough, fuel);
      }
    }
  }

  // ---- What every instruction keeps ----

  ghost predicate EightRegs(s: State) {
    |s.xs| == 8 && |s.ys| == 8
  }

  /**
   * Whatever the instruction, both register lists keep their eight places; and a call leaves the caller's
   * registers alone: it goes on with the same ones, of which only x0 will be set to the answer.
   */
  lemma StepKeepsRegs(s: State)
    requires EightRegs(s)
    ensures Step(s).Go? ==> EightRegs(Step(s).s)
    ensures Step(s).Calls? ==> Step(s).back.xs == s.xs && Step(s).back.ys == s.ys
  {
  }

  /** Every state a run passes through, in its own activation and in the calls it makes. */
  function Trace(code: Code, s: State, fuel: nat): seq<State>
    decreases fuel, 0
  {
    if fuel == 0 then [s]
    else [s] + match Step(s)
      case Go(s') => Trace(code, s', fuel - 1)
      case Calls(f, a, args, back) =>
        TraceRun(code, f, a, args, fuel - 1)
        + (match Run(code, f, a, args, fuel - 1)
           case Done(v) => if back.xs == [] then [] else Trace(code, back.(xs := back.xs[0 := v]), fuel - 1)
           case _ => [])
      case TailCalls(f, a, args) => TraceRun(code, f, a, args, fuel - 1)
      case _ => []
  }

  function TraceRun(code: Code, f: Name, a: nat, args: seq<Value>, fuel: nat): seq<State>
    decreases fuel, 1
  {
    match Lookup(code, f, a)
    case None => []
    case Some(fn) =>
      match Block(fn.blocks, fn.entry)
      case None => []
      case Some(instrs) => Trace(code, State(instrs, fn.blocks, Pad(args, 8), Pad([], 8)), fuel)
  }

  /** In any run of any code, every state has eight x and eight y registers. */
  lemma {:induction false} RunKeepsRegs(code: Code, f: Name, a: nat, args: seq<Value>, fuel: nat)
    ensures forall t | t in TraceRun(code, f, a, args, fuel) :: EightRegs(t)
    decreases fuel, 1
  {
    match Lookup(code, f, a)
    case None =>
    case Some(fn) =>
      match Block(fn.blocks, fn.entry)
      case None =>
      case Some(instrs) => TraceKeepsRegs(code, State(instrs, fn.blocks, Pad(args, 8), Pad([], 8)), fuel);
  }

  lemma {:induction false} TraceKeepsRegs(code: Code, s: State, fuel: nat)
    requires EightRegs(s)
    ensures forall t | t in Trace(code, s, fuel) :: EightRegs(t)
    decreases fuel, 0
  {
    hide Step, Run, TraceRun;
    StepKeepsRegs(s);
    if fuel > 0 {
      match Step(s)
      case Go(s') => TraceKeepsRegs(code, s', fuel - 1);
      case Calls(f, a, args, back) =>
        RunKeepsRegs(code, f, a, args, fuel - 1);
        match Run(code, f, a, args, fuel - 1) {
          case Done(v) => TraceKeepsRegs(code, back.(xs := back.xs[0 := v]), fuel - 1);
          case _ =>
        }
      case TailCalls(f, a, args) => RunKeepsRegs(code, f, a, args, fuel - 1);
      case _ =>
    }
  }

  // ---- Composing runs ----

  lemma GoReturns(code: Code, s: State, s': State, v: Value)
    requires Step(s) == Go(s') && ReturnsFrom(code, s', v)
    ensures ReturnsFrom(code, s, v)
  {
    hide Step;
    var fuel: nat :| Exec(code, s', fuel) == Done(v);
    assert Exec(code, s, fuel + 1) == Done(v);
  }

  lemma CallReturns(code: Code, s: State, answer: Value, v: Value)
    requires Step(s).Calls? && |Step(s).args| == Step(s).a && Step(s).back.xs != []
    requires Returns(code, Step(s).f, Step(s).args, answer)
    requires ReturnsFrom(code, Step(s).back.(xs := Step(s).back.xs[0 := answer]), v)
    ensures ReturnsFrom(code, s, v)
  {
    hide Step, Run;
    var n := Step(s);
    var next := n.back.(xs := n.back.xs[0 := answer]);
    var f0: nat :| Run(code, n.f, |n.args|, n.args, f0) == Done(answer);
    var f1: nat :| Exec(code, next, f1) == Done(v);
    var fuel := if f0 < f1 then f1 else f0;
    RunMore(code, n.f, n.a, n.args, f0, fuel);
    ExecMore(code, next, f1, fuel);
    assert Exec(code, s, fuel + 1) == Done(v);
  }

  lemma AnswerReturns(code: Code, s: State, v: Value)
    requires Step(s) == Answer(v)
    ensures ReturnsFrom(code, s, v)
  {
    hide Step;
    assert Exec(code, s, 1) == Done(v);
  }
}
