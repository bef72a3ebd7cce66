/** Expressions: evaluation, constant folding, and compilation to a stack machine. */
module ExprCompiler {
  import opened Collections

  datatype Op = Add | Sub | Mul | Max

  datatype Expr =
    | Num(n: int)
    | Var(k: string)
    | Neg(e: Expr)
    | If(c: Expr, t: Expr, e: Expr)
    | Bin(op: Op, l: Expr, r: Expr)

  type Env = map<string, int>

  function Eval(x: Expr, env: Env): int {
    match x
    case Num(n) => n
    case Var(k) => if k in env then env[k] else 0
    case Neg(e) => -Eval(e, env)
    case If(c, t, e) => if Eval(c, env) > 0 then Eval(t, env) else Eval(e, env)
    case Bin(Add, l, r) => Eval(l, env) + Eval(r, env)
    case Bin(Sub, l, r) => Eval(l, env) - Eval(r, env)
    case Bin(Mul, l, r) => Eval(l, env) * Eval(r, env)
    case Bin(Max, l, r) => if Eval(l, env) < Eval(r, env) then Eval(r, env) else Eval(l, env)
  }

  function Size(x: Expr): nat {
    match x
    case Num(_) => 1
    case Var(_) => 1
    case Neg(e) => 1 + Size(e)
    case If(c, t, e) => 1 + Size(c) + Size(t) + Size(e)
    case Bin(_, l, r) => 1 + Size(l) + Size(r)
  }

  function Depth(x: Expr): nat {
    match x
    case Num(_) => 1
    case Var(_) => 1
    case Neg(e) => 1 + Depth(e)
    case If(c, t, e) => 1 + Larger(Depth(c), Larger(Depth(t), Depth(e)))
    case Bin(_, l, r) => 1 + Larger(Depth(l), Depth(r))
  }

  function Larger(a: nat, b: nat): nat {
    if a >= b then a else b
  }

  // ---- Constant folding ----

  function ApplyOp(op: Op, a: int, b: int): int {
    match op
    case Add => a + b
    case Sub => a - b
    case Mul => a * b
    case Max => if a >= b then a else b
  }

  function FoldConsts(x: Expr): Expr {
    match x
    case Num(_) => x
    case Var(_) => x
    case Neg(e) =>
      var f := FoldConsts(e);
      if f.Num? then Num(-f.n) else Neg(f)
    case If(c, t, e) =>
      var cf, tf, ef := FoldConsts(c), FoldConsts(t), FoldConsts(e);
      if cf.Num? then (if cf.n > 0 then tf else ef) else If(cf, tf, ef)
    case Bin(op, l, r) =>
      var lf, rf := FoldConsts(l), FoldConsts(r);
      if lf.Num? && rf.Num? then Num(ApplyOp(op, lf.n, rf.n)) else Bin(op, lf, rf)
  }

  /** Nothing is left that folding would compute. */
  predicate Folded(x: Expr) {
    match x
    case Num(_) => true
    case Var(_) => true
    case Neg(e) => !e.Num? && Folded(e)
    case If(c, t, e) => !c.Num? && Folded(c) && Folded(t) && Folded(e)
    case Bin(_, l, r) => !(l.Num? && r.Num?) && Folded(l) && Folded(r)
  }

  predicate HasVar(x: Expr) {
    match x
    case Num(_) => false
    case Var(_) => true
    case Neg(e) => HasVar(e)
    case If(c, t, e) => HasVar(c) || HasVar(t) || HasVar(e)
    case Bin(_, l, r) => HasVar(l) || HasVar(r)
  }

  lemma {:induction false} FoldValue(x: Expr, env: Env)
    ensures Eval(FoldConsts(x), env) == Eval(x, env)
    ensures !HasVar(x) ==> FoldConsts(x) == Num(Eval(x, env))
  {
    match x
    case Num(_) =>
    case Var(_) =>
    case Neg(e) => FoldValue(e, env);
    case If(c, t, e) =>
      FoldValue(c, env);
      FoldValue(t, env);
      FoldValue(e, env);
    case Bin(_, l, r) =>
      FoldValue(l, env);
      FoldValue(r, env);
  }

  lemma {:induction false} FoldShrinks(x: Expr)
    ensures Size(FoldConsts(x)) <= Size(x) && Depth(FoldConsts(x)) <= Depth(x)
    ensures Folded(FoldConsts(x))
  {
    match x
    case Num(_) =>
    case Var(_) =>
    case Neg(e) => FoldShrinks(e);
    case If(c, t, e) =>
      FoldShrinks(c);
      FoldShrinks(t);
      FoldShrinks(e);
    case Bin(_, l, r) =>
      FoldShrinks(l);
      FoldShrinks(r);
  }

  /** Folding keeps the value in every environment, never makes the tree larger or deeper, and is complete. */
  lemma FoldKeeps(x: Expr, env: Env)
    ensures Eval(FoldConsts(x), env) == Eval(x, env)
    ensures Size(FoldConsts(x)) <= Size(x) && Depth(FoldConsts(x)) <= Depth(x)
    ensures Folded(FoldConsts(x))
    ensures !HasVar(x) ==> FoldConsts(x) == Num(Eval(x, env))
  {
    FoldValue(x, env);
    FoldShrinks(x);
  }

  /** Folding what is folded changes nothing. */
  lemma {:induction false} FoldIdempotent(x: Expr)
    requires Folded(x)
    ensures FoldConsts(x) == x
  {
    match x
    case Num(_) =>
    case Var(_) =>
    case Neg(e) => FoldIdempotent(e);
    case If(c, t, e) =>
      FoldIdempotent(c);
      FoldIdempotent(t);
      FoldIdempotent(e);
    case Bin(_, l, r) =>
      FoldIdempotent(l);
      FoldIdempotent(r);
  }

  // ---- Stack machine ----

  datatype Instr = Push(n: int) | Load(k: string) | NegTop | BinOp(op: Op) | Branch(tp: seq<Instr>, ep: seq<Instr>)

  type Code = seq<Instr>

  function Lookup(k: string, env: Env): int {
    if k in env then env[k] else 0
  }

  function Compile(x: Expr, acc: Code): Code {
    match x
    case Num(n) => acc + [Push(n)]
    case Var(k) => acc + [Load(k)]
    case Neg(e) => Compile(e, acc) + [NegTop]
    case If(c, t, e) => Compile(c, acc) + [Branch(Compile(t, []), Compile(e, []))]
    case Bin(op, l, r) => Compile(l, acc) + Compile(r, []) + [BinOp(op)]
  }

  /** The value on top at the end; none when an instruction finds too few values. The top is first. */
  function VmRun(code: Code, env: Env, stack: seq<int>): Option<int>
    decreases code
  {
    if code == [] then Some(if stack == [] then 0 else stack[0])
    else
      match VmStep(code[0], env, stack)
      case Some(next) => VmRun(code[1..], env, next)
      case None => None
  }

  function VmStep(op: Instr, env: Env, stack: seq<int>): Option<seq<int>>
    decreases op
  {
    match op
    case Push(n) => Some([n] + stack)
    case Load(k) => Some([Lookup(k, env)] + stack)
    case NegTop => if |stack| < 1 then None else Some([-stack[0]] + stack[1..])
    case BinOp(o) => if |stack| < 2 then None else Some([ApplyOp(o, stack[1], stack[0])] + stack[2..])
    case Branch(tp, ep) =>
      if |stack| < 1 then None
      else match VmRun(if stack[0] > 0 then tp else ep, env, [])
        case Some(v) => Some([v] + stack[1..])
        case None => None
  }

  /** Compiling after other code only adds to it. */
  lemma {:induction false} CompileAppends(x: Expr, acc: Code)
    ensures Compile(x, acc) == acc + Compile(x, [])
  {
    match x
    case Num(_) =>
    case Var(_) =>
    case Neg(e) => CompileAppends(e, acc);
    case If(c, t, e) => CompileAppends(c, acc);
    case Bin(_, l, r) => CompileAppends(l, acc);
  }

  lemma RunOne(op: Instr, rest: Code, env: Env, stack: seq<int>)
    ensures VmRun([op] + rest, env, stack) ==
      match VmStep(op, env, stack) case Some(next) => VmRun(rest, env, next) case None => None
  {
    assert ([op] + rest)[1..] == rest;
  }

  /** From any stack and before any code, the compiled code of `x` pushes exactly the value of `x`. */
  lemma {:induction false} CompiledPushes(x: Expr, env: Env, rest: Code, stack: seq<int>)
    ensures VmRun(Compile(x, []) + rest, env, stack) == VmRun(rest, env, [Eval(x, env)] + stack)
    decreases x
  {
    hide VmRun;
    match x
    case Num(n) =>
      RunOne(Push(n), rest, env, stack);
      assert Compile(x, []) + rest == [Push(n)] + rest;
    case Var(k) =>
      RunOne(Load(k), rest, env, stack);
      assert Compile(x, []) + rest == [Load(k)] + rest;
    case Neg(e) =>
      assert Compile(x, []) + rest == Compile(e, []) + ([NegTop] + rest);
      CompiledPushes(e, env, [NegTop] + rest, stack);
      RunOne(NegTop, rest, env, [Eval(e, env)] + stack);
      assert ([Eval(e, env)] + stack)[1..] == stack;
    case If(c, t, e) => IfPushes(c, t, e, env, rest, stack);
    case Bin(op, l, r) => BinPushes(op, l, r, env, rest, stack);
  }

  lemma EvalBin(op: Op, l: Expr, r: Expr, env: Env)
    ensures Eval(Bin(op, l, r), env) == ApplyOp(op, Eval(l, env), Eval(r, env))
  {
  }

  lemma BinPushes(op: Op, l: Expr, r: Expr, env: Env, rest: Code, stack: seq<int>)
    ensures VmRun(Compile(Bin(op, l, r), []) + rest, env, stack)
         == VmRun(rest, env, [Eval(Bin(op, l, r), env)] + stack)
    decreases Bin(op, l, r), 0
  {
    EvalBin(op, l, r, env);
    hide VmRun, Eval, ApplyOp;
    var last := [BinOp(op)] + rest;
    assert Compile(Bin(op, l, r), []) + rest == Compile(l, []) + (Compile(r, []) + last);
    hide Compile;
    CompiledPushes(l, env, Compile(r, []) + last, stack);
    CompiledPushes(r, env, last, [Eval(l, env)] + stack);
    var s := [Eval(r, env)] + ([Eval(l, env)] + stack);
    RunOne(BinOp(op), rest, env, s);
    assert s[2..] == stack;
  }

  lemma IfPushes(c: Expr, t: Expr, e: Expr, env: Env, rest: Code, stack: seq<int>)
    ensures VmRun(Compile(If(c, t, e), []) + rest, env, stack) == VmRun(rest, env, [Eval(If(c, t, e), env)] + stack)
    decreases If(c, t, e), 0
  {
    hide VmRun;
    var branch := Branch(Compile(t, []), Compile(e, []));
    assert Compile(If(c, t, e), []) + rest == Compile(c, []) + ([branch] + rest);
    CompiledPushes(c, env, [branch] + rest, stack);
    var s := [Eval(c, env)] + stack;
    RunOne(branch, rest, env, s);
    assert s[1..] == stack;
    var x := if s[0] > 0 then t else e;
    CompiledPushes(x, env, [], []);
    assert Compile(x, []) + [] == Compile(x, []);
    RunNothing(env, [Eval(x, env)] + []);
  }

  lemma RunNothing(env: Env, stack: seq<int>)
    requires stack != []
    ensures VmRun([], env, stack) == Some(stack[0])
  {
  }

  /** Folding, compiling after any code and running gives what evaluating the original tree gives. */
  lemma FoldedCompiledPushes(x: Expr, env: Env, acc: Code, rest: Code, stack: seq<int>)
    ensures Compile(FoldConsts(x), acc) == acc + Compile(FoldConsts(x), [])
    ensures VmRun(Compile(FoldConsts(x), []) + rest, env, stack) == VmRun(rest, env, [Eval(x, env)] + stack)
    ensures VmRun(Compile(FoldConsts(x), []), env, stack) == Some(Eval(x, env))
  {
    FoldKeeps(x, env);
    CompileAppends(FoldConsts(x), acc);
    CompiledPushes(FoldConsts(x), env, rest, stack);
    CompiledPushes(FoldConsts(x), env, [], stack);
    assert Compile(FoldConsts(x), []) + [] == Compile(FoldConsts(x), []);
    RunNothing(env, [Eval(x, env)] + stack);
  }
}
