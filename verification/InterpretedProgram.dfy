/** The fixed bytecode table, and what interpreting it returns. */
module InterpretedProgram {
  import opened Collections
  import opened Interpreter

  // ---- The table ----

  const GUARD: Instrs := Cons(Ignored, Nil)

  const FIB_TAIL: Instrs :=
    Cons(GcBif(Minus, Y(0), Integer(2), X(1)),
    Cons(Move(X(0), Y(0)),
    Cons(Move(X(1), X(0)),
    Cons(Call("fib", 1), ADD_SAVED))))

  /** How `fib` and `sum` both end: add the saved value to the callee's answer. */
  const ADD_SAVED: Instrs :=
    Cons(GcBif(Plus, Y(0), X(0), X(0)), Cons(Ignored, Cons(ReturnX0, Nil)))

  const FIB_BODY: Instrs :=
    Cons(Ignored,
    Cons(GcBif(Minus, X(0), Integer(1), X(1)),
    Cons(Ignored,
    Cons(Move(X(0), Y(0)),
    Cons(Move(X(1), X(0)),
    Cons(Call("fib", 1), FIB_TAIL))))))

  const FIB_BLOCKS: Blocks :=
    Cons((10, GUARD),
    Cons((11, Cons(SelectVal(X(0), 13, Cons((0, 12), Cons((1, 12), Nil))), Nil)),
    Cons((12, Cons(ReturnX0, Nil)),
    Cons((13, FIB_BODY), Nil))))

  const SUM_BODY: Instrs :=
    Cons(TestElse(IsNonemptyList(X(0)), 16),
    Cons(Ignored,
    Cons(GetList(X(0), Y(0), X(0)),
    Cons(Ignored,
    Cons(Call("sum", 1), ADD_SAVED)))))

  const SUM_BLOCKS: Blocks :=
    Cons((14, GUARD),
    Cons((15, SUM_BODY),
    Cons((16, Cons(TestElse(IsNil(X(0)), 14), Cons(Move(Integer(0), X(0)), Cons(ReturnX0, Nil)))), Nil)))

  const UPTO_TAIL: Instrs :=
    Cons(Ignored, Cons(PutList(Y(0), X(0), X(0)), Cons(Ignored, Cons(ReturnX0, Nil))))

  const UPTO_BODY: Instrs :=
    Cons(Ignored,
    Cons(GcBif(Minus, X(0), Integer(1), X(1)),
    Cons(Ignored,
    Cons(Move(X(0), Y(0)),
    Cons(Move(X(1), X(0)),
    Cons(Call("upto", 1), UPTO_TAIL))))))

  const UPTO_BLOCKS: Blocks :=
    Cons((17, GUARD),
    Cons((18, Cons(TestElse(IsEqExact(X(0), Integer(0)), 19), Cons(Move(NilOp, X(0)), Cons(ReturnX0, Nil)))),
    Cons((19, UPTO_BODY), Nil)))

  const CODE: Code :=
    Cons(Function("fib", 1, 11, FIB_BLOCKS),
    Cons(Function("sum", 1, 15, SUM_BLOCKS),
    Cons(Function("upto", 1, 18, UPTO_BLOCKS), Nil)))

  // ---- The functions it was compiled from ----

  function Fib(n: nat): nat {
    if n == 0 then 0 else if n == 1 then 1 else Fib(n - 1) + Fib(n - 2)
  }

  function Sum(s: seq<int>): int {
    if s == [] then 0 else s[0] + Sum(s[1..])
  }

  function Upto(n: nat): seq<int> {
    if n == 0 then [] else [n as int] + Upto(n - 1)
  }

  function FromSeq(s: seq<int>): Value {
    if s == [] then Empty else Pair(Int(s[0]), FromSeq(s[1..]))
  }

  // ---- Entering a function ----

  function Start(instrs: Instrs, blocks: Blocks, arg: Value): State {
    State(instrs, blocks, Pad([arg], 8), Pad([], 8))
  }

  lemma Enter(f: Name, arg: Value, fn: Function, instrs: Instrs, v: Value)
    requires Lookup(CODE, f, 1) == Some(fn) && Block(fn.blocks, fn.entry) == Some(instrs)
    requires ReturnsFrom(CODE, Start(instrs, fn.blocks, arg), v)
    ensures Returns(CODE, f, [arg], v)
  {
    hide CODE, Exec, Lookup, Block, Pad;
    var fuel: nat :| Exec(CODE, Start(instrs, fn.blocks, arg), fuel) == Done(v);
    assert Run(CODE, f, 1, [arg], fuel) == Done(v);
  }

  /** The last steps of `fib` and `sum`: add the saved value to the callee's answer and return. */
  lemma SumReturns(blocks: Blocks, xs: seq<Value>, ys: seq<Value>, a: int, b: int)
    requires |xs| == 8 && |ys| == 8 && ys[0] == Int(a) && xs[0] == Int(b)
    ensures ReturnsFrom(CODE, State(ADD_SAVED, blocks, xs, ys), Int(a + b))
  {
    hide ReturnsFrom, CODE;
    var s0 := State(ADD_SAVED, blocks, xs, ys);
    var s1 := State(ADD_SAVED.tail, blocks, xs[0 := Int(a + b)], ys);
    var s2 := s1.(instrs := ADD_SAVED.tail.tail);
    AnswerReturns(CODE, s2, Int(a + b));
    GoReturns(CODE, s1, s2, Int(a + b));
    GoReturns(CODE, s0, s1, Int(a + b));
  }

  // ---- fib ----

  /** After the first recursive call. */
  lemma FibSecond(n: int, a: int, b: int, xs: seq<Value>, ys: seq<Value>)
    requires |xs| == 8 && |ys| == 8 && ys[0] == Int(n) && xs[0] == Int(a)
    requires Returns(CODE, "fib", [Int(n - 2)], Int(b))
    ensures ReturnsFrom(CODE, State(FIB_TAIL, FIB_BLOCKS, xs, ys), Int(a + b))
  {
    hide ReturnsFrom, Returns, CODE, FIB_BLOCKS, ADD_SAVED;
    var s0 := State(FIB_TAIL, FIB_BLOCKS, xs, ys);
    var s1 := State(FIB_TAIL.tail, FIB_BLOCKS, xs[1 := Int(n - 2)], ys);
    var s2 := State(FIB_TAIL.tail.tail, FIB_BLOCKS, s1.xs, ys[0 := Int(a)]);
    var s3 := State(FIB_TAIL.tail.tail.tail, FIB_BLOCKS, s1.xs[0 := Int(n - 2)], s2.ys);
    assert s3.xs[..1] == [Int(n - 2)];
    SumReturns(FIB_BLOCKS, s3.xs[0 := Int(b)], s3.ys, a, b);
    CallReturns(CODE, s3, Int(b), Int(a + b));
    GoReturns(CODE, s2, s3, Int(a + b));
    GoReturns(CODE, s1, s2, Int(a + b));
    GoReturns(CODE, s0, s1, Int(a + b));
  }

  lemma FibFirst(n: int, a: int, b: int, xs: seq<Value>, ys: seq<Value>)
    requires |xs| == 8 && |ys| == 8 && xs[0] == Int(n)
    requires Returns(CODE, "fib", [Int(n - 1)], Int(a)) && Returns(CODE, "fib", [Int(n - 2)], Int(b))
    ensures ReturnsFrom(CODE, State(FIB_BODY, FIB_BLOCKS, xs, ys), Int(a + b))
  {
    hide ReturnsFrom, Returns, CODE, FIB_BLOCKS, FIB_TAIL;
    var s0 := State(FIB_BODY, FIB_BLOCKS, xs, ys);
    var s1 := s0.(instrs := FIB_BODY.tail);
    var s2 := State(FIB_BODY.tail.tail, FIB_BLOCKS, xs[1 := Int(n - 1)], ys);
    var s3 := s2.(instrs := FIB_BODY.tail.tail.tail);
    var s4 := State(s3.instrs.tail, FIB_BLOCKS, s3.xs, ys[0 := Int(n)]);
    var s5 := State(s4.instrs.tail, FIB_BLOCKS, s4.xs[0 := Int(n - 1)], s4.ys);
    assert s5.xs[..1] == [Int(n - 1)];
    FibSecond(n, a, b, s5.xs[0 := Int(a)], s5.ys);
    CallReturns(CODE, s5, Int(a), Int(a + b));
    GoReturns(CODE, s4, s5, Int(a + b));
    GoReturns(CODE, s3, s4, Int(a + b));
    GoReturns(CODE, s2, s3, Int(a + b));
    GoReturns(CODE, s1, s2, Int(a + b));
    GoReturns(CODE, s0, s1, Int(a + b));
  }

  lemma FibEnters(n: int, v: Value)
    requires var body := if n == 0 || n == 1 then Cons(ReturnX0, Nil) else FIB_BODY;
             ReturnsFrom(CODE, Start(body, FIB_BLOCKS, Int(n)), v)
    ensures Returns(CODE, "fib", [Int(n)], v)
  {
    hide ReturnsFrom, Returns;
    var fn := Function("fib", 1, 11, FIB_BLOCKS);
    var entry: Instrs := Cons(SelectVal(X(0), 13, Cons((0, 12), Cons((1, 12), Nil))), Nil);
    var body := if n == 0 || n == 1 then Cons(ReturnX0, Nil) else FIB_BODY;
    var pairs := Cons((0, 12), Cons((1, 12), Nil));
    assert Select(Int(n), pairs, 13) == Select(Int(n), pairs.tail, 13) || n == 0;
    assert Block(FIB_BLOCKS, 12) == Some(Cons(ReturnX0, Nil)) && Block(FIB_BLOCKS, 13) == Some(FIB_BODY);
    GoReturns(CODE, Start(entry, FIB_BLOCKS, Int(n)), Start(body, FIB_BLOCKS, Int(n)), v);
    Enter("fib", Int(n), fn, entry, v);
  }

  /** Interpreting the compiled `fib` ends, with what `fib` computes. */
  lemma {:induction false} InterpretedFib(n: nat)
    ensures Returns(CODE, "fib", [Int(n)], Int(Fib(n)))
  {
    hide Returns, ReturnsFrom, CODE, FIB_BLOCKS;
    if n <= 1 {
      AnswerReturns(CODE, Start(Cons(ReturnX0, Nil), FIB_BLOCKS, Int(n)), Int(n));
    } else {
      InterpretedFib(n - 1);
      InterpretedFib(n - 2);
      var s := Start(FIB_BODY, FIB_BLOCKS, Int(n));
      FibFirst(n, Fib(n - 1), Fib(n - 2), s.xs, s.ys);
    }
    FibEnters(n, Int(Fib(n)));
  }

  // ---- sum ----

  /** The rest of `sum` on a pair, once the sum of its tail is known. */
  lemma SumPair(h: int, t: Value, b: int, xs: seq<Value>, ys: seq<Value>)
    requires |xs| == 8 && |ys| == 8 && xs[0] == Pair(Int(h), t)
    requires Returns(CODE, "sum", [t], Int(b))
    ensures ReturnsFrom(CODE, State(SUM_BODY, SUM_BLOCKS, xs, ys), Int(h + b))
  {
    hide ReturnsFrom, Returns, CODE, SUM_BLOCKS;
    var s0 := State(SUM_BODY, SUM_BLOCKS, xs, ys);
    var s1 := s0.(instrs := SUM_BODY.tail);
    var s2 := s0.(instrs := SUM_BODY.tail.tail);
    var s3 := State(s2.instrs.tail, SUM_BLOCKS, xs[0 := t], ys[0 := Int(h)]);
    var s4 := s3.(instrs := s3.instrs.tail);
    assert s4.xs[..1] == [t];
    SumReturns(SUM_BLOCKS, s4.xs[0 := Int(b)], s4.ys, h, b);
    CallReturns(CODE, s4, Int(b), Int(h + b));
    GoReturns(CODE, s3, s4, Int(h + b));
    GoReturns(CODE, s2, s3, Int(h + b));
    GoReturns(CODE, s1, s2, Int(h + b));
    GoReturns(CODE, s0, s1, Int(h + b));
  }

  lemma SumEnters(arg: Value, v: Value)
    requires ReturnsFrom(CODE, Start(SUM_BODY, SUM_BLOCKS, arg), v)
    ensures Returns(CODE, "sum", [arg], v)
  {
    hide ReturnsFrom, Returns, SUM_BODY;
    Enter("sum", arg, Function("sum", 1, 15, SUM_BLOCKS), SUM_BODY, v);
  }

  lemma SumOther(arg: Value)
    requires !arg.Pair?
    ensures Returns(CODE, "sum", [arg], if arg == Empty then Int(0) else arg)
  {
    hide ReturnsFrom, Returns, CODE;
    var v := if arg == Empty then Int(0) else arg;
    var s0 := Start(SUM_BODY, SUM_BLOCKS, arg);
    var nil: Instrs := Cons(TestElse(IsNil(X(0)), 14), Cons(Move(Integer(0), X(0)), Cons(ReturnX0, Nil)));
    var s1 := Start(nil, SUM_BLOCKS, arg);
    if arg == Empty {
      var s2 := Start(nil.tail, SUM_BLOCKS, arg);
      var s3 := State(nil.tail.tail, SUM_BLOCKS, s2.xs[0 := Int(0)], s2.ys);
      AnswerReturns(CODE, s3, v);
      GoReturns(CODE, s2, s3, v);
      GoReturns(CODE, s1, s2, v);
    } else {
      var s2 := Start(GUARD, SUM_BLOCKS, arg);
      var s3 := Start(Nil, SUM_BLOCKS, arg);
      AnswerReturns(CODE, s3, v);
      GoReturns(CODE, s2, s3, v);
      GoReturns(CODE, s1, s2, v);
    }
    GoReturns(CODE, s0, s1, v);
    SumEnters(arg, v);
  }

  /** Interpreting the compiled `sum` on a list of integers ends, with what `sum` computes. */
  lemma {:induction false} InterpretedSum(s: seq<int>)
    ensures Returns(CODE, "sum", [FromSeq(s)], Int(Sum(s)))
  {
    hide Returns, ReturnsFrom, CODE, SUM_BODY, SUM_BLOCKS;
    if s == [] {
      SumOther(Empty);
    } else {
      InterpretedSum(s[1..]);
      var st := Start(SUM_BODY, SUM_BLOCKS, FromSeq(s));
      SumPair(s[0], FromSeq(s[1..]), Sum(s[1..]), st.xs, st.ys);
      SumEnters(FromSeq(s), Int(Sum(s)));
    }
  }

  /**
   * On an argument that is no list the interpreter does not fail, as `sum` itself does: the guard instruction is
   * one it ignores, and the argument comes back.
   */
  lemma InterpretedSumOfNonList(arg: Value)
    requires arg.Int? || arg.Atom?
    ensures Returns(CODE, "sum", [arg], arg)
  {
    SumOther(arg);
  }

  // ---- upto ----

  lemma UptoReturns(n: int, t: Value, xs: seq<Value>, ys: seq<Value>)
    requires |xs| == 8 && |ys| == 8 && xs[0] == t && ys[0] == Int(n)
    ensures ReturnsFrom(CODE, State(UPTO_TAIL, UPTO_BLOCKS, xs, ys), Pair(Int(n), t))
  {
    hide ReturnsFrom, CODE, UPTO_BLOCKS;
    var v := Pair(Int(n), t);
    var s0 := State(UPTO_TAIL, UPTO_BLOCKS, xs, ys);
    var s1 := s0.(instrs := UPTO_TAIL.tail);
    var s2 := State(UPTO_TAIL.tail.tail, UPTO_BLOCKS, xs[0 := v], ys);
    var s3 := s2.(instrs := UPTO_TAIL.tail.tail.tail);
    AnswerReturns(CODE, s3, v);
    GoReturns(CODE, s2, s3, v);
    GoReturns(CODE, s1, s2, v);
    GoReturns(CODE, s0, s1, v);
  }

  lemma UptoBody(n: int, t: Value, xs: seq<Value>, ys: seq<Value>)
    requires |xs| == 8 && |ys| == 8 && xs[0] == Int(n)
    requires Returns(CODE, "upto", [Int(n - 1)], t)
    ensures ReturnsFrom(CODE, State(UPTO_BODY, UPTO_BLOCKS, xs, ys), Pair(Int(n), t))
  {
    hide ReturnsFrom, Returns, CODE, UPTO_BLOCKS, UPTO_TAIL;
    var v := Pair(Int(n), t);
    var s0 := State(UPTO_BODY, UPTO_BLOCKS, xs, ys);
    var s1 := s0.(instrs := UPTO_BODY.tail);
    var s2 := State(UPTO_BODY.tail.tail, UPTO_BLOCKS, xs[1 := Int(n - 1)], ys);
    var s3 := s2.(instrs := UPTO_BODY.tail.tail.tail);
    var s4 := State(s3.instrs.tail, UPTO_BLOCKS, s3.xs, ys[0 := Int(n)]);
    var s5 := State(s4.instrs.tail, UPTO_BLOCKS, s4.xs[0 := Int(n - 1)], s4.ys);
    assert s5.xs[..1] == [Int(n - 1)];
    UptoReturns(n, t, s5.xs[0 := t], s5.ys);
    CallReturns(CODE, s5, t, v);
    GoReturns(CODE, s4, s5, v);
    GoReturns(CODE, s3, s4, v);
    GoReturns(CODE, s2, s3, v);
    GoReturns(CODE, s1, s2, v);
    GoReturns(CODE, s0, s1, v);
  }

  lemma UptoEnters(n: int, v: Value)
    requires n == 0 ==> v == Empty
    requires n != 0 ==> ReturnsFrom(CODE, Start(UPTO_BODY, UPTO_BLOCKS, Int(n)), v)
    ensures Returns(CODE, "upto", [Int(n)], v)
  {
    hide ReturnsFrom, Returns;
    var entry: Instrs :=
      Cons(TestElse(IsEqExact(X(0), Integer(0)), 19), Cons(Move(NilOp, X(0)), Cons(ReturnX0, Nil)));
    var s0 := Start(entry, UPTO_BLOCKS, Int(n));
    if n == 0 {
      var s1 := Start(entry.tail, UPTO_BLOCKS, Int(n));
      var s2 := State(entry.tail.tail, UPTO_BLOCKS, s1.xs[0 := Empty], s1.ys);
      AnswerReturns(CODE, s2, v);
      GoReturns(CODE, s1, s2, v);
      GoReturns(CODE, s0, s1, v);
    } else {
      GoReturns(CODE, s0, Start(UPTO_BODY, UPTO_BLOCKS, Int(n)), v);
    }
    Enter("upto", Int(n), Function("upto", 1, 18, UPTO_BLOCKS), entry, v);
  }

  /** Interpreting the compiled `upto` ends, with what `upto` computes. */
  lemma {:induction false} InterpretedUpto(n: nat)
    ensures Returns(CODE, "upto", [Int(n)], FromSeq(Upto(n)))
  {
    hide Returns, ReturnsFrom, CODE, UPTO_BODY, UPTO_BLOCKS;
    if n != 0 {
      InterpretedUpto(n - 1);
      var s := Start(UPTO_BODY, UPTO_BLOCKS, Int(n));
      UptoBody(n, FromSeq(Upto(n - 1)), s.xs, s.ys);
      assert Upto(n)[1..] == Upto(n - 1);
    }
    UptoEnters(n, FromSeq(Upto(n)));
  }
}
