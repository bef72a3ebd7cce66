/** What the interpreter makes of each test, operation and operand, on the smallest programs that use them. */
module InterpretedOps {
  import opened Collections
  import opened Dictionary
  import opened Interpreter

  // ---- The order of terms ----

  lemma {:induction false} NameLessIs(a: Name, b: Name)
    ensures NameLess(a, b) <==> Before(a, b)
  {
    if a != "" && b != "" {
      if a[0] == b[0] {
        NameLessIs(a[1..], b[1..]);
        BeforeByRest(a, b);
      } else {
        BeforeByFirst(a, b);
      }
    }
  }

  lemma {:induction false} NameLessTotal(a: Name, b: Name)
    ensures !NameLess(a, a)
    ensures NameLess(a, b) || a == b || NameLess(b, a)
    ensures !(NameLess(a, b) && NameLess(b, a))
  {
    if a != "" { NameLessTotal(a[1..], if b == "" then "" else b[1..]); }
    if a != "" && b != "" { assert a == [a[0]] + a[1..] && b == [b[0]] + b[1..]; }
  }

  lemma {:induction false} NameLessTransitive(a: Name, b: Name, c: Name)
    requires NameLess(a, b) && NameLess(b, c)
    ensures NameLess(a, c)
  {
    if a != "" && a[0] == b[0] == c[0] { NameLessTransitive(a[1..], b[1..], c[1..]); }
  }

  /** Any two terms are equal, or exactly one is less than the other. */
  lemma {:induction false} LessTotal(a: Value, b: Value)
    ensures !Less(a, a)
    ensures Less(a, b) || a == b || Less(b, a)
    ensures !(Less(a, b) && Less(b, a))
    decreases a
  {
    if a.Atom? { NameLessTotal(a.a, if b.Atom? then b.a else ""); }
    if a.Pair? {
      LessTotal(a.hd, if b.Pair? then b.hd else b);
      LessTotal(a.tl, if b.Pair? then b.tl else b);
    }
  }

  lemma {:induction false} LessTransitive(a: Value, b: Value, c: Value)
    requires Less(a, b) && Less(b, c)
    ensures Less(a, c)
    decreases a
  {
    if a.Atom? && b.Atom? && c.Atom? { NameLessTransitive(a.a, b.a, c.a); }
    if a.Pair? && b.Pair? && c.Pair? {
      if a.hd == b.hd == c.hd {
        LessTransitive(a.tl, b.tl, c.tl);
      } else if a.hd != b.hd && b.hd != c.hd {
        LessTotal(a.hd, c.hd);
        LessTransitive(a.hd, b.hd, c.hd);
      }
    }
  }

  /** Numbers by value, then atoms by name, then the empty list, then pairs by head and then by tail. */
  lemma LessIs(m: int, n: int, s: Name, t: Name, h: Value, u: Value, k: Value, v: Value)
    ensures Less(Int(m), Int(n)) <==> m < n
    ensures Less(Int(m), Atom(s)) && Less(Atom(s), Empty) && Less(Empty, Pair(h, u))
    ensures Less(Atom(s), Atom(t)) <==> Before(s, t)
    ensures Less(Pair(h, u), Pair(k, v)) <==> Less(h, k) || (h == k && Less(u, v))
  {
    NameLessIs(s, t);
    LessTotal(h, k);
  }

  // ---- One instruction at a time ----

  /** The code table with one function of two arguments, made of these two blocks. */
  function Table(first: Instrs, second: Instrs): Code {
    Cons(Function("f", 2, 1, Cons((1, first), Cons((2, second), Nil))), Nil)
  }

  const RETURN: Instrs := Cons(ReturnX0, Nil)

  /** Answer `true` where the test holds and `false` where it does not. */
  function TestTable(t: Test): Code {
    Table(Cons(TestElse(t, 2), Cons(Move(AtomOp("true"), X(0)), RETURN)), Cons(Move(AtomOp("false"), X(0)), RETURN))
  }

  function Truth(b: bool): Value {
    Atom(if b then "true" else "false")
  }

  lemma Answers(code: Code, v: Value, w: Value, answer: Value)
    requires Run(code, "f", 2, [v, w], 5) == Done(answer)
    ensures Returns(code, "f", [v, w], answer)
  {
    hide Run;
  }

  /** A test that comes out as `b` sends the run to the matching block. */
  lemma TestAnswers(t: Test, v: Value, w: Value, b: bool)
    requires Holds(t, Pad([v, w], 8), Pad([], 8)) == Some(b)
    ensures Returns(TestTable(t), "f", [v, w], Truth(b))
  {
    hide Holds;
    var code := TestTable(t);
    var fn := code.head;
    assert Lookup(code, "f", 2) == Some(fn) && Block(fn.blocks, 1) == Some(fn.blocks.head.1);
    var s := State(fn.blocks.head.1, fn.blocks, Pad([v, w], 8), Pad([], 8));
    var branch := if b then s.instrs.tail else Cons(Move(AtomOp("false"), X(0)), RETURN);
    assert s.instrs.head == TestElse(t, 2) && Holds(t, s.xs, s.ys) == Some(b);
    assert Block(fn.blocks.tail, 2) == Some(Cons(Move(AtomOp("false"), X(0)), RETURN));
    assert Jumped(s, 2) == Go(s.(instrs := Cons(Move(AtomOp("false"), X(0)), RETURN)));
    assert Step(s) == Go(s.(instrs := branch));
    assert Exec(code, s.(instrs := branch), 4) == Done(Truth(b));
    assert Run(code, "f", 2, [v, w], 5) == Exec(code, s, 5);
    Answers(code, v, w, Truth(b));
  }

  /** Comparing two terms branches by their order, or by whether they are the same. */
  lemma ComparisonAnswers(v: Value, w: Value)
    ensures Returns(TestTable(IsLt(X(0), X(1))), "f", [v, w], Truth(Less(v, w)))
    ensures Returns(TestTable(IsGe(X(0), X(1))), "f", [v, w], Truth(!Less(v, w)))
    ensures Returns(TestTable(IsEqExact(X(0), X(1))), "f", [v, w], Truth(v == w))
  {
    hide Less, Returns, TestTable;
    TestAnswers(IsLt(X(0), X(1)), v, w, Less(v, w));
    TestAnswers(IsGe(X(0), X(1)), v, w, !Less(v, w));
    TestAnswers(IsEqExact(X(0), X(1)), v, w, v == w);
  }

  /** Testing for a list branches by its shape. */
  lemma ListTestAnswers(v: Value, w: Value)
    ensures Returns(TestTable(IsNonemptyList(X(1))), "f", [v, w], Truth(w.Pair?))
    ensures Returns(TestTable(IsNil(X(1))), "f", [v, w], Truth(w == Empty))
  {
    hide Returns, TestTable;
    TestAnswers(IsNonemptyList(X(1)), v, w, w.Pair?);
    TestAnswers(IsNil(X(1)), v, w, w == Empty);
  }

  lemma ArithAnswers(m: int, n: int)
    ensures Returns(Table(Cons(GcBif(Plus, X(0), X(1), X(0)), RETURN), Nil), "f", [Int(m), Int(n)], Int(m + n))
    ensures Returns(Table(Cons(GcBif(Minus, X(0), X(1), X(0)), RETURN), Nil), "f", [Int(m), Int(n)], Int(m - n))
    ensures Returns(Table(Cons(GcBif(Times, X(0), X(1), X(0)), RETURN), Nil), "f", [Int(m), Int(n)], Int(m * n))
  {
    Answers(Table(Cons(GcBif(Plus, X(0), X(1), X(0)), RETURN), Nil), Int(m), Int(n), Int(m + n));
    Answers(Table(Cons(GcBif(Minus, X(0), X(1), X(0)), RETURN), Nil), Int(m), Int(n), Int(m - n));
    Answers(Table(Cons(GcBif(Times, X(0), X(1), X(0)), RETURN), Nil), Int(m), Int(n), Int(m * n));
  }

  /** What a move finds in an operand: constants as they stand, arguments in the x registers, zeros behind them. */
  function Found(o: Operand, v: Value, w: Value): Option<Value> {
    match o
    case X(r) => if r == 0 then Some(v) else if r == 1 then Some(w) else if r < 8 then Some(Int(0)) else None
    case Y(r) => if r < 8 then Some(Int(0)) else None
    case Integer(n) => Some(Int(n))
    case AtomOp(a) => Some(Atom(a))
    case Literal(u) => Some(u)
    case NilOp => Some(Empty)
  }

  lemma MoveAnswers(o: Operand, v: Value, w: Value)
    requires Found(o, v, w).Some?
    ensures Returns(Table(Cons(Move(o, X(0)), RETURN), Nil), "f", [v, w], Found(o, v, w).value)
    ensures Returns(Table(Cons(Move(o, Y(3)), Cons(Move(Y(3), X(0)), RETURN)), Nil), "f", [v, w], Found(o, v, w).value)
  {
    Answers(Table(Cons(Move(o, X(0)), RETURN), Nil), v, w, Found(o, v, w).value);
    Answers(Table(Cons(Move(o, Y(3)), Cons(Move(Y(3), X(0)), RETURN)), Nil), v, w, Found(o, v, w).value);
  }

  lemma PairAnswers(v: Value, w: Value)
    ensures Returns(Table(Cons(PutList(X(0), X(1), X(0)), RETURN), Nil), "f", [v, w], Pair(v, w))
  {
    Answers(Table(Cons(PutList(X(0), X(1), X(0)), RETURN), Nil), v, w, Pair(v, w));
  }

  /** Make a pair in x2, take it apart into `h` and `t`, and return x0. */
  function ApartTable(h: Operand, t: Operand): Code {
    Table(Cons(PutList(X(0), X(1), X(2)), Cons(GetList(X(2), h, t), RETURN)), Nil)
  }

  /** A pair is taken apart into what it was made of. */
  lemma ApartAnswers(v: Value, w: Value)
    ensures Returns(ApartTable(X(0), X(3)), "f", [v, w], v)
    ensures Returns(ApartTable(X(3), X(0)), "f", [v, w], w)
  {
    Answers(ApartTable(X(0), X(3)), v, w, v);
    Answers(ApartTable(X(3), X(0)), v, w, w);
  }
}
