/** What the measures of an expression say: its parts, its paths and its variables. */
module ExprShapes {
  import opened ExprCompiler

  function Children(x: Expr): (xs: seq<Expr>)
    ensures forall c | c in xs :: c < x
  {
    match x
    case Num(_) => []
    case Var(_) => []
    case Neg(e) => [e]
    case If(c, t, e) => [c, t, e]
    case Bin(_, l, r) => [l, r]
  }

  /** The expression at the end of a path, which picks a child at every step. */
  ghost predicate IsAt(x: Expr, path: seq<nat>, y: Expr)
    decreases path
  {
    if path == [] then x == y else path[0] < |Children(x)| && IsAt(Children(x)[path[0]], path[1..], y)
  }

  /** The expression and all expressions inside it, in the order in which they are written. */
  ghost function Written(x: Expr): seq<Expr>
    decreases x, 1
  {
    [x] + WrittenAll(x, Children(x))
  }

  ghost function WrittenAll(x: Expr, xs: seq<Expr>): seq<Expr>
    requires forall c | c in xs :: c < x
    decreases x, 0, |xs|
  {
    if xs == [] then []
    else
      assert xs[0] in xs && forall c | c in xs[1..] :: c in xs;
      Written(xs[0]) + WrittenAll(x, xs[1..])
  }

  lemma WrittenCons(x: Expr, y: Expr, ys: seq<Expr>)
    requires y < x && forall c | c in ys :: c < x
    ensures (forall c | c in [y] + ys :: c < x) && WrittenAll(x, [y] + ys) == Written(y) + WrittenAll(x, ys)
  {
    assert ([y] + ys)[1..] == ys;
  }

  /** The size is the number of expressions written. */
  lemma {:induction false} SizeIs(x: Expr)
    ensures Size(x) == |Written(x)|
  {
    var xs := Children(x);
    match x
    case Neg(e) =>
      assert xs == [e] + [];
      SizeIs(e);
      WrittenCons(x, e, []);
    case If(c, t, e) =>
      SizeIs(c);
      SizeIs(t);
      SizeIs(e);
      assert xs == [c] + ([t] + ([e] + []));
      WrittenCons(x, c, [t] + ([e] + []));
      WrittenCons(x, t, [e] + []);
      WrittenCons(x, e, []);
    case Bin(_, l, r) =>
      SizeIs(l);
      SizeIs(r);
      assert xs == [l] + ([r] + []);
      WrittenCons(x, l, [r] + []);
      WrittenCons(x, r, []);
    case _ =>
  }

  lemma StepDown(x: Expr, j: nat, path: seq<nat>, y: Expr)
    requires j < |Children(x)| && IsAt(Children(x)[j], path, y)
    ensures IsAt(x, [j] + path, y)
  {
    assert ([j] + path)[1..] == path;
  }

  /** The depth is one more than the length of the longest path. */
  lemma {:induction false} DepthIs(x: Expr) returns (longest: seq<nat>, end: Expr)
    ensures IsAt(x, longest, end) && |longest| + 1 == Depth(x)
    ensures forall path, y | IsAt(x, path, y) :: |path| + 1 <= Depth(x)
  {
    longest, end := [], x;
    var xs := Children(x);
    var i := 0;
    while i < |xs|
      invariant 0 <= i <= |xs|
      invariant IsAt(x, longest, end)
      invariant forall j, path, y | 0 <= j < i && IsAt(xs[j], path, y) :: |path| + 2 <= |longest| + 1
      invariant forall j | 0 <= j < i :: Depth(xs[j]) + 1 <= |longest| + 1
      invariant (i == 0 && longest == []) || exists j | 0 <= j < i :: Depth(xs[j]) + 1 == |longest| + 1
    {
      assert xs[i] in xs;
      var down, y := DepthIs(xs[i]);
      if |down| + 1 > |longest| {
        StepDown(x, i, down, y);
        longest, end := [i] + down, y;
      }
      i := i + 1;
    }
    LongestChild(x, |longest| + 1);
    forall path, y | IsAt(x, path, y) ensures |path| + 1 <= Depth(x) {
      if path != [] { assert IsAt(xs[path[0]], path[1..], y); }
    }
  }

  lemma LongestChild(x: Expr, d: nat)
    requires forall j | 0 <= j < |Children(x)| :: Depth(Children(x)[j]) + 1 <= d
    requires (Children(x) == [] && d == 1) || exists j | 0 <= j < |Children(x)| :: Depth(Children(x)[j]) + 1 == d
    ensures Depth(x) == d
  {
    var xs := Children(x);
    if xs != [] { assert Depth(xs[0]) + 1 <= d; }
    if |xs| > 1 { assert Depth(xs[1]) + 1 <= d; }
    if |xs| > 2 { assert Depth(xs[2]) + 1 <= d; }
  }

  /** A variable stands somewhere inside. */
  ghost predicate Mentions(x: Expr, k: string) {
    exists path :: IsAt(x, path, Var(k))
  }

  lemma MentionsInChild(x: Expr, k: string)
    ensures Mentions(x, k) <==> x == Var(k) || exists j | 0 <= j < |Children(x)| :: Mentions(Children(x)[j], k)
  {
    var xs := Children(x);
    if x == Var(k) { assert IsAt(x, [], Var(k)); }
    if j :| 0 <= j < |xs| && Mentions(xs[j], k) {
      var path :| IsAt(xs[j], path, Var(k));
      StepDown(x, j, path, Var(k));
    }
    if path :| IsAt(x, path, Var(k)) && path != [] {
      assert IsAt(xs[path[0]], path[1..], Var(k));
    }
  }

  lemma {:induction false} HasVarIs(x: Expr)
    ensures HasVar(x) <==> exists k :: Mentions(x, k)
  {
    hide Mentions;
    var xs := Children(x);
    forall k ensures Mentions(x, k) <==> x == Var(k) || exists j | 0 <= j < |xs| :: Mentions(xs[j], k) {
      MentionsInChild(x, k);
    }
    forall j | 0 <= j < |xs| ensures HasVar(xs[j]) <==> exists k :: Mentions(xs[j], k) {
      assert xs[j] in xs;
      HasVarIs(xs[j]);
    }
    if x.Var? {
      assert Mentions(x, x.k);
    } else {
      VarInChild(x);
      if HasVar(x) {
        var j :| 0 <= j < |xs| && HasVar(xs[j]);
        var k :| Mentions(xs[j], k);
        assert Mentions(x, k);
      }
      if k :| Mentions(x, k) {
        var j :| 0 <= j < |xs| && Mentions(xs[j], k);
        assert HasVar(xs[j]);
      }
    }
  }

  lemma VarInChild(x: Expr)
    requires !x.Var?
    ensures HasVar(x) <==> exists j | 0 <= j < |Children(x)| :: HasVar(Children(x)[j])
  {
    var xs := Children(x);
    if HasVar(x) {
      assert HasVar(xs[0]) || (|xs| > 1 && HasVar(xs[1])) || (|xs| > 2 && HasVar(xs[2]));
    }
  }
}
