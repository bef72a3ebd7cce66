/** Divisibility, congruence and truncated division: the arithmetic behind NumberTheory. */
module ModArith {

  // ---- Elixir's `div` and `rem` truncate toward zero ----

  function Abs(a: int): nat {
    if a < 0 then -a else a
  }

  function Div(a: int, b: int): int
    requires b != 0
  {
    if (a >= 0) == (b > 0) then Abs(a) / Abs(b) else -(Abs(a) / Abs(b))
  }

  function Rem(a: int, b: int): int
    requires b != 0
  {
    if a >= 0 then a % Abs(b) else -(-a % Abs(b))
  }

  lemma DivRem(a: int, b: int)
    requires b != 0
    ensures a == b * Div(a, b) + Rem(a, b)
    ensures Abs(Rem(a, b)) < Abs(b)
    ensures (a >= 0 ==> Rem(a, b) >= 0) && (a <= 0 ==> Rem(a, b) <= 0)
  {
    var q, r := Abs(a) / Abs(b), Abs(a) % Abs(b);
    DivModNat(Abs(a), Abs(b));
    DivRemAre(a, b, q, r);
    hide Div, Rem;
    SignedProduct(b, q);
  }

  lemma DivRemAre(a: int, b: int, q: int, r: int)
    requires b != 0 && q == Abs(a) / Abs(b) && r == Abs(a) % Abs(b)
    ensures Div(a, b) == (if (a >= 0) == (b > 0) then q else -q) && Rem(a, b) == if a >= 0 then r else -r
  {
  }

  lemma DivModNat(n: nat, d: nat)
    requires d > 0
    ensures n == d * (n / d) + n % d && n % d < d
  {
  }

  lemma SignedProduct(b: int, q: int)
    ensures b * -q == -(b * q) && Abs(b) * q == if b >= 0 then b * q else -(b * q)
  {
  }

  lemma MulBig(m: int, k: int)
    requires m != 0 && k != 0
    ensures Abs(m * k) >= Abs(m)
  {
    if m > 0 {
      if k > 0 { assert m * k >= m; } else { assert m * k <= 0 - m; }
    } else {
      if k > 0 { assert m * k <= m; } else { assert m * k >= 0 - m; }
    }
  }

  lemma MulZero(m: int, k: int)
    requires m != 0 && Abs(m * k) < Abs(m)
    ensures k == 0
  {
    if k != 0 { MulBig(m, k); }
  }

  /** The truncated remainder is the only one of its size and sign. */
  lemma RemUnique(x: int, m: int, k: int, r: int)
    requires m != 0 && x == m * k + r && Abs(r) < Abs(m)
    requires (x >= 0 ==> r >= 0) && (x <= 0 ==> r <= 0)
    ensures r == Rem(x, m)
  {
    hide Div, Rem;
    DivRem(x, m);
    var q := Div(x, m);
    MulDifference(m, q, k);
    MulZero(m, q - k);
  }

  lemma MulDifference(m: int, q: int, k: int)
    ensures m * (q - k) == m * q - m * k
  {
  }

  lemma RemMul(x: int, y: int, m: int)
    requires m != 0
    ensures Rem(Rem(x, m) * y, m) == Rem(x * y, m)
  {
    var q, r := Div(x, m), Rem(x, m);
    DivRem(x, m);
    var p, s := Div(r * y, m), Rem(r * y, m);
    DivRem(r * y, m);
    Regroup(x, y, m, q, r, p, s);
    Signs(x, y, r);
    RemUnique(x * y, m, q * y + p, s);
  }

  lemma Regroup(x: int, y: int, m: int, q: int, r: int, p: int, s: int)
    requires x == m * q + r && r * y == m * p + s
    ensures x * y == m * (q * y + p) + s
  {
    assert (m * q + r) * y == (m * q) * y + r * y;
    MulAssoc(m, q, y);
    assert m * (q * y + p) == m * (q * y) + m * p;
  }

  lemma Signs(x: int, y: int, r: int)
    requires (x >= 0 ==> r >= 0) && (x <= 0 ==> r <= 0)
    ensures (x * y >= 0 ==> r * y >= 0) && (x * y <= 0 ==> r * y <= 0)
  {
    if y == 0 {
    } else if x == 0 {
      assert r == 0;
    } else if y > 0 {
      if x > 0 { assert x * y > 0; assert r * y >= 0; } else { assert x * y < 0; assert r * y <= 0; }
    } else {
      if x > 0 { assert x * y < 0; assert r * y <= 0; } else { assert x * y > 0; assert r * y >= 0; }
    }
  }

  // ---- Divisibility ----

  ghost predicate Divides(d: int, x: int) {
    exists k: int :: x == d * k
  }

  lemma DividesMul(d: int, x: int, y: int)
    requires Divides(d, x)
    ensures Divides(d, x * y) && Divides(d, y * x)
  {
    var k :| x == d * k;
    assert x * y == d * (k * y) && y * x == d * (k * y);
  }

  lemma DividesSum(d: int, x: int, y: int)
    requires Divides(d, x) && Divides(d, y)
    ensures Divides(d, x + y) && Divides(d, x - y)
  {
    var k :| x == d * k;
    var l :| y == d * l;
    assert x + y == d * (k + l) && x - y == d * (k - l);
  }

  lemma DividesMod(d: nat, x: int)
    requires d > 0
    ensures Divides(d, x) <==> x % d == 0
  {
    if x % d == 0 {
      assert x == d * (x / d);
    }
    if Divides(d, x) {
      var k :| x == d * k;
      var q, r := x / d, x % d;
      assert d * (k - q) == r;
      MulZero(d, k - q);
    }
  }

  lemma DividesSmall(d: nat, x: int)
    requires Divides(d, x) && Abs(x) < d
    ensures x == 0
  {
    var k :| x == d * k;
    MulZero(d, k);
  }

  // ---- Congruence ----

  ghost predicate Cong(a: int, b: int, m: int) {
    Divides(m, a - b)
  }

  lemma CongRefl(a: int, m: int)
    ensures Cong(a, a, m)
  {
    assert a - a == m * 0;
  }

  lemma CongSym(a: int, b: int, m: int)
    requires Cong(a, b, m)
    ensures Cong(b, a, m)
  {
    var k :| a - b == m * k;
    assert b - a == m * -k;
  }

  lemma CongTrans(a: int, b: int, c: int, m: int)
    requires Cong(a, b, m) && Cong(b, c, m)
    ensures Cong(a, c, m)
  {
    DividesSum(m, a - b, b - c);
    assert a - c == (a - b) + (b - c);
  }

  lemma CongMul(a: int, b: int, x: int, y: int, m: int)
    requires Cong(a, b, m) && Cong(x, y, m)
    ensures Cong(a * x, b * y, m)
  {
    DividesMul(m, a - b, x);
    DividesMul(m, x - y, b);
    DividesSum(m, (a - b) * x, b * (x - y));
    assert a * x - b * y == (a - b) * x + b * (x - y);
  }

  lemma CongMod(a: int, m: nat)
    requires m > 0
    ensures Cong(a % m, a, m) && Cong(a, a % m, m)
  {
    assert a - a % m == m * (a / m) && a % m - a == m * -(a / m);
  }

  lemma CongUnique(a: nat, b: nat, m: nat)
    requires a < m && b < m && Cong(a, b, m)
    ensures a == b
  {
    DividesSmall(m, a - b);
  }

  // ---- Powers ----

  function Pow(b: int, e: nat): int {
    if e == 0 then 1 else b * Pow(b, e - 1)
  }

  lemma {:induction false} PowAdd(b: int, x: nat, y: nat)
    ensures Pow(b, x + y) == Pow(b, x) * Pow(b, y)
    decreases x
  {
    if x > 0 {
      PowAdd(b, x - 1, y);
      MulAssoc(b, Pow(b, x - 1), Pow(b, y));
    }
  }

  lemma {:induction false} PowMul(b: int, x: nat, y: nat)
    ensures x * y >= 0 && Pow(b, x * y) == Pow(Pow(b, x), y)
    decreases y
  {
    if y > 0 {
      PowMul(b, x, y - 1);
      assert x * y == x + x * (y - 1);
      PowAdd(b, x, x * (y - 1));
    }
  }

  lemma MulAssoc(a: int, b: int, c: int)
    ensures a * (b * c) == (a * b) * c
  {
  }

  lemma {:induction false} PowOne(e: nat)
    ensures Pow(1, e) == 1
  {
    if e > 0 { PowOne(e - 1); }
  }

  lemma {:induction false} CongPow(a: int, b: int, e: nat, m: int)
    requires Cong(a, b, m)
    ensures Cong(Pow(a, e), Pow(b, e), m)
  {
    if e == 0 {
      CongRefl(1, m);
    } else {
      CongPow(a, b, e - 1, m);
      CongMul(a, b, Pow(a, e - 1), Pow(b, e - 1), m);
    }
  }
}
