/** Modular powers, the extended Euclidean algorithm, RSA and Miller-Rabin. */
module NumberTheory {
  import opened Collections
  import opened ModArith

  // ---- Modular power ----

  function ModPow(b: int, e: nat, m: int): int
    requires m != 0
  {
    if e == 0 then Rem(1, m) else DoPow(Rem(b, m), e, m, 1)
  }

  /** Square and multiply: the low bit of `e` decides whether `b` joins the accumulator. */
  function DoPow(b: int, e: nat, m: int, acc: int): int
    requires m != 0
    decreases e
  {
    if e == 0 then acc
    else DoPow(Rem(b * b, m), e / 2, m, if e % 2 == 1 then Rem(acc * b, m) else acc)
  }

  lemma {:induction false} DoPowIs(b: int, e: nat, m: int, acc: int)
    requires m != 0 && e > 0
    ensures DoPow(b, e, m, acc) == Rem(acc * Pow(b, e), m)
    decreases e
  {
    var b2, half := Rem(b * b, m), e / 2;
    var acc2 := if e % 2 == 1 then Rem(acc * b, m) else acc;
    if half == 0 {
      assert e == 1 && Pow(b, 1) == b * Pow(b, 0) == b;
      assert DoPow(b2, 0, m, acc2) == acc2;
    } else {
      DoPowIs(b2, half, m, acc2);
      PowRem(b * b, half, m, acc2);
      PowHalves(b, e);
      var sq := Pow(b * b, half);
      if e % 2 == 1 {
        RemMul(acc * b, sq, m);
        MulAssoc(acc, b, sq);
      }
    }
  }

  /** The base may be reduced at any time. */
  lemma {:induction false} PowRem(b: int, e: nat, m: int, acc: int)
    requires m != 0
    ensures Rem(acc * Pow(Rem(b, m), e), m) == Rem(acc * Pow(b, e), m)
    decreases e
  {
    if e > 0 {
      var r := Rem(b, m);
      MulAssoc(acc, r, Pow(r, e - 1));
      PowRem(b, e - 1, m, acc * r);
      var rest := acc * Pow(b, e - 1);
      assert acc * r * Pow(b, e - 1) == r * rest by { Shuffle(acc, r, Pow(b, e - 1)); }
      assert acc * (b * Pow(b, e - 1)) == b * rest by { Shuffle(acc, b, Pow(b, e - 1)); MulAssoc(acc, b, Pow(b, e - 1)); }
      RemMul(b, rest, m);
    }
  }

  lemma Shuffle(a: int, r: int, p: int)
    ensures a * r * p == r * (a * p)
  {
    MulAssoc(r, a, p);
  }

  lemma PowHalves(b: int, e: nat)
    ensures Pow(b, e) == (if e % 2 == 1 then b else 1) * Pow(b * b, e / 2)
  {
    var h := e / 2;
    assert Pow(b, 2) == b * b by { assert Pow(b, 2) == b * Pow(b, 1) && Pow(b, 1) == b * Pow(b, 0); }
    PowMul(b, 2, h);
    assert 2 * h == if e % 2 == 1 then e - 1 else e;
  }

  /** `mod_pow` is the remainder of the power, for bases and moduli of either sign. */
  lemma ModPowIs(b: int, e: nat, m: int)
    requires m != 0
    ensures ModPow(b, e, m) == Rem(Pow(b, e), m)
  {
    if e > 0 {
      DoPowIs(Rem(b, m), e, m, 1);
      PowRem(b, e, m, 1);
    }
  }

  // ---- Extended Euclid ----

  function ExtGcd(a: int, b: int): (int, int, int)
    decreases Abs(b)
  {
    if b == 0 then (a, 1, 0)
    else
      DivRem(a, b);
      var (g, x, y) := ExtGcd(b, Rem(a, b));
      (g, y, x - Div(a, b) * y)
  }

  /** Bezout: the result combines `a` and `b`, and divides both. */
  lemma {:induction false} ExtGcdBezout(a: int, b: int)
    ensures var (g, x, y) := ExtGcd(a, b);
      a * x + b * y == g && Divides(g, a) && Divides(g, b)
    decreases Abs(b)
  {
    if b == 0 {
      assert a == a * 1 && b == a * 0;
    } else {
      DivRem(a, b);
      var q, r := Div(a, b), Rem(a, b);
      var (g, x, y) := ExtGcd(b, r);
      ExtGcdBezout(b, r);
      DividesMul(g, b, q);
      DividesSum(g, b * q, r);
      assert a == b * q + r;
      BezoutStep(a, b, q, r, x, y);
    }
  }

  lemma BezoutStep(a: int, b: int, q: int, r: int, x: int, y: int)
    requires a == b * q + r
    ensures a * y + b * (x - q * y) == b * x + r * y
  {
    assert (b * q + r) * y == (b * q) * y + r * y;
    assert b * (x - q * y) == b * x - b * (q * y);
    MulAssoc(b, q, y);
  }

  ghost predicate Coprime(a: int, m: int) {
    forall d: nat | Divides(d, a) && Divides(d, m) :: d == 1
  }

  function ModInverse(a: int, m: int): Option<int>
    requires m != 0
  {
    var (g, x, _) := ExtGcd(Rem(a, m), m);
    if g != 1 then None else Some(Rem(Rem(x, m) + m, m))
  }

  /** Whatever `mod_inverse` returns is an inverse, for every integer `a`. */
  lemma ModInverseSound(a: int, m: int)
    requires m > 0 && ModInverse(a, m).Some?
    ensures var inv := ModInverse(a, m).value; 0 <= inv < m && Cong(a * inv, 1, m)
  {
    hide Rem, Div, ExtGcd;
    var r := Rem(a, m);
    var (g, x, y) := ExtGcd(r, m);
    ExtGcdBezout(r, m);
    var inv := ModInverse(a, m).value;
    DivRem(x, m);
    DivRem(Rem(x, m) + m, m);
    InverseCong(x, m);
    RemCong(a, m);
    CongSym(r, a, m);
    CongMul(a, r, inv, x, m);
    assert r * x - 1 == m * -y;
    CongTrans(a * inv, r * x, 1, m);
  }

  lemma RemCong(x: int, m: int)
    requires m != 0
    ensures Cong(Rem(x, m), x, m)
  {
    DivRem(x, m);
    assert Rem(x, m) - x == m * -Div(x, m);
  }

  lemma InverseCong(x: int, m: int)
    requires m != 0
    ensures Cong(Rem(Rem(x, m) + m, m), x, m)
  {
    var r := Rem(x, m);
    RemCong(x, m);
    RemCong(r + m, m);
    assert (r + m) - r == m * 1;
    CongTrans(Rem(r + m, m), r + m, r, m);
    CongTrans(Rem(r + m, m), r, x, m);
  }

  lemma {:induction false} ExtGcdSign(a: int, b: int)
    requires a >= 0 && b >= 0 && (a > 0 || b > 0)
    ensures ExtGcd(a, b).0 > 0
    decreases Abs(b)
  {
    if b > 0 {
      DivRem(a, b);
      ExtGcdSign(b, Rem(a, b));
    }
  }

  /** For non-negative `a` an inverse is found exactly when `a` and `m` are coprime. */
  lemma CoprimeFound(a: nat, m: nat)
    requires m > 0
    ensures ModInverse(a, m).Some? <==> Coprime(a, m)
  {
    var r := Rem(a, m);
    DivRem(a, m);
    var (g, x, y) := ExtGcd(r, m);
    ExtGcdBezout(r, m);
    ExtGcdSign(r, m);
    if g == 1 {
      forall d: nat | Divides(d, a) && Divides(d, m) ensures d == 1 {
        DividesMul(d, m, Div(a, m));
        DividesSum(d, a, m * Div(a, m));
        DividesMul(d, r, x);
        DividesMul(d, m, y);
        DividesSum(d, r * x, m * y);
        DividesOne(d);
      }
    } else {
      DividesMul(g, m, Div(a, m));
      DividesSum(g, m * Div(a, m), r);
      assert Divides(g, a) && Divides(g, m);
    }
  }

  // ---- Negative arguments ----

  ghost predicate OppositeSigns(u: int, v: int) {
    (u > 0 && v < 0) || (u < 0 && v > 0)
  }

  /** On arguments of opposite signs the coefficients are not negative, and at most half the other argument. */
  lemma {:induction false} ExtGcdHalves(u: int, v: int)
    requires OppositeSigns(u, v) && Abs(u) > Abs(v)
    ensures var (g, x, y) := ExtGcd(u, v);
      x >= 0 && y >= 0 && 2 * (x * Abs(g)) <= Abs(v) && 2 * (y * Abs(g)) <= Abs(u)
    decreases Abs(v)
  {
    hide ExtGcd, Div, Rem;
    var q, r := Div(u, v), Rem(u, v);
    ExtGcdUnfolds(u, v);
    DivSigns(u, v);
    if r == 0 {
      ExtGcdZero(v);
      HalfBase(Abs(u), Abs(v), -q);
    } else {
      ExtGcdHalves(v, r);
      var (g, x, y) := ExtGcd(v, r);
      HalfStep(Abs(u), Abs(v), Abs(r), -q, x, y, Abs(g));
      NegatedQuotient(x, q, y);
    }
  }

  lemma NegatedQuotient(x: int, q: int, y: int)
    ensures x - q * y == x + -q * y
  {
  }

  lemma HalfBase(u: nat, v: nat, q: int)
    requires u == v * q && u > v
    ensures 2 * v <= u
  {
    ProductBounds(v, q);
  }

  lemma ProductBounds(v: nat, q: int)
    ensures if q <= 1 then v * q <= v else v * q >= 2 * v
  {
  }

  lemma ExtGcdUnfolds(a: int, b: int)
    requires b != 0
    ensures var (g, x, y) := ExtGcd(b, Rem(a, b)); ExtGcd(a, b) == (g, y, x - Div(a, b) * y)
  {
    DivRem(a, b);
  }

  lemma ExtGcdZero(a: int)
    ensures ExtGcd(a, 0) == (a, 1, 0)
  {
  }

  /** Dividing by a smaller number of the other sign: a negative quotient, and a remainder of the first sign. */
  lemma DivSigns(u: int, v: int)
    requires OppositeSigns(u, v) && Abs(u) > Abs(v)
    ensures Div(u, v) <= -1 && Abs(u) == Abs(v) * -Div(u, v) + Abs(Rem(u, v))
    ensures Abs(Rem(u, v)) < Abs(v) && (Rem(u, v) == 0 || OppositeSigns(v, Rem(u, v)))
  {
    var n, d := Abs(u), Abs(v);
    assert n == d * (n / d) + n % d;
    QuotientPositive(n, d);
  }

  lemma QuotientPositive(n: nat, d: nat)
    requires n >= d > 0
    ensures n / d >= 1
  {
  }

  lemma HalfStep(u: nat, v: nat, r: nat, q: nat, x: int, y: int, g: nat)
    requires u == v * q + r && x >= 0 && y >= 0 && 2 * (x * g) <= r && 2 * (y * g) <= v
    ensures x + q * y >= 0 && 2 * ((x + q * y) * g) <= u
  {
    assert (x + q * y) * g == x * g + q * (y * g) by { MulAssoc(q, y, g); }
    assert q * (2 * (y * g)) <= q * v;
    assert q * (2 * (y * g)) == 2 * (q * (y * g));
  }

  /** For a negative remainder: the first coefficient is at most half the modulus. */
  lemma NegativeRemainder(r: int, m: nat)
    requires 0 < -r < m
    ensures var (g, x, y) := ExtGcd(r, m); x >= 0 && 2 * (x * Abs(g)) <= m
  {
    hide ExtGcd;
    SmallRemainder(r, m);
    hide Rem, Div;
    ExtGcdUnfolds(r, m);
    ExtGcdHalves(m, r);
  }

  lemma SmallRemainder(r: int, m: nat)
    requires 0 < -r < m
    ensures Rem(r, m) == r && Div(r, m) == 0
  {
  }

  /** Some inverse of `a` lies in the lower half of the residues. */
  ghost predicate LowInverse(a: int, m: nat) {
    exists inv :: 0 <= inv && 2 * inv < m && Cong(a * inv, 1, m)
  }

  lemma FoundIsLow(r: int, m: nat)
    requires 0 < -r < m && ExtGcd(r, m).0 == 1
    ensures LowInverse(r, m)
  {
    hide ExtGcd;
    var (g, x, y) := ExtGcd(r, m);
    ExtGcdBezout(r, m);
    NegativeRemainder(r, m);
    assert r * x - 1 == m * -y;
    if 2 * x == m {
      assert r * x + m * y == x * (r + 2 * y);
      assert Divides(x, 1);
      DividesOne(x);
      HalfOfTwo(r, m);
    }
    assert Cong(r * x, 1, m);
  }

  lemma HalfOfTwo(r: int, m: nat)
    requires m == 2 && 0 < -r < m
    ensures ExtGcd(r, m).0 == -1
  {
    assert Rem(-1, 2) == -1 && Rem(2, -1) == 0;
    assert ExtGcd(-1, 0) == (-1, 1, 0);
    assert ExtGcd(2, -1).0 == -1;
  }

  lemma LowIsFound(r: int, m: nat)
    requires 0 < -r < m && LowInverse(r, m)
    ensures ExtGcd(r, m).0 == 1
  {
    hide ExtGcd;
    var inv :| 0 <= inv && 2 * inv < m && Cong(r * inv, 1, m);
    var (g, x, y) := ExtGcd(r, m);
    ExtGcdBezout(r, m);
    NegativeRemainder(r, m);
    CommonDivisorIsOne(g, r, inv, m);
    if g == -1 {
      NegatedInverses(r, inv, x, y, m);
      ZeroHasNone(r, inv, m);
      DividesSmall(m, inv + x);
    }
  }

  /** A common divisor of an invertible number and the modulus is 1 or -1. */
  lemma CommonDivisorIsOne(g: int, r: int, inv: int, m: nat)
    requires Divides(g, r) && Divides(g, m) && Cong(r * inv, 1, m)
    ensures g == 1 || g == -1
  {
    var k :| r * inv - 1 == m * k;
    DividesMul(g, r, inv);
    DividesMul(g, m, k);
    DividesSum(g, r * inv, m * k);
    assert r * inv - m * k == 1;
    DividesAbs(g, 1);
    DividesOne(Abs(g));
  }

  /** An inverse and the negative of one add up to a multiple of the modulus. */
  lemma NegatedInverses(r: int, inv: int, x: int, y: int, m: nat)
    requires r * x + m * y == -1 && Cong(r * inv, 1, m)
    ensures Divides(m, inv + x)
  {
    assert r * x - -1 == m * -y;
    assert Cong(r * x, -1, m);
    DividesSum(m, r * inv - 1, r * x - -1);
    assert r * inv - 1 + (r * x - -1) == r * (inv + x);
    DividesMul(m, r * (inv + x), inv);
    DividesMul(m, r * inv - 1, inv + x);
    assert r * (inv + x) * inv - (r * inv - 1) * (inv + x) == inv + x;
    DividesSum(m, r * (inv + x) * inv, (r * inv - 1) * (inv + x));
  }

  lemma ZeroHasNone(r: int, inv: int, m: nat)
    requires m > 1 && Cong(r * inv, 1, m)
    ensures inv != 0
  {
    if inv == 0 {
      DividesSmall(m, r * inv - 1);
    }
  }

  /** Congruent arguments have the same inverses. */
  lemma SameInverses(a: int, r: int, m: nat)
    requires Cong(r, a, m)
    ensures LowInverse(a, m) <==> LowInverse(r, m)
  {
    if inv :| 0 <= inv && 2 * inv < m && Cong(a * inv, 1, m) {
      InverseMoves(r, a, inv, m);
    }
    if inv :| 0 <= inv && 2 * inv < m && Cong(r * inv, 1, m) {
      CongSym(r, a, m);
      InverseMoves(a, r, inv, m);
    }
  }

  lemma InverseMoves(r: int, a: int, inv: int, m: nat)
    requires Cong(r, a, m) && Cong(a * inv, 1, m)
    ensures Cong(r * inv, 1, m)
  {
    CongRefl(inv, m);
    CongMul(r, a, inv, inv, m);
    CongTrans(r * inv, a * inv, 1, m);
  }

  lemma NegativeMultipleFound(a: int, m: nat)
    requires m > 0 && Rem(a, m) == 0
    ensures ModInverse(a, m).Some? <==> LowInverse(a, m)
  {
    hide Rem, Div, ExtGcd;
    RemCong(a, m);
    SameInverses(a, 0, m);
    ExtGcdOfZero(m);
    if m == 1 {
      assert 0 * 0 - 1 == 1 * -1;
      assert Cong(0 * 0, 1, 1);
    } else if inv :| 0 <= inv && 2 * inv < m && Cong(0 * inv, 1, m) {
      DividesSmall(m, 0 * inv - 1);
    }
  }

  lemma ExtGcdOfZero(m: nat)
    requires m > 0
    ensures ExtGcd(0, m).0 == m
  {
    assert Rem(0, m) == 0;
    assert ExtGcd(m, 0) == (m, 1, 0);
  }

  /**
   * Exactly when an inverse is found. A non-negative argument needs to be coprime to the modulus. For a negative one
   * the signs of the remainders can end the chain at -1; it does not exactly when the inverse lies in the lower half
   * of the residues.
   */
  lemma ModInverseExact(a: int, m: nat)
    requires m > 0
    ensures ModInverse(a, m).Some? <==> if a >= 0 then Coprime(a, m) else LowInverse(a, m)
  {
    if a >= 0 {
      CoprimeFound(a, m);
    } else {
      DivRem(a, m);
      var r := Rem(a, m);
      if r == 0 {
        NegativeMultipleFound(a, m);
      } else {
        RemCong(a, m);
        SameInverses(a, r, m);
        if ExtGcd(r, m).0 == 1 { FoundIsLow(r, m); }
        if LowInverse(r, m) { LowIsFound(r, m); }
      }
    }
  }

  lemma DividesOne(d: nat)
    requires Divides(d, 1)
    ensures d == 1
  {
    var k :| 1 == d * k;
    assert d != 0 && k != 0;
    MulBig(d, k);
  }

  /** So an existing inverse can be missed. */
  lemma ModInverseMissesNegative()
    ensures ModInverse(-1, 5) == None && Coprime(-1, 5)
  {
    assert ExtGcd(-1, 0) == (-1, 1, 0);
    assert ExtGcd(5, -1) == (-1, 0, 1);
    assert ExtGcd(-1, 5).0 == -1;
    forall d: nat | Divides(d, -1) && Divides(d, 5) ensures d == 1 {
      DividesMul(d, -1, -1);
      DividesOne(d);
    }
  }

  // ---- Primes ----

  ghost predicate Prime(p: nat) {
    p >= 2 && forall d: nat | Divides(d, p) :: d == 1 || d == p
  }

  /** A prime that divides a product divides a factor. */
  lemma EuclidLemma(p: nat, a: int, b: int)
    requires Prime(p) && Divides(p, a * b)
    ensures Divides(p, a) || Divides(p, b)
  {
    var (g, x, y) := ExtGcd(a, p);
    ExtGcdBezout(a, p);
    var d: nat := Abs(g);
    assert Divides(d, p) && Divides(d, a) by { DividesAbs(g, p); DividesAbs(g, a); }
    if d == 1 {
      DividesMul(p, a * b, x);
      DividesMul(p, p, b * y) by { assert p == p * 1; }
      DividesSum(p, a * b * x, p * (b * y));
      assert b * g == a * b * x + p * (b * y) by {
        assert b * (a * x + p * y) == b * (a * x) + b * (p * y);
        Rearrange(a, b, x, p, y);
      }
      DividesMul(p, b * g, g);
      assert b * g * g == b;
    }
  }

  lemma Rearrange(a: int, b: int, x: int, p: int, y: int)
    ensures b * (a * x) == a * b * x && b * (p * y) == p * (b * y)
  {
    MulAssoc(b, a, x);
    MulAssoc(b, p, y);
    MulAssoc(p, b, y);
  }

  lemma DividesAbs(g: int, x: int)
    requires Divides(g, x)
    ensures Divides(Abs(g), x)
  {
    var k :| x == g * k;
    assert g < 0 ==> x == Abs(g) * -k;
  }
}
