/** What the number-theory program relies on: RSA decrypts, and Miller-Rabin never rejects a prime. */
module RsaPrimality {
  import opened Collections
  import opened ModArith
  import opened NumberTheory
  import opened Fermat

  // ---- RSA ----

  /** m^(1 + (p-1) k) is congruent to m modulo the prime p, whatever m is. */
  lemma PrimePart(m: int, p: nat, k: nat)
    requires Prime(p)
    ensures Cong(m * Pow(Pow(m, p - 1), k), m, p)
  {
    var P := Pow(Pow(m, p - 1), k);
    if Divides(p, m) {
      DividesMul(p, m, P - 1);
      assert m * P - m == m * (P - 1);
    } else {
      LittleFermat(m, p);
      CongPow(Pow(m, p - 1), 1, k, p);
      PowOne(k);
      CongRefl(m, p);
      CongMul(m, m, P, 1, p);
    }
  }

  /** Distinct primes that divide a number divide it together. */
  lemma PrimesJoin(p: nat, q: nat, x: int)
    requires Prime(p) && Prime(q) && p != q && Divides(p, x) && Divides(q, x)
    ensures Divides(p * q, x)
  {
    var k :| x == p * k;
    EuclidLemma(q, p, k);
    if !Divides(q, p) {
      var l :| k == q * l;
      MulAssoc(p, q, l);
      assert x == p * q * l;
    }
  }

  lemma PrimeExponent(m: int, p: nat, t: nat)
    requires Prime(p)
    ensures Cong(Pow(m, 1 + (p - 1) * t), m, p)
  {
    PowMul(m, p - 1, t);
    assert Pow(m, 1 + (p - 1) * t) == m * Pow(m, (p - 1) * t);
    hide Pow;
    PrimePart(m, p, t);
  }

  lemma RsaExponent(m: int, p: nat, q: nat, k: nat)
    requires Prime(p) && Prime(q) && p != q
    ensures (p - 1) * (q - 1) * k >= 0
    ensures Cong(Pow(m, 1 + (p - 1) * (q - 1) * k), m, p * q)
  {
    hide Pow, Divides, Prime;
    PrimeSize(p);
    PrimeSize(q);
    ExponentSplit(p - 1, q - 1, k);
    PrimeExponent(m, p, (q - 1) * k);
    PrimeExponent(m, q, (p - 1) * k);
    PrimesJoin(p, q, Pow(m, 1 + (p - 1) * (q - 1) * k) - m);
  }

  lemma PrimeSize(p: nat)
    requires Prime(p)
    ensures p >= 2
  {
  }

  lemma ExponentSplit(a: nat, b: nat, k: nat)
    ensures b * k >= 0 && a * k >= 0
    ensures a * b * k == a * (b * k) == b * (a * k)
  {
    MulAssoc(a, b, k);
    MulAssoc(b, a, k);
  }

  /** Decrypting an encrypted message gives it back, for every message below the modulus. */
  lemma RsaRoundTrip(p: nat, q: nat, e: nat, d: nat, m: nat)
    requires Prime(p) && Prime(q) && p != q && m < p * q
    requires e > 0 && Cong(e * d, 1, (p - 1) * (q - 1))
    ensures ModPow(ModPow(m, e, p * q), d, p * q) == m
  {
    var n, phi := p * q, (p - 1) * (q - 1);
    var k :| e * d - 1 == phi * k;
    PhiAtLeastTwo(p, q);
    ExponentPositive(e, d, phi, k);
    var c := ModPow(m, e, n);
    ModPowIs(m, e, n);
    ModPowIs(c, d, n);
    PowNonNegative(m, e);
    assert c == Pow(m, e) % n;
    PowNonNegative(c, d);
    CongMod(Pow(m, e), n);
    CongPow(c, Pow(m, e), d, n);
    PowMul(m, e, d);
    RsaExponent(m, p, q, k);
    assert e * d == 1 + phi * k;
    CongTrans(Pow(c, d), Pow(m, e * d), m, n);
    CongMod(Pow(c, d), n);
    CongTrans(Pow(c, d) % n, Pow(c, d), m, n);
    CongUnique(Pow(c, d) % n, m, n);
  }

  lemma PhiAtLeastTwo(p: nat, q: nat)
    requires p >= 2 && q >= 2 && p != q
    ensures (p - 1) * (q - 1) >= 2
  {
    if p > 2 { assert (p - 1) * (q - 1) >= p - 1; } else { assert (p - 1) * (q - 1) >= q - 1; }
  }

  lemma ExponentPositive(e: nat, d: nat, phi: nat, k: int)
    requires phi >= 2 && e * d - 1 == phi * k
    ensures k >= 0
  {
    assert e * d >= 0;
    if k < 0 { MulNegative(phi, k); }
  }

  lemma MulNegative(a: nat, k: int)
    requires k < 0
    ensures a * k <= 0 - a
  {
  }

  lemma {:induction false} PowNonNegative(b: nat, e: nat)
    ensures Pow(b, e) >= 0
  {
    if e > 0 { PowNonNegative(b, e - 1); }
  }

  /** The program's own key: for an exponent coprime to phi an inverse is found and it decrypts. */
  lemma RsaKeyWorks(p: nat, q: nat, e: nat, m: nat)
    requires Prime(p) && Prime(q) && p != q && m < p * q
    requires e > 0 && Coprime(e, (p - 1) * (q - 1))
    ensures var d := ModInverse(e, (p - 1) * (q - 1));
      d.Some? && d.value >= 0 && ModPow(ModPow(m, e, p * q), d.value, p * q) == m
  {
    var phi := (p - 1) * (q - 1);
    PhiAtLeastTwo(p, q);
    ModInverseExact(e, phi);
    ModInverseSound(e, phi);
    RsaRoundTrip(p, q, e, ModInverse(e, phi).value, m);
  }

  // ---- Miller-Rabin ----

  const WITNESSES := [2, 3, 5, 7, 11, 13, 17, 19, 23, 29, 31, 37]

  /** Take all factors of two out of `d`. */
  function FactorTwo(d: nat, r: nat): (res: (nat, nat))
    requires d > 0
    ensures res.0 % 2 == 1 && res.1 >= r && d == res.0 * Pow(2, res.1 - r)
    decreases d
  {
    if d % 2 == 1 then (d, r)
    else
      var res := FactorTwo(d / 2, r + 1);
      assert d == res.0 * Pow(2, res.1 - r) by {
        assert d == 2 * (d / 2);
        Swap3(2, res.0, Pow(2, res.1 - r - 1));
      }
      res
  }

  predicate MrLoop(x: int, n: nat, r: nat)
    requires n > 0
    decreases r
  {
    if r == 0 then false
    else
      var y := Rem(x * x, n);
      if y == n - 1 then true
      else if y == 1 then false
      else MrLoop(y, n, r - 1)
  }

  /** `r` is positive wherever the code calls this; a zero would make its loop run forever. */
  predicate MrCheck(a: int, d: nat, n: nat, r: nat)
    requires n > 0 && r > 0
  {
    var x := ModPow(a, d, n);
    x == 1 || x == n - 1 || MrLoop(x, n, r - 1)
  }

  predicate IsPrime(n: int) {
    if n < 2 then false
    else if n == 2 || n == 3 then true
    else if Rem(n, 2) == 0 then false
    else
      var (d, r) := FactorTwo(n - 1, 0);
      EvenPart(n - 1, d, r);
      forall i | 0 <= i < |WITNESSES| :: Rem(WITNESSES[i], n) == 0 || MrCheck(WITNESSES[i], d, n, r)
  }

  lemma EvenPart(m: nat, d: nat, r: nat)
    requires m % 2 == 0 && d % 2 == 1 && m == d * Pow(2, r)
    ensures r > 0
  {
    assert Pow(2, 0) == 1;
  }

  /** Modulo a prime only 1 and -1 have square 1. */
  lemma SquareRoots(n: nat, x: int)
    requires Prime(n) && 0 <= x < n && Cong(x * x, 1, n)
    ensures x == 1 || x == n - 1
  {
    assert x * x - 1 == (x - 1) * (x + 1);
    EuclidLemma(n, x - 1, x + 1);
    if Divides(n, x - 1) {
      DividesSmall(n, x - 1);
    } else {
      var k :| x + 1 == n * k;
      if x + 1 != n { DividesSmall(n, x + 1); }
    }
  }

  /** With `r` squarings left before the power is 1, the loop meets n - 1 first. */
  lemma {:induction false} LoopAccepts(x: int, n: nat, r: nat)
    requires Prime(n) && n > 2 && 0 <= x < n && x != 1 && x != n - 1
    requires Cong(Pow(x, Pow2(r + 1)), 1, n)
    ensures MrLoop(x, n, r)
    decreases r
  {
    hide Pow, Prime, Divides, Pow2, Cong;
    SquareFirst(x, r);
    if r == 0 {
      PowOfOne(x * x);
      SquareRoots(n, x);
    } else {
      var y := (x * x) % n;
      assert x * x >= 0;
      CongMod(x * x, n);
      CongPow(y, x * x, Pow2(r), n);
      CongTrans(Pow(y, Pow2(r)), Pow(x * x, Pow2(r)), 1, n);
      if y == 1 {
        SquareRoots(n, x);
      } else if y != n - 1 {
        LoopAccepts(y, n, r - 1);
      }
    }
  }

  lemma PowOfOne(b: int)
    ensures Pow(b, Pow2(0)) == b
  {
    assert Pow(b, 1) == b * Pow(b, 0);
  }

  lemma {:induction false} Pow2Is(r: nat)
    ensures Pow(2, r) == Pow2(r)
  {
    if r > 0 { Pow2Is(r - 1); }
  }

  lemma SquareFirst(x: int, r: nat)
    ensures Pow(x, Pow2(r + 1)) == Pow(x * x, Pow2(r))
  {
    assert Pow(x, 2) == x * Pow(x, 1) && Pow(x, 1) == x * Pow(x, 0);
    PowMul(x, 2, Pow2(r));
  }

  lemma CheckAccepts(a: nat, n: nat, d: nat, r: nat)
    requires Prime(n) && n > 2 && !Divides(n, a) && r > 0 && n - 1 == d * Pow(2, r)
    ensures MrCheck(a, d, n, r)
  {
    var x := ModPow(a, d, n);
    ModPowIs(a, d, n);
    PowNonNegative(a, d);
    assert x == Pow(a, d) % n;
    if x != 1 && x != n - 1 {
      Pow2Is(r);
      LittleFermat(a, n);
      PowMul(a, d, Pow2(r));
      CongMod(Pow(a, d), n);
      CongPow(x, Pow(a, d), Pow2(r), n);
      CongTrans(Pow(x, Pow2(r)), Pow(a, n - 1), 1, n);
      LoopAccepts(x, n, r - 1);
    }
  }

  /** Every prime passes. */
  lemma PrimesAccepted(n: nat)
    requires Prime(n)
    ensures IsPrime(n)
  {
    if n > 3 {
      if n % 2 == 0 {
        DividesMod(2, n);
      } else {
        var (d, r) := FactorTwo(n - 1, 0);
        EvenPart(n - 1, d, r);
        forall i | 0 <= i < |WITNESSES| ensures Rem(WITNESSES[i], n) == 0 || MrCheck(WITNESSES[i], d, n, r) {
          var a := WITNESSES[i];
          DividesMod(n, a);
          if Rem(a, n) != 0 { CheckAccepts(a, n, d, r); }
        }
      }
    }
  }
}
