/** What the primality test decides, in powers and congruences: the strong test to each of its witnesses. */
module StrongTest {
  import opened Collections
  import opened ModArith
  import opened NumberTheory
  import opened Fermat
  import opened RsaPrimality

  /** With n - 1 == d * 2^r: the power of `a` to `d` is 1, or one of its repeated squares is -1. */
  ghost predicate Strong(a: int, n: nat, d: nat, r: nat) {
    Cong(Pow(a, d), 1, n) || exists i: nat | i < r :: Cong(Pow(a, d * Pow2(i)), -1, n)
  }

  /** `n` is a strong probable prime to base `a`. */
  ghost predicate StrongTo(a: int, n: nat) {
    exists d: nat, r: nat :: d % 2 == 1 && n - 1 == d * Pow2(r) && Strong(a, n, d, r)
  }

  // ---- The squaring loop ----

  lemma CongEither(x: int, y: int, z: int, n: nat)
    requires Cong(x, y, n)
    ensures Cong(x, z, n) <==> Cong(y, z, n)
  {
    CongSym(x, y, n);
    if Cong(x, z, n) { CongTrans(y, x, z, n); }
    if Cong(y, z, n) { CongTrans(x, y, z, n); }
  }

  lemma ReducedIs(x: nat, y: int, n: nat)
    requires n > 2 && x < n && Cong(x, y, n)
    ensures x == 1 <==> Cong(y, 1, n)
    ensures x == n - 1 <==> Cong(y, -1, n)
  {
    CongEither(x, y, 1, n);
    CongEither(x, y, -1, n);
    if Cong(x, 1, n) { CongUnique(x, 1, n); }
    if Cong(x, -1, n) {
      assert x - (n - 1) == (x - -1) - n;
      DividesSelf(n);
      DividesSum(n, x - -1, n);
      CongUnique(x, n - 1, n);
    }
    if x == n - 1 { DividesSelf(n); }
    if x == 1 { CongRefl(1, n); }
  }

  lemma DividesSelf(n: int)
    ensures Divides(n, n)
  {
    assert n == n * 1;
  }

  lemma OneNotMinusOne(n: nat)
    requires n > 2
    ensures !Cong(1, -1, n)
  {
    if Cong(1, -1, n) { DividesSmall(n, 2); }
  }

  /** Squaring first takes one off the number of squarings. */
  lemma Shifted(x: int, y: int, i: nat, n: nat)
    requires Cong(y, x * x, n)
    ensures Cong(Pow(x, Pow2(i + 1)), -1, n) <==> Cong(Pow(y, Pow2(i)), -1, n)
  {
    SquareFirst(x, i);
    CongPow(y, x * x, Pow2(i), n);
    CongEither(Pow(y, Pow2(i)), Pow(x * x, Pow2(i)), -1, n);
  }

  ghost predicate SomeSquare(x: int, n: nat, k: nat) {
    exists i: nat | 0 < i <= k :: Cong(Pow(x, Pow2(i)), -1, n)
  }

  lemma SquareDown(x: int, y: int, n: nat, k: nat)
    requires Cong(y, x * x, n) && k > 0
    ensures SomeSquare(x, n, k) <==> Cong(y, -1, n) || SomeSquare(y, n, k - 1)
  {
    hide Pow, Pow2, Cong;
    PowOfOne(y);
    Shifted(x, y, 0, n);
    if i: nat :| 0 < i <= k && Cong(Pow(x, Pow2(i)), -1, n) {
      Shifted(x, y, i - 1, n);
    }
    if i: nat :| 0 < i <= k - 1 && Cong(Pow(y, Pow2(i)), -1, n) {
      Shifted(x, y, i, n);
      assert i + 1 <= k;
    }
  }

  lemma NoSquareOfOne(y: int, n: nat, k: nat)
    requires n > 2 && Cong(y, 1, n)
    ensures !SomeSquare(y, n, k)
  {
    OneNotMinusOne(n);
    forall i: nat | 0 < i <= k ensures !Cong(Pow(y, Pow2(i)), -1, n) {
      CongPow(y, 1, Pow2(i), n);
      PowOne(Pow2(i));
      CongEither(Pow(y, Pow2(i)), 1, -1, n);
    }
  }

  /** The loop succeeds exactly when one of its squarings gives -1. */
  lemma {:induction false} LoopIff(x: nat, n: nat, k: nat)
    requires n > 2
    ensures MrLoop(x, n, k) <==> SomeSquare(x, n, k)
    decreases k
  {
    if k > 0 {
      hide Pow, Pow2, Cong, SomeSquare;
      assert x * x >= 0;
      var y: nat := (x * x) % n;
      CongMod(x * x, n);
      SquareDown(x, y, n, k);
      CongRefl(y, n);
      ReducedIs(y, y, n);
      if y == 1 {
        OneNotMinusOne(n);
        NoSquareOfOne(y, n, k - 1);
      } else if y != n - 1 {
        LoopIff(y, n, k - 1);
      }
    }
  }

  lemma PowersAgree(a: nat, n: nat, d: nat, x: int, i: nat)
    requires Cong(x, Pow(a, d), n)
    ensures Cong(Pow(a, d * Pow2(i)), -1, n) <==> Cong(Pow(x, Pow2(i)), -1, n)
  {
    PowMul(a, d, Pow2(i));
    CongPow(x, Pow(a, d), Pow2(i), n);
    CongEither(Pow(x, Pow2(i)), Pow(Pow(a, d), Pow2(i)), -1, n);
  }

  lemma WitnessPower(a: nat, n: nat, d: nat)
    requires n > 2
    ensures 0 <= ModPow(a, d, n) < n && Cong(ModPow(a, d, n), Pow(a, d), n)
  {
    hide Pow, ModPow;
    ModPowIs(a, d, n);
    PowNonNegative(a, d);
    CongMod(Pow(a, d), n);
  }

  /** The strong test from the reduced power on. */
  lemma StrongFrom(a: nat, n: nat, d: nat, r: nat, x: nat)
    requires n > 2 && r > 0 && x < n && Cong(x, Pow(a, d), n)
    ensures Strong(a, n, d, r) <==> x == 1 || x == n - 1 || SomeSquare(x, n, r - 1)
  {
    hide Pow, Pow2, Cong;
    ReducedIs(x, Pow(a, d), n);
    PowersAgree(a, n, d, x, 0);
    PowOfOne(x);
    CongEither(x, Pow(a, d), -1, n);
    if i: nat :| i < r && Cong(Pow(a, d * Pow2(i)), -1, n) {
      PowersAgree(a, n, d, x, i);
      assert i == 0 || 0 < i <= r - 1;
    }
    if i: nat :| 0 < i <= r - 1 && Cong(Pow(x, Pow2(i)), -1, n) {
      PowersAgree(a, n, d, x, i);
    }
  }

  /** One witness: the check is the strong test. */
  lemma CheckIff(a: nat, n: nat, d: nat, r: nat)
    requires n > 2 && r > 0
    ensures MrCheck(a, d, n, r) <==> Strong(a, n, d, r)
  {
    hide Pow, Pow2, Cong, ModPow, MrLoop, Strong, SomeSquare;
    WitnessPower(a, n, d);
    StrongFrom(a, n, d, r, ModPow(a, d, n));
    LoopIff(ModPow(a, d, n), n, r - 1);
  }

  // ---- The whole test ----

  lemma Pow2Even(r: nat)
    requires r > 0
    ensures Pow2(r) == 2 * Pow2(r - 1) && Pow2(r) % 2 == 0
  {
  }

  lemma OddTimes(d: nat, r: nat, e: nat)
    requires r > 0 && e == d * Pow2(r)
    ensures e % 2 == 0 && e / 2 == d * Pow2(r - 1)
  {
    Pow2Even(r);
    Swap3(d, 2, Pow2(r - 1));
  }

  /** An odd factor and a power of two are determined by their product. */
  lemma {:induction false} SplitUnique(d: nat, r: nat, d': nat, r': nat)
    requires d % 2 == 1 && d' % 2 == 1 && d * Pow2(r) == d' * Pow2(r')
    ensures d == d' && r == r'
  {
    var e := d * Pow2(r);
    if r > 0 { OddTimes(d, r, e); }
    if r' > 0 { OddTimes(d', r', e); }
    assert Pow2(0) == 1;
    if r > 0 && r' > 0 {
      SplitUnique(d, r - 1, d', r' - 1);
    }
  }

  lemma StrongToIs(a: int, n: nat, d: nat, r: nat)
    requires d % 2 == 1 && n - 1 == d * Pow2(r)
    ensures StrongTo(a, n) <==> Strong(a, n, d, r)
  {
    hide Strong;
    if StrongTo(a, n) {
      var d': nat, r': nat :| d' % 2 == 1 && n - 1 == d' * Pow2(r') && Strong(a, n, d', r');
      SplitUnique(d, r, d', r');
    }
  }

  ghost predicate PassesAll(n: nat) {
    forall a | a in WITNESSES && !Divides(n, a) :: StrongTo(a, n)
  }

  lemma OddIff(n: nat)
    requires n > 3 && n % 2 == 1
    ensures IsPrime(n) <==> PassesAll(n)
  {
    hide Strong, StrongTo, MrCheck, Divides;
    var (d, r) := FactorTwo(n - 1, 0);
    Pow2Is(r);
    EvenPart(n - 1, d, r);
    forall i | 0 <= i < |WITNESSES|
      ensures Rem(WITNESSES[i], n) == 0 || MrCheck(WITNESSES[i], d, n, r)
         <==> Divides(n, WITNESSES[i]) || StrongTo(WITNESSES[i], n)
    {
      var a := WITNESSES[i];
      DividesMod(n, a);
      CheckIff(a, n, d, r);
      StrongToIs(a, n, d, r);
    }
    assert forall a :: a in WITNESSES <==> exists i | 0 <= i < |WITNESSES| :: WITNESSES[i] == a;
  }

  lemma ThreePasses()
    ensures PassesAll(3)
  {
    PrimeIff(3);
    assert Pow(2, 1) == 2 && Pow2(1) == 2;
    forall a: nat | a in WITNESSES && !Divides(3, a) ensures StrongTo(a, 3) {
      CheckAccepts(a, 3, 1, 1);
      CheckIff(a, 3, 1, 1);
    }
  }

  /**
   * The test accepts exactly 2 and the odd numbers from 3 on that are strong probable primes to every witness that
   * they do not divide.
   */
  lemma IsPrimeExactly(n: int)
    ensures IsPrime(n) <==> n == 2 || (n >= 3 && n % 2 == 1 && PassesAll(n))
  {
    hide PassesAll;
    if n == 3 {
      ThreePasses();
    } else if n > 3 && n % 2 == 1 {
      OddIff(n);
    }
  }

  // ---- The witnesses ----

  /** No number from `d` up to the square root divides `n`. */
  predicate NoFactor(n: nat, d: nat)
    requires d > 1
    decreases n - d
  {
    d * d > n || (n % d != 0 && NoFactor(n, d + 1))
  }

  lemma {:induction false} NoFactorIs(n: nat, d: nat)
    requires d > 1 && forall c: nat | 1 < c < d :: !Divides(c, n)
    ensures NoFactor(n, d) <==> forall c: nat | 1 < c < n :: !Divides(c, n)
    decreases n - d
  {
    hide Divides;
    if d * d > n {
      forall c: nat | 1 < c < n ensures !Divides(c, n) {
        if Divides(c, n) { var e := SmallFactor(n, d, c); }
      }
    } else {
      DividesMod(d, n);
      assert d < n;
      if n % d != 0 { NoFactorIs(n, d + 1); }
    }
  }

  /** Of two factors one is at most the square root. */
  lemma SmallFactor(n: nat, d: nat, c: nat) returns (e: nat)
    requires 1 < c < n && Divides(c, n) && d * d > n
    ensures 1 < e < d && Divides(e, n)
  {
    var k :| n == c * k;
    Cofactor(n, c, k);
    if c < d {
      e := c;
    } else {
      e := k;
      if k >= d { ProductGrows(c, k, d); }
    }
  }

  lemma Cofactor(n: nat, c: nat, k: int)
    requires 1 < c < n && n == c * k
    ensures k > 1 && Divides(k, n)
  {
    if k < 0 { MulNegative(c, k); }
    assert n == k * c;
  }

  lemma ProductGrows(c: nat, k: nat, d: nat)
    requires c >= d && k >= d
    ensures c * k >= d * d
  {
    assert c * k >= d * k;
    assert d * k >= d * d;
  }

  lemma PrimeIff(n: nat)
    requires n >= 2
    ensures Prime(n) <==> NoFactor(n, 2)
  {
    NoFactorIs(n, 2);
    forall c: nat | Divides(c, n) ensures 1 <= c <= n {
      FactorSize(c, n);
    }
  }

  lemma FactorSize(c: nat, n: nat)
    requires n > 0 && Divides(c, n)
    ensures 1 <= c <= n
  {
    var k :| n == c * k;
    if k != 0 && c != 0 { MulBig(c, k); }
  }

  /** The witnesses are the primes up to 37. */
  lemma WitnessesAre(a: nat)
    ensures a in WITNESSES <==> a <= 37 && Prime(a)
  {
    if 2 <= a <= 37 {
      PrimeIff(a);
      SmallPrimes(a);
    }
  }

  lemma PrimesPass()
    ensures NoFactor(2, 2) && NoFactor(3, 2) && NoFactor(5, 2) && NoFactor(7, 2) && NoFactor(11, 2) && NoFactor(13, 2)
    ensures NoFactor(17, 2) && NoFactor(19, 2) && NoFactor(23, 2) && NoFactor(29, 2) && NoFactor(31, 2)
    ensures NoFactor(37, 2)
  {
  }

  lemma EvenFails(a: nat)
    requires a > 2 && a % 2 == 0
    ensures !NoFactor(a, 2)
  {
  }

  lemma MultipleOfThreeFails(a: nat)
    requires a > 3 && a % 3 == 0 && a % 2 == 1
    ensures !NoFactor(a, 2)
  {
    assert !NoFactor(a, 3);
  }

  lemma MultipleOfFiveFails()
    ensures !NoFactor(25, 2) && !NoFactor(35, 2)
  {
  }

  lemma WitnessesListed(a: nat)
    ensures a in WITNESSES <==>
      a in {2, 3, 5, 7, 11, 13} || a in {17, 19, 23, 29, 31, 37}
  {
    var first, second := [2, 3, 5, 7, 11, 13], [17, 19, 23, 29, 31, 37];
    assert WITNESSES == first + second;
  }

  lemma SmallPrimes(a: nat)
    requires 2 <= a <= 37
    ensures NoFactor(a, 2) <==> a in WITNESSES
  {
    hide NoFactor, WITNESSES;
    PrimesPass();
    WitnessesListed(a);
    if a % 2 == 0 && a > 2 {
      EvenFails(a);
    } else if a % 3 == 0 && a > 3 {
      MultipleOfThreeFails(a);
    } else {
      MultipleOfFiveFails();
      assert a in {2, 3, 5, 7, 11, 13, 17, 19, 23, 25, 29, 31, 35, 37};
    }
  }
}
