/** Fermat's little theorem, by multiplying all residues in two ways. */
module Fermat {
  import opened Collections
  import opened ModArith
  import opened NumberTheory

  function Prod(s: seq<int>): int {
    if s == [] then 1 else s[0] * Prod(s[1..])
  }

  /** a, 2a, ..., ka reduced modulo p. */
  function Residues(a: int, p: nat, k: nat): (r: seq<int>)
    requires p > 0
    ensures |r| == k && forall i | 0 <= i < k :: r[i] == ResidueAt(a, p, i + 1)
  {
    seq(k, i requires 0 <= i < k => ResidueAt(a, p, i + 1))
  }

  function ResidueAt(a: int, p: nat, i: nat): int
    requires p > 0
  {
    (a * i) % p
  }

  function Upto(k: nat): (r: seq<int>)
    ensures |r| == k && forall i | 0 <= i < k :: r[i] == i + 1
  {
    seq(k, i requires 0 <= i < k => i + 1)
  }

  lemma {:induction false} ProdSplit(a: seq<int>, b: seq<int>)
    ensures Prod(a + b) == Prod(a) * Prod(b)
  {
    if a == [] {
      assert a + b == b;
    } else {
      assert (a + b)[1..] == a[1..] + b;
      ProdSplit(a[1..], b);
      MulAssoc(a[0], Prod(a[1..]), Prod(b));
    }
  }

  lemma ProdOne(x: int)
    ensures Prod([x]) == x
  {
    assert [x][1..] == [];
  }

  /** A product does not depend on the order of its factors. */
  lemma {:induction false} ProdPermuted(a: seq<int>, b: seq<int>)
    requires multiset(a) == multiset(b)
    ensures Prod(a) == Prod(b)
  {
    assert |multiset(a)| == |a| && |multiset(b)| == |b|;
    if a != [] {
      assert a[0] in multiset(b);
      var k :| 0 <= k < |b| && b[k] == a[0];
      var before, after, x := b[..k], b[k + 1..], b[k];
      assert b == before + ([x] + after);
      DropOne(a, before, after, x);
      ProdPermuted(a[1..], before + after);
      ProdSplit(before, [x] + after);
      ProdSplit([x], after);
      ProdOne(x);
      ProdSplit(before, after);
      Swap3(Prod(before), x, Prod(after));
    }
  }

  lemma Swap3(a: int, x: int, b: int)
    ensures a * (x * b) == x * (a * b)
  {
    MulAssoc(a, x, b);
    MulAssoc(x, a, b);
  }

  // ---- The residues are a rearrangement of 1, ..., p - 1 ----

  lemma {:induction false} DistinctAsSet(s: seq<int>)
    requires NoDuplicates(s)
    ensures multiset(s) == multiset(Elements(s)) && |Elements(s)| == |s|
  {
    if s != [] {
      DistinctAsSet(s[1..]);
      var rest, all := Elements(s[1..]), Elements(s);
      assert s == [s[0]] + s[1..];
      assert all == {s[0]} + rest && s[0] !in rest;
      hide Elements, NoDuplicates;
      SetPlusOne(rest, s[0]);
    }
  }

  lemma SetPlusOne(rest: set<int>, x: int)
    requires x !in rest
    ensures multiset({x} + rest) == multiset{x} + multiset(rest) && |{x} + rest| == 1 + |rest|
  {
  }

  lemma SameSet(a: set<int>, b: set<int>)
    requires a <= b && |a| == |b|
    ensures a == b
  {
    assert |b - a| == |b| - |a|;
  }

  lemma NotDivided(p: nat, k: int)
    requires 0 < k < p
    ensures !Divides(p, k)
  {
    if Divides(p, k) { DividesSmall(p, k); }
  }

  lemma ResidueOk(a: int, p: nat, i: nat)
    requires Prime(p) && !Divides(p, a) && 0 < i < p
    ensures 1 <= ResidueAt(a, p, i) < p
  {
    if (a * i) % p == 0 {
      DividesMod(p, a * i);
      EuclidLemma(p, a, i);
      NotDivided(p, i);
    }
  }

  lemma ResiduesDiffer(a: int, p: nat, i: nat, j: nat)
    requires Prime(p) && !Divides(p, a) && 0 < i < j < p
    ensures ResidueAt(a, p, i) != ResidueAt(a, p, j)
  {
    if (a * i) % p == (a * j) % p {
      var x, y := a * i, a * j;
      CongMod(x, p);
      CongMod(y, p);
      CongTrans(y, y % p, x, p);
      assert y - x == a * (j - i);
      EuclidLemma(p, a, j - i);
      NotDivided(p, j - i);
    }
  }

  ghost function Elements(s: seq<int>): set<int> {
    set x | x in s
  }

  lemma ResiduesAmong(a: int, p: nat)
    requires Prime(p) && !Divides(p, a)
    ensures Elements(Residues(a, p, p - 1)) <= Elements(Upto(p - 1))
  {
    var r, u := Residues(a, p, p - 1), Upto(p - 1);
    forall x | x in Elements(r) ensures x in Elements(u) {
      var i :| 0 <= i < |r| && r[i] == x;
      ResidueOk(a, p, i + 1);
      assert u[x - 1] == x;
    }
  }

  lemma ResiduesDistinct(a: int, p: nat)
    requires Prime(p) && !Divides(p, a)
    ensures NoDuplicates(Residues(a, p, p - 1))
  {
    hide ResidueAt, Divides;
    var r := Residues(a, p, p - 1);
    forall i, j | 0 <= i < j < |r| ensures r[i] != r[j] { ResiduesDiffer(a, p, i + 1, j + 1); }
  }

  lemma DistinctPermute(r: seq<int>, u: seq<int>)
    requires NoDuplicates(r) && NoDuplicates(u) && |r| == |u| && Elements(r) <= Elements(u)
    ensures multiset(r) == multiset(u)
  {
    hide Elements;
    DistinctAsSet(r);
    DistinctAsSet(u);
    SameSet(Elements(r), Elements(u));
  }

  lemma ResiduesPermute(a: int, p: nat)
    requires Prime(p) && !Divides(p, a)
    ensures multiset(Residues(a, p, p - 1)) == multiset(Upto(p - 1))
  {
    ResiduesDistinct(a, p);
    ResiduesAmong(a, p);
    DistinctPermute(Residues(a, p, p - 1), Upto(p - 1));
  }

  // ---- The two products ----

  lemma {:induction false} ResiduesProduct(a: int, p: nat, k: nat)
    requires p > 0
    ensures Cong(Prod(Residues(a, p, k)), Pow(a, k) * Prod(Upto(k)), p)
  {
    if k == 0 {
      CongRefl(1, p);
    } else {
      var x := a * k;
      assert Residues(a, p, k) == Residues(a, p, k - 1) + [x % p];
      assert Upto(k) == Upto(k - 1) + [k];
      ProdSplit(Residues(a, p, k - 1), [x % p]);
      ProdSplit(Upto(k - 1), [k]);
      ProdOne(x % p);
      ProdOne(k);
      ResiduesProduct(a, p, k - 1);
      CongMod(x, p);
      var A, U := Pow(a, k - 1), Prod(Upto(k - 1));
      CongMul(Prod(Residues(a, p, k - 1)), A * U, x % p, x, p);
      Interleave(A, U, a, k);
    }
  }

  lemma Interleave(A: int, U: int, a: int, k: int)
    ensures (A * U) * (a * k) == (a * A) * (U * k)
  {
    MulAssoc(A * U, a, k);
    MulAssoc(A, U, a);
    MulAssoc(a, A, U);
    MulAssoc(a * A, U, k);
  }

  lemma {:induction false} FactorialPrime(p: nat, k: nat)
    requires Prime(p) && k < p
    ensures !Divides(p, Prod(Upto(k)))
  {
    if k == 0 {
      NotDivided(p, 1);
    } else {
      assert Upto(k) == Upto(k - 1) + [k];
      ProdSplit(Upto(k - 1), [k]);
      ProdOne(k);
      FactorialPrime(p, k - 1);
      NotDivided(p, k);
      if Divides(p, Prod(Upto(k - 1)) * k) { EuclidLemma(p, Prod(Upto(k - 1)), k); }
    }
  }

  /** a^(p-1) is congruent to 1 for every `a` that the prime does not divide. */
  lemma LittleFermat(a: int, p: nat)
    requires Prime(p) && !Divides(p, a)
    ensures Cong(Pow(a, p - 1), 1, p)
  {
    var F, A := Prod(Upto(p - 1)), Pow(a, p - 1);
    ResiduesPermute(a, p);
    ProdPermuted(Residues(a, p, p - 1), Upto(p - 1));
    ResiduesProduct(a, p, p - 1);
    CongSym(F, A * F, p);
    assert A * F - F == (A - 1) * F;
    FactorialPrime(p, p - 1);
    EuclidLemma(p, A - 1, F);
  }
}
