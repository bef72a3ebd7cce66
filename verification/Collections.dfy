/** What several components share: optional results, reversal, counting and permuting lists, powers of two. */
module Collections {

  datatype Option<+T> = None | Some(value: T)

  function Reverse<T>(s: seq<T>): seq<T> {
    if s == [] then [] else Reverse(s[1..]) + [s[0]]
  }

  lemma ReverseCons<T>(x: T, s: seq<T>)
    ensures Reverse([x] + s) == Reverse(s) + [x]
  {
    assert ([x] + s)[1..] == s;
  }

  lemma {:induction false} ReverseAt<T>(s: seq<T>, i: nat)
    requires i < |s|
    ensures |Reverse(s)| == |s| && Reverse(s)[i] == s[|s| - 1 - i]
  {
    if |s| > 1 {
      ReverseAt(s[1..], if i < |s| - 1 then i else 0);
    }
  }

  lemma {:induction false} InReverse<T>(s: seq<T>, x: T)
    ensures x in Reverse(s) <==> x in s
  {
    if s != [] {
      InReverse(s[1..], x);
      assert s == [s[0]] + s[1..];
    }
  }

  lemma DropOne<T>(a: seq<T>, before: seq<T>, after: seq<T>, x: T)
    requires a != [] && a[0] == x && multiset(a) == multiset(before + ([x] + after))
    ensures multiset(a[1..]) == multiset(before + after)
  {
    assert a == [x] + a[1..];
    assert multiset(before + ([x] + after)) == multiset{x} + multiset(before + after);
    assert multiset(a) == multiset{x} + multiset(a[1..]);
    assert multiset(a[1..]) == multiset(a) - multiset{x};
  }

  function Pow2(n: nat): nat {
    if n == 0 then 1 else 2 * Pow2(n - 1)
  }

  /** No element occurs twice. */
  ghost predicate NoDuplicates<T>(xs: seq<T>) {
    forall i, j | 0 <= i < j < |xs| :: xs[i] != xs[j]
  }

  // ---- Counting elements ----

  function Count<T(==)>(s: seq<T>, x: T): nat {
    if s == [] then 0 else (if s[0] == x then 1 else 0) + Count(s[1..], x)
  }

  lemma {:induction false} CountAppend<T>(a: seq<T>, b: seq<T>, x: T)
    ensures Count(a + b, x) == Count(a, x) + Count(b, x)
  {
    if a == [] {
      assert a + b == b;
    } else {
      assert (a + b)[1..] == a[1..] + b;
      CountAppend(a[1..], b, x);
    }
  }

  lemma CountCons<T>(y: T, s: seq<T>, x: T)
    ensures Count([y] + s, x) == (if y == x then 1 else 0) + Count(s, x)
  {
    assert ([y] + s)[1..] == s;
  }

  lemma {:induction false} CountIs<T>(s: seq<T>, x: T)
    ensures Count(s, x) == multiset(s)[x]
  {
    if s != [] {
      CountIs(s[1..], x);
      assert s == [s[0]] + s[1..];
    }
  }

  lemma CountPositive<T>(s: seq<T>, x: T)
    ensures Count(s, x) > 0 <==> x in s
  {
    CountIs(s, x);
    assert x in s <==> x in multiset(s);
  }
}
