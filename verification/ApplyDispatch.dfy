/** The generated dispatch behind `apply`: a binary search over the keys of the functions of one arity. */
module ApplyDispatch {
  import opened Collections
  import opened Reachability

  const MUL := 1_000_000
  const WORD := 0x1_0000_0000_0000_0000

  datatype Clause<T> = Clause(key: nat, target: T)

  /** The emitted nested comparisons. */
  datatype Code<T> = Nothing | Guard(k: nat, call: T) | Compare(pivot: nat, less: Code<T>, rest: Code<T>)

  // ---- Building the search tree ----

  function UniqByKey<T>(clauses: seq<Clause<T>>, seen: set<nat>): seq<Clause<T>> {
    if clauses == [] then []
    else if clauses[0].key in seen then UniqByKey(clauses[1..], seen)
    else [clauses[0]] + UniqByKey(clauses[1..], seen + {clauses[0].key})
  }

  function InsertByKey<T>(c: Clause<T>, clauses: seq<Clause<T>>): seq<Clause<T>> {
    if clauses == [] || c.key <= clauses[0].key then [c] + clauses
    else [clauses[0]] + InsertByKey(c, clauses[1..])
  }

  function SortByKey<T>(clauses: seq<Clause<T>>): seq<Clause<T>> {
    if clauses == [] then [] else InsertByKey(clauses[0], SortByKey(clauses[1..]))
  }

  function BisectApply<T>(clauses: seq<Clause<T>>): Code<T> {
    if clauses == [] then Nothing
    else if |clauses| == 1 then Guard(clauses[0].key, clauses[0].target)
    else
      var mid := |clauses| / 2;
      Compare(clauses[mid].key, BisectApply(clauses[..mid]), BisectApply(clauses[mid..]))
  }

  function GenApply<T>(clauses: seq<Clause<T>>): Code<T> {
    BisectApply(SortByKey(UniqByKey(clauses, {})))
  }

  // ---- Running it, and the plain scan it replaces ----

  function Dispatch<T>(code: Code<T>, key: nat): Option<T> {
    match code
    case Nothing => None
    case Guard(k, target) => if key == k then Some(target) else None
    case Compare(pivot, less, rest) => if key < pivot then Dispatch(less, key) else Dispatch(rest, key)
  }

  function PivotTests<T>(code: Code<T>, key: nat): nat {
    match code
    case Compare(pivot, less, rest) => 1 + if key < pivot then PivotTests(less, key) else PivotTests(rest, key)
    case _ => 0
  }

  function EqualityTests<T>(code: Code<T>, key: nat): nat {
    match code
    case Nothing => 0
    case Guard(_, _) => 1
    case Compare(pivot, less, rest) => if key < pivot then EqualityTests(less, key) else EqualityTests(rest, key)
  }

  function FirstMatch<T>(clauses: seq<Clause<T>>, key: nat): Option<T> {
    if clauses == [] then None
    else if clauses[0].key == key then Some(clauses[0].target)
    else FirstMatch(clauses[1..], key)
  }

  ghost predicate Increasing<T>(clauses: seq<Clause<T>>) {
    forall i, j | 0 <= i < j < |clauses| :: clauses[i].key < clauses[j].key
  }

  ghost predicate DistinctKeys<T>(clauses: seq<Clause<T>>) {
    forall i, j | 0 <= i < j < |clauses| :: clauses[i].key != clauses[j].key
  }

  lemma {:induction false} UniqMatches<T>(clauses: seq<Clause<T>>, seen: set<nat>, key: nat)
    ensures FirstMatch(UniqByKey(clauses, seen), key) == if key in seen then None else FirstMatch(clauses, key)
  {
    if clauses != [] {
      if clauses[0].key in seen {
        UniqMatches(clauses[1..], seen, key);
      } else {
        var rest := UniqByKey(clauses[1..], seen + {clauses[0].key});
        UniqMatches(clauses[1..], seen + {clauses[0].key}, key);
        assert ([clauses[0]] + rest)[1..] == rest;
      }
    }
  }

  lemma {:induction false} UniqDistinct<T>(clauses: seq<Clause<T>>, seen: set<nat>)
    ensures var u := UniqByKey(clauses, seen);
            DistinctKeys(u) && (forall i | 0 <= i < |u| :: u[i].key !in seen) && |u| <= |clauses|
  {
    if clauses != [] {
      if clauses[0].key in seen {
        UniqDistinct(clauses[1..], seen);
      } else {
        UniqDistinct(clauses[1..], seen + {clauses[0].key});
      }
    }
  }

  lemma {:induction false} InsertIncreasing<T>(c: Clause<T>, clauses: seq<Clause<T>>)
    requires Increasing(clauses) && forall i | 0 <= i < |clauses| :: clauses[i].key != c.key
    ensures Increasing(InsertByKey(c, clauses)) && |InsertByKey(c, clauses)| == |clauses| + 1
    ensures InsertByKey(c, clauses)[0] in [c] + clauses[..if clauses == [] then 0 else 1]
  {
    if clauses != [] && c.key > clauses[0].key {
      InsertIncreasing(c, clauses[1..]);
      IncreasingCons(clauses[0], InsertByKey(c, clauses[1..]));
    }
  }

  lemma IncreasingCons<T>(c: Clause<T>, clauses: seq<Clause<T>>)
    requires Increasing(clauses) && clauses != [] && c.key < clauses[0].key
    ensures Increasing([c] + clauses)
  {
  }

  lemma {:induction false} InsertMatches<T>(c: Clause<T>, clauses: seq<Clause<T>>, key: nat)
    requires forall i | 0 <= i < |clauses| :: clauses[i].key != c.key
    ensures FirstMatch(InsertByKey(c, clauses), key) == FirstMatch([c] + clauses, key)
  {
    assert ([c] + clauses)[1..] == clauses;
    if clauses != [] && c.key > clauses[0].key {
      var rest := InsertByKey(c, clauses[1..]);
      InsertMatches(c, clauses[1..], key);
      assert ([clauses[0]] + rest)[1..] == rest;
      assert ([c] + clauses[1..])[1..] == clauses[1..];
    }
  }

  lemma {:induction false} InsertHas<T>(c: Clause<T>, clauses: seq<Clause<T>>, d: Clause<T>)
    ensures d in InsertByKey(c, clauses) <==> d == c || d in clauses
  {
    if clauses != [] && c.key > clauses[0].key {
      InsertHas(c, clauses[1..], d);
      assert clauses == [clauses[0]] + clauses[1..];
    }
  }

  lemma {:induction false} SortHas<T>(clauses: seq<Clause<T>>, d: Clause<T>)
    ensures d in SortByKey(clauses) <==> d in clauses
  {
    if clauses != [] {
      SortHas(clauses[1..], d);
      InsertHas(clauses[0], SortByKey(clauses[1..]), d);
      assert clauses == [clauses[0]] + clauses[1..];
    }
  }

  lemma {:induction false} SortMatches<T>(clauses: seq<Clause<T>>, key: nat)
    requires DistinctKeys(clauses)
    ensures Increasing(SortByKey(clauses)) && |SortByKey(clauses)| == |clauses|
    ensures FirstMatch(SortByKey(clauses), key) == FirstMatch(clauses, key)
  {
    if clauses != [] {
      var c, rest := clauses[0], clauses[1..];
      SortMatches(rest, key);
      assert clauses == [c] + rest;
      forall i | 0 <= i < |SortByKey(rest)| ensures SortByKey(rest)[i].key != c.key {
        var d := SortByKey(rest)[i];
        SortHas(rest, d);
        var j :| 0 <= j < |rest| && rest[j] == d;
        assert clauses[j + 1].key != c.key;
      }
      InsertIncreasing(c, SortByKey(rest));
      InsertMatches(c, SortByKey(rest), key);
      assert ([c] + SortByKey(rest))[1..] == SortByKey(rest);
    }
  }

  lemma {:induction false} FirstMatchSplit<T>(a: seq<Clause<T>>, b: seq<Clause<T>>, key: nat)
    ensures FirstMatch(a + b, key) == if FirstMatch(a, key).Some? then FirstMatch(a, key) else FirstMatch(b, key)
  {
    if a == [] {
      assert a + b == b;
    } else {
      assert (a + b)[1..] == a[1..] + b;
      FirstMatchSplit(a[1..], b, key);
    }
  }

  lemma {:induction false} NoMatch<T>(clauses: seq<Clause<T>>, key: nat)
    requires forall i | 0 <= i < |clauses| :: clauses[i].key != key
    ensures FirstMatch(clauses, key) == None
  {
    if clauses != [] {
      NoMatch(clauses[1..], key);
    }
  }

  lemma BisectSplits<T>(clauses: seq<Clause<T>>)
    requires |clauses| > 1
    ensures var mid := |clauses| / 2;
            BisectApply(clauses)
            == Compare(clauses[mid].key, BisectApply(clauses[..mid]), BisectApply(clauses[mid..]))
  {
  }

  lemma HalvesMatch<T>(clauses: seq<Clause<T>>, mid: nat, key: nat)
    requires Increasing(clauses) && mid < |clauses|
    ensures FirstMatch(clauses, key) == FirstMatch(if key < clauses[mid].key then clauses[..mid] else clauses[mid..], key)
  {
    hide FirstMatch;
    assert clauses == clauses[..mid] + clauses[mid..];
    FirstMatchSplit(clauses[..mid], clauses[mid..], key);
    NoMatchHalf(clauses, mid, key);
  }

  lemma NoMatchHalf<T>(clauses: seq<Clause<T>>, mid: nat, key: nat)
    requires Increasing(clauses) && mid < |clauses|
    ensures FirstMatch(if key < clauses[mid].key then clauses[mid..] else clauses[..mid], key) == None
  {
    hide FirstMatch;
    NoMatch(if key < clauses[mid].key then clauses[mid..] else clauses[..mid], key);
  }

  lemma {:induction false} BisectMatches<T>(clauses: seq<Clause<T>>, key: nat)
    requires Increasing(clauses)
    ensures Dispatch(BisectApply(clauses), key) == FirstMatch(clauses, key)
    decreases |clauses|
  {
    if |clauses| > 1 {
      hide FirstMatch, BisectApply;
      var mid := |clauses| / 2;
      BisectSplits(clauses);
      BisectMatches(clauses[..mid], key);
      BisectMatches(clauses[mid..], key);
      HalvesMatch(clauses, mid, key);
    }
  }

  // ---- Cost ----

  function CeilLog2(n: nat): nat {
    if n <= 1 then 0 else 1 + CeilLog2((n + 1) / 2)
  }

  lemma {:induction false} CeilLog2Is(n: nat)
    ensures n <= Pow2(CeilLog2(n))
    ensures n >= 2 ==> Pow2(CeilLog2(n)) < 2 * n
  {
    if n == 2 {
      assert CeilLog2(2) == 1 && Pow2(1) == 2 * Pow2(0);
    } else if n > 2 {
      CeilLog2Is((n + 1) / 2);
      CeilLog2Below(n);
    }
  }

  /** For odd `n`, halving up still leaves the power below `2 * n`. */
  lemma {:induction false} CeilLog2Below(n: nat)
    requires n > 2
    ensures Pow2(CeilLog2(n)) < 2 * n
  {
    var h := (n + 1) / 2;
    if h > 2 {
      CeilLog2Below(h);
      assert CeilLog2(h) >= 1;
      assert Pow2(CeilLog2(h)) == 2 * Pow2(CeilLog2(h) - 1);
    } else {
      assert h == 2 && CeilLog2(2) == 1 && Pow2(1) == 2 * Pow2(0);
      assert CeilLog2(n) == 2 && Pow2(2) == 2 * Pow2(1);
    }
  }

  lemma {:induction false} CeilLog2Monotone(a: nat, b: nat)
    requires a <= b
    ensures CeilLog2(a) <= CeilLog2(b)
    decreases b
  {
    if a > 1 {
      CeilLog2Monotone((a + 1) / 2, (b + 1) / 2);
    }
  }

  lemma BisectCost<T>(clauses: seq<Clause<T>>, key: nat)
    ensures PivotTests(BisectApply(clauses), key) <= CeilLog2(|clauses|)
    ensures |clauses| <= Pow2(CeilLog2(|clauses|)) && (|clauses| >= 2 ==> Pow2(CeilLog2(|clauses|)) < 2 * |clauses|)
    ensures EqualityTests(BisectApply(clauses), key) <= 1
  {
    hide PivotTests, EqualityTests, BisectApply;
    BisectTests(clauses, key);
    CeilLog2Is(|clauses|);
  }

  lemma {:induction false} BisectTests<T>(clauses: seq<Clause<T>>, key: nat)
    ensures PivotTests(BisectApply(clauses), key) <= CeilLog2(|clauses|)
    ensures EqualityTests(BisectApply(clauses), key) <= 1
    decreases |clauses|
  {
    if |clauses| > 1 {
      hide BisectApply;
      BisectSplits(clauses);
      var mid := |clauses| / 2;
      BisectTests(clauses[..mid], key);
      BisectTests(clauses[mid..], key);
      CeilLog2Monotone(mid, (|clauses| + 1) / 2);
    }
  }

  /** The generated tree answers as a first-match scan of the clause list, in at most ceil(log2 N) + 1 tests. */
  lemma GenApplyIsFirstMatch<T>(clauses: seq<Clause<T>>, key: nat)
    ensures Dispatch(GenApply(clauses), key) == FirstMatch(clauses, key)
    ensures PivotTests(GenApply(clauses), key) <= CeilLog2(|clauses|)
    ensures EqualityTests(GenApply(clauses), key) <= 1
  {
    var u := UniqByKey(clauses, {});
    UniqMatches(clauses, {}, key);
    UniqDistinct(clauses, {});
    SortMatches(u, key);
    BisectMatches(SortByKey(u), key);
    BisectCost(SortByKey(u), key);
    CeilLog2Monotone(|u|, |clauses|);
  }

  // ---- Keys ----

  /** The 64-bit key of a (module, function) pair of interned atoms. */
  function KeyOf(m: nat, f: nat): nat {
    (m * MUL % WORD + f) % WORD
  }

  lemma KeyFits(m: nat, f: nat)
    requires m < 0x1_0000_0000 && f < 0x1_0000_0000
    ensures KeyOf(m, f) == m * MUL + f
  {
  }

  lemma KeysApart(m: nat, f: nat, m': nat, f': nat)
    requires m < MUL && f < MUL && m' < MUL && f' < MUL && KeyOf(m, f) == KeyOf(m', f')
    ensures m == m' && f == f'
  {
    KeyFits(m, f);
    KeyFits(m', f');
  }

  ghost predicate KeysInjective(atoms: nat) {
    forall m: nat, f: nat, m': nat, f': nat :: m < atoms && f < atoms && m' < atoms && f' < atoms && KeyOf(m, f) == KeyOf(m', f')
      ==> m == m' && f == f'
  }

  /** Keys tell all pairs apart exactly while the atom table has at most 1,000,000 entries. */
  lemma KeysInjectiveIff(atoms: nat)
    requires atoms <= 0x1_0000_0000
    ensures KeysInjective(atoms) <==> atoms <= MUL
  {
    if atoms <= MUL {
      forall m: nat, f: nat, m': nat, f': nat | m < atoms && f < atoms && m' < atoms && f' < atoms && KeyOf(m, f) == KeyOf(m', f')
        ensures m == m' && f == f'
      {
        KeysApart(m, f, m', f');
      }
    } else {
      assert KeyOf(0, MUL) == KeyOf(1, 0);
    }
  }

  // ---- The clauses of one arity ----

  /** Each candidate's clause, in order; pairs whose atoms are not both interned have none. */
  function ClausesOf<T>(candidates: seq<(Atom, Atom, T)>, index: map<Atom, nat>): seq<Clause<T>> {
    if candidates == [] then []
    else
      var (m, f, target) := candidates[0];
      (if m in index && f in index then [Clause(KeyOf(index[m], index[f]), target)] else [])
      + ClausesOf(candidates[1..], index)
  }

  function TargetOf<T>(candidates: seq<(Atom, Atom, T)>, m: Atom, f: Atom): Option<T> {
    if candidates == [] then None
    else if candidates[0].0 == m && candidates[0].1 == f then Some(candidates[0].2)
    else TargetOf(candidates[1..], m, f)
  }

  ghost predicate IndexOk(index: map<Atom, nat>) {
    && (forall a | a in index :: index[a] < MUL)
    && (forall a, b | a in index && b in index && index[a] == index[b] :: a == b)
  }

  lemma {:induction false} ClausesMatch<T>(
    candidates: seq<(Atom, Atom, T)>, index: map<Atom, nat>, m: Atom, f: Atom)
    requires IndexOk(index) && m in index && f in index
    ensures FirstMatch(ClausesOf(candidates, index), KeyOf(index[m], index[f])) == TargetOf(candidates, m, f)
  {
    hide KeyOf;
    if candidates != [] {
      var (m', f', target) := candidates[0];
      var rest := ClausesOf(candidates[1..], index);
      ClausesMatch(candidates[1..], index, m, f);
      if m' in index && f' in index {
        var c := Clause(KeyOf(index[m'], index[f']), target);
        assert ([c] + rest)[1..] == rest;
        if c.key == KeyOf(index[m], index[f]) {
          KeysApart(index[m], index[f], index[m'], index[f']);
        }
      } else {
        assert [] + rest == rest;
      }
    }
  }

  /** Applying an interned (module, function) pair reaches its own first clause, and nothing if it has none. */
  lemma ApplyReachesOwnTarget<T>(candidates: seq<(Atom, Atom, T)>, index: map<Atom, nat>, m: Atom, f: Atom)
    requires IndexOk(index) && m in index && f in index
    ensures Dispatch(GenApply(ClausesOf(candidates, index)), KeyOf(index[m], index[f])) == TargetOf(candidates, m, f)
  {
    hide KeyOf;
    ClausesMatch(candidates, index, m, f);
    GenApplyIsFirstMatch(ClausesOf(candidates, index), KeyOf(index[m], index[f]));
  }
}
