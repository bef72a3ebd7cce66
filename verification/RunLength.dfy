/** Run-length coding with accumulators, as the compression program does it. */
module RunLength {
  import opened Collections

  type Run<T> = (T, nat)

  function RleEncode<T(==)>(s: seq<T>): seq<Run<T>> {
    if s == [] then [] else RleLoop(s[1..], s[0], 1, [])
  }

  function RleLoop<T(==)>(s: seq<T>, cur: T, cnt: nat, acc: seq<Run<T>>): seq<Run<T>> {
    if s == [] then Reverse([(cur, cnt)] + acc)
    else if s[0] == cur then RleLoop(s[1..], cur, cnt + 1, acc)
    else RleLoop(s[1..], s[0], 1, [(cur, cnt)] + acc)
  }

  function Duplicate<T>(x: T, n: nat): seq<T> {
    seq(n, _ => x)
  }

  function RleDecode<T>(rle: seq<Run<T>>): seq<T> {
    if rle == [] then [] else Duplicate(rle[0].0, rle[0].1) + RleDecode(rle[1..])
  }

  /** Runs are non-empty and neighbours differ: what the encoder produces. */
  ghost predicate Canonical<T>(rle: seq<Run<T>>) {
    && (forall i | 0 <= i < |rle| :: rle[i].1 >= 1)
    && (forall i | 0 < i < |rle| :: rle[i - 1].0 != rle[i].0)
  }

  lemma {:induction false} DecodeAppend<T>(a: seq<Run<T>>, b: seq<Run<T>>)
    ensures RleDecode(a + b) == RleDecode(a) + RleDecode(b)
  {
    if a == [] {
      assert a + b == b;
    } else {
      assert (a + b)[1..] == a[1..] + b;
      DecodeAppend(a[1..], b);
    }
  }

  lemma DecodeOne<T>(x: T, n: nat)
    ensures RleDecode([(x, n)]) == Duplicate(x, n)
  {
    assert [(x, n)][1..] == [];
  }

  lemma {:induction false} LoopDecodes<T>(s: seq<T>, cur: T, cnt: nat, acc: seq<Run<T>>)
    ensures RleDecode(RleLoop(s, cur, cnt, acc)) == RleDecode(Reverse(acc)) + Duplicate(cur, cnt) + s
  {
    hide RleDecode, Reverse;
    var run := (cur, cnt);
    ReverseCons(run, acc);
    DecodeAppend(Reverse(acc), [run]);
    DecodeOne(cur, cnt);
    if s != [] {
      assert s == [s[0]] + s[1..];
      if s[0] == cur {
        LoopDecodes(s[1..], cur, cnt + 1, acc);
        assert Duplicate(cur, cnt + 1) == Duplicate(cur, cnt) + [cur];
      } else {
        LoopDecodes(s[1..], s[0], 1, [run] + acc);
        assert Duplicate(s[0], 1) == [s[0]];
      }
    }
  }

  /** Decoding undoes encoding. */
  lemma RleRoundTrip<T>(s: seq<T>)
    ensures RleDecode(RleEncode(s)) == s
  {
    if s != [] {
      LoopDecodes(s[1..], s[0], 1, []);
      assert Duplicate(s[0], 1) == [s[0]] && s == [s[0]] + s[1..];
    }
  }

  lemma {:induction false} LoopRun<T>(cur: T, n: nat, rest: seq<T>, cnt: nat, acc: seq<Run<T>>)
    ensures RleLoop(Duplicate(cur, n) + rest, cur, cnt, acc) == RleLoop(rest, cur, cnt + n, acc)
    decreases n
  {
    var s := Duplicate(cur, n) + rest;
    if n == 0 {
      assert s == rest;
    } else {
      assert s[0] == cur && s[1..] == Duplicate(cur, n - 1) + rest;
      LoopRun(cur, n - 1, rest, cnt + 1, acc);
    }
  }

  lemma {:induction false} LoopEncodes<T>(rle: seq<Run<T>>, cur: T, cnt: nat, acc: seq<Run<T>>)
    requires Canonical(rle) && (rle != [] ==> rle[0].0 != cur)
    ensures RleLoop(RleDecode(rle), cur, cnt, acc) == Reverse(acc) + [(cur, cnt)] + rle
  {
    var run := (cur, cnt);
    ReverseCons(run, acc);
    if rle != [] {
      var (x, n) := rle[0];
      var rest := RleDecode(rle[1..]);
      var s := Duplicate(x, n) + rest;
      assert s[0] == x && s[1..] == Duplicate(x, n - 1) + rest;
      LoopRun(x, n - 1, rest, 1, [run] + acc);
      LoopEncodes(rle[1..], x, n, [run] + acc);
      assert rle == [rle[0]] + rle[1..];
    }
  }

  /** Encoding undoes decoding on canonical run lists, so the two are inverse to each other. */
  lemma RleCanonicalRoundTrip<T>(rle: seq<Run<T>>)
    requires Canonical(rle)
    ensures RleEncode(RleDecode(rle)) == rle
  {
    if rle != [] {
      var (x, n) := rle[0];
      var rest := RleDecode(rle[1..]);
      var s := Duplicate(x, n) + rest;
      assert s[0] == x && s[1..] == Duplicate(x, n - 1) + rest;
      LoopRun(x, n - 1, rest, 1, []);
      LoopEncodes(rle[1..], x, n, []);
      assert rle == [rle[0]] + rle[1..];
    }
  }

  lemma {:induction false} LoopCanonical<T>(s: seq<T>, cur: T, cnt: nat, acc: seq<Run<T>>)
    requires cnt >= 1 && Canonical(Reverse([(cur, cnt)] + acc))
    ensures Canonical(RleLoop(s, cur, cnt, acc))
  {
    var front := Reverse(acc);
    ReverseCons((cur, cnt), acc);
    if s != [] {
      if s[0] == cur {
        ReverseCons((cur, cnt + 1), acc);
        var a, b := front + [(cur, cnt)], front + [(cur, cnt + 1)];
        assert forall i | 0 <= i < |b| :: b[i].0 == a[i].0 && b[i].1 >= a[i].1;
        LoopCanonical(s[1..], cur, cnt + 1, acc);
      } else {
        ReverseCons((s[0], 1), [(cur, cnt)] + acc);
        LoopCanonical(s[1..], s[0], 1, [(cur, cnt)] + acc);
      }
    }
  }

  lemma RleEncodeCanonical<T>(s: seq<T>)
    ensures Canonical(RleEncode(s))
  {
    if s != [] {
      assert Reverse([(s[0], 1)]) == [(s[0], 1)] by { assert [(s[0], 1)][1..] == []; }
      assert [(s[0], 1)] + [] == [(s[0], 1)];
      LoopCanonical(s[1..], s[0], 1, []);
    }
  }
}
