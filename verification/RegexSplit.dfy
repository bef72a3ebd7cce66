/** Splitting and scanning with a global regular expression, around an `exec` whose answers are not modelled. */
module RegexSplit {
  import opened HostFrames

  datatype Match = NoMatch | Match(index: nat, len: nat, groups: seq<Bytes>)

  /** `exec` as a function of `lastIndex`: a match lies at or after it, inside the subject. */
  ghost predicate ExecOk(exec: nat -> Match, n: nat) {
    forall i: nat :: exec(i).Match? ==> i <= exec(i).index && exec(i).index + exec(i).len <= n
  }

  /** Where the next search starts: after the match, one further when the match is empty. */
  function NextIndex(m: Match): nat
    requires m.Match?
  {
    m.index + if m.len == 0 then m.len + 1 else m.len
  }

  lemma ExecAt(exec: nat -> Match, n: nat, i: nat)
    requires ExecOk(exec, n) && exec(i).Match?
    ensures i <= exec(i).index && exec(i).index + exec(i).len <= n
  {
  }

  /** Where the matches lie, as start and length. */
  function SpansFrom(s: Bytes, exec: nat -> Match, index: nat): seq<(nat, nat)>
    requires ExecOk(exec, |s|)
    decreases |s| + 1 - index
  {
    var m := exec(index);
    if m.NoMatch? then [] else [(m.index, m.len)] + SpansFrom(s, exec, NextIndex(m))
  }

  // ---- Splitting ----

  predicate AtLimit(count: nat, limit: int, captures: bool) {
    limit > 0 && count >= (if captures then 2 else 1) * (limit - 1)
  }

  /**
   * The parts from position `last` on, when the search goes on at `index` and `count` parts are out already: the
   * text up to each match (and the match itself when captures are kept), then the remainder, unsplit at the limit.
   */
  function PartsFrom(s: Bytes, exec: nat -> Match, index: nat, last: nat, count: nat, limit: int, captures: bool)
    : seq<Bytes>
    requires ExecOk(exec, |s|) && last <= index && last <= |s|
    decreases |s| + 1 - index
  {
    var m := exec(index);
    if m.NoMatch? || AtLimit(count, limit, captures) then [s[last..]]
    else
      var end := m.index + m.len;
      [s[last..m.index]] + (if captures then [s[m.index..end]] else [])
      + PartsFrom(s, exec, NextIndex(m), end, count + (if captures then 2 else 1), limit, captures)
  }

  function Parts(s: Bytes, exec: nat -> Match, limit: int, captures: bool): seq<Bytes>
    requires ExecOk(exec, |s|)
  {
    PartsFrom(s, exec, 0, 0, 0, limit, captures)
  }

  /** The split loop of the host. */
  method SplitParts(s: Bytes, exec: nat -> Match, limit: int, captures: bool) returns (parts: seq<Bytes>)
    requires ExecOk(exec, |s|)
    ensures parts == Parts(s, exec, limit, captures)
  {
    hide PartsFrom, ExecOk;
    parts := [];
    var lastIndex: nat, last: nat := 0, 0;
    var m := exec(lastIndex);
    while m.Match?
      invariant last <= lastIndex && last <= |s| && m == exec(lastIndex)
      invariant parts + PartsFrom(s, exec, lastIndex, last, |parts|, limit, captures)
             == Parts(s, exec, limit, captures)
      decreases |s| + 1 - lastIndex
    {
      PartsStep(s, exec, lastIndex, last, |parts|, limit, captures);
      ExecAt(exec, |s|, lastIndex);
      lastIndex := m.index + m.len;
      if limit > 0 && |parts| >= (if captures then 2 else 1) * (limit - 1) {
        parts := parts + [s[last..]];
        return;
      }
      ghost var was := parts;
      parts := parts + [s[last..m.index]];
      if captures {
        parts := parts + [s[m.index..m.index + m.len]];
      }
      ghost var step := [s[last..m.index]] + if captures then [s[m.index..m.index + m.len]] else [];
      assert parts == was + step;
      PartsRegroup(was, step, PartsFrom(s, exec, NextIndex(m), m.index + m.len, |parts|, limit, captures));
      last := m.index + m.len;
      if m.len == 0 {
        lastIndex := lastIndex + 1;
      }
      m := exec(lastIndex);
    }
    PartsStep(s, exec, lastIndex, last, |parts|, limit, captures);
    parts := parts + [s[last..]];
  }

  lemma PartsRegroup(was: seq<Bytes>, step: seq<Bytes>, rest: seq<Bytes>)
    ensures was + (step + rest) == (was + step) + rest
  {
  }

  lemma PartsStep(s: Bytes, exec: nat -> Match, index: nat, last: nat, count: nat, limit: int, captures: bool)
    requires ExecOk(exec, |s|) && last <= index && last <= |s|
    ensures var m := exec(index);
      PartsFrom(s, exec, index, last, count, limit, captures) ==
        if m.NoMatch? || AtLimit(count, limit, captures) then [s[last..]]
        else
          [s[last..m.index]] + (if captures then [s[m.index..m.index + m.len]] else [])
          + PartsFrom(s, exec, NextIndex(m), m.index + m.len, count + (if captures then 2 else 1), limit, captures)
  {
  }

  function Concat(parts: seq<Bytes>): Bytes {
    if parts == [] then [] else parts[0] + Concat(parts[1..])
  }

  lemma ConcatCons(p: Bytes, parts: seq<Bytes>)
    ensures Concat([p] + parts) == p + Concat(parts)
  {
    assert ([p] + parts)[1..] == parts;
  }

  lemma {:induction false} PartsConcat(s: Bytes, exec: nat -> Match, index: nat, last: nat, count: nat, limit: int)
    requires ExecOk(exec, |s|) && last <= index && last <= |s|
    ensures Concat(PartsFrom(s, exec, index, last, count, limit, true)) == s[last..]
    decreases |s| + 1 - index
  {
    hide Concat, PartsFrom;
    PartsStep(s, exec, index, last, count, limit, true);
    var m := exec(index);
    if m.NoMatch? || AtLimit(count, limit, true) {
      ConcatCons(s[last..], []);
      ConcatNothing();
      assert [s[last..]] + [] == [s[last..]];
    } else {
      var end := m.index + m.len;
      var rest := PartsFrom(s, exec, NextIndex(m), end, count + 2, limit, true);
      PartsConcat(s, exec, NextIndex(m), end, count + 2, limit);
      ConcatCons(s[m.index..end], rest);
      ConcatCons(s[last..m.index], [s[m.index..end]] + rest);
      assert [s[last..m.index]] + [s[m.index..end]] + rest == [s[last..m.index]] + ([s[m.index..end]] + rest);
      assert s[last..] == s[last..m.index] + (s[m.index..end] + s[end..]);
    }
  }

  lemma ConcatNothing()
    ensures Concat([]) == []
  {
  }

  lemma {:induction false} ConcatNonEmpty(parts: seq<Bytes>)
    ensures Concat(NonEmpty(parts)) == Concat(parts)
  {
    if parts != [] {
      ConcatNonEmpty(parts[1..]);
      if parts[0] == [] {
        assert NonEmpty(parts) == [] + NonEmpty(parts[1..]) == NonEmpty(parts[1..]);
      } else {
        ConcatCons(parts[0], NonEmpty(parts[1..]));
      }
    }
  }

  /** With captures kept, the parts make up the subject again, whatever the limit and also after trimming. */
  lemma CapturesKeepSubject(s: Bytes, exec: nat -> Match, limit: int, trim: bool)
    requires ExecOk(exec, |s|)
    ensures Concat(Kept(Parts(s, exec, limit, true), trim)) == s
  {
    PartsConcat(s, exec, 0, 0, 0, limit);
    ConcatNonEmpty(Parts(s, exec, limit, true));
  }

  lemma {:induction false} PartsCount(
    s: Bytes, exec: nat -> Match, index: nat, last: nat, count: nat, limit: int, captures: bool)
    requires ExecOk(exec, |s|) && last <= index && last <= |s|
    requires captures ==> count % 2 == 0
    requires limit > 0 ==> count <= (if captures then 2 else 1) * (limit - 1)
    ensures var parts := PartsFrom(s, exec, index, last, count, limit, captures);
      && |parts| >= 1
      && (captures ==> |parts| % 2 == 1)
      && (limit > 0 ==> count + |parts| <= (if captures then 2 * limit - 1 else limit))
    decreases |s| + 1 - index
  {
    hide PartsFrom;
    PartsStep(s, exec, index, last, count, limit, captures);
    var m := exec(index);
    if !(m.NoMatch? || AtLimit(count, limit, captures)) {
      PartsCount(s, exec, NextIndex(m), m.index + m.len, count + (if captures then 2 else 1), limit, captures);
    }
  }

  /** A limit of `k` gives at most `k` pieces, or `2 * k - 1` when the matches between them are kept. */
  lemma LimitHolds(s: Bytes, exec: nat -> Match, limit: int, captures: bool)
    requires ExecOk(exec, |s|) && limit > 0
    ensures |Parts(s, exec, limit, captures)| <= if captures then 2 * limit - 1 else limit
  {
    PartsCount(s, exec, 0, 0, 0, limit, captures);
  }

  function EveryOther(parts: seq<Bytes>): seq<Bytes> {
    if parts == [] then [] else [parts[0]] + if |parts| == 1 then [] else EveryOther(parts[2..])
  }

  lemma {:induction false} CapturesInterleave(
    s: Bytes, exec: nat -> Match, index: nat, last: nat, count: nat, limit: int)
    requires ExecOk(exec, |s|) && last <= index && last <= |s|
    ensures PartsFrom(s, exec, index, last, count, limit, false)
            == EveryOther(PartsFrom(s, exec, index, last, 2 * count, limit, true))
    decreases |s| + 1 - index
  {
    hide PartsFrom;
    PartsStep(s, exec, index, last, count, limit, false);
    PartsStep(s, exec, index, last, 2 * count, limit, true);
    var m := exec(index);
    if !(m.NoMatch? || AtLimit(count, limit, false)) {
      var end := m.index + m.len;
      CapturesInterleave(s, exec, NextIndex(m), end, count + 1, limit);
      var rest := PartsFrom(s, exec, NextIndex(m), end, 2 * (count + 1), limit, true);
      var all := [s[last..m.index]] + [s[m.index..end]] + rest;
      assert all[2..] == rest && |all| >= 2;
      assert [s[last..m.index]] + [] == [s[last..m.index]];
    }
  }

  /** The parts without captures are every other part of those with captures. */
  lemma WithoutCaptures(s: Bytes, exec: nat -> Match, limit: int)
    requires ExecOk(exec, |s|)
    ensures Parts(s, exec, limit, false) == EveryOther(Parts(s, exec, limit, true))
  {
    CapturesInterleave(s, exec, 0, 0, 0, limit);
  }

  // ---- Which parts ----

  /** Where the text between match `i - 1` and match `i` starts. */
  function PieceStart(spans: seq<(nat, nat)>, last: nat, i: nat): nat
    requires i <= |spans|
  {
    if i == 0 then last else spans[i - 1].0 + spans[i - 1].1
  }

  /** The pieces a limit leaves of `n` matches: one more than the matches, and no more than the limit. */
  function PieceCount(n: nat, limit: int): nat {
    if limit <= 0 || n + 1 <= limit then n + 1 else limit
  }

  /** The pieces lie between the matches, and the last one takes the rest of the subject. */
  ghost predicate PiecesBetween(s: Bytes, spans: seq<(nat, nat)>, last: nat, pieces: seq<Bytes>)
    requires 1 <= |pieces| <= |spans| + 1
  {
    forall i | 0 <= i < |pieces| ::
      var start, end := PieceStart(spans, last, i), if i == |pieces| - 1 then |s| else spans[i].0;
      start <= end <= |s| && pieces[i] == s[start..end]
  }

  lemma SpansStep(s: Bytes, exec: nat -> Match, index: nat)
    requires ExecOk(exec, |s|)
    ensures var m := exec(index);
      SpansFrom(s, exec, index) == if m.NoMatch? then [] else [(m.index, m.len)] + SpansFrom(s, exec, NextIndex(m))
  {
  }

  lemma PiecesCons(s: Bytes, spans: seq<(nat, nat)>, last: nat, rest: seq<Bytes>)
    requires spans != [] && last <= spans[0].0 && spans[0].0 + spans[0].1 <= |s|
    requires 1 <= |rest| <= |spans| && PiecesBetween(s, spans[1..], spans[0].0 + spans[0].1, rest)
    ensures PiecesBetween(s, spans, last, [s[last..spans[0].0]] + rest)
  {
    var end, pieces := spans[0].0 + spans[0].1, [s[last..spans[0].0]] + rest;
    forall i | 0 < i < |pieces| ensures PieceStart(spans, last, i) == PieceStart(spans[1..], end, i - 1) { }
    forall i | 0 < i < |pieces| ensures pieces[i] == rest[i - 1] { }
  }

  lemma {:induction false} PiecesFrom(s: Bytes, exec: nat -> Match, index: nat, last: nat, count: nat, limit: int)
    requires ExecOk(exec, |s|) && last <= index && last <= |s| && (limit > 0 ==> count < limit)
    ensures var spans, parts := SpansFrom(s, exec, index), PartsFrom(s, exec, index, last, count, limit, false);
      && |parts| == PieceCount(|spans|, if limit > 0 then limit - count else 0)
      && PiecesBetween(s, spans, last, parts)
    decreases |s| + 1 - index
  {
    hide PartsFrom, SpansFrom, ExecOk, PiecesBetween;
    PartsStep(s, exec, index, last, count, limit, false);
    SpansStep(s, exec, index);
    var m, spans := exec(index), SpansFrom(s, exec, index);
    if m.NoMatch? || AtLimit(count, limit, false) {
      LastPiece(s, spans, last);
    } else {
      ExecAt(exec, |s|, index);
      var end := m.index + m.len;
      PiecesFrom(s, exec, NextIndex(m), end, count + 1, limit);
      var rest := PartsFrom(s, exec, NextIndex(m), end, count + 1, limit, false);
      assert spans[1..] == SpansFrom(s, exec, NextIndex(m));
      PiecesCons(s, spans, last, rest);
      assert [s[last..m.index]] + [] == [s[last..m.index]];
    }
  }

  lemma LastPiece(s: Bytes, spans: seq<(nat, nat)>, last: nat)
    requires last <= |s|
    ensures PiecesBetween(s, spans, last, [s[last..]])
  {
  }

  /**
   * Without captures: a limit of `k` gives the smaller of `k` and one more than the matches, no limit the latter;
   * part `i` is what lies between match `i - 1` and match `i`, and the last part goes to the end of the subject.
   */
  lemma SplitExactly(s: Bytes, exec: nat -> Match, limit: int)
    requires ExecOk(exec, |s|)
    ensures var spans, parts := SpansFrom(s, exec, 0), Parts(s, exec, limit, false);
      && |parts| == (if limit <= 0 || |spans| + 1 <= limit then |spans| + 1 else limit)
      && PiecesBetween(s, spans, 0, parts)
  {
    hide SpansFrom, PartsFrom, PiecesBetween;
    PiecesFrom(s, exec, 0, 0, 0, limit);
  }

  /** `Regex.split/3`: the host splits and frames, the compiled side decodes and trims. */
  method RegexSplit3(s: Bytes, exec: nat -> Match, limit: int, captures: bool, trim: bool)
    returns (parts: seq<Bytes>)
    requires ExecOk(exec, |s|) && |Frame(Parts(s, exec, limit, captures))| < TWO32
    ensures parts == Kept(Parts(s, exec, limit, captures), trim)
    ensures captures ==> Concat(parts) == s
  {
    hide Frame, Kept, Parts, Concat;
    var chunks := SplitParts(s, exec, limit, captures);
    var buf := FrameParts(chunks);
    parts := DecodeParts(buf[..], trim, chunks);
    CapturesKeepSubject(s, exec, limit, trim);
  }

  // ---- Scanning ----

  /** All matches from `index` on, each as the whole match followed by its groups. */
  function MatchesFrom(s: Bytes, exec: nat -> Match, index: nat): seq<seq<Bytes>>
    requires ExecOk(exec, |s|)
    decreases |s| + 1 - index
  {
    var m := exec(index);
    if m.NoMatch? then []
    else [[s[m.index..m.index + m.len]] + m.groups] + MatchesFrom(s, exec, NextIndex(m))
  }

  method ScanMatches(s: Bytes, exec: nat -> Match) returns (matches: seq<seq<Bytes>>)
    requires ExecOk(exec, |s|)
    ensures matches == MatchesFrom(s, exec, 0)
  {
    hide ExecOk, MatchesFrom;
    matches := [];
    var lastIndex: nat := 0;
    var m := exec(lastIndex);
    while m.Match?
      invariant m == exec(lastIndex)
      invariant matches + MatchesFrom(s, exec, lastIndex) == MatchesFrom(s, exec, 0)
      decreases |s| + 1 - lastIndex
    {
      MatchesStep(s, exec, lastIndex);
      ExecAt(exec, |s|, lastIndex);
      matches := matches + [[s[m.index..m.index + m.len]] + m.groups];
      lastIndex := m.index + m.len;
      if m.len == 0 {
        lastIndex := lastIndex + 1;
      }
      m := exec(lastIndex);
    }
    MatchesStep(s, exec, lastIndex);
  }

  lemma MatchesStep(s: Bytes, exec: nat -> Match, index: nat)
    requires ExecOk(exec, |s|)
    ensures var m := exec(index);
      MatchesFrom(s, exec, index) ==
        if m.NoMatch? then [] else [[s[m.index..m.index + m.len]] + m.groups] + MatchesFrom(s, exec, NextIndex(m))
  {
  }

  /** A match is the text of its span, which lies at or after `from` and inside the subject. */
  ghost predicate Fits(s: Bytes, span: (nat, nat), m: seq<Bytes>, from: nat) {
    from <= span.0 && span.0 + span.1 <= |s| && m != [] && m[0] == s[span.0..span.0 + span.1]
  }

  /** The one starts, and ends, no later than the other starts. */
  ghost predicate Ahead(a: (nat, nat), b: (nat, nat)) {
    a.0 < b.0 && a.0 + a.1 <= b.0
  }

  /** Each match is the text of its span, and each span starts where the one before ends or later. */
  ghost predicate InOrder(s: Bytes, spans: seq<(nat, nat)>, matches: seq<seq<Bytes>>, from: nat) {
    && |spans| == |matches|
    && (forall i | 0 <= i < |spans| :: Fits(s, spans[i], matches[i], from))
    && (forall i, j | 0 <= i < j < |spans| :: Ahead(spans[i], spans[j]))
  }

  lemma FitsLater(s: Bytes, first: (nat, nat), span: (nat, nat), m: seq<Bytes>, from: nat, next: nat)
    requires Fits(s, span, m, next) && from <= first.0 < next && first.0 + first.1 <= next
    ensures Fits(s, span, m, from) && Ahead(first, span)
  {
  }

  lemma InOrderCons(s: Bytes, first: (nat, nat), m: seq<Bytes>, spans: seq<(nat, nat)>, matches: seq<seq<Bytes>>,
                    from: nat, next: nat)
    requires Fits(s, first, m, from) && first.0 < next && first.0 + first.1 <= next
    requires InOrder(s, spans, matches, next)
    ensures InOrder(s, [first] + spans, [m] + matches, from)
  {
    hide Fits, Ahead;
    FitsFrom(s, first, m, from);
    forall i | 0 <= i < |spans| ensures Fits(s, spans[i], matches[i], from) && Ahead(first, spans[i]) {
      FitsLater(s, first, spans[i], matches[i], from, next);
    }
  }

  lemma FitsFrom(s: Bytes, span: (nat, nat), m: seq<Bytes>, from: nat)
    requires Fits(s, span, m, from)
    ensures from <= span.0
  {
  }

  /** The matches of a scan come from left to right, without overlap and never twice from one place. */
  lemma {:induction false} MatchesDisjoint(s: Bytes, exec: nat -> Match, index: nat)
    requires ExecOk(exec, |s|)
    ensures InOrder(s, SpansFrom(s, exec, index), MatchesFrom(s, exec, index), index)
    decreases |s| + 1 - index
  {
    hide ExecOk, SpansFrom, MatchesFrom;
    SpansStep(s, exec, index);
    MatchesStep(s, exec, index);
    var m := exec(index);
    if m.Match? {
      hide InOrder;
      ExecAt(exec, |s|, index);
      MatchesDisjoint(s, exec, NextIndex(m));
      InOrderCons(s, (m.index, m.len), [s[m.index..m.index + m.len]] + m.groups, SpansFrom(s, exec, NextIndex(m)),
                  MatchesFrom(s, exec, NextIndex(m)), index, NextIndex(m));
    }
  }

  /** `exec` finds the first match at or after its start: nothing changes as long as the start does not pass it. */
  ghost predicate Leftmost(exec: nat -> Match) {
    forall i: nat, k: nat | i <= k && (exec(i).NoMatch? || k <= exec(i).index) :: exec(k) == exec(i)
  }

  /** Position `k` is the start of a span, or lies inside one. */
  ghost predicate Covered(spans: seq<(nat, nat)>, k: nat) {
    exists i | 0 <= i < |spans| :: k == spans[i].0 || spans[i].0 < k < spans[i].0 + spans[i].1
  }

  /** No match is skipped: wherever one starts, the scan has it, or is inside one that it has. */
  lemma {:induction false} NoneSkipped(s: Bytes, exec: nat -> Match, index: nat, k: nat)
    requires ExecOk(exec, |s|) && Leftmost(exec)
    requires index <= k && exec(k).Match? && exec(k).index == k
    ensures Covered(SpansFrom(s, exec, index), k)
    decreases |s| + 1 - index
  {
    hide SpansFrom;
    SpansStep(s, exec, index);
    var m, spans := exec(index), SpansFrom(s, exec, index);
    assert m.NoMatch? || k <= m.index ==> exec(k) == m;
    ExecAt(exec, |s|, index);
    if k <= m.index {
      assert spans[0].0 == k;
    } else if k < NextIndex(m) {
      assert spans[0].0 < k < spans[0].0 + spans[0].1;
    } else {
      NoneSkipped(s, exec, NextIndex(m), k);
      var i :| 0 <= i < |spans[1..]|
        && (k == spans[1..][i].0 || spans[1..][i].0 < k < spans[1..][i].0 + spans[1..][i].1);
      assert spans[1..][i] == spans[i + 1];
    }
  }

  /** `Regex.scan/2`: the host scans and frames, the compiled side decodes. */
  method RegexScan2(s: Bytes, exec: nat -> Match) returns (all: seq<seq<Bytes>>)
    requires ExecOk(exec, |s|) && |ScanFrame(MatchesFrom(s, exec, 0))| < TWO32
    ensures all == MatchesFrom(s, exec, 0) && InOrder(s, SpansFrom(s, exec, 0), all, 0)
  {
    hide ScanFrame, MatchesFrom, SpansFrom, InOrder;
    MatchesDisjoint(s, exec, 0);
    var matches := ScanMatches(s, exec);
    var buf := FrameMatches(matches);
    all := DecodeMatches(buf[..], matches);
  }
}
