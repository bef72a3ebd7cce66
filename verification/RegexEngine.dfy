/** The small regular-expression engine: a pattern parser and a backtracking matcher. */
module RegexEngine {
  import opened Collections

  datatype Node =
    | Char(c: char)
    | Dot
    | Class(ranges: seq<(char, char)>, neg: bool)
    | AnchorStart
    | AnchorEnd
    | Star(node: Node)
    | Plus(node: Node)
    | Opt(node: Node)

  // ---- Parser ----

  function ParseClass(s: string): (r: (seq<(char, char)>, string))
    ensures |r.1| <= |s|
  {
    if s == [] then ([], [])
    else if s[0] == ']' then ([], s[1..])
    else if |s| >= 3 && s[1] == '-' && s[2] != ']' then
      var (ranges, rest) := ParseClass(s[3..]);
      ([(s[0], s[2])] + ranges, rest)
    else
      var (ranges, rest) := ParseClass(s[1..]);
      ([(s[0], s[0])] + ranges, rest)
  }

  function ParseAtom(c: char, rest: string): (r: (Node, string))
    ensures |r.1| <= |rest|
  {
    if c == '.' then (Dot, rest)
    else if c == '[' then
      var neg := rest != [] && rest[0] == '^';
      var (ranges, rest2) := ParseClass(if neg then rest[1..] else rest);
      (Class(ranges, neg), rest2)
    else (Char(c), rest)
  }

  function ApplyQuant(atom: Node, rest: string): (r: (Node, string))
    ensures |r.1| <= |rest|
  {
    if rest == [] then (atom, rest)
    else if rest[0] == '*' then (Star(atom), rest[1..])
    else if rest[0] == '+' then (Plus(atom), rest[1..])
    else if rest[0] == '?' then (Opt(atom), rest[1..])
    else (atom, rest)
  }

  function ParseSeq(s: string): (seq<Node>, bool)
    decreases |s|
  {
    if s == [] then ([], false)
    else if s == ['$'] then ([], true)
    else
      var (atom, rest2) := ParseAtom(s[0], s[1..]);
      var (item, rest3) := ApplyQuant(atom, rest2);
      var (items, anchored) := ParseSeq(rest3);
      ([item] + items, anchored)
  }

  function Parse(s: string): seq<Node> {
    var anchoredStart := s != [] && s[0] == '^';
    var (items, anchoredEnd) := ParseSeq(if anchoredStart then s[1..] else s);
    (if anchoredStart then [AnchorStart] else []) + items + (if anchoredEnd then [AnchorEnd] else [])
  }

  // ---- What the parser produces ----

  /** The atoms `match_one` has clauses for. */
  predicate Single(n: Node) {
    n.Char? || n.Dot? || n.Class?
  }

  predicate Item(n: Node) {
    Single(n) || ((n.Star? || n.Plus? || n.Opt?) && Single(n.node))
  }

  predicate Items(nodes: seq<Node>) {
    forall n | n in nodes :: Item(n)
  }

  /** Items, then possibly the end anchor. */
  predicate Matchable(nodes: seq<Node>) {
    Items(nodes) || (nodes != [] && nodes[|nodes| - 1] == AnchorEnd && Items(nodes[..|nodes| - 1]))
  }

  predicate WellFormed(nodes: seq<Node>) {
    if nodes != [] && nodes[0] == AnchorStart then Matchable(nodes[1..]) else Matchable(nodes)
  }

  lemma {:induction false} ParseSeqItems(s: string)
    ensures Items(ParseSeq(s).0)
    decreases |s|
  {
    if s != [] && s != ['$'] {
      var (atom, rest2) := ParseAtom(s[0], s[1..]);
      var (item, rest3) := ApplyQuant(atom, rest2);
      ParseSeqItems(rest3);
      assert Single(atom) && Item(item);
    }
  }

  /** Every pattern parses, and quantifiers only ever apply to single-character atoms. */
  lemma ParseWellFormed(s: string)
    ensures WellFormed(Parse(s))
  {
    var anchoredStart := s != [] && s[0] == '^';
    var body := if anchoredStart then s[1..] else s;
    var (items, anchoredEnd) := ParseSeq(body);
    ParseSeqItems(body);
    var tail := items + (if anchoredEnd then [AnchorEnd] else []);
    assert Matchable(tail) by {
      if anchoredEnd {
        assert tail[..|tail| - 1] == items;
      } else {
        assert tail == items;
      }
    }
    if anchoredStart {
      assert Parse(s) == [AnchorStart] + tail && Parse(s)[1..] == tail;
    } else {
      assert Parse(s) == tail;
      assert tail != [] ==> tail[0] in items || tail[0] == AnchorEnd;
    }
  }

  // ---- Matcher ----

  predicate Accepts(n: Node, c: char)
    requires Single(n)
  {
    match n
    case Char(d) => c == d
    case Dot => true
    case Class(ranges, neg) => (exists r | r in ranges :: r.0 <= c <= r.1) != neg
  }

  function MatchOne(n: Node, cs: string): (r: Option<string>)
    requires Single(n)
    ensures r.Some? <==> cs != [] && Accepts(n, cs[0])
    ensures r.Some? ==> r.value == cs[1..]
  {
    if cs == [] then None else if Accepts(n, cs[0]) then Some(cs[1..]) else None
  }

  /** The suffixes left after more and more repetitions, longest match first. */
  function CollectStar(n: Node, cs: string, acc: seq<string>): seq<string>
    requires Single(n)
    decreases cs
  {
    match MatchOne(n, cs)
    case Some(left) => if left != cs then CollectStar(n, left, [left] + acc) else acc
    case None => acc
  }

  predicate MatchHere(nodes: seq<Node>, cs: string)
    requires Matchable(nodes)
    decreases |nodes|, 0
  {
    if nodes == [] then true
    else if nodes == [AnchorEnd] then cs == []
    else
      HeadIsItem(nodes);
      var rest := nodes[1..];
      match nodes[0]
      case Star(n) => MatchStar(n, rest, cs)
      case Plus(n) =>
        (match MatchOne(n, cs) case Some(left) => MatchStar(n, rest, left) case None => false)
      case Opt(n) =>
        (match MatchOne(n, cs)
         case Some(left) => MatchHere(rest, left) || MatchHere(rest, cs)
         case None => MatchHere(rest, cs))
      case n =>
        (match MatchOne(n, cs) case Some(left) => MatchHere(rest, left) case None => false)
  }

  predicate MatchStar(n: Node, rest: seq<Node>, cs: string)
    requires Single(n) && Matchable(rest)
    decreases |rest|, 1
  {
    exists left | left in CollectStar(n, cs, [cs]) :: MatchHere(rest, left)
  }

  predicate TryPositions(nodes: seq<Node>, cs: string)
    requires Matchable(nodes)
    decreases cs
  {
    MatchHere(nodes, cs) || (cs != [] && TryPositions(nodes, cs[1..]))
  }

  predicate RegexMatch(nodes: seq<Node>, str: string)
    requires WellFormed(nodes)
  {
    if nodes != [] && nodes[0] == AnchorStart then MatchHere(nodes[1..], str) else TryPositions(nodes, str)
  }

  lemma HeadIsItem(nodes: seq<Node>)
    requires Matchable(nodes) && nodes != [] && nodes != [AnchorEnd]
    ensures Item(nodes[0]) && Matchable(nodes[1..])
  {
    if !Items(nodes) {
      var items := nodes[..|nodes| - 1];
      assert nodes == items + [AnchorEnd];
      assert items != [] && items[0] in items;
      assert nodes[1..][..|nodes| - 2] == items[1..];
    }
  }

  // ---- The language of a pattern ----

  ghost predicate AllAccepted(n: Node, w: string)
    requires Single(n)
  {
    forall i | 0 <= i < |w| :: Accepts(n, w[i])
  }

  ghost predicate InItem(n: Node, w: string)
    requires Item(n)
  {
    match n
    case Star(m) => AllAccepted(m, w)
    case Plus(m) => |w| >= 1 && AllAccepted(m, w)
    case Opt(m) => |w| <= 1 && AllAccepted(m, w)
    case _ => |w| == 1 && Accepts(n, w[0])
  }

  /** `w` is a word of the first item followed by a word of the rest. */
  ghost predicate InLanguage(items: seq<Node>, w: string)
    requires Items(items)
    decreases |items|
  {
    if items == [] then w == []
    else exists k | 0 <= k <= |w| :: InItem(items[0], w[..k]) && InLanguage(items[1..], w[k..])
  }

  predicate EndAnchored(nodes: seq<Node>) {
    nodes != [] && nodes[|nodes| - 1] == AnchorEnd
  }

  predicate StartAnchored(nodes: seq<Node>) {
    nodes != [] && nodes[0] == AnchorStart
  }

  function ItemsOf(nodes: seq<Node>): (items: seq<Node>)
    requires Matchable(nodes)
    ensures Items(items)
  {
    if EndAnchored(nodes) then nodes[..|nodes| - 1] else nodes
  }

  /** The first `k` characters of `cs` are a word of the nodes, and all of `cs` where the end is anchored. */
  ghost predicate MatchesPrefix(nodes: seq<Node>, cs: string, k: nat)
    requires Matchable(nodes)
  {
    k <= |cs| && InLanguage(ItemsOf(nodes), cs[..k]) && (EndAnchored(nodes) ==> k == |cs|)
  }

  /** `left` is what remains of `cs` after one or more characters that `n` accepts. */
  ghost predicate Remains(n: Node, cs: string, left: string)
    requires Single(n)
  {
    exists j | 1 <= j <= |cs| :: AllAccepted(n, cs[..j]) && left == cs[j..]
  }

  lemma RemainsStep(n: Node, cs: string, left: string)
    requires Single(n) && cs != []
    ensures Remains(n, cs, left) <==> Accepts(n, cs[0]) && (left == cs[1..] || Remains(n, cs[1..], left))
  {
    hide Accepts;
    forall j | 1 <= j <= |cs|
      ensures AllAccepted(n, cs[..j]) <==> Accepts(n, cs[0]) && AllAccepted(n, cs[1..][..j - 1])
      ensures cs[j..] == cs[1..][j - 1..]
    {
      assert cs[..j] == [cs[0]] + cs[1..][..j - 1];
    }
    if Accepts(n, cs[0]) {
      if left == cs[1..] {
        assert AllAccepted(n, cs[..1]);
      }
      if j :| 1 <= j <= |cs| - 1 && AllAccepted(n, cs[1..][..j]) && left == cs[1..][j..] {
        assert AllAccepted(n, cs[..j + 1]) && left == cs[j + 1..];
      }
      if j :| 1 <= j <= |cs| && AllAccepted(n, cs[..j]) && left == cs[j..] && j > 1 {
        assert AllAccepted(n, cs[1..][..j - 1]) && left == cs[1..][j - 1..];
      }
    }
  }

  lemma {:induction false} CollectIs(n: Node, cs: string, acc: seq<string>, left: string)
    requires Single(n)
    ensures left in CollectStar(n, cs, acc) <==> left in acc || Remains(n, cs, left)
    decreases cs
  {
    hide Accepts, Remains;
    if cs != [] {
      RemainsStep(n, cs, left);
      if Accepts(n, cs[0]) {
        CollectIs(n, cs[1..], [cs[1..]] + acc, left);
      }
    } else {
      NothingRemains(n, left);
    }
  }

  lemma NothingRemains(n: Node, left: string)
    requires Single(n)
    ensures !Remains(n, [], left)
  {
  }

  lemma StarSplits(n: Node, rest: seq<Node>, cs: string)
    requires Single(n) && Matchable(rest)
    ensures MatchStar(n, rest, cs) <==>
      exists j | 0 <= j <= |cs| :: AllAccepted(n, cs[..j]) && MatchHere(rest, cs[j..])
  {
    hide MatchHere, CollectStar, AllAccepted;
    if MatchStar(n, rest, cs) {
      var left :| left in CollectStar(n, cs, [cs]) && MatchHere(rest, left);
      CollectIs(n, cs, [cs], left);
      if left == cs {
        NoneAccepted(n, cs);
      }
    }
    if j :| 0 <= j <= |cs| && AllAccepted(n, cs[..j]) && MatchHere(rest, cs[j..]) {
      CollectIs(n, cs, [cs], cs[j..]);
      assert j == 0 ==> cs[j..] == cs;
    }
  }

  lemma NoneAccepted(n: Node, cs: string)
    requires Single(n)
    ensures AllAccepted(n, cs[..0]) && cs[0..] == cs
  {
  }

  /** One item and the rest: matching here means some word of the item, then a match of the rest. */
  lemma HereSplits(nodes: seq<Node>, cs: string)
    requires Matchable(nodes) && nodes != [] && nodes != [AnchorEnd]
    ensures Item(nodes[0]) && Matchable(nodes[1..])
    ensures MatchHere(nodes, cs) <==>
      exists j | 0 <= j <= |cs| :: InItem(nodes[0], cs[..j]) && MatchHere(nodes[1..], cs[j..])
  {
    HeadIsItem(nodes);
    var head, rest := nodes[0], nodes[1..];
    match head
    case Star(n) => StarSplits(n, rest, cs);
    case Plus(n) => PlusSplits(n, rest, cs);
    case Opt(n) => OptSplits(n, rest, cs);
    case n => OneSplits(n, rest, cs);
  }

  lemma PlusSplits(n: Node, rest: seq<Node>, cs: string)
    requires Single(n) && Matchable(rest)
    ensures (cs != [] && Accepts(n, cs[0]) && MatchStar(n, rest, cs[1..])) <==>
      exists j | 0 <= j <= |cs| :: InItem(Plus(n), cs[..j]) && MatchHere(rest, cs[j..])
  {
    hide MatchHere, MatchStar, Accepts;
    if cs != [] {
      StarSplits(n, rest, cs[1..]);
      forall j | 1 <= j <= |cs|
        ensures AllAccepted(n, cs[..j]) <==> Accepts(n, cs[0]) && AllAccepted(n, cs[1..][..j - 1])
        ensures cs[j..] == cs[1..][j - 1..]
      {
        assert cs[..j] == [cs[0]] + cs[1..][..j - 1];
      }
      if Accepts(n, cs[0]) && MatchStar(n, rest, cs[1..]) {
        var j :| 0 <= j <= |cs| - 1 && AllAccepted(n, cs[1..][..j]) && MatchHere(rest, cs[1..][j..]);
        assert InItem(Plus(n), cs[..j + 1]) && MatchHere(rest, cs[j + 1..]);
      }
      if j :| 0 <= j <= |cs| && InItem(Plus(n), cs[..j]) && MatchHere(rest, cs[j..]) {
        assert AllAccepted(n, cs[1..][..j - 1]) && MatchHere(rest, cs[1..][j - 1..]);
      }
    }
  }

  lemma OptSplits(n: Node, rest: seq<Node>, cs: string)
    requires Single(n) && Matchable(rest)
    ensures (MatchHere(rest, cs) || (cs != [] && Accepts(n, cs[0]) && MatchHere(rest, cs[1..]))) <==>
      exists j | 0 <= j <= |cs| :: InItem(Opt(n), cs[..j]) && MatchHere(rest, cs[j..])
  {
    hide MatchHere, Accepts;
    NoneAccepted(n, cs);
    if MatchHere(rest, cs) {
      assert InItem(Opt(n), cs[..0]) && MatchHere(rest, cs[0..]);
    }
    if cs != [] && Accepts(n, cs[0]) && MatchHere(rest, cs[1..]) {
      assert InItem(Opt(n), cs[..1]);
    }
    if j :| 0 <= j <= |cs| && InItem(Opt(n), cs[..j]) && MatchHere(rest, cs[j..]) {
      if j == 1 {
        assert Accepts(n, cs[..1][0]);
      } else {
        assert j == 0;
      }
    }
  }

  lemma OneSplits(n: Node, rest: seq<Node>, cs: string)
    requires Single(n) && Matchable(rest)
    ensures (cs != [] && Accepts(n, cs[0]) && MatchHere(rest, cs[1..])) <==>
      exists j | 0 <= j <= |cs| :: InItem(n, cs[..j]) && MatchHere(rest, cs[j..])
  {
    hide MatchHere, Accepts;
    if cs != [] && Accepts(n, cs[0]) && MatchHere(rest, cs[1..]) {
      assert InItem(n, cs[..1]);
    }
    if j :| 0 <= j <= |cs| && InItem(n, cs[..j]) && MatchHere(rest, cs[j..]) {
      assert j == 1 && Accepts(n, cs[..1][0]);
    }
  }

  /** The language splits the same way. */
  lemma PrefixSplits(nodes: seq<Node>, cs: string, k: nat)
    requires Matchable(nodes) && nodes != [] && nodes != [AnchorEnd] && Item(nodes[0]) && Matchable(nodes[1..])
    ensures MatchesPrefix(nodes, cs, k) <==>
      k <= |cs| && exists j | 0 <= j <= k :: InItem(nodes[0], cs[..j]) && MatchesPrefix(nodes[1..], cs[j..], k - j)
  {
    if k <= |cs| {
      hide InItem;
      var items, w := ItemsOf(nodes), cs[..k];
      assert items != [] && items[0] == nodes[0];
      assert items[1..] == ItemsOf(nodes[1..]);
      forall j | 0 <= j <= k ensures w[..j] == cs[..j] && w[j..] == cs[j..][..k - j] {
      }
      if MatchesPrefix(nodes, cs, k) {
        var j :| 0 <= j <= |w| && InItem(items[0], w[..j]) && InLanguage(items[1..], w[j..]);
        assert InItem(nodes[0], cs[..j]) && MatchesPrefix(nodes[1..], cs[j..], k - j);
      }
      if j :| 0 <= j <= k && InItem(nodes[0], cs[..j]) && MatchesPrefix(nodes[1..], cs[j..], k - j) {
        assert InItem(items[0], w[..j]) && InLanguage(items[1..], w[j..]);
      }
    }
  }

  /** Greedy expansion with backtracking finds a match exactly when there is one. */
  lemma {:induction false} MatchHereIs(nodes: seq<Node>, cs: string)
    requires Matchable(nodes)
    ensures MatchHere(nodes, cs) <==> exists k: nat :: MatchesPrefix(nodes, cs, k)
    decreases |nodes|
  {
    if nodes == [] {
      assert MatchesPrefix(nodes, cs, 0);
    } else if nodes == [AnchorEnd] {
      assert ItemsOf(nodes) == [];
      if cs == [] {
        assert MatchesPrefix(nodes, cs, 0);
      }
    } else {
      hide MatchesPrefix, InItem, MatchHere;
      HereSplits(nodes, cs);
      forall j | 0 <= j <= |cs|
        ensures MatchHere(nodes[1..], cs[j..]) <==> exists k: nat :: MatchesPrefix(nodes[1..], cs[j..], k)
      {
        MatchHereIs(nodes[1..], cs[j..]);
      }
      if MatchHere(nodes, cs) {
        var j :| 0 <= j <= |cs| && InItem(nodes[0], cs[..j]) && MatchHere(nodes[1..], cs[j..]);
        var k: nat :| MatchesPrefix(nodes[1..], cs[j..], k);
        PrefixBound(nodes[1..], cs[j..], k);
        PrefixFrom(nodes, cs, j, k);
      }
      if k: nat :| MatchesPrefix(nodes, cs, k) {
        PrefixBound(nodes, cs, k);
        PrefixSplits(nodes, cs, k);
        var j :| 0 <= j <= k && InItem(nodes[0], cs[..j]) && MatchesPrefix(nodes[1..], cs[j..], k - j);
        assert MatchHere(nodes[1..], cs[j..]);
      }
    }
  }

  lemma PrefixBound(nodes: seq<Node>, cs: string, k: nat)
    requires Matchable(nodes) && MatchesPrefix(nodes, cs, k)
    ensures k <= |cs|
  {
  }

  lemma PrefixFrom(nodes: seq<Node>, cs: string, j: nat, k: nat)
    requires Matchable(nodes) && nodes != [] && nodes != [AnchorEnd] && Item(nodes[0]) && Matchable(nodes[1..])
    requires j + k <= |cs| && InItem(nodes[0], cs[..j]) && MatchesPrefix(nodes[1..], cs[j..], k)
    ensures MatchesPrefix(nodes, cs, j + k)
  {
    hide MatchesPrefix, InItem;
    PrefixSplits(nodes, cs, j + k);
    assert MatchesPrefix(nodes[1..], cs[j..], j + k - j);
  }

  lemma {:induction false} TryPositionsIs(nodes: seq<Node>, cs: string)
    requires Matchable(nodes)
    ensures TryPositions(nodes, cs) <==> exists i | 0 <= i <= |cs| :: MatchHere(nodes, cs[i..])
    decreases cs
  {
    hide MatchHere;
    assert cs[0..] == cs;
    if cs != [] {
      TryPositionsIs(nodes, cs[1..]);
      if i :| 0 <= i <= |cs| - 1 && MatchHere(nodes, cs[1..][i..]) {
        assert cs[1..][i..] == cs[i + 1..];
      }
      if i :| 1 <= i <= |cs| && MatchHere(nodes, cs[i..]) {
        assert cs[1..][i - 1..] == cs[i..];
      }
    }
  }

  /** What `regex_match?` promises: a substring in the language, reaching the ends it is anchored to. */
  ghost predicate Matches(nodes: seq<Node>, str: string)
    requires WellFormed(nodes)
  {
    var body := if StartAnchored(nodes) then nodes[1..] else nodes;
    exists i, j | 0 <= i <= j <= |str| ::
      && InLanguage(ItemsOf(body), str[i..j])
      && (StartAnchored(nodes) ==> i == 0)
      && (EndAnchored(body) ==> j == |str|)
  }

  lemma PrefixIsSubstring(nodes: seq<Node>, str: string, i: nat, k: nat)
    requires Matchable(nodes) && i + k <= |str|
    ensures MatchesPrefix(nodes, str[i..], k) <==>
      InLanguage(ItemsOf(nodes), str[i..i + k]) && (EndAnchored(nodes) ==> i + k == |str|)
  {
    hide InLanguage;
    assert str[i..][..k] == str[i..i + k];
  }

  /** The matcher is sound and complete for every well-formed node list and string. */
  lemma RegexMatchIs(nodes: seq<Node>, str: string)
    requires WellFormed(nodes)
    ensures RegexMatch(nodes, str) <==> Matches(nodes, str)
  {
    hide MatchHere, MatchesPrefix, InLanguage, EndAnchored, Matchable, TryPositions;
    var body := if StartAnchored(nodes) then nodes[1..] else nodes;
    forall i | 0 <= i <= |str| {
      MatchHereIs(body, str[i..]);
    }
    assert str[0..] == str;
    if !StartAnchored(nodes) {
      TryPositionsIs(nodes, str);
    }
    if RegexMatch(nodes, str) {
      var i :| 0 <= i <= |str| && MatchHere(body, str[i..]) && (StartAnchored(nodes) ==> i == 0);
      var k: nat :| MatchesPrefix(body, str[i..], k);
      PrefixBound(body, str[i..], k);
      PrefixIsSubstring(body, str, i, k);
    }
    if Matches(nodes, str) {
      var i, j :| 0 <= i <= j <= |str| && InLanguage(ItemsOf(body), str[i..j])
        && (StartAnchored(nodes) ==> i == 0) && (EndAnchored(body) ==> j == |str|);
      PrefixIsSubstring(body, str, i, j - i);
      assert MatchHere(body, str[i..]);
    }
  }

  /** For every pattern text and string, end to end. */
  lemma PatternMatches(pattern: string, str: string)
    ensures WellFormed(Parse(pattern))
    ensures RegexMatch(Parse(pattern), str) <==> Matches(Parse(pattern), str)
  {
    ParseWellFormed(pattern);
    RegexMatchIs(Parse(pattern), str);
  }
}
