/** Every pattern text, piece by piece, and the nodes that the parser makes of it. */
module RegexPatterns {
  import opened RegexEngine
  import opened RegexText
  import opened RegexClasses

  /** A single character, or a bracket expression, which may lack its bracket at the end of the pattern. */
  datatype Atom = Lit(c: char) | Bracket(neg: bool, members: seq<Member>, closed: bool)

  datatype Mark = Once | Many | Several | Maybe

  datatype Piece = Piece(atom: Atom, mark: Mark)

  function ClassBody(a: Atom): string
    requires a.Bracket?
  {
    (if a.neg then ['^'] else []) + ShowMembers(a.members)
  }

  function AtomText(a: Atom): (s: string)
    ensures s != []
  {
    match a
    case Lit(c) => [c]
    case Bracket(_, _, closed) => ['['] + ClassBody(a) + (if closed then [']'] else [])
  }

  function MarkText(m: Mark): string {
    match m
    case Once => []
    case Many => ['*']
    case Several => ['+']
    case Maybe => ['?']
  }

  function PieceText(p: Piece): (s: string)
    ensures s != []
  {
    AtomText(p.atom) + MarkText(p.mark)
  }

  function PiecesText(ps: seq<Piece>): string {
    if ps == [] then [] else PieceText(ps[0]) + PiecesText(ps[1..])
  }

  /** The node of an atom: a dot stands for any character, every other single character for itself. */
  function AtomNode(a: Atom): (n: Node)
    ensures Single(n)
  {
    match a
    case Lit(c) => if c == '.' then Dot else Char(c)
    case Bracket(neg, ms, _) => Class(RangesOf(ms), neg)
  }

  function PieceNode(p: Piece): Node {
    match p.mark
    case Once => AtomNode(p.atom)
    case Many => Star(AtomNode(p.atom))
    case Several => Plus(AtomNode(p.atom))
    case Maybe => Opt(AtomNode(p.atom))
  }

  function PieceNodes(ps: seq<Piece>): seq<Node> {
    if ps == [] then [] else [PieceNode(ps[0])] + PieceNodes(ps[1..])
  }

  /** `a` ends where `more` begins: a class without its bracket swallows everything. */
  predicate AtomReadable(a: Atom, more: string) {
    match a
    case Lit(c) => c != '['
    case Bracket(neg, ms, closed) =>
      var tail := if closed then [']'] + more else [];
      && (!closed ==> more == [])
      && Readable(ms, tail)
      && (!neg ==> ShowMembers(ms) + tail == [] || (ShowMembers(ms) + tail)[0] != '^')
  }

  /** A piece without a mark is not followed by one, and the last one is not the anchor. */
  predicate PieceReadable(p: Piece, more: string) {
    && AtomReadable(p.atom, MarkText(p.mark) + more)
    && (p.mark == Once ==> NoQuantFirst(more) && !(p.atom == Lit('$') && more == []))
  }

  predicate PiecesReadable(ps: seq<Piece>, tail: string) {
    ps != [] ==> PieceReadable(ps[0], PiecesText(ps[1..]) + tail) && PiecesReadable(ps[1..], tail)
  }

  function Anchor(anchored: bool): string {
    if anchored then ['$'] else []
  }

  lemma BracketParses(neg: bool, ms: seq<Member>, tail: string, text: string)
    requires text == (if neg then ['^'] else []) + ShowMembers(ms) + tail
    requires Readable(ms, tail) && (tail == [] || tail[0] == ']')
    requires !neg ==> ShowMembers(ms) + tail == [] || (ShowMembers(ms) + tail)[0] != '^'
    ensures ParseAtom('[', text) == (Class(RangesOf(ms), neg), Behind(tail))
  {
    hide ParseAtom, ShowMembers, RangesOf, Readable, Accepts, Listed;
    BracketAccepts(ms, neg, tail, 'x');
  }

  lemma AtomParses(a: Atom, more: string)
    requires AtomReadable(a, more)
    ensures var s := AtomText(a) + more; ParseAtom(s[0], s[1..]) == (AtomNode(a), more)
  {
    hide ParseClass, ShowMembers, RangesOf, Readable;
    var s := AtomText(a) + more;
    if a.Lit? {
      assert s[1..] == more;
    } else {
      hide ParseAtom;
      var tail := if a.closed then [']'] + more else [];
      assert s[1..] == (if a.neg then ['^'] else []) + ShowMembers(a.members) + tail;
      BracketParses(a.neg, a.members, tail, s[1..]);
    }
  }

  lemma MarkParses(n: Node, m: Mark, more: string)
    requires m == Once ==> NoQuantFirst(more)
    ensures ApplyQuant(n, MarkText(m) + more) == (match m
                                                  case Once => n
                                                  case Many => Star(n)
                                                  case Several => Plus(n)
                                                  case Maybe => Opt(n), more)
  {
    var s := MarkText(m) + more;
    if m == Once { assert s == more; } else { assert s[1..] == more; }
  }

  lemma PieceParses(p: Piece, more: string)
    requires PieceReadable(p, more)
    ensures var s := PieceText(p) + more;
      && s != ['$']
      && ParseSeq(s) == ([PieceNode(p)] + ParseSeq(more).0, ParseSeq(more).1)
  {
    var s := PieceText(p) + more;
    assert s == AtomText(p.atom) + (MarkText(p.mark) + more);
    AtomParses(p.atom, MarkText(p.mark) + more);
    MarkParses(AtomNode(p.atom), p.mark, more);
    NotAnchor(p, more);
    hide AtomText, MarkText, AtomReadable, ParseAtom, ApplyQuant, AtomNode;
  }

  lemma NotAnchor(p: Piece, more: string)
    requires PieceReadable(p, more)
    ensures PieceText(p) + more != ['$']
  {
    var s := PieceText(p) + more;
    if p.atom.Bracket? {
      assert s[0] == '[';
    } else if p.mark == Once && more == [] {
      assert s == [p.atom.c];
    } else {
      assert |s| == 1 + |MarkText(p.mark)| + |more| > 1;
    }
  }

  /** Pattern text is read piece by piece, in order, and a dollar sign at the very end is the anchor. */
  lemma {:induction false} PiecesParse(ps: seq<Piece>, anchored: bool)
    requires PiecesReadable(ps, Anchor(anchored))
    ensures ParseSeq(PiecesText(ps) + Anchor(anchored)) == (PieceNodes(ps), anchored)
  {
    if ps == [] {
      assert PiecesText(ps) + Anchor(anchored) == Anchor(anchored);
    } else {
      hide ParseSeq, PieceText, PieceReadable;
      var more := PiecesText(ps[1..]) + Anchor(anchored);
      assert PiecesText(ps) + Anchor(anchored) == PieceText(ps[0]) + more;
      PieceParses(ps[0], more);
      PiecesParse(ps[1..], anchored);
    }
  }

  lemma TakeBracket(neg: bool, body: string) returns (a: Atom, more: string)
    requires !neg && body != [] ==> body[0] != '^'
    ensures ['['] + (if neg then ['^'] else []) + body == AtomText(a) + more && AtomReadable(a, more)
  {
    hide Readable, ShowMembers;
    var ms, tail := EveryClassText(body);
    a := Bracket(neg, ms, tail != []);
    more := Behind(tail);
    assert tail == (if a.closed then [']'] + more else []);
    var caret := if neg then ['^'] else [];
    assert ['['] + caret + body == (['['] + (caret + ShowMembers(ms))) + tail;
  }

  lemma TakeAtom(s: string) returns (a: Atom, more: string)
    requires s != []
    ensures s == AtomText(a) + more && AtomReadable(a, more)
  {
    if s[0] == '[' {
      hide AtomReadable, AtomText;
      var neg := |s| > 1 && s[1] == '^';
      var body := if neg then s[2..] else s[1..];
      a, more := TakeBracket(neg, body);
      assert s == ['['] + (if neg then ['^'] else []) + body;
    } else {
      a, more := Lit(s[0]), s[1..];
    }
  }

  lemma TakeMark(s: string) returns (m: Mark, more: string)
    ensures s == MarkText(m) + more && (m == Once ==> NoQuantFirst(more))
  {
    if s != [] && s[0] == '*' {
      m, more := Many, s[1..];
    } else if s != [] && s[0] == '+' {
      m, more := Several, s[1..];
    } else if s != [] && s[0] == '?' {
      m, more := Maybe, s[1..];
    } else {
      m, more := Once, s;
    }
  }

  lemma NeverAnchor(s: string, a: Atom, m: Mark, more: string)
    requires s != ['$'] && s == AtomText(a) + (MarkText(m) + more)
    ensures !(m == Once && a == Lit('$') && more == [])
  {
  }

  /** Every text is such a text. */
  lemma {:induction false} EveryPattern(s: string) returns (ps: seq<Piece>, anchored: bool)
    ensures s == PiecesText(ps) + Anchor(anchored) && PiecesReadable(ps, Anchor(anchored))
    decreases |s|
  {
    if s == [] || s == ['$'] {
      ps, anchored := [], s != [];
    } else {
      hide AtomReadable;
      var a, rest := TakeAtom(s);
      var m, more := TakeMark(rest);
      var others;
      assert |more| < |s|;
      others, anchored := EveryPattern(more);
      var p := Piece(a, m);
      ps := [p] + others;
      assert ps[1..] == others;
      assert s == PieceText(p) + more;
      NeverAnchor(s, a, m, more);
    }
  }

  /** The nodes of any pattern: its pieces, between the anchors at its two ends. */
  lemma ParseIs(s: string) returns (ps: seq<Piece>, anchored: bool)
    ensures var start := s != [] && s[0] == '^';
      && s == (if start then ['^'] else []) + PiecesText(ps) + Anchor(anchored)
      && PiecesReadable(ps, Anchor(anchored))
      && Parse(s) == (if start then [AnchorStart] else []) + PieceNodes(ps) + (if anchored then [AnchorEnd] else [])
  {
    hide ParseSeq, PiecesText, PieceNodes, PiecesReadable;
    var start := s != [] && s[0] == '^';
    var body := if start then s[1..] else s;
    ps, anchored := EveryPattern(body);
    PiecesParse(ps, anchored);
    assert s == (if start then ['^'] else []) + body;
  }

  // ---- What a pattern text matches ----

  predicate TakesChar(a: Atom, c: char) {
    match a
    case Lit(d) => d == '.' || c == d
    case Bracket(neg, ms, _) => if neg then !Listed(ms, c) else Listed(ms, c)
  }

  ghost predicate TakesAll(a: Atom, w: string) {
    forall i | 0 <= i < |w| :: TakesChar(a, w[i])
  }

  ghost predicate PieceMatches(p: Piece, w: string) {
    && TakesAll(p.atom, w)
    && match p.mark
       case Once => |w| == 1
       case Many => true
       case Several => |w| >= 1
       case Maybe => |w| <= 1
  }

  ghost predicate PiecesMatch(ps: seq<Piece>, w: string)
    decreases |ps|
  {
    if ps == [] then w == []
    else exists k | 0 <= k <= |w| :: PieceMatches(ps[0], w[..k]) && PiecesMatch(ps[1..], w[k..])
  }

  lemma AtomAccepts(a: Atom, c: char)
    ensures Accepts(AtomNode(a), c) <==> TakesChar(a, c)
  {
    if a.Bracket? {
      hide Listed, RangesOf;
      RangesList(a.members, c);
      ClassAccepts(RangesOf(a.members), a.neg, c);
    }
  }

  lemma ClassAccepts(ranges: seq<(char, char)>, neg: bool, c: char)
    ensures Accepts(Class(ranges, neg), c) <==> (exists r | r in ranges :: InRange(r, c)) != neg
  {
    if r :| r in ranges && InRange(r, c) {
      assert r.0 <= c <= r.1;
    } else {
      assert !exists r | r in ranges :: r.0 <= c <= r.1 by {
        if r :| r in ranges && r.0 <= c <= r.1 { assert InRange(r, c); }
      }
    }
  }

  lemma PieceLanguage(p: Piece, w: string)
    ensures Item(PieceNode(p)) && (InItem(PieceNode(p), w) <==> PieceMatches(p, w))
  {
    hide Accepts, TakesChar, AtomNode;
    forall i | 0 <= i < |w| ensures Accepts(AtomNode(p.atom), w[i]) <==> TakesChar(p.atom, w[i]) {
      AtomAccepts(p.atom, w[i]);
    }
  }

  lemma {:induction false} PiecesAreItems(ps: seq<Piece>)
    ensures Items(PieceNodes(ps)) && |PieceNodes(ps)| == |ps|
  {
    if ps != [] {
      hide Item, PieceNode;
      PieceLanguage(ps[0], []);
      PiecesAreItems(ps[1..]);
    }
  }

  lemma {:induction false} PiecesLanguage(ps: seq<Piece>, w: string)
    ensures Items(PieceNodes(ps)) && (InLanguage(PieceNodes(ps), w) <==> PiecesMatch(ps, w))
    decreases |ps|
  {
    PiecesAreItems(ps);
    if ps != [] {
      hide PieceNode, Item, InItem, PieceMatches;
      var nodes := PieceNodes(ps);
      assert nodes[0] == PieceNode(ps[0]) && nodes[1..] == PieceNodes(ps[1..]);
      forall k | 0 <= k <= |w|
        ensures Item(nodes[0]) && (InItem(nodes[0], w[..k]) <==> PieceMatches(ps[0], w[..k]))
        ensures Items(nodes[1..]) && (InLanguage(nodes[1..], w[k..]) <==> PiecesMatch(ps[1..], w[k..]))
      {
        PieceLanguage(ps[0], w[..k]);
        PiecesLanguage(ps[1..], w[k..]);
      }
    }
  }

  lemma NodesBetween(nodes: seq<Node>, start: bool, items: seq<Node>, anchored: bool)
    requires Items(items)
    requires nodes == (if start then [AnchorStart] else []) + items + (if anchored then [AnchorEnd] else [])
    ensures WellFormed(nodes) && StartAnchored(nodes) == start
    ensures var body := if StartAnchored(nodes) then nodes[1..] else nodes;
      EndAnchored(body) == anchored && ItemsOf(body) == items
  {
    var body := items + (if anchored then [AnchorEnd] else []);
    assert items != [] ==> items[0] in items && items[|items| - 1] in items;
    if start { assert nodes[1..] == body; } else { assert nodes == body; }
    if anchored { assert body[..|body| - 1] == items; } else { assert body == items; }
  }

  /**
   * End to end, from pattern text to answer: any text is pieces between its anchors, and the engine says yes exactly
   * when some substring, at the ends that are anchored, splits into words of those pieces in order.
   */
  lemma TextMatches(pattern: string, str: string) returns (ps: seq<Piece>, anchored: bool)
    ensures var start := pattern != [] && pattern[0] == '^';
      && pattern == (if start then ['^'] else []) + PiecesText(ps) + Anchor(anchored)
      && PiecesReadable(ps, Anchor(anchored))
      && WellFormed(Parse(pattern))
      && (RegexMatch(Parse(pattern), str) <==>
           exists i, j | 0 <= i <= j <= |str| ::
             PiecesMatch(ps, str[i..j]) && (start ==> i == 0) && (anchored ==> j == |str|))
  {
    hide Parse, PiecesText, PiecesReadable, PieceNodes, PiecesMatch, RegexMatch, InLanguage, Items, WellFormed;
    var start := pattern != [] && pattern[0] == '^';
    ps, anchored := ParseIs(pattern);
    PiecesAreItems(ps);
    NodesBetween(Parse(pattern), start, PieceNodes(ps), anchored);
    hide StartAnchored, EndAnchored, ItemsOf;
    RegexMatchIs(Parse(pattern), str);
    forall i, j | 0 <= i <= j <= |str|
      ensures InLanguage(PieceNodes(ps), str[i..j]) <==> PiecesMatch(ps, str[i..j])
    {
      PiecesLanguage(ps, str[i..j]);
    }
  }
}
