/** Pattern text for a node list, and that the parser reads it back. */
module RegexText {
  import opened RegexEngine

  function ShowRanges(ranges: seq<(char, char)>): string {
    if ranges == [] then [] else [ranges[0].0, '-', ranges[0].1] + ShowRanges(ranges[1..])
  }

  function ShowClass(ranges: seq<(char, char)>, neg: bool): string {
    (if neg then ['^'] else []) + ShowRanges(ranges) + [']']
  }

  function ShowAtom(n: Node): (s: string)
    requires Single(n)
    ensures s != []
  {
    match n
    case Char(c) => [c]
    case Dot => ['.']
    case Class(ranges, neg) => ['['] + ShowClass(ranges, neg)
  }

  function ShowItem(n: Node): (s: string)
    requires Item(n)
    ensures s != []
  {
    match n
    case Star(m) => ShowAtom(m) + ['*']
    case Plus(m) => ShowAtom(m) + ['+']
    case Opt(m) => ShowAtom(m) + ['?']
    case _ => ShowAtom(n)
  }

  function ShowItems(items: seq<Node>): string
    requires Items(items)
  {
    if items == [] then [] else ShowItem(items[0]) + ShowItems(items[1..])
  }

  function Show(nodes: seq<Node>): string
    requires WellFormed(nodes)
  {
    var body := if StartAnchored(nodes) then nodes[1..] else nodes;
    (if StartAnchored(nodes) then ['^'] else []) + ShowItems(ItemsOf(body))
    + (if EndAnchored(body) then ['$'] else [])
  }

  /** The atoms that have a text of their own: no bare special characters, no bracket inside a class. */
  predicate PrintableAtom(n: Node)
    requires Single(n)
  {
    match n
    case Char(c) => c !in ".[*+?$^"
    case Dot => true
    case Class(ranges, neg) =>
      && (forall r | r in ranges :: r.0 != ']' && r.1 != ']')
      && (!neg && ranges != [] ==> ranges[0].0 != '^')
  }

  predicate PrintableItem(n: Node)
    requires Item(n)
  {
    PrintableAtom(if Single(n) then n else n.node)
  }

  predicate Printable(items: seq<Node>)
    requires Items(items)
  {
    forall n | n in items :: PrintableItem(n)
  }

  lemma ParseRange(s: string)
    requires |s| >= 3 && s[0] != ']' && s[1] == '-' && s[2] != ']'
    ensures ParseClass(s) == ([(s[0], s[2])] + ParseClass(s[3..]).0, ParseClass(s[3..]).1)
  {
  }

  lemma {:induction false} ParseClassShows(ranges: seq<(char, char)>, rest: string)
    requires forall r | r in ranges :: r.0 != ']' && r.1 != ']'
    ensures ParseClass(ShowRanges(ranges) + [']'] + rest) == (ranges, rest)
  {
    var s := ShowRanges(ranges) + [']'] + rest;
    if ranges == [] {
      assert s[0] == ']' && s[1..] == rest;
    } else {
      var more := ShowRanges(ranges[1..]) + [']'] + rest;
      assert s == [ranges[0].0, '-', ranges[0].1] + more;
      assert s[3..] == more && s[0] == ranges[0].0 && s[1] == '-' && s[2] == ranges[0].1;
      assert ranges[0] in ranges;
      ParseClassShows(ranges[1..], rest);
      ParseRange(s);
      assert ranges == [(s[0], s[2])] + ranges[1..];
    }
  }

  lemma ParseBracketShows(ranges: seq<(char, char)>, neg: bool, rest: string)
    requires PrintableAtom(Class(ranges, neg))
    ensures ParseAtom('[', ShowClass(ranges, neg) + rest) == (Class(ranges, neg), rest)
  {
    hide ParseClass;
    var body := ShowRanges(ranges) + [']'] + rest;
    ParseClassShows(ranges, rest);
    assert body != [] && (!neg ==> body[0] != '^');
    var s := ShowClass(ranges, neg) + rest;
    if neg {
      assert s[1..] == body && s[0] == '^';
    } else {
      assert s == body;
    }
  }

  lemma ParseAtomShows(n: Node, rest: string)
    requires Single(n) && PrintableAtom(n)
    ensures var s := ShowAtom(n) + rest; ParseAtom(s[0], s[1..]) == (n, rest)
  {
    hide ParseClass, ShowClass;
    var s := ShowAtom(n) + rest;
    if n.Class? {
      hide ParseAtom;
      ParseBracketShows(n.ranges, n.neg, rest);
      assert s[1..] == ShowClass(n.ranges, n.neg) + rest;
    } else {
      assert s[1..] == rest;
    }
  }

  /** Text that can follow an item without being taken for its quantifier. */
  predicate NoQuantFirst(s: string) {
    s == [] || s[0] !in "*+?"
  }

  lemma ItemShows(n: Node, rest: string)
    requires Item(n) && PrintableItem(n) && NoQuantFirst(rest)
    ensures var s := ShowItem(n) + rest;
            && s[0] !in "*+?$^"
            && var (atom, rest2) := ParseAtom(s[0], s[1..]);
               ApplyQuant(atom, rest2) == (n, rest)
  {
    var s := ShowItem(n) + rest;
    if Single(n) {
      ParseAtomShows(n, rest);
    } else {
      var mark := if n.Star? then "*" else if n.Plus? then "+" else "?";
      assert s == ShowAtom(n.node) + (mark + rest);
      ParseAtomShows(n.node, mark + rest);
      assert (mark + rest)[1..] == rest;
    }
  }

  lemma {:induction false} ItemsStart(items: seq<Node>, tail: string)
    requires Items(items) && Printable(items) && NoQuantFirst(tail)
    ensures NoQuantFirst(ShowItems(items) + tail)
    ensures items != [] ==> (ShowItems(items) + tail)[0] !in "*+?$^"
  {
    if items == [] {
      assert ShowItems(items) + tail == tail;
    } else {
      ItemsStart(items[1..], tail);
      assert ShowItems(items) + tail == ShowItem(items[0]) + (ShowItems(items[1..]) + tail);
      ItemShows(items[0], ShowItems(items[1..]) + tail);
    }
  }

  lemma ParseSeqStep(s: string, item: Node, rest: string)
    requires s != [] && s[0] != '$'
    requires var (atom, rest2) := ParseAtom(s[0], s[1..]); ApplyQuant(atom, rest2) == (item, rest)
    ensures ParseSeq(s) == ([item] + ParseSeq(rest).0, ParseSeq(rest).1)
  {
    hide ParseAtom, ApplyQuant;
  }

  lemma {:induction false} ParseSeqShows(items: seq<Node>, anchored: bool)
    requires Items(items) && Printable(items)
    ensures ParseSeq(ShowItems(items) + (if anchored then ['$'] else [])) == (items, anchored)
    decreases |items|
  {
    var tail := if anchored then ['$'] else [];
    if items == [] {
      assert ShowItems(items) + tail == tail;
    } else {
      hide ShowItem, ParseSeq, PrintableItem, Item;
      var more := ShowItems(items[1..]) + tail;
      var s := ShowItems(items) + tail;
      assert s == ShowItem(items[0]) + more;
      ItemsStart(items[1..], tail);
      ItemShows(items[0], more);
      ParseSeqShows(items[1..], anchored);
      ParseSeqStep(s, items[0], more);
      assert items == [items[0]] + items[1..];
    }
  }

  lemma ParseParts(nodes: seq<Node>, text: string, items: seq<Node>, start: bool, anchored: bool)
    requires ParseSeq(text) == (items, anchored) && (text != [] && text[0] == '^' ==> start)
    requires nodes == (if start then [AnchorStart] else []) + items + (if anchored then [AnchorEnd] else [])
    ensures Parse((if start then ['^'] else []) + text) == nodes
  {
    hide ParseSeq;
    if start {
      assert (['^'] + text)[1..] == text;
    } else {
      assert [] + text == text;
    }
  }

  lemma ShowsNoCaret(items: seq<Node>, anchored: bool)
    requires Items(items) && Printable(items)
    ensures var text := ShowItems(items) + (if anchored then ['$'] else []); text != [] ==> text[0] != '^'
  {
    hide Printable, Items;
    ItemsStart(items, if anchored then ['$'] else []);
  }

  /** Parsing the text of a node list gives the node list back. */
  lemma ParseShows(nodes: seq<Node>)
    requires WellFormed(nodes)
    requires Printable(ItemsOf(if StartAnchored(nodes) then nodes[1..] else nodes))
    ensures Parse(Show(nodes)) == nodes
  {
    hide ParseSeq, ShowItems, Printable, Parse, Items;
    var body := if StartAnchored(nodes) then nodes[1..] else nodes;
    var items, anchored := ItemsOf(body), EndAnchored(body);
    ParseSeqShows(items, anchored);
    ShowsNoCaret(items, anchored);
    var text := ShowItems(items) + (if anchored then ['$'] else []);
    assert body == items + (if anchored then [AnchorEnd] else []);
    assert nodes == (if StartAnchored(nodes) then [AnchorStart] else []) + body;
    ParseParts(nodes, text, items, StartAnchored(nodes), anchored);
    assert Show(nodes) == (if StartAnchored(nodes) then ['^'] else []) + text;
  }
}
