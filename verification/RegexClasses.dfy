/** The text of a character class: single members and ranges in any mix, and what the class accepts. */
module RegexClasses {
  import opened RegexEngine

  datatype Member = One(c: char) | Between(lo: char, hi: char)

  function ShowMember(m: Member): string {
    match m
    case One(c) => [c]
    case Between(a, b) => [a, '-', b]
  }

  function ShowMembers(ms: seq<Member>): string {
    if ms == [] then [] else ShowMember(ms[0]) + ShowMembers(ms[1..])
  }

  /** Text that would make a range of the character before it. */
  predicate MakesRange(s: string) {
    |s| >= 2 && s[0] == '-' && s[1] != ']'
  }

  /** No member needs a `]`, and no single member is followed by what would make it the start of a range. */
  predicate Readable(ms: seq<Member>, tail: string) {
    ms != [] ==>
      && (match ms[0]
          case One(c) => c != ']' && !MakesRange(ShowMembers(ms[1..]) + tail)
          case Between(a, b) => a != ']' && b != ']')
      && Readable(ms[1..], tail)
  }

  /** The range a member stands for: a single character is a range of one. */
  function RangeOf(m: Member): (char, char) {
    match m
    case One(c) => (c, c)
    case Between(a, b) => (a, b)
  }

  function RangesOf(ms: seq<Member>): seq<(char, char)> {
    if ms == [] then [] else [RangeOf(ms[0])] + RangesOf(ms[1..])
  }

  /** What is left over: all behind the bracket that closes the class, or nothing if the text ends before one. */
  function Behind(tail: string): string
    requires tail == [] || tail[0] == ']'
  {
    if tail == [] then [] else tail[1..]
  }

  lemma ParseMember(m: Member, more: string)
    requires match m
             case One(c) => c != ']' && !MakesRange(more)
             case Between(a, b) => a != ']' && b != ']'
    ensures ParseClass(ShowMember(m) + more)
         == ([RangeOf(m)] + ParseClass(more).0, ParseClass(more).1)
  {
    var s := ShowMember(m) + more;
    match m
    case One(c) =>
      assert s[1..] == more && s[0] == c;
      assert |s| >= 3 ==> s[1] == more[0] && s[2] == more[1];
    case Between(a, b) =>
      assert s[3..] == more && s[0] == a && s[1] == '-' && s[2] == b;
  }

  /** Class text is read member by member, in order, up to the bracket that closes it or the end of the pattern. */
  lemma {:induction false} ClassTextParses(ms: seq<Member>, tail: string)
    requires Readable(ms, tail) && (tail == [] || tail[0] == ']')
    ensures ParseClass(ShowMembers(ms) + tail) == (RangesOf(ms), Behind(tail))
  {
    if ms == [] {
      assert ShowMembers(ms) + tail == tail;
    } else {
      hide ParseClass;
      var more := ShowMembers(ms[1..]) + tail;
      assert ShowMembers(ms) + tail == ShowMember(ms[0]) + more;
      ParseMember(ms[0], more);
      ClassTextParses(ms[1..], tail);
    }
  }

  /** Every text is such a text: there is nothing else that the class parser can meet. */
  lemma {:induction false} EveryClassText(s: string) returns (ms: seq<Member>, tail: string)
    ensures s == ShowMembers(ms) + tail && Readable(ms, tail) && (tail == [] || tail[0] == ']')
    decreases |s|
  {
    if s == [] || s[0] == ']' {
      ms, tail := [], s;
    } else {
      var first := if |s| >= 3 && s[1] == '-' && s[2] != ']' then Between(s[0], s[2]) else One(s[0]);
      var size := |ShowMember(first)|;
      var rest;
      rest, tail := EveryClassText(s[size..]);
      ms := [first] + rest;
      assert ms[1..] == rest;
      assert ShowMember(first) == s[..size];
      assert s == ShowMember(first) + (ShowMembers(rest) + tail);
    }
  }

  predicate Takes(m: Member, c: char) {
    match m
    case One(d) => c == d
    case Between(a, b) => a <= c <= b
  }

  /** `c` is one of the members or lies in one of the ranges. */
  predicate Listed(ms: seq<Member>, c: char) {
    exists m | m in ms :: Takes(m, c)
  }

  predicate InRange(r: (char, char), c: char) {
    r.0 <= c <= r.1
  }

  lemma {:induction false} RangesList(ms: seq<Member>, c: char)
    ensures (exists r | r in RangesOf(ms) :: InRange(r, c)) <==> Listed(ms, c)
  {
    if ms != [] {
      RangesList(ms[1..], c);
      assert ms == [ms[0]] + ms[1..];
      assert RangesOf(ms) == [RangeOf(ms[0])] + RangesOf(ms[1..]);
      assert InRange(RangeOf(ms[0]), c) <==> Takes(ms[0], c);
      hide RangesOf, InRange, Takes, RangeOf;
      if m :| m in ms && Takes(m, c) { assert m == ms[0] || m in ms[1..]; }
      if r :| r in RangesOf(ms) && InRange(r, c) { assert r == RangeOf(ms[0]) || r in RangesOf(ms[1..]); }
    }
  }

  /** A bracket expression as a whole: what is read, and that it accepts the listed characters, or the others. */
  lemma BracketAccepts(ms: seq<Member>, neg: bool, tail: string, c: char)
    requires Readable(ms, tail) && (tail == [] || tail[0] == ']')
    requires !neg ==> ShowMembers(ms) + tail == [] || (ShowMembers(ms) + tail)[0] != '^'
    ensures var (atom, rest) := ParseAtom('[', (if neg then ['^'] else []) + ShowMembers(ms) + tail);
      && rest == Behind(tail)
      && atom == Class(RangesOf(ms), neg)
      && Single(atom) && (Accepts(atom, c) <==> (if neg then !Listed(ms, c) else Listed(ms, c)))
  {
    hide ParseClass, ShowMembers, RangesOf, Listed, Readable;
    var body := ShowMembers(ms) + tail;
    var text := (if neg then ['^'] else []) + ShowMembers(ms) + tail;
    ClassTextParses(ms, tail);
    RangesList(ms, c);
    if neg {
      assert text[1..] == body && text[0] == '^';
    } else {
      assert text == body;
    }
  }
}
