/** Codes read off the tree, encoding a stream with them, and the run-length coder of the same program. */
module HuffmanCodes {
  import opened Collections
  import opened HuffmanOptimal
  import opened Huffman

  type Bits = seq<nat>
  type Codes = map<Sym, Bits>

  /** `path` is kept reversed, as the walk pushes onto its front. */
  function AssignCodes(t: Tree, path: Bits, acc: Codes): Codes {
    match t
    case Leaf(sym) => acc[sym := if path == [] then [0] else Reverse(path)]
    case Node(l, r) => AssignCodes(r, [1] + path, AssignCodes(l, [0] + path, acc))
  }

  // ---- The code of a symbol is the way to its leaf ----

  /** `bits` leads from the root of `t` to the leaf of `sym`. */
  predicate Leads(t: Tree, bits: Bits, sym: Sym) {
    match t
    case Leaf(s) => bits == [] && s == sym
    case Node(l, r) => bits != [] && ((bits[0] == 0 && Leads(l, bits[1..], sym)) || (bits[0] == 1 && Leads(r, bits[1..], sym)))
  }

  /** No symbol sits at two leaves. */
  ghost predicate Distinct(t: Tree) {
    forall sym :: Syms(t)[sym] <= 1
  }

  lemma DistinctSplit(l: Tree, r: Tree)
    requires Distinct(Node(l, r))
    ensures Distinct(l) && Distinct(r) && forall s :: s in Syms(l) ==> s !in Syms(r)
  {
    forall s ensures Syms(l)[s] + Syms(r)[s] <= 1 {
      assert Syms(Node(l, r))[s] <= 1;
    }
  }

  lemma {:induction false} LeadsMember(t: Tree, bits: Bits, sym: Sym)
    requires Leads(t, bits, sym)
    ensures sym in Syms(t)
  {
    if t.Node? {
      LeadsMember(if bits[0] == 0 then t.left else t.right, bits[1..], sym);
    }
  }

  /** `codes` sends `s` along the path so far and then down `t` to the leaf of `s`. */
  ghost predicate CodedUnder(codes: Codes, path: Bits, t: Tree, s: Sym) {
    s in codes && exists down :: codes[s] == Reverse(path) + down && Leads(t, down, s)
  }

  /** What the walk from `t` adds to `acc`. */
  lemma {:induction false} AssignLeads(t: Tree, path: Bits, acc: Codes)
    requires Distinct(t) && (path != [] || t.Node?)
    ensures forall s :: s in AssignCodes(t, path, acc) <==> s in acc || s in Syms(t)
    ensures forall s | s in acc && s !in Syms(t) :: AssignCodes(t, path, acc)[s] == acc[s]
    ensures forall s | s in Syms(t) :: CodedUnder(AssignCodes(t, path, acc), path, t, s)
  {
    match t
    case Leaf(sym) =>
      assert Reverse(path) == Reverse(path) + [] && Leads(t, [], sym);
    case Node(l, r) =>
      DistinctSplit(l, r);
      var mid := AssignCodes(l, [0] + path, acc);
      AssignLeads(l, [0] + path, acc);
      AssignLeads(r, [1] + path, mid);
      var all := AssignCodes(t, path, acc);
      hide AssignCodes, Distinct;
      forall s | s in Syms(t) ensures CodedUnder(all, path, t, s) {
        if s in Syms(l) {
          assert CodedUnder(mid, [0] + path, l, s);
          CodedDown(all, path, t, 0, s);
        } else {
          CodedDown(all, path, t, 1, s);
        }
      }
  }

  lemma CodedDown(codes: Codes, path: Bits, t: Tree, bit: nat, s: Sym)
    requires t.Node? && bit < 2 && CodedUnder(codes, [bit] + path, if bit == 0 then t.left else t.right, s)
    ensures CodedUnder(codes, path, t, s)
  {
    var down :| codes[s] == Reverse([bit] + path) + down && Leads(if bit == 0 then t.left else t.right, down, s);
    StepDown(path, bit, down);
    assert ([bit] + down)[1..] == down;
    assert Leads(t, [bit] + down, s);
  }

  lemma StepDown(path: Bits, bit: nat, down: Bits)
    ensures Reverse([bit] + path) + down == Reverse(path) + ([bit] + down)
  {
    assert ([bit] + path)[1..] == path;
  }

  /** The code table of a tree with at least two leaves. */
  lemma CodesLead(t: Tree)
    requires t.Node? && Distinct(t)
    ensures forall s :: s in AssignCodes(t, [], map[]) <==> s in Syms(t)
    ensures forall s | s in Syms(t) :: Leads(t, AssignCodes(t, [], map[])[s], s)
  {
    var codes := AssignCodes(t, [], map[]);
    AssignLeads(t, [], map[]);
    forall s | s in Syms(t) ensures Leads(t, codes[s], s) {
      assert CodedUnder(codes, [], t, s);
      var down :| codes[s] == Reverse<nat>([]) + down && Leads(t, down, s);
      assert codes[s] == down;
    }
  }

  // ---- Prefix freedom ----

  predicate PrefixOf(a: Bits, b: Bits) {
    if a == [] then true
    else if b == [] then false
    else a[0] == b[0] && PrefixOf(a[1..], b[1..])
  }

  lemma {:induction false} PrefixOfIsPrefix(a: Bits, b: Bits)
    ensures PrefixOf(a, b) <==> a <= b
  {
    if a != [] && b != [] {
      PrefixOfIsPrefix(a[1..], b[1..]);
      assert a == [a[0]] + a[1..] && b == [b[0]] + b[1..];
    }
  }

  ghost predicate PrefixFree(codes: Codes) {
    forall s, u | s in codes && u in codes && s != u :: !PrefixOf(codes[s], codes[u])
  }

  /** Two ways down of which one is a prefix of the other end at the same leaf. */
  lemma {:induction false} LeadsPrefix(t: Tree, a: Bits, b: Bits, s: Sym, u: Sym)
    requires Leads(t, a, s) && Leads(t, b, u) && PrefixOf(a, b)
    ensures s == u
  {
    if t.Node? {
      LeadsPrefix(if a[0] == 0 then t.left else t.right, a[1..], b[1..], s, u);
    }
  }

  /** No code is a prefix of another symbol's code; every code is non-empty. */
  lemma CodesPrefixFree(t: Tree)
    requires t.Node? && Distinct(t)
    ensures PrefixFree(AssignCodes(t, [], map[]))
    ensures forall s | s in AssignCodes(t, [], map[]) :: AssignCodes(t, [], map[])[s] != []
  {
    var codes := AssignCodes(t, [], map[]);
    CodesLead(t);
    forall s, u | s in codes && u in codes && s != u ensures !PrefixOf(codes[s], codes[u]) {
      if PrefixOf(codes[s], codes[u]) {
        LeadsPrefix(t, codes[s], codes[u], s, u);
      }
    }
  }

  // ---- Encoding a stream ----

  function Encode(codes: Codes, stream: seq<Sym>): Bits
    requires forall s | s in stream :: s in codes
  {
    if stream == [] then []
    else
      assert stream[0] in stream && forall s | s in stream[1..] :: s in stream;
      codes[stream[0]] + Encode(codes, stream[1..])
  }

  lemma PrefixOfEither(a: Bits, b: Bits, x: Bits, y: Bits)
    requires a + x == b + y
    ensures PrefixOf(a, b) || PrefixOf(b, a)
  {
    PrefixOfIsPrefix(a, b);
    PrefixOfIsPrefix(b, a);
    if |a| <= |b| {
      assert a == (a + x)[..|a|] == (b + y)[..|a|] == b[..|a|];
    } else {
      assert b == (b + y)[..|b|] == (a + x)[..|b|] == a[..|b|];
    }
  }

  /** With a prefix-free table, every concatenation of codes comes from one stream only. */
  lemma {:induction false} UniqueDecoding(codes: Codes, s1: seq<Sym>, s2: seq<Sym>)
    requires PrefixFree(codes) && forall s | s in codes :: codes[s] != []
    requires (forall s | s in s1 :: s in codes) && (forall s | s in s2 :: s in codes)
    requires Encode(codes, s1) == Encode(codes, s2)
    ensures s1 == s2
  {
    if s1 != [] && s2 != [] {
      assert s1[0] in s1 && s2[0] in s2;
      var c1, c2, r1, r2 := codes[s1[0]], codes[s2[0]], Encode(codes, s1[1..]), Encode(codes, s2[1..]);
      PrefixOfEither(c1, c2, r1, r2);
      assert s1[0] == s2[0];
      assert r1 == (c1 + r1)[|c1|..] == (c2 + r2)[|c2|..] == r2;
      UniqueDecoding(codes, s1[1..], s2[1..]);
      assert s1 == [s1[0]] + s1[1..] && s2 == [s2[0]] + s2[1..];
    }
  }

  // ---- Encoded length ----

  /** `Enum.frequencies`, restricted to the symbols of a tree: how often each occurs. */
  ghost function FreqOf(stream: seq<Sym>, t: Tree): Freq {
    map s | s in Syms(t) :: Count(stream, s)
  }

  lemma {:induction false} CoversAll(t: Tree, freq: Freq)
    requires forall s | s in Syms(t) :: s in freq
    ensures Covers(freq, t)
  {
    match t
    case Leaf(sym) =>
    case Node(l, r) =>
      CoversAll(l, freq);
      CoversAll(r, freq);
  }

  /** One more occurrence of a symbol adds its depth. */
  lemma {:induction false} CostOneMore(t: Tree, f: Freq, g: Freq, sym: Sym, down: Bits, d: nat)
    requires Distinct(t) && Covers(f, t) && Covers(g, t) && Leads(t, down, sym)
    requires forall s | s in Syms(t) :: s in f && s in g && g[s] == f[s] + (if s == sym then 1 else 0)
    ensures CostAt(t, g, d) == CostAt(t, f, d) + d + |down|
  {
    match t
    case Leaf(s) =>
    case Node(l, r) =>
      DistinctSplit(l, r);
      hide Distinct;
      var side, other := (if down[0] == 0 then l else r), (if down[0] == 0 then r else l);
      LeadsMember(side, down[1..], sym);
      CostOneMore(side, f, g, sym, down[1..], d + 1);
      CostSame(other, f, g, d + 1);
  }

  lemma {:induction false} CostSame(t: Tree, f: Freq, g: Freq, d: nat)
    requires Covers(f, t) && Covers(g, t) && forall s | s in Syms(t) :: s in f && s in g && g[s] == f[s]
    ensures CostAt(t, g, d) == CostAt(t, f, d)
  {
    match t
    case Leaf(s) =>
    case Node(l, r) =>
      CostSame(l, f, g, d + 1);
      CostSame(r, f, g, d + 1);
  }

  lemma {:induction false} CostNothing(t: Tree, f: Freq, d: nat)
    requires Covers(f, t) && forall s | s in Syms(t) :: s in f && f[s] == 0
    ensures CostAt(t, f, d) == 0
  {
    match t
    case Leaf(s) =>
    case Node(l, r) =>
      CostNothing(l, f, d + 1);
      CostNothing(r, f, d + 1);
  }

  /** The encoded stream is as long as frequency times code length says. */
  lemma {:induction false} EncodedLength(t: Tree, stream: seq<Sym>)
    requires t.Node? && Distinct(t) && forall s | s in stream :: s in Syms(t)
    ensures forall s | s in stream :: s in AssignCodes(t, [], map[])
    ensures Covers(FreqOf(stream, t), t)
    ensures |Encode(AssignCodes(t, [], map[]), stream)| == CostAt(t, FreqOf(stream, t), 0)
  {
    var codes := AssignCodes(t, [], map[]);
    CodesLead(t);
    CoversAll(t, FreqOf(stream, t));
    if stream == [] {
      CostNothing(t, FreqOf(stream, t), 0);
    } else {
      assert stream[0] in stream && forall s | s in stream[1..] :: s in stream;
      EncodedLength(t, stream[1..]);
      CostOneMore(t, FreqOf(stream[1..], t), FreqOf(stream, t), stream[0], codes[stream[0]], 0);
    }
  }

  // ---- The whole program ----

  /** `Enum.frequencies`. */
  function StreamFreq(stream: seq<Sym>): Freq {
    map s | s in stream :: Count(stream, s)
  }

  /** One leaf item for each symbol of the stream, weighted by its frequency. */
  ghost predicate ItemsOf(stream: seq<Sym>, items: seq<Item>) {
    && LeafItems(StreamFreq(stream), items)
    && forall s :: AllSyms(items)[s] == if s in stream then 1 else 0
  }

  lemma {:induction false} SymsSize(t: Tree)
    ensures |Syms(t)| >= 1
  {
    if t.Node? {
      SymsSize(t.left);
      SymsSize(t.right);
    }
  }

  lemma {:induction false} AllSymsSize(items: seq<Item>)
    ensures |AllSyms(items)| >= |items|
  {
    if items != [] {
      SymsSize(items[0].node);
      AllSymsSize(items[1..]);
    }
  }

  lemma BuiltTreeBranches(items: seq<Item>, t: Tree)
    requires |items| >= 2 && Syms(t) == AllSyms(items)
    ensures t.Node?
  {
    AllSymsSize(items);
  }

  lemma FreqAgrees(stream: seq<Sym>, t: Tree)
    requires forall s :: Syms(t)[s] == if s in stream then 1 else 0
    ensures FreqOf(stream, t) == StreamFreq(stream) && Distinct(t)
  {
    assert forall s :: s in Syms(t) <==> s in stream;
  }

  /**
   * For a stream over two or more symbols: the code table is prefix-free, the encoding of the stream is
   * exactly as long as frequency times code length, no tree over the same symbols does better, and no
   * other stream has the same encoding.
   */
  lemma HuffmanOptimalCode(stream: seq<Sym>, items: seq<Item>, other: Tree, stream': seq<Sym>)
    requires |items| >= 2 && ItemsOf(stream, items) && Syms(other) == AllSyms(items)
    ensures var freq, codes := StreamFreq(stream), AssignCodes(BuildTree(items), [], map[]);
      && Covers(freq, BuildTree(items)) && Covers(freq, other)
      && PrefixFree(codes)
      && (forall s | s in stream :: s in codes)
      && |Encode(codes, stream)| == CostAt(BuildTree(items), freq, 0)
      && |Encode(codes, stream)| <= CostAt(other, freq, 0)
      && ((forall s | s in stream' :: s in codes) && Encode(codes, stream') == Encode(codes, stream) ==> stream' == stream)
  {
    hide BuildTree, CostAt, AssignCodes, Encode, Covers;
    var t := BuildTree(items);
    var codes := AssignCodes(t, [], map[]);
    BuildTreeOptimal(StreamFreq(stream), items, other);
    BuiltTreeBranches(items, t);
    FreqAgrees(stream, t);
    CodesPrefixFree(t);
    EncodedLength(t, stream);
    if (forall s | s in stream' :: s in codes) && Encode(codes, stream') == Encode(codes, stream) {
      UniqueDecoding(codes, stream', stream);
    }
  }
}
