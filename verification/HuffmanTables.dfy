/** The bits a code table needs, and that no prefix-free table needs fewer than the one read off the tree. */
module HuffmanTables {
  import opened Collections
  import opened HuffmanOptimal
  import opened Huffman
  import opened HuffmanCodes

  ghost predicate Known(syms: seq<Sym>, freq: Freq, codes: Codes) {
    forall s | s in syms :: s in freq && s in codes
  }

  /** The sum of frequency times code length over the table. */
  ghost function EncodedBits(syms: seq<Sym>, freq: Freq, codes: Codes): nat
    requires Known(syms, freq, codes)
  {
    if syms == [] then 0
    else
      assert syms[0] in syms && forall s | s in syms[1..] :: s in syms;
      freq[syms[0]] * |codes[syms[0]]| + EncodedBits(syms[1..], freq, codes)
  }

  lemma {:induction false} BitsAppend(a: seq<Sym>, b: seq<Sym>, freq: Freq, codes: Codes)
    requires Known(a, freq, codes) && Known(b, freq, codes)
    ensures Known(a + b, freq, codes)
    ensures EncodedBits(a + b, freq, codes) == EncodedBits(a, freq, codes) + EncodedBits(b, freq, codes)
  {
    if a == [] {
      assert a + b == b;
    } else {
      assert (a + b)[1..] == a[1..] + b;
      assert Known(a[1..], freq, codes);
      BitsAppend(a[1..], b, freq, codes);
    }
  }

  lemma BitsCons(x: Sym, syms: seq<Sym>, freq: Freq, codes: Codes)
    requires Known([x] + syms, freq, codes)
    ensures Known(syms, freq, codes) && x in freq && x in codes
    ensures EncodedBits([x] + syms, freq, codes) == freq[x] * |codes[x]| + EncodedBits(syms, freq, codes)
  {
    assert forall s | s in syms :: s in [x] + syms;
    assert x in [x] + syms;
    assert ([x] + syms)[1..] == syms;
  }

  lemma BitsRemove(before: seq<Sym>, x: Sym, after: seq<Sym>, freq: Freq, codes: Codes)
    requires Known(before + ([x] + after), freq, codes)
    ensures Known(before + after, freq, codes) && x in freq && x in codes
    ensures EncodedBits(before + ([x] + after), freq, codes)
         == freq[x] * |codes[x]| + EncodedBits(before + after, freq, codes)
  {
    hide EncodedBits;
    var all := before + ([x] + after);
    assert forall s | s in before :: s in all;
    assert forall s | s in [x] + after :: s in all;
    BitsCons(x, after, freq, codes);
    BitsAppend(before, [x] + after, freq, codes);
    BitsAppend(before, after, freq, codes);
  }

  /** The order in which the table is summed does not matter. */
  lemma {:induction false} BitsPermuted(a: seq<Sym>, b: seq<Sym>, freq: Freq, codes: Codes)
    requires multiset(a) == multiset(b) && Known(a, freq, codes)
    ensures Known(b, freq, codes) && EncodedBits(a, freq, codes) == EncodedBits(b, freq, codes)
  {
    hide EncodedBits;
    forall s | s in b ensures s in a { assert s in multiset(b); }
    if a == [] {
      assert |multiset(a)| == 0 && |multiset(b)| == |b|;
    } else {
      assert a[0] in multiset(b);
      var k :| 0 <= k < |b| && b[k] == a[0];
      var before, after := b[..k], b[k + 1..];
      assert b == before + ([a[0]] + after);
      assert a == [a[0]] + a[1..];
      DropOne(a, before, after, a[0]);
      BitsRemove(before, a[0], after, freq, codes);
      BitsCons(a[0], a[1..], freq, codes);
      BitsPermuted(a[1..], before + after, freq, codes);
    }
  }

  // ---- The table of a tree ----

  /** From depth `skip` on, each code leads down `t` to its symbol. */
  ghost predicate LeadFrom(t: Tree, codes: Codes, skip: nat) {
    forall s | s in Syms(t) :: s in codes && skip <= |codes[s]| && Leads(t, codes[s][skip..], s)
  }

  lemma LeadDown(l: Tree, r: Tree, codes: Codes, skip: nat)
    requires Distinct(Node(l, r)) && LeadFrom(Node(l, r), codes, skip)
    ensures LeadFrom(l, codes, skip + 1) && LeadFrom(r, codes, skip + 1)
  {
    DistinctSplit(l, r);
    forall s | s in Syms(l) || s in Syms(r)
      ensures s in codes && skip + 1 <= |codes[s]|
      ensures Leads(if s in Syms(l) then l else r, codes[s][skip + 1..], s)
    {
      assert s in Syms(Node(l, r));
      var bits := codes[s][skip..];
      assert bits[1..] == codes[s][skip + 1..];
      if bits[0] == 0 { LeadsMember(l, bits[1..], s); } else { LeadsMember(r, bits[1..], s); }
    }
  }

  /** Weight times depth over the tree is frequency times code length over its table. */
  lemma {:induction false} TreeBits(t: Tree, freq: Freq, codes: Codes, skip: nat)
    requires Distinct(t) && Covers(freq, t) && LeadFrom(t, codes, skip)
    ensures Known(Flat(t), freq, codes) && EncodedBits(Flat(t), freq, codes) == CostAt(t, freq, skip)
  {
    match t
    case Leaf(sym) =>
      assert sym in Syms(t);
      assert [sym][1..] == [];
    case Node(l, r) =>
      DistinctSplit(l, r);
      LeadDown(l, r, codes, skip);
      hide Distinct, LeadFrom, EncodedBits;
      TreeBits(l, freq, codes, skip + 1);
      TreeBits(r, freq, codes, skip + 1);
      BitsAppend(Flat(l), Flat(r), freq, codes);
  }

  // ---- The tree of a table ----

  ghost predicate Binary(codes: Codes) {
    forall s, i | s in codes && 0 <= i < |codes[s]| :: codes[s][i] == 0 || codes[s][i] == 1
  }

  /** The symbols whose code has this bit at place `skip`. */
  ghost function WithBit(syms: seq<Sym>, codes: Codes, skip: nat, bit: nat): (r: seq<Sym>)
    requires forall s | s in syms :: s in codes && skip < |codes[s]|
    ensures forall s :: s in r <==> s in syms && codes[s][skip] == bit
  {
    if syms == [] then []
    else
      assert syms == [syms[0]] + syms[1..];
      (if codes[syms[0]][skip] == bit then [syms[0]] else []) + WithBit(syms[1..], codes, skip, bit)
  }

  /** Distinct symbols whose prefix-free codes agree up to place `skip`. */
  ghost predicate Grouped(syms: seq<Sym>, codes: Codes, skip: nat) {
    && syms != [] && NoDuplicates(syms) && PrefixFree(codes) && Binary(codes)
    && (forall s | s in syms :: s in codes && skip <= |codes[s]|)
    && (forall s, u | s in syms && u in syms :: codes[s][..skip] == codes[u][..skip])
  }

  lemma GroupedGoesOn(syms: seq<Sym>, codes: Codes, skip: nat)
    requires Grouped(syms, codes, skip) && |syms| > 1
    ensures forall s | s in syms :: skip < |codes[s]|
  {
    forall s | s in syms ensures skip < |codes[s]| {
      var u := if syms[0] == s then syms[1] else syms[0];
      assert u in syms && u != s;
      if |codes[s]| == skip {
        assert codes[s] == codes[s][..skip] == codes[u][..skip];
        PrefixOfIsPrefix(codes[s], codes[u]);
      }
    }
  }

  lemma {:induction false} WithBitDistinct(syms: seq<Sym>, codes: Codes, skip: nat, bit: nat)
    requires NoDuplicates(syms) && forall s | s in syms :: s in codes && skip < |codes[s]|
    ensures NoDuplicates(WithBit(syms, codes, skip, bit))
  {
    if syms != [] {
      WithBitDistinct(syms[1..], codes, skip, bit);
      assert forall i | 0 < i < |syms| :: syms[i] != syms[0];
      assert syms[0] !in syms[1..];
    }
  }

  lemma {:induction false} WithBitSplits(syms: seq<Sym>, codes: Codes, skip: nat)
    requires Binary(codes) && forall s | s in syms :: s in codes && skip < |codes[s]|
    ensures multiset(WithBit(syms, codes, skip, 0)) + multiset(WithBit(syms, codes, skip, 1)) == multiset(syms)
  {
    if syms != [] {
      WithBitSplits(syms[1..], codes, skip);
      assert syms == [syms[0]] + syms[1..];
      assert syms[0] in syms;
    }
  }

  lemma SubgroupGrouped(syms: seq<Sym>, codes: Codes, skip: nat, bit: nat)
    requires Grouped(syms, codes, skip) && forall s | s in syms :: skip < |codes[s]|
    requires WithBit(syms, codes, skip, bit) != []
    ensures Grouped(WithBit(syms, codes, skip, bit), codes, skip + 1)
  {
    hide WithBit, PrefixFree, Binary, NoDuplicates;
    var group := WithBit(syms, codes, skip, bit);
    WithBitDistinct(syms, codes, skip, bit);
    forall s, u | s in group && u in group ensures codes[s][..skip + 1] == codes[u][..skip + 1] {
      assert codes[s][..skip + 1] == codes[s][..skip] + [bit];
      assert codes[u][..skip + 1] == codes[u][..skip] + [bit];
    }
  }

  /** The branching points of the codes, as a tree. */
  ghost function TableTree(syms: seq<Sym>, codes: Codes, skip: nat, longest: nat): Tree
    requires Grouped(syms, codes, skip) && forall s | s in syms :: |codes[s]| <= longest
    decreases longest - skip
  {
    if |syms| == 1 then Leaf(syms[0])
    else
      GroupedGoesOn(syms, codes, skip);
      assert syms[0] in syms;
      var zeros, ones := WithBit(syms, codes, skip, 0), WithBit(syms, codes, skip, 1);
      if zeros == [] then
        NoneLost(syms, codes, skip);
        SubgroupGrouped(syms, codes, skip, 1);
        TableTree(ones, codes, skip + 1, longest)
      else if ones == [] then
        SubgroupGrouped(syms, codes, skip, 0);
        TableTree(zeros, codes, skip + 1, longest)
      else
        SubgroupGrouped(syms, codes, skip, 0);
        SubgroupGrouped(syms, codes, skip, 1);
        Node(TableTree(zeros, codes, skip + 1, longest), TableTree(ones, codes, skip + 1, longest))
  }

  lemma NoneLost(syms: seq<Sym>, codes: Codes, skip: nat)
    requires syms != [] && Binary(codes) && forall s | s in syms :: s in codes && skip < |codes[s]|
    ensures WithBit(syms, codes, skip, 0) != [] || WithBit(syms, codes, skip, 1) != []
  {
    hide WithBit;
    assert syms[0] in syms;
    assert codes[syms[0]][skip] == 0 || codes[syms[0]][skip] == 1;
  }

  /** A tree hung one level lower costs no less. */
  lemma {:induction false} CostGrows(t: Tree, freq: Freq, d: nat)
    requires Covers(freq, t)
    ensures CostAt(t, freq, d) <= CostAt(t, freq, d + 1)
  {
    match t
    case Leaf(sym) => assert freq[sym] * (d + 1) == freq[sym] * d + freq[sym];
    case Node(l, r) =>
      CostGrows(l, freq, d + 1);
      CostGrows(r, freq, d + 1);
  }

  lemma LeafBits(sym: Sym, freq: Freq, codes: Codes, skip: nat)
    requires sym in freq && sym in codes && skip <= |codes[sym]|
    ensures Known([sym], freq, codes) && freq[sym] * skip <= EncodedBits([sym], freq, codes)
  {
    BitsCons(sym, [], freq, codes);
    assert [sym] + [] == [sym];
    assert freq[sym] * skip <= freq[sym] * |codes[sym]|;
  }

  /** The tree of a table has its symbols, and needs no more bits than the table. */
  lemma {:induction false} TableTreeCost(syms: seq<Sym>, freq: Freq, codes: Codes, skip: nat, longest: nat)
    requires Grouped(syms, codes, skip) && forall s | s in syms :: |codes[s]| <= longest
    requires Known(syms, freq, codes)
    ensures var t := TableTree(syms, codes, skip, longest);
      Syms(t) == multiset(syms) && Covers(freq, t) && CostAt(t, freq, skip) <= EncodedBits(syms, freq, codes)
    decreases longest - skip
  {
    if |syms| == 1 {
      assert syms == [syms[0]];
      LeafBits(syms[0], freq, codes, skip);
    } else {
      hide WithBit, EncodedBits, PrefixFree, Binary, NoDuplicates;
      GroupedGoesOn(syms, codes, skip);
      assert syms[0] in syms;
      var zeros, ones := WithBit(syms, codes, skip, 0), WithBit(syms, codes, skip, 1);
      NoneLost(syms, codes, skip);
      WithBitSplits(syms, codes, skip);
      BitsAppend(zeros, ones, freq, codes);
      BitsPermuted(syms, zeros + ones, freq, codes);
      if zeros != [] {
        SubgroupGrouped(syms, codes, skip, 0);
        TableTreeCost(zeros, freq, codes, skip + 1, longest);
        CostGrows(TableTree(zeros, codes, skip + 1, longest), freq, skip);
      }
      if ones != [] {
        SubgroupGrouped(syms, codes, skip, 1);
        TableTreeCost(ones, freq, codes, skip + 1, longest);
        CostGrows(TableTree(ones, codes, skip + 1, longest), freq, skip);
      }
    }
  }

  lemma {:induction false} LongestCode(syms: seq<Sym>, codes: Codes) returns (longest: nat)
    requires forall s | s in syms :: s in codes
    ensures forall s | s in syms :: |codes[s]| <= longest
  {
    if syms == [] {
      longest := 0;
    } else {
      var n := LongestCode(syms[1..], codes);
      longest := if n < |codes[syms[0]]| then |codes[syms[0]]| else n;
      assert syms == [syms[0]] + syms[1..];
    }
  }

  // ---- The program's table ----

  /** `syms` lists the symbols of the stream, each once, as the frequency table is walked. */
  ghost predicate Lists(syms: seq<Sym>, stream: seq<Sym>) {
    NoDuplicates(syms) && forall s :: s in syms <==> s in stream
  }

  lemma ListedOnce(syms: seq<Sym>, stream: seq<Sym>, s: Sym)
    requires Lists(syms, stream)
    ensures multiset(syms)[s] == if s in stream then 1 else 0
  {
    OccursOnce(syms, s);
  }

  lemma {:induction false} OccursOnce(syms: seq<Sym>, s: Sym)
    requires NoDuplicates(syms)
    ensures multiset(syms)[s] == if s in syms then 1 else 0
  {
    if syms != [] {
      OccursOnce(syms[1..], s);
      assert syms == [syms[0]] + syms[1..];
    }
  }

  lemma TableOfTree(stream: seq<Sym>, syms: seq<Sym>, t: Tree)
    requires t.Node? && Distinct(t) && Lists(syms, stream) && Syms(t) == multiset(syms)
    requires Covers(StreamFreq(stream), t)
    ensures var freq, codes := StreamFreq(stream), AssignCodes(t, [], map[]);
      Known(syms, freq, codes) && EncodedBits(syms, freq, codes) == CostAt(t, freq, 0)
  {
    hide AssignCodes, EncodedBits, CostAt;
    var freq, codes := StreamFreq(stream), AssignCodes(t, [], map[]);
    CodesLead(t);
    forall s | s in Syms(t) ensures codes[s][0..] == codes[s] { }
    TreeBits(t, freq, codes, 0);
    FlatIsSyms(t, freq);
    BitsPermuted(Flat(t), syms, freq, codes);
  }

  /**
   * For a stream over two or more symbols: the encoded stream has exactly the bits that summing frequency times code
   * length over the table gives, and no prefix-free binary table for the same symbols needs fewer.
   */
  lemma HuffmanBestTable(stream: seq<Sym>, items: seq<Item>, syms: seq<Sym>, table: Codes)
    requires |items| >= 2 && ItemsOf(stream, items) && Lists(syms, stream)
    requires PrefixFree(table) && Binary(table) && forall s | s in syms :: s in table
    ensures var freq, codes := StreamFreq(stream), AssignCodes(BuildTree(items), [], map[]);
      && Known(syms, freq, codes) && Known(syms, freq, table)
      && (forall s | s in stream :: s in codes)
      && |Encode(codes, stream)| == EncodedBits(syms, freq, codes)
      && EncodedBits(syms, freq, codes) <= EncodedBits(syms, freq, table)
  {
    hide BuildTree, CostAt, AssignCodes, Encode, Covers, PrefixFree, Binary, EncodedBits, NoDuplicates, Distinct,
      LeafItems, TableTree;
    var freq, t := StreamFreq(stream), BuildTree(items);
    forall s ensures multiset(syms)[s] == AllSyms(items)[s] { ListedOnce(syms, stream, s); }
    assert multiset(syms) == AllSyms(items);
    ManySyms(items, syms);
    var longest := LongestCode(syms, table);
    TableTreeCost(syms, freq, table, 0, longest);
    var other := TableTree(syms, table, 0, longest);
    BuildTreeOptimal(freq, items, other);
    BuiltTreeBranches(items, t);
    FreqAgrees(stream, t);
    EncodedLength(t, stream);
    TableOfTree(stream, syms, t);
  }

  lemma ManySyms(items: seq<Item>, syms: seq<Sym>)
    requires |items| >= 2 && multiset(syms) == AllSyms(items)
    ensures syms != []
  {
    AllSymsSize(items);
    assert |multiset(syms)| == |syms|;
  }
}
