/** Framed byte buffers between the host and compiled code: big-endian counts and lengths. */
module HostFrames {
  import opened Collections

  type Byte = b: int | 0 <= b < 0x100
  type Bytes = seq<Byte>

  const TWO32 := 0x1_0000_0000

  // ---- The format ----

  /** The four bytes of `v` modulo 2^32, most significant first. */
  function U32(v: nat): (b: Bytes)
    ensures |b| == 4
  {
    [v / 0x100 / 0x100 / 0x100 % 0x100, v / 0x100 / 0x100 % 0x100, v / 0x100 % 0x100, v % 0x100]
  }

  function ReadU32(fb: Bytes, off: nat): (v: nat)
    requires off + 4 <= |fb|
    ensures v < TWO32
  {
    var b0: int, b1: int, b2: int, b3: int := fb[off], fb[off + 1], fb[off + 2], fb[off + 3];
    b0 * 0x100_0000 + b1 * 0x1_0000 + b2 * 0x100 + b3
  }

  function Body(chunks: seq<Bytes>): Bytes {
    if chunks == [] then [] else U32(|chunks[0]|) + chunks[0] + Body(chunks[1..])
  }

  /** A count, then each chunk with its length before it. */
  function Frame(chunks: seq<Bytes>): Bytes {
    U32(|chunks|) + Body(chunks)
  }

  function ScanBody(matches: seq<seq<Bytes>>): Bytes {
    if matches == [] then [] else Frame(matches[0]) + ScanBody(matches[1..])
  }

  /** A count, then one frame of captures for each match. */
  function ScanFrame(matches: seq<seq<Bytes>>): Bytes {
    U32(|matches|) + ScanBody(matches)
  }

  // ---- Facts about the format ----

  lemma U32RoundTrip(v: nat)
    requires v < TWO32
    ensures ReadU32(U32(v), 0) == v
  {
  }

  lemma ReadAt(before: Bytes, v: nat, after: Bytes)
    requires v < TWO32
    ensures ReadU32(before + U32(v) + after, |before|) == v
  {
    hide U32;
    var fb := before + U32(v) + after;
    U32RoundTrip(v);
    assert forall i | 0 <= i < 4 :: fb[|before| + i] == U32(v)[i];
  }

  lemma {:induction false} BodySnoc(chunks: seq<Bytes>, c: Bytes)
    ensures Body(chunks + [c]) == Body(chunks) + U32(|c|) + c
  {
    hide U32;
    if chunks == [] {
      assert [c][1..] == [] && [] + [c] == [c];
    } else {
      assert (chunks + [c])[1..] == chunks[1..] + [c];
      BodySnoc(chunks[1..], c);
    }
  }

  lemma {:induction false} BodySplit(a: seq<Bytes>, b: seq<Bytes>)
    ensures Body(a + b) == Body(a) + Body(b)
  {
    hide U32;
    if a == [] {
      assert a + b == b;
    } else {
      assert (a + b)[1..] == a[1..] + b;
      BodySplit(a[1..], b);
    }
  }

  lemma {:induction false} ScanBodySnoc(matches: seq<seq<Bytes>>, m: seq<Bytes>)
    ensures ScanBody(matches + [m]) == ScanBody(matches) + Frame(m)
  {
    hide Frame;
    if matches == [] {
      assert [m][1..] == [] && [] + [m] == [m];
    } else {
      assert (matches + [m])[1..] == matches[1..] + [m];
      ScanBodySnoc(matches[1..], m);
    }
  }

  // ---- The host side: writing a buffer through a moving offset ----

  method SetUint32(buf: array<Byte>, o: nat, v: nat)
    requires o + 4 <= buf.Length
    modifies buf
    ensures buf[..] == old(buf[..o]) + U32(v) + old(buf[o + 4..])
  {
    buf[o] := v / 0x100 / 0x100 / 0x100 % 0x100;
    buf[o + 1] := v / 0x100 / 0x100 % 0x100;
    buf[o + 2] := v / 0x100 % 0x100;
    buf[o + 3] := v % 0x100;
  }

  method SetBytes(buf: array<Byte>, c: Bytes, o: nat)
    requires o + |c| <= buf.Length
    modifies buf
    ensures buf[..] == old(buf[..o]) + c + old(buf[o + |c|..])
  {
    forall i | 0 <= i < |c| {
      buf[o + i] := c[i];
    }
  }

  method WriteChunk(buf: array<Byte>, c: Bytes, start: nat) returns (o: nat)
    requires start + 4 + |c| <= buf.Length
    modifies buf
    ensures o == start + 4 + |c|
    ensures buf[..o] == old(buf[..start]) + U32(|c|) + c && buf[o..] == old(buf[o..])
  {
    hide U32;
    o := start;
    SetUint32(buf, o, |c|);
    assert buf[..o + 4] == old(buf[..start]) + U32(|c|);
    o := o + 4;
    SetBytes(buf, c, o);
    o := o + |c|;
  }

  function TotalLength(chunks: seq<Bytes>): nat {
    if chunks == [] then 0 else 4 + |chunks[0]| + TotalLength(chunks[1..])
  }

  lemma {:induction false} TotalIsBody(chunks: seq<Bytes>)
    ensures TotalLength(chunks) == |Body(chunks)|
  {
    hide U32;
    if chunks != [] {
      TotalIsBody(chunks[1..]);
    }
  }

  /** Write each chunk after its length, from offset `start` on. */
  method WriteChunks(buf: array<Byte>, chunks: seq<Bytes>, start: nat) returns (o: nat)
    requires start + |Body(chunks)| <= buf.Length
    modifies buf
    ensures o == start + |Body(chunks)|
    ensures buf[..o] == old(buf[..start]) + Body(chunks) && buf[o..] == old(buf[o..])
  {
    hide U32, Body;
    StartsEmpty(chunks, false);
    o := start;
    var i := 0;
    while i < |chunks|
      invariant i <= |chunks|
      invariant o == start + |Body(chunks[..i])| <= buf.Length
      invariant buf[..o] == old(buf[..start]) + Body(chunks[..i])
      invariant buf[o..] == old(buf[o..])
    {
      BodyStep(chunks, i);
      o := WriteChunk(buf, chunks[i], o);
      i := i + 1;
    }
    assert chunks[..i] == chunks;
  }

  /** Frame the parts of a split. */
  method FrameParts(chunks: seq<Bytes>) returns (buf: array<Byte>)
    ensures fresh(buf) && buf[..] == Frame(chunks)
  {
    hide U32, Body;
    TotalIsBody(chunks);
    buf := new Byte[4 + TotalLength(chunks)];
    SetUint32(buf, 0, |chunks|);
    assert buf[..4] == U32(|chunks|);
    var o := WriteChunks(buf, chunks, 4);
    assert buf[..o] == buf[..];
  }

  lemma BodyStep(chunks: seq<Bytes>, i: nat)
    requires i < |chunks|
    ensures Body(chunks[..i + 1]) == Body(chunks[..i]) + U32(|chunks[i]|) + chunks[i]
    ensures |Body(chunks[..i])| + 4 + |chunks[i]| <= |Body(chunks)|
  {
    hide U32;
    assert chunks[..i + 1] == chunks[..i] + [chunks[i]];
    BodySnoc(chunks[..i], chunks[i]);
    assert chunks == chunks[..i + 1] + chunks[i + 1..];
    BodySplit(chunks[..i + 1], chunks[i + 1..]);
  }

  // ---- The compiled side ----

  /** 32-bit addition and subtraction, as the compiled loop does them. */
  function Add32(a: nat, b: nat): nat {
    (a + b) % TWO32
  }

  function Sub32(a: nat, b: nat): nat
    requires b <= a + TWO32
  {
    (a + TWO32 - b) % TWO32
  }

  function NonEmpty(chunks: seq<Bytes>): seq<Bytes> {
    if chunks == [] then []
    else (if chunks[0] == [] then [] else [chunks[0]]) + NonEmpty(chunks[1..])
  }

  function Kept(chunks: seq<Bytes>, trim: bool): seq<Bytes> {
    if trim then NonEmpty(chunks) else chunks
  }

  lemma {:induction false} NonEmptySnoc(chunks: seq<Bytes>, c: Bytes)
    ensures NonEmpty(chunks + [c]) == NonEmpty(chunks) + if c == [] then [] else [c]
  {
    if chunks == [] {
      assert [c][1..] == [] && [] + [c] == [c];
    } else {
      assert (chunks + [c])[1..] == chunks[1..] + [c];
      NonEmptySnoc(chunks[1..], c);
    }
  }

  lemma {:induction false} NonEmptyAppend(a: seq<Bytes>, b: seq<Bytes>)
    ensures NonEmpty(a + b) == NonEmpty(a) + NonEmpty(b)
  {
    if a == [] {
      assert a + b == b;
    } else {
      assert (a + b)[1..] == a[1..] + b;
      NonEmptyAppend(a[1..], b);
    }
  }

  /** Trimming drops the empty chunks wherever they stand and nothing else; without it all are kept. */
  lemma TrimDrops(a: seq<Bytes>, c: Bytes, b: seq<Bytes>)
    ensures Kept([], true) == []
    ensures Kept(a + [c] + b, true) == Kept(a, true) + (if |c| == 0 then [] else [c]) + Kept(b, true)
    ensures Kept(a + [c] + b, false) == a + [c] + b
  {
    hide NonEmpty;
    NonEmptyAppend(a + [c], b);
    NonEmptySnoc(a, c);
    NonEmptyNothing();
  }

  lemma NonEmptyNothing()
    ensures NonEmpty([]) == []
  {
  }

  /** Where the decoder stands after `i` chunks: what it reads there. */
  lemma ChunkAt(fb: Bytes, before: Bytes, chunks: seq<Bytes>, after: Bytes, i: nat)
    requires fb == before + Body(chunks) + after && i < |chunks| && |fb| < TWO32
    ensures var off := |before| + |Body(chunks[..i])|;
            && off + 4 + |chunks[i]| <= |fb|
            && ReadU32(fb, off) == |chunks[i]|
            && fb[off + 4..off + 4 + |chunks[i]|] == chunks[i]
            && |before| + |Body(chunks[..i + 1])| == off + 4 + |chunks[i]|
  {
    hide U32, ReadU32, Body;
    BodyStep(chunks, i);
    assert chunks == chunks[..i + 1] + chunks[i + 1..];
    BodySplit(chunks[..i + 1], chunks[i + 1..]);
    var pre := before + Body(chunks[..i]);
    var post := chunks[i] + Body(chunks[i + 1..]) + after;
    assert fb == pre + U32(|chunks[i]|) + post;
    ReadAt(pre, |chunks[i]|, post);
    assert fb == pre + U32(|chunks[i]|) + chunks[i] + (Body(chunks[i + 1..]) + after);
  }

  lemma CountAt(fb: Bytes, chunks: seq<Bytes>)
    requires fb == Frame(chunks) && |fb| < TWO32
    ensures |fb| >= 4 && ReadU32(fb, 0) == |chunks| && fb == U32(|chunks|) + Body(chunks) + []
  {
    hide U32, ReadU32;
    CountSmall(chunks);
    ReadAt([], |chunks|, Body(chunks));
    assert fb == [] + U32(|chunks|) + Body(chunks);
  }

  lemma {:induction false} CountSmall(chunks: seq<Bytes>)
    ensures 4 * |chunks| <= |Body(chunks)|
  {
    hide U32;
    if chunks != [] {
      CountSmall(chunks[1..]);
    }
  }

  /** Decode the parts of a split, dropping the empty ones when trimming. */
  method DecodeParts(fb: Bytes, trim: bool, ghost chunks: seq<Bytes>) returns (parts: seq<Bytes>)
    requires fb == Frame(chunks) && |fb| < TWO32
    ensures parts == Kept(chunks, trim)
  {
    hide U32, ReadU32, Body, Frame, NonEmpty;
    CountAt(fb, chunks);
    var cnt := ReadU32(fb, 0);
    var off := 4;
    var out: seq<Bytes> := [];
    ghost var i := 0;
    StartsEmpty(chunks, trim);
    while cnt != 0
      invariant i <= |chunks| < TWO32 && cnt == |chunks| - i
      invariant off == |U32(|chunks|)| + |Body(chunks[..i])|
      invariant Reverse(out) == Kept(chunks[..i], trim)
      decreases cnt
    {
      ChunkAt(fb, U32(|chunks|), chunks, [], i);
      var len := ReadU32(fb, off);
      off := Add32(off, 4);
      var part := fb[off..off + len];
      ReverseCons(part, out);
      assert chunks[..i + 1] == chunks[..i] + [part];
      NonEmptySnoc(chunks[..i], part);
      if !(trim && len == 0) {
        out := [part] + out;
      }
      off := Add32(off, len);
      cnt := Sub32(cnt, 1);
      i := i + 1;
    }
    assert chunks[..i] == chunks;
    parts := Reverse(out);
  }

  lemma StartsEmpty(chunks: seq<Bytes>, trim: bool)
    ensures Body(chunks[..0]) == [] && Kept(chunks[..0], trim) == []
  {
  }

  /** A frame has one reading only. */
  lemma {:induction false} FrameInjective(a: seq<Bytes>, b: seq<Bytes>)
    requires Frame(a) == Frame(b) && |Frame(a)| < TWO32
    ensures a == b
  {
    hide U32, ReadU32;
    CountAt(Frame(a), a);
    CountAt(Frame(b), b);
    assert Body(a) == Frame(a)[4..] && Body(b) == Frame(b)[4..];
    BodyInjective(a, b);
  }

  lemma {:induction false} BodyInjective(a: seq<Bytes>, b: seq<Bytes>)
    requires Body(a) == Body(b) && |a| == |b| && |Body(a)| < TWO32
    ensures a == b
  {
    hide U32, ReadU32;
    if a != [] {
      ReadAt([], |a[0]|, a[0] + Body(a[1..]));
      ReadAt([], |b[0]|, b[0] + Body(b[1..]));
      assert Body(a) == [] + U32(|a[0]|) + (a[0] + Body(a[1..]));
      assert Body(b) == [] + U32(|b[0]|) + (b[0] + Body(b[1..]));
      assert a[0] == Body(a)[4..4 + |a[0]|] && b[0] == Body(b)[4..4 + |b[0]|];
      assert Body(a[1..]) == Body(a)[4 + |a[0]|..] && Body(b[1..]) == Body(b)[4 + |b[0]|..];
      BodyInjective(a[1..], b[1..]);
      assert a == [a[0]] + a[1..] && b == [b[0]] + b[1..];
    }
  }

  // ---- All matches of a scan: a frame of frames ----

  function TotalMatches(matches: seq<seq<Bytes>>): nat {
    if matches == [] then 0 else 4 + TotalLength(matches[0]) + TotalMatches(matches[1..])
  }

  lemma {:induction false} TotalIsScanBody(matches: seq<seq<Bytes>>)
    ensures TotalMatches(matches) == |ScanBody(matches)|
  {
    hide U32, Body;
    if matches != [] {
      TotalIsBody(matches[0]);
      TotalIsScanBody(matches[1..]);
    }
  }

  lemma {:induction false} ScanBodySplit(a: seq<seq<Bytes>>, b: seq<seq<Bytes>>)
    ensures ScanBody(a + b) == ScanBody(a) + ScanBody(b)
  {
    hide Frame;
    if a == [] {
      assert a + b == b;
    } else {
      assert (a + b)[1..] == a[1..] + b;
      ScanBodySplit(a[1..], b);
    }
  }

  lemma ScanPrefix(matches: seq<seq<Bytes>>, i: nat)
    requires i < |matches|
    ensures ScanBody(matches[..i + 1]) == ScanBody(matches[..i]) + Frame(matches[i])
  {
    hide Frame, ScanBody;
    assert matches[..i + 1] == matches[..i] + [matches[i]];
    ScanBodySnoc(matches[..i], matches[i]);
  }

  lemma ScanSuffix(matches: seq<seq<Bytes>>, i: nat)
    requires i <= |matches|
    ensures ScanBody(matches) == ScanBody(matches[..i]) + ScanBody(matches[i..])
  {
    hide Frame, ScanBody;
    assert matches == matches[..i] + matches[i..];
    ScanBodySplit(matches[..i], matches[i..]);
  }

  /** The frame of match `i` inside the frame of all. */
  lemma ScanStep(matches: seq<seq<Bytes>>, i: nat)
    requires i < |matches|
    ensures ScanBody(matches[..i + 1]) == ScanBody(matches[..i]) + Frame(matches[i])
    ensures ScanBody(matches) == ScanBody(matches[..i]) + Frame(matches[i]) + ScanBody(matches[i + 1..])
  {
    hide Frame, ScanBody;
    ScanPrefix(matches, i);
    ScanSuffix(matches, i + 1);
  }

  method FrameMatches(matches: seq<seq<Bytes>>) returns (buf: array<Byte>)
    ensures fresh(buf) && buf[..] == ScanFrame(matches)
  {
    hide U32, Body, ScanBody;
    TotalIsScanBody(matches);
    buf := new Byte[4 + TotalMatches(matches)];
    SetUint32(buf, 0, |matches|);
    var o := 4;
    var i := 0;
    ScanStart(matches);
    assert buf[..o] == U32(|matches|) + ScanBody(matches[..0]);
    while i < |matches|
      invariant i <= |matches|
      invariant buf.Length == 4 + |ScanBody(matches)|
      invariant o == 4 + |ScanBody(matches[..i])| <= buf.Length
      invariant buf[..o] == U32(|matches|) + ScanBody(matches[..i])
    {
      var caps := matches[i];
      ScanStep(matches, i);
      ghost var was := buf[..o];
      SetUint32(buf, o, |caps|);
      assert buf[..o + 4] == was + U32(|caps|);
      o := WriteChunks(buf, caps, o + 4);
      assert buf[..o] == was + Frame(caps);
      i := i + 1;
    }
    assert matches[..i] == matches;
    assert buf[..o] == buf[..];
  }

  lemma ScanStart(matches: seq<seq<Bytes>>)
    ensures ScanBody(matches[..0]) == []
  {
  }

  lemma {:induction false} ScanCountSmall(matches: seq<seq<Bytes>>)
    ensures 4 * |matches| <= |ScanBody(matches)|
  {
    hide U32, Body;
    if matches != [] {
      ScanCountSmall(matches[1..]);
    }
  }

  /** Where match `i` lies in the frame, and what its count reads as. */
  lemma MatchAt(fb: Bytes, matches: seq<seq<Bytes>>, i: nat) returns (before: Bytes, after: Bytes)
    requires fb == ScanFrame(matches) && |fb| < TWO32 && i < |matches|
    ensures |before| == 4 + |ScanBody(matches[..i])| + 4
    ensures fb == before + Body(matches[i]) + after
    ensures ReadU32(fb, |before| - 4) == |matches[i]| < TWO32
    ensures 4 + |ScanBody(matches[..i + 1])| == |before| + |Body(matches[i])|
  {
    hide U32, Body, ScanBody, ReadU32;
    var caps := matches[i];
    ScanStep(matches, i);
    var pre := U32(|matches|) + ScanBody(matches[..i]);
    before := pre + U32(|caps|);
    after := ScanBody(matches[i + 1..]);
    assert fb == before + Body(caps) + after;
    CountSmall(caps);
    ReadAt(pre, |caps|, Body(caps) + after);
    assert fb == pre + U32(|caps|) + (Body(caps) + after);
  }

  lemma ScanCountAt(fb: Bytes, matches: seq<seq<Bytes>>)
    requires fb == ScanFrame(matches) && |fb| < TWO32
    ensures |fb| >= 4 && ReadU32(fb, 0) == |matches| < TWO32
  {
    hide U32, ReadU32, ScanBody;
    ScanCountSmall(matches);
    ReadAt([], |matches|, ScanBody(matches));
    assert fb == [] + U32(|matches|) + ScanBody(matches);
  }

  /** Decode all matches of a scan, each with its captures. */
  method DecodeMatches(fb: Bytes, ghost matches: seq<seq<Bytes>>) returns (all: seq<seq<Bytes>>)
    requires fb == ScanFrame(matches) && |fb| < TWO32
    ensures all == matches
  {
    hide U32, ReadU32, Body, ScanBody, ScanFrame, Reverse;
    ScanCountAt(fb, matches);
    ScanStart(matches);
    var nm := ReadU32(fb, 0);
    var off := 4;
    var out: seq<seq<Bytes>> := [];
    ghost var i := 0;
    ReverseNothing<seq<Bytes>>();
    while nm != 0
      invariant i <= |matches| < TWO32 && nm == |matches| - i
      invariant off == 4 + |ScanBody(matches[..i])|
      invariant Reverse(out) == matches[..i]
      decreases nm
    {
      ghost var before, after := MatchAt(fb, matches, i);
      ghost var caps := matches[i];
      var nc := ReadU32(fb, off);
      off := Add32(off, 4);
      var got: seq<Bytes> := [];
      ghost var j := 0;
      StartsEmpty(caps, false);
      ReverseNothing<Bytes>();
      while nc != 0
        invariant j <= |caps| && nc == |caps| - j
        invariant off == |before| + |Body(caps[..j])|
        invariant Reverse(got) == caps[..j]
        decreases nc
      {
        ChunkAt(fb, before, caps, after, j);
        var len := ReadU32(fb, off);
        off := Add32(off, 4);
        var c := fb[off..off + len];
        ReverseCons(c, got);
        assert caps[..j + 1] == caps[..j] + [c];
        got := [c] + got;
        off := Add32(off, len);
        nc := Sub32(nc, 1);
        j := j + 1;
      }
      assert caps[..j] == caps;
      ReverseCons(Reverse(got), out);
      assert matches[..i + 1] == matches[..i] + [caps];
      out := [Reverse(got)] + out;
      nm := Sub32(nm, 1);
      i := i + 1;
    }
    assert matches[..i] == matches;
    all := Reverse(out);
  }

  lemma ReverseNothing<T>()
    ensures Reverse<T>([]) == []
  {
  }
}
