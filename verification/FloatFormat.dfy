/** The shortest float format: from the host's number text to plain or scientific notation. */
module FloatFormat {

  // ---- Decimal text ----

  predicate IsDigit(c: char) {
    '0' <= c <= '9'
  }

  predicate AllDigits(s: string) {
    forall i | 0 <= i < |s| :: IsDigit(s[i])
  }

  function DigitOf(c: char): nat
    requires IsDigit(c)
  {
    (c as int) - ('0' as int)
  }

  function IntOf(s: string): nat
    requires AllDigits(s)
  {
    if s == [] then 0 else IntOf(s[..|s| - 1]) * 10 + DigitOf(s[|s| - 1])
  }

  function Text(n: nat): (s: string)
    ensures s != [] && AllDigits(s)
    ensures IntOf(s) == n
  {
    if n < 10 then [('0' as int + n) as char]
    else
      var s := Text(n / 10);
      var c := ('0' as int + n % 10) as char;
      assert (s + [c])[..|s|] == s;
      s + [c]
  }

  function IntText(e: int): string {
    if e < 0 then ['-'] + Text(-e) else Text(e)
  }

  function Zeros(n: nat): (s: string)
    ensures |s| == n && AllDigits(s)
  {
    seq(n, _ => '0')
  }

  /** The first position of `c`, or -1. */
  function IndexOf(s: string, c: char): (i: int)
    ensures -1 <= i < |s|
    ensures i >= 0 ==> s[i] == c && c !in s[..i]
    ensures i < 0 <==> c !in s
  {
    if s == [] then -1
    else if s[0] == c then 0
    else
      var i := IndexOf(s[1..], c);
      assert s == [s[0]] + s[1..];
      assert i >= 0 ==> s[..i + 1] == [s[0]] + s[1..][..i];
      if i < 0 then -1 else i + 1
  }

  lemma {:induction false} IndexOfAt(a: string, c: char, b: string)
    requires c !in a
    ensures IndexOf(a + [c] + b, c) == |a|
  {
    var s := a + [c] + b;
    if a != [] {
      assert s[1..] == a[1..] + [c] + b;
      IndexOfAt(a[1..], c, b);
    }
  }

  /** An exponent: an optional sign, then digits. */
  predicate IsExponent(s: string) {
    if s != [] && (s[0] == '+' || s[0] == '-') then AllDigits(s[1..]) else AllDigits(s)
  }

  function ReadInt(s: string): int
    requires IsExponent(s)
  {
    var n: int := IntOf(if s != [] && (s[0] == '-' || s[0] == '+') then s[1..] else s);
    if s != [] && s[0] == '-' then -n else n
  }

  lemma IntTextReads(e: int)
    ensures IsExponent(IntText(e)) && ReadInt(IntText(e)) == e
  {
    var t := Text(if e < 0 then -e else e);
    assert ('-' !in t && '+' !in t) by {
      assert forall i | 0 <= i < |t| :: IsDigit(t[i]);
    }
    if e < 0 {
      assert IntText(e)[1..] == t;
    }
  }

  // ---- The number a decimal text denotes ----

  function Pow10(e: int): real
    decreases if e < 0 then -e else e
  {
    if e == 0 then 1.0 else if e > 0 then 10.0 * Pow10(e - 1) else Pow10(e + 1) / 10.0
  }

  lemma Pow10Step(e: int)
    ensures Pow10(e + 1) == 10.0 * Pow10(e)
  {
  }

  /** `m` times 10^`e`. */
  function Scaled(m: nat, e: int): real {
    (m as real) * Pow10(e)
  }

  lemma ScaledTenfold(m: nat, e: int)
    ensures Scaled(10 * m, e) == Scaled(m, e + 1)
  {
    hide Pow10;
    Pow10Step(e);
  }

  /** The digits of a mantissa without its point, and how many of them follow the point. */
  function Unpointed(m: string): string {
    var dot := IndexOf(m, '.');
    if dot < 0 then m else m[..dot] + m[dot + 1..]
  }

  function AfterPoint(m: string): nat {
    var dot := IndexOf(m, '.');
    if dot < 0 then 0 else |m| - dot - 1
  }

  predicate IsDecimal(s: string) {
    var e := IndexOf(s, 'e');
    var m := if e < 0 then s else s[..e];
    AllDigits(Unpointed(m)) && (e >= 0 ==> IsExponent(s[e + 1..]))
  }

  /** The number an unsigned decimal text denotes. */
  function Denotes(s: string): real
    requires IsDecimal(s)
  {
    var e := IndexOf(s, 'e');
    var m := if e < 0 then s else s[..e];
    var exponent := if e < 0 then 0 else ReadInt(s[e + 1..]);
    Scaled(IntOf(Unpointed(m)), exponent - AfterPoint(m))
  }

  // ---- The host's text of a number (section 6.1.6.1.20 of ECMA-262) ----

  /** Shortest digits: no zero at either end. */
  predicate ValidDigits(d: string) {
    d != [] && AllDigits(d) && d[0] != '0' && d[|d| - 1] != '0'
  }

  /** The text of 0.`d` times 10^`n`. */
  function NumberText(d: string, n: int): string
    requires ValidDigits(d)
  {
    if |d| <= n <= 21 then d + Zeros(n - |d|)
    else if 0 < n <= 21 then d[..n] + ['.'] + d[n..]
    else if -6 < n <= 0 then ['0'] + ['.'] + (Zeros(-n) + d)
    else
      var m := if |d| == 1 then d else d[..1] + ['.'] + d[1..];
      m + ['e'] + ((if n - 1 < 0 then ['-'] else ['+']) + Text(if n - 1 < 0 then 1 - n else n - 1))
  }

  // ---- The formatter ----

  function LeadingZeros(s: string): (z: nat)
    ensures z <= |s|
  {
    if s == [] || s[0] != '0' then 0 else 1 + LeadingZeros(s[1..])
  }

  function StripZeros(s: string): string {
    if s == [] || s[|s| - 1] != '0' then s else StripZeros(s[..|s| - 1])
  }

  /** Digits and point of a text with an exponent at `e`, and of one without. */
  function DecomposeExponent(s: string, e: nat): (string, int)
    requires e < |s|
  {
    var m, x := s[..e], s[e + 1..];
    var dot := IndexOf(m, '.');
    (Unpointed(m), (if IsExponent(x) then ReadInt(x) else 0) + if dot < 0 then |m| else dot)
  }

  function DecomposePlain(s: string): (string, int) {
    var i := IndexOf(s, '.');
    if i < 0 then (s, |s|)
    else
      var ip, fp := s[..i], s[i + 1..];
      var z: int := LeadingZeros(fp);
      if ip == "0" then (fp[z..], -z) else (ip + fp, |ip|)
  }

  /** The digits and the position of the point, as the formatter recovers them from the host's text. */
  function Decompose(s: string): (r: (string, int))
    ensures r.0 != []
  {
    var e := IndexOf(s, 'e');
    var (digits, dp) := if e >= 0 then DecomposeExponent(s, e) else DecomposePlain(s);
    var stripped := StripZeros(digits);
    (if stripped == [] then ['0'] else stripped, dp)
  }

  function PlainLen(len: nat, dp: int): int {
    if dp >= len then dp + 2 else if dp > 0 then len + 1 else 2 - dp + len
  }

  function SciLen(len: nat, dp: int): int {
    (if len == 1 then 3 else len + 1) + 1 + |IntText(dp - 1)|
  }

  function Plain(digits: string, dp: int): string {
    if dp <= 0 then ['0'] + ['.'] + (Zeros(-dp) + digits)
    else if dp >= |digits| then digits + Zeros(dp - |digits|) + ['.'] + ['0']
    else digits[..dp] + ['.'] + digits[dp..]
  }

  function Scientific(digits: string, dp: int): string
    requires digits != []
  {
    digits[..1] + ['.'] + (if |digits| == 1 then ['0'] else digits[1..]) + ['e'] + IntText(dp - 1)
  }

  const TWO53 := 9_007_199_254_740_992.0

  /** `s` is the host's text of the absolute value, which is compared with 2^53 as the number that it denotes. */
  function FltFmtShort(s: string, negative: bool, zero: bool): string
    requires IsDecimal(s)
  {
    if zero then (if negative then "-0.0" else "0.0")
    else
      var (digits, dp) := Decompose(s);
      var len := |digits|;
      var out :=
        if Denotes(s) < TWO53 && PlainLen(len, dp) <= SciLen(len, dp) then Plain(digits, dp)
        else Scientific(digits, dp);
      (if negative then ['-'] else []) + out
  }

  // ---- Lengths ----

  /** The two lengths the formatter compares are those of the two renderings. */
  lemma LengthsExact(digits: string, dp: int)
    requires digits != []
    ensures |Plain(digits, dp)| == PlainLen(|digits|, dp)
    ensures |Scientific(digits, dp)| == SciLen(|digits|, dp)
  {
    hide IntText;
  }

  // ---- Recovering digits and point ----

  lemma {:induction false} StripZerosOf(d: string, k: nat)
    requires d != [] && d[|d| - 1] != '0'
    ensures StripZeros(d + Zeros(k)) == d
  {
    if k == 0 {
      assert d + Zeros(0) == d;
    } else {
      var s := d + Zeros(k);
      assert s[..|s| - 1] == d + Zeros(k - 1);
      StripZerosOf(d, k - 1);
    }
  }

  lemma {:induction false} LeadingZerosOf(k: nat, d: string)
    requires d != [] && d[0] != '0'
    ensures LeadingZeros(Zeros(k) + d) == k
  {
    var s := Zeros(k) + d;
    if k == 0 {
      assert s == d;
    } else {
      assert s[1..] == Zeros(k - 1) + d;
      LeadingZerosOf(k - 1, d);
    }
  }

  lemma DigitsOnly(s: string, c: char)
    requires AllDigits(s) && !IsDigit(c)
    ensures c !in s
  {
  }

  /** A text with one point and no exponent. */
  lemma DecomposePointed(ip: string, fp: string)
    requires AllDigits(ip) && AllDigits(fp)
    ensures var s := ip + ['.'] + fp;
      && IndexOf(s, 'e') == -1
      && DecomposePlain(s) ==
           if ip == "0" then (fp[LeadingZeros(fp)..], -(LeadingZeros(fp) as int)) else (ip + fp, |ip|)
  {
    hide IndexOf, LeadingZeros;
    var s := ip + ['.'] + fp;
    DigitsOnly(ip, '.');
    IndexOfAt(ip, '.', fp);
    assert s[..|ip|] == ip && s[|ip| + 1..] == fp;
    DigitsOnly(ip, 'e');
    DigitsOnly(fp, 'e');
  }

  lemma DecomposeInteger(s: string)
    requires AllDigits(s)
    ensures IndexOf(s, 'e') == -1 && DecomposePlain(s) == (s, |s|)
  {
    hide IndexOf, LeadingZeros;
    DigitsOnly(s, 'e');
    DigitsOnly(s, '.');
  }

  lemma DecomposeScientific(d: string, x: string)
    requires ValidDigits(d) && IsExponent(x)
    ensures var m := if |d| == 1 then d else d[..1] + ['.'] + d[1..];
      && IndexOf(m + ['e'] + x, 'e') == |m|
      && DecomposeExponent(m + ['e'] + x, |m|) == (d, ReadInt(x) + 1)
  {
    hide IndexOf, ReadInt, IsExponent;
    var m := if |d| == 1 then d else d[..1] + ['.'] + d[1..];
    DigitsOnly(d, 'e');
    DigitsOnly(d, '.');
    assert 'e' !in m;
    IndexOfAt(m, 'e', x);
    var s := m + ['e'] + x;
    assert s[..|m|] == m && s[|m| + 1..] == x;
    if |d| > 1 {
      DigitsOnly(d[..1], '.');
      IndexOfAt(d[..1], '.', d[1..]);
      assert m[..1] + m[2..] == d;
    }
  }

  lemma SignedReads(e: int)
    ensures var x := (if e < 0 then ['-'] else ['+']) + Text(if e < 0 then -e else e);
      IsExponent(x) && ReadInt(x) == e
  {
    var t := Text(if e < 0 then -e else e);
    var x := (if e < 0 then ['-'] else ['+']) + t;
    assert x[1..] == t;
  }

  lemma RecoversWhole(d: string, n: int)
    requires ValidDigits(d) && n >= |d|
    ensures Decompose(d + Zeros(n - |d|)) == (d, n)
  {
    hide IndexOf, DecomposePlain, DecomposeExponent, StripZeros;
    DecomposeInteger(d + Zeros(n - |d|));
    StripZerosOf(d, n - |d|);
  }

  lemma RecoversPointed(d: string, n: int)
    requires ValidDigits(d) && 0 < n <= |d|
    ensures Decompose(d[..n] + ['.'] + d[n..]) == (d, n)
  {
    hide IndexOf, DecomposePlain, DecomposeExponent, StripZeros, LeadingZeros;
    DecomposePointed(d[..n], d[n..]);
    assert d[..n] + d[n..] == d && d[..n][0] == d[0];
    StripZerosOf(d, 0);
    assert d + Zeros(0) == d;
  }

  lemma RecoversFraction(d: string, n: int)
    requires ValidDigits(d) && n <= 0
    ensures Decompose(['0'] + ['.'] + (Zeros(-n) + d)) == (d, n)
  {
    hide IndexOf, DecomposePlain, DecomposeExponent, StripZeros, LeadingZeros;
    var fp := Zeros(-n) + d;
    DecomposePointed(['0'], fp);
    LeadingZerosOf(-n, d);
    assert fp[-n..] == d;
    StripZerosOf(d, 0);
    assert d + Zeros(0) == d;
  }

  lemma RecoversExponent(d: string, x: string)
    requires ValidDigits(d) && IsExponent(x)
    ensures Decompose((if |d| == 1 then d else d[..1] + ['.'] + d[1..]) + ['e'] + x) == (d, ReadInt(x) + 1)
  {
    hide IndexOf, DecomposePlain, DecomposeExponent, StripZeros, ReadInt, IsExponent;
    DecomposeScientific(d, x);
    StripZerosOf(d, 0);
    assert d + Zeros(0) == d;
  }

  /** From the host's text the formatter gets back exactly the digits and the position of the point. */
  lemma DecomposeRecovers(d: string, n: int)
    requires ValidDigits(d)
    ensures Decompose(NumberText(d, n)) == (d, n)
  {
    hide Decompose, Text, ReadInt, IsExponent;
    if |d| <= n <= 21 {
      RecoversWhole(d, n);
    } else if 0 < n <= 21 {
      RecoversPointed(d, n);
    } else if -6 < n <= 0 {
      RecoversFraction(d, n);
    } else {
      SignedReads(n - 1);
      RecoversExponent(d, (if n - 1 < 0 then ['-'] else ['+']) + Text(if n - 1 < 0 then 1 - n else n - 1));
    }
  }

  // ---- The number printed ----

  lemma {:induction false} ZerosShift(d: string, k: nat, e: int)
    requires AllDigits(d)
    ensures AllDigits(d + Zeros(k))
    ensures Scaled(IntOf(d + Zeros(k)), e) == Scaled(IntOf(d), e + k)
  {
    hide Scaled;
    if k == 0 {
      assert d + Zeros(0) == d;
    } else {
      var s := d + Zeros(k);
      assert s[..|s| - 1] == d + Zeros(k - 1);
      ZerosShift(d, k - 1, e + 1);
      ScaledTenfold(IntOf(s[..|s| - 1]), e);
    }
  }

  lemma {:induction false} ZerosBefore(k: nat, d: string)
    requires AllDigits(d)
    ensures AllDigits(Zeros(k) + d) && IntOf(Zeros(k) + d) == IntOf(d)
    decreases k + |d|
  {
    var s := Zeros(k) + d;
    if d == [] {
      if k > 0 {
        assert s[..|s| - 1] == Zeros(k - 1) + [];
        ZerosBefore(k - 1, []);
      }
    } else {
      assert s[..|s| - 1] == Zeros(k) + d[..|d| - 1];
      ZerosBefore(k, d[..|d| - 1]);
    }
  }

  /** What a pointed text without and with an exponent denotes. */
  lemma PointedDenotes(ip: string, fp: string)
    requires AllDigits(ip) && AllDigits(fp)
    ensures var s := ip + ['.'] + fp;
      IsDecimal(s) && AllDigits(ip + fp) && Denotes(s) == Scaled(IntOf(ip + fp), -|fp|)
  {
    hide IndexOf, Scaled, IntOf, Unpointed, AfterPoint, AllDigits;
    PointedMantissa(ip, fp);
  }

  lemma PointedMantissa(ip: string, fp: string)
    requires AllDigits(ip) && AllDigits(fp)
    ensures var m := ip + ['.'] + fp;
      'e' !in m && Unpointed(m) == ip + fp && AfterPoint(m) == |fp| && AllDigits(ip + fp)
  {
    hide IndexOf;
    var m := ip + ['.'] + fp;
    DigitsOnly(ip, 'e');
    DigitsOnly(fp, 'e');
    DigitsOnly(ip, '.');
    IndexOfAt(ip, '.', fp);
    assert m[..|ip|] == ip && m[|ip| + 1..] == fp;
  }

  lemma ScientificDenotes(ip: string, fp: string, x: string)
    requires AllDigits(ip) && AllDigits(fp) && IsExponent(x)
    ensures var s := ip + ['.'] + fp + ['e'] + x;
      && IsDecimal(s) && AllDigits(ip + fp)
      && Denotes(s) == Scaled(IntOf(ip + fp), ReadInt(x) - |fp|)
  {
    hide IndexOf, Scaled, IntOf, ReadInt, IsExponent, Unpointed, AfterPoint, AllDigits;
    var m := ip + ['.'] + fp;
    PointedMantissa(ip, fp);
    MantissaAndExponent(m, x);
  }

  lemma MantissaAndExponent(m: string, x: string)
    requires 'e' !in m && AllDigits(Unpointed(m)) && IsExponent(x)
    ensures var s := m + ['e'] + x;
      IsDecimal(s) && Denotes(s) == Scaled(IntOf(Unpointed(m)), ReadInt(x) - AfterPoint(m))
  {
    hide IndexOf, Scaled, IntOf, ReadInt, IsExponent, Unpointed, AfterPoint, AllDigits;
    var s := m + ['e'] + x;
    IndexOfAt(m, 'e', x);
    assert s[..|m|] == m && s[|m| + 1..] == x;
  }

  /** The value of digits `d` with the point at `dp`. */
  function Value(d: string, dp: int): real
    requires AllDigits(d)
  {
    Scaled(IntOf(d), dp - |d|)
  }

  lemma PlainDenotes(d: string, dp: int)
    requires ValidDigits(d)
    ensures IsDecimal(Plain(d, dp)) && Denotes(Plain(d, dp)) == Value(d, dp)
  {
    hide IsDecimal, Denotes, IntOf, Scaled;
    if dp <= 0 {
      PointedDenotes(['0'], Zeros(-dp) + d);
      assert ['0'] + (Zeros(-dp) + d) == Zeros(1 - dp) + d;
      ZerosBefore(1 - dp, d);
    } else if dp >= |d| {
      var k := dp - |d|;
      PointedDenotes(d + Zeros(k), ['0']);
      assert d + Zeros(k) + ['0'] == d + Zeros(k + 1);
      ZerosShift(d, k + 1, -1);
    } else {
      PointedDenotes(d[..dp], d[dp..]);
      assert d[..dp] + d[dp..] == d;
    }
  }

  lemma ScientificIs(d: string, dp: int)
    requires ValidDigits(d)
    ensures IsDecimal(Scientific(d, dp)) && Denotes(Scientific(d, dp)) == Value(d, dp)
  {
    hide IsDecimal, Denotes, IntOf, Scaled, IntText;
    var x := IntText(dp - 1);
    IntTextReads(dp - 1);
    if |d| == 1 {
      ScientificDenotes(d[..1], ['0'], x);
      assert d[..1] + ['0'] == d + Zeros(1);
      ZerosShift(d, 1, dp - 2);
    } else {
      ScientificDenotes(d[..1], d[1..], x);
      assert d[..1] + d[1..] == d;
    }
  }

  /** The host's own text denotes the same number. */
  lemma NumberTextDenotes(d: string, n: int)
    requires ValidDigits(d)
    ensures IsDecimal(NumberText(d, n)) && Denotes(NumberText(d, n)) == Value(d, n)
  {
    hide IsDecimal, Denotes, IntOf, Scaled, Text;
    if |d| <= n <= 21 {
      IntegerDenotes(d + Zeros(n - |d|));
      ZerosShift(d, n - |d|, 0);
    } else if 0 < n <= 21 {
      PointedDenotes(d[..n], d[n..]);
      assert d[..n] + d[n..] == d;
    } else if -6 < n <= 0 {
      PointedDenotes(['0'], Zeros(-n) + d);
      assert ['0'] + (Zeros(-n) + d) == Zeros(1 - n) + d;
      ZerosBefore(1 - n, d);
    } else {
      var x := (if n - 1 < 0 then ['-'] else ['+']) + Text(if n - 1 < 0 then 1 - n else n - 1);
      SignedReads(n - 1);
      ExponentDenotes(d, x);
    }
  }

  lemma ExponentDenotes(d: string, x: string)
    requires ValidDigits(d) && IsExponent(x)
    ensures var s := (if |d| == 1 then d else d[..1] + ['.'] + d[1..]) + ['e'] + x;
      IsDecimal(s) && Denotes(s) == Value(d, ReadInt(x) + 1)
  {
    hide IsDecimal, Denotes, IntOf, Scaled, IsExponent, ReadInt;
    if |d| == 1 {
      WholeDenotes(d, x);
    } else {
      ScientificDenotes(d[..1], d[1..], x);
      assert d[..1] + d[1..] == d;
    }
  }

  lemma IntegerDenotes(s: string)
    requires AllDigits(s)
    ensures IsDecimal(s) && Denotes(s) == Scaled(IntOf(s), 0)
  {
    hide IndexOf, IntOf, Scaled;
    DigitsOnly(s, 'e');
    DigitsOnly(s, '.');
  }

  lemma WholeDenotes(m: string, x: string)
    requires AllDigits(m) && IsExponent(x)
    ensures IsDecimal(m + ['e'] + x) && Denotes(m + ['e'] + x) == Scaled(IntOf(m), ReadInt(x))
  {
    hide IndexOf, IntOf, Scaled, ReadInt, IsExponent;
    DigitsOnly(m, 'e');
    DigitsOnly(m, '.');
    IndexOfAt(m, 'e', x);
    var s := m + ['e'] + x;
    assert s[..|m|] == m && s[|m| + 1..] == x;
  }

  /**
   * For every number text of the host, the formatter prints the sign and then a text that denotes the same number;
   * below 2^53 it is the shorter of the plain and the scientific rendering, plain on a tie, and from there on it is
   * the scientific one.
   */
  lemma FltFmtShortIs(d: string, n: int, negative: bool)
    requires ValidDigits(d)
    ensures var text, plain, sci := NumberText(d, n), Plain(d, n), Scientific(d, n);
      && IsDecimal(text)
      && var below := Denotes(text) < TWO53;
         var out := if below && |plain| <= |sci| then plain else sci;
         && FltFmtShort(text, negative, false) == (if negative then ['-'] else []) + out
         && IsDecimal(out) && Denotes(out) == Denotes(text)
         && (below ==> |out| <= |plain| && |out| <= |sci|)
  {
    hide Decompose, NumberText, IsDecimal, Denotes, Plain, Scientific, PlainLen, SciLen, Value;
    DecomposeRecovers(d, n);
    LengthsExact(d, n);
    PlainDenotes(d, n);
    ScientificIs(d, n);
    NumberTextDenotes(d, n);
  }

  // ---- The shape of the output ----

  /** Digits before a point, with no zero in front of others. */
  predicate WholePart(s: string) {
    s != [] && AllDigits(s) && (s[0] == '0' ==> |s| == 1)
  }

  /** Digits after a point, with no zero behind others. */
  predicate FractionPart(s: string) {
    s != [] && AllDigits(s) && (s[|s| - 1] == '0' ==> |s| == 1)
  }

  ghost predicate IsPlainFloat(s: string) {
    exists whole, part :: WholePart(whole) && FractionPart(part) && s == whole + ['.'] + part
  }

  ghost predicate IsScientificFloat(s: string) {
    exists whole, part, e :: WholePart(whole) && whole != "0" && |whole| == 1 && FractionPart(part)
                             && s == whole + ['.'] + part + ['e'] + IntText(e)
  }

  lemma PlainShape(d: string, n: int)
    requires ValidDigits(d)
    ensures IsPlainFloat(Plain(d, n))
  {
    var whole := if n <= 0 then "0" else if n >= |d| then d + Zeros(n - |d|) else d[..n];
    var part := if n <= 0 then Zeros(-n) + d else if n >= |d| then "0" else d[n..];
    assert WholePart(whole) && FractionPart(part);
    assert Plain(d, n) == whole + ['.'] + part;
  }

  lemma ScientificShape(d: string, n: int)
    requires ValidDigits(d)
    ensures IsScientificFloat(Scientific(d, n))
  {
    var part := if |d| == 1 then "0" else d[1..];
    assert WholePart(d[..1]) && FractionPart(part);
    assert Scientific(d, n) == d[..1] + ['.'] + part + ['e'] + IntText(n - 1);
  }

  /**
   * The output is a float text with no superfluous zero: plain, or in scientific notation with one digit before the
   * point. Zero is printed as what the general rule makes of the host's text of zero.
   */
  lemma FltFmtShape(d: string, n: int, negative: bool)
    requires ValidDigits(d)
    ensures IsDecimal(NumberText(d, n)) && IsDecimal("0") && Denotes("0") == 0.0
    ensures var out := FltFmtShort(NumberText(d, n), negative, false);
      var unsigned := if negative then out[1..] else out;
      && (negative ==> out[0] == '-')
      && (IsPlainFloat(unsigned) || IsScientificFloat(unsigned))
    ensures FltFmtShort(NumberText(d, n), negative, true) == FltFmtShort("0", negative, false)
  {
    ZeroText();
    FltFmtShortIs(d, n, negative);
    PlainShape(d, n);
    ScientificShape(d, n);
    hide Decompose, NumberText, IsDecimal, Denotes, Plain, Scientific, PlainLen, SciLen, IsPlainFloat, IsScientificFloat;
  }

  /** An integer's own text denotes it. */
  lemma TextDenotes(n: nat)
    ensures IsDecimal(Text(n)) && Denotes(Text(n)) == n as real
  {
    hide IsDecimal, Denotes, IntOf;
    IntegerDenotes(Text(n));
  }

  lemma ZeroText()
    ensures IsDecimal("0") && Denotes("0") == 0.0 && FltFmtShort("0", false, false) == "0.0"
    ensures FltFmtShort("0", true, false) == "-0.0"
  {
  }
}
