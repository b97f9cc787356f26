/** IPv6 text (section 2.2 of RFC 4291). */
module Ipv6Text {
  import opened Ascii

  // Numbers in base 10 and 16, and the layouts that the printer chooses (rtl/network.c:559-662). An address is
  // its eight words in host order; byte 2 * n is the high byte of word n.

  type Word = w: int | 0 <= w < 0x10000

  // ----- numbers

  function Digit(d: int): char
    requires 0 <= d < 16
  {
    "0123456789abcdef"[d]
  }

  /** What %u and %x print. */
  function NumText(v: int, base: int): (t: string)
    requires v >= 0 && base in {10, 16}
    ensures |t| > 0
    decreases v
  {
    if v < base then [Digit(v)] else NumText(v / base, base) + [Digit(v % base)]
  }

  /** The value of a digit, if c is one in the base. */
  function DigitValue(c: char, base: int): (d: int)
    ensures -1 <= d < 16 && d < (if base < 8 then 8 else if base < 10 then 10 else 16)
  {
    var l := Lower(c);
    if '0' <= l <= '9' && (base >= 10 || l <= '7') then l as int - '0' as int
    else if 'a' <= l <= 'f' && base >= 16 then l as int - 'a' as int + 10
    else -1
  }

  predicate IsDigit(c: char, base: int) {
    DigitValue(c, base) >= 0
  }

  lemma DigitOf(d: int, base: int)
    requires base in {10, 16} && 0 <= d < base
    ensures DigitValue(Digit(d), base) == d
  {
  }

  /** The character at p; the string ends with a NUL. */
  function At(s: string, p: nat): char {
    if p < |s| then s[p] else '\0'
  }

  /** How many digits stand at p. */
  function DigitRun(s: string, p: nat, base: int): (n: nat)
    ensures p <= |s| ==> p + n <= |s|
    decreases |s| - p
  {
    if p < |s| && IsDigit(s[p], base) then 1 + DigitRun(s, p + 1, base) else 0
  }

  /** The value of n digits from p on, appended to acc. */
  function Value(s: string, p: nat, n: nat, base: int, acc: int): int
    requires p + n <= |s|
    decreases n
  {
    if n == 0 then acc else Value(s, p + 1, n - 1, base, acc * base + DigitValue(s[p], base))
  }

  lemma {:induction false} ValueSplit(s: string, p: nat, m: nat, n: nat, base: int, acc: int)
    requires p + m + n <= |s|
    ensures Value(s, p, m + n, base, acc) == Value(s, p + m, n, base, Value(s, p, m, base, acc))
    decreases m
  {
    if m > 0 { ValueSplit(s, p + 1, m - 1, n, base, acc * base + DigitValue(s[p], base)); }
  }

  lemma Division(v: int, base: int)
    requires v >= 0 && base in {10, 16}
    ensures v / base * base + v % base == v && 0 <= v % base < base && v / base >= 0
  {
  }

  predicate Reads(s: string, p: nat, t: string) {
    p + |t| <= |s| && s[p..p + |t|] == t
  }

  lemma ReadsParts(s: string, p: nat, t: string, u: string)
    requires Reads(s, p, t + u)
    ensures Reads(s, p, t) && Reads(s, p + |t|, u)
  {
    assert (t + u)[..|t|] == t && (t + u)[|t|..] == u;
    assert s[p..p + |t|] == s[p..p + |t + u|][..|t|];
    assert s[p + |t|..p + |t + u|] == s[p..p + |t + u|][|t|..];
  }

  /** A printed number reads as itself. */
  lemma {:induction false} NumReads(s: string, p: nat, v: int, base: int)
    requires v >= 0 && base in {10, 16} && Reads(s, p, NumText(v, base))
    ensures Value(s, p, |NumText(v, base)|, base, 0) == v
    ensures forall i :: p <= i < p + |NumText(v, base)| ==> IsDigit(s[i], base)
    decreases v
  {
    if v < base {
      DigitReads(s, p, v, base, 0);
    } else {
      Division(v, base);
      ReadsParts(s, p, NumText(v / base, base), [Digit(v % base)]);
      NumReads(s, p, v / base, base);
      NumReadsMore(s, p, v, base, v / base, v % base);
    }
  }

  lemma NumReadsMore(s: string, p: nat, v: int, base: int, q: int, r: int)
    requires base in {10, 16} && v >= base && q == v / base >= 0 && r == v % base && q * base + r == v
    requires Reads(s, p, NumText(q, base)) && Reads(s, p + |NumText(q, base)|, [Digit(r)])
    requires Value(s, p, |NumText(q, base)|, base, 0) == q
    requires forall i :: p <= i < p + |NumText(q, base)| ==> IsDigit(s[i], base)
    ensures |NumText(v, base)| == |NumText(q, base)| + 1
    ensures Value(s, p, |NumText(v, base)|, base, 0) == v
    ensures forall i :: p <= i < p + |NumText(v, base)| ==> IsDigit(s[i], base)
  {
    OneMore(s, p, |NumText(q, base)|, q, r, base);
  }

  lemma OneMore(s: string, p: nat, m: nat, q: int, r: int, base: int)
    requires base in {10, 16} && 0 <= r < base && p + m + 1 <= |s| && Reads(s, p + m, [Digit(r)])
    requires Value(s, p, m, base, 0) == q && forall i :: p <= i < p + m ==> IsDigit(s[i], base)
    ensures Value(s, p, m + 1, base, 0) == q * base + r
    ensures forall i :: p <= i < p + m + 1 ==> IsDigit(s[i], base)
  {
    DigitReads(s, p + m, r, base, q);
    ValueSplit(s, p, m, 1, base, 0);
  }

  lemma DigitReads(s: string, p: nat, d: int, base: int, acc: int)
    requires base in {10, 16} && 0 <= d < base && Reads(s, p, [Digit(d)])
    ensures Value(s, p, 1, base, acc) == acc * base + d && IsDigit(s[p], base)
  {
    assert s[p..p + 1][0] == s[p];
    DigitOf(d, base);
  }

  lemma {:induction false} RunIs(s: string, p: nat, n: nat, base: int)
    requires p + n <= |s| && (forall i :: p <= i < p + n ==> IsDigit(s[i], base))
    requires !IsDigit(At(s, p + n), base)
    ensures DigitRun(s, p, base) == n
    decreases n
  {
    if n > 0 { RunIs(s, p + 1, n - 1, base); }
  }

  function Power(base: int, n: nat): (r: int)
    ensures base > 0 ==> r > 0
  {
    if n == 0 then 1 else base * Power(base, n - 1)
  }

  lemma PowerOne(base: int)
    ensures Power(base, 1) == base
  {
    assert Power(base, 0) == 1;
  }

  lemma {:induction false} ShortText(v: int, base: int, n: nat)
    requires 0 <= v < Power(base, n) && base in {10, 16} && n > 0
    ensures |NumText(v, base)| <= n
    decreases n
  {
    if v >= base {
      Division(v, base);
      PowerOne(base);
      ShortText(v / base, base, n - 1);
    }
  }

  lemma WordTextLength(w: Word)
    ensures 1 <= |NumText(w, 16)| <= 4
  {
    assert Power(16, 4) == 65536;
    ShortText(w, 16, 4);
  }

  lemma ByteTextLength(b: int)
    requires 0 <= b < 256
    ensures 1 <= |NumText(b, 10)| <= 3
  {
    assert Power(10, 3) == 1000;
    ShortText(b, 10, 3);
  }

  /** Only zero prints with a leading zero. */
  lemma {:induction false} FirstDigit(v: int, base: int)
    requires v >= 0 && base in {10, 16}
    ensures NumText(v, base)[0] == '0' ==> v == 0 && |NumText(v, base)| == 1
    decreases v
  {
    if v >= base { FirstDigit(v / base, base); }
  }

  // ----- layouts

  /** The printed form: words in hexadecimal before and after an optional double colon, and an optional
      dotted tail for the last two words. */
  datatype Layout = Layout(head: seq<Word>, skipped: bool, tail: seq<Word>, dotted: bool, w6: Word, w7: Word)

  predicate Fits(l: Layout) {
    if l.skipped then |l.head| + |l.tail| + (if l.dotted then 2 else 0) <= 6
    else l.tail == [] && |l.head| == if l.dotted then 6 else 8
  }

  function Zeros(n: nat): (z: seq<Word>)
    ensures |z| == n && forall i :: 0 <= i < n ==> z[i] == 0
  {
    seq(n, _ => 0)
  }

  /** The address that a layout stands for. */
  function Words(l: Layout): (a: seq<Word>)
    requires Fits(l)
    ensures |a| == 8
  {
    var end := if l.dotted then [l.w6, l.w7] else [];
    if l.skipped then l.head + Zeros(8 - |l.head| - |l.tail| - |end|) + l.tail + end
    else l.head + end
  }

  function DottedText(a: Word, b: Word): string {
    NumText(a / 256, 10) + "." + NumText(a % 256, 10) + "." + NumText(b / 256, 10) + "." + NumText(b % 256, 10)
  }

  /** What is still to be read before head word i. */
  function BeforeHead(l: Layout, i: nat): string
    requires i < |l.head|
    decreases |l.head| - i, 0
  {
    NumText(l.head[i], 16) + AfterHead(l, i + 1)
  }

  /** What is still to be read after i words of the head. */
  function AfterHead(l: Layout, i: nat): string
    requires i <= |l.head|
    decreases |l.head| - i, 1
  {
    if i < |l.head| then ":" + BeforeHead(l, i)
    else if l.skipped then "::" + BeforeTail(l, 0)
    else if l.dotted then ":" + DottedText(l.w6, l.w7)
    else ""
  }

  function BeforeTail(l: Layout, k: nat): string
    requires k <= |l.tail|
    decreases |l.tail| - k, 0
  {
    if k < |l.tail| then NumText(l.tail[k], 16) + AfterTail(l, k + 1)
    else if l.dotted then DottedText(l.w6, l.w7)
    else ""
  }

  function AfterTail(l: Layout, k: nat): string
    requires k <= |l.tail|
    decreases |l.tail| - k, 1
  {
    if k < |l.tail| || l.dotted then ":" + BeforeTail(l, k) else ""
  }

  function Text(l: Layout): string {
    if l.head == [] then AfterHead(l, 0) else BeforeHead(l, 0)
  }

  // ----- the text fits the printer's buffer of 46 characters

  lemma {:induction false} TailLength(l: Layout, k: nat)
    requires k <= |l.tail|
    ensures |BeforeTail(l, k)| <= 5 * (|l.tail| - k) + (if l.dotted then 15 else 0)
    ensures |AfterTail(l, k)| <= 5 * (|l.tail| - k) + (if l.dotted then 16 else 0)
    decreases |l.tail| - k
  {
    if l.dotted { DottedLength(l.w6, l.w7); }
    if k < |l.tail| {
      WordTextLength(l.tail[k]);
      TailLength(l, k + 1);
    }
  }

  lemma DottedLength(a: Word, b: Word)
    ensures |DottedText(a, b)| <= 15
  {
    ByteTextLength(a / 256);
    ByteTextLength(a % 256);
    ByteTextLength(b / 256);
    ByteTextLength(b % 256);
  }

  lemma {:induction false} HeadLength(l: Layout, i: nat)
    requires Fits(l) && i <= |l.head|
    ensures
      var rest := if l.skipped then 2 + 5 * |l.tail| + (if l.dotted then 15 else 0) else if l.dotted then 16 else 0;
      && |AfterHead(l, i)| <= 5 * (|l.head| - i) + rest
      && (i < |l.head| ==> |BeforeHead(l, i)| <= 5 * (|l.head| - i) - 1 + rest)
    decreases |l.head| - i
  {
    if i < |l.head| {
      WordTextLength(l.head[i]);
      HeadLength(l, i + 1);
    } else {
      if l.dotted { DottedLength(l.w6, l.w7); }
      TailLength(l, 0);
    }
  }

  /** With its terminator the text always fits RTLIPV6A2S_MAX_LEN, 46 characters (rtl/network.c:24). */
  lemma TextFits(l: Layout)
    requires Fits(l)
    ensures |Text(l)| + 1 <= 46
  {
    HeadLength(l, 0);
  }

  // ----- the layout that the printer chooses

  predicate Mapped(a: seq<Word>)
    requires |a| == 8
  {
    && a[0] == 0 && a[1] == 0 && a[2] == 0 && a[3] == 0 && a[6] != 0
    && ((a[4] == 0xffff && a[5] == 0) || (a[4] == 0 && a[5] == 0xffff) || (a[4] == 0 && a[5] == 0))
  }

  /** Section 6.1 of RFC 5214: the interface identifier of an ISATAP address. */
  predicate Isatap(a: seq<Word>)
    requires |a| == 8
  {
    (a[4] == 0 || a[4] == 0x0200) && a[5] == 0x5efe
  }

  function Parts(a: seq<Word>): (n: nat)
    requires |a| == 8
  {
    if Isatap(a) then 6 else 8
  }

  /** The first of two zero words in a row, from n on; parts when there are none. */
  function ZeroStart(a: seq<Word>, parts: nat, n: nat): (r: nat)
    requires parts <= |a| && n <= parts
    ensures n <= r <= parts && (r < parts ==> r + 1 < parts && a[r] == 0 && a[r + 1] == 0)
    decreases parts - n
  {
    if n + 1 >= parts then parts
    else if a[n] == 0 && a[n + 1] == 0 then n
    else ZeroStart(a, parts, n + 1)
  }

  /** The end of the zeros that start at n. */
  function ZeroEnd(a: seq<Word>, parts: nat, n: nat): (r: nat)
    requires parts <= |a| && n <= parts
    ensures n <= r <= parts && (forall i :: n <= i < r ==> a[i] == 0) && (r < parts ==> a[r] != 0)
    decreases parts - n
  {
    if n < parts && a[n] == 0 then ZeroEnd(a, parts, n + 1) else n
  }

  function LayoutOf(a: seq<Word>): (l: Layout)
    requires |a| == 8
  {
    if Mapped(a) then
      Layout([], true, if a[4] != 0 then [0xffff, 0] else if a[5] != 0 then [0xffff] else [], true, a[6], a[7])
    else
      var parts := Parts(a);
      var n := ZeroStart(a, parts, 0);
      if n == parts then Layout(a[..parts], false, [], parts == 6, a[6], a[7])
      else Layout(a[..n], true, a[ZeroEnd(a, parts, n)..parts], parts == 6, a[6], a[7])
  }

  lemma SkippedStands(a: seq<Word>, n: nat, m: nat, dotted: bool)
    requires |a| == 8 && n + 2 <= m <= (if dotted then 6 else 8) && forall i :: n <= i < m ==> a[i] == 0
    ensures
      var l := Layout(a[..n], true, a[m..if dotted then 6 else 8], dotted, a[6], a[7]);
      Fits(l) && Words(l) == a
  {
    var l := Layout(a[..n], true, a[m..if dotted then 6 else 8], dotted, a[6], a[7]);
    assert a == a[..n] + a[n..m] + a[m..if dotted then 6 else 8] + a[if dotted then 6 else 8..];
    AllZero(a, n, m);
  }

  lemma AllZero(a: seq<Word>, n: nat, m: nat)
    requires n <= m <= |a| && forall i :: n <= i < m ==> a[i] == 0
    ensures a[n..m] == Zeros(m - n)
  {
    var z := Zeros(m - n);
    forall i | 0 <= i < m - n ensures a[n..m][i] == z[i] {
      assert a[n..m][i] == a[n + i];
    }
  }

  /** The chosen layout stands for the address. */
  lemma LayoutStands(a: seq<Word>)
    requires |a| == 8
    ensures Fits(LayoutOf(a)) && Words(LayoutOf(a)) == a
  {
    var parts := Parts(a);
    if Mapped(a) {
      assert Words(LayoutOf(a)) == a;
    } else {
      var n := ZeroStart(a, parts, 0);
      if n < parts {
        assert ZeroEnd(a, parts, n) == ZeroEnd(a, parts, n + 1) == ZeroEnd(a, parts, n + 2);
        SkippedStands(a, n, ZeroEnd(a, parts, n), parts == 6);
      }
    }
  }
}
