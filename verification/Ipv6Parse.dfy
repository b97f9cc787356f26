/** Parsing IPv6 addresses (rtl/network.c:32-163, 806-947). */
module Ipv6Parse {
  import opened Ascii
  import opened Ipv6Text
  import opened Ipv6Grammar

  // ----- numbers

  /** RtlpStringToUlongBase (rtl/network.c:32-73). It succeeds exactly when there are digits and their
      value fits 32 bits. */
  method StringToUlongBase(s: string, p: nat, base: int) returns (ok: bool, end: nat, value: int)
    requires p <= |s| && base in {8, 10, 16}
    ensures p <= end <= |s| && value >= 0
    ensures
      var n := DigitRun(s, p, base);
      && (ok <==> n > 0 && Value(s, p, n, base, 0) < 0x1_0000_0000)
      && (ok ==> end == p + n && value == Value(s, p, n, base, 0))
      && (n == 0 ==> end == p)
  {
    ok, end, value := false, p, 0;
    ghost var n := DigitRun(s, p, base);
    RunDigits(s, p, base);
    while end < |s| && IsDigit(s[end], base)
      invariant p <= end <= p + n && (ok <==> end > p) && 0 <= value < 0x1_0000_0000
      invariant DigitRun(s, end, base) == p + n - end
      invariant Value(s, p, n, base, 0) == Value(s, end, p + n - end, base, value)
      decreases |s| - end
    {
      var next := value * base + DigitValue(s[end], base);
      ValueGrows(s, end + 1, p + n - end - 1, base, next);
      if next >= 0x1_0000_0000 {
        return false, end, value;
      }
      ok, end, value := true, end + 1, next;
    }
  }

  /** RtlpStringToUlong (rtl/network.c:76-111) when only decimal numbers are allowed. */
  method StringToUlongStrict(s: string, p: nat) returns (ok: bool, end: nat, value: int)
    requires p <= |s|
    ensures p <= end <= |s| + 1
    ensures At(s, p) != '0' || !(At(s, p + 1) in {'x', 'X'} || '0' <= At(s, p + 1) <= '9') ==>
              var n := DigitRun(s, p, 10);
              && end <= |s| && (ok <==> n > 0 && Value(s, p, n, 10, 0) < 0x1_0000_0000)
              && (ok ==> end == p + n && value == Value(s, p, n, 10, 0))
    ensures (ok ==> end <= |s|) && value >= 0
  {
    if At(s, p) == '0' {
      if At(s, p + 1) == 'x' || At(s, p + 1) == 'X' {
        return false, p + 2, 0;
      } else if '0' <= At(s, p + 1) <= '9' {
        return false, p + 1, 0;
      }
    }
    ok, end, value := StringToUlongBase(s, p, 10);
  }

  lemma FrontStands(s: string, p: nat, t: string, rest: string)
    requires p <= |s| && s[p..] == t + rest
    ensures p + |t| <= |s| && s[p..p + |t|] == t && s[p + |t|..] == rest
  {
    assert s[p..p + |t|] == s[p..][..|t|] == t;
    assert s[p + |t|..] == s[p..][|t|..];
  }

  /** A printed number stands at p, and rest after it. */
  lemma NumberAt(s: string, p: nat, v: int, base: int, rest: string)
    requires p <= |s| && v >= 0 && base in {10, 16} && s[p..] == NumText(v, base) + rest
    requires rest == "" || !IsDigit(rest[0], base)
    ensures DigitRun(s, p, base) == |NumText(v, base)| && Value(s, p, |NumText(v, base)|, base, 0) == v
    ensures p + |NumText(v, base)| <= |s| && s[p + |NumText(v, base)|..] == rest
    ensures At(s, p + |NumText(v, base)|) == At(rest, 0)
    ensures At(s, p) == NumText(v, base)[0] && (At(s, p) == '0' ==> |NumText(v, base)| == 1)
  {
    var t := NumText(v, base);
    FrontStands(s, p, t, rest);
    NumReads(s, p, v, base);
    if rest != "" { assert s[p + |t|] == s[p + |t|..][0]; }
    RunIs(s, p, |t|, base);
    FirstDigit(v, base);
    assert s[p] == s[p..][0];
  }

  // ----- dotted quads

  function DottedBytes(a: Word, b: Word): seq<int> {
    [a / 256, a % 256, b / 256, b % 256]
  }

  /** The text of the numbers from the k-th on. */
  function DottedFrom(a: Word, b: Word, k: nat): string
    requires k < 4
    decreases 4 - k
  {
    NumText(DottedBytes(a, b)[k], 10) + if k == 3 then "" else "." + DottedFrom(a, b, k + 1)
  }

  lemma DottedWhole(a: Word, b: Word)
    ensures DottedFrom(a, b, 0) == DottedText(a, b)
  {
    var v := DottedBytes(a, b);
    assert DottedFrom(a, b, 3) == NumText(v[3], 10);
    assert DottedFrom(a, b, 2) == NumText(v[2], 10) + ("." + DottedFrom(a, b, 3));
    assert DottedFrom(a, b, 1) == NumText(v[1], 10) + ("." + DottedFrom(a, b, 2));
    assert DottedFrom(a, b, 0) == NumText(v[0], 10) + ("." + DottedFrom(a, b, 1));
    DottedJoined(NumText(v[0], 10), NumText(v[1], 10), NumText(v[2], 10), NumText(v[3], 10));
  }

  lemma DottedJoined(w: string, x: string, y: string, z: string)
    ensures w + ("." + (x + ("." + (y + ("." + z))))) == w + "." + x + "." + y + "." + z
  {
  }

  /** From the k-th number on the text stands at p. */
  ghost predicate DottedAt(s: string, p: nat, a: Word, b: Word, k: nat) {
    p <= |s| && k < 4 && s[p..] == DottedFrom(a, b, k)
  }

  /** The number that is read next, and what follows it. */
  lemma DottedNumber(s: string, p: nat, a: Word, b: Word, k: nat, v: int)
    requires DottedAt(s, p, a, b, k) && v == DottedBytes(a, b)[k]
    ensures DecimalHere(s, p, v)
    ensures
      var n := DigitRun(s, p, 10);
      if k == 3 then p + n == |s| else At(s, p + n) == '.' && DottedAt(s, p + n + 1, a, b, k + 1)
  {
    var rest := if k == 3 then "" else "." + DottedFrom(a, b, k + 1);
    DecimalAt(s, p, v, rest);
    if k < 3 {
      BehindDot(s, p + DigitRun(s, p, 10), DottedFrom(a, b, k + 1));
    }
  }

  /** What a decimal number at p looks like to the parser. */
  ghost predicate DecimalHere(s: string, p: nat, v: int) {
    p <= |s| && var n := DigitRun(s, p, 10);
    && n > 0 && p + n <= |s| && Value(s, p, n, 10, 0) == v
    && (At(s, p) == '0' ==> !(At(s, p + 1) in {'x', 'X'} || '0' <= At(s, p + 1) <= '9'))
  }

  lemma BehindDot(s: string, p: nat, more: string)
    requires p <= |s| && s[p..] == "." + more
    ensures p + 1 <= |s| && s[p + 1..] == more
  {
    assert s[p + 1..] == s[p..][1..];
  }

  /** A decimal number at p, the end of the text or a dot behind it. */
  lemma DecimalAt(s: string, p: nat, v: int, rest: string)
    requires p <= |s| && v >= 0 && s[p..] == NumText(v, 10) + rest && (rest == "" || rest[0] == '.')
    ensures DecimalHere(s, p, v)
    ensures var n := DigitRun(s, p, 10); s[p + n..] == rest && At(s, p + n) == At(rest, 0)
  {
    NumberAt(s, p, v, 10, rest);
  }

  lemma OneMoreByte(values: seq<int>, all: seq<int>, v: int)
    requires |values| < |all| && values == all[..|values|] && v == all[|values|]
    ensures values + [v] == all[..|values| + 1]
  {
  }

  /** RtlpIpv4StringToAddressParserW (rtl/network.c:134-163), with only decimal numbers allowed. A number
      that is refused leaves its value unset in the source; it is zero here. */
  method ParseDotted(s: string, p: nat, ghost a: Word, ghost b: Word) returns (ok: bool, end: nat, values: seq<int>)
    requires p <= |s|
    ensures 1 <= |values| <= 4 && p <= end <= |s| + 1 && forall i :: 0 <= i < |values| ==> values[i] >= 0
    ensures s[p..] == DottedText(a, b) ==> ok && end == |s| && values == DottedBytes(a, b)
  {
    DottedWhole(a, b);
    ghost var good := s[p..] == DottedText(a, b);
    values, end, ok := [], p, true;
    while true
      invariant |values| < 4 && p <= end <= |s| && ok && forall i :: 0 <= i < |values| ==> values[i] >= 0
      invariant good ==> DottedAt(s, end, a, b, |values|) && values == DottedBytes(a, b)[..|values|]
      decreases 4 - |values|
    {
      if good { DottedNumber(s, end, a, b, |values|, DottedBytes(a, b)[|values|]); }
      var value;
      ok, end, value := StringToUlongStrict(s, end);
      if good { OneMoreByte(values, DottedBytes(a, b), value); }
      values := values + [value];
      if end > |s| || At(s, end) != '.' { return; }
      // already four parts, but a dot follows?
      if |values| == 4 { return false, end, values; }
      end := end + 1;
      if !ok { return; }
    }
  }

  // ----- whole addresses

  /** How an iteration of the loop ends: it goes on, it breaks with a status and a terminator, or it returns
      without touching the terminator. */
  datatype Next = Go | Break(ok: bool, terminator: nat) | Fail

  /** Not a number: a colon, a double colon, or the end (rtl/network.c:826-856). */
  method ParseColon(s: string, st: State) returns (next: Next, r: State)
    requires Sound(s, st) && st.n < 8
    ensures Sound(s, r) && (next == Go ==> r.p > st.p) && next != Fail
    ensures next.Break? ==> next == Break(true, st.p) && r == st
    ensures
      var one, two := At(s, st.p) == ':', At(s, st.p + 1) == ':';
      && (next == Go <==> one && st.last != Colon && ((two && st.startSkip == -1) || (!two && st.last == Number)))
      && (next == Go && !two ==> r == st.(p := st.p + 1, last := Colon))
      && (next == Go && two && st.n > 0 ==> r == st.(p := st.p + 2, startSkip := st.n, last := DoubleColon))
      && (next == Go && two && st.n == 0 ==>
            r == st.(p := st.p + 2, n := 2, startSkip := 2, last := DoubleColon, words := [0, 0] + st.words[2..]))
  {
    r := st;
    // not a number, and no ':' or already encountered an ':'
    if At(s, st.p) != ':' || st.last == Colon {
      return Break(true, st.p), st;
    }
    if st.startSkip == -1 && At(s, st.p + 1) == ':' {
      if st.n == 0 {
        r := r.(words := r.words[0 := 0]);
        r := r.(words := r.words[1 := 0], n := 2);
      }
      r := r.(startSkip := r.n, p := st.p + 2, last := DoubleColon);
      next := Go;
    } else if At(s, st.p + 1) == ':' || st.last != Number {
      next := Break(true, st.p);
    } else {
      next, r := Go, st.(p := st.p + 1, last := Colon);
    }
  }

  /** Store byte i of the address. */
  function SetByte(words: seq<Word>, i: nat, v: int): (r: seq<Word>)
    requires |words| == 8 && i < 16 && 0 <= v < 256
    ensures |r| == 8
  {
    var w: int := words[i / 2];
    words[i / 2 := if i % 2 == 0 then v * 256 + w % 256 else w / 256 * 256 + v]
  }

  predicate AllBytes(values: seq<int>) {
    forall i :: 0 <= i < |values| ==> 0 <= values[i] < 256
  }

  /** Store the numbers as bytes, as far as they are in order (rtl/network.c:878-897). */
  method StoreNumbers(s: string, end: nat, st: State, values: seq<int>, ok0: bool)
      returns (fail: bool, ok: bool, words: seq<Word>)
    requires Sound(s, st) && st.n <= 6 && 1 <= |values| <= 4 && forall i :: 0 <= i < |values| ==> values[i] >= 0
    ensures |words| == 8
    ensures ok0 && |values| == 4 && end == |s| && AllBytes(values) && (st.startSkip != -1 || st.n == 6) ==>
              !fail && ok && words == Stored(st.words, st.n, values, 4)
  {
    words, ok := st.words, ok0;
    var j := 0;
    while j < |values|
      invariant 0 <= j <= |values| && |words| == 8 && ok == ok0
      invariant forall i :: 0 <= i < j ==> 0 <= values[i] < 256
      invariant |values| == 4 && (forall i :: 0 <= i < 4 ==> values[i] < 256) ==>
                words == Stored(st.words, st.n, values, j)
    {
      if values[j] > 255 {
        return j != 3, false, words;
      }
      if j == |values| - 1
         && (j < 3 || (At(s, end) == ':' && st.startSkip == -1) || (st.startSkip == -1 && st.n < 6) || !ok) {
        return false, false, words;
      }
      words := SetByte(words, st.n * 2 + j, values[j]);
      j := j + 1;
    }
    fail := false;
  }

  /** An IPv4 address inside (rtl/network.c:872-902). */
  method ParseTail(s: string, st: State, ghost a: Word, ghost b: Word) returns (next: Next, r: State)
    requires Sound(s, st) && st.n <= 6
    ensures next != Go && |r.words| == 8
    ensures r.n == st.n + 2 && r.parts == st.parts + 2 && r.startSkip == st.startSkip && r.last == Number
    ensures s[st.p..] == DottedText(a, b) && (st.startSkip != -1 || st.n == 6) ==>
              next == Break(true, |s|) && r.words == st.words[st.n := a][st.n + 1 := b]
  {
    var ok, end, values := ParseDotted(s, st.p, a, b);
    var fail, words;
    fail, ok, words := StoreNumbers(s, end, st, values, ok);
    StoredWords(st.words, st.n, a, b);
    next := if fail then Fail else Break(ok, end);
    r := st.(n := st.n + 2, parts := st.parts + 2, last := Number, words := words);
  }

  /** The first j of four bytes stored from word n on. */
  function Stored(words: seq<Word>, n: nat, bytes: seq<int>, j: nat): (r: seq<Word>)
    requires |words| == 8 && n <= 6 && j <= 4 == |bytes| && forall i :: 0 <= i < 4 ==> 0 <= bytes[i] < 256
    ensures |r| == 8
  {
    if j == 0 then words else SetByte(Stored(words, n, bytes, j - 1), n * 2 + j - 1, bytes[j - 1])
  }

  lemma StoredWords(words: seq<Word>, n: nat, a: Word, b: Word)
    requires |words| == 8 && n <= 6
    ensures Stored(words, n, DottedBytes(a, b), 4) == words[n := a][n + 1 := b]
  {
    var v := DottedBytes(a, b);
    var w1, w2 := SetByte(words, n * 2, v[0]), SetByte(SetByte(words, n * 2, v[0]), n * 2 + 1, v[1]);
    assert (n * 2) / 2 == n && (n * 2 + 1) / 2 == n && (n * 2 + 2) / 2 == n + 1 && (n * 2 + 3) / 2 == n + 1;
    assert w1 == words[n := w1[n]] && w1[n] / 256 == v[0];
    assert w2 == words[n := a];
    var w3 := SetByte(w2, n * 2 + 2, v[2]);
    assert w3 == w2[n + 1 := w3[n + 1]] && w3[n + 1] / 256 == v[2];
    assert SetByte(w3, n * 2 + 3, v[3]) == w2[n + 1 := b];
    assert Stored(words, n, v, 0) == words;
    assert Stored(words, n, v, 1) == w1;
    assert Stored(words, n, v, 2) == w2;
    assert Stored(words, n, v, 3) == w3;
  }

  /** RtlpClassifyChars (rtl/network.c:115-131): the length of a run of hexadecimal digits. */
  method ClassifyChars(s: string, p: nat) returns (len: nat)
    requires p <= |s|
    ensures len == DigitRun(s, p, 16) && p + len <= |s|
  {
    len := 0;
    while p + len < |s| && IsDigit(s[p + len], 16)
      invariant p + len <= |s| && DigitRun(s, p, 16) == len + DigitRun(s, p + len, 16)
      decreases |s| - (p + len)
    {
      len := len + 1;
    }
  }

  /** The number is read as a word, neither refused nor taken for the prefix of a hexadecimal number. */
  predicate WordRead(s: string, st: State, len: nat) {
    (At(s, st.p + len) == ':' || st.n == 7 || st.startSkip != -1) && (len > 1 || Lower(At(s, st.p + 1)) != 'x')
  }

  /** A number of up to four digits (rtl/network.c:904-932). */
  method ParseWord(s: string, st: State, len: nat) returns (next: Next, r: State)
    requires Sound(s, st) && st.n < 8 && len == DigitRun(s, st.p, 16) && 1 <= len <= 4
    ensures Sound(s, r) && (next == Go ==> r.p > st.p) && next != Fail
    ensures WordRead(s, st, len) ==>
              next == Go && r == st.(p := st.p + len, n := st.n + 1, last := Number,
                                     parts := if st.startSkip != -1 then st.parts + 1 else 0,
                                     words := st.words[st.n := Value(s, st.p, len, 16, 0) % 0x10000])
    ensures next == Go ==> r == WithWord(st, st.p + len, Value(s, st.p, len, 16, 0) % 0x10000)
    ensures next.Break? && next.ok ==> Lower(At(s, st.p + 1)) == 'x'
  {
    r := st;
    if At(s, st.p + len) != ':' && st.n < 7 && st.startSkip == -1 {
      // update the terminator to point to the first invalid char
      return Break(false, st.p + len), st;
    }
    var p, skipoutLastHex := st.p, false;
    if len == 1 && Lower(At(s, p + 1)) == 'x' && At(s, p) == '0' {
      var more := ClassifyChars(s, p + 2);
      if 0 < more <= 4 {
        p, skipoutLastHex := p + 2, true;
      }
    }
    var ok, end, value := StringToUlongBase(s, p, 16);
    ShortValue(s, p, 16);
    r := st.(p := end, n := st.n + 1, last := Number,
             parts := if st.startSkip != -1 then st.parts + 1 else 0,
             words := st.words[st.n := value % 0x10000]);
    next := if skipoutLastHex then Break(true, st.p + 1) else Go;
  }

  /** Up to four hexadecimal digits cannot overflow. */
  lemma ShortValue(s: string, p: nat, base: int)
    requires p <= |s| && base == 16
    ensures 1 <= DigitRun(s, p, 16) <= 4 ==> 0 <= Value(s, p, DigitRun(s, p, 16), 16, 0) < 0x1_0000
  {
    var n := DigitRun(s, p, 16);
    RunDigits(s, p, 16);
    ValueBelow(s, p, n, 0);
    ValueGrows(s, p, n, 16, 0);
    assert Power(16, 1) == 16 && Power(16, 2) == 256 && Power(16, 3) == 4096 && Power(16, 4) == 65536;
  }

  /** Where the parser stands in a printed text. */
  datatype Phase = Head(i: nat) | HeadDone(i: nat) | HeadDots | Tail(k: nat) | TailDone(k: nat) | Ended

  function SkipAt(l: Layout): nat {
    if l.head == [] then 2 else |l.head|
  }

  function Front(l: Layout): seq<Word> {
    if l.head == [] then [0, 0] else l.head
  }

  ghost predicate OnHead(l: Layout, st: State, i: nat) {
    i <= |l.head| && st.startSkip == -1 && st.parts == 0 && st.n == i && |st.words| == 8 && i <= 8
        && st.words[..i] == l.head[..i]
  }

  ghost predicate OnTail(l: Layout, st: State, k: nat) {
    && k <= |l.tail| && l.skipped && st.startSkip == SkipAt(l) && st.parts == k && st.n == SkipAt(l) + k <= 8
       && |st.words| == 8
    && st.words[..SkipAt(l)] == Front(l) && st.words[SkipAt(l)..st.n] == l.tail[..k]
  }

  /** The address is complete, but for the words that the double colon stands for. */
  ghost predicate Complete(l: Layout, st: State) {
    var end := if l.dotted then [l.w6, l.w7] else [];
    && Fits(l) && |st.words| == 8
    && if l.skipped then
         && st.startSkip == SkipAt(l) && st.parts == |l.tail| + |end| && st.startSkip + st.parts <= 8
            && st.last != Colon
         && st.words[..st.startSkip] == Front(l) && st.words[st.startSkip..st.startSkip + st.parts] == l.tail + end
       else st.startSkip == -1 && st.n == 8 && st.words == Words(l)
  }

  ghost predicate AtHead(l: Layout, s: string, st: State, i: nat) {
    && Fits(l) && st.p <= |s| && OnHead(l, st, i) && i < |l.head|
    && st.last == (if i == 0 then None else Colon) && s[st.p..] == BeforeHead(l, i)
  }

  ghost predicate AtHeadDone(l: Layout, s: string, st: State, i: nat) {
    && Fits(l) && st.p <= |s| && OnHead(l, st, i)
    && (if i == 0 then l.head == [] && st.last == None else st.last == Number) && s[st.p..] == AfterHead(l, i)
  }

  ghost predicate AtHeadDots(l: Layout, s: string, st: State) {
    && Fits(l) && st.p <= |s| && OnHead(l, st, 6) && !l.skipped && l.dotted && st.last == Colon
    && s[st.p..] == DottedText(l.w6, l.w7)
  }

  ghost predicate AtTail(l: Layout, s: string, st: State, k: nat) {
    && Fits(l) && st.p <= |s| && OnTail(l, st, k) && st.last == (if k == 0 then DoubleColon else Colon)
    && s[st.p..] == BeforeTail(l, k) && (k == |l.tail| && k > 0 ==> l.dotted)
  }

  ghost predicate AtTailDone(l: Layout, s: string, st: State, k: nat) {
    Fits(l) && st.p <= |s| && OnTail(l, st, k) && k > 0 && st.last == Number && s[st.p..] == AfterTail(l, k)
  }

  ghost predicate InPhase(l: Layout, s: string, st: State, ph: Phase) {
    match ph
    case Head(i) => AtHead(l, s, st, i)
    case HeadDone(i) => AtHeadDone(l, s, st, i)
    case HeadDots => AtHeadDots(l, s, st)
    case Tail(k) => AtTail(l, s, st, k)
    case TailDone(k) => AtTailDone(l, s, st, k)
    case Ended => Complete(l, st)
  }

  lemma ExpandedWords(l: Layout, st: State)
    requires Complete(l, st) && l.skipped
    ensures Expanded(st) == Words(l)
  {
  }

  // ----- what is read in each phase

  lemma HeadColon(l: Layout, i: nat)
    requires Fits(l) && i <= |l.head|
    ensures AfterHead(l, i) == "" || AfterHead(l, i)[0] == ':'
    ensures AfterHead(l, i) == "" <==> i == |l.head| && !l.skipped && !l.dotted
  {
  }

  lemma TailColon(l: Layout, k: nat)
    requires k <= |l.tail|
    ensures AfterTail(l, k) == "" || AfterTail(l, k)[0] == ':'
  {
  }

  /** The word at p, and what follows it. */
  lemma WordAt(s: string, p: nat, w: Word, rest: string)
    requires p <= |s| && s[p..] == NumText(w, 16) + rest && (rest == "" || rest[0] == ':')
    ensures WordHere(s, p, w, rest)
  {
    WordTextLength(w);
    NumberAt(s, p, w, 16, rest);
  }

  /** What a number at p of the right shape looks like to the parser. */
  ghost predicate WordHere(s: string, p: nat, w: Word, rest: string) {
    var len := DigitRun(s, p, 16);
    && 1 <= len <= 4 && p + len <= |s| && At(s, p + len) == At(rest, 0) && At(s, p + len) != '.'
    && (len > 1 || Lower(At(s, p + 1)) != 'x')
    && Value(s, p, len, 16, 0) % 0x10000 == w && s[p + len..] == rest
  }

  /** A word of the head is read. */
  lemma ReadHead(l: Layout, s: string, st: State, i: nat)
    requires AtHead(l, s, st, i)
    ensures st.n < 8 && WordHere(s, st.p, l.head[i], AfterHead(l, i + 1))
    ensures AfterHead(l, i + 1) == "" ==> st.n == 7
    ensures AfterHead(l, i + 1) != "" ==> AfterHead(l, i + 1)[0] == ':'
  {
    HeadColon(l, i + 1);
    assert s[st.p..] == NumText(l.head[i], 16) + AfterHead(l, i + 1);
    WordAt(s, st.p, l.head[i], AfterHead(l, i + 1));
  }

  lemma HeadRead(l: Layout, s: string, st: State, i: nat, p: nat)
    requires AtHead(l, s, st, i) && st.n < 8 && p <= |s| && s[p..] == AfterHead(l, i + 1)
    ensures AtHeadDone(l, s, WithWord(st, p, l.head[i]), i + 1)
  {
    var words := st.words[i := l.head[i]];
    assert words[..i + 1] == st.words[..i] + [l.head[i]];
    assert l.head[..i + 1] == l.head[..i] + [l.head[i]];
  }

  lemma ReadTail(l: Layout, s: string, st: State, k: nat)
    requires AtTail(l, s, st, k) && k < |l.tail|
    ensures st.n < 8 && WordHere(s, st.p, l.tail[k], AfterTail(l, k + 1))
  {
    TailColon(l, k + 1);
    assert s[st.p..] == NumText(l.tail[k], 16) + AfterTail(l, k + 1);
    WordAt(s, st.p, l.tail[k], AfterTail(l, k + 1));
  }

  lemma TailRead(l: Layout, s: string, st: State, k: nat, p: nat)
    requires AtTail(l, s, st, k) && k < |l.tail| && st.n < 8 && p <= |s| && s[p..] == AfterTail(l, k + 1)
    ensures AtTailDone(l, s, WithWord(st, p, l.tail[k]), k + 1)
  {
    var words := st.words[st.n := l.tail[k]];
    assert words[..SkipAt(l)] == st.words[..SkipAt(l)];
    assert words[SkipAt(l)..st.n + 1] == st.words[SkipAt(l)..st.n] + [l.tail[k]];
    assert l.tail[..k + 1] == l.tail[..k] + [l.tail[k]];
  }

  /** The first number of a dotted tail is followed by a dot. */
  lemma ReadDotted(s: string, p: nat, a: Word, b: Word)
    requires p <= |s| && s[p..] == DottedText(a, b)
    ensures var len := DigitRun(s, p, 16); 1 <= len <= 3 && At(s, p + len) == '.'
  {
    var v := a / 256;
    DottedWhole(a, b);
    DottedFirst(a, b);
    var rest := "." + DottedFrom(a, b, 1);
    ByteTextLength(v);
    NumberAt(s, p, v, 10, rest);
    var n := |NumText(v, 10)|;
    DecimalRun(s, p, n);
  }

  lemma DottedFirst(a: Word, b: Word)
    ensures DottedFrom(a, b, 0) == NumText(a / 256, 10) + ("." + DottedFrom(a, b, 1))
  {
  }

  lemma DecimalRun(s: string, p: nat, n: nat)
    requires p + n <= |s| && DigitRun(s, p, 10) == n && At(s, p + n) == '.'
    ensures DigitRun(s, p, 16) == n
  {
    RunDigits(s, p, 10);
    forall i | p <= i < p + n ensures IsDigit(s[i], 16) {
      assert IsDigit(s[i], 10);
    }
    RunIs(s, p, n, 16);
  }

  /** The next character is a colon, or there is none. */
  lemma NoNumber(s: string, p: nat, text: string)
    requires p <= |s| && s[p..] == text && (text == "" || text[0] == ':')
    ensures DigitRun(s, p, 16) == 0 && At(s, p) == At(text, 0) && At(s, p + 1) == At(text, 1)
        && (text == "" ==> p == |s|)
    ensures |text| >= 1 ==> p + 1 <= |s| && s[p + 1..] == text[1..]
    ensures |text| >= 2 ==> p + 2 <= |s| && s[p + 2..] == text[2..]
  {
    if text != "" { assert s[p] == s[p..][0]; }
    if |text| > 1 { assert s[p + 1] == s[p..][1]; }
  }

  /** Numbers do not start with a colon. */
  lemma {:induction false} NotColon(v: int, base: int)
    requires v >= 0 && base in {10, 16}
    ensures NumText(v, base)[0] != ':'
    decreases v
  {
    if v >= base { NotColon(v / base, base); }
  }

  lemma DottedNotColon(a: Word, b: Word)
    ensures |DottedText(a, b)| > 0 && DottedText(a, b)[0] != ':'
  {
    NotColon(a / 256, 10);
    DottedWhole(a, b);
    DottedFirst(a, b);
  }

  /** Another word of the head follows. */
  lemma ReadNextHead(l: Layout, s: string, st: State, i: nat)
    requires AtHeadDone(l, s, st, i) && i < |l.head|
    ensures DigitRun(s, st.p, 16) == 0 && At(s, st.p) == ':' && At(s, st.p + 1) != ':' && st.last == Number
    ensures AtHead(l, s, WithColon(st), i)
  {
    NoNumber(s, st.p, ":" + BeforeHead(l, i));
    NotColon(l.head[i], 16);
    assert (":" + BeforeHead(l, i))[1..] == BeforeHead(l, i);
  }

  /** The double colon follows. */
  lemma ReadSkip(l: Layout, s: string, st: State)
    requires AtHeadDone(l, s, st, |l.head|) && l.skipped
    ensures DigitRun(s, st.p, 16) == 0 && At(s, st.p) == ':' && At(s, st.p + 1) == ':' && st.last != Colon
    ensures AtTail(l, s, WithDoubleColon(st), 0)
  {
    NoNumber(s, st.p, "::" + BeforeTail(l, 0));
    assert ("::" + BeforeTail(l, 0))[2..] == BeforeTail(l, 0);
    var r := WithDoubleColon(st);
    assert st.words[..|l.head|] == l.head;
    assert r.words[..SkipAt(l)] == Front(l);
    assert r.words[SkipAt(l)..r.n] == l.tail[..0];
  }

  /** A dotted tail follows the head. */
  lemma ReadHeadDots(l: Layout, s: string, st: State)
    requires AtHeadDone(l, s, st, |l.head|) && !l.skipped && l.dotted
    ensures DigitRun(s, st.p, 16) == 0 && At(s, st.p) == ':' && At(s, st.p + 1) != ':' && st.last == Number
    ensures AtHeadDots(l, s, WithColon(st))
  {
    var d := DottedText(l.w6, l.w7);
    NoNumber(s, st.p, ":" + d);
    DottedNotColon(l.w6, l.w7);
    assert (":" + d)[1..] == d;
  }

  /** Something follows a word of the tail. */
  lemma ReadNextTail(l: Layout, s: string, st: State, k: nat)
    requires AtTailDone(l, s, st, k) && (k < |l.tail| || l.dotted)
    ensures DigitRun(s, st.p, 16) == 0 && At(s, st.p) == ':' && At(s, st.p + 1) != ':' && st.last == Number
    ensures AtTail(l, s, WithColon(st), k)
  {
    var t := BeforeTail(l, k);
    NoNumber(s, st.p, ":" + t);
    if k < |l.tail| { NotColon(l.tail[k], 16); } else { DottedNotColon(l.w6, l.w7); }
    assert (":" + t)[1..] == t;
  }

  /** Nothing follows. */
  lemma ReadEnd(l: Layout, s: string, st: State, k: nat)
    requires AtTailDone(l, s, st, k) || AtTail(l, s, st, k)
    requires k == |l.tail| && !l.dotted
    ensures st.p == |s| && DigitRun(s, st.p, 16) == 0 && At(s, st.p) == '\0' && Complete(l, st)
  {
    assert s[st.p..] == "";
    assert l.tail[..|l.tail|] == l.tail;
  }

  /** The dotted tail ends the text. */
  lemma EndDots(l: Layout, s: string, st: State, k: nat, r: State)
    requires l.dotted && Fits(l)
    requires AtHeadDots(l, s, st) || (AtTail(l, s, st, k) && k == |l.tail|)
    requires |r.words| == 8 && st.n <= 6 && r.words == st.words[st.n := l.w6][st.n + 1 := l.w7]
    requires r.n == st.n + 2 && r.parts == st.parts + 2 && r.startSkip == st.startSkip && r.last == Number
    ensures Complete(l, r)
  {
    if AtHeadDots(l, s, st) {
      assert l.head[..6] == l.head;
      assert r.words == st.words[..6] + [l.w6, l.w7];
    } else {
      var n := SkipAt(l);
      assert l.tail[..k] == l.tail;
      assert r.words[..n] == st.words[..n];
      assert r.words[n..n + k + 2] == st.words[n..n + k] + [l.w6, l.w7];
    }
  }

  /** All eight words have been read. */
  lemma EndFull(l: Layout, s: string, st: State, ph: Phase)
    requires InPhase(l, s, st, ph) && ph != Ended && st.n >= 8
    ensures st.p == |s| && Complete(l, st)
  {
    match ph
    case HeadDone(i) =>
      assert l.head[..8] == l.head && st.words[..8] == st.words;
      assert s[st.p..] == "";
    case Tail(k) => FullTail(l, s, st, k);
    case TailDone(k) => ReadEnd(l, s, st, k);
    case _ =>
  }

  lemma FullTail(l: Layout, s: string, st: State, k: nat)
    requires AtTail(l, s, st, k)
    ensures st.n < 8 && (k == |l.tail| && l.dotted ==> st.n <= 6)
  {
  }

  /** Which phase follows a number, a colon or a double colon. */
  function After(l: Layout, ph: Phase): Phase {
    match ph
    case Head(i) => HeadDone(i + 1)
    case HeadDone(i) => if i < |l.head| then Head(i) else if l.skipped then Tail(0) else HeadDots
    case HeadDots => Ended
    case Tail(k) => TailDone(k + 1)
    case TailDone(k) => Tail(k)
    case Ended => Ended
  }

  /** One iteration, where there is no number. */
  lemma ColonPhase(l: Layout, s: string, st: State, ph: Phase)
    requires InPhase(l, s, st, ph) && ph != Ended && st.n < 8 && DigitRun(s, st.p, 16) == 0
    ensures
      var one, two := At(s, st.p) == ':', At(s, st.p + 1) == ':';
      if one && st.last != Colon && two && st.startSkip == -1 then InPhase(l, s, WithDoubleColon(st), After(l, ph))
      else if one && st.last != Colon && !two && st.last == Number then InPhase(l, s, WithColon(st), After(l, ph))
      else st.p == |s| && Complete(l, st)
    ensures !ph.HeadDots?
  {
    match ph
    case Head(i) => ReadHead(l, s, st, i);
    case HeadDone(i) =>
      if i < |l.head| { ReadNextHead(l, s, st, i); }
      else if l.skipped { ReadSkip(l, s, st); }
      else { ReadHeadDots(l, s, st); }
    case HeadDots => ReadDotted(s, st.p, l.w6, l.w7);
    case Tail(k) =>
      if k < |l.tail| { ReadTail(l, s, st, k); }
      else if l.dotted { ReadDotted(s, st.p, l.w6, l.w7); }
      else { ReadEnd(l, s, st, k); }
    case TailDone(k) =>
      if k < |l.tail| || l.dotted { ReadNextTail(l, s, st, k); } else { ReadEnd(l, s, st, k); }
  }

  /** What the parser makes of a number at the position. */
  ghost predicate NumberRead(l: Layout, s: string, st: State, ph: Phase)
    requires st.p <= |s| && |st.words| == 8 && st.n < 8
  {
    var len := DigitRun(s, st.p, 16);
    && 1 <= len <= 4 && st.p + len <= |s|
    && if At(s, st.p + len) == '.' then DotsRead(l, s, st)
       else WordRead(s, st, len) && ph != HeadDots
            && InPhase(l, s, WithWord(st, st.p + len, Value(s, st.p, len, 16, 0) % 0x10000), After(l, ph))
  }

  ghost predicate DotsRead(l: Layout, s: string, st: State)
    requires st.p <= |s|
  {
    && st.n <= 6 && l.dotted && s[st.p..] == DottedText(l.w6, l.w7) && (st.startSkip != -1 || st.n == 6)
    && (AtHeadDots(l, s, st) || AtTail(l, s, st, |l.tail|))
  }

  lemma NumberHead(l: Layout, s: string, st: State, i: nat)
    requires AtHead(l, s, st, i)
    ensures st.n < 8 && NumberRead(l, s, st, Head(i))
  {
    ReadHead(l, s, st, i);
    HeadRead(l, s, st, i, st.p + DigitRun(s, st.p, 16));
  }

  lemma NumberTail(l: Layout, s: string, st: State, k: nat)
    requires AtTail(l, s, st, k) && k < |l.tail|
    ensures st.n < 8 && NumberRead(l, s, st, Tail(k))
  {
    ReadTail(l, s, st, k);
    TailRead(l, s, st, k, st.p + DigitRun(s, st.p, 16));
  }

  lemma NumberDots(l: Layout, s: string, st: State, k: nat)
    requires l.dotted && (AtHeadDots(l, s, st) || (AtTail(l, s, st, k) && k == |l.tail|))
    ensures st.n < 8 && (forall ph :: NumberRead(l, s, st, ph))
  {
    ReadDotted(s, st.p, l.w6, l.w7);
    if AtTail(l, s, st, k) { FullTail(l, s, st, k); }
  }

  /** No number follows a number. */
  lemma NoNumberDone(l: Layout, s: string, st: State, ph: Phase)
    requires InPhase(l, s, st, ph) && (ph.HeadDone? || ph.TailDone?) && st.n < 8
    ensures DigitRun(s, st.p, 16) == 0
  {
    match ph
    case HeadDone(i) =>
      if i < |l.head| { ReadNextHead(l, s, st, i); }
      else if l.skipped { ReadSkip(l, s, st); }
      else { ReadHeadDots(l, s, st); }
    case TailDone(k) =>
      if k < |l.tail| || l.dotted { ReadNextTail(l, s, st, k); } else { ReadEnd(l, s, st, k); }
  }

  /** One iteration, where there is a number: the dotted tail, or a word. */
  lemma NumberPhase(l: Layout, s: string, st: State, ph: Phase)
    requires InPhase(l, s, st, ph) && ph != Ended && st.p <= |s| && |st.words| == 8 && st.n < 8
    requires DigitRun(s, st.p, 16) > 0
    ensures NumberRead(l, s, st, ph)
  {
    match ph
    case Head(i) => NumberHead(l, s, st, i);
    case HeadDone(i) => NoNumberDone(l, s, st, ph);
    case HeadDots => NumberDots(l, s, st, 0);
    case Tail(k) =>
      if k < |l.tail| { NumberTail(l, s, st, k); }
      else if l.dotted { NumberDots(l, s, st, k); }
      else { ReadEnd(l, s, st, k); }
    case TailDone(k) => NoNumberDone(l, s, st, ph);
  }

  /** The parser goes on in the next phase, or is done with the whole text. */
  ghost predicate Stepped(l: Layout, s: string, ph: Phase, next: Next, r: State) {
    if next == Go then InPhase(l, s, r, After(l, ph)) && After(l, ph) != Ended
        else next == Break(true, |s|) && Complete(l, r)
  }

  predicate Bounded(r: State) {
    |r.words| == 8 && r.n <= 8 && (r.startSkip == -1 || (r.startSkip >= 0 && r.startSkip + r.parts <= 8))
  }

  /** No number stands there (rtl/network.c:825-856). */
  method ColonStep(s: string, st: State, ghost l: Layout, ghost ph: Phase, ghost head: seq<string>,
      ghost tail: seq<string>)
    returns (next: Next, r: State, ghost head': seq<string>, ghost tail': seq<string>)
    requires Sound(s, st) && st.n < 8 && DigitRun(s, st.p, 16) == 0
    ensures Bounded(r) && (next == Go ==> Sound(s, r) && r.p > st.p)
    ensures InPhase(l, s, st, ph) && ph != Ended ==> Stepped(l, s, ph, next, r)
    ensures Consumed(s, st, head, tail) ==> GoneOn(s, next, r, head', tail')
  {
    next, r := ParseColon(s, st);
    head', tail' := head, tail;
    if Consumed(s, st, head, tail) && next == Go {
      tail' := ColonGone(s, st, head, tail, r);
    }
    if InPhase(l, s, st, ph) && ph != Ended {
      ColonPhase(l, s, st, ph);
      if next == Go {
        assert r == if At(s, st.p + 1) == ':' then WithDoubleColon(st) else WithColon(st);
      }
    }
  }

  lemma ColonGone(s: string, st: State, head: seq<string>, tail: seq<string>, r: State) returns (tail': seq<string>)
    requires Consumed(s, st, head, tail) && st.n < 8 && At(s, st.p) == ':' && st.last != Colon
    requires if At(s, st.p + 1) == ':' then st.startSkip == -1 && r == WithDoubleColon(st)
             else st.last == Number && r == WithColon(st)
    ensures Consumed(s, r, head, tail')
  {
    tail' := if At(s, st.p + 1) == ':' then [] else tail;
    if At(s, st.p + 1) == ':' { DoubleConsumed(s, st, head, tail); } else { ColonConsumed(s, st, head, tail); }
  }

  /** A number stands there (rtl/network.c:857-932). */
  method NumberStep(s: string, st: State, len: nat, ghost l: Layout, ghost ph: Phase, ghost head: seq<string>,
      ghost tail: seq<string>)
    returns (next: Next, r: State, ghost head': seq<string>, ghost tail': seq<string>)
    requires Sound(s, st) && st.n < 8 && len == DigitRun(s, st.p, 16) > 0
    ensures Bounded(r) && (next == Go ==> Sound(s, r) && r.p > st.p)
    ensures InPhase(l, s, st, ph) && ph != Ended ==> Stepped(l, s, ph, next, r)
    ensures Plain(s) && Consumed(s, st, head, tail) ==> GoneOn(s, next, r, head', tail')
  {
    head', tail' := head, tail;
    ghost var good := InPhase(l, s, st, ph) && ph != Ended;
    if good { NumberPhase(l, s, st, ph); }
    if len > 4 {
      // the terminator is moved only after a double colon
      return if st.last != DoubleColon then Fail else Break(false, st.p + len), st, head', tail';
    }
    if At(s, st.p + len) == '.' && st.n <= 6 {
      next, r := ParseTail(s, st, l.w6, l.w7);
      if good { EndDots(l, s, st, |l.tail|, r); }
    } else {
      next, r := ParseWord(s, st, len);
      if good { WordStepped(l, s, st, ph, len, next, r); }
      if Consumed(s, st, head, tail) && next == Go {
        head', tail' := WordConsumed(s, st, head, tail, len, r);
      }
    }
  }

  /** The parser goes on, or stops where it stands, and what has been consumed are these components. */
  ghost predicate GoneOn(s: string, next: Next, r: State, head: seq<string>, tail: seq<string>) {
    (next == Go || (next.Break? && next.ok)) ==>
      Consumed(s, r, head, tail) && (next.Break? ==> next.terminator == r.p)
  }

  lemma WordStepped(l: Layout, s: string, st: State, ph: Phase, len: nat, next: Next, r: State)
    requires st.p <= |s| && |st.words| == 8 && st.n < 8 && len == DigitRun(s, st.p, 16) && NumberRead(l, s, st, ph)
        && ph != Ended
    requires !(At(s, st.p + len) == '.' && st.n <= 6)
    requires WordRead(s, st, len) ==>
               next == Go && r == WithWord(st, st.p + len, Value(s, st.p, len, 16, 0) % 0x10000)
    ensures Stepped(l, s, ph, next, r)
  {
  }

  /** One iteration of the loop (rtl/network.c:822-933). */
  method Step(s: string, st: State, ghost l: Layout, ghost ph: Phase, ghost head: seq<string>,
      ghost tail: seq<string>)
    returns (next: Next, r: State, ghost head': seq<string>, ghost tail': seq<string>)
    requires Sound(s, st) && st.n < 8
    ensures Bounded(r) && (next == Go ==> Sound(s, r) && r.p > st.p)
    ensures InPhase(l, s, st, ph) && ph != Ended ==> Stepped(l, s, ph, next, r)
    ensures Plain(s) && Consumed(s, st, head, tail) ==> GoneOn(s, next, r, head', tail')
  {
    var len := ClassifyChars(s, st.p);
    if len == 0 {
      next, r, head', tail' := ColonStep(s, st, l, ph, head, tail);
    } else {
      next, r, head', tail' := NumberStep(s, st, len, l, ph, head, tail);
    }
  }

  /** RtlIpv6StringToAddressW (rtl/network.c:806-947): the status, the terminator (none when it is left
      alone) and the words. */
  method Parse(s: string, words0: seq<Word>, ghost l: Layout) returns (ok: bool, terminator: int, words: seq<Word>)
    requires |words0| == 8
    ensures |words| == 8
    ensures Fits(l) && s == Text(l) ==> ok && terminator == |s| && words == Words(l)
    ensures Plain(s) && ok ==> 0 <= terminator <= |s| && Denotes(s[..terminator], words)
  {
    ghost var good := Fits(l) && s == Text(l);
    ghost var ph := if l.head == [] then HeadDone(0) else Head(0);
    var st := State(0, 0, -1, 0, None, words0);
    assert s[0..] == s;
    var next := Go;
    ghost var head, tail: seq<string> := [], [];
    while st.n < 8 && next == Go
      invariant Bounded(st)
      invariant Plain(s) ==> GoneOn(s, next, st, head, tail)
      invariant next == Go ==> Sound(s, st)
      invariant good ==>
                if next == Go then InPhase(l, s, st, ph) && ph != Ended else next == Break(true, |s|) && Complete(l, st)
      decreases if next == Go then 1 else 0, |s| - st.p
    {
      next, st, head, tail := Step(s, st, l, ph, head, tail);
      ph := After(l, ph);
    }
    if next == Fail {
      return false, -1, st.words;
    }
    if next == Go {
      if good { EndFull(l, s, st, ph); }
      next := Break(true, st.p);
    }
    ok, terminator, words := next.ok, next.terminator, st.words;
    if st.startSkip != -1 && ok && st.last != Colon {
      // we found a '::' somewhere, so expand that
      if good { ExpandedWords(l, st); }
      if Plain(s) { SkippedDone(s, st, head, tail); }
      words := Expanded(st);
    } else if st.n < 8 {
      ok := false;
    } else if Plain(s) && ok {
      EightDone(s, st, head, tail);
    }
  }
}
