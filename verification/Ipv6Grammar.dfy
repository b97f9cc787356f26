/** Which texts the IPv6 parser can accept (rtl/network.c:806-947). */
module Ipv6Grammar {
  import opened Ipv6Text

  // ----- the state of the parser

  datatype Item = None | Number | Colon | DoubleColon

  /** The local variables of the parser: the position, the count of words, where the double colon was (-1
      if nowhere), the words after it, the last item, and the address. */
  datatype State = State(p: nat, n: nat, startSkip: int, parts: nat, last: Item, words: seq<Word>)

  predicate Sound(s: string, st: State) {
    && st.p <= |s| && |st.words| == 8 && st.n <= 8
    && (if st.startSkip == -1 then st.parts == 0 else 0 <= st.startSkip && st.n == st.startSkip + st.parts)
  }

  function WithWord(st: State, p: nat, w: Word): State
    requires |st.words| == 8 && st.n < 8
  {
    st.(p := p, n := st.n + 1, last := Number, words := st.words[st.n := w],
        parts := if st.startSkip != -1 then st.parts + 1 else 0)
  }

  function WithColon(st: State): State {
    st.(p := st.p + 1, last := Colon)
  }

  function WithDoubleColon(st: State): State
    requires |st.words| == 8
  {
    if st.n > 0 then st.(p := st.p + 2, startSkip := st.n, last := DoubleColon)
    else st.(p := st.p + 2, n := 2, startSkip := 2, last := DoubleColon, words := [0, 0] + st.words[2..])
  }

  // ----- numbers

  lemma {:induction false} ValueGrows(s: string, p: nat, n: nat, base: int, acc: int)
    requires p + n <= |s| && base >= 1 && acc >= 0 && forall i :: p <= i < p + n ==> IsDigit(s[i], base)
    ensures Value(s, p, n, base, acc) >= acc
    decreases n
  {
    if n > 0 {
      assert acc * base >= acc;
      ValueGrows(s, p + 1, n - 1, base, acc * base + DigitValue(s[p], base));
    }
  }

  lemma {:induction false} RunDigits(s: string, p: nat, base: int)
    requires p <= |s|
    ensures forall i :: p <= i < p + DigitRun(s, p, base) ==> IsDigit(s[i], base)
    ensures !IsDigit(At(s, p + DigitRun(s, p, base)), base)
    decreases |s| - p
  {
    if p < |s| && IsDigit(s[p], base) { RunDigits(s, p + 1, base); }
  }

  lemma {:induction false} ValueBelow(s: string, p: nat, n: nat, acc: int)
    requires p + n <= |s| && acc >= 0 && forall i :: p <= i < p + n ==> IsDigit(s[i], 16)
    ensures Value(s, p, n, 16, acc) < (acc + 1) * Power(16, n)
    decreases n
  {
    if n > 0 {
      var next, q := acc * 16 + DigitValue(s[p], 16), Power(16, n - 1);
      ValueBelow(s, p + 1, n - 1, next);
      Scaled(next + 1, (acc + 1) * 16, q);
      Associate(acc + 1, 16, q);
    }
  }

  lemma Scaled(a: int, b: int, q: int)
    requires a <= b && q >= 0
    ensures a * q <= b * q
  {
  }

  lemma Associate(a: int, b: int, q: int)
    ensures a * b * q == a * (b * q)
  {
  }

  // ----- the grammar

  /** One to four hexadecimal digits, of either case; zeros may stand in front. */
  predicate IsComponent(c: string) {
    1 <= |c| <= 4 && forall i :: 0 <= i < |c| ==> IsDigit(c[i], 16)
  }

  predicate Components(cs: seq<string>) {
    forall i :: 0 <= i < |cs| ==> IsComponent(cs[i])
  }

  lemma ComponentFits(c: string)
    requires IsComponent(c)
    ensures 0 <= Value(c, 0, |c|, 16, 0) < 0x1_0000
  {
    ValueBelow(c, 0, |c|, 0);
    ValueGrows(c, 0, |c|, 16, 0);
    assert Power(16, 1) == 16 && Power(16, 2) == 256 && Power(16, 3) == 4096 && Power(16, 4) == 65536;
  }

  function WordOf(c: string): Word
    requires IsComponent(c)
  {
    ComponentFits(c);
    Value(c, 0, |c|, 16, 0)
  }

  function WordsOf(cs: seq<string>): (ws: seq<Word>)
    requires Components(cs)
    ensures |ws| == |cs|
  {
    if cs == [] then [] else WordsOf(cs[..|cs| - 1]) + [WordOf(cs[|cs| - 1])]
  }

  /** With colons between them. */
  function Colons(cs: seq<string>): string {
    if cs == [] then ""
    else if |cs| == 1 then cs[0]
    else Colons(cs[..|cs| - 1]) + ":" + cs[|cs| - 1]
  }

  /** An address as text: components, and at most one double colon. */
  datatype Written = Written(head: seq<string>, skipped: bool, tail: seq<string>)

  /** The double colon may stand for no word at all, but at the front it stands for two at least. */
  predicate Possible(w: Written) {
    && Components(w.head) && Components(w.tail)
    && if w.skipped then |w.head| + |w.tail| <= (if w.head == [] then 6 else 8) else |w.head| == 8 && w.tail == []
  }

  function TextOf(w: Written): string {
    Colons(w.head) + if w.skipped then "::" + Colons(w.tail) else ""
  }

  function AddressOf(w: Written): (a: seq<Word>)
    requires Possible(w)
    ensures |a| == 8
  {
    WordsOf(w.head) + if w.skipped then Zeros(8 - |w.head| - |w.tail|) + WordsOf(w.tail) else []
  }

  /** The text is that of an address with these words. */
  ghost predicate Denotes(t: string, words: seq<Word>) {
    exists w :: Possible(w) && t == TextOf(w) && words == AddressOf(w)
  }

  /** Without an embedded IPv4 address and without a number that starts with 0x. */
  predicate Plain(s: string) {
    forall i :: 0 <= i < |s| ==> s[i] !in ".xX"
  }

  // ----- what has been consumed

  function Start(head: seq<string>): nat {
    if head == [] then 2 else |head|
  }

  function Front0(head: seq<string>): seq<Word>
    requires Components(head)
  {
    if head == [] then [0, 0] else WordsOf(head)
  }

  ghost predicate Consumed(s: string, st: State, head: seq<string>, tail: seq<string>) {
    && Sound(s, st) && Components(head) && Components(tail)
    && (st.last == Number ==> !IsDigit(At(s, st.p), 16)) && (st.last == Colon ==> st.n < 8)
    && s[..st.p] == TextOf(Written(head, st.startSkip != -1, tail)) + (if st.last == Colon then ":" else "")
    && if st.startSkip == -1
       then tail == [] && st.n == |head| && st.words[..st.n] == WordsOf(head) && st.last != DoubleColon
            && (st.last == None <==> head == [])
       else st.startSkip == Start(head) && st.parts == |tail| && st.words[..st.startSkip] == Front0(head)
            && st.words[st.startSkip..st.n] == WordsOf(tail) && st.last != None
            && (st.last == DoubleColon <==> tail == [])
  }

  lemma FrontGrows(s: string, p: nat, q: nat, t: string, u: string)
    requires p <= q <= |s| && s[..p] == t && s[p..q] == u
    ensures s[..q] == t + u
  {
  }

  lemma ColonConsumed(s: string, st: State, head: seq<string>, tail: seq<string>)
    requires Consumed(s, st, head, tail) && st.last == Number && At(s, st.p) == ':' && st.n < 8
    ensures Consumed(s, WithColon(st), head, tail)
  {
    FrontGrows(s, st.p, st.p + 1, TextOf(Written(head, st.startSkip != -1, tail)), ":");
  }

  lemma DoubleConsumed(s: string, st: State, head: seq<string>, tail: seq<string>)
    requires Consumed(s, st, head, tail) && st.last != Colon && st.startSkip == -1 && st.n < 8
    requires At(s, st.p) == ':' && At(s, st.p + 1) == ':'
    ensures Consumed(s, WithDoubleColon(st), head, [])
  {
    var r := WithDoubleColon(st);
    FrontGrows(s, st.p, st.p + 2, Colons(head), "::");
    assert s[..r.p] == TextOf(Written(head, true, [])) + "" by {
      assert Colons([]) == "" && Colons(head) + "::" == Colons(head) + ("::" + "");
    }
    assert r.words[..r.startSkip] == Front0(head);
    assert r.words[r.startSkip..r.n] == WordsOf([]);
  }

  lemma OneMoreColon(cs: seq<string>, c: string)
    ensures Colons(cs + [c]) == if cs == [] then c else Colons(cs) + ":" + c
  {
    var all := cs + [c];
    assert all[..|all| - 1] == cs;
  }

  lemma OneMoreWord(cs: seq<string>, c: string)
    requires Components(cs) && IsComponent(c)
    ensures Components(cs + [c]) && WordsOf(cs + [c]) == WordsOf(cs) + [WordOf(c)]
  {
    var all := cs + [c];
    assert all[..|all| - 1] == cs;
  }

  lemma {:induction false} ValueOfSlice(s: string, p: nat, n: nat, c: string, k: nat, acc: int)
    requires p + n <= |s| && c == s[p..p + n] && k <= n
    ensures Value(s, p + k, n - k, 16, acc) == Value(c, k, n - k, 16, acc)
    decreases n - k
  {
    if k < n { ValueOfSlice(s, p, n, c, k + 1, acc * 16 + DigitValue(c[k], 16)); }
  }

  /** The component at the position. */
  lemma ComponentHere(s: string, p: nat, len: nat)
    requires p <= |s| && len == DigitRun(s, p, 16) && 1 <= len <= 4
    ensures p + len <= |s| && IsComponent(s[p..p + len]) && !IsDigit(At(s, p + len), 16)
    ensures Value(s, p, len, 16, 0) % 0x10000 == WordOf(s[p..p + len])
  {
    RunDigits(s, p, 16);
    var c := s[p..p + len];
    ValueOfSlice(s, p, len, c, 0, 0);
    ComponentFits(c);
  }

  lemma WordConsumed(s: string, st: State, head: seq<string>, tail: seq<string>, len: nat, r: State)
    returns (head': seq<string>, tail': seq<string>)
    requires Consumed(s, st, head, tail) && st.n < 8 && len == DigitRun(s, st.p, 16) && 1 <= len <= 4
    requires r == WithWord(st, st.p + len, Value(s, st.p, len, 16, 0) % 0x10000)
    ensures Consumed(s, r, head', tail')
  {
    var c := s[st.p..st.p + len];
    ComponentHere(s, st.p, len);
    if st.startSkip == -1 {
      head', tail' := head + [c], [];
      HeadConsumed(s, st, head, c, r);
    } else {
      head', tail' := head, tail + [c];
      TailConsumed(s, st, head, tail, c, r);
    }
  }

  /** A component stands at the position, and no digit behind it. */
  ghost predicate Stands(s: string, p: nat, c: string) {
    p + |c| <= |s| && s[p..p + |c|] == c && IsComponent(c) && !IsDigit(At(s, p + |c|), 16)
  }

  lemma NotNumber(s: string, st: State, head: seq<string>, tail: seq<string>, c: string)
    requires Consumed(s, st, head, tail) && Stands(s, st.p, c)
    ensures st.last != Number && (st.last == Colon <==> if st.startSkip == -1 then head != [] else tail != [])
  {
    assert s[st.p] == c[0];
  }

  lemma HeadConsumed(s: string, st: State, head: seq<string>, c: string, r: State)
    requires Consumed(s, st, head, []) && st.n < 8 && st.startSkip == -1 && Stands(s, st.p, c)
    requires r == WithWord(st, st.p + |c|, WordOf(c))
    ensures Consumed(s, r, head + [c], [])
  {
    NotNumber(s, st, head, [], c);
    OneMoreWord(head, c);
    HeadText(s, st.p, r.p, head, c, st.last == Colon);
    assert r.words[..r.n] == st.words[..st.n] + [WordOf(c)];
  }

  lemma TailConsumed(s: string, st: State, head: seq<string>, tail: seq<string>, c: string, r: State)
    requires Consumed(s, st, head, tail) && st.n < 8 && st.startSkip != -1 && Stands(s, st.p, c)
    requires r == WithWord(st, st.p + |c|, WordOf(c))
    ensures Consumed(s, r, head, tail + [c])
  {
    NotNumber(s, st, head, tail, c);
    OneMoreWord(tail, c);
    TailText(s, st.p, r.p, head, tail, c, st.last == Colon);
    assert r.words[..st.startSkip] == st.words[..st.startSkip];
    assert r.words[st.startSkip..r.n] == st.words[st.startSkip..st.n] + [WordOf(c)];
  }

  lemma HeadText(s: string, p: nat, q: nat, head: seq<string>, c: string, colon: bool)
    requires p <= q <= |s| && s[p..q] == c && (colon <==> head != [])
    requires s[..p] == TextOf(Written(head, false, [])) + (if colon then ":" else "")
    ensures s[..q] == TextOf(Written(head + [c], false, []))
  {
    OneMoreColon(head, c);
    FrontGrows(s, p, q, s[..p], c);
  }

  lemma TailText(s: string, p: nat, q: nat, head: seq<string>, tail: seq<string>, c: string, colon: bool)
    requires p <= q <= |s| && s[p..q] == c && (colon <==> tail != [])
    requires s[..p] == TextOf(Written(head, true, tail)) + (if colon then ":" else "")
    ensures s[..q] == TextOf(Written(head, true, tail + [c]))
  {
    OneMoreColon(tail, c);
    FrontGrows(s, p, q, s[..p], c);
  }

  /** Make room for the words that the double colon stands for (rtl/network.c:935-941). */
  function Expanded(st: State): seq<Word>
    requires |st.words| == 8 && 0 <= st.startSkip && st.startSkip + st.parts <= 8
  {
    st.words[..st.startSkip] + Zeros(8 - st.startSkip - st.parts) + st.words[st.startSkip..st.startSkip + st.parts]
  }

  /** A text with a double colon is done. */
  lemma SkippedDone(s: string, st: State, head: seq<string>, tail: seq<string>)
    requires Consumed(s, st, head, tail) && st.startSkip != -1 && st.last != Colon
    ensures Denotes(s[..st.p], Expanded(st))
  {
    var w := Written(head, true, tail);
    assert Possible(w) && s[..st.p] == TextOf(w);
    assert Expanded(st) == AddressOf(w);
  }

  /** Eight words are done. */
  lemma EightDone(s: string, st: State, head: seq<string>, tail: seq<string>)
    requires Consumed(s, st, head, tail) && st.startSkip == -1 && st.n == 8
    ensures Denotes(s[..st.p], st.words)
  {
    var w := Written(head, false, []);
    assert Possible(w) && s[..st.p] == TextOf(w);
    assert st.words[..8] == st.words == AddressOf(w);
  }
}
