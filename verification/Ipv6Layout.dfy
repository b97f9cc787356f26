/** IPv6 text (rtl/network.c:559-662). */
module Ipv6Layout {
  import opened Ipv6Text

  // What a printed address looks like, said of its words and its text alone.

  /** An IPv4 address in an IPv6 one: compatible, mapped or translated, and not below 0.1.0.0. */
  predicate EmbedsIpv4(a: seq<Word>)
    requires |a| == 8
  {
    a[..6] in {[0, 0, 0, 0, 0, 0], [0, 0, 0, 0, 0, 0xffff], [0, 0, 0, 0, 0xffff, 0]} && a[6] != 0
  }

  /** Section 6.1 of RFC 5214, universal or local. */
  predicate IsIsatap(a: seq<Word>)
    requires |a| == 8
  {
    a[4..6] in {[0, 0x5efe], [0x200, 0x5efe]}
  }

  /** How many words are candidates for hexadecimal: the last two of an ISATAP address are printed as a quad. */
  function HexWords(a: seq<Word>): nat
    requires |a| == 8
  {
    if IsIsatap(a) then 6 else 8
  }

  predicate ZeroPair(a: seq<Word>, i: int)
    requires |a| == 8
  {
    0 <= i && i + 1 < HexWords(a) && a[i] == 0 && a[i + 1] == 0
  }

  /** Words n up to m are the first run of at least two zeros, whole. */
  predicate FirstRun(a: seq<Word>, n: nat, m: nat)
    requires |a| == 8
  {
    && ZeroPair(a, n) && (forall i :: 0 <= i < n ==> !ZeroPair(a, i))
    && n < m <= HexWords(a) && (forall i :: n <= i < m ==> a[i] == 0) && (m < HexWords(a) ==> a[m] != 0)
  }

  /** Words in hexadecimal, with colons between them. */
  function Joined(ws: seq<Word>): string {
    if ws == [] then ""
    else if |ws| == 1 then NumText(ws[0], 16)
    else NumText(ws[0], 16) + ":" + Joined(ws[1..])
  }

  function Quad(a: seq<Word>): string
    requires |a| == 8
  {
    DottedText(a[6], a[7])
  }

  /** The dotted end of an ISATAP address. */
  function IsatapEnd(a: seq<Word>, colon: bool): string
    requires |a| == 8
  {
    if IsIsatap(a) then (if colon then ":" else "") + Quad(a) else ""
  }

  /** The text that the printer has to produce. */
  ghost predicate IsText(a: seq<Word>, s: string)
    requires |a| == 8
  {
    && (EmbedsIpv4(a) ==> s == "::" + (if a[4] != 0 then "ffff:0:" else if a[5] != 0 then "ffff:" else "") + Quad(a))
    && (!EmbedsIpv4(a) && (forall i :: !ZeroPair(a, i)) ==> s == Joined(a[..HexWords(a)]) + IsatapEnd(a, true))
    && (!EmbedsIpv4(a) ==> forall n: nat, m: nat :: FirstRun(a, n, m) ==>
         s == Joined(a[..n]) + "::" + Joined(a[m..HexWords(a)]) + IsatapEnd(a, m < 6))
  }

  predicate DoubleColonAt(s: string, i: int) {
    0 <= i && i + 1 < |s| && s[i] == ':' && s[i + 1] == ':'
  }

  ghost predicate HasDoubleColon(s: string) {
    exists i :: DoubleColonAt(s, i)
  }

  // ----- the chosen layout is that text

  lemma SameWords(a: seq<Word>)
    requires |a| == 8
    ensures Mapped(a) <==> EmbedsIpv4(a)
    ensures Isatap(a) <==> IsIsatap(a)
    ensures Parts(a) == HexWords(a)
  {
    assert a[..6] == [a[0], a[1], a[2], a[3], a[4], a[5]] && a[4..6] == [a[4], a[5]];
  }

  lemma {:induction false} StartIs(a: seq<Word>, k: nat, n: nat)
    requires |a| == 8 && k <= n && ZeroPair(a, n) && forall i :: 0 <= i < n ==> !ZeroPair(a, i)
    ensures Parts(a) == HexWords(a) && ZeroStart(a, Parts(a), k) == n
    decreases n - k
  {
    SameWords(a);
    if k < n {
      assert !ZeroPair(a, k);
      StartIs(a, k + 1, n);
    }
  }

  lemma {:induction false} NoStart(a: seq<Word>, k: nat)
    requires |a| == 8 && k <= HexWords(a) && forall i :: !ZeroPair(a, i)
    ensures Parts(a) == HexWords(a) && ZeroStart(a, Parts(a), k) == HexWords(a)
    decreases HexWords(a) - k
  {
    SameWords(a);
    if k + 1 < HexWords(a) {
      assert !ZeroPair(a, k);
      NoStart(a, k + 1);
    }
  }

  lemma {:induction false} EndIs(a: seq<Word>, parts: nat, n: nat, m: nat)
    requires n <= m <= parts <= |a| && (forall i :: n <= i < m ==> a[i] == 0) && (m < parts ==> a[m] != 0)
    ensures ZeroEnd(a, parts, n) == m
    decreases m - n
  {
    if n < m { EndIs(a, parts, n + 1, m); }
  }

  lemma {:induction false} TailText(l: Layout, k: nat)
    requires k <= |l.tail|
    ensures BeforeTail(l, k)
         == Joined(l.tail[k..]) + if l.dotted then (if k < |l.tail| then ":" else "") + DottedText(l.w6, l.w7) else ""
    decreases |l.tail| - k
  {
    if k < |l.tail| {
      TailText(l, k + 1);
      assert l.tail[k..][1..] == l.tail[k + 1..];
    }
  }

  lemma {:induction false} HeadText(l: Layout, i: nat)
    requires i < |l.head|
    ensures BeforeHead(l, i) == Joined(l.head[i..]) + AfterHead(l, |l.head|)
    decreases |l.head| - i
  {
    assert l.head[i..][1..] == l.head[i + 1..];
    if i + 1 < |l.head| { HeadText(l, i + 1); }
  }

  lemma WholeText(l: Layout)
    ensures Text(l) == Joined(l.head) + AfterHead(l, |l.head|)
  {
    if l.head != [] {
      HeadText(l, 0);
      assert l.head[0..] == l.head;
    }
  }

  /** The first run of zeros is left out. */
  lemma RunText(a: seq<Word>, n: nat, m: nat)
    requires |a| == 8 && !EmbedsIpv4(a) && FirstRun(a, n, m)
    ensures Text(LayoutOf(a)) == Joined(a[..n]) + "::" + Joined(a[m..HexWords(a)]) + IsatapEnd(a, m < 6)
  {
    var parts, l := HexWords(a), LayoutOf(a);
    SameWords(a);
    StartIs(a, 0, n);
    EndIs(a, parts, n, m);
    assert l == Layout(a[..n], true, a[m..parts], parts == 6, a[6], a[7]);
    SkippedText(l);
  }

  lemma SkippedText(l: Layout)
    requires l.skipped
    ensures Text(l) == Joined(l.head) + "::" + Joined(l.tail)
                       + if l.dotted then (if l.tail != [] then ":" else "") + DottedText(l.w6, l.w7) else ""
  {
    var h, t := Joined(l.head), Joined(l.tail);
    var end := if l.dotted then (if l.tail != [] then ":" else "") + DottedText(l.w6, l.w7) else "";
    WholeText(l);
    assert BeforeTail(l, 0) == t + end by {
      TailText(l, 0);
      assert l.tail[0..] == l.tail;
    }
    assert AfterHead(l, |l.head|) == "::" + BeforeTail(l, 0);
    Glue(h, t, end);
  }

  lemma Glue(a: string, b: string, c: string)
    ensures a + ("::" + (b + c)) == a + "::" + b + c
  {
  }

  lemma PlainText(a: seq<Word>)
    requires |a| == 8 && !EmbedsIpv4(a) && forall i :: !ZeroPair(a, i)
    ensures Text(LayoutOf(a)) == Joined(a[..HexWords(a)]) + IsatapEnd(a, true)
  {
    SameWords(a);
    NoStart(a, 0);
    WholeText(LayoutOf(a));
  }

  lemma EmbeddedText(a: seq<Word>)
    requires |a| == 8 && EmbedsIpv4(a)
    ensures Text(LayoutOf(a)) == "::" + (if a[4] != 0 then "ffff:0:" else if a[5] != 0 then "ffff:" else "") + Quad(a)
  {
    SameWords(a);
    var l := LayoutOf(a);
    var prefix, colon := if a[4] != 0 then "ffff:0:" else if a[5] != 0 then "ffff:" else "",
        if l.tail != [] then ":" else "";
    SkippedText(l);
    assert Joined(l.tail) + colon == prefix by { JoinedFfff(); }
    GlueQuad(Joined(l.tail), colon, Quad(a), prefix);
  }

  lemma GlueQuad(t: string, colon: string, quad: string, prefix: string)
    requires t + colon == prefix
    ensures "" + "::" + t + (colon + quad) == "::" + prefix + quad
  {
  }

  lemma FfffText()
    ensures NumText(0xffff, 16) == "ffff" && NumText(0, 16) == "0"
  {
    assert NumText(0xf, 16) == "f";
    assert NumText(0xff, 16) == "ff";
    assert NumText(0xfff, 16) == "fff";
  }

  lemma JoinedFfff()
    ensures Joined([0xffff]) == "ffff" && Joined([0xffff, 0]) == "ffff:0" && Joined([]) == ""
  {
    FfffText();
    var two: seq<Word> := [0xffff, 0];
    assert two[1..] == [0];
    assert "ffff" + ":" + "0" == "ffff:0";
  }

  /** The layout chosen has the text it should have. */
  lemma ChosenText(a: seq<Word>)
    requires |a| == 8
    ensures IsText(a, Text(LayoutOf(a)))
  {
    if EmbedsIpv4(a) {
      EmbeddedText(a);
    } else {
      if forall i :: !ZeroPair(a, i) { PlainText(a); }
      forall n: nat, m: nat | FirstRun(a, n, m)
        ensures Text(LayoutOf(a)) == Joined(a[..n]) + "::" + Joined(a[m..HexWords(a)]) + IsatapEnd(a, m < 6)
      {
        RunText(a, n, m);
      }
    }
  }

  // ----- dots and double colons

  predicate IsHexDigit(c: char) {
    '0' <= c <= '9' || 'a' <= c <= 'f'
  }

  /** Numbers are printed with small letters. */
  lemma {:induction false} NumChars(v: int, base: int)
    requires v >= 0 && base in {10, 16}
    ensures forall i :: 0 <= i < |NumText(v, base)| ==>
              IsHexDigit(NumText(v, base)[i]) && (base == 10 ==> '0' <= NumText(v, base)[i] <= '9')
    decreases v
  {
    if v >= base {
      Division(v, base);
      NumChars(v / base, base);
    }
  }

  /** No dot, no two colons in a row, and no colon at either end. */
  ghost predicate Neat(s: string) {
    && '.' !in s && !HasDoubleColon(s) && (s != [] ==> s[0] != ':' && s[|s| - 1] != ':')
  }

  lemma NeatWord(w: Word)
    ensures Neat(NumText(w, 16)) && NumText(w, 16) != []
  {
    NumChars(w, 16);
  }

  lemma NeatTwo(s: string, t: string)
    requires Neat(s) && Neat(t) && s != [] && t != []
    ensures Neat(s + ":" + t)
  {
    var u := s + ":" + t;
    forall i ensures !DoubleColonAt(u, i) {
      assert !DoubleColonAt(s, i) && !DoubleColonAt(t, i - |s| - 1);
    }
  }

  lemma {:induction false} NeatJoined(ws: seq<Word>)
    ensures Neat(Joined(ws)) && (Joined(ws) == [] <==> ws == [])
    decreases |ws|
  {
    if ws != [] {
      NeatWord(ws[0]);
      if |ws| > 1 {
        NeatJoined(ws[1..]);
        NeatTwo(NumText(ws[0], 16), Joined(ws[1..]));
      }
    }
  }

  lemma QuadChars(a: seq<Word>)
    requires |a| == 8
    ensures '.' in Quad(a) && ':' !in Quad(a) && Quad(a) != []
  {
    NumChars(a[6] / 256, 10);
    NumChars(a[6] % 256, 10);
    NumChars(a[7] / 256, 10);
    NumChars(a[7] % 256, 10);
    var t := NumText(a[6] / 256, 10);
    assert Quad(a)[|t|] == '.';
  }

  /** There is a first run of zeros if there is any. */
  lemma HasFirstRun(a: seq<Word>) returns (n: nat, m: nat)
    requires |a| == 8 && exists i :: ZeroPair(a, i)
    ensures FirstRun(a, n, m)
  {
    SameWords(a);
    n := 0;
    while !ZeroPair(a, n)
      invariant forall i :: 0 <= i < n ==> !ZeroPair(a, i)
      decreases 8 - n
    {
      n := n + 1;
    }
    m := n;
    while m < HexWords(a) && a[m] == 0
      invariant n <= m <= HexWords(a) && forall i :: n <= i < m ==> a[i] == 0
    {
      m := m + 1;
    }
  }

  /** There is one such text. */
  lemma OneText(a: seq<Word>, s: string, t: string)
    requires |a| == 8 && IsText(a, s) && IsText(a, t)
    ensures s == t
  {
    if exists i :: ZeroPair(a, i) {
      var n, m := HasFirstRun(a);
    }
  }

  /** Dots are printed exactly for embedded IPv4 addresses and for ISATAP ones. */
  lemma DotExactly(a: seq<Word>, s: string)
    requires |a| == 8 && IsText(a, s)
    ensures '.' in s <==> EmbedsIpv4(a) || IsIsatap(a)
  {
    QuadChars(a);
    if EmbedsIpv4(a) {
      assert '.' in s;
    } else if exists i :: ZeroPair(a, i) {
      var n, m := HasFirstRun(a);
      NeatJoined(a[..n]);
      NeatJoined(a[m..HexWords(a)]);
    } else {
      NeatJoined(a[..HexWords(a)]);
    }
  }

  /** A double colon is printed exactly for embedded IPv4 addresses and where two zero words stand in a row among those
      printed in hexadecimal. */
  lemma DoubleColonExactly(a: seq<Word>, s: string)
    requires |a| == 8 && IsText(a, s)
    ensures HasDoubleColon(s) <==> EmbedsIpv4(a) || exists i :: ZeroPair(a, i)
  {
    if EmbedsIpv4(a) {
      assert DoubleColonAt(s, 0);
    } else if exists i :: ZeroPair(a, i) {
      var n, m := HasFirstRun(a);
      assert DoubleColonAt(s, |Joined(a[..n])|);
    } else {
      var t := Joined(a[..HexWords(a)]);
      NeatJoined(a[..HexWords(a)]);
      QuadChars(a);
      forall i ensures !DoubleColonAt(s, i) {
        assert !DoubleColonAt(t, i);
      }
    }
  }
}
