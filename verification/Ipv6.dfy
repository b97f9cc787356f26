/** Printing IPv6 addresses in the layout that suits them (rtl/network.c:559-662). */
module Ipv6 {
  import opened Ipv6Text
  import opened Ipv6Layout

  // A string is the characters before its NUL.

  // ----- printing

  /** What is left to print when n words have been dealt with. */
  ghost function ToPrint(a: seq<Word>, n: nat, skipOnce: bool): string
    requires |a| == 8 && !Mapped(a) && n <= Parts(a)
    requires skipOnce ==> n <= |LayoutOf(a).head|
    requires !skipOnce ==> LayoutOf(a).skipped && Parts(a) - |LayoutOf(a).tail| <= n
  {
    var l := LayoutOf(a);
    if skipOnce then if n == 0 then Text(l) else AfterHead(l, n)
    else
      var k := n - (Parts(a) - |l.tail|);
      if k > 0 then AfterTail(l, k) else if l.tail == [] then "" else ":" + BeforeTail(l, 0)
  }

  lemma Join(a: string, b: string, c: string)
    ensures a + b + c == a + (b + c)
  {
  }

  /** One more word is printed, before the zeros left out or without any. */
  lemma PrintHead(a: seq<Word>, n: nat, s: string, s': string)
    requires |a| == 8 && !Mapped(a) && n < ZeroStart(a, Parts(a), 0)
    requires s' == s + (if n != 0 then ":" else "") + NumText(a[n], 16)
    ensures n < |LayoutOf(a).head|
    ensures s' + ToPrint(a, n + 1, true) == s + ToPrint(a, n, true)
  {
    var l := LayoutOf(a);
    var colon, t, rest := if n != 0 then ":" else "", NumText(a[n], 16), AfterHead(l, n + 1);
    assert l.head[n] == a[n];
    assert BeforeHead(l, n) == t + rest;
    assert ToPrint(a, n, true) == colon + (t + rest);
    Join(colon, t, rest);
    Join(s, colon, t);
    Join(s, colon + t, rest);
  }

  /** One more word is printed after the zeros left out. */
  lemma PrintTail(a: seq<Word>, n: nat, s: string, s': string)
    requires |a| == 8 && !Mapped(a) && 0 < n < Parts(a)
    requires LayoutOf(a).skipped && Parts(a) - |LayoutOf(a).tail| <= n
    requires s' == s + ":" + NumText(a[n], 16)
    ensures s' + ToPrint(a, n + 1, false) == s + ToPrint(a, n, false)
  {
    var l := LayoutOf(a);
    var k := n - (Parts(a) - |l.tail|);
    var t, rest := NumText(a[n], 16), AfterTail(l, k + 1);
    assert l.tail[k] == a[n];
    assert BeforeTail(l, k) == t + rest;
    assert ToPrint(a, n, false) == ":" + (t + rest);
    Join(":", t, rest);
    Join(s, ":", t);
    Join(s, ":" + t, rest);
  }

  /** The first run of zero words is left out. */
  lemma PrintSkip(a: seq<Word>, n: nat, m: nat, s: string, s': string)
    requires |a| == 8 && !Mapped(a) && n == ZeroStart(a, Parts(a), 0) < Parts(a) && m == ZeroEnd(a, Parts(a), n)
    requires s' == if m == Parts(a) then s + ":" + ":" else s + ":"
    ensures n == |LayoutOf(a).head| && LayoutOf(a).skipped && Parts(a) - |LayoutOf(a).tail| == m && m > 0
    ensures s' + ToPrint(a, m, false) == s + ToPrint(a, n, true)
  {
    var l := LayoutOf(a);
    assert ZeroEnd(a, Parts(a), n) == ZeroEnd(a, Parts(a), n + 1);
    assert |l.tail| == Parts(a) - m;
    assert ToPrint(a, n, true) == "::" + BeforeTail(l, 0);
    if m == Parts(a) {
      assert !l.dotted && BeforeTail(l, 0) == "";
    } else {
      assert "::" + BeforeTail(l, 0) == ":" + (":" + BeforeTail(l, 0));
    }
  }

  /** The printed forms with an embedded IPv4 address. */
  lemma MappedText(a: seq<Word>)
    requires |a| == 8 && Mapped(a)
    ensures Text(LayoutOf(a))
        == "::" + (if a[4] != 0 then "ffff:0:" else if a[5] != 0 then "ffff:" else "") + DottedText(a[6], a[7])
  {
    var l, d := LayoutOf(a), DottedText(a[6], a[7]);
    FfffText();
    if |l.tail| == 2 { TailOfTwo(l, d); } else if |l.tail| == 1 { TailOfOne(l, d); }
    assert Text(l) == "::" + BeforeTail(l, 0);
    if |l.tail| == 2 { Join("::", "ffff:0:", d); } else if |l.tail| == 1 { Join("::", "ffff:", d); }
  }

  lemma TailOfOne(l: Layout, d: string)
    requires l.tail == [0xffff] && l.dotted && d == DottedText(l.w6, l.w7) && NumText(0xffff, 16) == "ffff"
    ensures BeforeTail(l, 0) == "ffff:" + d
  {
    assert AfterTail(l, 1) == ":" + d;
    Join("ffff", ":", d);
  }

  lemma TailOfTwo(l: Layout, d: string)
    requires l.tail == [0xffff, 0] && l.dotted && d == DottedText(l.w6, l.w7) && NumText(0xffff, 16) == "ffff"
    ensures BeforeTail(l, 0) == "ffff:0:" + d
  {
    assert NumText(0, 16) == "0";
    TwoWords(l, d);
    Colons("ffff", "0", d);
    FfffZero();
  }

  lemma FfffZero()
    ensures "ffff" + ":" + "0" + ":" == "ffff:0:"
  {
  }

  lemma TwoWords(l: Layout, d: string)
    requires |l.tail| == 2 && l.dotted && d == DottedText(l.w6, l.w7)
    ensures BeforeTail(l, 0) == NumText(l.tail[0], 16) + (":" + (NumText(l.tail[1], 16) + (":" + d)))
  {
    assert AfterTail(l, 2) == ":" + d;
    assert BeforeTail(l, 1) == NumText(l.tail[1], 16) + (":" + d);
  }

  lemma Colons(f: string, z: string, d: string)
    ensures f + (":" + (z + (":" + d))) == f + ":" + z + ":" + d
  {
  }

  /** Where the zeros that start at n end (rtl/network.c:612-613). */
  method SkipZeros(a: seq<Word>, parts: nat, start: nat) returns (n: nat)
    requires parts <= |a| && start < parts && a[start] == 0
    ensures n < parts && n + 1 == ZeroEnd(a, parts, start)
  {
    n := start;
    while n + 1 < parts && a[n + 1] == 0
      invariant start <= n < parts && a[n] == 0 && ZeroEnd(a, parts, n) == ZeroEnd(a, parts, start)
      decreases parts - n
    {
      n := n + 1;
    }
    assert ZeroEnd(a, parts, n) == ZeroEnd(a, parts, n + 1);
  }

  /** Does this word start the zeros to be left out? */
  lemma StartsZeros(a: seq<Word>, n: nat)
    requires |a| == 8 && n < Parts(a) && ZeroStart(a, Parts(a), n) == ZeroStart(a, Parts(a), 0)
    ensures
      var zeros, start := n + 1 < Parts(a) && a[n] == 0 && a[n + 1] == 0, ZeroStart(a, Parts(a), 0);
      if zeros then n == start else n < start && ZeroStart(a, Parts(a), n + 1) == start
  {
  }

  /** The words up to ISATAP's dotted tail, or all of them (rtl/network.c:607-645). */
  method PrintWords(a: seq<Word>, parts: nat) returns (s: string)
    requires |a| == 8 && parts == Parts(a) && !Mapped(a)
    ensures s + (if parts < 8 then ":" + DottedText(a[6], a[7]) else "") == Text(LayoutOf(a))
  {
    ghost var l := LayoutOf(a);
    var n, skipOnce := 0, true;
    s := "";
    while n < parts
      invariant Printing(a, n, skipOnce)
      invariant s + ToPrint(a, n, skipOnce) == Text(l)
      decreases parts - n
    {
      n, skipOnce, s := PrintNext(a, parts, n, skipOnce, s);
    }
    PrintedAll(a, n, skipOnce);
  }

  /** One round of the loop: a word, or the zeros that are left out (rtl/network.c:609-644). */
  method PrintNext(a: seq<Word>, parts: nat, n0: nat, skipOnce0: bool, s0: string)
      returns (n: nat, skipOnce: bool, s: string)
    requires |a| == 8 && parts == Parts(a) && !Mapped(a) && n0 < parts && Printing(a, n0, skipOnce0)
    ensures n0 < n <= parts && Printing(a, n, skipOnce) && s + ToPrint(a, n, skipOnce) == s0 + ToPrint(a, n0, skipOnce0)
  {
    n, skipOnce, s := n0, skipOnce0, s0;
    if skipOnce { StartsZeros(a, n); }
    if skipOnce && n + 1 < parts && a[n] == 0 && a[n + 1] == 0 {
      skipOnce := false;
      n := SkipZeros(a, parts, n);
      s := s + ":";
      if n + 1 >= parts {
        s := s + ":";
      }
      n := n + 1;
      PrintSkip(a, n0, n, s0, s);
    } else {
      if n != 0 {
        s := s + ":";
      }
      s := s + NumText(a[n], 16);
      if skipOnce { PrintHead(a, n, s0, s); } else { PrintTail(a, n, s0, s); }
      n := n + 1;
    }
  }

  /** Where the printer stands: before the zeros to be left out, or behind them. */
  ghost predicate Printing(a: seq<Word>, n: nat, skipOnce: bool)
    requires |a| == 8 && !Mapped(a)
  {
    var l := LayoutOf(a);
    && n <= Parts(a)
    && (if skipOnce then n <= |l.head| && ZeroStart(a, Parts(a), n) == ZeroStart(a, Parts(a), 0)
        else l.skipped && Parts(a) - |l.tail| <= n && n > 0)
  }

  lemma PrintedAll(a: seq<Word>, n: nat, skipOnce: bool)
    requires |a| == 8 && !Mapped(a) && n == Parts(a)
    requires skipOnce ==> n <= |LayoutOf(a).head|
    requires !skipOnce ==> LayoutOf(a).skipped && Parts(a) - |LayoutOf(a).tail| <= n
    ensures ToPrint(a, n, skipOnce) == if n < 8 then ":" + DottedText(a[6], a[7]) else ""
  {
    var l := LayoutOf(a);
    if !skipOnce {
      assert BeforeTail(l, |l.tail|) == if l.dotted then DottedText(a[6], a[7]) else "";
      if l.tail == [] {
        assert a[Parts(a) - 1] == 0;
      }
    }
  }

  /** RtlIpv6AddressToStringW (rtl/network.c:559-662), with the bound of the word index tested before the
      word is read (rtl/network.c:612). */
  method Print(a: seq<Word>) returns (s: string)
    requires |a| == 8
    ensures s == Text(LayoutOf(a)) && IsText(a, s)
    ensures '.' in s <==> EmbedsIpv4(a) || IsIsatap(a)
    ensures HasDoubleColon(s) <==> EmbedsIpv4(a) || exists i :: ZeroPair(a, i)
  {
    ghost var l := LayoutOf(a);
    ChosenText(a);
    DotExactly(a, Text(l));
    DoubleColonExactly(a, Text(l));
    // does it look like an ipv4 address contained in an ipv6?
    if a[0] == 0 && a[1] == 0 && a[2] == 0 && a[3] == 0 && a[6] != 0 {
      if Mapped(a) { MappedText(a); }
      if a[4] == 0xffff && a[5] == 0 {
        return "::" + "ffff:0:" + DottedText(a[6], a[7]);
      } else if a[4] == 0 && a[5] == 0xffff {
        return "::" + "ffff:" + DottedText(a[6], a[7]);
      } else if a[4] == 0 && a[5] == 0 {
        return "::" + DottedText(a[6], a[7]);
      }
    }
    // does it look like an ISATAP address?
    var parts := if (a[4] == 0 || a[4] == 0x0200) && a[5] == 0x5efe then 6 else 8;
    s := PrintWords(a, parts);
    if parts < 8 {
      s := s + (":" + DottedText(a[6], a[7]));
    }
  }
}
