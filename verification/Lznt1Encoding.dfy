/** Encoders for LZNT1. */
module Lznt1Encoding {
  import opened Lznt1
  import opened Lznt1Stream

  // They follow the description of the format in section 2.5 of [MS-XCA], and serve to say what the decoder makes
  // of what they write.

  // ----- the entities of a chunk

  /** How far back a reference can reach when n bytes have been produced: the least power of two that covers them,
      from 16 up to 4096. The rest of its 16 bits are for the length. */
  function Window(n: int): int {
    if n <= 16 then 16 else if n <= 32 then 32 else if n <= 64 then 64 else if n <= 128 then 128
    else if n <= 256 then 256 else if n <= 512 then 512 else if n <= 1024 then 1024 else if n <= 2048 then 2048
    else 4096
  }

  function Lengths(n: int): int {
    0x10000 / Window(n)
  }

  /** The number of bytes an entity stands for. */
  function Size(t: Token): int {
    if t.Literal? then 1 else t.length
  }

  function Produced(tokens: seq<Token>): int {
    if tokens == [] then 0 else Size(tokens[0]) + Produced(tokens[1..])
  }

  predicate InRange(d: int, l: int, n: int) {
    0 < d <= Window(n) && 3 <= l < 3 + Lengths(n)
  }

  /** The reference stays inside what has been produced, and its distance and its length can be expressed. */
  predicate Expressible(t: Token, n: int) {
    t.Copy? ==> t.displacement <= n && InRange(t.displacement, t.length, n)
  }

  predicate Encodable(tokens: seq<Token>, n: int) {
    tokens == [] || (Expressible(tokens[0], n) && Encodable(tokens[1..], n + Size(tokens[0])))
  }

  /** A 16-bit number, low byte first. */
  function LowFirst(word: int): seq<Byte>
    requires 0 <= word < 0x10000
  {
    [word % 256, word / 256]
  }

  /** The bytes of an entity. */
  function Body(t: Token, n: int): (r: seq<Byte>)
    requires Expressible(t, n)
  {
    match t
    case Literal(b) => [b]
    case Copy(d, l) => Reference(d, l, n)
  }

  /** The distance less one above the length less three. */
  function Reference(d: int, l: int, n: int): (r: seq<Byte>)
    requires InRange(d, l, n)
    ensures |r| == 2
  {
    WordFits(d - 1, Window(n), l - 3);
    LowFirst((d - 1) * Lengths(n) + (l - 3))
  }

  function Bodies(tokens: seq<Token>, n: int): seq<Byte>
    requires Encodable(tokens, n)
  {
    if tokens == [] then [] else Body(tokens[0], n) + Bodies(tokens[1..], n + Size(tokens[0]))
  }

  /** One bit for each entity of a group, low bit first, set for a reference. */
  function Flags(group: seq<Token>): (f: int)
    requires |group| <= 8
    ensures 0 <= f < Pow2(|group|)
  {
    if group == [] then 0 else (if group[0].Copy? then 1 else 0) + 2 * Flags(group[1..])
  }

  function FlagByte(group: seq<Token>): Byte
    requires |group| <= 8
  {
    Pow2Least(|group|, 8);
    Flags(group)
  }

  function Group(tokens: seq<Token>): seq<Token> {
    tokens[..Min(8, |tokens|)]
  }

  function Groups(tokens: seq<Token>): seq<Token> {
    tokens[Min(8, |tokens|)..]
  }

  /** A chunk that contains the entities, eight to a flag byte. */
  function Encode(tokens: seq<Token>, n: int): seq<Byte>
    requires Encodable(tokens, n)
    decreases |tokens|
  {
    if tokens == [] then []
    else
      EncodableSplit(tokens, n, Min(8, |tokens|));
      [FlagByte(Group(tokens))] + Bodies(Group(tokens), n) + Encode(Groups(tokens), n + Produced(Group(tokens)))
  }

  lemma WordFits(q: int, window: int, r: int)
    requires window in {16, 32, 64, 128, 256, 512, 1024, 2048, 4096}
    requires 0 <= q < window && 0 <= r < 0x10000 / window
    ensures 0 <= q * (0x10000 / window) + r < 0x10000
  {
    assert q * (0x10000 / window) <= (window - 1) * (0x10000 / window);
  }

  lemma {:induction false} Pow2Least(a: nat, b: nat)
    requires a <= b <= 8
    ensures Pow2(a) <= Pow2(b) <= 256
  {
    assert Pow2(8) == 256 && Pow2(7) == 128 && Pow2(6) == 64 && Pow2(5) == 32 && Pow2(4) == 16;
    assert Pow2(3) == 8 && Pow2(2) == 4;
  }

  lemma {:induction false} EncodableSplit(tokens: seq<Token>, n: int, k: nat)
    requires Encodable(tokens, n) && k <= |tokens|
    ensures Encodable(tokens[..k], n) && Encodable(tokens[k..], n + Produced(tokens[..k]))
    decreases k
  {
    if k > 0 {
      EncodableSplit(tokens[1..], n + Size(tokens[0]), k - 1);
      assert tokens[..k][1..] == tokens[1..][..k - 1] && tokens[1..][k - 1..] == tokens[k..];
    } else {
      assert tokens[..0] == [] && tokens[0..] == tokens;
    }
  }

  // ----- decoding gives them back

  /** The width that the decoder's loop finds is that of the window. */
  lemma WidthIs(n: int)
    ensures Pow2(16 - DisplacementBits(n)) == Lengths(n)
  {
    assert Pow2(4) == 16 && Pow2(5) == 32 && Pow2(6) == 64 && Pow2(7) == 128 && Pow2(8) == 256 && Pow2(9) == 512;
    assert Pow2(10) == 1024 && Pow2(11) == 2048 && Pow2(12) == 4096;
    var w := Window(n);
    assert BitsFrom(4, n) == 4;
    assert BitsFrom(5, n) == if 16 < n then 5 else 4;
    assert BitsFrom(6, n) == if 32 < n then 6 else BitsFrom(5, n);
    assert BitsFrom(7, n) == if 64 < n then 7 else BitsFrom(6, n);
    assert BitsFrom(8, n) == if 128 < n then 8 else BitsFrom(7, n);
    assert BitsFrom(9, n) == if 256 < n then 9 else BitsFrom(8, n);
    assert BitsFrom(10, n) == if 512 < n then 10 else BitsFrom(9, n);
    assert BitsFrom(11, n) == if 1024 < n then 11 else BitsFrom(10, n);
    assert BitsFrom(12, n) == if 2048 < n then 12 else BitsFrom(11, n);
  }

  lemma DivMod(q: int, u: int, r: int)
    requires 0 <= r < u
    ensures (q * u + r) / u == q && (q * u + r) % u == r
  {
    var a := q * u + r;
    var d := q - a / u;
    assert d * u == a % u - r;
    assert d >= 1 ==> d * u >= u;
    assert d <= -1 ==> d * u <= -u;
  }

  lemma CopyBack(src: seq<Byte>, i: nat, d: int, l: int, n: int)
    requires InRange(d, l, n) && i + 2 <= |src| && src[i..i + 2] == Reference(d, l, n)
    ensures CopyAt(src, i, n) == Copy(d, l)
  {
    var q, u, r := d - 1, Lengths(n), l - 3;
    WordFits(q, Window(n), r);
    assert src[i] == src[i..i + 2][0] && src[i + 1] == src[i..i + 2][1];
    assert WordAt(src, i) == q * u + r;
    WidthIs(n);
    DivMod(q, u, r);
  }

  /** The entities, and then what parsing goes on with. */
  function Before(tokens: seq<Token>, rest: Parsed): Parsed {
    rest.(tokens := tokens + rest.tokens)
  }

  /** What stands in src from i on. */
  ghost predicate StandsAt(src: seq<Byte>, i: nat, bytes: seq<Byte>, tail: seq<Byte>) {
    i <= |src| && src[i..] == bytes + tail
  }

  /** The flags of a group: a marker above those still to come. */
  predicate Marked(flags: int, left: nat, g: seq<Token>) {
    |g| <= left <= 8 && flags == 128 * Pow2(left) + Flags(g)
  }

  lemma FlagsNext(flags: int, g: seq<Token>, left: nat)
    requires Marked(flags, left, g) && g != []
    ensures flags / 256 != 0 && flags % 2 == (if g[0].Copy? then 1 else 0) && Marked(flags / 2, left - 1, g[1..])
  {
  }

  /** One entity. */
  lemma EntityParses(src: seq<Byte>, i: nat, flags: int, t: Token, n: int, groupStart: int, next: nat)
    requires Expressible(t, n) && next == i + |Body(t, n)| <= |src| && src[i..next] == Body(t, n)
    requires flags / 256 != 0 && flags % 2 == if t.Copy? then 1 else 0
    ensures ParseGroup(src, i, flags, n, groupStart)
         == Before([t], ParseGroup(src, next, flags / 2, n + Size(t), groupStart))
  {
    if t.Copy? {
      CopyBack(src, i, t.displacement, t.length, n);
      ParseCopy(src, i, flags, n, groupStart, t, n + Size(t));
    } else {
      assert src[i] == src[i..next][0] == t.b;
      ParseLiteral(src, i, flags, n, groupStart);
    }
  }

  lemma BehindIt(src: seq<Byte>, i: nat, a: seq<Byte>, b: seq<Byte>, tail: seq<Byte>)
    requires StandsAt(src, i, a + b, tail)
    ensures |tail| <= |src| && i + |a| <= |src| && src[i..i + |a|] == a && StandsAt(src, i + |a|, b, tail)
    ensures b == [] ==> i + |a| == |src| - |tail|
  {
    assert src[i..] == a + (b + tail);
    assert src[i..i + |a|] == src[i..][..|a|];
    assert src[i + |a|..] == src[i..][|a|..];
  }

  lemma BeforeBoth(a: seq<Token>, b: seq<Token>, all: seq<Token>, rest: Parsed)
    requires a + b == all
    ensures Before(a, Before(b, rest)) == Before(all, rest)
  {
    assert a + (b + rest.tokens) == all + rest.tokens;
  }

  /** After the last entity of a group, the parser goes on with the next group. */
  lemma GroupOver(src: seq<Byte>, i: nat, left: nat, flags: int, n: int, groupStart: int)
    requires i <= |src| && (left == 0 || i == |src|) && Marked(flags, left, [])
    ensures ParseGroup(src, i, flags, n, groupStart) == Before([], Parse(src, i, n))
  {
    assert [] + Parse(src, i, n).tokens == Parse(src, i, n).tokens;
  }

  lemma {:induction false} GroupParses(src: seq<Byte>, i: nat, left: nat, flags: int, g: seq<Token>, n: int,
      groupStart: int, tail: seq<Byte>, m: int, p: Parsed)
    requires Marked(flags, left, g)
    requires Encodable(g, n) && StandsAt(src, i, Bodies(g, n), tail) && m == n + Produced(g)
    requires |g| <= left <= 8 && (|g| == left || tail == [])
    requires |tail| <= |src| && p == Parse(src, |src| - |tail|, m)
    ensures ParseGroup(src, i, flags, n, groupStart) == Before(g, p)
    decreases |g|
  {
    if g == [] {
      BehindIt(src, i, [], [], tail);
      GroupOver(src, i, left, flags, n, groupStart);
    } else {
      var body, rest, n2, half := Body(g[0], n), g[1..], n + Size(g[0]), flags / 2;
      var next, bodies := i + |body|, Bodies(rest, n2);
      assert Bodies(g, n) == body + bodies && m == n2 + Produced(rest);
      BehindIt(src, i, body, bodies, tail);
      FlagsNext(flags, g, left);
      GroupParses(src, next, left - 1, half, rest, n2, groupStart, tail, m, p);
      GroupStep(src, i, flags, g, n, groupStart, next, n2, half, p);
    }
  }

  lemma GroupStep(src: seq<Byte>, i: nat, flags: int, g: seq<Token>, n: int, groupStart: int, next: nat, n2: int,
      half: int, p: Parsed)
    requires g != [] && Expressible(g[0], n) && n2 == n + Size(g[0]) && half == flags / 2
    requires next == i + |Body(g[0], n)| <= |src| && src[i..next] == Body(g[0], n)
    requires flags / 256 != 0 && flags % 2 == if g[0].Copy? then 1 else 0
    requires ParseGroup(src, next, half, n2, groupStart) == Before(g[1..], p)
    ensures ParseGroup(src, i, flags, n, groupStart) == Before(g, p)
  {
    EntityParses(src, i, flags, g[0], n, groupStart, next);
    BeforeBoth([g[0]], g[1..], g, p);
  }

  lemma ParseOpens(src: seq<Byte>, i: nat, f: Byte, n: int, flags: int)
    requires i < |src| && src[i] == f && flags == 0x8000 + f as int
    ensures Parse(src, i, n) == ParseGroup(src, i + 1, flags, n, n)
  {
  }

  /** Behind the entities encoded, the parser goes on with what follows; if that is not nothing, the last group must
      be full. */
  lemma {:induction false} EncodedParses(src: seq<Byte>, i: nat, tokens: seq<Token>, n: int, tail: seq<Byte>, end: int)
    requires Encodable(tokens, n) && StandsAt(src, i, Encode(tokens, n), tail) && end == n + Produced(tokens)
    requires (tail == [] || |tokens| % 8 == 0) && |tail| <= |src|
    ensures Parse(src, i, n) == Before(tokens, Parse(src, |src| - |tail|, end))
    decreases |tokens|
  {
    if tokens == [] {
      BehindIt(src, i, [], [], tail);
      assert [] + Parse(src, i, n).tokens == Parse(src, i, n).tokens;
    } else {
      var g, rest, m, k := FirstGroupParses(src, i, tokens, n, tail);
      ProducedSplit(g, rest, tokens);
      EncodedParses(src, k, rest, m, tail, end);
      BeforeBoth(g, rest, tokens, Parse(src, |src| - |tail|, end));
    }
  }

  lemma FirstGroupParses(src: seq<Byte>, i: nat, tokens: seq<Token>, n: int, tail: seq<Byte>)
      returns (g: seq<Token>, rest: seq<Token>, m: int, k: nat)
    requires Encodable(tokens, n) && StandsAt(src, i, Encode(tokens, n), tail) && tokens != []
    requires tail == [] || |tokens| % 8 == 0
    ensures g != [] && g + rest == tokens && m == n + Produced(g) && (tail == [] || |rest| % 8 == 0)
    ensures Encodable(rest, m) && StandsAt(src, k, Encode(rest, m), tail)
    ensures k <= |src| && Parse(src, i, n) == Before(g, Parse(src, k, m))
  {
    g, rest := Group(tokens), Groups(tokens);
    EncodableSplit(tokens, n, Min(8, |tokens|));
    m := n + Produced(g);
    var f, bodies, behind := FlagByte(g), Bodies(g, n), Encode(rest, m);
    k := i + 1 + |bodies|;
    assert Encode(tokens, n) == [f] + bodies + behind;
    FullGroup(tokens, n);
    GroupOpens(src, i, g, n, m, f, bodies, behind, tail, k);
  }

  lemma GroupOpens(src: seq<Byte>, i: nat, g: seq<Token>, n: int, m: int, f: Byte, bodies: seq<Byte>,
      behind: seq<Byte>, tail: seq<Byte>, k: nat)
    requires |g| <= 8 && Encodable(g, n) && bodies == Bodies(g, n) && f == FlagByte(g) && m == n + Produced(g)
    requires StandsAt(src, i, [f] + bodies + behind, tail) && k == i + 1 + |bodies|
    requires |g| == 8 || (behind == [] && tail == [])
    ensures k <= |src| && StandsAt(src, k, behind, tail) && Parse(src, i, n) == Before(g, Parse(src, k, m))
  {
    var rest, flags := behind + tail, 0x8000 + f as int;
    var p := Parse(src, k, m);
    GroupBytes(src, i, f, bodies, behind, tail);
    assert |src| - |rest| == k;
    assert Marked(flags, 8, g) by { assert Pow2(8) == 256; }
    GroupParses(src, i + 1, 8, flags, g, n, n, rest, m, p);
    ParseOpens(src, i, f, n, flags);
  }

  lemma FullGroup(tokens: seq<Token>, n: int)
    requires Encodable(tokens, n)
    ensures |Group(tokens)| < 8 ==> Groups(tokens) == []
    ensures |tokens| % 8 == 0 ==> |Groups(tokens)| % 8 == 0 && (tokens != [] ==> |Group(tokens)| == 8)
    ensures Group(tokens) + Groups(tokens) == tokens
  {
  }

  lemma GroupBytes(src: seq<Byte>, i: nat, f: Byte, bodies: seq<Byte>, behind: seq<Byte>, tail: seq<Byte>)
    requires StandsAt(src, i, [f] + bodies + behind, tail)
    ensures i < |src| && src[i] == f && StandsAt(src, i + 1, bodies, behind + tail)
    ensures |src| - |behind + tail| == i + 1 + |bodies| && StandsAt(src, i + 1 + |bodies|, behind, tail)
  {
    assert [f] + bodies + behind == [f] + (bodies + behind);
    BehindIt(src, i, [f], bodies + behind, tail);
    BehindIt(src, i + 1, bodies, behind, tail);
    assert src[i] == src[i..i + 1][0] == f;
    assert (bodies + behind) + tail == bodies + (behind + tail);
  }

  lemma {:induction false} ProducedSplit(a: seq<Token>, b: seq<Token>, all: seq<Token>)
    requires a + b == all
    ensures Produced(all) == Produced(a) + Produced(b)
    decreases |a|
  {
    if a == [] {
      assert all == b;
    } else {
      assert a[1..] + b == all[1..];
      ProducedSplit(a[1..], b, all[1..]);
    }
  }

  /** What can be encoded has a meaning. */
  lemma {:induction false} EncodableValid(tokens: seq<Token>, n: int)
    requires Encodable(tokens, n) && n >= 0
    ensures Valid(tokens, n) && Produced(tokens) >= |tokens|
    decreases |tokens|
  {
    if tokens != [] { EncodableValid(tokens[1..], n + Size(tokens[0])); }
  }

  lemma ExpandFirst(tokens: seq<Token>, out: seq<Byte>, t: Token, rest: seq<Token>) returns (next: seq<Byte>)
    requires Valid(tokens, |out|) && tokens != [] && t == tokens[0] && rest == tokens[1..]
    ensures t.Copy? ==> 0 < t.displacement <= |out| && t.length > 0
    ensures next == if t.Literal? then out + [t.b] else Repeat(out, t.displacement, t.length)
    ensures |next| == |out| + Size(t) && Valid(rest, |next|) && Expand(tokens, out) == Expand(rest, next)
  {
    next := if t.Literal? then out + [t.b] else Repeat(out, t.displacement, t.length);
  }

  lemma {:induction false} ExpandSplit(a: seq<Token>, b: seq<Token>, all: seq<Token>, out: seq<Byte>, n: int)
    requires all == a + b && Valid(all, |out|) && Valid(a, |out|) && n == |out| + Produced(a)
    ensures |Expand(a, out)| == n && Valid(b, n) && Expand(all, out) == Expand(b, Expand(a, out))
    decreases |a|
  {
    if a == [] {
      assert all == b;
    } else {
      var t, rest := a[0], a[1..] + b;
      assert all[1..] == rest && all[0] == t;
      var next := ExpandFirst(a, out, t, a[1..]);
      var next2 := ExpandFirst(all, out, t, rest);
      ExpandSplit(a[1..], b, rest, next, n);
    }
  }

  /** A chunk that consists of these entities and nothing else. */
  ghost predicate Consists(src: seq<Byte>, tokens: seq<Token>) {
    Parse(src, 0, 0).tokens == tokens && Parse(src, 0, 0).ok
  }

  lemma EncodedConsists(src: seq<Byte>, tokens: seq<Token>)
    requires Encodable(tokens, 0) && src == Encode(tokens, 0)
    ensures Consists(src, tokens)
  {
    assert src[0..] == src + [];
    EncodedParses(src, 0, tokens, 0, [], Produced(tokens));
    assert tokens + [] == tokens;
  }

  lemma ConsistsDecodes(src: seq<Byte>, tokens: seq<Token>, limit: nat)
    requires Encodable(tokens, 0) && Consists(src, tokens)
    ensures Valid(tokens, 0) && |Expand(tokens, [])| == Produced(tokens) && FullOutput(src) == Expand(tokens, [])
    ensures Decoded(src, limit) == Some(Expand(tokens, [])[..Min(limit, Produced(tokens))])
  {
    EncodableValid(tokens, 0);
    var p := Parse(src, 0, 0);
    FullIs(src, tokens, p);
    assert tokens + [] == tokens;
    ExpandSplit(tokens, [], tokens, [], Produced(tokens));
  }

  lemma FullIs(src: seq<Byte>, tokens: seq<Token>, p: Parsed)
    requires p == Parse(src, 0, 0) && p.tokens == tokens
    ensures Valid(tokens, 0) && FullOutput(src) == Expand(tokens, [])
  {
    ParseValid(src, 0, 0);
  }

  lemma FullPrefix(src: seq<Byte>, tokens: seq<Token>, rest: Parsed, p: Parsed)
    requires p == Parse(src, 0, 0) == Before(tokens, rest) && Valid(tokens, 0)
    ensures |Expand(tokens, [])| == Produced(tokens) && Expand(tokens, []) <= FullOutput(src)
  {
    ParseValid(src, 0, 0);
    ExpandSplit(tokens, rest.tokens, tokens + rest.tokens, [], Produced(tokens));
    FullIs(src, tokens + rest.tokens, p);
  }

  /** A chunk written by the encoder decodes to the expansion of its entities, cut to the room. */
  lemma EncodedDecodes(tokens: seq<Token>, limit: nat)
    requires Encodable(tokens, 0)
    ensures Valid(tokens, 0) && |Expand(tokens, [])| == Produced(tokens)
    ensures FullOutput(Encode(tokens, 0)) == Expand(tokens, []) && Parse(Encode(tokens, 0), 0, 0).ok
    ensures Decoded(Encode(tokens, 0), limit) == Some(Expand(tokens, [])[..Min(limit, Produced(tokens))])
  {
    EncodedConsists(Encode(tokens, 0), tokens);
    ConsistsDecodes(Encode(tokens, 0), tokens, limit);
  }

  /** What follows is not looked at once there is no more room. */
  lemma NotLookedAt(tokens: seq<Token>, tail: seq<Byte>, limit: nat)
    requires Encodable(tokens, 0) && |tokens| % 8 == 0 && limit <= Produced(tokens)
    ensures Valid(tokens, 0) && |Expand(tokens, [])| == Produced(tokens)
    ensures Decoded(Encode(tokens, 0) + tail, limit) == Some(Expand(tokens, [])[..limit])
  {
    var src := Encode(tokens, 0) + tail;
    var k := Opening(src, tokens, tail);
    NoRoomLeft(src, tokens, k, limit);
  }

  lemma Opening(src: seq<Byte>, tokens: seq<Token>, tail: seq<Byte>) returns (k: nat)
    requires Encodable(tokens, 0) && |tokens| % 8 == 0 && src == Encode(tokens, 0) + tail
    ensures Valid(tokens, 0) && Produced(tokens) >= 0 && |src| == k + |tail| && src[k..] == tail
    ensures Parse(src, 0, 0) == Before(tokens, Parse(src, k, Produced(tokens)))
  {
    EncodableValid(tokens, 0);
    assert src[0..] == src;
    k := |Encode(tokens, 0)|;
    EncodedParses(src, 0, tokens, 0, tail, Produced(tokens));
    assert src[k..] == tail;
  }

  lemma NoRoomLeft(src: seq<Byte>, tokens: seq<Token>, k: nat, limit: nat)
    requires Valid(tokens, 0) && 0 <= limit <= Produced(tokens) && k <= |src|
    requires Parse(src, 0, 0) == Before(tokens, Parse(src, k, Produced(tokens)))
    ensures |Expand(tokens, [])| == Produced(tokens) && Decoded(src, limit) == Some(Expand(tokens, [])[..limit])
  {
    var rest := Parse(src, k, Produced(tokens));
    ParseValid(src, k, Produced(tokens));
    FullPrefix(src, tokens, rest, Parse(src, 0, 0));
    var full, out := FullOutput(src), Expand(tokens, []);
    assert full[..limit] == out[..limit];
  }

  lemma FailsAt(src: seq<Byte>, tokens: seq<Token>, k: nat, limit: nat)
    requires Valid(tokens, 0) && limit > Produced(tokens) && k <= |src|
    requires Parse(src, 0, 0) == Before(tokens, Parse(src, k, Produced(tokens)))
    requires Parse(src, k, Produced(tokens)) == Parsed([], false, Produced(tokens))
    ensures Decoded(src, limit) == None
  {
    var p := Parse(src, 0, 0);
    assert p.tokens == tokens by { assert tokens + [] == tokens; }
    FullIs(src, tokens, p);
    assert tokens + [] == tokens;
    ExpandSplit(tokens, [], tokens, [], Produced(tokens));
  }

  lemma BadParses(src: seq<Byte>, i: nat, n: int)
    requires i + 3 <= |src| && src[i] % 2 == 1 && CopyAt(src, i + 1, n).displacement > n
    ensures Parse(src, i, n) == Parsed([], false, n)
  {
  }

  /** A reference to before the chunk makes decoding fail, if there is room for it. */
  lemma TooFarBack(tokens: seq<Token>, n: int, f: Byte, d: int, l: int, junk: seq<Byte>, limit: nat)
    requires Encodable(tokens, 0) && |tokens| % 8 == 0 && n == Produced(tokens) && limit > n
    requires f % 2 == 1 && d > n && InRange(d, l, n)
    ensures Decoded(Encode(tokens, 0) + ([f] + Reference(d, l, n) + junk), limit) == None
  {
    var tail := [f] + Reference(d, l, n) + junk;
    var src := Encode(tokens, 0) + tail;
    var k := Opening(src, tokens, tail);
    BadTail(src, k, n, f, d, l, tail, junk);
    FailsAt(src, tokens, k, limit);
  }

  lemma BadTail(src: seq<Byte>, k: nat, n: int, f: Byte, d: int, l: int, tail: seq<Byte>, junk: seq<Byte>)
    requires k <= |src| && src[k..] == tail && f % 2 == 1 && d > n && InRange(d, l, n)
    requires tail == [f] + Reference(d, l, n) + junk
    ensures Parse(src, k, n) == Parsed([], false, n)
  {
    assert src[k] == tail[0] == f;
    assert src[k + 1..k + 3] == tail[1..3] == Reference(d, l, n);
    CopyBack(src, k + 1, d, l, n);
    BadParses(src, k, n);
  }

  // ----- the chunks of a buffer

  /** A chunk to be written: bytes as they are, or entities. */
  datatype Piece = Plainly(bytes: seq<Byte>) | Packed(tokens: seq<Token>)

  function Meaning(b: Piece): seq<Byte>
    requires b.Packed? ==> Encodable(b.tokens, 0)
  {
    match b
    case Plainly(bytes) => bytes
    case Packed(tokens) =>
      EncodableValid(tokens, 0);
      Expand(tokens, [])
  }

  function DataOf(b: Piece): seq<Byte>
    requires b.Packed? ==> Encodable(b.tokens, 0)
  {
    match b
    case Plainly(bytes) => bytes
    case Packed(tokens) => Encode(tokens, 0)
  }

  /** The data can be measured by twelve bits, and there are 1 to 4096 bytes for it to stand for. */
  predicate Writable(b: Piece) {
    && (b.Packed? ==> Encodable(b.tokens, 0))
    && 1 <= |DataOf(b)| <= 4096 && 1 <= |Meaning(b)| <= 4096
  }

  predicate AllWritable(pieces: seq<Piece>) {
    forall i :: 0 <= i < |pieces| ==> Writable(pieces[i])
  }

  /** The header has the signature 3 in bits 12 to 14 and the mark of compressed data above it. */
  function ChunkOf(b: Piece): seq<Byte>
    requires Writable(b)
  {
    LowFirst((if b.Packed? then 0xB000 else 0x3000) + |DataOf(b)| - 1) + DataOf(b)
  }

  function Buffer(pieces: seq<Piece>): seq<Byte>
    requires AllWritable(pieces)
  {
    if pieces == [] then [] else ChunkOf(pieces[0]) + Buffer(pieces[1..])
  }

  /** The bytes of the chunks, each filled up to 4096 except for the last one. */
  function Spread(pieces: seq<Piece>): seq<Cell>
    requires AllWritable(pieces)
  {
    if pieces == [] then []
    else
      AllWritten(Meaning(pieces[0])) + (if |pieces| == 1 then [] else Pads(4096 - |Meaning(pieces[0])|))
      + Spread(pieces[1..])
  }

  /** Nothing, half a header, or one of zero. */
  predicate IsEnd(end: seq<Byte>) {
    |end| < 2 || (end[0] == 0 && end[1] == 0)
  }

  lemma ChunkFront(header: int, data: seq<Byte>, tail: seq<Byte>, packed: bool, src: seq<Byte>)
    requires 1 <= |data| <= 4096 && header == (if packed then 0xB000 else 0x3000) + |data| - 1
    requires src == LowFirst(header) + data + tail
    ensures Whole(src) && IsCompressed(Header(src)) == packed && Data(src) == data && Rest(src) == tail
  {
    var word := LowFirst(header);
    assert src[0] == word[0] && src[1] == word[1];
    assert Header(src) == header && DataSize(header) == |data|;
  }

  lemma WrittenFront(b: Piece, tail: seq<Byte>)
    requires Writable(b)
    ensures
      var src := ChunkOf(b) + tail;
      && Whole(src) && IsCompressed(Header(src)) == b.Packed? && Data(src) == DataOf(b) && Rest(src) == tail
      && SoundChunk(src) && Content(src) == Meaning(b)
  {
    var src, data := ChunkOf(b) + tail, DataOf(b);
    ChunkFront((if b.Packed? then 0xB000 else 0x3000) + |data| - 1, data, tail, b.Packed?, src);
    if b.Packed? { EncodedDecodes(b.tokens, 0); }
  }

  /** One chunk, and what follows it. */
  lemma ChunkStands(b: Piece, rest: seq<Byte>, src: seq<Byte>)
    requires Writable(b) && Sound(rest) && src == ChunkOf(b) + rest
    ensures Sound(src) && !Ended(src)
    ensures Cells(src)
         == AllWritten(Meaning(b)) + (if Ended(rest) then [] else Pads(4096 - |Meaning(b)|)) + Cells(rest)
  {
    WrittenFront(b, rest);
    SoundFirst(src);
    if Ended(rest) { assert Cells(rest) == []; }
  }

  /** Such a buffer is sound, and stands for the contents of its chunks. */
  lemma {:induction false} BufferStands(pieces: seq<Piece>, end: seq<Byte>)
    requires AllWritable(pieces) && IsEnd(end)
    ensures Sound(Buffer(pieces) + end) && Cells(Buffer(pieces) + end) == Spread(pieces)
    ensures Ended(Buffer(pieces) + end) <==> pieces == []
    decreases |pieces|
  {
    var src := Buffer(pieces) + end;
    if pieces == [] {
      assert src == end;
    } else {
      var rest := Buffer(pieces[1..]) + end;
      assert src == ChunkOf(pieces[0]) + rest;
      BufferStands(pieces[1..], end);
      ChunkStands(pieces[0], rest, src);
    }
  }

  function Plain4096(s: seq<Byte>): (pieces: seq<Piece>)
    ensures AllWritable(pieces)
    decreases |s|
  {
    if s == [] then [] else [Plainly(Block(s))] + Plain4096(Beyond(s))
  }

  /** The compressor writes plain chunks of 4096 bytes, the last one shorter. */
  lemma {:induction false} StoredIs(s: seq<Byte>)
    ensures Stored(s) == Buffer(Plain4096(s))
    decreases |s|
  {
    if s != [] {
      StoredIs(Beyond(s));
      var pieces := Plain4096(s);
      assert pieces[0] == Plainly(Block(s)) && pieces[1..] == Plain4096(Beyond(s));
    }
  }
}
