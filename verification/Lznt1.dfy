/** The LZNT1 codec (rtl/compress.c:31-248). */
module Lznt1 {

  // The format is that of section 2.5 of [MS-XCA].

  type Byte = x: int | 0 <= x < 256

  // ----- what a compressed chunk means

  /** One entity of a chunk. */
  datatype Token = Literal(b: Byte) | Copy(displacement: int, length: int)

  function Pow2(n: nat): (p: int)
    ensures p > 0
  {
    if n == 0 then 1 else 2 * Pow2(n - 1)
  }

  /** How many bits of a reference hold the displacement when n bytes have been produced
      (rtl/compress.c:59-61). */
  function DisplacementBits(n: int): (d: nat)
    ensures 4 <= d <= 12
  {
    BitsFrom(12, n)
  }

  function BitsFrom(d: nat, n: int): (r: nat)
    requires 4 <= d
    ensures 4 <= r <= d
  {
    if d > 4 && !(Pow2(d - 1) < n) then BitsFrom(d - 1, n) else d
  }

  /** What stands in a chunk: the entities up to its end or up to the first one that is invalid.
      groupStart is the number of bytes produced when the last group of eight began. */
  datatype Parsed = Parsed(tokens: seq<Token>, ok: bool, groupStart: int)

  function WordAt(src: seq<Byte>, i: nat): int
    requires i + 2 <= |src|
  {
    src[i] as int + 256 * (src[i + 1] as int)
  }

  function CopyAt(src: seq<Byte>, i: nat, n: int): Token
    requires i + 2 <= |src|
  {
    var lengthBits := 16 - DisplacementBits(n);
    Copy(WordAt(src, i) / Pow2(lengthBits) + 1, WordAt(src, i) % Pow2(lengthBits) + 3)
  }

  function Parse(src: seq<Byte>, i: nat, n: int): Parsed
    requires i <= |src|
    decreases |src| - i, 1
  {
    if i < |src| then ParseGroup(src, i + 1, 0x8000 + src[i] as int, n, n) else Parsed([], true, n)
  }

  /** The flags of the group: one bit for each entity still to come, below a marker. */
  function ParseGroup(src: seq<Byte>, i: nat, flags: int, n: int, groupStart: int): Parsed
    requires i <= |src|
    decreases |src| - i, 2
  {
    if flags / 256 == 0 || i >= |src| then Parse(src, i, n)
    else if flags % 2 == 1 then
      if i + 2 > |src| || CopyAt(src, i, n).displacement > n then Parsed([], false, groupStart)
      else
        var t := CopyAt(src, i, n);
        var rest := ParseGroup(src, i + 2, flags / 2, n + t.length, groupStart);
        rest.(tokens := [t] + rest.tokens)
    else
      var rest := ParseGroup(src, i + 1, flags / 2, n + 1, groupStart);
      rest.(tokens := [Literal(src[i])] + rest.tokens)
  }

  /** Append length bytes, each equal to the one displacement positions before it. */
  function Repeat(out: seq<Byte>, displacement: int, length: int): (r: seq<Byte>)
    requires 0 < displacement <= |out| && length >= 0
    ensures |r| == |out| + length && out <= r
    decreases length
  {
    if length == 0 then out else Repeat(out + [out[|out| - displacement]], displacement, length - 1)
  }

  /** Overlapping copies repeat: every copied byte equals the one displacement before it in the result. */
  lemma {:induction false} RepeatMeaning(out: seq<Byte>, displacement: int, length: int, k: int)
    requires 0 < displacement <= |out| <= k < |out| + length
    ensures Repeat(out, displacement, length)[k] == Repeat(out, displacement, length)[k - displacement]
    decreases length
  {
    var next := out + [out[|out| - displacement]];
    if k == |out| {
      assert next <= Repeat(out, displacement, length);
      assert next[k] == next[k - displacement];
    } else {
      RepeatMeaning(next, displacement, length - 1, k);
    }
  }

  predicate Valid(tokens: seq<Token>, n: int) {
    tokens == [] ||
    match tokens[0]
    case Literal(_) => Valid(tokens[1..], n + 1)
    case Copy(d, l) => 0 < d <= n && l > 0 && Valid(tokens[1..], n + l)
  }

  /** The bytes the entities stand for, appended to what is there. */
  function Expand(tokens: seq<Token>, out: seq<Byte>): (r: seq<Byte>)
    requires Valid(tokens, |out|)
    ensures out <= r && |r| >= |out| + |tokens|
    decreases |tokens|
  {
    if tokens == [] then out
    else match tokens[0]
      case Literal(b) => Expand(tokens[1..], out + [b])
      case Copy(d, l) => Expand(tokens[1..], Repeat(out, d, l))
  }

  /** The width choice makes every displacement into a window of up to 4096 bytes expressible, and no
      narrower choice of the code would. */
  lemma WidthSuffices(n: int, displacement: int)
    requires 1 <= displacement <= n <= 4096
    ensures displacement - 1 < Pow2(DisplacementBits(n))
    ensures DisplacementBits(n) > 4 ==> Pow2(DisplacementBits(n) - 1) < n
  {
    BitsMeaning(12, n);
  }

  lemma {:induction false} BitsMeaning(d: nat, n: int)
    requires 4 <= d && n <= Pow2(d)
    ensures n <= Pow2(BitsFrom(d, n))
    ensures BitsFrom(d, n) > 4 ==> Pow2(BitsFrom(d, n) - 1) < n
  {
    if d > 4 && !(Pow2(d - 1) < n) { BitsMeaning(d - 1, n); }
  }

  // ----- what parsing yields

  lemma {:induction false} ParseValid(src: seq<Byte>, i: nat, n: int)
    requires i <= |src| && n >= 0
    ensures Valid(Parse(src, i, n).tokens, n) && Parse(src, i, n).groupStart >= n
    decreases |src| - i, 1
  {
    if i < |src| { GroupValid(src, i + 1, 0x8000 + src[i] as int, n, n); }
  }

  lemma {:induction false} GroupValid(src: seq<Byte>, i: nat, flags: int, n: int, groupStart: int)
    requires i <= |src| && n >= 0
    ensures Valid(ParseGroup(src, i, flags, n, groupStart).tokens, n)
    ensures ParseGroup(src, i, flags, n, groupStart).groupStart >= if groupStart < n then groupStart else n
    decreases |src| - i, 2
  {
    if flags / 256 == 0 || i >= |src| {
      ParseValid(src, i, n);
    } else if flags % 2 == 1 {
      if !(i + 2 > |src| || CopyAt(src, i, n).displacement > n) {
        CopyPositive(src, i, n);
        GroupValid(src, i + 2, flags / 2, n + CopyAt(src, i, n).length, groupStart);
      }
    } else {
      GroupValid(src, i + 1, flags / 2, n + 1, groupStart);
    }
  }

  lemma CopyPositive(src: seq<Byte>, i: nat, n: int)
    requires i + 2 <= |src|
    ensures CopyAt(src, i, n).displacement > 0 && CopyAt(src, i, n).length >= 3
  {
    var p := Pow2(16 - DisplacementBits(n));
    DivNonNegative(WordAt(src, i), p);
  }

  lemma DivNonNegative(a: int, b: int)
    requires a >= 0 && b > 0
    ensures a / b >= 0 && a % b >= 0
  {
  }

  // ----- decoding a chunk into a buffer of limited size

  datatype Option<T> = None | Some(value: T)

  function Min(a: int, b: int): int {
    if a < b then a else b
  }

  /** All the bytes that the valid entities of a chunk stand for. */
  function FullOutput(src: seq<Byte>): seq<Byte> {
    ParseValid(src, 0, 0);
    Expand(Parse(src, 0, 0).tokens, [])
  }

  /** What decoding into at most limit bytes gives. An invalid entity is met, and decoding fails, exactly
      when there was still room when its group began and the entities before it do not exceed the room;
      otherwise the result is as much of the output as fits. */
  function Decoded(src: seq<Byte>, limit: nat): Option<seq<Byte>> {
    var p, out := Parse(src, 0, 0), FullOutput(src);
    if !p.ok && p.groupStart < limit && |out| <= limit then None
    else Some(out[..Min(limit, |out|)])
  }

  /** When both succeed, a smaller buffer gets a prefix of what a larger one gets. */
  lemma SmallerIsPrefix(src: seq<Byte>, a: nat, b: nat)
    requires a <= b && Decoded(src, a).Some? && Decoded(src, b).Some?
    ensures Decoded(src, a).value == Decoded(src, b).value[..Min(a, |Decoded(src, b).value|)]
  {
  }

  lemma {:induction false} RepeatSplit(out: seq<Byte>, displacement: int, k: int, length: int)
    requires 0 < displacement <= |out| && 0 <= k <= length
    ensures Repeat(Repeat(out, displacement, k), displacement, length - k) == Repeat(out, displacement, length)
    decreases k
  {
    if k > 0 { RepeatSplit(out + [out[|out| - displacement]], displacement, k - 1, length - 1); }
  }

  lemma {:induction false} RepeatNext(out: seq<Byte>, displacement: int, k: int)
    requires 0 < displacement <= |out| && 0 <= k
    ensures var r := Repeat(out, displacement, k); Repeat(out, displacement, k + 1) == r + [r[|r| - displacement]]
  {
    RepeatSplit(out, displacement, k, k + 1);
    var r := Repeat(out, displacement, k);
    assert Repeat(r, displacement, 1) == r + [r[|r| - displacement]];
  }

  /** The state of the decoder: out has been produced, and what remains to be parsed completes it. */
  ghost predicate At(src: seq<Byte>, rest: Parsed, out: seq<Byte>) {
    && rest.ok == Parse(src, 0, 0).ok && rest.groupStart == Parse(src, 0, 0).groupStart
    && Completes(rest.tokens, out, FullOutput(src))
  }

  ghost predicate Completes(tokens: seq<Token>, out: seq<Byte>, full: seq<Byte>) {
    Valid(tokens, |out|) && Expand(tokens, out) == full
  }

  ghost predicate InGroup(src: seq<Byte>, i: nat, flags: int, groupStart: int, out: seq<Byte>) {
    i <= |src| && At(src, ParseGroup(src, i, flags, |out|, groupStart), out)
  }

  lemma ParseCopy(src: seq<Byte>, i: nat, flags: int, n: int, groupStart: int, t: Token, m: int)
    requires i + 2 <= |src| && flags / 256 != 0 && flags % 2 == 1 && t == CopyAt(src, i, n) && t.displacement <= n
        && m == n + t.length
    ensures
      var rest := ParseGroup(src, i + 2, flags / 2, m, groupStart);
      ParseGroup(src, i, flags, n, groupStart) == rest.(tokens := [t] + rest.tokens)
  {
  }

  lemma ParseLiteral(src: seq<Byte>, i: nat, flags: int, n: int, groupStart: int)
    requires i < |src| && flags / 256 != 0 && flags % 2 == 0
    ensures
      var rest := ParseGroup(src, i + 1, flags / 2, n + 1, groupStart);
      ParseGroup(src, i, flags, n, groupStart) == rest.(tokens := [Literal(src[i])] + rest.tokens)
  {
  }

  /** One entity has been expanded. */
  lemma CopyCompletes(tokens: seq<Token>, rest: seq<Token>, out: seq<Byte>, t: Token, out2: seq<Byte>, full: seq<Byte>)
    requires Completes(tokens, out, full) && t.Copy? && tokens == [t] + rest
    requires 0 < t.displacement <= |out| && t.length > 0 && out2 == Repeat(out, t.displacement, t.length)
    ensures Completes(rest, out2, full) && out2 <= full
  {
    assert tokens[1..] == rest && tokens[0] == t;
    assert |out2| == |out| + t.length;
  }

  lemma LiteralCompletes(tokens: seq<Token>, rest: seq<Token>, out: seq<Byte>, b: Byte, out2: seq<Byte>,
      full: seq<Byte>)
    requires Completes(tokens, out, full) && tokens == [Literal(b)] + rest && out2 == out + [b]
    ensures Completes(rest, out2, full) && out2 <= full
  {
    assert tokens[1..] == rest && tokens[0] == Literal(b);
  }

  lemma LiteralStep(src: seq<Byte>, i: nat, flags: int, groupStart: int, out: seq<Byte>, out2: seq<Byte>)
    requires InGroup(src, i, flags, groupStart, out) && flags / 256 != 0 && i < |src| && flags % 2 == 0
    requires out2 == out + [src[i]]
    ensures InGroup(src, i + 1, flags / 2, groupStart, out2) && out2 <= FullOutput(src)
  {
    var n := |out|;
    ParseLiteral(src, i, flags, n, groupStart);
    var rest := ParseGroup(src, i + 1, flags / 2, n + 1, groupStart);
    LiteralCompletes([Literal(src[i])] + rest.tokens, rest.tokens, out, src[i], out2, FullOutput(src));
    assert |out2| == n + 1;
  }

  lemma CopyStep(src: seq<Byte>, i: nat, flags: int, groupStart: int, out: seq<Byte>, t: Token, out2: seq<Byte>)
    requires InGroup(src, i, flags, groupStart, out) && flags / 256 != 0 && i + 2 <= |src| && flags % 2 == 1
    requires t == CopyAt(src, i, |out|) && 0 < t.displacement <= |out| && t.length > 0
    requires out2 == Repeat(out, t.displacement, t.length)
    ensures InGroup(src, i + 2, flags / 2, groupStart, out2) && out2 <= FullOutput(src)
  {
    assert |out2| == |out| + t.length;
    ParseCopy(src, i, flags, |out|, groupStart, t, |out2|);
    CopyAdvances(src, ParseGroup(src, i, flags, |out|, groupStart),
        ParseGroup(src, i + 2, flags / 2, |out2|, groupStart), out, t, out2);
  }

  lemma CopyAdvances(src: seq<Byte>, parsed: Parsed, rest: Parsed, out: seq<Byte>, t: Token, out2: seq<Byte>)
    requires At(src, parsed, out) && parsed == rest.(tokens := [t] + rest.tokens) && t.Copy?
    requires 0 < t.displacement <= |out| && t.length > 0 && out2 == Repeat(out, t.displacement, t.length)
    ensures At(src, rest, out2) && out2 <= FullOutput(src)
  {
    CopyCompletes([t] + rest.tokens, rest.tokens, out, t, out2, FullOutput(src));
  }

  lemma BadEntity(src: seq<Byte>, i: nat, flags: int, groupStart: int, out: seq<Byte>, limit: nat)
    requires InGroup(src, i, flags, groupStart, out) && flags / 256 != 0 && i < |src| && flags % 2 == 1
    requires i + 2 > |src| || CopyAt(src, i, |out|).displacement > |out|
    requires groupStart < limit && |out| <= limit
    ensures Decoded(src, limit) == None
  {
  }

  /** No room is left, and more is to come. */
  lemma FullStop(src: seq<Byte>, out: seq<Byte>, more: seq<Byte>, limit: nat)
    requires |out| == limit && out <= more <= FullOutput(src) && |more| > limit
    ensures Decoded(src, limit) == Some(out)
  {
    assert FullOutput(src)[..limit] == more[..limit] == out;
  }

  /** The source is used up, or a new group would begin without room. */
  lemma LoopEnds(src: seq<Byte>, i: nat, out: seq<Byte>, limit: nat)
    requires i <= |src| && At(src, Parse(src, i, |out|), out) && |out| <= limit && (i == |src| || |out| == limit)
    ensures Decoded(src, limit) == Some(out)
  {
    ParseValid(src, i, |out|);
    assert out <= FullOutput(src);
    if i == |src| {
      assert FullOutput(src) == out && out[..|out|] == out;
    } else {
      assert FullOutput(src)[..limit] == out;
    }
  }

  /** Write one byte at the end of what has been produced since start. */
  method PutByte(dst: array<Byte>, start: nat, cur: nat, b: Byte)
    requires start <= cur < dst.Length
    modifies dst
    ensures dst[start..cur + 1] == old(dst[start..cur]) + [b]
    ensures dst[..start] == old(dst[..start]) && dst[cur + 1..] == old(dst[cur + 1..])
  {
    dst[cur] := b;
  }

  lemma TailTail(a: seq<Byte>, b: seq<Byte>, i: nat)
    requires |a| == |b| && i < |a| && a[i..] == b[i..]
    ensures a[i + 1..] == b[i + 1..]
  {
    assert a[i + 1..] == a[i..][1..] && b[i + 1..] == b[i..][1..];
  }

  /** Copying length bytes from displacement before, as far as there is room (rtl/compress.c:70-77). */
  method CopyBytes(dst: array<Byte>, start: nat, end: nat, from: nat, t: Token, ghost out: seq<Byte>)
      returns (cur: nat, full: bool)
    requires start <= from <= end <= dst.Length && out == dst[start..from]
    requires t.Copy? && 0 < t.displacement <= |out| && t.length > 0
    modifies dst
    ensures from <= cur <= end && dst[..start] == old(dst[..start]) && dst[cur..] == old(dst[cur..])
    ensures dst[start..cur] <= Repeat(out, t.displacement, t.length)
    ensures full ==> cur == end && end - start < |Repeat(out, t.displacement, t.length)|
    ensures !full ==> dst[start..cur] == Repeat(out, t.displacement, t.length)
  {
    cur := from;
    var length := t.length;
    while length != 0
      invariant 0 <= length <= t.length && cur == from + t.length - length && cur <= end
      invariant dst[start..cur] == Repeat(out, t.displacement, t.length - length)
      invariant dst[..start] == old(dst[..start]) && dst[cur..] == old(dst[cur..])
    {
      ghost var k := t.length - length;
      RepeatPrefix(out, t.displacement, k, t.length);
      if cur >= end {
        return cur, true;
      }
      TailTail(dst[..], old(dst[..]), cur);
      CopyByte(dst, start, cur, t.displacement, out, k, k + 1);
      cur, length := cur + 1, length - 1;
    }
    full := false;
  }

  /** One byte of a copy. */
  method CopyByte(dst: array<Byte>, start: nat, cur: nat, displacement: int, ghost out: seq<Byte>, ghost k: int,
      ghost next: int)
    requires 0 < displacement <= |out| && k >= 0 && next == k + 1 && start <= cur < dst.Length && |out| <= cur - start
    requires dst[start..cur] == Repeat(out, displacement, k)
    modifies dst
    ensures dst[start..cur + 1] == Repeat(out, displacement, next)
    ensures dst[..start] == old(dst[..start]) && dst[cur + 1..] == old(dst[cur + 1..])
  {
    RepeatNext(out, displacement, k);
    ghost var r := Repeat(out, displacement, k);
    assert dst[cur - displacement] == r[|r| - displacement];
    PutByte(dst, start, cur, dst[cur - displacement]);
  }

  lemma RepeatPrefix(out: seq<Byte>, displacement: int, k: int, length: int)
    requires 0 < displacement <= |out| && 0 <= k <= length
    ensures Repeat(out, displacement, k) <= Repeat(out, displacement, length)
    ensures k < length ==> |Repeat(out, displacement, k)| < |Repeat(out, displacement, length)|
  {
    RepeatSplit(out, displacement, k, length);
  }

  /** How decoding goes on after one entity. */
  datatype Outcome = Continue | Stop | Fail

  /** One entity of a group (rtl/compress.c:48-84). */
  method DecodeEntity(dst: array<Byte>, start: nat, size: nat, src: seq<Byte>, from: nat, at: nat, flags: int,
      ghost groupStart: int)
    returns (outcome: Outcome, i: nat, cur: nat)
    requires start <= at <= start + size <= dst.Length && flags / 256 != 0 && from < |src| && groupStart < size
    requires InGroup(src, from, flags, groupStart, dst[start..at])
    modifies dst
    ensures dst[..start] == old(dst[..start]) && at <= cur <= start + size && dst[cur..] == old(dst[cur..])
    ensures outcome == Fail ==> Decoded(src, size).None?
    ensures outcome == Stop ==> Decoded(src, size) == Some(dst[start..cur])
    ensures outcome == Continue ==> from < i && InGroup(src, i, flags / 2, groupStart, dst[start..cur])
  {
    ghost var out := dst[start..at];
    i, cur := from, at;
    if flags % 2 == 1 {
      if i + 2 > |src| {
        BadEntity(src, i, flags, groupStart, out, size);
        return Fail, i, cur;
      }
      var t := CopyAt(src, i, cur - start);
      if cur - start < t.displacement {
        BadEntity(src, i, flags, groupStart, out, size);
        return Fail, i, cur;
      }
      CopyPositive(src, i, cur - start);
      ghost var out2 := Repeat(out, t.displacement, t.length);
      CopyStep(src, i, flags, groupStart, out, t, out2);
      i := i + 2;
      var full;
      cur, full := CopyBytes(dst, start, start + size, cur, t, out);
      if full {
        FullStop(src, dst[start..cur], out2, size);
      }
      outcome := if full then Stop else Continue;
    } else {
      LiteralStep(src, i, flags, groupStart, out, out + [src[i]]);
      if cur >= start + size {
        FullStop(src, out, out + [src[i]], size);
        return Stop, i, cur;
      }
      TailTail(dst[..], old(dst[..]), cur);
      PutByte(dst, start, cur, src[i]);
      outcome, i, cur := Continue, i + 1, cur + 1;
    }
  }

  /** One group of up to eight entities (rtl/compress.c:45-86). */
  method DecodeGroup(dst: array<Byte>, start: nat, size: nat, src: seq<Byte>, from: nat, at: nat)
    returns (outcome: Outcome, i: nat, cur: nat)
    requires start <= at < start + size <= dst.Length && from < |src|
    requires At(src, Parse(src, from, at - start), dst[start..at])
    modifies dst
    ensures dst[..start] == old(dst[..start]) && at <= cur <= start + size && dst[cur..] == old(dst[cur..])
    ensures outcome == Fail ==> Decoded(src, size).None?
    ensures outcome == Stop ==> Decoded(src, size) == Some(dst[start..cur])
    ensures outcome == Continue ==> from < i <= |src| && At(src, Parse(src, i, cur - start), dst[start..cur])
  {
    var flags := 0x8000 + src[from] as int;
    ghost var groupStart := at - start;
    outcome, i, cur := Continue, from + 1, at;
    while flags / 256 != 0 && i < |src|
      invariant flags >= 0 && at <= cur <= start + size && from < i && groupStart < size
      invariant InGroup(src, i, flags, groupStart, dst[start..cur]) && outcome == Continue
      invariant dst[..start] == old(dst[..start]) && dst[cur..] == old(dst[cur..])
      decreases |src| - i
    {
      ghost var before, was := dst[..], cur;
      outcome, i, cur := DecodeEntity(dst, start, size, src, i, cur, flags, groupStart);
      KeptTail(before, old(dst[..]), was, cur);
      if outcome != Continue { return; }
      flags := flags / 2;
    }
  }

  /** lznt1_decompress_chunk (rtl/compress.c:31-92): None stands for the null result. */
  method DecompressChunk(dst: array<Byte>, start: nat, size: nat, src: seq<Byte>) returns (r: Option<nat>)
    requires start + size <= dst.Length
    modifies dst
    ensures dst[..start] == old(dst[..start]) && dst[start + size..] == old(dst[start + size..])
    ensures r.None? <==> Decoded(src, size).None?
    ensures r.Some? ==> start <= r.value <= start + size && dst[r.value..] == old(dst[r.value..])
                        && dst[start..r.value] == Decoded(src, size).value
  {
    var i, cur := 0, start;
    assert dst[start..cur] == [];
    ParseValid(src, 0, 0);
    while i < |src| && cur < start + size
      invariant i <= |src| && start <= cur <= start + size && At(src, Parse(src, i, cur - start), dst[start..cur])
      invariant dst[..start] == old(dst[..start]) && dst[cur..] == old(dst[cur..])
      decreases |src| - i
    {
      ghost var before, was := dst[..], cur;
      var outcome;
      outcome, i, cur := DecodeGroup(dst, start, size, src, i, cur);
      KeptTail(before, old(dst[..]), was, cur);
      if outcome != Continue {
        KeptTail(dst[..], old(dst[..]), cur, start + size);
        return if outcome == Fail then None else Some(cur);
      }
    }
    LoopEnds(src, i, dst[start..cur], size);
    KeptTail(dst[..], old(dst[..]), cur, start + size);
    r := Some(cur);
  }

  lemma KeptTail(a: seq<Byte>, b: seq<Byte>, i: nat, j: nat)
    requires |a| == |b| && i <= j <= |a| && a[i..] == b[i..]
    ensures a[j..] == b[j..]
  {
    assert a[j..] == a[i..][j - i..] && b[j..] == b[i..][j - i..];
  }
}
