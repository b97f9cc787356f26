/** LZNT1 buffers (rtl/compress.c:95-248). */
module Lznt1Stream {
  import opened Lznt1

  // A buffer is a sequence of chunks, each with a header. Every chunk but the last one fills 4096 bytes; what its
  // own content does not fill is padding.

  /** The chunk at the front of a buffer: 12 bits of the header are the data size less one, the top bit
      marks compressed data, and an all-zero header ends the buffer. */
  function Header(src: seq<Byte>): int
    requires |src| >= 2
  {
    WordAt(src, 0)
  }

  function DataSize(header: int): (n: nat)
    ensures 1 <= n <= 4096
  {
    header % 4096 + 1
  }

  predicate Whole(src: seq<Byte>) {
    |src| >= 2 && Header(src) != 0 && 2 + DataSize(Header(src)) <= |src|
  }

  function Data(src: seq<Byte>): seq<Byte>
    requires Whole(src)
  {
    src[2..2 + DataSize(Header(src))]
  }

  function Rest(src: seq<Byte>): seq<Byte>
    requires Whole(src)
  {
    src[2 + DataSize(Header(src))..]
  }

  predicate IsCompressed(header: int) {
    header / 0x8000 % 2 == 1
  }

  /** No chunk begins here: fewer than two bytes, or a zero header (rtl/compress.c:106-112, 168-173). */
  predicate Ended(src: seq<Byte>) {
    |src| < 2 || Header(src) == 0
  }

  /** The bytes of the chunk at the front. */
  function Content(src: seq<Byte>): seq<Byte>
    requires Whole(src)
  {
    if IsCompressed(Header(src)) then FullOutput(Data(src)) else Data(src)
  }

  /** The buffer is a sequence of chunks, stored or compressed, each for at least one and at most 4096 bytes. */
  predicate Sound(src: seq<Byte>)
    decreases |src|
  {
    Ended(src) || (Whole(src) && SoundChunk(src) && Sound(Rest(src)))
  }

  predicate SoundChunk(src: seq<Byte>)
    requires Whole(src)
  {
    (IsCompressed(Header(src)) ==> Parse(Data(src), 0, 0).ok) && 0 < |Content(src)| <= 4096
  }

  /** A byte of the decompressed data: one that a chunk stands for, or padding between two chunks. */
  datatype Cell = Written(b: Byte) | Padding

  function AllWritten(s: seq<Byte>): seq<Cell> {
    seq(|s|, i requires 0 <= i < |s| => Written(s[i]))
  }

  function Pads(n: nat): seq<Cell> {
    seq(n, _ => Padding)
  }

  /** What a sound buffer stands for. */
  function Cells(src: seq<Byte>): seq<Cell>
    requires Sound(src)
    decreases |src|
  {
    if Ended(src) then [] else AllWritten(Content(src)) + Behind(src)
  }

  /** What follows the content of the chunk at the front: the padding up to the next chunk, and that one. */
  function Behind(src: seq<Byte>): seq<Cell>
    requires Sound(src) && !Ended(src)
    decreases |src|, 0
  {
    Pads(Gap(src)) + Cells(Rest(src))
  }

  function Gap(src: seq<Byte>): (n: nat)
    requires Sound(src) && !Ended(src)
    ensures n < 4096
  {
    if Ended(Rest(src)) then 0 else 4096 - |Content(src)|
  }

  function Take<T>(s: seq<T>, n: int): seq<T>
    requires n >= 0
  {
    s[..Min(n, |s|)]
  }

  /** The part of s from offset on, as far as n elements go. */
  function Slice<T>(s: seq<T>, offset: nat, n: int): seq<T>
    requires n >= 0
  {
    if offset >= |s| then [] else Take(s[offset..], n)
  }

  /** Without the padding at the end. */
  function Trimmed(s: seq<Cell>): seq<Cell>
    decreases |s|
  {
    if s != [] && s[|s| - 1] == Padding then Trimmed(s[..|s| - 1]) else s
  }

  /** Padding is zeros. */
  function Plain(s: seq<Cell>): seq<Byte> {
    seq(|s|, i requires 0 <= i < |s| => if s[i].Written? then s[i].b else 0)
  }

  function Zeros(n: nat): (z: seq<Byte>)
    ensures |z| == n
  {
    seq(n, _ => 0)
  }

  /** The first n cells in plain bytes: padding is written only when something follows it. */
  function Fits(s: seq<Cell>, n: int): seq<Byte>
    requires n >= 0
  {
    Plain(Trimmed(Take(s, n)))
  }

  /** What decompression of n bytes from the offset on gives. */
  function Expected(src: seq<Byte>, offset: nat, n: int): seq<Byte>
    requires Sound(src) && n >= 0
  {
    if offset >= |Cells(src)| then [] else Fits(Cells(src)[offset..], n)
  }

  // ----- content and padding at the front

  lemma {:induction false} TrimmedPads(k: nat)
    ensures Trimmed(Pads(k)) == []
    decreases k
  {
    if k > 0 {
      assert Pads(k)[..k - 1] == Pads(k - 1);
      TrimmedPads(k - 1);
    }
  }

  /** Trimming stays behind what is written last. */
  lemma {:induction false} TrimmedBehind(a: seq<Cell>, s: seq<Cell>)
    requires a == [] || a[|a| - 1].Written?
    ensures Trimmed(a + s) == a + Trimmed(s)
    decreases |s|
  {
    if s == [] {
      assert a + s == a;
    } else {
      assert (a + s)[..|a + s| - 1] == a + s[..|s| - 1];
      if s[|s| - 1] == Padding { TrimmedBehind(a, s[..|s| - 1]); }
    }
  }

  lemma PlainJoin(a: seq<Cell>, s: seq<Cell>)
    ensures Plain(a + s) == Plain(a) + Plain(s)
  {
  }

  lemma PlainWritten(a: seq<Byte>)
    ensures Plain(AllWritten(a)) == a
  {
  }

  lemma TakeJoin<T>(a: seq<T>, s: seq<T>, n: nat)
    ensures Take(a + s, n) == Take(a, n) + Take(s, n - Min(n, |a|))
  {
  }

  /** Content comes first, as much of it as there is room for. */
  lemma ContentFirst(c: seq<Byte>, rest: seq<Cell>, n: nat)
    ensures Fits(AllWritten(c) + rest, n) == Take(c, n) + Fits(rest, n - Min(n, |c|))
  {
    var a, s := Take(AllWritten(c), n), Take(rest, n - Min(n, |c|));
    TakeJoin(AllWritten(c), rest, n);
    TrimmedBehind(a, s);
    PlainJoin(a, Trimmed(s));
    assert a == AllWritten(Take(c, n));
    PlainWritten(Take(c, n));
  }

  /** Padding comes first: it is dropped if nothing else fits behind it. */
  lemma PaddingFirst(k: nat, rest: seq<Cell>, n: nat)
    requires rest != [] && rest[0].Written?
    ensures k >= n ==> Fits(Pads(k) + rest, n) == []
    ensures k < n ==> Fits(Pads(k) + rest, n) == Zeros(k) + Fits(rest, n - k)
  {
    TakeJoin(Pads(k), rest, n);
    if k >= n {
      assert Take(Pads(k) + rest, n) == Pads(n);
      TrimmedPads(n);
    } else {
      var s := Take(rest, n - k);
      var a, t := Pads(k) + [s[0]], s[1..];
      assert Take(Pads(k) + rest, n) == a + t && s == [s[0]] + t;
      TrimmedBehind(a, t);
      TrimmedBehind([s[0]], t);
      assert a + Trimmed(t) == Pads(k) + Trimmed(s);
      PlainJoin(Pads(k), Trimmed(s));
      PlainPads(k);
    }
  }

  lemma PlainPads(k: nat)
    ensures Plain(Pads(k)) == Zeros(k)
  {
  }

  lemma NoRoom(s: seq<Cell>)
    ensures Fits(s, 0) == [] && forall n: nat :: Fits([], n) == []
  {
    forall n: nat ensures Fits([], n) == [] {
      assert Take<Cell>([], n) == [];
    }
    assert Take(s, 0) == [];
  }

  lemma SoundFirst(src: seq<Byte>)
    requires Sound(src) && !Ended(src)
    ensures Whole(src) && SoundChunk(src) && Sound(Rest(src)) && Cells(src) != [] && Cells(src)[0].Written?
    ensures Cells(src) == AllWritten(Content(src)) + Behind(src)
    ensures Ended(Rest(src)) ==> Behind(src) == [] && |Cells(src)| == |Content(src)|
    ensures !Ended(Rest(src)) ==> Behind(src) == Pads(4096 - |Content(src)|) + Cells(Rest(src))
  {
    assert AllWritten(Content(src))[0].Written?;
  }

  /** A chunk skipped is 4096 cells, or the last of them. */
  lemma SkipCells(src: seq<Byte>, next: seq<Byte>, offset: nat, offset': nat, n: nat)
    requires Sound(src) && !Ended(src) && Whole(src) && next == Rest(src) && offset == offset' + 4096
    ensures Sound(next) && Expected(src, offset, n) == Expected(next, offset', n)
  {
    SoundFirst(src);
    var w := AllWritten(Content(src)) + Pads(Gap(src));
    assert Cells(src) == w + Cells(Rest(src));
    if !Ended(Rest(src)) && offset < |Cells(src)| {
      assert |w| == 4096;
      assert Cells(src)[offset..] == Cells(Rest(src))[offset - 4096..];
    }
  }

  // ----- the plain case

  /** Where nothing was cut off in padding, this is the data asked for; otherwise zeros are missing at the end. */
  lemma {:induction false} TrimmedMeaning(s: seq<Cell>)
    ensures Plain(Trimmed(s)) <= Plain(s)
    ensures forall i :: |Trimmed(s)| <= i < |s| ==> s[i] == Padding && Plain(s)[i] == 0
    ensures s == [] || s[|s| - 1].Written? ==> Trimmed(s) == s
    decreases |s|
  {
    if s != [] && s[|s| - 1] == Padding { TrimmedMeaning(s[..|s| - 1]); }
  }

  // ----- compression

  function Block(s: seq<Byte>): seq<Byte> {
    s[..Min(4096, |s|)]
  }

  function Beyond(s: seq<Byte>): seq<Byte> {
    s[Min(4096, |s|)..]
  }

  function Stored(s: seq<Byte>): seq<Byte>
    decreases |s|
  {
    if s == [] then []
    else
      Chunk(Block(s)) + Stored(Beyond(s))
  }

  /** An uncompressed chunk: header and content. */
  function Chunk(block: seq<Byte>): seq<Byte>
    requires 0 < |block| <= 4096
  {
    var header := 0x3000 + (|block| - 1);
    [header % 256, header / 256] + block
  }

  lemma StoredFront(s: seq<Byte>)
    requires s != []
    ensures
      var src := Stored(s);
      && Whole(src) && !IsCompressed(Header(src)) && Data(src) == Block(s) && Rest(src) == Stored(Beyond(s))
      && !Ended(src)
  {
    var src, n := Stored(s), |Block(s)|;
    assert src[0] as int + 256 * (src[1] as int) == 0x3000 + (n - 1);
    assert Header(src) == 0x3000 + (n - 1) && DataSize(Header(src)) == n;
  }

  /** What the compressor writes is sound and stands for its input, without padding. */
  lemma {:induction false} StoredEncodes(s: seq<Byte>)
    ensures Sound(Stored(s)) && Cells(Stored(s)) == AllWritten(s)
    decreases |s|
  {
    if s != [] {
      var src, rest := Stored(s), Beyond(s);
      StoredFront(s);
      StoredEncodes(rest);
      if rest != [] { StoredFront(rest); }
      assert AllWritten(s) == AllWritten(Block(s)) + AllWritten(rest);
      assert Behind(src) == AllWritten(rest);
    }
  }

  /** Of data without padding, decompression gives the part asked for. */
  lemma StoredExpected(s: seq<Byte>, offset: nat, n: nat)
    ensures Sound(Stored(s)) && Expected(Stored(s), offset, n) == Slice(s, offset, n)
  {
    StoredEncodes(s);
    if offset < |s| {
      assert AllWritten(s)[offset..] == AllWritten(s[offset..]) + [];
      ContentFirst(s[offset..], [], n);
      NoRoom([]);
    }
  }

  lemma {:induction false} StoredSize(s: seq<Byte>)
    ensures |Stored(s)| == |s| + 2 * ((|s| + 4095) / 4096)
    decreases |s|
  {
    if s != [] { StoredSize(Beyond(s)); }
  }
}
