/** LZNT1 buffers that break off in the middle of a chunk (rtl/compress.c:95-216). */
module Lznt1CutOff {
  import opened Lznt1
  import opened Lznt1Stream
  import opened Lznt1Buffer
  import opened Lznt1Encoding

  /** The data of a chunk, or a part of it, is missing. */
  predicate BreaksOff(tail: seq<Byte>) {
    |tail| >= 2 && Header(tail) != 0 && 2 + DataSize(Header(tail)) > |tail|
  }

  /** Where the last of k chunks starts in what is written from an offset on. */
  function LastStart(k: nat, offset: nat): int {
    if offset > 4096 * (k - 1) then 0 else 4096 * (k - 1) - offset
  }

  /** The missing data is noticed exactly if the chunk before starts inside of the room, or the offset lies behind that;
      otherwise it makes no difference. */
  lemma CutOffFound(pieces: seq<Piece>, tail: seq<Byte>, offset: nat, n: nat)
    requires AllWritable(pieces) && BreaksOff(tail)
    ensures Sound(Buffer(pieces))
    ensures Decoding(Buffer(pieces) + tail, offset, n, true)
         == if offset >= 4096 * |pieces| || LastStart(|pieces|, offset) < n then Failed(STATUS_BAD_COMPRESSION_BUFFER)
            else Fine(Expected(Buffer(pieces), offset, n))
  {
    WithoutTail(pieces, offset, n);
    DecodingCut(pieces, tail, offset, n);
  }

  lemma {:induction false} DecodingCut(pieces: seq<Piece>, tail: seq<Byte>, offset: nat, n: nat)
    requires AllWritable(pieces) && BreaksOff(tail)
    ensures Decoding(Buffer(pieces) + tail, offset, n, true)
         == if offset >= 4096 * |pieces| || LastStart(|pieces|, offset) < n then Failed(STATUS_BAD_COMPRESSION_BUFFER)
            else Decoding(Buffer(pieces), offset, n, true)
    decreases |pieces|
  {
    if pieces == [] {
      assert Buffer(pieces) + tail == tail;
      TailFails(tail, offset, n);
    } else if offset < 4096 {
      NearCut(pieces, tail, offset, n);
    } else {
      var more, less := pieces[1..], offset - 4096;
      SkipBoth(pieces, tail, offset, n);
      DecodingCut(more, tail, less, n);
      OneChunkLess(|pieces|, |more|, offset, less);
    }
  }

  lemma OneChunkLess(k: nat, j: nat, offset: nat, less: nat)
    requires k == j + 1 && offset == less + 4096
    ensures LastStart(j, less) == LastStart(k, offset) && (less >= 4096 * j <==> offset >= 4096 * k)
  {
  }

  lemma NearCut(pieces: seq<Piece>, tail: seq<Byte>, offset: nat, n: nat)
    requires AllWritable(pieces) && BreaksOff(tail) && pieces != [] && offset < 4096
    ensures Decoding(Buffer(pieces) + tail, offset, n, true)
         == if LastStart(|pieces|, offset) < n then Failed(STATUS_BAD_COMPRESSION_BUFFER)
            else Decoding(Buffer(pieces), offset, n, true)
  {
    if offset == 0 { RemainderCut(pieces, tail, [], 0, n, 0); } else { InsideCut(pieces, tail, offset, n); }
  }

  lemma WithoutTail(pieces: seq<Piece>, offset: nat, n: nat)
    requires AllWritable(pieces)
    ensures Sound(Buffer(pieces))
    ensures Decoding(Buffer(pieces), offset, n, true) == Fine(Expected(Buffer(pieces), offset, n))
    ensures Buffer(pieces) + [] == Buffer(pieces)
  {
    BufferStands(pieces, []);
    assert Buffer(pieces) + [] == Buffer(pieces);
    SoundDecodes(Buffer(pieces), offset, n);
  }

  lemma TailFails(tail: seq<Byte>, offset: nat, n: nat)
    requires BreaksOff(tail)
    ensures Decoding(tail, offset, n, true) == Failed(STATUS_BAD_COMPRESSION_BUFFER)
  {
  }

  lemma TailFailsThere(tail: seq<Byte>, out: seq<Byte>, offset: nat, n: nat)
    requires BreaksOff(tail) && |out| <= n
    ensures Remainder(tail, out, offset, n) == Failed(STATUS_BAD_COMPRESSION_BUFFER)
  {
  }

  /** At the front of src stands a chunk with this content, behind it `rest`. */
  ghost predicate Front(src: seq<Byte>, rest: seq<Byte>, c: seq<Byte>) {
    && Whole(src) && !Ended(src) && Rest(src) == rest && 1 <= |c| <= 4096
    && forall room: nat {:trigger Contents(src, room)} :: Contents(src, room) == Some(Take(c, room))
  }

  lemma IsFront(src: seq<Byte>, rest: seq<Byte>, c: seq<Byte>)
    requires Whole(src) && SoundChunk(src) && Content(src) == c && Rest(src) == rest
    ensures Front(src, rest, c)
  {
    forall room: nat ensures Contents(src, room) == Some(Take(c, room)) { ContentsSound(src, room); }
  }

  lemma FirstPiece(pieces: seq<Piece>, tail: seq<Byte>, src: seq<Byte>, rest: seq<Byte>)
    requires AllWritable(pieces) && pieces != [] && src == Buffer(pieces) + tail && rest == Buffer(pieces[1..]) + tail
    ensures Front(src, rest, Meaning(pieces[0]))
  {
    var b, more := pieces[0], Buffer(pieces[1..]);
    Regroup(ChunkOf(b), more, tail);
    ChunkFirst(b, rest, src);
  }

  lemma Regroup(a: seq<Byte>, b: seq<Byte>, c: seq<Byte>)
    ensures a + b + c == a + (b + c)
  {
  }

  lemma ChunkFirst(b: Piece, rest: seq<Byte>, src: seq<Byte>)
    requires Writable(b) && src == ChunkOf(b) + rest
    ensures Front(src, rest, Meaning(b))
  {
    WrittenFront(b, rest);
    IsFront(src, rest, Meaning(b));
  }

  /** The same chunk stands at the front of the whole buffer and of the one that breaks off. */
  ghost predicate SameFront(src: seq<Byte>, rest: seq<Byte>, plain: seq<Byte>, rest': seq<Byte>, c: seq<Byte>) {
    Front(src, rest, c) && Front(plain, rest', c)
  }

  lemma BothFront(pieces: seq<Piece>, tail: seq<Byte>)
    requires AllWritable(pieces) && pieces != []
    ensures SameFront(Buffer(pieces) + tail, Buffer(pieces[1..]) + tail, Buffer(pieces), Buffer(pieces[1..]),
                Meaning(pieces[0]))
  {
    var plain, rest := Buffer(pieces), Buffer(pieces[1..]);
    assert plain + [] == plain && rest + [] == rest;
    FirstPiece(pieces, tail, plain + tail, rest + tail);
    FirstPiece(pieces, [], plain, rest);
  }

  lemma FrontStep(src: seq<Byte>, rest: seq<Byte>, c: seq<Byte>, out: seq<Byte>, offset: nat, n: nat, p: nat,
      out': seq<Byte>)
    requires Front(src, rest, c) && |out| <= n && p == |out| + PadSize(|out|, offset)
    requires p < n ==> out' == out + Zeros(PadSize(|out|, offset)) + Take(c, n - p)
    ensures |out'| <= n || p >= n
    ensures Remainder(src, out, offset, n) == if p >= n then Fine(out) else Remainder(rest, out', offset, n)
  {
    if p < n {
      var base := out + Zeros(PadSize(|out|, offset));
      RemainderStep(src, out, offset, n, base, Contents(src, n - |base|));
    }
  }

  /** What has been written when the chunk at the front is done, and where the next one starts. */
  lemma Written(out: seq<Byte>, offset: nat, n: nat, p: nat, c: seq<Byte>, out': seq<Byte>)
    requires p == |out| + PadSize(|out|, offset) < n && 1 <= |c| <= 4096
    requires out' == out + Zeros(PadSize(|out|, offset)) + Take(c, n - p)
    ensures |out'| <= n
    ensures
      var p' := |out'| + PadSize(|out'|, offset);
      if p + |c| <= n then p' == p + 4096 else p' >= n
  {
    if p + |c| <= n { NextBoundary(p, offset, |c|); }
  }

  lemma NextBoundary(p: nat, offset: nat, c: nat)
    requires (p + offset) % 4096 == 0 && 1 <= c <= 4096
    ensures p + c + PadSize(p + c, offset) == p + 4096
  {
    assert (p + c + offset) % 4096 == c % 4096;
  }

  lemma {:induction false} RemainderCut(pieces: seq<Piece>, tail: seq<Byte>, out: seq<Byte>, offset: nat, n: nat,
      p: nat)
    requires AllWritable(pieces) && BreaksOff(tail) && |out| <= n && p == |out| + PadSize(|out|, offset)
    ensures Remainder(Buffer(pieces) + tail, out, offset, n)
         == if pieces == [] || p + 4096 * (|pieces| - 1) < n then Failed(STATUS_BAD_COMPRESSION_BUFFER)
            else Remainder(Buffer(pieces), out, offset, n)
    decreases |pieces|
  {
    if pieces == [] {
      assert Buffer(pieces) + tail == tail;
      TailFailsThere(tail, out, offset, n);
    } else {
      var src, plain, rest, rest', c := Buffer(pieces) + tail, Buffer(pieces), Buffer(pieces[1..]) + tail,
          Buffer(pieces[1..]), Meaning(pieces[0]);
      var out' := if p < n then out + Zeros(PadSize(|out|, offset)) + Take(c, n - p) else [];
      BothFront(pieces, tail);
      FrontStep(src, rest, c, out, offset, n, p, out');
      FrontStep(plain, rest', c, out, offset, n, p, out');
      if p < n {
        Written(out, offset, n, p, c, out');
        RemainderCut(pieces[1..], tail, out', offset, n, |out'| + PadSize(|out'|, offset));
      }
    }
  }

  lemma InsideStep(src: seq<Byte>, rest: seq<Byte>, c: seq<Byte>, offset: nat, n: nat)
    requires Front(src, rest, c) && 0 < offset < 4096
    ensures FromInside(src, offset, n, true)
         == if n == 0 then Fine([]) else Remainder(rest, Slice(c, offset, n), offset, n)
  {
    assert Contents(src, 4096) == Some(Take(c, 4096)) && Take(c, 4096) == c;
  }

  lemma AfterInside(c: seq<Byte>, offset: nat, n: nat, out: seq<Byte>, p: nat)
    requires 0 < offset < 4096 && 1 <= |c| <= 4096 && n > 0 && out == Slice(c, offset, n)
        && p == |out| + PadSize(|out|, offset)
    ensures if |c| <= offset + n then p == 4096 - offset else p >= n
  {
    if offset < |c| <= offset + n {
      NextBoundary(0, 0, |c|);
      assert (|out| + offset) % 4096 == |c| % 4096;
    }
  }

  lemma LastBehind(k: nat, offset: nat, n: nat, p: nat, c: seq<Byte>)
    requires 0 < offset < 4096 && 1 <= |c| <= 4096 && n > 0 && if |c| <= offset + n then p == 4096 - offset else p >= n
    ensures k == 0 || p + 4096 * (k - 1) < n <==> LastStart(k + 1, offset) < n
  {
  }

  lemma InsideCut(pieces: seq<Piece>, tail: seq<Byte>, offset: nat, n: nat)
    requires AllWritable(pieces) && BreaksOff(tail) && pieces != [] && 0 < offset < 4096
    ensures FromInside(Buffer(pieces) + tail, offset, n, true)
         == if LastStart(|pieces|, offset) < n then Failed(STATUS_BAD_COMPRESSION_BUFFER)
            else FromInside(Buffer(pieces), offset, n, true)
  {
    var src, plain, c := Buffer(pieces) + tail, Buffer(pieces), Meaning(pieces[0]);
    BothFront(pieces, tail);
    InsideCutAt(src, plain, pieces[1..], tail, c, offset, n);
  }

  lemma InsideCutAt(src: seq<Byte>, plain: seq<Byte>, pieces: seq<Piece>, tail: seq<Byte>, c: seq<Byte>, offset: nat,
      n: nat)
    requires AllWritable(pieces) && BreaksOff(tail) && 0 < offset < 4096
    requires SameFront(src, Buffer(pieces) + tail, plain, Buffer(pieces), c)
    ensures FromInside(src, offset, n, true)
         == if LastStart(|pieces| + 1, offset) < n then Failed(STATUS_BAD_COMPRESSION_BUFFER)
            else FromInside(plain, offset, n, true)
  {
    InsideStep(src, Buffer(pieces) + tail, c, offset, n);
    InsideStep(plain, Buffer(pieces), c, offset, n);
    if n > 0 {
      var out := Slice(c, offset, n);
      var p := |out| + PadSize(|out|, offset);
      AfterInside(c, offset, n, out, p);
      RemainderCut(pieces, tail, out, offset, n, p);
      LastBehind(|pieces|, offset, n, p, c);
    }
  }

  lemma SkipBoth(pieces: seq<Piece>, tail: seq<Byte>, offset: nat, n: nat)
    requires AllWritable(pieces) && pieces != [] && offset >= 4096
    ensures Decoding(Buffer(pieces) + tail, offset, n, true)
         == Decoding(Buffer(pieces[1..]) + tail, offset - 4096, n, true)
    ensures Decoding(Buffer(pieces), offset, n, true) == Decoding(Buffer(pieces[1..]), offset - 4096, n, true)
  {
    BothFront(pieces, tail);
  }
}
