/** Whole LZNT1 buffers, compressed and decompressed from any offset (rtl/compress.c:95-248). */
module Lznt1Buffer {
  import opened Lznt1
  import opened Lznt1Stream

  datatype Status = STATUS_SUCCESS | STATUS_BAD_COMPRESSION_BUFFER | STATUS_BUFFER_TOO_SMALL | STATUS_ACCESS_VIOLATION

  /** RtlpCompressBufferLZNT1 (rtl/compress.c:219-248). */
  method Compress(src: seq<Byte>, dst: array<Byte>) returns (status: Status, finalSize: nat)
    modifies dst
    ensures status == STATUS_SUCCESS <==> |Stored(src)| <= dst.Length
    ensures status == STATUS_SUCCESS ==> finalSize == |Stored(src)| && dst[..finalSize] == Stored(src)
    ensures status == STATUS_SUCCESS ==> dst[finalSize..] == old(dst[finalSize..])
    ensures status in {STATUS_SUCCESS, STATUS_BUFFER_TOO_SMALL}
  {
    var srcCur, dstCur := 0, 0;
    assert src[0..] == src;
    while srcCur < |src|
      invariant 0 <= srcCur <= |src| && 0 <= dstCur <= dst.Length
      invariant Packed(dst[..], dstCur, src[srcCur..], src)
      invariant dst[dstCur..] == old(dst[dstCur..])
    {
      // determine size of current chunk
      var s := src[srcCur..];
      var blockSize := Min(0x1000, |src| - srcCur);
      if dstCur + 2 + blockSize > dst.Length {
        return STATUS_BUFFER_TOO_SMALL, 0;
      }
      ghost var before := dst[..];
      WriteChunk(dst, dstCur, Block(s));
      ghost var was := dstCur;
      dstCur, srcCur := dstCur + 2 + blockSize, srcCur + blockSize;
      StoredStep(before, dst[..], was, s, dstCur, src[srcCur..], src);
      KeptTail(before, old(dst[..]), was, dstCur);
    }
    assert src[srcCur..] == [];
    status, finalSize := STATUS_SUCCESS, dstCur;
  }

  /** What has been written and the stored form of what is left make up the stored form. */
  ghost predicate Packed(dst: seq<Byte>, at: nat, s: seq<Byte>, all: seq<Byte>) {
    at <= |dst| && dst[..at] + Stored(s) == Stored(all)
  }

  lemma StoredStep(before: seq<Byte>, after: seq<Byte>, at: nat, s: seq<Byte>, n: nat, rest: seq<Byte>, all: seq<Byte>)
    requires s != [] && Packed(before, at, s, all) && |before| == |after| && after[..at] == before[..at]
    requires n == at + 2 + |Block(s)| <= |after| && rest == Beyond(s) && after[at..n] == Chunk(Block(s))
    ensures Packed(after, n, rest, all)
  {
    Appended(after, at, n, Stored(rest));
  }

  lemma Appended(a: seq<Byte>, at: nat, n: nat, rest: seq<Byte>)
    requires at <= n <= |a|
    ensures a[..n] + rest == a[..at] + (a[at..n] + rest)
  {
  }

  /** Write an uncompressed chunk. */
  method WriteChunk(dst: array<Byte>, at: nat, block: seq<Byte>)
    requires 0 < |block| <= 4096 && at + 2 + |block| <= dst.Length
    modifies dst
    ensures dst[..at] == old(dst[..at])
    ensures dst[at..at + 2 + |block|] == Chunk(block)
    ensures dst[at + 2 + |block|..] == old(dst[at + 2 + |block|..])
  {
    var header := 0x3000 + (|block| - 1);
    dst[at], dst[at + 1] := header % 256, header / 256;
    CopyIn(dst, at + 2, block);
    assert dst[at..at + 2 + |block|] == [dst[at], dst[at + 1]] + dst[at + 2..at + 2 + |block|];
  }

  /** memcpy into the buffer. */
  method CopyIn(dst: array<Byte>, at: nat, bytes: seq<Byte>)
    requires at + |bytes| <= dst.Length
    modifies dst
    ensures dst[..at] == old(dst[..at]) && dst[at..at + |bytes|] == bytes
    ensures dst[at + |bytes|..] == old(dst[at + |bytes|..])
  {
    forall k | 0 <= k < |bytes| {
      dst[at + k] := bytes[k];
    }
  }

  // ----- decompression from an offset

  /** Bytes, or the status of a failure. */
  datatype Answer = Fine(bytes: seq<Byte>) | Failed(status: Status)

  /** The padding up to the next chunk boundary (rtl/compress.c:181-184). */
  function PadSize(cur: nat, offset: nat): (k: nat)
    ensures k < 4096 && (cur + offset + k) % 4096 == 0
  {
    if (cur + offset) % 4096 == 0 then 0 else 4096 - (cur + offset) % 4096
  }

  /** The bytes of a chunk as far as there is room; None if they cannot be decoded. */
  function Contents(src: seq<Byte>, room: nat): (r: Option<seq<Byte>>)
    requires Whole(src)
    ensures r.Some? ==> |r.value| <= room
  {
    if IsCompressed(Header(src)) then Decoded(Data(src), room) else Some(Take(Data(src), room))
  }

  /** The chunks from src on, written behind what there is, in n bytes of room. A chunk that is cut off is found
      before there is any question of room, one without meaning only if there is some. */
  function Remainder(src: seq<Byte>, out: seq<Byte>, offset: nat, n: nat): (r: Answer)
    requires |out| <= n
    ensures if r.Fine? then |r.bytes| <= n else r.status != STATUS_SUCCESS
    decreases |src|
  {
    var k := PadSize(|out|, offset);
    if Ended(src) then Fine(out)
    else if !Whole(src) then Failed(STATUS_BAD_COMPRESSION_BUFFER)
    else if |out| + k >= n then Fine(out)
    else
      var base := out + Zeros(k);
      match Contents(src, n - |base|)
      case None => Failed(STATUS_BAD_COMPRESSION_BUFFER)
      case Some(c) => Remainder(Rest(src), base + c, offset, n)
  }

  /** One chunk, of the content c, and what has been written in front of it. */
  lemma RemainderStep(src: seq<Byte>, out: seq<Byte>, offset: nat, n: nat, base: seq<Byte>, c: Option<seq<Byte>>)
    requires !Ended(src) && Whole(src) && |out| <= n && |base| < n && c == Contents(src, n - |base|)
    requires base == out + Zeros(PadSize(|out|, offset))
    ensures Remainder(src, out, offset, n) == if c.None? then Failed(STATUS_BAD_COMPRESSION_BUFFER)
                                              else Remainder(Rest(src), base + c.value, offset, n)
  {
  }

  /** The same where the offset lies in the chunk at the front, which is decoded whole, in a workspace. */
  function FromInside(src: seq<Byte>, offset: nat, n: nat, workspace: bool): (r: Answer)
    requires 0 < offset < 4096
    ensures if r.Fine? then |r.bytes| <= n else r.status != STATUS_SUCCESS
  {
    if Ended(src) then Fine([])
    else if !Whole(src) then Failed(STATUS_BAD_COMPRESSION_BUFFER)
    else if n == 0 then Fine([])
    else if IsCompressed(Header(src)) && !workspace then Failed(STATUS_ACCESS_VIOLATION)
    else
      match Contents(src, 4096)
      case None => Failed(STATUS_BAD_COMPRESSION_BUFFER)
      case Some(c) => Remainder(Rest(src), Slice(c, offset, n), offset, n)
  }

  /** The same from any offset: whole chunks are skipped by their headers alone. */
  function Decoding(src: seq<Byte>, offset: nat, n: nat, workspace: bool): (r: Answer)
    ensures if r.Fine? then |r.bytes| <= n else r.status != STATUS_SUCCESS
    decreases offset
  {
    if offset == 0 then Remainder(src, [], 0, n)
    else if offset < 4096 then FromInside(src, offset, n, workspace)
    else if Ended(src) then Fine([])
    else if !Whole(src) then Failed(STATUS_BAD_COMPRESSION_BUFFER)
    else Decoding(Rest(src), offset - 4096, n, workspace)
  }

  // ----- for a sound buffer this is what it stands for

  /** The chunk's bytes, if it is sound. */
  lemma ChunkBytes(src: seq<Byte>, limit: nat)
    requires Whole(src) && SoundChunk(src)
    ensures IsCompressed(Header(src)) ==> Decoded(Data(src), limit) == Some(Take(Content(src), limit))
    ensures !IsCompressed(Header(src)) ==> Data(src) == Content(src)
  {
  }

  lemma ContentsSound(src: seq<Byte>, room: nat)
    requires Whole(src) && SoundChunk(src)
    ensures Contents(src, room) == Some(Take(Content(src), room))
  {
    ChunkBytes(src, room);
  }

  /** What has been written and what is still to come make up the goal. */
  ghost predicate Aligned(out: seq<Byte>, n: nat, rest: seq<Cell>, goal: seq<Byte>) {
    |out| <= n && goal == out + Fits(rest, n - |out|)
  }

  /** Between two chunks: what is still to come is the padding and the chunks from src on. */
  ghost predicate Between(out: seq<Byte>, n: nat, offset: nat, src: seq<Byte>, rest: seq<Cell>, goal: seq<Byte>) {
    && Aligned(out, n, rest, goal) && Sound(src)
    && (Ended(src) ==> rest == [])
    && (!Ended(src) && |out| < n ==> rest == Pads(PadSize(|out|, offset)) + Cells(src))
  }

  /** Content is written, as far as there is room. */
  lemma ContentAligned(out: seq<Byte>, n: nat, c: seq<Byte>, behind: seq<Cell>, goal: seq<Byte>, out': seq<Byte>)
    requires Aligned(out, n, AllWritten(c) + behind, goal) && out' == out + Take(c, n - |out|)
    ensures Aligned(out', n, behind, goal) && |out'| == |out| + Min(|c|, n - |out|)
  {
    ContentFirst(c, behind, n - |out|);
    assert out + (Take(c, n - |out|) + Fits(behind, n - |out'|)) == out' + Fits(behind, n - |out'|);
  }

  /** Behind the content of a chunk, of which the first `skip` bytes lie before the offset. */
  lemma BehindIs(src: seq<Byte>, next: seq<Byte>, at: nat, offset: nat, skip: nat, behind: seq<Cell>)
    requires Sound(src) && !Ended(src) && Whole(src) && skip < |Content(src)| && next == Rest(src)
    requires (at + offset) % 4096 == skip && behind == Behind(src)
    ensures Sound(next) && Cells(src)[skip..] == AllWritten(Content(src)[skip..]) + behind
    ensures if Ended(next) then behind == []
            else behind == Pads(PadSize(at + |Content(src)| - skip, offset)) + Cells(next)
  {
    SoundFirst(src);
    GapIs(at, offset, skip, |Content(src)|);
    AllWrittenFrom(Content(src), skip, behind);
  }

  lemma AllWrittenFrom(c: seq<Byte>, skip: nat, behind: seq<Cell>)
    requires skip <= |c|
    ensures (AllWritten(c) + behind)[skip..] == AllWritten(c[skip..]) + behind
  {
  }

  lemma GapIs(at: nat, offset: nat, skip: nat, size: nat)
    requires (at + offset) % 4096 == skip && skip < size <= 4096
    ensures PadSize(at + size - skip, offset) == 4096 - size
  {
    assert (at + size - skip + offset) % 4096 == size % 4096;
  }

  /** The padding in front of the next chunk is written if something fits behind it. */
  lemma Padded(out: seq<Byte>, n: nat, rest: seq<Cell>, goal: seq<Byte>, k: nat, cells: seq<Cell>)
    requires Aligned(out, n, rest, goal) && (|out| < n ==> rest == Pads(k) + cells)
    requires cells != [] && cells[0].Written?
    ensures |out| + k >= n ==> goal == out
    ensures |out| + k < n ==> Aligned(out + Zeros(k), n, cells, goal)
  {
    if |out| < n { PaddingFirst(k, cells, n - |out|); } else { NoRoom(rest); }
  }

  lemma {:induction false} RemainderIs(src: seq<Byte>, out: seq<Byte>, offset: nat, n: nat, rest: seq<Cell>,
      goal: seq<Byte>)
    requires Between(out, n, offset, src, rest, goal)
    ensures Remainder(src, out, offset, n) == Fine(goal)
    decreases |src|
  {
    if Ended(src) {
      NoRoom(rest);
    } else {
      var k := PadSize(|out|, offset);
      SoundFirst(src);
      Padded(out, n, rest, goal, k, Cells(src));
      if |out| + k < n {
        var base := out + Zeros(k);
        var out' := base + Take(Content(src), n - |base|);
        ContentsSound(src, n - |base|);
        var rest' := WholeAligned(base, n, offset, src, goal, out');
        RemainderIs(Rest(src), out', offset, n, rest', goal);
      }
    }
  }

  /** At a chunk boundary, the chunk at the front is written. */
  lemma WholeAligned(out: seq<Byte>, n: nat, offset: nat, src: seq<Byte>, goal: seq<Byte>, out': seq<Byte>)
      returns (rest: seq<Cell>)
    requires |out| < n && Sound(src) && !Ended(src) && Whole(src) && (|out| + offset) % 4096 == 0
    requires Aligned(out, n, Cells(src), goal) && out' == out + Take(Content(src), n - |out|)
    ensures Between(out', n, offset, Rest(src), rest, goal)
  {
    SoundFirst(src);
    rest := Behind(src);
    var c := Content(src);
    BehindIs(src, Rest(src), |out|, offset, 0, rest);
    ContentAligned(out, n, c, rest, goal, out');
  }

  /** The chunk lies before the offset altogether, but not its padding. */
  lemma NothingAligned(n: nat, offset: nat, src: seq<Byte>, goal: seq<Byte>) returns (rest: seq<Cell>)
    requires Sound(src) && !Ended(src) && Whole(src) && |Content(src)| <= offset < 4096 && 0 < offset
        && goal == Expected(src, offset, n)
    ensures Between([], n, offset, Rest(src), rest, goal)
  {
    var next, c := Rest(src), Content(src);
    SoundFirst(src);
    NoRoom([]);
    assert PadSize(0, offset) == 4096 - offset;
    if Ended(next) {
      rest := [];
      assert goal == [] && Aligned([], n, rest, goal);
    } else {
      var cells := Cells(next);
      rest := Pads(4096 - offset) + cells;
      BehindFrom(Cells(src), c, 4096 - |c|, cells, offset, rest);
      assert goal == Fits(rest, n) == [] + Fits(rest, n);
    }
  }

  lemma BehindFrom(all: seq<Cell>, c: seq<Byte>, k: nat, cells: seq<Cell>, offset: nat, rest: seq<Cell>)
    requires |c| <= offset < |c| + k && all == AllWritten(c) + (Pads(k) + cells)
    requires rest == Pads(|c| + k - offset) + cells
    ensures offset < |all| && all[offset..] == rest
  {
  }

  /** The content of the chunk in which the offset lies is written, as far as there is room. */
  lemma PartAligned(n: nat, offset: nat, src: seq<Byte>, goal: seq<Byte>, out: seq<Byte>) returns (rest: seq<Cell>)
    requires Sound(src) && !Ended(src) && Whole(src) && offset < |Content(src)| && goal == Expected(src, offset, n)
    requires out == Take(Content(src)[offset..], n)
    ensures Between(out, n, offset, Rest(src), rest, goal)
  {
    SoundFirst(src);
    rest := Behind(src);
    var c := Content(src)[offset..];
    BehindIs(src, Rest(src), 0, offset, offset, rest);
    assert Aligned([], n, AllWritten(c) + rest, goal);
    ContentAligned([], n, c, rest, goal, out);
  }

  lemma InsideIs(src: seq<Byte>, offset: nat, n: nat)
    requires Sound(src) && 0 < offset < 4096
    ensures FromInside(src, offset, n, true) == Fine(Expected(src, offset, n))
  {
    if !Ended(src) {
      var goal := Expected(src, offset, n);
      SoundFirst(src);
      if n == 0 {
        if offset < |Cells(src)| { NoRoom(Cells(src)[offset..]); }
      } else {
        var c := Content(src);
        ContentsSound(src, 4096);
        assert Take(c, 4096) == c;
        var rest;
        if offset < |c| {
          rest := PartAligned(n, offset, src, goal, Slice(c, offset, n));
        } else {
          rest := NothingAligned(n, offset, src, goal);
        }
        RemainderIs(Rest(src), Slice(c, offset, n), offset, n, rest, goal);
      }
    }
  }

  lemma FromStart(src: seq<Byte>, n: nat)
    requires Sound(src)
    ensures Remainder(src, [], 0, n) == Fine(Expected(src, 0, n))
  {
    var cells, goal := Cells(src), Expected(src, 0, n);
    NoRoom([]);
    assert cells[0..] == cells && Pads(0) + cells == cells;
    assert goal == [] + Fits(cells, n);
    RemainderIs(src, [], 0, n, cells, goal);
  }

  /** From a sound buffer the part asked for is decoded. */
  lemma {:induction false} SoundDecodes(src: seq<Byte>, offset: nat, n: nat)
    requires Sound(src)
    ensures Decoding(src, offset, n, true) == Fine(Expected(src, offset, n))
    decreases offset
  {
    if offset == 0 {
      FromStart(src, n);
    } else if offset < 4096 {
      InsideIs(src, offset, n);
    } else if !Ended(src) {
      SoundFirst(src);
      SkipCells(src, Rest(src), offset, offset - 4096, n);
      SoundDecodes(Rest(src), offset - 4096, n);
    }
  }

  // ----- the decompressor

  /** Where a phase of the decompressor ends up: with the next one, at the end, or with an error. */
  datatype Phase = Go | Out | Bad(status: Status)

  lemma NextChunk(src: seq<Byte>, pos: nat)
    requires pos + 2 <= |src| && Whole(src[pos..])
    ensures
      var size := DataSize(WordAt(src, pos));
      && Header(src[pos..]) == WordAt(src, pos) && pos + 2 + size <= |src|
      && Data(src[pos..]) == src[pos + 2..pos + 2 + size] && Rest(src[pos..]) == src[pos + 2 + size..]
  {
  }

  lemma DecodingSkips(src: seq<Byte>, pos: nat, next: nat, offset: nat, less: nat, n: nat, workspace: bool)
    requires pos + 2 <= |src| && next == pos + 2 + DataSize(WordAt(src, pos)) && offset == less + 4096
    ensures Decoding(src[pos..], offset, n, workspace)
         == if WordAt(src, pos) == 0 then Fine([])
            else if next > |src| then Failed(STATUS_BAD_COMPRESSION_BUFFER)
            else Decoding(src[next..], less, n, workspace)
  {
    var from := src[pos..];
    assert Header(from) == WordAt(src, pos) && |from| >= 2;
    if Whole(from) { NextChunk(src, pos); }
  }

  /** Skip the chunks that lie before the offset (rtl/compress.c:106-121). */
  method SkipChunks(src: seq<Byte>, offset0: nat, ghost n: nat, ghost workspace: bool)
    returns (phase: Phase, pos: nat, offset: nat)
    ensures pos <= |src|
    ensures phase == Go ==> (offset < 0x1000 || pos + 2 > |src|)
                            && Decoding(src[pos..], offset, n, workspace) == Decoding(src, offset0, n, workspace)
    ensures phase == Out ==> Decoding(src, offset0, n, workspace) == Fine([])
    ensures phase.Bad? ==> Decoding(src, offset0, n, workspace) == Failed(phase.status)
  {
    phase, pos, offset := Go, 0, offset0;
    assert src[0..] == src;
    while offset >= 0x1000 && pos + 2 <= |src|
      invariant pos <= |src| && phase == Go
      invariant Decoding(src[pos..], offset, n, workspace) == Decoding(src, offset0, n, workspace)
      decreases offset
    {
      var header := WordAt(src, pos);
      var next := pos + 2 + DataSize(header);
      DecodingSkips(src, pos, next, offset, offset - 0x1000, n, workspace);
      if header == 0 {
        return Out, pos + 2, offset;
      }
      if next > |src| {
        return Bad(STATUS_BAD_COMPRESSION_BUFFER), pos, offset;
      }
      pos, offset := next, offset - 0x1000;
    }
  }

  /** The chunk in which the offset lies is decoded aside and copied in part (rtl/compress.c:123-165). */
  method PartialChunk(dst: array<Byte>, workspace: array?<Byte>, src: seq<Byte>, pos: nat, offset: nat)
    returns (phase: Phase, cur: nat, next: nat)
    requires pos + 2 <= |src| && 0 < offset < 0x1000 && workspace != dst
    requires workspace != null ==> workspace.Length >= 0x1000
    modifies dst, workspace
    ensures cur <= dst.Length && next <= |src|
    ensures
      var answer := FromInside(src[pos..], offset, dst.Length, workspace != null);
      && (phase == Go ==> answer == Remainder(src[next..], dst[..cur], offset, dst.Length))
      && (phase == Out ==> cur == 0 && answer == Fine([]))
      && (phase.Bad? ==> answer == Failed(phase.status))
  {
    cur, next := 0, pos;
    ghost var from := src[pos..];
    var header := WordAt(src, pos);
    assert header == Header(from);
    if header == 0 { return Out, 0, pos; }
    var size := DataSize(header);
    if pos + 2 + size > |src| { return Bad(STATUS_BAD_COMPRESSION_BUFFER), 0, pos; }
    NextChunk(src, pos);
    next := pos + 2 + size;
    if dst.Length == 0 { return Out, 0, pos; }
    var data;
    phase, data := ReadContent(workspace, src, pos, size);
    if phase != Go { return phase, 0, pos; }
    if |data| > offset {
      cur := Min(|data| - offset, dst.Length);
      CopyIn(dst, 0, data[offset..offset + cur]);
      assert dst[..cur] == dst[0..0 + cur] == Take(data[offset..], dst.Length);
    }
    assert dst[..cur] == Slice(data, offset, dst.Length);
  }

  /** The bytes of a chunk, decoded in the workspace if it is compressed (rtl/compress.c:141-147). */
  method ReadContent(workspace: array?<Byte>, src: seq<Byte>, pos: nat, size: nat)
    returns (phase: Phase, data: seq<Byte>)
    requires pos + 2 + size <= |src| && WordAt(src, pos) != 0 && size == DataSize(WordAt(src, pos))
    requires workspace != null ==> workspace.Length >= 0x1000
    modifies workspace
    ensures Whole(src[pos..])
    ensures
      if IsCompressed(WordAt(src, pos)) && workspace == null then phase == Bad(STATUS_ACCESS_VIOLATION)
      else if Contents(src[pos..], 4096) == None then phase == Bad(STATUS_BAD_COMPRESSION_BUFFER)
      else phase == Go && Contents(src[pos..], 4096) == Some(data)
  {
    NextChunk(src, pos);
    phase, data := Go, src[pos + 2..pos + 2 + size];
    assert Take(data, 4096) == data;
    if IsCompressed(WordAt(src, pos)) {
      if workspace == null { return Bad(STATUS_ACCESS_VIOLATION), []; }
      var r := DecompressChunk(workspace, 0, 0x1000, data);
      if r == None { return Bad(STATUS_BAD_COMPRESSION_BUFFER), []; }
      data := workspace[..r.value];
      assert data == workspace[0..r.value];
    }
  }

  /** Add padding if required and if there is room behind it (rtl/compress.c:180-191). */
  method PutPadding(dst: array<Byte>, at: nat, offset: nat) returns (room: bool, cur: nat)
    requires at <= dst.Length
    modifies dst
    ensures room <==> at + PadSize(at, offset) < dst.Length
    ensures room ==> cur == at + PadSize(at, offset) && dst[..cur] == old(dst[..at]) + Zeros(PadSize(at, offset))
    ensures !room ==> cur == at && dst[..] == old(dst[..])
  {
    cur := at;
    var blockSize := (cur + offset) % 0x1000;
    if blockSize != 0 {
      blockSize := 0x1000 - blockSize;
      if cur + blockSize >= dst.Length { return false, cur; }
      CopyIn(dst, cur, Zeros(blockSize));
      cur := cur + blockSize;
    }
    if cur >= dst.Length { return false, cur; }
    assert dst[..cur] == old(dst[..at]) + Zeros(blockSize);
    room := true;
  }

  /** One of the remaining chunks (rtl/compress.c:168-207). */
  method NextBlock(dst: array<Byte>, src: seq<Byte>, pos: nat, at: nat, offset: nat)
    returns (phase: Phase, cur: nat, next: nat)
    requires pos + 2 <= |src| && at <= dst.Length
    modifies dst
    ensures cur <= dst.Length
    ensures
      var answer := Remainder(src[pos..], old(dst[..at]), offset, dst.Length);
      && (phase == Go ==> pos < next <= |src| && answer == Remainder(src[next..], dst[..cur], offset, dst.Length))
      && (phase == Out ==> answer == Fine(dst[..cur]))
      && (phase.Bad? ==> answer == Failed(phase.status))
  {
    ghost var from := src[pos..];
    cur, next := at, pos;
    var header := WordAt(src, pos);
    assert header == Header(from);
    if header == 0 { return Out, cur, pos; }
    var size := DataSize(header);
    if pos + 2 + size > |src| { return Bad(STATUS_BAD_COMPRESSION_BUFFER), cur, pos; }
    NextChunk(src, pos);
    ghost var out := dst[..at];
    var room;
    room, cur := PutPadding(dst, cur, offset);
    if !room { return Out, cur, pos; }
    RemainderStep(from, out, offset, dst.Length, dst[..cur], Contents(from, dst.Length - cur));
    next := pos + 2 + size;
    var r := CopyContent(dst, cur, src[pos + 2..next], IsCompressed(header), from);
    if r == None { return Bad(STATUS_BAD_COMPRESSION_BUFFER), cur, pos; }
    phase, cur := Go, r.value;
  }

  /** The bytes of a chunk, as far as there is room (rtl/compress.c:192-204). */
  method CopyContent(dst: array<Byte>, at: nat, data: seq<Byte>, compressed: bool, ghost src: seq<Byte>)
    returns (r: Option<nat>)
    requires at < dst.Length && Whole(src) && data == Data(src) && compressed == IsCompressed(Header(src))
    modifies dst
    ensures r.Some? ==> at <= r.value <= dst.Length
    ensures
      var c := Contents(src, dst.Length - at);
      (r.None? <==> c.None?) && (r.Some? ==> dst[..r.value] == old(dst[..at]) + c.value)
  {
    ghost var was := dst[..at];
    if compressed {
      r := DecompressChunk(dst, at, dst.Length - at, data);
      if r.Some? { assert dst[..r.value] == dst[..at] + dst[at..r.value]; }
    } else {
      var blockSize := Min(|data|, dst.Length - at);
      CopyIn(dst, at, data[..blockSize]);
      r := Some(at + blockSize);
      assert dst[..r.value] == dst[..at] + dst[at..r.value];
    }
  }

  /** The remaining chunks (rtl/compress.c:168-207). */
  method Remaining(dst: array<Byte>, src: seq<Byte>, from: nat, at: nat, offset: nat) returns (phase: Phase, cur: nat)
    requires from <= |src| && at <= dst.Length
    modifies dst
    ensures cur <= dst.Length
    ensures Remainder(src[from..], old(dst[..at]), offset, dst.Length)
         == if phase.Bad? then Failed(phase.status) else Fine(dst[..cur])
  {
    ghost var answer := Remainder(src[from..], dst[..at], offset, dst.Length);
    var pos := from;
    phase, cur := Go, at;
    while pos + 2 <= |src|
      invariant pos <= |src| && cur <= dst.Length && phase == Go
      invariant answer == Remainder(src[pos..], dst[..cur], offset, dst.Length)
      decreases |src| - pos
    {
      var next;
      phase, cur, next := NextBlock(dst, src, pos, cur, offset);
      if phase != Go { return; }
      pos := next;
    }
  }

  /** lznt1_decompress (rtl/compress.c:95-216), for any buffer, offset and room. Decompressing a sound buffer yields the
      requested part of what it stands for, without the padding at its end; the reported size is the number of bytes
      written. */
  method Decompress(dst: array<Byte>, src: seq<Byte>, offset0: nat, workspace: array?<Byte>)
    returns (status: Status, finalSize: nat)
    requires workspace != dst && (workspace != null ==> workspace.Length >= 0x1000)
    modifies dst, workspace
    ensures finalSize <= dst.Length
    ensures |src| < 2 ==> status == STATUS_BAD_COMPRESSION_BUFFER
    ensures |src| >= 2 ==>
              match Decoding(src, offset0, dst.Length, workspace != null)
              case Fine(bytes) => status == STATUS_SUCCESS && dst[..finalSize] == bytes
              case Failed(s) => status == s != STATUS_SUCCESS
    ensures |src| >= 2 && Sound(src) && workspace != null ==>
              status == STATUS_SUCCESS && dst[..finalSize] == Expected(src, offset0, dst.Length)
  {
    if |src| < 2 {
      return STATUS_BAD_COMPRESSION_BUFFER, 0;
    }
    if Sound(src) && workspace != null { SoundDecodes(src, offset0, dst.Length); }
    var phase, pos, offset := SkipChunks(src, offset0, dst.Length, workspace != null);
    var cur := 0;
    if phase == Go && offset != 0 && pos + 2 <= |src| {
      phase, cur, pos := PartialChunk(dst, workspace, src, pos, offset);
    }
    if phase == Go {
      phase, cur := Remaining(dst, src, pos, cur, offset);
    }
    if phase.Bad? {
      return phase.status, 0;
    }
    status, finalSize := STATUS_SUCCESS, cur;
  }

  /** Compressing any non-empty input and decompressing any part of it gives back that part. */
  method RoundTrip(s: seq<Byte>, packed: array<Byte>, dst: array<Byte>, workspace: array<Byte>, offset: nat)
      returns (finalSize: nat)
    requires s != [] && packed.Length >= |Stored(s)| && workspace.Length >= 0x1000
    requires packed != dst && packed != workspace && workspace != dst
    modifies packed, dst, workspace
    ensures finalSize <= dst.Length && dst[..finalSize] == Slice(s, offset, dst.Length)
  {
    var status, size := Compress(s, packed);
    StoredFront(s);
    StoredExpected(s, offset, dst.Length);
    status, finalSize := Decompress(dst, packed[..size], offset, workspace);
  }
}
