/** The heap (rtl/heap.c). */
module Heap {
  import opened HeapLayout
  import opened HeapFreeLists
  import opened HeapBlocks
  import opened HeapUcr
  import opened HeapSegments
  import opened HeapDecommit
  import opened HeapSplit
  import opened HeapMerge
  import opened HeapCommit
  import opened HeapGrow
  import opened HeapValidate
  import opened HeapStale
  import opened HeapExtend

  // Boundary tags, segmented memory with uncommitted ranges, size-indexed free lists with a bitmap, and the
  // operations that keep them in step. Addresses and sizes count heap entries of 8 bytes.

  /** Every listed block has a header that says the same. */
  ghost predicate Agree(h: Headers, sizes: Sizes) {
    forall x :: x in sizes ==> x in h && !h[x].busy && h[x].size == sizes[x]
  }

  lemma LooseAgree(h: Headers, segs: Segments, sizes: Sizes, a: int)
    requires Loose(h, segs, sizes, a)
    ensures Agree(h, sizes)
  {
  }

  lemma WholeAgree(h: Headers, segs: Segments, sizes: Sizes)
    requires Whole(h, segs, sizes)
    ensures Agree(h, sizes)
  {
  }

  lemma TailAgree(h: Headers, t: Headers, segs: Segments, sizes: Sizes, b: int)
    requires Telling(h, b, t) && Tail(t, segs, sizes, b)
    ensures Agree(h, sizes)
  {
    forall x | x in sizes ensures x in h && !h[x].busy && h[x].size == sizes[x] {
      assert x in FreeOf(t) && FreeOf(t)[x] == sizes[x] && x in t;
    }
  }

  function IndexOf(s: seq<int>, x: int): (i: nat)
    requires x in s
    ensures i < |s| && s[i] == x
  {
    if s[0] == x then 0 else 1 + IndexOf(s[1..], x)
  }

  /** What the system answers when the heap asks for a new segment. */
  datatype Grant = NoMemory | Memory(base: int, reserve: int)

  class Heap {
    var hdr: Headers
    var FreeLists: seq<seq<int>>
    var FreeListsInUse: seq<bool>
    var TotalFreeSize: int
    var Segments: Segments
    ghost var listed: Sizes
    const CommitRoutine: bool
    const DisableCoalesceOnFree: bool
    const DeCommitFreeBlockThreshold: int
    const DeCommitTotalFreeThreshold: int
    const VirtualMemoryThreshold: int
    const Growable: bool
    const SegmentCommit: int

    /** RtlpInitializeHeap and the first segment (rtl/heap.c:86-205, 1546-1556). The heap's header block
        holds the HEAP structure, so its size is the caller's. */
    constructor (base: int, entrySize: int, reserve: int, commit: int, commitRoutine: bool, disableCoalesce: bool,
                 freeBlockThreshold: int, totalFreeThreshold: int, virtualThreshold: int, growable: bool,
                     segmentCommit: int)
      requires Reservable(map[], 0, base, entrySize, reserve, commit)
      ensures Valid() && BusyOf(hdr) == map[base := entrySize] && Segments.Keys == {0}
      ensures Fresh(Segments[0], base, entrySize, reserve, commit)
    {
      hdr, FreeListsInUse := map[], seq(128, _ => false);
      FreeLists := seq(128, _ => []);
      TotalFreeSize, Segments, listed := 0, map[], map[];
      CommitRoutine, DisableCoalesceOnFree, Growable, SegmentCommit := commitRoutine, disableCoalesce, growable,
          segmentCommit;
      DeCommitFreeBlockThreshold, DeCommitTotalFreeThreshold := freeBlockThreshold, totalFreeThreshold;
      VirtualMemoryThreshold := virtualThreshold;
      new;
      assert FreeOf(hdr) == map[] && BusyOf(hdr) == map[];
      InitializeHeapSegment(0, base, entrySize, reserve, commit);
      AllLastIs(hdr, Segments);
    }

    ghost predicate Lists()
      reads this`FreeLists, this`FreeListsInUse, this`listed
    {
      ListsOk(FreeLists, FreeListsInUse, listed) && Small(listed)
    }

    /** RtlpInsertFreeBlockHelper (rtl/heap.c:250-316). */
    method InsertFreeBlockHelper(a: int, blockSize: int)
      requires Lists() && Agree(hdr, listed) && a in hdr && 0 < hdr[a].size == blockSize <= MaxBlock + 2 && a !in listed
      modifies this`hdr, this`FreeLists, this`FreeListsInUse, this`listed
      ensures Lists() && Agree(hdr, listed) && hdr == Marked(old(hdr), a, false)
      ensures listed == old(listed)[a := blockSize] && Total(listed) == old(Total(listed)) + blockSize
      ensures blockSize < 128 ==> FreeLists == old(FreeLists)[blockSize := old(FreeLists[blockSize]) + [a]]
      ensures blockSize >= 128 ==> InsertedBefore(old(FreeLists[0]), old(listed), a, blockSize, FreeLists[0])
                                   && FreeLists == old(FreeLists)[0 := FreeLists[0]]
    {
      var k, pos := 0, 0;
      if blockSize < 128 {
        // dedicated list
        k, pos := blockSize, |FreeLists[blockSize]|;
        Inserted(FreeLists, FreeListsInUse, listed, a, blockSize, pos);
        if FreeLists[blockSize] == [] {
          FreeListsInUse := FreeListsInUse[blockSize := true];
        }
        assert FreeListsInUse == old(FreeListsInUse)[blockSize := true];
        assert InsertedAt(FreeLists[blockSize], pos, a) == FreeLists[blockSize] + [a];
      } else {
        // non-dedicated one: the list must be sorted
        assert ListOk(FreeLists[0], 0, listed);
        while pos < |FreeLists[0]| && hdr[FreeLists[0][pos]].size < blockSize
          invariant pos <= |FreeLists[0]|
          invariant forall j :: 0 <= j < pos ==> listed[FreeLists[0][j]] < blockSize
        {
          pos := pos + 1;
        }
        Inserted(FreeLists, FreeListsInUse, listed, a, blockSize, pos);
      }
      TotalWith(listed, a, blockSize);
      FreeLists := FreeLists[k := InsertedAt(FreeLists[k], pos, a)];
      hdr := Marked(hdr, a, false);
      listed := listed[a := blockSize];
    }

    /** RtlpRemoveFreeBlock (rtl/heap.c:382-396). */
    method RemoveFreeBlock(a: int)
      requires Lists() && Agree(hdr, listed) && a in listed
      modifies this`FreeLists, this`FreeListsInUse, this`listed
      ensures Lists() && Agree(hdr, listed) && listed == old(listed) - {a}
          && Total(listed) == old(Total(listed)) - hdr[a].size
      ensures TakenFrom(old(FreeLists), if hdr[a].size < 128 then hdr[a].size else 0, a, FreeLists)
    {
      var size := hdr[a].size;
      var k := Home(size);
      assert Filed(FreeLists, listed, a);
      var pos := IndexOf(FreeLists[k], a);
      HeapFreeLists.Removed(FreeLists, FreeListsInUse, listed, k, pos);
      TotalWithout(listed, a);
      FreeLists := FreeLists[k := RemovedAt(FreeLists[k], pos)];
      if FreeLists[k] == [] && size < 128 {
        FreeListsInUse := FreeListsInUse[size := false];
      }
      listed := listed - {a};
    }

    /** One piece of the block that RtlpInsertFreeBlock inserts (rtl/heap.c:341-365). */
    method InsertPiece(cur: int, size: int, prev: int, busy: bool, last: bool, seg: int)
      requires Lists() && Agree(hdr, listed) && 0 < size <= MaxBlock && cur !in listed
      modifies this`hdr, this`FreeLists, this`FreeListsInUse, this`listed
      ensures Lists() && Agree(hdr, listed) && hdr == old(hdr)[cur := Entry(size, prev, false, last, seg)]
      ensures listed == old(listed)[cur := size] && Total(listed) == old(Total(listed)) + size
    {
      hdr := hdr[cur := Entry(size, prev, busy, last, seg)];
      InsertFreeBlockHelper(cur, size);
    }

    /** Part of a block of `whole` entries at a has been inserted in pieces; cur is next, rest is left. */
    ghost predicate Going(h0: Headers, w: Headers, a: int, whole: int, total: int, cur: int, rest: int, prev: int,
        last: bool, seg: int)
      reads this
    {
      && Progress(h0, w, a, whole, hdr, AreasOf(Segments), listed, cur, rest, prev, last, seg)
      && Lists() && Agree(hdr, listed) && Total(listed) + rest == total
    }

    /** One iteration of RtlpInsertFreeBlock (rtl/heap.c:340-371). */
    method InsertNext(ghost h0: Headers, ghost w: Headers, ghost a: int, ghost whole: int, ghost total: int,
                      cur: int, rest: int, prev: int, busy: bool, last: bool, seg: int)
      returns (cur': int, rest': int, size: int, atEnd: bool)
      requires rest > 0 && Going(h0, w, a, whole, total, cur, rest, prev, last, seg)
      modifies this`hdr, this`FreeLists, this`FreeListsInUse, this`listed
      ensures Going(h0, w, a, whole, total, cur', rest', size, last, seg)
      ensures PiecesOf(listed, cur', rest') == PiecesOf(old(listed), cur, rest)
      ensures 0 <= rest' < rest && (atEnd ==> rest' == 0)
    {
      ghost var h, sizes := hdr, listed;
      ProgressNext(h0, w, a, whole, h, AreasOf(Segments), sizes, cur, rest, prev, last, seg);
      size := ChunkSize(rest);
      InsertPiece(cur, size, prev, busy && size == rest, last && size == rest, seg);
      cur', rest' := cur + size, rest - size;
      ProgressStep(h0, w, a, whole, h, AreasOf(Segments), sizes, cur, rest, prev, last, seg, size, hdr, listed, cur',
          rest');
      PiecesNext(sizes, listed, cur, rest, size, cur', rest');
      assert AreasOf(Segments)[seg].end == Segments[seg].LastValidEntry;
      atEnd := cur' >= Segments[seg].LastValidEntry;
    }

    /** The loop of RtlpInsertFreeBlock (rtl/heap.c:340-374). */
    method InsertPieces(a: int, blockSize: int, prev0: int, busy: bool, last: bool, seg: int,
                        ghost h0: Headers, ghost w: Headers, ghost total: int) returns (cur: int, prev: int)
      requires blockSize > 0 && Going(h0, w, a, blockSize, total, a, blockSize, prev0, last, seg)
      modifies this`hdr, this`FreeLists, this`FreeListsInUse, this`listed
      ensures Going(h0, w, a, blockSize, total, cur, 0, prev, last, seg)
      ensures listed == PiecesOf(old(listed), a, blockSize)
    {
      var rest := blockSize;
      cur, prev := a, prev0;
      while rest != 0
        invariant rest >= 0 && Going(h0, w, a, blockSize, total, cur, rest, prev, last, seg)
        invariant PiecesOf(listed, cur, rest) == PiecesOf(old(listed), a, blockSize)
      {
        var atEnd;
        cur, rest, prev, atEnd := InsertNext(h0, w, a, blockSize, total, cur, rest, prev, busy, last, seg);
        if atEnd { break; }
      }
    }

    /** RtlpInsertFreeBlock (rtl/heap.c:318-380): a block of any size, in pieces if it is too large. */
    method InsertFreeBlock(a: int, blockSize: int)
      requires a in hdr && blockSize > 0 && Lists() && Agree(hdr, listed)
      requires Inserting(hdr, AreasOf(Segments), listed, a, blockSize, hdr[a].prev, hdr[a].last, hdr[a].seg)
      modifies this`hdr, this`FreeLists, this`FreeListsInUse, this`listed, this`TotalFreeSize
      ensures
        var w := Settled(old(hdr), a, blockSize, old(hdr)[a].prev, old(hdr)[a].last, old(hdr)[a].seg);
        && Layout(hdr, AreasOf(Segments)) && BusyOf(hdr) == BusyOf(w) && KeepsOthers(old(hdr), hdr, a)
        && (blockSize <= MaxBlock ==> hdr == w)
      ensures
        var was := old(hdr)[a];
        a in hdr && hdr[a] == Entry(ChunkSize(blockSize), hdr[a].prev, false, was.last
            && blockSize <= MaxBlock, was.seg)
      ensures blockSize > MaxBlock ==> SecondPiece(hdr, a, blockSize, a + blockSize, old(hdr)[a].last, old(hdr)[a].seg)
      ensures Lists() && listed == FreeOf(hdr) && listed == PiecesOf(old(listed), a, blockSize)
      ensures Total(listed) == old(Total(listed)) + blockSize && TotalFreeSize == old(TotalFreeSize) + blockSize
    {
      TotalFreeSize := TotalFreeSize + blockSize;
      var Entry(_, prev0, busy, last, seg) := hdr[a];
      ghost var w := Settled(hdr, a, blockSize, prev0, last, seg);
      var cur, prev := InsertPieces(a, blockSize, prev0, busy, last, seg, hdr, w, Total(listed) + blockSize);
      ProgressDone(old(hdr), w, a, blockSize, hdr, AreasOf(Segments), listed, cur, prev, last, seg,
          Settled(hdr, cur, 0, prev, last, seg));
      if !last {
        hdr := hdr[cur := hdr[cur].(prev := prev)];
      }
    }

    /** The block at x takes over the one at n, right after it (rtl/heap.c:1034-1050, 1068-1091). */
    method Absorb(x: int, n: int)
      requires x in hdr && n in hdr && hdr[x].size > 0 && hdr[n].size > 0 && n == x + hdr[x].size
          && hdr[x].seg in Segments
      requires !hdr[n].last ==> n + hdr[n].size in hdr
      modifies this`hdr, this`Segments
      ensures Absorbed(old(hdr), old(Segments), x, n, hdr, Segments)
    {
      var size, last := hdr[x].size + hdr[n].size, hdr[n].last;
      // the header at n is gone
      hdr := hdr[x := hdr[x].(size := size, busy := false, last := last)] - {n};
      if !last {
        hdr := hdr[x + size := hdr[x + size].(prev := size)];
      } else {
        Segments := SetLast(Segments, hdr[x].seg, x);
      }
    }

    /** The same, when the free block f, one of the two, is still in the lists. */
    method TakeIn(x: int, n: int, f: int)
      requires Lists() && Agree(hdr, listed) && f in listed && f in {x, n}
      requires x in hdr && n in hdr && hdr[x].size > 0 && hdr[n].size > 0 && n == x + hdr[x].size
          && hdr[x].seg in Segments
      requires !hdr[n].last ==> n + hdr[n].size in hdr
      modifies this`hdr, this`FreeLists, this`FreeListsInUse, this`listed, this`TotalFreeSize, this`Segments
      ensures Lists() && listed == old(listed) - {f} && Absorbed(old(hdr), old(Segments), x, n, hdr, Segments)
      ensures TotalFreeSize == old(TotalFreeSize) - old(hdr)[f].size
          && Total(listed) == old(Total(listed)) - old(hdr)[f].size
    {
      RemoveFreeBlock(f);
      TotalFreeSize := TotalFreeSize - hdr[f].size;
      Absorb(x, n);
    }

    /** The first half of RtlpCoalesceFreeBlocks (rtl/heap.c:1007-1051). */
    method CoalescePrevious(a: int, freeSize: int) returns (b: int, size: int)
      requires Lists() && Loose(hdr, Segments, listed, a) && hdr[a].size == freeSize
      modifies this`hdr, this`FreeLists, this`FreeListsInUse, this`listed, this`TotalFreeSize, this`Segments
      ensures Lists() && Loose(hdr, Segments, listed, b) && hdr[b].size == size
          && AreasOf(Segments) == old(AreasOf(Segments))
      ensures BusyOf(hdr) - {b} == BusyOf(old(hdr)) - {a}
      ensures b <= a && a + freeSize <= b + size
          && (b == a ==> size == freeSize && hdr == old(hdr) && Segments == old(Segments))
      ensures b != a ==> freeSize < size <= MaxBlock
      ensures b != a ==> b == a - old(hdr)[a].prev && b in old(hdr) && !old(hdr)[b].busy
      ensures b != a <==> exists p :: FitsBefore(old(listed), p, a, freeSize)
      ensures b != a ==> FitsBefore(old(listed), b, a, freeSize) && size == freeSize + (a - b)
      ensures listed == if b == a then old(listed) else old(listed) - {b}
      ensures (!hdr[b].last ==> Segments == old(Segments)) && hdr[b].seg == old(hdr)[a].seg
          && hdr[b].last == old(hdr)[a].last
      ensures (hdr[b].busy ==> old(hdr)[a].busy) && LastSet(old(hdr), old(Segments)) <= LastSet(hdr, Segments)
      ensures TotalFreeSize + size == old(TotalFreeSize) + freeSize
          && Total(listed) + size == old(Total(listed)) + freeSize
    {
      ghost var h, segs, sizes := hdr, Segments, listed;
      PreviousView(h, segs, sizes, a);
      forall p | FitsBefore(sizes, p, a, freeSize)
        ensures p == a - h[a].prev && p != a && p in h && !h[p].busy && freeSize + h[p].size <= MaxBlock
      {
        BlockBefore(h, segs, sizes, a, p);
      }
      var p := a - hdr[a].prev;
      if p == a || hdr[p].busy || freeSize + hdr[p].size > MaxBlock {
        return a, freeSize;
      }
      assert FitsBefore(sizes, p, a, freeSize);
      LooseAgree(h, segs, sizes, a);
      b, size := p, freeSize + hdr[p].size;
      TakeIn(p, a, p);
      JoinPrevious(h, segs, sizes, p, a, hdr, Segments, listed);
    }

    /** The second half of RtlpCoalesceFreeBlocks (rtl/heap.c:1053-1093). */
    method CoalesceNext(a: int, freeSize: int) returns (size: int)
      requires Lists() && Loose(hdr, Segments, listed, a) && hdr[a].size == freeSize
      modifies this`hdr, this`FreeLists, this`FreeListsInUse, this`listed, this`TotalFreeSize, this`Segments
      ensures Lists() && Loose(hdr, Segments, listed, a) && hdr[a].size == size
          && AreasOf(Segments) == old(AreasOf(Segments))
      ensures BusyOf(hdr) - {a} == BusyOf(old(hdr)) - {a}
      ensures freeSize <= size && (size == freeSize ==> hdr == old(hdr) && Segments == old(Segments))
          && (size == freeSize || size <= MaxBlock)
      ensures
        var n, was := a + freeSize, old(listed);
        if FitsBehind(was, n, freeSize) then size == freeSize + was[n] && size > freeSize && listed == was - {n}
        else size == freeSize && listed == was
      ensures (!hdr[a].last ==> Segments == old(Segments)) && hdr[a].seg == old(hdr)[a].seg
          && (old(hdr)[a].last ==> hdr[a].last)
      ensures (hdr[a].busy ==> old(hdr)[a].busy) && LastSet(old(hdr), old(Segments)) <= LastSet(hdr, Segments)
      ensures TotalFreeSize + size == old(TotalFreeSize) + freeSize
          && Total(listed) + size == old(Total(listed)) + freeSize
    {
      ghost var h, segs, sizes := hdr, Segments, listed;
      BlockBehind(h, segs, sizes, a);
      if hdr[a].last {
        return freeSize;
      }
      NextView(h, segs, sizes, a);
      var n := a + freeSize;
      if hdr[n].busy || hdr[n].size + freeSize > MaxBlock {
        return freeSize;
      }
      LooseAgree(h, segs, sizes, a);
      size := freeSize + hdr[n].size;
      TakeIn(a, n, n);
      JoinNext(h, segs, sizes, a, n, hdr, Segments, listed);
    }

    /** RtlpCoalesceFreeBlocks (rtl/heap.c:999-1095) for a block that is not in the lists, which is
        the only way it is called. */
    method CoalesceFreeBlocks(a: int, freeSize: int) returns (b: int, size: int)
      requires Lists() && Loose(hdr, Segments, listed, a) && hdr[a].size == freeSize
      modifies this`hdr, this`FreeLists, this`FreeListsInUse, this`listed, this`TotalFreeSize, this`Segments
      ensures Lists() && Loose(hdr, Segments, listed, b) && hdr[b].size == size
          && AreasOf(Segments) == old(AreasOf(Segments))
      ensures BusyOf(hdr) - {b} == BusyOf(old(hdr)) - {a}
      ensures b <= a && a + freeSize <= b + size && (size == freeSize || size <= MaxBlock)
      ensures size == freeSize ==> b == a && hdr == old(hdr) && Segments == old(Segments)
      ensures Coalesced(old(listed), a, freeSize, b, size) && listed == Outside(old(listed), b, b + size)
      ensures b != a ==> b == a - old(hdr)[a].prev && b in old(hdr) && !old(hdr)[b].busy
      ensures (!hdr[b].last ==> Segments == old(Segments)) && hdr[b].seg == old(hdr)[a].seg
          && (old(hdr)[a].last ==> hdr[b].last)
      ensures (hdr[b].busy ==> old(hdr)[a].busy) && LastSet(old(hdr), old(Segments)) <= LastSet(hdr, Segments)
      ensures TotalFreeSize + size == old(TotalFreeSize) + freeSize
          && Total(listed) + size == old(Total(listed)) + freeSize
    {
      ghost var h, segs, sizes := hdr, Segments, listed;
      b, size := CoalescePrevious(a, freeSize);
      ghost var mid := listed;
      size := CoalesceNext(b, size);
      CoalescedOutside(h, segs, sizes, a, b, mid, size, listed);
      assert Coalesced(sizes, a, freeSize, b, size);
    }

    /** RtlpInsertFreeBlock for a block in flight. */
    method InsertLoose(a: int, size: int)
      requires Lists() && Loose(hdr, Segments, listed, a) && hdr[a].size == size
      modifies this`hdr, this`FreeLists, this`FreeListsInUse, this`listed, this`TotalFreeSize
      ensures Lists() && Whole(hdr, Segments, listed) && BusyOf(hdr) == BusyOf(old(hdr)) - {a}
      ensures old(hdr)[a].seg in Segments && NotBase(AreasOf(Segments), a)
      ensures size > 0 && a in hdr && hdr[a].size == ChunkSize(size) && !hdr[a].busy && hdr[a].seg == old(hdr)[a].seg
      ensures size <= MaxBlock ==> hdr == Marked(old(hdr), a, false)
      ensures listed == PiecesOf(old(listed), a, size)
      ensures Lasts(old(hdr), Segments, hdr, Segments, Outgrown(old(hdr), Segments, a))
      ensures TotalFreeSize == old(TotalFreeSize) + size && Total(listed) == old(Total(listed)) + size
    {
      ghost var h, sizes := hdr, listed;
      LooseInserting(h, Segments, sizes, a);
      LooseAgree(h, Segments, sizes, a);
      InsertFreeBlock(a, size);
      KeptSegments(h, hdr, Segments, sizes, a);
    }

    /** Record the decommitted pages in their segment (rtl/heap.c:842-844). */
    method RecordUnCommitted(i: int, from: int, to: int)
      requires i in Segments && SegmentOk(hdr, Segments[i]) && PageAligned(Range(from, to - from))
      requires Pages(from, to - from) !! Union(Segments[i].UCRSegmentList)
      modifies this`Segments
      ensures RecordedPages(old(Segments), Segments, i, from, to)
    {
      var s := Segments[i];
      var u, count := InsertUnCommittedPages(s.UCRSegmentList, s.NumberOfUnCommittedRanges, from, to - from);
      PageCount(from, to - from);
      Segments := Segments[i := s.(UCRSegmentList := u, NumberOfUnCommittedRanges := count,
                                   NumberOfUnCommittedPages := s.NumberOfUnCommittedPages + (to - from) / 512)];
    }

    /** What stays before the decommitted pages (rtl/heap.c:846-868). */
    method DecommitHead(a: int, from: int, to: int)
      requires Lists() && Agree(hdr, listed) && a in hdr && a !in listed && hdr[a].seg in Segments
          && a <= from <= a + 513
      requires hdr[a].prev >= 0 && (from == a && hdr[a].prev != 0 ==> a - hdr[a].prev in hdr)
      modifies this`hdr, this`FreeLists, this`FreeListsInUse, this`listed, this`TotalFreeSize, this`Segments
      ensures Lists() && Agree(hdr, listed) && hdr == RewrittenHead(old(hdr), a, from)
      ensures listed == HeadListed(old(listed), a, from)
      ensures Segments == SetLast(old(Segments), old(hdr)[a].seg,
          LastAfter(old(hdr), old(Segments)[old(hdr)[a].seg], a, from, to))
      ensures TotalFreeSize - Total(listed) == old(TotalFreeSize) - old(Total(listed))
    {
      var i, prev := hdr[a].seg, hdr[a].prev;
      if from > a {
        hdr := hdr[a := Entry(from - a, prev, false, true, i)];
        TotalFreeSize := TotalFreeSize + (from - a);
        Segments := SetLast(Segments, i, a);
        InsertFreeBlockHelper(a, from - a);
      } else {
        if prev != 0 {
          hdr := hdr[a - prev := hdr[a - prev].(last := true)];
          Segments := SetLast(Segments, i, a - prev);
        } else if from <= Segments[i].LastEntryInSegment < to {
          Segments := SetLast(Segments, i, Segments[i].FirstEntry());
        }
        // the header at a is gone
        hdr := hdr - {a};
      }
    }

    /** What stays after the decommitted pages (rtl/heap.c:870-887). */
    method DecommitTail(e: Entry, end: int, to: int)
      requires Lists() && Agree(hdr, listed) && to <= end <= to + 513 && (to < end ==> to !in listed)
          && (!e.last ==> end in hdr) && (e.last ==> to == end)
      modifies this`hdr, this`FreeLists, this`FreeListsInUse, this`listed, this`TotalFreeSize
      ensures Lists() && hdr == RewrittenTail(old(hdr), e, end, to)
      ensures listed == TailListed(old(listed), end, to)
      ensures TotalFreeSize - Total(listed) == old(TotalFreeSize) - old(Total(listed))
    {
      if to < end {
        hdr := hdr[to := Entry(end - to, 0, false, false, e.seg)];
        hdr := hdr[end := hdr[end].(prev := end - to)];
        TotalFreeSize := TotalFreeSize + (end - to);
        InsertFreeBlockHelper(to, end - to);
      } else if !e.last {
        hdr := hdr[end := hdr[end].(prev := 0)];
      }
    }

    /** Does freeing the block give pages back? (rtl/heap.c:759-816) */
    predicate Decommits(a: int, size: int) {
      !CommitRoutine && DecommitFrom(a) < DecommitTo(a + size)
    }

    /** The headers and lists once the pages from..to inside the block at a have gone (rtl/heap.c:846-887). */
    method DecommitPages(a: int, from: int, to: int)
      requires Lists() && Agree(hdr, listed) && Planned(hdr, listed, a, from, to) && hdr[a].seg in Segments
      modifies this`hdr, this`FreeLists, this`FreeListsInUse, this`listed, this`TotalFreeSize, this`Segments
      ensures Lists() && TotalFreeSize - Total(listed) == old(TotalFreeSize) - old(Total(listed))
      ensures Segments == SetLast(old(Segments), old(hdr)[a].seg,
          LastAfter(old(hdr), old(Segments)[old(hdr)[a].seg], a, from, to))
      ensures hdr == Rewritten(old(hdr), a, from, to)
      ensures listed == Remainders(old(listed), a, from, to, a + old(hdr)[a].size)
    {
      var e := hdr[a];
      DecommitHead(a, from, to);
      DecommitTail(e, a + e.size, to);
    }

    method DecommitWrite(a: int, from: int, to: int)
      requires Lists() && Agree(hdr, listed) && Returnable(hdr, Segments, listed, a, from, to)
      modifies this`hdr, this`FreeLists, this`FreeListsInUse, this`listed, this`TotalFreeSize, this`Segments
      ensures Lists() && TotalFreeSize - Total(listed) == old(TotalFreeSize) - old(Total(listed))
      ensures Returned(old(hdr), old(Segments), old(listed), a, from, to, hdr, Segments, listed)
    {
      ghost var h, segs := hdr, Segments;
      RecordUnCommitted(hdr[a].seg, from, to);
      ghost var segs1 := Segments;
      DecommitPages(a, from, to);
      RecordedBoth(h, segs, a, from, to, segs1, Segments);
    }

    /** The pages inside the block are returned (rtl/heap.c:818-887). */
    method DecommitMiddle(a: int, size: int, from: int, to: int)
      requires Lists() && Loose(hdr, Segments, listed, a) && hdr[a].size == size && from < to
      requires from == DecommitFrom(a) && to == DecommitTo(a + size)
      modifies this`hdr, this`FreeLists, this`FreeListsInUse, this`listed, this`TotalFreeSize, this`Segments
      ensures Lists() && Decommitted(old(hdr), old(Segments), old(listed), a, from, to, hdr, Segments, listed)
      ensures TotalFreeSize - Total(listed) == old(TotalFreeSize) - old(Total(listed))
    {
      ghost var h, segs, sizes := hdr, Segments, listed;
      DecommitReady(h, segs, sizes, a, from, to);
      LooseAgree(h, segs, listed, a);
      DecommitWrite(a, from, to);
      DecommitDone(h, segs, sizes, a, from, to, hdr, Segments, listed);
    }

    /** RtlpDeCommitFreeBlock (rtl/heap.c:745-888), for a block in flight. */
    method DeCommitFreeBlock(a: int, size: int)
      requires Lists() && Loose(hdr, Segments, listed, a) && hdr[a].size == size
      modifies this`hdr, this`FreeLists, this`FreeListsInUse, this`listed, this`TotalFreeSize, this`Segments
      ensures Lists()
          && Put(old(hdr), old(Segments), old(listed), a, size, Decommits(a, size), hdr, Segments, listed)
      ensures TotalFreeSize - Total(listed) == old(TotalFreeSize) - old(Total(listed))
    {
      if Decommits(a, size) {
        DecommitMiddle(a, size, DecommitFrom(a), DecommitTo(a + size));
      } else {
        InsertLoose(a, size);
      }
    }

    /** The invariant that RtlpValidateHeap checks (rtl/heap.c:3281-3617). */
    ghost predicate Sound()
      reads this
    {
      Lists() && Whole(hdr, Segments, listed) && TotalFreeSize == Total(listed)
    }

    /** Moreover LastEntryInSegment can be relied on. */
    ghost predicate Valid()
      reads this
    {
      Sound() && AllLast(hdr, Segments)
    }

    /** Freeing an entry that has outgrown HEAP_MAX_BLOCK_SIZE and ends its run leaves
        LastEntryInSegment on the first of the pieces, unless pages are given back. */
    ghost predicate FreeStrands(a: int)
      requires a in hdr
      reads this
    {
      && Outgrown(hdr, Segments, a) != {}
      && (hdr[a].size < DeCommitFreeBlockThreshold || TotalFreeSize + hdr[a].size < DeCommitTotalFreeThreshold
          || !Decommits(a, hdr[a].size))
    }

    ghost function FreeLost(a: int): set<int>
      requires a in hdr
      reads this
    {
      if FreeStrands(a) then {hdr[a].seg} else {}
    }

    /** The usual free list (rtl/heap.c:2306-2319). */
    method InsertUsual(a: int, size: int)
      requires Lists() && Loose(hdr, Segments, listed, a) && hdr[a].size == size
      modifies this`hdr, this`FreeLists, this`FreeListsInUse, this`listed, this`TotalFreeSize
      ensures Lists() && Whole(hdr, Segments, listed) && BusyOf(hdr) == BusyOf(old(hdr)) - {a}
      ensures LastSet(hdr, Segments) == LastSet(old(hdr), Segments) && listed == old(listed)[a := size]
      ensures TotalFreeSize == old(TotalFreeSize) + size && Total(listed) == old(Total(listed)) + size
    {
      WholeFromLoose(hdr, Segments, listed, a);
      LooseAgree(hdr, Segments, listed, a);
      InsertFreeBlockHelper(a, size);
      TotalFreeSize := TotalFreeSize + size;
    }

    /** A free block gives pages back when it and the free memory together are large enough. */
    predicate GivesBack(a: int, size: int, total: int) {
      size >= DeCommitFreeBlockThreshold && total >= DeCommitTotalFreeThreshold && Decommits(a, size)
    }

    /** Where a freed block goes (rtl/heap.c:2296-2333). */
    method PutBack(a: int, size: int)
      requires Lists() && Loose(hdr, Segments, listed, a) && hdr[a].size == size && TotalFreeSize == Total(listed)
      modifies this`hdr, this`FreeLists, this`FreeListsInUse, this`listed, this`TotalFreeSize, this`Segments
      ensures Sound()
      ensures var gives := GivesBack(a, size, old(TotalFreeSize) + size);
              Put(old(hdr), old(Segments), old(listed), a, size, gives, hdr, Segments, listed)
    {
      if size < DeCommitFreeBlockThreshold || TotalFreeSize + size < DeCommitTotalFreeThreshold {
        PutInLists(a, size);
      } else {
        DeCommitFreeBlock(a, size);
      }
    }

    /** No pages are given back (rtl/heap.c:2299-2319). */
    method PutInLists(a: int, size: int)
      requires Lists() && Loose(hdr, Segments, listed, a) && hdr[a].size == size
      modifies this`hdr, this`FreeLists, this`FreeListsInUse, this`listed, this`TotalFreeSize
      ensures Lists() && Put(old(hdr), Segments, old(listed), a, size, false, hdr, Segments, listed)
      ensures TotalFreeSize - Total(listed) == old(TotalFreeSize) - old(Total(listed))
    {
      LooseInserting(hdr, Segments, listed, a);
      if size > MaxBlock {
        InsertLoose(a, size);
      } else {
        OnePiece(listed, a, size);
        InsertUsual(a, size);
      }
    }

    /** A busy block goes back to the lists. */
    method FreeBusy(a: int) returns (ghost b: int, ghost whole: int)
      requires Sound() && a in hdr && NotBase(AreasOf(Segments), a) && hdr[a].busy
      modifies this`hdr, this`FreeLists, this`FreeListsInUse, this`listed, this`TotalFreeSize, this`Segments
      ensures Sound()
      ensures var gives := GivesBack(b, whole, old(TotalFreeSize) + old(hdr)[a].size);
              Freed(old(hdr), old(Segments), a, !DisableCoalesceOnFree, b, whole, gives, hdr, Segments)
    {
      ghost var h, segs, sizes, total := hdr, Segments, listed, TotalFreeSize + hdr[a].size;
      LooseFromWhole(h, segs, sizes, a);
      var start, size := CoalesceFreed(a, hdr[a].size);
      b, whole := start, size;
      ghost var gives, h1, segs1, sizes1 := GivesBack(b, whole, total), hdr, Segments, listed;
      PutBack(start, size);
      FreedIs(h, segs, sizes, a, !DisableCoalesceOnFree, b, whole, h1, segs1, sizes1, gives, hdr, Segments, listed);
    }

    /** Coalesce unless that is disabled (rtl/heap.c:2285-2294). */
    method CoalesceFreed(a: int, freeSize: int) returns (b: int, size: int)
      requires Lists() && Loose(hdr, Segments, listed, a) && hdr[a].size == freeSize
      modifies this`hdr, this`FreeLists, this`FreeListsInUse, this`listed, this`TotalFreeSize, this`Segments
      ensures Lists() && Joint(old(hdr), old(Segments), old(listed), a, !DisableCoalesceOnFree, b, size, hdr, Segments,
        listed)
      ensures TotalFreeSize + size == old(TotalFreeSize) + freeSize
          && Total(listed) + size == old(Total(listed)) + freeSize
    {
      if !DisableCoalesceOnFree {
        b, size := CoalesceFreeBlocks(a, freeSize);
      } else {
        NoneInside(hdr, Segments, listed, a);
        b, size := a, freeSize;
      }
    }

    /** RtlFreeHeap (rtl/heap.c:2198-2340). */
    method FreeHeap(a: int) returns (ok: bool, ghost b: int, ghost whole: int)
      requires Sound() && a in hdr && NotBase(AreasOf(Segments), a)
      modifies this`hdr, this`FreeLists, this`FreeListsInUse, this`listed, this`TotalFreeSize, this`Segments
      ensures Sound() && ok == old(hdr)[a].busy && Segments.Keys == old(Segments).Keys
      ensures BusyOf(hdr) == if ok then BusyOf(old(hdr)) - {a} else BusyOf(old(hdr))
      ensures !ok ==> hdr == old(hdr) && FreeLists == old(FreeLists) && Segments == old(Segments)
      ensures ok ==>
                var gives := GivesBack(b, whole, old(TotalFreeSize) + old(hdr)[a].size);
                Freed(old(hdr), old(Segments), a, !DisableCoalesceOnFree, b, whole, gives, hdr, Segments)
      ensures ok ==>
                (GivesBack(b, whole, old(TotalFreeSize) + old(hdr)[a].size) <==>
                 && whole >= DeCommitFreeBlockThreshold
                 && old(TotalFreeSize) + old(hdr)[a].size >= DeCommitTotalFreeThreshold && Decommits(b, whole))
      ensures ok ==> Lasts(old(hdr), old(Segments), hdr, Segments, old(FreeLost(a)))
      ensures old(AllLast(hdr, Segments)) ==> (AllLast(hdr, Segments) <==> !(ok && old(FreeStrands(a))))
    {
      ok := hdr[a].busy;
      b, whole := a, 0;
      if ok {
        ghost var h, segs, sizes, lost, total := hdr, Segments, listed, FreeLost(a), TotalFreeSize + hdr[a].size;
        b, whole := FreeBusy(a);
        FreedWhole(h, segs, sizes, a, b, whole, !DisableCoalesceOnFree);
        assert lost == FreedLost(h, segs, a, b, whole, GivesBack(b, whole, total));
        LastsAll(h, segs, hdr, Segments, lost);
      }
    }

    /** The remainder ends its run (rtl/heap.c:1731-1744). */
    method EndTail(b: int, ghost t: Headers)
      requires Lists() && Telling(hdr, b, t) && Tail(t, Segments, listed, b) && hdr[b].last
      modifies this`hdr, this`FreeLists, this`FreeListsInUse, this`listed, this`TotalFreeSize, this`Segments
      ensures Lists() && Tailed(t, old(Segments), old(listed), b, hdr, Segments, listed)
      ensures TotalFreeSize - Total(listed) == old(TotalFreeSize) - old(Total(listed))
    {
      ghost var h, segs, sizes := hdr, Segments, listed;
      ToldNext(h, t, segs, sizes, b);
      TailAtEnd(h, segs, sizes, b);
      Segments := SetLast(Segments, hdr[b].seg, b);
      InsertUsual(b, hdr[b].size);
      ReleasedAtEnd(h, segs, sizes, b, hdr, Segments);
      TailedLone(t, segs, sizes, b, hdr, Segments, listed);
    }

    /** The block after the remainder is busy (rtl/heap.c:1747-1753). */
    method LoneTail(b: int, n: int, ghost t: Headers)
      requires Lists() && Telling(hdr, b, t) && Tail(t, Segments, listed, b) && !hdr[b].last
      requires n == b + hdr[b].size && n in hdr && hdr[n].busy
      modifies this`hdr, this`FreeLists, this`FreeListsInUse, this`listed, this`TotalFreeSize, this`Segments
      ensures Lists() && Tailed(t, old(Segments), old(listed), b, hdr, Segments, listed)
      ensures TotalFreeSize - Total(listed) == old(TotalFreeSize) - old(Total(listed))
    {
      ghost var segs, sizes := Segments, listed;
      ToldNext(hdr, t, segs, sizes, b);
      TailLoose(t, segs, sizes, b);
      hdr := hdr[n := hdr[n].(prev := hdr[b].size)];
      assert hdr == t;
      InsertUsual(b, hdr[b].size);
      ReleasedPlain(t, segs, b, hdr, Segments);
      TailedLone(t, segs, sizes, b, hdr, Segments, listed);
    }

    /** The remainder and the free block after it fit one entry (rtl/heap.c:1755-1774, 2518-2536). */
    method MergeTail(b: int, n: int, ghost t: Headers)
      requires Lists() && Telling(hdr, b, t) && Tail(t, Segments, listed, b) && !hdr[b].last
      requires n == b + hdr[b].size && n in hdr && !hdr[n].busy && hdr[n].size > 0
          && hdr[b].size + hdr[n].size <= MaxBlock
      modifies this`hdr, this`FreeLists, this`FreeListsInUse, this`listed, this`TotalFreeSize, this`Segments
      ensures Lists() && Tailed(t, old(Segments), old(listed), b, hdr, Segments, listed)
      ensures TotalFreeSize - Total(listed) == old(TotalFreeSize) - old(Total(listed))
    {
      ghost var h, segs, sizes := hdr, Segments, listed;
      ToldNext(h, t, segs, sizes, b);
      TailAgree(h, t, segs, sizes, b);
      assert TailOnFree(h, t, segs, sizes, b, n, h[b].size + h[n].size);
      TakeIn(b, n, n);
      MergedTail(h, t, segs, sizes, b, n, hdr, Segments, listed);
      ghost var sizes1 := listed;
      var whole := hdr[b].size;
      InsertUsual(b, whole);
      TailedMerged(h, t, segs, sizes, b, n, sizes1, whole, hdr, Segments, listed);
    }

    /** The remainder and the free block after it are too large for one entry (rtl/heap.c:1775-1779). */
    method PieceTail(b: int, n: int, ghost t: Headers)
      requires Lists() && Oversize(hdr, b) && Telling(hdr, b, t) && Tail(t, Segments, listed, b) && n == b + hdr[b].size
      modifies this`hdr, this`FreeLists, this`FreeListsInUse, this`listed, this`TotalFreeSize, this`Segments
      ensures Lists() && Tailed(t, old(Segments), old(listed), b, hdr, Segments, listed)
      ensures TotalFreeSize - Total(listed) == old(TotalFreeSize) - old(Total(listed))
    {
      ghost var h, segs, sizes := hdr, Segments, listed;
      ToldNext(h, t, segs, sizes, b);
      TailAgree(h, t, segs, sizes, b);
      var whole := hdr[b].size + hdr[n].size;
      assert TailOnFree(h, t, segs, sizes, b, n, whole);
      RemoveFreeBlock(n);
      TotalFreeSize := TotalFreeSize - hdr[n].size;
      // the header at n is gone
      hdr := Fused(hdr, b);
      ghost var h2, sizes1 := hdr, listed;
      OversizeInserting(h, t, segs, sizes, b, n, h2, listed, whole);
      InsertFreeBlock(b, whole);
      OversizeReleased(h, t, segs, sizes, b, h2, whole, hdr);
      TailedPieces(h, t, segs, sizes, b, n, sizes1, whole, hdr, listed);
    }

    /** The remainder at b becomes a free block, merged with the one after it if that is free
        (rtl/heap.c:1723-1789, 2463-2543, 2840-2918). */
    method ReleaseTail(b: int, ghost t: Headers)
      requires Lists() && Telling(hdr, b, t) && Tail(t, Segments, listed, b)
      modifies this`hdr, this`FreeLists, this`FreeListsInUse, this`listed, this`TotalFreeSize, this`Segments
      ensures Lists() && Tailed(t, old(Segments), old(listed), b, hdr, Segments, listed)
      ensures TotalFreeSize - Total(listed) == old(TotalFreeSize) - old(Total(listed))
    {
      ToldNext(hdr, t, Segments, listed, b);
      var n := b + hdr[b].size;
      if hdr[b].last {
        EndTail(b, t);
      } else if hdr[n].busy {
        LoneTail(b, n, t);
      } else if hdr[b].size + hdr[n].size <= MaxBlock {
        MergeTail(b, n, t);
      } else {
        PieceTail(b, n, t);
      }
    }

    /** The remainder of the block at a, cut after index entries, goes back to the lists. */
    method ReleaseRest(a: int, index: int, ghost h: Headers)
      requires Lists() && Held(h, Segments, listed, a) && 0 < index < h[a].size <= MaxBlock + 2
      requires hdr == CutForUser(h, a, index)
      modifies this`hdr, this`FreeLists, this`FreeListsInUse, this`listed, this`TotalFreeSize, this`Segments
      ensures Lists() && Whole(hdr, Segments, listed) && BusyOf(hdr) == BusyOf(h)[a := index]
      ensures AreasOf(Segments) == AreasOf(old(Segments))
      ensures Lasts(h, old(Segments), hdr, Segments, if CutStrands(h, old(Segments), a, index) then {h[a].seg} else {})
      ensures CutLeaves(h, old(Segments), a, index, hdr, Segments)
      ensures listed == RestFree(old(listed), a + index, h[a].size - index)
      ensures TotalFreeSize - Total(listed) == old(TotalFreeSize) - old(Total(listed))
    {
      ghost var segs, b := Segments, a + index;
      HeldCut(h, segs, listed, a, index);
      ghost var t := Told(hdr, b);
      ReleaseTail(a + index, t);
      CutReleased(h, segs, a, index, t, b, hdr, Segments);
    }

    /** The size a user gets who asks for index entries of the block: a lone entry is not split off. */
    function Granted(size: int, index: int): int {
      if size - index == 1 then size else index
    }

    /** RtlpSplitEntry (rtl/heap.c:1660-1798), for a free block that is off the lists. */
    method SplitEntry(a: int, index: int)
      requires Lists() && Loose(hdr, Segments, listed, a) && !hdr[a].busy && 0 < index <= hdr[a].size
      requires TotalFreeSize == Total(listed) + hdr[a].size
      modifies this`hdr, this`FreeLists, this`FreeListsInUse, this`listed, this`TotalFreeSize, this`Segments
      ensures Sound() && BusyOf(hdr) == BusyOf(old(hdr))[a := Granted(old(hdr)[a].size, index)]
      ensures AreasOf(Segments) == AreasOf(old(Segments))
      ensures
        Lasts(old(hdr), old(Segments), hdr, Segments, CutLost(old(hdr), old(Segments), a, index))
      ensures Handed(old(hdr), old(Segments), a, index, hdr, Segments)
      ensures
        var rest := old(hdr)[a].size - index;
        listed == if rest <= 1 then old(listed) else RestFree(old(listed), a + index, rest)
    {
      ghost var h, segs, sizes := hdr, Segments, listed;
      LooseHeld(h, segs, sizes, a);
      var Entry(size, prev, _, last, seg) := hdr[a];
      TotalFreeSize := TotalFreeSize - size;
      var extra := size - index;
      if extra <= 1 {
        WholeFromTaken(h, segs, sizes, a);
        hdr := hdr[a := Entry(index + extra, prev, true, last, seg)];
        assert hdr == Marked(h, a, true);
      } else {
        hdr := hdr[a := Entry(index, prev, true, false, seg)];
        hdr := hdr[a + index := Entry(extra, index, false, last, seg)];
        ReleaseRest(a, index, h);
        assert listed == RestFree(sizes, a + index, extra);
      }
    }

    /** The entry that ends the run before the k-th uncommitted range (rtl/heap.c:668-686). Where no block
        starts at LastEntryInSegment, the bytes there are stale. */
    method FindLast(i: int, k: nat, stale: Entry) returns (torn: bool, l: int)
      requires Layout(hdr, AreasOf(Segments)) && SegmentsOk(hdr, Segments) && i in Segments
      requires k < |Segments[i].UCRSegmentList|
      ensures torn <==> Believed(hdr, Segments[i], k, stale)
      ensures !torn ==> l in hdr && hdr[l].last && hdr[l].seg == i
                        && l + hdr[l].size == Segments[i].UCRSegmentList[k].Address
    {
      var u, p := Segments[i].UCRSegmentList, Segments[i].UCRSegmentList[k].Address;
      l := Segments[i].LastEntryInSegment;
      var read := if l in hdr then hdr[l] else stale;
      if read.last && l + read.size == p {
        if l in hdr { ReadEnd(hdr, Segments, i, k, l); }
        return l !in hdr, l;
      }
      torn := false;
      // go through the entries to find the last one
      RunBegins(hdr, Segments, i, k);
      l := if k == 0 then Segments[i].BaseAddress else u[k - 1].Address + u[k - 1].Size;
      while !hdr[l].last
        invariant InRun(hdr, Segments, i, k, l)
        decreases p - l
      {
        RunGoesOn(hdr, Segments, i, k, l);
        l := l + hdr[l].size;
      }
      RunGoesOn(hdr, Segments, i, k, l);
    }

    /** RtlpFindAndCommitPages (rtl/heap.c:611-743). The system commits exactly what is asked for. */
    method FindAndCommitPages(i: int, size: int, anywhere: bool, requested: int, stale: Entry)
      returns (found: bool, torn: bool, p: int)
      requires Lists() && Whole(hdr, Segments, listed) && i in Segments
      requires 0 < size <= MaxBlock && size % 512 == 0
      modifies this`hdr, this`Segments
      ensures torn <==> Misled(old(hdr), old(Segments)[i], size, anywhere, requested, stale)
      ensures found ==> (torn <==> !Layout(hdr, AreasOf(Segments)))
      ensures found ==> var u := old(Segments)[i].UCRSegmentList;
                exists j :: 0 <= j < |u| && u[j].Size >= size && (anywhere || u[j].Address == requested)
      ensures found && !torn ==>
                && Lists() && Loose(hdr, Segments, listed, p) && hdr[p].size == size && !hdr[p].busy
                && p !in old(hdr) && BusyOf(hdr) == BusyOf(old(hdr)) && (anywhere || p == requested)
                && FitsAt(old(Segments)[i].UCRSegmentList, p, size, anywhere, requested)
                && AreasOf(Segments) == With(AreasOf(old(Segments)), i, p, size)
                   && LastSet(old(hdr), old(Segments)) + {i} <= LastSet(hdr, Segments)
                && hdr[p].seg == i && (hdr[p].last || Segments[i].LastEntryInSegment == Segments[i].FirstEntry())
      ensures torn ==>
                found && Lists() && Broken(hdr, Segments)
                    && TornBy(old(hdr), old(Segments), i, size, anywhere, requested, stale, p, hdr, Segments)
      ensures !found ==>
                && hdr == old(hdr) && Segments == old(Segments)
                && var u := Segments[i].UCRSegmentList;
                   forall j :: 0 <= j < |u| ==> u[j].Size < size || !(anywhere || u[j].Address == requested)
    {
      var k := FindRange(Segments[i].UCRSegmentList, size, anywhere, requested);
      if k == |Segments[i].UCRSegmentList| {
        return false, false, 0;
      }
      ghost var h, segs := hdr, Segments;
      assert SegmentOk(h, segs[i]);
      var l;
      torn, l := FindLast(i, k, stale);
      found, p := true, Segments[i].UCRSegmentList[k].Address;
      MisledAt(h, segs[i], k, size, anywhere, requested, stale);
      var s := Taken(Segments[i], k, size);
      if torn {
        hdr := Torn(hdr, Segments[i], k, size, stale);
        Segments := Segments[i := s];
        TornFound(h, segs, i, k, size, anywhere, requested, stale, p, hdr, Segments);
      } else {
        hdr := Committed(hdr, Segments[i], i, k, size, l);
        Segments := Segments[i := s];
        CommittedLoose(h, segs, listed, i, k, size, l, hdr, Segments);
      }
    }

    /** The record of a new segment (rtl/heap.c:925-961). */
    method NewSegment(base: int, entrySize: int, reserve: int, commit: int) returns (s: Segment)
      requires 0 < commit <= reserve && base % 512 == 0 && commit % 512 == 0 && reserve % 512 == 0
      ensures Fresh(s, base, entrySize, reserve, commit)
    {
      var u, count := [], 0;
      PageCount(base + commit, reserve - commit);
      if reserve != commit {
        u, count := InsertUnCommittedPages([], 0, base + commit, reserve - commit);
      }
      s := Segment(base, entrySize, base + reserve, u, (reserve - commit) / 512, count, base + entrySize);
    }

    /** RtlpInitializeHeapSegment (rtl/heap.c:890-965). The uncommitted ranges are registered before the
        free block is inserted; neither step looks at what the other one writes. */
    method InitializeHeapSegment(i: int, base: int, entrySize: int, reserve: int, commit: int)
      requires Lists() && Whole(hdr, Segments, listed)
      requires Reservable(Segments, i, base, entrySize, reserve, commit)
      modifies this`hdr, this`FreeLists, this`FreeListsInUse, this`listed, this`TotalFreeSize, this`Segments
      ensures Lists() && Whole(hdr, Segments, listed)
          && LastSet(old(hdr), old(Segments)) + {i} <= LastSet(hdr, Segments)
      ensures BusyOf(hdr) == BusyOf(old(hdr))[base := entrySize]
      ensures i in Segments && Fresh(Segments[i], base, entrySize, reserve, commit)
          && Segments == old(Segments)[i := Segments[i]]
      ensures base + entrySize in hdr && hdr[base + entrySize].size == ChunkSize(commit - entrySize)
      ensures !hdr[base + entrySize].busy && NotBase(AreasOf(Segments), base + entrySize)
      ensures TotalFreeSize - Total(listed) == old(TotalFreeSize) - old(Total(listed))
      ensures listed == PiecesOf(old(listed), base + entrySize, commit - entrySize)
    {
      ghost var h, segs, sizes := hdr, Segments, listed;
      var first := base + entrySize;
      var s := NewSegment(base, entrySize, reserve, commit);
      Segments := Segments[i := s];
      hdr := hdr[base := Entry(entrySize, 0, true, false, i)][first := Entry(0, entrySize, false, true, i)];
      ghost var h2 := hdr;
      var rest := commit - entrySize;
      FoundedInserting(h, segs, sizes, i, s, base, entrySize, reserve, commit, h2, Segments, first, rest);
      WholeAgree(h, segs, sizes);
      InsertFreeBlock(first, rest);
      assert listed == PiecesOf(sizes, first, rest);
      FoundedSegments(h, segs, sizes, i, s, base, entrySize, reserve, commit, h2, hdr, Segments);
    }

    /** A free block ready to be handed out: taking it off the lists and cutting it strands nothing. */
    ghost predicate Ready(a: int, index: int)
      reads this
    {
      && a in hdr && !hdr[a].busy && hdr[a].size >= index && NotBase(AreasOf(Segments), a)
      && !CutStrands(hdr, Segments, a, index)
    }

    /** Coalesce the pages just committed with their neighbours (rtl/heap.c:1133-1135). */
    method CoalesceCommitted(p: int, size0: int, ghost index: int, ghost h: Headers, ghost segs: Segments, ghost i: int)
      returns (a: int, size: int)
      requires Lists() && Committed1(h, segs, i, p, size0, hdr, Segments, listed) && TotalFreeSize == Total(listed)
      modifies this`hdr, this`FreeLists, this`FreeListsInUse, this`listed, this`TotalFreeSize, this`Segments
      ensures Lists() && CommittedAs(h, segs, old(listed), i, p, size0, a, size, index, hdr, Segments, listed)
      ensures TotalFreeSize + size == old(TotalFreeSize) + size0 && Total(listed) + size == old(Total(listed)) + size0
    {
      ghost var h1, segs1, sizes := hdr, Segments, listed;
      a, size := CoalesceFreeBlocks(p, size0);
      CoalescedReady(h, h1, p, hdr, Segments, listed, a, index);
      CommittedIs(h, segs, h1, segs1, sizes, i, p, size0, a, size, index, hdr, Segments, listed);
    }

    /** Commit pages in one segment, coalesce them and insert the block (rtl/heap.c:1124-1139). */
    method ExtendSegment(i: int, pages: int, ghost index: int, stale: Entry)
      returns (found: bool, torn: bool, a: int, ghost p: int, ghost whole: int)
      requires Sound() && i in Segments && 0 < pages <= 127 && 0 < index <= 512 * pages
      modifies this`hdr, this`FreeLists, this`FreeListsInUse, this`listed, this`TotalFreeSize, this`Segments
      ensures torn <==> Misled(old(hdr), old(Segments)[i], 512 * pages, true, 0, stale)
      ensures torn ==>
                && !found && Lists() && Broken(hdr, Segments)
                && TornIn(old(hdr), old(Segments), i, pages, stale, hdr, Segments)
      ensures found ==> Sound() && Ready(a, index)
      ensures found ==>
                SegmentExtended(old(hdr), old(Segments), old(listed), i, p, 512 * pages, a, whole, hdr, Segments,
                    listed)
      ensures !found && !torn ==> hdr == old(hdr) && Segments == old(Segments) && FreeLists == old(FreeLists)
      ensures !found ==> listed == old(listed) && (!torn ==> Sound())
      ensures !found && !torn ==> forall j :: 0 <= j < |Segments[i].UCRSegmentList| ==>
                Segments[i].UCRSegmentList[j].Size < 512 * pages
    {
      ghost var h, segs := hdr, Segments;
      whole := 0;
      var from;
      found, torn, from := FindAndCommitPages(i, 512 * pages, true, 0, stale);
      p := from;
      if !found || torn {
        return false, torn, 0, p, whole;
      }
      CommittedFirst(h, segs, i, p, 512 * pages, hdr, Segments, listed);
      a, whole := InsertCommitted(from, 512 * pages, index, h, segs, i);
    }

    /** The committed pages are coalesced and inserted (rtl/heap.c:1128-1137). */
    method InsertCommitted(p: int, size0: int, ghost index: int, ghost h: Headers, ghost segs: Segments, ghost i: int)
      returns (a: int, ghost whole: int)
      requires Lists() && Committed1(h, segs, i, p, size0, hdr, Segments, listed) && TotalFreeSize == Total(listed)
      requires 0 < index <= size0
      modifies this`hdr, this`FreeLists, this`FreeListsInUse, this`listed, this`TotalFreeSize, this`Segments
      ensures Sound() && Ready(a, index)
      ensures SegmentExtended(h, segs, old(listed), i, p, size0, a, whole, hdr, Segments, listed)
    {
      ghost var sizes := listed;
      var size;
      a, size := CoalesceCommitted(p, size0, index, h, segs, i);
      whole := size;
      ghost var h1, segs1, sizes1 := hdr, Segments, listed;
      OnePiece(listed, a, size);
      InsertLoose(a, size);
      SegmentExtendedIs(h, segs, sizes, i, p, size0, a, whole, index, h1, segs1, sizes1, hdr, listed);
    }

    /** How much of a new segment is committed, in whole pages (rtl/heap.c:1189-1200). */
    function CommitSize(index: int): int {
      ((if index + 512 <= SegmentCommit then SegmentCommit else index + 512) + 511) / 512 * 512
    }

    /** The least whole number of pages that is no less than what a segment commits at a time, and holds the block and
        one page more. */
    lemma CommitLeast(index: int, n: int)
      ensures CommitSize(index) % 512 == 0 && CommitSize(index) >= SegmentCommit && CommitSize(index) >= index + 512
      ensures n % 512 == 0 && n >= SegmentCommit && n >= index + 512 ==> n >= CommitSize(index)
    {
    }

    /** The memory granted for a new segment is whole pages, large enough, and apart from the others. */
    ghost predicate Usable(grant: Grant, index: int)
      reads this
    {
      grant.Memory? ==>
        && grant.base % 512 == 0 && grant.reserve % 512 == 0 && CommitSize(index) <= grant.reserve
        && forall j :: j in Segments ==>
                  grant.base + grant.reserve <= Segments[j].BaseAddress || Segments[j].LastValidEntry <= grant.base
    }

    /** A new segment for the request (rtl/heap.c:1149-1216). */
    method GrowHeap(i: int, index: int, base: int, reserve: int) returns (a: int)
      requires Sound() && i !in Segments && 0 <= i < 64 && 0 < index <= MaxBlock && Usable(Memory(base, reserve), index)
      modifies this`hdr, this`FreeLists, this`FreeListsInUse, this`listed, this`TotalFreeSize, this`Segments
      ensures Sound() && BusyOf(hdr) == BusyOf(old(hdr))[base := 9] && Ready(a, index)
      ensures a == base + 9
          && SegmentFounded(old(hdr), old(Segments), old(listed), i, base, reserve, CommitSize(index), hdr, Segments,
              listed)
    {
      InitializeHeapSegment(i, base, 9, reserve, CommitSize(index));
      a := base + 9;
      FirstNotStranded(hdr, Segments, listed, i, index);
    }

    /** Look for a segment that can commit the pages, and for a number that is not in use (rtl/heap.c:1113-1146). */
    method ExtendSegments(pages: int, ghost index: int, ghost grows: bool, stale: Entry)
      returns (found: bool, torn: bool, a: int, empty: int, ghost x: Extension)
      requires Sound() && 0 < pages <= 127 && 0 < index <= 512 * pages
      modifies this`hdr, this`FreeLists, this`FreeListsInUse, this`listed, this`TotalFreeSize, this`Segments
      ensures torn <==> Misleads(old(hdr), old(Segments), pages, stale)
      ensures torn ==> !found && Lists() && Broken(hdr, Segments)
      ensures torn ==>
                exists i {:trigger Chosen(old(Segments), pages, i)} ::
                  Chosen(old(Segments), pages, i) && TornIn(old(hdr), old(Segments), i, pages, stale, hdr, Segments)
      ensures found ==> Sound() && Ready(a, index) && x.CommittedPages? && a == x.Start()
                        && Grows(old(hdr), old(Segments), pages, grows, x, hdr, Segments)
      ensures !found && !torn ==> Sound() && hdr == old(hdr) && Segments == old(Segments) && FreeLists == old(FreeLists)
      ensures !found && !torn ==> NoneCommits(Segments, pages, empty) && listed == old(listed)
    {
      ghost var h, segs, sizes := hdr, Segments, listed;
      x := CommittedPages(0, 0, 0, 0);
      var i := 0;
      empty, torn := 64, false;
      while i < 64
        invariant 0 <= i <= 64 && Sound() && hdr == h && Segments == segs
        invariant FreeLists == old(FreeLists) && listed == sizes
        invariant forall j :: 0 <= j < i ==> Exhausted(segs, j, pages)
        invariant 0 <= empty <= 64 && (empty < 64 ==> empty < i && empty !in segs)
        invariant forall j :: 0 <= j < empty && j < i ==> j in segs
      {
        if i in Segments && pages <= Segments[i].NumberOfUnCommittedPages {
          MisledChoice(h, segs, pages, i, stale);
          ghost var p, whole;
          found, torn, a, p, whole := ExtendSegment(i, pages, index, stale);
          if found {
            x := CommittedPages(i, p, a, whole);
            SegmentExtension(h, segs, sizes, i, p, pages, a, whole, grows, hdr, Segments, listed);
            MisledChosen(h, segs, pages, i, stale);
          }
          if found || torn { return; }
        } else if i !in Segments && empty == 64 {
          empty := i;
        }
        i := i + 1;
      }
      assert !Misleads(h, segs, pages, stale);
      found, torn, a := false, false, 0;
    }

    /** RtlpExtendHeap (rtl/heap.c:1097-1243). stale is what the bytes at LastEntryInSegment say in the segment
        chosen, if no block starts there. */
    method ExtendHeap(index: int, grant: Grant, stale: Entry)
      returns (found: bool, torn: bool, a: int, ghost x: Extension)
      requires Sound() && 0 < index <= MaxBlock && Usable(grant, index)
      modifies this`hdr, this`FreeLists, this`FreeListsInUse, this`listed, this`TotalFreeSize, this`Segments
      ensures torn <==> Misleads(old(hdr), old(Segments), (index + 511) / 512, stale)
      ensures torn ==> !found && Lists() && Broken(hdr, Segments)
      ensures torn ==> var pages := (index + 511) / 512;
                exists i {:trigger Chosen(old(Segments), pages, i)} ::
                  Chosen(old(Segments), pages, i) && TornIn(old(hdr), old(Segments), i, pages, stale, hdr, Segments)
      ensures !torn ==> Sound()
      ensures !found && !torn ==> hdr == old(hdr) && Segments == old(Segments) && FreeLists == old(FreeLists)
      ensures !torn ==> (found <==> CanExtend(old(Segments), (index + 511) / 512, Growable && grant.Memory?))
      ensures found ==>
                && Grows(old(hdr), old(Segments), (index + 511) / 512, Growable && grant.Memory?, x, hdr, Segments)
                && Ready(a, index) && a == x.Start()
                && (x.FoundedSegment? ==>
                    grant.Memory? && x == FoundedSegment(x.i, grant.base, grant.reserve, CommitSize(index)))
    {
      var pages, empty := (index + 511) / 512, 64;
      found, torn, a, empty, x := ExtendSegments(pages, index, Growable && grant.Memory?, stale);
      if !found && !torn {
        ghost var h, segs, sizes := hdr, Segments, listed;
        if Growable && empty != 64 && grant.Memory? {
          a := GrowHeap(empty, index, grant.base, grant.reserve);
          found, x := true, FoundedSegment(empty, grant.base, grant.reserve, CommitSize(index));
          FoundedExtension(h, segs, sizes, empty, grant.base, grant.reserve, CommitSize(index), pages, hdr, Segments,
            listed);
        } else {
          NoExtension(segs, pages, Growable && grant.Memory?, empty);
        }
      }
    }

    /** Take a free block off the lists and split it. */
    method TakeAndSplit(a: int, index: int)
      requires Sound() && a in hdr && !hdr[a].busy && NotBase(AreasOf(Segments), a) && 0 < index <= hdr[a].size
      modifies this`hdr, this`FreeLists, this`FreeListsInUse, this`listed, this`TotalFreeSize, this`Segments
      ensures Sound() && BusyOf(hdr) == BusyOf(old(hdr))[a := Granted(old(hdr)[a].size, index)]
      ensures AreasOf(Segments) == AreasOf(old(Segments))
      ensures
        Lasts(old(hdr), old(Segments), hdr, Segments, CutLost(old(hdr), old(Segments), a, index))
      ensures Handed(old(hdr), old(Segments), a, index, hdr, Segments)
      ensures a in old(listed) && listed == SplitFree(old(listed), a, index)
    {
      LooseFromWhole(hdr, Segments, listed, a);
      WholeAgree(hdr, Segments, listed);
      ghost var sizes, size := listed, hdr[a].size;
      assert sizes[a] == size;
      RemoveFreeBlock(a);
      ghost var sizes1 := listed;
      SplitEntry(a, index);
      assert listed == if size - index <= 1 then sizes1 else RestFree(sizes1, a + index, size - index);
      SplitFreeIs(sizes, sizes1, a, index, size, listed);
    }

    /** A block of exactly the right size (rtl/heap.c:2034-2051). */
    method TakeExact(a: int, index: int)
      requires Sound() && a in hdr && !hdr[a].busy && NotBase(AreasOf(Segments), a) && hdr[a].size == index
      modifies this`hdr, this`FreeLists, this`FreeListsInUse, this`listed, this`TotalFreeSize
      ensures Sound() && BusyOf(hdr) == BusyOf(old(hdr))[a := index]
          && LastSet(hdr, Segments) == LastSet(old(hdr), Segments) && hdr == Marked(old(hdr), a, true)
      ensures a in old(listed) && listed == SplitFree(old(listed), a, index)
    {
      LooseFromWhole(hdr, Segments, listed, a);
      WholeAgree(hdr, Segments, listed);
      RemoveFreeBlock(a);
      TotalFreeSize := TotalFreeSize - index;
      WholeFromTaken(hdr, Segments, listed, a);
      hdr := Marked(hdr, a, true);
    }

    /** The first block of list zero that fits (rtl/heap.c:1813-1833, 1873-1877). */
    method FindZero(index: int) returns (pos: nat)
      requires Lists() && Agree(hdr, listed)
      ensures pos <= |FreeLists[0]| && (forall j :: 0 <= j < |FreeLists[0]| ==> FreeLists[0][j] in listed)
      ensures forall j :: 0 <= j < pos ==> listed[FreeLists[0][j]] < index
      ensures pos < |FreeLists[0]| ==> listed[FreeLists[0][pos]] >= index
    {
      var list := FreeLists[0];
      assert ListOk(list, 0, listed);
      pos := |list|;
      if list == [] { return; }
      var big := list[|list| - 1];
      assert big in listed;
      assert forall j :: 0 <= j < |list| ==> list[j] in listed && listed[list[j]] <= listed[big];
      // start from the largest block to reduce time
      if hdr[big].size >= index {
        pos := 0;
        while hdr[list[pos]].size < index
          invariant pos < |list|
          invariant forall j :: 0 <= j < pos ==> listed[list[j]] < index
          decreases |list| - pos
        {
          pos := pos + 1;
        }
      }
    }

    /** The size of the block that a request for index entries gets, if a block at a of the heap fits. */
    ghost predicate Given(a: int, index: int, before: Sizes, after: Sizes) {
      a !in before && a in after && index <= after[a] <= index + 1 && after == before[a := after[a]]
    }

    /** What an allocation promises, in terms of the headers and segments before it. */
    ghost predicate Allocated(h: Headers, segs: Segments, grant: Grant, index: int, ok: bool, a: int)
      reads this
    {
      && (Fitting(FreeOf(h), index) ==>
            && ok && IsBest(FreeOf(h), a, index) && AreasOf(Segments) == AreasOf(segs)
            && BusyOf(hdr) == BusyOf(h)[a := Granted(FreeOf(h)[a], index)]
            && Lasts(h, segs, hdr, Segments, CutLost(h, segs, a, index)) && Handed(h, segs, a, index, hdr, Segments)
            && FreeOf(hdr) == SplitFree(FreeOf(h), a, index)
            && (AllLast(h, segs) ==>
               (AllLast(hdr, Segments) <==> !(FreeOf(h)[a] - index > 1 && CutStrands(h, segs, a, index)))))
      && (!Fitting(FreeOf(h), index) ==>
            && LastSet(h, segs) <= LastSet(hdr, Segments) && (AllLast(h, segs) ==> AllLast(hdr, Segments))
            && (ok ==> Given(a, index, BusyOf(h), BusyOf(hdr))
                       || (grant.Memory? && Given(a, index, BusyOf(h)[grant.base := 9], BusyOf(hdr))))
            && (!ok ==> hdr == h && Segments == segs)
            && (ok <==> CanExtend(segs, (index + 511) / 512, Growable && grant.Memory?))
            && (ok ==> exists x :: Serving(h, segs, grant, index, a, x)))
    }

    /** The heap has grown by x for this request. */
    ghost predicate Serving(h: Headers, segs: Segments, grant: Grant, index: int, a: int, x: Extension)
      reads this
    {
      && ServedBy(h, segs, (index + 511) / 512, Growable && grant.Memory?, index, a, x, hdr, Segments)
      && (x.FoundedSegment? ==> grant.Memory? && x == FoundedSegment(x.i, grant.base, grant.reserve, CommitSize(index)))
    }

    /** The best block is taken and split. */
    method HandOut(a: int, index: int)
      requires Sound() && 0 < index && IsBest(FreeOf(hdr), a, index)
      modifies this`hdr, this`FreeLists, this`FreeListsInUse, this`listed, this`TotalFreeSize, this`Segments
      ensures Sound() && Allocated(old(hdr), old(Segments), NoMemory, index, true, a)
    {
      ghost var h, segs := hdr, Segments;
      ListedBlock(h, segs, listed, a);
      LooseFromWhole(h, segs, listed, a);
      TakeAndSplit(a, index);
      CutLostAll(h, segs, hdr, Segments, a, index);
    }

    method HandOutExact(a: int, index: int)
      requires Sound() && 0 < index && IsBest(FreeOf(hdr), a, index) && hdr[a].size == index
      modifies this`hdr, this`FreeLists, this`FreeListsInUse, this`listed, this`TotalFreeSize
      ensures Sound() && Allocated(old(hdr), Segments, NoMemory, index, true, a)
    {
      ghost var h, segs := hdr, Segments;
      ListedBlock(h, segs, listed, a);
      LooseFromWhole(h, segs, listed, a);
      TakeExact(a, index);
      CutLostAll(h, segs, hdr, Segments, a, index);
    }

    /** The heap has to grow (rtl/heap.c:1883-1893). */
    method AllocateExtended(index: int, grant: Grant, stale: Entry) returns (ok: bool, torn: bool, a: int)
      requires Sound() && 0 < index <= MaxBlock && Usable(grant, index)
      modifies this`hdr, this`FreeLists, this`FreeListsInUse, this`listed, this`TotalFreeSize, this`Segments
      ensures torn <==> Misleads(old(hdr), old(Segments), (index + 511) / 512, stale)
      ensures torn ==> !ok && Lists() && Broken(hdr, Segments)
      ensures !torn ==> Sound() && LastSet(old(hdr), old(Segments)) <= LastSet(hdr, Segments)
      ensures !torn && AllLast(old(hdr), old(Segments)) ==> AllLast(hdr, Segments)
      ensures ok ==> Given(a, index, BusyOf(old(hdr)), BusyOf(hdr))
                     || (grant.Memory? && Given(a, index, BusyOf(old(hdr))[grant.base := 9], BusyOf(hdr)))
      ensures !ok && !torn ==> hdr == old(hdr) && Segments == old(Segments) && FreeLists == old(FreeLists)
      ensures !torn ==> (ok <==> CanExtend(old(Segments), (index + 511) / 512, Growable && grant.Memory?))
      ensures ok ==> exists x :: Serving(old(hdr), old(Segments), grant, index, a, x)
    {
      ghost var x;
      ok, torn, a, x := ExtendHeap(index, grant, stale);
      if ok {
        ghost var h, segs := hdr, Segments;
        ServeExtended(a, index);
        ServedExtended(old(hdr), old(Segments), (index + 511) / 512, Growable && grant.Memory?, index, a, x, h, segs,
            hdr, Segments);
        KeptAll(h, segs, hdr, Segments);
        assert Serving(old(hdr), old(Segments), grant, index, a, x);
      }
    }

    /** The block that is ready goes to the user (rtl/heap.c:1886-1893). */
    method ServeExtended(a: int, index: int)
      requires Sound() && Ready(a, index) && index > 0
      modifies this`hdr, this`FreeLists, this`FreeListsInUse, this`listed, this`TotalFreeSize, this`Segments
      ensures Sound() && AreasOf(Segments) == AreasOf(old(Segments)) && Segments.Keys == old(Segments).Keys
      ensures Given(a, index, BusyOf(old(hdr)), BusyOf(hdr))
      ensures LastSet(old(hdr), old(Segments)) <= LastSet(hdr, Segments)
      ensures a in FreeOf(old(hdr)) && FreeOf(hdr) == SplitFree(FreeOf(old(hdr)), a, index)
    {
      ghost var busy := BusyOf(hdr);
      ghost var n := Granted(hdr[a].size, index);
      assert a !in busy;
      TakeAndSplit(a, index);
      assert BusyOf(hdr) == busy[a := n];
      assert AreasOf(Segments).Keys == Segments.Keys;
    }

    /** RtlpAllocateNonDedicated (rtl/heap.c:1800-1943). */
    method AllocateNonDedicated(index: int, grant: Grant, stale: Entry) returns (ok: bool, torn: bool, a: int)
      requires Sound() && 0 < index <= MaxBlock && Usable(grant, index)
      requires forall j :: index <= j < 128 ==> !FreeListsInUse[j]
      modifies this`hdr, this`FreeLists, this`FreeListsInUse, this`listed, this`TotalFreeSize, this`Segments
      ensures torn <==> AllocationTears(old(hdr), old(Segments), index, stale)
      ensures torn ==> !ok && Lists() && Broken(hdr, Segments)
      ensures !torn ==> Sound() && Allocated(old(hdr), old(Segments), grant, index, ok, a)
      ensures Fitting(FreeOf(old(hdr)), index) ==> FirstChoice(old(FreeLists), old(listed), index, a)
    {
      WholeAgree(hdr, Segments, listed);
      var pos := FindZero(index);
      ZeroBest(FreeLists, FreeListsInUse, listed, index, pos);
      if pos < |FreeLists[0]| {
        ok, torn, a := true, false, FreeLists[0][pos];
        FirstInZero(FreeLists, FreeListsInUse, listed, index, pos, a);
        HandOut(a, index);
      } else {
        ok, torn, a := AllocateExtended(index, grant, stale);
      }
    }

    /** The dedicated lists (rtl/heap.c:2026-2093): an exact block, or the smallest that fits. */
    method AllocateDedicated(index: int, grant: Grant, stale: Entry) returns (ok: bool, torn: bool, a: int)
      requires Sound() && 0 < index < 128 && Usable(grant, index)
      modifies this`hdr, this`FreeLists, this`FreeListsInUse, this`listed, this`TotalFreeSize, this`Segments
      ensures torn <==> AllocationTears(old(hdr), old(Segments), index, stale)
      ensures torn ==> !ok && Lists() && Broken(hdr, Segments)
      ensures !torn ==> Sound() && Allocated(old(hdr), old(Segments), grant, index, ok, a)
      ensures Fitting(FreeOf(old(hdr)), index) ==> FirstChoice(old(FreeLists), old(listed), index, a)
    {
      var k := index;
      if FreeLists[index] == [] {
        k := FindList(FreeListsInUse, index);
      }
      if k == 128 {
        ok, torn, a := AllocateNonDedicated(index, grant, stale);
        return;
      }
      assert FreeListsInUse[k];
      FoundBest(FreeLists, FreeListsInUse, listed, index, k);
      ok, torn, a := true, false, FreeLists[k][|FreeLists[k]| - 1];
      LastOfFirst(FreeLists, FreeListsInUse, listed, index, k, a);
      if k == index {
        HandOutExact(a, index);
      } else {
        HandOut(a, index);
      }
    }

    /** The number of entries for a request of size bytes: the payload, rounded up, and a header
        (rtl/heap.c:1998-2018). */
    function IndexOfSize(size: int): int {
      ((if size == 0 then 1 else size) + 15) / 8
    }

    /** Does a request for index entries get a virtual block of its own (rtl/heap.c:2120-2131)? */
    predicate IsVirtual(index: int) {
      index >= 128 && index > VirtualMemoryThreshold
    }

    /** This is the least number of entries, at least two, that holds the payload besides one entry for the header. */
    lemma IndexLeast(size: int, n: int)
      requires size >= 0
      ensures IndexOfSize(size) >= 2 && 8 * (IndexOfSize(size) - 1) >= size
      ensures n >= 2 && 8 * (n - 1) >= size ==> n >= IndexOfSize(size)
    {
    }

    /** RtlAllocateHeap (rtl/heap.c:1953-2196). A virtual block lies outside of the heap's segments. */
    method AllocateHeap(size: int, grant: Grant, stale: Entry) returns (ok: bool, virtual: bool, torn: bool, a: int)
      requires Sound() && size >= 0 && VirtualMemoryThreshold <= MaxBlock
      requires size < 0x80000000 && !IsVirtual(IndexOfSize(size)) ==> Usable(grant, IndexOfSize(size))
      modifies this`hdr, this`FreeLists, this`FreeListsInUse, this`listed, this`TotalFreeSize, this`Segments
      ensures torn <==> size < 0x80000000 && !IsVirtual(IndexOfSize(size))
                        && AllocationTears(old(hdr), old(Segments), IndexOfSize(size), stale)
      ensures torn ==> !ok && Lists() && Broken(hdr, Segments)
      ensures (!torn ==> Sound()) && (virtual <==> ok && IsVirtual(IndexOfSize(size)))
      ensures ok && !virtual ==> a in BusyOf(hdr) && 8 * (BusyOf(hdr)[a] - 1) >= size
                                 && (BusyOf(hdr)[a] > 3 ==> 8 * (BusyOf(hdr)[a] - 3) < size)
      ensures virtual <==> ok && size > 8 * 126 && size > 8 * (VirtualMemoryThreshold - 1)
      ensures ok && !virtual && Fitting(FreeOf(old(hdr)), IndexOfSize(size)) ==>
                FirstChoice(old(FreeLists), old(listed), IndexOfSize(size), a)
      ensures
        var index := IndexOfSize(size);
        if size >= 0x80000000 then !ok && hdr == old(hdr) && Segments == old(Segments)
        else if IsVirtual(index)
            then (ok <==> Growable && grant.Memory?) && hdr == old(hdr) && Segments == old(Segments)
        else !torn ==> Allocated(old(hdr), old(Segments), grant, index, ok, a)
    {
      var index := IndexOfSize(size);
      virtual, torn := false, false;
      if size >= 0x80000000 {
        return false, false, false, 0;
      }
      if index < 128 {
        ok, torn, a := AllocateDedicated(index, grant, stale);
      } else if index <= VirtualMemoryThreshold {
        ok, torn, a := AllocateNonDedicated(index, grant, stale);
      } else if Growable && grant.Memory? {
        ok, virtual, a := true, true, grant.base;
      } else {
        ok, a := false, 0;
      }
    }

    /** The block at a takes over what it needs of the free block n (rtl/heap.c:2415-2543). */
    method GrowInto(a: int, n: int, index: int)
      requires Lists() && CanGrow(hdr, Segments, listed, a, n)
      requires hdr[a].size < index <= hdr[a].size + hdr[n].size && index <= MaxBlock
      modifies this`hdr, this`FreeLists, this`FreeListsInUse, this`listed, this`TotalFreeSize, this`Segments
      ensures Lists() && GrownOver(old(hdr), old(Segments), old(listed), a, n, index, hdr, Segments, listed)
      ensures TotalFreeSize - Total(listed) == old(TotalFreeSize) - old(Total(listed))
    {
      if hdr[a].size + hdr[n].size - index <= 2 {
        GrownHeld(hdr, Segments, listed, a, n);
        GrownWhole(hdr, Segments, listed, a, n);
        Swallow(a, n);
      } else {
        GrowPart(a, n, index);
      }
    }

    /** Part of the free block is left (rtl/heap.c:2463-2543). */
    method GrowPart(a: int, n: int, index: int)
      requires Lists() && CanGrow(hdr, Segments, listed, a, n)
      requires hdr[a].size < index && hdr[a].size + hdr[n].size - index > 2 && index <= MaxBlock
      modifies this`hdr, this`FreeLists, this`FreeListsInUse, this`listed, this`TotalFreeSize, this`Segments
      ensures Lists() && GrownOver(old(hdr), old(Segments), old(listed), a, n, index, hdr, Segments, listed)
      ensures TotalFreeSize - Total(listed) == old(TotalFreeSize) - old(Total(listed))
    {
      ghost var h, segs, sizes := hdr, Segments, listed;
      var b := a + index;
      ghost var over := GrownOverHeaders(h, a, n, index);
      ghost var t := GrownTail(h, segs, sizes, a, n, index, b, over);
      var rest, last, seg := hdr[a].size + hdr[n].size - index, hdr[n].last, hdr[a].seg;
      hdr := hdr[a := hdr[a].(size := index)] - {n};
      hdr := hdr[b := Entry(rest, index, false, last, seg)];
      assert t[b].size == rest;
      ReleaseTail(b, t);
      GrownPartly(h, segs, sizes, a, n, index, t, b, hdr, Segments, listed);
    }

    /** Nothing is left of the free block (rtl/heap.c:2439-2461). */
    method Swallow(a: int, n: int)
      requires a in hdr && n in hdr && hdr[a].size > 0 && hdr[n].size > 0 && n == a + hdr[a].size
          && hdr[a].seg in Segments
      requires !hdr[n].last ==> n + hdr[n].size in hdr
      modifies this`hdr, this`Segments
      ensures hdr == Joined(old(hdr), a) && Segments == LastMoved(old(hdr), old(Segments), a, n)
    {
      var size, last := hdr[a].size + hdr[n].size, hdr[n].last;
      hdr := hdr[a := hdr[a].(size := size, last := last)] - {n};
      if !last {
        hdr := hdr[a + size := hdr[a + size].(prev := size)];
      } else {
        Segments := SetLast(Segments, hdr[a].seg, a);
      }
    }

    /** Commit pages right after the block, which ends its run (rtl/heap.c:2368-2379). */
    method CommitAfter(a: int, need: int, stale: Entry) returns (found: bool, torn: bool, n: int)
      requires Sound() && a in hdr && hdr[a].busy && hdr[a].last && NotBase(AreasOf(Segments), a)
      requires 0 < need <= MaxBlock && need % 512 == 0
      modifies this`hdr, this`Segments
      ensures old(hdr)[a].seg in old(Segments)
      ensures torn <==> Misled(old(hdr), old(Segments)[old(hdr)[a].seg], need, false, a + old(hdr)[a].size, stale)
      ensures torn ==> Lists() && Broken(hdr, Segments)
                       && Stretched(old(hdr), old(Segments), a, n, need, stale, hdr, Segments)
      ensures !found && !torn ==> hdr == old(hdr) && Segments == old(Segments)
      ensures found ==> !torn && AreasOf(Segments) == With(AreasOf(old(Segments)), old(hdr)[a].seg, n, need)
      ensures found || torn <==> RangeAt(old(Segments)[old(hdr)[a].seg], a + old(hdr)[a].size, need)
      ensures found ==>
                && Lists() && CanGrow(hdr, Segments, listed, a, n) && BusyOf(hdr) == BusyOf(old(hdr))
                   && hdr[n].size == need
                && hdr[a].size == old(hdr)[a].size
                && hdr[n].seg in Segments && Segments.Keys == old(Segments).Keys
                   && LastSet(old(hdr), old(Segments)) <= LastSet(hdr, Segments)
                && (hdr[n].last || Segments[hdr[n].seg].LastEntryInSegment == Segments[hdr[n].seg].FirstEntry())
    {
      LooseFromWhole(hdr, Segments, listed, a);
      ghost var h, areas := hdr, AreasOf(Segments);
      assert Fits(h, areas, a);
      found, torn, n := FindAndCommitPages(hdr[a].seg, need, false, a + hdr[a].size, stale);
      found := found && !torn;
      if found {
        assert a in BusyOf(h) && BusyOf(h)[a] == h[a].size;
        GrowReady(hdr, Segments, listed, a, n, h[a].seg);
        assert BusyOf(hdr)[a] == hdr[a].size;
      }
    }

    /** Coalesce the committed pages, which cannot reach back over the busy block (rtl/heap.c:2381-2382). */
    method CoalesceAfter(a: int, n: int, ghost index: int) returns (size: int)
      requires Lists() && CanGrow(hdr, Segments, listed, a, n) && hdr[n].seg in Segments
      requires hdr[n].last || Segments[hdr[n].seg].LastEntryInSegment == Segments[hdr[n].seg].FirstEntry()
      modifies this`hdr, this`FreeLists, this`FreeListsInUse, this`listed, this`TotalFreeSize, this`Segments
      ensures Lists() && CanGrow(hdr, Segments, listed, a, n) && BusyOf(hdr) == BusyOf(old(hdr))
      ensures hdr[n].size == size >= old(hdr)[n].size && hdr[a].size == old(hdr)[a].size
      ensures !CutStrands(Joined(hdr, a), Segments, a, index) && Segments.Keys == old(Segments).Keys
          && LastSet(old(hdr), old(Segments)) <= LastSet(hdr, Segments)
      ensures TotalFreeSize + size == old(TotalFreeSize) + old(hdr)[n].size
      ensures Total(listed) + size == old(Total(listed)) + old(hdr)[n].size
      ensures AreasOf(Segments) == AreasOf(old(Segments))
      ensures listed[n := size] == PagesFree(old(listed), n, old(hdr)[n].size)
    {
      ghost var h, segs, sizes := hdr, Segments, listed;
      assert Fits(h, AreasOf(Segments), a);
      assert BusyOf(h) - {n} == BusyOf(h) && a in BusyOf(h) && BusyOf(h)[a] == h[a].size;
      var b;
      b, size := CoalesceFreeBlocks(n, hdr[n].size);
      PagesCoalesced(h, segs, sizes, a, n, b, size, listed);
      LooseHeld(hdr, Segments, listed, b);
      CoalescedGrow(h, hdr, Segments, listed, a, n, index);
    }

    /** The pages were committed by a stale header. Unless that is taken for a free block, or a block follows
        the pages, the block grows over them all the same (rtl/heap.c:1012-1014, 2415-2487). */
    method GrowTorn(a: int, n: int, index: int, need: int, stale: Entry, ghost h: Headers, ghost segs: Segments)
      returns (ok: bool, torn: bool)
      requires Lists() && Whole(h, segs, listed) && Stretched(h, segs, a, n, need, stale, hdr, Segments)
      requires TotalFreeSize == Total(listed) && NotBase(AreasOf(segs), a) && h[a].busy
      requires 0 < h[a].size < index <= MaxBlock && need == Need(h[a].size, index)
      modifies this`hdr, this`FreeLists, this`FreeListsInUse, this`listed, this`TotalFreeSize, this`Segments
      ensures torn <==> !Heals(h, segs, a, index, stale)
      ensures torn ==> !ok && Lists() && Broken(hdr, Segments)
      ensures torn ==> GrowOverhangs(h, segs, a, index, stale, hdr, Segments)
      ensures ok ==> Sound() && PagesTaken(h, segs, old(listed), a, index, hdr, Segments, listed)
      ensures !torn ==> ok
    {
      ghost var k := StretchedView(h, segs, listed, a, n, need, stale, hdr, Segments);
      var total, seg := hdr[a].size + need, hdr[a].seg;
      ghost var heals := Heals(h, segs, a, index, stale);
      assert heals <==> hdr[n].last && !TakenForFree(stale, need) && total - index <= 2;
      if !hdr[n].last || TakenForFree(stale, need) {
        return false, true;
      }
      if total - index <= 2 {
        TakePages(a, n, total, seg, h, segs, need, stale, k, index);
        ok, torn := true, false;
      } else {
        LeaveOverhang(a, n, index, need, stale, h, segs, k);
        OverhangLeft(h, segs, a, index, need, stale, k, hdr, Segments);
        ok, torn := false, true;
      }
    }

    /** The block takes over all the pages and ends its run again (rtl/heap.c:2420-2443). */
    method TakePages(a: int, n: int, total: int, seg: int, ghost h: Headers, ghost segs: Segments, ghost need: int,
        ghost stale: Entry, ghost k: nat, ghost index: int)
      requires Lists() && Whole(h, segs, listed) && a in h && h[a].busy && NotBase(AreasOf(segs), a)
      requires Ends(h, segs, h[a].seg, k, need, a) && TornAt(h, segs, h[a].seg, k, need, stale, n, hdr, Segments)
      requires a in hdr && hdr[a] == h[a] && n in hdr && hdr[n].last && n == a + h[a].size
      requires seg == h[a].seg && total == h[a].size + need && need == Need(h[a].size, index)
      requires 0 < h[a].size < index <= MaxBlock && total - index <= 2
      modifies this`hdr, this`Segments
      ensures Lists() && Whole(hdr, Segments, listed)
      ensures PagesTaken(h, segs, listed, a, index, hdr, Segments, listed)
    {
      hdr := hdr[a := hdr[a].(size := total)] - {n};
      Segments := SetLast(Segments, seg, a);
      StretchedTaken(h, segs, listed, a, n, need, stale, k, index, hdr, Segments);
    }

    /** Part of the pages is left; the block keeps its last flag (rtl/heap.c:2463-2487). */
    method LeaveOverhang(a: int, n: int, index: int, need: int, stale: Entry, ghost h: Headers, ghost segs: Segments,
                         ghost k: nat)
      requires Lists() && Whole(h, segs, listed) && a in h && h[a].busy && NotBase(AreasOf(segs), a)
      requires Ends(h, segs, h[a].seg, k, need, a) && TornAt(h, segs, h[a].seg, k, need, stale, n, hdr, Segments)
      requires a in hdr && hdr[a] == h[a] && n in hdr && hdr[n].last && n == a + h[a].size
      requires 0 < h[a].size < index < h[a].size + need && need <= MaxBlock
      modifies this`hdr, this`FreeLists, this`FreeListsInUse, this`listed, this`TotalFreeSize, this`Segments
      ensures Lists() && Broken(hdr, Segments) && hdr == Overhang(h, a, index, h[a].size + need - index)
      ensures Segments == Overhung(segs, h[a].seg, k, need, a + index)
    {
      var rest, seg, b := hdr[a].size + need - index, hdr[a].seg, a + index;
      hdr := (hdr[a := hdr[a].(size := index)] - {n})[b := Entry(rest, index, false, true, seg)];
      Segments := SetLast(Segments, seg, b);
      StretchedOverhang(h, segs, listed, a, n, need, index, stale, k, hdr, Segments);
      InsertFreeBlockHelper(b, rest);
      TotalFreeSize := TotalFreeSize + rest;
      assert hdr == Overhang(h, a, index, rest);
    }

    /** The block ends its run: grow into pages committed for it (rtl/heap.c:2366-2397). The committed
        pages are always enough, so the branch that puts them back (rtl/heap.c:2385-2391) is not reached. */
    method GrowIntoPages(a: int, index: int, stale: Entry) returns (ok: bool, torn: bool)
      requires Sound() && a in hdr && hdr[a].busy && hdr[a].last && NotBase(AreasOf(Segments), a)
      requires 0 < hdr[a].size < index <= MaxBlock
      modifies this`hdr, this`FreeLists, this`FreeListsInUse, this`listed, this`TotalFreeSize, this`Segments
      ensures torn <==> GrowTears(old(hdr), old(Segments), a, index, stale)
      ensures torn ==> !ok && Lists() && Broken(hdr, Segments)
      ensures torn ==> GrowOverhangs(old(hdr), old(Segments), a, index, stale, hdr, Segments)
      ensures !torn ==> Sound()
      ensures ok ==> PagesTaken(old(hdr), old(Segments), old(listed), a, index, hdr, Segments, listed)
      ensures !ok && !torn ==> hdr == old(hdr) && Segments == old(Segments)
      ensures old(hdr)[a].seg in old(Segments)
      ensures var h := old(hdr);
              ok || torn <==> RangeAt(old(Segments)[h[a].seg], a + h[a].size, Need(h[a].size, index))
    {
      ghost var h, segs, sizes := hdr, Segments, listed;
      var need := Need(hdr[a].size, index);
      var n;
      ok, torn, n := CommitAfter(a, need, stale);
      if torn {
        ok, torn := GrowTorn(a, n, index, need, stale, h, segs);
      } else if ok {
        ghost var h1, segs1 := hdr, Segments;
        GrowOver(a, n, index);
        PagesPartTaken(h, segs, sizes, a, n, need, index, h1, segs1, hdr, Segments, listed);
      }
    }

    /** Coalesce the pages committed and grow over them (rtl/heap.c:2381-2397, 2415-2543). */
    method GrowOver(a: int, n: int, index: int)
      requires Lists() && CanGrow(hdr, Segments, listed, a, n) && hdr[n].seg in Segments
      requires hdr[n].last || Segments[hdr[n].seg].LastEntryInSegment == Segments[hdr[n].seg].FirstEntry()
      requires hdr[a].size < index <= hdr[a].size + hdr[n].size && index <= MaxBlock && TotalFreeSize == Total(listed)
      modifies this`hdr, this`FreeLists, this`FreeListsInUse, this`listed, this`TotalFreeSize, this`Segments
      ensures Sound() && GrownOnPages(old(hdr), old(Segments), old(listed), a, n, index, hdr, Segments, listed)
    {
      ghost var h, segs, sizes := hdr, Segments, listed;
      var freeSize := CoalesceAfter(a, n, index);
      assert freeSize + hdr[a].size >= index;
      ghost var h1, segs1, sizes1 := hdr, Segments, listed;
      GrownOverPages(sizes, sizes1, a, hdr[a].size, n, h[n].size, freeSize, index);
      GrowInto(a, n, index);
      GrownOverView(h1, segs1, sizes1, a, n, index, hdr, Segments, listed);
    }

    /** The block after it is free and large enough (rtl/heap.c:2405-2413). */
    method GrowIntoFree(a: int, index: int)
      requires Sound() && a in hdr && hdr[a].busy && !hdr[a].last && NotBase(AreasOf(Segments), a)
      requires 0 < hdr[a].size < index <= MaxBlock
      requires FreeAfter(hdr, a) && index <= hdr[a].size + hdr[a + hdr[a].size].size
      modifies this`hdr, this`FreeLists, this`FreeListsInUse, this`listed, this`TotalFreeSize, this`Segments
      ensures Sound() && Grown(old(hdr), hdr, a, index) && Segments.Keys == old(Segments).Keys
      ensures
        var lost := GrowStrandsSet(old(hdr), old(Segments), a, index);
        Lasts(old(hdr), old(Segments), hdr, Segments, lost)
      ensures AreasOf(Segments) == AreasOf(old(Segments))
      ensures var h := old(hdr); a + h[a].size in FreeOf(h) && FreeOf(hdr) == GrowFree(FreeOf(h), a, h[a].size, index)
    {
      BusyView(hdr, Segments, listed, a);
      var n := a + hdr[a].size;
      LooseFromWhole(hdr, Segments, listed, n);
      WholeAgree(hdr, Segments, listed);
      GrowLostIs(hdr, Segments, a, n, index);
      RemoveFreeBlock(n);
      TotalFreeSize := TotalFreeSize - hdr[n].size;
      ghost var sizes1 := listed;
      GrowInto(a, n, index);
      GrownOverView(old(hdr), old(Segments), sizes1, a, n, index, hdr, Segments, listed);
    }

    /** RtlpGrowBlockInPlace (rtl/heap.c:2342-2584). */
    method GrowBlockInPlace(a: int, index: int, stale: Entry) returns (ok: bool, torn: bool)
      requires Sound() && a in hdr && hdr[a].busy && NotBase(AreasOf(Segments), a) && hdr[a].size < index
      requires VirtualMemoryThreshold <= MaxBlock
      modifies this`hdr, this`FreeLists, this`FreeListsInUse, this`listed, this`TotalFreeSize, this`Segments
      ensures torn <==> index <= VirtualMemoryThreshold && GrowTears(old(hdr), old(Segments), a, index, stale)
      ensures torn ==> !ok && Lists() && Broken(hdr, Segments)
      ensures torn ==> GrowOverhangs(old(hdr), old(Segments), a, index, stale, hdr, Segments)
      ensures !torn ==> Sound() && Segments.Keys == old(Segments).Keys
      ensures ok ==> Grown(old(hdr), hdr, a, index)
      ensures !ok && !torn ==> hdr == old(hdr) && Segments == old(Segments)
      ensures !torn ==>
                var lost := if ok then GrowStrandsSet(old(hdr), old(Segments), a, index) else {};
                Lasts(old(hdr), old(Segments), hdr, Segments, lost)
      ensures !torn && old(AllLast(hdr, Segments)) ==>
                (AllLast(hdr, Segments) <==> !(ok && GrowStrands(old(hdr), old(Segments), a, index)))
      ensures !old(hdr)[a].last ==>
                (ok <==> index <= VirtualMemoryThreshold && FreeAfter(old(hdr), a)
                         && old(hdr)[a].size + old(hdr)[a + old(hdr)[a].size].size >= index)
      ensures old(hdr)[a].seg in old(Segments)
      ensures old(hdr)[a].last ==>
                var s, size := old(Segments)[old(hdr)[a].seg], old(hdr)[a].size;
                var there := RangeAt(s, a + size, Need(size, index));
                (ok || torn <==> index <= VirtualMemoryThreshold && there)
      ensures ok ==> GrownExactly(old(hdr), old(Segments), a, index, hdr, Segments)
    {
      ghost var h, segs := hdr, Segments;
      BusyView(h, segs, listed, a);
      torn := false;
      if index > VirtualMemoryThreshold {
        return false, false;
      }
      if hdr[a].last {
        ok, torn := GrowIntoPages(a, index, stale);
        if !torn { LastsAll(h, segs, hdr, Segments, {}); }
        return;
      }
      var n := a + hdr[a].size;
      if hdr[n].busy || hdr[a].size + hdr[n].size < index {
        return false, false;
      }
      GrowIntoFree(a, index);
      ok := true;
      LastsAll(h, segs, hdr, Segments, GrowStrandsSet(h, segs, a, index));
    }

    /** Reduce a block and possibly split it (rtl/heap.c:2825-2920). */
    method Shrink(a: int, index: int)
      requires Sound() && a in hdr && hdr[a].busy && NotBase(AreasOf(Segments), a) && 0 < index <= hdr[a].size
      modifies this`hdr, this`FreeLists, this`FreeListsInUse, this`listed, this`TotalFreeSize, this`Segments
      ensures Sound() && BusyOf(hdr) == BusyOf(old(hdr))[a := Granted(old(hdr)[a].size, index)]
          && Segments.Keys == old(Segments).Keys
      ensures old(AllLast(hdr, Segments)) ==>
                (AllLast(hdr, Segments) <==>
                 !(old(hdr)[a].size - index > 1 && CutStrands(old(hdr), old(Segments), a, index)))
      ensures
        Lasts(old(hdr), old(Segments), hdr, Segments, CutLost(old(hdr), old(Segments), a, index))
      ensures Handed(old(hdr), old(Segments), a, index, hdr, Segments)
      ensures
        var free, rest := FreeOf(old(hdr)), old(hdr)[a].size - index;
        FreeOf(hdr) == if rest <= 1 then free else RestFree(free, a + index, rest)
    {
      LooseFromWhole(hdr, Segments, listed, a);
      assert BusyOf(hdr)[a] == hdr[a].size;
      var extra := hdr[a].size - index;
      if extra <= 1 {
        assert BusyOf(hdr) == BusyOf(hdr)[a := hdr[a].size];
        return;
      }
      ghost var h, segs := hdr, Segments;
      ShrinkTo(a, index, extra);
      CutLostAll(h, segs, hdr, Segments, a, index);
    }

    /** The entries that are too many go back to the lists (rtl/heap.c:2840-2918). */
    method ShrinkTo(a: int, index: int, extra: int)
      requires Sound() && Loose(hdr, Segments, listed, a) && hdr[a].busy
      requires 0 < index && extra == hdr[a].size - index > 1
      modifies this`hdr, this`FreeLists, this`FreeListsInUse, this`listed, this`TotalFreeSize, this`Segments
      ensures Sound() && BusyOf(hdr) == BusyOf(old(hdr))[a := index] && AreasOf(Segments) == AreasOf(old(Segments))
      ensures Lasts(old(hdr), old(Segments), hdr, Segments, CutLost(old(hdr), old(Segments), a, index))
      ensures CutLeaves(old(hdr), old(Segments), a, index, hdr, Segments)
      ensures listed == RestFree(old(listed), a + index, extra)
    {
      ghost var h := hdr;
      LooseHeld(h, Segments, listed, a);
      var last, seg := hdr[a].last, hdr[a].seg;
      hdr := hdr[a := hdr[a].(size := index, last := false)];
      hdr := hdr[a + index := Entry(extra, index, false, last, seg)];
      assert hdr == CutForUser(h, a, index);
      ReleaseRest(a, index, h);
    }

    /** RtlReAllocateHeap with HEAP_REALLOC_IN_PLACE_ONLY (rtl/heap.c:2653-2933, 2996-3000). */
    method ReAllocateInPlace(a: int, size: int, stale: Entry) returns (ok: bool, torn: bool)
      requires Sound() && a in hdr && hdr[a].busy && NotBase(AreasOf(Segments), a)
      requires 0 <= size < 0x80000000 && VirtualMemoryThreshold <= MaxBlock
      modifies this`hdr, this`FreeLists, this`FreeListsInUse, this`listed, this`TotalFreeSize, this`Segments
      ensures torn <==> old(hdr)[a].size < IndexOfSize(size) <= VirtualMemoryThreshold
                        && GrowTears(old(hdr), old(Segments), a, IndexOfSize(size), stale)
      ensures torn ==> !ok && Lists() && Broken(hdr, Segments)
      ensures torn ==> GrowOverhangs(old(hdr), old(Segments), a, IndexOfSize(size), stale, hdr, Segments)
      ensures !torn ==> Sound()
      ensures ok ==> a in BusyOf(hdr) && 8 * (BusyOf(hdr)[a] - 1) >= size
                     && BusyOf(hdr) == BusyOf(old(hdr))[a := BusyOf(hdr)[a]]
      ensures ok ==> BusyOf(hdr)[a] <= IndexOfSize(size) + 2
      ensures !ok && !torn ==> hdr == old(hdr) && Segments == old(Segments)
      ensures
        var index, have := IndexOfSize(size), old(hdr)[a].size;
        && (index <= have ==> ok)
        && (index > have && !old(hdr)[a].last ==>
             (ok <==> index <= VirtualMemoryThreshold && FreeAfter(old(hdr), a)
                      && have + old(hdr)[a + have].size >= index))
        && (index > have && old(hdr)[a].last ==>
             old(hdr)[a].seg in old(Segments)
             && (ok || torn <==> index <= VirtualMemoryThreshold
                                 && RangeAt(old(Segments)[old(hdr)[a].seg], a + have, Need(have, index))))
      ensures
        var index := IndexOfSize(size);
        !torn && old(AllLast(hdr, Segments)) ==>
          (AllLast(hdr, Segments) <==>
           !(ok && if index <= old(hdr)[a].size
               then old(hdr)[a].size - index > 1 && CutStrands(old(hdr), old(Segments), a, index)
                   else GrowStrands(old(hdr), old(Segments), a, index)))
    {
      var index := IndexOfSize(size);
      if index <= hdr[a].size {
        Shrink(a, index);
        ok, torn := true, false;
      } else {
        ok, torn := GrowBlockInPlace(a, index, stale);
      }
    }

    /** RtlpValidateHeap accepts the heap whenever the invariant holds (rtl/heap.c:3463-3617). */
    method Validate() returns (ok: bool)
      requires Sound()
      ensures ok
    {
      forall a | a in hdr ensures hdr[a].size > 0 {
        Fit(hdr, AreasOf(Segments), a);
      }
      forall i, k | i in Segments && 0 <= k < |Segments[i].UCRSegmentList|
          ensures Segments[i].UCRSegmentList[k].Size > 0 {
        assert SegmentOk(hdr, Segments[i]);
      }
      ok := ValidateHeap(hdr, FreeLists, FreeListsInUse, TotalFreeSize, Segments, listed);
    }
  }

  /** On the heap of the example a request for eight bytes leaves LastEntryInSegment on a block that no
      longer exists, in a heap that RtlpValidateHeap accepts. */
  method AllocateStrands(heap: Heap) returns (a: int)
    requires heap.Sound() && heap.hdr == ExampleHeaders() && heap.Segments == ExampleSegments()
    requires heap.VirtualMemoryThreshold <= MaxBlock
    modifies heap`hdr, heap`FreeLists, heap`FreeListsInUse, heap`listed, heap`TotalFreeSize, heap`Segments
    ensures old(heap.Valid()) && heap.Sound() && !heap.Valid()
  {
    StrandedExample();
    ExampleBest();
    ghost var h, segs, stale := heap.hdr, heap.Segments, Entry(0, 0, false, false, 0);
    assert heap.IndexOfSize(8) == 2 && !AllocationTears(h, segs, 2, stale) && FreeOf(h)[9] == 600;
    var ok, virtual, torn, accepted;
    ok, virtual, torn, a := heap.AllocateHeap(8, NoMemory, Entry(0, 0, false, false, 0));
    accepted := heap.Validate();
    assert accepted;
  }

  lemma ExampleBest()
    ensures Fitting(FreeOf(ExampleHeaders()), 2) && forall a :: IsBest(FreeOf(ExampleHeaders()), a, 2) ==> a == 9
  {
    var free := FreeOf(ExampleHeaders());
    assert 9 in free && free[9] == 600 && 609 in free && free[609] == 64927;
  }
}
