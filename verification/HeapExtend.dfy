/** How a heap grows, in terms of free blocks and committed memory (rtl/heap.c:1097-1243). */
module HeapExtend {
  import opened HeapLayout
  import opened HeapFreeLists
  import opened HeapBlocks
  import opened HeapSegments
  import opened HeapSplit
  import opened HeapCommit
  import opened HeapMerge
  import opened HeapStale

  /** Pages committed at p in segment i, coalesced to the block of `whole` entries at a; or a new segment. */
  datatype Extension = CommittedPages(i: int, p: int, a: int, whole: int)
                     | FoundedSegment(i: int, base: int, reserve: int, commit: int)
  {
    /** The block that is ready afterwards. */
    function Start(): int {
      if CommittedPages? then a else base + 9
    }
  }

  /** The search for size units anywhere in the segment ends at a range at p. */
  ghost predicate FitAt(s: Segment, p: int, size: int) {
    FitsAt(s.UCRSegmentList, p, size, true, 0)
  }

  /** Pages come from the first segment that has a range large enough, and from the first such range there; a new
      segment only when there is none, with the lowest number that is free. */
  ghost predicate Extends(segs: Segments, free: Sizes, pages: int, grows: bool, x: Extension) {
    match x
    case CommittedPages(i, p, a, whole) =>
      Chosen(segs, pages, i) && FitAt(segs[i], p, 512 * pages) && Coalesced(free, p, 512 * pages, a, whole)
    case FoundedSegment(i, _, _, _) =>
      && grows && (forall j :: 0 <= j < 64 ==> Exhausted(segs, j, pages))
      && 0 <= i < 64 && i !in segs && (forall j :: 0 <= j < i ==> j in segs)
  }

  /** The free blocks afterwards. */
  ghost function ExtendedFree(free: Sizes, x: Extension): Sizes {
    match x
    case CommittedPages(_, _, a, whole) => Outside(free, a, a + whole)[a := whole]
    case FoundedSegment(_, base, _, commit) => PiecesOf(free, base + 9, commit - 9)
  }

  /** The committed memory afterwards. */
  ghost function ExtendedAreas(areas: Areas, pages: int, x: Extension): Areas {
    match x
    case CommittedPages(i, p, _, _) => if i in areas then With(areas, i, p, 512 * pages) else areas
    case FoundedSegment(i, base, reserve, commit) =>
      areas[i := Area(base, base + reserve, Pages(base + commit, reserve - commit))]
  }

  /** The heap has grown by x, and is otherwise as before. */
  ghost predicate Extended(h: Headers, segs: Segments, pages: int, grows: bool, x: Extension, h': Headers,
      segs': Segments)
  {
    && Extends(segs, FreeOf(h), pages, grows, x) && FreeOf(h') == ExtendedFree(FreeOf(h), x)
    && AreasOf(segs') == ExtendedAreas(AreasOf(segs), pages, x)
  }

  /** The same, and what becomes of the busy blocks and of LastEntryInSegment. */
  ghost predicate Grows(h: Headers, segs: Segments, pages: int, grows: bool, x: Extension, h': Headers,
      segs': Segments)
  {
    && Extended(h, segs, pages, grows, x, h', segs')
    && BusyOf(h') == (if x.FoundedSegment? then BusyOf(h)[x.base := 9] else BusyOf(h))
    && LastSet(h, segs) <= LastSet(h', segs') && (AllLast(h, segs) ==> AllLast(h', segs'))
    && (x.CommittedPages? ==> CanExtend(segs, pages, grows))
  }

  /** Can the heap grow at all? */
  ghost predicate CanExtend(segs: Segments, pages: int, grows: bool) {
    (exists i :: Chosen(segs, pages, i)) || (grows && exists i :: 0 <= i < 64 && i !in segs)
  }

  /** If not all segments are exhausted, one of them is the first. */
  lemma {:induction false} SomeChosen(segs: Segments, pages: int, i: int)
    requires 0 <= i < 64 && !Exhausted(segs, i, pages)
    ensures exists j :: Chosen(segs, pages, j)
    decreases i
  {
    if j :| 0 <= j < i && !Exhausted(segs, j, pages) {
      SomeChosen(segs, pages, j);
    } else {
      assert Chosen(segs, pages, i);
    }
  }

  /** The heap can be extended exactly when some segment has enough pages and a range of them, or a new segment may
      be founded and there is room for one. */
  lemma CanExtendIs(segs: Segments, pages: int, grows: bool)
    ensures CanExtend(segs, pages, grows) <==>
              (exists i :: 0 <= i < 64 && !Exhausted(segs, i, pages))
              || (grows && exists i :: 0 <= i < 64 && i !in segs)
  {
    forall i | 0 <= i < 64 && !Exhausted(segs, i, pages) ensures exists j :: Chosen(segs, pages, j) {
      SomeChosen(segs, pages, i);
    }
  }

  /** The user got index entries at a of the heap that has grown. */
  ghost predicate ServedBy(h: Headers, segs: Segments, pages: int, grows: bool, index: int, a: int, x: Extension,
      h': Headers, segs': Segments)
  {
    && Extends(segs, FreeOf(h), pages, grows, x) && x.Start() == a
    && AreasOf(segs') == ExtendedAreas(AreasOf(segs), pages, x)
    && a in ExtendedFree(FreeOf(h), x) && FreeOf(h') == SplitFree(ExtendedFree(FreeOf(h), x), a, index)
  }

  /** Pages of size0 units have just been committed at p in segment i: a free block in flight. */
  ghost predicate Committed1(h: Headers, segs: Segments, i: int, p: int, size0: int, h1: Headers, segs1: Segments,
      sizes: Sizes)
  {
    && i in segs && i in segs1 && Loose(h1, segs1, sizes, p) && h1[p].size == size0 && !h1[p].busy
    && p !in h && h1[p].seg == i
    && BusyOf(h1) == BusyOf(h) && 0 < size0 <= MaxBlock && FitAt(segs[i], p, size0)
    && AreasOf(segs1) == With(AreasOf(segs), i, p, size0) && LastSet(h, segs) + {i} <= LastSet(h1, segs1)
    && (h1[p].last || segs1[i].LastEntryInSegment == segs1[i].FirstEntry())
  }

  lemma CommittedFirst(h: Headers, segs: Segments, i: int, p: int, size0: int, h1: Headers, segs1: Segments,
      sizes: Sizes)
    requires i in segs && Loose(h1, segs1, sizes, p) && h1[p].size == size0 && !h1[p].busy && p !in h && h1[p].seg == i
    requires BusyOf(h1) == BusyOf(h) && 0 < size0 <= MaxBlock && FitsAt(segs[i].UCRSegmentList, p, size0, true, 0)
    requires AreasOf(segs1) == With(AreasOf(segs), i, p, size0) && LastSet(h, segs) + {i} <= LastSet(h1, segs1)
    requires i in segs1 && (h1[p].last || segs1[i].LastEntryInSegment == segs1[i].FirstEntry())
    ensures Committed1(h, segs, i, p, size0, h1, segs1, sizes)
  {
  }

  /** They have been coalesced to the block of size entries at a, which can be cut without harm. */
  ghost predicate CommittedAs(h: Headers, segs: Segments, sizes: Sizes, i: int, p: int, size0: int, a: int, size: int,
      index: int, h2: Headers, segs2: Segments, sizes2: Sizes)
  {
    && i in segs && FitAt(segs[i], p, size0) && Coalesced(sizes, p, size0, a, size)
    && sizes2 == Outside(sizes, a, a + size)
    && Loose(h2, segs2, sizes2, a) && h2[a].size == size && size0 <= size <= MaxBlock && BusyOf(h2) - {a} == BusyOf(h)
    && !CutStrands(Marked(h2, a, false), segs2, a, index)
    && AreasOf(segs2) == With(AreasOf(segs), i, p, size0) && LastSet(h, segs) + {i} <= LastSet(h2, segs2)
  }

  lemma CommittedIs(h: Headers, segs: Segments, h1: Headers, segs1: Segments, sizes: Sizes, i: int, p: int, size0: int,
      a: int, size: int, index: int, h2: Headers, segs2: Segments, sizes2: Sizes)
    requires Committed1(h, segs, i, p, size0, h1, segs1, sizes)
    requires Coalesced(sizes, p, size0, a, size) && sizes2 == Outside(sizes, a, a + size)
    requires Loose(h2, segs2, sizes2, a) && h2[a].size == size && size0 <= size <= MaxBlock
    requires BusyOf(h2) - {a} == BusyOf(h) && !CutStrands(Marked(h2, a, false), segs2, a, index)
    requires AreasOf(segs2) == AreasOf(segs1) && LastSet(h1, segs1) <= LastSet(h2, segs2)
    ensures CommittedAs(h, segs, sizes, i, p, size0, a, size, index, h2, segs2, sizes2)
  {
  }

  /** The block has come into the lists. */
  ghost predicate SegmentExtended(h: Headers, segs: Segments, sizes: Sizes, i: int, p: int, size0: int, a: int,
      whole: int,
      h': Headers, segs': Segments, sizes': Sizes)
  {
    && i in segs && FitAt(segs[i], p, size0) && Coalesced(sizes, p, size0, a, whole)
    && sizes' == Outside(sizes, a, a + whole)[a := whole] && BusyOf(h') == BusyOf(h) && segs'.Keys == segs.Keys
    && AreasOf(segs') == With(AreasOf(segs), i, p, size0) && LastSet(h, segs) + {i} <= LastSet(h', segs')
  }

  lemma SegmentExtendedIs(h: Headers, segs: Segments, sizes: Sizes, i: int, p: int, size0: int, a: int, whole: int,
      index: int, h2: Headers, segs2: Segments, sizes2: Sizes, h': Headers, sizes': Sizes)
    requires CommittedAs(h, segs, sizes, i, p, size0, a, whole, index, h2, segs2, sizes2)
    requires sizes' == sizes2[a := whole] && BusyOf(h') == BusyOf(h2) - {a} && LastSet(h2, segs2) <= LastSet(h', segs2)
    ensures SegmentExtended(h, segs, sizes, i, p, size0, a, whole, h', segs2, sizes')
  {
    assert AreasOf(segs2).Keys == AreasOf(segs).Keys;
  }

  lemma SegmentExtension(h: Headers, segs: Segments, sizes: Sizes, i: int, p: int, pages: int, a: int, whole: int,
      grows: bool, h': Headers, segs': Segments, sizes': Sizes)
    requires sizes == FreeOf(h) && sizes' == FreeOf(h') && 0 <= i < 64 && i in segs
    requires pages <= segs[i].NumberOfUnCommittedPages
    requires forall j :: 0 <= j < i ==> Exhausted(segs, j, pages)
    requires SegmentExtended(h, segs, sizes, i, p, 512 * pages, a, whole, h', segs', sizes')
    ensures Grows(h, segs, pages, grows, CommittedPages(i, p, a, whole), h', segs') && Chosen(segs, pages, i)
  {
    var u := segs[i].UCRSegmentList;
    var k: nat :| FirstFit(u, k, 512 * pages, true, 0) && u[k].Address == p;
    assert Chosen(segs, pages, i);
    KeptAll(h, segs, h', segs');
  }

  lemma ServedExtended(h: Headers, segs: Segments, pages: int, grows: bool, index: int, a: int, x: Extension,
      h1: Headers,
      segs1: Segments, h': Headers, segs': Segments)
    requires Extended(h, segs, pages, grows, x, h1, segs1) && x.Start() == a && AreasOf(segs') == AreasOf(segs1)
    requires a in FreeOf(h1) && FreeOf(h') == SplitFree(FreeOf(h1), a, index)
    ensures ServedBy(h, segs, pages, grows, index, a, x, h', segs')
  {
  }

  /** A new segment, its free block listed. */
  ghost predicate SegmentFounded(h: Headers, segs: Segments, sizes: Sizes, i: int, base: int, reserve: int, commit: int,
      h': Headers, segs': Segments, sizes': Sizes)
  {
    && i in segs' && Fresh(segs'[i], base, 9, reserve, commit) && segs' == segs[i := segs'[i]]
    && sizes' == PiecesOf(sizes, base + 9, commit - 9) && BusyOf(h') == BusyOf(h)[base := 9]
    && LastSet(h, segs) + {i} <= LastSet(h', segs')
  }

  /** No segment can commit the pages, and empty is the lowest number not in use, or 64. */
  ghost predicate NoneCommits(segs: Segments, pages: int, empty: int) {
    && (forall j :: 0 <= j < 64 ==> Exhausted(segs, j, pages))
    && 0 <= empty <= 64 && (empty < 64 ==> empty !in segs) && (forall j :: 0 <= j < empty ==> j in segs)
  }

  lemma FoundedExtension(h: Headers, segs: Segments, sizes: Sizes, i: int, base: int, reserve: int, commit: int,
      pages: int, h': Headers, segs': Segments, sizes': Sizes)
    requires sizes == FreeOf(h) && sizes' == FreeOf(h') && NoneCommits(segs, pages, i) && i < 64
    requires SegmentFounded(h, segs, sizes, i, base, reserve, commit, h', segs', sizes')
    ensures Grows(h, segs, pages, true, FoundedSegment(i, base, reserve, commit), h', segs')
    ensures CanExtend(segs, pages, true)
  {
    HeapSegments.FoundedAreas(segs, i, segs'[i]);
    GrownAll(h, segs, h', segs', i);
  }

  lemma NoExtension(segs: Segments, pages: int, grows: bool, empty: int)
    requires NoneCommits(segs, pages, empty) && (!grows || empty == 64)
    ensures !CanExtend(segs, pages, grows)
  {
  }
}
