/** Giving the whole pages inside a free block back to the system (rtl/heap.c:745-888). */
module HeapDecommit {
  import opened HeapLayout
  import opened HeapFreeLists
  import opened HeapBlocks
  import opened HeapUcr
  import opened HeapSegments

  /** The first page to decommit: a remainder of one entry before it would be useless. */
  function DecommitFrom(a: int): int {
    var up := (a + 511) / 512 * 512;
    if up - a == 1 then up + 512 else up
  }

  function DecommitTo(end: int): int {
    var down := end / 512 * 512;
    if end - down == 1 then down - 512 else down
  }

  lemma DecommitBounds(a: int, end: int)
    ensures DecommitFrom(a) % 512 == 0 && DecommitTo(end) % 512 == 0
    ensures a <= DecommitFrom(a) <= a + 513 && end - 513 <= DecommitTo(end) <= end
    ensures DecommitFrom(a) - a != 1 && end - DecommitTo(end) != 1
  {
  }

  /** Exactly those pages inside the block go back that leave no lone entry of it before or behind them. */
  lemma PagesGivenBack(a: int, end: int, p: int)
    ensures p in Pages(DecommitFrom(a), DecommitTo(end) - DecommitFrom(a)) <==>
              p % 512 == 0 && a <= p && p + 512 <= end && p - a != 1 && end - (p + 512) != 1
  {
    PageRange(DecommitFrom(a), DecommitTo(end) - DecommitFrom(a), p);
  }

  lemma DroppedBlocks(h: Headers, m: int)
    requires m in h && !h[m].busy && h[m].size > 0
    ensures FreeOf(Dropped(h, m)) == FreeOf(h) - {m} && BusyOf(Dropped(h, m)) == BusyOf(h)
  {
  }

  /** The block at a without its pages from..to, as cuts and a removal. */
  ghost function Hollowed(h: Headers, a: int, from: int, to: int): Headers
    requires a in h && a <= from < to <= a + h[a].size
  {
    Dropped(CutOut(h, a, from, to), from)
  }

  ghost function FrontCut(h: Headers, a: int, from: int): (h': Headers)
    requires a in h && a <= from < a + h[a].size
    ensures from in h' && from + h'[from].size == a + h[a].size
  {
    if from > a then Cut(h, a, from - a) else h
  }

  ghost function BackCut(h: Headers, from: int, to: int): (h': Headers)
    requires from in h && from < to <= from + h[from].size
    ensures from in h' && from + h'[from].size == to
  {
    if to < from + h[from].size then Cut(h, from, to - from) else h
  }

  /** The same as the source writes it. */
  function Rewritten(h: Headers, a: int, from: int, to: int): Headers
    requires a in h
  {
    RewrittenTail(RewrittenHead(h, a, from), h[a], a + h[a].size, to)
  }

  function RewrittenHead(h: Headers, a: int, from: int): Headers
    requires a in h
  {
    var e := h[a];
    if from > a then h[a := Entry(from - a, e.prev, false, true, e.seg)]
    else if e.prev != 0 && a - e.prev in h then h[a - e.prev := h[a - e.prev].(last := true)] - {a}
    else h - {a}
  }

  function RewrittenTail(h: Headers, e: Entry, end: int, to: int): Headers {
    if to < end then
      var h1 := h[to := Entry(end - to, 0, false, false, e.seg)];
      if end in h1 then h1[end := h1[end].(prev := end - to)] else h1
    else if !e.last && end in h then h[end := h[end].(prev := 0)]
    else h
  }

  ghost predicate CanHollow(h: Headers, segs: Segments, sizes: Sizes, a: int, from: int, to: int) {
    && Loose(h, segs, sizes, a) && a <= from < to <= a + h[a].size
    && from % 512 == 0 && to % 512 == 0
  }

  lemma HollowView(h: Headers, segs: Segments, sizes: Sizes, a: int, from: int, to: int)
    requires CanHollow(h, segs, sizes, a, from, to)
    ensures h[a].size > 0 && h[a].prev >= 0 && h[a].seg in segs
    ensures h[a].prev != 0 ==> a - h[a].prev in h && h[a - h[a].prev].seg == h[a].seg
    ensures !h[a].last ==> a + h[a].size in h && a + h[a].size !in {a, from, to} - {a + h[a].size}
    ensures h[a].last ==> (a + h[a].size) % 512 == 0 && (a + h[a].size in h ==> h[a + h[a].size].prev == 0)
    ensures Clear(AreasOf(segs)[h[a].seg], a, h[a].size)
    ensures from != a ==> from !in h
    ensures to != a + h[a].size ==> to !in h
  {
    var areas := AreasOf(segs);
    assert Fits(h, areas, a);
    assert AreaOk(h, areas, h[a].seg);
    if a + h[a].size in h { Adjacent(h, areas, a, a + h[a].size); }
    if from in h { NotInside(h, a, from); }
    if to in h { NotInside(h, a, to); }
  }

  ghost predicate Writable(h: Headers, segs: Segments, sizes: Sizes, a: int, from: int, to: int) {
    && CanHollow(h, segs, sizes, a, from, to)
    && (from == a && h[a].prev != 0 ==> a - h[a].prev in h)
    && (!h[a].last ==> a + h[a].size in h)
    && (h[a].last ==> to == a + h[a].size)
  }

  lemma RewrittenBehind(h: Headers, segs: Segments, sizes: Sizes, a: int, from: int, to: int)
    requires Writable(h, segs, sizes, a, from, to) && from > a
    ensures Rewritten(h, a, from, to) == Hollowed(h, a, from, to)
  {
    HollowView(h, segs, sizes, a, from, to);
  }

  lemma RewrittenFront(h: Headers, segs: Segments, sizes: Sizes, a: int, from: int, to: int)
    requires Writable(h, segs, sizes, a, from, to) && from == a
    ensures Rewritten(h, a, from, to) == Hollowed(h, a, from, to)
  {
    HollowView(h, segs, sizes, a, from, to);
  }

  lemma RewrittenIsHollowed(h: Headers, segs: Segments, sizes: Sizes, a: int, from: int, to: int)
    requires Writable(h, segs, sizes, a, from, to)
    ensures Rewritten(h, a, from, to) == Hollowed(h, a, from, to)
  {
    if from > a {
      RewrittenBehind(h, segs, sizes, a, from, to);
    } else {
      RewrittenFront(h, segs, sizes, a, from, to);
    }
  }

  /** The listed blocks after decommitting: the remainders before and after the pages. */
  ghost function Remainders(sizes: Sizes, a: int, from: int, to: int, end: int): Sizes {
    TailListed(HeadListed(sizes, a, from), end, to)
  }

  ghost function HeadListed(sizes: Sizes, a: int, from: int): Sizes {
    if from > a then sizes[a := from - a] else sizes
  }

  ghost function TailListed(sizes: Sizes, end: int, to: int): Sizes {
    if to < end then sizes[to := end - to] else sizes
  }

  lemma CutFree(h: Headers, areas: Areas, a: int, i: int)
    requires CanCut(h, areas, a, i) && !h[a].busy && h[a].seg in areas
    ensures Layout(Cut(h, a, i), areas) && NotBase(areas, a + i) && a + i !in h
    ensures FreeOf(Cut(h, a, i)) == FreeOf(h)[a := i][a + i := h[a].size - i] && BusyOf(Cut(h, a, i)) == BusyOf(h)
    ensures Cut(h, a, i)[a + i] == Entry(h[a].size - i, i, false, h[a].last, h[a].seg)
    ensures Cut(h, a, i)[a] == h[a].(size := i, last := false)
  {
    CutFresh(h, areas, a, i);
    CutLayout(h, areas, a, i);
    CutBlocks(h, a, i);
    forall j | j in areas ensures a + i != areas[j].base { assert AreaOk(h, areas, j); }
  }

  /** A free block of the layout that is not a segment header. */
  ghost predicate Hollow(h: Headers, areas: Areas, a: int) {
    Layout(h, areas) && a in h && NotBase(areas, a) && !h[a].busy && h[a].size > 0 && h[a].seg in areas
  }

  lemma FrontCutOk(h: Headers, areas: Areas, a: int, from: int)
    requires Hollow(h, areas, a) && a <= from < a + h[a].size
    ensures
      var h' := FrontCut(h, a, from);
      && Hollow(h', areas, from) && h'[from].seg == h[a].seg && BusyOf(h') == BusyOf(h)
      && FreeOf(h') - {from} == if from > a then (FreeOf(h) - {a})[a := from - a] else FreeOf(h) - {a}
  {
    if from > a {
      CutFree(h, areas, a, from - a);
      assert FreeOf(Cut(h, a, from - a)) - {from} == (FreeOf(h) - {a})[a := from - a];
    }
  }

  lemma BackCutOk(h: Headers, areas: Areas, from: int, to: int)
    requires Hollow(h, areas, from) && from < to <= from + h[from].size
    ensures
      var h', end := BackCut(h, from, to), from + h[from].size;
      && Hollow(h', areas, from) && h'[from].seg == h[from].seg && BusyOf(h') == BusyOf(h)
      && FreeOf(h') - {from} == if to < end then (FreeOf(h) - {from})[to := end - to] else FreeOf(h) - {from}
  {
    if to < from + h[from].size {
      CutFree(h, areas, from, to - from);
    }
  }

  lemma HollowedLayout(h: Headers, segs: Segments, sizes: Sizes, a: int, from: int, to: int)
    requires CanHollow(h, segs, sizes, a, from, to) && h[a].seg in segs
    ensures
      var h' := Hollowed(h, a, from, to);
      && Layout(h', Without(AreasOf(segs), h[a].seg, from, to - from))
      && FreeOf(h') == Remainders(sizes, a, from, to, a + h[a].size) && BusyOf(h') == BusyOf(h) - {a}
  {
    var h2 := CutOut(h, a, from, to);
    CutOutOk(h, segs, sizes, a, from, to);
    DroppedPart(h2, AreasOf(segs), from, h[a].seg, to - from);
  }

  lemma DroppedPart(h: Headers, areas: Areas, m: int, seg: int, size: int)
    requires Hollow(h, areas, m) && h[m].seg == seg && h[m].size == size && m % 512 == 0 && size % 512 == 0
    ensures Layout(Dropped(h, m), Without(areas, seg, m, size))
    ensures FreeOf(Dropped(h, m)) == FreeOf(h) - {m} && BusyOf(Dropped(h, m)) == BusyOf(h)
  {
    DroppedLayout(h, areas, m);
    DroppedBlocks(h, m);
  }

  /** The pages from..to as a block of their own. */
  ghost function CutOut(h: Headers, a: int, from: int, to: int): Headers
    requires a in h && a <= from < to <= a + h[a].size
  {
    BackCut(FrontCut(Marked(h, a, false), a, from), from, to)
  }

  lemma CutOutOk(h: Headers, segs: Segments, sizes: Sizes, a: int, from: int, to: int)
    requires CanHollow(h, segs, sizes, a, from, to) && h[a].seg in segs
    ensures
      var h2 := CutOut(h, a, from, to);
      && Hollow(h2, AreasOf(segs), from) && h2[from].seg == h[a].seg && h2[from].size == to - from
      && FreeOf(h2) - {from} == Remainders(sizes, a, from, to, a + h[a].size) && BusyOf(h2) == BusyOf(h) - {a}
  {
    var areas := AreasOf(segs);
    LooseMarked(h, segs, sizes, a, false);
    MarkedBlocks(h, a, false);
    var h0 := Marked(h, a, false);
    FrontCutOk(h0, areas, a, from);
    BackCutOk(FrontCut(h0, a, from), areas, from, to);
  }

  /** The last entry of the segment after decommitting from..to inside the block at a. */
  function LastAfter(h: Headers, s: Segment, a: int, from: int, to: int): int
    requires a in h
  {
    if from > a then a
    else if h[a].prev != 0 then a - h[a].prev
    else if from <= s.LastEntryInSegment < to then s.FirstEntry()
    else s.LastEntryInSegment
  }

  /** The uncommitted ranges and their counters after the pages have gone. */
  ghost predicate RecordedPages(segs: Segments, segs': Segments, i: int, from: int, to: int) {
    && i in segs && i in segs'
    && var s, s' := segs[i], segs'[i];
    && segs' == segs[i := s'] && UcrOk(s'.UCRSegmentList)
    && Union(s'.UCRSegmentList) == Union(s.UCRSegmentList) + Pages(from, to - from)
    && s' == s.(UCRSegmentList := s'.UCRSegmentList, NumberOfUnCommittedRanges := |s'.UCRSegmentList|,
                NumberOfUnCommittedPages := |Union(s'.UCRSegmentList)|)
  }

  /** The segment record after the pages have gone. */
  ghost predicate Recorded(h: Headers, segs: Segments, segs': Segments, a: int, from: int, to: int) {
    && a in h && h[a].seg in segs && h[a].seg in segs'
    && var i := h[a].seg;
    && var s := segs'[i];
    && segs' == segs[i := s] && UcrOk(s.UCRSegmentList)
    && Union(s.UCRSegmentList) == Union(segs[i].UCRSegmentList) + Pages(from, to - from)
    && s.NumberOfUnCommittedPages == |Union(s.UCRSegmentList)| && s.NumberOfUnCommittedRanges == |s.UCRSegmentList|
    && s.BaseAddress == segs[i].BaseAddress && s.EntrySize == segs[i].EntrySize
       && s.LastValidEntry == segs[i].LastValidEntry
    && s.LastEntryInSegment == LastAfter(h, segs[i], a, from, to)
  }

  /** What decommitting does to the header of another block. */
  lemma RewrittenAt(h: Headers, segs: Segments, sizes: Sizes, a: int, from: int, to: int, x: int)
    requires Writable(h, segs, sizes, a, from, to) && x in h
    ensures
      var h' := Rewritten(h, a, from, to);
      && (x != a ==>
            && x in h' && h'[x].size == h[x].size && h'[x].busy == h[x].busy && h'[x].seg == h[x].seg
            && (h[x].last ==> h'[x].last))
      && (x == a - h[a].prev && x != a && from == a ==> h'[x].last)
      && (from > a ==> a in h' && h'[a].last && h'[a].seg == h[a].seg)
  {
    HollowView(h, segs, sizes, a, from, to);
  }

  lemma RecordedBase(h: Headers, segs: Segments, segs': Segments, sizes: Sizes, a: int, from: int, to: int, j: int)
    requires Writable(h, segs, sizes, a, from, to) && Recorded(h, segs, segs', a, from, to) && j in segs
    ensures SegmentOk(Rewritten(h, a, from, to), segs'[j])
  {
    assert SegmentOk(h, segs[j]);
    assert AreasOf(segs)[j].base == segs[j].BaseAddress;
    if j == h[a].seg { LastAfterReadable(h, segs, segs', sizes, a, from, to); }
    RewrittenAt(h, segs, sizes, a, from, to, segs[j].BaseAddress);
  }

  lemma LastAfterPlace(h: Headers, segs: Segments, sizes: Sizes, a: int, from: int, to: int, l: int)
    requires Writable(h, segs, sizes, a, from, to) && h[a].seg in segs && l == LastAfter(h, segs[h[a].seg], a, from, to)
    ensures (l < from || to <= l) && from % 512 == 0 && (to - from) % 512 == 0
        && Layout(h, AreasOf(segs)) && SegmentsOk(h, segs)
    ensures l == segs[h[a].seg].LastEntryInSegment || (l in h && h[l].seg == h[a].seg)
  {
    HollowView(h, segs, sizes, a, from, to);
    if from == a && h[a].prev == 0 {
      FirstUnaligned(h, segs, h[a].seg);
      NotInside(h, a, segs[h[a].seg].FirstEntry());
    }
  }

  /** LastEntryInSegment never stays on the pages that are given back. */
  lemma LastAfterReadable(h: Headers, segs: Segments, segs': Segments, sizes: Sizes, a: int, from: int, to: int)
    requires Writable(h, segs, sizes, a, from, to) && Recorded(h, segs, segs', a, from, to)
    ensures Readable(segs'[h[a].seg])
  {
    var i := h[a].seg;
    var l := LastAfter(h, segs[i], a, from, to);
    LastAfterPlace(h, segs, sizes, a, from, to, l);
    PlaceReadable(h, segs, i, l);
    OutsidePages(from, to - from, l);
    StillReadable(segs[i].(LastEntryInSegment := l), segs'[i], Pages(from, to - from));
  }

  lemma StillReadable(s: Segment, s': Segment, pages: set<int>)
    requires Readable(s) && s'.BaseAddress == s.BaseAddress && s'.LastValidEntry == s.LastValidEntry
    requires s'.LastEntryInSegment == s.LastEntryInSegment
        && Union(s'.UCRSegmentList) == Union(s.UCRSegmentList) + pages
    requires s.LastEntryInSegment - s.LastEntryInSegment % 512 !in pages
    ensures Readable(s')
  {
  }

  lemma OutsidePages(from: int, size: int, l: int)
    requires from % 512 == 0 && size % 512 == 0 && (l < from || from + size <= l)
    ensures l - l % 512 !in Pages(from, size)
  {
    PageRange(from, size, l - l % 512);
  }

  lemma PlaceReadable(h: Headers, segs: Segments, i: int, l: int)
    requires Layout(h, AreasOf(segs)) && SegmentsOk(h, segs) && i in segs
    requires l == segs[i].LastEntryInSegment || (l in h && h[l].seg == i)
    ensures Readable(segs[i].(LastEntryInSegment := l))
  {
    assert SegmentOk(h, segs[i]) && AreasOf(segs)[i] == segs[i].Area();
    if l != segs[i].LastEntryInSegment { BlockReadable(h, AreasOf(segs), l); }
  }

  /** Where LastEntryInSegment of the decommitted block's own segment ends up. */
  lemma LastAfterOk(h: Headers, segs: Segments, sizes: Sizes, a: int, from: int, to: int)
    requires Writable(h, segs, sizes, a, from, to) && h[a].seg in segs && LastOk(h, segs, h[a].seg)
    ensures
      var h', s := Rewritten(h, a, from, to), segs[h[a].seg];
      var l := LastAfter(h, s, a, from, to);
      l in h' && h'[l].seg == h[a].seg && (l == s.FirstEntry() || h'[l].last)
  {
    var s := segs[h[a].seg];
    RewrittenAt(h, segs, sizes, a, from, to, a);
    if from == a {
      HollowView(h, segs, sizes, a, from, to);
      if h[a].prev != 0 {
        RewrittenAt(h, segs, sizes, a, from, to, a - h[a].prev);
      } else {
        FirstUnaligned(h, segs, h[a].seg);
        RewrittenAt(h, segs, sizes, a, from, to, s.FirstEntry());
        RewrittenAt(h, segs, sizes, a, from, to, s.LastEntryInSegment);
      }
    }
  }

  lemma RecordedLast(h: Headers, segs: Segments, segs': Segments, sizes: Sizes, a: int, from: int, to: int, j: int)
    requires Writable(h, segs, sizes, a, from, to) && Recorded(h, segs, segs', a, from, to) && j in segs
        && LastOk(h, segs, j)
    ensures LastOk(Rewritten(h, a, from, to), segs', j)
  {
    if j == h[a].seg {
      LastAfterOk(h, segs, sizes, a, from, to);
    } else {
      RewrittenAt(h, segs, sizes, a, from, to, segs[j].LastEntryInSegment);
    }
  }

  /** The first block of a segment does not start on a page boundary. */
  lemma FirstUnaligned(h: Headers, segs: Segments, j: int)
    requires Layout(h, AreasOf(segs)) && SegmentsOk(h, segs) && j in segs
    ensures segs[j].FirstEntry() % 512 != 0 && segs[j].FirstEntry() in h && h[segs[j].FirstEntry()].seg == j
  {
    FirstBlock(h, segs, j);
    assert AreaOk(h, AreasOf(segs), j) && SegmentOk(h, segs[j]);
  }

  lemma RecordedAreas(h: Headers, segs: Segments, segs': Segments, a: int, from: int, to: int)
    requires Recorded(h, segs, segs', a, from, to)
    ensures AreasOf(segs') == Without(AreasOf(segs), h[a].seg, from, to - from)
  {
    assert forall j {:trigger AreasOf(segs)[j]} :: j in segs && j != h[a].seg ==> AreasOf(segs')[j] == AreasOf(segs)[j];
  }

  /** The heap is whole without the pages from..to of the block that was at a. */
  ghost predicate Decommitted(h: Headers, segs: Segments, sizes: Sizes, a: int, from: int, to: int, h': Headers,
      segs': Segments, sizes': Sizes)
  {
    && a in h && h[a].seg in segs && Whole(h', segs', sizes') && BusyOf(h') == BusyOf(h) - {a}
    && LastSet(h, segs) <= LastSet(h', segs') && AreasOf(segs') == Without(AreasOf(segs), h[a].seg, from, to - from)
    && sizes' == Remainders(sizes, a, from, to, a + h[a].size)
  }

  /** Decommitting keeps the heap whole and LastEntryInSegment on the end of a run. */
  lemma DecommittedWhole(h: Headers, segs: Segments, sizes: Sizes, a: int, from: int, to: int,
                         h': Headers, segs': Segments, sizes': Sizes)
    requires Writable(h, segs, sizes, a, from, to) && Recorded(h, segs, segs', a, from, to)
    requires h' == Rewritten(h, a, from, to) && sizes' == Remainders(sizes, a, from, to, a + h[a].size)
    ensures Decommitted(h, segs, sizes, a, from, to, h', segs', sizes')
  {
    RewrittenIsHollowed(h, segs, sizes, a, from, to);
    HollowedLayout(h, segs, sizes, a, from, to);
    RecordedAreas(h, segs, segs', a, from, to);
    DecommittedSegments(h, segs, sizes, a, from, to, h', segs');
  }

  lemma DecommittedSegments(h: Headers, segs: Segments, sizes: Sizes, a: int, from: int, to: int, h': Headers,
      segs': Segments)
    requires Writable(h, segs, sizes, a, from, to) && Recorded(h, segs, segs', a, from, to)
        && h' == Rewritten(h, a, from, to)
    ensures SegmentsOk(h', segs') && LastSet(h, segs) <= LastSet(h', segs')
  {
    forall j | j in segs' ensures SegmentOk(h', segs'[j]) && (LastOk(h, segs, j) ==> LastOk(h', segs', j)) {
      RecordedBase(h, segs, segs', sizes, a, from, to, j);
      if LastOk(h, segs, j) { RecordedLast(h, segs, segs', sizes, a, from, to, j); }
    }
  }

  /** The pages inside a block in flight are all committed. */
  lemma PagesCommitted(h: Headers, segs: Segments, sizes: Sizes, a: int, from: int, to: int)
    requires CanHollow(h, segs, sizes, a, from, to) && h[a].seg in segs
    ensures Pages(from, to - from) !! Union(segs[h[a].seg].UCRSegmentList)
  {
    HollowView(h, segs, sizes, a, from, to);
    var gone := AreasOf(segs)[h[a].seg].gone;
    forall p | p in Pages(from, to - from) ensures p !in gone {
      PageRange(from, to - from, p);
    }
  }

  /** What the source knows before it decommits from..to. */
  ghost predicate Planned(h: Headers, sizes: Sizes, a: int, from: int, to: int) {
    && a in h && h[a].prev >= 0 && a !in sizes
    && a <= from <= a + 513 && from < to <= a + h[a].size <= to + 513
    && (to < a + h[a].size ==> to !in sizes)
    && (from == a && h[a].prev != 0 ==> a - h[a].prev in h)
    && (if h[a].last then to == a + h[a].size else a + h[a].size in h && a + h[a].size in RewrittenHead(h, a, from))
  }

  /** What is known before the pages from..to of the block at a are returned. */
  ghost predicate Returnable(h: Headers, segs: Segments, sizes: Sizes, a: int, from: int, to: int) {
    && Planned(h, sizes, a, from, to)
    && h[a].seg in segs && SegmentOk(h, segs[h[a].seg])
    && PageAligned(Range(from, to - from)) && Pages(from, to - from) !! Union(segs[h[a].seg].UCRSegmentList)
  }

  lemma DecommitPlan(h: Headers, segs: Segments, sizes: Sizes, a: int, from: int, to: int)
    requires Loose(h, segs, sizes, a) && from == DecommitFrom(a) && to == DecommitTo(a + h[a].size) && from < to
    ensures Returnable(h, segs, sizes, a, from, to) && Writable(h, segs, sizes, a, from, to)
  {
    DecommitBounds(a, a + h[a].size);
    HollowView(h, segs, sizes, a, from, to);
    PagesCommitted(h, segs, sizes, a, from, to);
  }

  lemma DecommitReady(h: Headers, segs: Segments, sizes: Sizes, a: int, from: int, to: int)
    requires Loose(h, segs, sizes, a) && from == DecommitFrom(a) && to == DecommitTo(a + h[a].size) && from < to
    ensures Returnable(h, segs, sizes, a, from, to)
  {
    DecommitPlan(h, segs, sizes, a, from, to);
  }

  /** Headers, segments and listed blocks after the pages have been returned. */
  ghost predicate Returned(h: Headers, segs: Segments, sizes: Sizes, a: int, from: int, to: int, h': Headers,
      segs': Segments, sizes': Sizes)
    requires Planned(h, sizes, a, from, to)
  {
    && Recorded(h, segs, segs', a, from, to) && h' == Rewritten(h, a, from, to)
    && sizes' == Remainders(sizes, a, from, to, a + h[a].size)
  }

  lemma DecommitDone(h: Headers, segs: Segments, sizes: Sizes, a: int, from: int, to: int,
                     h': Headers, segs': Segments, sizes': Sizes)
    requires Loose(h, segs, sizes, a) && from == DecommitFrom(a) && to == DecommitTo(a + h[a].size) && from < to
    requires Planned(h, sizes, a, from, to) && Returned(h, segs, sizes, a, from, to, h', segs', sizes')
    ensures Decommitted(h, segs, sizes, a, from, to, h', segs', sizes')
  {
    DecommitPlan(h, segs, sizes, a, from, to);
    DecommittedWhole(h, segs, sizes, a, from, to, h', segs', sizes');
  }

  lemma RecordedBoth(h: Headers, segs: Segments, a: int, from: int, to: int, segs1: Segments, segs2: Segments)
    requires a in h && h[a].seg in segs && h[a].seg in segs1 && RecordedPages(segs, segs1, h[a].seg, from, to)
    requires segs2 == SetLast(segs1, h[a].seg, LastAfter(h, segs1[h[a].seg], a, from, to))
    ensures Recorded(h, segs, segs2, a, from, to)
  {
    var i := h[a].seg;
    assert segs2 == segs[i := segs2[i]];
  }
}
