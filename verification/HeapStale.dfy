/** Stale headers (rtl/heap.c). */
module HeapStale {
  import opened HeapLayout
  import opened HeapFreeLists
  import opened HeapBlocks
  import opened HeapUcr
  import opened HeapSegments
  import opened HeapCommit
  import opened HeapGrow
  import opened HeapMerge
  import opened HeapValidate

  // LastEntryInSegment may stand where no block starts any more. What the bytes there say when pages are committed
  // decides whether the heap survives.

  // ----- what is read, and what is written

  /** A header that is read as the end of the run before the k-th range is one, wherever the pointer to it
      came from. */
  lemma ReadEnd(h: Headers, segs: Segments, i: int, k: nat, l: int)
    requires Layout(h, AreasOf(segs)) && SegmentsOk(h, segs) && i in segs && k < |segs[i].UCRSegmentList|
    requires l in h && h[l].last && l + h[l].size == segs[i].UCRSegmentList[k].Address
    ensures h[l].seg == i
  {
    var u, areas := segs[i].UCRSegmentList, AreasOf(segs);
    assert SegmentOk(h, segs[i]) && AreaOk(h, areas, i) && areas[i] == segs[i].Area();
    RangeEnds(u, k, u[k].Address);
    assert u[k].Address in areas[i].gone;
    assert Fits(h, areas, l) && AreaOk(h, areas, h[l].seg);
  }

  /** In a heap that is whole LastEntryInSegment always stands in some block of its segment, if not at its start:
      reading a header there is not a fault, but may read what a user or a swallowed header left behind. */
  lemma PointerInBlock(h: Headers, segs: Segments, sizes: Sizes, i: int) returns (a: int)
    requires Whole(h, segs, sizes) && i in segs
    ensures Covers(h, i, a, segs[i].LastEntryInSegment)
    ensures a == segs[i].LastEntryInSegment <==> segs[i].LastEntryInSegment in h
  {
    assert SegmentOk(h, segs[i]) && AreasOf(segs)[i] == segs[i].Area();
    a := Tiled(h, AreasOf(segs), i, segs[i].LastEntryInSegment);
    if segs[i].LastEntryInSegment in h { NotInside(h, a, segs[i].LastEntryInSegment); }
  }

  /** No block starts where LastEntryInSegment stands, but what the bytes there say passes the test for the
      end of the run before the k-th range (rtl/heap.c:668-670). */
  ghost predicate Believed(h: Headers, s: Segment, k: nat, stale: Entry)
    requires k < |s.UCRSegmentList|
  {
    var l := s.LastEntryInSegment;
    l !in h && stale.last && l + stale.size == s.UCRSegmentList[k].Address
  }

  /** Committing in this segment goes by a stale header. */
  ghost predicate Misled(h: Headers, s: Segment, size: int, anywhere: bool, requested: int, stale: Entry) {
    exists k: nat :: FirstFit(s.UCRSegmentList, k, size, anywhere, requested) && Believed(h, s, k, stale)
  }

  /** What a commit leaves that goes by a stale header. */
  ghost predicate TornBy(h: Headers, segs: Segments, i: int, size: int, anywhere: bool, requested: int, stale: Entry,
      p: int, h': Headers, segs': Segments)
  {
    i in segs && exists k: nat :: (FirstFit(segs[i].UCRSegmentList, k, size, anywhere, requested)
                                   && TornAt(h, segs, i, k, size, stale, p, h', segs'))
  }

  ghost predicate TornAt(h: Headers, segs: Segments, i: int, k: nat, size: int, stale: Entry, p: int, h': Headers,
      segs': Segments)
    requires i in segs && k < |segs[i].UCRSegmentList|
  {
    && p == segs[i].UCRSegmentList[k].Address && h' == Torn(h, segs[i], k, size, stale)
    && segs' == segs[i := Taken(segs[i], k, size)]
  }

  ghost predicate TornIn(h: Headers, segs: Segments, i: int, pages: int, stale: Entry, h': Headers, segs': Segments) {
    exists p :: TornBy(h, segs, i, 512 * pages, true, 0, stale, p, h', segs')
  }

  lemma MisledAt(h: Headers, s: Segment, k: nat, size: int, anywhere: bool, requested: int, stale: Entry)
    requires FirstFit(s.UCRSegmentList, k, size, anywhere, requested)
    ensures Misled(h, s, size, anywhere, requested, stale) <==> Believed(h, s, k, stale)
  {
  }

  lemma MisledChoice(h: Headers, segs: Segments, pages: int, i: int, stale: Entry)
    requires 0 <= i < 64 && i in segs && pages <= segs[i].NumberOfUnCommittedPages
        && forall j :: 0 <= j < i ==> Exhausted(segs, j, pages)
    ensures Misled(h, segs[i], 512 * pages, true, 0, stale) ==> Chosen(segs, pages, i)
    ensures !Exhausted(segs, i, pages) ==>
        (Misleads(h, segs, pages, stale) <==> Misled(h, segs[i], 512 * pages, true, 0, stale))
  {
  }

  /** The headers when a stale header has been believed: the block that ends the run keeps its flag, and the
      new one takes over size and segment from the stale bytes (rtl/heap.c:690-722). */
  function Torn(h: Headers, s: Segment, k: nat, size: int, stale: Entry): Headers
    requires k < |s.UCRSegmentList|
  {
    var r := s.UCRSegmentList[k];
    var p := r.Address;
    var last := r.Size != size || p + size == s.LastValidEntry;
    var h1 := h[p := Entry(size, stale.size, false, last, stale.seg)];
    if !last && p + size in h then h1[p + size := h1[p + size].(prev := size)] else h1
  }

  /** The block that ends the run before the k-th range. */
  lemma RunEnd(h: Headers, segs: Segments, i: int, k: nat) returns (l: int)
    requires Layout(h, AreasOf(segs)) && SegmentsOk(h, segs) && i in segs && k < |segs[i].UCRSegmentList|
    ensures l in h && h[l].last && h[l].seg == i && l + h[l].size == segs[i].UCRSegmentList[k].Address
    ensures InRun(h, segs, i, k, l) && h[l].size > 0
  {
    var u := segs[i].UCRSegmentList;
    RunBegins(h, segs, i, k);
    l := if k == 0 then segs[i].BaseAddress else u[k - 1].Address + u[k - 1].Size;
    while !h[l].last
      invariant InRun(h, segs, i, k, l)
      decreases u[k].Address - l
    {
      RunGoesOn(h, segs, i, k, l);
      l := l + h[l].size;
    }
    RunGoesOn(h, segs, i, k, l);
  }

  /** A block is marked last where the run goes on: the heap is not well formed, and RtlpValidateHeap refuses it. */
  ghost predicate Broken(h: Headers, segs: Segments) {
    !Layout(h, AreasOf(segs)) && exists i :: 0 <= i < 64 && i in segs && !Accepted(h, segs[i], i)
  }

  lemma BrokenRefused(h: Headers, lists: seq<seq<int>>, inUse: seq<bool>, totalFreeSize: int, segs: Segments)
    requires Broken(h, segs)
    ensures !HeapAccepted(h, lists, inUse, totalFreeSize, segs)
  {
    if vs: map<int, Visits> :| AllAccept(h, segs, vs, 64) { AllAccepted(h, segs, vs); }
  }

  /** The state before, in which the block at l ends the run before the k-th range; u, the ranges after the commit. */
  ghost predicate Ends(h: Headers, segs: Segments, i: int, k: nat, size: int, l: int) {
    CanCommit(h, segs, i, k, size, l) && InRun(h, segs, i, k, l)
  }

  /** Nothing before the block at l has changed, l is still marked last, and the pages behind it are committed. */
  lemma RunsOn(h: Headers, segs: Segments, i: int, k: nat, size: int, l: int, h': Headers, segs': Segments, s': Segment)
    requires Ends(h, segs, i, k, size, l) && s' == Taken(segs[i], k, size).(LastEntryInSegment := s'.LastEntryInSegment)
    requires segs' == segs[i := s'] && l in h' && h'[l].last && h'[l].seg == i && h'[l].size > 0
    requires forall x :: x in h && x < l ==> x in h' && h'[x] == h[x]
    requires l + h'[l].size < segs[i].UCRSegmentList[k].Address + size && !Edge(s'.Area(), l + h'[l].size)
    ensures Broken(h', segs')
  {
    assert AreasOf(segs')[i] == s'.Area();
    assert !Fits(h', AreasOf(segs'), l);
    forall v | Accepts(h', s', i, v) ensures false {
      TakenRun(h, segs, i, k, size, l, s'.LastEntryInSegment);
      RunVisited(h', s', i, k, v);
      Reached(h, segs, i, k, size, l, h', s', v, RunFrom(s', k));
      NotPassed(h', s', i, v, l);
    }
    assert SegmentOk(h, segs[i]);
  }

  lemma TakenRun(h: Headers, segs: Segments, i: int, k: nat, size: int, l: int, last: int)
    requires Ends(h, segs, i, k, size, l)
    ensures
      var s := Taken(segs[i], k, size).(LastEntryInSegment := last);
      && UcrOk(s.UCRSegmentList) && s.NumberOfUnCommittedRanges == |s.UCRSegmentList| && k <= |s.UCRSegmentList|
      && RunFrom(s, k) == RunFrom(segs[i], k) && InRun(h, segs, i, k, RunFrom(s, k))
      && RunFrom(s, k) <= l < segs[i].UCRSegmentList[k].Address < s.LastValidEntry
  {
    assert SegmentOk(h, segs[i]);
    TakenAreas(h, segs, i, k, size, l);
    RunBegins(h, segs, i, k);
    RangeInside(h, segs, i, segs[i], k);
  }

  lemma RunVisited(h: Headers, s: Segment, i: int, k: nat, v: Visits)
    requires Accepts(h, s, i, v) && k <= s.NumberOfUnCommittedRanges && RunFrom(s, k) < s.LastValidEntry
    ensures RunFrom(s, k) in v && v[RunFrom(s, k)] == k
  {
    if k < s.NumberOfUnCommittedRanges { assert StartsRun(h, s, v, k); }
  }

  lemma NotPassed(h: Headers, s: Segment, i: int, v: Visits, l: int)
    requires l in v && l in h && h[l].last && UcrOk(s.UCRSegmentList) && !Edge(s.Area(), l + h[l].size)
    ensures !Passes(h, s, i, v, l)
  {
    forall j | 0 <= j < |s.UCRSegmentList| ensures s.UCRSegmentList[j].Address != l + h[l].size {
      RangeEnds(s.UCRSegmentList, j, s.UCRSegmentList[j].Address);
    }
  }

  /** The walk of the validator comes to the block at l. */
  lemma Reached(h: Headers, segs: Segments, i: int, k: nat, size: int, l: int, h': Headers, s': Segment, v: Visits,
      x: int)
    requires Ends(h, segs, i, k, size, l) && Accepts(h', s', i, v) && s'.LastValidEntry == segs[i].LastValidEntry
    requires forall y :: y in h && y < l ==> y in h' && h'[y] == h[y]
    requires x in v && x <= l && InRun(h, segs, i, k, x)
    ensures l in v
    decreases l - x
  {
    if x < l {
      var n := x + h[x].size;
      RunGoesOn(h, segs, i, k, x);
      assert Beside(h, x, l);
      assert Passes(h', s', i, v, x);
      RangeInside(h, segs, i, segs[i], k);
      Reached(h, segs, i, k, size, l, h', s', v, n);
    }
  }

  /** A believed stale header breaks the heap: the run does not end any more where its last block says. */
  lemma TornBroken(h: Headers, segs: Segments, i: int, k: nat, size: int, stale: Entry, segs': Segments)
    requires Layout(h, AreasOf(segs)) && SegmentsOk(h, segs) && i in segs && CanTake(segs[i].UCRSegmentList, k, size)
    requires segs' == segs[i := Taken(segs[i], k, size)]
    ensures Broken(Torn(h, segs[i], k, size, stale), segs')
    ensures BusyOf(Torn(h, segs[i], k, size, stale)) == BusyOf(h) && segs[i].UCRSegmentList[k].Address !in h
  {
    var l := RunEnd(h, segs, i, k);
    var h' := Torn(h, segs[i], k, size, stale);
    NoEdge(h, segs, i, k, size, l);
    TornKeeps(h, segs[i], k, size, stale, l);
    assert AreasOf(segs')[i] == segs'[i].Area() && h'[l] == h[l];
    RunsOn(h, segs, i, k, size, l, h', segs', segs'[i]);
  }

  lemma TornFound(h: Headers, segs: Segments, i: int, k: nat, size: int, anywhere: bool, requested: int, stale: Entry,
      p: int, h': Headers, segs': Segments)
    requires Layout(h, AreasOf(segs)) && SegmentsOk(h, segs) && i in segs && CanTake(segs[i].UCRSegmentList, k, size)
    requires FirstFit(segs[i].UCRSegmentList, k, size, anywhere, requested)
    requires TornAt(h, segs, i, k, size, stale, p, h', segs')
    ensures Broken(h', segs') && !Layout(h', AreasOf(segs'))
    ensures TornBy(h, segs, i, size, anywhere, requested, stale, p, h', segs')
  {
    TornBroken(h, segs, i, k, size, stale, segs');
  }

  /** Between the start of the pages and their end nothing is uncommitted any more. */
  lemma NoEdge(h: Headers, segs: Segments, i: int, k: nat, size: int, l: int)
    requires CanCommit(h, segs, i, k, size, l)
    ensures
      var areas, p := AreasOf(segs[i := Taken(segs[i], k, size)]), segs[i].UCRSegmentList[k].Address;
      && (forall x :: l < x < p + size ==> !Edge(areas[i], x)) && l < p && p % 512 == 0
      && (forall x :: x in h ==> x < p || p + size <= x)
  {
    var p, areas := segs[i].UCRSegmentList[k].Address, AreasOf(segs);
    CommittedRaised(h, segs, i, k, size, l);
    RaisedView(h, areas, i, p, size, l);
    TakenAreas(h, segs, i, k, size, l);
    assert With(areas, i, p, size)[i].gone == areas[i].gone - Pages(p, size);
    assert Fits(h, areas, l);
    forall x | l < x < p + size && x in areas[i].gone ensures x in Pages(p, size) {
      PageRange(p, size, x);
    }
    forall x | x in h ensures x < p || p + size <= x {
      RaisedApart(h, areas, i, p, size, l, x);
    }
  }

  lemma TornKeeps(h: Headers, s: Segment, k: nat, size: int, stale: Entry, l: int)
    requires k < |s.UCRSegmentList| && s.UCRSegmentList[k].Address !in h
    requires l < s.UCRSegmentList[k].Address && size > 0
    ensures
      var h' := Torn(h, s, k, size, stale);
      (forall x :: x in h && x <= l ==> x in h' && h'[x] == h[x]) && BusyOf(h') == BusyOf(h)
  {
  }

  // ----- extending the heap

  /** The segment in which RtlpExtendHeap commits pages. */
  ghost predicate Chosen(segs: Segments, pages: int, i: int) {
    0 <= i < 64 && i in segs && !Exhausted(segs, i, pages) && forall j :: 0 <= j < i ==> Exhausted(segs, j, pages)
  }

  /** Extending the heap goes by a stale header in the segment chosen. */
  ghost predicate Misleads(h: Headers, segs: Segments, pages: int, stale: Entry) {
    exists i {:trigger Chosen(segs, pages, i)} :: Chosen(segs, pages, i)
        && Misled(h, segs[i], 512 * pages, true, 0, stale)
  }

  lemma MisledChosen(h: Headers, segs: Segments, pages: int, i: int, stale: Entry)
    requires Chosen(segs, pages, i)
    ensures Misleads(h, segs, pages, stale) <==> Misled(h, segs[i], 512 * pages, true, 0, stale)
  {
  }

  /** An allocation goes by a stale header: no free block fits, and the segment in which pages are committed
      misleads it. */
  ghost predicate AllocationTears(h: Headers, segs: Segments, index: int, stale: Entry) {
    !Fitting(FreeOf(h), index) && Misleads(h, segs, (index + 511) / 512, stale)
  }

  // ----- growing by a stale header

  /** What has to be committed for the block to grow, in whole pages (rtl/heap.c:2369-2370). */
  function Need(size: int, index: int): int {
    (index - size + 511) / 512 * 512
  }

  /** size units can be committed at p. */
  ghost predicate RangeAt(s: Segment, p: int, size: int) {
    exists k: nat :: k < |s.UCRSegmentList| && s.UCRSegmentList[k].Address == p && s.UCRSegmentList[k].Size >= size
  }

  /** The block, which ends its run, has grown over the pages committed for it. */
  ghost predicate PagesTaken(h: Headers, segs: Segments, sizes: Sizes, a: int, index: int, h': Headers, segs': Segments,
      sizes': Sizes)
  {
    && a in h && h[a].seg in segs && Grown(h, h', a, index) && segs'.Keys == segs.Keys
    && LastSet(h, segs) <= LastSet(h', segs')
    && var n, need := a + h[a].size, Need(h[a].size, index);
    && AreasOf(segs') == With(AreasOf(segs), h[a].seg, n, need)
    && sizes' == PagesGrown(sizes, a, h[a].size, need, index)
  }

  lemma PagesPartTaken(h: Headers, segs: Segments, sizes: Sizes, a: int, n: int, need: int, index: int, h1: Headers,
      segs1: Segments, h': Headers, segs': Segments, sizes': Sizes)
    requires a in h && h[a].seg in segs && n == a + h[a].size && need == Need(h[a].size, index) && a in h1 && n in h1
    requires h1[a].size == h[a].size && h1[n].size == need && BusyOf(h1) == BusyOf(h)
    requires LastSet(h, segs) <= LastSet(h1, segs1) && AreasOf(segs1) == With(AreasOf(segs), h[a].seg, n, need)
    requires GrownOnPages(h1, segs1, sizes, a, n, index, h', segs', sizes')
    ensures PagesTaken(h, segs, sizes, a, index, h', segs', sizes')
  {
    assert AreasOf(segs').Keys == AreasOf(segs).Keys;
  }

  lemma PagesAllTaken(h: Headers, segs: Segments, sizes: Sizes, a: int, n: int, need: int, index: int, h': Headers,
      segs': Segments)
    requires a in h && h[a].seg in segs && n == a + h[a].size && need == Need(h[a].size, index)
    requires h[a].size < index && h[a].size + need - index <= 2 && segs'.Keys == segs.Keys
    requires BusyOf(h') == BusyOf(h)[a := h[a].size + need] && LastSet(h, segs) <= LastSet(h', segs')
    requires AreasOf(segs') == With(AreasOf(segs), h[a].seg, n, need)
    requires sizes == PagesGrown(sizes, a, h[a].size, need, index)
    ensures PagesTaken(h, segs, sizes, a, index, h', segs', sizes)
  {
  }

  /** The free blocks and the committed memory after the block has grown: over the free block behind it, or over
      the pages committed for it if it ends its run. */
  ghost predicate GrownExactly(h: Headers, segs: Segments, a: int, index: int, h': Headers, segs': Segments) {
    && a in h && h[a].seg in segs
    && var n, need := a + h[a].size, Need(h[a].size, index);
    if h[a].last then AreasOf(segs') == With(AreasOf(segs), h[a].seg, n, need)
                      && FreeOf(h') == PagesGrown(FreeOf(h), a, h[a].size, need, index)
    else AreasOf(segs') == AreasOf(segs) && n in FreeOf(h) && FreeOf(h') == GrowFree(FreeOf(h), a, h[a].size, index)
  }

  /** The commit behind the block, which ends its run, goes by a stale header. */
  ghost predicate GrowMisled(h: Headers, segs: Segments, a: int, index: int, stale: Entry) {
    && a in h && h[a].last && h[a].seg in segs
    && Misled(h, segs[h[a].seg], Need(h[a].size, index), false, a + h[a].size, stale)
  }

  /** RtlpCoalesceFreeBlocks takes the stale header for a free block before the pages (rtl/heap.c:1012-1014). */
  predicate TakenForFree(stale: Entry, size: int) {
    stale.size != 0 && !stale.busy && size + stale.size <= MaxBlock
  }

  /** Of the range at p, size units are committed, and the run ends there. */
  ghost predicate EndsRun(s: Segment, p: int, size: int) {
    exists k: nat :: k < |s.UCRSegmentList| && s.UCRSegmentList[k].Address == p
      && (s.UCRSegmentList[k].Size != size || p + size == s.LastValidEntry)
  }

  /** The block's own last flag, which nobody cleared, is right again once the block has swallowed all of the
      pages and ends the run as before. */
  ghost predicate Heals(h: Headers, segs: Segments, a: int, index: int, stale: Entry)
    requires a in h && h[a].seg in segs
  {
    var need := Need(h[a].size, index);
    && EndsRun(segs[h[a].seg], a + h[a].size, need) && !TakenForFree(stale, need) && h[a].size + need - index <= 2
  }

  /** Growing the block leaves a broken heap. */
  ghost predicate GrowTears(h: Headers, segs: Segments, a: int, index: int, stale: Entry) {
    GrowMisled(h, segs, a, index, stale) && !Heals(h, segs, a, index, stale)
  }

  /** The state between the commit that went by a stale header and the growth of the block a over n. */
  ghost predicate Stretched(h: Headers, segs: Segments, a: int, n: int, size: int, stale: Entry, h': Headers,
      segs': Segments)
  {
    && a in h && h[a].last && n == a + h[a].size && h[a].seg in segs
    && TornBy(h, segs, h[a].seg, size, false, n, stale, n, h', segs')
  }

  /** The block has its new size and still its last flag, although what is left of the pages follows it. */
  function Overhang(h: Headers, a: int, index: int, rest: int): Headers
    requires a in h
  {
    h[a := h[a].(size := index)][a + index := Entry(rest, index, false, true, h[a].seg)]
  }

  /** If the pages end the run and the stale header is not taken for a free block, what is left of the pages
      follows the block. */
  ghost predicate GrowOverhangs(h: Headers, segs: Segments, a: int, index: int, stale: Entry, h': Headers,
      segs': Segments)
    requires a in h && h[a].seg in segs
  {
    var need := Need(h[a].size, index);
    EndsRun(segs[h[a].seg], a + h[a].size, need) && !TakenForFree(stale, need) ==>
      && h' == Overhang(h, a, index, h[a].size + need - index)
      && exists k: nat :: (k < |segs[h[a].seg].UCRSegmentList|
          && segs[h[a].seg].UCRSegmentList[k].Address == a + h[a].size
                           && segs' == Overhung(segs, h[a].seg, k, need, a + index))
  }

  function Overhung(segs: Segments, i: int, k: nat, size: int, b: int): Segments
    requires i in segs && k < |segs[i].UCRSegmentList|
  {
    segs[i := Taken(segs[i], k, size).(LastEntryInSegment := b)]
  }

  /** The range behind the block is the k-th one, and whether the run ends after the pages is what the new
      header says. */
  lemma StretchedView(h: Headers, segs: Segments, sizes: Sizes, a: int, n: int, size: int, stale: Entry, h': Headers,
      segs': Segments) returns (k: nat)
    requires Whole(h, segs, sizes) && Stretched(h, segs, a, n, size, stale, h', segs') && 0 < size && size % 512 == 0
    requires h[a].size > 0
    ensures k < |segs[h[a].seg].UCRSegmentList| && TornAt(h, segs, h[a].seg, k, size, stale, n, h', segs')
        && Ends(h, segs, h[a].seg, k, size, a)
    ensures n in h' && h'[a] == h[a] && (h'[n].last <==> EndsRun(segs[h[a].seg], n, size)) && Broken(h', segs')
  {
    var i := h[a].seg;
    k :| FirstFit(segs[i].UCRSegmentList, k, size, false, n) && TornAt(h, segs, i, k, size, stale, n, h', segs');
    assert SegmentOk(h, segs[i]);
    var l := RunEnd(h, segs, i, k);
    assert Beside(h, l, a) && Beside(h, a, l);
    NoEdge(h, segs, i, k, size, a);
    TornKeeps(h, segs[i], k, size, stale, a);
    TornBroken(h, segs, i, k, size, stale, segs');
  }

  /** The block, whose last flag was never cleared, has swallowed the pages and ends the run: this is what growing
      after a proper commit gives. */
  lemma StretchedWhole(h: Headers, segs: Segments, sizes: Sizes, a: int, n: int, size: int, stale: Entry, k: nat,
      index: int, h': Headers, segs': Segments)
    requires Whole(h, segs, sizes) && Small(sizes) && a in h && h[a].busy && NotBase(AreasOf(segs), a)
    requires Ends(h, segs, h[a].seg, k, size, a) && n == a + h[a].size && size <= MaxBlock
    requires h[a].size + size <= MaxBlock + 2 && h[a].size + size - index <= 2
    requires Torn(h, segs[h[a].seg], k, size, stale)[n].last
    requires h' == Torn(h, segs[h[a].seg], k, size, stale)[a := h[a].(size := h[a].size + size)] - {n}
    requires segs' == SetLast(segs[h[a].seg := Taken(segs[h[a].seg], k, size)], h[a].seg, a)
    ensures Whole(h', segs', sizes) && LastSet(h, segs) <= LastSet(h', segs') && segs'.Keys == segs.Keys
    ensures BusyOf(h') == BusyOf(h)[a := h[a].size + size] && AreasOf(segs') == With(AreasOf(segs), h[a].seg, n, size)
    ensures sizes == PagesGrown(sizes, a, h[a].size, size, index)
  {
    var i := h[a].seg;
    var g, segs1 := Committed(h, segs[i], i, k, size, a), segs[i := Taken(segs[i], k, size)];
    StretchedAs(h, segs, sizes, a, n, size, stale, k, h', g, segs1);
    GrownWhole(g, segs1, sizes, a, n);
    PagesSwallowed(g, segs1, sizes, a, n, h[a].size, size, index);
  }

  lemma StretchedTaken(h: Headers, segs: Segments, sizes: Sizes, a: int, n: int, size: int, stale: Entry, k: nat,
      index: int, h': Headers, segs': Segments)
    requires Whole(h, segs, sizes) && Small(sizes) && a in h && h[a].busy && NotBase(AreasOf(segs), a)
    requires Ends(h, segs, h[a].seg, k, size, a) && n == a + h[a].size && size == Need(h[a].size, index)
    requires 0 < h[a].size < index <= MaxBlock && h[a].size + size - index <= 2
    requires Torn(h, segs[h[a].seg], k, size, stale)[n].last
    requires h' == Torn(h, segs[h[a].seg], k, size, stale)[a := h[a].(size := h[a].size + size)] - {n}
    requires segs' == SetLast(segs[h[a].seg := Taken(segs[h[a].seg], k, size)], h[a].seg, a)
    ensures Whole(h', segs', sizes) && PagesTaken(h, segs, sizes, a, index, h', segs', sizes)
  {
    StretchedWhole(h, segs, sizes, a, n, size, stale, k, index, h', segs');
    PagesAllTaken(h, segs, sizes, a, n, size, index, h', segs');
  }

  lemma OverhangLeft(h: Headers, segs: Segments, a: int, index: int, need: int, stale: Entry, k: nat, h': Headers,
      segs': Segments)
    requires a in h && h[a].seg in segs && need == Need(h[a].size, index) && k < |segs[h[a].seg].UCRSegmentList|
    requires segs[h[a].seg].UCRSegmentList[k].Address == a + h[a].size && h[a].size + need - index > 2
    requires h' == Overhang(h, a, index, h[a].size + need - index)
    requires segs' == Overhung(segs, h[a].seg, k, need, a + index)
    ensures GrowOverhangs(h, segs, a, index, stale, h', segs') && !Heals(h, segs, a, index, stale)
  {
  }

  lemma PagesSwallowed(g: Headers, segs: Segments, sizes: Sizes, a: int, n: int, was: int, size: int, index: int)
    requires Loose(g, segs, sizes, n) && g[n].last && g[n].size == size && n == a + was && was + size - index <= 2
    ensures sizes == PagesGrown(sizes, a, was, size, index)
  {
    BlockBehind(g, segs, sizes, n);
    assert n !in sizes;
    assert sizes[n := size] - {n} == sizes;
  }

  lemma StretchedAs(h: Headers, segs: Segments, sizes: Sizes, a: int, n: int, size: int, stale: Entry, k: nat,
      h': Headers, g: Headers, segs1: Segments)
    requires Whole(h, segs, sizes) && Small(sizes) && a in h && h[a].busy && NotBase(AreasOf(segs), a)
    requires Ends(h, segs, h[a].seg, k, size, a) && n == a + h[a].size && size <= MaxBlock
    requires Torn(h, segs[h[a].seg], k, size, stale)[n].last
    requires h' == Torn(h, segs[h[a].seg], k, size, stale)[a := h[a].(size := h[a].size + size)] - {n}
    requires g == Committed(h, segs[h[a].seg], h[a].seg, k, size, a)
        && segs1 == segs[h[a].seg := Taken(segs[h[a].seg], k, size)]
    ensures CanGrow(g, segs1, sizes, a, n) && h' == Joined(g, a) && g[a].size == h[a].size && g[n].size == size
    ensures g[n].last && g[a].seg == h[a].seg && BusyOf(g) == BusyOf(h) && LastSet(h, segs) <= LastSet(g, segs1)
    ensures AreasOf(segs1) == With(AreasOf(segs), h[a].seg, n, size)
  {
    var i := h[a].seg;
    CommittedLoose(h, segs, sizes, i, k, size, a, g, segs1);
    SwallowedSame(h, segs[i], i, k, size, a, n, stale);
    StretchedGrow(h, segs, sizes, a, n, size, k, g, segs1);
  }

  lemma StretchedGrow(h: Headers, segs: Segments, sizes: Sizes, a: int, n: int, size: int, k: nat, g: Headers,
      segs1: Segments)
    requires a in h && h[a].busy && h[a].size > 0 && NotBase(AreasOf(segs), a) && Small(sizes) && h[a].seg in segs
    requires k < |segs[h[a].seg].UCRSegmentList| && segs[h[a].seg].UCRSegmentList[k].Address == n == a + h[a].size
    requires n !in h && size > 0 && Loose(g, segs1, sizes, n)
    requires g == Committed(h, segs[h[a].seg], h[a].seg, k, size, a)
    requires segs1 == segs[h[a].seg := Taken(segs[h[a].seg], k, size)]
    ensures CanGrow(g, segs1, sizes, a, n)
  {
    forall j | j in segs1 ensures a != AreasOf(segs1)[j].base {
      assert AreasOf(segs1)[j].base == AreasOf(segs)[j].base;
    }
  }

  /** Once the pages are swallowed, what their header said makes no difference. */
  lemma SwallowedSame(h: Headers, s: Segment, i: int, k: nat, size: int, a: int, n: int, stale: Entry)
    requires a in h && h[a].last && h[a].size > 0 && size > 0 && k < |s.UCRSegmentList|
    requires s.UCRSegmentList[k].Address == n == a + h[a].size && n !in h && Torn(h, s, k, size, stale)[n].last
    ensures
      var g := Committed(h, s, i, k, size, a);
      && n in g && g[n].size == size && g[n].last && g[a].size == h[a].size
      && Joined(g, a) == Torn(h, s, k, size, stale)[a := h[a].(size := h[a].size + size)] - {n}
  {
  }

  lemma OverhangSame(h: Headers, s: Segment, a: int, n: int, size: int, index: int, stale: Entry, k: nat)
    requires a in h && k < |s.UCRSegmentList| && s.UCRSegmentList[k].Address == n && n !in h && a < n
    requires a + index != a && Torn(h, s, k, size, stale)[n].last
    ensures
      var e := Entry(h[a].size + size - index, index, false, true, h[a].seg);
      (Torn(h, s, k, size, stale)[a := h[a].(size := index)] - {n})[a + index := e]
      == Overhang(h, a, index, h[a].size + size - index)
  {
  }

  /** The block has its new size, but still its last flag, and what is left of the pages follows it. */
  lemma StretchedOverhang(h: Headers, segs: Segments, sizes: Sizes, a: int, n: int, size: int, index: int, stale: Entry,
      k: nat, h': Headers, segs': Segments)
    requires Whole(h, segs, sizes) && a in h && h[a].busy && NotBase(AreasOf(segs), a)
    requires Ends(h, segs, h[a].seg, k, size, a) && n == a + h[a].size && h[a].size < index < h[a].size + size
    requires Torn(h, segs[h[a].seg], k, size, stale)[n].last
    requires h' == (Torn(h, segs[h[a].seg], k, size, stale)[a := h[a].(size := index)] - {n})
             [a + index := Entry(h[a].size + size - index, index, false, true, h[a].seg)]
    requires segs' == SetLast(segs[h[a].seg := Taken(segs[h[a].seg], k, size)], h[a].seg, a + index)
    ensures h' == Overhang(h, a, index, h[a].size + size - index) && Broken(h', segs') && a + index !in sizes
    ensures segs' == Overhung(segs, h[a].seg, k, size, a + index)
    ensures forall x :: x in sizes ==> x in h' && !h'[x].busy && h'[x].size == sizes[x]
  {
    var i, b := h[a].seg, a + index;
    NoEdge(h, segs, i, k, size, a);
    assert Fits(h, AreasOf(segs), a);
    if b in h { NotInside(h, a, b); }
    assert n !in h && b !in h;
    OverhangSame(h, segs[i], a, n, size, index, stale, k);
    assert AreasOf(segs[i := Taken(segs[i], k, size)])[i] == segs'[i].Area();
    RunsOn(h, segs, i, k, size, a, h', segs', segs'[i]);
    forall x | x in sizes ensures x in h' && !h'[x].busy && h'[x].size == sizes[x] {
      assert x in FreeOf(h);
    }
  }
}
