/** Heaps that lose LastEntryInSegment in one call, and what comes of it in the calls after it (rtl/heap.c). */
module HeapExamples {
  import opened HeapLayout
  import opened HeapFreeLists
  import opened HeapBlocks
  import opened HeapUcr
  import opened HeapSegments
  import opened HeapSplit
  import opened HeapCommit
  import opened HeapGrow
  import opened HeapValidate
  import opened HeapStale
  import H = Heap

  // ----- growing and freeing

  /** A busy block before two free ones that together exceed the largest entry. */
  function GrowHeaders(): Headers {
    map[0 := Entry(9, 0, true, false, 0), 9 := Entry(100, 9, true, false, 0), 109 := Entry(600, 100, false, false, 0),
        709 := Entry(64827, 600, false, true, 0)]
  }

  function GrowSegments(): Segments {
    map[0 := Segment(0, 9, 65536, [], 0, 0, 709)]
  }

  lemma GrowExample()
    ensures
      var h, segs := GrowHeaders(), GrowSegments();
      Whole(h, segs, FreeOf(h)) && AllLast(h, segs) && GrowStrands(h, segs, 9, 110) && h[9].busy
          && NotBase(AreasOf(segs), 9)
  {
    var h, segs := GrowHeaders(), GrowSegments();
    var areas := AreasOf(segs);
    assert Union([]) == {};
    assert areas[0] == Area(0, 65536, {});
    assert Fits(h, areas, 0) && Fits(h, areas, 9) && Fits(h, areas, 109) && Fits(h, areas, 709);
    assert AreaOk(h, areas, 0) && SegmentOk(h, segs[0]) && LastOk(h, segs, 0);
    forall x, y | x in h && y in h ensures Beside(h, x, y) {
    }
    assert CutStrands(Joined(h, 9), segs, 9, 110);
  }

  /** On this heap growing the block by ten entries loses LastEntryInSegment. */
  method GrowingStrands(heap: H.Heap) returns (ok: bool)
    requires heap.Sound() && heap.hdr == GrowHeaders() && heap.Segments == GrowSegments()
    requires 110 <= heap.VirtualMemoryThreshold <= MaxBlock
    modifies heap`hdr, heap`FreeLists, heap`FreeListsInUse, heap`listed, heap`TotalFreeSize, heap`Segments
    ensures ok && old(heap.Valid()) && heap.Sound() && !heap.Valid()
  {
    GrowExample();
    var torn;
    ok, torn := heap.GrowBlockInPlace(9, 110, Entry(0, 0, false, false, 0));
  }

  /** A busy block of one entry more than the largest free one, at the end of the segment. */
  function FreeHeaders(): Headers {
    map[0 := Entry(9, 0, true, false, 0), 9 := Entry(1014, 9, true, false, 0),
        1023 := Entry(65025, 1014, true, true, 0)]
  }

  function FreeSegments(): Segments {
    map[0 := Segment(0, 9, 66048, [], 0, 0, 1023)]
  }

  lemma FreeExample()
    ensures
      var h, segs := FreeHeaders(), FreeSegments();
      Whole(h, segs, FreeOf(h)) && AllLast(h, segs) && Outgrown(h, segs, 1023) != {} && h[1023].busy
      && NotBase(AreasOf(segs), 1023)
  {
    var h, segs := FreeHeaders(), FreeSegments();
    var areas := AreasOf(segs);
    assert Union([]) == {};
    assert areas[0] == Area(0, 66048, {});
    assert Fits(h, areas, 0) && Fits(h, areas, 9) && Fits(h, areas, 1023);
    assert AreaOk(h, areas, 0) && SegmentOk(h, segs[0]) && LastOk(h, segs, 0);
    forall x, y | x in h && y in h ensures Beside(h, x, y) {
    }
    assert 0 in Outgrown(h, segs, 1023);
  }

  /** On this heap freeing the block loses LastEntryInSegment, if nothing is given back to the system. */
  method FreeingStrands(heap: H.Heap) returns (ok: bool)
    requires heap.Sound() && heap.hdr == FreeHeaders() && heap.Segments == FreeSegments()
    requires heap.DeCommitFreeBlockThreshold > 65025
    modifies heap`hdr, heap`FreeLists, heap`FreeListsInUse, heap`listed, heap`TotalFreeSize, heap`Segments
    ensures ok && old(heap.Valid()) && heap.Sound() && !heap.Valid()
  {
    FreeExample();
    ghost var b, whole;
    ok, b, whole := heap.FreeHeap(1023);
  }

  // ----- a stale header believed

  /** The segment of the first example, with uncommitted pages behind it. */
  function RunSegments(): Segments {
    map[0 := Segment(0, 9, 131072, [Range(65536, 65536)], 128, 1, 609)]
  }

  lemma RunAreas(last: int)
    ensures
      var segs := map[0 := RunSegments()[0].(LastEntryInSegment := last)];
      && AreasOf(segs)[0] == Area(0, 131072, Pages(65536, 65536)) && |Pages(65536, 65536)| == 128
      && UcrOk(segs[0].UCRSegmentList) && Union(segs[0].UCRSegmentList) == Pages(65536, 65536)
      && (forall p :: p in Pages(65536, 65536) <==> p % 512 == 0 && 65536 <= p < 131072)
  {
    var u := RunSegments()[0].UCRSegmentList;
    forall p ensures p in Pages(65536, 65536) <==> p % 512 == 0 && 65536 <= p < 131072 {
      PageRange(65536, 65536, p);
    }
    assert u[0] == Range(65536, 65536) && PageAligned(u[0]);
    assert Union(u) == Pages(65536, 65536) by {
      forall p | p in Pages(65536, 65536) ensures p in Union(u) { assert p in Pages(u[0].Address, u[0].Size); }
    }
    PageCount(65536, 65536);
  }

  lemma RunExample()
    ensures
      var h, segs := ExampleHeaders(), RunSegments();
      Whole(h, segs, FreeOf(h)) && AllLast(h, segs) && CutStrands(h, segs, 9, 2) && !h[9].busy
  {
    var h, segs := ExampleHeaders(), RunSegments();
    var areas := AreasOf(segs);
    RunAreas(609);
    assert segs == map[0 := RunSegments()[0].(LastEntryInSegment := 609)];
    assert Fits(h, areas, 0) && Fits(h, areas, 9) && Fits(h, areas, 609);
    assert AreaOk(h, areas, 0) && SegmentOk(h, segs[0]) && LastOk(h, segs, 0);
    forall x, y | x in h && y in h ensures Beside(h, x, y) {
    }
  }

  /** The headers after a request for two entries: LastEntryInSegment is left inside the block at 11. */
  function StrandedHeaders(): Headers {
    map[0 := Entry(9, 0, true, false, 0), 9 := Entry(2, 9, true, false, 0), 11 := Entry(65024, 2, false, false, 0),
        65035 := Entry(501, 65024, false, true, 0)]
  }

  /** The cut determines the headers. */
  lemma RunCut(h': Headers)
    requires Layout(h', AreasOf(RunSegments())) && InPieces(Told(CutForUser(ExampleHeaders(), 9, 2), 11), 11, h')
    requires 65035 !in BusyOf(h')
    ensures h' == StrandedHeaders()
  {
    var t := Told(CutForUser(ExampleHeaders(), 9, 2), 11);
    var areas := AreasOf(RunSegments());
    RunAreas(609);
    assert RunSegments() == map[0 := RunSegments()[0].(LastEntryInSegment := 609)];
    assert t[11].size == 598 && t[609].size == 64927 && 0 in t && 9 in t;
    assert 0 in h' && 9 in h' && 11 in h' && 65035 in h';
    forall x | x in h' ensures x in {0, 9, 11, 65035} {
      RunKey(h', areas, x);
    }
    assert Fits(h', areas, 0) && Fits(h', areas, 9) && Fits(h', areas, 11) && Fits(h', areas, 65035);
    assert h'[0] == Entry(9, 0, true, false, 0);
    assert h'[9] == Entry(2, 9, true, false, 0);
    assert h'[11] == Entry(65024, 2, false, false, 0);
    assert h'[65035] == Entry(501, 65024, false, true, 0);
    assert h'.Keys == {0, 9, 11, 65035};
  }

  lemma RunKey(h: Headers, areas: Areas, x: int)
    requires Layout(h, areas) && x in h && areas.Keys == {0} && areas[0] == Area(0, 131072, Pages(65536, 65536))
    requires forall p :: p in Pages(65536, 65536) <==> p % 512 == 0 && 65536 <= p < 131072
    requires 0 in h && 9 in h && 11 in h && 65035 in h
    requires h[0].size == 9 && h[9].size == 2 && h[11].size == 65024 && h[65035].size == 501
    ensures x in {0, 9, 11, 65035}
  {
    assert Fits(h, areas, x);
    NotInside(h, 0, x);
    NotInside(h, 9, x);
    NotInside(h, 11, x);
    NotInside(h, 65035, x);
    assert x - x % 512 in areas[0].gone || x < 65536;
  }

  lemma StrandedView()
    ensures
      var h, h', segs := StrandedHeaders(), Marked(StrandedHeaders(), 65035, true), RunSegments();
      && Fitting(FreeOf(h), 501) && (forall a :: IsBest(FreeOf(h), a, 501) ==> a == 65035)
      && h'[65035] == Entry(501, 65024, true, true, 0) && NotBase(AreasOf(segs), 65035)
  {
    var free := FreeOf(StrandedHeaders());
    assert 65035 in free && free[65035] == 501 && 11 in free && free[11] == 65024;
    RunAreas(609);
    assert RunSegments() == map[0 := RunSegments()[0].(LastEntryInSegment := 609)];
  }

  /** The stale bytes at 609 pass for the end of the run. */
  lemma RunMisled(stale: Entry)
    requires stale == ExampleHeaders()[609]
    ensures
      var h, segs := Marked(StrandedHeaders(), 65035, true), RunSegments();
      GrowTears(h, segs, 65035, 502, stale)
      && EndsRun(segs[0], 65536, 512) && !TakenForFree(stale, 512)
  {
    var h, segs := Marked(StrandedHeaders(), 65035, true), RunSegments();
    var u := segs[0].UCRSegmentList;
    assert FirstFit(u, 0, 512, false, 65536);
    MisledAt(h, segs[0], 0, 512, false, 65536, stale);
    assert u[0].Address == 65536;
  }

  /** A request that a free block can serve. */
  method Request(heap: H.Heap, size: int, index: int, stale: Entry) returns (a: int, ghost n: int)
    requires heap.Sound() && 0 <= size < 0x80000000 && heap.VirtualMemoryThreshold <= MaxBlock
    requires index == heap.IndexOfSize(size) && !heap.IsVirtual(index) && Fitting(FreeOf(heap.hdr), index)
    modifies heap`hdr, heap`FreeLists, heap`FreeListsInUse, heap`listed, heap`TotalFreeSize, heap`Segments
    ensures heap.Sound() && IsBest(FreeOf(old(heap.hdr)), a, index) && BusyOf(heap.hdr) == BusyOf(old(heap.hdr))[a := n]
    ensures Handed(old(heap.hdr), old(heap.Segments), a, index, heap.hdr, heap.Segments)
  {
    n := 0;
    var ok, virtual, torn;
    ok, virtual, torn, a := heap.AllocateHeap(size, H.NoMemory, stale);
    n := heap.Granted(FreeOf(old(heap.hdr))[a], index);
  }

  method CutFirst(heap: H.Heap, stale: Entry)
    requires heap.Sound() && heap.hdr == ExampleHeaders() && heap.Segments == RunSegments()
    requires 502 <= heap.VirtualMemoryThreshold <= MaxBlock
    modifies heap`hdr, heap`FreeLists, heap`FreeListsInUse, heap`listed, heap`TotalFreeSize, heap`Segments
    ensures heap.Sound() && heap.hdr == StrandedHeaders() && heap.Segments == RunSegments()
  {
    ghost var h, segs := heap.hdr, heap.Segments;
    H.ExampleBest();
    ghost var n;
    var a;
    a, n := Request(heap, 8, 2, stale);
    RunHanded(h, segs, a, n, heap.hdr, heap.Segments);
  }

  lemma RunHanded(h: Headers, segs: Segments, a: int, n: int, h': Headers, segs': Segments)
    requires h == ExampleHeaders() && segs == RunSegments() && IsBest(FreeOf(h), a, 2)
    requires Handed(h, segs, a, 2, h', segs') && Layout(h', AreasOf(segs')) && BusyOf(h') == BusyOf(h)[a := n]
    ensures h' == StrandedHeaders() && segs' == RunSegments()
  {
    RunExample();
    H.ExampleBest();
    assert 65035 !in BusyOf(ExampleHeaders());
    RunCut(h');
  }

  method TakeLast(heap: H.Heap, stale: Entry)
    requires heap.Sound() && heap.hdr == StrandedHeaders() && heap.Segments == RunSegments()
    requires 502 <= heap.VirtualMemoryThreshold <= MaxBlock
    modifies heap`hdr, heap`FreeLists, heap`FreeListsInUse, heap`listed, heap`TotalFreeSize, heap`Segments
    ensures heap.Sound() && heap.hdr == Marked(StrandedHeaders(), 65035, true) && heap.Segments == RunSegments()
  {
    StrandedView();
    ghost var n;
    var a;
    a, n := Request(heap, 4000, 501, stale);
  }

  lemma RunLeft(h: Headers, segs: Segments, stale: Entry, h': Headers, segs': Segments)
    requires h == Marked(StrandedHeaders(), 65035, true) && segs == RunSegments() && stale == ExampleHeaders()[609]
    requires 65035 in h && h[65035].seg in segs && GrowOverhangs(h, segs, 65035, 502, stale, h', segs')
    ensures forall a :: a in h' ==> h'[a].size > 0
    ensures forall i, k :: i in segs' && 0 <= k < |segs'[i].UCRSegmentList| ==> segs'[i].UCRSegmentList[k].Size > 0
  {
    RunMisled(stale);
    assert h' == Overhang(h, 65035, 502, 511);
  }

  method GrowLast(heap: H.Heap, stale: Entry) returns (after: bool)
    requires heap.Sound() && heap.hdr == Marked(StrandedHeaders(), 65035, true) && heap.Segments == RunSegments()
    requires 502 <= heap.VirtualMemoryThreshold <= MaxBlock && stale == ExampleHeaders()[609]
    modifies heap`hdr, heap`FreeLists, heap`FreeListsInUse, heap`listed, heap`TotalFreeSize, heap`Segments
    ensures !after
  {
    StrandedView();
    RunMisled(stale);
    ghost var h, segs := heap.hdr, heap.Segments;
    var ok, torn := heap.ReAllocateInPlace(65035, 4008, stale);
    RunLeft(h, segs, stale, heap.hdr, heap.Segments);
    BrokenRefused(heap.hdr, heap.FreeLists, heap.FreeListsInUse, heap.TotalFreeSize, heap.Segments);
    after := ValidateHeap(heap.hdr, heap.FreeLists, heap.FreeListsInUse, heap.TotalFreeSize, heap.Segments,
        heap.listed);
  }

  /** A run of ordinary calls from a sound heap to one that RtlpValidateHeap refuses: two entries are allocated,
      which leaves LastEntryInSegment inside a free block; the last block is allocated; and growing it by one entry
      goes by the header that once stood there, whose bytes nobody has written since. */
  method StaleHeaderBelieved(heap: H.Heap) returns (before: bool, after: bool)
    requires heap.Sound() && heap.hdr == ExampleHeaders() && heap.Segments == RunSegments()
    requires 502 <= heap.VirtualMemoryThreshold <= MaxBlock
    modifies heap`hdr, heap`FreeLists, heap`FreeListsInUse, heap`listed, heap`TotalFreeSize, heap`Segments
    ensures old(heap.Valid()) && before && !after
  {
    RunExample();
    var stale := heap.hdr[609];
    CutFirst(heap, stale);
    TakeLast(heap, stale);
    before := heap.Validate();
    after := GrowLast(heap, stale);
  }
}
