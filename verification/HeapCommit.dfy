/** Committing pages at the front of an uncommitted range (rtl/heap.c:611-743). */
module HeapCommit {
  import opened HeapLayout
  import opened HeapFreeLists
  import opened HeapBlocks
  import opened HeapUcr
  import opened HeapSegments
  import opened HeapSplit

  /** The first size units of the k-th range are committed; an exhausted range disappears. */
  function TakeFront(u: seq<Range>, k: nat, size: int): seq<Range>
    requires k < |u|
  {
    if u[k].Size == size then u[..k] + u[k + 1..]
    else u[k := Range(u[k].Address + size, u[k].Size - size)]
  }

  ghost predicate CanTake(u: seq<Range>, k: nat, size: int) {
    UcrOk(u) && k < |u| && 0 < size <= u[k].Size && size % 512 == 0
  }

  /** Where a range starts and ends nothing else is uncommitted. */
  lemma RangeEnds(u: seq<Range>, k: nat, x: int)
    requires UcrOk(u) && k < |u|
    ensures x in Union(u) && x < u[k].Address ==> k > 0 && x < u[k - 1].Address + u[k - 1].Size
    ensures u[k].Address + u[k].Size !in Union(u)
    ensures u[k].Address <= x < u[k].Address + u[k].Size && x % 512 == 0 ==> x in Union(u)
  {
    if u[k].Address <= x < u[k].Address + u[k].Size && x % 512 == 0 {
      assert x in Pages(u[k].Address, u[k].Size);
    }
  }

  lemma TakeFrontUnion(u: seq<Range>, k: nat, size: int)
    requires CanTake(u, k, size)
    ensures UcrOk(TakeFront(u, k, size))
    ensures Union(TakeFront(u, k, size)) == Union(u) - Pages(u[k].Address, size)
    ensures Pages(u[k].Address, size) <= Union(u)
  {
    var u' := TakeFront(u, k, size);
    var rest := u[..k] + u[k + 1..];
    UnionWithout(u, k);
    DroppedRange(u, k);
    PagesJoin(u[k].Address, size, u[k].Size - size);
    if size < u[k].Size {
      UnionWithout(u', k);
      assert u'[..k] + u'[k + 1..] == rest;
    }
  }

  /** The search of RtlpFindAndCommitPages: the first range that is large enough, and at the requested
      address if there is one; |u| when there is none. */
  method FindRange(u: seq<Range>, size: int, anywhere: bool, requested: int) returns (k: nat)
    ensures k <= |u|
    ensures k < |u| ==> u[k].Size >= size && (anywhere || u[k].Address == requested)
    ensures forall j :: 0 <= j < k ==> u[j].Size < size || !(anywhere || u[j].Address == requested)
  {
    k := 0;
    while k < |u| && !(u[k].Size >= size && (u[k].Address == requested || anywhere))
      invariant k <= |u|
      invariant forall j :: 0 <= j < k ==> u[j].Size < size || !(anywhere || u[j].Address == requested)
    {
      k := k + 1;
    }
  }

  /** The search ends at the k-th range. */
  ghost predicate FirstFit(u: seq<Range>, k: nat, size: int, anywhere: bool, requested: int) {
    && k < |u| && u[k].Size >= size && (anywhere || u[k].Address == requested)
    && forall j :: 0 <= j < k ==> u[j].Size < size || !(anywhere || u[j].Address == requested)
  }

  /** The range where the search ends is at p. */
  ghost predicate FitsAt(u: seq<Range>, p: int, size: int, anywhere: bool, requested: int) {
    exists k: nat :: FirstFit(u, k, size, anywhere, requested) && u[k].Address == p
  }

  /** The block at l lies in the run that ends at the k-th range. */
  ghost predicate InRun(h: Headers, segs: Segments, i: int, k: nat, l: int) {
    && i in segs && k < |segs[i].UCRSegmentList| && l in h && h[l].seg == i
    && var u := segs[i].UCRSegmentList;
    && l < u[k].Address && (if k == 0 then segs[i].BaseAddress else u[k - 1].Address + u[k - 1].Size) <= l
  }

  lemma RunBegins(h: Headers, segs: Segments, i: int, k: nat)
    requires Layout(h, AreasOf(segs)) && SegmentsOk(h, segs) && i in segs && k < |segs[i].UCRSegmentList|
    ensures
      var u := segs[i].UCRSegmentList;
      InRun(h, segs, i, k, if k == 0 then segs[i].BaseAddress else u[k - 1].Address + u[k - 1].Size)
  {
    var u, areas := segs[i].UCRSegmentList, AreasOf(segs);
    assert SegmentOk(h, segs[i]) && AreaOk(h, areas, i) && areas[i] == segs[i].Area();
    RangeEnds(u, k, u[k].Address);
    if k > 0 {
      var e := u[k - 1].Address + u[k - 1].Size;
      RangeEnds(u, k - 1, e - 512);
      assert Resumes(h, areas[i], i, e - 512);
    }
  }

  lemma RunGoesOn(h: Headers, segs: Segments, i: int, k: nat, l: int)
    requires Layout(h, AreasOf(segs)) && SegmentsOk(h, segs) && InRun(h, segs, i, k, l)
    ensures h[l].size > 0
    ensures
      var p := segs[i].UCRSegmentList[k].Address;
      if h[l].last then l + h[l].size == p else InRun(h, segs, i, k, l + h[l].size)
  {
    var u, areas := segs[i].UCRSegmentList, AreasOf(segs);
    var p := u[k].Address;
    assert SegmentOk(h, segs[i]) && AreaOk(h, areas, i) && areas[i] == segs[i].Area();
    assert Fits(h, areas, l);
    RangeEnds(u, k, p);
    RangeEnds(u, k, l + h[l].size);
    assert p in areas[i].gone;
    if !h[l].last {
      NotGone(h, areas, i, l + h[l].size);
    }
  }

  /** The segment record after size units of the k-th range have been committed. */
  function Taken(s: Segment, k: nat, size: int): Segment
    requires k < |s.UCRSegmentList|
  {
    var r := s.UCRSegmentList[k];
    var u := TakeFront(s.UCRSegmentList, k, size);
    s.(UCRSegmentList := u,
       NumberOfUnCommittedPages := s.NumberOfUnCommittedPages - size / 512,
       NumberOfUnCommittedRanges := if r.Size == size then s.NumberOfUnCommittedRanges - 1
           else s.NumberOfUnCommittedRanges,
       LastEntryInSegment := if r.Size == size && r.Address + size != s.LastValidEntry then s.FirstEntry()
           else r.Address)
  }

  /** The headers after the commit, as the source writes them. */
  function Committed(h: Headers, s: Segment, i: int, k: nat, size: int, l: int): Headers
    requires k < |s.UCRSegmentList| && l in h
  {
    var r := s.UCRSegmentList[k];
    var p := r.Address;
    var last := r.Size != size || p + size == s.LastValidEntry;
    var h1 := h[l := h[l].(last := false)][p := Entry(size, h[l].size, false, last, i)];
    if !last && p + size in h then h1[p + size := h1[p + size].(prev := size)] else h1
  }

  ghost predicate CanCommit(h: Headers, segs: Segments, i: int, k: nat, size: int, l: int) {
    && Layout(h, AreasOf(segs)) && SegmentsOk(h, segs)
    && i in segs && CanTake(segs[i].UCRSegmentList, k, size)
    && l in h && h[l].last && h[l].seg == i && l + h[l].size == segs[i].UCRSegmentList[k].Address
  }

  lemma CommittedRaised(h: Headers, segs: Segments, i: int, k: nat, size: int, l: int)
    requires CanCommit(h, segs, i, k, size, l)
    ensures
      var p := segs[i].UCRSegmentList[k].Address;
      && CanRaise(h, AreasOf(segs), i, p, size, l)
      && Committed(h, segs[i], i, k, size, l) == Raised(h, AreasOf(segs), i, p, size, l)
  {
    assert SegmentOk(h, segs[i]) && AreasOf(segs)[i] == segs[i].Area();
    TakeFrontUnion(segs[i].UCRSegmentList, k, size);
    TakenEnd(segs, i, k, size);
  }

  /** After the pages the run ends if part of the range is left, or at the end of the segment. */
  lemma TakenEnd(segs: Segments, i: int, k: nat, size: int)
    requires i in segs && CanTake(segs[i].UCRSegmentList, k, size)
    ensures
      var r, g := segs[i].UCRSegmentList[k], AreasOf(segs)[i];
      var x := r.Address + size;
      (x == g.end || x in g.gone) <==> (r.Size != size || x == segs[i].LastValidEntry)
  {
    var u := segs[i].UCRSegmentList;
    RangeEnds(u, k, u[k].Address + size);
  }

  lemma TakenCount(u: seq<Range>, k: nat, size: int)
    requires CanTake(u, k, size) && Pages(u[k].Address, size) <= Union(u)
    ensures |Union(u) - Pages(u[k].Address, size)| == |Union(u)| - size / 512
  {
    PageCount(u[k].Address, size);
    assert |Union(u) - Pages(u[k].Address, size)| == |Union(u)| - |Pages(u[k].Address, size)|;
  }

  lemma TakenAreas(h: Headers, segs: Segments, i: int, k: nat, size: int, l: int)
    requires CanCommit(h, segs, i, k, size, l)
    ensures
      var segs', p := segs[i := Taken(segs[i], k, size)], segs[i].UCRSegmentList[k].Address;
      && AreasOf(segs') == With(AreasOf(segs), i, p, size)
      && UcrOk(segs'[i].UCRSegmentList)
      && segs'[i].NumberOfUnCommittedPages == |Union(segs'[i].UCRSegmentList)|
      && segs'[i].NumberOfUnCommittedRanges == |segs'[i].UCRSegmentList|
  {
    var u, p := segs[i].UCRSegmentList, segs[i].UCRSegmentList[k].Address;
    var segs' := segs[i := Taken(segs[i], k, size)];
    assert SegmentOk(h, segs[i]);
    TakeFrontUnion(u, k, size);
    TakenCount(u, k, size);
    SameArea(segs, i, Taken(segs[i], k, size), p, size);
  }

  lemma SameArea(segs: Segments, i: int, s: Segment, p: int, size: int)
    requires i in segs && s.BaseAddress == segs[i].BaseAddress && s.LastValidEntry == segs[i].LastValidEntry
    requires Union(s.UCRSegmentList) == Union(segs[i].UCRSegmentList) - Pages(p, size)
    ensures AreasOf(segs[i := s]) == With(AreasOf(segs), i, p, size)
  {
    assert forall j {:trigger AreasOf(segs)[j]} :: j in segs && j != i ==> AreasOf(segs[i := s])[j] == AreasOf(segs)[j];
  }

  /** What the commit does to the headers that were there. */
  lemma CommittedAt(h: Headers, s: Segment, i: int, k: nat, size: int, l: int, x: int)
    requires k < |s.UCRSegmentList| && l in h && s.UCRSegmentList[k].Address !in h && size > 0 && x in h
    ensures
      var h', p := Committed(h, s, i, k, size, l), s.UCRSegmentList[k].Address;
      && x in h' && h'[x].size == h[x].size && h'[x].busy == h[x].busy && h'[x].seg == h[x].seg
      && (x != l ==> h'[x].last == h[x].last)
      && p in h' && h'[p].seg == i && h'[p].last == (s.UCRSegmentList[k].Size != size || p + size == s.LastValidEntry)
  {
  }

  lemma TakenReadable(h: Headers, segs: Segments, i: int, k: nat, size: int, l: int)
    requires CanCommit(h, segs, i, k, size, l)
    ensures Readable(Taken(segs[i], k, size))
  {
    var u, f := segs[i].UCRSegmentList, segs[i].FirstEntry();
    assert SegmentOk(h, segs[i]) && AreasOf(segs)[i] == segs[i].Area();
    TakeFrontUnion(u, k, size);
    FirstBlock(h, segs, i);
    BlockReadable(h, AreasOf(segs), f);
    CommittedRaised(h, segs, i, k, size, l);
    RaisedView(h, AreasOf(segs), i, u[k].Address, size, l);
    PageRange(u[k].Address, size, u[k].Address);
  }

  lemma CommittedBase(h: Headers, segs: Segments, i: int, k: nat, size: int, l: int, j: int)
    requires CanCommit(h, segs, i, k, size, l) && j in segs
    ensures SegmentOk(Committed(h, segs[i], i, k, size, l), segs[i := Taken(segs[i], k, size)][j])
    ensures segs[i].UCRSegmentList[k].Address !in h
  {
    var p, areas := segs[i].UCRSegmentList[k].Address, AreasOf(segs);
    assert SegmentOk(h, segs[j]);
    CommittedRaised(h, segs, i, k, size, l);
    RaisedView(h, areas, i, p, size, l);
    TakenAreas(h, segs, i, k, size, l);
    TakenReadable(h, segs, i, k, size, l);
    CommittedAt(h, segs[i], i, k, size, l, segs[j].BaseAddress);
  }

  lemma CommittedLast(h: Headers, segs: Segments, i: int, k: nat, size: int, l: int, j: int)
    requires CanCommit(h, segs, i, k, size, l) && j in segs && segs[i].UCRSegmentList[k].Address !in h
        && (j == i || LastOk(h, segs, j))
    ensures LastOk(Committed(h, segs[i], i, k, size, l), segs[i := Taken(segs[i], k, size)], j)
  {
    FirstBlock(h, segs, j);
    if j != i { CommittedAt(h, segs[i], i, k, size, l, segs[j].LastEntryInSegment); }
    CommittedAt(h, segs[i], i, k, size, l, segs[j].FirstEntry());
  }

  /** Committing the front of a range puts one new free block in flight and keeps everything else. */
  lemma CommittedLoose(h: Headers, segs: Segments, sizes: Sizes, i: int, k: nat, size: int, l: int, h': Headers,
      segs': Segments)
    requires CanCommit(h, segs, i, k, size, l) && Whole(h, segs, sizes) && size <= MaxBlock
    requires h' == Committed(h, segs[i], i, k, size, l) && segs' == segs[i := Taken(segs[i], k, size)]
    ensures
      var p := segs[i].UCRSegmentList[k].Address;
      && LastSet(h, segs) + {i} <= LastSet(h', segs') && Loose(h', segs', sizes, p) && p !in h && h'[p].size == size
         && !h'[p].busy && BusyOf(h') == BusyOf(h)
      && AreasOf(segs') == With(AreasOf(segs), i, p, size)
  {
    var p, areas := segs[i].UCRSegmentList[k].Address, AreasOf(segs);
    CommittedRaised(h, segs, i, k, size, l);
    RaisedView(h, areas, i, p, size, l);
    RaisedLayout(h, areas, i, p, size, l);
    TakenAreas(h, segs, i, k, size, l);
    CommittedSegments(h, segs, i, k, size, l, h', segs');
    forall j | j in segs' ensures p != AreasOf(segs')[j].base {
      assert SegmentOk(h, segs[j]);
    }
    CommittedBlocks(h, segs[i], i, k, size, l);
  }

  lemma CommittedSegments(h: Headers, segs: Segments, i: int, k: nat, size: int, l: int, h': Headers, segs': Segments)
    requires CanCommit(h, segs, i, k, size, l)
    requires h' == Committed(h, segs[i], i, k, size, l) && segs' == segs[i := Taken(segs[i], k, size)]
    ensures SegmentsOk(h', segs') && LastSet(h, segs) + {i} <= LastSet(h', segs')
  {
    forall j | j in segs' ensures SegmentOk(h', segs'[j]) && (j == i || LastOk(h, segs, j) ==> LastOk(h', segs', j)) {
      CommittedBase(h, segs, i, k, size, l, j);
      if j == i || LastOk(h, segs, j) { CommittedLast(h, segs, i, k, size, l, j); }
    }
  }

  lemma CommittedBlocks(h: Headers, s: Segment, i: int, k: nat, size: int, l: int)
    requires k < |s.UCRSegmentList| && l in h && s.UCRSegmentList[k].Address !in h && l != s.UCRSegmentList[k].Address
    ensures
      var h', p := Committed(h, s, i, k, size, l), s.UCRSegmentList[k].Address;
      size > 0 ==>
        FreeOf(h') - {p} == FreeOf(h) && BusyOf(h') == BusyOf(h) && p in h' && h'[p].size == size && !h'[p].busy
  {
    var h', p := Committed(h, s, i, k, size, l), s.UCRSegmentList[k].Address;
    if size > 0 {
      assert h'.Keys == h.Keys + {p};
      assert FreeOf(h') - {p} == FreeOf(h);
    }
  }

  /** Handing out the block just committed never strands LastEntryInSegment. */
  lemma CoalescedReady(h: Headers, h1: Headers, p: int, h2: Headers, segs: Segments, sizes: Sizes, a: int, index: int)
    requires BusyOf(h1) == BusyOf(h) && p !in h && BusyOf(h2) - {a} == BusyOf(h1) - {p}
    requires Loose(h2, segs, sizes, a) && h2[a].seg in segs
    requires h2[a].last || segs[h2[a].seg].LastEntryInSegment == segs[h2[a].seg].FirstEntry()
    ensures BusyOf(h2) - {a} == BusyOf(h) && !CutStrands(Marked(h2, a, false), segs, a, index)
  {
    assert BusyOf(h1) - {p} == BusyOf(h);
    ExtendedReady(h2, segs, sizes, a, index);
  }

  lemma ExtendedReady(h: Headers, segs: Segments, sizes: Sizes, a: int, index: int)
    requires Loose(h, segs, sizes, a) && h[a].seg in segs
    requires h[a].last || segs[h[a].seg].LastEntryInSegment == segs[h[a].seg].FirstEntry()
    ensures !CutStrands(Marked(h, a, false), segs, a, index)
  {
    if !h[a].last {
      var s := segs[h[a].seg];
      NextView(h, segs, sizes, a);
      FirstBlock(h, segs, h[a].seg);
      assert AreasOf(segs)[h[a].seg].base == s.BaseAddress;
    }
  }

  lemma FirstNotStranded(h: Headers, segs: Segments, sizes: Sizes, i: int, index: int)
    requires Whole(h, segs, sizes) && i in segs && segs[i].LastEntryInSegment == segs[i].FirstEntry()
    ensures !CutStrands(h, segs, segs[i].FirstEntry(), index)
  {
    FirstBlock(h, segs, i);
    assert Fits(h, AreasOf(segs), segs[i].FirstEntry());
  }

  /** The segment cannot commit that many pages in one piece. */
  ghost predicate Exhausted(segs: Segments, i: int, pages: int) {
    i in segs ==>
      || pages > segs[i].NumberOfUnCommittedPages
      || forall j :: 0 <= j < |segs[i].UCRSegmentList| ==> segs[i].UCRSegmentList[j].Size < 512 * pages
  }
}
