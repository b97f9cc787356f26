/** A busy block grows over the free block after it (rtl/heap.c:2342-2584). */
module HeapGrow {
  import opened HeapLayout
  import opened HeapFreeLists
  import opened HeapBlocks
  import opened HeapSegments
  import opened HeapSplit

  /** The free block n is in flight, right after the busy block a. */
  ghost predicate CanGrow(h: Headers, segs: Segments, sizes: Sizes, a: int, n: int) {
    && Loose(h, segs, sizes, n) && !h[n].busy && a in h && h[a].busy && !h[a].last && h[a].size > 0
       && NotBase(AreasOf(segs), a)
    && n == a + h[a].size && h[n].size > 0 && Small(sizes)
  }

  lemma GrownHeld(h: Headers, segs: Segments, sizes: Sizes, a: int, n: int)
    requires CanGrow(h, segs, sizes, a, n)
    ensures Held(Joined(h, a), segs, sizes, a) && BusyOf(Joined(h, a)) == BusyOf(h)[a := h[a].size + h[n].size]
    ensures CanJoin(h, AreasOf(segs), a) && h[a].seg in segs && h[n].seg == h[a].seg && FreeOf(Joined(h, a)) == sizes
    ensures !h[n].last ==> n + h[n].size in h && h[n + h[n].size].seg == h[n].seg
    ensures LastSet(h, segs) - MovedTo(h, n) <= LastSet(Joined(h, a), segs) && MovedTo(Joined(h, a), a) == MovedTo(h, n)
  {
    assert Fits(h, AreasOf(segs), a);
    assert Fits(h, AreasOf(segs), n);
    JoinedLayout(h, AreasOf(segs), a);
    JoinedBlocks(h, a);
    GrownLast(h, segs, a);
    var j := Joined(h, a);
    assert j[a].busy && j[a].seg == h[a].seg && j[a].last == h[n].last;
    forall x | x in BusyOf(j) - {a} ensures (BusyOf(j) - {a})[x] <= MaxBlock + 2 {
      assert x in BusyOf(h) && BusyOf(h)[x] == (BusyOf(j) - {a})[x];
    }
  }

  lemma GrownLast(h: Headers, segs: Segments, a: int)
    requires CanJoin(h, AreasOf(segs), a) && SegmentsOk(h, segs)
    ensures SegmentsOk(Joined(h, a), segs) && h[a].seg in segs && h[a + h[a].size].seg == h[a].seg
    ensures LastSet(h, segs) - MovedTo(h, a + h[a].size) <= LastSet(Joined(h, a), segs)
  {
    var j, n := Joined(h, a), a + h[a].size;
    assert Fits(h, AreasOf(segs), a);
    assert Fits(h, AreasOf(segs), n);
    JoinedSegments(h, segs, a);
    forall i | i in segs ensures SegmentOk(j, segs[i])
        && (LastOk(h, segs, i) ==> i in MovedTo(h, n) || LastOk(j, segs, i)) {
      assert i in LastSet(h, segs) ==> LastOk(j, LastMoved(h, segs, a, n), i);
      assert SegmentOk(j, LastMoved(h, segs, a, n)[i]);
    }
  }

  /** The block takes the whole of the free one. */
  lemma GrownWhole(h: Headers, segs: Segments, sizes: Sizes, a: int, n: int)
    requires CanGrow(h, segs, sizes, a, n) && h[a].size + h[n].size <= MaxBlock + 2 && h[a].seg in segs
    ensures
      var j, segs' := Joined(h, a), LastMoved(h, segs, a, n);
      && Whole(j, segs', sizes) && LastSet(h, segs) <= LastSet(j, segs') && AreasOf(segs') == AreasOf(segs)
      && BusyOf(j) == BusyOf(h)[a := h[a].size + h[n].size]
  {
    GrownHeld(h, segs, sizes, a, n);
    JoinedSegments(h, segs, a);
    SmallWith(BusyOf(h), a, h[a].size + h[n].size);
  }

  /** The headers when part of the free block is left: the block after it is told later. */
  function GrownOverHeaders(h: Headers, a: int, n: int, index: int): Headers
    requires a in h && n in h
  {
    (h[a := h[a].(size := index)] - {n})[a + index := Entry(h[a].size + h[n].size - index, index, false, h[n].last,
        h[a].seg)]
  }

  /** The remainder of the free block is one that ReleaseTail can take. */
  lemma GrownTail(h: Headers, segs: Segments, sizes: Sizes, a: int, n: int, index: int, b: int, over: Headers)
      returns (t: Headers)
    requires CanGrow(h, segs, sizes, a, n) && h[a].size < index < h[a].size + h[n].size && index <= MaxBlock
    requires b == a + index && over == GrownOverHeaders(h, a, n, index)
    ensures Telling(over, b, t) && Remaining(h, segs, sizes, a, n, index, t, b) && Tail(t, segs, sizes, b)
  {
    t := Told(over, b);
    var j := Joined(h, a);
    GrownHeld(h, segs, sizes, a, n);
    CutFresh(j, AreasOf(segs), a, index);
    GrownTold(h, a, n, index);
    GrownCut(h, segs, sizes, a, n, index);
  }

  /** t is what the headers become when part of the free block n remains at b. */
  ghost predicate Remaining(h: Headers, segs: Segments, sizes: Sizes, a: int, n: int, index: int, t: Headers, b: int)
    requires a in h && n in h && h[a].size > 0 && h[n].size > 0 && n == a + h[a].size
  {
    && Tail(t, segs, sizes, b) && h[a].seg in segs && BusyOf(t) == BusyOf(h)[a := index] && t[b].seg == h[a].seg
    && LastSet(h, segs) - MovedTo(h, n) <= LastSet(t, segs) && MovedTo(t, b) == MovedTo(h, n)
    && (TailStrands(t, segs, b) <==> CutStrands(Joined(h, a), segs, a, index))
  }

  lemma RemainingReleased(h: Headers, segs: Segments, sizes: Sizes, a: int, n: int, index: int, t: Headers, b: int,
      h': Headers, segs': Segments)
    requires a in h && n in h && h[a].size > 0 && h[n].size > 0 && n == a + h[a].size
    requires Remaining(h, segs, sizes, a, n, index, t, b) && Released(t, segs, b, h', segs')
    requires h[a].size + h[n].size - index > 2
    ensures BusyOf(h') == BusyOf(h)[a := index] && AreasOf(segs') == AreasOf(segs)
    ensures Lasts(h, segs, h', segs', GrowLost(h, segs, a, n, index))
  {
    assert b !in BusyOf(t);
  }

  lemma GrownCut(h: Headers, segs: Segments, sizes: Sizes, a: int, n: int, index: int)
    requires CanGrow(h, segs, sizes, a, n) && h[a].size < index < h[a].size + h[n].size && index <= MaxBlock
    ensures
      var j, b := Joined(h, a), a + index;
      CutForUser(j, a, index)[b].size > 0 && Remaining(h, segs, sizes, a, n, index, Told(CutForUser(j, a, index), b), b)
  {
    var j := Joined(h, a);
    GrownHeld(h, segs, sizes, a, n);
    assert BusyOf(j)[a := index] == BusyOf(h)[a := index];
    HeldCut(j, segs, sizes, a, index);
  }

  lemma GrownTold(h: Headers, a: int, n: int, index: int)
    requires a in h && n in h && h[a].size > 0 && h[n].size > 0 && n == a + h[a].size && h[a].busy && !h[a].last
    requires h[a].size < index < h[a].size + h[n].size && a + index !in h
    requires !h[n].last ==> n + h[n].size in h
    ensures
      var h', b := GrownOverHeaders(h, a, n, index), a + index;
      h'[b].size > 0 && CutForUser(Joined(h, a), a, index)[b].size > 0
      && Told(h', b) == Told(CutForUser(Joined(h, a), a, index), b)
  {
  }

  /** The free block in flight starts where the busy block a of the same segment ends. */
  lemma GrowReady(h: Headers, segs: Segments, sizes: Sizes, a: int, n: int, i: int)
    requires Loose(h, segs, sizes, n) && !h[n].busy && Small(sizes) && NotBase(AreasOf(segs), a)
    requires a in BusyOf(h) && n == a + BusyOf(h)[a] && h[n].seg == i && i in segs
        && segs[i].BaseAddress <= a < segs[i].LastValidEntry
    ensures CanGrow(h, segs, sizes, a, n)
  {
    var areas := AreasOf(segs);
    assert Fits(h, areas, a) && Fits(h, areas, n);
    OneArea(areas, i, h[a].seg, a);
    NotGone(h, areas, i, n);
  }

  /** Growing into pages just committed strands nothing. */
  lemma GrownReady(h: Headers, segs: Segments, sizes: Sizes, a: int, n: int, index: int)
    requires CanGrow(h, segs, sizes, a, n) && h[n].seg in segs
    requires h[n].last || segs[h[n].seg].LastEntryInSegment == segs[h[n].seg].FirstEntry()
    ensures h[a].seg in segs && !CutStrands(Joined(h, a), segs, a, index)
  {
    GrownHeld(h, segs, sizes, a, n);
    var j := Joined(h, a);
    if !j[a].last {
      assert Fits(j, AreasOf(segs), a);
      FirstBlock(j, segs, j[a].seg);
      assert AreasOf(segs)[j[a].seg].base == segs[j[a].seg].BaseAddress;
    }
  }

  /** In terms of the heap before the call: the free block n after a is large enough and leaves more than
      two entries, it is not the last one, the one after it is free too, and what is left of both is too
      large for one entry and strands LastEntryInSegment. */
  ghost predicate GrowStrands(h: Headers, segs: Segments, a: int, index: int) {
    && a in h && !h[a].last && h[a].size > 0 && FreeAfter(h, a) && h[a + h[a].size].size > 0
    && h[a].size + h[a + h[a].size].size - index > 2
    && CutStrands(Joined(h, a), segs, a, index)
  }

  lemma CoalescedGrow(h0: Headers, h: Headers, segs: Segments, sizes: Sizes, a: int, n: int, index: int)
    requires Loose(h, segs, sizes, n) && Small(sizes) && NotBase(AreasOf(segs), a) && BusyOf(h) - {n} == BusyOf(h0)
    requires a in BusyOf(h0) && n == a + BusyOf(h0)[a] && h[n].seg in segs
    requires segs[h[n].seg].BaseAddress <= a < segs[h[n].seg].LastValidEntry
    requires h[n].last || segs[h[n].seg].LastEntryInSegment == segs[h[n].seg].FirstEntry()
    ensures !h[n].busy ==>
              CanGrow(h, segs, sizes, a, n) && BusyOf(h) == BusyOf(h0) && !CutStrands(Joined(h, a), segs, a, index)
  {
    if !h[n].busy {
      GrowReady(h, segs, sizes, a, n, h[n].seg);
      GrownReady(h, segs, sizes, a, n, index);
      assert BusyOf(h) - {n} == BusyOf(h);
    }
  }

  /** The segment whose LastEntryInSegment is left behind when the block at a grows over the free block n. */
  ghost function GrowLost(h: Headers, segs: Segments, a: int, n: int, index: int): set<int>
    requires a in h && n in h && h[a].size > 0 && h[n].size > 0 && n == a + h[a].size
  {
    if h[a].size + h[n].size - index > 2 && CutStrands(Joined(h, a), segs, a, index) then {h[a].seg} else {}
  }

  ghost function GrowStrandsSet(h: Headers, segs: Segments, a: int, index: int): set<int>
    requires a in h
  {
    if GrowStrands(h, segs, a, index) then {h[a].seg} else {}
  }

  lemma GrowLostIs(h: Headers, segs: Segments, a: int, n: int, index: int)
    requires a in h && n in h && h[a].size > 0 && h[n].size > 0 && n == a + h[a].size && !h[a].last && !h[n].busy
    ensures GrowLost(h, segs, a, n, index) == GrowStrandsSet(h, segs, a, index)
  {
  }

  ghost predicate FreeAfter(h: Headers, a: int) {
    a in h && a + h[a].size in h && !h[a + h[a].size].busy
  }

  /** What a busy block of a whole heap is followed by. */
  lemma BusyView(h: Headers, segs: Segments, sizes: Sizes, a: int)
    requires Whole(h, segs, sizes) && a in h && NotBase(AreasOf(segs), a)
    ensures h[a].size > 0 && (h[a].busy ==> h[a].size <= MaxBlock + 2) && h[a].seg in segs
    ensures !h[a].last ==>
              var n := a + h[a].size;
              && n in h && h[n].size > 0 && n != a
              && (!h[n].busy ==> n in sizes && sizes[n] == h[n].size && NotBase(AreasOf(segs), n))
  {
    assert Fits(h, AreasOf(segs), a);
    assert h[a].busy ==> a in BusyOf(h) && BusyOf(h)[a] == h[a].size;
    if !h[a].last {
      var n := a + h[a].size;
      assert Fits(h, AreasOf(segs), n);
      if !h[n].busy {
        assert n in FreeOf(h);
        ListedBlock(h, segs, sizes, n);
      }
    }
  }

  /** The user's block has grown in place to index entries, or up to two more; all others are as before. */
  ghost predicate Grown(h: Headers, h': Headers, a: int, index: int) {
    var busy, busy' := BusyOf(h), BusyOf(h');
    a in busy' && index <= busy'[a] <= index + 2 && busy' == busy[a := busy'[a]]
  }
}
