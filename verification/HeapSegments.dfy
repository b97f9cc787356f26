/** The segments of a heap (rtl/heap.h, struct _HEAP_SEGMENT) and what a heap looks like while one
    block is in flight between the free lists and its user. */
module HeapSegments {
  import opened HeapLayout
  import opened HeapFreeLists
  import opened HeapBlocks
  import opened HeapUcr

  /** HEAP_SEGMENT. */
  datatype Segment = Segment(BaseAddress: int, EntrySize: int, LastValidEntry: int,
                             UCRSegmentList: seq<Range>, NumberOfUnCommittedPages: int,
                             NumberOfUnCommittedRanges: int, LastEntryInSegment: int)
  {
    function FirstEntry(): int { BaseAddress + EntrySize }

    ghost function Area(): Area { HeapLayout.Area(BaseAddress, LastValidEntry, Union(UCRSegmentList)) }
  }

  type Segments = map<int, Segment>

  ghost function AreasOf(segs: Segments): (areas: Areas)
    ensures areas.Keys == segs.Keys
  {
    map i | i in segs :: segs[i].Area()
  }

  /** The counters of a segment, and the header block at its base. */
  ghost predicate SegmentOk(h: Headers, s: Segment) {
    && UcrOk(s.UCRSegmentList)
    && s.NumberOfUnCommittedPages == |Union(s.UCRSegmentList)|
    && s.NumberOfUnCommittedRanges == |s.UCRSegmentList|
    && s.BaseAddress in h && h[s.BaseAddress].busy && h[s.BaseAddress].size == s.EntrySize && s.EntrySize > 0
    && Readable(s)
  }

  /** LastEntryInSegment stands in the committed memory of its segment, so reading there does not fault. */
  ghost predicate Readable(s: Segment) {
    var l := s.LastEntryInSegment;
    s.BaseAddress <= l < s.LastValidEntry && l - l % 512 !in Union(s.UCRSegmentList)
  }

  lemma BlockReadable(h: Headers, areas: Areas, a: int)
    requires Layout(h, areas) && a in h
    ensures h[a].seg in areas && areas[h[a].seg].base <= a < areas[h[a].seg].end
    ensures a - a % 512 !in areas[h[a].seg].gone
  {
    assert Fits(h, areas, a);
  }

  ghost predicate SegmentsOk(h: Headers, segs: Segments) {
    forall i {:trigger segs[i]} :: i in segs ==> 0 <= i < 64 && SegmentOk(h, segs[i])
  }

  /** LastEntryInSegment stands on a block: the first one, or one that ends a committed run. */
  ghost predicate LastOk(h: Headers, segs: Segments, i: int)
    requires i in segs
  {
    var l := segs[i].LastEntryInSegment;
    l in h && h[l].seg == i && (l == segs[i].FirstEntry() || h[l].last)
  }

  ghost predicate AllLast(h: Headers, segs: Segments) {
    forall i {:trigger LastOk(h, segs, i)} :: i in segs ==> LastOk(h, segs, i)
  }

  /** The segments whose LastEntryInSegment stands on such a block. */
  ghost function LastSet(h: Headers, segs: Segments): (r: set<int>)
    ensures r <= segs.Keys
  {
    set i | i in segs && LastOk(h, segs, i)
  }

  /** LastEntryInSegment stays right where it was right, except for the segments that lose it. */
  ghost predicate Lasts(h: Headers, segs: Segments, h': Headers, segs': Segments, lost: set<int>) {
    LastSet(h, segs) - lost <= LastSet(h', segs') && lost !! LastSet(h', segs')
  }

  lemma AllLastIs(h: Headers, segs: Segments)
    ensures AllLast(h, segs) <==> LastSet(h, segs) == segs.Keys
  {
    if AllLast(h, segs) {
      forall i | i in segs ensures i in LastSet(h, segs) { assert LastOk(h, segs, i); }
    }
    if LastSet(h, segs) == segs.Keys {
      forall i | i in segs ensures LastOk(h, segs, i) { assert i in LastSet(h, segs); }
    }
  }

  lemma LastsAll(h: Headers, segs: Segments, h': Headers, segs': Segments, lost: set<int>)
    requires Lasts(h, segs, h', segs', lost) && segs.Keys == segs'.Keys && lost <= segs.Keys
    ensures AllLast(h, segs) ==> (AllLast(h', segs') <==> lost == {})
  {
    AllLastIs(h, segs);
    AllLastIs(h', segs');
  }

  lemma KeptAll(h: Headers, segs: Segments, h': Headers, segs': Segments)
    ensures LastSet(h, segs) <= LastSet(h', segs') && segs.Keys == segs'.Keys && AllLast(h, segs) ==> AllLast(h', segs')
  {
    AllLastIs(h, segs);
    AllLastIs(h', segs');
  }

  lemma GrownAll(h: Headers, segs: Segments, h': Headers, segs': Segments, i: int)
    requires LastSet(h, segs) + {i} <= LastSet(h', segs') && segs'.Keys == segs.Keys + {i}
    ensures AllLast(h, segs) ==> AllLast(h', segs')
  {
    AllLastIs(h, segs);
    AllLastIs(h', segs');
  }

  function SetLast(segs: Segments, i: int, x: int): Segments
    requires i in segs
  {
    segs[i := segs[i].(LastEntryInSegment := x)]
  }

  lemma SetLastAreas(segs: Segments, i: int, x: int)
    requires i in segs
    ensures AreasOf(SetLast(segs, i, x)) == AreasOf(segs)
  {
    assert forall j {:trigger AreasOf(segs)[j]} :: j in segs ==> AreasOf(SetLast(segs, i, x))[j] == AreasOf(segs)[j];
  }

  /** The block after the segment header is always there. */
  lemma FirstBlock(h: Headers, segs: Segments, i: int)
    requires Layout(h, AreasOf(segs)) && SegmentsOk(h, segs) && i in segs
    ensures
      var f, b := segs[i].FirstEntry(), segs[i].BaseAddress;
      f in h && h[f].seg == i && h[f].prev == segs[i].EntrySize && b in h && !h[b].last && h[b].busy
          && b + h[b].size == f
  {
    var s := segs[i];
    assert SegmentOk(h, s) && AreaOk(h, AreasOf(segs), i);
    assert Fits(h, AreasOf(segs), s.BaseAddress);
  }

  /** Every block but a is accounted for: a is busy on its way into the lists, or free on its way out. */
  ghost predicate Loose(h: Headers, segs: Segments, sizes: Sizes, a: int) {
    && Layout(h, AreasOf(segs)) && SegmentsOk(h, segs) && Small(BusyOf(h))
    && a in h && h[a].size <= MaxBlock + 2 && NotBase(AreasOf(segs), a) && sizes == FreeOf(h) - {a}
  }

  /** After the block at x has swallowed the next one, LastEntryInSegment may have to move to x. */
  function LastMoved(h: Headers, segs: Segments, x: int, n: int): Segments
    requires x in h && n in h && h[x].seg in segs
  {
    if h[n].last then SetLast(segs, h[x].seg, x) else segs
  }

  lemma JoinedSegments(h: Headers, segs: Segments, x: int)
    requires CanJoin(h, AreasOf(segs), x) && SegmentsOk(h, segs)
    ensures
      var n := x + h[x].size;
      && h[x].seg in segs
      && AreasOf(LastMoved(h, segs, x, n)) == AreasOf(segs)
      && SegmentsOk(Joined(h, x), LastMoved(h, segs, x, n))
      && LastSet(h, segs) <= LastSet(Joined(h, x), LastMoved(h, segs, x, n))
  {
    var n := x + h[x].size;
    var h', seg := Joined(h, x), h[x].seg;
    assert Fits(h, AreasOf(segs), x) && Fits(h, AreasOf(segs), n);
    var segs' := LastMoved(h, segs, x, n);
    if h[n].last { SetLastAreas(segs, seg, x); }
    forall i | i in segs' ensures SegmentOk(h', segs'[i]) && (LastOk(h, segs, i) ==> LastOk(h', segs', i)) {
      assert SegmentOk(h, segs[i]);
      assert AreasOf(segs)[i].base == segs[i].BaseAddress;
      FirstBlock(h, segs, i);
      if segs[i].LastEntryInSegment == n {
        Adjacent(h, AreasOf(segs), segs[i].BaseAddress, segs[i].FirstEntry());
      }
    }
  }

  lemma MarkedSegments(h: Headers, segs: Segments, a: int, busy: bool)
    requires Layout(h, AreasOf(segs)) && SegmentsOk(h, segs) && a in h && NotBase(AreasOf(segs), a)
    ensures SegmentsOk(Marked(h, a, busy), segs) && LastSet(Marked(h, a, busy), segs) == LastSet(h, segs)
  {
    forall i | i in segs ensures SegmentOk(Marked(h, a, busy), segs[i])
        && (LastOk(Marked(h, a, busy), segs, i) <==> LastOk(h, segs, i)) {
      assert SegmentOk(h, segs[i]);
      assert AreasOf(segs)[i].base == segs[i].BaseAddress;
    }
  }

  /** The block in flight may be marked either way. */
  lemma LooseMarked(h: Headers, segs: Segments, sizes: Sizes, a: int, busy: bool)
    requires Loose(h, segs, sizes, a)
    ensures Loose(Marked(h, a, busy), segs, sizes, a) && LastSet(Marked(h, a, busy), segs) == LastSet(h, segs)
    ensures BusyOf(Marked(h, a, busy)) - {a} == BusyOf(h) - {a}
  {
    MarkedLayout(h, AreasOf(segs), a, busy);
    MarkedSegments(h, segs, a, busy);
    MarkedBlocks(h, a, busy);
  }

  /** What RtlpCoalesceFreeBlocks finds before the block in flight. */
  lemma PreviousView(h: Headers, segs: Segments, sizes: Sizes, a: int)
    requires Loose(h, segs, sizes, a)
    ensures h[a].seg in segs && h[a].size > 0 && (!h[a].last ==> a + h[a].size in h)
    ensures
      var p := a - h[a].prev;
      p != a ==> p in h && p < a && p + h[p].size == a && h[p].seg == h[a].seg && !h[p].last && h[p].size > 0
                 && (!h[p].busy ==> p in sizes && sizes[p] == h[p].size && NotBase(AreasOf(segs), p))
  {
    assert Fits(h, AreasOf(segs), a);
    var p := a - h[a].prev;
    if p != a {
      assert Fits(h, AreasOf(segs), p);
      forall i | i in segs ensures !h[p].busy ==> p != AreasOf(segs)[i].base {
        assert AreaOk(h, AreasOf(segs), i);
      }
    }
  }

  /** A free block x swallows the free block after it; one of the two is in flight. */
  lemma LooseJoined(h: Headers, segs: Segments, sizes: Sizes, x: int, h': Headers, segs': Segments)
    requires CanJoin(h, AreasOf(segs), x) && SegmentsOk(h, segs) && Small(BusyOf(h))
    requires !h[x].busy && !h[x + h[x].size].busy && h[x].size + h[x + h[x].size].size <= MaxBlock
    requires sizes == FreeOf(h) - {x} - {x + h[x].size}
    requires h[x].seg in segs && h' == Joined(h, x) && segs' == LastMoved(h, segs, x, x + h[x].size)
    ensures Loose(h', segs', sizes, x) && BusyOf(h') == BusyOf(h) && AreasOf(segs') == AreasOf(segs)
    ensures LastSet(h, segs) <= LastSet(h', segs') && h'[x].size == h[x].size + h[x + h[x].size].size
  {
    JoinedLayout(h, AreasOf(segs), x);
    JoinedSegments(h, segs, x);
    JoinedBlocks(h, x);
  }

  /** What absorbing the block at n into the one at x does to the headers and to LastEntryInSegment. */
  ghost predicate Absorbed(h: Headers, segs: Segments, x: int, n: int, h': Headers, segs': Segments) {
    && x in h && n in h && h[x].size > 0 && h[n].size > 0 && n == x + h[x].size && h[x].seg in segs
    && h' == Joined(Marked(h, x, false), x) && segs' == LastMoved(h, segs, x, n)
  }

  /** How the two blocks are marked makes no difference to the headers after the join. */
  lemma JoinedMarked(h: Headers, segs: Segments, p: int, a: int)
    requires p in h && a in h && h[p].size > 0 && h[a].size > 0 && a == p + h[p].size && !h[p].busy && h[p].seg in segs
    ensures Joined(Marked(h, a, false), p) == Joined(Marked(h, p, false), p)
    ensures LastMoved(Marked(h, a, false), segs, p, a) == LastMoved(h, segs, p, a)
  {
    assert Marked(h, a, false) - {a} == h - {a};
    assert Marked(h, p, false) == h;
  }

  lemma JoinPrevious(h: Headers, segs: Segments, sizes: Sizes, p: int, a: int, h': Headers, segs': Segments,
      sizes': Sizes)
    requires Loose(h, segs, sizes, a) && Absorbed(h, segs, p, a, h', segs') && !h[p].busy && h[p].size == h[a].prev
    requires h[a].size + h[p].size <= MaxBlock && sizes' == sizes - {p}
    ensures Loose(h', segs', sizes', p) && AreasOf(segs') == AreasOf(segs) && LastSet(h, segs) <= LastSet(h', segs')
    ensures BusyOf(h') - {p} == BusyOf(h) - {a}
    ensures h'[p].size == h[a].size + h[p].size && h'[p].seg == h[a].seg && h'[p].last == h[a].last && !h'[p].busy
    ensures !h[a].last ==> segs' == segs
  {
    PreviousView(h, segs, sizes, a);
    LooseMarked(h, segs, sizes, a, false);
    var h1 := Marked(h, a, false);
    MarkedBlocks(h, a, false);
    assert FreeOf(h1) - {p} - {a} == sizes';
    assert Fits(h, AreasOf(segs), a);
    JoinedMarked(h, segs, p, a);
    LooseJoined(h1, segs, sizes', p, h', segs');
  }

  lemma NextView(h: Headers, segs: Segments, sizes: Sizes, a: int)
    requires Loose(h, segs, sizes, a) && !h[a].last
    ensures
      var n := a + h[a].size;
      && h[a].size > 0 && n in h && h[n].size > 0 && (!h[n].last ==> n + h[n].size in h) && h[n].prev == h[a].size
         && h[n].seg == h[a].seg && h[a].seg in segs
      && (!h[n].busy ==> n in sizes && sizes[n] == h[n].size)
  {
    assert Fits(h, AreasOf(segs), a);
    assert Fits(h, AreasOf(segs), a + h[a].size);
  }

  lemma JoinNext(h: Headers, segs: Segments, sizes: Sizes, a: int, n: int, h': Headers, segs': Segments, sizes': Sizes)
    requires Loose(h, segs, sizes, a) && Absorbed(h, segs, a, n, h', segs') && !h[a].last && !h[n].busy
    requires h[a].size + h[n].size <= MaxBlock && sizes' == sizes - {n}
    ensures Loose(h', segs', sizes', a) && AreasOf(segs') == AreasOf(segs) && LastSet(h, segs) <= LastSet(h', segs')
    ensures BusyOf(h') - {a} == BusyOf(h) - {a}
    ensures h'[a].size == h[a].size + h[n].size && h'[a].seg == h[a].seg && h'[a].last == h[n].last && !h'[a].busy
    ensures !h[n].last ==> segs' == segs
  {
    var h1 := Marked(h, a, false);
    NextView(h, segs, sizes, a);
    LooseMarked(h, segs, sizes, a, false);
    MarkedBlocks(h, a, false);
    assert FreeOf(h1) - {a} - {n} == sizes';
    assert Fits(h, AreasOf(segs), n);
    assert LastMoved(h1, segs, a, n) == LastMoved(h, segs, a, n);
    LooseJoined(h1, segs, sizes', a, h', segs');
  }

  /** Every block is accounted for. */
  ghost predicate Whole(h: Headers, segs: Segments, sizes: Sizes) {
    Layout(h, AreasOf(segs)) && SegmentsOk(h, segs) && Small(BusyOf(h)) && sizes == FreeOf(h)
  }

  /** The segment's LastEntryInSegment would be left on a block that no longer ends a run. */
  ghost predicate Stranded(segs: Segments, i: int, x: int)
    requires i in segs
  {
    segs[i].LastEntryInSegment == x && x != segs[i].FirstEntry()
  }

  /** The segment whose LastEntryInSegment is left on the first piece of the block at a. */
  ghost function Outgrown(h: Headers, segs: Segments, a: int): set<int>
    requires a in h
  {
    if h[a].size > MaxBlock && h[a].seg in segs && Stranded(segs, h[a].seg, a) then {h[a].seg} else {}
  }

  /** A block in flight can be inserted by RtlpInsertFreeBlock. */
  lemma LooseInserting(h: Headers, segs: Segments, sizes: Sizes, a: int)
    requires Loose(h, segs, sizes, a)
    ensures h[a].size > 0 && Inserting(h, AreasOf(segs), sizes, a, h[a].size, h[a].prev, h[a].last, h[a].seg)
    ensures Settled(h, a, h[a].size, h[a].prev, h[a].last, h[a].seg) == Marked(h, a, false)
    ensures BusyOf(Marked(h, a, false)) == BusyOf(h) - {a} && h[a].seg in segs
  {
    assert Fits(h, AreasOf(segs), a);
    LooseMarked(h, segs, sizes, a, false);
    MarkedBlocks(h, a, false);
    assert Settled(h, a, h[a].size, h[a].prev, h[a].last, h[a].seg) == Marked(h, a, false);
  }

  lemma KeptSegments(h: Headers, h': Headers, segs: Segments, sizes: Sizes, a: int)
    requires Loose(h, segs, sizes, a) && KeepsOthers(h, h', a)
    requires a in h' && h'[a].seg == h[a].seg && h[a].seg in segs
    ensures SegmentsOk(h', segs)
    ensures LastSet(h, segs) - {h[a].seg} <= LastSet(h', segs)
    ensures h'[a].last == h[a].last || h'[a].last || !Stranded(segs, h[a].seg, a) ==>
              LastSet(h, segs) <= LastSet(h', segs)
    ensures Stranded(segs, h[a].seg, a) && !h'[a].last ==> h[a].seg !in LastSet(h', segs)
  {
    forall i | i in segs
      ensures SegmentOk(h', segs[i]) && (LastOk(h, segs, i) ==> LastOk(h', segs, i) || segs[i].LastEntryInSegment == a)
    {
      assert SegmentOk(h, segs[i]);
      assert AreasOf(segs)[i].base == segs[i].BaseAddress;
    }
    var j := h[a].seg;
    assert LastOk(h, segs, j) ==> (LastOk(h', segs, j) <==> (!Stranded(segs, j, a) || h'[a].last));
    forall i | i in LastSet(h, segs) && i != j ensures LastOk(h', segs, i) {
      assert LastOk(h, segs, i);
    }
  }

  /** A busy block of a whole heap may leave it; a free one must have been taken off the lists. */
  lemma LooseFromWhole(h: Headers, segs: Segments, sizes: Sizes, a: int)
    requires Whole(h, segs, sizes) && Small(sizes) && a in h && NotBase(AreasOf(segs), a)
    ensures Loose(h, segs, sizes - {a}, a) && (h[a].busy ==> sizes - {a} == sizes && a !in sizes) && h[a].seg in segs
        && h[a].size > 0
    ensures !h[a].busy ==> a in sizes && sizes[a] == h[a].size
  {
    assert Fits(h, AreasOf(segs), a);
    assert h[a].busy ==> a in BusyOf(h) && BusyOf(h)[a] == h[a].size;
    assert !h[a].busy ==> a in FreeOf(h) && FreeOf(h)[a] == h[a].size;
  }

  /** The block in flight comes to rest in the lists. */
  lemma WholeFromLoose(h: Headers, segs: Segments, sizes: Sizes, a: int)
    requires Loose(h, segs, sizes, a)
    ensures Whole(Marked(h, a, false), segs, sizes[a := h[a].size])
        && LastSet(Marked(h, a, false), segs) == LastSet(h, segs)
    ensures BusyOf(Marked(h, a, false)) == BusyOf(h) - {a}
    ensures h[a].size > 0 && a !in sizes && h[a].seg in segs
  {
    assert Fits(h, AreasOf(segs), a);
    LooseMarked(h, segs, sizes, a, false);
    MarkedBlocks(h, a, false);
    assert FreeOf(Marked(h, a, false)) == sizes[a := h[a].size];
  }

  /** The block in flight comes to rest with its user. */
  lemma WholeFromTaken(h: Headers, segs: Segments, sizes: Sizes, a: int)
    requires Loose(h, segs, sizes, a)
    ensures Whole(Marked(h, a, true), segs, sizes) && LastSet(Marked(h, a, true), segs) == LastSet(h, segs)
    ensures BusyOf(Marked(h, a, true)) == BusyOf(h)[a := h[a].size]
  {
    LooseMarked(h, segs, sizes, a, true);
    MarkedBlocks(h, a, true);
  }

  // ----- a new segment

  /** The reserved memory is whole pages, at least one committed, and apart from all segments. */
  ghost predicate Reservable(segs: Segments, i: int, base: int, entrySize: int, reserve: int, commit: int) {
    && i !in segs && 0 <= i < 64 && 0 < entrySize < 512 <= commit <= reserve
    && base % 512 == 0 && commit % 512 == 0 && reserve % 512 == 0
    && (forall j :: j in segs ==> base + reserve <= segs[j].BaseAddress || segs[j].LastValidEntry <= base)
  }

  /** The new segment's record, with its uncommitted ranges u. */
  ghost predicate Fresh(s: Segment, base: int, entrySize: int, reserve: int, commit: int) {
    && s.BaseAddress == base && s.EntrySize == entrySize && s.LastValidEntry == base + reserve
    && UcrOk(s.UCRSegmentList) && Union(s.UCRSegmentList) == Pages(base + commit, reserve - commit)
    && s.NumberOfUnCommittedPages == |Union(s.UCRSegmentList)| && s.NumberOfUnCommittedRanges == |s.UCRSegmentList|
    && s.LastEntryInSegment == base + entrySize
  }

  lemma FoundedInserting(h: Headers, segs: Segments, sizes: Sizes, i: int, s: Segment, base: int, entrySize: int,
                         reserve: int, commit: int, h2: Headers, segs2: Segments, first: int, rest: int)
    requires Whole(h, segs, sizes) && Reservable(segs, i, base, entrySize, reserve, commit)
        && Fresh(s, base, entrySize, reserve, commit)
    requires h2 == h[base := Entry(entrySize, 0, true, false, i)][base + entrySize := Entry(0, entrySize, false,
        true, i)]
    requires segs2 == segs[i := s] && first == base + entrySize && rest == commit - entrySize
    ensures first in h2 && h2[first] == Entry(0, entrySize, false, true, i)
    ensures Inserting(h2, AreasOf(segs2), sizes, first, rest, entrySize, true, i)
    ensures BusyOf(Settled(h2, first, rest, entrySize, true, i)) == BusyOf(h)[base := entrySize]
    ensures base !in h && first !in h && rest > 0
  {
    var areas, areas2, f := AreasOf(segs), AreasOf(segs2), Founded(h, i, base, entrySize, commit);
    FoundedLayout(h, areas, i, s.Area(), entrySize, commit);
    FoundedNew(h, areas, i, s.Area(), entrySize, commit);
    FoundedSizes(h, i, base, entrySize, commit, h2);
    FoundedAreas(segs, i, s);
    assert Layout(f, areas2) && Settled(h2, first, rest, entrySize, true, i) == f && NotBase(areas2, first);
  }

  lemma FoundedAreas(segs: Segments, i: int, s: Segment)
    requires i !in segs
    ensures AreasOf(segs[i := s]) == AreasOf(segs)[i := s.Area()]
  {
  }

  lemma FoundedSizes(h: Headers, i: int, base: int, entrySize: int, commit: int, h2: Headers)
    requires base !in h && base + entrySize !in h && 0 < entrySize < commit
    requires h2 == h[base := Entry(entrySize, 0, true, false, i)][base + entrySize := Entry(0, entrySize, false,
        true, i)]
    ensures
      var f, first := Founded(h, i, base, entrySize, commit), base + entrySize;
      && Settled(h2, first, commit - entrySize, entrySize, true, i) == f
      && FreeOf(f) - {first} == FreeOf(h) && BusyOf(f) == BusyOf(h)[base := entrySize]
  {
    var f, first := Founded(h, i, base, entrySize, commit), base + entrySize;
    assert f.Keys == h.Keys + {base, first};
    assert FreeOf(f) - {first} == FreeOf(h);
    assert BusyOf(f) == BusyOf(h)[base := entrySize];
  }

  lemma FoundedNew(h: Headers, areas: Areas, i: int, g: Area, entrySize: int, commit: int)
    requires CanFound(h, areas, i, g, entrySize, commit)
    ensures g.base !in h && g.base + entrySize !in h && NotBase(areas[i := g], g.base + entrySize)
  {
    if g.base in h { FoundedApart(h, areas, i, g, entrySize, commit, g.base); }
    if g.base + entrySize in h { FoundedApart(h, areas, i, g, entrySize, commit, g.base + entrySize); }
    forall j | j in areas ensures g.base + entrySize != areas[j].base {
      assert AreaOk(h, areas, j);
    }
  }

  lemma FoundedSegments(h: Headers, segs: Segments, sizes: Sizes, i: int, s: Segment, base: int, entrySize: int,
                        reserve: int, commit: int, h2: Headers, h': Headers, segs': Segments)
    requires Whole(h, segs, sizes) && base !in h && base + entrySize !in h
    requires Reservable(segs, i, base, entrySize, reserve, commit) && Fresh(s, base, entrySize, reserve, commit)
    requires h2 == h[base := Entry(entrySize, 0, true, false, i)][base + entrySize := Entry(0, entrySize, false,
        true, i)]
    requires KeepsOthers(h2, h', base + entrySize) && base + entrySize in h' && h'[base + entrySize].seg == i
        && segs' == segs[i := s]
    ensures SegmentsOk(h', segs') && LastSet(h, segs) + {i} <= LastSet(h', segs')
  {
    var first := base + entrySize;
    forall j | j in segs' ensures SegmentOk(h', segs'[j]) && (j == i || LastOk(h, segs, j) ==> LastOk(h', segs', j)) {
      if j != i {
        assert SegmentOk(h, segs[j]);
        FoundedKeeps(h, h2, h', base, first, segs[j].BaseAddress);
        if LastOk(h, segs, j) { FoundedKeeps(h, h2, h', base, first, segs[j].LastEntryInSegment); }
      } else {
        assert base in h2 && h2[base].busy && h2[base].size == entrySize;
      }
    }
  }

  lemma FoundedKeeps(h: Headers, h2: Headers, h': Headers, base: int, first: int, x: int)
    requires base !in h && first !in h && x in h && base != first && h2.Keys == h.Keys + {base, first} && h2[x] == h[x]
    requires KeepsOthers(h2, h', first)
    ensures x in h' && h'[x].size == h[x].size && h'[x].busy == h[x].busy && h'[x].last == h[x].last
        && h'[x].seg == h[x].seg
  {
  }

  /** Segment headers are never free. */
  lemma ListedBlock(h: Headers, segs: Segments, sizes: Sizes, a: int)
    requires Whole(h, segs, sizes) && a in sizes
    ensures a in h && !h[a].busy && h[a].size == sizes[a] && NotBase(AreasOf(segs), a)
  {
    forall i | i in AreasOf(segs) ensures a != AreasOf(segs)[i].base {
      assert AreaOk(h, AreasOf(segs), i);
    }
  }
}
