/** The remainder of a block goes back to the lists (rtl/heap.c:1723-1789). */
module HeapSplit {
  import opened HeapLayout
  import opened HeapFreeLists
  import opened HeapBlocks
  import opened HeapUcr
  import opened HeapSegments

  /** The headers once the block after b knows its size. */
  ghost function Told(h: Headers, b: int): Headers
    requires b in h && h[b].size > 0
  {
    Settled(h, b, h[b].size, h[b].prev, h[b].last, h[b].seg)
  }

  /** t is what the headers are once the block after the remainder at b has been told. */
  ghost predicate Telling(h: Headers, b: int, t: Headers) {
    b in h && h[b].size > 0 && !h[b].busy && t == Told(h, b)
  }

  /** As Loose, but the block after a has just been told, and a is on its way into the lists. */
  ghost predicate Tail(h: Headers, segs: Segments, sizes: Sizes, a: int) {
    && Layout(h, AreasOf(segs)) && SegmentsOk(h, segs) && Small(BusyOf(h))
    && a in h && !h[a].busy && h[a].size <= MaxBlock + 2 && NotBase(AreasOf(segs), a) && sizes == FreeOf(h) - {a}
  }

  /** The segment whose LastEntryInSegment moves to the block a, which ends its run. */
  ghost function MovedTo(h: Headers, a: int): set<int>
    requires a in h
  {
    if h[a].last then {h[a].seg} else {}
  }

  /** The block after b is free, the two together are too large for one entry, and the segment's
      LastEntryInSegment stands on the one that disappears; it comes back only if the second of two pieces
      starts there. */
  ghost predicate TailStrands(h: Headers, segs: Segments, b: int) {
    && b in h && !h[b].last && b + h[b].size in h && h[b].seg in segs
    && var n := b + h[b].size;
    !h[n].busy && h[b].size + h[n].size > MaxBlock && segs[h[b].seg].LastEntryInSegment == n
    && !Returns(h[b].size, h[n].size)
  }

  /** Of the pieces of a block of first + second entries, the second one has exactly the second entries. */
  predicate Returns(first: int, second: int)
    requires first + second > 0
  {
    first == ChunkSize(first + second) && second <= MaxBlock
  }

  lemma TailAtEnd(h: Headers, segs: Segments, sizes: Sizes, b: int)
    requires Tail(h, segs, sizes, b) && h[b].last
    ensures h[b].seg in segs && Loose(h, SetLast(segs, h[b].seg, b), sizes, b)
    ensures LastSet(h, segs) + MovedTo(h, b) <= LastSet(h, SetLast(segs, h[b].seg, b))
    ensures AreasOf(SetLast(segs, h[b].seg, b)) == AreasOf(segs)
  {
    assert Fits(h, AreasOf(segs), b);
    var segs' := SetLast(segs, h[b].seg, b);
    SetLastAreas(segs, h[b].seg, b);
    forall i | i in segs' ensures SegmentOk(h, segs'[i])
        && (i == h[b].seg || LastOk(h, segs, i) ==> LastOk(h, segs', i)) {
      assert SegmentOk(h, segs[i]);
    }
  }

  lemma TailLoose(h: Headers, segs: Segments, sizes: Sizes, b: int)
    requires Tail(h, segs, sizes, b) && !h[b].last
    ensures Loose(h, segs, sizes, b)
  {
  }

  lemma ToldNext(h: Headers, t: Headers, segs: Segments, sizes: Sizes, b: int)
    requires Telling(h, b, t) && Tail(t, segs, sizes, b)
    ensures h[b].last ==> t == h
    ensures h[b].seg in segs
    ensures !h[b].last ==>
      var n := b + h[b].size;
      && n in h && t == h[n := h[n].(prev := h[b].size)] && h[n].seg == h[b].seg && h[n].size > 0
      && (!h[n].busy ==> n in sizes && sizes[n] == h[n].size)
      && (!h[n].last ==> n + h[n].size in h)
  {
    assert Fits(t, AreasOf(segs), b);
    if !h[b].last {
      var n := b + h[b].size;
      assert Fits(t, AreasOf(segs), n);
    }
  }

  /** Absorbing the next block gives the same headers whether or not it was told first. */
  lemma ToldJoined(h: Headers, t: Headers, segs: Segments, sizes: Sizes, b: int)
    requires Telling(h, b, t) && !h[b].last && Tail(t, segs, sizes, b)
    requires b + h[b].size in h && h[b + h[b].size].size > 0
    ensures
      var n := b + h[b].size;
      && n in t && t[b] == h[b] && t[n] == h[n].(prev := h[b].size)
      && Joined(Marked(t, b, false), b) == Joined(Marked(h, b, false), b)
      && h[b].seg in segs && LastMoved(t, segs, b, n) == LastMoved(h, segs, b, n)
  {
    ToldNext(h, t, segs, sizes, b);
    var n := b + h[b].size;
    assert Marked(t, b, false) == t && Marked(h, b, false) == h;
    assert t - {n} == h - {n};
  }

  /** Two free blocks in a row that are too large together, as one block still to be inserted. */
  lemma JoinOversize(t: Headers, segs: Segments, sizes: Sizes, b: int)
    requires Loose(t, segs, sizes, b) && !t[b].busy && !t[b].last && t[b].size > 0
    requires b + t[b].size in t && !t[b + t[b].size].busy && t[b + t[b].size].size > 0
    ensures
      var n, j := b + t[b].size, Joined(t, b);
      && Layout(j, AreasOf(segs)) && FreeOf(j) - {b} == sizes - {n} && BusyOf(j) == BusyOf(t)
  {
    var n := b + t[b].size;
    assert Fits(t, AreasOf(segs), b);
    JoinedLayout(t, AreasOf(segs), b);
    JoinedBlocks(t, b);
  }

  /** After the pieces have been inserted, only a LastEntryInSegment on the vanished block can be off. */
  lemma OversizeSegments(t: Headers, segs: Segments, sizes: Sizes, b: int, h2: Headers, h': Headers)
    requires Loose(t, segs, sizes, b) && !t[b].busy && !t[b].last && b + t[b].size in t && t[b].size > 0
    requires h2.Keys == t.Keys - {b + t[b].size}
    requires forall x :: x in h2 && x != b ==> h2[x] == t[x].(prev := h2[x].prev)
    requires KeepsOthers(h2, h', b) && b in h' && h'[b].seg == t[b].seg && Layout(h', AreasOf(segs))
    ensures SegmentsOk(h', segs) && t[b].seg in segs && LastSet(t, segs) - {t[b].seg} <= LastSet(h', segs)
    ensures t[b].seg in LastSet(t, segs) && segs[t[b].seg].LastEntryInSegment != b + t[b].size ==>
              t[b].seg in LastSet(h', segs)
    ensures segs[t[b].seg].FirstEntry() != b + t[b].size
  {
    var n := b + t[b].size;
    assert Fits(t, AreasOf(segs), b);
    assert Fits(t, AreasOf(segs), n);
    forall i | i in segs
      ensures SegmentOk(h', segs[i])
      ensures segs[i].LastEntryInSegment != n && LastOk(t, segs, i) ==> LastOk(h', segs, i)
    {
      assert SegmentOk(t, segs[i]);
      assert AreasOf(segs)[i].base == segs[i].BaseAddress;
      FirstBlock(t, segs, i);
    }
    forall i | i in LastSet(t, segs) && i != t[b].seg ensures segs[i].LastEntryInSegment != n {
      assert LastOk(t, segs, i);
    }
    FirstBlock(t, segs, t[b].seg);
    NotFirst(t, segs, b);
  }

  /** No block but the first one starts where a segment's first block does. */
  lemma NotFirst(t: Headers, segs: Segments, b: int)
    requires Layout(t, AreasOf(segs)) && SegmentsOk(t, segs) && b in t && NotBase(AreasOf(segs), b)
        && t[b].seg in segs && t[b].size > 0
    requires b + t[b].size in t
    ensures segs[t[b].seg].FirstEntry() != b + t[b].size
  {
    var s := segs[t[b].seg];
    FirstBlock(t, segs, t[b].seg);
    assert AreasOf(segs)[t[b].seg].base == s.BaseAddress && SegmentOk(t, s);
    if s.FirstEntry() == b + t[b].size { SameEnd(t, b, s.BaseAddress); }
  }

  ghost predicate Oversize(h: Headers, b: int) {
    && b in h && h[b].size > 0 && !h[b].busy && !h[b].last
    && b + h[b].size in h && h[b + h[b].size].size > 0 && !h[b + h[b].size].busy
    && h[b].size + h[b + h[b].size].size > MaxBlock
  }

  /** The remainder and the free block after it, before they are inserted in pieces. */
  function Fused(h: Headers, b: int): Headers
    requires b in h && b + h[b].size in h && h[b].size > 0
  {
    h[b := h[b].(last := h[b + h[b].size].last)] - {b + h[b].size}
  }

  /** What RtlpInsertFreeBlock needs to take a remainder together with the block after it. */
  lemma OversizeInserting(h: Headers, t: Headers, segs: Segments, sizes: Sizes, b: int, n: int, h2: Headers,
      sizes2: Sizes, whole: int)
    requires Oversize(h, b) && Telling(h, b, t) && Tail(t, segs, sizes, b)
    requires n == b + h[b].size && h2 == Fused(h, b) && sizes2 == sizes - {n} && whole == h[b].size + h[n].size
    ensures Inserting(h2, AreasOf(segs), sizes2, b, whole, h2[b].prev, h2[b].last, h2[b].seg)
    ensures BusyOf(Settled(h2, b, whole, h2[b].prev, h2[b].last, h2[b].seg)) == BusyOf(t) - {b} && h[b].seg in segs
  {
    ToldNext(h, t, segs, sizes, b);
    TailLoose(t, segs, sizes, b);
    JoinOversize(t, segs, sizes, b);
    assert Settled(h2, b, whole, h2[b].prev, h2[b].last, h2[b].seg) == Joined(t, b);
    assert BusyOf(t) - {b} == BusyOf(t);
  }

  lemma OversizeDone(h: Headers, t: Headers, segs: Segments, sizes: Sizes, b: int, h2: Headers, whole: int, h': Headers)
    requires Oversize(h, b) && Telling(h, b, t) && Tail(t, segs, sizes, b) && whole == h[b].size + h[b + h[b].size].size
    requires h2 == Fused(h, b) && KeepsOthers(h2, h', b) && b in h' && h'[b].seg == h[b].seg
        && Layout(h', AreasOf(segs))
    requires h'[b].size == ChunkSize(whole) && SecondPiece(h', b, whole, b + whole, h2[b].last, h2[b].seg)
    ensures SegmentsOk(h', segs) && Small(BusyOf(t)) && Lasts(t, segs, h', segs, Lost(t, segs, b))
  {
    var n, j := b + h[b].size, h[b].seg;
    OversizeView(h, t, segs, sizes, b);
    OversizeSegments(t, segs, sizes, b, h2, h');
    if segs[j].LastEntryInSegment == n {
      OversizeLast(t, segs, h', j, b, h[b].size, h[n].size);
    }
  }

  lemma OversizePieces(h: Headers, t: Headers, segs: Segments, sizes: Sizes, b: int, h2: Headers, whole: int,
      h': Headers)
    requires Oversize(h, b) && Telling(h, b, t) && Tail(t, segs, sizes, b) && whole == h[b].size + h[b + h[b].size].size
    requires h2 == Fused(h, b) && KeepsOthers(h2, h', b) && Piece2(h', b, whole, h2[b].last, h2[b].seg)
    ensures InPieces(t, b, h')
  {
    OversizeView(h, t, segs, sizes, b);
    ToldNext(h, t, segs, sizes, b);
    forall x | x in t && x != b && x != b + h[b].size
      ensures x in h' && h'[x].size == t[x].size && h'[x].busy == t[x].busy && h'[x].last == t[x].last
          && h'[x].seg == t[x].seg
    {
      assert x in h2;
    }
  }

  lemma OversizeView(h: Headers, t: Headers, segs: Segments, sizes: Sizes, b: int)
    requires Oversize(h, b) && Telling(h, b, t) && Tail(t, segs, sizes, b)
    ensures
      var n, h2 := b + h[b].size, Fused(h, b);
      && Loose(t, segs, sizes, b) && t[b] == h[b] && n in t && t[n].last == h[n].last && h[b].seg in segs
      && h2.Keys == t.Keys - {n} && (forall x :: x in h2 && x != b ==> h2[x] == t[x].(prev := h2[x].prev))
      && Lost(t, segs, b) == if segs[h[b].seg].LastEntryInSegment == n && !Returns(h[b].size, h[n].size)
          then {h[b].seg} else {}
  {
    ToldNext(h, t, segs, sizes, b);
  }

  lemma OversizeLast(t: Headers, segs: Segments, h': Headers, j: int, b: int, r: int, m: int)
    requires j in segs && segs[j].LastEntryInSegment == b + r != segs[j].FirstEntry() && b + r in t
    requires NoOverlap(h') && b in h' && 0 < r <= MaxBlock + 2 && 0 < m && r + m > MaxBlock
    requires h'[b].size == ChunkSize(r + m) && SecondPiece(h', b, r + m, b + r + m, t[b + r].last, j)
    ensures if Returns(r, m) then j in LastSet(t, segs) ==> j in LastSet(h', segs) else j !in LastSet(h', segs)
  {
    PieceAt(h', b, r, m, t[b + r].last, j);
    assert LastOk(t, segs, j) ==> t[b + r].last;
    assert LastOk(h', segs, j) <==> b + r in h' && h'[b + r].seg == j && h'[b + r].last;
  }

  /** The segment whose LastEntryInSegment is left behind. */
  ghost function Lost(h: Headers, segs: Segments, b: int): set<int> {
    if TailStrands(h, segs, b) then {h[b].seg} else {}
  }

  /** Among the pieces of a block of r + m entries at b, one that ends the run starts at b + r exactly when
      it is the second one. */
  lemma PieceAt(h: Headers, b: int, r: int, m: int, last: bool, seg: int)
    requires NoOverlap(h) && b in h && 0 < r <= MaxBlock + 2 && 0 < m && r + m > MaxBlock
    requires h[b].size == ChunkSize(r + m) && SecondPiece(h, b, r + m, b + r + m, last, seg)
    ensures b + r in h && h[b + r].last ==> Returns(r, m) && last
    ensures Returns(r, m) ==> b + r in h && h[b + r].last == last && h[b + r].seg == seg
  {
    var c := ChunkSize(r + m);
    if r < c {
      if b + r in h { NotInside(h, b, b + r); }
    } else if r > c {
      if b + r in h { NotInside(h, b + c, b + r); }
    }
  }

  /** A remainder absorbs the free block after it. */
  lemma MergedTail(h: Headers, t: Headers, segs: Segments, sizes: Sizes, b: int, n: int, h': Headers,
      segs': Segments, sizes': Sizes)
    requires Absorbed(h, segs, b, n, h', segs') && Telling(h, b, t) && !h[b].last && Tail(t, segs, sizes, b)
    requires !h[n].busy && h[b].size + h[n].size <= MaxBlock && sizes' == sizes - {n}
    ensures Loose(h', segs', sizes', b) && h'[b].size == h[b].size + h[n].size
    ensures AreasOf(segs') == AreasOf(segs) && LastSet(t, segs) <= LastSet(h', segs')
    ensures BusyOf(h') - {b} == BusyOf(t) - {b}
  {
    ToldNext(h, t, segs, sizes, b);
    ToldJoined(h, t, segs, sizes, b);
    TailLoose(t, segs, sizes, b);
    JoinNext(t, segs, sizes, b, n, h', segs', sizes');
  }

  // ----- releasing a remainder

  /** The remainder at b of t has gone to the lists. */
  ghost predicate Released(t: Headers, segs: Segments, b: int, h': Headers, segs': Segments) {
    && b in t && BusyOf(h') == BusyOf(t) - {b} && AreasOf(segs') == AreasOf(segs)
    && LastSet(t, segs) + MovedTo(t, b) - Lost(t, segs, b) <= LastSet(h', segs')
       && Lost(t, segs, b) !! LastSet(h', segs')
    && (TailStrands(t, segs, b) ==> segs' == segs && InPieces(t, b, h'))
  }

  /** The remainder at b and the block after it have become pieces; everything else is as before. */
  ghost predicate InPieces(t: Headers, b: int, h': Headers) {
    && b in t && t[b].size > 0 && b + t[b].size in t && t[b + t[b].size].size > 0
    && var n := b + t[b].size;
    var whole := t[b].size + t[n].size;
    && Piece2(h', b, whole, t[n].last, t[b].seg)
    && forall x :: x in t && x != b && x != n ==>
         x in h' && h'[x].size == t[x].size && h'[x].busy == t[x].busy && h'[x].last == t[x].last
             && h'[x].seg == t[x].seg
  }

  /** A block of `whole` entries at b has been inserted in at least two pieces. */
  ghost predicate Piece2(h: Headers, b: int, whole: int, last: bool, seg: int) {
    && whole > MaxBlock && b in h && h[b].size == ChunkSize(whole) && !h[b].busy && !h[b].last && h[b].seg == seg
    && SecondPiece(h, b, whole, b + whole, last, seg)
  }

  /** A remainder at the end of its run moves LastEntryInSegment, and goes to the lists as it is. */
  lemma ReleasedAtEnd(h: Headers, segs: Segments, sizes: Sizes, b: int, h': Headers, segs': Segments)
    requires Telling(h, b, h) && Tail(h, segs, sizes, b) && h[b].last && h[b].seg in segs
        && segs' == SetLast(segs, h[b].seg, b)
    requires BusyOf(h') == BusyOf(h) - {b} && LastSet(h', segs') == LastSet(h, segs')
    ensures Released(h, segs, b, h', segs')
  {
    TailAtEnd(h, segs, sizes, b);
  }

  lemma ReleasedPlain(t: Headers, segs: Segments, b: int, h': Headers, segs': Segments)
    requires b in t && !t[b].last && BusyOf(h') == BusyOf(t) - {b} && AreasOf(segs') == AreasOf(segs)
    requires LastSet(t, segs) <= LastSet(h', segs') && !TailStrands(t, segs, b)
    ensures Released(t, segs, b, h', segs')
  {
  }

  lemma OversizeReleased(h: Headers, t: Headers, segs: Segments, sizes: Sizes, b: int, h2: Headers, whole: int,
      h': Headers)
    requires Oversize(h, b) && Telling(h, b, t) && Tail(t, segs, sizes, b) && whole == h[b].size + h[b + h[b].size].size
    requires h2 == Fused(h, b) && KeepsOthers(h2, h', b) && Piece2(h', b, whole, h2[b].last, h2[b].seg)
    requires Layout(h', AreasOf(segs)) && BusyOf(h') == BusyOf(t) - {b}
    ensures SegmentsOk(h', segs) && Small(BusyOf(h')) && Released(t, segs, b, h', segs)
  {
    OversizeView(h, t, segs, sizes, b);
    OversizeDone(h, t, segs, sizes, b, h2, whole, h');
    OversizePieces(h, t, segs, sizes, b, h2, whole, h');
    ReleasedPieces(t, segs, b, h');
  }

  lemma MergedStrandsNot(h: Headers, t: Headers, segs: Segments, sizes: Sizes, b: int, n: int)
    requires Telling(h, b, t) && !h[b].last && Tail(t, segs, sizes, b)
    requires n == b + h[b].size && n in h && h[b].size + h[n].size <= MaxBlock
    ensures !TailStrands(t, segs, b) && b in t && !t[b].last
  {
    ToldNext(h, t, segs, sizes, b);
  }

  lemma ReleasedPieces(t: Headers, segs: Segments, b: int, h': Headers)
    requires b in t && !t[b].last && BusyOf(h') == BusyOf(t) - {b} && Lasts(t, segs, h', segs, Lost(t, segs, b))
    requires InPieces(t, b, h')
    ensures Released(t, segs, b, h', segs)
  {
  }

  /** What a cut block's release means for the block that was cut. */
  lemma CutReleased(j: Headers, segs: Segments, a: int, index: int, t: Headers, b: int, h': Headers, segs': Segments)
    requires a in j && b in t && Released(t, segs, b, h', segs') && BusyOf(t) == BusyOf(j)[a := index]
        && t[b].seg == j[a].seg && !t[b].busy
    requires LastSet(j, segs) - MovedTo(j, a) <= LastSet(t, segs) && MovedTo(t, b) == MovedTo(j, a)
    requires TailStrands(t, segs, b) <==> CutStrands(j, segs, a, index)
    ensures BusyOf(h') == BusyOf(j)[a := index] && AreasOf(segs') == AreasOf(segs)
    ensures Lasts(j, segs, h', segs', if CutStrands(j, segs, a, index) then {j[a].seg} else {})
    ensures CutStrands(j, segs, a, index) ==> segs' == segs && InPieces(t, b, h')
  {
    assert b !in BusyOf(t);
  }

  // ----- cutting a block that is in flight

  /** The block at a is in flight and may be of any size; if it ends its run, LastEntryInSegment has
      not been moved to it yet. */
  ghost predicate Held(h: Headers, segs: Segments, sizes: Sizes, a: int) {
    && Layout(h, AreasOf(segs)) && SegmentsOk(h, segs) && Small(BusyOf(h) - {a})
    && a in h && NotBase(AreasOf(segs), a) && sizes == FreeOf(h) - {a}
  }

  /** The first i entries go to the user, the others are the remainder. */
  function CutForUser(h: Headers, a: int, i: int): Headers
    requires a in h
  {
    h[a := h[a].(size := i, busy := true, last := false)][a + i := Entry(h[a].size - i, i, false, h[a].last, h[a].seg)]
  }

  lemma CutIsTold(h: Headers, segs: Segments, sizes: Sizes, a: int, i: int)
    requires Held(h, segs, sizes, a) && 0 < i < h[a].size
    ensures
      var h', b := CutForUser(h, a, i), a + i;
      && b !in h && CanCut(h, AreasOf(segs), a, i) && h'[b].size > 0
      && Told(h', b) == Marked(Marked(Cut(h, a, i), a, true), b, false)
  {
    CutFresh(h, AreasOf(segs), a, i);
  }

  lemma CutUserLayout(h: Headers, segs: Segments, sizes: Sizes, a: int, i: int)
    requires Held(h, segs, sizes, a) && 0 < i < h[a].size
    ensures
      var h', b := CutForUser(h, a, i), a + i;
      && h'[b].size > 0 && Layout(Told(h', b), AreasOf(segs)) && NotBase(AreasOf(segs), b) && h[a].seg in segs
  {
    var b, c, areas := a + i, Cut(h, a, i), AreasOf(segs);
    CutIsTold(h, segs, sizes, a, i);
    CutLayout(h, areas, a, i);
    CutFresh(h, areas, a, i);
    forall j | j in areas ensures b != areas[j].base { assert AreaOk(h, areas, j); }
    MarkedLayout(c, areas, a, true);
    MarkedLayout(Marked(c, a, true), areas, b, false);
  }

  lemma CutUserBlocks(h: Headers, sizes: Sizes, a: int, i: int)
    requires a in h && 0 < i < h[a].size && a + i !in h && sizes == FreeOf(h) - {a}
    ensures
      var b := a + i;
      var t := Marked(Marked(Cut(h, a, i), a, true), b, false);
      && b in Cut(h, a, i) && FreeOf(t) - {b} == sizes && BusyOf(t) == BusyOf(h)[a := i]
  {
    var b := a + i;
    var t := Marked(Marked(Cut(h, a, i), a, true), b, false);
    assert t.Keys == h.Keys + {b};
    assert FreeOf(t) - {b} == sizes;
    assert BusyOf(t) == BusyOf(h)[a := i];
  }

  lemma SmallWith(s: Sizes, a: int, i: int)
    requires Small(s - {a}) && i <= MaxBlock + 2
    ensures Small(s[a := i])
  {
    var s' := s[a := i];
    forall x | x in s' ensures s'[x] <= MaxBlock + 2 {
      assert x != a ==> x in s - {a} && (s - {a})[x] == s[x];
    }
  }

  /** The remainder of a cut block is one that ReleaseTail can take. */
  lemma CutTail(h: Headers, segs: Segments, sizes: Sizes, a: int, i: int)
    requires Held(h, segs, sizes, a) && 0 < i < h[a].size && i <= MaxBlock + 2 && h[a].size - i <= MaxBlock + 2
    ensures
      var h', b := CutForUser(h, a, i), a + i;
      && h'[b].size > 0 && Tail(Told(h', b), segs, sizes, b) && BusyOf(Told(h', b)) == BusyOf(h)[a := i]
      && LastSet(h, segs) - MovedTo(h, a) <= LastSet(Told(h', b), segs)
      && b in Told(h', b) && MovedTo(Told(h', b), b) == MovedTo(h, a)
  {
    var h', b := CutForUser(h, a, i), a + i;
    CutIsTold(h, segs, sizes, a, i);
    CutUserLayout(h, segs, sizes, a, i);
    CutUserBlocks(h, sizes, a, i);
    CutUserSegments(h, segs, sizes, a, i);
    SmallWith(BusyOf(h), a, i);
  }

  lemma CutUserSegments(h: Headers, segs: Segments, sizes: Sizes, a: int, i: int)
    requires Held(h, segs, sizes, a) && 0 < i < h[a].size
    ensures
      var h', b := CutForUser(h, a, i), a + i;
      && h'[b].size > 0
      && SegmentsOk(Told(h', b), segs)
      && LastSet(h, segs) - MovedTo(h, a) <= LastSet(Told(h', b), segs)
  {
    var h', b := CutForUser(h, a, i), a + i;
    CutFresh(h, AreasOf(segs), a, i);
    var t := Told(h', b);
    forall j | j in segs ensures SegmentOk(t, segs[j])
        && (LastOk(h, segs, j) ==> j in MovedTo(h, a) || LastOk(t, segs, j)) {
      assert SegmentOk(h, segs[j]);
      assert AreasOf(segs)[j].base == segs[j].BaseAddress;
    }
  }

  lemma LooseHeld(h: Headers, segs: Segments, sizes: Sizes, a: int)
    requires Loose(h, segs, sizes, a)
    ensures Held(h, segs, sizes, a) && h[a].size > 0 && h[a].seg in segs
  {
    assert Fits(h, AreasOf(segs), a);
  }

  /** Cutting the block at a after i entries leaves LastEntryInSegment on a block that vanishes: the
      remainder and the free block after it are together too large for one entry, and not cut again just
      where they met. */
  ghost predicate CutStrands(h: Headers, segs: Segments, a: int, i: int) {
    && a in h && h[a].seg in segs && !h[a].last && a + h[a].size in h
    && var n := a + h[a].size;
    !h[n].busy && h[a].size - i + h[n].size > MaxBlock && segs[h[a].seg].LastEntryInSegment == n
    && !Returns(h[a].size - i, h[n].size)
  }

  /** What cutting the block at a leaves when LastEntryInSegment is stranded: it has not moved, and the remainder
      and the block after it lie in pieces. */
  ghost predicate CutLeaves(h: Headers, segs: Segments, a: int, i: int, h': Headers, segs': Segments) {
    CutStrands(h, segs, a, i) && 0 < i < h[a].size ==>
        segs' == segs && InPieces(Told(CutForUser(h, a, i), a + i), a + i, h')
  }

  /** The headers and segments after the user got index entries of the block at a, where they are determined by
      the block alone: it is taken whole, or the cut strands LastEntryInSegment. */
  ghost predicate Handed(h: Headers, segs: Segments, a: int, index: int, h': Headers, segs': Segments) {
    && a in h
    && if h[a].size - index <= 1 then h' == Marked(h, a, true) && segs' == segs
        else CutLeaves(h, segs, a, index, h', segs')
  }

  /** The segment whose LastEntryInSegment is left behind when the block at a is cut after index entries. */
  ghost function CutLost(h: Headers, segs: Segments, a: int, index: int): set<int>
    requires a in h
  {
    if h[a].size - index > 1 && CutStrands(h, segs, a, index) then {h[a].seg} else {}
  }

  lemma CutLostAll(h: Headers, segs: Segments, h': Headers, segs': Segments, a: int, index: int)
    requires a in h && h[a].seg in segs && segs.Keys == segs'.Keys
        && Lasts(h, segs, h', segs', CutLost(h, segs, a, index))
    ensures AllLast(h, segs) ==> (AllLast(h', segs') <==> !(h[a].size - index > 1 && CutStrands(h, segs, a, index)))
  {
    LastsAll(h, segs, h', segs', CutLost(h, segs, a, index));
  }

  lemma CutStrandsTail(h: Headers, segs: Segments, sizes: Sizes, a: int, i: int)
    requires Held(h, segs, sizes, a) && 0 < i < h[a].size
    ensures
      var h', b := CutForUser(h, a, i), a + i;
      h'[b].size > 0 && (TailStrands(Told(h', b), segs, b) <==> CutStrands(h, segs, a, i))
  {
    CutFresh(h, AreasOf(segs), a, i);
  }

  /** Cutting a block that is held leaves a remainder for ReleaseTail. */
  lemma HeldCut(j: Headers, segs: Segments, sizes: Sizes, a: int, index: int)
    requires Held(j, segs, sizes, a) && 0 < index < j[a].size && index <= MaxBlock + 2
        && j[a].size - index <= MaxBlock + 2
    ensures
      var h', b := CutForUser(j, a, index), a + index;
      && h'[b].size > 0 && !h'[b].busy && var t := Told(h', b);
      && !t[b].busy && Tail(t, segs, sizes, b) && BusyOf(t) == BusyOf(j)[a := index] && t[b].seg == j[a].seg
      && LastSet(j, segs) - MovedTo(j, a) <= LastSet(t, segs) && MovedTo(t, b) == MovedTo(j, a)
      && (TailStrands(t, segs, b) <==> CutStrands(j, segs, a, index))
  {
    CutTail(j, segs, sizes, a, index);
    CutStrandsTail(j, segs, sizes, a, index);
  }

  // ----- an example

  /** Two neighbouring free blocks that together exceed the largest entry, the second one at the end of
      the segment. */
  function ExampleHeaders(): Headers {
    map[0 := Entry(9, 0, true, false, 0), 9 := Entry(600, 9, false, false, 0), 609 := Entry(64927, 600, false, true, 0)]
  }

  function ExampleSegments(): Segments {
    map[0 := Segment(0, 9, 65536, [], 0, 0, 609)]
  }

  /** The heap of the example is sound, and cutting its first free block strands LastEntryInSegment. */
  lemma StrandedExample()
    ensures
      var h, segs := ExampleHeaders(), ExampleSegments();
      Whole(h, segs, FreeOf(h)) && AllLast(h, segs) && CutStrands(h, segs, 9, 2) && !h[9].busy
  {
    var h, segs := ExampleHeaders(), ExampleSegments();
    var areas := AreasOf(segs);
    assert Union([]) == {};
    assert areas[0] == Area(0, 65536, {});
    assert Fits(h, areas, 0) && Fits(h, areas, 9) && Fits(h, areas, 609);
    assert Beside(h, 0, 9) && Beside(h, 0, 609) && Beside(h, 9, 609);
    assert AreaOk(h, areas, 0) && SegmentOk(h, segs[0]) && LastOk(h, segs, 0);
    forall x, y | x in h && y in h ensures Beside(h, x, y) {
    }
  }
}
