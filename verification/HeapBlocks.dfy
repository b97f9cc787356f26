/** The free and the busy blocks of a heap, and how the transformations of HeapLayout change them. */
module HeapBlocks {
  import opened HeapLayout
  import opened HeapFreeLists

  /** The blocks that are not busy, with their sizes. */
  ghost function FreeOf(h: Headers): Sizes {
    map a | a in h && !h[a].busy :: if a in h && !h[a].busy then h[a].size else 0
  }

  /** The blocks in use, with their sizes: segment headers and allocations. */
  ghost function BusyOf(h: Headers): Sizes {
    map a | a in h && h[a].busy :: if a in h && h[a].busy then h[a].size else 0
  }

  /** Writing the size of a block and its successor's PreviousSize does not change other sizes. */
  lemma SizedBlocks(h: Headers, a: int, size: int, last: bool)
    requires a in h && size > 0
    ensures !h[a].busy ==>
              FreeOf(Sized(h, a, size, last)) == FreeOf(h)[a := size] && BusyOf(Sized(h, a, size, last)) == BusyOf(h)
    ensures h[a].busy ==>
              FreeOf(Sized(h, a, size, last)) == FreeOf(h) && BusyOf(Sized(h, a, size, last)) == BusyOf(h)[a := size]
  {
  }

  lemma MarkedBlocks(h: Headers, a: int, busy: bool)
    requires a in h
    ensures busy ==>
              FreeOf(Marked(h, a, busy)) == FreeOf(h) - {a} && BusyOf(Marked(h, a, busy)) == BusyOf(h)[a := h[a].size]
    ensures !busy ==>
              FreeOf(Marked(h, a, busy)) == FreeOf(h)[a := h[a].size] && BusyOf(Marked(h, a, busy)) == BusyOf(h) - {a}
  {
  }

  /** A free block swallowed by the one before it. */
  lemma JoinedBlocks(h: Headers, a: int)
    requires a in h && h[a].size > 0 && a + h[a].size in h && h[a + h[a].size].size > 0
    requires !h[a + h[a].size].busy
    ensures
      var n := a + h[a].size;
      if h[a].busy then
        && FreeOf(Joined(h, a)) == FreeOf(h) - {n}
        && BusyOf(Joined(h, a)) == BusyOf(h)[a := h[a].size + h[n].size]
      else
        && FreeOf(Joined(h, a)) == (FreeOf(h) - {n})[a := h[a].size + h[n].size]
        && BusyOf(Joined(h, a)) == BusyOf(h)
  {
    var n := a + h[a].size;
    SizedBlocks(h - {n}, a, h[a].size + h[n].size, h[n].last);
    assert FreeOf(h - {n}) == FreeOf(h) - {n};
    assert BusyOf(h - {n}) == BusyOf(h);
  }

  /** A free block cut in two. */
  lemma CutBlocks(h: Headers, a: int, i: int)
    requires a in h && 0 < i < h[a].size && a + i !in h && !h[a].busy
    ensures FreeOf(Cut(h, a, i)) == FreeOf(h)[a := i][a + i := h[a].size - i]
    ensures BusyOf(Cut(h, a, i)) == BusyOf(h)
  {
  }

  /** HEAP_MAX_BLOCK_SIZE (rtl/heap.h:24): one page short of 65536 entries. */
  const MaxBlock: int := 0xFE00

  /** Sizes fit the 16-bit fields, so the casts in the source never truncate. */
  ghost predicate Small(sizes: Sizes) {
    forall x :: x in sizes ==> sizes[x] <= MaxBlock + 2
  }

  /** The size of the next piece when a large block is inserted (rtl/heap.c:342-356). */
  function ChunkSize(rest: int): (c: int)
    requires rest > 0
    ensures 0 < c <= rest && c <= 0xFE00 && (rest > 0xFE00 ==> c < rest)
  {
    if rest > 0xFE00 then (if rest == 0xFE01 then 0xFE00 - 16 else 0xFE00) else rest
  }

  /** The headers as they will be if the rest of a block, from cur on, becomes one free block. */
  ghost function Settled(h: Headers, cur: int, rest: int, prev: int, last: bool, seg: int): Headers
    requires rest >= 0
  {
    if rest > 0 then Sized(h[cur := Entry(rest, prev, false, last, seg)], cur, rest, last)
    else if last || cur !in h then h
    else h[cur := h[cur].(prev := prev)]
  }

  /** All headers but the one at a keep what they say about their own block. */
  ghost predicate KeepsOthers(h: Headers, h': Headers, a: int) {
    forall x :: x in h && x != a ==>
      x in h' && h'[x].size == h[x].size && h'[x].busy == h[x].busy && h'[x].last == h[x].last && h'[x].seg == h[x].seg
  }

  /** Writing one piece of a block and going on with the rest is cutting it. */
  lemma ChunkCut(h: Headers, areas: Areas, cur: int, rest: int, prev: int, last: bool, seg: int, c: int)
    requires 0 < c < rest && Layout(Settled(h, cur, rest, prev, last, seg), areas) && NotBase(areas, cur)
    ensures
      var w := Settled(h, cur, rest, prev, last, seg);
      var h2 := h[cur := Entry(c, prev, false, false, seg)];
      && CanCut(w, areas, cur, c) && cur + c !in h && NotBase(areas, cur + c)
      && seg in areas && cur + rest <= areas[seg].end
      && Settled(h2, cur + c, rest - c, c, last, seg) == Cut(w, cur, c)
  {
    var w := Settled(h, cur, rest, prev, last, seg);
    CutFresh(w, areas, cur, c);
    forall i | i in areas ensures cur + c != areas[i].base {
      assert AreaOk(w, areas, i);
    }
  }

  /** The last piece ends the block. */
  lemma ChunkEnd(h: Headers, areas: Areas, cur: int, rest: int, prev: int, last: bool, seg: int)
    requires 0 < rest && Layout(Settled(h, cur, rest, prev, last, seg), areas)
    ensures
      var h2 := h[cur := Entry(rest, prev, false, last, seg)];
      && Settled(h2, cur + rest, 0, rest, last, seg) == Settled(h, cur, rest, prev, last, seg)
      && (!last ==> cur + rest in h)
      && (last ==> seg in areas && cur + rest <= areas[seg].end)
      && (!last ==> seg in areas && cur + rest < areas[seg].end)
  {
    var w := Settled(h, cur, rest, prev, last, seg);
    assert Fits(w, areas, cur);
    if !last { assert Fits(w, areas, cur + rest); }
  }

  /** A large block is being inserted piece by piece: everything before cur is listed. */
  ghost predicate Inserting(h: Headers, areas: Areas, sizes: Sizes, cur: int, rest: int, prev: int, last: bool,
      seg: int) {
    && rest >= 0
    && var w := Settled(h, cur, rest, prev, last, seg);
    && Layout(w, areas)
    && (if rest > 0 then NotBase(areas, cur) && sizes == FreeOf(w) - {cur}
        else sizes == FreeOf(w) && (last || cur in h))
  }

  lemma Piece(h: Headers, areas: Areas, sizes: Sizes, cur: int, rest: int, prev: int, last: bool, seg: int)
    requires Inserting(h, areas, sizes, cur, rest, prev, last, seg) && rest > 0
    ensures
      var c := ChunkSize(rest);
      var h2 := h[cur := Entry(c, prev, false, last && c == rest, seg)];
      var w, w2 := Settled(h, cur, rest, prev, last, seg), Settled(h2, cur + c, rest - c, c, last, seg);
      && Inserting(h2, areas, sizes[cur := c], cur + c, rest - c, c, last, seg)
      && BusyOf(w2) == BusyOf(w) && (c == rest ==> w2 == w) && (c < rest ==> cur + c !in h)
      && seg in areas && cur + c <= areas[seg].end && (cur + c == areas[seg].end ==> c == rest && last)
  {
    if ChunkSize(rest) < rest {
      PieceCut(h, areas, sizes, cur, rest, prev, last, seg);
    } else {
      ChunkEnd(h, areas, cur, rest, prev, last, seg);
      assert FreeOf(Settled(h, cur, rest, prev, last, seg)) == sizes[cur := rest];
    }
  }

  lemma PieceCut(h: Headers, areas: Areas, sizes: Sizes, cur: int, rest: int, prev: int, last: bool, seg: int)
    requires Inserting(h, areas, sizes, cur, rest, prev, last, seg) && rest > 0 && ChunkSize(rest) < rest
    ensures
      var c := ChunkSize(rest);
      var h2 := h[cur := Entry(c, prev, false, false, seg)];
      var w, w2 := Settled(h, cur, rest, prev, last, seg), Settled(h2, cur + c, rest - c, c, last, seg);
      && Inserting(h2, areas, sizes[cur := c], cur + c, rest - c, c, last, seg)
      && BusyOf(w2) == BusyOf(w) && cur + c !in h && seg in areas && cur + rest <= areas[seg].end
  {
    var c := ChunkSize(rest);
    var w := Settled(h, cur, rest, prev, last, seg);
    ChunkCut(h, areas, cur, rest, prev, last, seg, c);
    CutLayout(w, areas, cur, c);
    CutBlocks(w, cur, c);
    assert FreeOf(Cut(w, cur, c)) - {cur + c} == sizes[cur := c];
  }

  /** What holds after some pieces of the block at a have been written over h0; w0 is the outcome
      if the block could stay whole. */
  ghost predicate Progress(h0: Headers, w0: Headers, a: int, whole: int, h: Headers, areas: Areas, sizes: Sizes,
                           cur: int, rest: int, prev: int, last: bool, seg: int)
  {
    && 0 <= rest <= whole && whole > 0 && Inserting(h, areas, sizes, cur, rest, prev, last, seg)
       && KeepsOthers(h0, h, a)
    && var w := Settled(h, cur, rest, prev, last, seg);
    && BusyOf(w) == BusyOf(w0) && (whole <= MaxBlock ==> w == w0)
    && (if cur == a then h == h0 && rest == whole
        else && cur > a && a in h && h[a].size == ChunkSize(whole) && !h[a].busy && h[a].seg == seg
             && h[a].last == (last && whole <= MaxBlock) && (rest > 0 ==> cur !in h)
             && cur + rest == a + whole && SecondPiece(h, a, whole, cur, last, seg))
  }

  /** Once the second piece has been written, it is the last one only if the rest fits one entry. */
  ghost predicate SecondPiece(h: Headers, a: int, whole: int, cur: int, last: bool, seg: int)
    requires whole > 0
  {
    var b := a + ChunkSize(whole);
    if whole <= MaxBlock || cur <= b then cur == b
    else b in h && h[b].seg == seg && h[b].size == ChunkSize(whole - ChunkSize(whole))
         && h[b].last == (last && whole - ChunkSize(whole) <= MaxBlock)
  }

  lemma ProgressNext(h0: Headers, w0: Headers, a: int, whole: int, h: Headers, areas: Areas, sizes: Sizes,
                     cur: int, rest: int, prev: int, last: bool, seg: int)
    requires Progress(h0, w0, a, whole, h, areas, sizes, cur, rest, prev, last, seg) && rest > 0
    ensures cur !in sizes && seg in areas && 0 < ChunkSize(rest) <= rest
    ensures cur + ChunkSize(rest) >= areas[seg].end ==> ChunkSize(rest) == rest
  {
    Piece(h, areas, sizes, cur, rest, prev, last, seg);
  }

  lemma ProgressStep(h0: Headers, w0: Headers, a: int, whole: int, h: Headers, areas: Areas, sizes: Sizes,
                     cur: int, rest: int, prev: int, last: bool, seg: int, c: int, h2: Headers, sizes2: Sizes,
                         cur2: int, rest2: int)
    requires Progress(h0, w0, a, whole, h, areas, sizes, cur, rest, prev, last, seg) && rest > 0 && cur2 == cur + c
        && rest2 == rest - c
    requires c == ChunkSize(rest) && h2 == h[cur := Entry(c, prev, false, last && c == rest, seg)]
        && sizes2 == sizes[cur := c]
    ensures Progress(h0, w0, a, whole, h2, areas, sizes2, cur2, rest2, c, last, seg)
  {
    Piece(h, areas, sizes, cur, rest, prev, last, seg);
  }

  lemma ProgressDone(h0: Headers, w0: Headers, a: int, whole: int, h: Headers, areas: Areas, sizes: Sizes,
                     cur: int, prev: int, last: bool, seg: int, h': Headers)
    requires Progress(h0, w0, a, whole, h, areas, sizes, cur, 0, prev, last, seg)
    requires h' == Settled(h, cur, 0, prev, last, seg)
    ensures Layout(h', areas) && BusyOf(h') == BusyOf(w0) && FreeOf(h') == sizes && KeepsOthers(h0, h', a)
    ensures whole <= MaxBlock ==> h' == w0
    ensures a in h' && h'[a] == Entry(ChunkSize(whole), h'[a].prev, false, last && whole <= MaxBlock, seg)
    ensures whole > MaxBlock ==> SecondPiece(h', a, whole, a + whole, last, seg)
  {
  }
}
