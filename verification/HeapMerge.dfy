/** Merging and cutting, in terms of the free blocks (rtl/heap.c). */
module HeapMerge {
  import opened HeapLayout
  import opened HeapFreeLists
  import opened HeapBlocks
  import opened HeapSegments
  import opened HeapSplit
  import opened HeapDecommit
  import opened HeapGrow

  // A map holds the free blocks with their sizes. What an operation does to them is said without the headers.

  /** p is a free block that ends where a block of the given size at a starts, and fits one entry with it. */
  ghost predicate FitsBefore(sizes: Sizes, p: int, a: int, size: int) {
    p in sizes && p + sizes[p] == a && sizes[p] + size <= MaxBlock
  }

  /** The free block at n fits one entry with `whole` entries in front of it. */
  ghost predicate FitsBehind(sizes: Sizes, n: int, whole: int) {
    n in sizes && whole + sizes[n] <= MaxBlock
  }

  /** The free blocks that do not start in start..end. */
  ghost function Outside(sizes: Sizes, start: int, end: int): Sizes {
    map x | x in sizes && !(start <= x < end) :: if x in sizes && !(start <= x < end) then sizes[x] else 0
  }

  /** Of the block of size entries at a and its free neighbours, b with `whole` entries is what coalescing makes:
      the block before is swallowed exactly when it is free and fits, and then the one behind exactly when that is
      free and fits with what there is. */
  ghost predicate Coalesced(sizes: Sizes, a: int, size: int, b: int, whole: int) {
    var n := a + size;
    && (b != a <==> exists p :: FitsBefore(sizes, p, a, size)) && (b != a ==> FitsBefore(sizes, b, a, size))
    && (b + whole != n <==> FitsBehind(sizes, n, n - b)) && (b + whole != n ==> b + whole == n + sizes[n])
  }

  // ----- pieces

  /** A free block of any size is listed in pieces of at most the largest entry size (rtl/heap.c:340-374). */
  ghost function PiecesOf(sizes: Sizes, a: int, whole: int): Sizes
    decreases whole
  {
    if whole <= 0 then sizes
    else PiecesOf(sizes[a := ChunkSize(whole)], a + ChunkSize(whole), whole - ChunkSize(whole))
  }

  /** Blocks that fit stay whole. */
  lemma OnePiece(sizes: Sizes, a: int, whole: int)
    requires 0 < whole <= MaxBlock
    ensures PiecesOf(sizes, a, whole) == sizes[a := whole]
  {
  }

  lemma PiecesNext(sizes: Sizes, sizes': Sizes, a: int, whole: int, c: int, a': int, whole': int)
    requires whole > 0 && c == ChunkSize(whole) && sizes' == sizes[a := c] && a' == a + c && whole' == whole - c
    ensures PiecesOf(sizes', a', whole') == PiecesOf(sizes, a, whole)
  {
  }

  /** The pieces say nothing about other blocks. */
  lemma {:induction false} PiecesElsewhere(sizes: Sizes, a: int, whole: int, x: int)
    requires x < a || a + whole <= x
    ensures
      var s := PiecesOf(sizes, a, whole);
      (x in s <==> x in sizes) && (x in sizes ==> s[x] == sizes[x])
    decreases whole
  {
    if whole > 0 {
      var c := ChunkSize(whole);
      PiecesElsewhere(sizes[a := c], a + c, whole - c, x);
    }
  }

  /** The pieces tile the block, none is too large, and none is a lone entry unless the block is one. */
  lemma {:induction false} PiecesTile(sizes: Sizes, a: int, whole: int, x: int)
    requires whole > 0 && a <= x < a + whole && x !in sizes && x in PiecesOf(sizes, a, whole)
    ensures
      var s := PiecesOf(sizes, a, whole);
      && a in s && 0 < s[x] <= MaxBlock && x + s[x] <= a + whole && (x + s[x] < a + whole ==> x + s[x] in s)
      && (s[x] == 1 ==> whole == 1)
    decreases whole
  {
    var c := ChunkSize(whole);
    PiecesElsewhere(sizes[a := c], a + c, whole - c, a);
    if x >= a + c {
      PiecesTile(sizes[a := c], a + c, whole - c, x);
    } else if c < whole {
      PieceStarts(sizes[a := c], a + c, whole - c);
      if x != a { PiecesElsewhere(sizes[a := c], a + c, whole - c, x); }
    }
  }

  lemma PieceStarts(sizes: Sizes, a: int, whole: int)
    requires whole > 0
    ensures a in PiecesOf(sizes, a, whole)
  {
    PiecesElsewhere(sizes[a := ChunkSize(whole)], a + ChunkSize(whole), whole - ChunkSize(whole), a);
  }

  // ----- remainders

  /** What is left of a block, rest entries at b, becomes free together with the free block right behind it
      (rtl/heap.c:1723-1789, 2463-2543, 2840-2918). */
  ghost function RestFree(sizes: Sizes, b: int, rest: int): Sizes {
    var n := b + rest;
    if n in sizes then PiecesOf(sizes - {n}, b, rest + sizes[n]) else sizes[b := rest]
  }

  /** The free blocks when the user gets index entries of the free block at a. */
  ghost function SplitFree(sizes: Sizes, a: int, index: int): Sizes
    requires a in sizes
  {
    if sizes[a] - index <= 1 then sizes - {a} else RestFree(sizes - {a}, a + index, sizes[a] - index)
  }

  /** The free blocks when the block of size entries at a grows to index entries, over the free block behind it. */
  ghost function GrowFree(sizes: Sizes, a: int, size: int, index: int): Sizes
    requires a + size in sizes
  {
    var n := a + size;
    GrowRest(sizes - {n}, a, index, size + sizes[n])
  }

  /** Of total entries at a the user gets index, or all if no more than two would be left. */
  ghost function GrowRest(sizes: Sizes, a: int, index: int, total: int): Sizes {
    if total - index <= 2 then sizes else RestFree(sizes, a + index, total - index)
  }

  /** The free blocks when pages of need entries at n, in front of which a busy block ends, are committed. */
  ghost function PagesFree(sizes: Sizes, n: int, need: int): Sizes {
    var x := n + need;
    if FitsBehind(sizes, x, need) then (sizes - {x})[n := need + sizes[x]] else sizes[n := need]
  }

  /** The free blocks when a block grows over the pages that are committed for it. */
  ghost function PagesGrown(sizes: Sizes, a: int, size: int, need: int, index: int): Sizes {
    GrowFree(PagesFree(sizes, a + size, need), a, size, index)
  }

  lemma PagesCoalesced(h: Headers, segs: Segments, sizes: Sizes, a: int, n: int, b: int, whole: int, after: Sizes)
    requires Loose(h, segs, sizes, n) && a in h && h[a].busy && h[a].size > 0 && n == a + h[a].size
    requires Coalesced(sizes, n, h[n].size, b, whole) && after == Outside(sizes, b, b + whole)
    ensures b == n && after[n := whole] == PagesFree(sizes, n, h[n].size)
  {
    forall p | p in sizes ensures p + sizes[p] != n {
      assert p in FreeOf(h) && Fits(h, AreasOf(segs), p);
      assert Beside(h, a, p) && Beside(h, p, a);
    }
    NoneInside(h, segs, sizes, n);
    forall x | x in sizes ensures x < n || n + h[n].size <= x { assert x in Outside(sizes, n, n + h[n].size); }
    if b + whole != n + h[n].size {
      CoalescedOutside(h, segs, sizes, n, n, sizes, whole, sizes - {n + h[n].size});
    }
  }

  /** The busy block a has grown to index entries over the free block n, which was in flight. */
  ghost predicate GrownOver(h: Headers, segs: Segments, sizes: Sizes, a: int, n: int, index: int, h': Headers,
      segs': Segments, sizes': Sizes)
  {
    && a in h && n in h && h[a].size > 0 && h[n].size > 0 && n == a + h[a].size
    && var total := h[a].size + h[n].size;
    && Whole(h', segs', sizes') && AreasOf(segs') == AreasOf(segs) && sizes' == GrowRest(sizes, a, index, total)
    && BusyOf(h') == BusyOf(h)[a := if total - index <= 2 then total else index]
    && Lasts(h, segs, h', segs', GrowLost(h, segs, a, n, index))
  }

  lemma GrownOverView(h: Headers, segs: Segments, sizes: Sizes, a: int, n: int, index: int, h': Headers,
      segs': Segments,
      sizes': Sizes)
    requires GrownOver(h, segs, sizes, a, n, index, h', segs', sizes') && index <= h[a].size + h[n].size
    ensures Grown(h, h', a, index) && segs'.Keys == segs.Keys && FreeOf(h') == sizes'
  {
    assert AreasOf(segs').Keys == AreasOf(segs).Keys;
  }

  lemma GrownPartly(h: Headers, segs: Segments, sizes: Sizes, a: int, n: int, index: int, t: Headers, b: int,
      h': Headers, segs': Segments, sizes': Sizes)
    requires a in h && n in h && h[a].size > 0 && h[n].size > 0 && n == a + h[a].size && b == a + index
    requires h[a].size + h[n].size - index > 2 && b in t && t[b].size == h[a].size + h[n].size - index
    requires Remaining(h, segs, sizes, a, n, index, t, b) && Tailed(t, segs, sizes, b, h', segs', sizes')
    ensures GrownOver(h, segs, sizes, a, n, index, h', segs', sizes')
  {
    var total, rest := h[a].size + h[n].size, t[b].size;
    RemainingReleased(h, segs, sizes, a, n, index, t, b, h', segs');
    GrowRestIs(sizes, a, index, total, b, rest);
    assert sizes' == GrowRest(sizes, a, index, total) && Whole(h', segs', sizes') && AreasOf(segs') == AreasOf(segs);
  }

  lemma GrowRestIs(sizes: Sizes, a: int, index: int, total: int, b: int, rest: int)
    requires b == a + index && rest == total - index && rest > 2
    ensures GrowRest(sizes, a, index, total) == RestFree(sizes, b, rest)
  {
  }

  lemma SplitFreeIs(sizes: Sizes, sizes1: Sizes, a: int, index: int, size: int, sizes': Sizes)
    requires a in sizes && sizes[a] == size && sizes1 == sizes - {a}
    requires sizes' == if size - index <= 1 then sizes1 else RestFree(sizes1, a + index, size - index)
    ensures sizes' == SplitFree(sizes, a, index)
  {
  }

  /** The block a has grown over the pages committed at n, and over what they were coalesced with. */
  ghost predicate GrownOnPages(h: Headers, segs: Segments, sizes: Sizes, a: int, n: int, index: int, h': Headers,
      segs': Segments, sizes': Sizes)
  {
    && a in h && n in h && Grown(h, h', a, index) && AreasOf(segs') == AreasOf(segs)
    && LastSet(h, segs) <= LastSet(h', segs') && sizes' == PagesGrown(sizes, a, h[a].size, h[n].size, index)
  }

  lemma GrownOverPages(sizes: Sizes, sizes': Sizes, a: int, size: int, n: int, need: int, whole: int, index: int)
    requires n == a + size && n !in sizes' && sizes'[n := whole] == PagesFree(sizes, n, need)
    ensures GrowRest(sizes', a, index, size + whole) == PagesGrown(sizes, a, size, need, index)
  {
    assert sizes'[n := whole] - {n} == sizes';
  }

  /** The free blocks when a free block of size entries at a is listed, or gives its whole pages back. */
  ghost function PutFree(sizes: Sizes, a: int, size: int, givesBack: bool): Sizes {
    if givesBack then Remainders(sizes, a, DecommitFrom(a), DecommitTo(a + size), a + size)
    else PiecesOf(sizes, a, size)
  }

  /** The committed memory after that. */
  ghost function PutAreas(areas: Areas, i: int, a: int, size: int, givesBack: bool): Areas
    requires i in areas
  {
    if givesBack then Without(areas, i, DecommitFrom(a), DecommitTo(a + size) - DecommitFrom(a)) else areas
  }

  /** The block in flight at a has become free. */
  ghost predicate Put(h: Headers, segs: Segments, sizes: Sizes, a: int, size: int, givesBack: bool, h': Headers,
      segs': Segments, sizes': Sizes)
  {
    && a in h && h[a].seg in segs && Whole(h', segs', sizes') && BusyOf(h') == BusyOf(h) - {a}
    && sizes' == PutFree(sizes, a, size, givesBack)
    && AreasOf(segs') == PutAreas(AreasOf(segs), h[a].seg, a, size, givesBack)
    && Lasts(h, segs, h', segs', if givesBack then {} else Outgrown(h, segs, a))
  }

  /** The block at a, on its way into the lists, has been coalesced with its neighbours if that is wanted. */
  ghost predicate Joint(h: Headers, segs: Segments, sizes: Sizes, a: int, coalesces: bool, b: int, whole: int,
      h1: Headers, segs1: Segments, sizes1: Sizes)
  {
    && Loose(h1, segs1, sizes1, b) && h1[b].size == whole && AreasOf(segs1) == AreasOf(segs)
    && a in h && h[a].size <= whole && BusyOf(h1) - {b} == BusyOf(h) - {a} && h1[b].seg == h[a].seg
    && (if coalesces then Coalesced(sizes, a, h[a].size, b, whole) else b == a && whole == h[a].size)
    && sizes1 == Outside(sizes, b, b + whole)
    && (whole <= MaxBlock || (b == a && whole == h[a].size && h1 == h && segs1 == segs))
    && LastSet(h, segs) <= LastSet(h1, segs1)
  }

  /** The heap after the block at a has been freed, in terms of the heap before: with its free neighbours, as far
      as they fit, it is the block of `whole` entries at b; and this is listed, in pieces if it is too large, or its
      whole pages go back to the system. */
  ghost predicate Freed(h: Headers, segs: Segments, a: int, coalesces: bool, b: int, whole: int, givesBack: bool,
      h': Headers, segs': Segments)
  {
    && a in h && h[a].seg in segs && segs'.Keys == segs.Keys && BusyOf(h') == BusyOf(h) - {a}
    && (if coalesces then Coalesced(FreeOf(h), a, h[a].size, b, whole) else b == a && whole == h[a].size)
    && FreeOf(h') == PutFree(Outside(FreeOf(h), b, b + whole), b, whole, givesBack)
    && AreasOf(segs') == PutAreas(AreasOf(segs), h[a].seg, b, whole, givesBack)
    && Lasts(h, segs, h', segs', FreedLost(h, segs, a, b, whole, givesBack))
  }

  /** Only a block that has not been coalesced can have outgrown the largest entry. */
  ghost function FreedLost(h: Headers, segs: Segments, a: int, b: int, whole: int, givesBack: bool): set<int>
    requires a in h
  {
    if givesBack || b != a || whole != h[a].size then {} else Outgrown(h, segs, a)
  }

  /** A block that has outgrown the largest entry is not coalesced. */
  lemma FreedWhole(h: Headers, segs: Segments, sizes: Sizes, a: int, b: int, whole: int, coalesces: bool)
    requires Whole(h, segs, sizes) && a in h
    requires if coalesces then Coalesced(sizes, a, h[a].size, b, whole) else b == a && whole == h[a].size
    ensures h[a].size > MaxBlock ==> b == a && whole == h[a].size
    ensures h[a].size <= MaxBlock ==> Outgrown(h, segs, a) == {}
  {
    forall x | x in sizes ensures sizes[x] > 0 {
      assert x in FreeOf(h) && Fits(h, AreasOf(segs), x);
    }
  }

  lemma FreedIs(h: Headers, segs: Segments, sizes: Sizes, a: int, coalesces: bool, b: int, whole: int, h1: Headers,
      segs1: Segments, sizes1: Sizes, givesBack: bool, h': Headers, segs': Segments, sizes': Sizes)
    requires Whole(h, segs, sizes) && a in h && h[a].busy && h[a].seg in segs
    requires Joint(h, segs, sizes, a, coalesces, b, whole, h1, segs1, sizes1)
    requires Put(h1, segs1, sizes1, b, whole, givesBack, h', segs', sizes')
    ensures Freed(h, segs, a, coalesces, b, whole, givesBack, h', segs')
  {
    FreedAreas(h, segs, h1, segs1, a, b, whole, givesBack, segs');
    assert Outgrown(h1, segs1, b) == if b != a || whole != h[a].size then {} else Outgrown(h, segs, a);
    assert FreeOf(h') == sizes' && FreeOf(h) == sizes;
  }

  lemma FreedAreas(h: Headers, segs: Segments, h1: Headers, segs1: Segments, a: int, b: int, whole: int,
      givesBack: bool,
      segs': Segments)
    requires a in h && b in h1 && h1[b].seg == h[a].seg && h[a].seg in segs && AreasOf(segs1) == AreasOf(segs)
    requires h1[b].seg in segs1 && AreasOf(segs') == PutAreas(AreasOf(segs1), h1[b].seg, b, whole, givesBack)
    ensures AreasOf(segs') == PutAreas(AreasOf(segs), h[a].seg, b, whole, givesBack) && segs'.Keys == segs.Keys
  {
    assert AreasOf(segs').Keys == AreasOf(segs).Keys;
  }

  /** The remainder at b of t, whose neighbour has been told, is in the lists. */
  ghost predicate Tailed(t: Headers, segs: Segments, sizes: Sizes, b: int, h': Headers, segs': Segments,
      sizes': Sizes)
  {
    && Released(t, segs, b, h', segs') && Whole(h', segs', sizes') && sizes' == RestFree(sizes, b, t[b].size)
  }

  lemma TailedLone(t: Headers, segs: Segments, sizes: Sizes, b: int, h': Headers, segs': Segments, sizes': Sizes)
    requires Tail(t, segs, sizes, b) && Released(t, segs, b, h', segs') && Whole(h', segs', sizes')
    requires t[b].last || (b + t[b].size in t && t[b + t[b].size].busy)
    requires sizes' == sizes[b := t[b].size]
    ensures Tailed(t, segs, sizes, b, h', segs', sizes')
  {
    BlockBehind(t, segs, sizes, b);
  }

  /** At first the block behind the remainder at b is a free one at n; together they have `whole` entries. */
  ghost predicate TailOnFree(h: Headers, t: Headers, segs: Segments, sizes: Sizes, b: int, n: int, whole: int) {
    && Telling(h, b, t) && Tail(t, segs, sizes, b) && !h[b].last
    && n == b + h[b].size && n in h && !h[n].busy && whole == h[b].size + h[n].size
  }

  lemma TailedMerged(h: Headers, t: Headers, segs: Segments, sizes: Sizes, b: int, n: int, sizes1: Sizes, whole: int,
      h': Headers, segs': Segments, sizes': Sizes)
    requires TailOnFree(h, t, segs, sizes, b, n, whole) && whole <= MaxBlock && sizes1 == sizes - {n}
    requires BusyOf(h') == BusyOf(t) - {b} && AreasOf(segs') == AreasOf(segs) && LastSet(t, segs) <= LastSet(h', segs')
    requires Whole(h', segs', sizes') && sizes' == sizes1[b := whole]
    ensures Tailed(t, segs, sizes, b, h', segs', sizes')
  {
    MergedStrandsNot(h, t, segs, sizes, b, n);
    ReleasedPlain(t, segs, b, h', segs');
    BehindRest(h, t, segs, sizes, b, n, whole);
    OnePiece(sizes1, b, whole);
    assert sizes' == RestFree(sizes, b, t[b].size);
  }

  lemma BehindRest(h: Headers, t: Headers, segs: Segments, sizes: Sizes, b: int, n: int, whole: int)
    requires TailOnFree(h, t, segs, sizes, b, n, whole)
    ensures b in t && t[b].size == h[b].size && n == b + t[b].size
    ensures n in sizes && whole == t[b].size + sizes[n] && whole > 0
  {
    ToldNext(h, t, segs, sizes, b);
    assert Fits(t, AreasOf(segs), b);
  }

  lemma TailedPieces(h: Headers, t: Headers, segs: Segments, sizes: Sizes, b: int, n: int, sizes1: Sizes, whole: int,
      h': Headers, sizes': Sizes)
    requires TailOnFree(h, t, segs, sizes, b, n, whole) && sizes1 == sizes - {n}
    requires Released(t, segs, b, h', segs) && Whole(h', segs, sizes') && sizes' == PiecesOf(sizes1, b, whole)
    ensures Tailed(t, segs, sizes, b, h', segs, sizes')
  {
    BehindRest(h, t, segs, sizes, b, n, whole);
  }

  // ----- the headers behind it

  /** In front of a block in flight, the header that PreviousSize leads to is the block that ends there. */
  lemma BlockBefore(h: Headers, segs: Segments, sizes: Sizes, a: int, p: int)
    requires Loose(h, segs, sizes, a) && p in sizes && p + sizes[p] == a
    ensures p == a - h[a].prev && p != a && p in h && !h[p].busy && h[p].size == sizes[p]
  {
    assert p in FreeOf(h) && FreeOf(h)[p] == h[p].size;
    Adjacent(h, AreasOf(segs), p, a);
    NotAtEnd(h, AreasOf(segs), p, a);
  }

  /** Where another block follows, and no segment begins, a block is not the last of its run. */
  lemma NotAtEnd(h: Headers, areas: Areas, p: int, a: int)
    requires Layout(h, areas) && p in h && p + h[p].size == a && a in h && NotBase(areas, a)
    ensures !h[p].last
  {
    assert Fits(h, areas, p) && Fits(h, areas, a);
    Adjacent(h, areas, p, a);
    NotGone(h, areas, h[p].seg, a);
    assert AreaOk(h, areas, h[a].seg);
  }

  /** A free block is listed right behind a block in flight exactly when the headers show one there. */
  lemma BlockBehind(h: Headers, segs: Segments, sizes: Sizes, a: int)
    requires Layout(h, AreasOf(segs)) && SegmentsOk(h, segs) && a in h && sizes == FreeOf(h) - {a}
    ensures
      var n := a + h[a].size;
      n in sizes <==> !h[a].last && n in h && !h[n].busy
  {
    var n := a + h[a].size;
    assert Fits(h, AreasOf(segs), a);
    if n in sizes {
      forall i | i in AreasOf(segs) ensures n != AreasOf(segs)[i].base {
        assert AreaOk(h, AreasOf(segs), i);
      }
      NotAtEnd(h, AreasOf(segs), a, n);
    }
  }

  /** What coalescing does to the listed blocks, step by step. */
  lemma CoalescedList(sizes: Sizes, a: int, size: int, b: int, mid: Sizes, whole: int, after: Sizes)
    requires forall x, y :: x in sizes && y in sizes && x < y ==> x + sizes[x] <= y
    requires forall x :: x in sizes ==> sizes[x] > 0 && (x + sizes[x] <= a || a + size <= x)
    requires b != a ==> b in sizes && b + sizes[b] == a
    requires mid == (if b == a then sizes else sizes - {b}) && size > 0
    requires var n := a + size;
             if b + whole == n then after == mid else n in sizes && after == mid - {n} && b + whole == n + sizes[n]
    ensures after == Outside(sizes, b, b + whole)
  {
  }

  lemma CoalescedOutside(h: Headers, segs: Segments, sizes: Sizes, a: int, b: int, mid: Sizes, whole: int, after: Sizes)
    requires Loose(h, segs, sizes, a)
    requires b != a ==> b in sizes && b + sizes[b] == a
    requires mid == if b == a then sizes else sizes - {b}
    requires var n := a + h[a].size;
             if b + whole == n then after == mid else n in mid && after == mid - {n} && b + whole == n + mid[n]
    ensures after == Outside(sizes, b, b + whole)
  {
    assert Fits(h, AreasOf(segs), a);
    forall x | x in sizes ensures x in h && sizes[x] == h[x].size > 0 && Beside(h, x, a) && Beside(h, a, x) {
      assert x in FreeOf(h) && Fits(h, AreasOf(segs), x);
    }
    forall x, y | x in sizes && y in sizes ensures x < y ==> x + sizes[x] <= y {
      assert Beside(h, x, y);
    }
    CoalescedList(sizes, a, h[a].size, b, mid, whole, after);
  }

  /** No free block starts inside another block. */
  lemma NoneInside(h: Headers, segs: Segments, sizes: Sizes, a: int)
    requires Loose(h, segs, sizes, a)
    ensures sizes == Outside(sizes, a, a + h[a].size)
  {
    CoalescedOutside(h, segs, sizes, a, a, sizes, h[a].size, sizes);
  }
}
