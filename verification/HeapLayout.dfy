/** The boundary tags of a heap (rtl/heap.c). */
module HeapLayout {

  // Block headers by address, in units of one heap entry, inside segments whose pages may be uncommitted. A page
  // is 512 units (4096 bytes of 8-byte entries). The transformations here are the ones that every operation is
  // made of.

  /** _HEAP_ENTRY: the fields that describe the block; last is HEAP_ENTRY_LAST_ENTRY. */
  datatype Entry = Entry(size: int, prev: int, busy: bool, last: bool, seg: int)

  /** The headers of all blocks. An address that is not a key holds no header. */
  type Headers = map<int, Entry>

  /** A segment: its first address, LastValidEntry, and the starts of its uncommitted pages. */
  datatype Area = Area(base: int, end: int, gone: set<int>)

  type Areas = map<int, Area>

  /** Nothing committed follows. */
  ghost predicate Edge(g: Area, x: int) {
    x == g.end || x in g.gone
  }

  /** Nothing committed precedes. */
  ghost predicate RunStart(g: Area, x: int) {
    x == g.base || x - 512 in g.gone
  }

  ghost predicate Clear(g: Area, a: int, size: int) {
    forall p :: p in g.gone ==> p + 512 <= a || a + size <= p
  }

  ghost predicate NextAgrees(h: Headers, a: int)
    requires a in h
  {
    var n := a + h[a].size;
    n in h && h[n].prev == h[a].size && h[n].seg == h[a].seg
  }

  ghost predicate PrevAgrees(h: Headers, a: int)
    requires a in h
  {
    var b := a - h[a].prev;
    b in h && h[b].size == h[a].prev && !h[b].last && h[b].seg == h[a].seg
  }

  /** One block: inside the committed part of its segment, and in agreement with its neighbours. */
  ghost predicate Fits(h: Headers, areas: Areas, a: int)
    requires a in h
  {
    var e := h[a];
    && e.seg in areas && e.size > 0 && e.prev >= 0
    && areas[e.seg].base <= a && a + e.size <= areas[e.seg].end && Clear(areas[e.seg], a, e.size)
    && (if e.last then Edge(areas[e.seg], a + e.size) else NextAgrees(h, a))
    && (if e.prev == 0 then RunStart(areas[e.seg], a) else PrevAgrees(h, a))
  }

  ghost predicate NoOverlap(h: Headers) {
    forall a, b {:trigger Beside(h, a, b)} :: a in h && b in h ==> Beside(h, a, b)
  }

  ghost predicate Beside(h: Headers, a: int, b: int)
    requires a in h && b in h
  {
    a < b ==> a + h[a].size <= b
  }

  /** One segment: whole pages, a busy header block at its base, and a block at the start of
      every committed run. */
  ghost predicate AreaOk(h: Headers, areas: Areas, i: int)
    requires i in areas
  {
    var g := areas[i];
    && g.base % 512 == 0 && g.end % 512 == 0
    && g.base in h && h[g.base].seg == i && h[g.base].busy && h[g.base].size < 512
    && (forall p :: p in g.gone ==> p % 512 == 0 && g.base < p && p + 512 <= g.end)
    && (forall p {:trigger Resumes(h, g, i, p)} :: p in g.gone ==> Resumes(h, g, i, p))
  }

  /** After an uncommitted page comes another one, the end of the segment, or a block. */
  ghost predicate Resumes(h: Headers, g: Area, i: int, p: int) {
    Edge(g, p + 512) || (p + 512 in h && h[p + 512].seg == i)
  }

  ghost predicate Apart(areas: Areas) {
    forall i, j :: i in areas && j in areas && i != j ==>
      areas[i].end <= areas[j].base || areas[j].end <= areas[i].base
  }

  ghost predicate Layout(h: Headers, areas: Areas) {
    && (forall a {:trigger Fits(h, areas, a)} :: a in h ==> Fits(h, areas, a))
    && NoOverlap(h)
    && (forall i {:trigger AreaOk(h, areas, i)} :: i in areas ==> AreaOk(h, areas, i))
    && Apart(areas)
  }

  // ----- the transformations

  /** Set the size and last flag of a block, and tell the block after it. */
  function Sized(h: Headers, a: int, size: int, last: bool): (h': Headers)
    requires a in h && size > 0
  {
    var h1 := h[a := h[a].(size := size, last := last)];
    if !last && a + size in h then h1[a + size := h[a + size].(prev := size)] else h1
  }

  function Marked(h: Headers, a: int, busy: bool): Headers
    requires a in h
  {
    h[a := h[a].(busy := busy)]
  }

  /** The block at a swallows the one after it. */
  function Joined(h: Headers, a: int): Headers
    requires a in h && h[a].size > 0
    requires a + h[a].size in h && h[a + h[a].size].size > 0
  {
    var n := a + h[a].size;
    Sized(h - {n}, a, h[a].size + h[n].size, h[n].last)
  }

  /** The block at a is cut after i units; both parts keep its busy flag. */
  function Cut(h: Headers, a: int, i: int): Headers
    requires a in h && 0 < i < h[a].size
  {
    var e := h[a];
    Sized(h[a := e.(size := i, last := false)][a + i := Entry(e.size, i, e.busy, e.last, e.seg)], a + i, e.size - i,
        e.last)
  }

  // ----- each transformation keeps the layout

  ghost predicate CanMark(h: Headers, areas: Areas, a: int, busy: bool) {
    Layout(h, areas) && a in h && (busy || NotBase(areas, a))
  }

  ghost predicate NotBase(areas: Areas, a: int) {
    forall i :: i in areas ==> a != areas[i].base
  }

  lemma MarkedFits(h: Headers, areas: Areas, a: int, busy: bool, x: int)
    requires CanMark(h, areas, a, busy) && x in h
    ensures Fits(Marked(h, a, busy), areas, x)
  {
    assert Fits(h, areas, x);
  }

  lemma MarkedArea(h: Headers, areas: Areas, a: int, busy: bool, i: int)
    requires CanMark(h, areas, a, busy) && i in areas
    ensures AreaOk(Marked(h, a, busy), areas, i)
  {
    assert AreaOk(h, areas, i);
    forall p | p in areas[i].gone ensures Resumes(Marked(h, a, busy), areas[i], i, p) {
      assert Resumes(h, areas[i], i, p);
    }
  }

  lemma MarkedLayout(h: Headers, areas: Areas, a: int, busy: bool)
    requires CanMark(h, areas, a, busy)
    ensures Layout(Marked(h, a, busy), areas)
  {
    forall x | x in h ensures Fits(Marked(h, a, busy), areas, x) { MarkedFits(h, areas, a, busy, x); }
    forall x, y | x in h && y in h ensures Beside(Marked(h, a, busy), x, y) { assert Beside(h, x, y); }
    forall i | i in areas ensures AreaOk(Marked(h, a, busy), areas, i) { MarkedArea(h, areas, a, busy, i); }
  }

  /** Segments do not share addresses. */
  lemma OneArea(areas: Areas, i: int, j: int, x: int)
    requires Apart(areas) && i in areas && j in areas
    requires areas[i].base <= x < areas[i].end && areas[j].base <= x < areas[j].end
    ensures i == j
  {
  }

  lemma NotInside(h: Headers, a: int, x: int)
    requires NoOverlap(h) && a in h && x in h
    ensures !(a < x < a + h[a].size)
  {
    assert Beside(h, a, x);
  }

  lemma SameEnd(h: Headers, a: int, b: int)
    requires NoOverlap(h) && a in h && b in h && h[a].size > 0 && h[b].size > 0 && a + h[a].size == b + h[b].size
    ensures a == b
  {
    NotInside(h, a, b);
    NotInside(h, b, a);
  }

  /** No header stands on an uncommitted page. */
  lemma NotGone(h: Headers, areas: Areas, i: int, x: int)
    requires Layout(h, areas) && i in areas && x in h
    ensures x !in areas[i].gone
  {
    assert Fits(h, areas, x);
    assert AreaOk(h, areas, i);
    if x in areas[i].gone {
      OneArea(areas, i, h[x].seg, x);
    }
  }

  /** Where one block ends and another begins, the headers agree, unless a segment begins there. */
  lemma Adjacent(h: Headers, areas: Areas, x: int, n: int)
    requires Layout(h, areas) && x in h && n in h && x + h[x].size == n
    ensures if h[x].last then h[n].prev == 0 else h[n].prev == h[x].size && h[n].seg == h[x].seg
    ensures h[x].size > 0 && h[n].size > 0
  {
    assert Fits(h, areas, x) && Fits(h, areas, n);
    if h[x].last {
      var i, j := h[x].seg, h[n].seg;
      NotGone(h, areas, i, n);
      if h[n].prev != 0 {
        SameEnd(h, x, n - h[n].prev);
      }
    }
  }

  /** Two blocks in a row, the second of which can be absorbed. */
  ghost predicate CanJoin(h: Headers, areas: Areas, a: int) {
    && Layout(h, areas) && NotBase(areas, a) && a in h && !h[a].last && h[a].size > 0
    && a + h[a].size in h && h[a + h[a].size].size > 0
  }

  lemma JoinedFits(h: Headers, areas: Areas, a: int, x: int)
    requires CanJoin(h, areas, a) && x in Joined(h, a)
    ensures Fits(Joined(h, a), areas, x)
  {
    var h' := Joined(h, a);
    var n := a + h[a].size;
    var f := n + h[n].size;
    assert Fits(h, areas, a) && Fits(h, areas, n);
    assert Fits(h, areas, x);
    if f in h { Adjacent(h, areas, n, f); }
    if x != a && (x != f || h[n].last) {
      assert h'[x] == h[x];
      if x + h[x].size == n { Adjacent(h, areas, x, n); }
      if x + h[x].size == f && f in h { Adjacent(h, areas, x, f); }
    }
  }

  lemma JoinedBeside(h: Headers, areas: Areas, a: int, x: int, y: int)
    requires CanJoin(h, areas, a) && x in Joined(h, a) && y in Joined(h, a)
    ensures Beside(Joined(h, a), x, y)
  {
    var n := a + h[a].size;
    assert Beside(h, x, y);
    assert Beside(h, n, y);
  }

  lemma JoinedArea(h: Headers, areas: Areas, a: int, i: int)
    requires CanJoin(h, areas, a) && i in areas
    ensures AreaOk(Joined(h, a), areas, i)
  {
    var n := a + h[a].size;
    assert AreaOk(h, areas, i);
    assert Fits(h, areas, a) && Fits(h, areas, n);
    forall p | p in areas[i].gone ensures Resumes(Joined(h, a), areas[i], i, p) {
      assert Resumes(h, areas[i], i, p);
    }
  }

  lemma JoinedLayout(h: Headers, areas: Areas, a: int)
    requires CanJoin(h, areas, a)
    ensures Layout(Joined(h, a), areas)
  {
    var h' := Joined(h, a);
    forall x | x in h' ensures Fits(h', areas, x) { JoinedFits(h, areas, a, x); }
    forall x, y | x in h' && y in h' ensures Beside(h', x, y) { JoinedBeside(h, areas, a, x, y); }
    forall i | i in areas ensures AreaOk(h', areas, i) { JoinedArea(h, areas, a, i); }
  }

  /** A block that is not a segment header, cut in two. */
  ghost predicate CanCut(h: Headers, areas: Areas, a: int, i: int) {
    Layout(h, areas) && NotBase(areas, a) && a in h && 0 < i < h[a].size
  }

  lemma CutFresh(h: Headers, areas: Areas, a: int, i: int)
    requires CanCut(h, areas, a, i)
    ensures a + i !in h
    ensures !h[a].last ==> a + h[a].size in h && h[a + h[a].size].prev == h[a].size && h[a + h[a].size].seg == h[a].seg
    ensures h[a].last && a + h[a].size in h ==> h[a + h[a].size].prev == 0
    ensures h[a].seg in areas && Fits(h, areas, a)
  {
    assert Fits(h, areas, a);
    if a + h[a].size in h { Adjacent(h, areas, a, a + h[a].size); }
    if a + i in h {
      NotInside(h, a, a + i);
    }
  }

  lemma CutFits(h: Headers, areas: Areas, a: int, i: int, x: int)
    requires CanCut(h, areas, a, i) && x in Cut(h, a, i)
    ensures Fits(Cut(h, a, i), areas, x)
  {
    var h' := Cut(h, a, i);
    var f := a + h[a].size;
    CutFresh(h, areas, a, i);
    if x != a && x != a + i {
      assert Fits(h, areas, x);
      if x != f || h[a].last {
        assert h'[x] == h[x];
        if x + h[x].size == f && f in h { Adjacent(h, areas, x, f); }
        if x + h[x].size == f { SameEnd(h, x, a); }
        assert h[x].prev != 0 && x - h[x].prev == a ==> x == f;
      }
    }
  }

  lemma CutBeside(h: Headers, areas: Areas, a: int, i: int, x: int, y: int)
    requires CanCut(h, areas, a, i) && x in Cut(h, a, i) && y in Cut(h, a, i)
    ensures Beside(Cut(h, a, i), x, y)
  {
    CutFresh(h, areas, a, i);
    var x0 := if x == a + i then a else x;
    var y0 := if y == a + i then a else y;
    assert Fits(h, areas, x0) && Fits(h, areas, y0);
    assert Beside(h, x0, y0);
    NotInside(h, a, x0);
  }

  lemma CutArea(h: Headers, areas: Areas, a: int, i: int, j: int)
    requires CanCut(h, areas, a, i) && j in areas
    ensures AreaOk(Cut(h, a, i), areas, j)
  {
    CutFresh(h, areas, a, i);
    assert AreaOk(h, areas, j);
    forall p | p in areas[j].gone ensures Resumes(Cut(h, a, i), areas[j], j, p) {
      assert Resumes(h, areas[j], j, p);
    }
  }

  lemma CutLayout(h: Headers, areas: Areas, a: int, i: int)
    requires CanCut(h, areas, a, i)
    ensures Layout(Cut(h, a, i), areas)
  {
    var h' := Cut(h, a, i);
    forall x | x in h' ensures Fits(h', areas, x) { CutFits(h, areas, a, i, x); }
    forall x, y | x in h' && y in h' ensures Beside(h', x, y) { CutBeside(h, areas, a, i, x, y); }
    forall j | j in areas ensures AreaOk(h', areas, j) { CutArea(h, areas, a, i, j); }
  }

  // ----- decommitting and committing whole pages

  /** The pages of an address range. */
  function Pages(from: int, size: int): set<int> {
    set p | from <= p < from + size && p % 512 == 0
  }

  function Without(areas: Areas, i: int, from: int, size: int): Areas
    requires i in areas
  {
    areas[i := areas[i].(gone := areas[i].gone + Pages(from, size))]
  }

  function With(areas: Areas, i: int, from: int, size: int): Areas
    requires i in areas
  {
    areas[i := areas[i].(gone := areas[i].gone - Pages(from, size))]
  }

  /** The whole-page block at m is given back to the system. */
  function Dropped(h: Headers, m: int): Headers
    requires m in h
  {
    var e := h[m];
    var h1 := if e.prev != 0 && m - e.prev in h then h[m - e.prev := h[m - e.prev].(last := true)] else h;
    var h2 := if !e.last && m + e.size in h then h1[m + e.size := h1[m + e.size].(prev := 0)] else h1;
    h2 - {m}
  }

  ghost predicate CanDrop(h: Headers, areas: Areas, m: int) {
    && Layout(h, areas) && NotBase(areas, m) && m in h && h[m].seg in areas
    && m % 512 == 0 && h[m].size % 512 == 0
  }

  lemma PageRange(from: int, size: int, p: int)
    requires from % 512 == 0 && size % 512 == 0
    ensures p in Pages(from, size) <==> p % 512 == 0 && from <= p && p + 512 <= from + size
  {
  }

  lemma DroppedClear(h: Headers, areas: Areas, m: int, x: int)
    requires CanDrop(h, areas, m) && x in h && x != m && h[x].seg in areas
    ensures Clear(Without(areas, h[m].seg, m, h[m].size)[h[x].seg], x, h[x].size)
  {
    assert Fits(h, areas, x) && Fits(h, areas, m);
    NotInside(h, x, m);
    NotInside(h, m, x);
    var i := h[m].seg;
    if h[x].seg == i {
      var gone := Pages(m, h[m].size);
      forall p | p in gone ensures p + 512 <= x || x + h[x].size <= p {
        PageRange(m, h[m].size, p);
      }
    }
  }

  lemma DroppedFits(h: Headers, areas: Areas, m: int, x: int)
    requires CanDrop(h, areas, m) && x in h && x != m
    ensures Fits(Dropped(h, m), Without(areas, h[m].seg, m, h[m].size), x)
  {
    var i, s := h[m].seg, h[m].size;
    var h', areas' := Dropped(h, m), Without(areas, i, m, s);
    assert Fits(h, areas, x) && Fits(h, areas, m);
    DroppedClear(h, areas, m, x);
    PageRange(m, s, m);
    PageRange(m, s, m + s - 512);
    if x + h[x].size == m { Adjacent(h, areas, x, m); }
    if m + s == x { Adjacent(h, areas, m, x); }
    if x + h[x].size == m + s { SameEnd(h, x, m); }
  }

  lemma DroppedArea(h: Headers, areas: Areas, m: int, j: int)
    requires CanDrop(h, areas, m) && j in areas
    ensures AreaOk(Dropped(h, m), Without(areas, h[m].seg, m, h[m].size), j)
  {
    var i, s := h[m].seg, h[m].size;
    var h', areas' := Dropped(h, m), Without(areas, i, m, s);
    assert AreaOk(h, areas, j);
    assert Fits(h, areas, m);
    forall p | p in areas'[j].gone ensures Resumes(h', areas'[j], j, p) {
      if p in areas[j].gone {
        assert Resumes(h, areas[j], j, p);
        PageRange(m, s, p + 512);
      } else {
        PageRange(m, s, p);
        PageRange(m, s, p + 512);
      }
    }
    forall p | p in areas'[j].gone ensures p % 512 == 0 && areas'[j].base < p && p + 512 <= areas'[j].end {
      if p !in areas[j].gone { PageRange(m, s, p); }
    }
  }

  lemma SameBounds(areas: Areas, areas': Areas)
    requires Apart(areas) && areas'.Keys == areas.Keys
    requires forall i :: i in areas ==> areas'[i].base == areas[i].base && areas'[i].end == areas[i].end
    ensures Apart(areas')
  {
  }

  lemma DroppedOverlap(h: Headers, m: int)
    requires NoOverlap(h) && m in h
    ensures NoOverlap(Dropped(h, m))
  {
    var h' := Dropped(h, m);
    forall x, y | x in h' && y in h' ensures Beside(h', x, y) { assert Beside(h, x, y); }
  }

  lemma DroppedLayout(h: Headers, areas: Areas, m: int)
    requires CanDrop(h, areas, m)
    ensures Layout(Dropped(h, m), Without(areas, h[m].seg, m, h[m].size))
  {
    var h', areas' := Dropped(h, m), Without(areas, h[m].seg, m, h[m].size);
    assert h'.Keys == h.Keys - {m};
    DroppedOverlap(h, m);
    SameBounds(areas, areas');
    forall x | x in h' ensures Fits(h', areas', x) { DroppedFits(h, areas, m, x); }
    forall j | j in areas' ensures AreaOk(h', areas', j) { DroppedArea(h, areas, m, j); }
  }

  /** Committed pages become one free block, joined to the run that ends before them. b is the
      last block of that run. */
  function Raised(h: Headers, areas: Areas, i: int, p: int, size: int, b: int): (h': Headers)
    requires i in areas && b in h && size > 0
  {
    var last := p + size == areas[i].end || p + size in areas[i].gone;
    var h1 := h[b := h[b].(last := false)][p := Entry(size, h[b].size, false, last, i)];
    if !last && p + size in h then h1[p + size := h1[p + size].(prev := size)] else h1
  }

  /** The pages start an uncommitted range right after the block b. */
  ghost predicate CanRaise(h: Headers, areas: Areas, i: int, p: int, size: int, b: int) {
    && Layout(h, areas) && i in areas && b in h && h[b].seg == i && h[b].last && b + h[b].size == p
    && p % 512 == 0 && size % 512 == 0 && size > 0 && Pages(p, size) <= areas[i].gone
  }

  lemma RaisedView(h: Headers, areas: Areas, i: int, p: int, size: int, b: int)
    requires CanRaise(h, areas, i, p, size, b)
    ensures p in areas[i].gone && p + size - 512 in areas[i].gone && p !in h
    ensures areas[i].base < p && p + size <= areas[i].end
    ensures p + size != areas[i].end && p + size !in areas[i].gone ==> p + size in h && h[p + size].seg == i
    ensures h[b].size > 0 && b < p
  {
    PageRange(p, size, p);
    PageRange(p, size, p + size - 512);
    assert AreaOk(h, areas, i);
    assert Resumes(h, areas[i], i, p + size - 512);
    assert Fits(h, areas, b);
    if p in h {
      NotGone(h, areas, i, p);
    }
  }

  lemma RaisedApart(h: Headers, areas: Areas, i: int, p: int, size: int, b: int, x: int)
    requires CanRaise(h, areas, i, p, size, b) && x in h
    ensures x + h[x].size <= p || p + size <= x
    ensures h[x].seg in areas && h[x].size > 0
  {
    assert Fits(h, areas, x);
    RaisedView(h, areas, i, p, size, b);
    if h[x].seg == i {
      PageRange(p, size, if x < p then p else x - x % 512);
    }
  }

  lemma RaisedFits(h: Headers, areas: Areas, i: int, p: int, size: int, b: int, x: int)
    requires CanRaise(h, areas, i, p, size, b) && x in Raised(h, areas, i, p, size, b)
    ensures Fits(Raised(h, areas, i, p, size, b), With(areas, i, p, size), x)
  {
    var h', areas' := Raised(h, areas, i, p, size, b), With(areas, i, p, size);
    RaisedView(h, areas, i, p, size, b);
    PageRange(p, size, p + size);
    if x == p {
      RaisedNew(h, areas, i, p, size, b);
    } else {
      assert Fits(h, areas, x);
      RaisedApart(h, areas, i, p, size, b, x);
      if x + h[x].size == p { SameEnd(h, x, b); }
      PageRange(p, size, x + h[x].size);
      PageRange(p, size, x - 512);
    }
  }

  lemma RaisedNew(h: Headers, areas: Areas, i: int, p: int, size: int, b: int)
    requires CanRaise(h, areas, i, p, size, b)
    ensures Fits(Raised(h, areas, i, p, size, b), With(areas, i, p, size), p)
  {
    RaisedView(h, areas, i, p, size, b);
    PageRange(p, size, p + size);
    assert AreaOk(h, areas, i);
    forall y | y in areas[i].gone - Pages(p, size) ensures y + 512 <= p || p + size <= y {
      PageRange(p, size, y);
    }
  }

  lemma RaisedArea(h: Headers, areas: Areas, i: int, p: int, size: int, b: int, j: int)
    requires CanRaise(h, areas, i, p, size, b) && j in areas
    ensures AreaOk(Raised(h, areas, i, p, size, b), With(areas, i, p, size), j)
  {
    var h', areas' := Raised(h, areas, i, p, size, b), With(areas, i, p, size);
    RaisedView(h, areas, i, p, size, b);
    assert AreaOk(h, areas, j);
    forall y | y in areas'[j].gone ensures Resumes(h', areas'[j], j, y) {
      assert Resumes(h, areas[j], j, y);
      PageRange(p, size, y + 512);
      PageRange(p, size, y);
    }
  }

  lemma RaisedOverlap(h: Headers, areas: Areas, i: int, p: int, size: int, b: int, x: int, y: int)
    requires CanRaise(h, areas, i, p, size, b)
    requires x in Raised(h, areas, i, p, size, b) && y in Raised(h, areas, i, p, size, b)
    ensures Beside(Raised(h, areas, i, p, size, b), x, y)
  {
    RaisedView(h, areas, i, p, size, b);
    if x in h { RaisedApart(h, areas, i, p, size, b, x); }
    if y in h { RaisedApart(h, areas, i, p, size, b, y); }
    if x in h && y in h { assert Beside(h, x, y); }
  }

  lemma RaisedLayout(h: Headers, areas: Areas, i: int, p: int, size: int, b: int)
    requires CanRaise(h, areas, i, p, size, b)
    ensures Layout(Raised(h, areas, i, p, size, b), With(areas, i, p, size))
  {
    var h', areas' := Raised(h, areas, i, p, size, b), With(areas, i, p, size);
    SameBounds(areas, areas');
    forall x | x in h' ensures Fits(h', areas', x) { RaisedFits(h, areas, i, p, size, b, x); }
    forall x, y | x in h' && y in h' ensures Beside(h', x, y) { RaisedOverlap(h, areas, i, p, size, b, x, y); }
    forall j | j in areas' ensures AreaOk(h', areas', j) { RaisedArea(h, areas, i, p, size, b, j); }
  }

  /** Committing a decommitted block back restores the headers and the segment. */
  lemma DroppedRaised(h: Headers, areas: Areas, m: int)
    requires CanDrop(h, areas, m) && h[m].prev != 0 && !h[m].busy
    ensures
      var b := m - h[m].prev;
      var h1, areas1 := Dropped(h, m), Without(areas, h[m].seg, m, h[m].size);
      && CanRaise(h1, areas1, h[m].seg, m, h[m].size, b)
      && Raised(h1, areas1, h[m].seg, m, h[m].size, b) == h
      && With(areas1, h[m].seg, m, h[m].size) == areas
  {
    var b, s, i := m - h[m].prev, h[m].size, h[m].seg;
    var h1, areas1 := Dropped(h, m), Without(areas, i, m, s);
    assert Fits(h, areas, m);
    DroppedLayout(h, areas, m);
    var gone := areas[i].gone;
    forall p | p in Pages(m, s) ensures p !in gone { PageRange(m, s, p); }
    assert gone + Pages(m, s) - Pages(m, s) == gone;
    assert With(areas1, i, m, s) == areas;
    PageRange(m, s, m + s);
    if !h[m].last { NotGone(h, areas, i, m + s); assert Fits(h, areas, m + s); }
    assert Raised(h1, areas1, i, m, s, b) == h;
  }

  // ----- a new segment

  /** A segment with its header block and one free block over the committed rest. */
  function Founded(h: Headers, i: int, base: int, entrySize: int, commit: int): Headers {
    h[base := Entry(entrySize, 0, true, false, i)][base + entrySize := Entry(commit - entrySize, entrySize, false,
        true, i)]
  }

  /** The segment's memory is whole pages away from all others. */
  ghost predicate CanFound(h: Headers, areas: Areas, i: int, g: Area, entrySize: int, commit: int) {
    && Layout(h, areas) && i !in areas && 0 < entrySize < 512 <= commit && commit % 512 == 0
    && g.base % 512 == 0 && g.end % 512 == 0 && g.base + commit <= g.end
    && g.gone == Pages(g.base + commit, g.end - g.base - commit)
    && (forall j :: j in areas ==> g.end <= areas[j].base || areas[j].end <= g.base)
  }

  lemma FoundedApart(h: Headers, areas: Areas, i: int, g: Area, entrySize: int, commit: int, x: int)
    requires CanFound(h, areas, i, g, entrySize, commit) && x in h
    ensures x + h[x].size <= g.base || g.end <= x
    ensures h[x].seg in areas && h[x].seg != i && h[x].size > 0
  {
    assert Fits(h, areas, x);
  }

  lemma FoundedFits(h: Headers, areas: Areas, i: int, g: Area, entrySize: int, commit: int, x: int)
    requires CanFound(h, areas, i, g, entrySize, commit) && x in Founded(h, i, g.base, entrySize, commit)
    ensures Fits(Founded(h, i, g.base, entrySize, commit), areas[i := g], x)
  {
    if x in h {
      FoundedApart(h, areas, i, g, entrySize, commit, x);
      assert Fits(h, areas, x);
      if !h[x].last { FoundedApart(h, areas, i, g, entrySize, commit, x + h[x].size); }
      if h[x].prev != 0 { FoundedApart(h, areas, i, g, entrySize, commit, x - h[x].prev); }
    } else {
      PageRange(g.base + commit, g.end - g.base - commit, g.base + commit);
    }
  }

  lemma FoundedBeside(h: Headers, areas: Areas, i: int, g: Area, entrySize: int, commit: int, x: int, y: int)
    requires CanFound(h, areas, i, g, entrySize, commit)
    requires x in Founded(h, i, g.base, entrySize, commit) && y in Founded(h, i, g.base, entrySize, commit)
    ensures Beside(Founded(h, i, g.base, entrySize, commit), x, y)
  {
    if x in h { FoundedApart(h, areas, i, g, entrySize, commit, x); }
    if y in h { FoundedApart(h, areas, i, g, entrySize, commit, y); }
    if x in h && y in h { assert Beside(h, x, y); }
  }

  lemma FoundedAreas(areas: Areas, i: int, g: Area)
    requires Apart(areas) && i !in areas
    requires forall j :: j in areas ==> g.end <= areas[j].base || areas[j].end <= g.base
    ensures Apart(areas[i := g])
  {
  }

  lemma FoundedBlocks(h: Headers, areas: Areas, i: int, g: Area, entrySize: int, commit: int)
    requires CanFound(h, areas, i, g, entrySize, commit)
    ensures
      var h', areas' := Founded(h, i, g.base, entrySize, commit), areas[i := g];
      (forall x {:trigger Fits(h', areas', x)} :: x in h' ==> Fits(h', areas', x)) && NoOverlap(h')
  {
    var h', areas' := Founded(h, i, g.base, entrySize, commit), areas[i := g];
    forall x | x in h' ensures Fits(h', areas', x) { FoundedFits(h, areas, i, g, entrySize, commit, x); }
    forall x, y | x in h' && y in h'
        ensures Beside(h', x, y) { FoundedBeside(h, areas, i, g, entrySize, commit, x, y); }
  }

  lemma FoundedLayout(h: Headers, areas: Areas, i: int, g: Area, entrySize: int, commit: int)
    requires CanFound(h, areas, i, g, entrySize, commit)
    ensures Layout(Founded(h, i, g.base, entrySize, commit), areas[i := g])
  {
    var h', areas' := Founded(h, i, g.base, entrySize, commit), areas[i := g];
    FoundedBlocks(h, areas, i, g, entrySize, commit);
    FoundedAreas(areas, i, g);
    forall j | j in areas' ensures AreaOk(h', areas', j) { FoundedArea(h, areas, i, g, entrySize, commit, j); }
  }

  lemma FoundedArea(h: Headers, areas: Areas, i: int, g: Area, entrySize: int, commit: int, j: int)
    requires CanFound(h, areas, i, g, entrySize, commit) && j in areas[i := g]
    ensures AreaOk(Founded(h, i, g.base, entrySize, commit), areas[i := g], j)
  {
    var h', areas' := Founded(h, i, g.base, entrySize, commit), areas[i := g];
    if j == i {
      forall p | p in g.gone ensures Resumes(h', g, i, p) && p % 512 == 0 && g.base < p && p + 512 <= g.end {
        PageRange(g.base + commit, g.end - g.base - commit, p);
        PageRange(g.base + commit, g.end - g.base - commit, p + 512);
      }
    } else {
      assert AreaOk(h, areas, j);
      FoundedApart(h, areas, i, g, entrySize, commit, areas[j].base);
      forall p | p in areas[j].gone ensures Resumes(h', areas[j], j, p) {
        assert Resumes(h, areas[j], j, p);
        if p + 512 in h { FoundedApart(h, areas, i, g, entrySize, commit, p + 512); }
      }
    }
  }

  // ----- the blocks tile the committed runs

  ghost predicate Covers(h: Headers, i: int, a: int, x: int) {
    a in h && h[a].seg == i && a <= x < a + h[a].size
  }

  /** Every committed address lies in a block of its segment. */
  lemma {:induction false} Tiled(h: Headers, areas: Areas, i: int, x: int) returns (a: int)
    requires Layout(h, areas) && i in areas && areas[i].base <= x < areas[i].end && x - x % 512 !in areas[i].gone
    ensures Covers(h, i, a, x)
    decreases x - areas[i].base
  {
    var g := areas[i];
    assert AreaOk(h, areas, i);
    if x == g.base {
      assert Fits(h, areas, x);
      return x;
    }
    if x % 512 == 0 && x - 512 in g.gone {
      assert Resumes(h, g, i, x - 512);
      assert Fits(h, areas, x);
      return x;
    }
    a := Tiled(h, areas, i, x - 1);
    assert Fits(h, areas, a);
    if a + h[a].size == x {
      a := x;
      assert Fits(h, areas, a);
    }
  }

  /** And in one block only. */
  lemma TiledOnce(h: Headers, areas: Areas, i: int, j: int, a: int, b: int, x: int)
    requires Layout(h, areas) && Covers(h, i, a, x) && Covers(h, j, b, x)
    ensures a == b && i == j
  {
    NotInside(h, a, b);
    NotInside(h, b, a);
  }
}
