/** Damage (rtl/heap.c:3281-3617). */
module HeapCorruption {
  import opened HeapLayout
  import opened HeapFreeLists
  import opened HeapSegments
  import opened HeapValidate

  // Which damage to a heap that passes its own check makes it fail.

  /** In a segment that is accepted the sizes and the marks of last entries determine which entries are visited, and
      what these say of their neighbour and of their segment. */
  lemma NothingElse(h: Headers, g: Headers, s: Segment, i: int, v: Visits, w: Visits, a: int)
    requires SameLinks(h, g) && Accepts(h, s, i, v) && Accepts(g, s, i, w) && a in v
    ensures v == w && a in h && g[a].prev == h[a].prev && g[a].seg == h[a].seg == i
  {
    LinkedWalks(h, g, s, i, i, v, w);
    assert Passes(h, s, i, v, a) && EndsWith(h, s, v, a) && Preceded(h, s, v, a) && Passes(g, s, i, v, a);
    if a == RunFrom(s, v[a]) {
      assert StartsRun(h, s, v, v[a]) && StartsRun(g, s, v, v[a]);
    } else {
      var b :| b in v && b in h && v[b] == v[a] && !h[b].last && h[b].size > 0 && b + h[b].size == a;
      assert Passes(h, s, i, v, b) && Passes(g, s, i, v, b);
    }
  }

  /** A wrong PreviousSize or a wrong segment in a visited entry is found. */
  lemma EntryFound(h: Headers, s: Segment, i: int, v: Visits, a: int, prev: int, seg: int)
    requires Accepts(h, s, i, v) && a in v && a in h && (prev != h[a].prev || seg != h[a].seg)
    ensures !Accepted(h[a := h[a].(prev := prev, seg := seg)], s, i)
  {
    var g := h[a := h[a].(prev := prev, seg := seg)];
    if w :| Accepts(g, s, i, w) { NothingElse(h, g, s, i, v, w, a); }
  }

  /** A wrong number of uncommitted pages is found. */
  lemma PagesFound(h: Headers, s: Segment, i: int, pages: int)
    requires Accepted(h, s, i) && pages != s.NumberOfUnCommittedPages
    ensures !Accepted(h, s.(NumberOfUnCommittedPages := pages), i)
  {
  }

  /** A wrong sum of the free sizes is found. */
  lemma TotalFound(h: Headers, lists: seq<seq<int>>, inUse: seq<bool>, total: int, segs: Segments, total': int)
    requires HeapAccepted(h, lists, inUse, total, segs) && total' != total
    ensures !HeapAccepted(h, lists, inUse, total', segs)
  {
    var vs: map<int, Visits> :| AllAccept(h, segs, vs, 64) && FreeTotal(h, segs, vs, 64) == total;
    forall ws: map<int, Visits> | AllAccept(h, segs, ws, 64) ensures FreeTotal(h, segs, ws, 64) == total {
      SameWalks(h, segs, vs, ws, 64);
    }
  }

  ghost function Flipped(h: Headers, a: int): Headers
    requires a in h
  {
    h[a := h[a].(busy := !h[a].busy)]
  }

  lemma FreeInFlipped(h: Headers, v: Visits, a: int)
    requires a in h
    ensures |FreeIn(Flipped(h, a), v)| - |FreeIn(h, v)| == if a !in v then 0 else if h[a].busy then 1 else -1
  {
    var x, y := FreeIn(h, v), FreeIn(Flipped(h, a), v);
    if a in v {
      assert x - {a} == y - {a};
      if h[a].busy { Smaller(y, a); assert x - {a} == x; } else { Smaller(x, a); assert y - {a} == y; }
    } else {
      assert x == y;
    }
  }

  /** How many of the walks below n visit the entry. */
  ghost function VisitsTo(segs: Segments, vs: map<int, Visits>, a: int, n: nat): int {
    if n == 0 then 0 else VisitsTo(segs, vs, a, n - 1) + if n - 1 in segs && n - 1 in vs && a in vs[n - 1] then 1 else 0
  }

  lemma {:induction false} CountFlipped(h: Headers, segs: Segments, vs: map<int, Visits>, a: int, n: nat)
    requires a in h
    ensures FreeCount(Flipped(h, a), segs, vs, n) - FreeCount(h, segs, vs, n)
         == if h[a].busy then VisitsTo(segs, vs, a, n) else -VisitsTo(segs, vs, a, n)
    decreases n
  {
    if n > 0 {
      CountFlipped(h, segs, vs, a, n - 1);
      if n - 1 in vs { FreeInFlipped(h, vs[n - 1], a); }
    }
  }

  lemma {:induction false} VisitedOnce(segs: Segments, vs: map<int, Visits>, a: int, i: nat, n: nat)
    requires i in segs && i in vs && a in vs[i]
    ensures VisitsTo(segs, vs, a, n) >= if i < n then 1 else 0
    decreases n
  {
    if n > 0 { VisitedOnce(segs, vs, a, i, n - 1); }
  }

  /** A wrong busy flag in a visited entry is found. */
  lemma FlagFound(h: Headers, lists: seq<seq<int>>, inUse: seq<bool>, total: int, segs: Segments, vs: map<int, Visits>,
      i: nat, a: int, total': int)
    requires HeapAccepted(h, lists, inUse, total, segs) && AllAccept(h, segs, vs, 64)
    requires i < 64 && i in segs && a in vs[i] && a in h
    ensures !HeapAccepted(Flipped(h, a), lists, inUse, total', segs)
  {
    var us: map<int, Visits> :| AllAccept(h, segs, us, 64) && FreeCount(h, segs, us, 64) == Listed(lists, 128);
    SameWalks(h, segs, vs, us, 64);
    VisitedOnce(segs, vs, a, i, 64);
    CountFlipped(h, segs, vs, a, 64);
    forall ws: map<int, Visits> | AllAccept(Flipped(h, a), segs, ws, 64)
      ensures FreeCount(Flipped(h, a), segs, ws, 64) != Listed(lists, 128)
    {
      FlippedWalks(h, a, segs, vs, ws);
    }
  }

  lemma FlippedWalks(h: Headers, a: int, segs: Segments, vs: map<int, Visits>, ws: map<int, Visits>)
    requires a in h && AllAccept(h, segs, vs, 64) && AllAccept(Flipped(h, a), segs, ws, 64)
    ensures FreeCount(Flipped(h, a), segs, ws, 64) == FreeCount(Flipped(h, a), segs, vs, 64)
  {
    forall i | 0 <= i < 64 && i in segs ensures i in vs && i in ws && vs[i] == ws[i] {
      LinkedWalks(h, Flipped(h, a), segs[i], i, i, vs[i], ws[i]);
    }
    SameFree(Flipped(h, a), segs, vs, ws, 64);
  }
}
