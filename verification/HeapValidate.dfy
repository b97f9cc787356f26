/** The heap's own check (rtl/heap.c). */
module HeapValidate {
  import opened HeapLayout
  import opened HeapFreeLists
  import opened HeapBlocks
  import opened HeapUcr
  import opened HeapSegments
  import opened HeapCommit

  // It accepts every heap that satisfies the invariant, and what it accepts are blocks that tile the committed
  // runs.

  /** The free blocks of the segments before the i-th, and those of the i-th that start before x. */
  ghost function FreeBelow(h: Headers, i: int, x: int): Sizes {
    map a | a in h && Counted(h, a, i, x) :: if a in h && Counted(h, a, i, x) then h[a].size else 0
  }

  ghost predicate Counted(h: Headers, a: int, i: int, x: int)
    requires a in h
  {
    !h[a].busy && (h[a].seg < i || (h[a].seg == i && a < x))
  }

  /** The entries that a walk visits, and in which run it meets each of them. */
  type Visits = map<int, nat>

  ghost predicate Visited(h: Headers, v: Visits, x: int, k: nat, prev: int) {
    x in v && x in h && v[x] == k && h[x].prev == prev
  }

  /** An entry that passes the walk: its neighbour begins where it ends and agrees on its size, or it is marked
      last where its run ends. The very last block of a segment passes without the mark. */
  ghost predicate Passes(h: Headers, s: Segment, i: int, v: Visits, a: int)
    requires a in h && a in v
  {
    var e, n := h[a], a + h[a].size;
    && e.seg == i && a < s.LastValidEntry && v[a] <= |s.UCRSegmentList|
    && (if e.last then n == RunTo(s, v[a]) else n >= s.LastValidEntry || Visited(h, v, n, v[a], e.size))
  }

  /** The walk ends with the last run: no earlier one goes to the end of the segment, and behind a range there is
      another run. */
  ghost predicate EndsWith(h: Headers, s: Segment, v: Visits, a: int)
    requires a in h && a in v
  {
    var last, k := s.NumberOfUnCommittedRanges, v[a];
    && k <= last && (h[a].last && k < |s.UCRSegmentList| ==> k < last)
    && (!h[a].last && a + h[a].size >= s.LastValidEntry ==> k == last)
  }

  /** An entry is visited because its run starts there, or because the one before it is. */
  ghost predicate Preceded(h: Headers, s: Segment, v: Visits, a: int)
    requires a in v
  {
    (v[a] <= |s.UCRSegmentList| && a == RunFrom(s, v[a])) || Behind(h, v, v[a], a)
  }

  ghost predicate Behind(h: Headers, v: Visits, k: nat, x: int) {
    exists b :: b in v && b in h && v[b] == k && !h[b].last && h[b].size > 0 && b + h[b].size == x
  }

  /** Exactly what the walk over a segment accepts, and which entries it visits. */
  ghost predicate Accepts(h: Headers, s: Segment, i: int, v: Visits) {
    && v.Keys <= h.Keys
    && (forall a {:trigger Passes(h, s, i, v, a)} :: a in v ==> Passes(h, s, i, v, a))
    && (forall a {:trigger EndsWith(h, s, v, a)} :: a in v ==> EndsWith(h, s, v, a))
    && (forall a {:trigger Preceded(h, s, v, a)} :: a in v ==> Preceded(h, s, v, a))
    && 0 <= s.NumberOfUnCommittedRanges <= |s.UCRSegmentList|
    && s.NumberOfUnCommittedPages == PagesOf(s.UCRSegmentList[..s.NumberOfUnCommittedRanges])
    && Started(h, s, v, s.NumberOfUnCommittedRanges) && StartsRun(h, s, v, s.NumberOfUnCommittedRanges)
  }

  ghost predicate Accepted(h: Headers, s: Segment, i: int) {
    exists v :: Accepts(h, s, i, v)
  }

  /** The k-th run starts with a visited entry before its end, unless the segment ends before it. */
  ghost predicate StartsRun(h: Headers, s: Segment, v: Visits, k: int)
    requires 0 <= k <= |s.UCRSegmentList|
  {
    RunFrom(s, k) >= s.LastValidEntry
    || (Visited(h, v, RunFrom(s, k), k, 0) && (k < |s.UCRSegmentList| ==> RunFrom(s, k) < s.UCRSegmentList[k].Address))
  }

  /** All runs before the k-th one do start. */
  ghost predicate Started(h: Headers, s: Segment, v: Visits, k: int)
    requires 0 <= k <= |s.UCRSegmentList|
  {
    forall j {:trigger RunFrom(s, j)} :: 0 <= j < k ==> RunFrom(s, j) < s.LastValidEntry && StartsRun(h, s, v, j)
  }

  /** The free blocks among the entries visited. */
  ghost function FreeIn(h: Headers, v: Visits): Sizes {
    map a | a in v && a in h && !h[a].busy :: if a in v && a in h && !h[a].busy then h[a].size else 0
  }

  /** Total size of the first k ranges, in pages, each rounded down. */
  function PagesOf(u: seq<Range>): int {
    if u == [] then 0 else PagesOf(u[..|u| - 1]) + u[|u| - 1].Size / 512
  }

  /** With whole-page ranges this is the number of uncommitted pages. */
  lemma {:induction false} PagesOfUnion(u: seq<Range>)
    requires UcrOk(u)
    ensures PagesOf(u) == |Union(u)|
  {
    if u == [] {
      assert Union(u) == {};
    } else {
      var k := |u| - 1;
      UnionWithout(u, k);
      DroppedRange(u, k);
      assert u[..k] + u[k + 1..] == u[..k];
      PageCount(u[k].Address, u[k].Size);
      PagesOfUnion(u[..k]);
    }
  }

  // ----- a well-formed segment passes

  /** Where the k-th run starts, and where it ends. */
  function RunFrom(s: Segment, k: nat): int
    requires k <= |s.UCRSegmentList|
  {
    if k == 0 then s.BaseAddress else s.UCRSegmentList[k - 1].Address + s.UCRSegmentList[k - 1].Size
  }

  function RunTo(s: Segment, k: nat): int
    requires k <= |s.UCRSegmentList|
  {
    if k == |s.UCRSegmentList| then s.LastValidEntry else s.UCRSegmentList[k].Address
  }

  ghost predicate Good(h: Headers, segs: Segments, i: int, s: Segment) {
    Layout(h, AreasOf(segs)) && SegmentsOk(h, segs) && i in segs && segs[i] == s
  }

  ghost predicate OnRun(h: Headers, s: Segment, i: int, k: nat, l: int)
    requires k <= |s.UCRSegmentList|
  {
    l in h && h[l].seg == i && RunFrom(s, k) <= l < RunTo(s, k)
  }

  lemma RangeInside(h: Headers, segs: Segments, i: int, s: Segment, k: nat)
    requires Good(h, segs, i, s) && k < |s.UCRSegmentList|
    ensures
      var u, x := s.UCRSegmentList, s.UCRSegmentList[k].Address + s.UCRSegmentList[k].Size;
      && UcrOk(u) && u[k].Address in Union(u) && x - 512 in Union(u) && x !in Union(u)
      && s.BaseAddress < u[k].Address < x <= s.LastValidEntry
      && (x < s.LastValidEntry ==> x in h && h[x].seg == i)
  {
    var u, areas, x := s.UCRSegmentList, AreasOf(segs), s.UCRSegmentList[k].Address + s.UCRSegmentList[k].Size;
    assert SegmentOk(h, s) && AreaOk(h, areas, i) && areas[i] == s.Area();
    RangeEnds(u, k, u[k].Address);
    RangeEnds(u, k, x - 512);
    assert Resumes(h, areas[i], i, x - 512);
  }

  lemma OnRunStart(h: Headers, segs: Segments, i: int, s: Segment, k: nat)
    requires Good(h, segs, i, s) && k <= |s.UCRSegmentList|
    ensures RunFrom(s, k) <= s.LastValidEntry && (RunFrom(s, k) == s.LastValidEntry ==> k == |s.UCRSegmentList|)
    ensures RunFrom(s, k) < s.LastValidEntry ==> OnRun(h, s, i, k, RunFrom(s, k)) && h[RunFrom(s, k)].prev == 0
  {
    var x := RunFrom(s, k);
    if k > 0 { RangeInside(h, segs, i, s, k - 1); }
    if k < |s.UCRSegmentList| { RangeInside(h, segs, i, s, k); }
    if k == 0 { BaseStarts(h, segs, i, s); }
    if x < s.LastValidEntry { StartPrev(h, segs, i, s, x); }
  }

  lemma BaseStarts(h: Headers, segs: Segments, i: int, s: Segment)
    requires Good(h, segs, i, s)
    ensures s.BaseAddress in h && h[s.BaseAddress].seg == i && s.BaseAddress < s.LastValidEntry
  {
    assert SegmentOk(h, s) && AreaOk(h, AreasOf(segs), i);
    assert Fits(h, AreasOf(segs), s.BaseAddress);
  }

  lemma Fit(h: Headers, areas: Areas, x: int)
    requires Layout(h, areas) && x in h
    ensures Fits(h, areas, x)
  {
  }

  lemma PastAll(u: seq<Range>, n: int)
    requires UcrOk(u) && (|u| > 0 ==> u[|u| - 1].Address + u[|u| - 1].Size <= n)
    ensures n !in Union(u)
  {
  }

  lemma StartPrev(h: Headers, segs: Segments, i: int, s: Segment, x: int)
    requires Good(h, segs, i, s) && x in h && h[x].seg == i
        && (x == s.BaseAddress || x - 512 in Union(s.UCRSegmentList))
    ensures h[x].prev == 0
  {
    var areas := AreasOf(segs);
    assert Fits(h, areas, x) && areas[i] == s.Area();
    if h[x].prev != 0 {
      Fit(h, areas, x - h[x].prev);
    }
  }

  lemma OnRunNext(h: Headers, segs: Segments, i: int, s: Segment, k: nat, l: int)
    requires Good(h, segs, i, s) && k <= |s.UCRSegmentList| && OnRun(h, s, i, k, l)
    ensures h[l].size > 0
    ensures if h[l].last then l + h[l].size == RunTo(s, k)
            else OnRun(h, s, i, k, l + h[l].size) && h[l + h[l].size].prev == h[l].size
  {
    var u, areas, n := s.UCRSegmentList, AreasOf(segs), l + h[l].size;
    assert SegmentOk(h, s) && AreaOk(h, areas, i) && areas[i] == s.Area();
    assert Fits(h, areas, l);
    if k < |u| {
      RunGoesOn(h, segs, i, k, l);
    } else if h[l].last {
      PastAll(u, n);
    } else {
      Fit(h, areas, n);
    }
  }

  // ----- the walk

  /** A visited entry passes, except that the last one has yet to meet what follows it. */
  ghost predicate Pending(h: Headers, s: Segment, i: int, v: Visits, k: nat, a: int, cur: int, prev: int, ended: bool)
    requires a in h && a in v
  {
    var e, n := h[a], a + h[a].size;
    && e.seg == i && a < cur && a < s.LastValidEntry && v[a] <= k <= |s.UCRSegmentList| && Preceded(h, s, v, a)
    && ((e.last && v[a] < k && n == RunTo(s, v[a])) || (!e.last && Visited(h, v, n, v[a], e.size))
        || (v[a] == k && n == cur && e.last == ended && (!ended ==> prev == e.size)))
  }

  /** In run k the walk has come to cur. */
  ghost predicate Walked(h: Headers, s: Segment, i: int, v: Visits, k: nat, cur: int, prev: int, ended: bool) {
    && v.Keys <= h.Keys && k <= |s.UCRSegmentList|
    && (forall a {:trigger Pending(h, s, i, v, k, a, cur, prev, ended)} :: a in v ==>
       Pending(h, s, i, v, k, a, cur, prev, ended))
    && (ended || (cur == RunFrom(s, k) && prev == 0) || Behind(h, v, k, cur))
  }

  /** Visiting the entry at cur, whose PreviousSize is right. */
  lemma WalkStep(h: Headers, s: Segment, i: int, v: Visits, k: nat, cur: int, prev: int)
    requires Walked(h, s, i, v, k, cur, prev, false) && cur in h && h[cur].prev == prev && h[cur].seg == i
        && h[cur].size > 0 && cur < s.LastValidEntry
    ensures cur !in v && Walked(h, s, i, v[cur := k], k, cur + h[cur].size, h[cur].size, h[cur].last)
    ensures prev == 0 && cur == RunFrom(s, k) ==> Visited(h, v[cur := k], cur, k, 0)
  {
    var v', cur', prev', ended := v[cur := k], cur + h[cur].size, h[cur].size, h[cur].last;
    forall a | a in v ensures a < cur { assert Pending(h, s, i, v, k, a, cur, prev, false); }
    if !ended { assert Behind(h, v', k, cur'); }
    forall a | a in v' ensures Pending(h, s, i, v', k, a, cur', prev', ended) {
      if a != cur {
        assert Pending(h, s, i, v, k, a, cur, prev, false);
        PrecededStill(h, s, v, a, cur, k);
      } else if cur != RunFrom(s, k) {
        BehindStill(h, v, k, cur, cur, k);
      }
    }
  }

  lemma BehindStill(h: Headers, v: Visits, k: nat, x: int, cur: int, j: nat)
    requires Behind(h, v, k, x) && cur !in v
    ensures Behind(h, v[cur := j], k, x)
  {
    var b :| b in v && b in h && v[b] == k && !h[b].last && h[b].size > 0 && b + h[b].size == x;
    assert v[cur := j][b] == k;
  }

  lemma PrecededStill(h: Headers, s: Segment, v: Visits, a: int, cur: int, j: nat)
    requires a in v && Preceded(h, s, v, a) && cur !in v
    ensures a in v[cur := j] && Preceded(h, s, v[cur := j], a)
  {
    if Behind(h, v, v[a], a) { BehindStill(h, v, v[a], a, cur, j); }
  }

  /** The free blocks visited are counted and summed. */
  lemma FreeInStep(h: Headers, v: Visits, cur: int, k: nat)
    requires cur in h && cur !in v
    ensures
      var f, f' := FreeIn(h, v), FreeIn(h, v[cur := k]);
      && |f'| == |f| + (if h[cur].busy then 0 else 1)
      && Total(f') == Total(f) + (if h[cur].busy then 0 else h[cur].size)
  {
    var f, f' := FreeIn(h, v), FreeIn(h, v[cur := k]);
    if h[cur].busy {
      assert f' == f;
    } else {
      assert f' == f[cur := h[cur].size];
      TotalWith(f, cur, h[cur].size);
    }
  }

  /** Along a walk that accepts, visiting v0: where the next one has come to. */
  ghost predicate Follows(h: Headers, s: Segment, v0: Visits, v: Visits, k: nat, cur: int, prev: int, ended: bool) {
    && k <= s.NumberOfUnCommittedRanges <= |s.UCRSegmentList| && (forall a :: a in v ==> a in v0 && v0[a] == v[a])
    && (if ended then cur == RunTo(s, k) && (k < |s.UCRSegmentList| ==> k < s.NumberOfUnCommittedRanges)
        else if cur >= s.LastValidEntry then k == s.NumberOfUnCommittedRanges
        else Visited(h, v0, cur, k, prev))
  }

  lemma FollowsHere(h: Headers, s: Segment, i: int, v0: Visits, v: Visits, k: nat, cur: int, prev: int)
    requires Accepts(h, s, i, v0) && Follows(h, s, v0, v, k, cur, prev, false) && cur < s.LastValidEntry
    ensures cur in h && h[cur].prev == prev && h[cur].seg == i
  {
    assert Passes(h, s, i, v0, cur);
  }

  lemma FollowsStep(h: Headers, s: Segment, i: int, v0: Visits, v: Visits, k: nat, cur: int, prev: int, v': Visits,
      cur': int, prev': int, ended': bool)
    requires Accepts(h, s, i, v0) && Follows(h, s, v0, v, k, cur, prev, false) && cur < s.LastValidEntry && cur in h
    requires v' == v[cur := k] && cur' == cur + h[cur].size && prev' == h[cur].size && ended' == h[cur].last
    ensures Follows(h, s, v0, v', k, cur', prev', ended')
  {
    assert Passes(h, s, i, v0, cur) && EndsWith(h, s, v0, cur);
  }

  lemma FollowsStart(h: Headers, s: Segment, i: int, v0: Visits, v: Visits, k: nat)
    requires Accepts(h, s, i, v0) && k <= s.NumberOfUnCommittedRanges && forall a :: a in v ==> a in v0 && v0[a] == v[a]
    ensures k <= |s.UCRSegmentList| && Follows(h, s, v0, v, k, RunFrom(s, k), 0, false)
    ensures RunFrom(s, k) < s.LastValidEntry && k < |s.UCRSegmentList| ==> RunFrom(s, k) < s.UCRSegmentList[k].Address
  {
    if k < s.NumberOfUnCommittedRanges { assert StartsRun(h, s, v0, k); }
  }

  /** Free blocks found so far, in the segment and before cur. */
  lemma FreeBelowStep(h: Headers, areas: Areas, i: int, cur: int)
    requires Layout(h, areas) && cur in h && h[cur].seg == i && h[cur].size > 0
    ensures FreeBelow(h, i, cur + h[cur].size) == if h[cur].busy then FreeBelow(h, i, cur)
        else FreeBelow(h, i, cur)[cur := h[cur].size]
  {
    forall x | x in h && cur < x < cur + h[cur].size ensures false {
      NotInside(h, cur, x);
    }
    assert FreeBelow(h, i, cur + h[cur].size).Keys
        == if h[cur].busy then FreeBelow(h, i, cur).Keys else FreeBelow(h, i, cur).Keys + {cur};
  }

  /** The counters agree with the free blocks met so far. */
  ghost predicate Tallied(h: Headers, i: int, x: int, count: int, total: int) {
    count == |FreeBelow(h, i, x)| && total == Total(FreeBelow(h, i, x))
  }

  lemma TallyStep(h: Headers, areas: Areas, i: int, cur: int, count: int, total: int)
    requires Layout(h, areas) && cur in h && h[cur].seg == i && h[cur].size > 0 && Tallied(h, i, cur, count, total)
    ensures
      var n, size := cur + h[cur].size, h[cur].size;
      if h[cur].busy then Tallied(h, i, n, count, total) else Tallied(h, i, n, count + 1, total + size)
  {
    FreeBelowStep(h, areas, i, cur);
    var f := FreeBelow(h, i, cur);
    assert cur !in f;
    TotalWith(f, cur, h[cur].size);
    assert |f[cur := h[cur].size]| == |f| + 1;
  }

  /** No block starts inside an uncommitted range. */
  lemma TallyGap(h: Headers, segs: Segments, i: int, s: Segment, k: nat, count: int, total: int)
    requires Good(h, segs, i, s) && k < |s.UCRSegmentList| && Tallied(h, i, RunTo(s, k), count, total)
    ensures Tallied(h, i, RunFrom(s, k + 1), count, total)
  {
    var r, areas := s.UCRSegmentList[k], AreasOf(segs);
    RangeInside(h, segs, i, s, k);
    forall x | x in h && h[x].seg == i ensures !(r.Address <= x < r.Address + r.Size) {
      Fit(h, areas, x);
      RangeEnds(s.UCRSegmentList, k, x - x % 512);
      assert areas[i] == s.Area();
    }
    assert FreeBelow(h, i, RunTo(s, k)) == FreeBelow(h, i, RunFrom(s, k + 1));
  }

  /** What has been visited of run k, from start up to cur, has been counted and summed. */
  ghost predicate InRunSoFar(h: Headers, s: Segment, i: int, k: nat, v0: Visits, count0: int, total0: int, v: Visits,
      cur: int, prev: int, ended: bool, count: int, total: int)
  {
    && k <= |s.UCRSegmentList| && Walked(h, s, i, v, k, cur, prev, ended) && Extends(v0, v) && RunFrom(s, k) <= cur
    && (cur == RunFrom(s, k) ==> prev == 0 && !ended) && (cur > RunFrom(s, k) ==> Visited(h, v, RunFrom(s, k), k, 0))
    && count - |FreeIn(h, v)| == count0 - |FreeIn(h, v0)|
        && total - Total(FreeIn(h, v)) == total0 - Total(FreeIn(h, v0))
  }

  lemma SoFarStep(h: Headers, s: Segment, i: int, k: nat, v0: Visits, count0: int, total0: int, v: Visits, cur: int,
      prev: int, count: int, total: int, v': Visits, cur': int, prev': int, ended': bool, count': int, total': int)
    requires InRunSoFar(h, s, i, k, v0, count0, total0, v, cur, prev, false, count, total) && cur < s.LastValidEntry
    requires cur in h && h[cur].prev == prev && h[cur].seg == i && h[cur].size > 0
    requires v' == v[cur := k] && cur' == cur + h[cur].size && prev' == h[cur].size && ended' == h[cur].last
    requires count' == count + (if h[cur].busy then 0 else 1)
        && total' == total + (if h[cur].busy then 0 else h[cur].size)
    ensures InRunSoFar(h, s, i, k, v0, count0, total0, v', cur', prev', ended', count', total')
  {
    assert cur !in v && Walked(h, s, i, v', k, cur', prev', ended')
        && (prev == 0 && cur == RunFrom(s, k) ==> Visited(h, v', cur, k, 0)) by {
      WalkStep(h, s, i, v, k, cur, prev);
    }
    assert Visited(h, v, RunFrom(s, k), k, 0) ==> Visited(h, v', RunFrom(s, k), k, 0);
    FreeInStep(h, v, cur, k);
  }

  /** The walk of a well-formed heap. */
  ghost predicate Regular(h: Headers, segs: Segments, s: Segment, i: int, k: nat, cur: int, prev: int, ended: bool,
      count: int, total: int)
    requires k <= |s.UCRSegmentList|
  {
    && Good(h, segs, i, s) && Tallied(h, i, cur, count, total)
    && (if ended then cur == RunTo(s, k) else OnRun(h, s, i, k, cur) && h[cur].prev == prev)
  }

  lemma RegularStep(h: Headers, segs: Segments, s: Segment, i: int, k: nat, cur: int, prev: int, count: int,
      total: int, cur': int, prev': int, ended': bool, count': int, total': int)
    requires k <= |s.UCRSegmentList| && Regular(h, segs, s, i, k, cur, prev, false, count, total) && cur in h
    requires cur' == cur + h[cur].size && prev' == h[cur].size && ended' == h[cur].last
    requires count' == count + (if h[cur].busy then 0 else 1)
        && total' == total + (if h[cur].busy then 0 else h[cur].size)
    ensures Regular(h, segs, s, i, k, cur', prev', ended', count', total')
  {
    OnRunNext(h, segs, i, s, k, cur);
    TallyStep(h, AreasOf(segs), i, cur, count, total);
  }

  lemma RegularStart(h: Headers, segs: Segments, s: Segment, i: int, k: nat, count: int, total: int)
    requires k <= |s.UCRSegmentList| && Good(h, segs, i, s) && Tallied(h, i, RunFrom(s, k), count, total)
    requires RunFrom(s, k) < s.LastValidEntry
    ensures Regular(h, segs, s, i, k, RunFrom(s, k), 0, false, count, total) && RunTo(s, k) <= s.LastValidEntry
  {
    OnRunStart(h, segs, i, s, k);
    if k < |s.UCRSegmentList| { RangeInside(h, segs, i, s, k); }
  }

  /** One committed run (rtl/heap.c:3337-3434). */
  method WalkRun(h: Headers, s: Segment, i: int, k: nat, start: int, count0: int, total0: int,
                 ghost v0: Visits, ghost segs: Segments, ghost w: Visits)
    returns (ok: bool, ended: bool, cur: int, count: int, total: int, ghost v: Visits, ghost prev': int)
    requires forall a :: a in h ==> h[a].size > 0
    requires k <= |s.UCRSegmentList| && start == RunFrom(s, k) < s.LastValidEntry
    requires Walked(h, s, i, v0, k, start, 0, false)
    ensures ok ==> cur > start && (!ended ==> cur >= s.LastValidEntry)
    ensures ok ==> InRunSoFar(h, s, i, k, v0, count0, total0, v, cur, prev', ended, count, total)
    ensures Accepts(h, s, i, w) && Follows(h, s, w, v0, k, start, 0, false) ==>
              ok && Follows(h, s, w, v, k, cur, prev', ended)
    ensures Good(h, segs, i, s) && Tallied(h, i, start, count0, total0) ==>
              ok && ended && cur == RunTo(s, k) && Tallied(h, i, cur, count, total)
  {
    ghost var good := Good(h, segs, i, s) && Tallied(h, i, start, count0, total0);
    ghost var along := Accepts(h, s, i, w) && Follows(h, s, w, v0, k, start, 0, false);
    if good { RegularStart(h, segs, s, i, k, count0, total0); }
    var prev := 0;
    ok, ended, cur, count, total, v := true, false, start, count0, total0, v0;
    while cur < s.LastValidEntry && !ended
      invariant ok && InRunSoFar(h, s, i, k, v0, count0, total0, v, cur, prev, ended, count, total)
      invariant along ==> Follows(h, s, w, v, k, cur, prev, ended)
      invariant good ==> Regular(h, segs, s, i, k, cur, prev, ended, count, total)
      decreases s.LastValidEntry - cur
    {
      if along { FollowsHere(h, s, i, w, v, k, cur, prev); }
      if cur !in h || prev != h[cur].prev || h[cur].seg != i {
        return false, ended, cur, count, total, v, prev;
      }
      ghost var was, v1, prev1, count1, total1 := cur, v, prev, count, total;
      v := v[cur := k];
      prev := h[cur].size;
      if !h[cur].busy {
        count, total := count + 1, total + h[cur].size;
      }
      ended := h[cur].last;
      cur := cur + prev;
      SoFarStep(h, s, i, k, v0, count0, total0, v1, was, prev1, count1, total1, v, cur, prev, ended, count, total);
      if along { FollowsStep(h, s, i, w, v1, k, was, prev1, v, cur, prev, ended); }
      if good { RegularStep(h, segs, s, i, k, was, prev1, count1, total1, cur, prev, ended, count, total); }
    }
    prev' := prev;
  }

  ghost predicate Extends(v: Visits, v': Visits) {
    forall a :: a in v ==> a in v' && v'[a] == v[a]
  }

  /** Behind the k-th range the next run begins. */
  lemma NextRun(h: Headers, s: Segment, i: int, v: Visits, k: nat, cur: int, prev: int)
    requires Walked(h, s, i, v, k, cur, prev, true) && k < |s.UCRSegmentList| && cur == s.UCRSegmentList[k].Address
        && s.UCRSegmentList[k].Size > 0
    ensures Walked(h, s, i, v, k + 1, RunFrom(s, k + 1), 0, false)
  {
    forall a | a in v ensures Pending(h, s, i, v, k + 1, a, RunFrom(s, k + 1), 0, false) {
      assert Pending(h, s, i, v, k, a, cur, prev, true);
    }
  }

  /** At the end of the segment everything that has been visited passes. */
  lemma WalkDone(h: Headers, s: Segment, i: int, v: Visits, k: nat, cur: int, prev: int, ended: bool)
    requires Walked(h, s, i, v, k, cur, prev, ended) && s.NumberOfUnCommittedRanges == k && cur >= s.LastValidEntry
    requires ended ==> k == |s.UCRSegmentList| && cur == s.LastValidEntry
    requires Started(h, s, v, k) && StartsRun(h, s, v, k)
    requires s.NumberOfUnCommittedPages == PagesOf(s.UCRSegmentList[..k])
    ensures Accepts(h, s, i, v)
  {
    forall a | a in v ensures Passes(h, s, i, v, a) && EndsWith(h, s, v, a) && Preceded(h, s, v, a) {
      assert Pending(h, s, i, v, k, a, cur, prev, ended);
      if !h[a].last && Visited(h, v, a + h[a].size, v[a], h[a].size) {
        assert Pending(h, s, i, v, k, a + h[a].size, cur, prev, ended);
      }
    }
  }

  lemma StartedStill(h: Headers, s: Segment, v: Visits, v': Visits, k: int)
    requires 0 <= k <= |s.UCRSegmentList| && Started(h, s, v, k) && Extends(v, v')
    ensures Started(h, s, v', k)
  {
    forall j | 0 <= j < k ensures RunFrom(s, j) < s.LastValidEntry && StartsRun(h, s, v', j) {
      assert StartsRun(h, s, v, j);
    }
  }

  /** No two walks over a segment are accepted. */
  lemma OneWalk(h: Headers, s: Segment, i: int, v: Visits, w: Visits)
    requires Accepts(h, s, i, v) && Accepts(h, s, i, w)
    ensures v == w
  {
    LinkedWalks(h, h, s, i, i, v, w);
  }

  /** The two differ in no size and in no mark of a last entry. */
  ghost predicate SameLinks(h: Headers, g: Headers) {
    h.Keys == g.Keys && forall a :: a in h ==> g[a].size == h[a].size && g[a].last == h[a].last
  }

  /** Sizes and marks alone determine which entries are visited. */
  lemma LinkedWalks(h: Headers, g: Headers, s: Segment, i: int, j: int, v: Visits, w: Visits)
    requires SameLinks(h, g) && Accepts(h, s, i, v) && Accepts(g, s, j, w)
    ensures v == w
  {
    forall a | a in v ensures a in w && w[a] == v[a] { InOther(h, g, s, i, j, v, w, a); }
    forall a | a in w ensures a in v && v[a] == w[a] { InOther(g, h, s, j, i, w, v, a); }
  }

  lemma {:induction false} InOther(h: Headers, g: Headers, s: Segment, i: int, j: int, v: Visits, w: Visits, a: int)
    requires SameLinks(h, g) && Accepts(h, s, i, v) && Accepts(g, s, j, w) && a in v
    ensures a in w && w[a] == v[a]
    decreases |set x | x in v && x < a|
  {
    assert Passes(h, s, i, v, a) && EndsWith(h, s, v, a) && Preceded(h, s, v, a);
    if a == RunFrom(s, v[a]) {
      assert StartsRun(g, s, w, v[a]);
    } else {
      var b :| b in v && b in h && v[b] == v[a] && !h[b].last && h[b].size > 0 && b + h[b].size == a;
      var below, below' := set x | x in v && x < b, set x | x in v && x < a;
      assert b in below' && b !in below && below <= below';
      FewerBelow(below, below', b);
      InOther(h, g, s, i, j, v, w, b);
      assert Passes(g, s, j, w, b);
    }
  }

  lemma FewerBelow(x: set<int>, y: set<int>, b: int)
    requires x <= y && b in y && b !in x
    ensures |x| < |y|
  {
    assert y == x + (y - x) && b in y - x;
    assert |x + (y - x)| == |x| + |y - x|;
  }

  lemma PagesOfNext(u: seq<Range>, k: nat, k': nat, pages: int, pages': int)
    requires k < |u| && k' == k + 1 && pages == PagesOf(u[..k]) && pages' == pages + u[k].Size / 512
    ensures PagesOf(u[..k']) == pages'
  {
    assert u[..k + 1][..k] == u[..k];
  }

  /** Between two runs, or at the end: k runs have started. */
  ghost predicate BetweenRuns(h: Headers, s: Segment, i: int, v: Visits, k: nat, cur: int, prev: int, ended: bool,
      count: int, total: int)
  {
    && k <= |s.UCRSegmentList| && Walked(h, s, i, v, k, cur, prev, ended) && Started(h, s, v, k)
    && (if cur < s.LastValidEntry then cur == RunFrom(s, k) && prev == 0 && !ended
        else StartsRun(h, s, v, k) && (ended ==> k == |s.UCRSegmentList| && cur == s.LastValidEntry))
    && count == |FreeIn(h, v)| && total == Total(FreeIn(h, v))
  }

  lemma RunStarts(h: Headers, s: Segment, v0: Visits, v: Visits, k: nat)
    requires k <= |s.UCRSegmentList| && Started(h, s, v0, k) && Extends(v0, v) && Visited(h, v, RunFrom(s, k), k, 0)
    requires RunFrom(s, k) < s.LastValidEntry
    requires k < |s.UCRSegmentList| ==> RunFrom(s, k) < s.UCRSegmentList[k].Address
    ensures StartsRun(h, s, v, k) && Started(h, s, v, k) && (k < |s.UCRSegmentList| ==> Started(h, s, v, k + 1))
  {
    StartedStill(h, s, v0, v, k);
  }

  /** A run has been walked; behind it is a range, or nothing more. */
  lemma RunWalked(h: Headers, s: Segment, i: int, k: nat, v0: Visits, count0: int, total0: int, v: Visits, end: int,
      prev: int, ended: bool, count: int, total: int, k': nat, cur': int, prev': int, ended': bool)
    requires k <= |s.UCRSegmentList| && RunFrom(s, k) < s.LastValidEntry
    requires BetweenRuns(h, s, i, v0, k, RunFrom(s, k), 0, false, count0, total0)
    requires InRunSoFar(h, s, i, k, v0, count0, total0, v, end, prev, ended, count, total) && end > RunFrom(s, k)
    requires (ended ==> end == RunTo(s, k)) && (!ended ==> end >= s.LastValidEntry)
    requires k < |s.UCRSegmentList| ==> RunFrom(s, k) < s.UCRSegmentList[k].Address && s.UCRSegmentList[k].Size > 0
    requires if ended && k < |s.UCRSegmentList| then k' == k + 1 && cur' == RunFrom(s, k + 1) && prev' == 0 && !ended'
             else k' == k && cur' == end && prev' == prev && ended' == ended
    ensures BetweenRuns(h, s, i, v, k', cur', prev', ended', count, total) && cur' > RunFrom(s, k)
  {
    RunStarts(h, s, v0, v, k);
    assert Walked(h, s, i, v, k', cur', prev', ended') by {
      if ended && k < |s.UCRSegmentList| { NextRun(h, s, i, v, k, end, prev); }
    }
  }

  /** Between two runs of a well-formed heap, or at the end. */
  ghost predicate RegularBetween(h: Headers, segs: Segments, s: Segment, i: int, k: nat, cur: int, count: int,
      total: int)
  {
    && k <= |s.UCRSegmentList| && Good(h, segs, i, s) && Tallied(h, i, cur, count, total)
    && (if cur == s.LastValidEntry then k == |s.UCRSegmentList| else cur == RunFrom(s, k))
  }

  lemma RegularBegins(h: Headers, segs: Segments, s: Segment, i: int, k: nat, cur: int, count: int, total: int)
    requires RegularBetween(h, segs, s, i, k, cur, count, total)
    ensures cur <= s.LastValidEntry
    ensures cur < s.LastValidEntry && k < |s.UCRSegmentList| ==> cur < s.UCRSegmentList[k].Address
  {
    OnRunStart(h, segs, i, s, k);
    if k < |s.UCRSegmentList| { RangeInside(h, segs, i, s, k); }
  }

  lemma RegularNext(h: Headers, segs: Segments, s: Segment, i: int, k: nat, count: int, total: int)
    requires k <= |s.UCRSegmentList| && Good(h, segs, i, s) && Tallied(h, i, RunTo(s, k), count, total)
    ensures if k < |s.UCRSegmentList| then RegularBetween(h, segs, s, i, k + 1, RunFrom(s, k + 1), count, total)
            else RegularBetween(h, segs, s, i, k, s.LastValidEntry, count, total)
  {
    if k < |s.UCRSegmentList| {
      TallyGap(h, segs, i, s, k, count, total);
      OnRunStart(h, segs, i, s, k + 1);
    }
  }

  lemma RegularEnds(h: Headers, segs: Segments, s: Segment, i: int, k: nat, cur: int, count: int, total: int)
    requires RegularBetween(h, segs, s, i, k, cur, count, total) && cur >= s.LastValidEntry
    ensures cur == s.LastValidEntry && s.NumberOfUnCommittedPages == PagesOf(s.UCRSegmentList[..k])
        && s.NumberOfUnCommittedRanges == k
  {
    OnRunStart(h, segs, i, s, k);
    GoodCounters(h, segs, i, s);
    assert s.UCRSegmentList[..|s.UCRSegmentList|] == s.UCRSegmentList;
  }

  /** One run, and what is behind it (rtl/heap.c:3325-3434). */
  method ValidateRun(h: Headers, s: Segment, i: int, k0: nat, cur0: int, pages0: int, count0: int, total0: int,
                     ghost v0: Visits, ghost c: int, ghost t: int, ghost segs: Segments, ghost w: Visits)
    returns (ok: bool, k: nat, cur: int, pages: int, count: int, total: int, ghost v: Visits, ghost prev: int,
             ghost ended: bool)
    requires (forall a :: a in h ==> h[a].size > 0)
        && (forall k :: 0 <= k < |s.UCRSegmentList| ==> s.UCRSegmentList[k].Size > 0)
    requires cur0 < s.LastValidEntry && BetweenRuns(h, s, i, v0, k0, cur0, 0, false, count0 - c, total0 - t)
    requires k0 <= |s.UCRSegmentList| && pages0 == PagesOf(s.UCRSegmentList[..k0])
    ensures ok ==> BetweenRuns(h, s, i, v, k, cur, prev, ended, count - c, total - t) && cur > cur0
    ensures ok ==> k <= |s.UCRSegmentList| && pages == PagesOf(s.UCRSegmentList[..k])
    ensures Accepts(h, s, i, w) && Follows(h, s, w, v0, k0, cur0, 0, false) ==>
              ok && Follows(h, s, w, v, k, cur, prev, ended)
    ensures RegularBetween(h, segs, s, i, k0, cur0, count0, total0) ==>
              ok && RegularBetween(h, segs, s, i, k, cur, count, total)
  {
    ghost var good := RegularBetween(h, segs, s, i, k0, cur0, count0, total0);
    ghost var along := Accepts(h, s, i, w) && Follows(h, s, w, v0, k0, cur0, 0, false);
    if good { RegularBegins(h, segs, s, i, k0, cur0, count0, total0); }
    if along { FollowsStart(h, s, i, w, v0, k0); }
    var u := s.UCRSegmentList;
    ok, k, cur, pages, count, total, v, prev, ended := false, k0, cur0, pages0, count0, total0, v0, 0, false;
    if k < |u| && cur >= u[k].Address { return; }
    var ok1, end1, end;
    ok1, end1, end, count, total, v, prev := WalkRun(h, s, i, k0, cur0, count0, total0, v0, segs, w);
    if !ok1 || (end1 && end != RunTo(s, k)) { return; }
    if good { RegularNext(h, segs, s, i, k0, count, total); }
    ghost var prev1 := prev;
    if end1 && k < |u| {
      PagesOfNext(s.UCRSegmentList, k0, k0 + 1, pages0, pages0 + u[k].Size / 512);
      if along { FollowsStart(h, s, i, w, v, k + 1); }
      prev := 0;
      pages, cur, k := pages + u[k].Size / 512, u[k].Address + u[k].Size, k + 1;
    } else {
      cur, ended := end, end1;
    }
    RunWalked(h, s, i, k0, v0, count0 - c, total0 - t, v, end, prev1, end1, count - c, total - t, k, cur, prev, ended);
    ok := true;
  }

  /** RtlpValidateHeapSegment (rtl/heap.c:3289-3461) accepts exactly what Accepts describes, among it every segment
      of a heap that satisfies the invariant; it counts and sums the free blocks that it visits. */
  method ValidateHeapSegment(h: Headers, s: Segment, i: int, count0: int, total0: int, ghost segs: Segments)
    returns (ok: bool, count: int, total: int, ghost v: Visits)
    requires (forall a :: a in h ==> h[a].size > 0)
        && (forall k :: 0 <= k < |s.UCRSegmentList| ==> s.UCRSegmentList[k].Size > 0)
    ensures ok <==> Accepted(h, s, i)
    ensures ok ==> Accepts(h, s, i, v) && count == count0 + |FreeIn(h, v)| && total == total0 + Total(FreeIn(h, v))
    ensures Good(h, segs, i, s) && Tallied(h, i, s.BaseAddress, count0, total0) ==>
              ok && Tallied(h, i, s.LastValidEntry, count, total)
  {
    ghost var good := Good(h, segs, i, s) && Tallied(h, i, s.BaseAddress, count0, total0);
    ghost var along, w := Accepted(h, s, i), map[];
    if along {
      w :| Accepts(h, s, i, w);
      FollowsStart(h, s, i, w, map[], 0);
    }
    if good { BaseStarts(h, segs, i, s); }
    // pages and ranges count the uncommitted ranges passed
    var cur, pages, ranges := s.BaseAddress, 0, 0;
    count, total, v := count0, total0, map[];
    ghost var prev, ended := 0, false;
    while cur < s.LastValidEntry
      invariant 0 <= ranges <= |s.UCRSegmentList| && pages == PagesOf(s.UCRSegmentList[..ranges])
      invariant BetweenRuns(h, s, i, v, ranges, cur, prev, ended, count - count0, total - total0)
      invariant along ==> Follows(h, s, w, v, ranges, cur, prev, ended)
      invariant good ==> RegularBetween(h, segs, s, i, ranges, cur, count, total)
      decreases s.LastValidEntry - cur
    {
      ok, ranges, cur, pages, count, total, v, prev, ended :=
        ValidateRun(h, s, i, ranges, cur, pages, count, total, v, count0, total0, segs, w);
      if !ok { return; }
    }
    if good { RegularEnds(h, segs, s, i, ranges, cur, count, total); }
    ok := s.NumberOfUnCommittedPages == pages && s.NumberOfUnCommittedRanges == ranges;
    if ok { WalkDone(h, s, i, v, ranges, cur, prev, ended); }
  }

  lemma GoodCounters(h: Headers, segs: Segments, i: int, s: Segment)
    requires Good(h, segs, i, s)
    ensures s.NumberOfUnCommittedPages == PagesOf(s.UCRSegmentList) && s.NumberOfUnCommittedRanges == |s.UCRSegmentList|
  {
    assert SegmentOk(h, s);
    PagesOfUnion(s.UCRSegmentList);
  }

  // ----- the whole heap

  ghost function SetOf(list: seq<int>): set<int> {
    set x | x in list
  }

  /** The members of the first k lists. */
  ghost function Members(lists: seq<seq<int>>, k: nat): set<int>
    requires k <= |lists|
  {
    if k == 0 then {} else Members(lists, k - 1) + SetOf(lists[k - 1])
  }

  lemma {:induction false} DistinctCount(list: seq<int>)
    requires Distinct(list)
    ensures |SetOf(list)| == |list|
  {
    if list == [] {
      assert SetOf(list) == {};
    } else {
      var rest := list[..|list| - 1];
      DistinctCount(rest);
      assert SetOf(list) == SetOf(rest) + {list[|list| - 1]};
    }
  }

  lemma MembersAre(lists: seq<seq<int>>, k: nat, x: int)
    requires k <= |lists|
    ensures x in Members(lists, k) <==> exists j :: 0 <= j < k && x in lists[j]
  {
    if k > 0 { MembersAre(lists, k - 1, x); }
  }

  lemma InList(lists: seq<seq<int>>, inUse: seq<bool>, sizes: Sizes, k: int, x: int)
    requires ListsOk(lists, inUse, sizes) && 0 <= k < 128 && x in lists[k]
    ensures x in sizes && Home(sizes[x]) == k
  {
    assert ListOk(lists[k], k, sizes);
  }

  /** Distinct lists without common members hold as many entries as they have members. */
  lemma MembersStep(lists: seq<seq<int>>, inUse: seq<bool>, sizes: Sizes, k: nat)
    requires ListsOk(lists, inUse, sizes) && k < 128
    ensures |Members(lists, k + 1)| == |Members(lists, k)| + |lists[k]|
  {
    var s := SetOf(lists[k]);
    assert ListOk(lists[k], k, sizes);
    DistinctCount(lists[k]);
    forall x | x in s ensures x !in Members(lists, k) {
      MembersAre(lists, k, x);
      InList(lists, inUse, sizes, k, x);
      if j :| 0 <= j < k && x in lists[j] {
        InList(lists, inUse, sizes, j, x);
      }
    }
    assert Members(lists, k) !! s;
  }

  lemma AllMembers(lists: seq<seq<int>>, inUse: seq<bool>, sizes: Sizes)
    requires ListsOk(lists, inUse, sizes)
    ensures |Members(lists, 128)| == |sizes|
  {
    forall x ensures x in Members(lists, 128) <==> x in sizes {
      MembersAre(lists, 128, x);
      if x in sizes { assert Filed(lists, sizes, x); }
      if j :| 0 <= j < 128 && x in lists[j] { assert ListOk(lists[j], j, sizes); }
    }
    assert Members(lists, 128) == sizes.Keys;
    assert |sizes.Keys| == |sizes|;
  }

  /** What the check of one free list establishes (rtl/heap.c:3506-3561). */
  ghost predicate ListAccepted(h: Headers, list: seq<int>, k: int) {
    && (forall j :: 0 <= j < |list| ==>
          list[j] in h && !h[list[j]].busy && (if k == 0 then h[list[j]].size >= 128 else h[list[j]].size == k))
    && (k == 0 ==> forall i, j :: 0 <= i < j < |list| && list[i] in h && list[j] in h ==>
       h[list[i]].size <= h[list[j]].size)
  }

  ghost predicate AgreeAll(h: Headers, sizes: Sizes) {
    forall x :: x in sizes ==> x in h && !h[x].busy && h[x].size == sizes[x] > 0
  }

  method ValidateList(h: Headers, list: seq<int>, k: int, ghost sizes: Sizes) returns (ok: bool)
    requires 0 <= k < 128
    ensures ok <==> ListAccepted(h, list, k)
    ensures ListOk(list, k, sizes) && AgreeAll(h, sizes) ==> ok
  {
    var j, previousSize := 0, 0;
    while j < |list|
      invariant 0 <= j <= |list| && ListAccepted(h, list[..j], k)
      invariant if j == 0 then previousSize == 0 else list[j - 1] in h && previousSize == h[list[j - 1]].size
    {
      ghost var x := list[j];
      assert ListOk(list, k, sizes) && AgreeAll(h, sizes) ==> x in sizes && x in h;
      if list[j] !in h || h[list[j]].busy { return false; }
      var size := h[list[j]].size;
      if (k == 0 && size < 128) || (k != 0 && size != k) || (k == 0 && size < previousSize) { return false; }
      previousSize := size;
      assert list[..j + 1] == list[..j] + [list[j]];
      j := j + 1;
    }
    assert list[..j] == list;
    ok := true;
  }

  /** All the blocks are before the last segment's end. */
  lemma AllCounted(h: Headers, segs: Segments, i: int, x: int)
    requires Layout(h, AreasOf(segs)) && SegmentsOk(h, segs) && i == 64
    ensures FreeBelow(h, i, x) == FreeOf(h)
  {
    forall a | a in h ensures h[a].seg < 64 {
      Fit(h, AreasOf(segs), a);
      assert SegmentOk(h, segs[h[a].seg]);
    }
  }

  function StartOf(segs: Segments, i: int): int {
    if i in segs then segs[i].BaseAddress else 0
  }

  lemma SegmentCounted(h: Headers, segs: Segments, i: int, x: int)
    requires Layout(h, AreasOf(segs)) && SegmentsOk(h, segs) && 0 <= i < 64
    requires i in segs ==> x == segs[i].LastValidEntry
    ensures FreeBelow(h, i, x) == FreeBelow(h, i + 1, StartOf(segs, i + 1))
  {
    var y := StartOf(segs, i + 1);
    forall a | a in h ensures Counted(h, a, i, x) == Counted(h, a, i + 1, y) {
      Fit(h, AreasOf(segs), a);
      assert AreasOf(segs)[h[a].seg] == segs[h[a].seg].Area();
    }
  }

  lemma SegmentTallied(h: Headers, segs: Segments, i: int, j: int, x: int, count: int, total: int)
    requires Layout(h, AreasOf(segs)) && SegmentsOk(h, segs) && 0 <= i < 64 && j == i + 1
    requires (i in segs ==> x == segs[i].LastValidEntry) && Tallied(h, i, x, count, total)
    ensures Tallied(h, j, StartOf(segs, j), count, total)
  {
    SegmentCounted(h, segs, i, x);
  }

  ghost predicate ListsAccepted(h: Headers, lists: seq<seq<int>>, inUse: seq<bool>) {
    && |lists| == 128 && |inUse| == 128
    && (forall k {:trigger lists[k]} :: 0 <= k < 128 ==>
          ListAccepted(h, lists[k], k) && (k > 0 ==> (inUse[k] <==> lists[k] != [])))
  }

  /** The length of the first k lists. */
  ghost function Listed(lists: seq<seq<int>>, k: nat): nat
    requires k <= |lists|
  {
    if k == 0 then 0 else Listed(lists, k - 1) + |lists[k - 1]|
  }

  /** The walks over the segments below n are accepted, and visit these entries. */
  ghost predicate AllAccept(h: Headers, segs: Segments, vs: map<int, Visits>, n: int) {
    forall i {:trigger segs[i]} :: 0 <= i < n && i in segs ==> i in vs && Accepts(h, segs[i], i, vs[i])
  }

  /** How many free blocks the walks over the segments below n visit, and the sum of their sizes. */
  ghost function FreeCount(h: Headers, segs: Segments, vs: map<int, Visits>, n: nat): int {
    if n == 0 then 0
    else FreeCount(h, segs, vs, n - 1) + (if n - 1 in segs && n - 1 in vs then |FreeIn(h, vs[n - 1])| else 0)
  }

  ghost function FreeTotal(h: Headers, segs: Segments, vs: map<int, Visits>, n: nat): int {
    if n == 0 then 0
    else FreeTotal(h, segs, vs, n - 1) + (if n - 1 in segs && n - 1 in vs then Total(FreeIn(h, vs[n - 1])) else 0)
  }

  lemma {:induction false} SameFree(h: Headers, segs: Segments, vs: map<int, Visits>, ws: map<int, Visits>, n: nat)
    requires forall i :: 0 <= i < n && i in segs ==> i in vs && i in ws && vs[i] == ws[i]
    ensures FreeCount(h, segs, vs, n) == FreeCount(h, segs, ws, n)
    ensures FreeTotal(h, segs, vs, n) == FreeTotal(h, segs, ws, n)
    decreases n
  {
    if n > 0 { SameFree(h, segs, vs, ws, n - 1); }
  }

  lemma SameWalks(h: Headers, segs: Segments, vs: map<int, Visits>, ws: map<int, Visits>, n: nat)
    requires AllAccept(h, segs, vs, n) && AllAccept(h, segs, ws, n)
    ensures FreeCount(h, segs, vs, n) == FreeCount(h, segs, ws, n)
    ensures FreeTotal(h, segs, vs, n) == FreeTotal(h, segs, ws, n)
  {
    forall i | 0 <= i < n && i in segs ensures i in vs && i in ws && vs[i] == ws[i] {
      OneWalk(h, segs[i], i, vs[i], ws[i]);
    }
    SameFree(h, segs, vs, ws, n);
  }

  /** Exactly what the check of the whole heap accepts: lists and segments, and as many free blocks in the segments
      as in the lists, whose sizes make up TotalFreeSize. */
  ghost predicate HeapAccepted(h: Headers, lists: seq<seq<int>>, inUse: seq<bool>, totalFreeSize: int, segs: Segments) {
    && ListsAccepted(h, lists, inUse)
    && exists vs: map<int, Visits> :: AllAccept(h, segs, vs, 64)
         && FreeCount(h, segs, vs, 64) == Listed(lists, 128) && FreeTotal(h, segs, vs, 64) == totalFreeSize
  }

  /** The free lists and the bitmap (rtl/heap.c:3487-3566). */
  method ValidateLists(h: Headers, lists: seq<seq<int>>, inUse: seq<bool>, ghost sizes: Sizes)
      returns (ok: bool, count: int)
    requires |lists| == 128 && |inUse| == 128
    ensures ok <==> ListsAccepted(h, lists, inUse)
    ensures ok ==> count == Listed(lists, 128)
    ensures ListsOk(lists, inUse, sizes) && AgreeAll(h, sizes) ==> ok && count == |sizes|
  {
    ghost var good := ListsOk(lists, inUse, sizes) && AgreeAll(h, sizes);
    var k := 0;
    count := 0;
    while k < 128
      invariant 0 <= k <= 128
      invariant forall j {:trigger lists[j]} :: 0 <= j < k ==>
                  ListAccepted(h, lists[j], j) && (j > 0 ==> (inUse[j] <==> lists[j] != []))
      invariant good ==> count == |Members(lists, k)|
      invariant count == Listed(lists, k)
    {
      if k > 0 && inUse[k] != (lists[k] != []) { return false, count; }
      ghost var here := lists[k];
      ok := ValidateList(h, lists[k], k, sizes);
      if !ok { return; }
      if good { MembersStep(lists, inUse, sizes, k); }
      count, k := count + |lists[k]|, k + 1;
    }
    if good { AllMembers(lists, inUse, sizes); }
    ok := true;
  }

  ghost predicate SegmentsSoFar(h: Headers, segs: Segments, vs: map<int, Visits>, i: nat, count: int, total: int) {
    && AllAccept(h, segs, vs, i) && (forall j :: j in vs ==> j < i)
    && count == FreeCount(h, segs, vs, i) && total == FreeTotal(h, segs, vs, i)
  }

  lemma SegmentDone(h: Headers, segs: Segments, vs: map<int, Visits>, i: nat, count: int, total: int, v: Visits,
      vs': map<int, Visits>, count': int, total': int)
    requires SegmentsSoFar(h, segs, vs, i, count, total)
    requires if i in segs then vs' == vs[i := v] && Accepts(h, segs[i], i, v) && count' == count + |FreeIn(h, v)|
                              && total' == total + Total(FreeIn(h, v))
             else vs' == vs && count' == count && total' == total
    ensures SegmentsSoFar(h, segs, vs', i + 1, count', total')
  {
    SameFree(h, segs, vs, vs', i);
  }

  /** One of the segments, if it exists (rtl/heap.c:3588-3607). */
  method ValidateOne(h: Headers, segs: Segments, i: nat, count0: int, total0: int, ghost vs0: map<int, Visits>)
    returns (ok: bool, next: nat, count: int, total: int, ghost vs: map<int, Visits>)
    requires forall a :: a in h ==> h[a].size > 0
    requires forall i, k :: i in segs && 0 <= k < |segs[i].UCRSegmentList| ==> segs[i].UCRSegmentList[k].Size > 0
    requires i < 64 && SegmentsSoFar(h, segs, vs0, i, count0, total0)
    ensures ok <==> (i in segs ==> Accepted(h, segs[i], i))
    ensures next == i + 1 && (ok ==> SegmentsSoFar(h, segs, vs, next, count, total))
    ensures Layout(h, AreasOf(segs)) && SegmentsOk(h, segs) && Tallied(h, i, StartOf(segs, i), count0, total0) ==>
              ok && Tallied(h, next, StartOf(segs, next), count, total)
  {
    ghost var good := Layout(h, AreasOf(segs)) && SegmentsOk(h, segs)
        && Tallied(h, i, StartOf(segs, i), count0, total0);
    ok, next, count, total, vs := true, i + 1, count0, total0, vs0;
    ghost var v := map[];
    if i in segs {
      ok, count, total, v := ValidateHeapSegment(h, segs[i], i, count, total, segs);
      if !ok { return; }
      vs := vs[i := v];
    }
    SegmentDone(h, segs, vs0, i, count0, total0, v, vs, count, total);
    if good { SegmentTallied(h, segs, i, next, if i in segs then segs[i].LastValidEntry else 0, count, total); }
  }

  /** The segments (rtl/heap.c:3586-3608). */
  method ValidateSegments(h: Headers, segs: Segments)
    returns (ok: bool, count: int, total: int, ghost vs: map<int, Visits>)
    requires forall a :: a in h ==> h[a].size > 0
    requires forall i, k :: i in segs && 0 <= k < |segs[i].UCRSegmentList| ==> segs[i].UCRSegmentList[k].Size > 0
    ensures ok <==> forall i {:trigger segs[i]} :: 0 <= i < 64 && i in segs ==> Accepted(h, segs[i], i)
    ensures ok ==>
              && AllAccept(h, segs, vs, 64) && count == FreeCount(h, segs, vs, 64)
              && total == FreeTotal(h, segs, vs, 64)
    ensures Layout(h, AreasOf(segs)) && SegmentsOk(h, segs) ==> ok && count == |FreeOf(h)| && total == Total(FreeOf(h))
  {
    ghost var good := Layout(h, AreasOf(segs)) && SegmentsOk(h, segs);
    var i := 0;
    count, total, vs := 0, 0, map[];
    if good { NoneCounted(h, segs); }
    while i < 64
      invariant 0 <= i <= 64 && SegmentsSoFar(h, segs, vs, i, count, total)
      invariant good ==> Tallied(h, i, StartOf(segs, i), count, total)
    {
      ok, i, count, total, vs := ValidateOne(h, segs, i, count, total, vs);
      if !ok { return; }
    }
    if good { AllCounted(h, segs, 64, StartOf(segs, 64)); }
    AllAccepted(h, segs, vs);
    ok := true;
  }

  lemma NoneCounted(h: Headers, segs: Segments)
    requires Layout(h, AreasOf(segs)) && SegmentsOk(h, segs)
    ensures Tallied(h, 0, StartOf(segs, 0), 0, 0)
  {
    forall a | a in h ensures !Counted(h, a, 0, StartOf(segs, 0)) {
      Fit(h, AreasOf(segs), a);
      assert AreasOf(segs)[h[a].seg] == segs[h[a].seg].Area();
      assert SegmentOk(h, segs[h[a].seg]);
    }
    assert FreeBelow(h, 0, StartOf(segs, 0)) == map[];
  }

  /** RtlpValidateHeap (rtl/heap.c:3463-3617). */
  method ValidateHeap(h: Headers, lists: seq<seq<int>>, inUse: seq<bool>, totalFreeSize: int, segs: Segments,
      ghost sizes: Sizes)
    returns (ok: bool)
    requires |lists| == 128 && |inUse| == 128
    requires forall a :: a in h ==> h[a].size > 0
    requires forall i, k :: i in segs && 0 <= k < |segs[i].UCRSegmentList| ==> segs[i].UCRSegmentList[k].Size > 0
    ensures ok <==> HeapAccepted(h, lists, inUse, totalFreeSize, segs)
    ensures ListsOk(lists, inUse, sizes) && Whole(h, segs, sizes) && totalFreeSize == Total(sizes) ==> ok
  {
    ghost var good := ListsOk(lists, inUse, sizes) && Whole(h, segs, sizes) && totalFreeSize == Total(sizes);
    var listCount;
    ok, listCount := ValidateLists(h, lists, inUse, sizes);
    if !ok { return; }
    var blockCount, total;
    ghost var vs;
    ok, blockCount, total, vs := ValidateSegments(h, segs);
    if !ok {
      forall ws | AllAccept(h, segs, ws, 64) ensures false { AllAccepted(h, segs, ws); }
      return;
    }
    ok := listCount == blockCount && totalFreeSize == total;
    forall ws | AllAccept(h, segs, ws, 64)
      ensures FreeCount(h, segs, ws, 64) == FreeCount(h, segs, vs, 64)
      ensures FreeTotal(h, segs, ws, 64) == FreeTotal(h, segs, vs, 64)
    {
      SameWalks(h, segs, vs, ws, 64);
    }
  }

  lemma AllAccepted(h: Headers, segs: Segments, vs: map<int, Visits>)
    requires AllAccept(h, segs, vs, 64)
    ensures forall i {:trigger segs[i]} :: 0 <= i < 64 && i in segs ==> Accepted(h, segs[i], i)
  {
    forall i | 0 <= i < 64 && i in segs ensures Accepted(h, segs[i], i) {
      assert Accepts(h, segs[i], i, vs[i]);
    }
  }
}
