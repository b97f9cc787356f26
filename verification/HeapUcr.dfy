/** Uncommitted ranges (rtl/heap.c:542-727). */
module HeapUcr {
  import opened HeapLayout

  // The list stays sorted, disjoint and without touching neighbours. Addresses and sizes are in heap entry
  // units, 512 a page.

  /** HEAP_UCR_DESCRIPTOR. */
  datatype Range = Range(Address: int, Size: int)

  ghost predicate PageAligned(r: Range) {
    r.Address % 512 == 0 && r.Size % 512 == 0 && r.Size > 0
  }

  /** Every range is made of whole pages, and a gap separates it from the next one. */
  ghost predicate UcrOk(u: seq<Range>) {
    && (forall i :: 0 <= i < |u| ==> PageAligned(u[i]))
    && (forall i, j :: 0 <= i < j < |u| ==> u[i].Address + u[i].Size < u[j].Address)
  }

  /** All uncommitted pages. */
  ghost function Union(u: seq<Range>): set<int> {
    set i, p | 0 <= i < |u| && p in Pages(u[i].Address, u[i].Size) :: p
  }

  lemma PageCount(from: int, size: int)
    requires from % 512 == 0 && size % 512 == 0 && size >= 0
    ensures |Pages(from, size)| == size / 512
    decreases size
  {
    if size == 0 {
      assert Pages(from, size) == {};
    } else {
      PageCount(from, size - 512);
      PagesLast(from, size);
    }
  }

  lemma PagesLast(from: int, size: int)
    requires from % 512 == 0 && size % 512 == 0 && size > 0
    ensures Pages(from, size) == Pages(from, size - 512) + {from + size - 512}
    ensures from + size - 512 !in Pages(from, size - 512)
  {
    forall p ensures p in Pages(from, size) <==> p in Pages(from, size - 512) || p == from + size - 512 {
      PageRange(from, size, p);
      PageRange(from, size - 512, p);
    }
  }

  /** Page-aligned ranges without a common page are disjoint as intervals. */
  lemma NoCommonPage(a: Range, b: Range)
    requires PageAligned(a) && PageAligned(b) && Pages(a.Address, a.Size) !! Pages(b.Address, b.Size)
    ensures a.Address + a.Size <= b.Address || b.Address + b.Size <= a.Address
  {
    PageRange(a.Address, a.Size, b.Address);
    PageRange(b.Address, b.Size, b.Address);
    PageRange(a.Address, a.Size, a.Address);
    PageRange(b.Address, b.Size, a.Address);
  }

  lemma PagesJoin(a: int, s: int, t: int)
    requires s >= 0 && t >= 0
    ensures Pages(a, s + t) == Pages(a, s) + Pages(a + s, t)
  {
  }

  lemma UnionWithout(u: seq<Range>, i: nat)
    requires i < |u|
    ensures Union(u) == Union(u[..i] + u[i + 1..]) + Pages(u[i].Address, u[i].Size)
  {
    var v := u[..i] + u[i + 1..];
    forall p | p in Union(u) ensures p in Union(v) + Pages(u[i].Address, u[i].Size) {
      var j :| 0 <= j < |u| && p in Pages(u[j].Address, u[j].Size);
      if j < i { assert v[j] == u[j]; } else if j > i { assert v[j - 1] == u[j]; }
    }
    forall p | p in Union(v) ensures p in Union(u) {
      var j :| 0 <= j < |v| && p in Pages(v[j].Address, v[j].Size);
      assert v[j] == u[if j < i then j else j + 1];
    }
  }

  lemma UnionWith(u: seq<Range>, i: nat, r: Range)
    requires i <= |u|
    ensures Union(u[..i] + [r] + u[i..]) == Union(u) + Pages(r.Address, r.Size)
  {
    var v := u[..i] + [r] + u[i..];
    UnionWithout(v, i);
    assert v[..i] + v[i + 1..] == u;
  }

  /** Taking a range out, or putting one in where it fits. */
  lemma DroppedRange(u: seq<Range>, i: nat)
    requires UcrOk(u) && i < |u|
    ensures UcrOk(u[..i] + u[i + 1..])
    ensures Union(u[..i] + u[i + 1..]) !! Pages(u[i].Address, u[i].Size)
  {
    var v := u[..i] + u[i + 1..];
    assert forall j {:trigger v[j]} :: 0 <= j < |v| ==> v[j] == u[if j < i then j else j + 1];
  }

  /** The range r lies before position i and touches neither neighbour. */
  ghost predicate Between(u: seq<Range>, i: nat, r: Range) {
    && (0 < i <= |u| ==> u[i - 1].Address + u[i - 1].Size < r.Address)
    && (i < |u| ==> r.Address + r.Size < u[i].Address)
  }

  lemma AddedRange(u: seq<Range>, i: nat, r: Range)
    requires UcrOk(u) && i <= |u| && PageAligned(r) && Between(u, i, r)
    ensures UcrOk(u[..i] + [r] + u[i..])
    ensures Union(u[..i] + [r] + u[i..]) == Union(u) + Pages(r.Address, r.Size)
  {
    UnionWith(u, i, r);
    AddedOk(u, i, r, u[..i] + [r] + u[i..]);
  }

  lemma AddedOk(u: seq<Range>, i: nat, r: Range, v: seq<Range>)
    requires UcrOk(u) && i <= |u| && PageAligned(r) && Between(u, i, r) && v == u[..i] + [r] + u[i..]
    ensures UcrOk(v)
  {
    assert forall j {:trigger v[j]} :: 0 <= j < |v| ==> v[j] == if j < i then u[j] else if j == i then r else u[j - 1];
  }

  lemma WidenedRange(u: seq<Range>, i: nat, address: int, size: int)
    requires UcrOk(u) && i < |u| && PageAligned(Range(address, size)) && address + size == u[i].Address
    requires i > 0 ==> u[i - 1].Address + u[i - 1].Size < address
    ensures
      var v := u[i := Range(address, size + u[i].Size)];
      UcrOk(v) && Union(v) == Union(u) + Pages(address, size)
  {
    var v := u[i := Range(address, size + u[i].Size)];
    WidenedOk(u, i, address, size);
    UnionWithout(u, i);
    UnionWithout(v, i);
    assert v[..i] + v[i + 1..] == u[..i] + u[i + 1..];
    PagesJoin(address, size, u[i].Size);
  }

  lemma WidenedOk(u: seq<Range>, i: nat, address: int, size: int)
    requires UcrOk(u) && i < |u| && PageAligned(Range(address, size)) && address + size == u[i].Address
    requires i > 0 ==> u[i - 1].Address + u[i - 1].Size < address
    ensures UcrOk(u[i := Range(address, size + u[i].Size)])
  {
  }

  /** The new range and the i-th one, which ends where it starts, become one. */
  lemma MergedRange(u: seq<Range>, i: nat, address: int, size: int)
    requires UcrOk(u) && i < |u| && PageAligned(Range(address, size)) && u[i].Address + u[i].Size == address
    requires Union(u) !! Pages(address, size)
    ensures
      var v, r := u[..i] + u[i + 1..], Range(u[i].Address, size + u[i].Size);
      && UcrOk(v) && PageAligned(r) && Union(v) !! Pages(r.Address, r.Size)
      && Union(v) + Pages(r.Address, r.Size) == Union(u) + Pages(address, size)
      && (i > 0 ==> v[i - 1].Address + v[i - 1].Size < r.Address)
  {
    DroppedRange(u, i);
    UnionWithout(u, i);
    PagesJoin(u[i].Address, u[i].Size, size);
  }

  lemma Elsewhere(u: seq<Range>, i: nat, r: Range)
    requires UcrOk(u) && i < |u| && PageAligned(r) && Union(u) !! Pages(r.Address, r.Size)
    ensures r.Address + r.Size <= u[i].Address || u[i].Address + u[i].Size <= r.Address
  {
    UnionWithout(u, i);
    NoCommonPage(r, u[i]);
  }

  /** RtlpInsertUnCommittedPages (rtl/heap.c:542-609). count is NumberOfUnCommittedRanges. */
  method InsertUnCommittedPages(ucrs: seq<Range>, ranges: int, from: int, length: int)
    returns (u: seq<Range>, count: int)
    requires UcrOk(ucrs) && PageAligned(Range(from, length)) && Pages(from, length) !! Union(ucrs)
    ensures UcrOk(u) && Union(u) == Union(ucrs) + Pages(from, length)
    ensures count - |u| == ranges - |ucrs|
  {
    u, count := ucrs, ranges;
    var address, size := from, length;
    var i := 0;
    while i < |u|
      invariant 0 <= i <= |u| && UcrOk(u) && PageAligned(Range(address, size)) && count - |u| == ranges - |ucrs|
      invariant Union(u) + Pages(address, size) == Union(ucrs) + Pages(from, length)
      invariant Union(u) !! Pages(address, size)
      invariant i > 0 ==> u[i - 1].Address + u[i - 1].Size < address
      decreases |u| - i
    {
      Elsewhere(u, i, Range(address, size));
      if u[i].Address > address {
        // a really lucky case: the new range ends where this one starts
        if address + size == u[i].Address {
          WidenedRange(u, i, address, size);
          u := u[i := Range(address, size + u[i].Size)];
          return;
        }
        break;
      } else if u[i].Address + u[i].Size == address {
        MergedRange(u, i, address, size);
        address, size, u, count := u[i].Address, size + u[i].Size, u[..i] + u[i + 1..], count - 1;
      } else {
        i := i + 1;
      }
    }
    AddedRange(u, i, Range(address, size));
    u, count := u[..i] + [Range(address, size)] + u[i..], count + 1;
  }
}
