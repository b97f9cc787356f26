/** The free lists (rtl/heap.c). */
module HeapFreeLists {

  // Which block is filed where, and which one is the best fit (rtl/heap.c:2053-2092).

  /** The listed free blocks, by address, with their sizes. */
  type Sizes = map<int, int>

  /** Small blocks have a list per size; the others share list zero. */
  function Home(size: int): int {
    if size < 128 then size else 0
  }

  ghost predicate Distinct(s: seq<int>) {
    forall i, j :: 0 <= i < j < |s| ==> s[i] != s[j]
  }

  /** Everything in list k belongs there; list zero is sorted by size. */
  ghost predicate ListOk(list: seq<int>, k: int, sizes: Sizes) {
    && (forall j :: 0 <= j < |list| ==> list[j] in sizes && Home(sizes[list[j]]) == k)
    && Distinct(list)
    && (k == 0 ==> Ascending(list, sizes))
  }

  ghost predicate Ascending(list: seq<int>, sizes: Sizes) {
    forall i, j :: 0 <= i < j < |list| && list[i] in sizes && list[j] in sizes ==> sizes[list[i]] <= sizes[list[j]]
  }

  ghost predicate Filed(lists: seq<seq<int>>, sizes: Sizes, x: int)
    requires |lists| == 128 && x in sizes
  {
    sizes[x] > 0 && x in lists[Home(sizes[x])]
  }

  /** The lists hold exactly the listed blocks, each in its place, and the bitmap marks exactly the
      non-empty dedicated lists. */
  ghost predicate ListsOk(lists: seq<seq<int>>, inUse: seq<bool>, sizes: Sizes) {
    && |lists| == 128 && |inUse| == 128
    && (forall k {:trigger lists[k]} :: 0 <= k < 128 ==> ListOk(lists[k], k, sizes))
    && (forall x {:trigger Filed(lists, sizes, x)} :: x in sizes ==> Filed(lists, sizes, x))
    && (forall k {:trigger inUse[k]} :: 0 < k < 128 ==> (inUse[k] <==> lists[k] != []))
  }

  /** Sum of the listed sizes. */
  ghost function Total(sizes: Sizes): int
    decreases |sizes|
  {
    if x :| x in sizes then
      assert |sizes - {x}| < |sizes| by { Smaller(sizes, x); }
      sizes[x] + Total(sizes - {x})
    else 0
  }

  lemma Smaller(sizes: Sizes, x: int)
    requires x in sizes
    ensures |sizes - {x}| == |sizes| - 1
  {
    assert (sizes - {x}).Keys == sizes.Keys - {x};
    assert |sizes.Keys - {x}| == |sizes.Keys| - 1;
    assert |(sizes - {x}).Keys| == |sizes - {x}| && |sizes.Keys| == |sizes|;
  }

  lemma {:induction false} TotalWithout(sizes: Sizes, x: int)
    requires x in sizes
    ensures Total(sizes) == sizes[x] + Total(sizes - {x})
    decreases |sizes|
  {
    var y :| y in sizes && Total(sizes) == sizes[y] + Total(sizes - {y});
    if y != x {
      Smaller(sizes, y);
      TotalWithout(sizes - {y}, x);
      Smaller(sizes, x);
      TotalWithout(sizes - {x}, y);
      assert sizes - {y} - {x} == sizes - {x} - {y};
    }
  }

  lemma TotalWith(sizes: Sizes, x: int, size: int)
    requires x !in sizes
    ensures Total(sizes[x := size]) == Total(sizes) + size
  {
    TotalWithout(sizes[x := size], x);
    assert sizes[x := size] - {x} == sizes;
  }

  // ----- filing and taking out

  function InsertedAt(list: seq<int>, pos: nat, x: int): seq<int>
    requires pos <= |list|
  {
    list[..pos] + [x] + list[pos..]
  }

  function RemovedAt(list: seq<int>, pos: nat): seq<int>
    requires pos < |list|
  {
    list[..pos] + list[pos + 1..]
  }

  lemma InsertedList(list: seq<int>, k: int, sizes: Sizes, pos: nat, x: int, size: int)
    requires ListOk(list, k, sizes) && pos <= |list| && x !in sizes && Home(size) == k
    requires k == 0 ==> forall j :: 0 <= j < |list| ==>
              if j < pos then sizes[list[j]] < size else size <= sizes[list[j]]
    ensures ListOk(InsertedAt(list, pos, x), k, sizes[x := size])
  {
    var l, s := InsertedAt(list, pos, x), sizes[x := size];
    assert forall j {:trigger l[j]} :: 0 <= j < |l| ==>
              l[j] == if j < pos then list[j] else if j == pos then x else list[j - 1];
  }

  lemma KeptList(list: seq<int>, k: int, sizes: Sizes, x: int, size: int)
    requires ListOk(list, k, sizes) && x !in sizes
    ensures ListOk(list, k, sizes[x := size])
  {
  }

  lemma InsertedMembers(list: seq<int>, pos: nat, x: int, y: int)
    requires pos <= |list|
    ensures y in InsertedAt(list, pos, x) <==> y == x || y in list
  {
    assert list == list[..pos] + list[pos..];
  }

  lemma Inserted(lists: seq<seq<int>>, inUse: seq<bool>, sizes: Sizes, x: int, size: int, pos: nat)
    requires ListsOk(lists, inUse, sizes) && x !in sizes && size > 0
    requires pos <= |lists[Home(size)]|
    requires Home(size) == 0 ==>
               forall j :: 0 <= j < |lists[0]| ==>
                         if j < pos then sizes[lists[0][j]] < size else size <= sizes[lists[0][j]]
    ensures
      var k := Home(size);
      ListsOk(lists[k := InsertedAt(lists[k], pos, x)], if k == 0 then inUse else inUse[k := true], sizes[x := size])
  {
    var k := Home(size);
    var lists', sizes' := lists[k := InsertedAt(lists[k], pos, x)], sizes[x := size];
    forall i | 0 <= i < 128 ensures ListOk(lists'[i], i, sizes') {
      assert ListOk(lists[i], i, sizes);
      if i == k { InsertedList(lists[k], k, sizes, pos, x, size); } else { KeptList(lists[i], i, sizes, x, size); }
    }
    forall y | y in sizes' ensures Filed(lists', sizes', y) {
      InsertedMembers(lists[k], pos, x, y);
      if y != x { assert Filed(lists, sizes, y); }
    }
  }

  lemma RemovedList(list: seq<int>, k: int, sizes: Sizes, pos: nat)
    requires ListOk(list, k, sizes) && pos < |list|
    ensures ListOk(RemovedAt(list, pos), k, sizes - {list[pos]})
    ensures list[pos] !in RemovedAt(list, pos)
  {
    var l := RemovedAt(list, pos);
    assert forall j {:trigger l[j]} :: 0 <= j < |l| ==> l[j] == if j < pos then list[j] else list[j + 1];
  }

  lemma RemovedMembers(list: seq<int>, pos: nat, y: int)
    requires pos < |list| && y != list[pos]
    ensures y in RemovedAt(list, pos) <==> y in list
  {
    assert list == list[..pos] + [list[pos]] + list[pos + 1..];
  }

  lemma Removed(lists: seq<seq<int>>, inUse: seq<bool>, sizes: Sizes, k: int, pos: nat)
    requires ListsOk(lists, inUse, sizes) && 0 <= k < 128 && pos < |lists[k]|
    ensures
      var l := RemovedAt(lists[k], pos);
      ListsOk(lists[k := l], if k > 0 && l == [] then inUse[k := false] else inUse, sizes - {lists[k][pos]})
  {
    var x := lists[k][pos];
    var lists', sizes' := lists[k := RemovedAt(lists[k], pos)], sizes - {x};
    assert ListOk(lists[k], k, sizes);
    forall i | 0 <= i < 128 ensures ListOk(lists'[i], i, sizes') {
      assert ListOk(lists[i], i, sizes);
      if i == k { RemovedList(lists[k], k, sizes, pos); }
    }
    forall y | y in sizes' ensures Filed(lists', sizes', y) {
      assert Filed(lists, sizes, y);
      if Home(sizes[y]) == k { RemovedMembers(lists[k], pos, y); }
    }
  }

  // ----- the bitmap, 128 bits, read in words of 32

  /** The value of a byte given by its bits, least significant first. */
  function ByteValue(b: seq<bool>): int
    requires |b| == 8
  {
    (if b[0] then 1 else 0) + (if b[1] then 2 else 0) + (if b[2] then 4 else 0) + (if b[3] then 8 else 0)
    + (if b[4] then 16 else 0) + (if b[5] then 32 else 0) + (if b[6] then 64 else 0) + (if b[7] then 128 else 0)
  }

  /** RtlpBitsClearLow (rtl/heap.c:31-49), whose sixteen rows differ in the first column only. */
  function BitsClearLow(v: int): int
    requires 0 <= v < 256
  {
    if v % 16 == 0 then [8, 4, 5, 4, 6, 4, 5, 4, 7, 4, 5, 4, 6, 4, 5, 4][v / 16]
    else [0, 0, 1, 0, 2, 0, 1, 0, 3, 0, 1, 0, 2, 0, 1, 0][v % 16]
  }

  /** RtlpFindLeastSetBit (rtl/heap.c:53-69). */
  function FindLeastSetBit(bits: seq<bool>): int
    requires |bits| == 32
  {
    if true in bits[..16] then
      if true in bits[..8] then BitsClearLow(ByteValue(bits[..8]))
      else BitsClearLow(ByteValue(bits[8..16])) + 8
    else
      if true in bits[16..24] then BitsClearLow(ByteValue(bits[16..24])) + 16
      else BitsClearLow(ByteValue(bits[24..32])) + 24
  }

  ghost predicate IsLeast(bits: seq<bool>, k: int) {
    0 <= k < |bits| && bits[k] && forall j :: 0 <= j < k ==> !bits[j]
  }

  function Nibble(b: seq<bool>): int
    requires |b| == 4
  {
    (if b[0] then 1 else 0) + (if b[1] then 2 else 0) + (if b[2] then 4 else 0) + (if b[3] then 8 else 0)
  }

  lemma LeastInNibble(b: seq<bool>)
    requires |b| == 4
    ensures 0 <= Nibble(b) < 16 && (Nibble(b) == 0 <==> true !in b)
    ensures true in b ==> IsLeast(b, BitsClearLow(Nibble(b)))
    ensures BitsClearLow(16 * Nibble(b)) == if true in b then 4 + BitsClearLow(Nibble(b)) else 8
  {
  }

  lemma ByteNibbles(b: seq<bool>)
    requires |b| == 8
    ensures ByteValue(b) == 16 * Nibble(b[4..]) + Nibble(b[..4])
  {
  }

  lemma LowNibble(high: int, low: int)
    requires 0 <= high < 16 && 0 < low < 16
    ensures BitsClearLow(16 * high + low) == BitsClearLow(low)
  {
    assert (16 * high + low) % 16 == low;
  }

  lemma LeastInParts(a: seq<bool>, b: seq<bool>, k: int)
    ensures IsLeast(a, k) ==> IsLeast(a + b, k)
    ensures true !in a && IsLeast(b, k) ==> IsLeast(a + b, |a| + k)
  {
    forall j | true !in a && 0 <= j < |a| ensures !a[j] { assert a[j] in a; }
  }

  lemma LeastInByte(b: seq<bool>)
    requires |b| == 8
    ensures true in b ==> IsLeast(b, BitsClearLow(ByteValue(b)))
    ensures true !in b ==> BitsClearLow(ByteValue(b)) == 8
  {
    var low, high := Nibble(b[..4]), Nibble(b[4..]);
    ByteNibbles(b);
    assert b == b[..4] + b[4..];
    LeastInNibble(b[..4]);
    LeastInNibble(b[4..]);
    if low != 0 {
      LowNibble(high, low);
      LeastInParts(b[..4], b[4..], BitsClearLow(low));
    } else if high != 0 {
      LeastInParts(b[..4], b[4..], BitsClearLow(high));
    }
  }

  /** The table lookup finds the lowest set bit of a word; 32 when there is none. */
  lemma LeastInWord(bits: seq<bool>)
    requires |bits| == 32
    ensures true in bits ==> IsLeast(bits, FindLeastSetBit(bits))
    ensures true !in bits ==> FindLeastSetBit(bits) == 32
  {
    LeastInByte(bits[..8]);
    LeastInByte(bits[8..16]);
    LeastInByte(bits[16..24]);
    LeastInByte(bits[24..32]);
    assert bits == bits[..8] + bits[8..16] + bits[16..24] + bits[24..32];
    assert bits[..16] == bits[..8] + bits[8..16];
  }

  /** `& ~((1 << k) - 1)`: the bits from k on. */
  function MaskedFrom(bits: seq<bool>, k: int): (r: seq<bool>)
    ensures |r| == |bits|
  {
    seq(|bits|, i requires 0 <= i < |bits| => i >= k && bits[i])
  }

  /** The scan for the smallest list that fits (rtl/heap.c:2058-2082); 128 when there is none. */
  method FindList(inUse: seq<bool>, index: int) returns (k: int)
    requires |inUse| == 128 && 0 < index < 128
    ensures index <= k <= 128 && (k < 128 ==> inUse[k])
    ensures forall j :: index <= j < k ==> !inUse[j]
  {
    var i := index / 32;
    var word := MaskedFrom(inUse[32 * i..32 * i + 32], index % 32);
    while i < 4 && true !in word
      invariant index / 32 <= i <= 4 && |word| == 32
      invariant forall j :: index <= j < 32 * i && j < 128 ==> !inUse[j]
      invariant i < 4 ==> forall j :: 0 <= j < 32 ==> word[j] == (32 * i + j >= index && inUse[32 * i + j])
    {
      assert forall j :: index <= j && 32 * i <= j < 32 * i + 32 ==> inUse[j] == word[j - 32 * i];
      i := i + 1;
      if i < 4 {
        word := inUse[32 * i..32 * i + 32];
      }
    }
    if i == 4 {
      return 128;
    }
    LeastInWord(word);
    k := 32 * i + FindLeastSetBit(word);
    assert forall j :: index <= j && 32 * i <= j < 32 * i + 32 ==> inUse[j] == word[j - 32 * i];
  }

  /** What the found list means: its blocks fit, and no listed block that fits is smaller. */
  lemma BestFit(lists: seq<seq<int>>, inUse: seq<bool>, sizes: Sizes, index: int, k: int, y: int)
    requires ListsOk(lists, inUse, sizes) && 0 < index <= k <= 128
    requires forall j :: index <= j < k ==> !inUse[j]
    requires y in sizes && sizes[y] >= index
    ensures sizes[y] >= k
  {
    assert Filed(lists, sizes, y);
    assert sizes[y] < 128 ==> inUse[sizes[y]];
  }

  /** Some listed block is large enough. */
  ghost predicate Fitting(sizes: Sizes, index: int) {
    exists x :: x in sizes && sizes[x] >= index
  }

  /** The block at a fits and no listed block that fits is smaller. */
  ghost predicate IsBest(sizes: Sizes, a: int, index: int) {
    a in sizes && sizes[a] >= index && forall x :: x in sizes && sizes[x] >= index ==> sizes[a] <= sizes[x]
  }

  /** The last member of the list found is a best fit. */
  lemma FoundBest(lists: seq<seq<int>>, inUse: seq<bool>, sizes: Sizes, index: int, k: int)
    requires ListsOk(lists, inUse, sizes) && 0 < index <= k < 128 && lists[k] != []
    requires forall j :: index <= j < k ==> !inUse[j]
    ensures IsBest(sizes, lists[k][|lists[k]| - 1], index) && sizes[lists[k][|lists[k]| - 1]] == k
  {
    assert ListOk(lists[k], k, sizes);
    forall y | y in sizes && sizes[y] >= index ensures sizes[y] >= k {
      BestFit(lists, inUse, sizes, index, k, y);
    }
  }

  /** When no dedicated list has a fitting block, the first one in list zero is a best fit. */
  lemma ZeroBest(lists: seq<seq<int>>, inUse: seq<bool>, sizes: Sizes, index: int, pos: nat)
    requires ListsOk(lists, inUse, sizes) && 0 < index && pos <= |lists[0]|
    requires forall j :: index <= j < 128 ==> !inUse[j]
    requires forall j :: 0 <= j < pos ==> sizes[lists[0][j]] < index
    requires pos < |lists[0]| ==> sizes[lists[0][pos]] >= index
    ensures pos < |lists[0]| ==> IsBest(sizes, lists[0][pos], index)
    ensures pos == |lists[0]| ==> !Fitting(sizes, index)
  {
    assert ListOk(lists[0], 0, sizes);
    forall y | y in sizes && sizes[y] >= index
      ensures pos < |lists[0]| && sizes[lists[0][pos]] <= sizes[y]
    {
      if index <= 128 { BestFit(lists, inUse, sizes, index, 128, y); }
      assert Filed(lists, sizes, y);
      var j :| 0 <= j < |lists[0]| && lists[0][j] == y;
    }
  }

  // ----- which of the blocks that are equally good

  /** The block has come before all blocks of its size or more, and behind all smaller ones. */
  ghost predicate InsertedBefore(list: seq<int>, sizes: Sizes, a: int, size: int, list': seq<int>) {
    exists pos: nat :: pos <= |list| && list' == InsertedAt(list, pos, a)
      && (forall j :: 0 <= j < pos ==> list[j] in sizes && sizes[list[j]] < size)
      && (pos < |list| ==> list[pos] in sizes && sizes[list[pos]] >= size)
  }

  /** The block has left list k; no other list changes. */
  ghost predicate TakenFrom(lists: seq<seq<int>>, k: int, a: int, lists': seq<seq<int>>) {
    && 0 <= k < |lists|
    && exists pos: nat :: pos < |lists[k]| && lists[k][pos] == a && lists' == lists[k := RemovedAt(lists[k], pos)]
  }

  lemma LastOfFirst(lists: seq<seq<int>>, inUse: seq<bool>, sizes: Sizes, index: int, k: int, a: int)
    requires ListsOk(lists, inUse, sizes) && 0 < index <= k < 128 && lists[k] != [] && a == lists[k][|lists[k]| - 1]
    requires forall j :: index <= j < k ==> !inUse[j]
    ensures FirstChoice(lists, sizes, index, a)
  {
    forall j | index <= j < k ensures lists[j] == [] { assert !inUse[j]; }
  }

  lemma FirstInZero(lists: seq<seq<int>>, inUse: seq<bool>, sizes: Sizes, index: int, pos: nat, a: int)
    requires ListsOk(lists, inUse, sizes) && index > 0 && forall j :: index <= j < 128 ==> !inUse[j]
    requires pos < |lists[0]| && a == lists[0][pos] && a in sizes && sizes[a] >= index
    requires forall j :: 0 <= j < pos ==> lists[0][j] in sizes && sizes[lists[0][j]] < index
    ensures FirstChoice(lists, sizes, index, a)
  {
    forall j | index <= j < 128 ensures lists[j] == [] { assert !inUse[j]; }
  }

  /** The last block of the first dedicated list in use from the index on, or if there is none, the first block of
      list zero that is large enough. */
  ghost predicate FirstChoice(lists: seq<seq<int>>, sizes: Sizes, index: int, a: int)
    requires |lists| == 128 && index > 0
  {
    if exists j :: index <= j < 128 && lists[j] != [] then
      exists k :: index <= k < 128 && lists[k] != [] && (forall j :: index <= j < k ==> lists[j] == [])
        && a == lists[k][|lists[k]| - 1]
    else
      exists pos: nat :: pos < |lists[0]| && a == lists[0][pos] && a in sizes && sizes[a] >= index
        && forall j :: 0 <= j < pos ==> lists[0][j] in sizes && sizes[lists[0][j]] < index
  }
}
