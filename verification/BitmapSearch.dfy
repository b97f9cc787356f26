/** Bitmap searches (rtl/bitmap.c:509-641). */
module BitmapSearch {
  import opened BitmapWords

  /** All bits from start on, n of them, have the value v. */
  ghost predicate Window(words: Words, size: nat, start: nat, n: nat, v: bool) {
    size <= 32 * |words| && start + n <= size && All(words, start, start + n, v)
  }

  /** The first window that starts at `from` or behind it starts at r. */
  ghost predicate FirstWindow(words: Words, size: nat, from: nat, n: nat, v: bool, r: nat) {
    r >= from && Window(words, size, r, n, v) && forall i :: from <= i < r ==> !Window(words, size, i, n, v)
  }

  /** Some window starts at `from` or behind it, and it is looked for there: for clear bits, not if `from` is the
      last place with room. */
  ghost predicate FoundAhead(words: Words, size: nat, from: nat, n: nat, v: bool) {
    (if v then from + n <= size else from + n < size) && exists i :: i >= from && Window(words, size, i, n, v)
  }

  /** Index sums wrap around at 2^32. */
  const IndexRange: nat := 0x1_0000_0000

  /** A window of n equal bits is a run of at least n. */
  lemma RunWindow(words: Words, size: nat, start: nat, n: nat, v: bool)
    requires size <= 32 * |words| && start + n <= size
    ensures Window(words, size, start, n, v) <==> Run(words, size, start, v) >= n
  {
    RunAll(words, size, start, v);
    if Window(words, size, start, n, v) { RunAtLeast(words, size, start, v, start + n); }
  }

  /** What the next run says about all the runs that start before it ends. */
  lemma RunsBetween(words: Words, size: nat, from: nat, v: bool)
    requires from < size <= 32 * |words|
    ensures
      var index := from + Run(words, size, from, !v);
      var number := Run(words, size, index, v);
      && index <= size && index + number <= size
      && (number == 0 ==> index == size)
      && (forall i :: from <= i < index ==> Run(words, size, i, v) == 0)
      && (forall i :: index <= i <= index + number ==> Run(words, size, i, v) == index + number - i)
      && (forall i :: i >= size ==> Run(words, size, i, v) == 0)
  {
    var index := from + Run(words, size, from, !v);
    RunAll(words, size, from, !v);
    var number := Run(words, size, index, v);
    forall i | index <= i <= index + number ensures Run(words, size, i, v) == index + number - i {
      RunInside(words, size, index, v, i);
    }
  }

  /** A run shorter than n leaves no window that starts before its end. */
  lemma NoWindow(words: Words, size: nat, from: nat, n: nat, v: bool)
    requires from < size <= 32 * |words| && n > 0
    requires var index := from + Run(words, size, from, !v); Run(words, size, index, v) < n
    ensures
      var index := from + Run(words, size, from, !v);
      forall i :: from <= i < index + Run(words, size, index, v) ==> !Window(words, size, i, n, v)
  {
    RunsBetween(words, size, from, v);
    var index := from + Run(words, size, from, !v);
    forall i | from <= i < index + Run(words, size, index, v) ensures !Window(words, size, i, n, v) {
      if i + n <= size { RunWindow(words, size, i, n, v); }
    }
  }

  /** If the next run is long enough, no window starts before it. */
  lemma FirstRun(words: Words, size: nat, from: nat, n: nat, v: bool)
    requires from < size <= 32 * |words| && n > 0
    ensures
      var index := from + Run(words, size, from, !v);
      forall i :: from <= i < index ==> !Window(words, size, i, n, v)
  {
    RunsBetween(words, size, from, v);
    forall i | from <= i < from + Run(words, size, from, !v) ensures !Window(words, size, i, n, v) {
      if i + n <= size { RunWindow(words, size, i, n, v); }
    }
  }

  // ----- one pass over the bitmap, as its rounds

  /** The test of the loop, whose sum wraps around (rtl/bitmap.c:540, 608): strict for clear bits only. */
  predicate GoesOn(c: nat, number: nat, margin: nat, v: bool) {
    var sum := (c + number) % IndexRange;
    if v then sum <= margin else sum < margin
  }

  datatype Pass = Running | Missed | Found(at: nat)

  /** At most n rounds from position c on. */
  ghost function Search(words: Words, size: nat, number: nat, margin: nat, v: bool, c: nat, n: nat): Pass
    requires size <= 32 * |words|
    decreases n
  {
    if !GoesOn(c, number, margin, v) then Missed
    else if n == 0 then Running
    else
      var at := c + Run(words, size, c, !v);
      var length := Run(words, size, at, v);
      if length >= number then Found(at) else Search(words, size, number, margin, v, at + length, n - 1)
  }

  /** The pass comes to an end. */
  ghost predicate Ends(words: Words, size: nat, number: nat, margin: nat, v: bool, from: nat)
    requires size <= 32 * |words|
  {
    exists n: nat :: Search(words, size, number, margin, v, from, n) != Running
  }

  ghost predicate Finds(words: Words, size: nat, number: nat, margin: nat, v: bool, from: nat)
    requires size <= 32 * |words|
  {
    exists n: nat :: Search(words, size, number, margin, v, from, n).Found?
  }

  /** A pass that has ended stays as it ended. */
  lemma {:induction false} SameEnd(words: Words, size: nat, number: nat, margin: nat, v: bool, c: nat, n: nat, m: nat)
    requires size <= 32 * |words| && Search(words, size, number, margin, v, c, n) != Running && n <= m
    ensures Search(words, size, number, margin, v, c, m) == Search(words, size, number, margin, v, c, n)
    decreases n
  {
    if GoesOn(c, number, margin, v) {
      var at := c + Run(words, size, c, !v);
      var length := Run(words, size, at, v);
      var next := at + length;
      Round(words, size, number, margin, v, c, at, next, n);
      Round(words, size, number, margin, v, c, at, next, m);
      if length < number { SameEnd(words, size, number, margin, v, next, n - 1, m - 1); }
    }
  }

  lemma OneOutcome(words: Words, size: nat, number: nat, margin: nat, v: bool, c: nat, n: nat)
    requires size <= 32 * |words| && Search(words, size, number, margin, v, c, n) != Running
    ensures Finds(words, size, number, margin, v, c) <==> Search(words, size, number, margin, v, c, n).Found?
  {
    if Finds(words, size, number, margin, v, c) {
      var m: nat :| Search(words, size, number, margin, v, c, m).Found?;
      SameEnd(words, size, number, margin, v, c, n, n + m);
      SameEnd(words, size, number, margin, v, c, m, n + m);
    }
  }

  lemma FirstOutcome(words: Words, size: nat, number: nat, margin: nat, v: bool, c: nat) returns (n: nat)
    requires size <= 32 * |words| && Ends(words, size, number, margin, v, c)
    ensures Search(words, size, number, margin, v, c, n) != Running
    ensures Finds(words, size, number, margin, v, c) <==> Search(words, size, number, margin, v, c, n).Found?
  {
    n :| Search(words, size, number, margin, v, c, n) != Running;
    OneOutcome(words, size, number, margin, v, c, n);
  }

  lemma InTime(from: nat, number: nat, margin: nat, v: bool)
    requires GoesOn(from, number, margin, v) && from + number < IndexRange
    ensures if v then from + number <= margin else from + number < margin
  {
  }

  /** A pass that stops at c has missed no window, except that for clear bits it does not look at the last place. */
  lemma PassMissed(words: Words, size: nat, number: nat, margin: nat, v: bool, from: nat, c: nat)
    requires 0 < number <= margin <= size <= 32 * |words| && size < IndexRange && from <= c <= size
    requires !GoesOn(c, number, margin, v) && forall i :: from <= i < c ==> !Window(words, size, i, number, v)
    requires c == from || c == size || Bit(words, c) != v
    ensures forall i :: i >= from && Window(words, size, i, number, v) ==>
              i + number > margin || (!v && i == from && from + number == margin)
  {
    StopsIs(c, number, margin, v);
  }

  /** The pass that goes on at the end of the bitmap goes on for ever. */
  lemma {:induction false} StuckAtEnd(words: Words, size: nat, number: nat, margin: nat, v: bool, n: nat)
    requires size <= 32 * |words| && number > 0 && GoesOn(size, number, margin, v)
    ensures Search(words, size, number, margin, v, size, n) == Running
    decreases n
  {
    if n > 0 { StuckAtEnd(words, size, number, margin, v, n - 1); }
  }

  /** Where the rounds of a pass from `from` on can begin: there, where bits of the value wanted end, and at the
      end of the bitmap. */
  ghost predicate Visited(words: Words, size: nat, v: bool, from: nat, c: nat)
    requires size <= 32 * |words|
  {
    from <= c <= size && (c == from || c == size || (c > 0 && Bit(words, c - 1) == v && Bit(words, c) != v))
  }

  /** The sum neither wraps around nor passes the test. */
  predicate Stops(c: nat, number: nat, margin: nat, v: bool) {
    c + number < IndexRange && if v then c + number > margin else c + number >= margin
  }

  lemma StopsIs(c: nat, number: nat, margin: nat, v: bool)
    requires 0 < number <= margin && c < IndexRange && margin < IndexRange
    ensures Stops(c, number, margin, v) <==> !GoesOn(c, number, margin, v)
  {
    if c + number >= IndexRange { assert (c + number) % IndexRange == c + number - IndexRange; }
  }

  /** The next round begins at a position of that kind, and passes over no other, nor over a window. */
  lemma NextVisited(words: Words, size: nat, number: nat, v: bool, from: nat, c: nat)
    requires from <= c < size <= 32 * |words| && number > 0
    requires var at := c + Run(words, size, c, !v); Run(words, size, at, v) < number
    ensures
      var at := c + Run(words, size, c, !v);
      var next := at + Run(words, size, at, v);
      && c < next <= size && Visited(words, size, v, from, next)
      && (forall i :: c < i < next ==> !Visited(words, size, v, from, i))
      && (forall i :: c <= i < next ==> !Window(words, size, i, number, v))
  {
    var at := c + Run(words, size, c, !v);
    var next := at + Run(words, size, at, v);
    RunsBetween(words, size, c, v);
    RunAll(words, size, c, !v);
    RunAll(words, size, at, v);
    NoWindow(words, size, c, number, v);
    forall i | c < i < next ensures !Visited(words, size, v, from, i) {
      if i <= at {
        assert Bit(words, i - 1) == !v;
      } else {
        assert Bit(words, i) == v;
      }
    }
  }

  /** From c on there is a window, or a position where the pass stops. */
  ghost predicate Ahead(words: Words, size: nat, number: nat, margin: nat, v: bool, from: nat, c: nat)
    requires size <= 32 * |words|
  {
    (exists i :: i >= c && Window(words, size, i, number, v))
    || exists i :: i >= c && Visited(words, size, v, from, i) && Stops(i, number, margin, v)
  }

  lemma AheadNext(words: Words, size: nat, number: nat, margin: nat, v: bool, from: nat, c: nat)
    requires from <= c < size <= 32 * |words| && number > 0 && Ahead(words, size, number, margin, v, from, c)
    requires !Stops(c, number, margin, v)
    requires var at := c + Run(words, size, c, !v); Run(words, size, at, v) < number
    ensures
      var at := c + Run(words, size, c, !v);
      var next := at + Run(words, size, at, v);
      c < next <= size && Ahead(words, size, number, margin, v, from, next)
  {
    NextVisited(words, size, number, v, from, c);
    var at := c + Run(words, size, c, !v);
    var next := at + Run(words, size, at, v);
    if i :| i >= c && Window(words, size, i, number, v) {
      assert i >= next;
    } else {
      var i :| i >= c && Visited(words, size, v, from, i) && Stops(i, number, margin, v);
      assert i >= next;
    }
  }

  /** From a position on, the pass ends if there is a window ahead or a position where it stops. */
  lemma {:induction false} ComesToEnd(words: Words, size: nat, number: nat, margin: nat, v: bool, from: nat, c: nat)
    requires 0 < number <= margin <= size <= 32 * |words| && size < IndexRange && from <= c <= size
    requires Ahead(words, size, number, margin, v, from, c)
    ensures Ends(words, size, number, margin, v, c)
    decreases size - c
  {
    StopsIs(c, number, margin, v);
    if !GoesOn(c, number, margin, v) {
      assert Search(words, size, number, margin, v, c, 0) == Missed;
      return;
    }
    if c == size { return; }
    var at := c + Run(words, size, c, !v);
    var length := Run(words, size, at, v);
    if length >= number {
      assert Search(words, size, number, margin, v, c, 1) == Found(at);
      return;
    }
    AheadNext(words, size, number, margin, v, from, c);
    ComesToEnd(words, size, number, margin, v, from, at + length);
    OneMore(words, size, number, margin, v, c);
  }

  /** One round more. */
  lemma {:induction false} Round(words: Words, size: nat, number: nat, margin: nat, v: bool, c: nat, at: nat, next: nat,
      n: nat)
    requires size <= 32 * |words| && GoesOn(c, number, margin, v) && n > 0
    requires at == c + Run(words, size, c, !v)
    requires Run(words, size, at, v) < number ==> next == at + Run(words, size, at, v)
    ensures Search(words, size, number, margin, v, c, n)
         == if Run(words, size, at, v) >= number then Found(at) else Search(words, size, number, margin, v, next, n - 1)
  {
  }

  lemma {:induction false} OneMore(words: Words, size: nat, number: nat, margin: nat, v: bool, c: nat)
    requires size <= 32 * |words| && GoesOn(c, number, margin, v)
    requires
      var at := c + Run(words, size, c, !v);
      Run(words, size, at, v) < number && Ends(words, size, number, margin, v, at + Run(words, size, at, v))
    ensures Ends(words, size, number, margin, v, c)
  {
    var at := c + Run(words, size, c, !v);
    var next := at + Run(words, size, at, v);
    var n: nat :| Search(words, size, number, margin, v, next, n) != Running;
    Round(words, size, number, margin, v, c, at, next, n + 1);
  }

  /** A pass that ends has come to a window, or to a position where it stops. */
  lemma {:induction false} HasEnd(words: Words, size: nat, number: nat, margin: nat, v: bool, from: nat, c: nat, n: nat)
    requires 0 < number <= margin <= size <= 32 * |words| && size < IndexRange && Visited(words, size, v, from, c)
    requires Search(words, size, number, margin, v, c, n) != Running
    ensures Ahead(words, size, number, margin, v, from, c)
    decreases n
  {
    StopsIs(c, number, margin, v);
    if GoesOn(c, number, margin, v) {
      if c == size { StuckAtEnd(words, size, number, margin, v, n); }
      var at := c + Run(words, size, c, !v);
      var length := Run(words, size, at, v);
      if length >= number {
        RunAll(words, size, c, !v);
        RunWindow(words, size, at, number, v);
        assert Window(words, size, at, number, v);
      } else {
        NextVisited(words, size, number, v, from, c);
        HasEnd(words, size, number, margin, v, from, at + length, n - 1);
      }
    }
  }

  /** Exactly when a pass ends: there is a window ahead, or a position that is visited and whose sum with the
      number neither wraps around nor passes the test. */
  lemma EndsExactly(words: Words, size: nat, number: nat, margin: nat, v: bool, from: nat)
    requires 0 < number <= margin <= size <= 32 * |words| && size < IndexRange && from < size
    ensures Ends(words, size, number, margin, v, from) <==>
              (exists i :: i >= from && Window(words, size, i, number, v))
              || exists c :: c >= from && Visited(words, size, v, from, c) && Stops(c, number, margin, v)
  {
    if Ends(words, size, number, margin, v, from) {
      var n: nat :| Search(words, size, number, margin, v, from, n) != Running;
      HasEnd(words, size, number, margin, v, from, from, n);
    } else if (exists i :: i >= from && Window(words, size, i, number, v))
              || exists c :: c >= from && Visited(words, size, v, from, c) && Stops(c, number, margin, v) {
      ComesToEnd(words, size, number, margin, v, from, from);
    }
  }

  /** Where no sum wraps around, every pass ends. */
  lemma AlwaysEnds(words: Words, size: nat, number: nat, margin: nat, v: bool, from: nat)
    requires 0 < number <= margin <= size <= 32 * |words| && from < size && size + number < IndexRange
    ensures Ends(words, size, number, margin, v, from)
  {
    assert Visited(words, size, v, from, size) && Stops(size, number, margin, v);
    EndsExactly(words, size, number, margin, v, from);
  }

  /** A bitmap without any of the bits wanted, large enough for the sum to wrap around at its end: the first pass
      goes to the end and stays there. */
  lemma SearchStalls(words: Words, size: nat, number: nat, v: bool)
    requires size <= 32 * |words| && size < IndexRange && 0 < number <= size && size + number >= IndexRange
    requires (v || number < size) && All(words, 0, size, !v)
    ensures !Ends(words, size, number, size, v, 0)
  {
    EndsExactly(words, size, number, size, v, 0);
    forall i | i >= 0 ensures !Window(words, size, i, number, v) {
      if i < size { assert Bit(words, i) == !v; }
    }
    forall c | c >= 0 ensures Visited(words, size, v, 0, c) ==> !Stops(c, number, size, v) {
      if 0 < c < size { assert Bit(words, c - 1) == !v; }
    }
  }

  /** The whole search ends: the pass from the hint, and if that misses, the one from the start. */
  ghost predicate Returns(words: Words, size: nat, number: nat, hint: nat, v: bool)
    requires size <= 32 * |words|
  {
    0 < number <= size ==>
      var from := if hint >= size then 0 else hint;
      var margin := (from + number) % IndexRange;
      && Ends(words, size, number, size, v, from)
      && (from > 0 && !Finds(words, size, number, size, v, from) ==>
            Ends(words, size, number, if margin < size then margin else size, v, 0))
  }

  /** Where no sum wraps around, the search returns. */
  lemma AlwaysReturns(words: Words, size: nat, number: nat, hint: nat, v: bool)
    requires size <= 32 * |words| && size + number < IndexRange
    ensures Returns(words, size, number, hint, v)
  {
    if 0 < number <= size {
      var from := if hint >= size then 0 else hint;
      var margin := (from + number) % IndexRange;
      AlwaysEnds(words, size, number, size, v, from);
      AlwaysEnds(words, size, number, if margin < size then margin else size, v, 0);
    }
  }

  /** If the hint and the number wrap around, the first pass never ends. */
  lemma WrappingHint(words: Words, size: nat, number: nat, v: bool, from: nat)
    requires 0 < number <= size <= 32 * |words| && from < size < IndexRange && from + number >= IndexRange
    ensures !Ends(words, size, number, size, v, from)
  {
    EndsExactly(words, size, number, size, v, from);
  }
}
