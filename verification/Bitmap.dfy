/** Bitmaps (rtl/bitmap.c). */
module Bitmap {
  import opened BitmapWords
  import opened BitmapSearch

  /** MAXINDEX. */
  const MaxIndex: nat := 0xFFFFFFFF

  function Min(a: nat, b: nat): nat {
    if a < b then a else b
  }

  /** RTL_BITMAP. The last words of the index range are left out, so that rounding up to whole words does
      not wrap around. */
  class BitMap {
    const SizeOfBitMap: nat
    const Buffer: array<Word>

    ghost predicate Valid()
      reads this
    {
      SizeOfBitMap <= 32 * Buffer.Length && SizeOfBitMap <= IndexRange - 64
    }

    /** RtlInitializeBitMap (rtl/bitmap.c:258-268). */
    constructor (buffer: array<Word>, size: nat)
      requires size <= 32 * buffer.Length && size <= IndexRange - 64
      ensures Valid() && Buffer == buffer && SizeOfBitMap == size
    {
      Buffer, SizeOfBitMap := buffer, size;
    }

    /** Skip all words without a bit that ends the run (rtl/bitmap.c:125-129, 179-182). */
    method SkipWords(start: nat, first: Word, end: nat, v: bool) returns (b: nat, value: Word)
      requires Valid() && end <= Buffer.Length && Scanned(Buffer[..], start, start / 32 + 1, first, v)
      ensures Scanned(Buffer[..], start, b, value, v)
      ensures IsZero(value) ==> b >= end
    {
      value, b := first, start / 32 + 1;
      while IsZero(value) && b < end
        invariant Scanned(Buffer[..], start, b, value, v)
      {
        NextScanned(Buffer[..], start, b, value, v, if v then Not(Buffer[b]) else Buffer[b]);
        value := if v then Not(Buffer[b]) else Buffer[b];
        b := b + 1;
      }
    }

    /** RtlpGetLengthOfRunClear and RtlpGetLengthOfRunSet (rtl/bitmap.c:97-203), which differ in
        inverting the words. The count may stop at maxLength when the run is at least that long. */
    method GetLengthOfRun(start: nat, maxLength: nat, v: bool) returns (length: nat)
      requires Valid()
      ensures
        var run := Run(Buffer[..], SizeOfBitMap, start, v);
        var most := Min(maxLength, if start < SizeOfBitMap then SizeOfBitMap - start else 0);
        length == run || (length == most <= run)
    {
      if start >= SizeOfBitMap {
        return 0;
      }
      // calculate positions
      var b, bitPos := start / 32, start % 32;
      var most := Min(maxLength, SizeOfBitMap - start);
      var end := b + (bitPos + most + 31) / 32;
      // clear the bits that don't belong to this run
      var value := ShiftLeft(ShiftRight(if v then Not(Buffer[b]) else Buffer[b], bitPos), bitPos);
      b, value := SkipWords(start, value, end, v);
      if IsZero(value) {
        ReachedEnd(Buffer[..], SizeOfBitMap, start, b, value, v, most);
        return most;
      }
      // check how many bits are left, and make sure we don't go past the last bit
      bitPos := LowestBit(value);
      length := 32 * b - start + bitPos - 32;
      HitBit(Buffer[..], SizeOfBitMap, start, b, value, v, bitPos);
      if length > SizeOfBitMap - start {
        length := SizeOfBitMap - start;
      }
    }

    /** The word at b gets value v where the mask has a bit. */
    method Paint(b: nat, mask: Word, v: bool, ghost from: nat, ghost to: nat)
      requires Valid() && b < Buffer.Length && 32 * b <= from <= to <= 32 * b + 32
      requires forall j :: 0 <= j < 32 ==> mask[j] == (from <= 32 * b + j < to)
      modifies Buffer
      ensures Painted(old(Buffer[..]), Buffer[..], from, to, v)
    {
      Buffer[b] := if v then Or(Buffer[b], mask) else And(Buffer[b], Not(mask));
    }

    /** RtlFillMemoryUlong over count words. */
    method FillWords(b: nat, count: nat, v: bool)
      requires Valid() && b + count <= Buffer.Length
      modifies Buffer
      ensures Painted(old(Buffer[..]), Buffer[..], 32 * b, 32 * (b + count), v)
    {
      var w: Word := seq(32, _ => v);
      forall k | 0 <= k < count {
        Buffer[b + k] := w;
      }
    }

    /** RtlSetBits and RtlClearBits (rtl/bitmap.c:308-423), which differ in the value written. */
    method SetBits(start: nat, number: nat, v: bool)
      requires Valid() && start + number <= SizeOfBitMap
      modifies Buffer
      ensures Painted(old(Buffer[..]), Buffer[..], start, start + number, v)
    {
      ghost var words := Buffer[..];
      var b, bits, n := start / 32, start % 32, number;
      // are we unaligned?
      if bits != 0 {
        // create a mask by shifting
        var mask := ShiftLeft(Not(Zero()), bits);
        bits := 32 - bits;
        if n < bits {
          // fix up the mask on the high side
          bits := bits - n;
          mask := ShiftRight(ShiftLeft(mask, bits), bits);
          Paint(b, mask, v, start, start + number);
          return;
        }
        Paint(b, mask, v, start, 32 * b + 32);
        b, n := b + 1, n - bits;
      }
      ghost var middle := Buffer[..];
      FillWords(b, n / 32, v);
      PaintedTwice(words, middle, Buffer[..], start, 32 * b, 32 * (b + n / 32), v);
      b, n := b + n / 32, n % 32;
      if n != 0 {
        middle := Buffer[..];
        Paint(b, Not(ShiftLeft(Not(Zero()), n)), v, 32 * b, 32 * b + n);
        PaintedTwice(words, middle, Buffer[..], start, 32 * b, 32 * b + n, v);
      }
    }

    /** RtlAreBitsClear and RtlAreBitsSet (rtl/bitmap.c:437-467). */
    method AreBits(start: nat, length: nat, v: bool) returns (r: bool)
      requires Valid() && start < IndexRange && length < IndexRange
      ensures r <==> length > 0 && Window(Buffer[..], SizeOfBitMap, start, length, v)
    {
      // a sum that wraps around is not greater than the start
      var end := (start + length) % IndexRange;
      if end > SizeOfBitMap || end <= start {
        return false;
      }
      var run := GetLengthOfRun(start, length, v);
      RunWindow(Buffer[..], SizeOfBitMap, start, length, v);
      r := run >= length;
    }

    /** RtlFindNextForwardRunClear and RtlFindNextForwardRunSet (rtl/bitmap.c:690-735). */
    method FindNextForwardRun(from: nat, v: bool) returns (length: nat, start: nat)
      requires Valid()
      ensures from >= SizeOfBitMap ==> length == 0 && start == from
      ensures from < SizeOfBitMap ==> start == from + Run(Buffer[..], SizeOfBitMap, from, !v)
      ensures length == Run(Buffer[..], SizeOfBitMap, start, v)
    {
      if from >= SizeOfBitMap {
        return 0, from;
      }
      length := GetLengthOfRun(from, MaxIndex, !v);
      start := from + length;
      length := GetLengthOfRun(start, MaxIndex, v);
    }

    /** RtlFindLongestRunClear and RtlFindLongestRunSet (rtl/bitmap.c:893-955): the longest run, and the
        first place where one that long starts. */
    method FindLongestRun(v: bool) returns (longest: nat, start: nat)
      requires Valid()
      ensures forall i :: 0 <= i ==> Run(Buffer[..], SizeOfBitMap, i, v) <= longest
      ensures longest > 0 ==> Run(Buffer[..], SizeOfBitMap, start, v) == longest
      ensures longest > 0 ==> forall i :: 0 <= i < start ==> Run(Buffer[..], SizeOfBitMap, i, v) < longest
    {
      var from := 0;
      longest, start := 0, 0;
      while true
        invariant 0 <= from <= SizeOfBitMap
        invariant forall i :: 0 <= i < from ==> Run(Buffer[..], SizeOfBitMap, i, v) <= longest
        invariant longest > 0 ==> Run(Buffer[..], SizeOfBitMap, start, v) == longest
        invariant longest > 0 ==> forall i :: 0 <= i < start ==> Run(Buffer[..], SizeOfBitMap, i, v) < longest
        decreases SizeOfBitMap - from
      {
        var number, index := FindNextForwardRun(from, v);
        if from < SizeOfBitMap { RunsBetween(Buffer[..], SizeOfBitMap, from, v); }
        if number == 0 { break; }
        if number > longest {
          longest, start := number, index;
        }
        // the scan advances by the length only, and so meets the ends of runs again
        from := from + number;
      }
    }

    /** Skip the other bits and count the ones wanted (rtl/bitmap.c:543-559, 611-627). */
    method NextRun(from: nat, number: nat, v: bool) returns (at: nat, length: nat)
      requires Valid() && from < SizeOfBitMap && number > 0
      ensures at == from + Run(Buffer[..], SizeOfBitMap, from, !v)
      ensures length >= number <==> Run(Buffer[..], SizeOfBitMap, at, v) >= number
      ensures length < number ==> length == Run(Buffer[..], SizeOfBitMap, at, v)
      ensures length >= number ==> FirstWindow(Buffer[..], SizeOfBitMap, from, number, v, at)
      ensures length < number ==>
                && from < at + length <= SizeOfBitMap
                && (at + length < SizeOfBitMap ==> Bit(Buffer[..], at + length) != v)
                && forall i :: from <= i < at + length ==> !Window(Buffer[..], SizeOfBitMap, i, number, v)
    {
      RunsBetween(Buffer[..], SizeOfBitMap, from, v);
      at := GetLengthOfRun(from, MaxIndex, !v);
      at := from + at;
      length := GetLengthOfRun(at, number, v);
      if length >= number {
        RunWindow(Buffer[..], SizeOfBitMap, at, number, v);
        FirstRun(Buffer[..], SizeOfBitMap, from, number, v);
      } else {
        NoWindow(Buffer[..], SizeOfBitMap, from, number, v);
        RunAll(Buffer[..], SizeOfBitMap, at, v);
      }
    }

    /** One round of the loop, as Search has it. */
    method NextRound(current: nat, margin: nat, number: nat, v: bool, ghost n: nat)
      returns (found: bool, at: nat, next: nat)
      requires Valid() && current < SizeOfBitMap && number > 0 && GoesOn(current, number, margin, v)
      requires Search(Buffer[..], SizeOfBitMap, number, margin, v, current, n) != Running
      ensures n > 0 && current <= at
      ensures found ==> Search(Buffer[..], SizeOfBitMap, number, margin, v, current, n) == Found(at)
      ensures !found ==> (Search(Buffer[..], SizeOfBitMap, number, margin, v, current, n)
                          == Search(Buffer[..], SizeOfBitMap, number, margin, v, next, n - 1))
      ensures found ==> FirstWindow(Buffer[..], SizeOfBitMap, current, number, v, at)
      ensures !found ==> current < next <= SizeOfBitMap && (next < SizeOfBitMap ==> Bit(Buffer[..], next) != v)
      ensures !found ==> forall i :: current <= i < next ==> !Window(Buffer[..], SizeOfBitMap, i, number, v)
    {
      var length;
      at, length := NextRun(current, number, v);
      found, next := length >= number, at + length;
      Round(Buffer[..], SizeOfBitMap, number, margin, v, current, at, next, n);
    }

    /** One pass over the bitmap (rtl/bitmap.c:536-560 and 604-628), if it ends. The test for clear bits is strict,
        the one for set bits is not. */
    method SearchFrom(from: nat, margin: nat, number: nat, v: bool) returns (found: bool, at: nat)
      requires Valid() && 0 < number <= margin <= SizeOfBitMap && from < SizeOfBitMap
      requires Ends(Buffer[..], SizeOfBitMap, number, margin, v, from)
      ensures found <==> Finds(Buffer[..], SizeOfBitMap, number, margin, v, from)
      ensures found ==> FirstWindow(Buffer[..], SizeOfBitMap, from, number, v, at)
      ensures found ==> if v then from + number <= margin else from + number < margin
      ensures !found ==> forall i :: i >= from && Window(Buffer[..], SizeOfBitMap, i, number, v) ==>
                i + number > margin || (!v && i == from && from + number == margin)
    {
      ghost var words := Buffer[..];
      ghost var n := FirstOutcome(words, SizeOfBitMap, number, margin, v, from);
      ghost var outcome := Search(words, SizeOfBitMap, number, margin, v, from, n);
      var current := from;
      while GoesOn(current, number, margin, v)
        invariant Search(words, SizeOfBitMap, number, margin, v, current, n) == outcome
        invariant from <= current <= SizeOfBitMap && (current > from ==> GoesOn(from, number, margin, v))
        invariant forall i :: from <= i < current ==> !Window(words, SizeOfBitMap, i, number, v)
        invariant current == from || current == SizeOfBitMap || Bit(words, current) != v
        decreases SizeOfBitMap - current
      {
        if current == SizeOfBitMap { StuckAtEnd(words, SizeOfBitMap, number, margin, v, n); }
        var next;
        found, at, next := NextRound(current, margin, number, v, n);
        if found {
          InTime(from, number, margin, v);
          return;
        }
        current, n := next, n - 1;
      }
      PassMissed(words, SizeOfBitMap, number, margin, v, from, current);
      found, at := false, 0;
    }

    /** RtlFindSetBits (v) and RtlFindClearBits (not v) (rtl/bitmap.c:509-641). Set bits are found whenever
        there are enough of them in a row anywhere, whatever the hint; clear bits too, unless the whole
        bitmap is asked for. The place is the first one from the hint on, or if there is none, the first of all. */
    method FindBits(number: nat, hint: nat, v: bool) returns (r: nat)
      requires Valid() && number < IndexRange && Returns(Buffer[..], SizeOfBitMap, number, hint, v)
      ensures number == 0 ==> r == (if hint >= SizeOfBitMap then 0 else hint - hint % 8)
      ensures number > 0 && r != MaxIndex ==>
                var from := if hint >= SizeOfBitMap then 0 else hint;
                var ahead := FoundAhead(Buffer[..], SizeOfBitMap, from, number, v);
                FirstWindow(Buffer[..], SizeOfBitMap, if ahead then from else 0, number, v, r)
      ensures number > 0 ==> (r == MaxIndex <==>
                (!v && number == SizeOfBitMap) || forall i :: 0 <= i ==>
                          !Window(Buffer[..], SizeOfBitMap, i, number, v))
    {
      if number > SizeOfBitMap {
        return MaxIndex;
      }
      // check if the hint is outside the bitmap
      var hintIndex := if hint >= SizeOfBitMap then 0 else hint;
      if number == 0 {
        return hintIndex - hintIndex % 8;
      }
      if hintIndex + number >= IndexRange {
        WrappingHint(Buffer[..], SizeOfBitMap, number, v, hintIndex);
      }
      var found, at := SearchFrom(hintIndex, SizeOfBitMap, number, v);
      assert found <==> FoundAhead(Buffer[..], SizeOfBitMap, hintIndex, number, v);
      if !found && hintIndex != 0 {
        // retry at the start
        found, at := SearchFrom(0, Min((hintIndex + number) % IndexRange, SizeOfBitMap), number, v);
      }
      r := if found then at else MaxIndex;
    }

    /** RtlFindSetBitsAndClear and RtlFindClearBitsAndSet (rtl/bitmap.c:643-688): the bits found change
        their value, nothing else does, and nothing at all if none were found. */
    method FindBitsAndFlip(number: nat, hint: nat, v: bool) returns (r: nat)
      requires Valid() && number < IndexRange && Returns(Buffer[..], SizeOfBitMap, number, hint, v)
      modifies Buffer
      ensures r == MaxIndex ==> Buffer[..] == old(Buffer[..])
      ensures number == 0 ==> r == (if hint >= SizeOfBitMap then 0 else hint - hint % 8)
      ensures r != MaxIndex ==> Painted(old(Buffer[..]), Buffer[..], r, r + number, !v)
      ensures number > 0 && r != MaxIndex ==>
                var from := if hint >= SizeOfBitMap then 0 else hint;
                var ahead := FoundAhead(old(Buffer[..]), SizeOfBitMap, from, number, v);
                FirstWindow(old(Buffer[..]), SizeOfBitMap, if ahead then from else 0, number, v, r)
      ensures number > 0 ==> (r == MaxIndex <==>
                (!v && number == SizeOfBitMap) || forall i :: 0 <= i ==>
                          !Window(old(Buffer[..]), SizeOfBitMap, i, number, v))
    {
      r := FindBits(number, hint, v);
      if r != MaxIndex {
        SetBits(r, number, !v);
      }
    }
  }

  /** Bits from..to have the value v, all others are as before. */
  ghost predicate Painted(a: Words, b: Words, from: nat, to: nat, v: bool) {
    |a| == |b| && forall i :: 0 <= i < 32 * |a| ==> Bit(b, i) == if from <= i < to then v else Bit(a, i)
  }

  lemma PaintedTwice(a: Words, b: Words, c: Words, from: nat, mid: nat, to: nat, v: bool)
    requires Painted(a, b, from, mid, v) && Painted(b, c, mid, to, v) && from <= mid <= to
    ensures Painted(a, c, from, to, v)
  {
  }

  /** All bits from start up to word b - 1 have the value v, and value marks the bits of that word, from
      start on, that have not. */
  ghost predicate Scanned(words: Words, start: nat, b: nat, value: Word, v: bool) {
    && start / 32 < b <= |words| && (b == start / 32 + 1 || start <= 32 * (b - 1))
    && (start <= 32 * (b - 1) ==> All(words, start, 32 * (b - 1), v))
    && (forall j :: 0 <= j < 32 && 32 * (b - 1) + j >= start ==> value[j] == (words[b - 1][j] != v))
    && (forall j :: 0 <= j < 32 && 32 * (b - 1) + j < start ==> !value[j])
  }

  /** Bits of the word that do not end the run extend it. */
  lemma WordEqual(words: Words, start: nat, b: nat, value: Word, v: bool, n: nat)
    requires Scanned(words, start, b, value, v) && n <= 32 && forall j :: 0 <= j < n ==> !value[j]
    ensures All(words, start, 32 * (b - 1) + n, v)
  {
    forall i | start <= i < 32 * (b - 1) + n ensures Bit(words, i) == v {
      if i >= 32 * (b - 1) {
        assert !value[i - 32 * (b - 1)];
      }
    }
  }

  lemma NextScanned(words: Words, start: nat, b: nat, value: Word, v: bool, next: Word)
    requires Scanned(words, start, b, value, v) && IsZero(value) && b < |words|
    requires next == if v then Not(words[b]) else words[b]
    ensures Scanned(words, start, b + 1, next, v)
  {
    WordEqual(words, start, b, value, v, 32);
  }

  lemma ReachedEnd(words: Words, size: nat, start: nat, b: nat, value: Word, v: bool, most: nat)
    requires Scanned(words, start, b, value, v) && IsZero(value)
    requires start + most <= size <= 32 * |words| && start + most <= 32 * b
    ensures most <= Run(words, size, start, v)
  {
    WordEqual(words, start, b, value, v, 32);
    RunAtLeast(words, size, start, v, start + most);
  }

  lemma HitBit(words: Words, size: nat, start: nat, b: nat, value: Word, v: bool, pos: nat)
    requires Scanned(words, start, b, value, v) && pos < 32 && value[pos] && forall j :: 0 <= j < pos ==> !value[j]
    requires start <= size <= 32 * |words|
    ensures
      var length := 32 * b - start + pos - 32;
      length >= 0 && Run(words, size, start, v) == if length > size - start then size - start else length
  {
    WordEqual(words, start, b, value, v, pos);
    var end := 32 * (b - 1) + pos;
    assert Bit(words, end) != v;
    RunIs(words, size, start, v, if end > size then size else end);
  }
}
