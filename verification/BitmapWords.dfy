/** 32-bit words as their bits, and the word operations that the bitmap code uses (rtl/bitmap.c). */
module BitmapWords {

  /** A ULONG: bit k of the value is element k. */
  type Word = w: seq<bool> | |w| == 32 witness seq(32, _ => false)

  function Zero(): Word {
    seq(32, _ => false)
  }

  function Not(w: Word): Word {
    seq(32, j requires 0 <= j < 32 => !w[j])
  }

  function Or(a: Word, b: Word): Word {
    seq(32, j requires 0 <= j < 32 => a[j] || b[j])
  }

  function And(a: Word, b: Word): Word {
    seq(32, j requires 0 <= j < 32 => a[j] && b[j])
  }

  function ShiftRight(w: Word, k: nat): Word {
    seq(32, j requires 0 <= j < 32 => j + k < 32 && w[j + k])
  }

  function ShiftLeft(w: Word, k: nat): Word {
    seq(32, j requires 0 <= j < 32 => j >= k && w[j - k])
  }

  predicate IsZero(w: Word) {
    true !in w
  }

  /** BitScanForward. */
  function LowestBit(w: Word): (k: nat)
    requires !IsZero(w)
    ensures k < 32 && w[k] && forall j :: 0 <= j < k ==> !w[j]
  {
    Lowest(w, 0)
  }

  function Lowest(w: Word, from: nat): (k: nat)
    requires from <= 32 && (forall j :: 0 <= j < from ==> !w[j]) && true in w
    ensures k < 32 && w[k] && forall j :: 0 <= j < k ==> !w[j]
    decreases 32 - from
  {
    if w[from] then from
    else Lowest(w, from + 1)
  }

  type Words = seq<Word>

  /** Bit i of a buffer. */
  predicate Bit(words: Words, i: nat)
    requires i < 32 * |words|
  {
    words[i / 32][i % 32]
  }

  /** How many bits from start on have the value v, counted one by one. */
  function Run(words: Words, size: nat, start: nat, v: bool): (r: nat)
    requires size <= 32 * |words|
    ensures start <= size ==> start + r <= size
    decreases size - start
  {
    if start < size && Bit(words, start) == v then 1 + Run(words, size, start + 1, v) else 0
  }

  /** Bits start up to end all have the value v. */
  ghost predicate All(words: Words, start: nat, end: nat, v: bool)
    requires end <= 32 * |words|
  {
    forall i :: start <= i < end ==> Bit(words, i) == v
  }

  /** A run is exactly the bits up to the first one that differs. */
  lemma {:induction false} RunIs(words: Words, size: nat, start: nat, v: bool, end: nat)
    requires start <= end <= size <= 32 * |words| && All(words, start, end, v) && (end < size ==> Bit(words, end) != v)
    ensures Run(words, size, start, v) == end - start
    decreases end - start
  {
    if start < end { RunIs(words, size, start + 1, v, end); }
  }

  lemma {:induction false} RunAll(words: Words, size: nat, start: nat, v: bool)
    requires start <= size <= 32 * |words|
    ensures All(words, start, start + Run(words, size, start, v), v)
    ensures start + Run(words, size, start, v) < size ==> Bit(words, start + Run(words, size, start, v)) != v
    decreases size - start
  {
    if start < size && Bit(words, start) == v {
      RunAll(words, size, start + 1, v);
    }
  }

  lemma {:induction false} RunAtLeast(words: Words, size: nat, start: nat, v: bool, end: nat)
    requires start <= end <= size <= 32 * |words| && All(words, start, end, v)
    ensures Run(words, size, start, v) >= end - start
    decreases end - start
  {
    if start < end { RunAtLeast(words, size, start + 1, v, end); }
  }

  /** From inside a run, the run is shorter by the distance. */
  lemma RunInside(words: Words, size: nat, start: nat, v: bool, i: nat)
    requires start <= size <= 32 * |words| && start <= i <= start + Run(words, size, start, v)
    ensures Run(words, size, i, v) == start + Run(words, size, start, v) - i
  {
    RunAll(words, size, start, v);
    RunIs(words, size, i, v, start + Run(words, size, start, v));
  }
}
