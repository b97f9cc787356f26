/** Division by multiplication with a reciprocal, and for which reciprocals it is exact
    (rtl/largeint.c:150-219). */
module MagicDivide {

  const B := 0x1_0000_0000
  const Q := 0x1_0000_0000_0000_0000
  const MaxDividend := 0x7FFF_FFFF_FFFF_FFFF

  function Pow2(n: nat): (r: int)
    ensures r > 0
  {
    if n == 0 then 1 else 2 * Pow2(n - 1)
  }

  function Wrap(x: int): int {
    x % Q
  }

  function Lower(x: int): int {
    x % B
  }

  function Upper(x: int): int {
    x / B
  }

  predicate InRange(dividend: int, magic: int, shift: int) {
    -MaxDividend <= dividend <= MaxDividend && 0 <= magic < Q && 0 <= shift < 64
  }

  function Abs(x: int): int {
    if x < 0 then -x else x
  }

  /** The high 64 bits of the product, as the source computes them, with every 64-bit sum and product cut
      off. */
  function HighPart(a: int, m: int): int {
    var ah, al, mh, ml := Upper(a), Lower(a), Upper(m), Lower(m);
    Combined(Wrap(ah * mh), Wrap(ah * ml), Wrap(al * mh), Wrap(al * ml))
  }

  function Combined(high: int, ahBl: int, alBh: int, low: int): int {
    Wrap(high + Upper(ahBl) + Upper(alBh) + Upper(Wrap(Lower(ahBl) + Lower(alBh) + Upper(low))))
  }

  /** A 64-bit number read as signed. */
  function Signed(x: int): int {
    if x % Q > MaxDividend then x % Q - Q else x % Q
  }

  /** RtlExtendedMagicDivide, for every dividend but the most negative one. */
  function Divide(dividend: int, magic: int, shift: nat): int
    requires InRange(dividend, magic, shift)
  {
    var r := Signed(HighPart(Abs(dividend), magic) / Pow2(shift));
    if dividend < 0 then Signed(-r) else r
  }

  // ----- the product

  lemma Monotone(x: int, c: int, y: int)
    requires x <= c && 0 <= y
    ensures x * y <= c * y
  {
  }

  lemma Product(x: int, y: int)
    requires 0 <= x < B && 0 <= y < B
    ensures 0 <= x * y <= (B - 1) * (B - 1)
  {
    Monotone(0, x, y);
    Monotone(x, B - 1, y);
  }

  lemma Halves(x: int)
    requires 0 <= x < Q
    ensures x == Upper(x) * B + Lower(x) && 0 <= Upper(x) < B && 0 <= Lower(x) < B
  {
  }

  /** The product from the products of the halves. */
  lemma ProductOfHalves(ah: int, al: int, mh: int, ml: int)
    ensures (ah * B + al) * (mh * B + ml) == ah * mh * Q + (ah * ml + al * mh) * B + al * ml
  {
    var a := ah * B + al;
    assert a * (mh * B + ml) == a * mh * B + a * ml;
    assert a * mh == ah * mh * B + al * mh;
    assert a * ml == ah * ml * B + al * ml;
  }

  /** Adding up the partial products overflows nowhere: the result is the quotient by 2^64. */
  lemma CombinedIs(h: int, x: int, y: int, z: int)
    requires 0 <= h < Q && 0 <= x < Q && 0 <= y < Q && 0 <= z < Q
    requires 0 <= (h * Q + (x + y) * B + z) / Q < Q
    ensures Combined(h, x, y, z) == (h * Q + (x + y) * B + z) / Q
  {
    Halves(x);
    Halves(y);
    Halves(z);
    var mid := Lower(x) + Lower(y) + Upper(z);
    Halves(mid);
    var k := h + Upper(x) + Upper(y) + Upper(mid);
    QuotientOfSum(h, x, y, z, Upper(x), Lower(x), Upper(y), Lower(y), Upper(z), Lower(z), Upper(mid), Lower(mid), k);
    InWord(mid);
    InWord(k);
  }

  lemma InWord(x: int)
    requires 0 <= x < Q
    ensures Wrap(x) == x
  {
  }

  /** Carrying the upper halves over. */
  lemma QuotientOfSum(h: int, x: int, y: int, z: int, xu: int, xl: int, yu: int, yl: int, zu: int, zl: int,
                      mu: int, ml: int, k: int)
    requires x == xu * B + xl && y == yu * B + yl && z == zu * B + zl && xl + yl + zu == mu * B + ml
    requires 0 <= ml < B && 0 <= zl < B && k == h + xu + yu + mu
    ensures (h * Q + (x + y) * B + z) / Q == k
  {
    var p, r := h * Q + (x + y) * B + z, ml * B + zl;
    assert p == k * Q + r;
    assert 0 <= r < Q;
  }

  lemma WrapIs(h: int, x: int, y: int, z: int)
    requires 0 <= h < Q && 0 <= x < Q && 0 <= y < Q && 0 <= z < Q
    ensures Wrap(h) == h && Wrap(x) == x && Wrap(y) == y && Wrap(z) == z
  {
  }

  lemma HalvesCombined(ah: int, al: int, mh: int, ml: int, p: int)
    requires 0 <= ah < B && 0 <= al < B && 0 <= mh < B && 0 <= ml < B
    requires p == (ah * B + al) * (mh * B + ml) && 0 <= p / Q < Q
    ensures Combined(Wrap(ah * mh), Wrap(ah * ml), Wrap(al * mh), Wrap(al * ml)) == p / Q
  {
    Product(ah, ml);
    Product(al, mh);
    Product(al, ml);
    Product(ah, mh);
    ProductOfHalves(ah, al, mh, ml);
    var h, x, y, z := ah * mh, ah * ml, al * mh, al * ml;
    WrapIs(h, x, y, z);
    assert p == h * Q + (x + y) * B + z;
    CombinedIs(h, x, y, z);
  }

  /** What comes out is the high part of the product. */
  lemma HighPartIs(a: int, m: int)
    requires 0 <= a <= MaxDividend && 0 <= m < Q
    ensures HighPart(a, m) == a * m / Q
    ensures 0 <= a * m / Q <= MaxDividend
  {
    Halves(a);
    Halves(m);
    var p := a * m;
    HighBound(a, m, p / Q);
    HalvesCombined(Upper(a), Lower(a), Upper(m), Lower(m), p);
  }

  /** None of the sums and products needs more than 64 bits. */
  lemma NothingWraps(a: int, m: int)
    requires 0 <= a <= MaxDividend && 0 <= m < Q
    ensures
      var high, ahBl, alBh, low := Upper(a) * Upper(m), Upper(a) * Lower(m), Lower(a) * Upper(m), Lower(a) * Lower(m);
      var carry := Lower(ahBl) + Lower(alBh) + Upper(low);
      && 0 <= high < Q && 0 <= ahBl < Q && 0 <= alBh < Q && 0 <= low < Q && 0 <= carry < Q
      && 0 <= high + Upper(ahBl) + Upper(alBh) + Upper(carry) < Q
  {
    Halves(a);
    Halves(m);
    Product(Upper(a), Upper(m));
    Product(Upper(a), Lower(m));
    Product(Lower(a), Upper(m));
    Product(Lower(a), Lower(m));
    var high, ahBl, alBh, low := Upper(a) * Upper(m), Upper(a) * Lower(m), Lower(a) * Upper(m), Lower(a) * Lower(m);
    SumFits(high, ahBl, alBh, low);
  }

  lemma SumFits(h: int, x: int, y: int, z: int)
    requires 0 <= h <= (B - 1) * (B - 1) && 0 <= x <= (B - 1) * (B - 1) && 0 <= y <= (B - 1) * (B - 1)
        && 0 <= z <= (B - 1) * (B - 1)
    ensures 0 <= Lower(x) + Lower(y) + Upper(z) < Q
    ensures 0 <= h + Upper(x) + Upper(y) + Upper(Lower(x) + Lower(y) + Upper(z)) < Q
  {
  }

  lemma HighBound(a: int, m: int, k: int)
    requires 0 <= a <= MaxDividend && 0 <= m < Q && k == a * m / Q
    ensures 0 <= k <= MaxDividend
  {
    assert 0 <= a * m <= MaxDividend * m;
  }

  lemma {:induction false} PowSum(m: nat, n: nat)
    ensures Pow2(m + n) == Pow2(m) * Pow2(n)
    decreases m
  {
    if m > 0 {
      PowSum(m - 1, n);
      assert 2 * (Pow2(m - 1) * Pow2(n)) == 2 * Pow2(m - 1) * Pow2(n);
    }
  }

  lemma PowQ()
    ensures Pow2(64) == Q
  {
    assert Pow2(8) == 256;
    PowSum(8, 8);
    PowSum(16, 16);
    PowSum(32, 32);
  }

  lemma QuotientIs(x: int, d: int, k: int, r: int)
    requires d > 0 && x == k * d + r && 0 <= r < d
    ensures x / d == k
  {
    var j, s := x / d, x % d;
    assert (j - k) * d == r - s;
    if j > k { Monotone(1, j - k, d); } else if j < k { Monotone(1, k - j, d); }
  }

  lemma DivideTwice(p: int, a: int, b: int)
    requires p >= 0 && a > 0 && b > 0
    ensures a * b > 0 && p / a / b == p / (a * b)
  {
    var k, r := p / a, p % a;
    var j, t := k / b, k % b;
    Monotone(1, a, b);
    Monotone(t, b - 1, a);
    Monotone(0, t, a);
    assert p == (j * b + t) * a + r;
    assert (j * b + t) * a == j * (a * b) + t * a;
    QuotientIs(p, a * b, j, t * a + r);
  }

  /** The result is the product divided by 2^(64 + shift), rounded toward zero; in particular no
      intermediate value overflows. */
  lemma DivideIs(dividend: int, magic: int, shift: nat)
    requires InRange(dividend, magic, shift)
    ensures
      var q := Abs(dividend) * magic / Pow2(64 + shift);
      Divide(dividend, magic, shift) == if dividend < 0 then -q else q
  {
    var p := Abs(dividend) * magic;
    HighPartIs(Abs(dividend), magic);
    HighQuotient(p, shift);
    SignedIs(p / Q / Pow2(shift));
  }

  lemma HighQuotient(p: int, shift: nat)
    requires 0 <= p / Q <= MaxDividend
    ensures p / Q / Pow2(shift) == p / Pow2(64 + shift) && 0 <= p / Q / Pow2(shift) <= MaxDividend
  {
    PowQ();
    PowSum(64, shift);
    DivideTwice(p, Q, Pow2(shift));
    Below(p / Q, Pow2(shift));
  }

  lemma SignedIs(x: int)
    requires 0 <= x <= MaxDividend
    ensures Signed(x) == x && Signed(-x) == -x
  {
  }

  lemma Below(x: int, d: int)
    requires x >= 0 && d > 0
    ensures 0 <= x / d <= x
  {
    var q := x / d;
    Bounds(x, d, q);
    if q < 0 { Monotone(q + 1, 0, d); } else { Monotone(1, d, q); }
  }

  lemma Bounds(x: int, d: int, q: int)
    requires d > 0
    ensures x / d == q <==> q * d <= x < (q + 1) * d
  {
    if q * d <= x < (q + 1) * d { QuotientIs(x, d, q, x - q * d); }
  }

  // ----- exact division

  /** Division as C does it. */
  function Truncated(dividend: int, divisor: int): int
    requires divisor > 0
  {
    if dividend < 0 then -(-dividend / divisor) else dividend / divisor
  }

  /** By how much the reciprocal, scaled by the divisor, is too large. */
  function Excess(magic: int, divisor: int, shift: nat): int {
    magic * divisor - Pow2(64 + shift)
  }

  /** The product of the dividend and the excess is between these multiples of k = 2^(64 + shift). */
  predicate Tight(n: int, d: int, e: int, k: int)
    requires d > 0
  {
    -(n % d) * k <= n * e < (d - n % d) * k
  }

  /** For one dividend the division is exact exactly within these bounds. */
  lemma ExactFor(dividend: int, magic: int, divisor: int, shift: nat)
    requires InRange(dividend, magic, shift) && divisor > 0
    ensures Divide(dividend, magic, shift) == Truncated(dividend, divisor)
            <==> Tight(Abs(dividend), divisor, Excess(magic, divisor, shift), Pow2(64 + shift))
  {
    var n, k, e := Abs(dividend), Pow2(64 + shift), Excess(magic, divisor, shift);
    var same, tight := n * magic / k == n / divisor, Tight(n, divisor, e, k);
    assert same == tight by { QuotientBounds(n, magic, divisor, k); }
    assert Divide(dividend, magic, shift) == Truncated(dividend, divisor) <==> same by {
      SameQuotients(dividend, magic, divisor, shift);
    }
  }

  /** The signs play no part. */
  lemma SameQuotients(dividend: int, magic: int, divisor: int, shift: nat)
    requires InRange(dividend, magic, shift) && divisor > 0
    ensures Divide(dividend, magic, shift) == Truncated(dividend, divisor)
            <==> Abs(dividend) * magic / Pow2(64 + shift) == Abs(dividend) / divisor
  {
    DivideIs(dividend, magic, shift);
  }

  lemma Scaled(a: int, b: int, d: int)
    requires d > 0
    ensures a <= b <==> a * d <= b * d
    ensures a < b <==> a * d < b * d
  {
    if a <= b { Monotone(a, b, d); }
    if a < b { Monotone(1, b - a, d); }
    if a >= b { Monotone(b, a, d); }
    if a > b { Monotone(1, a - b, d); }
  }

  lemma QuotientBounds(n: int, m: int, d: int, k: int)
    requires n >= 0 && d > 0 && k > 0
    ensures n * m / k == n / d <==> Tight(n, d, m * d - k, k)
  {
    var q, r, x := n / d, n % d, n * m;
    Bounds(x, k, q);
    Scaled(q * k, x, d);
    Scaled(x, (q + 1) * k, d);
    ScaledProduct(n, m, d, k, q, r);
  }

  lemma ScaledProduct(n: int, m: int, d: int, k: int, q: int, r: int)
    requires n == q * d + r
    ensures n * m * d == n * (m * d - k) + n * k
    ensures q * k * d == n * k - r * k && (q + 1) * k * d == n * k + (d - r) * k
    ensures -r * k == -(r * k)
  {
    assert n * k == q * d * k + r * k;
    assert q * d * k == q * k * d;
    assert n * m * d == n * (m * d);
    assert (q + 1) * k * d == q * k * d + k * d;
  }

  /** The largest dividend that leaves the largest remainder. */
  function Top(divisor: int): int
    requires divisor > 0
  {
    (MaxDividend + 1) / divisor * divisor - 1
  }

  lemma TopIs(d: int)
    requires 1 <= d <= MaxDividend
    ensures d - 1 <= Top(d) <= MaxDividend < Top(d) + d && Top(d) % d == d - 1
  {
    var q := (MaxDividend + 1) / d;
    Monotone(1, q, d);
    RemainderIs(Top(d), d, q - 1, d - 1);
  }

  lemma RemainderIs(x: int, d: int, q: int, r: int)
    requires d > 0 && x == q * d + r && 0 <= r < d
    ensures x % d == r
  {
    QuotientIs(x, d, q, r);
  }

  /** The bounds hold for every dividend when they hold for the largest one that leaves the largest
      remainder. */
  lemma TightBelow(n: int, d: int, e: int, k: int)
    requires 0 <= n <= MaxDividend && 1 <= d <= MaxDividend && k > 0 && e >= 0 && Top(d) * e < k
    ensures Tight(n, d, e, k)
  {
    var top, r := Top(d), n % d;
    TopIs(d);
    Monotone(0, n, e);
    Monotone(0, r, k);
    assert -r * k == -(r * k);
    Monotone(1, d - r, k);
    if n <= top {
      Monotone(n, top, e);
    } else {
      var j := n - top - 1;
      RemainderIs(n, d, (MaxDividend + 1) / d, j);
      Monotone(j + 1, top, e);
      assert n * e == top * e + (j + 1) * e;
      Monotone(2, d - r, k);
    }
  }

  ghost predicate AlwaysExact(magic: int, divisor: int, shift: nat)
    requires InRange(0, magic, shift) && divisor > 0
  {
    forall n {:trigger Divide(n, magic, shift)} :: InRange(n, magic, shift) ==>
              Divide(n, magic, shift) == Truncated(n, divisor)
  }

  /** The division is exact for every dividend exactly when the reciprocal is rounded up, and by so little
      that the one critical dividend comes out right. */
  lemma ExactForAll(magic: int, divisor: int, shift: nat)
    requires InRange(0, magic, shift) && 1 <= divisor <= MaxDividend
    ensures AlwaysExact(magic, divisor, shift)
            <==> Excess(magic, divisor, shift) >= 0 && Top(divisor) * Excess(magic, divisor, shift) < Pow2(64 + shift)
  {
    var e, k, top := Excess(magic, divisor, shift), Pow2(64 + shift), Top(divisor);
    TopIs(divisor);
    if e >= 0 && top * e < k {
      forall n | InRange(n, magic, shift) ensures Divide(n, magic, shift) == Truncated(n, divisor) {
        TightBelow(Abs(n), divisor, e, k);
        ExactFor(n, magic, divisor, shift);
      }
    } else if e < 0 {
      RoundedDown(magic, divisor, shift);
    } else {
      ExactFor(top, magic, divisor, shift);
      assert (divisor - (divisor - 1)) * k == k;
    }
  }

  /** With a reciprocal that is rounded down, as the comment at rtl/largeint.c:160 suggests, dividing the
      divisor by itself gives no longer one. */
  lemma RoundedDown(magic: int, divisor: int, shift: nat)
    requires InRange(0, magic, shift) && 1 <= divisor <= MaxDividend && Excess(magic, divisor, shift) < 0
    ensures Divide(divisor, magic, shift) != 1 == Truncated(divisor, divisor)
  {
    var e := Excess(magic, divisor, shift);
    RemainderIs(divisor, divisor, 1, 0);
    QuotientIs(divisor, divisor, 1, 0);
    ExactFor(divisor, magic, divisor, shift);
    NotTight(divisor, e, Pow2(64 + shift));
  }

  lemma NotTight(d: int, e: int, k: int)
    requires d > 0 && e < 0 && d % d == 0
    ensures !Tight(d, d, e, k)
  {
    Monotone(e, -1, d);
    assert -(d % d) * k == 0;
  }
}
