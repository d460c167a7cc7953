/**
 Division (bignum.c): two limbs by one, with and without a double-width type (Algorithm D of
 section 4.3.1 of The Art of Computer Programming, volume 2), and long division (HAC 14.20).
 */
module Division {
  import opened Arith
  import opened Limbs
  import opened Core
  import opened ExpMod
  import opened Shift

  // ----- Two limbs by one

  // What both versions compute: quotient and remainder if the quotient fits a limb, and all
  // ones otherwise
  predicate DividesTwoByOne(u1: Limb, u0: Limb, d: Limb, q: Limb, r: Limb)
  {
    if d == 0 || u1 >= d then q == BETA - 1 && r == BETA - 1
    else q == (u1 * BETA + u0) / d && r == (u1 * BETA + u0) % d
  }

  lemma {:induction false} QuotientFits(u1: Limb, u0: Limb, d: Limb)
    requires u1 < d
    ensures 0 <= (u1 * BETA + u0) / d < BETA
  {
    var v := u1 * BETA + u0;
    DivModBasics(v, d);
    MulLe(0, u1, 0, BETA);
    MulLe(u1 + 1, d, BETA, BETA);
    MulDistrib(BETA, u1, 1);
    QuotientWithin(v / d, v % d, d, BETA);
  }

  method IntDivWide(u1: Limb, u0: Limb, d: Limb) returns (q: Limb, r: Limb)
    ensures DividesTwoByOne(u1, u0, d, q, r)
  {
    hide BETA;
    if d == 0 || u1 >= d {
      return BETA - 1, BETA - 1;
    }
    var dividend := u1 * BETA + u0;
    var quotient := dividend / d;
    QuotientFits(u1, u0, d);
    if quotient > BETA - 1 {
      quotient := BETA - 1;
    }
    DivModBasics(dividend, d);
    return quotient, Wrap(dividend - quotient * d);
  }

  // One digit of Algorithm D in half-limb base h: u * h + w divided by d = d1 * h + d0, where
  // d1 has its top bit set. The estimate u / d1 is at most two too large.
  lemma {:induction false} EstimateStart(u: int, d1: int, d0: int, w: int, h: int, q: int)
    requires 0 < d1 < h <= 2 * d1 && 0 <= d0 < h && 0 <= u < d1 * h + d0 && 0 <= w < h && q * d1 <= u < q * d1 + d1
    ensures 0 <= q <= h + 1 && d1 * h >= 0 && (u * h + w) / (d1 * h + d0) <= q
  {
    MulLe(0, d1, 0, h);
    EstimateCap(u, d1, d0, q, h);
    var d, v := d1 * h + d0, u * h + w;
    DivModBasics(v, d);
    EstimateNotBelow(u, d1, d0, w, h, q, v / d);
  }

  lemma {:induction false} EstimateNotBelow(u: int, d1: int, d0: int, w: int, h: int, q: int, t: int)
    requires 0 < d1 < h && 0 <= d0 < h && 0 <= u && 0 <= w < h && u < q * d1 + d1 && t * (d1 * h + d0) <= u * h + w
    ensures t <= q
  {
    MulDistrib(t, d1 * h, d0);
    EstimateLow(t, d1, d0, u, w, h);
    if t > q { MulMono(q + 1, t, d1); MulDistrib(d1, q, 1); }
  }

  lemma MulMono(a: int, b: int, c: int)
    requires a <= b && c >= 0
    ensures a * c <= b * c
  {
  }

  lemma EstimateCap(u: int, d1: int, d0: int, q: int, h: int)
    requires 0 < d1 < h <= 2 * d1 && 0 <= d0 < h && 0 <= u < d1 * h + d0 && q * d1 <= u < q * d1 + d1
    ensures 0 <= q <= h + 1
  {
    if q >= h + 2 {
      MulLe(h + 2, q, d1, d1);
      MulDistrib(d1, h, 2);
    }
    if q < 0 { MulLt(q, 0, d1); }
  }

  lemma EstimateLow(t: int, d1: int, d0: int, u: int, w: int, h: int)
    requires 0 < h && 0 <= d1 && 0 <= d0 && 0 <= w < h && 0 <= u && t * (d1 * h) + t * d0 <= u * h + w
    ensures t * d1 <= u
  {
    if t * d1 > u {
      MulLe(u + 1, t * d1, h, h);
      MulDistrib(h, u, 1);
      MulAssoc(t, d1, h);
      assert t > 0 by { if t <= 0 { MulNonPositive(t, d1); } }
      MulLe(0, t, 0, d0);
    }
  }

  lemma MulNonPositive(a: int, b: int)
    requires a <= 0 && b >= 0
    ensures a * b <= 0
  {
  }

  // The test q * d0 > h * r0 + w decides exactly whether q is too large
  lemma {:induction false} EstimateTest(u: int, d1: int, d0: int, w: int, h: int, q: int, r0: int)
    requires 0 < d1 && 0 < h && 0 <= d0 < h && 0 <= u < d1 * h + d0 && 0 <= w < h && q * d1 + r0 == u
    ensures d1 * h > 0
    ensures var t := (u * h + w) / (d1 * h + d0);
            0 <= t < h && (q * d0 > h * r0 + w <==> q > t)
  {
    MulLe(1, d1, 1, h);
    var d := d1 * h + d0;
    assert q * d == u * h - h * r0 + q * d0 by {
      MulDistrib(q, d1 * h, d0);
      MulAssoc(q, d1, h);
      MulDistrib(h, q * d1, r0);
    }
    EstimateQuotient(u * h + w, u, w, d, h, q);
  }

  lemma {:induction false} EstimateQuotient(v: int, u: int, w: int, d: int, h: int, q: int)
    requires 0 <= u < d && 0 <= w < h && v == u * h + w
    ensures 0 <= v / d < h && (q * d > v <==> q > v / d)
  {
    var t := v / d;
    DivModBasics(v, d);
    MulLe(0, u, 0, h);
    MulLe(u + 1, d, h, h);
    MulDistrib(h, u, 1);
    QuotientWithin(t, v % d, d, h);
    if q > t { MulLe(t + 1, q, d, d); MulDistrib(d, t, 1); }
    if q <= t { MulMono(q, t, d); }
  }

  // A digit to estimate: d = d1 * h + d0 with the top bit of d1 set, u < d
  predicate Digit(u: int, d1: int, d0: int, w: int, h: int)
  {
    0 < d1 < h <= 2 * d1 && 0 <= d0 < h && 0 <= u < d1 * h + d0 && 0 <= w < h && d1 * h > 0
  }

  // ... and its value
  function DigitOf(u: int, d: int, w: int, h: int): int
  {
    if d > 0 then (u * h + w) / d else 0
  }

  // The state of the loop below: the estimate q is not too small, r0 is its remainder by d1,
  // and neither side of the loop's test wraps around
  ghost predicate Estimate(q: int, r0: int, u: int, d1: int, d0: int, w: int, h: int)
  {
    && Digit(u, d1, d0, w, h)
    && DigitOf(u, d1 * h + d0, w, h) <= q <= h + 1 && 0 <= q && 0 <= r0 < h && q * d1 + r0 == u
    && 0 <= q * d0 < h * h && 0 <= h * r0 + w < h * h
  }

  lemma {:induction false} EstimateInit(u: int, d1: int, d0: int, w: int, h: int, q: int, r0: int)
    requires Digit(u, d1, d0, w, h) && q * d1 + r0 == u && 0 <= r0 < d1
    ensures Estimate(q, r0, u, d1, d0, w, h)
    ensures 0 <= DigitOf(u, d1 * h + d0, w, h) < h
  {
    EstimateStart(u, d1, d0, w, h, q);
    EstimateProducts(q, d0, r0, w, h);
    DigitBound(u, d1 * h + d0, w, h);
  }

  lemma {:induction false} DigitBound(u: int, d: int, w: int, h: int)
    requires 0 <= u < d && 0 <= w < h
    ensures 0 <= DigitOf(u, d, w, h) < h
  {
    EstimateQuotient(u * h + w, u, w, d, h, 0);
  }

  lemma {:induction false} EstimateStep(q: int, r0: int, u: int, d1: int, d0: int, w: int, h: int)
    requires Estimate(q, r0, u, d1, d0, w, h) && (q >= h || q * d0 > h * r0 + w)
    ensures q >= 1
    ensures r0 + d1 >= h ==> q - 1 == DigitOf(u, d1 * h + d0, w, h)
    ensures r0 + d1 < h ==> Estimate(q - 1, r0 + d1, u, d1, d0, w, h)
  {
    EstimateTest(u, d1, d0, w, h, q, r0);
    MulDistrib(d1, q, 1);
    EstimateTest(u, d1, d0, w, h, q - 1, r0 + d1);
    if r0 + d1 >= h {
      EstimateBreak(q - 1, d0, r0 + d1, w, h);
    } else {
      EstimateProducts(q - 1, d0, r0 + d1, w, h);
    }
  }

  lemma {:induction false} EstimateEnd(q: int, r0: int, u: int, d1: int, d0: int, w: int, h: int)
    requires Estimate(q, r0, u, d1, d0, w, h) && !(q >= h || q * d0 > h * r0 + w)
    ensures q == DigitOf(u, d1 * h + d0, w, h)
  {
    EstimateTest(u, d1, d0, w, h, q, r0);
  }

  lemma {:induction false} EstimateNoWrap(q: int, r0: int, u: int, d1: int, d0: int, w: int)
    requires Estimate(q, r0, u, d1, d0, w, HALF)
    ensures 0 <= q < BETA && Wrap(q * d0) == q * d0 && Wrap(HALF * r0 + w) == HALF * r0 + w
  {
    hide BETA, HALF, DigitOf;
    BaseLarge();
    BaseSplits();
  }

  // The loop that brings the estimate down
  method EstimateDigit(u: Limb, d1: Limb, d0: Limb, w: Limb) returns (q: Limb)
    requires d1 > 0 && Digit(u, d1, d0, w, HALF)
    ensures q == DigitOf(u, d1 * HALF + d0, w, HALF) && q < HALF
  {
    hide BETA, HALF, Estimate, Wrap, Digit, DigitOf;
    DivModBasics(u, d1);
    ShrBound(u, d1);
    q := u / d1;
    var r0: int := u - d1 * q;
    EstimateInit(u, d1, d0, w, HALF, q, r0);
    EstimateNoWrap(q, r0, u, d1, d0, w);
    while q >= HALF || Wrap(q * d0) > Wrap(HALF * r0 + w)
      invariant Estimate(q, r0, u, d1, d0, w, HALF)
      invariant Wrap(q * d0) == q * d0 && Wrap(HALF * r0 + w) == HALF * r0 + w
      decreases q
    {
      EstimateStep(q, r0, u, d1, d0, w, HALF);
      q := q - 1;
      r0 := r0 + d1;
      if r0 >= HALF { return; }
      EstimateNoWrap(q, r0, u, d1, d0, w);
    }
    EstimateEnd(q, r0, u, d1, d0, w, HALF);
  }

  // Neither side of the test wraps around
  lemma EstimateProducts(q: int, d0: int, r0: int, w: int, h: int)
    requires 0 <= q <= h + 1 && 0 <= d0 < h && 0 <= r0 < h && 0 <= w < h
    ensures 0 <= q * d0 < h * h && 0 <= h * r0 + w < h * h
  {
    MulLe(q, h + 1, d0, h - 1);
    MulExpand(h, 1, h, -1);
    MulLe(r0, h - 1, h, h);
    MulDistrib(h, h, 1);
  }

  lemma EstimateBreak(q: int, d0: int, r0: int, w: int, h: int)
    requires 0 <= q <= h && 0 <= d0 < h <= r0 && 0 <= w
    ensures q * d0 <= h * r0 + w
  {
    MulLe(q, h, d0, r0);
  }

  lemma {:induction false} NormalizedDivisor(d: Limb)
    requires d >= Pow2(BITS - 1)
    ensures Shr(d, HALF_BITS) == d / HALF && d == d / HALF * HALF + d % HALF
    ensures 0 < d / HALF < HALF <= 2 * (d / HALF) && 0 <= d % HALF < HALF
  {
    hide HALF, BETA, Pow2, Shr;
    ShiftHalf(d);
    HalfTop();
    DivModBasics(d, HALF);
    BaseSplits();
    TopHalf(d, HALF, Pow2(HALF_BITS - 1));
    BelowHalf(d, HALF);
  }

  lemma HalfTop()
    ensures HALF > 0 && HALF == 2 * Pow2(HALF_BITS - 1)
    ensures Pow2(BITS - 1) == Pow2(HALF_BITS - 1) * HALF && Pow2(HALF_BITS - 1) > 0
  {
    Pow2Add(HALF_BITS - 1, HALF_BITS);
    assert HALF_BITS - 1 + HALF_BITS == BITS - 1;
  }

  lemma BelowHalf(d: int, h: int)
    requires h > 0 && d < h * h
    ensures d / h < h
  {
    DivModBasics(d, h);
    var q := d / h;
    if q >= h { MulMono(h, q, h); }
  }

  lemma TopHalf(d: int, h: int, g: int)
    requires h > 0 && d >= g * h
    ensures d / h >= g
  {
    var q := d / h;
    DivModBasics(d, h);
    if q < g { MulMono(q + 1, g, h); MulDistrib(h, q, 1); }
  }

  lemma {:induction false} RemainderWraps(v: int, d: Limb, q: int)
    requires d > 0 && v >= 0 && q == v / d
    ensures Wrap(v - q * d) == v % d
  {
    DivModBasics(v, d);
  }

  // Two digits in half-limb base make one limb of quotient
  lemma {:induction false} TwoDigits(u: int, w1: int, w0: int, d: int, h: int)
    requires 0 <= u < d && 0 <= w1 < h && 0 <= w0 < h
    ensures var r1 := (u * h + w1) % d;
            var v := u * (h * h) + (w1 * h + w0);
            && 0 <= r1 < d
            && (u * h + w1) / d * h + (r1 * h + w0) / d == v / d
            && (r1 * h + w0) % d == v % d
  {
    var x := u * h + w1;
    var q1, r1 := x / d, x % d;
    DivModBasics(x, d);
    var y := r1 * h + w0;
    DivModBasics(y, d);
    assert u * (h * h) + (w1 * h + w0) == (q1 * h + y / d) * d + y % d by {
      MulDistrib(h, u * h, w1);
      MulAssoc(u, h, h);
      MulDistrib(h, q1 * d, r1);
      HalfSwap(q1, d, h);
      MulDistrib(d, q1 * h, y / d);
    }
    DivModUnique(u * (h * h) + (w1 * h + w0), d, q1 * h + y / d, y % d);
  }

  // Scaling dividend and divisor leaves the quotient and scales the remainder
  lemma {:induction false} Unscale(v: int, d: int, t: int)
    requires d > 0 && t > 0 && v >= 0
    ensures d * t > 0 && (v * t) / (d * t) == v / d && (v * t) % (d * t) / t == v % d
  {
    MulLe(1, d, 1, t);
    DivModBasics(v, d);
    var q, r := v / d, v % d;
    assert v * t == q * (d * t) + r * t by { MulDistrib(t, q * d, r); MulAssoc(q, d, t); }
    MulLt(r, d, t);
    MulLe(0, r, 0, t);
    DivModUnique(v * t, d * t, q, r * t);
    DivModUnique(r * t, t, r, 0);
  }

  // Shifting divisor and dividend until the divisor's top bit is set
  lemma {:induction false} Normalize(u1: Limb, u0: Limb, d: Limb, s: nat)
    requires u1 < d && s < BITS && Pow2(BITS - 1 - s) <= d < Pow2(BITS - s)
    ensures Shl(d, s) == d * Pow2(s) && Shl(d, s) >= Pow2(BITS - 1)
    ensures Shl(u1, s) == u1 * Pow2(s) && Shl(u1, s) % Pow2(s) == 0 && Shr(u0, BITS - s) < Pow2(s)
    ensures Shl(u1, s) + Shr(u0, BITS - s) < Shl(d, s)
    ensures (Shl(u1, s) + Shr(u0, BITS - s)) * BETA + Shl(u0, s) == (u1 * BETA + u0) * Pow2(s)
  {
    hide BETA, Pow2, Shl, Shr;
    var t := Pow2(s);
    ShlExact(d, s);
    ShlExact(u1, s);
    CutLimb(u0, s);
    Pow2Add(BITS - 1 - s, s);
    MulLe(Pow2(BITS - 1 - s), d, t, t);
    DivModUnique(u1 * t, t, u1, 0);
    NormalizeAlgebra(u1, u0, d, t, Shl(u0, s), Shr(u0, BITS - s));
  }

  lemma {:induction false} ShlExact(x: Limb, s: nat)
    requires s <= BITS && x < Pow2(BITS - s)
    ensures Shl(x, s) == x * Pow2(s)
  {
    Pow2Add(BITS - s, s);
    MulLt(x, Pow2(BITS - s), Pow2(s));
    MulLe(0, x, 0, Pow2(s));
  }

  lemma {:induction false} NormalizeAlgebra(u1: int, u0: int, d: int, t: int, low: int, high: int)
    requires 0 <= u1 < d && 0 <= high < t && u0 * t == low + high * BETA
    ensures u1 * t + high < d * t
    ensures (u1 * t + high) * BETA + low == (u1 * BETA + u0) * t
  {
    MulLt(u1, d, t);
    MulDistrib(BETA, u1 * t, high);
    MulDistrib(t, u1 * BETA, u0);
    HalfSwap(u1, t, BETA);
  }

  // The limb of quotient and the remainder of a normalized division
  method DivideNormalized(u1: Limb, u0: Limb, d: Limb) returns (q: Limb, r: Limb)
    requires u1 < d && d >= Pow2(BITS - 1)
    ensures q == (u1 * BETA + u0) / d && r == (u1 * BETA + u0) % d
  {
    hide BETA, HALF, Wrap, Shr, DigitOf, Digit;
    NormalizedDivisor(d);
    var d1, d0 := Shr(d, HALF_BITS), d % HALF;
    ShiftHalf(u0);
    DivModBasics(u0, HALF);
    var msw, lsw := Shr(u0, HALF_BITS), u0 % HALF;
    ghost var x := u1 * HALF + msw;
    MulLe(0, u1, 0, HALF);
    DigitReady(u1, d, d1, d0, msw);
    var q1 := EstimateDigit(u1, d1, d0, msw);
    RemainderWraps(x, d, q1);
    var rAX := Wrap(u1 * HALF + (msw - q1 * d));
    DivModBasics(x, d);
    DigitReady(rAX, d, d1, d0, lsw);
    var q0 := EstimateDigit(rAX, d1, d0, lsw);
    MulLe(0, rAX, 0, HALF);
    RemainderWraps(rAX * HALF + lsw, d, q0);
    BaseSplits();
    TwoDigits(u1, msw, lsw, d, HALF);
    QuotientFits(u1, u0, d);
    q := q1 * HALF + q0;
    r := Wrap(rAX * HALF + lsw - q0 * d);
  }

  lemma {:induction false} DigitReady(u: int, d: Limb, d1: int, d0: int, w: int)
    requires 0 <= u < d && d == d1 * HALF + d0 && 0 < d1 < HALF <= 2 * d1 && 0 <= d0 < HALF && 0 <= w < HALF
    ensures Digit(u, d1, d0, w, HALF)
    ensures DigitOf(u, d1 * HALF + d0, w, HALF) == (u * HALF + w) / d
  {
    MulLe(1, d1, 1, HALF);
  }

  method IntDivHalf(u1: Limb, u0: Limb, d: Limb) returns (q: Limb, r: Limb)
    ensures DividesTwoByOne(u1, u0, d, q, r)
  {
    hide BETA, Pow2, Shl, Shr;
    if d == 0 || u1 >= d {
      return BETA - 1, BETA - 1;
    }
    var s := Clz(d);
    ClzNonzero(d, s);
    Normalize(u1, u0, d, s);
    ghost var v := u1 * BETA + u0;
    MulLe(0, u1, 0, BETA);
    var dn := Shl(d, s);
    var un := OrDisjoint(Shl(u1, s), Shr(u0, BITS - s), s);
    q, r := DivideNormalized(un, Shl(u0, s), dn);
    Unscale(v, d, Pow2(s));
    ShrIsDiv(r, s);
    r := Shr(r, s);
  }

  lemma ClzNonzero(d: Limb, s: nat)
    requires d > 0 && s <= BITS && d < Pow2(BITS - s)
    ensures s < BITS
  {
  }

  lemma ShrIsDiv(r: Limb, s: nat)
    ensures Shr(r, s) == r / Pow2(s)
  {
  }

  // ----- Quotient digits of long division

  // The situation of one digit, where w is the weight of the digit, y2 stands for the leading
  // two limbs of y and x3 for the leading three of x:
  //   y2 * a <= y * base < (y2 + 1) * a   and   x3 * b <= x * base < (x3 + 1) * b,   b = a * w.
  ghost predicate Leading(x: int, x3: int, y: int, y2: int, a: int, w: int)
  {
    && 0 < a <= y && 0 < w && 0 <= x && 0 <= x3 && 0 <= y2
    && y2 * a <= y * BETA < y2 * a + a
    && x3 * (a * w) <= x * BETA < x3 * (a * w) + a * w
  }

  // A digit that fails the three-by-two test is too large
  lemma {:induction false} TestFails(q: int, x: int, x3: int, y: int, y2: int, a: int, w: int)
    requires Leading(x, x3, y, y2, a, w) && 0 <= q && q * y2 > x3
    ensures x < q * (y * w)
  {
    MulLe(1, a, 1, w);
    MulMono(x3 + 1, q * y2, a * w);
    MulDistrib(a * w, x3, 1);
    MulMono(y2 * a, y * BETA, q * w);
    assert q * y2 * (a * w) == y2 * a * (q * w) by { FourSwap(q, y2, a, w); }
    assert y * BETA * (q * w) == q * (y * w) * BETA by { FourSwap(q, y, BETA, w); HalfSwap2(q, y, w, BETA); }
    MulCancelLt(x, q * (y * w), BETA);
  }

  lemma FourSwap(q: int, u: int, a: int, w: int)
    ensures q * u * (a * w) == u * a * (q * w)
  {
    MulAssoc(q * u, a, w);
    HalfSwap(q, u, a);
    MulAssoc(q * a, u, w);
    MulAssoc(u * a, q, w);
    assert q * u * a == u * a * q;
  }

  lemma HalfSwap2(q: int, y: int, w: int, b: int)
    ensures q * y * (b * w) == q * (y * w) * b
  {
    MulAssoc(q, y, w);
    MulAssoc(q * y, w, b);
    assert w * b == b * w;
  }

  // A digit that passes it is at most one too large, whatever the divisor's top limb is
  lemma {:induction false} TestPasses(q: int, x: int, x3: int, y: int, y2: int, a: int, w: int)
    requires Leading(x, x3, y, y2, a, w) && 0 <= q < BETA && q * y2 <= x3
    ensures q * (y * w) < x + y * w
  {
    var b := a * w;
    MulLe(1, a, 1, w);
    MulLe(0, q, 0, w);
    MulMono(y * BETA, y2 * a + a, q * w);
    PassIdentity(q, y, y2, a, w);
    MulMono(q * y2, x3, b);
    MulMono(q, BETA - 1, b);
    MulDistrib(b, BETA, 1);
    MulDistrib(BETA, x, b);
    MulCancelLt(q * (y * w), x + b, BETA);
    MulMono(a, y, w);
  }

  lemma PassIdentity(q: int, y: int, y2: int, a: int, w: int)
    ensures y * BETA * (q * w) == q * (y * w) * BETA
    ensures (y2 * a + a) * (q * w) == q * y2 * (a * w) + q * (a * w)
  {
    FourSwap(q, y, BETA, w);
    HalfSwap2(q, y, w, BETA);
    MulDistrib(q * w, y2 * a, a);
    FourSwap(q, y2, a, w);
    FourSwap(q, 1, a, w);
  }

  lemma {:induction false} LimbAbove(p: seq<Limb>, j: nat)
    requires j < |p|
    ensures Value(p) / Place(j) == p[j] + BETA * (Value(p) / Place(j + 1))
  {
    ValueDiv(p, j);
    ValueDiv(p, j + 1);
    assert p[j..][1..] == p[j + 1..];
  }

  // The limbs at and below position k of a number below base^(k+1)
  lemma {:induction false} TopLimbs(p: seq<Limb>, k: nat)
    requires k < |p| && Value(p) < Place(k + 1)
    ensures p[k] == Value(p) / Place(k)
    ensures k >= 1 ==> BETA * p[k] + p[k - 1] == Value(p) / Place(k - 1)
    ensures k >= 2 ==> BETA * (BETA * p[k] + p[k - 1]) + p[k - 2] == Value(p) / Place(k - 2)
  {
    hide Value, Place;
    LimbAbove(p, k);
    ModSmall(Value(p), Place(k + 1));
    if k >= 1 { LimbAbove(p, k - 1); }
    if k >= 2 { LimbAbove(p, k - 2); }
  }

  // Leading limbs of a number, with zero for a limb below the lowest
  function Leading2(p: seq<Limb>, k: nat): int
    requires k < |p|
  {
    BETA * p[k] + if k < 1 then 0 else p[k - 1]
  }

  function Leading3(p: seq<Limb>, k: nat): int
    requires 1 <= k < |p|
  {
    BETA * (BETA * p[k] + p[k - 1]) + if k < 2 then 0 else p[k - 2]
  }

  lemma {:induction false} DivBounds(v: int, d: int)
    requires d > 0
    ensures v / d * d <= v < v / d * d + d
  {
    DivModBasics(v, d);
  }

  // One limb of precision on both sides
  lemma ScaleBounds(z: int, p: int, v: int)
    requires z * p <= v < z * p + p
    ensures z * (BETA * p) <= v * BETA < z * (BETA * p) + BETA * p
  {
    MulMono(z * p, v, BETA);
    MulLt(v, z * p + p, BETA);
    MulDistrib(BETA, z * p, p);
    HalfSwap2(z, 1, p, BETA);
    MulAssoc(z, p, BETA);
  }

  lemma {:induction false} Leading2Bounds(p: seq<Limb>, t: nat)
    requires t < |p| && Value(p) < Place(t + 1)
    ensures Leading2(p, t) * Place(t) <= Value(p) * BETA < Leading2(p, t) * Place(t) + Place(t)
  {
    hide Value, Place;
    TopLimbs(p, t);
    ValueEmpty();
    if t == 0 {
      assert Value(p) / Place(0) == Value(p);
    } else {
      DivBounds(Value(p), Place(t - 1));
      ScaleBounds(Value(p) / Place(t - 1), Place(t - 1), Value(p));
      PlaceNext(t - 1);
    }
  }

  lemma {:induction false} Leading3Bounds(p: seq<Limb>, i: nat)
    requires 1 <= i < |p| && Value(p) < Place(i + 1)
    ensures Leading3(p, i) * Place(i - 1) <= Value(p) * BETA < Leading3(p, i) * Place(i - 1) + Place(i - 1)
  {
    hide Value, Place;
    TopLimbs(p, i);
    ValueEmpty();
    if i == 1 {
      assert Value(p) / Place(0) == Value(p);
    } else {
      DivBounds(Value(p), Place(i - 2));
      ScaleBounds(Value(p) / Place(i - 2), Place(i - 2), Value(p));
      PlaceNext(i - 2);
    }
  }

  lemma {:induction false} LeadingLimbs(xp: seq<Limb>, yp: seq<Limb>, i: nat, t: nat)
    requires t < |yp| && t < i < |xp| && Place(t) <= Value(yp) < Place(t + 1) && Value(xp) < Place(i + 1)
    ensures Leading(Value(xp), Leading3(xp, i), Value(yp), Leading2(yp, t), Place(t), Place(i - t - 1))
  {
    hide Value, Place;
    Leading2Bounds(yp, t);
    Leading3Bounds(xp, i);
    PlaceAdd(t, i - t - 1);
    MulLe(0, BETA, 0, yp[t]);
    MulLe(0, BETA, 0, xp[i]);
    MulLe(0, BETA, 0, BETA * xp[i] + xp[i - 1]);
  }

  // The first estimate is not too small
  lemma {:induction false} FirstEstimate(xp: seq<Limb>, yp: seq<Limb>, i: nat, t: nat, q: int)
    requires t < |yp| && t < i < |xp| && Place(t) <= Value(yp) < Place(t + 1)
    requires Value(xp) < Value(yp) * Place(i - t)
    requires if xp[i] >= yp[t] then q == BETA - 1 else yp[t] > 0 && q == (xp[i] * BETA + xp[i - 1]) / yp[t]
    ensures Value(xp) < (q + 1) * (Value(yp) * Place(i - t - 1))
  {
    hide Value, Place;
    var x, y, w := Value(xp), Value(yp), Place(i - t - 1);
    PlaceNext(i - t - 1);
    if xp[i] >= yp[t] {
      MulAssoc(BETA, y, w);
      MulAssoc(y, BETA, w);
    } else {
      var a := Place(t);
      PlaceAdd(t, i - t - 1);
      DividendBelow(x, y, i, t);
      TopLimbs(xp, i);
      TopLimbs(yp, t);
      DivBounds(x, a * w);
      DivBounds(y, a);
      DivLe(0, x, a * w);
      ModSmall(0, a * w);
      EstimateAlgebra(x, y, a, w, x / (a * w), yp[t], q);
    }
  }

  lemma {:induction false} EstimateAlgebra(x: int, y: int, a: int, w: int, x2: int, yt: int, q: int)
    requires a > 0 && w > 0 && yt > 0 && x2 >= 0 && q == x2 / yt && yt * a <= y && x < x2 * (a * w) + a * w
    ensures x < (q + 1) * (y * w)
  {
    EstimateNonNegative(q, x2, yt);
    DivBounds(x2, yt);
    MulLe(1, a, 1, w);
    var b := a * w;
    assert (x2 + 1) * b <= (q + 1) * yt * b by { MulDistrib(yt, q, 1); MulMono(x2 + 1, (q + 1) * yt, b); }
    MulDistrib(b, x2, 1);
    assert (q + 1) * yt * b == (q + 1) * (yt * a * w) by { MulAssoc(q + 1, yt, b); MulAssoc(yt, a, w); }
    MulMono(yt * a, y, w);
    MulMono2(yt * a * w, y * w, q + 1);
  }

  lemma EstimateNonNegative(q: int, x2: int, yt: int)
    requires yt > 0 && x2 >= 0 && q == x2 / yt
    ensures q >= 0
  {
    DivModBasics(x2, yt);
    if q < 0 { MulLt(q, 0, yt); }
  }

  lemma MulMono2(a: int, b: int, c: int)
    requires a <= b && c >= 0
    ensures c * a <= c * b
  {
  }

  lemma {:induction false} DividendBelow(x: int, y: int, i: nat, t: nat)
    requires t < i && y < Place(t + 1) && x < y * Place(i - t)
    ensures x < Place(i + 1)
  {
    PlaceAdd(t + 1, i - t);
    MulMono(y, Place(t + 1), Place(i - t));
  }
}
