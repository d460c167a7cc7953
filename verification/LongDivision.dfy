/**
 Long division of multi-precision integers (HAC 14.20) and reduction, as bignum.c performs
 them on Mpi objects.
 */
module LongDivision {
  import opened Arith
  import opened Limbs
  import opened Core
  import opened ExpMod
  import opened Bignum
  import opened Division

  // ----- One quotient digit

  // A three-limb number used only for comparison
  method ThreeLimbs(l0: Limb, l1: Limb, l2: Limb) returns (T: Mpi)
    ensures fresh(T) && T.Valid() && T.Val() == BETA * (BETA * l2 + l1) + l0
  {
    T := new Mpi();
    T.p := [l0, l1, l2];
    ThreeValue(l0, l1, l2);
  }

  lemma {:induction false} ThreeValue(l0: Limb, l1: Limb, l2: Limb)
    ensures Value([l0, l1, l2]) == BETA * (BETA * l2 + l1) + l0
  {
    assert [l0, l1, l2][1..] == [l1, l2];
    assert [l1, l2][1..] == [l2];
    ValueSingle(l2);
  }

  method SetTwoLimbs(T: Mpi, l0: Limb, l1: Limb)
    requires |T.p| >= 2
    modifies T
    ensures T.Valid() && T.Val() == BETA * l1 + l0 && |T.p| >= |old(T.p)|
  {
    hide Value;
    LSet0(T);
    T.p := T.p[0 := l0];
    T.p := T.p[1 := l1];
    ghost var z := T.p[2..];
    assert AllZero(z);
    assert T.p == [l0, l1] + z;
    TwoValue(l0, l1, z);
  }

  lemma {:induction false} TwoValue(l0: Limb, l1: Limb, z: seq<Limb>)
    requires AllZero(z)
    ensures Value([l0, l1] + z) == BETA * l1 + l0
  {
    var p := [l0, l1] + z;
    assert p[1..] == [l1] + z;
    assert ([l1] + z)[1..] == z;
    ValueZero(z);
  }

  method IntDiv(u1: Limb, u0: Limb, d: Limb) returns (q: Limb)
    ensures exists r: Limb :: DividesTwoByOne(u1, u0, d, q, r)
  {
    hide DividesTwoByOne;
    var r;
    if HAVE_UDBL {
      q, r := IntDivWide(u1, u0, d);
    } else {
      q, r := IntDivHalf(u1, u0, d);
    }
  }

  // What a quotient digit must satisfy: at least the true digit, and at most one more
  ghost predicate GoodDigit(q: int, x: int, v: int)
  {
    q * v < x + v && x < (q + 1) * v
  }

  // The divisor and partial remainder of digit i
  ghost predicate DigitInput(x: seq<Limb>, y: seq<Limb>, i: nat, t: nat)
  {
    t < |y| && t < i < |x| && Place(t) <= Value(y) < Place(t + 1) && Value(x) < Value(y) * Place(i - t)
  }

  method FirstDigit(x: seq<Limb>, y: seq<Limb>, i: nat, t: nat) returns (q: Limb)
    requires DigitInput(x, y, i, t)
    ensures Value(x) < (q + 1) * (Value(y) * Place(i - t - 1))
  {
    hide Value, Place, BETA;
    if x[i] >= y[t] {
      q := BETA - 1;
    } else {
      q := IntDiv(x[i], x[i - 1], y[t]);
    }
    FirstEstimate(x, y, i, t, q);
  }

  lemma {:induction false} DigitReady2(x: seq<Limb>, y: seq<Limb>, i: nat, t: nat)
    requires DigitInput(x, y, i, t)
    ensures Leading(Value(x), Leading3(x, i), Value(y), Leading2(y, t), Place(t), Place(i - t - 1))
  {
    hide Value, Place;
    DividendBelow(Value(x), Value(y), i, t);
    LeadingLimbs(x, y, i, t);
  }

  // T1 = z times the leading two limbs of Y, compared with the leading three limbs of X
  method TooLarge(Y: Mpi, T1: Mpi, T2: Mpi, t: nat, z: Limb) returns (b: bool)
    requires Y != T1 && T2 != T1 && |T1.p| >= 2 && t < |Y.p| && T2.Valid()
    modifies T1
    ensures T1.Valid() && |T1.p| >= |old(T1.p)|
    ensures b <==> z * Leading2(Y.p, t) > T2.Val()
  {
    hide Value, BETA, Leading2, Mpi.Val;
    ghost var v := T2.Val();
    SetTwoLimbs(T1, if t < 1 then 0 else Y.p[t - 1], Y.p[t]);
    Leading2Is(Y.p, t);
    MulInt(T1, T1, z);
    var cmp := CmpMpi(T1, T2);
    b := cmp > 0;
  }

  // Lower the digit until it passes the three-by-two test
  method EstimateQuotientDigit(X: Mpi, Y: Mpi, T1: Mpi, i: nat, t: nat) returns (z: Limb)
    requires X != T1 && Y != T1 && |T1.p| >= 2 && DigitInput(X.p, Y.p, i, t)
    modifies T1
    ensures T1.Valid() && |T1.p| >= |old(T1.p)|
    ensures GoodDigit(z, Value(X.p), Value(Y.p) * Place(i - t - 1))
  {
    hide Value, Place, BETA, Leading, Leading2, Leading3, Wrap, Mpi.Val;
    ghost var x, y, x3, y2, v := X.p, Y.p, Leading3(X.p, i), Leading2(Y.p, t), Value(Y.p) * Place(i - t - 1);
    z := FirstDigit(X.p, Y.p, i, t);
    DigitReady2(x, y, i, t);
    var T2 := ThreeLimbs(if i < 2 then 0 else X.p[i - 2], X.p[i - 1], X.p[i]);
    Leading3Is(x, i);
    ghost var q: int := z;
    z := Wrap(z + 1);
    while true
      invariant 0 <= q < BETA && z == Wrap(q + 1) && Value(x) < (q + 1) * v
      invariant |T1.p| >= 2 && |T1.p| >= |old(T1.p)| && T2.Valid() && T2.Val() == x3
      decreases q
    {
      WrapUpDown(q);
      z := Wrap(z - 1);
      var large := TooLarge(Y, T1, T2, t, z);
      if !large {
        TestPasses(z, Value(x), x3, Value(y), y2, Place(t), Place(i - t - 1));
        return;
      }
      TestFails(z, Value(x), x3, Value(y), y2, Place(t), Place(i - t - 1));
      DigitPositive(z, Value(x), v);
      q := q - 1;
    }
  }

  lemma WrapUpDown(q: int)
    requires 0 <= q < BETA
    ensures Wrap(Wrap(q + 1) - 1) == q
  {
  }

  lemma {:induction false} Leading2Is(y: seq<Limb>, t: nat)
    requires t < |y|
    ensures Leading2(y, t) == BETA * y[t] + if t < 1 then 0 else y[t - 1]
  {
  }

  lemma {:induction false} Leading3Is(x: seq<Limb>, i: nat)
    requires 1 <= i < |x|
    ensures Leading3(x, i) == BETA * (BETA * x[i] + x[i - 1]) + if i < 2 then 0 else x[i - 2]
  {
  }

  lemma DigitPositive(q: int, x: int, v: int)
    requires x >= 0 && 0 <= q && x < q * v
    ensures q >= 1
  {
  }

  lemma AbsOfNonNegative(X: Mpi)
    requires X.Valid() && X.Val() >= 0
    ensures X.Abs() == X.Val()
  {
  }

  // A good digit leaves a remainder that one addition of the divisor makes right
  lemma {:induction false} DigitRemainder(q: int, x: int, v: int)
    requires v > 0 && GoodDigit(q, x, v)
    ensures -v < x - q * v < v
  {
    MulDistrib(v, q, 1);
  }

  // T1 = Y * b * base^k
  method ShiftedProduct(T1: Mpi, Y: Mpi, b: Limb, k: nat)
    requires T1 != Y && T1.Valid() && Y.Valid()
    modifies T1
    ensures T1.Valid() && T1.Val() == Y.Val() * b * Place(k) && |T1.p| >= |old(T1.p)|
  {
    hide Value, Place, Mpi.Val, Mpi.Abs, Pow2, BitsToLimbs, Bits;
    MulInt(T1, Y, b);
    PlaceIsPow2(k);
    ShiftL(T1, BITS * k);
  }

  // T1 = Y * base^k
  method ShiftedCopy(T1: Mpi, Y: Mpi, k: nat)
    requires T1 != Y && T1.Valid() && Y.Valid()
    modifies T1
    ensures T1.Valid() && T1.Val() == Y.Val() * Place(k) && |T1.p| >= |old(T1.p)|
  {
    hide Value, Place, Mpi.Val, Mpi.Abs, Pow2, BitsToLimbs, Bits;
    Copy(T1, Y);
    PlaceIsPow2(k);
    ShiftL(T1, BITS * k);
  }

  // The digit of weight base^k: subtract it from X, correct it at most once
  method DivideDigit(X: Mpi, Y: Mpi, T1: Mpi, i: nat, t: nat) returns (z: Limb)
    requires X != Y && X != T1 && Y != T1 && X.Valid() && Y.Valid() && T1.Valid() && |T1.p| >= 2
    requires t < i && X.Val() >= 0 && Y.Val() > 0 && DigitInput(X.p, Y.p, i, t)
    modifies X, T1
    ensures X.Valid() && T1.Valid() && |X.p| >= |old(X.p)| && |T1.p| >= |old(T1.p)|
    ensures 0 <= X.Val() < Y.Val() * Place(i - t - 1)
    ensures X.Val() == old(X.Val()) - z * (Y.Val() * Place(i - t - 1))
  {
    hide Value, Place, Mpi.Val, Mpi.Abs, DigitInput, GoodDigit, Wrap, BETA, SignedLimb;
    ghost var x, y := X.Val(), Y.Val();
    var k := i - t - 1;
    ghost var v := y * Place(k);
    AbsOfNonNegative(X);
    AbsOfNonNegative(Y);
    AbsIsValue(X);
    AbsIsValue(Y);
    MulLe(1, y, 1, Place(k));
    z := EstimateQuotientDigit(X, Y, T1, i, t);
    DigitRemainder(z, x, v);
    ShiftedProduct(T1, Y, z, k);
    HalfSwap2(z, y, Place(k), 1);
    MulAssoc(z, y, Place(k));
    SubMpi(X, X, T1);
    assert X.Val() == x - z * v;
    ZeroIsSigned();
    var cmp := CmpInt(X, 0);
    if cmp < 0 {
      ShiftedCopy(T1, Y, k);
      AddMpi(X, X, T1);
      BorrowedDigit(z, x, v);
      MulDistrib(v, z, 1);
      z := Wrap(z - 1);
    }
  }

  lemma AbsIsValue(X: Mpi)
    ensures X.Abs() == Value(X.p)
  {
  }

  lemma ZeroIsSigned()
    ensures SignedLimb(0)
  {
  }

  lemma BorrowedDigit(z: Limb, x: int, v: int)
    requires x >= 0 && x - z * v < 0
    ensures z >= 1 && Wrap(z - 1) == z - 1
  {
    assert z == 0 ==> z * v == 0;
  }

  // ----- Normalization

  lemma {:induction false} LimbsCeil(i: nat)
    requires i > 0
    ensures BitsToLimbs(i) >= 1 && BITS * (BitsToLimbs(i) - 1) <= i - 1 && i <= BITS * BitsToLimbs(i)
  {
    var q := i / BITS;
    DivModBasics(i, BITS);
    MulDistrib(BITS, q, 1);
    if q < 0 { MulLt(q, 0, BITS); }
  }

  // A number without leading zero limbs keeps none when shifted left
  lemma {:induction false} ShiftKeepsTop(v: int, n: nat, r: nat, count: nat, m: nat)
    requires n > 0 && Place(n - 1) <= v && IsBitLength(v, r)
    requires m == if n * BITS < r + count then BitsToLimbs(r + count) else n
    ensures m > 0 && Place(m - 1) <= v * Pow2(count)
  {
    hide Place, BitsToLimbs;
    if n * BITS < r + count {
      assert r > 0;
      LimbsCeil(r + count);
      PlaceIsPow2(m - 1);
      Pow2Mono(BITS * (m - 1), r + count - 1);
      Pow2Add(r - 1, count);
      MulMono(Pow2(r - 1), v, Pow2(count));
    } else {
      MulLe(v, v, 1, Pow2(count));
    }
  }

  // A shift by less than a limb adds at most one limb
  lemma {:induction false} ShiftGrowsByOne(v: int, n: nat, r: nat, count: nat, m: nat)
    requires 0 <= v < Place(n) && IsBitLength(v, r) && count < BITS
    requires m == if n * BITS < r + count then BitsToLimbs(r + count) else n
    ensures m <= n + 1
  {
    hide Place, BitsToLimbs;
    PlaceIsPow2(n);
    if r > BITS * n { Pow2Mono(BITS * n, r - 1); }
    if n * BITS < r + count {
      LimbsCeil(r + count);
      if m > n + 1 { MulLe(n + 1, m - 1, BITS, BITS); MulDistrib(BITS, n, 1); }
    }
  }

  // X and Y are |A| and |B| scaled by 2^k, with Y's top limb in place t
  method Normalized(A: Mpi, B: Mpi) returns (X: Mpi, Y: Mpi, k: nat)
    requires A.Valid() && B.Valid() && B.Abs() > 0 && A.Abs() >= B.Abs()
    ensures fresh(X) && fresh(Y) && X != Y && X.Valid() && Y.Valid() && X.s == 1 && Y.s == 1
    ensures X.Abs() == A.Abs() * Pow2(k) && Y.Abs() == B.Abs() * Pow2(k)
    ensures |Y.p| > 0 && Place(|Y.p| - 1) <= Y.Abs() && |X.p| <= |A.p| + 1
  {
    hide Value, Place, Pow2, Significant, BitsToLimbs, IsBitLength;
    X := new Mpi();
    Copy(X, A);
    Y := new Mpi();
    Copy(Y, B);
    SignificantValue(A.p);
    SignificantValue(B.p);
    X.s, Y.s := 1, 1;
    var r := BitlenMpi(Y);
    k := r % BITS;
    if k < BITS - 1 {
      k := BITS - 1 - k;
      ghost var x, y, rx, ry := X.p, Y.p, Bits(X), Bits(Y);
      ValueBound(x);
      ShiftL(X, k);
      ShiftL(Y, k);
      ShiftKeepsTop(Value(y), |y|, ry, k, |Y.p|);
      ShiftGrowsByOne(Value(x), |x|, rx, k, |X.p|);
    } else {
      k := 0;
      ZeroPower(Value(X.p));
      ZeroPower(Value(Y.p));
    }
  }

  lemma ZeroPower(v: int)
    ensures v * Pow2(0) == v
  {
  }

  // ----- Long division of magnitudes

  // total = x + y * z, with the digits of z below place k still zero
  ghost predicate Partial(total: int, x: int, y: int, z: seq<Limb>, k: nat)
  {
    && 0 <= x < y * Place(k) && k <= |z| && total == x + y * Value(z)
    && forall j :: 0 <= j < k ==> z[j] == 0
  }

  lemma {:induction false} PartialStep(total: int, x: int, y: int, z: seq<Limb>, k: nat, q: Limb, x': int)
    requires Partial(total, x, y, z, k + 1) && x' == x - q * (y * Place(k)) && 0 <= x' < y * Place(k)
    ensures Partial(total, x', y, z[k := q], k)
  {
    hide Value, Place;
    ValueUpdate(z, k, q);
    MulDistrib(y, Value(z), Place(k) * q);
    PartialIdentity(q, y, Place(k));
  }

  lemma PartialIdentity(q: int, y: int, w: int)
    ensures q * (y * w) == y * (w * q)
  {
    MulAssoc(q, y, w);
    MulAssoc(y, w, q);
    HalfSwap(y, w, q);
  }

  // The repeated subtraction that yields the top digit stops before the digit wraps
  lemma {:induction false} TopDigitFits(c: int, x: int, v: int, y: int, n: nat, t: nat)
    requires t <= n && 0 <= x < Place(n + 1) && Place(t) <= y && v == y * Place(n - t) && c * v <= x && 0 <= c
    ensures c < BETA
  {
    hide Place;
    PlaceAdd(t, n - t);
    PlaceNext(n);
    MulMono(Place(t), y, Place(n - t));
    MulMono2(Place(n), v, c);
    if c >= BETA { MulMono(BETA, c, Place(n)); }
  }

  lemma {:induction false} ZeroExceptTop(z: seq<Limb>, k: nat, c: Limb)
    requires k < |z| && AllZero(z)
    ensures Value(z[k := c]) == Place(k) * c
  {
    hide Value, Place;
    ValueUpdate(z, k, c);
    ValueZero(z);
  }

  method TopDigit(X: Mpi, Y: Mpi, Z: Mpi, n: nat, t: nat, ghost y: int)
    requires X != Y && X != Z && Y != Z && X.Valid() && Y.Valid() && X.s == 1 && Y.s == 1
    requires t <= n && |X.p| == n + 1 && |Y.p| == t + 1 && |Z.p| > n - t && AllZero(Z.p)
    requires Y.Val() == y && Place(t) <= y
    modifies X, Y, Z`p
    ensures X.Valid() && Y.Valid() && Y.Val() == y && |X.p| >= n + 1 && |Y.p| >= t + 1 && |Z.p| == |old(Z.p)|
    ensures Partial(old(X.Val()), X.Val(), y, Z.p, n - t)
  {
    hide Value, Place, Pow2, BitsToLimbs, Bits, SignedLimb, Wrap, BETA;
    ghost var x0, z0, v := X.Val(), Z.p, y * Place(n - t);
    ValueBound(X.p);
    PlaceIsPow2(n - t);
    ShiftL(Y, BITS * (n - t));
    MulLe(1, y, 1, Place(n - t));
    BaseLarge();
    ghost var c: int := 0;
    assert Z.p == z0[n - t := 0];
    var cmp := CmpMpi(X, Y);
    while cmp >= 0
      invariant X.Valid() && |X.p| >= n + 1 && Y.Valid() && Y.s == 1 && Y.Abs() == v && |Y.p| >= t + 1
      invariant 0 <= c < BETA && Z.p == z0[n - t := c] && X.Val() == x0 - c * v && X.Val() >= 0
      invariant cmp == Sign(X.Val() - v)
      decreases X.Val()
    {
      MulDistrib(v, c, 1);
      TopDigitFits(c + 1, x0, v, y, n, t);
      var digit: int := Z.p[n - t];
      Z.p := Z.p[n - t := Wrap(digit + 1)];
      SubMpi(X, X, Y);
      c := c + 1;
      cmp := CmpMpi(X, Y);
    }
    ShiftR(Y, BITS * (n - t));
    DivModUnique(v, Place(n - t), y, 0);
    ZeroExceptTop(z0, n - t, c);
    PartialIdentity(c, y, Place(n - t));
  }

  lemma {:induction false} PartialInput(total: int, x: seq<Limb>, y: seq<Limb>, z: seq<Limb>, i: nat, t: nat)
    requires t < |y| && t < i < |x| && Place(t) <= Value(y) < Place(t + 1)
    requires Partial(total, Value(x), Value(y), z, i - t)
    ensures DigitInput(x, y, i, t)
  {
  }

  // All digits below the top one
  method LowerDigits(X: Mpi, Y: Mpi, Z: Mpi, T1: Mpi, n: nat, t: nat, ghost total: int, ghost y: int)
    requires X != Y && X != Z && Y != Z && X != T1 && Y != T1 && Z != T1
    requires X.Valid() && Y.Valid() && T1.Valid() && |T1.p| >= 2
    requires t <= n < |X.p| && t < |Y.p| && Y.Val() == y && Place(t) <= y < Place(t + 1)
    requires Partial(total, X.Val(), y, Z.p, n - t)
    modifies X, Z`p, T1
    ensures X.Valid() && |Z.p| == |old(Z.p)|
    ensures Partial(total, X.Val(), y, Z.p, 0)
  {
    hide Value, Place, Partial, DigitInput, Mpi.Val, Mpi.Abs;
    var i := n;
    while i > t
      invariant t <= i <= n < |X.p| && X.Valid() && T1.Valid() && |T1.p| >= 2 && |Z.p| == |old(Z.p)|
      invariant Partial(total, X.Val(), y, Z.p, i - t)
    {
      PartialBounds(total, X.Val(), y, Z.p, i - t);
      AbsOfNonNegative(X);
      AbsOfNonNegative(Y);
      AbsIsValue(X);
      AbsIsValue(Y);
      PartialInput(total, X.p, Y.p, Z.p, i, t);
      ghost var x := X.Val();
      var z := DivideDigit(X, Y, T1, i, t);
      PartialStep(total, x, y, Z.p, i - t - 1, z, X.Val());
      Z.p := Z.p[i - t - 1 := z];
      i := i - 1;
    }
  }

  lemma PartialBounds(total: int, x: int, y: int, z: seq<Limb>, k: nat)
    requires Partial(total, x, y, z, k)
    ensures 0 <= x && k <= |z|
  {
  }

  // |A| = q * |B| + r for |A| >= |B| > 0: the quotient's limbs and the scaled remainder
  method DivideMagnitudes(A: Mpi, B: Mpi) returns (X: Mpi, Z: Mpi, k: nat)
    requires A.Valid() && B.Valid() && B.Abs() > 0 && A.Abs() >= B.Abs()
    ensures fresh(X) && fresh(Z) && X != Z && X.Valid() && Z.Valid() && Z.s == 1
    ensures X.Abs() == (A.Abs() - Z.Abs() * B.Abs()) * Pow2(k)
    ensures 0 <= A.Abs() - Z.Abs() * B.Abs() < B.Abs()
  {
    hide Value, Place, Partial, Pow2;
    var Y;
    X, Y, k := Normalized(A, B);
    Z := new Mpi();
    Grow(Z, |A.p| + 2);
    var T1 := new Mpi();
    Grow(T1, |A.p| + 2);
    GrownZero(Z);
    var n, t := |X.p| - 1, |Y.p| - 1;
    ghost var a, b, s := A.Abs(), B.Abs(), Pow2(k);
    ghost var x, y := X.Abs(), Y.Abs();
    MulMono(b, a, s);
    DivisorNotLonger(X.p, Y.p);
    ValueBound(Y.p);
    TopDigit(X, Y, Z, n, t, y);
    LowerDigits(X, Y, Z, T1, n, t, x, y);
    PartialEnd(x, X.Val(), y, Z.p);
    AbsOfNonNegative(X);
    Descale(a, b, s, X.Val(), Value(Z.p));
  }

  lemma GrownZero(Z: Mpi)
    requires exists k: nat :: Z.p == [] + Zeros(k)
    ensures AllZero(Z.p)
  {
  }

  lemma {:induction false} DivisorNotLonger(x: seq<Limb>, y: seq<Limb>)
    requires |y| > 0 && Place(|y| - 1) <= Value(y) <= Value(x)
    ensures |x| >= |y|
  {
    ValueBound(x);
    if |x| < |y| { PlaceMono(|x|, |y| - 1); }
  }

  lemma PartialEnd(total: int, x: int, y: int, z: seq<Limb>)
    requires Partial(total, x, y, z, 0)
    ensures 0 <= x < y && total == x + y * Value(z)
  {
    ValueEmpty();
  }

  lemma {:induction false} Descale(a: int, b: int, s: int, x: int, z: int)
    requires s > 0 && a * s == x + b * s * z && 0 <= x < b * s
    ensures x == (a - z * b) * s && 0 <= a - z * b < b
  {
    HalfSwap(b, s, z);
    MulDistrib(s, a, z * b);
    MulCancelLt(a - z * b, b, s);
    MulCancelLt(-1, a - z * b, s);
  }

  // ----- Signed division

  function Mag(x: int): nat
  {
    if x < 0 then -x else x
  }

  // Quotient rounded toward zero, and the remainder with the dividend's sign
  function QuotientOf(a: int, b: int): int
    requires b != 0
  {
    if (a < 0) == (b < 0) then Mag(a) / Mag(b) else -(Mag(a) / Mag(b))
  }

  function RemainderOf(a: int, b: int): int
    requires b != 0
  {
    if a < 0 then -(Mag(a) % Mag(b)) else Mag(a) % Mag(b)
  }

  // These are the quotient and remainder: a = q * b + r with |r| < |b| and r zero or of a's
  // sign, and no other pair is
  lemma {:induction false} TruncatedDivision(a: int, b: int, q: int, r: int)
    requires b != 0
    ensures q == QuotientOf(a, b) && r == RemainderOf(a, b) <==>
            a == q * b + r && Mag(r) < Mag(b) && (r == 0 || (r < 0) == (a < 0))
  {
    if q == QuotientOf(a, b) && r == RemainderOf(a, b) { IsTruncated(a, b); }
    if a == q * b + r && Mag(r) < Mag(b) && (r == 0 || (r < 0) == (a < 0)) { OnlyTruncated(a, b, q, r); }
  }

  lemma {:induction false} IsTruncated(a: int, b: int)
    requires b != 0
    ensures var q, r := QuotientOf(a, b), RemainderOf(a, b);
            a == q * b + r && Mag(r) < Mag(b) && (r == 0 || (r < 0) == (a < 0))
  {
    DivModBasics(Mag(a), Mag(b));
    var k := Mag(a) / Mag(b);
    NegateProduct(k, b);
  }

  lemma NegateProduct(k: int, b: int)
    ensures (-k) * b == -(k * b) && k * (-b) == -(k * b) && (-k) * (-b) == k * b
  {
  }

  lemma {:induction false} OnlyTruncated(a: int, b: int, q: int, r: int)
    requires b != 0 && a == q * b + r && Mag(r) < Mag(b) && (r == 0 || (r < 0) == (a < 0))
    ensures q == QuotientOf(a, b) && r == RemainderOf(a, b)
  {
    var k := if (a < 0) == (b < 0) then q else -q;
    NegateProduct(q, b);
    assert Mag(a) == k * Mag(b) + Mag(r);
    DivModUnique(Mag(a), Mag(b), k, Mag(r));
  }

  lemma MagOfVal(X: Mpi)
    requires X.Valid()
    ensures Mag(X.Val()) == X.Abs()
    ensures X.Abs() != 0 ==> ((X.Val() < 0) == (X.s == -1))
    ensures X.Val() == 0 <==> X.Abs() == 0
  {
  }

  lemma {:induction false} MagnitudeQuotient(a: int, b: int, z: int)
    requires b > 0 && 0 <= a - z * b < b
    ensures z == a / b && a - z * b == a % b
  {
    DivModUnique(a, b, z, a - z * b);
  }

  lemma ExactShift(x: int, p: int)
    requires p > 0
    ensures x * p / p == x
  {
    DivModUnique(x * p, p, x, 0);
  }

  // Q = A / B and R = A mod B, either of them optional. Q must be neither A nor B: its sign is
  // assigned before A's and B's are read.
  method DivMpi(Q: Mpi?, R: Mpi?, A: Mpi, B: Mpi) returns (ret: Status)
    requires A.Valid() && B.Valid() && (Q != null ==> Q.Valid()) && (R != null ==> R.Valid())
    requires Q != null ==> Q != A && Q != B && Q != R
    modifies Q, R
    ensures ret == if old(B.Val()) == 0 then DivisionByZero else Ok
    ensures ret.Ok? && Q != null ==> Q.Valid() && Q.Val() == QuotientOf(old(A.Val()), old(B.Val()))
    ensures ret.Ok? && R != null ==> R.Valid() && R.Val() == RemainderOf(old(A.Val()), old(B.Val()))
    ensures ret.Ok? && R != null ==> |R.p| >= |old(R.p)|
  {
    hide Value, Pow2, Mpi.Val, Mpi.Abs, SignedLimb, QuotientOf, RemainderOf, Mag;
    ghost var a, b := A.Val(), B.Val();
    ZeroIsSigned();
    var zero := CmpInt(B, 0);
    if zero == 0 { return DivisionByZero; }
    MagOfVal(A);
    MagOfVal(B);
    var cmp := CmpAbs(A, B);
    if cmp < 0 {
      SmallDividend(a, b);
      if Q != null { LSet(Q, 0); }
      if R != null { Copy(R, A); }
      return Ok;
    }
    ghost var va, vb := A.Abs(), B.Abs();
    var X, Z, k := DivideMagnitudes(A, B);
    MagnitudeQuotient(va, vb, Z.Abs());
    ghost var q, r, sa, sb := Z.Abs(), va % vb, A.s, B.s;
    QuotientNonzero(va, vb);
    if Q != null {
      Copy(Q, Z);
      SetSign(Q, A.s * B.s);
      SignedQuotient(Q, a, b, sa, sb);
    }
    if R != null {
      ExactShift(r, Pow2(k));
      ShiftR(X, k);
      SetSign(X, A.s);
      SignedRemainder(X, a, b, sa);
      Copy(R, X);
      var rz := CmpInt(R, 0);
      if rz == 0 {
        MagOfVal(R);
        SetSign(R, 1);
        ZeroVal(R);
      }
    }
    return Ok;
  }

  method SetSign(X: Mpi, s: int)
    modifies X`s
    ensures X.s == s && X.Abs() == old(X.Abs())
  {
    X.s := s;
  }

  lemma SmallDividend(a: int, b: int)
    requires b != 0 && Mag(a) < Mag(b)
    ensures QuotientOf(a, b) == 0 && RemainderOf(a, b) == a
  {
    ModSmall(Mag(a), Mag(b));
  }

  lemma QuotientNonzero(a: int, b: int)
    requires 0 < b <= a
    ensures a / b > 0
  {
    DivModBasics(a, b);
    if a / b <= 0 { MulMono(a / b, 0, b); }
  }

  lemma SignedQuotient(Q: Mpi, a: int, b: int, sa: int, sb: int)
    requires b != 0 && a != 0 && Q.Abs() == Mag(a) / Mag(b) && Q.s == sa * sb
    requires (sa == 1 || sa == -1) && (sb == 1 || sb == -1) && (a < 0) == (sa == -1) && (b < 0) == (sb == -1)
    ensures Q.Valid() && Q.Val() == QuotientOf(a, b)
  {
  }

  lemma SignedRemainder(X: Mpi, a: int, b: int, sa: int)
    requires b != 0 && a != 0 && X.Abs() == Mag(a) % Mag(b) && X.s == sa
    requires (sa == 1 || sa == -1) && (a < 0) == (sa == -1)
    ensures X.Valid() && X.Val() == RemainderOf(a, b)
  {
  }

  lemma ZeroVal(R: Mpi)
    requires R.Abs() == 0
    ensures R.Val() == 0
  {
  }
}
