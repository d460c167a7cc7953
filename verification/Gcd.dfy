/**
 Greatest common divisors (bignum.c), by halving and subtracting.
 */
module Gcd {
  import opened Arith
  import opened Limbs
  import opened NumberTheory
  import opened ExpMod
  import opened Bignum
  import opened LongDivision
  import opened ModExp

  // ----- Trailing zero bits

  // r is the number of trailing zero bits of v, and 0 for v = 0
  predicate IsLsb(v: int, r: nat)
  {
    if v == 0 then r == 0 else v % Pow2(r) == 0 && v / Pow2(r) % 2 == 1
  }

  lemma {:induction false} NextBitZero(v: int, r: nat)
    requires v >= 0 && v % Pow2(r) == 0 && v / Pow2(r) % 2 == 0
    ensures v % Pow2(r + 1) == 0
  {
    var p := Pow2(r);
    DivModBasics(v, p);
    var q := v / p;
    DivModBasics(q, 2);
    var h := q / 2;
    MulAssoc(h, 2, p);
    DivModUnique(v, 2 * p, h, 0);
  }

  method GetBit(X: Mpi, pos: nat) returns (b: int)
    ensures b == X.Abs() / Pow2(pos) % 2
  {
    hide Value, Place, Pow2, Shr;
    DivModBasics(pos, BITS);
    if |X.p| * BITS <= pos {
      BeyondTop(X.p, pos);
      return 0;
    }
    var q: nat := pos / BITS;
    var r: nat := pos % BITS;
    LimbOfBit(q, r, |X.p|);
    ExponentBit(X.p, q, r);
    b := Shr(X.p[q], r) % 2;
  }

  lemma LimbOfBit(q: nat, r: nat, n: nat)
    requires q * BITS + r < n * BITS
    ensures q < n
  {
    if q >= n {
      MulLe(n, q, BITS, BITS);
    }
  }

  lemma {:induction false} BeyondTop(p: seq<Limb>, pos: nat)
    requires |p| * BITS <= pos
    ensures Value(p) / Pow2(pos) % 2 == 0
  {
    hide Value, Place, Pow2;
    PlaceIsPow2(|p|);
    ValueBound(p);
    Pow2Mono(BITS * |p|, pos);
    ModSmall(Value(p), Pow2(pos));
  }

  // The number of trailing zero bits, by looking at the bits one after another
  method Lsb(X: Mpi) returns (count: nat)
    ensures IsLsb(X.Abs(), count)
  {
    hide Value, Place, Shr, Pow2;
    var i: nat := 0;
    count := 0;
    PowZero(X.Abs());
    while i < |X.p|
      invariant i <= |X.p| && count == BITS * i && X.Abs() % Pow2(count) == 0
    {
      var j: nat := 0;
      while j < BITS
        invariant j <= BITS && count == BITS * i + j && X.Abs() % Pow2(count) == 0
      {
        ExponentBit(X.p, i, j);
        if Shr(X.p[i], j) % 2 != 0 {
          LowestBit(X.Abs(), count);
          return;
        }
        NextBitZero(X.Abs(), count);
        j := j + 1;
        count := count + 1;
      }
      i := i + 1;
    }
    NoBitSet(X.p, count);
    return 0;
  }

  lemma PowZero(v: int)
    requires v >= 0
    ensures v % Pow2(0) == 0
  {
  }

  lemma LowestBit(v: int, r: nat)
    requires v >= 0 && v % Pow2(r) == 0 && v / Pow2(r) % 2 != 0
    ensures IsLsb(v, r)
  {
    hide Pow2;
    ModSmall(0, Pow2(r));
  }

  lemma {:induction false} NoBitSet(p: seq<Limb>, count: nat)
    requires count == BITS * |p| && Value(p) % Pow2(count) == 0
    ensures Value(p) == 0
  {
    hide Value, Place, Pow2;
    PlaceIsPow2(|p|);
    ValueBound(p);
    ModSmall(Value(p), Pow2(count));
  }

  // ----- The arithmetic of the binary algorithm

  ghost function OddPart(x: nat): nat
  {
    if x > 0 && x % 2 == 0 then OddPart(x / 2) else x
  }

  lemma {:induction false} OddPartProduct(m: nat, r: nat)
    requires m % 2 == 1
    ensures Pow2(r) * m >= 0 && OddPart(Pow2(r) * m) == m
    decreases r
  {
    if r > 0 {
      OddPartProduct(m, r - 1);
      var x := Pow2(r - 1) * m;
      MulAssoc(2, Pow2(r - 1), m);
      assert Pow2(r) * m == 2 * x;
      MulLe(1, Pow2(r - 1), 1, m);
    }
  }

  // Shifting out the trailing zeros
  lemma {:induction false} ShiftOutTwos(v: nat, r: nat)
    requires IsLsb(v, r)
    ensures v / Pow2(r) == OddPart(v)
  {
    DivModBasics(v, Pow2(r));
    if v > 0 {
      OddPartProduct(v / Pow2(r), r);
    }
  }

  lemma {:induction false} OddPartOdd(x: nat)
    ensures x > 0 ==> 0 < OddPart(x) <= x && OddPart(x) % 2 == 1
    ensures x % 2 == 1 ==> OddPart(x) == x
    ensures x == 0 ==> OddPart(x) == 0
  {
    if x > 0 && x % 2 == 0 {
      OddPartOdd(x / 2);
    }
  }

  // A divisor of an odd number that divides 2x divides x
  lemma OddDivisor(d: int, x: int, t: int)
    requires t % 2 == 1 && Divides(d, t) && Divides(d, 2 * x)
    ensures Divides(d, x)
  {
    var s := t / 2;
    DividesProduct(d, t, x);
    DividesProduct(d, 2 * x, s);
    DividesSum(d, t * x, 2 * x * s);
    assert t * x - 2 * x * s == x by {
      assert t == 2 * s + 1;
      MulDistrib(x, 2 * s, 1);
      MulAssoc(2, s, x);
      MulAssoc(2, x, s);
    }
  }

  lemma {:induction false} GcdDropTwo(h: int, x: int, t: int)
    requires t % 2 == 1
    ensures IsGcd(h, 2 * x, t) <==> IsGcd(h, x, t)
  {
    forall d | Divides(d, t)
      ensures Divides(d, x) <==> Divides(d, 2 * x)
    {
      if Divides(d, 2 * x) { OddDivisor(d, x, t); }
      if Divides(d, x) { DividesProduct(d, x, 2); }
    }
  }

  lemma {:induction false} GcdOddPart(h: int, x: nat, t: int)
    requires t % 2 == 1
    ensures IsGcd(h, x, t) <==> IsGcd(h, OddPart(x), t)
    decreases x
  {
    hide IsGcd;
    if x > 0 && x % 2 == 0 {
      GcdOddPart(h, x / 2, t);
      GcdDropTwo(h, x / 2, t);
    }
  }

  lemma GcdSwap(h: int, a: int, b: int)
    ensures IsGcd(h, a, b) <==> IsGcd(h, b, a)
  {
  }

  lemma {:induction false} GcdDifference(h: int, a: int, b: int)
    requires IsGcd(h, a, b)
    ensures IsGcd(h, a - b, b)
  {
    hide Divides;
    GcdSwap(h, a, b);
    GcdStep(h, a - b, b, -1, a);
  }

  lemma {:induction false} GcdDouble(h: int, x: nat, y: nat)
    requires IsGcd(h, x, y)
    ensures IsGcd(2 * h, 2 * x, 2 * y)
  {
    var g, u, v := Bezout(x, y);
    GcdUnique(g, h, x, y);
    DoubleDivides(h, x);
    DoubleDivides(h, y);
    forall d | Divides(d, 2 * x) && Divides(d, 2 * y)
      ensures Divides(d, 2 * h)
    {
      DividesProduct(d, 2 * x, u);
      DividesProduct(d, 2 * y, v);
      DividesSum(d, 2 * x * u, 2 * y * v);
      DoubleCombination(x, u, y, v, h);
    }
  }

  lemma DoubleDivides(h: int, x: int)
    requires Divides(h, x)
    ensures Divides(2 * h, 2 * x)
  {
    var k :| x == h * k;
    MulAssoc(2, h, k);
    assert 2 * x == 2 * h * k;
  }

  lemma DoubleCombination(x: int, u: int, y: int, v: int, h: int)
    requires x * u + y * v == h
    ensures 2 * x * u + 2 * y * v == 2 * h
  {
    MulAssoc(2, x, u);
    MulAssoc(2, y, v);
  }

  function Min(i: nat, j: nat): nat
  {
    if j < i then j else i
  }

  // gcd(a, b) = 2^min(i, j) * gcd(a', b') for a = 2^i a' and b = 2^j b', a' and b' odd
  lemma {:induction false} CommonTwos(h: int, a: nat, i: nat, b: nat, j: nat)
    requires a % 2 == 1 && b % 2 == 1 && IsGcd(h, a, b)
    ensures Pow2(i) * a >= 0 && Pow2(j) * b >= 0 && IsGcd(Pow2(Min(i, j)) * h, Pow2(i) * a, Pow2(j) * b)
    decreases i
  {
    hide IsGcd, OddPart;
    if i == 0 {
      OddPartProduct(b, j);
      GcdSwap(h, a, b);
      GcdOddPart(h, Pow2(j) * b, a);
      GcdSwap(h, a, Pow2(j) * b);
    } else if j == 0 {
      OddPartProduct(a, i);
      GcdOddPart(h, Pow2(i) * a, b);
    } else {
      CommonTwos(h, a, i - 1, b, j - 1);
      GcdDouble(Pow2(Min(i - 1, j - 1)) * h, Pow2(i - 1) * a, Pow2(j - 1) * b);
      MulAssoc(2, Pow2(Min(i - 1, j - 1)), h);
      MulAssoc(2, Pow2(i - 1), a);
      MulAssoc(2, Pow2(j - 1), b);
    }
  }

  lemma {:induction false} FactorOut(h: int, a: nat, i: nat, b: nat, j: nat)
    requires a > 0 && b > 0 && IsLsb(a, i) && IsLsb(b, j) && IsGcd(h, OddPart(a), OddPart(b))
    ensures IsGcd(Pow2(Min(i, j)) * h, a, b)
  {
    hide IsGcd, OddPart, Pow2;
    ShiftOutTwos(a, i);
    ShiftOutTwos(b, j);
    DivModBasics(a, Pow2(i));
    DivModBasics(b, Pow2(j));
    OddPartOdd(a);
    OddPartOdd(b);
    CommonTwos(h, OddPart(a), i, OddPart(b), j);
  }

  // The number of binary digits
  ghost function Digits(x: nat): nat
  {
    if x == 0 then 0 else 1 + Digits(x / 2)
  }

  lemma {:induction false} DigitsMono(x: nat, y: nat)
    requires x <= y
    ensures Digits(x) <= Digits(y)
  {
    if x > 0 {
      DigitsMono(x / 2, y / 2);
    }
  }

  // Two odd numbers: half their difference has the same odd common divisors, and a digit less
  lemma {:induction false} HalfDifference(h: int, a: nat, b: nat)
    requires a % 2 == 1 && b % 2 == 1 && a >= b && IsGcd(h, a, b)
    ensures (a - b) % 2 == 0 && IsGcd(h, OddPart((a - b) / 2), OddPart(b))
    ensures Digits((a - b) / 2) < Digits(a)
    ensures a == b ==> b == h
  {
    hide IsGcd;
    GcdDifference(h, a, b);
    var d := (a - b) / 2;
    GcdDropTwo(h, d, b);
    GcdOddPart(h, d, b);
    OddPartOdd(b);
    DigitsMono(d, a / 2);
    if a == b {
      GcdOfZero(h, b);
    }
  }

  lemma GcdOfZero(h: int, b: nat)
    ensures IsGcd(h, 0, b) <==> h == b
  {
    assert Divides(b, b) by { DividesMultiple(b, 1); }
    assert Divides(b, 0) by { DividesMultiple(b, 0); }
    if IsGcd(h, 0, b) {
      GcdUnique(h, b, 0, b);
    }
  }

  // ----- Greatest common divisor

  // One turn of the loop: remove the twos, then replace the larger by half the difference
  method GcdTurn(TA: Mpi, TB: Mpi, ghost h: int)
    requires TA != TB && TA.s == 1 && TB.s == 1 && TA.Abs() > 0 && TB.Abs() > 0
    requires IsGcd(h, OddPart(TA.Abs()), OddPart(TB.Abs()))
    modifies TA, TB
    ensures TA.s == 1 && TB.s == 1 && TB.Abs() > 0
    ensures IsGcd(h, OddPart(TA.Abs()), OddPart(TB.Abs()))
    ensures TA.Abs() == 0 ==> TB.Abs() == h
    ensures Digits(TA.Abs()) + Digits(TB.Abs()) < old(Digits(TA.Abs()) + Digits(TB.Abs()))
  {
    hide Value, Mpi.Abs, Mpi.Val, IsGcd, OddPart, Digits, Pow2, IsLsb;
    ghost var a0, b0 := TA.Abs(), TB.Abs();
    var la := Lsb(TA);
    ShiftR(TA, la);
    var lb := Lsb(TB);
    ShiftR(TB, lb);
    ShiftOutTwos(a0, la);
    ShiftOutTwos(b0, lb);
    OddPartOdd(a0);
    OddPartOdd(b0);
    ghost var a, b := TA.Abs(), TB.Abs();
    DigitsMono(a, a0);
    DigitsMono(b, b0);
    PositiveVal(TA);
    PositiveVal(TB);
    var cmp := CmpMpi(TA, TB);
    SmallPow2();
    if cmp >= 0 {
      HalfDifference(h, a, b);
      var ret := SubAbs(TA, TA, TB);
      ShiftR(TA, 1);
      HalfZero(a, b);
    } else {
      GcdSwap(h, a, b);
      HalfDifference(h, b, a);
      var ret := SubAbs(TB, TB, TA);
      ShiftR(TB, 1);
      OddPartOdd(a);
      GcdSwap(h, OddPart(TA.Abs()), OddPart(TB.Abs()));
    }
  }

  lemma HalfZero(a: int, b: int)
    requires (a - b) % 2 == 0
    ensures (a - b) / 2 == 0 ==> a == b
  {
  }

  method GcdLoop(TA: Mpi, TB: Mpi, ghost h: int)
    requires TA != TB && TA.s == 1 && TB.s == 1 && TB.Abs() > 0
    requires if TA.Abs() == 0 then TB.Abs() == h else IsGcd(h, OddPart(TA.Abs()), OddPart(TB.Abs()))
    modifies TA, TB
    ensures TB.s == 1 && TB.Abs() == h
  {
    hide Value, Mpi.Abs, Mpi.Val, IsGcd, OddPart, Digits;
    ZeroIsSigned();
    PositiveVal(TA);
    var cmp := CmpInt(TA, 0);
    while cmp != 0
      invariant TA.s == 1 && TB.s == 1 && TB.Abs() > 0 && cmp == Sign(TA.Abs())
      invariant if TA.Abs() == 0 then TB.Abs() == h else IsGcd(h, OddPart(TA.Abs()), OddPart(TB.Abs()))
      decreases Digits(TA.Abs()) + Digits(TB.Abs())
    {
      GcdTurn(TA, TB, h);
      PositiveVal(TA);
      cmp := CmpInt(TA, 0);
    }
  }

  // G = gcd(A, B), except that B = 0 gives A with its sign
  method GcdMpi(G: Mpi, A: Mpi, B: Mpi)
    requires G.Valid() && A.Valid() && B.Valid()
    modifies G
    ensures G.Valid() && |G.p| >= |old(G.p)|
    ensures old(B.Val()) == 0 ==> G.Val() == old(A.Val())
    ensures IsGcd(G.Val(), old(A.Val()), old(B.Val())) <==> old(B.Val()) != 0 || old(A.Val()) >= 0
  {
    hide Value, Mpi.Abs, Mpi.Val, IsGcd, OddPart, Pow2, IsLsb;
    ghost var a, b := A.Abs(), B.Abs();
    var TA := new Mpi();
    var TB := new Mpi();
    Copy(TA, A);
    Copy(TB, B);
    var lz := Lsb(TA);
    var lzt := Lsb(TB);
    var bit := GetBit(TB, 0);
    ZeroTest(b, lzt);
    MagOfVal(A);
    MagOfVal(B);
    if lzt == 0 && bit == 0 {
      GcdWithZero(A.Val());
      Copy(G, A);
      return;
    }
    ghost var h := StartGcd(a, lz, b, lzt);
    if lzt < lz {
      lz := lzt;
    }
    SetSign(TA, 1);
    SetSign(TB, 1);
    GcdLoop(TA, TB, h);
    ShiftL(TB, lz);
    PositiveVal(TB);
    assert IsGcd(TB.Val(), a, b);
    GcdSignedOf(TB.Val(), A.Val(), B.Val());
    Copy(G, TB);
  }

  lemma ZeroTest(b: int, r: nat)
    requires b >= 0 && IsLsb(b, r)
    ensures r == 0 && b / Pow2(0) % 2 == 0 <==> b == 0
  {
  }

  lemma {:induction false} StartGcd(a: nat, i: nat, b: nat, j: nat) returns (h: int)
    requires IsLsb(a, i) && IsLsb(b, j) && b > 0
    ensures if a == 0 then b == h else IsGcd(h, OddPart(a), OddPart(b))
    ensures IsGcd(h * Pow2(Min(i, j)), a, b)
  {
    hide OddPart, IsGcd, Pow2;
    if a == 0 {
      h := b;
      GcdOfZero(b, b);
      SmallPow2();
    } else {
      var u, v;
      h, u, v := Bezout(OddPart(a), OddPart(b));
      FactorOut(h, a, i, b, j);
    }
  }

  lemma DividesMag(d: int, x: int)
    ensures Divides(d, Mag(x)) <==> Divides(d, x)
  {
    if x < 0 {
      if Divides(d, x) { DividesProduct(d, x, -1); }
      if Divides(d, 0 - x) { DividesProduct(d, 0 - x, -1); }
    }
  }

  lemma {:induction false} GcdSignedOf(g: int, x: int, y: int)
    ensures IsGcd(g, Mag(x), Mag(y)) <==> IsGcd(g, x, y)
  {
    forall d
      ensures (Divides(d, Mag(x)) <==> Divides(d, x)) && (Divides(d, Mag(y)) <==> Divides(d, y))
    {
      DividesMag(d, x);
      DividesMag(d, y);
    }
  }

  lemma GcdWithZero(x: int)
    ensures IsGcd(x, x, 0) <==> x >= 0
  {
    DividesMultiple(x, 1);
    DividesMultiple(x, 0);
  }
}
