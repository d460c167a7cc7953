/**
 Modular inverse by the binary extended Euclidean algorithm (bignum.c).
 */
module Inverse {
  import opened Arith
  import opened Limbs
  import opened NumberTheory
  import opened ExpMod
  import opened Bignum
  import opened LongDivision
  import opened ModExp
  import opened Gcd

  // ----- Coprime numbers

  ghost predicate Coprime(a: int, b: int)
  {
    forall d :: Divides(d, a) && Divides(d, b) ==> Divides(d, 1)
  }

  lemma OneDivides(a: int)
    ensures Divides(1, a)
  {
    DividesMultiple(1, a);
  }

  lemma GcdOne(a: int, b: int)
    ensures IsGcd(1, a, b) <==> Coprime(a, b)
  {
    OneDivides(a);
    OneDivides(b);
  }

  lemma {:induction false} CoprimeHalf(x: int, t: int)
    requires Coprime(2 * x, t)
    ensures Coprime(x, t)
  {
    forall d | Divides(d, x) && Divides(d, t)
      ensures Divides(d, 1)
    {
      DividesProduct(d, x, 2);
    }
  }

  lemma {:induction false} CoprimeSubtract(a: int, b: int)
    requires Coprime(a, b)
    ensures Coprime(a - b, b) && Coprime(b, a - b)
  {
    forall d | Divides(d, a - b) && Divides(d, b)
      ensures Divides(d, 1)
    {
      DividesSum(d, a - b, b);
    }
  }

  lemma CoprimeSwap(a: int, b: int)
    ensures Coprime(a, b) <==> Coprime(b, a)
  {
  }

  lemma EvenDivides(a: int)
    ensures Divides(2, a) <==> a % 2 == 0
  {
    DividesMod(2, a);
  }

  lemma NotBothEven(a: int, b: int)
    requires Coprime(a, b)
    ensures a % 2 == 1 || b % 2 == 1
  {
    EvenDivides(a);
    EvenDivides(b);
    EvenDivides(1);
  }

  lemma CoprimeZero(t: int)
    requires Coprime(0, t) && t > 0
    ensures t == 1
  {
    DividesMultiple(t, 0);
    DividesMultiple(t, 1);
    DividesLe(t, 1);
  }

  // Reducing modulo n keeps the common divisors
  lemma {:induction false} CoprimeReduced(a: int, n: int)
    requires n > 0
    ensures Coprime(a, n) <==> Coprime(a % n, n)
  {
    DivModBasics(a, n);
    var q, r := a / n, a % n;
    forall d | Divides(d, n)
      ensures Divides(d, a) <==> Divides(d, r)
    {
      DividesProduct(d, n, q);
      if Divides(d, a) { DividesSum(d, a, q * n); }
      if Divides(d, r) { DividesSum(d, q * n, r); }
    }
  }

  // An inverse exists exactly for the numbers coprime to n
  lemma {:induction false} InverseMeansCoprime(a: int, x: int, n: int)
    requires n > 0 && Cong(a * x, 1, n)
    ensures Coprime(a, n)
  {
    var k := CongMultiple(a * x, 1, n);
    forall d | Divides(d, a) && Divides(d, n)
      ensures Divides(d, 1)
    {
      DividesProduct(d, a, x);
      DividesProduct(d, n, k);
      DividesSum(d, a * x, k * n);
    }
  }

  // ----- The invariant of the loop

  // (c1, c2) writes t as a combination of a and b
  predicate Combines(t: int, c1: int, c2: int, a: int, b: int)
  {
    c1 * a + c2 * b == t
  }

  // The coefficients, corrected when one is odd, can be halved exactly
  lemma {:induction false} HalveExactly(t: int, c1: int, c2: int, a: int, b: int)
    requires t % 2 == 0 && Combines(t, c1, c2, a, b) && Coprime(a, b)
    ensures c1 % 2 == 1 || c2 % 2 == 1 ==> (c1 + b) % 2 == 0 && (c2 - a) % 2 == 0 && Combines(t, c1 + b, c2 - a, a, b)
  {
    hide Coprime;
    NotBothEven(a, b);
    ParityOfProduct(c1, a);
    ParityOfProduct(c2, b);
    OddCoefficients(c1 * a, c2 * b, c1, c2, a, b);
    MulDistrib(a, c1, b);
    MulDistrib(b, c2, a);
  }

  lemma OddCoefficients(p: int, q: int, c1: int, c2: int, a: int, b: int)
    requires (p + q) % 2 == 0 && (a % 2 == 1 || b % 2 == 1)
    requires p % 2 == 1 <==> c1 % 2 == 1 && a % 2 == 1
    requires q % 2 == 1 <==> c2 % 2 == 1 && b % 2 == 1
    ensures c1 % 2 == 1 || c2 % 2 == 1 ==> (c1 + b) % 2 == 0 && (c2 - a) % 2 == 0
  {
  }

  lemma ParityOfProduct(x: int, y: int)
    ensures x * y % 2 == 1 <==> x % 2 == 1 && y % 2 == 1
  {
    CongMod(x, 2);
    CongMod(y, 2);
    CongMul(x % 2, x, y % 2, y, 2);
    assert x % 2 == 0 ==> (x % 2) * (y % 2) == 0;
    assert y % 2 == 0 ==> (x % 2) * (y % 2) == 0;
    assert x % 2 == 1 && y % 2 == 1 ==> (x % 2) * (y % 2) == 1;
  }

  lemma HalvedCombination(t: int, c1: int, c2: int, a: int, b: int)
    requires Combines(2 * t, 2 * c1, 2 * c2, a, b)
    ensures Combines(t, c1, c2, a, b)
  {
    MulAssoc(2, c1, a);
    MulAssoc(2, c2, b);
  }

  lemma CombinesDifference(t: int, c1: int, c2: int, u: int, d1: int, d2: int, a: int, b: int)
    requires Combines(t, c1, c2, a, b) && Combines(u, d1, d2, a, b)
    ensures Combines(t - u, c1 - d1, c2 - d2, a, b)
  {
    MulDistrib(a, c1, d1);
    MulDistrib(b, c2, d2);
  }

  // ----- Halving on the objects

  lemma {:induction false} ParityOf(X: Mpi)
    requires X.Valid() && |X.p| > 0
    ensures X.p[0] % 2 == X.Val() % 2
  {
    hide Value;
    ValueParity(X.p);
    assert X.s == -1 ==> X.Val() == 0 - Value(X.p);
  }

  // A right shift of the magnitude halves an even number
  method Halve(X: Mpi)
    requires X.Valid() && X.Val() % 2 == 0
    modifies X
    ensures X.Valid() && |X.p| == |old(X.p)| && 2 * X.Val() == old(X.Val())
  {
    hide Value;
    ShiftR(X, 1);
    assert Pow2(1) == 2;
  }

  // The two inner loops: halve T while it is even, keeping C1 * TA + C2 * TB = T
  method RemoveTwos(T: Mpi, C1: Mpi, C2: Mpi, TA: Mpi, TB: Mpi, ghost other: int)
    requires T.Valid() && C1.Valid() && C2.Valid() && TA.Valid() && TB.Valid()
    requires T != C1 && T != C2 && C1 != C2 && TA !in {T, C1, C2} && TB !in {T, C1, C2}
    requires |C1.p| > 0 && |C2.p| > 0 && T.Val() > 0
    requires Combines(T.Val(), C1.Val(), C2.Val(), TA.Val(), TB.Val())
    requires Coprime(TA.Val(), TB.Val()) && Coprime(T.Val(), other)
    modifies T, C1, C2
    ensures T.Valid() && C1.Valid() && C2.Valid() && |C1.p| > 0 && |C2.p| > 0
    ensures 0 < T.Val() <= old(T.Val()) && T.Val() % 2 == 1
    ensures Combines(T.Val(), C1.Val(), C2.Val(), TA.Val(), TB.Val()) && Coprime(T.Val(), other)
  {
    hide Mpi.Val, Mpi.Abs, Value, Combines, Coprime;
    OddModulus(T);
    while T.p[0] % 2 == 0
      invariant T.Valid() && C1.Valid() && C2.Valid() && |C1.p| > 0 && |C2.p| > 0
      invariant 0 < T.Val() <= old(T.Val()) && |T.p| > 0 && T.p[0] % 2 == T.Val() % 2
      invariant Combines(T.Val(), C1.Val(), C2.Val(), TA.Val(), TB.Val()) && Coprime(T.Val(), other)
      decreases T.Val()
    {
      ghost var t := T.Val();
      HalveExactly(t, C1.Val(), C2.Val(), TA.Val(), TB.Val());
      ParityOf(C1);
      ParityOf(C2);
      Halve(T);
      if C1.p[0] % 2 != 0 || C2.p[0] % 2 != 0 {
        AddMpi(C1, C1, TB);
        SubMpi(C2, C2, TA);
      }
      Halve(C1);
      Halve(C2);
      HalvedCombination(T.Val(), C1.Val(), C2.Val(), TA.Val(), TB.Val());
      CoprimeHalf(T.Val(), other);
      OddModulus(T);
    }
  }

  // ----- The main loop

  ghost predicate Separate(TU: Mpi, U1: Mpi, U2: Mpi, TV: Mpi, V1: Mpi, V2: Mpi, TA: Mpi, TB: Mpi)
  {
    && TU != U1 && TU != U2 && U1 != U2 && TV != V1 && TV != V2 && V1 != V2
    && TV !in {TU, U1, U2} && V1 !in {TU, U1, U2} && V2 !in {TU, U1, U2}
    && TA !in {TU, U1, U2, TV, V1, V2} && TB !in {TU, U1, U2, TV, V1, V2}
  }

  // One row of the state: a non-negative number and its coefficients
  ghost predicate Row(T: Mpi, C1: Mpi, C2: Mpi, a: int, b: int)
    reads T, C1, C2
  {
    && T.Valid() && C1.Valid() && C2.Valid() && |C1.p| > 0 && |C2.p| > 0
    && Combines(T.Val(), C1.Val(), C2.Val(), a, b)
  }

  // T -= U with the coefficients
  method SubtractRow(T: Mpi, C1: Mpi, C2: Mpi, U: Mpi, D1: Mpi, D2: Mpi, ghost a: int, ghost b: int)
    requires T != C1 && T != C2 && C1 != C2 && U !in {T, C1, C2} && D1 !in {T, C1, C2} && D2 !in {T, C1, C2}
    requires Row(T, C1, C2, a, b) && Row(U, D1, D2, a, b) && T.Val() >= U.Val()
    modifies T, C1, C2
    ensures Row(T, C1, C2, a, b) && T.Val() == old(T.Val()) - U.Val()
  {
    hide Mpi.Val, Mpi.Abs, Value, Combines;
    CombinesDifference(T.Val(), C1.Val(), C2.Val(), U.Val(), D1.Val(), D2.Val(), a, b);
    SubMpi(T, T, U);
    SubMpi(C1, C1, D1);
    SubMpi(C2, C2, D2);
  }

  method Turn(TU: Mpi, U1: Mpi, U2: Mpi, TV: Mpi, V1: Mpi, V2: Mpi, TA: Mpi, TB: Mpi)
    requires TA.Valid() && TB.Valid() && Separate(TU, U1, U2, TV, V1, V2, TA, TB)
    requires Row(TU, U1, U2, TA.Val(), TB.Val()) && Row(TV, V1, V2, TA.Val(), TB.Val())
    requires TU.Val() > 0 && TV.Val() > 0 && Coprime(TU.Val(), TV.Val()) && Coprime(TA.Val(), TB.Val())
    modifies TU, U1, U2, TV, V1, V2
    ensures Row(TU, U1, U2, TA.Val(), TB.Val()) && Row(TV, V1, V2, TA.Val(), TB.Val())
    ensures TU.Val() >= 0 && TV.Val() > 0 && Coprime(TU.Val(), TV.Val())
    ensures TU.Val() + TV.Val() < old(TU.Val()) + old(TV.Val())
  {
    hide Mpi.Val, Mpi.Abs, Value, Combines, Coprime;
    RemoveTwos(TU, U1, U2, TA, TB, TV.Val());
    CoprimeSwap(TU.Val(), TV.Val());
    RemoveTwos(TV, V1, V2, TA, TB, TU.Val());
    CoprimeSwap(TU.Val(), TV.Val());
    var cmp := CmpMpi(TU, TV);
    if cmp >= 0 {
      CoprimeSubtract(TU.Val(), TV.Val());
      SubtractRow(TU, U1, U2, TV, V1, V2, TA.Val(), TB.Val());
    } else {
      CoprimeSubtract(TV.Val(), TU.Val());
      SubtractRow(TV, V1, V2, TU, U1, U2, TA.Val(), TB.Val());
    }
  }

  // From TA and TB = N coprime, TA > 0, to V1 * TA = 1 modulo N
  method Coefficient(V1: Mpi, TA: Mpi, TB: Mpi)
    requires V1.Valid() && TA.Valid() && TB.Valid() && V1 != TA && V1 != TB
    requires TA.Val() > 0 && TB.Val() > 0 && Coprime(TA.Val(), TB.Val())
    modifies V1
    ensures V1.Valid() && Cong(TA.Val() * V1.Val(), 1, TB.Val())
  {
    hide Mpi.Val, Mpi.Abs, Value, Combines, Coprime, Cong;
    var TU := new Mpi();
    var U1 := new Mpi();
    var U2 := new Mpi();
    var TV := new Mpi();
    var V2 := new Mpi();
    Copy(TU, TA);
    Copy(TV, TB);
    ZeroIsSigned();
    OneIsSigned();
    LSet(U1, 1);
    LSet(U2, 0);
    LSet(V1, 0);
    LSet(V2, 1);
    Units(TA.Val(), TB.Val());
    var cmp := 1;
    while cmp != 0
      invariant Row(TU, U1, U2, TA.Val(), TB.Val()) && Row(TV, V1, V2, TA.Val(), TB.Val())
      invariant TU.Val() >= 0 && TV.Val() > 0 && Coprime(TU.Val(), TV.Val()) && cmp == Sign(TU.Val())
      decreases TU.Val() + TV.Val()
    {
      Turn(TU, U1, U2, TV, V1, V2, TA, TB);
      cmp := CmpInt(TU, 0);
    }
    CoprimeZero(TV.Val());
    LastRow(V1.Val(), V2.Val(), TA.Val(), TB.Val());
  }

  lemma Units(a: int, b: int)
    ensures Combines(a, 1, 0, a, b) && Combines(b, 0, 1, a, b)
  {
  }

  lemma LastRow(v1: int, v2: int, a: int, b: int)
    requires b > 0 && Combines(1, v1, v2, a, b)
    ensures Cong(a * v1, 1, b)
  {
    assert (0 - v2) * b == 0 - v2 * b;
    CongFromMultiple(a * v1, 1, 0 - v2, b);
  }

  // V reduced modulo N, by adding or subtracting N
  method Normalize(V: Mpi, N: Mpi)
    requires V.Valid() && N.Valid() && V != N && N.Val() > 0
    modifies V
    ensures V.Valid() && 0 <= V.Val() < N.Val() && Cong(V.Val(), old(V.Val()), N.Val())
  {
    hide Mpi.Val, Mpi.Abs, Value, Cong;
    ghost var v := V.Val();
    CongRefl(v, N.Val());
    ZeroIsSigned();
    var neg := CmpInt(V, 0);
    while neg < 0
      invariant V.Valid() && neg == Sign(V.Val()) && Cong(V.Val(), v, N.Val())
      decreases 0 - V.Val()
    {
      CongFromMultiple(V.Val() + N.Val(), V.Val(), 1, N.Val());
      CongTrans(V.Val() + N.Val(), V.Val(), v, N.Val());
      AddMpi(V, V, N);
      neg := CmpInt(V, 0);
    }
    var cmp := CmpMpi(V, N);
    while cmp >= 0
      invariant V.Valid() && V.Val() >= 0 && cmp == Sign(V.Val() - N.Val()) && Cong(V.Val(), v, N.Val())
      decreases V.Val()
    {
      CongFromMultiple(V.Val() - N.Val(), V.Val(), -1, N.Val());
      CongTrans(V.Val() - N.Val(), V.Val(), v, N.Val());
      SubMpi(V, V, N);
      cmp := CmpMpi(V, N);
    }
  }

  // X = A^-1 mod N, or the reason why there is none
  method InvMod(X: Mpi, A: Mpi, N: Mpi) returns (ret: Status)
    requires X.Valid() && A.Valid() && N.Valid()
    modifies X
    ensures ret == if old(N.Val()) <= 1 then BadInput
                   else if Coprime(old(A.Val()), old(N.Val())) then Ok else NotAcceptable
    ensures ret.Ok? ==> X.Valid() && 0 <= X.Val() < old(N.Val()) && Cong(old(A.Val()) * X.Val(), 1, old(N.Val()))
    ensures !ret.Ok? ==> X.s == old(X.s) && X.p == old(X.p)
  {
    hide Mpi.Val, Mpi.Abs, Value, Coprime, Cong, IsGcd;
    ghost var a, n := A.Val(), N.Val();
    OneIsSigned();
    var small := CmpInt(N, 1);
    if small <= 0 {
      return BadInput;
    }
    var G := new Mpi();
    GcdMpi(G, A, N);
    var one := CmpInt(G, 1);
    GcdDecides(G.Val(), a, n);
    if one != 0 {
      return NotAcceptable;
    }
    var TA := new Mpi();
    var TB := new Mpi();
    var V1 := new Mpi();
    ret := ModMpi(TA, A, N);
    Copy(TB, N);
    CoprimeReduced(a, n);
    ReducedNonzero(a, n);
    Coefficient(V1, TA, TB);
    ghost var v := V1.Val();
    Normalize(V1, N);
    InverseOfReduced(a, v, V1.Val(), n);
    Copy(X, V1);
    return Ok;
  }

  lemma GcdDecides(g: int, a: int, n: int)
    requires IsGcd(g, a, n)
    ensures g == 1 <==> Coprime(a, n)
  {
    hide IsGcd, Coprime;
    GcdOne(a, n);
    if Coprime(a, n) {
      GcdUnique(g, 1, a, n);
    }
  }

  lemma ReducedNonzero(a: int, n: int)
    requires n > 1 && Coprime(a % n, n)
    ensures a % n > 0
  {
    hide Coprime;
    DivModBasics(a, n);
    if a % n == 0 {
      CoprimeZero(n);
    }
  }

  lemma InverseOfReduced(a: int, v: int, x: int, n: int)
    requires n > 0 && Cong(a % n * v, 1, n) && Cong(x, v, n)
    ensures Cong(a * x, 1, n)
  {
    CongMod(a, n);
    CongSym(a % n, a, n);
    CongMul(a, a % n, x, v, n);
    CongTrans(a * x, a % n * v, 1, n);
  }
}
