/**
 Reduction and modular exponentiation of multi-precision integers (bignum.c), on top of the
 Montgomery exponentiation of limb arrays.
 */
module ModExp {
  import opened Arith
  import opened Limbs
  import opened Core
  import opened Montgomery
  import opened ExpMod
  import opened Bignum
  import opened LongDivision
  import opened NumberTheory

  // ----- Reduction

  lemma {:induction false} RemainderCongruent(a: int, b: int)
    requires b > 0
    ensures Cong(RemainderOf(a, b), a, b) && -b < RemainderOf(a, b) < b
  {
    IsTruncated(a, b);
    CongFromMultiple(a, RemainderOf(a, b), QuotientOf(a, b), b);
  }

  lemma {:induction false} Reduce(r: int, a: int, b: int)
    requires b > 0 && Cong(r, a, b) && 0 <= r < b
    ensures r == a % b
  {
    ModSmall(r, b);
  }

  // R = A mod B, in 0 .. B-1; R may be A. With R the same as a positive B the code does not end.
  method ModMpi(R: Mpi, A: Mpi, B: Mpi) returns (ret: Status)
    requires R.Valid() && A.Valid() && B.Valid() && (R == B ==> B.Val() <= 0)
    modifies R
    ensures ret == if old(B.Val()) < 0 then NegativeValue else if old(B.Val()) == 0 then DivisionByZero else Ok
    ensures ret.Ok? ==> R.Valid() && R.Val() == old(A.Val()) % old(B.Val()) && |R.p| >= |old(R.p)|
  {
    hide Mpi.Val, Mpi.Abs, SignedLimb, QuotientOf, RemainderOf, Cong, Value;
    ghost var a, b := A.Val(), B.Val();
    ZeroIsSigned();
    var neg := CmpInt(B, 0);
    if neg < 0 { return NegativeValue; }
    ret := DivMpi(null, R, A, B);
    if ret != Ok { return ret; }
    RemainderCongruent(a, b);
    var cmp := CmpInt(R, 0);
    while cmp < 0
      invariant R.Valid() && Cong(R.Val(), a, b) && cmp == Sign(R.Val()) && |R.p| >= |old(R.p)|
      decreases -R.Val()
    {
      ShiftCong(R.Val(), a, b, 1);
      AddMpi(R, R, B);
      cmp := CmpInt(R, 0);
    }
    cmp := CmpMpi(R, B);
    while cmp >= 0
      invariant R.Valid() && Cong(R.Val(), a, b) && 0 <= R.Val() && cmp == Sign(R.Val() - b) && |R.p| >= |old(R.p)|
      decreases R.Val()
    {
      ShiftCong(R.Val(), a, b, -1);
      SubMpi(R, R, B);
      cmp := CmpMpi(R, B);
    }
    Reduce(R.Val(), a, b);
  }

  lemma {:induction false} ShiftCong(r: int, a: int, b: int, k: int)
    requires b > 0 && Cong(r, a, b)
    ensures Cong(r + k * b, a, b)
  {
    ModAddMultiple(r, k, b);
  }

  // ----- The squared Montgomery radix

  // Resize to at least nblimbs limbs, dropping leading zeros above that
  method Shrink(X: Mpi, nblimbs: nat)
    modifies X
    ensures X.s == old(X.s) && Value(X.p) == old(Value(X.p)) && |X.p| >= nblimbs
    ensures old(Value(X.p)) < Place(nblimbs) && nblimbs > 0 ==> |X.p| == nblimbs
  {
    hide Value, Place, Significant;
    if |X.p| <= nblimbs {
      Grow(X, nblimbs);
      return;
    }
    var i: nat := |X.p| - 1;
    while i > 0 && X.p[i] == 0
      invariant i < |X.p| && AllZero(X.p[i + 1..])
    {
      i := i - 1;
    }
    i := i + 1;
    ghost var p := X.p;
    ShrinkBound(p, i, nblimbs);
    if i < nblimbs { i := nblimbs; }
    X.p := X.p[..i];
    assert AllZero(p[i..]);
    ValueTrim(p, i);
  }

  lemma {:induction false} ShrinkBound(p: seq<Limb>, i: nat, k: nat)
    requires 0 < i <= |p| && AllZero(p[i..]) && (i > 1 ==> p[i - 1] != 0)
    ensures Value(p) < Place(k) && k > 0 ==> i <= k
  {
    hide Value, Place, Significant;
    if Value(p) < Place(k) && k > 0 && i > k {
      ValueTrim(p, i);
      ValueNext(p, i - 1);
      MulLe(Place(i - 1), Place(i - 1), 1, p[i - 1]);
      PlaceMono(k, i - 1);
    }
  }

  // X = base^2n mod N for N of n limbs
  method MontR2(X: Mpi, N: Mpi)
    requires X.Valid() && N.Valid() && X != N && N.Val() > 0
    modifies X
    ensures X.Valid() && |X.p| == |N.p| && X.Val() == Place(|N.p|) * Place(|N.p|) % N.Val()
  {
    hide Mpi.Val, Mpi.Abs, SignedLimb, Value, Place, Pow2, BitsToLimbs, Bits;
    ghost var n, m := |N.p|, N.Val();
    OneIsSigned();
    LSet(X, 1);
    RadixSquared(|N.p|);
    ShiftL(X, |N.p| * 2 * BITS);
    var ret := ModMpi(X, X, N);
    ResidueFits(X, N);
    ValIs(X);
    Shrink(X, |N.p|);
    ValIs(X);
  }

  lemma OneIsSigned()
    ensures SignedLimb(1)
  {
    Pow2Mono(1, BITS - 1);
  }

  lemma {:induction false} RadixSquared(n: nat)
    ensures n * 2 * BITS >= 0 && Pow2(n * 2 * BITS) == Place(n) * Place(n)
  {
    hide Place, Pow2;
    PlaceIsPow2(n);
    Pow2Add(BITS * n, BITS * n);
    assert n * 2 * BITS == BITS * n + BITS * n;
  }

  // A reduced residue fits the limbs of the modulus
  lemma {:induction false} ResidueFits(X: Mpi, N: Mpi)
    requires X.Valid() && N.Valid() && 0 <= X.Val() < N.Val()
    ensures |N.p| > 0 && Value(X.p) == X.Val() && Value(N.p) == N.Val() && Value(X.p) < Place(|N.p|)
  {
    hide Mpi.Val, Value, Place;
    ValueNonNegative(N);
    NonNegativeVal(X);
    ValueBound(N.p);
    NonzeroHasLimbs(N.p);
  }

  lemma NonzeroHasLimbs(p: seq<Limb>)
    ensures |p| == 0 ==> Value(p) == 0
  {
  }

  lemma ValIs(X: Mpi)
    ensures X.Val() == X.s * Value(X.p)
  {
  }

  // ----- Modular exponentiation

  // MBEDTLS_MPI_MAX_SIZE, in bytes
  const MAX_SIZE: nat
  const MAX_BITS: nat := 8 * MAX_SIZE

  // The Montgomery core: x holds a < m in its low n limbs and zeros above, and receives a^e mod m
  method ExpModLimbs(x: array<Limb>, m: array<Limb>, e: array<Limb>, rr: array<Limb>, isPublic: bool, ghost a: int)
    requires 0 < m.Length <= x.Length && 0 < e.Length && m.Length <= rr.Length && x != m && x != e && x != rr
    requires m[0] % 2 == 1 && Value(x[..]) == a && 0 <= a < Value(m[..])
    requires Value(rr[..]) == Place(m.Length) * Place(m.Length) % Value(m[..])
    modifies x
    ensures Value(x[..]) == Pow(a, Value(e[..])) % Value(m[..])
  {
    hide Value, Place, MontConstant, MontForm, Cong, Pow, Framed, WorkingLimbs;
    var n := m.Length;
    ghost var mv, ev, x0 := Value(m[..]), Value(e[..]), x[..];
    assert m[0..n] == m[..] && e[0..0 + e.Length] == e[..];
    WorkingEnough(n, e.Length);
    var T := new Limb[WorkingLimbs(n, e.Length)];
    LowLimbs(x[..], m[..], n);
    RadixReady(rr[..], m[..], n);
    var mm := MontmulInit(m, 0);
    assert m[..][0] == m[0];
    ModulusReady(mm, m[..]);
    assert x[0..n] == x[..][..n] && rr[0..n] == rr[..][..n];
    ToMontRep(x, x, m, n, mm, rr, T);
    ghost var x1 := x[..];
    ExpModOptionallySafe(x, x, m, n, e, 0, e.Length, isPublic, rr, T, 0, a);
    ghost var x2 := x[..];
    FromMontRep(x, x, m, n, mm, T, Pow(a, ev));
    FramedTrans(x0, x1, x2, 0, n, 0, n);
    FramedTrans(x0, x2, x[..], 0, n, 0, n);
    assert x[0..n] == x[..][..n];
    UpperZero(x0, x[..], n);
  }

  lemma WorkingEnough(n: nat, el: nat)
    ensures WorkingLimbs(n, el) >= 2 * n + 1
  {
    MulLe(0, Pow2(WindowSize(el * BITS)), 0, n);
  }

  lemma {:induction false} LowLimbs(x: seq<Limb>, m: seq<Limb>, n: nat)
    requires |m| == n <= |x| && Value(x) < Value(m)
    ensures AllZero(x[n..]) && Value(x[..n]) == Value(x)
  {
    ValueBound(m);
    ValueDiv(x, n);
    ModSmall(Value(x), Place(n));
    ValueZero(x[n..]);
  }

  lemma {:induction false} RadixReady(rr: seq<Limb>, m: seq<Limb>, n: nat)
    requires |m| == n <= |rr| && Value(m) > 0 && Value(rr) == Place(n) * Place(n) % Value(m)
    ensures Value(rr[..n]) < Value(m) && Cong(Value(rr[..n]), Place(n) * Place(n), Value(m))
  {
    hide Value, Place;
    DivModBasics(Place(n) * Place(n), Value(m));
    LowLimbs(rr, m, n);
    CongMod(Place(n) * Place(n), Value(m));
  }

  lemma {:induction false} UpperZero(x0: seq<Limb>, x: seq<Limb>, n: nat)
    requires n <= |x0| && AllZero(x0[n..]) && Framed(x0, x, 0, n)
    ensures Value(x) == Value(x[..n])
  {
    assert forall k :: 0 <= k < |x| - n ==> x[n..][k] == x0[n..][k];
    ValueTrim(x, n);
  }

  // The value the code returns. An exponent without limbs gives 1. The correction for a
  // negative base looks at A's sign after X has been overwritten, so it never happens when X
  // is A, and it gives n - 0 = n for a power divisible by n.
  function ExpModValue(mag: nat, negative: bool, sameObject: bool, e: nat, n: int, noLimbs: bool): int
    requires n > 0
  {
    if noLimbs then 1
    else if negative && !sameObject && e % 2 == 1 then n - Pow(mag, e) % n
    else Pow(mag, e) % n
  }

  // prec_RR is either empty or holds base^2n mod N
  ghost predicate RadixCached(P: Mpi, N: Mpi)
    reads P, N
    requires N.Val() > 0
  {
    P.p == [] || Value(P.p) == Place(|N.p|) * Place(|N.p|) % N.Val()
  }

  // What the code accepts: a positive odd modulus, a non-negative exponent, bounded sizes
  predicate ExpModArgs(n: int, e: int, ebits: nat, nbits: nat)
  {
    n > 0 && n % 2 == 1 && e >= 0 && ebits <= MAX_BITS && nbits <= MAX_BITS
  }

  // The squared radix, computed or taken from the cache
  method RadixFor(N: Mpi, prec: Mpi?) returns (rr: array<Limb>)
    requires N.Valid() && N.Val() > 0
    requires prec != null ==> prec.Valid() && prec != N && RadixCached(prec, N)
    modifies prec
    ensures fresh(rr) && |N.p| <= rr.Length && Value(rr[..]) == Place(|N.p|) * Place(|N.p|) % N.Val()
    ensures prec != null ==> prec.Valid() && RadixCached(prec, N)
  {
    hide Mpi.Val, Mpi.Abs, Value, Place;
    if prec == null || prec.p == [] {
      var RR := new Mpi();
      MontR2(RR, N);
      ResidueFits2(RR, N);
      rr := Buffer(RR.p);
      if prec != null {
        prec.s, prec.p := RR.s, RR.p;
      }
    } else {
      Grow(prec, |N.p|);
      rr := Buffer(prec.p);
    }
  }

  lemma ResidueFits2(X: Mpi, N: Mpi)
    requires X.Valid() && N.Valid() && N.Val() > 0 && X.Val() == Place(|N.p|) * Place(|N.p|) % N.Val()
    ensures Value(X.p) == X.Val()
  {
    hide Value, Place;
    DivModBasics(Place(|N.p|) * Place(|N.p|), N.Val());
    ResidueFits(X, N);
  }

  // X = |A| reduced modulo N, in at least as many limbs as N
  method ReducedBase(X: Mpi, A: Mpi, N: Mpi)
    requires X.Valid() && A.Valid() && N.Valid() && X != N && N.Val() > 0
    modifies X
    ensures X.Valid() && X.s == 1 && |X.p| >= |N.p| && Value(X.p) == old(A.Abs()) % N.Val()
  {
    hide Mpi.Val, Mpi.Abs, Value, Place;
    ghost var m, a := N.Val(), A.Abs();
    Copy(X, A);
    SetSign(X, 1);
    PositiveVal(X);
    ghost var v := X.Val();
    var cmp := CmpMpi(X, N);
    if cmp >= 0 {
      var ret := ModMpi(X, X, N);
      DivModBasics(v, m);
      ReducedPositive(X, N);
    } else {
      ModSmall(v, m);
    }
    ResidueFits(X, N);
    Grow(X, |N.p|);
    X.s := 1;
  }

  lemma PositiveVal(X: Mpi)
    requires X.s == 1
    ensures X.Valid() && X.Val() == X.Abs() == Value(X.p)
  {
  }

  lemma ReducedPositive(X: Mpi, N: Mpi)
    requires X.Valid() && 0 <= X.Val() < N.Val()
    ensures X.Abs() == X.Val()
  {
  }

  method CheckArgs(E: Mpi, N: Mpi) returns (ok: bool)
    requires E.Valid() && N.Valid()
    ensures ok == ExpModArgs(N.Val(), E.Val(), Bits(E), Bits(N))
    ensures ok ==> |N.p| > 0 && N.p[0] % 2 == 1
  {
    hide Mpi.Val, Mpi.Abs, Value, Bits;
    ZeroIsSigned();
    var nz := CmpInt(N, 0);
    if nz <= 0 {
      return false;
    }
    OddModulus(N);
    if N.p[0] % 2 == 0 {
      return false;
    }
    var ez := CmpInt(E, 0);
    if ez < 0 {
      return false;
    }
    var eb := BitlenMpi(E);
    var nb := BitlenMpi(N);
    BitsUnique(E, eb);
    BitsUnique(N, nb);
    return eb <= MAX_BITS && nb <= MAX_BITS;
  }

  lemma {:induction false} OddModulus(N: Mpi)
    requires N.Valid() && N.Val() > 0
    ensures |N.p| > 0 && N.p[0] % 2 == N.Val() % 2
  {
    hide Value;
    NonzeroHasLimbs(N.p);
    ValueNonNegative(N);
    ValueParity(N.p);
  }

  lemma ValueNonNegative(N: Mpi)
    requires N.Valid() && N.Val() > 0
    ensures N.Val() == N.Abs() == Value(N.p) > 0
  {
  }

  // X = X^E mod N, X holding the base reduced modulo N
  method PowerOfBase(X: Mpi, E: Mpi, isPublic: bool, N: Mpi, rr: array<Limb>, ghost a: int)
    requires X.s == 1 && E.Valid() && N.Valid() && X != E && X != N && a >= 0
    requires N.Val() > 0 && E.Val() >= 0 && 0 < |N.p| <= |X.p| && |N.p| <= rr.Length && 0 < |E.p| && N.p[0] % 2 == 1
    requires Value(X.p) == a % N.Val() && Value(rr[..]) == Place(|N.p|) * Place(|N.p|) % N.Val()
    modifies X
    ensures X.s == 1 && X.Val() == Pow(a, E.Val()) % N.Val()
  {
    hide Mpi.Val, Mpi.Abs, Value, Place, Pow;
    ghost var n, e, b := N.Val(), E.Val(), a % N.Val();
    DivModBasics(a, n);
    ValueNonNegative(N);
    NonNegativeVal(E);
    var x := Buffer(X.p);
    var m := Buffer(N.p);
    var ex := Buffer(E.p);
    ExpModLimbs(x, m, ex, rr, isPublic, b);
    X.p := x[..];
    PositiveVal(X);
    ReducedPower(a, e, n);
  }

  lemma NonNegativeVal(E: Mpi)
    requires E.Valid() && E.Val() >= 0
    ensures E.Val() == Value(E.p)
  {
  }

  lemma ReducedPower(a: int, e: nat, n: int)
    requires n > 0
    ensures Pow(a % n, e) % n == Pow(a, e) % n
  {
    hide Pow;
    CongMod(a, n);
    CongPow(a % n, a, e, n);
  }

  // X = N - X, through the sign of X
  method NegateResidue(X: Mpi, N: Mpi)
    requires X.s == 1 && N.Valid() && X != N
    modifies X
    ensures X.Valid() && X.Val() == N.Val() - old(X.Val())
  {
    hide Value;
    var zero := IsZero(X.p);
    X.s := if zero then 1 else -1;
    AddMpi(X, N, X);
  }

  method IsZero(p: seq<Limb>) returns (zero: bool)
    ensures zero == (Value(p) == 0)
  {
    hide Value;
    var i := 0;
    assert p[..0] == [];
    while i < |p|
      invariant 0 <= i <= |p| && AllZero(p[..i])
    {
      if p[i] != 0 {
        ValueZero(p);
        return false;
      }
      i := i + 1;
    }
    assert p[..i] == p;
    ValueZero(p);
    return true;
  }

  lemma ExponentParity(E: Mpi)
    requires E.Valid() && E.Val() >= 0 && |E.p| > 0
    ensures E.p[0] % 2 == E.Val() % 2
  {
    hide Value;
    NonNegativeVal(E);
    ValueParity(E.p);
  }

  // X = A^E mod N up to the deviations that ExpModValue spells out
  method ExpModMpi(X: Mpi, A: Mpi, E: Mpi, isPublic: bool, N: Mpi, prec: Mpi?) returns (ret: Status)
    requires X.Valid() && A.Valid() && E.Valid() && N.Valid() && X != E && X != N
    requires prec != null ==> prec.Valid() && prec != X && prec != A && prec != E && prec != N
    requires prec != null && N.Val() > 0 ==> RadixCached(prec, N)
    modifies X, prec
    ensures ret == if ExpModArgs(N.Val(), E.Val(), Bits(E), Bits(N)) then Ok else BadInput
    ensures ret.BadInput? ==> X.s == old(X.s) && X.p == old(X.p)
    ensures ret.Ok? ==>
              X.Valid() && X.Val() == ExpModValue(old(A.Abs()), old(A.s) == -1, X == A, E.Val(), N.Val(), E.p == [])
    ensures prec != null ==> prec.Valid() && (N.Val() > 0 ==> RadixCached(prec, N))
  {
    hide Mpi.Val, Mpi.Abs, Value, Place, Pow, Bits, RadixCached;
    var ok := CheckArgs(E, N);
    if !ok {
      return BadInput;
    }
    if E.p == [] {
      OneIsSigned();
      LSet(X, 1);
      return Ok;
    }
    ghost var a := A.Abs();
    var rr := RadixFor(N, prec);
    ReducedBase(X, A, N);
    PowerOfBase(X, E, isPublic, N, rr, a);
    if A.s == -1 && E.p[0] % 2 != 0 {
      NegateResidue(X, N);
    }
    ExponentParity(E);
    return Ok;
  }

  // ----- When the result is A^E mod N

  lemma {:induction false} PowNegated(a: int, e: nat)
    ensures Pow(0 - a, e) == if e % 2 == 1 then 0 - Pow(a, e) else Pow(a, e)
  {
    if e > 0 {
      PowNegated(a, e - 1);
      var p := Pow(a, e - 1);
      assert Pow(0 - a, e) == (0 - a) * Pow(0 - a, e - 1);
      assert (0 - a) * (0 - p) == a * p && (0 - a) * p == 0 - a * p;
    }
  }

  lemma NegatedResidue(p: int, n: int)
    requires n > 0
    ensures (0 - p) % n == if p % n == 0 then 0 else n - p % n
  {
    DivModBasics(p, n);
    var q, r := p / n, p % n;
    assert (0 - q) * n == 0 - q * n && (0 - q - 1) * n == 0 - q * n - n;
    if r == 0 {
      DivModUnique(0 - p, n, 0 - q, 0);
    } else {
      DivModUnique(0 - p, n, 0 - q - 1, n - r);
    }
  }

  // The inputs on which the code is exact: a negative base to an odd power needs a result
  // object of its own and an n that e common divisors with the base do not use up (do, when
  // the object is shared); an exponent without limbs needs a modulus other than 1
  predicate ExpModExact(mag: nat, negative: bool, sameObject: bool, e: nat, n: int, noLimbs: bool)
    requires n > 0
  {
    if noLimbs then n != 1
    else negative && e % 2 == 1 ==> (sameObject <==> Stripped(n, mag, e) == 1)
  }

  lemma {:induction false} ExpModIsPower(mag: nat, negative: bool, sameObject: bool, e: nat, n: int, noLimbs: bool)
    requires n > 0 && n % 2 == 1 && (noLimbs ==> e == 0)
    ensures var a := if negative then 0 - mag else mag;
            ExpModValue(mag, negative, sameObject, e, n, noLimbs) == Pow(a, e) % n
            <==> ExpModExact(mag, negative, sameObject, e, n, noLimbs)
  {
    PowNegated(mag, e);
    StrippedMeaning(n, mag, e);
    DividesMod(n, Pow(mag, e));
    NegatedResidue(Pow(mag, e), n);
    DivModBasics(Pow(mag, e), n);
    if noLimbs && n > 1 {
      ModSmall(1, n);
    }
  }

  // A negative base to an odd power: exact with an object of its own and never with a shared
  // one if the base is coprime to n, the other way round if it is a multiple of n; a prime n
  // leaves no third case
  lemma {:induction false} ExpModNegative(mag: nat, sameObject: bool, e: nat, n: int)
    requires n > 1 && e % 2 == 1
    ensures IsGcd(1, n, mag) ==> (ExpModExact(mag, true, sameObject, e, n, false) <==> !sameObject)
    ensures Divides(n, mag) ==> (ExpModExact(mag, true, sameObject, e, n, false) <==> sameObject)
    ensures IsPrime(n) ==> (ExpModExact(mag, true, sameObject, e, n, false) <==> (sameObject <==> Divides(n, mag)))
  {
    hide IsPrime, Divides, IsGcd, Stripped;
    StrippedCases(n, mag, e);
  }

  // In between, the exponent decides: 6 modulo 9
  lemma ExpModBetween()
    ensures !ExpModExact(6, true, true, 1, 9, false) && ExpModExact(6, true, true, 3, 9, false)
  {
    hide Stripped, Pow, Divides;
    PowersOfSix();
    StrippedMeaning(9, 6, 1);
    StrippedMeaning(9, 6, 3);
    DividesMod(9, Pow(6, 1));
    DividesMod(9, Pow(6, 3));
  }

  lemma PowersOfSix()
    ensures Pow(6, 1) == 6 && Pow(6, 3) == 216
  {
    assert Pow(6, 2) == 36;
  }

  // One input of each failing family
  lemma ExpModDeviates()
    ensures ExpModValue(3, true, false, 1, 3, false) == 3 && Pow(-3, 1) % 3 == 0
    ensures ExpModValue(1, true, true, 1, 3, false) == 1 && Pow(-1, 1) % 3 == 2
    ensures ExpModValue(5, false, false, 0, 1, true) == 1 && Pow(5, 0) % 1 == 0
  {
    assert Pow(3, 1) == 3 && Pow(1, 1) == 1 && Pow(-3, 1) == -3 && Pow(-1, 1) == -1;
  }
}
