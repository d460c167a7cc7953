/**
 Modular arithmetic on reduced residues of bignum_mod_raw.c: addition, subtraction, negation
 and inversion modulo a prime by exponentiation.
 */
module ModRaw {
  import opened Arith
  import opened Limbs
  import opened Core
  import opened ExpMod
  import opened NumberTheory

  // Conditional correction of a difference d that may have borrowed
  lemma {:induction false} CorrectBorrow(d: int, x: int, c: int, m: int, p: int, y: int, c2: int)
    requires 0 <= x < p && 0 <= y < p && 0 < m <= p && 0 <= c <= 1 && 0 <= c2 <= 1
    requires x - c * p == d && -m <= d < m && y + c2 * p == x + (if c == 1 then m else 0)
    ensures y == if d < 0 then d + m else d
  {
  }

  // X = A - B mod N
  method ModSub(X: array<Limb>, A: array<Limb>, B: array<Limb>, N: array<Limb>, n: nat)
    requires Fits(X, 0, n) && Fits(A, 0, n) && Fits(B, 0, n) && Fits(N, 0, n) && X != N
    requires Value(A[0..n]) < Value(N[0..n]) && Value(B[0..n]) < Value(N[0..n])
    modifies X
    ensures Value(X[0..n]) == (old(Value(A[0..n])) - old(Value(B[0..n]))) % Value(N[0..n])
    ensures Framed(old(X[..]), X[..], 0, n)
  {
    hide Value, Place, BETA, Framed;
    ghost var a, b, m, x0 := Value(A[0..n]), Value(B[0..n]), Value(N[0..n]), X[..];
    var c := Sub(X, 0, A, 0, B, 0, n);
    ghost var x, x1 := X[0..n], X[..];
    var c2 := AddIf(X, 0, N, 0, n, c != 0);
    FramedTrans(x0, x1, X[..], 0, n, 0, n);
    Reduced(a - b, x, c, N[0..n], X[0..n], c2);
  }

  lemma {:induction false} Reduced(d: int, x: seq<Limb>, c: Limb, m: seq<Limb>, y: seq<Limb>, c2: Limb)
    requires |x| == |m| == |y| && c <= 1 && c2 <= 1 && -Value(m) <= d < Value(m) && 0 < Value(m)
    requires Value(x) - c * Place(|m|) == d
    requires Value(y) + c2 * Place(|m|) == Value(x) + (if c != 0 then Value(m) else 0)
    ensures Value(y) == d % Value(m)
  {
    hide Value, Place;
    ValueBound(x);
    ValueBound(y);
    ValueBound(m);
    CorrectBorrow(d, Value(x), c, Value(m), Place(|m|), Value(y), c2);
    if d < 0 { DivModUnique(d, Value(m), -1, d + Value(m)); } else { ModSmall(d, Value(m)); }
  }

  // X mod N for X below 2 * N
  method FixQuasiReduction(X: array<Limb>, N: array<Limb>, n: nat)
    requires Fits(X, 0, n) && Fits(N, 0, n) && X != N && Value(X[0..n]) < 2 * Value(N[0..n])
    modifies X
    ensures Value(X[0..n]) == old(Value(X[0..n])) % Value(N[0..n])
    ensures Framed(old(X[..]), X[..], 0, n)
  {
    hide Value, Place, BETA, Framed;
    ghost var v, m, x0 := Value(X[0..n]), Value(N[0..n]), X[..];
    var c := Sub(X, 0, X, 0, N, 0, n);
    ghost var x, x1 := X[0..n], X[..];
    var c2 := AddIf(X, 0, N, 0, n, c != 0);
    FramedTrans(x0, x1, X[..], 0, n, 0, n);
    Reduced(v - m, x, c, N[0..n], X[0..n], c2);
    ModAddMultiple(v, -1, m);
  }

  // X = A + B mod N; the sum may carry out of the limbs
  method ModAdd(X: array<Limb>, A: array<Limb>, B: array<Limb>, N: array<Limb>, n: nat)
    requires Fits(X, 0, n) && Fits(A, 0, n) && Fits(B, 0, n) && Fits(N, 0, n) && X != N
    requires Value(A[0..n]) < Value(N[0..n]) && Value(B[0..n]) < Value(N[0..n])
    modifies X
    ensures Value(X[0..n]) == (old(Value(A[0..n])) + old(Value(B[0..n]))) % Value(N[0..n])
    ensures Framed(old(X[..]), X[..], 0, n)
  {
    hide Value, Place, BETA, Framed;
    ghost var a, b, m, x0 := Value(A[0..n]), Value(B[0..n]), Value(N[0..n]), X[..];
    var carry := Add(X, 0, A, 0, B, 0, n);
    ghost var s, x1 := X[0..n], X[..];
    var borrow := Sub(X, 0, X, 0, N, 0, n);
    ghost var d, x2 := X[0..n], X[..];
    // carry ^ borrow
    var c2 := AddIf(X, 0, N, 0, n, carry != borrow);
    FramedTrans(x0, x1, x2, 0, n, 0, n);
    FramedTrans(x0, x2, X[..], 0, n, 0, n);
    ReducedSum(a + b, s, carry, d, borrow, N[0..n], X[0..n], c2);
  }

  lemma {:induction false} ReducedSum(v: int, s: seq<Limb>, carry: Limb, d: seq<Limb>, borrow: Limb, m: seq<Limb>,
                                      y: seq<Limb>, c2: Limb)
    requires |s| == |d| == |m| == |y| && carry <= 1 && borrow <= 1 && c2 <= 1 && 0 <= v < 2 * Value(m)
    requires Value(s) + carry * Place(|m|) == v
    requires Value(d) - borrow * Place(|m|) == Value(s) - Value(m)
    requires Value(y) + c2 * Place(|m|) == Value(d) + (if carry != borrow then Value(m) else 0)
    ensures Value(y) == v % Value(m)
  {
    hide Value, Place;
    ValueBound(s);
    ValueBound(d);
    ValueBound(y);
    ValueBound(m);
    SumCases(v, Value(s), carry, Value(d), borrow, Value(m), Place(|m|), Value(y), c2);
    if v < Value(m) { ModSmall(v, Value(m)); } else { DivModUnique(v, Value(m), 1, v - Value(m)); }
  }

  lemma SumCases(v: int, s: int, carry: int, d: int, borrow: int, m: int, p: int, y: int, c2: int)
    requires 0 <= carry <= 1 && 0 <= borrow <= 1 && 0 <= c2 <= 1 && 0 <= v < 2 * m && 0 < m < p
    requires 0 <= s < p && 0 <= d < p && 0 <= y < p
    requires s + carry * p == v && d - borrow * p == s - m && y + c2 * p == d + (if carry != borrow then m else 0)
    ensures y == if v < m then v else v - m
  {
  }

  // X = -A mod N
  method ModNeg(X: array<Limb>, A: array<Limb>, N: array<Limb>, n: nat)
    requires Fits(X, 0, n) && Fits(A, 0, n) && Fits(N, 0, n) && X != N
    requires Value(A[0..n]) < Value(N[0..n])
    modifies X
    ensures Value(X[0..n]) == (-old(Value(A[0..n]))) % Value(N[0..n])
    ensures Framed(old(X[..]), X[..], 0, n)
  {
    hide Value, Place, BETA, Framed;
    ghost var a, m, x0 := Value(A[0..n]), Value(N[0..n]), X[..];
    var c := Sub(X, 0, N, 0, A, 0, n);
    ghost var s, x1 := X[0..n], X[..];
    NoBorrow(s, c, m - a, n);
    // If A was 0, X is N now
    FixQuasiReduction(X, N, n);
    FramedTrans(x0, x1, X[..], 0, n, 0, n);
    ModAddMultiple(0 - a, 1, m);
  }

  lemma {:induction false} NoBorrow(s: seq<Limb>, c: Limb, d: int, n: nat)
    requires |s| == n && c <= 1 && d >= 0 && Value(s) - c * Place(n) == d
    ensures c == 0 && Value(s) == d
  {
    ValueBound(s);
  }

  // ----- Inversion by power

  function InvPrimeWorkingLimbs(n: nat): nat
  {
    n + WorkingLimbs(n, n)
  }

  lemma {:induction false} InverseByPower(p: int, a: int)
    requires IsPrime(p) && !Divides(p, a)
    ensures Cong(a * Pow(a, p - 2), 1, p)
  {
    Fermat(p, a);
    assert Pow(a, p - 1) == a * Pow(a, p - 2);
  }

  lemma {:induction false} ZeroHasNoInverse(x: int, m: int, a: int, n: nat)
    requires m > 2 && Divides(m, a) && MontForm(x, Pow(a, m - 2), m, n)
    ensures x == 0
  {
    var p, w := Pow(a, m - 2), Place(n);
    assert p == a * Pow(a, m - 3);
    DividesProduct(m, a, Pow(a, m - 3));
    DividesProduct(m, p, w);
    DividesMod(m, p * w);
    ModSmall(x, m);
  }

  // X = A^(N-2) in Montgomery form, with N - 2 kept in the first limbs of the working memory:
  // 1 / A mod N for a prime N that does not divide A
  method InvPrime(X: array<Limb>, A: array<Limb>, N: array<Limb>, n: nat, RR: array<Limb>, T: array<Limb>, ghost a: int)
    requires 0 < n && Fits(X, 0, n) && Fits(A, 0, n) && Fits(N, 0, n)
    requires Fits(RR, 0, n) && Fits(T, 0, InvPrimeWorkingLimbs(n))
    requires X != N && X != RR && X != T && A != T && N != T && RR != T
    requires N[0] % 2 == 1 && Value(N[0..n]) > 2 && MontForm(Value(A[0..n]), a, Value(N[0..n]), n)
    requires Value(RR[0..n]) < Value(N[0..n]) && Cong(Value(RR[0..n]), Place(n) * Place(n), Value(N[0..n]))
    modifies X, T
    ensures Value(N[0..n]) == old(Value(N[0..n]))
    ensures MontForm(Value(X[0..n]), Pow(a, Value(N[0..n]) - 2), Value(N[0..n]), n)
    ensures IsPrime(Value(N[0..n])) && !Divides(Value(N[0..n]), a) ==>
              Cong(a * Pow(a, Value(N[0..n]) - 2), 1, Value(N[0..n]))
    ensures Divides(Value(N[0..n]), a) ==> Value(X[0..n]) == 0
    ensures Framed(old(X[..]), X[..], 0, n)
  {
    hide Value, Place, BETA, Framed, MontForm, Cong, IsPrime, Divides, WorkingLimbs, Pow;
    ghost var m := Value(N[0..n]);
    BaseLarge();
    var c := SubInt(T, 0, N, 0, 2, n);
    NoBorrow(T[0..n], c, m - 2, n);
    assert T[0..0 + n] == T[0..n];
    ExpModOptionallySafe(X, A, N, n, T, 0, n, false, RR, T, n, a);
    if IsPrime(m) && !Divides(m, a) {
      InverseByPower(m, a);
    }
    if Divides(m, a) {
      ZeroHasNoInverse(Value(X[0..n]), m, a, n);
    }
  }

  // The inverse is unique, so this determines X
  lemma {:induction false} InverseUnique(a: int, y: int, z: int, x: int, m: int, n: nat)
    requires m > 0 && Cong(a * y, 1, m) && Cong(a * z, 1, m) && MontForm(x, y, m, n)
    ensures MontForm(x, z, m, n)
  {
    hide Cong, MontForm;
    CongRefl(y, m);
    CongRefl(z, m);
    CongMul(y, y, a * z, 1, m);
    CongMul(z, z, a * y, 1, m);
    MulAssoc(y, a, z);
    MulAssoc(z, a, y);
    assert y * (a * z) == z * (a * y);
    CongSym(y * (a * z), y, m);
    CongTrans(y, y * (a * z), z, m);
    FormCongruent(x, y, z, m, n);
  }
}
