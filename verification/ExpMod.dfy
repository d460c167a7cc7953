/**
 Fixed-window exponentiation in Montgomery form (a variant of HAC 14.82), with its secret and
 public paths and its single working buffer.
 */
module ExpMod {
  import opened Arith
  import opened Limbs
  import opened Core
  import opened Montgomery

  // ----- Montgomery form

  // x is the Montgomery form of a modulo m: a * base^n, reduced
  predicate MontForm(x: int, a: int, m: int, n: nat)
  {
    0 <= x < m && Cong(x, a * Place(n), m)
  }

  lemma {:induction false} ValueParity(s: seq<Limb>)
    requires |s| > 0
    ensures Value(s) % 2 == s[0] % 2
  {
    var h, v := Pow2(BITS - 1), Value(s[1..]);
    assert BETA == 2 * h;
    assert Value(s) == s[0] + BETA * v;
    MulAssoc(2, h, v);
    ModAddMultiple(s[0], h * v, 2);
  }

  // Halving is possible modulo an odd number, so base^n has an inverse
  lemma {:induction false} Pow2Inverse(m: int, k: nat) returns (r: int)
    requires m > 0 && m % 2 == 1
    ensures Cong(Pow2(k) * r, 1, m)
  {
    var h := (m + 1) / 2;
    r := Pow(h, k);
    Pow2IsPow(k);
    PowProduct(2, h, k);
    CongFromMultiple(2 * h, 1, 1, m);
    CongPow(2 * h, 1, k, m);
    PowOne(k);
  }

  lemma {:induction false} PowOne(k: nat)
    ensures Pow(1, k) == 1
  {
    if k > 0 { PowOne(k - 1); }
  }

  // Factors base^n cancel in congruences modulo an odd number
  lemma {:induction false} CancelPlace(x: int, y: int, m: int, n: nat)
    requires m > 0 && m % 2 == 1 && Cong(x * Place(n), y * Place(n), m)
    ensures Cong(x, y, m)
  {
    hide Cong, Place;
    PlaceIsPow2(n);
    var p := Place(n);
    var r := Pow2Inverse(m, BITS * n);
    CongRefl(r, m);
    CongMul(x * p, y * p, r, r, m);
    CancelOne(x, p, r, m);
    CancelOne(y, p, r, m);
    CongTrans(x, x * p * r, y * p * r, m);
    CongTrans(x, y * p * r, y, m);
  }

  lemma {:induction false} CancelOne(x: int, p: int, r: int, m: int)
    requires m > 0 && Cong(p * r, 1, m)
    ensures Cong(x * p * r, x, m) && Cong(x, x * p * r, m)
  {
    MulAssoc(x, p, r);
    CongRefl(x, m);
    CongMul(x, x, p * r, 1, m);
  }

  // A Montgomery product of two Montgomery forms is the form of the product
  lemma {:induction false} FormProduct(x: int, a: int, y: int, b: int, r: int, m: int, n: nat)
    requires m % 2 == 1 && MontForm(x, a, m, n) && MontForm(y, b, m, n) && MontProduct(r, x, y, m, n)
    ensures MontForm(r, a * b, m, n)
  {
    hide Cong, Place;
    var p := Place(n);
    CongMul(x, a * p, y, b * p, m);
    CongTrans(r * p, x * y, (a * p) * (b * p), m);
    assert (a * p) * (b * p) == a * b * p * p by {
      HalfSquare(a, b, p);
      MulAssoc(a * b, p, p);
    }
    CancelPlace(r, a * b * p, m, n);
  }

  // Multiplying 1 by base^2n gives the form of 1
  lemma {:induction false} FormOne(rr: int, r: int, m: int, n: nat)
    requires m % 2 == 1 && m > 0 && Cong(rr, Place(n) * Place(n), m) && MontProduct(r, 1, rr, m, n)
    ensures MontForm(r, 1, m, n)
  {
    hide Cong, Place;
    var p := Place(n);
    CongTrans(r * p, 1 * rr, p * p, m);
    CancelPlace(r, p, m, n);
  }

  lemma {:induction false} FormCongruent(x: int, a: int, b: int, m: int, n: nat)
    requires MontForm(x, a, m, n) && Cong(a, b, m)
    ensures MontForm(x, b, m, n)
  {
    hide Cong, Place;
    CongRefl(Place(n), m);
    CongMul(a, b, Place(n), Place(n), m);
    CongTrans(x, a * Place(n), b * Place(n), m);
  }

  // ----- Conversion

  // X = A in Montgomery form
  method ToMontRep(X: array<Limb>, A: array<Limb>, N: array<Limb>, n: nat, mm: Limb, RR: array<Limb>, T: array<Limb>)
    requires 0 < n && Fits(X, 0, n) && Fits(A, 0, n) && Fits(N, 0, n) && Fits(RR, 0, n) && Fits(T, 0, 2 * n + 1)
    requires X != T && A != T && N != T && RR != T && X != N
    requires MontConstant(mm, Value(N[0..n])) && Value(N[0..n]) % 2 == 1
    requires Value(RR[0..n]) < Value(N[0..n]) && Cong(Value(RR[0..n]), Place(n) * Place(n), Value(N[0..n]))
    modifies X, T
    ensures MontForm(Value(X[0..n]), old(Value(A[0..n])), Value(N[0..n]), n)
    ensures Framed(old(X[..]), X[..], 0, n)
  {
    hide Value, Place, BETA, MontConstant, MontProduct, MontForm, Framed, Cong;
    ghost var a, rr := Value(A[0..n]), Value(RR[0..n]);
    Montmul(X, 0, A, 0, RR, 0, n, N, 0, n, mm, T, 0);
    FormOf(a, rr, Value(X[0..n]), Value(N[0..n]), n);
  }

  lemma {:induction false} FormOf(a: int, rr: int, r: int, m: int, n: nat)
    requires m % 2 == 1 && m > 0 && Cong(rr, Place(n) * Place(n), m) && MontProduct(r, a, rr, m, n)
    ensures MontForm(r, a, m, n)
  {
    hide Cong, Place;
    var p := Place(n);
    CongRefl(a, m);
    CongMul(a, a, rr, p * p, m);
    CongTrans(r * p, a * rr, a * (p * p), m);
    MulAssoc(a, p, p);
    CancelPlace(r, a * p, m, n);
  }

  // X = A out of Montgomery form: multiplying by 1 divides by base^n
  method FromMontRep(X: array<Limb>, A: array<Limb>, N: array<Limb>, n: nat, mm: Limb, T: array<Limb>, ghost a: int)
    requires 0 < n && Fits(X, 0, n) && Fits(A, 0, n) && Fits(N, 0, n) && Fits(T, 0, 2 * n + 1)
    requires X != T && A != T && N != T && X != N
    requires MontConstant(mm, Value(N[0..n])) && Value(N[0..n]) % 2 == 1
    requires MontForm(Value(A[0..n]), a, Value(N[0..n]), n)
    modifies X, T
    ensures Value(X[0..n]) == a % Value(N[0..n])
    ensures Framed(old(X[..]), X[..], 0, n)
  {
    hide Value, Place, BETA, MontConstant, MontProduct, MontForm, Framed, Cong;
    BaseLarge();
    var rinv := new Limb[1](_ => 1);
    assert rinv[0..1] == [1];
    ValueSingle(1);
    ghost var x := Value(A[0..n]);
    Montmul(X, 0, A, 0, rinv, 0, 1, N, 0, n, mm, T, 0);
    FormBack(x, a, Value(X[0..n]), Value(N[0..n]), n);
  }

  lemma {:induction false} FormBack(x: int, a: int, r: int, m: int, n: nat)
    requires m % 2 == 1 && MontForm(x, a, m, n) && MontProduct(r, x, 1, m, n)
    ensures r == a % m
  {
    hide Place;
    CongTrans(r * Place(n), x, a * Place(n), m);
    CancelPlace(r, a, m, n);
    ModSmall(r, m);
  }

  // ----- Bit lengths

  // The number of leading zero bits of a limb
  method Clz(a: Limb) returns (j: nat)
    ensures j <= BITS && a < Pow2(BITS - j)
    ensures j < BITS ==> Pow2(BITS - 1 - j) <= a
  {
    hide BETA;
    BaseIsPow2();
    var mask := Pow2(BITS - 1);
    j := 0;
    while j < BITS
      invariant j <= BITS && a < Pow2(BITS - j)
      invariant j < BITS ==> mask == Pow2(BITS - 1 - j)
    {
      // a & mask
      BitTest(a, mask);
      if a / mask % 2 != 0 { return; }
      mask := mask / 2;
      j := j + 1;
    }
  }

  lemma BitTest(a: int, mask: int)
    requires 0 <= a < 2 * mask
    ensures a / mask % 2 != 0 <==> a >= mask
  {
    if a < mask { ModSmall(a, mask); } else { DivModUnique(a, mask, 1, a - mask); }
  }

  // The number r of bits of v
  predicate IsBitLength(v: int, r: nat)
  {
    0 <= v < Pow2(r) && (r > 0 ==> Pow2(r - 1) <= v)
  }

  method Bitlen(A: array<Limb>, o: nat, n: nat) returns (r: nat)
    requires Fits(A, o, n)
    ensures BITS * n >= 0 && r <= BITS * n
    ensures IsBitLength(Value(A[o..o + n]), r)
  {
    hide Value, BETA, Place;
    ghost var a := A[o..o + n];
    var i: nat := n;
    while i > 0
      invariant i <= n && AllZero(a[i..])
    {
      i := i - 1;
      if A[o + i] != 0 {
        var z := Clz(A[o + i]);
        LimbBitLength(a, i, BITS - z);
        BitsMono(i + 1, n);
        return BITS * i + (BITS - z);
      }
    }
    assert a[0..] == a;
    ValueZero(a);
    BitsMono(0, n);
    return 0;
  }

  lemma BitsMono(i: nat, n: nat)
    requires i <= n
    ensures 0 <= BITS * i <= BITS * n
    ensures i > 0 ==> BITS * i == BITS * (i - 1) + BITS
  {
    MulLe(i, n, BITS, BITS);
    MulDistrib(BITS, i, 1);
  }

  lemma {:induction false} LimbBitLength(a: seq<Limb>, i: nat, z: nat)
    requires i < |a| && AllZero(a[i + 1..]) && 0 < z <= BITS && Pow2(z - 1) <= a[i] < Pow2(z)
    ensures BITS * i >= 0
    ensures IsBitLength(Value(a), BITS * i + z)
  {
    hide Value, Place, Pow2;
    ValueTrim(a, i + 1);
    ValueNext(a, i);
    ValueBound(a[..i]);
    PlaceIsPow2(i);
    Pow2Add(BITS * i, z - 1);
    Pow2Add(BITS * i, z);
    TopLimb(Value(a[..i]), Place(i), a[i], Pow2(z - 1), Pow2(z));
  }

  lemma TopLimb(low: int, p: int, x: int, lo: int, hi: int)
    requires 0 <= low < p && 0 <= lo <= x < hi
    ensures p * lo <= low + p * x < p * hi
  {
    MulLe(lo, x, p, p);
    MulLe(x + 1, hi, p, p);
    MulDistrib(p, x, 1);
  }

  // ----- The window table

  // Where entry j of the table starts
  function At(wo: nat, n: nat, j: nat): (r: nat)
    ensures r >= wo
  {
    MulLe(0, j, 0, n);
    wo + j * n
  }

  lemma AtNext(wo: nat, n: nat, j: nat)
    ensures At(wo, n, j + 1) == At(wo, n, j) + n
    ensures At(wo, n, 0) == wo && At(wo, n, 1) == wo + n
  {
    MulDistrib(n, j, 1);
  }

  lemma AtMono(wo: nat, n: nat, j: nat, k: nat)
    requires j < k
    ensures At(wo, n, j) + n <= At(wo, n, k)
    ensures wo <= At(wo, n, j)
  {
    MulLe(j + 1, k, n, n);
    MulDistrib(n, j, 1);
  }

  ghost predicate Entry(t: seq<Limb>, o: nat, n: nat, a: int, m: int)
  {
    o + n <= |t| && MontForm(Value(t[o..o + n]), a, m, n)
  }

  // Entries 0 to count - 1 hold the Montgomery forms of a^0, a^1, ...
  ghost predicate Table(t: seq<Limb>, wo: nat, count: nat, n: nat, a: int, m: int)
  {
    forall j: nat :: j < count ==> Entry(t, At(wo, n, j), n, Pow(a, j), m)
  }

  lemma {:induction false} TableKept(t: seq<Limb>, t': seq<Limb>, wo: nat, count: nat, n: nat, a: int, m: int,
                                     o: nat, k: nat, p: nat, l: nat)
    requires Table(t, wo, count, n, a, m) && Framed2(t, t', o, k, p, l)
    requires At(wo, n, count) <= o && At(wo, n, count) <= p
    ensures Table(t', wo, count, n, a, m)
  {
    forall j: nat | j < count
      ensures Entry(t', At(wo, n, j), n, Pow(a, j), m)
    {
      AtMono(wo, n, j, count);
      assert Entry(t, At(wo, n, j), n, Pow(a, j), m);
      Kept2(t, t', o, k, p, l, At(wo, n, j), n);
    }
  }

  lemma {:induction false} TableExtended(t: seq<Limb>, wo: nat, count: nat, n: nat, a: int, m: int)
    requires Table(t, wo, count, n, a, m) && Entry(t, At(wo, n, count), n, Pow(a, count), m)
    ensures Table(t, wo, count + 1, n, a, m)
  {
  }

  // W[0] = 1 in Montgomery form, from RR = base^2n mod N
  method WindowOne(N: array<Limb>, n: nat, mm: Limb, RR: array<Limb>, T: array<Limb>, wo: nat, temp: nat)
    requires 0 < n && Fits(N, 0, n) && Fits(RR, 0, n) && Fits(T, temp, 2 * n + 1) && wo + n <= temp
    requires N != T && RR != T
    requires MontConstant(mm, Value(N[0..n])) && Value(N[0..n]) % 2 == 1
    requires Value(RR[0..n]) < Value(N[0..n]) && Cong(Value(RR[0..n]), Place(n) * Place(n), Value(N[0..n]))
    modifies T
    ensures Entry(T[..], wo, n, 1, Value(N[0..n]))
    ensures Framed2(old(T[..]), T[..], wo, n, temp, 2 * n + 1)
  {
    hide Value, Place, BETA, MontConstant, MontProduct, MontForm, Framed, Framed2, Cong;
    ghost var t0 := T[..];
    ZeroFill(T, wo, n);
    ghost var t1 := T[..];
    SetOne(T, wo, n);
    ghost var t2 := T[..];
    Montmul(T, wo, T, wo, RR, 0, n, N, 0, n, mm, T, temp);
    FormOne(Value(RR[0..n]), Value(T[wo..wo + n]), Value(N[0..n]), n);
    FramedTrans(t0, t1, t2, wo, n, wo, 1);
    Framed2Trans(t0, t2, T[..], wo, n, temp, 2 * n + 1);
  }

  method SetOne(T: array<Limb>, wo: nat, n: nat)
    requires 0 < n && Fits(T, wo, n) && T[wo..wo + n] == Zeros(n)
    modifies T
    ensures Value(T[wo..wo + n]) == 1
    ensures Framed(old(T[..]), T[..], wo, 1)
  {
    BaseLarge();
    ghost var z := T[wo..wo + n];
    T[wo] := 1;
    assert T[wo..wo + n] == [1] + z[1..];
    ValueOne(z[1..]);
  }

  lemma {:induction false} ValueOne(z: seq<Limb>)
    requires AllZero(z) && 1 < BETA
    ensures Value([1] + z) == 1
  {
    ValueZero(z);
    assert ([1] + z)[1..] == z;
  }

  lemma {:induction false} Framed2Trans(x: seq<Limb>, y: seq<Limb>, z: seq<Limb>, o: nat, n: nat, p: nat, m: nat)
    requires Framed(x, y, o, n) && Framed2(y, z, o, n, p, m)
    ensures Framed2(x, z, o, n, p, m)
  {
  }

  // Two windows inside a larger one, written after it
  lemma {:induction false} FramedInside(x: seq<Limb>, y: seq<Limb>, z: seq<Limb>, o: nat, n: nat, p: nat, m: nat,
                                        q: nat, l: nat)
    requires Framed(x, y, q, l) && Framed2(y, z, o, n, p, m)
    requires q <= o && o + n <= q + l && q <= p && p + m <= q + l
    ensures Framed(x, z, q, l)
  {
  }

  lemma {:induction false} FramedRefl(x: seq<Limb>, o: nat, n: nat)
    ensures Framed(x, x, o, n)
  {
  }

  // The modulus, its constants and the working buffer of an exponentiation
  ghost predicate Setting(N: array<Limb>, n: nat, mm: Limb, RR: array<Limb>, T: array<Limb>, wo: nat, welem: nat,
                          temp: nat)
    reads N, RR
  {
    && 0 < n && Fits(N, 0, n) && Fits(RR, 0, n) && N != T && RR != T
    && 2 <= welem && At(wo, n, welem) + n <= temp && Fits(T, temp, 2 * n + 1)
    && MontConstant(mm, Value(N[0..n])) && Value(N[0..n]) % 2 == 1
    && Value(RR[0..n]) < Value(N[0..n]) && Cong(Value(RR[0..n]), Place(n) * Place(n), Value(N[0..n]))
  }

  // W[i] = W[i-1] * W[1] for i >= 2
  method WindowPowers(N: array<Limb>, n: nat, mm: Limb, RR: array<Limb>, T: array<Limb>, wo: nat, welem: nat,
                      temp: nat, ghost a: int)
    requires Setting(N, n, mm, RR, T, wo, welem, temp)
    requires Table(T[..], wo, 2, n, a, Value(N[0..n]))
    modifies T
    ensures Table(T[..], wo, welem, n, a, Value(N[0..n]))
    ensures Framed(old(T[..]), T[..], wo, temp + (2 * n + 1) - wo)
  {
    hide Value, Place, BETA, MontConstant, MontProduct, MontForm, Framed, Framed2, Cong, Table, At;
    ghost var t0, m := T[..], Value(N[0..n]);
    AtNext(wo, n, 1);
    var w1 := wo + n;
    var prev := w1;
    FramedRefl(t0, wo, temp + (2 * n + 1) - wo);
    for i := 2 to welem
      invariant prev + n == At(wo, n, i)
      invariant Framed(t0, T[..], wo, temp + (2 * n + 1) - wo)
      invariant Table(T[..], wo, i, n, a, m)
    {
      ghost var t := T[..];
      var cur := prev + n;
      AtMono(wo, n, i, welem);
      AtMono(wo, n, 1, i);
      AtNext(wo, n, i);
      AtNext(wo, n, i - 1);
      TableEntry(t, wo, i, 1, n, a, m);
      TableEntry(t, wo, i, i - 1, n, a, m);
      Montmul(T, cur, T, prev, T, w1, n, N, 0, n, mm, T, temp);
      TableKept(t, T[..], wo, i, n, a, m, cur, n, temp, 2 * n + 1);
      FormNext(Value(t[prev..prev + n]), Value(t[w1..w1 + n]), Value(T[cur..cur + n]), a, i, m, n);
      TableExtended(T[..], wo, i, n, a, m);
      FramedInside(t0, t, T[..], cur, n, temp, 2 * n + 1, wo, temp + (2 * n + 1) - wo);
      prev := cur;
    }
  }

  lemma {:induction false} TableEntry(t: seq<Limb>, wo: nat, count: nat, j: nat, n: nat, a: int, m: int)
    requires Table(t, wo, count, n, a, m) && j < count
    ensures At(wo, n, j) + n <= |t|
    ensures MontForm(Value(t[At(wo, n, j)..At(wo, n, j) + n]), Pow(a, j), m, n)
    ensures Value(t[At(wo, n, j)..At(wo, n, j) + n]) < m
  {
    assert Entry(t, At(wo, n, j), n, Pow(a, j), m);
  }

  lemma {:induction false} FormNext(x: int, w: int, r: int, a: int, i: nat, m: int, n: nat)
    requires m % 2 == 1 && i >= 2
    requires MontForm(x, Pow(a, i - 1), m, n) && MontForm(w, Pow(a, 1), m, n) && MontProduct(r, x, w, m, n)
    ensures MontForm(r, Pow(a, i), m, n)
  {
    FormProduct(x, Pow(a, i - 1), w, Pow(a, 1), r, m, n);
    PowAdd(a, i - 1, 1);
  }

  method PrecomputeWindow(A: array<Limb>, N: array<Limb>, n: nat, mm: Limb, RR: array<Limb>, T: array<Limb>,
                          wo: nat, welem: nat, temp: nat, ghost a: int)
    requires Setting(N, n, mm, RR, T, wo, welem, temp)
    requires Fits(A, 0, n) && A != T && MontForm(Value(A[0..n]), a, Value(N[0..n]), n)
    modifies T
    ensures Table(T[..], wo, welem, n, a, Value(N[0..n]))
    ensures Framed(old(T[..]), T[..], wo, temp + (2 * n + 1) - wo)
  {
    hide Value, Place, BETA, MontConstant, MontProduct, MontForm, Framed, Framed2, Cong, Table, At;
    ghost var t0, m, l := T[..], Value(N[0..n]), temp + (2 * n + 1) - wo;
    AtNext(wo, n, 1);
    AtMono(wo, n, 1, welem);
    WindowOne(N, n, mm, RR, T, wo, temp);
    ghost var t1 := T[..];
    FramedRefl(t0, wo, l);
    FramedInside(t0, t0, t1, wo, n, temp, 2 * n + 1, wo, l);
    CopyLimbs(T, wo + n, A, 0, n);
    ghost var t2 := T[..];
    FramedTrans(t0, t1, t2, wo, l, wo + n, n);
    Kept(t1, t2, wo + n, n, wo, n);
    TableOfTwo(t2, wo, n, a, m);
    WindowPowers(N, n, mm, RR, T, wo, welem, temp, a);
    FramedTrans(t0, t2, T[..], wo, l, wo, l);
  }

  lemma {:induction false} TableOfTwo(t: seq<Limb>, wo: nat, n: nat, a: int, m: int)
    requires Entry(t, wo, n, 1, m) && Entry(t, wo + n, n, a, m)
    ensures Table(t, wo, 2, n, a, m)
  {
    hide Entry;
    AtNext(wo, n, 0);
    assert Pow(a, 0) == 1 && Pow(a, 1) == a;
  }

  // ----- Selecting a table entry

  method CondAssign(X: array<Limb>, xo: nat, A: array<Limb>, ao: nat, n: nat, assign: bool)
    requires Fits(X, xo, n) && Fits(A, ao, n) && SameOrApart(X, xo, A, ao, n)
    modifies X
    ensures X[xo..xo + n] == if assign then old(A[ao..ao + n]) else old(X[xo..xo + n])
    ensures Framed(old(X[..]), X[..], xo, n)
  {
    ghost var a, x := A[ao..ao + n], X[xo..xo + n];
    for i := 0 to n
      invariant forall j :: i <= j < n ==> A[ao + j] == a[j]
      invariant forall j :: 0 <= j < n ==> X[xo + j] == if j < i && assign then a[j] else x[j]
      invariant Framed(old(X[..]), X[..], xo, n)
    {
      X[xo + i] := if assign then A[ao + i] else X[xo + i];
    }
  }

  // Wselect = W[window], reading one entry or scanning them all
  method TableLookup(T: array<Limb>, sel: nat, wo: nat, n: nat, welem: nat, window: nat, isPublic: bool)
    requires window < welem && At(wo, n, welem) <= sel && Fits(T, sel, n)
    modifies T
    ensures At(wo, n, window) + n <= sel && T[sel..sel + n] == old(T[At(wo, n, window)..At(wo, n, window) + n])
    ensures Framed(old(T[..]), T[..], sel, n)
  {
    hide At, Framed;
    ghost var t0 := T[..];
    AtMono(wo, n, window, welem);
    if isPublic {
      var at := At(wo, n, window);
      CopyLimbs(T, sel, T, at, n);
    } else {
      var table := wo;
      AtNext(wo, n, 0);
      FramedRefl(t0, sel, n);
      for i := 0 to welem
        invariant table == At(wo, n, i)
        invariant Framed(t0, T[..], sel, n)
        invariant i > window ==> T[sel..sel + n] == t0[At(wo, n, window)..At(wo, n, window) + n]
      {
        AtMono(wo, n, i, welem);
        ghost var t := T[..];
        Kept(t0, t, sel, n, table, n);
        CondAssign(T, sel, T, table, n, i == window);
        FramedTrans(t0, t, T[..], sel, n, sel, n);
        AtNext(wo, n, i);
        table := table + n;
      }
    }
  }

  // ----- The exponentiation loop

  // x is the form of a^(e' - window), where e' is the part of e above its low rem bits and
  // window holds the last of the bits seen
  ghost predicate Progress(x: int, e: int, rem: nat, window: int, bits: nat, a: int, m: int, n: nat)
  {
    && 0 <= window < Pow2(bits) && window <= e / Pow2(rem)
    && MontForm(x, Pow(a, e / Pow2(rem) - window), m, n)
  }

  lemma {:induction false} ProgressStart(x: int, e: int, rem: nat, a: int, m: int, n: nat)
    requires 0 <= e < Pow2(rem) && MontForm(x, 1, m, n)
    ensures Progress(x, e, rem, 0, 0, a, m, n)
  {
    ModSmall(e, Pow2(rem));
  }

  lemma {:induction false} ProgressSquare(x: int, r: int, e: int, rem: nat, window: int, bits: nat, a: int, m: int,
                                          n: nat)
    requires rem > 0 && m % 2 == 1 && Progress(x, e, rem, window, bits, a, m, n) && MontProduct(r, x, x, m, n)
    ensures Progress(r, e, rem - 1, 2 * window + e / Pow2(rem - 1) % 2, bits + 1, a, m, n)
  {
    hide MontForm, MontProduct;
    var q := e / Pow2(rem - 1);
    DivDiv(e, Pow2(rem - 1), 2);
    assert e / Pow2(rem) == q / 2;
    var k := q / 2 - window;
    FormProduct(x, Pow(a, k), x, Pow(a, k), r, m, n);
    PowAdd(a, k, k);
    assert q - (2 * window + q % 2) == k + k;
  }

  lemma {:induction false} ProgressMultiply(x: int, w: int, r: int, e: int, rem: nat, window: int, bits: nat, a: int,
                                            m: int, n: nat)
    requires m % 2 == 1 && Progress(x, e, rem, window, bits, a, m, n)
    requires MontForm(w, Pow(a, window), m, n) && MontProduct(r, x, w, m, n)
    ensures Progress(r, e, rem, 0, 0, a, m, n)
  {
    hide MontForm, MontProduct;
    var k := e / Pow2(rem) - window;
    FormProduct(x, Pow(a, k), w, Pow(a, window), r, m, n);
    PowAdd(a, k, window);
  }

  lemma {:induction false} ProgressEnd(x: int, e: int, a: int, m: int, n: nat)
    requires e >= 0 && Progress(x, e, 0, 0, 0, a, m, n)
    ensures MontForm(x, Pow(a, e), m, n)
  {
    assert e / Pow2(0) == e;
  }

  // Bit number BITS * limb + bit of the exponent
  lemma {:induction false} ExponentBit(e: seq<Limb>, limb: nat, bit: nat)
    requires limb < |e| && bit < BITS
    ensures BITS * limb >= 0
    ensures Value(e) / Pow2(BITS * limb + bit) % 2 == Shr(e[limb], bit) % 2
  {
    hide Value, Place, BETA;
    PlaceIsPow2(limb);
    Pow2Add(BITS * limb, bit);
    DivDiv(Value(e), Place(limb), Pow2(bit));
    ValueDiv(e, limb);
    ValueLow(e[limb..]);
    var v, h := Value(e[limb..]), Value(e[limb..][1..]);
    DivModBasics(v, BETA);
    BaseIsPow2();
    Pow2Add(bit, BITS - bit);
    BitBelow(e[limb], h, Pow2(bit), BITS - bit);
  }

  lemma {:induction false} BitBelow(x: int, h: int, p: int, k: nat)
    requires p > 0 && k > 0
    ensures (h * (p * Pow2(k)) + x) / p % 2 == x / p % 2
  {
    var g := Pow2(k - 1);
    assert Pow2(k) == 2 * g;
    assert h * (p * (2 * g)) == (h * (2 * g)) * p by { MulAssoc(h, 2 * g, p); }
    ModAddMultiple(x, h * (2 * g), p);
    MulAssoc(h, 2, g);
    HalfSwap(h, 2, g);
    ModAddMultiple(x / p, h * g, 2);
  }

  lemma {:induction false} TableKept1(t: seq<Limb>, t': seq<Limb>, wo: nat, count: nat, n: nat, a: int, m: int,
                                      o: nat, k: nat)
    requires Table(t, wo, count, n, a, m) && Framed(t, t', o, k) && At(wo, n, count) <= o
    ensures Table(t', wo, count, n, a, m)
  {
    TableKept(t, t', wo, count, n, a, m, o, k, o, k);
  }

  // Square X
  method Square(X: array<Limb>, N: array<Limb>, n: nat, mm: Limb, RR: array<Limb>, T: array<Limb>, wo: nat,
                welem: nat, temp: nat)
    requires Setting(N, n, mm, RR, T, wo, welem, temp)
    requires Fits(X, 0, n) && X != T && X != N && X != RR && Value(X[0..n]) < Value(N[0..n])
    modifies X, T
    ensures MontProduct(Value(X[0..n]), old(Value(X[0..n])), old(Value(X[0..n])), Value(N[0..n]), n)
    ensures Framed(old(T[..]), T[..], temp, 2 * n + 1) && Framed(old(X[..]), X[..], 0, n)
  {
    hide Value, Place, BETA, MontConstant, MontProduct, Framed, Framed2, Cong, At;
    Montmul(X, 0, X, 0, X, 0, n, N, 0, n, mm, T, temp);
  }

  // Multiply X by the table entry of the window
  method MultiplyWindow(X: array<Limb>, N: array<Limb>, n: nat, mm: Limb, RR: array<Limb>, T: array<Limb>, wo: nat,
                        welem: nat,
                        window: nat, isPublic: bool, ghost a: int) returns (ghost w: int)
    requires Setting(N, n, mm, RR, T, wo, welem, At(wo, n, welem) + n)
    requires Fits(X, 0, n) && X != T && X != N && X != RR
    requires window < welem && Table(T[..], wo, welem, n, a, Value(N[0..n]))
    modifies X, T
    ensures MontForm(w, Pow(a, window), Value(N[0..n]), n)
    ensures MontProduct(Value(X[0..n]), old(Value(X[0..n])), w, Value(N[0..n]), n)
    ensures Framed(old(T[..]), T[..], At(wo, n, welem), n + (2 * n + 1)) && Framed(old(X[..]), X[..], 0, n)
  {
    hide Value, Place, BETA, MontConstant, MontProduct, MontForm, Framed, Framed2, Cong, At, Table;
    var sel := At(wo, n, welem);
    ghost var t0, m := T[..], Value(N[0..n]);
    TableEntry(t0, wo, welem, window, n, a, m);
    TableLookup(T, sel, wo, n, welem, window, isPublic);
    ghost var t1 := T[..];
    w := Value(T[sel..sel + n]);
    Montmul(X, 0, X, 0, T, sel, n, N, 0, n, mm, T, sel + n);
    FramedWiden(t0, t1, T[..], sel, n, 2 * n + 1);
  }

  lemma {:induction false} FramedWiden(x: seq<Limb>, y: seq<Limb>, z: seq<Limb>, o: nat, n: nat, k: nat)
    requires Framed(x, y, o, n) && Framed(y, z, o + n, k)
    ensures Framed(x, z, o, n + k)
  {
  }

  // Squaring moves one more bit of the exponent into the window
  method SquareStep(X: array<Limb>, N: array<Limb>, n: nat, mm: Limb, RR: array<Limb>, T: array<Limb>, wo: nat,
                    welem: nat, temp: nat,
                    ghost e: int, ghost rem: nat, ghost window: int, ghost bits: nat, ghost a: int)
    requires Setting(N, n, mm, RR, T, wo, welem, temp) && Fits(X, 0, n) && X != T && X != N && X != RR
    requires rem > 0 && Progress(Value(X[0..n]), e, rem, window, bits, a, Value(N[0..n]), n)
    requires Table(T[..], wo, welem, n, a, Value(N[0..n]))
    modifies X, T
    ensures Progress(Value(X[0..n]), e, rem - 1, 2 * window + e / Pow2(rem - 1) % 2, bits + 1, a, Value(N[0..n]), n)
    ensures Table(T[..], wo, welem, n, a, Value(N[0..n]))
    ensures Framed(old(T[..]), T[..], temp, 2 * n + 1) && Framed(old(X[..]), X[..], 0, n)
  {
    hide Value, Place, BETA, MontConstant, MontProduct, MontForm, Framed, Cong, At, Table, Progress, Pow;
    ghost var t0, x, m := T[..], Value(X[0..n]), Value(N[0..n]);
    ProgressReduced(x, e, rem, window, bits, a, m, n);
    Square(X, N, n, mm, RR, T, wo, welem, temp);
    ProgressSquare(x, Value(X[0..n]), e, rem, window, bits, a, m, n);
    TableKept1(t0, T[..], wo, welem, n, a, m, temp, 2 * n + 1);
  }

  lemma {:induction false} ProgressReduced(x: int, e: int, rem: nat, window: int, bits: nat, a: int, m: int, n: nat)
    requires Progress(x, e, rem, window, bits, a, m, n)
    ensures 0 <= x < m && 0 <= window < Pow2(bits)
  {
  }

  // Multiplying by the selected entry empties the window
  method MultiplyStep(X: array<Limb>, N: array<Limb>, n: nat, mm: Limb, RR: array<Limb>, T: array<Limb>, wo: nat,
                      welem: nat,
                      window: nat, isPublic: bool, ghost e: int, ghost rem: nat, ghost bits: nat, ghost a: int)
    requires Setting(N, n, mm, RR, T, wo, welem, At(wo, n, welem) + n) && Fits(X, 0, n) && X != T && X != N && X != RR
    requires window < welem && Progress(Value(X[0..n]), e, rem, window, bits, a, Value(N[0..n]), n)
    requires Table(T[..], wo, welem, n, a, Value(N[0..n]))
    modifies X, T
    ensures Progress(Value(X[0..n]), e, rem, 0, 0, a, Value(N[0..n]), n)
    ensures Table(T[..], wo, welem, n, a, Value(N[0..n]))
    ensures Framed(old(T[..]), T[..], At(wo, n, welem), n + (2 * n + 1)) && Framed(old(X[..]), X[..], 0, n)
  {
    hide Value, Place, BETA, MontConstant, MontProduct, MontForm, Framed, Cong, At, Table, Progress, Pow;
    ghost var t0, x, m := T[..], Value(X[0..n]), Value(N[0..n]);
    ghost var w := MultiplyWindow(X, N, n, mm, RR, T, wo, welem, window, isPublic, a);
    ProgressMultiply(x, w, Value(X[0..n]), e, rem, window, bits, a, m, n);
    TableKept1(t0, T[..], wo, welem, n, a, m, At(wo, n, welem), n + (2 * n + 1));
  }

  // Bits of the exponent are numbered BITS * limb + bit
  predicate InExponent(limb: nat, bit: nat, el: nat)
  {
    bit < BITS && (limb < el || (limb == el && bit == 0))
  }

  method NextBit(limb0: nat, bit0: nat, ghost el: nat) returns (limb: nat, bit: nat)
    requires InExponent(limb0, bit0, el) && (limb0 > 0 || bit0 > 0)
    ensures InExponent(limb, bit, el) && limb < el
    ensures BITS * limb >= 0 && BITS * limb + bit == BITS * limb0 + bit0 - 1
    ensures BITS * limb + bit == 0 <==> limb == 0 && bit == 0
  {
    if bit0 == 0 {
      limb, bit := limb0 - 1, BITS - 1;
    } else {
      limb, bit := limb0, bit0 - 1;
    }
    BitsMono(limb, limb0);
    BitsMono(limb0, limb0);
    if limb > 0 { MulLe(1, limb, BITS, BITS); }
  }

  // The state between two turns of the loop: the window always fits the table
  ghost predicate LoopState(x: int, e: seq<Limb>, t: seq<Limb>, limb: nat, bit: nat, window: nat, bits: nat, wsize: nat,
                            wo: nat, n: nat, a: int, m: int)
  {
    && InExponent(limb, bit, |e|) && bits < wsize
    && (limb == 0 && bit == 0 ==> window == 0 && bits == 0)
    && BITS * limb >= 0 && Progress(x, Value(e), BITS * limb + bit, window, bits, a, m, n)
    && Table(t, wo, Pow2(wsize), n, a, m)
  }

  // How much of the working buffer the loop uses, from wo on
  function PoolLimbs(wo: nat, n: nat, welem: nat): nat
  {
    At(wo, n, welem) + n + (2 * n + 1) - wo
  }

  method ExpIterate(X: array<Limb>, N: array<Limb>, n: nat, mm: Limb, RR: array<Limb>, E: array<Limb>, eo: nat, el: nat,
                    limb0: nat, bit0: nat, window0: nat, bits0: nat, isPublic: bool, wsize: nat,
                    T: array<Limb>, wo: nat, ghost a: int)
    returns (limb: nat, bit: nat, window: nat, bits: nat)
    requires Setting(N, n, mm, RR, T, wo, Pow2(wsize), At(wo, n, Pow2(wsize)) + n)
    requires Fits(X, 0, n) && Fits(E, eo, el) && X != T && X != N && X != RR && X != E
    requires Apart(T, wo, PoolLimbs(wo, n, Pow2(wsize)), E, eo, el)
    requires limb0 > 0 || bit0 > 0
    requires LoopState(Value(X[0..n]), E[eo..eo + el], T[..], limb0, bit0, window0, bits0, wsize, wo, n, a,
                       Value(N[0..n]))
    modifies X, T
    ensures E[eo..eo + el] == old(E[eo..eo + el])
    ensures LoopState(Value(X[0..n]), E[eo..eo + el], T[..], limb, bit, window, bits, wsize, wo, n, a, Value(N[0..n]))
    ensures BITS * limb + bit == BITS * limb0 + bit0 - 1
    ensures Framed(old(X[..]), X[..], 0, n) && Framed(old(T[..]), T[..], wo, PoolLimbs(wo, n, Pow2(wsize)))
  {
    hide Value, Place, BETA, MontConstant, MontProduct, MontForm, Framed, Framed2, Cong, At, Table, Progress, Shr, Pow;
    var welem := Pow2(wsize);
    var temp := At(wo, n, welem) + n;
    ghost var t, x, e, m, l := T[..], X[..], E[eo..eo + el], Value(N[0..n]), PoolLimbs(wo, n, welem);
    ghost var rem := BITS * limb0 + bit0;
    limb, bit := NextBit(limb0, bit0, el);
    SquareStep(X, N, n, mm, RR, T, wo, welem, temp, Value(e), rem, window0, bits0, a);
    ghost var t1, x1 := T[..], X[..];
    FramedRefl(t, wo, l);
    FramedTrans(t, t, t1, wo, l, temp, 2 * n + 1);
    assert E[eo..eo + el] == e by { if E == T { Kept(t, t1, temp, 2 * n + 1, eo, el); } }
    ExponentBit(e, limb, bit);
    assert e[limb] == E[eo + limb];
    // Insert the exponent bit into the window
    bits := bits0 + 1;
    window := 2 * window0 + Shr(E[eo + limb], bit) % 2;
    ProgressReduced(Value(X[0..n]), Value(e), rem - 1, window, bits, a, m, n);
    Pow2Mono(bits, wsize);
    if bits == wsize || (bit == 0 && limb == 0) {
      MultiplyStep(X, N, n, mm, RR, T, wo, welem, window, isPublic, Value(e), rem - 1, bits, a);
      FramedTrans(t, t1, T[..], wo, l, At(wo, n, welem), n + (2 * n + 1));
      FramedTrans(x, x1, X[..], 0, n, 0, n);
      assert E[eo..eo + el] == e by { if E == T { Kept(t1, T[..], At(wo, n, welem), n + (2 * n + 1), eo, el); } }
      window, bits := 0, 0;
    }
  }

  method ExpLoop(X: array<Limb>, N: array<Limb>, n: nat, mm: Limb, RR: array<Limb>, E: array<Limb>, eo: nat, el: nat,
                 limb0: nat, bit0: nat, isPublic: bool, wsize: nat, T: array<Limb>, wo: nat, ghost a: int)
    requires Setting(N, n, mm, RR, T, wo, Pow2(wsize), At(wo, n, Pow2(wsize)) + n)
    requires Fits(X, 0, n) && Fits(E, eo, el) && X != T && X != N && X != RR && X != E
    requires Apart(T, wo, PoolLimbs(wo, n, Pow2(wsize)), E, eo, el)
    requires limb0 > 0 || bit0 > 0
    requires LoopState(Value(X[0..n]), E[eo..eo + el], T[..], limb0, bit0, 0, 0, wsize, wo, n, a, Value(N[0..n]))
    modifies X, T
    ensures MontForm(Value(X[0..n]), Pow(a, old(Value(E[eo..eo + el]))), Value(N[0..n]), n)
    ensures Framed(old(X[..]), X[..], 0, n) && Framed(old(T[..]), T[..], wo, PoolLimbs(wo, n, Pow2(wsize)))
  {
    hide Value, Place, BETA, MontConstant, MontProduct, MontForm, Framed, Framed2, Cong, At, LoopState, PoolLimbs, Pow;
    ghost var t0, x0, e, l := T[..], X[..], E[eo..eo + el], PoolLimbs(wo, n, Pow2(wsize));
    var limb, bit, window: nat, bits: nat := limb0, bit0, 0, 0;
    FramedRefl(t0, wo, l);
    FramedRefl(x0, 0, n);
    // do { ... } while (!(bit == 0 && limb == 0)), entered with bits left
    while !(bit == 0 && limb == 0)
      invariant E[eo..eo + el] == e && BITS * limb >= 0
      invariant LoopState(Value(X[0..n]), e, T[..], limb, bit, window, bits, wsize, wo, n, a, Value(N[0..n]))
      invariant Framed(t0, T[..], wo, l) && Framed(x0, X[..], 0, n)
      decreases BITS * limb + bit
    {
      ghost var t, x := T[..], X[..];
      limb, bit, window, bits :=
        ExpIterate(X, N, n, mm, RR, E, eo, el, limb, bit, window, bits, isPublic, wsize, T, wo, a);
      LoopIndex(Value(X[0..n]), e, T[..], limb, bit, window, bits, wsize, wo, n, a, Value(N[0..n]));
      FramedTrans(t0, t, T[..], wo, l, wo, l);
      FramedTrans(x0, x, X[..], 0, n, 0, n);
    }
    LoopEnd(Value(X[0..n]), e, T[..], limb, bit, window, bits, wsize, wo, n, a, Value(N[0..n]));
  }

  lemma {:induction false} LoopIndex(x: int, e: seq<Limb>, t: seq<Limb>, limb: nat, bit: nat, window: nat, bits: nat,
                                     wsize: nat,
                                     wo: nat, n: nat, a: int, m: int)
    requires LoopState(x, e, t, limb, bit, window, bits, wsize, wo, n, a, m)
    ensures BITS * limb >= 0
  {
  }

  lemma {:induction false} LoopEnd(x: int, e: seq<Limb>, t: seq<Limb>, limb: nat, bit: nat, window: nat, bits: nat,
                                   wsize: nat,
                                   wo: nat, n: nat, a: int, m: int)
    requires LoopState(x, e, t, limb, bit, window, bits, wsize, wo, n, a, m) && limb == 0 && bit == 0
    ensures MontForm(x, Pow(a, Value(e)), m, n)
  {
    hide Table, MontForm, Value;
    ProgressEnd(x, Value(e), a, m, n);
  }

  // ----- Window size and working memory

  // MBEDTLS_MPI_WINDOW_SIZE, fixed when the library is built
  const WINDOW_SIZE: nat

  function WindowSize(ebits: nat): (r: nat)
    ensures 1 <= r <= 6
  {
    if WINDOW_SIZE >= 6 then
      if ebits > 671 then 6 else if ebits > 239 then 5 else if ebits > 79 then 4 else 1
    else if WINDOW_SIZE == 5 then
      if ebits > 239 then 5 else if ebits > 79 then 4 else 1
    else if WINDOW_SIZE > 1 then
      if ebits > 79 then WINDOW_SIZE else 1
    else
      1
  }

  // Table, selected entry and the scratch space of one multiplication
  function WorkingLimbs(n: nat, elimbs: nat): nat
  {
    MulLe(0, Pow2(WindowSize(elimbs * BITS)), 0, n);
    Pow2(WindowSize(elimbs * BITS)) * n + n + (2 * n + 1)
  }

  // A path that starts at a lower bit picks a window that is no larger, so it needs no more room
  lemma {:induction false} PoolFits(wo: nat, n: nat, limb: nat, el: nat)
    requires limb <= el
    ensures PoolLimbs(wo, n, Pow2(WindowSize(limb * BITS))) <= WorkingLimbs(n, el)
  {
    MulLe(limb, el, BITS, BITS);
    assert WindowSize(limb * BITS) <= WindowSize(el * BITS);
    Pow2Mono(WindowSize(limb * BITS), WindowSize(el * BITS));
    MulLe(Pow2(WindowSize(limb * BITS)), Pow2(WindowSize(el * BITS)), n, n);
  }

  // ----- Exponentiation

  // The bit to start from: the first one allocated, or on the public path the first one set
  method FirstBit(E: array<Limb>, eo: nat, el: nat, isPublic: bool) returns (limb: nat, bit: nat)
    requires Fits(E, eo, el) && el > 0
    ensures InExponent(limb, bit, el) && (limb > 0 || bit > 0)
    ensures BITS * limb >= 0 && Value(E[eo..eo + el]) < Pow2(BITS * limb + bit)
  {
    hide Value;
    ghost var e := E[eo..eo + el];
    BitsMono(1, el);
    if isPublic {
      var ebits := Bitlen(E, eo, el);
      Pow2Mono(ebits, if ebits == 0 then 1 else ebits);
      if ebits == 0 { ebits := 1; }
      limb, bit := ebits / BITS, ebits % BITS;
      StartIndex(ebits, limb, bit, el);
    } else {
      limb, bit := el, 0;
      ValueBound(e);
      PlaceIsPow2(el);
    }
  }

  lemma {:induction false} StartIndex(ebits: nat, limb: nat, bit: nat, el: nat)
    requires 1 <= ebits <= BITS * el && limb == ebits / BITS && bit == ebits % BITS
    ensures InExponent(limb, bit, el) && (limb > 0 || bit > 0)
    ensures BITS * limb >= 0 && ebits == BITS * limb + bit
  {
    DivModBasics(ebits, BITS);
    if limb > el || (limb == el && bit > 0) {
      MulLe(el, limb, BITS, BITS);
      if limb > el { MulLe(el + 1, limb, BITS, BITS); }
    }
  }

  // What the caller must provide: an odd modulus, its squared Montgomery radix, and a working
  // buffer that overlaps nothing else
  ghost predicate ExpInput(A: array<Limb>, N: array<Limb>, n: nat, E: array<Limb>, eo: nat, el: nat, RR: array<Limb>,
                           T: array<Limb>, wo: nat, a: int)
    reads A, N, RR
  {
    && 0 < n && 0 < el && Fits(A, 0, n) && Fits(N, 0, n) && Fits(E, eo, el) && Fits(RR, 0, n)
    && Fits(T, wo, WorkingLimbs(n, el)) && Apart(T, wo, WorkingLimbs(n, el), E, eo, el)
    && A != T && N != T && RR != T && N[0] % 2 == 1
    && MontForm(Value(A[0..n]), a, Value(N[0..n]), n)
    && Value(RR[0..n]) < Value(N[0..n]) && Cong(Value(RR[0..n]), Place(n) * Place(n), Value(N[0..n]))
  }

  lemma {:induction false} ModulusReady(mm: Limb, m: seq<Limb>)
    requires |m| > 0 && m[0] % 2 == 1 && MontConstant(mm, m[0])
    ensures MontConstant(mm, Value(m)) && Value(m) % 2 == 1
  {
    ValueParity(m);
    MontConstantLow(mm, m);
  }

  // X = A^E mod N, everything in Montgomery form; A may be X
  method ExpModOptionallySafe(X: array<Limb>, A: array<Limb>, N: array<Limb>, n: nat, E: array<Limb>, eo: nat, el: nat,
                              isPublic: bool, RR: array<Limb>, T: array<Limb>, wo: nat, ghost a: int)
    requires ExpInput(A, N, n, E, eo, el, RR, T, wo, a)
    requires Fits(X, 0, n) && X != T && X != N && X != RR && X != E
    modifies X, T
    ensures MontForm(Value(X[0..n]), Pow(a, old(Value(E[eo..eo + el]))), Value(N[0..n]), n)
    ensures Framed(old(X[..]), X[..], 0, n) && Framed(old(T[..]), T[..], wo, WorkingLimbs(n, el))
  {
    hide Value, Place, BETA, MontConstant, MontProduct, MontForm, Framed, Framed2, Cong, At, Table, Pow, WindowSize;
    hide WorkingLimbs;
    ghost var t0, x0, e, m, work := T[..], X[..], E[eo..eo + el], N[0..n], WorkingLimbs(n, el);
    var limb, bit := FirstBit(E, eo, el, isPublic);
    var wsize := WindowSize(limb * BITS);
    var welem := Pow2(wsize);
    Pow2Mono(1, wsize);
    PoolFits(wo, n, limb, el);
    var temp := At(wo, n, welem) + n;
    var mm := MontmulInit(N, 0);
    assert m[0] == N[0];
    ModulusReady(mm, m);
    PrecomputeWindow(A, N, n, mm, RR, T, wo, welem, temp, a);
    ghost var t1 := T[..];
    FramedRefl(t0, wo, work);
    FramedTrans(t0, t0, t1, wo, work, wo, PoolLimbs(wo, n, welem));
    assert E[eo..eo + el] == e by { if E == T { Kept(t0, t1, wo, PoolLimbs(wo, n, welem), eo, el); } }
    AtNext(wo, n, 0);
    TableEntry(t1, wo, welem, 0, n, a, Value(m));
    CopyLimbs(X, 0, T, wo, n);
    ghost var x1 := X[..];
    LoopStart(Value(X[0..n]), e, t1, limb, bit, wsize, wo, n, a, Value(m));
    ExpLoop(X, N, n, mm, RR, E, eo, el, limb, bit, isPublic, wsize, T, wo, a);
    FramedTrans(t0, t1, T[..], wo, work, wo, PoolLimbs(wo, n, welem));
    FramedTrans(x0, x1, X[..], 0, n, 0, n);
  }

  lemma {:induction false} LoopStart(x: int, e: seq<Limb>, t: seq<Limb>, limb: nat, bit: nat, wsize: nat, wo: nat,
                                     n: nat, a: int, m: int)
    requires InExponent(limb, bit, |e|) && BITS * limb >= 0 && Value(e) < Pow2(BITS * limb + bit) && wsize >= 1
    requires Table(t, wo, Pow2(wsize), n, a, m) && MontForm(x, Pow(a, 0), m, n)
    ensures LoopState(x, e, t, limb, bit, 0, 0, wsize, wo, n, a, m)
  {
    hide Table, MontForm;
    ProgressStart(x, Value(e), BITS * limb + bit, a, m, n);
  }

  lemma {:induction false} FormValue(x: int, y: int, a: int, m: int, n: nat)
    requires MontForm(x, a, m, n) && MontForm(y, a, m, n)
    ensures x == y
  {
    CongTrans(x, a * Place(n), y, m);
    CongReduced(x, y, m);
  }

  // Whatever path computed them, two results of the same exponentiation are the same limbs
  lemma {:induction false} FormUnique(x: seq<Limb>, y: seq<Limb>, a: int, m: int, n: nat)
    requires |x| == |y| && MontForm(Value(x), a, m, n) && MontForm(Value(y), a, m, n)
    ensures x == y
  {
    hide Value, MontForm;
    FormValue(Value(x), Value(y), a, m, n);
    ValueInjective(x, y);
  }
}
