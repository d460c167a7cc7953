/**
 Montgomery multiplication (HAC 14.36) as bignum_core.c performs it on limb arrays, and the
 Newton iteration that computes its constant.
 */
module Montgomery {
  import opened Arith
  import opened Limbs
  import opened Core

  // ----- The Montgomery constant

  // mm is -1/n modulo the limb base
  predicate MontConstant(mm: int, n: int)
  {
    Cong(n * mm, -1, BETA)
  }

  // x & 4
  function And4(x: Limb): (r: Limb)
    ensures r == 0 || r == 4
  {
    BaseLarge();
    x / 4 % 2 * 4
  }

  lemma SeedTable(r: int, b: int)
    requires 0 <= r < 16 && r % 2 == 1 && b == (r + 2) % 16 / 4 % 2 * 4
    ensures Cong(1, r * (r + 2 * b), 16)
  {
    assert r == 1 || r == 3 || r == 5 || r == 7 || r == 9 || r == 11 || r == 13 || r == 15;
  }

  lemma BaseBy16()
    ensures BETA == BETA / 16 * 16
  {
    Pow2Add(BITS - 4, 4);
    assert Pow2(4) == 16;
    DivModUnique(BETA, 16, Pow2(BITS - 4), 0);
  }

  lemma WrapBy16(x: int)
    ensures Cong(Wrap(x), x, 16)
  {
    BaseBy16();
    CongMod(x, BETA);
    CongDivisor(x % BETA, x, BETA / 16, 16);
  }

  lemma {:induction false} SeedBit(w: int, n: int)
    requires Cong(w, n + 2, 16)
    ensures w / 4 % 2 == (n % 16 + 2) % 16 / 4 % 2
  {
    var q, s := w / 16, w % 16;
    assert s == (n % 16 + 2) % 16;
    DivModUnique(w, 4, 4 * q + s / 4, s % 4);
    DivModUnique(4 * q + s / 4, 2, 2 * q + s / 4 / 2, s / 4 % 2);
  }

  lemma {:induction false} SeedProduct(n: int, x: int, r: int, b: int)
    requires Cong(r, n, 16) && Cong(x, n + 2 * b, 16) && Cong(1, r * (r + 2 * b), 16)
    ensures Cong(n * x, 1, 16)
  {
    hide Cong;
    CongSym(r, n, 16);
    CongRefl(2 * b, 16);
    CongAdd(n, r, 2 * b, 2 * b, 16);
    CongTrans(x, n + 2 * b, r + 2 * b, 16);
    CongMul(n, r, x, r + 2 * b, 16);
    CongSym(1, r * (r + 2 * b), 16);
    CongTrans(n * x, r * (r + 2 * b), 1, 16);
  }

  lemma {:induction false} SeedResidue(n: int, b: int)
    requires n % 2 == 1 && b == (n % 16 + 2) % 16 / 4 % 2 * 4
    ensures Cong(1, n % 16 * (n % 16 + 2 * b), 16)
  {
    CongMod(n, 16);
    CongDivisor(n % 16, n, 8, 2);
    SeedTable(n % 16, b);
  }

  // n * x = 1 modulo 16 for the starting point x = n + (((n + 2) & 4) << 1)
  lemma {:induction false} SeedCorrect(n: Limb)
    requires n % 2 == 1
    ensures Cong(n * Wrap(n + Shl(And4(Wrap(n + 2)), 1)), 1, 16)
  {
    hide Cong, BETA, Wrap;
    var w := Wrap(n + 2);
    var b := And4(w);
    WrapBy16(n + 2);
    SeedBit(w, n);
    SeedResidue(n, b);
    BaseLarge();
    assert Shl(b, 1) == 2 * b by { assert Pow2(1) == 2; }
    WrapBy16(n + 2 * b);
    CongMod(n, 16);
    hide And4;
    SeedProduct(n, Wrap(n + 2 * b), n % 16, b);
  }

  // A Newton step squares the precision
  lemma {:induction false} NewtonStep(n: int, x: int, q: int)
    requires q > 0 && Cong(n * x, 1, q)
    ensures q * q > 0
    ensures Cong(n * (x * (2 - n * x)), 1, q * q)
  {
    MulLe(1, q, 1, q);
    var j := CongMultiple(n * x, 1, q);
    var e := j * q;
    calc {
      n * (x * (2 - n * x));
      { MulAssoc(n, x, 2 - n * x); }
      (1 + e) * (1 - e);
      { MulExpand(1, e, 1, -1 * e); }
      1 - e * e;
      { HalfSquare(j, j, q); }
      1 - j * j * (q * q);
    }
    CongFromMultiple(n * (x * (2 - n * x)), 1, -1 * (j * j), q * q);
  }

  lemma {:induction false} NewtonLimb(n: Limb, x: Limb, k: nat)
    requires 2 * k <= BITS && Cong(n * x, 1, Pow2(k))
    ensures Cong(n * Wrap(x * (2 - n * x)), 1, Pow2(2 * k))
  {
    hide BETA, Pow2, Cong;
    var q, y := Pow2(2 * k), x * (2 - n * x);
    Pow2Add(k, k);
    NewtonStep(n, x, Pow2(k));
    WrapPow2(y, 2 * k);
    CongRefl(n, q);
    CongMul(n, n, Wrap(y), y, q);
    CongTrans(n * Wrap(y), n * y, 1, q);
  }

  lemma {:induction false} WrapPow2(y: int, k: nat)
    requires k <= BITS
    ensures Cong(Wrap(y), y, Pow2(k))
  {
    Pow2Add(BITS - k, k);
    CongMod(y, BETA);
    CongDivisor(y % BETA, y, Pow2(BITS - k), Pow2(k));
  }

  method MontmulInit(N: array<Limb>, no: nat) returns (mm: Limb)
    requires Fits(N, no, 1) && N[no] % 2 == 1
    ensures MontConstant(mm, N[no])
  {
    hide BETA, Pow2, Cong, Wrap, And4, Shl, MontConstant;
    var n: Limb := N[no];
    var x: Limb := Wrap(n + Shl(And4(Wrap(n + 2)), 1));
    SeedCorrect(n);
    ghost var k: nat := 4;
    SixteenIsPow2();
    var i: nat := BITS;
    while i >= 8
      invariant i in {4, 8, 16, 32, 64} && k * i == 4 * BITS
      invariant Cong(n * x, 1, Pow2(k))
    {
      NewtonLimb(n, x, k);
      x := Wrap(x * (2 - n * x));
      k, i := 2 * k, i / 2;
    }
    // ~x + 1
    mm := Wrap(BETA - x);
    BaseIsPow2();
    NegatedInverse(n, x);
  }

  lemma SixteenIsPow2()
    ensures Pow2(4) == 16
  {
  }

  lemma BaseIsPow2()
    ensures BETA == Pow2(BITS)
  {
  }

  lemma {:induction false} NegatedInverse(n: Limb, x: Limb)
    requires Cong(n * x, 1, BETA)
    ensures MontConstant(Wrap(BETA - x), n)
  {
    hide Cong, BETA;
    var y := Wrap(BETA - x);
    CongMod(BETA - x, BETA);
    CongFromMultiple(BETA - x, -1 * x, 1, BETA);
    CongTrans(y, BETA - x, -1 * x, BETA);
    CongRefl(n, BETA);
    CongRefl(-1, BETA);
    CongMul(n, n, y, -1 * x, BETA);
    CongMul(-1, -1, n * x, 1, BETA);
    MulAssoc(-1, n, x);
    MulAssoc(n, -1, x);
    CongTrans(n * y, -1 * (n * x), -1, BETA);
  }

  // Only the low limb of the modulus matters
  lemma {:induction false} MontConstantLow(mm: Limb, m: seq<Limb>)
    requires |m| > 0 && MontConstant(mm, m[0])
    ensures MontConstant(mm, Value(m))
  {
    ValueLow(m);
    CongMod(Value(m), BETA);
    CongMul(Value(m), m[0], mm, mm, BETA);
  }

  // ----- One step of the accumulator

  // u1 is chosen so that adding u1 * n clears the low limb
  lemma {:induction false} ReductionDivides(v: int, u0: int, b: int, b0: int, n: int, mm: int, u1: int)
    requires Cong(b0, b, BETA) && MontConstant(mm, n)
    requires Cong(u1, (v % BETA + u0 * b0) * mm, BETA)
    ensures (v + u0 * b + u1 * n) % BETA == 0
  {
    var s := v + u0 * b;
    CongMod(v, BETA);
    CongMul(u0, u0, b0, b, BETA);
    CongAdd(v % BETA, v, u0 * b0, u0 * b, BETA);
    CongMul(v % BETA + u0 * b0, s, mm, mm, BETA);
    CongMul(u1, s * mm, n, n, BETA);
    MulAssoc(s, mm, n);
    CongMul(s, s, n * mm, -1, BETA);
    CongAdd(s, s, u1 * n, s * -1, BETA);
    ModSmall(0, BETA);
  }

  // The accumulator stays below b + n, and so fits with one limb to spare
  lemma {:induction false} ReductionBound(v: int, u0: Limb, b: int, u1: Limb, n: int, w: int)
    requires 0 <= v < b + n && 0 <= b && 0 < n
    requires BETA * w == v + u0 * b + u1 * n
    ensures 0 <= w < b + n
  {
    MulLe(u0, BETA - 1, b, b);
    MulLe(u1, BETA - 1, n, n);
    MulDistrib(BETA - 1, b, n);
    MulDistrib(b + n, BETA, 1);
    assert v + u0 * b + u1 * n < BETA * (b + n);
    MulCancelLt(w, b + n, BETA);
    MulLe(0, u0, 0, b);
    MulLe(0, u1, 0, n);
    MulCancelLt(-1, w, BETA);
  }

  // Two limbs above the modulus are room enough: both carries out of mla are zero
  lemma {:induction false} ReductionRoom(v: int, u0: Limb, b: int, u1: Limb, n: int, k: nat)
    requires 0 <= v < b + n && 0 <= b < Place(k) && 0 < n < Place(k)
    ensures 0 <= u0 * b && 0 <= u1 * n && v + u0 * b + u1 * n < Place(k + 2)
  {
    var p := Place(k);
    PlaceNext(k);
    PlaceNext(k + 1);
    MulLe(u0, BETA - 1, b, p);
    MulLe(u1, BETA - 1, n, p);
    MulDistrib(p, BETA, 1);
    BaseLarge();
    MulLe(2, BETA, Place(k + 1), Place(k + 1));
  }

  // mla into a window with room for the sum is exact
  lemma {:induction false} MlaExact(x: seq<Limb>, c: Limb, v: int, b: Limb, s: seq<Limb>)
    requires Value(x) + c * Place(|x|) == v + b * Value(s) && v + b * Value(s) < Place(|x|)
    ensures c == 0 && Value(x) == v + b * Value(s)
  {
    if c >= 1 { MulLe(1, c, Place(|x|), Place(|x|)); }
  }

  // u1 = (T[0] + u0 * B[0]) * mm
  function MontQuotient(t0: Limb, u0: Limb, b0: Limb, mm: Limb): Limb
  {
    Wrap((t0 + u0 * b0) * mm)
  }

  // mla where the sum is known to fit: the carry is zero and may be dropped
  method MlaFitting(T: array<Limb>, o: nat, k: nat, S: array<Limb>, so: nat, sn: nat, b: Limb)
    requires Fits(T, o, k) && Fits(S, so, sn) && sn <= k && Apart(T, o, k, S, so, sn)
    requires Value(T[o..o + k]) + b * Value(S[so..so + sn]) < Place(k)
    modifies T
    ensures Value(T[o..o + k]) == old(Value(T[o..o + k])) + b * old(Value(S[so..so + sn]))
    ensures Framed(old(T[..]), T[..], o, k)
  {
    hide Value, Place, BETA, Framed;
    ghost var v, s := Value(T[o..o + k]), S[so..so + sn];
    var c := Mla(T, o, k, S, so, sn, b);
    MlaExact(T[o..o + k], c, v, b, s);
  }

  // T = T + u0 * B + u1 * N over n + 2 limbs, leaving the low limb zero
  method MontStep(T: array<Limb>, o: nat, n: nat, B: array<Limb>, bo: nat, bn: nat, N: array<Limb>, no: nat,
                  u0: Limb, mm: Limb)
    returns (u1: Limb)
    requires Fits(T, o, n + 2) && Fits(B, bo, bn) && Fits(N, no, n) && 0 < bn <= n
    requires Apart(T, o, n + 2, B, bo, bn) && N != T
    requires T[o + n + 1] == 0
    requires MontConstant(mm, Value(N[no..no + n]))
    requires 0 < Value(N[no..no + n])
    requires Value(T[o..o + (n + 1)]) < Value(B[bo..bo + bn]) + Value(N[no..no + n])
    modifies T
    ensures BETA * Value(T[o + 1..o + 1 + (n + 1)]) ==
            old(Value(T[o..o + (n + 1)])) + u0 * old(Value(B[bo..bo + bn])) + u1 * old(Value(N[no..no + n]))
    ensures Framed(old(T[..]), T[..], o, n + 2)
  {
    hide Value, Place, BETA, Framed, MontConstant, MontQuotient;
    ghost var t, b, m := T[..], B[bo..bo + bn], N[no..no + n];
    ghost var low := T[o..o + (n + 1)];
    u1 := MontQuotient(T[o], u0, B[bo], mm);
    assert T[o..o + (n + 2)] == low + [0] && low[0] == T[o] && b[0] == B[bo];
    StepStart(low, u0, b, m, mm, u1, n);
    MlaFitting(T, o, n + 2, B, bo, bn, u0);
    ghost var t' := T[..];
    MlaFitting(T, o, n + 2, N, no, n, u1);
    FramedTrans(t, t', T[..], o, n + 2, o, n + 2);
    StepEnd(T[o..o + (n + 2)]);
    SubSlice(T[..], o, o + (n + 2), 1, n + 2);
  }

  lemma {:induction false} StepStart(low: seq<Limb>, u0: Limb, b: seq<Limb>, m: seq<Limb>, mm: Limb, u1: Limb, n: nat)
    requires |low| == n + 1 && 0 < |b| <= n == |m| && 0 < Value(m) && Value(low) < Value(b) + Value(m)
    requires MontConstant(mm, Value(m)) && u1 == MontQuotient(low[0], u0, b[0], mm)
    ensures Value(low + [0]) == Value(low)
    ensures Value(low) + u0 * Value(b) < Place(n + 2)
    ensures Value(low) + u0 * Value(b) + u1 * Value(m) < Place(n + 2)
    ensures (Value(low) + u0 * Value(b) + u1 * Value(m)) % BETA == 0
  {
    hide Value, Place, BETA, MontConstant, MontQuotient;
    ValueSnoc(low, 0);
    StepDivides(low, u0, b, m, mm, u1);
    StepRoom(Value(low), u0, b, u1, m, n);
  }

  lemma {:induction false} StepEnd(t: seq<Limb>)
    requires |t| > 0 && Value(t) % BETA == 0
    ensures BETA * Value(t[1..]) == Value(t)
  {
    ValueLow(t);
  }

  lemma {:induction false} StepDivides(t: seq<Limb>, u0: Limb, b: seq<Limb>, m: seq<Limb>, mm: Limb, u1: Limb)
    requires |t| > 0 && |b| > 0 && MontConstant(mm, Value(m))
    requires u1 == MontQuotient(t[0], u0, b[0], mm)
    ensures (Value(t) + u0 * Value(b) + u1 * Value(m)) % BETA == 0
  {
    ValueLow(t);
    ValueLow(b);
    CongMod(Value(b), BETA);
    CongMod((t[0] + u0 * b[0]) * mm, BETA);
    ReductionDivides(Value(t), u0, Value(b), b[0], Value(m), mm, u1);
  }

  lemma {:induction false} StepRoom(v: int, u0: Limb, b: seq<Limb>, u1: Limb, m: seq<Limb>, n: nat)
    requires |b| <= n == |m| && 0 < Value(m) && 0 <= v < Value(b) + Value(m)
    ensures 0 <= u0 * Value(b) && 0 <= u1 * Value(m)
    ensures v + u0 * Value(b) + u1 * Value(m) < Place(n + 2)
  {
    ValueBound(b);
    ValueBound(m);
    PlaceMono(|b|, n);
    ReductionRoom(v, u0, Value(b), u1, Value(m), n);
  }

  // After i steps the window at offset o + i holds T with T * base^i = a[..i] * b modulo m,
  // and every limb above it is still zero.
  ghost predicate Accumulated(t: seq<Limb>, o: nat, i: nat, a: seq<Limb>, b: seq<Limb>, m: seq<Limb>)
  {
    var n := |a|;
    && i <= n == |m| && o + (2 * n + 1) <= |t| && 0 < Value(m)
    && (forall k :: o + i + n + 1 <= k < o + (2 * n + 1) ==> t[k] == 0)
    && var v := Value(t[o + i..o + i + (n + 1)]);
    && v < Value(b) + Value(m)
    && Cong(v * Place(i), Value(a[..i]) * Value(b), Value(m))
  }

  lemma {:induction false} AccumulatedStart(t: seq<Limb>, o: nat, a: seq<Limb>, b: seq<Limb>, m: seq<Limb>)
    requires |a| == |m| && 0 < Value(m) && o + (2 * |a| + 1) <= |t|
    requires t[o..o + (2 * |a| + 1)] == Zeros(2 * |a| + 1)
    ensures Accumulated(t, o, 0, a, b, m)
  {
    assert forall k :: o <= k < o + (2 * |a| + 1) ==> t[k] == t[o..o + (2 * |a| + 1)][k - o];
    ValueZero(t[o..o + (|a| + 1)]);
    assert a[..0] == [];
    ValueEmpty();
  }

  lemma {:induction false} AccumulatedTop(t: seq<Limb>, o: nat, i: nat, a: seq<Limb>, b: seq<Limb>, m: seq<Limb>)
    requires Accumulated(t, o, i, a, b, m) && i < |a|
    ensures t[o + i + |a| + 1] == 0
    ensures Value(t[o + i..o + i + (|a| + 1)]) < Value(b) + Value(m)
  {
  }

  lemma {:induction false} AccumulatedStep(t: seq<Limb>, t': seq<Limb>, o: nat, i: nat, a: seq<Limb>, b: seq<Limb>,
                                           m: seq<Limb>, u1: Limb)
    requires Accumulated(t, o, i, a, b, m) && i < |a|
    requires Framed(t, t', o + i, |a| + 2)
    requires BETA * Value(t'[o + i + 1..o + i + 1 + (|a| + 1)]) ==
             Value(t[o + i..o + i + (|a| + 1)]) + a[i] * Value(b) + u1 * Value(m)
    ensures Accumulated(t', o, i + 1, a, b, m)
  {
    var v, w := Value(t[o + i..o + i + (|a| + 1)]), Value(t'[o + i + 1..o + i + 1 + (|a| + 1)]);
    ReductionBound(v, a[i], Value(b), u1, Value(m), w);
    ValueNext(a, i);
    StepCongruence(v, w, Place(i), Value(a[..i]), a[i], Value(b), u1, Value(m));
  }

  lemma {:induction false} StepCongruence(v: int, w: int, p: int, a: int, ai: int, b: int, u1: int, m: int)
    requires m > 0 && Cong(v * p, a * b, m)
    requires BETA * w == v + ai * b + u1 * m
    ensures Cong(w * (BETA * p), (a + p * ai) * b, m)
  {
    hide Cong, BETA;
    StepIdentity(v, w, p, ai, b, u1, m, BETA);
    MulDistrib(b, a, p * ai);
    var x, y, z := v * p, a * b, p * ai * b;
    CongRefl(z, m);
    CongAdd(x, y, z, z, m);
    CongFromMultiple(x + z + u1 * p * m, x + z, u1 * p, m);
    CongTrans(x + z + u1 * p * m, x + z, y + z, m);
  }

  lemma StepIdentity(v: int, w: int, p: int, ai: int, b: int, u1: int, m: int, beta: int)
    requires beta * w == v + ai * b + u1 * m
    ensures w * (beta * p) == v * p + p * ai * b + u1 * p * m
  {
    MulAssoc(w, beta, p);
    MulDistrib(p, v + ai * b, u1 * m);
    MulDistrib(p, v, ai * b);
    MulAssoc(p, ai, b);
    HalfSwap(u1, m, p);
  }

  // ----- The final subtraction

  // The four cases of (carry, borrow); the accumulator v is below 2 * n, and x is its low
  // part minus n with the borrow.
  lemma {:induction false} FinalSubtraction(v: int, low: int, carry: int, n: int, p: int, x: int, borrow: int)
    requires 0 <= v < 2 * n && v == low + p * carry && 0 <= low < p && 0 < n < p
    requires 0 <= borrow <= 1 && 0 <= carry && 0 <= x < p && x - borrow * p == low - n
    ensures carry <= 1
    ensures !(carry == 1 && borrow == 0)
    ensures carry != borrow ==> v == low && v < n
    ensures carry == borrow ==> v >= n && x == v - n
  {
    if carry >= 2 { MulLe(p, p, 2, carry); }
  }

  // What the accumulator holds at the end: low limbs and the carry above them
  lemma {:induction false} AccumulatedEnd(t: seq<Limb>, o: nat, a: seq<Limb>, b: seq<Limb>, m: seq<Limb>)
    requires Accumulated(t, o, |a|, a, b, m)
    ensures o + |a| + |a| < |t|
    ensures var v := Value(t[o + |a|..o + |a| + |a|]) + Place(|a|) * t[o + |a| + |a|];
            v < Value(b) + Value(m) && Cong(v * Place(|a|), Value(a) * Value(b), Value(m))
  {
    var n := |a|;
    var low, carry := t[o + n..o + n + n], t[o + n + n];
    assert t[o + n..o + n + (n + 1)] == low + [carry];
    ValueSnoc(low, carry);
    assert a[..n] == a;
  }

  // Whichever of the two candidates is selected is the reduced product
  lemma {:induction false} SelectProduct(low: seq<Limb>, carry: Limb, x: seq<Limb>, borrow: Limb, a: int, b: int,
                                         m: seq<Limb>)
    requires |low| == |x| == |m| && borrow <= 1 && 0 < Value(m) && 0 <= b <= Value(m)
    requires Value(x) - borrow * Place(|m|) == Value(low) - Value(m)
    requires var v := Value(low) + Place(|m|) * carry;
             v < b + Value(m) && Cong(v * Place(|m|), a * b, Value(m))
    ensures MontProduct(if carry != borrow then Value(low) else Value(x), a, b, Value(m), |m|)
  {
    hide Value, Place, Cong, BETA;
    var p, n := Place(|m|), Value(m);
    ValueBound(low);
    ValueBound(m);
    ValueBound(x);
    var v := Value(low) + p * carry;
    MulLe(0, p, 0, carry);
    FinalSubtraction(v, Value(low), carry, n, p, Value(x), borrow);
    if carry == borrow {
      MulDistrib(p, v, n);
      CongFromMultiple(Value(x) * p, v * p, -1 * p, n);
      CongTrans(Value(x) * p, v * p, a * b, n);
    }
  }

  // r is a * b / base^n modulo m, reduced
  predicate MontProduct(r: int, a: int, b: int, m: int, n: nat)
  {
    0 <= r < m && Cong(r * Place(n), a * b, m)
  }

  // ----- Montgomery multiplication

  // One turn of the loop
  method MontIterate(A: array<Limb>, ao: nat, B: array<Limb>, bo: nat, bn: nat,
                     N: array<Limb>, no: nat, n: nat, mm: Limb, T: array<Limb>, o: nat, i: nat)
    requires Fits(A, ao, n) && Fits(B, bo, bn) && Fits(N, no, n) && Fits(T, o, 2 * n + 1) && 0 < bn <= n && i < n
    requires Apart(T, o, 2 * n + 1, A, ao, n) && Apart(T, o, 2 * n + 1, B, bo, bn) && N != T
    requires MontConstant(mm, Value(N[no..no + n])) && 0 < Value(N[no..no + n])
    requires Accumulated(T[..], o, i, A[ao..ao + n], B[bo..bo + bn], N[no..no + n])
    modifies T
    ensures A[ao..ao + n] == old(A[ao..ao + n]) && B[bo..bo + bn] == old(B[bo..bo + bn])
    ensures Accumulated(T[..], o, i + 1, A[ao..ao + n], B[bo..bo + bn], N[no..no + n])
    ensures Framed(old(T[..]), T[..], o + i, n + 2)
  {
    hide Value, Place, BETA, Framed, MontConstant, MontQuotient, Accumulated;
    ghost var a, b, m, t := A[ao..ao + n], B[bo..bo + bn], N[no..no + n], T[..];
    AccumulatedTop(t, o, i, a, b, m);
    var u1 := MontStep(T, o + i, n, B, bo, bn, N, no, A[ao + i], mm);
    assert A[ao..ao + n] == a by { if A == T { Kept(t, T[..], o + i, n + 2, ao, n); } }
    assert B[bo..bo + bn] == b by { if B == T { Kept(t, T[..], o + i, n + 2, bo, bn); } }
    AccumulatedStep(t, T[..], o, i, a, b, m, u1);
  }

  // The loop: T accumulates A * B / base^n plus multiples of N
  method MontAccumulate(A: array<Limb>, ao: nat, B: array<Limb>, bo: nat, bn: nat,
                        N: array<Limb>, no: nat, n: nat, mm: Limb, T: array<Limb>, o: nat)
    requires Fits(A, ao, n) && Fits(B, bo, bn) && Fits(N, no, n) && Fits(T, o, 2 * n + 1) && 0 < bn <= n
    requires Apart(T, o, 2 * n + 1, A, ao, n) && Apart(T, o, 2 * n + 1, B, bo, bn) && N != T
    requires MontConstant(mm, Value(N[no..no + n])) && 0 < Value(N[no..no + n])
    modifies T
    ensures Accumulated(T[..], o, n, old(A[ao..ao + n]), old(B[bo..bo + bn]), old(N[no..no + n]))
    ensures Framed(old(T[..]), T[..], o, 2 * n + 1)
  {
    hide Value, Place, BETA, Framed, MontConstant, MontQuotient, Accumulated;
    ghost var a, b, m, t0 := A[ao..ao + n], B[bo..bo + bn], N[no..no + n], T[..];
    ZeroFill(T, o, 2 * n + 1);
    assert A[ao..ao + n] == a by { if A == T { Kept(t0, T[..], o, 2 * n + 1, ao, n); } }
    assert B[bo..bo + bn] == b by { if B == T { Kept(t0, T[..], o, 2 * n + 1, bo, bn); } }
    AccumulatedStart(T[..], o, a, b, m);
    for i := 0 to n
      invariant A[ao..ao + n] == a && B[bo..bo + bn] == b
      invariant Framed(t0, T[..], o, 2 * n + 1)
      invariant Accumulated(T[..], o, i, a, b, m)
    {
      ghost var t := T[..];
      MontIterate(A, ao, B, bo, bn, N, no, n, mm, T, o, i);
      FramedTrans(t0, t, T[..], o, 2 * n + 1, o + i, n + 2);
    }
  }

  // The last subtraction, and the choice between its result and T
  method MontFinish(X: array<Limb>, xo: nat, N: array<Limb>, no: nat, n: nat, T: array<Limb>, o: nat,
                    ghost a: seq<Limb>, ghost b: seq<Limb>)
    requires Fits(X, xo, n) && Fits(N, no, n) && Fits(T, o, 2 * n + 1) && N != T && |a| == n
    requires Apart(T, o, 2 * n + 1, X, xo, n) && SameOrApart(X, xo, N, no, n)
    requires 0 < Value(N[no..no + n]) && Value(b) <= Value(N[no..no + n])
    requires Accumulated(T[..], o, n, a, b, N[no..no + n])
    modifies X
    ensures MontProduct(Value(X[xo..xo + n]), Value(a), Value(b), old(Value(N[no..no + n])), n)
    ensures Framed(old(X[..]), X[..], xo, n)
  {
    hide Value, Place, BETA, Framed, Accumulated, MontProduct, Cong;
    ghost var x0, m, low := X[..], N[no..no + n], T[o + n..o + n + n];
    AccumulatedEnd(T[..], o, a, b, m);
    var carry := T[o + n + n];
    var borrow := Sub(X, xo, T, o + n, N, no, n);
    ghost var x1 := X[..];
    assert T[o + n..o + n + n] == low by { if X == T { Kept(x0, x1, xo, n, o + n, n); } }
    SelectProduct(low, carry, X[xo..xo + n], borrow, Value(a), Value(b), m);
    // carry ^ borrow
    if carry != borrow {
      CopyLimbs(X, xo, T, o + n, n);
      FramedTrans(x0, x1, X[..], xo, n, xo, n);
    }
  }

  // X = A * B / base^n mod N
  method Montmul(X: array<Limb>, xo: nat, A: array<Limb>, ao: nat, B: array<Limb>, bo: nat, bn: nat,
                 N: array<Limb>, no: nat, n: nat, mm: Limb, T: array<Limb>, o: nat)
    requires Fits(X, xo, n) && Fits(A, ao, n) && Fits(B, bo, bn) && Fits(N, no, n) && Fits(T, o, 2 * n + 1)
    requires 0 < bn <= n
    requires Apart(T, o, 2 * n + 1, A, ao, n) && Apart(T, o, 2 * n + 1, B, bo, bn) && N != T
    requires Apart(T, o, 2 * n + 1, X, xo, n) && SameOrApart(X, xo, N, no, n)
    requires MontConstant(mm, Value(N[no..no + n])) && 0 < Value(N[no..no + n])
    requires Value(B[bo..bo + bn]) <= Value(N[no..no + n])
    modifies X, T
    ensures MontProduct(Value(X[xo..xo + n]), old(Value(A[ao..ao + n])), old(Value(B[bo..bo + bn])),
                        old(Value(N[no..no + n])), n)
    ensures X != T ==> Framed(old(X[..]), X[..], xo, n) && Framed(old(T[..]), T[..], o, 2 * n + 1)
    ensures X == T ==> Framed2(old(X[..]), X[..], xo, n, o, 2 * n + 1)
  {
    hide Value, Place, BETA, Framed, Framed2, MontConstant, Accumulated, MontProduct, Cong;
    ghost var a, b, t0 := A[ao..ao + n], B[bo..bo + bn], T[..];
    MontAccumulate(A, ao, B, bo, bn, N, no, n, mm, T, o);
    ghost var t := T[..];
    MontFinish(X, xo, N, no, n, T, o, a, b);
    if X == T { FramedBoth(t0, t, X[..], xo, n, o, 2 * n + 1); }
  }
}
