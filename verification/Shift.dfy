/**
 In-place shifts of limb arrays by any number of bits (bignum_core.c): whole limbs first, then
 the remaining bits with a carry from limb to limb.
 */
module Shift {
  import opened Arith
  import opened Limbs
  import opened Core
  import opened Montgomery

  // a | b for operands without common bits: b lies below bit k and a above it
  function OrDisjoint(a: Limb, b: Limb, k: nat): Limb
    requires a % Pow2(k) == 0 && b < Pow2(k) && a + b < BETA
  {
    a + b
  }

  // The limb x cut at bit k: its top part moves out, its low part moves up
  lemma {:induction false} CutLimb(x: Limb, k: nat)
    requires k <= BITS
    ensures Shl(x, k) == x % Pow2(BITS - k) * Pow2(k)
    ensures Shr(x, BITS - k) < Pow2(k)
    ensures x * Pow2(k) == Shl(x, k) + Shr(x, BITS - k) * BETA
    ensures Shl(x, k) % Pow2(k) == 0 && Shl(x, k) + Pow2(k) <= BETA
  {
    hide BETA;
    var p, q := Pow2(k), Pow2(BITS - k);
    BaseIsPow2();
    Pow2Add(k, BITS - k);
    CutAlgebra(x, p, q);
  }

  lemma CutAlgebra(x: int, p: int, q: int)
    requires p > 0 && q > 0 && 0 <= x < p * q
    ensures x * p % (p * q) == x % q * p
    ensures x / q < p
    ensures x * p == x % q * p + x / q * (p * q)
    ensures x % q * p % p == 0 && x % q * p + p <= p * q
  {
    DivModBasics(x, q);
    MulDistrib(p, x / q * q, x % q);
    MulAssoc(x / q, q, p);
    MulLt(x % q, q, p);
    MulLe(0, x % q, 0, p);
    DivModUnique(x * p, p * q, x / q, x % q * p);
    if x / q >= p { MulLe(p, x / q, q, q); }
    DivModUnique(x % q * p, p, x % q, 0);
  }

  // ----- Left shift

  // Limbs moved up by v, zeros below; what passes the top is lost
  function MovedUp(x: seq<Limb>, v: nat): (y: seq<Limb>)
    ensures |y| == |x|
  {
    if v <= |x| then Zeros(v) + x[..|x| - v] else Zeros(|x|)
  }

  method MoveUp(X: array<Limb>, v: nat)
    modifies X
    ensures X[..] == MovedUp(old(X[..]), v)
  {
    ghost var x := X[..];
    var limbs := X.Length;
    var i := limbs;
    while i > v
      invariant v <= limbs ==> v <= i <= limbs
      invariant v > limbs ==> i == limbs
      invariant forall j :: i <= j < limbs ==> X[j] == x[j - v]
      invariant forall j :: 0 <= j < i ==> X[j] == x[j]
    {
      X[i - 1] := X[i - v - 1];
      i := i - 1;
    }
    while i > 0
      invariant 0 <= i <= limbs && i <= v
      invariant forall j :: i <= j < limbs ==> X[j] == if j < v then 0 else x[j - v]
    {
      X[i - 1] := 0;
      i := i - 1;
    }
  }

  lemma {:induction false} MovedUpValue(x: seq<Limb>, v: nat)
    ensures Value(MovedUp(x, v)) == Value(x) * Place(v) % Place(|x|)
  {
    hide Value, Place;
    if v <= |x| {
      var k := |x| - v;
      ValueAppend(Zeros(v), x[..k]);
      ValueZero(Zeros(v));
      ValueSplit(x, k);
      PlaceAdd(v, k);
      ValueBound(x[..k]);
      MovedAlgebra(Value(x[..k]), Place(k), Value(x[k..]), Place(v));
    } else {
      MovedOut(x, v);
    }
  }

  lemma {:induction false} MovedOut(x: seq<Limb>, v: nat)
    requires v > |x|
    ensures Value(Zeros(|x|)) == Value(x) * Place(v) % Place(|x|)
  {
    hide Value, Place;
    ValueZero(Zeros(|x|));
    PlaceAdd(v - |x|, |x|);
    MulAssoc(Value(x), Place(v - |x|), Place(|x|));
    DivModUnique(Value(x) * Place(v), Place(|x|), Value(x) * Place(v - |x|), 0);
  }

  lemma MovedAlgebra(low: int, p: int, high: int, q: int)
    requires 0 <= low < p && 0 < q
    ensures q * p > 0 && q * low == (low + p * high) * q % (q * p)
  {
    MulDistrib(q, low, p * high);
    HalfSwap(p, high, q);
    MulLt(low, p, q);
    MulLe(0, low, 0, q);
    MulLe(1, p, 1, q);
    DivModUnique((low + p * high) * q, q * p, high, low * q);
  }

  // The bits of a left shift below limb size, from limb v on
  method ShiftBitsUp(X: array<Limb>, v: nat, k: nat) returns (r0: Limb)
    requires 0 < k < BITS && forall j :: 0 <= j < X.Length && j < v ==> X[j] == 0
    modifies X
    ensures Value(X[..]) + r0 * Place(X.Length) == old(Value(X[..])) * Pow2(k)
  {
    hide Value, Place, BETA, Chain, Shl, Shr, Pow2;
    ghost var x := X[..];
    var limbs := X.Length;
    var i := if v < limbs then v else limbs;
    r0 := 0;
    UpStart(x, i, k);
    assert X[..i] == x[..i];
    while i < limbs
      invariant i <= limbs && r0 < Pow2(k)
      invariant forall j :: i <= j < limbs ==> X[j] == x[j]
      invariant Chain(X[..i], r0, Pow2(k), x, 0, x, 0)
    {
      ghost var y, c := X[..i], r0;
      CutLimb(X[i], k);
      var r1 := Shr(X[i], BITS - k);
      X[i] := Shl(X[i], k);
      X[i] := OrDisjoint(X[i], r0, k);
      assert X[..i + 1] == y + [X[i]];
      ChainStep(y, c, Pow2(k), x, 0, x, 0, X[i], r1);
      r0 := r1;
      i := i + 1;
    }
    assert X[..limbs] == X[..];
    ChainEnd(X[..], r0, Pow2(k), x, 0, x, 0);
  }

  lemma {:induction false} UpStart(x: seq<Limb>, i: nat, k: nat)
    requires i <= |x| && forall j :: 0 <= j < i ==> x[j] == 0
    ensures Chain(x[..i], 0, Pow2(k), x, 0, x, 0)
  {
    ValueZero(x[..i]);
  }

  // X <<= count, modulo the size of X
  method ShiftL(X: array<Limb>, count: nat)
    modifies X
    ensures Value(X[..]) == old(Value(X[..])) * Pow2(count) % Place(X.Length)
  {
    hide Value, Place, BETA, Pow2;
    var v0, v1 := count / BITS, count % BITS;
    ghost var x := X[..];
    if v0 > 0 {
      MoveUp(X, v0);
    } else {
      assert MovedUp(x, 0) == x;
    }
    MovedUpValue(x, v0);
    ghost var y := X[..];
    if v1 > 0 {
      assert forall j :: 0 <= j < X.Length && j < v0 ==> X[j] == MovedUp(x, v0)[j];
      var r := ShiftBitsUp(X, v0, v1);
      UpEnd(Value(x), y, X[..], r, v0, v1);
    } else {
      Pow2Split(v0, 0);
      WholeLimbs(Value(x), v0);
    }
    DivModBasics(count, BITS);
  }

  lemma {:induction false} WholeLimbs(x: int, v0: nat)
    ensures BITS * v0 >= 0 && x * Pow2(BITS * v0) == x * Place(v0)
  {
    PlaceIsPow2(v0);
  }

  lemma {:induction false} Pow2Split(v0: nat, v1: nat)
    ensures BITS * v0 >= 0 && Pow2(BITS * v0 + v1) == Place(v0) * Pow2(v1)
  {
    PlaceIsPow2(v0);
    Pow2Add(BITS * v0, v1);
  }

  lemma {:induction false} UpEnd(x: int, y: seq<Limb>, z: seq<Limb>, r: int, v0: nat, v1: nat)
    requires |y| == |z| && Value(y) == x * Place(v0) % Place(|y|)
    requires Value(z) + r * Place(|z|) == Value(y) * Pow2(v1)
    ensures BITS * v0 >= 0 && Value(z) == x * Pow2(BITS * v0 + v1) % Place(|y|)
  {
    hide Value, Place, Pow2, Cong;
    var m, q := Place(|y|), Pow2(v1);
    Pow2Split(v0, v1);
    MulAssoc(x, Place(v0), q);
    CongMod(x * Place(v0), m);
    CongRefl(q, m);
    CongMul(Value(y), x * Place(v0), q, q, m);
    CongFromMultiple(Value(y) * q, Value(z), r, m);
    CongSym(Value(y) * q, Value(z), m);
    CongTrans(Value(z), Value(y) * q, x * Place(v0) * q, m);
    ValueBound(z);
    CongResidue(Value(z), x * Place(v0) * q, m);
  }

  lemma CongResidue(r: int, x: int, m: int)
    requires 0 <= r < m && Cong(r, x, m)
    ensures r == x % m
  {
    ModSmall(r, m);
  }

  // ----- Right shift

  function MovedDown(x: seq<Limb>, v: nat): (y: seq<Limb>)
    requires v <= |x|
    ensures |y| == |x|
  {
    x[v..] + Zeros(v)
  }

  method MoveDown(X: array<Limb>, v: nat)
    requires v <= X.Length
    modifies X
    ensures X[..] == MovedDown(old(X[..]), v)
  {
    var limbs := X.Length;
    var i := 0;
    while i < limbs - v
      invariant 0 <= i <= limbs - v
      invariant forall j :: 0 <= j < i ==> X[j] == old(X[j + v])
      invariant forall j :: i <= j < limbs ==> X[j] == old(X[j])
    {
      X[i] := X[i + v];
      i := i + 1;
    }
    while i < limbs
      invariant limbs - v <= i <= limbs
      invariant forall j :: 0 <= j < i ==> X[j] == if j < limbs - v then old(X[j + v]) else 0
    {
      X[i] := 0;
      i := i + 1;
    }
  }

  lemma {:induction false} MovedDownValue(x: seq<Limb>, v: nat)
    requires v <= |x|
    ensures Value(MovedDown(x, v)) == Value(x) / Place(v)
  {
    hide Value, Place;
    ValueDiv(x, v);
    var y := MovedDown(x, v);
    assert y[..|x| - v] == x[v..] && y[|x| - v..] == Zeros(v);
    ValueTrim(y, |x| - v);
  }

  // One limb of the right shift: r0 carries the bits dropped from the limbs above
  lemma {:induction false} DownStep(x: Limb, h: seq<Limb>, y: seq<Limb>, r0: Limb, k: nat)
    requires 0 < k < BITS && Value(y) == Value(h) / Pow2(k) && r0 == Value(h) % Pow2(k) * Pow2(BITS - k)
    ensures r0 % Pow2(BITS - k) == 0 && Shr(x, k) < Pow2(BITS - k) && r0 + Shr(x, k) < BETA
    ensures Value([r0 + Shr(x, k)] + y) == Value([x] + h) / Pow2(k)
    ensures Shl(x, BITS - k) == Value([x] + h) % Pow2(k) * Pow2(BITS - k)
  {
    hide Pow2;
    var p, q := Pow2(k), Pow2(BITS - k);
    assert BETA == p * q by { BaseIsPow2(); Pow2Add(k, BITS - k); }
    assert ([x] + h)[1..] == h;
    CutLimb(x, BITS - k);
    DownAlgebra(x, Value(h), p, q);
    assert ([r0 + Shr(x, k)] + y)[1..] == y;
  }

  lemma DownAlgebra(x: int, h: int, p: int, q: int)
    requires p > 0 && q > 0 && 0 <= x < p * q
    ensures h % p * q % q == 0 && 0 <= x / p < q && h % p * q + x / p < p * q
    ensures (x + p * q * h) / p == h % p * q + x / p + p * q * (h / p)
    ensures (x + p * q * h) % p == x % p
  {
    DivModBasics(h, p);
    DownBounds(x, h % p, p, q);
    DownIdentity(h, p, q);
    ModAddMultiple(x, q * h, p);
    MulAssoc(p, q, h);
  }

  lemma DownBounds(x: int, r: int, p: int, q: int)
    requires p > 0 && q > 0 && 0 <= x < p * q && 0 <= r < p
    ensures r * q % q == 0 && 0 <= x / p < q && r * q + x / p < p * q
  {
    DivModBasics(x, p);
    QuotientWithin(x / p, x % p, p, q);
    MulLt(r, p, q);
    DivModUnique(r * q, q, r, 0);
  }

  lemma QuotientWithin(h: int, r: int, p: int, q: int)
    requires 0 <= r < p && 0 <= h * p + r < p * q
    ensures 0 <= h < q
  {
    if h >= q { MulLe(q, h, p, p); }
    if h < 0 { MulLt(h, 0, p); }
  }

  lemma DownIdentity(h: int, p: int, q: int)
    requires p > 0
    ensures q * h == h % p * q + p * q * (h / p)
  {
    DivModBasics(h, p);
    MulDistrib(q, h / p * p, h % p);
    MulAssoc(q, h / p, p);
    HalfSwap(q, h / p, p);
  }

  // The bits of a right shift below limb size, from the top limb down
  method ShiftBitsDown(X: array<Limb>, k: nat)
    requires 0 < k < BITS
    modifies X
    ensures Value(X[..]) == old(Value(X[..])) / Pow2(k)
  {
    hide Value, BETA, Shl, Shr, Pow2;
    ghost var x := X[..];
    var i := X.Length;
    var r0: Limb := 0;
    assert X[i..] == [] && x[i..] == [];
    DownStart(k);
    while i > 0
      invariant 0 <= i <= X.Length
      invariant forall j :: 0 <= j < i ==> X[j] == x[j]
      invariant Value(X[i..]) == Value(x[i..]) / Pow2(k)
      invariant r0 == Value(x[i..]) % Pow2(k) * Pow2(BITS - k)
    {
      ghost var y := X[i..];
      DownStep(x[i - 1], x[i..], y, r0, k);
      assert x[i - 1..] == [x[i - 1]] + x[i..];
      var r1 := Shl(X[i - 1], BITS - k);
      X[i - 1] := Shr(X[i - 1], k);
      X[i - 1] := OrDisjoint(r0, X[i - 1], BITS - k);
      assert X[i - 1..] == [X[i - 1]] + y;
      r0 := r1;
      i := i - 1;
    }
    assert X[0..] == X[..] && x[0..] == x;
  }

  lemma DownStart(k: nat)
    ensures Value([]) == 0 && 0 / Pow2(k) == 0 && 0 % Pow2(k) == 0
  {
    ModSmall(0, Pow2(k));
  }

  // X >>= count
  method ShiftR(X: array<Limb>, count: nat)
    modifies X
    ensures Value(X[..]) == old(Value(X[..])) / Pow2(count)
  {
    hide Value, Place, BETA, Pow2;
    var v0, v1 := count / BITS, count % BITS;
    ghost var x := X[..];
    DivModBasics(count, BITS);
    if v0 > X.Length || (v0 == X.Length && v1 > 0) {
      ZeroFill(X, 0, X.Length);
      assert X[..] == X[0..0 + X.Length];
      ShiftedOut(x, v0, v1);
      return;
    }
    if v0 > 0 {
      MoveDown(X, v0);
    } else {
      assert MovedDown(x, 0) == x;
    }
    MovedDownValue(x, v0);
    Pow2Split(v0, v1);
    DivDiv(Value(x), Place(v0), Pow2(v1));
    if v1 > 0 {
      ShiftBitsDown(X, v1);
    } else {
      DownByOne(Value(x) / Place(v0));
    }
  }

  lemma DownByOne(x: int)
    ensures x / Pow2(0) == x
  {
  }

  lemma {:induction false} ShiftedOut(x: seq<Limb>, v0: nat, v1: nat)
    requires v0 >= |x|
    ensures BITS * v0 >= 0 && Value(x) / Pow2(BITS * v0 + v1) == 0 && Value(Zeros(|x|)) == 0
  {
    hide Value, Place;
    ValueZero(Zeros(|x|));
    ValueBound(x);
    PlaceMono(|x|, v0);
    Pow2Split(v0, v1);
    MulLe(Place(v0), Place(v0), 1, Pow2(v1));
    ModSmall(Value(x), Pow2(BITS * v0 + v1));
  }
}
