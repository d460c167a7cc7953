/**
 The limb-array primitives of bignum_core.c and the portable multiply-accumulate kernels of
 bn_mul.h. An address inside a buffer is an array with an offset; the aliasing each routine
 tolerates is spelled out by the predicates below.
 */
module Core {
  import opened Arith
  import opened Limbs

  // ----- Windows of a buffer

  predicate Fits(a: array<Limb>, off: nat, n: nat)
  {
    off + n <= a.Length
  }

  predicate Apart(a: array<Limb>, ao: nat, an: nat, b: array<Limb>, bo: nat, bn: nat)
  {
    a != b || ao + an <= bo || bo + bn <= ao
  }

  predicate SameOrApart(a: array<Limb>, ao: nat, b: array<Limb>, bo: nat, n: nat)
  {
    (a == b && ao == bo) || Apart(a, ao, n, b, bo, n)
  }

  // Writing a window leaves the rest of the buffer alone
  predicate Framed(before: seq<Limb>, after: seq<Limb>, o: nat, n: nat)
  {
    && |after| == |before|
    && forall j :: 0 <= j < |after| && !(o <= j < o + n) ==> after[j] == before[j]
  }

  lemma {:induction false} Kept(before: seq<Limb>, after: seq<Limb>, o: nat, n: nat, ao: nat, an: nat)
    requires Framed(before, after, o, n)
    requires ao + an <= |before| && (ao + an <= o || o + n <= ao)
    ensures after[ao..ao + an] == before[ao..ao + an]
  {
  }

  // The same for two windows of one buffer
  predicate Framed2(before: seq<Limb>, after: seq<Limb>, o: nat, n: nat, p: nat, m: nat)
  {
    && |after| == |before|
    && forall j :: 0 <= j < |after| && !(o <= j < o + n) && !(p <= j < p + m) ==> after[j] == before[j]
  }

  lemma {:induction false} FramedBoth(x: seq<Limb>, y: seq<Limb>, z: seq<Limb>, o: nat, n: nat, p: nat, m: nat)
    requires Framed(x, y, p, m) && Framed(y, z, o, n)
    ensures Framed2(x, z, o, n, p, m)
  {
  }

  lemma {:induction false} Kept2(before: seq<Limb>, after: seq<Limb>, o: nat, n: nat, p: nat, m: nat, ao: nat, an: nat)
    requires Framed2(before, after, o, n, p, m)
    requires ao + an <= |before| && (ao + an <= o || o + n <= ao) && (ao + an <= p || p + m <= ao)
    ensures after[ao..ao + an] == before[ao..ao + an]
  {
  }

  // A write inside an already written window
  lemma {:induction false} FramedTrans(x: seq<Limb>, y: seq<Limb>, z: seq<Limb>, o: nat, n: nat, i: nat, m: nat)
    requires Framed(x, y, o, n) && Framed(y, z, i, m) && o <= i && i + m <= o + n
    ensures Framed(x, z, o, n)
  {
  }

  // ----- Addition and subtraction

  // A carry chain: limbs x and carry c hold the low limbs of p * a + q * b + d
  ghost predicate Chain(x: seq<Limb>, c: int, p: int, a: seq<Limb>, q: int, b: seq<Limb>, d: int)
    requires |x| <= |a| && |x| <= |b|
  {
    Value(x) + c * Place(|x|) == p * Value(a[..|x|]) + q * Value(b[..|x|]) + d
  }

  lemma {:induction false} ChainStart(p: int, a: seq<Limb>, q: int, b: seq<Limb>, d: int)
    ensures Chain([], d, p, a, q, b, d)
  {
    assert a[..0] == [] && b[..0] == [];
    ValueEmpty();
  }

  lemma {:induction false} ChainStep(x: seq<Limb>, c: int, p: int, a: seq<Limb>, q: int, b: seq<Limb>, d: int,
                                     t: Limb, c2: int)
    requires |x| < |a| && |x| < |b|
    requires Chain(x, c, p, a, q, b, d)
    requires t + c2 * BETA == p * a[|x|] + q * b[|x|] + c
    ensures Chain(x + [t], c2, p, a, q, b, d)
  {
    var i := |x|;
    ValueSnoc(x, t);
    ValueNext(a, i);
    ValueNext(b, i);
    ChainAlgebra(Value(x), c, Place(i), p, Value(a[..i]), a[i], q, Value(b[..i]), b[i], d, t, c2);
  }

  lemma {:induction false} ChainEnd(x: seq<Limb>, c: int, p: int, a: seq<Limb>, q: int, b: seq<Limb>, d: int)
    requires |x| == |a| == |b|
    requires Chain(x, c, p, a, q, b, d)
    ensures Value(x) + c * Place(|x|) == p * Value(a) + q * Value(b) + d
  {
    assert a[..|x|] == a && b[..|x|] == b;
  }

  lemma ChainAlgebra(x: int, c: int, w: int, p: int, a: int, ai: int, q: int, b: int, bi: int, d: int, t: int, c2: int)
    requires x + c * w == p * a + q * b + d
    requires t + c2 * BETA == p * ai + q * bi + c
    ensures x + w * t + c2 * (BETA * w) == p * (a + w * ai) + q * (b + w * bi) + d
  {
    calc {
      w * t + c2 * (BETA * w);
      { MulAssoc(c2, BETA, w); MulDistrib(w, t, c2 * BETA); }
      w * (p * ai + q * bi + c);
      { MulDistrib(w, p * ai + q * bi, c); MulDistrib(w, p * ai, q * bi); }
      w * (p * ai) + w * (q * bi) + w * c;
      { MulAssoc(p, w, ai); MulAssoc(w, p, ai); MulAssoc(q, w, bi); MulAssoc(w, q, bi); }
      p * (w * ai) + q * (w * bi) + w * c;
    }
    MulDistrib(p, a, w * ai);
    MulDistrib(q, b, w * bi);
  }

  method Add(X: array<Limb>, xo: nat, A: array<Limb>, ao: nat, B: array<Limb>, bo: nat, n: nat) returns (c: Limb)
    requires Fits(X, xo, n) && Fits(A, ao, n) && Fits(B, bo, n)
    requires SameOrApart(X, xo, A, ao, n) && SameOrApart(X, xo, B, bo, n)
    modifies X
    ensures c <= 1
    ensures Value(X[xo..xo + n]) + c * Place(n) == old(Value(A[ao..ao + n])) + old(Value(B[bo..bo + n]))
    ensures Framed(old(X[..]), X[..], xo, n)
  {
    hide Value, Place, BETA, Wrap, Chain;
    ghost var a, b := A[ao..ao + n], B[bo..bo + n];
    c := 0;
    ChainStart(1, a, 1, b, 0);
    assert X[xo..xo + 0] == [];
    for i := 0 to n
      invariant c <= 1
      invariant forall j :: i <= j < n ==> A[ao + j] == a[j] && B[bo + j] == b[j]
      invariant Framed(old(X[..]), X[..], xo, n)
      invariant Chain(X[xo..xo + i], c, 1, a, 1, b, 0)
    {
      ghost var x, c0 := X[xo..xo + i], c;
      var t: Limb := Wrap(c + A[ao + i]);
      c := if t < A[ao + i] then 1 else 0;
      t := Wrap(t + B[bo + i]);
      c := c + if t < B[bo + i] then 1 else 0;
      ChainStep(x, c0, 1, a, 1, b, 0, t, c);
      X[xo + i] := t;
      assert X[xo..xo + i + 1] == x + [t];
    }
    ChainEnd(X[xo..xo + n], c, 1, a, 1, b, 0);
  }

  method AddIf(X: array<Limb>, xo: nat, A: array<Limb>, ao: nat, n: nat, cond: bool) returns (c: Limb)
    requires Fits(X, xo, n) && Fits(A, ao, n) && SameOrApart(X, xo, A, ao, n)
    modifies X
    ensures c <= 1
    ensures Value(X[xo..xo + n]) + c * Place(n) ==
            old(Value(X[xo..xo + n])) + (if cond then old(Value(A[ao..ao + n])) else 0)
    ensures Framed(old(X[..]), X[..], xo, n)
  {
    hide Value, Place, BETA, Wrap, Chain;
    ghost var a, b, q: int := X[xo..xo + n], A[ao..ao + n], if cond then 1 else 0;
    c := 0;
    ChainStart(1, a, q, b, 0);
    assert X[xo..xo + 0] == [];
    for i := 0 to n
      invariant c <= 1
      invariant forall j :: i <= j < n ==> X[xo + j] == a[j] && A[ao + j] == b[j]
      invariant Framed(old(X[..]), X[..], xo, n)
      invariant Chain(X[xo..xo + i], c, 1, a, q, b, 0)
    {
      ghost var x, c0 := X[xo..xo + i], c;
      var add: Limb := if cond then A[ao + i] else 0;
      var t: Limb := Wrap(c + X[xo + i]);
      c := if t < X[xo + i] then 1 else 0;
      t := Wrap(t + add);
      c := c + if t < add then 1 else 0;
      assert q * b[i] == add;
      ChainStep(x, c0, 1, a, q, b, 0, t, c);
      X[xo + i] := t;
      assert X[xo..xo + i + 1] == x + [t];
    }
    ChainEnd(X[xo..xo + n], c, 1, a, q, b, 0);
  }

  method Sub(X: array<Limb>, xo: nat, A: array<Limb>, ao: nat, B: array<Limb>, bo: nat, n: nat) returns (c: Limb)
    requires Fits(X, xo, n) && Fits(A, ao, n) && Fits(B, bo, n)
    requires SameOrApart(X, xo, A, ao, n) && SameOrApart(X, xo, B, bo, n)
    modifies X
    ensures c <= 1
    ensures Value(X[xo..xo + n]) - c * Place(n) == old(Value(A[ao..ao + n])) - old(Value(B[bo..bo + n]))
    ensures Framed(old(X[..]), X[..], xo, n)
  {
    hide Value, Place, BETA, Wrap, Chain;
    ghost var a, b := A[ao..ao + n], B[bo..bo + n];
    c := 0;
    ChainStart(1, a, -1, b, 0);
    assert X[xo..xo + 0] == [];
    for i := 0 to n
      invariant c <= 1
      invariant forall j :: i <= j < n ==> A[ao + j] == a[j] && B[bo + j] == b[j]
      invariant Framed(old(X[..]), X[..], xo, n)
      invariant Chain(X[xo..xo + i], -1 * c, 1, a, -1, b, 0)
    {
      ghost var x, c0: int := X[xo..xo + i], c;
      var z := if A[ao + i] < c then 1 else 0;
      var t: Limb := Wrap(0 + A[ao + i] - c);
      c := (if t < B[bo + i] then 1 else 0) + z;
      t := Wrap(0 + t - B[bo + i]);
      ChainStep(x, -1 * c0, 1, a, -1, b, 0, t, -1 * c);
      X[xo + i] := t;
      assert X[xo..xo + i + 1] == x + [t];
    }
    ChainEnd(X[xo..xo + n], -1 * c, 1, a, -1, b, 0);
    MulAssoc(-1, c, Place(n));
  }

  method SubInt(X: array<Limb>, xo: nat, A: array<Limb>, ao: nat, c0: Limb, n: nat) returns (c: Limb)
    requires Fits(X, xo, n) && Fits(A, ao, n) && SameOrApart(X, xo, A, ao, n)
    modifies X
    ensures n > 0 ==> c <= 1
    ensures Value(X[xo..xo + n]) - c * Place(n) == old(Value(A[ao..ao + n])) - c0
    ensures Framed(old(X[..]), X[..], xo, n)
  {
    hide Value, Place, BETA, Wrap, Chain;
    ghost var a, d: int := A[ao..ao + n], -1 * c0;
    c := c0;
    ChainStart(1, a, 0, a, d);
    assert X[xo..xo + 0] == [];
    for i := 0 to n
      invariant i > 0 ==> c <= 1
      invariant forall j :: i <= j < n ==> A[ao + j] == a[j]
      invariant Framed(old(X[..]), X[..], xo, n)
      invariant Chain(X[xo..xo + i], -1 * c, 1, a, 0, a, d)
    {
      ghost var x, cin: int := X[xo..xo + i], c;
      var s := A[ao + i];
      var t: Limb := Wrap(0 + s - c);
      c := if t > s then 1 else 0;
      assert t + (-1 * c) * BETA == 1 * s + 0 * s + -1 * cin;
      ChainStep(x, -1 * cin, 1, a, 0, a, d, t, -1 * c);
      X[xo + i] := t;
      assert X[xo..xo + i + 1] == x + [t];
    }
    ChainEnd(X[xo..xo + n], -1 * c, 1, a, 0, a, d);
    MulAssoc(-1, c, Place(n));
  }

  // ----- The multiply-accumulate kernels

  lemma ProductBound(s: Limb, b: Limb, c: Limb, d: Limb)
    ensures 0 <= s * b && s * b + c + d < BETA * BETA
  {
    MulLe(s, BETA - 1, b, BETA - 1);
    MulDistrib(BETA - 1, BETA, 1);
  }

  lemma QuotientBound(h: int, m: int, r: int)
    requires m > 0 && 0 <= r && r + h * m < m * m
    ensures h < m
  {
    if h >= m { MulLe(m, h, m, m); }
  }

  // r0 += x; r1 += (r0 < x): add a limb into a two-limb accumulator that has room for it
  method Accumulate(r0: Limb, r1: Limb, x: Limb) returns (s0: Limb, s1: Limb)
    requires r0 + r1 * BETA + x < BETA * BETA
    ensures s0 + s1 * BETA == r0 + r1 * BETA + x
  {
    hide BETA, Wrap;
    s0 := Wrap(r0 + x);
    var carry := if s0 < x then 1 else 0;
    MulDistrib(BETA, r1, carry);
    QuotientBound(r1 + carry, BETA, s0);
    s1 := Wrap(r1 + carry);
  }

  // The kernel for a compiler with a double-width type
  method MulAddWide(s: Limb, b: Limb, c: Limb, d: Limb) returns (r0: Limb, r1: Limb)
    ensures r0 + r1 * BETA == s * b + c + d
  {
    hide BETA, Wrap;
    var r: int := s * b;
    ProductBound(s, b, c, d);
    DivModBasics(r, BETA);
    QuotientBound(r / BETA, BETA, r % BETA);
    DivLe(0, r, BETA);
    ModSmall(0, BETA);
    r0, r1 := r % BETA, r / BETA;
    r0, r1 := Accumulate(r0, r1, c);
    r0, r1 := Accumulate(r0, r1, d);
  }

  lemma HalfSplit(x: int, h: int, m: int)
    requires h > 0 && m == h * h && 0 <= x < m
    ensures x * h % m == x % h * h
    ensures x % h * h / h == x % h
    ensures x / h < h
    ensures x == x % h + x / h * h
  {
    var q, r := x / h, x % h;
    DivModBasics(x, h);
    QuotientBound(q, h, r);
    assert x * h == q * m + r * h by {
      MulDistrib(h, q * h, r);
      MulAssoc(q, h, h);
    }
    MulLt(r, h, h);
    MulLe(0, r, 0, h);
    DivModUnique(x * h, m, q, r * h);
    DivModUnique(r * h, h, r, 0);
  }

  lemma ShiftHalf(x: Limb)
    ensures Shl(x, HALF_BITS) == x % HALF * HALF
    ensures Shr(Shl(x, HALF_BITS), HALF_BITS) == x % HALF
    ensures Shr(x, HALF_BITS) == x / HALF < HALF
    ensures x == x % HALF + x / HALF * HALF
  {
    BaseSplits();
    HalfSplit(x, HALF, BETA);
  }

  lemma HalfProductSmall(a: int, b: int, h: int)
    requires 0 <= a < h && 0 <= b < h
    ensures 0 <= a * b < h * h
  {
    MulLe(a, h - 1, b, h - 1);
    MulLe(h - 1, h - 1, h - 1, h);
    MulDistrib(h, h, 1);
  }

  // Schoolbook multiplication of two limbs given by their halves
  lemma HalfProduct(s0: int, s1: int, b0: int, b1: int, h: int)
    requires h > 0
    ensures (s0 + s1 * h) * (b0 + b1 * h) ==
            s0 * b0 + s0 * b1 % h * h + s1 * b0 % h * h + (s1 * b1 + s0 * b1 / h + s1 * b0 / h) * (h * h)
  {
    var rx, ry := s0 * b1, s1 * b0;
    calc {
      (s0 + s1 * h) * (b0 + b1 * h);
      { MulExpand(s0, s1 * h, b0, b1 * h); }
      s0 * b0 + s0 * (b1 * h) + (s1 * h) * b0 + (s1 * h) * (b1 * h);
      { MulAssoc(s0, b1, h); HalfSwap(s1, h, b0); HalfSquare(s1, b1, h); }
      s0 * b0 + rx * h + ry * h + s1 * b1 * (h * h);
      { HalfCarry(rx, h); HalfCarry(ry, h); }
      s0 * b0 + rx % h * h + rx / h * (h * h) + ry % h * h + ry / h * (h * h) + s1 * b1 * (h * h);
      { MulDistrib(h * h, s1 * b1 + rx / h, ry / h); MulDistrib(h * h, s1 * b1, rx / h); }
      s0 * b0 + rx % h * h + ry % h * h + (s1 * b1 + rx / h + ry / h) * (h * h);
    }
  }

  lemma HalfSwap(a: int, b: int, c: int)
    ensures (a * b) * c == (a * c) * b
  {
  }

  lemma HalfSquare(a: int, b: int, h: int)
    ensures (a * h) * (b * h) == a * b * (h * h)
  {
    MulAssoc(a * h, b, h);
    HalfSwap(a, h, b);
    MulAssoc(a * b, h, h);
  }

  lemma HalfCarry(x: int, h: int)
    requires h > 0
    ensures x * h == x % h * h + x / h * (h * h)
  {
    DivModBasics(x, h);
    MulDistrib(h, x / h * h, x % h);
    MulAssoc(x / h, h, h);
  }

  // The kernel for a compiler without one: four half-limb products
  method MulAddHalf(s: Limb, b: Limb, c: Limb, d: Limb) returns (r0: Limb, r1: Limb)
    ensures r0 + r1 * BETA == s * b + c + d
  {
    hide BETA, HALF, Wrap, Shl, Shr;
    ShiftHalf(s);
    ShiftHalf(b);
    BaseSplits();
    ProductBound(s, b, c, d);
    var b0, b1 := Shr(Shl(b, HALF_BITS), HALF_BITS), Shr(b, HALF_BITS);
    var s0, s1 := Shr(Shl(s, HALF_BITS), HALF_BITS), Shr(s, HALF_BITS);
    DivModBasics(s, HALF);
    DivModBasics(b, HALF);
    HalfProductSmall(s0, b1, HALF);
    HalfProductSmall(s0, b0, HALF);
    HalfProductSmall(s1, b0, HALF);
    HalfProductSmall(s1, b1, HALF);
    HalfProduct(s0, s1, b0, b1, HALF);
    var rx: Limb, ry: Limb := s0 * b1, s1 * b0;
    r0, r1 := s0 * b0, s1 * b1;
    ShiftHalf(rx);
    ShiftHalf(ry);
    DivModBasics(rx, HALF);
    DivModBasics(ry, HALF);
    ghost var high := r1 + rx / HALF + ry / HALF;
    MulLe(0, rx % HALF, 0, HALF);
    MulLe(0, ry % HALF, 0, HALF);
    QuotientBound(high, BETA, r0);
    r1 := Wrap(r1 + Shr(rx, HALF_BITS));
    r1 := Wrap(r1 + Shr(ry, HALF_BITS));
    rx, ry := Shl(rx, HALF_BITS), Shl(ry, HALF_BITS);
    r0, r1 := Accumulate(r0, r1, rx);
    r0, r1 := Accumulate(r0, r1, ry);
    r0, r1 := Accumulate(r0, r1, c);
    r0, r1 := Accumulate(r0, r1, d);
  }

  // Whether the compiler provides the double-width type (MBEDTLS_HAVE_UDBL)
  const HAVE_UDBL: bool

  // n kernel steps in a row: the groups of eight that mla unrolls and the single steps after them
  method MulAddRun(D: array<Limb>, o: nat, S: array<Limb>, so: nat, n: nat, b: Limb, c0: Limb) returns (c: Limb)
    requires Fits(D, o, n) && Fits(S, so, n) && SameOrApart(D, o, S, so, n)
    modifies D
    ensures Chain(D[o..o + n], c, 1, old(D[o..o + n]), b, old(S[so..so + n]), c0)
    ensures Framed(old(D[..]), D[..], o, n)
  {
    hide Value, Place, BETA, Wrap, Chain;
    ghost var d, s := D[o..o + n], S[so..so + n];
    c := c0;
    ChainStart(1, d, b, s, c0);
    assert D[o..o + 0] == [];
    for i := 0 to n
      invariant forall j :: i <= j < n ==> D[o + j] == d[j] && S[so + j] == s[j]
      invariant Framed(old(D[..]), D[..], o, n)
      invariant Chain(D[o..o + i], c, 1, d, b, s, c0)
    {
      ghost var x, cin := D[o..o + i], c;
      var t: Limb;
      if HAVE_UDBL {
        t, c := MulAddWide(S[so + i], b, c, D[o + i]);
      } else {
        t, c := MulAddHalf(S[so + i], b, c, D[o + i]);
      }
      ChainStep(x, cin, 1, d, b, s, c0, t, c);
      D[o + i] := t;
      assert D[o..o + i + 1] == x + [t];
    }
  }

  lemma JoinAlgebra(x: int, y: int, p: int, q: int, a: int, e: int, s: int, r: int, b: int, c: int, c1: int, c2: int)
    requires x + c1 * p == a + b * s + c
    requires y + c2 * q == e + b * r + c1
    ensures x + p * y + c2 * (p * q) == a + p * e + b * (s + p * r) + c
  {
    calc {
      p * y + c2 * (p * q);
      { MulAssoc(c2, p, q); HalfSwap(c2, p, q); MulDistrib(p, y, c2 * q); }
      p * (e + b * r + c1);
      { MulDistrib(p, e + b * r, c1); MulDistrib(p, e, b * r); MulAssoc(p, b, r); MulAssoc(b, p, r); }
      p * e + b * (p * r) + c1 * p;
    }
    MulDistrib(b, s, p * r);
  }

  function Zeros(n: nat): (z: seq<Limb>)
    ensures |z| == n && AllZero(z)
  {
    seq(n, i => 0)
  }

  // Propagate a carry through the limbs above the product; as a chain it adds b * 0
  method CarryThrough(D: array<Limb>, o: nat, n: nat, c0: Limb, ghost b: Limb) returns (c: Limb)
    requires Fits(D, o, n)
    modifies D
    ensures Chain(D[o..o + n], c, 1, old(D[o..o + n]), b, Zeros(n), c0)
    ensures Framed(old(D[..]), D[..], o, n)
  {
    hide Value, Place, BETA, Wrap, Chain;
    ghost var d, z := D[o..o + n], Zeros(n);
    c := c0;
    ChainStart(1, d, b, z, c0);
    assert D[o..o + 0] == [];
    for i := 0 to n
      invariant forall j :: i <= j < n ==> D[o + j] == d[j]
      invariant Framed(old(D[..]), D[..], o, n)
      invariant Chain(D[o..o + i], c, 1, d, b, z, c0)
    {
      ghost var x, cin := D[o..o + i], c;
      var t: Limb := Wrap(0 + D[o + i] + c);
      c := if t < c then 1 else 0;
      assert b * z[i] == 0;
      ChainStep(x, cin, 1, d, b, z, c0, t, c);
      D[o + i] := t;
      assert D[o..o + i + 1] == x + [t];
    }
  }

  // Two adjacent windows, each a chain, are one longer chain
  lemma {:induction false} ChainJoin(x: seq<Limb>, d: seq<Limb>, s: seq<Limb>, y: seq<Limb>, e: seq<Limb>,
                                     r: seq<Limb>, b: int, c: int, c1: int, c2: int)
    requires |x| == |d| == |s| && |y| == |e| == |r|
    requires Chain(x, c1, 1, d, b, s, c) && Chain(y, c2, 1, e, b, r, c1)
    ensures Chain(x + y, c2, 1, d + e, b, s + r, c)
  {
    ChainEnd(x, c1, 1, d, b, s, c);
    ChainEnd(y, c2, 1, e, b, r, c1);
    ValueAppend(x, y);
    ValueAppend(d, e);
    ValueAppend(s, r);
    PlaceAdd(|x|, |y|);
    JoinAlgebra(Value(x), Value(y), Place(|x|), Place(|y|), Value(d), Value(e), Value(s), Value(r), b, c, c1, c2);
    assert (d + e)[..|x + y|] == d + e && (s + r)[..|x + y|] == s + r;
  }

  // D += S * b, returning the carry out of D
  method Mla(D: array<Limb>, o: nat, dLen: nat, S: array<Limb>, so: nat, sLen0: nat, b: Limb) returns (c: Limb)
    requires Fits(D, o, dLen) && Fits(S, so, sLen0)
    requires (D == S && o == so) || Apart(D, o, dLen, S, so, sLen0)
    modifies D
    ensures var m := if dLen < sLen0 then dLen else sLen0;
            Value(D[o..o + dLen]) + c * Place(dLen) == old(Value(D[o..o + dLen])) + b * old(Value(S[so..so + m]))
    ensures Framed(old(D[..]), D[..], o, dLen)
  {
    hide Value, Place, BETA, Chain;
    var m := if dLen < sLen0 then dLen else sLen0;
    ghost var d1, d2, s, z := D[o..o + m], D[o + m..o + dLen], S[so..so + m], Zeros(dLen - m);
    assert D[o..o + dLen] == d1 + d2;
    c := MulAddRun(D, o, S, so, m, b, 0);
    ghost var x, cin := D[o..o + m], c;
    assert D[o + m..o + dLen] == d2;
    c := CarryThrough(D, o + m, dLen - m, c, b);
    assert D[o..o + dLen] == x + D[o + m..o + dLen];
    ChainJoin(x, d1, s, D[o + m..o + dLen], d2, z, b, 0, cin, c);
    ChainEnd(D[o..o + dLen], c, 1, d1 + d2, b, s + z, 0);
    assert (s + z)[m..] == z && (s + z)[..m] == s;
    ValueTrim(s + z, m);
  }

  // memset(X, 0, n) and memcpy(X, A, n), in limbs
  method ZeroFill(X: array<Limb>, xo: nat, n: nat)
    requires Fits(X, xo, n)
    modifies X
    ensures X[xo..xo + n] == Zeros(n)
    ensures Framed(old(X[..]), X[..], xo, n)
  {
    forall j | xo <= j < xo + n { X[j] := 0; }
  }

  method CopyLimbs(X: array<Limb>, xo: nat, A: array<Limb>, ao: nat, n: nat)
    requires Fits(X, xo, n) && Fits(A, ao, n) && SameOrApart(X, xo, A, ao, n)
    modifies X
    ensures X[xo..xo + n] == old(A[ao..ao + n])
    ensures Framed(old(X[..]), X[..], xo, n)
  {
    forall j | xo <= j < xo + n { X[j] := A[ao + (j - xo)]; }
  }

  // ----- Multiplication

  // A window with one spare limb absorbs mid + b * a without a carry
  lemma {:induction false} NoCarry(mid: seq<Limb>, out: seq<Limb>, c: int, a: seq<Limb>, b: Limb)
    requires |mid| == |a| && |out| == |a| + 1 && c >= 0
    requires Value(out) + c * Place(|a| + 1) == Value(mid) + b * Value(a)
    ensures c == 0
  {
    ValueBound(mid);
    ValueBound(a);
    PlaceNext(|a|);
    var p := Place(|a|);
    MulLe(b, BETA - 1, Value(a), p);
    MulDistrib(p, BETA, 1);
    if c >= 1 { MulLe(1, c, Place(|a| + 1), Place(|a| + 1)); }
  }

  // One row of schoolbook multiplication
  lemma {:induction false} MulRow(low: seq<Limb>, mid: seq<Limb>, out: seq<Limb>, a: seq<Limb>, b: seq<Limb>)
    requires |low| < |b| && |out| == |mid| + 1
    requires Value(low + mid) == Value(a) * Value(b[..|low|])
    requires Value(out) == Value(mid) + b[|low|] * Value(a)
    ensures Value(low + out) == Value(a) * Value(b[..|low| + 1])
  {
    var i := |low|;
    ValueAppend(low, mid);
    ValueAppend(low, out);
    ValueNext(b, i);
    var p, v, bi: int := Place(i), Value(a), b[i];
    MulDistrib(p, Value(mid), bi * v);
    MulDistrib(v, Value(b[..i]), p * bi);
    MulAssoc(p, bi, v);
  }

  // mla of one row into a window whose top limb is still zero; the carry is dropped
  method MulRowInto(X: array<Limb>, o: nat, A: array<Limb>, ao: nat, an: nat, b: Limb)
    requires Fits(X, o, an + 1) && Fits(A, ao, an) && Apart(X, o, an + 1, A, ao, an)
    requires X[o + an] == 0
    modifies X
    ensures Value(X[o..o + an + 1]) == old(Value(X[o..o + an])) + b * old(Value(A[ao..ao + an]))
    ensures Framed(old(X[..]), X[..], o, an + 1)
  {
    hide Value, Place, BETA;
    ghost var mid, a := X[o..o + an], A[ao..ao + an];
    assert X[o..o + (an + 1)] == mid + [0];
    ValueSnoc(mid, 0);
    var c := Mla(X, o, an + 1, A, ao, an, b);
    NoCarry(mid, X[o..o + (an + 1)], c, a, b);
  }

  // X = A * B
  method Mul(X: array<Limb>, xo: nat, A: array<Limb>, ao: nat, an: nat, B: array<Limb>, bo: nat, bn: nat)
    requires Fits(X, xo, an + bn) && Fits(A, ao, an) && Fits(B, bo, bn)
    requires X != A && X != B
    modifies X
    ensures Value(X[xo..xo + (an + bn)]) == old(Value(A[ao..ao + an])) * old(Value(B[bo..bo + bn]))
    ensures Framed(old(X[..]), X[..], xo, an + bn)
  {
    hide Value, Place, BETA, Rows, Framed;
    ghost var a, b, x0 := A[ao..ao + an], B[bo..bo + bn], X[..];
    ZeroFill(X, xo, an + bn);
    RowsStart(X[..], xo, a, b);
    for i := 0 to bn
      invariant A[ao..ao + an] == a && B[bo..bo + bn] == b
      invariant Framed(x0, X[..], xo, an + bn)
      invariant Rows(X[..], xo, i, a, b)
    {
      ghost var x := X[..];
      RowsTop(x, xo, i, a, b);
      MulRowInto(X, xo + i, A, ao, an, B[bo + i]);
      FramedTrans(x0, x, X[..], xo, an + bn, xo + i, an + 1);
      RowsStep(x, X[..], xo, i, a, b);
    }
    RowsEnd(X[..], xo, a, b);
  }

  // The first i rows are accumulated in the window at xo, and the limbs above them are zero
  ghost predicate Rows(x: seq<Limb>, xo: nat, i: nat, a: seq<Limb>, b: seq<Limb>)
  {
    && xo + |a| + |b| <= |x| && i <= |b|
    && (forall k :: xo + |a| + i <= k < xo + |a| + |b| ==> x[k] == 0)
    && Value(x[xo..xo + (|a| + i)]) == Value(a) * Value(b[..i])
  }

  lemma {:induction false} RowsStart(x: seq<Limb>, xo: nat, a: seq<Limb>, b: seq<Limb>)
    requires xo + |a| + |b| <= |x| && x[xo..xo + (|a| + |b|)] == Zeros(|a| + |b|)
    ensures Rows(x, xo, 0, a, b)
  {
    assert forall k :: xo <= k < xo + (|a| + |b|) ==> x[k] == x[xo..xo + (|a| + |b|)][k - xo];
    ValueZero(x[xo..xo + |a|]);
    assert b[..0] == [];
    ValueEmpty();
  }

  lemma {:induction false} RowsTop(x: seq<Limb>, xo: nat, i: nat, a: seq<Limb>, b: seq<Limb>)
    requires Rows(x, xo, i, a, b) && i < |b|
    ensures x[xo + i + |a|] == 0
  {
  }

  lemma {:induction false} RowsStep(x: seq<Limb>, y: seq<Limb>, xo: nat, i: nat, a: seq<Limb>, b: seq<Limb>)
    requires Rows(x, xo, i, a, b) && i < |b|
    requires Framed(x, y, xo + i, |a| + 1)
    requires Value(y[xo + i..xo + i + |a| + 1]) == Value(x[xo + i..xo + i + |a|]) + b[i] * Value(a)
    ensures Rows(y, xo, i + 1, a, b)
  {
    var low, mid, out := x[xo..xo + i], x[xo + i..xo + i + |a|], y[xo + i..xo + i + |a| + 1];
    assert x[xo..xo + (|a| + i)] == low + mid;
    assert y[xo..xo + (|a| + i + 1)] == low + out;
    MulRow(low, mid, out, a, b);
  }

  lemma {:induction false} RowsEnd(x: seq<Limb>, xo: nat, a: seq<Limb>, b: seq<Limb>)
    requires Rows(x, xo, |b|, a, b)
    ensures Value(x[xo..xo + (|a| + |b|)]) == Value(a) * Value(b)
  {
    assert b[..|b|] == b;
  }
}
