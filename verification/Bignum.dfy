/**
 Signed multi-precision integers (bignum.c): a sign and a limb string that only ever grows.
 An operand may be the same object as the result.
 */
module Bignum {
  import opened Arith
  import opened Limbs
  import opened Core
  import opened ExpMod
  import Shift

  // The error codes of the library, Ok being 0
  datatype Status = Ok | NegativeValue | DivisionByZero | BadInput | NotAcceptable | BufferTooSmall | CorruptionDetected

  class Mpi {
    var s: int
    var p: seq<Limb>

    constructor ()
      ensures s == 1 && p == []
    {
      s, p := 1, [];
    }

    ghost predicate Valid()
      reads this
    {
      s == 1 || s == -1
    }

    // The number and its magnitude
    ghost function Val(): int
      reads this
    {
      s * Value(p)
    }

    ghost function Abs(): (r: int)
      reads this
      ensures r >= 0
    {
      Value(p)
    }
  }

  // ----- Significant limbs

  // The number of limbs without leading zeros
  function Significant(p: seq<Limb>): (i: nat)
    ensures i <= |p|
  {
    if |p| == 0 then 0 else if p[|p| - 1] != 0 then |p| else Significant(p[..|p| - 1])
  }

  lemma {:induction false} SignificantLimb(p: seq<Limb>)
    ensures AllZero(p[Significant(p)..])
    ensures Significant(p) > 0 ==> p[Significant(p) - 1] != 0
    decreases |p|
  {
    if |p| > 0 && p[|p| - 1] == 0 {
      var q := p[..|p| - 1];
      SignificantLimb(q);
      var i := Significant(q);
      assert forall k :: 0 <= k < |p| - i ==> p[i..][k] == if k < |q| - i then q[i..][k] else 0;
    }
  }

  lemma {:induction false} SignificantValue(p: seq<Limb>)
    ensures Value(p) == Value(p[..Significant(p)])
    ensures Significant(p) > 0 ==> p[Significant(p) - 1] != 0 && Place(Significant(p) - 1) <= Value(p)
    ensures Significant(p) == 0 <==> Value(p) == 0
    ensures Value(p) < Place(Significant(p))
  {
    hide Value, Place, Significant;
    var i := Significant(p);
    SignificantLimb(p);
    ValueTrim(p, i);
    ValueBound(p[..i]);
    if i == 0 {
      ValueEmpty();
      assert p[..0] == [];
    } else {
      ValueNext(p, i - 1);
      MulLe(Place(i - 1), Place(i - 1), 1, p[i - 1]);
    }
  }

  method CountSignificant(p: seq<Limb>) returns (i: nat)
    ensures i == Significant(p)
  {
    i := |p|;
    assert p[..i] == p;
    while i > 0 && p[i - 1] == 0
      invariant i <= |p| && Significant(p) == Significant(p[..i])
    {
      assert p[..i][..i - 1] == p[..i - 1];
      i := i - 1;
    }
  }

  // ----- Comparison

  function Sign(x: int): int
  {
    if x > 0 then 1 else if x < 0 then -1 else 0
  }

  // Compare i limbs, most significant first
  method CmpLimbs(x: seq<Limb>, y: seq<Limb>, n: nat) returns (r: int)
    requires n <= |x| && n <= |y|
    ensures r == Sign(Value(x[..n]) - Value(y[..n]))
  {
    hide Value;
    var i: nat := n;
    while i > 0
      invariant i <= n && x[i..n] == y[i..n]
    {
      if x[i - 1] > y[i - 1] {
        SubSlice(x, 0, n, i, n);
        SubSlice(y, 0, n, i, n);
        ValueCompare(y[..n], x[..n], i - 1);
        return 1;
      }
      if x[i - 1] < y[i - 1] {
        SubSlice(x, 0, n, i, n);
        SubSlice(y, 0, n, i, n);
        ValueCompare(x[..n], y[..n], i - 1);
        return -1;
      }
      i := i - 1;
    }
    assert x[..n] == x[0..n] && y[..n] == y[0..n];
    return 0;
  }

  lemma {:induction false} LongerIsLarger(x: seq<Limb>, y: seq<Limb>)
    requires Significant(x) > Significant(y)
    ensures Value(x) > Value(y)
  {
    SignificantValue(x);
    SignificantValue(y);
    PlaceMono(Significant(y), Significant(x) - 1);
  }

  method CmpAbs(X: Mpi, Y: Mpi) returns (r: int)
    ensures r == Sign(X.Abs() - Y.Abs())
  {
    hide Value, Significant;
    var i := CountSignificant(X.p);
    var j := CountSignificant(Y.p);
    if i > j { LongerIsLarger(X.p, Y.p); return 1; }
    if j > i { LongerIsLarger(Y.p, X.p); return -1; }
    SignificantValue(X.p);
    SignificantValue(Y.p);
    r := CmpLimbs(X.p, Y.p, i);
  }

  method CmpMpi(X: Mpi, Y: Mpi) returns (r: int)
    requires X.Valid() && Y.Valid()
    ensures r == Sign(X.Val() - Y.Val())
  {
    hide Value, Significant;
    var i := CountSignificant(X.p);
    var j := CountSignificant(Y.p);
    SignificantValue(X.p);
    SignificantValue(Y.p);
    CompareSigned(X.s, Value(X.p), Y.s, Value(Y.p));
    if i == 0 && j == 0 { return 0; }
    if i > j { LongerIsLarger(X.p, Y.p); return X.s; }
    if j > i { LongerIsLarger(Y.p, X.p); return -Y.s; }
    if X.s > 0 && Y.s < 0 { NonzeroValue(X.p); return 1; }
    if Y.s > 0 && X.s < 0 { NonzeroValue(X.p); return -1; }
    r := CmpLimbs(X.p, Y.p, i);
    r := X.s * r;
  }

  lemma NonzeroValue(p: seq<Limb>)
    requires Significant(p) > 0
    ensures Value(p) > 0
  {
    SignificantLimb(p);
    ValueZero(p);
  }

  // Comparing signed numbers by sign and magnitude
  lemma CompareSigned(s: int, a: int, t: int, b: int)
    requires (s == 1 || s == -1) && (t == 1 || t == -1) && a >= 0 && b >= 0
    ensures a > b ==> Sign(s * a - t * b) == s
    ensures b > a ==> Sign(s * a - t * b) == -t
    ensures s == t ==> Sign(s * a - t * b) == s * Sign(a - b)
    ensures s > t && a > 0 ==> Sign(s * a - t * b) == 1
    ensures s < t && a > 0 ==> Sign(s * a - t * b) == -1
  {
  }

  // mbedtls_mpi_sint: a signed limb
  predicate SignedLimb(z: int)
  {
    0 - Pow2(BITS - 1) <= z < Pow2(BITS - 1)
  }

  lemma SignedLimbFits(z: int)
    requires SignedLimb(z)
    ensures 0 <= (if z < 0 then -z else z) < BETA
  {
  }

  method CmpInt(X: Mpi, z: int) returns (r: int)
    requires X.Valid() && SignedLimb(z)
    ensures r == Sign(X.Val() - z)
  {
    SignedLimbFits(z);
    var Y := new Mpi();
    Y.p := [if z < 0 then -z else z];
    Y.s := if z < 0 then -1 else 1;
    ValueSingle(Y.p[0]);
    r := CmpMpi(X, Y);
  }

  // ----- Size and assignment

  method Grow(X: Mpi, nblimbs: nat)
    modifies X
    ensures X.s == old(X.s) && X.p == old(X.p) + Zeros(if |old(X.p)| < nblimbs then nblimbs - |old(X.p)| else 0)
    ensures Value(X.p) == old(Value(X.p)) && |X.p| >= nblimbs && |X.p| >= |old(X.p)|
  {
    hide Value;
    ghost var p := X.p;
    if |X.p| < nblimbs {
      X.p := X.p + Zeros(nblimbs - |X.p|);
      assert X.p[|p|..] == Zeros(nblimbs - |p|) && X.p[..|p|] == p;
      ValueTrim(X.p, |p|);
    }
  }

  method Copy(X: Mpi, Y: Mpi)
    requires X.Valid() && Y.Valid()
    modifies X
    ensures X.Valid() && X.Val() == old(Y.Val()) && X.Abs() == old(Y.Abs())
    ensures |X.p| >= |old(X.p)|
    ensures old(Y.Abs()) != 0 ==> X.s == old(Y.s)
    ensures X == Y ==> X.p == old(X.p)
    ensures |old(X.p)| == 0 && old(Y.Abs()) > 0 ==> X.p == old(Y.p[..Significant(Y.p)])
  {
    hide Value, Significant;
    if X == Y { return; }
    if |Y.p| == 0 {
      ValueEmpty();
      if |X.p| != 0 {
        X.s := 1;
        X.p := Zeros(|X.p|);
      }
      ValueZero(X.p);
      return;
    }
    // at least one limb is copied, even of a zero
    var i: nat := |Y.p| - 1;
    assert Significant(Y.p) <= i + 1;
    while i > 0 && Y.p[i] == 0
      invariant i < |Y.p| && AllZero(Y.p[i + 1..])
    {
      i := i - 1;
    }
    i := i + 1;
    CopyCount(Y.p, i);
    X.s := Y.s;
    ghost var x := X.p;
    if |X.p| < i {
      Grow(X, i);
    } else {
      X.p := X.p[..i] + Zeros(|X.p| - i);
    }
    X.p := Y.p[..i] + X.p[i..];
    assert X.p[..i] == Y.p[..i] && AllZero(X.p[i..]);
    ValueTrim(X.p, i);
    ValueTrim(Y.p, i);
  }

  lemma {:induction false} CopyCount(y: seq<Limb>, i: nat)
    requires 0 < i <= |y| && AllZero(y[i..]) && (i > 1 ==> y[i - 1] != 0)
    ensures Value(y) > 0 ==> i == Significant(y)
    decreases |y|
  {
    hide Value;
    if i == |y| {
      if y[i - 1] == 0 {
        assert AllZero(y);
        ValueZero(y);
      }
    } else {
      var q := y[..|y| - 1];
      assert y[|y| - 1] == y[i..][|y| - 1 - i];
      assert forall k :: 0 <= k < |q[i..]| ==> q[i..][k] == y[i..][k];
      assert y == q + [0];
      ValueSnoc(q, 0);
      CopyCount(q, i);
    }
  }

  method LSet(X: Mpi, z: int)
    requires SignedLimb(z)
    modifies X
    ensures X.Valid() && X.Val() == z && |X.p| >= |old(X.p)| && |X.p| >= 1
    ensures X.s == if z < 0 then -1 else 1
    ensures forall j :: 0 < j < |X.p| ==> X.p[j] == 0
  {
    hide Value;
    SignedLimbFits(z);
    Grow(X, 1);
    X.p := Zeros(|X.p|);
    X.p := X.p[0 := if z < 0 then -z else z];
    X.s := if z < 0 then -1 else 1;
    assert X.p[1..] == Zeros(|X.p| - 1) && X.p[..1] == [X.p[0]];
    ValueTrim(X.p, 1);
    ValueSingle(X.p[0]);
  }

  // ----- Addition and subtraction

  // A limb buffer holding a copy of p, for the routines that work on arrays
  method Buffer(p: seq<Limb>) returns (a: array<Limb>)
    ensures fresh(a) && a.Length == |p| && a[..] == p
  {
    a := new Limb[|p|](i requires 0 <= i < |p| => p[i]);
  }

  lemma {:induction false} ValueUpdate(p: seq<Limb>, j: nat, t: Limb)
    requires j < |p|
    ensures Value(p[j := t]) == Value(p) + Place(j) * t - Place(j) * p[j]
  {
    hide Value, Place;
    var q := p[j := t];
    ValueSplit(p, j + 1);
    ValueSplit(q, j + 1);
    ValueNext(p, j);
    ValueNext(q, j);
    assert p[..j] == q[..j] && p[j + 1..] == q[j + 1..];
  }

  // One limb of carry propagation
  lemma {:induction false} CarryUp(p: seq<Limb>, j: nat, c: Limb, t: Limb, c2: Limb)
    requires j < |p| && 0 + t + c2 * BETA == 0 + p[j] + c
    ensures Value(p[j := t]) + c2 * Place(j + 1) == Value(p) + c * Place(j)
  {
    hide Value, Place;
    ValueUpdate(p, j, t);
    PlaceNext(j);
    CarryUpAlgebra(Place(j), t, c2, p[j], c);
  }

  lemma CarryUpAlgebra(w: int, t: int, c2: int, x: int, c: int)
    requires t + c2 * BETA == x + c
    ensures w * t - w * x + c2 * (BETA * w) == c * w
  {
    MulAssoc(c2, BETA, w);
    MulDistrib(w, t, c2 * BETA);
    MulDistrib(w, x, c);
  }

  // Add the carry c at limb j, growing X if it runs off the end
  method PropagateCarry(X: Mpi, j0: nat, c0: Limb)
    requires j0 <= |X.p| && c0 <= 1
    modifies X
    ensures X.s == old(X.s) && |X.p| >= |old(X.p)|
    ensures Value(X.p) == old(Value(X.p)) + c0 * Place(j0)
  {
    hide Value, Place, BETA, Wrap;
    BaseLarge();
    var j: nat, c: Limb := j0, c0;
    while c != 0
      invariant j <= |X.p| && c <= 1 && |X.p| >= |old(X.p)| && X.s == old(X.s)
      invariant Value(X.p) + c * Place(j) == old(Value(X.p)) + c0 * Place(j0)
      decreases |X.p| - j, c
    {
      if j >= |X.p| {
        Grow(X, j + 1);
        assert X.p[j] == 0;
      }
      var t: Limb := Wrap(0 + X.p[j] + c);
      var c2: Limb := if t < c then 1 else 0;
      CarryUp(X.p, j, c, t, c2);
      X.p := X.p[j := t];
      c, j := c2, j + 1;
    }
  }

  // The low j limbs of X replaced by their sum with b
  lemma {:induction false} LowSum(p: seq<Limb>, q: seq<Limb>, b: seq<Limb>, j: nat, c: Limb)
    requires |p| == |q| && j <= |p| && j <= |b| && p[j..] == q[j..]
    requires Value(q[..j]) + c * Place(j) == Value(p[..j]) + Value(b[..j])
    ensures Value(q) + c * Place(j) == Value(p) + Value(b[..j])
  {
    ValueSplit(p, j);
    ValueSplit(q, j);
  }

  // X += B for j significant limbs of B, already fitting X; B may be X
  method AddLimbs(X: Mpi, B: Mpi, j: nat)
    requires j == Significant(B.p) && j <= |X.p|
    modifies X
    ensures X.s == old(X.s) && |X.p| >= |old(X.p)|
    ensures Value(X.p) == old(Value(X.p)) + old(Value(B.p))
  {
    hide Value, Place, BETA, Significant, Framed;
    ghost var p, b := X.p, B.p;
    SignificantValue(b);
    var x := Buffer(X.p);
    var y := x;
    if B != X { y := Buffer(B.p); }
    assert x[0..0 + j] == p[..j] && y[0..0 + j] == b[..j];
    var c := Add(x, 0, x, 0, y, 0, j);
    X.p := x[..];
    FramedTail(p, X.p, j);
    assert X.p[..j] == x[0..0 + j];
    LowSum(p, X.p, b, j, c);
    PropagateCarry(X, j, c);
  }

  lemma FramedTail(p: seq<Limb>, q: seq<Limb>, j: nat)
    requires Framed(p, q, 0, j) && j <= |p|
    ensures |q| == |p| && q[j..] == p[j..]
  {
  }

  // X = |A| + |B|
  method AddAbs(X: Mpi, A0: Mpi, B0: Mpi)
    requires X.Valid() && A0.Valid() && B0.Valid()
    modifies X
    ensures X.Valid() && X.s == 1 && X.Abs() == old(A0.Abs()) + old(B0.Abs())
    ensures |X.p| >= |old(X.p)|
  {
    hide Value, Significant;
    var A, B := A0, B0;
    if X == B { A, B := X, A0; }
    if X != A { Copy(X, A); }
    X.s := 1;
    var j := CountSignificant(B.p);
    SignificantValue(B.p);
    if j == 0 { return; }
    ghost var p := B.p;
    Grow(X, j);
    assert X == B ==> j <= |p|;
    GrowSignificant(p, B.p);
    AddLimbs(X, B, j);
  }

  lemma {:induction false} GrowSignificant(p: seq<Limb>, q: seq<Limb>)
    requires |p| <= |q| && q[..|p|] == p && AllZero(q[|p|..])
    ensures Significant(q) == Significant(p)
    decreases |q|
  {
    if |q| == |p| {
      assert q == p;
    } else {
      var r := q[..|q| - 1];
      assert q[|q| - 1] == q[|p|..][|q| - 1 - |p|];
      assert r[..|p|] == p;
      assert forall k :: 0 <= k < |r[|p|..]| ==> r[|p|..][k] == q[|p|..][k];
      GrowSignificant(p, r);
    }
  }

  // Subtracting b from the low n limbs of a and the borrow from the limbs above
  lemma {:induction false} LowDifference(a: seq<Limb>, b: seq<Limb>, p: seq<Limb>, q: seq<Limb>, n: nat, c: Limb,
                                         c2: Limb)
    requires n == Significant(b) && n <= |a| <= |p| == |q| && p[n..] == a[n..] + Zeros(|p| - |a|) && c <= 1 && c2 <= 1
    requires Value(q[..n]) - c * Place(n) == Value(a[..n]) - Value(b[..n])
    requires Value(q[n..]) - c2 * Place(|p| - n) == Value(p[n..]) - c
    ensures Value(q) - c2 * Place(|p|) == Value(a) - Value(b)
    ensures c2 == 0 <==> Value(a) >= Value(b)
  {
    hide Value, Place, Significant;
    SignificantValue(b);
    ValueSplit(a, n);
    ValueSplit(q, n);
    HighPart(a[n..], |p| - |a|);
    PlaceAdd(n, |p| - n);
    DifferenceAlgebra(Value(q[..n]), Value(q[n..]), Value(a[..n]), Value(a[n..]), Value(b[..n]), Place(n),
                      Place(|p| - n), c, c2);
    ValueBound(q);
  }

  lemma {:induction false} HighPart(h: seq<Limb>, k: nat)
    ensures Value(h + Zeros(k)) == Value(h)
  {
    assert (h + Zeros(k))[..|h|] == h && (h + Zeros(k))[|h|..] == Zeros(k);
    ValueTrim(h + Zeros(k), |h|);
  }

  lemma DifferenceAlgebra(ql: int, qh: int, al: int, ah: int, b: int, w: int, v: int, c: int, c2: int)
    requires ql - c * w == al - b && qh - c2 * v == ah - c
    ensures ql + w * qh - c2 * (w * v) == al + w * ah - b
  {
    MulDistrib(w, qh, c2 * v);
    MulDistrib(w, ah, c);
    MulAssoc(w, c2, v);
    MulAssoc(c2, w, v);
  }

  // The limb work of sub_abs on X's buffer, with A and B possibly in the same buffer
  method SubLimbs(X: Mpi, A: Mpi, B: Mpi, n: nat) returns (carry: Limb, ghost c: Limb)
    requires n <= |A.p| <= |X.p| && n <= |B.p|
    requires X.p[n..] == A.p[n..] + Zeros(|X.p| - |A.p|)
    modifies X`p
    ensures |X.p| == |old(X.p)| && carry <= 1 && c <= 1
    ensures Value(X.p[..n]) - c * Place(n) == old(Value(A.p[..n])) - old(Value(B.p[..n]))
    ensures Value(X.p[n..]) - carry * Place(|X.p| - n) == old(Value(X.p[n..])) - c
  {
    hide Value, Place, BETA, Framed;
    ghost var p, a, b := X.p, A.p, B.p;
    var x := Buffer(X.p);
    var y, z := x, x;
    if A != X { y := Buffer(A.p); }
    if B != X { z := Buffer(B.p); }
    assert y[0..0 + n] == a[..n] && z[0..0 + n] == b[..n];
    carry := Sub(x, 0, y, 0, z, 0, n);
    ghost var q := x[..];
    c := carry;
    FramedTail(p, q, n);
    assert q[..n] == x[0..0 + n];
    carry := BorrowHigh(x, n, carry);
    X.p := x[..];
  }

  // Take a borrow from the limbs above n
  method BorrowHigh(x: array<Limb>, n: nat, c: Limb) returns (carry: Limb)
    requires n <= x.Length && c <= 1
    modifies x
    ensures x[..][..n] == old(x[..][..n]) && carry <= 1
    ensures Value(x[..][n..]) - carry * Place(x.Length - n) == old(Value(x[..][n..])) - c
  {
    hide Value, Place, BETA, Framed;
    ghost var q := x[..];
    carry := c;
    if carry != 0 {
      assert x[n..n + (x.Length - n)] == q[n..];
      carry := SubInt(x, n, x, n, carry, x.Length - n);
      FramedHead(q, x[..], n, x.Length - n);
      assert x[n..n + (x.Length - n)] == x[..][n..];
      EmptyHigh(n, x.Length, x[..][n..], q[n..], carry, c);
    }
  }

  // With no limbs above, the borrow comes out unchanged, and it was at most 1
  lemma {:induction false} EmptyHigh(n: nat, m: nat, x: seq<Limb>, q: seq<Limb>, carry: Limb, c: Limb)
    requires n <= m && |x| == |q| == m - n && c <= 1 && (m - n > 0 ==> carry <= 1)
    requires Value(x) - carry * Place(m - n) == Value(q) - c
    ensures carry <= 1
  {
    if m == n { ValueEmpty(); }
  }

  lemma FramedHead(p: seq<Limb>, q: seq<Limb>, n: nat, k: nat)
    requires Framed(p, q, n, k) && n <= |p|
    ensures |q| == |p| && q[..n] == p[..n]
  {
  }

  // Make room for A and copy its limbs from n on; the limbs below stay for an operand in X
  method LoadHigh(X: Mpi, A: Mpi, n: nat)
    requires X.Valid() && n <= |A.p|
    modifies X
    ensures X.s == old(X.s) && |X.p| >= |old(A.p)| && |X.p| >= |old(X.p)|
    ensures X.p[n..] == old(A.p[n..]) + Zeros(|X.p| - |old(A.p)|)
    ensures A == X ==> X.p == old(X.p)
    ensures n <= |old(X.p)| ==> X.p[..n] == old(X.p[..n])
  {
    hide Value;
    ghost var a := A.p;
    Grow(X, |A.p|);
    X.p := X.p[..n] + A.p[n..] + Zeros(|X.p| - |A.p|);
    assert X.p[n..] == a[n..] + Zeros(|X.p| - |a|);
  }

  // X = |A| - |B|, or an error if that is negative
  method SubAbs(X: Mpi, A: Mpi, B: Mpi) returns (ret: Status)
    requires X.Valid() && A.Valid() && B.Valid()
    modifies X
    ensures X.Valid() && |X.p| >= |old(X.p)|
    ensures ret == if old(A.Abs()) >= old(B.Abs()) then Ok else NegativeValue
    ensures ret.Ok? ==> X.s == 1 && X.Abs() == old(A.Abs()) - old(B.Abs())
  {
    hide Value, Place, BETA, Significant;
    ghost var a, b := A.p, B.p;
    var n := CountSignificant(B.p);
    SignificantValue(b);
    if n > |A.p| {
      TooLong(a, b);
      return NegativeValue;
    }
    LoadHigh(X, A, n);
    ghost var p := X.p;
    var carry;
    ghost var c;
    carry, c := SubLimbs(X, A, B, n);
    LowDifference(a, b, p, X.p, n, c, carry);
    if carry != 0 { return NegativeValue; }
    X.s := 1;
    return Ok;
  }

  lemma {:induction false} TooLong(a: seq<Limb>, b: seq<Limb>)
    requires Significant(b) > |a|
    ensures Value(a) < Value(b)
  {
    SignificantValue(b);
    ValueBound(a);
    PlaceMono(|a|, Significant(b) - 1);
  }

  lemma AddSubSigns(s: int, a: int, t: int, b: int, f: int)
    requires (s == 1 || s == -1) && (t == 1 || t == -1) && (f == 1 || f == -1)
    ensures s * t * f < 0 ==> s * a + f * (t * b) == s * (a - b) == (0 - s) * (b - a)
    ensures s * t * f >= 0 ==> s * a + f * (t * b) == s * (a + b)
  {
  }

  // X = A + flip * B
  method AddSub(X: Mpi, A: Mpi, B: Mpi, flip: int)
    requires X.Valid() && A.Valid() && B.Valid() && (flip == 1 || flip == -1)
    modifies X
    ensures X.Valid() && X.Val() == old(A.Val()) + flip * old(B.Val())
    ensures |X.p| >= |old(X.p)|
  {
    hide Value;
    var s := A.s;
    AddSubSigns(A.s, Value(A.p), B.s, Value(B.p), flip);
    if A.s * B.s * flip < 0 {
      var cmp := CmpAbs(A, B);
      if cmp >= 0 {
        var ret := SubAbs(X, A, B);
        X.s := if cmp == 0 then 1 else s;
      } else {
        var ret := SubAbs(X, B, A);
        X.s := -s;
      }
    } else {
      AddAbs(X, A, B);
      X.s := s;
    }
  }

  method AddMpi(X: Mpi, A: Mpi, B: Mpi)
    requires X.Valid() && A.Valid() && B.Valid()
    modifies X
    ensures X.Valid() && X.Val() == old(A.Val()) + old(B.Val()) && |X.p| >= |old(X.p)|
  {
    hide Value;
    AddSub(X, A, B, 1);
  }

  method SubMpi(X: Mpi, A: Mpi, B: Mpi)
    requires X.Valid() && A.Valid() && B.Valid()
    modifies X
    ensures X.Valid() && X.Val() == old(A.Val()) - old(B.Val()) && |X.p| >= |old(X.p)|
  {
    hide Value;
    AddSub(X, A, B, -1);
  }

  // X = A - b for a signed limb b
  method SubIntMpi(X: Mpi, A: Mpi, b: int)
    requires X.Valid() && A.Valid() && SignedLimb(b)
    modifies X
    ensures X.Valid() && X.Val() == old(A.Val()) - b && |X.p| >= |old(X.p)|
  {
    hide Value;
    SignedLimbFits(b);
    var B := new Mpi();
    B.p := [if b < 0 then -b else b];
    B.s := if b < 0 then -1 else 1;
    ValueSingle(B.p[0]);
    assert B.Val() == b;
    SubMpi(X, A, B);
  }

  // ----- Multiplication

  lemma {:induction false} LowProduct(q: seq<Limb>, k: nat)
    requires k <= |q| && AllZero(q[k..])
    ensures Value(q) == Value(q[..k])
  {
    ValueTrim(q, k);
  }

  // X = A * B for magnitudes, A and B distinct from X
  method MulLimbs(X: Mpi, A: Mpi, i: nat, B: Mpi, j: nat)
    requires X != A && X != B && i == Significant(A.p) && j == Significant(B.p)
    requires i + j <= |X.p| && AllZero(X.p)
    modifies X`p
    ensures |X.p| == |old(X.p)| && Value(X.p) == old(Value(A.p)) * old(Value(B.p))
  {
    hide Value, Significant, Framed, AllZero;
    ghost var p := X.p;
    var x := Buffer(X.p);
    var a := Buffer(A.p);
    var b := Buffer(B.p);
    assert a[0..0 + i] == A.p[..i] && b[0..0 + j] == B.p[..j];
    SignificantValue(A.p);
    SignificantValue(B.p);
    Mul(x, 0, a, 0, i, b, 0, j);
    X.p := x[..];
    FramedTail(p, X.p, i + j);
    assert X.p[..i + j] == x[0..0 + (i + j)];
    ZeroTail(p, i + j);
    LowProduct(X.p, i + j);
  }

  lemma ZeroTail(p: seq<Limb>, k: nat)
    requires AllZero(p) && k <= |p|
    ensures AllZero(p[k..])
  {
  }

  method Duplicate(A: Mpi) returns (T: Mpi)
    requires A.Valid()
    ensures fresh(T) && T.Valid() && T.Abs() == A.Abs() && T.Val() == A.Val() && (A.Abs() != 0 ==> T.s == A.s)
  {
    hide Value;
    T := new Mpi();
    Copy(T, A);
  }

  // X = A * B
  method MulMpi(X: Mpi, A0: Mpi, B0: Mpi)
    requires X.Valid() && A0.Valid() && B0.Valid()
    modifies X
    ensures X.Valid() && X.Val() == old(A0.Val()) * old(B0.Val()) && |X.p| >= |old(X.p)|
  {
    hide Value, Significant;
    var A, B := A0, B0;
    ghost var x, sa, sb, va, vb := X.p, A.s, B.s, A.Abs(), B.Abs();
    if X == A { A := Duplicate(A); }
    if X == B { B := Duplicate(B); }
    var i := CountSignificant(A.p);
    var j := CountSignificant(B.p);
    SignificantValue(A.p);
    SignificantValue(B.p);
    Grow(X, i + j);
    LSet0(X);
    MulLimbs(X, A, i, B, j);
    X.s := if i == 0 || j == 0 then 1 else A.s * B.s;
    MulSigns(sa, va, sb, vb, X.s);
  }

  lemma MulSigns(s: int, a: int, t: int, b: int, r: int)
    requires (s == 1 || s == -1) && (t == 1 || t == -1) && r == if a == 0 || b == 0 then 1 else s * t
    ensures r * (a * b) == (s * a) * (t * b)
  {
  }

  method LSet0(X: Mpi)
    modifies X
    ensures X.s == 1 && AllZero(X.p) && Value(X.p) == 0 && |X.p| >= |old(X.p)| && |X.p| >= 1
  {
    hide Value;
    LSet(X, 0);
    assert AllZero(X.p) by { ValueZero(X.p); }
  }

  // A * b as A + A * (b - 1): mla onto a copy of A, possibly the same buffer
  method MulIntLimbs(X: Mpi, A: Mpi, n: nat, b: Limb)
    requires b > 0 && n == Significant(A.p) && n < |X.p| && Value(X.p) == Value(A.p)
    modifies X`p
    ensures |X.p| == |old(X.p)| && Value(X.p) == old(Value(A.p)) * b
  {
    hide Value, Place, BETA, Significant, Framed;
    ghost var p, v := X.p, Value(A.p);
    SignificantValue(A.p);
    var x := Buffer(X.p);
    var a := x;
    if A != X { a := Buffer(A.p); }
    assert a[0..0 + n] == A.p[..n] && x[0..0 + |p|] == p;
    var c := Mla(x, 0, x.Length, a, 0, n, b - 1);
    X.p := x[..];
    assert X.p == x[0..0 + |p|];
    MulIntRoom(v, b, n, |p|, Value(X.p), c);
  }

  lemma {:induction false} MulIntRoom(v: int, b: Limb, n: nat, k: nat, x: int, c: Limb)
    requires 0 <= v < Place(n) && n < k && b > 0 && 0 <= x && x + c * Place(k) == v + (b - 1) * v
    ensures c == 0 && x == v * b
  {
    hide Place;
    MulDistrib(v, b, 1);
    PlaceNext(n);
    PlaceMono(n + 1, k);
    MulLe(v, Place(n), b, BETA - 1);
    MulDistrib(Place(n), BETA, 1);
    if c >= 1 { MulLe(1, c, Place(k), Place(k)); }
  }

  // Make X a copy of A with room for one more limb
  method MulIntCopy(X: Mpi, A: Mpi, n: nat)
    requires X.Valid() && A.Valid() && n == Significant(A.p) > 0
    modifies X
    ensures X.s == old(A.s) && |X.p| >= |old(X.p)| && |X.p| > n && Value(X.p) == old(Value(A.p))
    ensures Value(A.p) == old(Value(A.p)) && Significant(A.p) == n
  {
    hide Value, Significant;
    ghost var a := A.p;
    SignificantValue(a);
    Grow(X, n + 1);
    GrowSignificant(a, A.p);
    Copy(X, A);
  }

  // X = A * b
  method MulInt(X: Mpi, A: Mpi, b: Limb)
    requires X.Valid() && A.Valid()
    modifies X
    ensures X.Valid() && X.Val() == old(A.Val()) * b && |X.p| >= |old(X.p)|
  {
    hide Value, Significant;
    var n := CountSignificant(A.p);
    SignificantValue(A.p);
    if b == 0 || n == 0 {
      LSet0(X);
      return;
    }
    ghost var a, s := A.p, A.s;
    MulIntCopy(X, A, n);
    MulIntLimbs(X, A, n, b);
    MulAssoc(s, Value(a), b);
  }

  // ----- Shifts, bits and powers of two

  method BitlenMpi(X: Mpi) returns (r: nat)
    ensures IsBitLength(X.Abs(), r)
  {
    hide Value, IsBitLength;
    var x := Buffer(X.p);
    assert x[0..0 + |X.p|] == X.p;
    r := Bitlen(x, 0, x.Length);
  }

  function BitsToLimbs(i: nat): nat
  {
    i / BITS + if i % BITS != 0 then 1 else 0
  }

  lemma {:induction false} BitsFit(v: int, r: nat, count: nat, n: nat)
    requires IsBitLength(v, r) && n >= BitsToLimbs(r + count)
    ensures 0 <= v * Pow2(count) < Place(n)
  {
    hide Place;
    var i := r + count;
    DivModBasics(i, BITS);
    PlaceIsPow2(n);
    MulLe(BitsToLimbs(i), n, BITS, BITS);
    MulDistrib(BITS, i / BITS, 1);
    Pow2Mono(i, BITS * n);
    Pow2Add(r, count);
    MulLt(v, Pow2(r), Pow2(count));
    MulLe(0, v, 0, Pow2(count));
  }

  lemma {:induction false} EnoughLimbs(n: nat, i: nat)
    requires n * BITS >= i
    ensures n >= BitsToLimbs(i)
  {
    var q := i / BITS;
    DivModBasics(i, BITS);
    assert n < q ==> (n + 1) * BITS <= q * BITS;
    MulDistrib(BITS, n, 1);
    assert n == q ==> n * BITS == q * BITS;
  }

  // X <<= count
  method ShiftL(X: Mpi, count: nat)
    requires X.Valid()
    modifies X
    ensures X.Valid() && X.s == old(X.s) && X.Abs() == old(X.Abs()) * Pow2(count)
    ensures X.Val() == old(X.Val()) * Pow2(count)
    ensures |X.p| == if |old(X.p)| * BITS < old(Bits(X)) + count then BitsToLimbs(old(Bits(X)) + count) else |old(X.p)|
    ensures |X.p| >= |old(X.p)|
  {
    hide Value, Place, IsBitLength, BitsToLimbs, Bits;
    var r := BitlenMpi(X);
    BitsUnique(X, r);
    var i := r + count;
    ghost var v, s := Value(X.p), X.s;
    if |X.p| * BITS < i {
      LimbsGrow(|X.p|, i);
      Grow(X, BitsToLimbs(i));
    } else {
      EnoughLimbs(|X.p|, i);
    }
    BitsFit(v, r, count, |X.p|);
    var x := Buffer(X.p);
    Shift.ShiftL(x, count);
    X.p := x[..];
    ModSmall(v * Pow2(count), Place(|X.p|));
    MulAssoc(s, v, Pow2(count));
  }

  lemma {:induction false} LimbsGrow(n: nat, i: nat)
    requires n * BITS < i
    ensures n < BitsToLimbs(i)
  {
    var q := i / BITS;
    DivModBasics(i, BITS);
    assert n > q ==> n * BITS >= (q + 1) * BITS;
  }

  // The bit length of X
  ghost function Bits(X: Mpi): (r: nat)
    reads X
    ensures IsBitLength(X.Abs(), r)
  {
    BitLengthExists(X.Abs());
    var r :| IsBitLength(X.Abs(), r);
    r
  }

  lemma {:induction false} BitLengthExists(v: int)
    requires v >= 0
    ensures exists r: nat :: IsBitLength(v, r)
    decreases v
  {
    if v == 0 {
      assert IsBitLength(0, 0);
    } else {
      BitLengthExists(v / 2);
      var r: nat :| IsBitLength(v / 2, r);
      assert IsBitLength(v, r + 1);
    }
  }

  lemma {:induction false} BitLengthUnique(v: int, q: nat, r: nat)
    requires IsBitLength(v, q) && IsBitLength(v, r)
    ensures q == r
  {
    if q < r { Pow2Mono(q, r - 1); }
    if r < q { Pow2Mono(r, q - 1); }
  }

  lemma BitsUnique(X: Mpi, r: nat)
    requires IsBitLength(X.Abs(), r)
    ensures Bits(X) == r
  {
    hide Value;
    BitLengthUnique(X.Abs(), Bits(X), r);
  }

  // X >>= count, on the magnitude
  method ShiftR(X: Mpi, count: nat)
    requires X.Valid()
    modifies X
    ensures X.Valid() && X.s == old(X.s) && |X.p| == |old(X.p)| && X.Abs() == old(X.Abs()) / Pow2(count)
  {
    hide Value;
    if |X.p| != 0 {
      var x := Buffer(X.p);
      Shift.ShiftR(x, count);
      X.p := x[..];
    } else {
      assert X.p == [];
      ValueEmpty();
      ModSmall(0, Pow2(count));
    }
  }
}
