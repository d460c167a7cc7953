/**
 The pseudo-primality test (bignum.c): small factors, then Miller-Rabin rounds.
 */
module MillerRabin {
  import opened Arith
  import opened Limbs
  import opened NumberTheory
  import opened ExpMod
  import opened Bignum
  import opened LongDivision
  import opened ModExp
  import opened Gcd
  import opened SmallFactors

  // ----- Strong probable primes

  // With x - 1 = r * 2^s: the base a does not show that x is composite
  ghost predicate StrongBase(x: int, a: int, r: nat, s: nat)
    requires x > 0
  {
    Pow(a, r) % x == 1 || exists i: nat :: i < s && Squared(x, a, r, i) == x - 1
  }

  // a^(r * 2^i) modulo x
  ghost function Squared(x: int, a: int, r: nat, i: nat): int
    requires x > 0
  {
    if i == 0 then Pow(a, r) % x else Squared(x, a, r, i - 1) * Squared(x, a, r, i - 1) % x
  }

  lemma {:induction false} SquaredIsPower(x: int, a: int, r: nat, i: nat)
    requires x > 0
    ensures r * Pow2(i) >= 0 && Squared(x, a, r, i) == Pow(a, r * Pow2(i)) % x
    decreases i
  {
    if i > 0 {
      SquaredIsPower(x, a, r, i - 1);
      var e := r * Pow2(i - 1);
      MulAssoc(r, 2, Pow2(i - 1));
      MulAssoc(2, r, Pow2(i - 1));
      assert r * Pow2(i) == e + e;
      PowAdd(a, e, e);
      CongMod(Pow(a, e), x);
      CongMul(Pow(a, e) % x, Pow(a, e), Pow(a, e) % x, Pow(a, e), x);
    }
  }

  lemma SquaredRange(x: int, a: int, r: nat, i: nat)
    requires x > 0
    ensures 0 <= Squared(x, a, r, i) < x
  {
    hide Pow;
    if i == 0 {
      DivModBasics(Pow(a, r), x);
    } else {
      var q := Squared(x, a, r, i - 1);
      DivModBasics(q * q, x);
    }
  }

  // Modulo a prime a square root of 1 is 1 or -1
  lemma {:induction false} RootStep(x: int, q: int)
    requires IsPrime(x) && 0 <= q < x && q * q % x == 1
    ensures q == 1 || q == x - 1
  {
    ModSmall(1, x);
    RootsOfOne(x, q);
    CongFromMultiple(x - 1, -1, 1, x);
    if Cong(q, 1, x) { CongReduced(q, 1, x); } else { CongTrans(q, -1, x - 1, x); CongReduced(q, x - 1, x); }
  }

  lemma {:induction false} OneDescends(x: int, a: int, r: nat, i: nat, s: nat)
    requires IsPrime(x) && i <= s && Squared(x, a, r, i) == 1
    ensures StrongBase(x, a, r, s)
    decreases i
  {
    hide IsPrime;
    if i > 0 {
      assert x > 1 by { PrimeLarge(x); }
      SquaredRange(x, a, r, i - 1);
      RootStep(x, Squared(x, a, r, i - 1));
      if Squared(x, a, r, i - 1) == 1 {
        OneDescends(x, a, r, i - 1, s);
      }
    }
  }

  lemma PrimeLarge(x: int)
    requires IsPrime(x)
    ensures x >= 2
  {
  }

  // No base shows that a prime is composite
  lemma {:induction false} PrimeIsStrong(x: int, a: int, r: nat, s: nat)
    requires IsPrime(x) && !Divides(x, a) && x - 1 == r * Pow2(s)
    ensures StrongBase(x, a, r, s)
  {
    hide IsPrime, Divides, Pow2, Pow;
    PrimeLarge(x);
    Fermat(x, a);
    SquaredIsPower(x, a, r, s);
    ModSmall(1, x);
    OneDescends(x, a, r, s, s);
  }

  // a^r is 1, or one of a^r, a^2r, a^4r .. up to a^((x - 1) / 2) is -1
  lemma {:induction false} StrongWrittenOut(x: int, a: int, r: nat, s: nat)
    requires x > 0
    ensures StrongBase(x, a, r, s) <==>
            Pow(a, r) % x == 1 || exists i: nat :: i < s && r * Pow2(i) >= 0 && Pow(a, r * Pow2(i)) % x == x - 1
  {
    hide Pow, Pow2, Squared;
    if i: nat :| i < s && Squared(x, a, r, i) == x - 1 {
      SquaredIsPower(x, a, r, i);
    }
    if i: nat :| i < s && r * Pow2(i) >= 0 && Pow(a, r * Pow2(i)) % x == x - 1 {
      SquaredIsPower(x, a, r, i);
    }
  }

  // A base that shares a factor with x does show that x is composite
  lemma {:induction false} SharedFactor(x: int, a: int, d: int, r: nat, s: nat)
    requires x > 1 && d > 1 && Divides(d, x) && Divides(d, a) && r > 0
    ensures !StrongBase(x, a, r, s)
  {
    hide Divides, Pow2;
    PowDivisible(a, d, r);
    ResidueDivisible(Pow(a, r), x, d);
    NotDivisible(x, d);
    forall i: nat
      ensures Squared(x, a, r, i) != x - 1
    {
      SquaredIsPower(x, a, r, i);
      MulLe(1, r, 1, Pow2(i));
      PowDivisible(a, d, r * Pow2(i));
      ResidueDivisible(Pow(a, r * Pow2(i)), x, d);
    }
  }

  lemma PowDivisible(a: int, d: int, e: nat)
    requires Divides(d, a) && e > 0
    ensures Divides(d, Pow(a, e))
  {
    hide Divides;
    DividesProduct(d, a, Pow(a, e - 1));
  }

  lemma ResidueDivisible(p: int, x: int, d: int)
    requires x > 0 && Divides(d, p) && Divides(d, x)
    ensures Divides(d, p % x)
  {
    hide Divides;
    DivModBasics(p, x);
    DividesProduct(d, x, p / x);
    DividesSum(d, p, p / x * x);
  }

  lemma NotDivisible(x: int, d: int)
    requires d > 1 && Divides(d, x)
    ensures !Divides(d, 1) && !Divides(d, x - 1)
  {
    hide Divides;
    if Divides(d, x - 1) {
      DividesSum(d, x, x - 1);
    }
    if Divides(d, 1) {
      DividesLe(d, 1);
    }
  }

  // ----- The random source

  // The random generator as a tape of limbs read from front to back
  class Tape {
    const data: nat -> Limb
    var pos: nat

    constructor (data: nat -> Limb)
      ensures this.data == data && pos == 0
    {
      this.data := data;
      pos := 0;
    }
  }

  // n limbs from position pos
  function Draw(data: nat -> Limb, pos: nat, n: nat): (p: seq<Limb>)
    ensures |p| == n
  {
    seq(n, i requires 0 <= i < n => data(pos + i))
  }

  method FillRandom(A: Mpi, n: nat, rng: Tape)
    modifies A, rng`pos
    ensures A.s == 1 && A.p == Draw(rng.data, old(rng.pos), n) && rng.pos == old(rng.pos) + n
  {
    A.s, A.p := 1, Draw(rng.data, rng.pos, n);
    rng.pos := rng.pos + n;
  }

  // What a mask built with a shift count out of range leaves of a limb
  const OUT_OF_RANGE: (Limb, int) -> Limb

  // x & ((1 << e) - 1)
  function MaskedLimb(x: Limb, e: int): Limb
  {
    if 0 <= e < BITS then LowBitsLimb(x, e); x % Pow2(e) else OUT_OF_RANGE(x, e)
  }

  // Clear all but the low k - 1 bits, k the bit length of |X| - 1. The shift count is out of
  // range when A has more limbs than that.
  function Masked(p: seq<Limb>, k: nat): (r: seq<Limb>)
    requires |p| > 0
    ensures |r| == |p|
  {
    p[|p| - 1 := MaskedLimb(p[|p| - 1], k - (|p| - 1) * BITS - 1)]
  }

  lemma {:induction false} MaskedIsModulo(p: seq<Limb>, k: nat)
    requires |p| > 0 && 0 < k - (|p| - 1) * BITS <= BITS
    ensures Value(Masked(p, k)) == Value(p) % Pow2(k - 1)
  {
    hide Value, Pow2;
    var e := k - (|p| - 1) * BITS - 1;
    MulLe(0, |p| - 1, 0, BITS);
    MaskedValue(p, e, MaskedLimb(p[|p| - 1], e));
  }

  lemma LowBitsLimb(x: Limb, e: nat)
    ensures 0 <= x % Pow2(e) <= x
  {
    hide Pow2, BETA;
    var m := Pow2(e);
    DivModBasics(x, m);
    if x < m {
      ModSmall(x, m);
    }
  }

  lemma {:induction false} MaskedValue(p: seq<Limb>, e: nat, top: Limb)
    requires |p| > 0 && top == p[|p| - 1] % Pow2(e)
    ensures (|p| - 1) * BITS >= 0 && Value(p[|p| - 1 := top]) == Value(p) % Pow2((|p| - 1) * BITS + e)
  {
    hide Value, Place, Pow2;
    var n := |p| - 1;
    var q := p[n := top];
    assert q[..n] == p[..n] && q[..n + 1] == q && p[..n + 1] == p;
    ValueNext(p, n);
    ValueNext(q, n);
    ValueBound(p[..n]);
    PlaceIsPow2(n);
    Pow2Add(n * BITS, e);
    MaskAlgebra(Value(p[..n]), Place(n), p[n], Pow2(e));
  }

  lemma {:induction false} MaskAlgebra(low: int, w: int, x: int, m: int)
    requires 0 <= low < w && m > 0
    ensures w * m > 0 && (low + w * x) % (w * m) == low + w * (x % m)
  {
    MulLe(1, w, 1, m);
    DivModBasics(x, m);
    var q, r := x / m, x % m;
    MulLe(0, w, 0, r);
    MulLe(w, w, r, m - 1);
    MulDistrib(w, q * m, r);
    MulAssoc(w, q, m);
    MulAssoc(q, w, m);
    DivModUnique(low + w * x, w * m, q, low + w * r);
  }

  // The candidate for a base at position pos of the tape
  ghost function Candidate(data: nat -> Limb, pos: nat, n: nat, k: nat): (p: seq<Limb>)
    ensures |p| == n
  {
    var p := Draw(data, pos, n);
    if n > 0 && Gcd.Digits(Value(p)) > k then Masked(p, k) else p
  }

  // What the code makes of a draw v when X has no leading zero limb, k being the bit length of
  // |X| - 1: a draw of more than k bits loses all but k - 1
  lemma {:induction false} CandidateReduced(data: nat -> Limb, pos: nat, n: nat, k: nat)
    requires n > 0 && 0 < k - (n - 1) * BITS <= BITS
    ensures var v, w := Value(Draw(data, pos, n)), Value(Candidate(data, pos, n, k));
            k > 0 && w < Pow2(k) && w == if v < Pow2(k) then v else v % Pow2(k - 1)
  {
    hide Value, Pow2, Gcd.Digits, Masked, Draw;
    MulLe(0, n - 1, 0, BITS);
    var v := Value(Draw(data, pos, n));
    DigitsAbove(v, k);
    if v >= Pow2(k) {
      MaskedIsModulo(Draw(data, pos, n), k);
      DivModBasics(v, Pow2(k - 1));
      Pow2Mono(k - 1, k);
    }
  }

  lemma {:induction false} DigitsAbove(v: nat, k: nat)
    ensures Gcd.Digits(v) > k <==> v >= Pow2(k)
    decreases v
  {
    if v > 0 && k > 0 {
      DigitsAbove(v / 2, k - 1);
    }
  }

  // Every draw from pos on, so reduced, lies in 2 .. x - 2
  ghost predicate UsableDraws(data: nat -> Limb, pos: nat, n: nat, k: nat, x: int)
    requires k > 0
  {
    forall i: nat :: DrawInRange(data, pos, n, k, x, i)
  }

  ghost predicate DrawInRange(data: nat -> Limb, pos: nat, n: nat, k: nat, x: int, i: nat)
    requires k > 0
  {
    i * n >= 0 && var v := Value(Draw(data, pos + i * n, n)); 2 <= (if v < Pow2(k) then v else v % Pow2(k - 1)) <= x - 2
  }

  lemma UsableDrawsFirst(data: nat -> Limb, pos: nat, n: nat, k: nat, x: int)
    requires k > 0 && UsableDraws(data, pos, n, k, x)
    ensures var v := Value(Draw(data, pos, n)); 2 <= (if v < Pow2(k) then v else v % Pow2(k - 1)) <= x - 2
  {
    hide Pow2, Draw, Value;
    assert DrawInRange(data, pos, n, k, x, 0);
    assert 0 * n == 0;
  }

  lemma UsableDrawsRest(data: nat -> Limb, pos: nat, n: nat, k: nat, x: int, next: nat)
    requires k > 0 && UsableDraws(data, pos, n, k, x) && next == pos + n
    ensures UsableDraws(data, next, n, k, x)
  {
    hide Pow2, Draw, Value;
    forall i: nat
      ensures DrawInRange(data, next, n, k, x, i)
    {
      assert DrawInRange(data, pos, n, k, x, i + 1);
      assert (i + 1) * n == i * n + n;
    }
  }

  ghost predicate Usable(p: seq<Limb>, w: int)
  {
    1 < Value(p) < w
  }

  // Where the draws from pos on end, and whether the last of them is taken; the last of 32 never is
  ghost function Search(data: nat -> Limb, pos: nat, n: nat, k: nat, w: int, count: nat): (r: (nat, bool))
    requires count <= 31
    ensures r.0 >= pos + n
    decreases 32 - count
  {
    if count > 30 then (pos + n, false)
    else if Usable(Candidate(data, pos, n, k), w) then (pos + n, true)
    else Search(data, pos + n, n, k, w, count + 1)
  }

  // What is taken is usable
  lemma {:induction false} SearchFinds(data: nat -> Limb, pos: nat, n: nat, k: nat, w: int, count: nat)
    requires count <= 31 && Search(data, pos, n, k, w, count).1
    ensures Usable(Candidate(data, Search(data, pos, n, k, w, count).0 - n, n, k), w)
    decreases 32 - count
  {
    hide Usable, Candidate;
    if !Usable(Candidate(data, pos, n, k), w) {
      SearchFinds(data, pos + n, n, k, w, count + 1);
    }
  }

  // A candidate is taken exactly when one of the first 31 is usable
  lemma {:induction false} SearchMeaning(data: nat -> Limb, pos: nat, n: nat, k: nat, w: int, count: nat)
    requires count <= 31
    ensures Search(data, pos, n, k, w, count).1 <==> exists i: nat :: i < 31 - count && UsableAt(data, pos, n, k, w, i)
    decreases 32 - count
  {
    hide Usable, Candidate, UsableAt;
    if count <= 30 {
      FirstUsable(data, pos, n, k, w);
      if Usable(Candidate(data, pos, n, k), w) {
        assert UsableAt(data, pos, n, k, w, 0);
      } else {
        SearchMeaning(data, pos + n, n, k, w, count + 1);
        forall i: nat | i > 0
          ensures UsableAt(data, pos, n, k, w, i) <==> UsableAt(data, pos + n, n, k, w, i - 1)
        {
          ShiftUsable(data, pos, n, k, w, i);
        }
        var next := pos + n;
        if i: nat :| i < 30 - count && UsableAt(data, next, n, k, w, i) {
          assert UsableAt(data, pos, n, k, w, i + 1);
        }
      }
    }
  }

  // None of the next i candidates is usable
  ghost predicate NoneUsable(data: nat -> Limb, pos: nat, n: nat, k: nat, w: int, i: nat)
  {
    forall j: nat :: j < i ==> !UsableAt(data, pos, n, k, w, j)
  }

  // The search ends behind the first usable candidate i of the first 31, or behind the 32nd
  lemma {:induction false} SearchEnds(data: nat -> Limb, pos: nat, n: nat, k: nat, w: int, count: nat) returns (i: nat)
    requires count <= 31
    ensures i <= 31 - count && NoneUsable(data, pos, n, k, w, i) && (i < 31 - count ==> UsableAt(data, pos, n, k, w, i))
    ensures Search(data, pos, n, k, w, count) == (pos + (i + 1) * n, i < 31 - count)
    decreases 32 - count
  {
    hide Usable, Candidate, UsableAt, NoneUsable, Search;
    SearchStep(data, pos, n, k, w, count);
    FirstUsable(data, pos, n, k, w);
    i := 0;
    if count <= 30 && !Usable(Candidate(data, pos, n, k), w) {
      var h := SearchEnds(data, pos + n, n, k, w, count + 1);
      i := h + 1;
      NoneShift(data, pos, n, k, w, h);
      MulDistrib(n, h + 1, 1);
    } else {
      assert NoneUsable(data, pos, n, k, w, 0) by { NoneAtFirst(data, pos, n, k, w); }
    }
  }

  lemma NoneAtFirst(data: nat -> Limb, pos: nat, n: nat, k: nat, w: int)
    ensures NoneUsable(data, pos, n, k, w, 0)
  {
  }

  lemma NoneShift(data: nat -> Limb, pos: nat, n: nat, k: nat, w: int, h: nat)
    requires !UsableAt(data, pos, n, k, w, 0) && NoneUsable(data, pos + n, n, k, w, h)
    ensures NoneUsable(data, pos, n, k, w, h + 1)
    ensures UsableAt(data, pos, n, k, w, h + 1) <==> UsableAt(data, pos + n, n, k, w, h)
  {
    hide UsableAt;
    ShiftUsable(data, pos, n, k, w, h + 1);
    forall j: nat | j < h + 1
      ensures !UsableAt(data, pos, n, k, w, j)
    {
      if j > 0 {
        ShiftUsable(data, pos, n, k, w, j);
      }
    }
  }

  lemma FirstUsable(data: nat -> Limb, pos: nat, n: nat, k: nat, w: int)
    ensures UsableAt(data, pos, n, k, w, 0) <==> Usable(Candidate(data, pos, n, k), w)
  {
    hide Usable, Candidate;
    assert 0 * n == 0;
  }

  // The candidate i draws on is usable
  ghost predicate UsableAt(data: nat -> Limb, pos: nat, n: nat, k: nat, w: int, i: nat)
  {
    i * n >= 0 && Usable(Candidate(data, pos + i * n, n, k), w)
  }

  lemma ShiftUsable(data: nat -> Limb, pos: nat, n: nat, k: nat, w: int, i: nat)
    requires i > 0
    ensures UsableAt(data, pos, n, k, w, i) <==> UsableAt(data, pos + n, n, k, w, i - 1)
  {
    hide Usable, Candidate;
    assert i * n == (i - 1) * n + n;
  }

  method DrawOnce(A: Mpi, W: Mpi, n: nat, rng: Tape)
    requires A != W
    modifies A, rng`pos
    ensures A.s == 1 && A.p == Candidate(rng.data, old(rng.pos), n, Gcd.Digits(W.Abs())) && rng.pos == old(rng.pos) + n
    ensures var k, v := Gcd.Digits(W.Abs()), Value(Draw(rng.data, old(rng.pos), n));
            n > 0 && 0 < k - (n - 1) * BITS <= BITS ==>
              k > 0 && Value(A.p) < Pow2(k) && Value(A.p) == if v < Pow2(k) then v else v % Pow2(k - 1)
  {
    hide IsBitLength, Gcd.Digits, Masked, Value, Pow2, Draw;
    FillRandom(A, n, rng);
    var j := BitlenMpi(A);
    var k := BitlenMpi(W);
    DigitsAreBits(A.Abs(), j);
    DigitsAreBits(W.Abs(), k);
    BitsNeedLimbs(A, j);
    if j > k {
      A.p := Masked(A.p, k);
    }
    if n > 0 && 0 < k - (n - 1) * BITS <= BITS {
      CandidateReduced(rng.data, old(rng.pos), n, k);
    }
  }

  lemma {:induction false} DigitsAreBits(v: nat, j: nat)
    requires IsBitLength(v, j)
    ensures j == Gcd.Digits(v)
    decreases v
  {
    if v > 0 {
      assert j > 0 && Pow2(j) == 2 * Pow2(j - 1);
      if j > 1 { assert Pow2(j - 1) == 2 * Pow2(j - 2); }
      DigitsAreBits(v / 2, j - 1);
    }
  }

  // A random base with 1 < A < W, the first usable candidate, or false after 32 draws
  method DrawBase(A: Mpi, W: Mpi, n: nat, rng: Tape) returns (ok: bool)
    requires A.Valid() && W.Valid() && A != W
    modifies A, rng`pos
    ensures A.Valid() && (ok ==> A.s == 1 && 1 < A.Val() < W.Val())
    ensures (rng.pos, ok) == Search(rng.data, old(rng.pos), n, Gcd.Digits(W.Abs()), W.Val(), 0)
    ensures ok ==> rng.pos >= n && A.p == Candidate(rng.data, rng.pos - n, n, Gcd.Digits(W.Abs()))
  {
    hide Value, Mpi.Val, Mpi.Abs, Candidate, Gcd.Digits, Search, Usable;
    ghost var k, w := Gcd.Digits(W.Abs()), W.Val();
    ghost var found := Search(rng.data, rng.pos, n, k, w, 0);
    var count: nat := 0;
    while true
      invariant A.Valid() && count <= 31 && found == Search(rng.data, rng.pos, n, k, w, count)
      decreases 31 - count
    {
      SearchStep(rng.data, rng.pos, n, k, w, count);
      DrawOnce(A, W, n, rng);
      if count > 30 {
        return false;
      }
      count := count + 1;
      var good := Acceptable(A, W);
      if good {
        return true;
      }
    }
  }

  lemma SearchStep(data: nat -> Limb, pos: nat, n: nat, k: nat, w: int, count: nat)
    requires count <= 31
    ensures Search(data, pos, n, k, w, count) ==
            if count > 30 then (pos + n, false)
            else if Usable(Candidate(data, pos, n, k), w) then (pos + n, true)
            else Search(data, pos + n, n, k, w, count + 1)
  {
    hide Usable, Candidate;
  }

  method Acceptable(A: Mpi, W: Mpi) returns (good: bool)
    requires A.s == 1 && W.Valid()
    ensures good == Usable(A.p, W.Val()) && (good ==> 1 < A.Val() < W.Val())
  {
    hide Value, Mpi.Val, Mpi.Abs;
    OneIsSigned();
    PositiveVal(A);
    var below := CmpMpi(A, W);
    var above := CmpInt(A, 1);
    good := !(below >= 0 || above <= 0);
  }

  lemma BitsNeedLimbs(A: Mpi, j: nat)
    requires IsBitLength(A.Abs(), j)
    ensures |A.p| == 0 ==> j == 0
  {
    NonzeroHasLimbs(A.p);
    assert j > 0 ==> Pow2(j - 1) >= 1;
  }

  // ----- One round

  lemma {:induction false} OnesStay(x: int, a: int, r: nat, j: nat, i: nat)
    requires x > 1 && Squared(x, a, r, j) == 1 && j <= i
    ensures Squared(x, a, r, i) == 1
    decreases i
  {
    if i > j {
      OnesStay(x, a, r, j, i - 1);
      ModSmall(1, x);
    }
  }

  ghost predicate Reaches(x: int, a: int, r: nat, s: nat)
    requires x > 0
  {
    exists i: nat :: i < s && Squared(x, a, r, i) == x - 1
  }

  ghost predicate NotBefore(x: int, a: int, r: nat, j: nat)
    requires x > 0
  {
    forall i: nat :: i < j ==> Squared(x, a, r, i) != x - 1
  }

  lemma BreakOne(x: int, a: int, r: nat, j: nat, s: nat)
    requires x > 2 && Squared(x, a, r, j) == 1 && NotBefore(x, a, r, j)
    ensures !Reaches(x, a, r, s)
  {
    forall i: nat | j <= i
      ensures Squared(x, a, r, i) == 1
    {
      OnesStay(x, a, r, j, i);
    }
  }

  lemma NextBefore(x: int, a: int, r: nat, j: nat)
    requires x > 0 && NotBefore(x, a, r, j) && Squared(x, a, r, j) != x - 1
    ensures NotBefore(x, a, r, j + 1)
  {
  }

  lemma LoopEnd(x: int, a: int, r: nat, j: nat, s: nat)
    requires x > 0 && j < s && NotBefore(x, a, r, j) && (j + 1 == s || Squared(x, a, r, j) == x - 1)
    ensures Squared(x, a, r, j) == x - 1 <==> Reaches(x, a, r, s)
  {
  }

  // Square up to s - 1 times, looking for X - 1
  method Squarings(A: Mpi, W: Mpi, X: Mpi, s: nat, ghost a: int, ghost r: nat) returns (pass: bool)
    requires A.Valid() && W.Valid() && X.Valid() && A != W && A != X && X.Val() > 2 && W.Val() == X.Val() - 1 && s > 0
    requires A.Val() == Squared(X.Val(), a, r, 0) && A.Val() != 1
    modifies A
    ensures A.Valid() && pass == Reaches(X.Val(), a, r, s)
  {
    hide Value, Mpi.Val, Mpi.Abs, Reaches, NotBefore;
    OneIsSigned();
    ghost var x := X.Val();
    var T := new Mpi();
    var j: nat := 1;
    var atW := CmpMpi(A, W);
    assert NotBefore(x, a, r, 0) by { NothingBefore(x, a, r); }
    while j < s && atW != 0
      invariant A.Valid() && T.Valid() && 1 <= j <= s && A.Val() == Squared(x, a, r, j - 1) && A.Val() != 1
      invariant NotBefore(x, a, r, j - 1) && atW == Sign(A.Val() - W.Val())
      decreases s - j
    {
      NextBefore(x, a, r, j - 1);
      MulMpi(T, A, A);
      var ret := ModMpi(A, T, X);
      var one := CmpInt(A, 1);
      if one == 0 {
        BreakOne(x, a, r, j, s);
        break;
      }
      j := j + 1;
      atW := CmpMpi(A, W);
    }
    atW := CmpMpi(A, W);
    var isOne := CmpInt(A, 1);
    if isOne != 0 {
      LoopEnd(x, a, r, j - 1, s);
    }
    pass := !(atW != 0 || isOne == 0);
  }

  lemma NothingBefore(x: int, a: int, r: nat)
    requires x > 0
    ensures NotBefore(x, a, r, 0)
  {
  }

  datatype Verdict = ProbablyPrime | Composite | RetryLimit | Failed(status: Status)

  lemma StrongCases(x: int, a: int, r: nat, s: nat)
    requires x > 0
    ensures StrongBase(x, a, r, s) <==> Squared(x, a, r, 0) == 1 || Reaches(x, a, r, s)
    ensures s > 0 && Squared(x, a, r, 0) == x - 1 ==> Reaches(x, a, r, s)
  {
  }

  // The outcome of a round with the base in A
  method Round(A: Mpi, R: Mpi, W: Mpi, X: Mpi, RR: Mpi, s: nat) returns (ret: Status, pass: bool)
    requires A.s == 1 && R.Valid() && W.Valid() && X.Valid() && RR.Valid()
    requires A !in {R, W, X, RR} && RR !in {R, W, X} && X.Val() > 2 && W.Val() == X.Val() - 1
    requires R.Val() > 0 && W.Val() == R.Val() * Pow2(s) && R.Val() % 2 == 1 && RadixCached(RR, X)
    modifies A, RR
    ensures A.Valid() && RR.Valid() && RadixCached(RR, X)
    ensures ret == if ExpModArgs(X.Val(), R.Val(), Bits(R), Bits(X)) then Ok else BadInput
    ensures ret.Ok? ==> pass == StrongBase(X.Val(), old(A.Val()), R.Val(), s)
  {
    hide Value, Mpi.Val, Mpi.Abs, Reaches, StrongBase, RadixCached, Bits, Pow2, Pow;
    ghost var x, a, r := X.Val(), A.Val(), R.Val();
    pass := false;
    OneIsSigned();
    PositiveVal(A);
    ret := ExpModMpi(A, A, R, false, X, RR);
    if ret != Ok {
      return;
    }
    OddHasTwos(x, r, s);
    ValueNonNegative(R);
    NonzeroHasLimbs(R.p);
    StrongCases(x, a, r, s);
    var atW := CmpMpi(A, W);
    var one := CmpInt(A, 1);
    if atW == 0 || one == 0 {
      return ret, true;
    }
    pass := Squarings(A, W, X, s, a, r);
  }

  lemma OddHasTwos(x: int, r: int, s: nat)
    requires x % 2 == 1 && x - 1 == r * Pow2(s) && r % 2 == 1
    ensures s > 0
  {
    assert s == 0 ==> Pow2(s) == 1;
  }

  // ----- The rounds

  // x - 1 = r * 2^s with r odd
  ghost predicate Decomposed(x: int, r: int, s: nat)
  {
    r >= 0 && x - 1 == r * Pow2(s) && (x > 1 ==> r % 2 == 1)
  }

  // Every base is in range and passes
  ghost predicate AllPass(x: int, bases: seq<int>, r: nat, s: nat)
    requires x > 0
  {
    forall k :: 0 <= k < |bases| ==> 1 < bases[k] < x - 1 && StrongBase(x, bases[k], r, s)
  }

  method Prepare(W: Mpi, R: Mpi, X: Mpi) returns (s: nat)
    requires W.Valid() && R.Valid() && X.Valid() && W != R && W != X && R != X && X.Val() > 0
    modifies W, R
    ensures W.Valid() && R.Valid() && W.Val() == X.Val() - 1 && Decomposed(X.Val(), R.Val(), s)
  {
    hide Value, Mpi.Val, Mpi.Abs, IsLsb, Pow2, Decomposed;
    OneIsSigned();
    SubIntMpi(W, X, 1);
    s := Lsb(W);
    AbsOfNonNegative(W);
    Copy(R, W);
    ShiftR(R, s);
    NonNegativeShift(R, W, s);
    Decompose(X.Val(), s);
  }

  lemma Decompose(x: int, s: nat)
    requires x > 0 && IsLsb(x - 1, s)
    ensures Decomposed(x, (x - 1) / Pow2(s), s)
  {
    hide Pow2;
    DivModBasics(x - 1, Pow2(s));
    if x == 1 {
      ModSmall(0, Pow2(s));
    }
  }

  lemma NonNegativeShift(R: Mpi, W: Mpi, s: nat)
    requires R.Valid() && W.Valid() && R.Abs() == W.Abs() / Pow2(s) && W.Val() >= 0
    requires W.Abs() != 0 ==> R.s == W.s
    ensures R.Val() == W.Val() / Pow2(s)
  {
    hide Value, Pow2;
    ModSmall(0, Pow2(s));
  }

  // The base a search leads to
  ghost function Base(data: nat -> Limb, pos: nat, n: nat, k: nat, w: int): (a: int)
  {
    Value(Candidate(data, Search(data, pos, n, k, w, 0).0 - n, n, k))
  }

  // The verdict of the rounds over a tape
  ghost function Run(data: nat -> Limb, pos: nat, n: nat, k: nat, x: int, r: nat, s: nat, fits: bool,
                     rounds: nat): Verdict
    requires x > 0
    decreases rounds
  {
    if rounds == 0 then ProbablyPrime
    else
      var (next, found) := Search(data, pos, n, k, x - 1, 0);
      if !found then RetryLimit
      else if !fits then Failed(BadInput)
      else if !StrongBase(x, Base(data, pos, n, k, x - 1), r, s) then Composite
      else Run(data, next, n, k, x, r, s, fits, rounds - 1)
  }

  // The bases a run that finds nothing wrong goes through
  lemma {:induction false} RunPasses(data: nat -> Limb, pos: nat, n: nat, k: nat, x: int, r: nat, s: nat, fits: bool,
                                     rounds: nat)
      returns (bases: seq<int>)
    requires x > 0 && Run(data, pos, n, k, x, r, s, fits, rounds).ProbablyPrime?
    ensures |bases| == rounds && AllPass(x, bases, r, s)
    decreases rounds
  {
    hide StrongBase, AllPass, Candidate, Value, Search;
    bases := [];
    if rounds == 0 {
      NonePass(x, r, s);
    } else {
      SearchFinds(data, pos, n, k, x - 1, 0);
      var next := Search(data, pos, n, k, x - 1, 0).0;
      var rest := RunPasses(data, next, n, k, x, r, s, fits, rounds - 1);
      var a := Base(data, pos, n, k, x - 1);
      bases := [a] + rest;
      OneMore(x, a, rest, r, s);
    }
  }

  // A run that finds a prime composite does not exist
  lemma {:induction false} RunCondemns(data: nat -> Limb, pos: nat, n: nat, k: nat, x: int, r: nat, s: nat,
                                       fits: bool, rounds: nat)
    requires x > 0 && Decomposed(x, r, s) && Run(data, pos, n, k, x, r, s, fits, rounds).Composite?
    ensures !IsPrime(x)
    decreases rounds
  {
    hide StrongBase, Decomposed, Candidate, Value, Search, IsPrime;
    SearchFinds(data, pos, n, k, x - 1, 0);
    var (next, found) := Search(data, pos, n, k, x - 1, 0);
    var a := Base(data, pos, n, k, x - 1);
    if StrongBase(x, a, r, s) {
      RunCondemns(data, next, n, k, x, r, s, fits, rounds - 1);
    } else {
      CondemnedIsComposite(x, a, r, s);
    }
  }

  // On a tape with usable draws only, a run never calls a prime anything but prime
  lemma {:induction false} PrimeRun(data: nat -> Limb, pos: nat, n: nat, k: nat, x: int, r: nat, s: nat, rounds: nat)
    requires IsPrime(x) && Decomposed(x, r, s) && n > 0 && 0 < k - (n - 1) * BITS <= BITS
    requires k > 0 && UsableDraws(data, pos, n, k, x)
    ensures Run(data, pos, n, k, x, r, s, true, rounds) == ProbablyPrime
    decreases rounds
  {
    hide StrongBase, Decomposed, Candidate, Value, Search, IsPrime, UsableDraws, Usable, Pow2, Draw;
    PrimeLarge(x);
    if rounds > 0 {
      UsableDrawsFirst(data, pos, n, k, x);
      CandidateReduced(data, pos, n, k);
      assert Usable(Candidate(data, pos, n, k), x - 1) by { UsableMeans(Candidate(data, pos, n, k), x - 1); }
      SearchStep(data, pos, n, k, x - 1, 0);
      var a := Base(data, pos, n, k, x - 1);
      if !StrongBase(x, a, r, s) {
        CondemnedIsComposite(x, a, r, s);
      }
      UsableDrawsRest(data, pos, n, k, x, pos + n);
      PrimeRun(data, pos + n, n, k, x, r, s, rounds - 1);
    }
  }

  lemma UsableMeans(p: seq<Limb>, w: int)
    ensures Usable(p, w) <==> 1 < Value(p) < w
  {
  }

  // x - 1 = r * 2^s, and the verdict of the rounds over the tape
  method Rounds(X: Mpi, rounds: nat, rng: Tape) returns (v: Verdict, ghost r: nat, ghost s: nat)
    requires X.s == 1 && X.Val() > 0
    modifies rng`pos
    ensures Decomposed(X.Val(), r, s)
    ensures v == Run(rng.data, old(rng.pos), |X.p|, Gcd.Digits(X.Val() - 1), X.Val(), r, s, Fits(X), rounds)
  {
    hide Value, Mpi.Val, Mpi.Abs, Pow2, Decomposed, StrongBase, RadixCached, Bits, Run, Search, Candidate;
    hide Gcd.Digits, Fits;
    var W := new Mpi();
    var R := new Mpi();
    var A := new Mpi();
    var RR := new Mpi();
    ghost var x, n, pos := X.Val(), |X.p|, rng.pos;
    var twos := Prepare(W, R, X);
    DecomposedFacts(x, R.Val(), twos);
    AbsOfNonNegative(W);
    r, s := R.Val(), twos;
    EmptyCache(RR, X);
    ghost var k, fits := Gcd.Digits(x - 1), Fits(X);
    var i := 0;
    while i < rounds
      invariant A.Valid() && RR.Valid() && RadixCached(RR, X) && 0 <= i <= rounds
      invariant Run(rng.data, pos, n, k, x, r, s, fits, rounds)
                == Run(rng.data, rng.pos, n, k, x, r, s, fits, rounds - i)
      modifies A, RR, rng`pos
    {
      RunStep(rng.data, rng.pos, n, k, x, r, s, fits, rounds - i);
      v := DrawAndTest(A, R, W, X, RR, twos, rng);
      if v != ProbablyPrime {
        return v, r, s;
      }
      i := i + 1;
    }
    RunStart(rng.data, rng.pos, n, k, x, r, s, fits);
    return ProbablyPrime, r, s;
  }

  // The body of the loop over the rounds: a run of one round
  method DrawAndTest(A: Mpi, R: Mpi, W: Mpi, X: Mpi, RR: Mpi, s: nat, rng: Tape) returns (v: Verdict)
    requires A.Valid() && R.Valid() && W.Valid() && X.Valid() && RR.Valid() && X.Val() > 0
    requires A !in {R, W, X, RR} && RR !in {R, W, X} && W.Val() == X.Val() - 1
    requires Decomposed(X.Val(), R.Val(), s) && R.Val() >= 0 && RadixCached(RR, X)
    modifies A, RR, rng`pos
    ensures A.Valid() && RR.Valid() && RadixCached(RR, X)
    ensures rng.pos == Search(rng.data, old(rng.pos), |X.p|, Gcd.Digits(X.Val() - 1), X.Val() - 1, 0).0
    ensures v == Run(rng.data, old(rng.pos), |X.p|, Gcd.Digits(X.Val() - 1), X.Val(), R.Val(), s, Fits(X), 1)
  {
    hide Value, Mpi.Val, Mpi.Abs, Pow2, Decomposed, StrongBase, RadixCached, Bits, Run, Search, Candidate;
    hide Gcd.Digits, Fits, ExpModArgs;
    ghost var x, n, k := X.Val(), |X.p|, Gcd.Digits(X.Val() - 1);
    AbsOfNonNegative(W);
    RunOne(rng.data, rng.pos, n, k, x, R.Val(), s, Fits(X));
    RoundArgs(R, X, s);
    DecomposedFacts(x, R.Val(), s);
    var ok := DrawBase(A, W, |X.p|, rng);
    if !ok {
      return RetryLimit;
    }
    PositiveVal(A);
    var ret, pass := Round(A, R, W, X, RR, s);
    if ret != Ok {
      return Failed(ret);
    }
    return if pass then ProbablyPrime else Composite;
  }

  // What exponentiation demands of the modulus
  ghost predicate Fits(X: Mpi)
    requires X.Valid()
    reads X
  {
    X.Val() % 2 == 1 && Bits(X) <= MAX_BITS
  }

  lemma RoundArgs(R: Mpi, X: Mpi, s: nat)
    requires R.Valid() && X.Valid() && X.Val() > 0 && Decomposed(X.Val(), R.Val(), s)
    ensures ExpModArgs(X.Val(), R.Val(), Bits(R), Bits(X)) <==> Fits(X)
  {
    hide Bits, Mpi.Val, Mpi.Abs;
    Factor(X.Val(), R.Val(), s);
    SmallerBits(R, X);
  }

  lemma RunStart(data: nat -> Limb, pos: nat, n: nat, k: nat, x: int, r: nat, s: nat, fits: bool)
    requires x > 0
    ensures Run(data, pos, n, k, x, r, s, fits, 0) == ProbablyPrime
  {
  }

  lemma RunOne(data: nat -> Limb, pos: nat, n: nat, k: nat, x: int, r: nat, s: nat, fits: bool)
    requires x > 0
    ensures Run(data, pos, n, k, x, r, s, fits, 1) ==
            if !Search(data, pos, n, k, x - 1, 0).1 then RetryLimit
            else if !fits then Failed(BadInput)
            else if StrongBase(x, Base(data, pos, n, k, x - 1), r, s) then ProbablyPrime else Composite
  {
    hide Search, StrongBase, Candidate, Value;
  }

  // A run is a round and, unless that settles it, the rest of the run
  lemma RunStep(data: nat -> Limb, pos: nat, n: nat, k: nat, x: int, r: nat, s: nat, fits: bool, rounds: nat)
    requires x > 0 && rounds > 0
    ensures Run(data, pos, n, k, x, r, s, fits, rounds) ==
            var first := Run(data, pos, n, k, x, r, s, fits, 1);
            if first.ProbablyPrime?
            then Run(data, Search(data, pos, n, k, x - 1, 0).0, n, k, x, r, s, fits, rounds - 1)
            else first
  {
    hide Search, StrongBase, Candidate, Value;
  }

  lemma DecomposedFacts(x: int, r: int, s: nat)
    requires Decomposed(x, r, s)
    ensures r >= 0 && x - 1 == r * Pow2(s) && (x > 2 ==> r > 0 && r % 2 == 1)
  {
  }

  lemma EmptyCache(P: Mpi, N: Mpi)
    requires P.p == [] && N.Val() > 0
    ensures RadixCached(P, N)
  {
  }

  lemma NonePass(x: int, r: nat, s: nat)
    requires x > 0
    ensures AllPass(x, [], r, s)
  {
  }

  lemma OneMore(x: int, a: int, rest: seq<int>, r: nat, s: nat)
    requires x > 0 && AllPass(x, rest, r, s) && 1 < a < x - 1 && StrongBase(x, a, r, s)
    ensures AllPass(x, [a] + rest, r, s)
  {
    hide StrongBase;
  }

  lemma {:induction false} SmallerBits(R: Mpi, X: Mpi)
    requires R.Valid() && X.Valid() && 0 <= R.Val() <= X.Val()
    ensures Bits(R) <= Bits(X)
  {
    hide Value, Bits;
    AbsOfNonNegative(R);
    AbsOfNonNegative(X);
    if Bits(R) > Bits(X) {
      Pow2Mono(Bits(X), Bits(R) - 1);
    }
  }

  lemma Factor(x: int, r: int, s: nat)
    requires x > 0 && Decomposed(x, r, s)
    ensures r <= x
  {
    MulLe(r, r, 1, Pow2(s));
  }

  // A base in range that fails shows that x is composite
  lemma {:induction false} CondemnedIsComposite(x: int, a: int, r: nat, s: nat)
    requires 1 < a < x - 1 && Decomposed(x, r, s) && !StrongBase(x, a, r, s)
    ensures !IsPrime(x)
  {
    hide IsPrime, StrongBase;
    if IsPrime(x) {
      if Divides(x, a) {
        DividesLe(x, a);
      }
      PrimeIsStrong(x, a, r, s);
    }
  }

  // ----- The test

  // Trial division leaves x to the rounds
  ghost predicate Undecided(x: int)
  {
    x > 1 && x % 2 == 1 && NoEarlier(x, GAP_COUNT)
  }

  // The verdict over a tape on a number trial division does not decide
  ghost predicate RunVerdict(v: Verdict, data: nat -> Limb, pos: nat, n: nat, x: int, fits: bool, rounds: nat)
    requires x > 0
  {
    exists r: nat, s: nat :: Decomposed(x, r, s) && v == Run(data, pos, n, Gcd.Digits(x - 1), x, r, s, fits, rounds)
  }

  // Pseudo-primality of |X|. NOT_ACCEPTABLE stands for both Composite and RetryLimit.
  method IsPrimeExt(X: Mpi, rounds: nat, rng: Tape) returns (v: Verdict)
    requires X.Valid()
    modifies rng`pos
    ensures !Undecided(X.Abs()) ==> v == if IsPrime(X.Abs()) then ProbablyPrime else Composite
    ensures Undecided(X.Abs()) ==> RunVerdict(v, rng.data, old(rng.pos), |X.p|, X.Abs(), Bits(X) <= MAX_BITS, rounds)
    ensures v.Composite? ==> !IsPrime(X.Abs())
    ensures IsPrime(X.Abs()) && Bits(X) <= MAX_BITS && |X.p| > 0 && X.p[|X.p| - 1] != 0 ==>
              var k := Gcd.Digits(X.Abs() - 1);
              k > 0 && UsableDraws(rng.data, old(rng.pos), |X.p|, k, X.Abs()) ==> v == ProbablyPrime
  {
    hide Value, Mpi.Abs, Mpi.Val, IsPrime, Bits, Decomposed, NoEarlier, Run, Gcd.Digits;
    var XX := new Mpi();
    XX.s, XX.p := 1, X.p;
    SameMagnitude(XX, X);
    ghost var x := X.Abs();
    TwoIsSigned();
    OneIsSigned();
    ZeroIsSigned();
    var zero := CmpInt(XX, 0);
    var one := CmpInt(XX, 1);
    if zero == 0 || one == 0 {
      SmallNotPrime(x);
      return Composite;
    }
    var two := CmpInt(XX, 2);
    if two == 0 {
      TwoIsPrime();
      return ProbablyPrime;
    }
    NonzeroHasLimbs(XX.p);
    var t := CheckSmallFactors(XX);
    if t.CertainPrime? {
      return ProbablyPrime;
    }
    if t.NotPrime? {
      return Composite;
    }
    SameBits(XX, X);
    ghost var r, s, pos := 0, 0, rng.pos;
    v, r, s := Rounds(XX, rounds, rng);
    if v.Composite? {
      RunCondemns(rng.data, pos, |X.p|, Gcd.Digits(x - 1), x, r, s, Bits(X) <= MAX_BITS, rounds);
    }
    ghost var k := Gcd.Digits(x - 1);
    if IsPrime(x) && Bits(X) <= MAX_BITS && X.p[|X.p| - 1] != 0 && k > 0 && UsableDraws(rng.data, pos, |X.p|, k, x) {
      TopLimbBits(X.p, x);
      PrimeRun(rng.data, pos, |X.p|, k, x, r, s, rounds);
    }
  }

  // An odd number without leading zero limb: the bit length of its predecessor
  lemma {:induction false} TopLimbBits(p: seq<Limb>, x: int)
    requires |p| > 0 && p[|p| - 1] != 0 && x == Value(p) && x % 2 == 1 && x > 1
    ensures 0 < Gcd.Digits(x - 1) - (|p| - 1) * BITS <= BITS
  {
    hide Value, Place, Pow2, Gcd.Digits;
    var n := |p| - 1;
    assert p == p[..n + 1] && p[..|p|] == p;
    ValueNext(p, n);
    ValueBound(p);
    ValueBound(p[..n]);
    PlaceIsPow2(n);
    PlaceIsPow2(n + 1);
    MulLe(Place(n), Place(n), 1, p[n]);
    MulDistrib(BITS, n, 1);
    if n > 0 {
      PlaceEven(n);
    } else {
      assert Place(0) == 1 by { PlaceZero(); }
    }
    DigitsAbove(x - 1, BITS * n);
    DigitsAbove(x - 1, BITS * (n + 1));
  }

  lemma PlaceZero()
    ensures Place(0) == 1
  {
  }

  lemma PlaceEven(n: nat)
    requires n > 0
    ensures Place(n) % 2 == 0
  {
    hide Place;
    PlaceIsPow2(n);
    MulLe(1, BITS, 1, n);
    Pow2Even(BITS * n);
  }

  lemma Pow2Even(e: nat)
    requires e > 0
    ensures Pow2(e) % 2 == 0
  {
  }

  // A composite number is called prime only when every one of the rounds drew a base it passes
  lemma {:induction false} PassedAllRounds(data: nat -> Limb, pos: nat, n: nat, x: int, fits: bool, rounds: nat)
    requires x > 0 && RunVerdict(ProbablyPrime, data, pos, n, x, fits, rounds)
    ensures exists bases: seq<int>, r: nat, s: nat ::
              |bases| == rounds && Decomposed(x, r, s) && AllPass(x, bases, r, s)
  {
    hide Decomposed, AllPass, Run, Gcd.Digits;
    var r: nat, s: nat :| Decomposed(x, r, s) &&
                          ProbablyPrime == Run(data, pos, n, Gcd.Digits(x - 1), x, r, s, fits, rounds);
    var bases := RunPasses(data, pos, n, Gcd.Digits(x - 1), x, r, s, fits, rounds);
  }

  lemma SameMagnitude(X: Mpi, Y: Mpi)
    requires X.s == 1 && X.p == Y.p
    ensures X.Valid() && X.Val() == X.Abs() == Value(X.p) == Y.Abs()
  {
  }

  lemma SameBits(X: Mpi, Y: Mpi)
    requires X.p == Y.p
    ensures Bits(X) == Bits(Y)
  {
    hide Value;
    BitLengthUnique(X.Abs(), Bits(X), Bits(Y));
  }

  lemma TwoIsSigned()
    ensures SignedLimb(2)
  {
    Pow2Mono(2, BITS - 1);
    assert Pow2(2) == 4;
  }

  lemma SmallNotPrime(x: int)
    requires x <= 1
    ensures !IsPrime(x)
  {
  }
}
