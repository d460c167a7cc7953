/**
 Reduction modulo a small integer and trial division by the primes up to 997 (bignum.c).
 */
module SmallFactors {
  import opened Arith
  import opened Limbs
  import opened NumberTheory
  import opened ExpMod
  import opened Bignum
  import opened ModExp
  import opened Gcd

  // ----- mod_int

  // (y << biH) | h, reduced: the shift drops what leaves the limb
  function HalfStep(y: int, h: int, b: int): int
    requires b > 0
  {
    (y * HALF % BETA + h) % b
  }

  // The residue as the loop computes it, two half limbs at a time from the top
  function Residue(p: seq<Limb>, b: int): int
    requires b > 0
  {
    if |p| == 0 then 0
    else HalfStep(HalfStep(Residue(p[1..], b), p[0] / HALF, b), p[0] % HALF, b)
  }

  function ModIntValue(s: int, p: seq<Limb>, b: int): int
    requires b > 0
  {
    var y := Residue(p, b);
    if s < 0 && y != 0 then b - y else y
  }

  // The moduli the half-limb step is exact for
  predicate SmallModulus(b: int)
    requires b > 0
  {
    b <= HALF || BETA % b == 0
  }

  lemma {:induction false} HalfStepExact(y: int, v: int, h: int, b: int)
    requires b > 0 && SmallModulus(b) && 0 <= y < b && Cong(y, v, b)
    ensures Cong(HalfStep(y, h, b), v * HALF + h, b)
  {
    hide BETA, HALF;
    BaseLarge();
    BaseSplits();
    var w := y * HALF % BETA;
    DivModBasics(y * HALF, BETA);
    assert Cong(w, y * HALF, b) by {
      if b <= HALF {
        MulLt(y, HALF, HALF);
        MulLe(0, y, 0, HALF);
        ModSmall(y * HALF, BETA);
      } else {
        DivModBasics(BETA, b);
        var k, q := BETA / b, y * HALF / BETA;
        MulAssoc(q, k, b);
        CongFromMultiple(y * HALF, w, q * k, b);
      }
    }
    CongMul(y, v, HALF, HALF, b);
    CongTrans(w, y * HALF, v * HALF, b);
    CongAdd(w, v * HALF, h, h, b);
    CongMod(w + h, b);
    CongTrans(HalfStep(y, h, b), w + h, v * HALF + h, b);
  }

  lemma {:induction false} ResidueExact(p: seq<Limb>, b: int)
    requires b > 0 && SmallModulus(b)
    ensures Residue(p, b) == Value(p) % b
    decreases |p|
  {
    if |p| == 0 {
      ModSmall(0, b);
    } else {
      hide SmallModulus, HalfStep;
      ResidueExact(p[1..], b);
      var v, x := Value(p[1..]), p[0];
      TwoHalfSteps(Residue(p[1..], b), v, x, b);
      BaseSplits();
      DivModBasics(x, HALF);
      MulDistrib(HALF, v * HALF, x / HALF);
      MulAssoc(v, HALF, HALF);
    }
  }

  lemma {:induction false} TwoHalfSteps(y: int, v: int, x: Limb, b: int)
    requires b > 0 && SmallModulus(b) && y == v % b
    ensures HalfStep(HalfStep(y, x / HALF, b), x % HALF, b) == ((v * HALF + x / HALF) * HALF + x % HALF) % b
  {
    hide SmallModulus, BETA, HALF;
    BaseLarge();
    DivModBasics(v, b);
    CongMod(v, b);
    HalfStepExact(y, v, x / HALF, b);
    var z := HalfStep(y, x / HALF, b);
    DivModBasics(y * HALF % BETA + x / HALF, b);
    HalfStepExact(z, v * HALF + x / HALF, x % HALF, b);
    var w := (v * HALF + x / HALF) * HALF + x % HALF;
    DivModBasics(z * HALF % BETA + x % HALF, b);
    ModSmall(HalfStep(z, x % HALF, b), b);
  }

  lemma {:induction false} ModIntRight(s: int, p: seq<Limb>, b: int)
    requires b > 0 && SmallModulus(b) && (s == 1 || s == -1)
    ensures ModIntValue(s, p, b) == s * Value(p) % b
  {
    hide SmallModulus, Value, Residue;
    ResidueExact(p, b);
    DivModBasics(Value(p), b);
    NegatedResidue(Value(p), b);
    assert -1 * Value(p) == 0 - Value(p) && 1 * Value(p) == Value(p);
  }

  // A divisor of a power of two is one
  lemma {:induction false} DivisorOfPow2(b: int, k: nat) returns (i: nat)
    requires b > 0 && Divides(b, Pow2(k))
    ensures i <= k && b == Pow2(i)
    decreases k
  {
    if k == 0 {
      DividesLe(b, 1);
      i := 0;
    } else if b % 2 == 1 {
      OddDivisor(b, Pow2(k - 1), b) by { DividesMultiple(b, 1); }
      i := DivisorOfPow2(b, k - 1);
    } else {
      var c := b / 2;
      HalfDivides(c, Pow2(k - 1));
      i := DivisorOfPow2(c, k - 1);
      i := i + 1;
    }
  }

  lemma HalfDivides(c: int, x: int)
    requires Divides(2 * c, 2 * x)
    ensures Divides(c, x)
  {
    var k :| 2 * x == 2 * c * k;
    MulAssoc(2, c, k);
    assert x == c * k;
  }

  lemma {:induction false} NotDividing(b: int)
    requires 0 < b <= BETA && BETA % b != 0
    ensures HALF * BETA % b != 0
  {
    if HALF * BETA % b == 0 {
      DividesMod(b, HALF * BETA);
      Pow2Add(HALF_BITS, BITS);
      var i := DivisorOfPow2(b, HALF_BITS + BITS);
      if i > BITS {
        Pow2Mono(BITS + 1, i);
      }
      Pow2Add(i, BITS - i);
      DividesMultiple(b, Pow2(BITS - i));
      DividesMod(b, BETA);
    }
  }

  // Beyond them the number HALF * BETA goes wrong
  lemma {:induction false} ModIntWrong(b: int)
    requires 0 < b < BETA && !SmallModulus(b)
    ensures HALF < BETA && ModIntValue(1, [0, HALF], b) == 0 && Value([0, HALF]) % b != 0
  {
    BaseLarge();
    BaseSplits();
    hide BETA, HALF;
    NotDividing(b);
    var top: seq<Limb> := [HALF];
    var all: seq<Limb> := [0, HALF];
    assert all[1..] == top && top[1..] == [];
    ValueSingle(HALF);
    assert Value(all) == 0 + BETA * HALF;
    TopHalves(b);
    assert Residue(top, b) == HALF;
    ModSmall(0, b);
    ModSmall(0, BETA);
    DivModUnique(BETA, BETA, 1, 0);
    ModSmall(0, HALF);
  }

  lemma TopHalves(b: int)
    requires HALF < b
    ensures HalfStep(HalfStep(0, HALF / HALF, b), HALF % HALF, b) == HALF
  {
    BaseLarge();
    hide BETA, HALF;
    DivModUnique(HALF, HALF, 1, 0);
    ModSmall(0, BETA);
    ModSmall(1, b);
    ModSmall(HALF, BETA);
    ModSmall(HALF, b);
  }

  ghost predicate ExactModulus(b: int)
    requires b > 0
  {
    forall s: int, p: seq<Limb> :: s == 1 || s == -1 ==> ModIntValue(s, p, b) == s * Value(p) % b
  }

  // mod_int is right for every number exactly when the modulus is small
  lemma {:induction false} ModIntExact(b: int)
    requires 0 < b < BETA
    ensures ExactModulus(b) <==> SmallModulus(b)
  {
    hide SmallModulus, ModIntValue, Value;
    if SmallModulus(b) {
      forall s: int, p: seq<Limb> | s == 1 || s == -1
        ensures ModIntValue(s, p, b) == s * Value(p) % b
      {
        ModIntRight(s, p, b);
      }
    } else {
      ModIntWrong(b);
      var p: seq<Limb> := [0, HALF];
      assert ModIntValue(1, p, b) != 1 * Value(p) % b;
    }
  }

  method ModInt(A: Mpi, b: int) returns (ret: Status, r: int)
    requires A.Valid() && SignedLimb(b)
    ensures ret == if b == 0 then DivisionByZero else if b < 0 then NegativeValue else Ok
    ensures ret.Ok? ==> r == ModIntValue(A.s, A.p, b)
  {
    hide Value, Residue, SmallModulus;
    r := 0;
    if b == 0 { return DivisionByZero, 0; }
    if b < 0 { return NegativeValue, 0; }
    if b == 1 || |A.p| == 0 {
      TrivialModulus(A, b);
      return Ok, 0;
    }
    if b == 2 {
      Parity(A);
      return Ok, A.p[0] % 2;
    }
    var i: nat, y := |A.p|, 0;
    EmptyResidue(A.p[i..], b);
    while i > 0
      invariant i <= |A.p| && y == Residue(A.p[i..], b)
    {
      i := i - 1;
      ResidueNext(A.p, i, b);
      y := HalfStep(HalfStep(y, A.p[i] / HALF, b), A.p[i] % HALF, b);
    }
    assert A.p[0..] == A.p;
    if A.s < 0 && y != 0 {
      y := b - y;
    }
    return Ok, y;
  }

  lemma EmptyResidue(p: seq<Limb>, b: int)
    requires b > 0 && |p| == 0
    ensures Residue(p, b) == 0
  {
  }

  lemma ResidueNext(p: seq<Limb>, i: nat, b: int)
    requires b > 0 && i < |p|
    ensures Residue(p[i..], b) == HalfStep(HalfStep(Residue(p[i + 1..], b), p[i] / HALF, b), p[i] % HALF, b)
  {
    hide HalfStep;
    assert p[i..][1..] == p[i + 1..];
  }

  lemma TrivialModulus(A: Mpi, b: int)
    requires b > 0 && (b == 1 || |A.p| == 0)
    ensures ModIntValue(A.s, A.p, b) == 0
  {
    hide HalfStep;
    if |A.p| > 0 {
      OneStep(A.p);
    }
  }

  lemma OneStep(p: seq<Limb>)
    ensures Residue(p, 1) == 0
  {
  }

  lemma {:induction false} Parity(A: Mpi)
    requires A.Valid() && |A.p| > 0
    ensures ModIntValue(A.s, A.p, 2) == A.p[0] % 2
  {
    hide Value, Residue;
    BaseLarge();
    ResidueExact(A.p, 2);
    ValueParity(A.p);
  }

  // ----- Trial division

  const GAP_COUNT := 167

  // The gaps between the primes from 3 to 997, eight to a row
  function Gaps(r: nat): seq<nat>
  {
    match r
    case 0 => [2, 2, 4, 2, 4, 2, 4, 6]
    case 1 => [2, 6, 4, 2, 4, 6, 6, 2]
    case 2 => [6, 4, 2, 6, 4, 6, 8, 4]
    case 3 => [2, 4, 2, 4, 14, 4, 6, 2]
    case 4 => [10, 2, 6, 6, 4, 6, 6, 2]
    case 5 => [10, 2, 4, 2, 12, 12, 4, 2]
    case 6 => [4, 6, 2, 10, 6, 6, 6, 2]
    case 7 => [6, 4, 2, 10, 14, 4, 2, 4]
    case 8 => [14, 6, 10, 2, 4, 6, 8, 6]
    case 9 => [6, 4, 6, 8, 4, 8, 10, 2]
    case 10 => [10, 2, 6, 4, 6, 8, 4, 2]
    case 11 => [4, 12, 8, 4, 8, 4, 6, 12]
    case 12 => [2, 18, 6, 10, 6, 6, 2, 6]
    case 13 => [10, 6, 6, 2, 6, 6, 4, 2]
    case 14 => [12, 10, 2, 4, 6, 6, 2, 12]
    case 15 => [4, 6, 8, 10, 8, 10, 8, 6]
    case 16 => [6, 4, 8, 6, 4, 8, 4, 14]
    case 17 => [10, 12, 2, 10, 2, 4, 2, 10]
    case 18 => [14, 4, 2, 4, 14, 4, 2, 4]
    case 19 => [20, 4, 8, 10, 8, 4, 6, 6]
    case 20 => [14, 4, 6, 6, 8, 6, 0]
    case _ => []
  }

  function Gap(i: nat): nat
  {
    if i % 8 < |Gaps(i / 8)| then Gaps(i / 8)[i % 8] else 0
  }

  // The trial divisor number i
  function Trial(i: nat): nat
    requires i < GAP_COUNT
  {
    if i == 0 then 3 else Trial(i - 1) + Gap(i - 1)
  }

  lemma {:induction false} TrialMono(i: nat, j: nat)
    requires i <= j < GAP_COUNT
    ensures 3 <= Trial(i) <= Trial(j)
    decreases j
  {
    hide Gap;
    if i < j {
      TrialMono(i, j - 1);
    } else if i > 0 {
      TrialMono(i - 1, i - 1);
    }
  }

  function RowSum(g: seq<nat>): nat
    requires |g| == 8
  {
    g[0] + g[1] + g[2] + g[3] + g[4] + g[5] + g[6] + g[7]
  }

  lemma TrialNext(r: nat, k: nat)
    requires k < |Gaps(r)| && k < 8 && 8 * r + k + 1 < GAP_COUNT
    ensures Trial(8 * r + k + 1) == Trial(8 * r + k) + Gaps(r)[k]
  {
    hide Gaps;
    assert (8 * r + k) / 8 == r && (8 * r + k) % 8 == k;
  }

  lemma {:induction false} TrialRow(r: nat)
    requires r < 20 && |Gaps(r)| == 8
    ensures Trial(8 * r + 8) == Trial(8 * r) + RowSum(Gaps(r))
  {
    hide Gaps, Trial;
    TrialNext(r, 0);
    TrialNext(r, 1);
    TrialNext(r, 2);
    TrialNext(r, 3);
    TrialNext(r, 4);
    TrialNext(r, 5);
    TrialNext(r, 6);
    TrialNext(r, 7);
  }

  lemma {:induction false} FirstTrials()
    ensures Trial(0) == 3 && Trial(1) == 5 && Trial(2) == 7 && Trial(3) == 11 && Trial(4) == 13
    ensures Trial(5) == 17 && Trial(6) == 19 && Trial(7) == 23 && Trial(8) == 29 && Trial(9) == 31
  {
    assert Trial(2) == 7;
    assert Trial(4) == 13;
    assert Trial(6) == 19;
    assert Trial(8) == 29;
  }

  lemma FirstTrial()
    ensures Trial(0) == 3
  {
  }

  lemma {:induction false} LastTrial()
    ensures Trial(166) == 997
  {
    hide Trial;
    StartIs(20);
    LastRow();
  }

  lemma {:induction false} LastRow()
    ensures Trial(166) == Trial(160) + 44
  {
    hide Trial;
    TrialNext(20, 0);
    TrialNext(20, 1);
    TrialNext(20, 2);
    TrialNext(20, 3);
    TrialNext(20, 4);
    TrialNext(20, 5);
  }

  // An odd number from 3 to 31 has a divisor among the first ten trial divisors
  lemma {:induction false} SmallOddDivisor(e: int) returns (j: nat)
    requires 3 <= e <= 31 && e % 2 == 1
    ensures j < 10 && Divides(Trial(j), e)
  {
    hide Trial;
    FirstTrials();
    var k := 1;
    if e % 3 == 0 { j, k := 0, e / 3; }
    else if e % 5 == 0 { j, k := 1, e / 5; }
    else if e == 7 { j := 2; }
    else if e == 11 { j := 3; }
    else if e == 13 { j := 4; }
    else if e == 17 { j := 5; }
    else if e == 19 { j := 6; }
    else if e == 23 { j := 7; }
    else if e == 29 { j := 8; }
    else { j := 9; }
    DividesMultiple(Trial(j), k);
  }

  // One of two factors of a number below 1024 is at most 31
  lemma SmallerFactor(x: int, d: int, e: int)
    requires 0 < x < 1024 && x == d * e && d > 0
    ensures 1 <= d <= 31 || 1 <= e <= 31
  {
    assert e >= 1 by { if e <= 0 { MulLe(e, 0, d, d); } }
    if d >= 32 && e >= 32 {
      MulLe(32, d, 32, e);
    }
  }

  ghost predicate NoEarlier(x: int, i: nat)
    requires i <= GAP_COUNT
  {
    forall j :: 0 <= j < i ==> !Divides(Trial(j), x)
  }

  // A trial divisor that no earlier one divides is prime
  lemma {:induction false} TrialIsPrime(x: int, i: nat)
    requires i < GAP_COUNT && x == Trial(i) && x % 2 == 1 && NoEarlier(x, i)
    ensures IsPrime(x)
  {
    hide Trial, Divides;
    TrialMono(i, 166);
    LastTrial();
    forall d | d >= 2 && Divides(d, x)
      ensures d == x
    {
      if d != x {
        var e := SmallFactor(x, d);
        var j := SmallOddDivisor(e);
        DividesTrans(Trial(j), e, x);
        TrialBelow(j, e, x);
        if i <= j { TrialMono(i, j); }
      }
    }
  }

  lemma TrialBelow(j: nat, e: int, x: int)
    requires j < GAP_COUNT && 0 < e < x && Divides(Trial(j), e)
    ensures Trial(j) < x
  {
    hide Trial;
    DividesLe(Trial(j), e);
  }

  // A proper divisor gives an odd one from 3 to 31
  lemma {:induction false} SmallFactor(x: int, d: int) returns (e: int)
    requires 3 <= x < 1024 && x % 2 == 1 && d >= 2 && d != x && Divides(d, x)
    ensures 3 <= e <= 31 && e % 2 == 1 && e < x && Divides(e, x)
  {
    DividesLe(d, x);
    var k :| x == d * k;
    SmallerFactor(x, d, k);
    assert k >= 2 by { if k <= 1 { MulLe(k, 1, d, d); } }
    assert k < x by { MulLt(1, d, k); }
    DividesMultiple(k, d);
    e := if d <= 31 then d else k;
    OddFactor(e, x);
  }

  lemma OddFactor(e: int, x: int)
    requires x % 2 == 1 && Divides(e, x)
    ensures e % 2 == 1
  {
    if e % 2 == 0 {
      DividesMod(2, e);
      DividesTrans(2, e, x);
      DividesMod(2, x);
    }
  }

  // ----- The trial divisors are the odd primes up to 997

  // The least prime divisor of q if it is from 3 to 31, else 0
  function SmallDivisor(q: nat): nat
  {
    if q % 3 == 0 then 3 else if q % 5 == 0 then 5 else if q % 7 == 0 then 7 else if q % 11 == 0 then 11
    else if q % 13 == 0 then 13 else if q % 17 == 0 then 17 else if q % 19 == 0 then 19
    else if q % 23 == 0 then 23 else if q % 29 == 0 then 29 else if q % 31 == 0 then 31 else 0
  }

  // Every second number from lo on, below hi, has a smaller divisor
  predicate AllComposite(lo: nat, hi: nat)
    decreases hi - lo
  {
    lo >= hi || (0 < SmallDivisor(lo) < lo && AllComposite(lo + 2, hi))
  }

  // There is no prime between trial divisor i and the next
  predicate Gapless(i: nat)
    requires i + 1 < GAP_COUNT
  {
    AllComposite(Trial(i) + 2, Trial(i + 1))
  }

  lemma Row0()
    ensures AllComposite(5, 5) && AllComposite(7, 7) && AllComposite(9, 11) && AllComposite(13, 13)
    ensures AllComposite(15, 17) && AllComposite(19, 19) && AllComposite(21, 23) && AllComposite(25, 29)
  {
  }

  lemma Row1()
    ensures AllComposite(31, 31) && AllComposite(33, 37) && AllComposite(39, 41) && AllComposite(43, 43)
    ensures AllComposite(45, 47) && AllComposite(49, 53) && AllComposite(55, 59) && AllComposite(61, 61)
  {
  }

  lemma Row2()
    ensures AllComposite(63, 67) && AllComposite(69, 71) && AllComposite(73, 73) && AllComposite(75, 79)
    ensures AllComposite(81, 83) && AllComposite(85, 89) && AllComposite(91, 97) && AllComposite(99, 101)
  {
  }

  lemma Row3()
    ensures AllComposite(103, 103) && AllComposite(105, 107) && AllComposite(109, 109) && AllComposite(111, 113)
    ensures AllComposite(115, 127) && AllComposite(129, 131) && AllComposite(133, 137) && AllComposite(139, 139)
  {
  }

  lemma Row4()
    ensures AllComposite(141, 149) && AllComposite(151, 151) && AllComposite(153, 157) && AllComposite(159, 163)
    ensures AllComposite(165, 167) && AllComposite(169, 173) && AllComposite(175, 179) && AllComposite(181, 181)
  {
  }

  lemma Row5()
    ensures AllComposite(183, 191) && AllComposite(193, 193) && AllComposite(195, 197) && AllComposite(199, 199)
    ensures AllComposite(201, 211) && AllComposite(213, 223) && AllComposite(225, 227) && AllComposite(229, 229)
  {
  }

  lemma Row6()
    ensures AllComposite(231, 233) && AllComposite(235, 239) && AllComposite(241, 241) && AllComposite(243, 251)
    ensures AllComposite(253, 257) && AllComposite(259, 263) && AllComposite(265, 269) && AllComposite(271, 271)
  {
  }

  lemma Row7()
    ensures AllComposite(273, 277) && AllComposite(279, 281) && AllComposite(283, 283) && AllComposite(285, 293)
    ensures AllComposite(295, 307) && AllComposite(309, 311) && AllComposite(313, 313) && AllComposite(315, 317)
  {
  }

  lemma Row8()
    ensures AllComposite(319, 331) && AllComposite(333, 337) && AllComposite(339, 347) && AllComposite(349, 349)
    ensures AllComposite(351, 353) && AllComposite(355, 359) && AllComposite(361, 367) && AllComposite(369, 373)
  {
  }

  lemma Row9()
    ensures AllComposite(375, 379) && AllComposite(381, 383) && AllComposite(385, 389) && AllComposite(391, 397)
    ensures AllComposite(399, 401) && AllComposite(403, 409) && AllComposite(411, 419) && AllComposite(421, 421)
  {
  }

  lemma Row10()
    ensures AllComposite(423, 431) && AllComposite(433, 433) && AllComposite(435, 439) && AllComposite(441, 443)
    ensures AllComposite(445, 449) && AllComposite(451, 457) && AllComposite(459, 461) && AllComposite(463, 463)
  {
  }

  lemma Row11()
    ensures AllComposite(465, 467) && AllComposite(469, 479) && AllComposite(481, 487) && AllComposite(489, 491)
    ensures AllComposite(493, 499) && AllComposite(501, 503) && AllComposite(505, 509) && AllComposite(511, 521)
  {
  }

  lemma Row12()
    ensures AllComposite(523, 523) && AllComposite(525, 541) && AllComposite(543, 547) && AllComposite(549, 557)
    ensures AllComposite(559, 563) && AllComposite(565, 569) && AllComposite(571, 571) && AllComposite(573, 577)
  {
  }

  lemma Row13()
    ensures AllComposite(579, 587) && AllComposite(589, 593) && AllComposite(595, 599) && AllComposite(601, 601)
    ensures AllComposite(603, 607) && AllComposite(609, 613) && AllComposite(615, 617) && AllComposite(619, 619)
  {
  }

  lemma Row14()
    ensures AllComposite(621, 631) && AllComposite(633, 641) && AllComposite(643, 643) && AllComposite(645, 647)
    ensures AllComposite(649, 653) && AllComposite(655, 659) && AllComposite(661, 661) && AllComposite(663, 673)
  {
  }

  lemma Row15()
    ensures AllComposite(675, 677) && AllComposite(679, 683) && AllComposite(685, 691) && AllComposite(693, 701)
    ensures AllComposite(703, 709) && AllComposite(711, 719) && AllComposite(721, 727) && AllComposite(729, 733)
  {
  }

  lemma Row16()
    ensures AllComposite(735, 739) && AllComposite(741, 743) && AllComposite(745, 751) && AllComposite(753, 757)
    ensures AllComposite(759, 761) && AllComposite(763, 769) && AllComposite(771, 773) && AllComposite(775, 787)
  {
  }

  lemma Row17()
    ensures AllComposite(789, 797) && AllComposite(799, 809) && AllComposite(811, 811) && AllComposite(813, 821)
    ensures AllComposite(823, 823) && AllComposite(825, 827) && AllComposite(829, 829) && AllComposite(831, 839)
  {
  }

  lemma Row18()
    ensures AllComposite(841, 853) && AllComposite(855, 857) && AllComposite(859, 859) && AllComposite(861, 863)
    ensures AllComposite(865, 877) && AllComposite(879, 881) && AllComposite(883, 883) && AllComposite(885, 887)
  {
  }

  lemma Row19()
    ensures AllComposite(889, 907) && AllComposite(909, 911) && AllComposite(913, 919) && AllComposite(921, 929)
    ensures AllComposite(931, 937) && AllComposite(939, 941) && AllComposite(943, 947) && AllComposite(949, 953)
  {
  }

  lemma Row20()
    ensures AllComposite(955, 967) && AllComposite(969, 971) && AllComposite(973, 977) && AllComposite(979, 983)
    ensures AllComposite(985, 991) && AllComposite(993, 997)
  {
  }

  // The rows meet where the sums of the gaps say
  function RowStart(r: nat): nat
  {
    match r
    case 0 => 3
    case 1 => 29
    case 2 => 61
    case 3 => 101
    case 4 => 139
    case 5 => 181
    case 6 => 229
    case 7 => 271
    case 8 => 317
    case 9 => 373
    case 10 => 421
    case 11 => 463
    case 12 => 521
    case 13 => 577
    case 14 => 619
    case 15 => 673
    case 16 => 733
    case 17 => 787
    case 18 => 839
    case 19 => 887
    case _ => 953
  }

  lemma {:induction false} StartIs(r: nat)
    requires r <= 20
    ensures Trial(8 * r) == RowStart(r)
    decreases r
  {
    hide Trial;
    if r == 0 {
      FirstTrial();
    } else {
      StartIs(r - 1);
      SumIs(r - 1);
      TrialRow(r - 1);
    }
  }

  lemma SumIs(r: nat)
    requires r < 20
    ensures |Gaps(r)| == 8 && RowStart(r) + RowSum(Gaps(r)) == RowStart(r + 1)
  {
  }

  lemma {:induction false} RowValues(r: nat)
    requires r < 20
    ensures |Gaps(r)| == 8
    ensures var g := Gaps(r);
            && Trial(8 * r) == RowStart(r) && Trial(8 * r + 1) == Trial(8 * r) + g[0]
            && Trial(8 * r + 2) == Trial(8 * r + 1) + g[1] && Trial(8 * r + 3) == Trial(8 * r + 2) + g[2]
            && Trial(8 * r + 4) == Trial(8 * r + 3) + g[3] && Trial(8 * r + 5) == Trial(8 * r + 4) + g[4]
            && Trial(8 * r + 6) == Trial(8 * r + 5) + g[5] && Trial(8 * r + 7) == Trial(8 * r + 6) + g[6]
            && Trial(8 * r + 8) == Trial(8 * r + 7) + g[7]
  {
    hide Gaps, Trial;
    StartIs(r);
    SumIs(r);
    TrialNext(r, 0);
    TrialNext(r, 1);
    TrialNext(r, 2);
    TrialNext(r, 3);
    TrialNext(r, 4);
    TrialNext(r, 5);
    TrialNext(r, 6);
    TrialNext(r, 7);
  }

  ghost predicate RowGapless(r: nat)
    requires r < 20
  {
    && Gapless(8 * r) && Gapless(8 * r + 1) && Gapless(8 * r + 2) && Gapless(8 * r + 3)
    && Gapless(8 * r + 4) && Gapless(8 * r + 5) && Gapless(8 * r + 6) && Gapless(8 * r + 7)
  }

  lemma RowsFrom0(r: nat)
    requires 0 <= r < 5
    ensures RowGapless(r)
  {
    hide AllComposite, Trial;
    RowValues(r);
    if r == 0 { Row0(); }
    else if r == 1 { Row1(); }
    else if r == 2 { Row2(); }
    else if r == 3 { Row3(); }
    else if r == 4 { Row4(); }
  }

  lemma RowsFrom5(r: nat)
    requires 5 <= r < 10
    ensures RowGapless(r)
  {
    hide AllComposite, Trial;
    RowValues(r);
    if r == 5 { Row5(); }
    else if r == 6 { Row6(); }
    else if r == 7 { Row7(); }
    else if r == 8 { Row8(); }
    else if r == 9 { Row9(); }
  }

  lemma RowsFrom10(r: nat)
    requires 10 <= r < 15
    ensures RowGapless(r)
  {
    hide AllComposite, Trial;
    RowValues(r);
    if r == 10 { Row10(); }
    else if r == 11 { Row11(); }
    else if r == 12 { Row12(); }
    else if r == 13 { Row13(); }
    else if r == 14 { Row14(); }
  }

  lemma RowsFrom15(r: nat)
    requires 15 <= r < 20
    ensures RowGapless(r)
  {
    hide AllComposite, Trial;
    RowValues(r);
    if r == 15 { Row15(); }
    else if r == 16 { Row16(); }
    else if r == 17 { Row17(); }
    else if r == 18 { Row18(); }
    else if r == 19 { Row19(); }
  }

  lemma {:induction false} LastRowGapless()
    ensures Gapless(160) && Gapless(161) && Gapless(162) && Gapless(163) && Gapless(164) && Gapless(165)
  {
    hide AllComposite, Trial;
    StartIs(20);
    TrialNext(20, 0);
    TrialNext(20, 1);
    TrialNext(20, 2);
    TrialNext(20, 3);
    TrialNext(20, 4);
    TrialNext(20, 5);
    Row20();
  }

  lemma {:induction false} GaplessAt(i: nat)
    requires i < 166
    ensures Gapless(i)
  {
    hide Gapless;
    var r := i / 8;
    if r < 5 { RowsFrom0(r); }
    else if r < 10 { RowsFrom5(r); }
    else if r < 15 { RowsFrom10(r); }
    else if r < 20 { RowsFrom15(r); }
    else { LastRowGapless(); }
    assert i == 8 * r + i % 8;
  }

  lemma {:induction false} CompositeAt(lo: nat, hi: nat, q: nat)
    requires AllComposite(lo, hi) && lo <= q < hi && (q - lo) % 2 == 0
    ensures 0 < SmallDivisor(q) < q
    decreases hi - lo
  {
    hide SmallDivisor;
    if lo < q {
      CompositeAt(lo + 2, hi, q);
    }
  }

  lemma DividesBySmall(q: nat)
    requires SmallDivisor(q) > 0
    ensures SmallDivisor(q) >= 3 && Divides(SmallDivisor(q), q)
  {
    hide Divides;
    DividesMod(SmallDivisor(q), q);
  }

  lemma GapEven(i: nat)
    ensures Gap(i) % 2 == 0
  {
    RowEven(i / 8, i % 8);
  }

  lemma RowEven(r: nat, k: nat)
    ensures k < |Gaps(r)| ==> Gaps(r)[k] % 2 == 0
  {
  }

  lemma {:induction false} TrialOdd(i: nat)
    requires i < GAP_COUNT
    ensures Trial(i) % 2 == 1
    decreases i
  {
    hide Gap;
    if i > 0 {
      TrialOdd(i - 1);
      GapEven(i - 1);
    }
  }

  lemma {:induction false} GapHasNoPrime(i: nat, p: int)
    requires i + 1 < GAP_COUNT && Trial(i) < p < Trial(i + 1) && p % 2 == 1
    ensures !IsPrime(p)
  {
    hide Trial, IsPrime, AllComposite, SmallDivisor, Divides;
    GaplessAt(i);
    TrialOdd(i);
    TrialMono(0, i);
    var lo := Trial(i) + 2;
    assert lo <= p && (p - lo) % 2 == 0;
    CompositeAt(lo, Trial(i + 1), p);
    DividesBySmall(p);
    ProperDivisor(p, SmallDivisor(p));
  }

  // Every odd prime up to 997 is a trial divisor
  lemma {:induction false} PrimeIsTrial(p: int, i: nat) returns (j: nat)
    requires IsPrime(p) && p % 2 == 1 && i < GAP_COUNT && 3 <= p <= Trial(i)
    ensures j <= i && Trial(j) == p
    decreases i
  {
    hide Trial, IsPrime, GAP_COUNT;
    FirstTrial();
    if Trial(i) == p {
      j := i;
    } else {
      assert i > 0;
      if p <= Trial(i - 1) {
        j := PrimeIsTrial(p, i - 1);
      } else {
        j := 0;
        GapHasNoPrime(i - 1, p);
      }
    }
  }

  lemma {:induction false} PrimeDivisor(n: int) returns (p: int)
    requires n >= 2
    ensures IsPrime(p) && Divides(p, n) && p <= n
    decreases n
  {
    hide Divides;
    if IsPrime(n) {
      p := n;
      DividesSelf(n);
    } else {
      var d :| d >= 2 && Divides(d, n) && d != n;
      DividesLe(d, n);
      p := PrimeDivisor(d);
      DividesTrans(p, d, n);
    }
  }

  // No odd prime up to 997 divides x
  ghost predicate NoSmallPrime(x: int)
  {
    forall p :: IsPrime(p) && 3 <= p <= 997 ==> !Divides(p, x)
  }

  // Trial division tries them all
  lemma {:induction false} TrialsComplete(x: int)
    ensures NoEarlier(x, GAP_COUNT) <==> NoSmallPrime(x)
  {
    hide Trial, Divides, IsPrime;
    LastTrial();
    if NoEarlier(x, GAP_COUNT) {
      forall p | IsPrime(p) && 3 <= p <= 997
        ensures !Divides(p, x)
      {
        OddPrime(p);
        var j := PrimeIsTrial(p, 166);
      }
    }
    if NoSmallPrime(x) {
      forall j | 0 <= j < GAP_COUNT
        ensures !Divides(Trial(j), x)
      {
        if Divides(Trial(j), x) {
          TrialMono(j, 166);
          TrialOdd(j);
          var p := PrimeDivisor(Trial(j));
          DividesTrans(p, Trial(j), x);
          OddFactor(p, Trial(j));
          PrimeFromTwo(p);
        }
      }
    }
  }

  lemma OddPrime(p: int)
    requires IsPrime(p) && p >= 3
    ensures p % 2 == 1
  {
    if p % 2 == 0 {
      EvenPrime(p);
    }
  }

  lemma PrimeFromTwo(p: int)
    requires IsPrime(p)
    ensures p >= 2
  {
  }

  datatype Trials = NoSmallFactor | CertainPrime | NotPrime

  // Trial division. The answer NotPrime is wrong for 2, and for nothing else.
  method CheckSmallFactors(X: Mpi) returns (v: Trials)
    requires X.s == 1 && |X.p| > 0
    ensures v.CertainPrime? ==> IsPrime(X.Val())
    ensures X.Val() % 2 == 0 ==> v.NotPrime?
    ensures v.NotPrime? ==> (IsPrime(X.Val()) <==> X.Val() == 2)
    ensures v.NoSmallFactor? <==> X.Val() % 2 == 1 && NoEarlier(X.Val(), GAP_COUNT)
    ensures v.NoSmallFactor? <==> X.Val() % 2 == 1 && NoSmallPrime(X.Val())
  {
    hide Value, Mpi.Val, Trial, Divides, IsPrime, ModIntValue, Gap, NoSmallPrime;
    ghost var x := X.Val();
    TrialsComplete(x);
    LowBit(X);
    if X.p[0] % 2 == 0 {
      EvenPrime(x);
      return NotPrime;
    }
    var i, p := 0, 3;
    FirstTrial();
    while i < GAP_COUNT
      invariant 0 <= i <= GAP_COUNT && NoEarlier(x, i)
      invariant i < GAP_COUNT ==> p == Trial(i)
    {
      TrialSize(i);
      var ret, r := ModInt(X, p);
      TrialResidue(X, p);
      if r == 0 {
        var same := CmpInt(X, p);
        if same == 0 {
          TrialIsPrime(x, i);
          return CertainPrime;
        } else {
          ProperDivisor(x, p);
          return NotPrime;
        }
      }
      TrialStep(i);
      p := p + Gap(i);
      i := i + 1;
    }
    return NoSmallFactor;
  }

  lemma LowBit(X: Mpi)
    requires X.s == 1 && |X.p| > 0
    ensures X.p[0] % 2 == X.Val() % 2 && X.Val() >= 0
  {
    hide Value;
    ValueParity(X.p);
  }

  lemma TwoIsPrime()
    ensures IsPrime(2)
  {
    forall d | d >= 2 && Divides(d, 2)
      ensures d == 2
    {
      DividesLe(d, 2);
    }
  }

  lemma EvenPrime(x: int)
    requires x % 2 == 0
    ensures IsPrime(x) <==> x == 2
  {
    DividesMod(2, x);
    TwoIsPrime();
  }

  lemma {:induction false} TrialSize(i: nat)
    requires i < GAP_COUNT
    ensures 3 <= Trial(i) <= 997 && SignedLimb(Trial(i)) && Trial(i) < HALF
  {
    hide Trial;
    TrialMono(i, 166);
    LastTrial();
    assert Pow2(10) == 1024;
    Pow2Mono(10, BITS - 1);
    Pow2Mono(10, HALF_BITS);
  }

  lemma TrialStep(i: nat)
    requires i < GAP_COUNT
    ensures i + 1 < GAP_COUNT ==> Trial(i + 1) == Trial(i) + Gap(i)
  {
  }

  lemma TrialResidue(X: Mpi, p: int)
    requires X.s == 1 && 0 < p < HALF
    ensures ModIntValue(X.s, X.p, p) == 0 <==> Divides(p, X.Val())
  {
    hide Value, ModIntValue, Divides;
    ModIntRight(X.s, X.p, p);
    DividesMod(p, X.Val());
  }

  lemma ProperDivisor(x: int, p: int)
    requires p >= 2 && Divides(p, x) && x != p
    ensures !IsPrime(x)
  {
  }
}
