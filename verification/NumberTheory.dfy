/**
 The number theory the bignum algorithms rest on: divisibility, greatest common divisors,
 primes, Fermat's little theorem and square roots of one.
 */
module NumberTheory {
  import opened Arith

  // ----- Divisibility

  ghost predicate Divides(d: int, a: int)
  {
    exists k :: a == d * k
  }

  lemma DividesMultiple(d: int, k: int)
    ensures Divides(d, d * k)
  {
  }

  lemma DividesSum(d: int, a: int, b: int)
    requires Divides(d, a) && Divides(d, b)
    ensures Divides(d, a + b) && Divides(d, a - b)
  {
    var i :| a == d * i;
    var j :| b == d * j;
    MulDistrib(d, i, j);
    assert a + b == d * (i + j) && a - b == d * (i - j);
  }

  lemma DividesProduct(d: int, a: int, c: int)
    requires Divides(d, a)
    ensures Divides(d, a * c) && Divides(d, c * a)
  {
    var i :| a == d * i;
    MulAssoc(d, i, c);
    assert a * c == d * (i * c);
  }

  lemma DividesTrans(d: int, a: int, b: int)
    requires Divides(d, a) && Divides(a, b)
    ensures Divides(d, b)
  {
    var j :| b == a * j;
    DividesProduct(d, a, j);
  }

  lemma DividesMod(d: int, a: int)
    requires d > 0
    ensures Divides(d, a) <==> a % d == 0
  {
    DivModBasics(a, d);
    if Divides(d, a) {
      var i :| a == d * i;
      DivModUnique(a, d, i, 0);
    }
    if a % d == 0 {
      assert a == d * (a / d);
    }
  }

  lemma ZeroDivides(a: int)
    ensures Divides(0, a) ==> a == 0
  {
    if Divides(0, a) {
      var k :| a == 0 * k;
    }
  }

  lemma DividesLe(d: int, a: int)
    requires d >= 0 && a > 0 && Divides(d, a)
    ensures 1 <= d <= a
  {
    var i :| a == d * i;
    assert i <= 0 ==> d * i <= 0;
    assert d == 0 ==> d * i == 0;
    MulLe(d, d, 1, i);
  }

  lemma DividesCong(d: int, a: int, b: int)
    requires d > 0
    ensures Cong(a, b, d) <==> Divides(d, a - b)
  {
    if Cong(a, b, d) {
      var k := CongMultiple(a, b, d);
      assert a - b == d * k;
    }
    if Divides(d, a - b) {
      var k :| a - b == d * k;
      CongFromMultiple(a, b, k, d);
    }
  }

  // ----- Greatest common divisors

  // g divides both, and every common divisor divides g
  ghost predicate IsGcd(g: int, a: int, b: int)
  {
    g >= 0 && Divides(g, a) && Divides(g, b) && forall d :: Divides(d, a) && Divides(d, b) ==> Divides(d, g)
  }

  lemma {:induction false} GcdUnique(g: int, h: int, a: int, b: int)
    requires IsGcd(g, a, b) && IsGcd(h, a, b)
    ensures g == h
  {
    assert Divides(g, h) && Divides(h, g);
    if g == 0 {
      var k :| h == g * k;
    } else if h == 0 {
      var k :| g == h * k;
    } else {
      DividesLe(g, h);
      DividesLe(h, g);
    }
  }

  // Bezout coefficients exist
  lemma {:induction false} Bezout(a: nat, b: nat) returns (g: nat, x: int, y: int)
    ensures IsGcd(g, a, b) && a * x + b * y == g
    decreases b
  {
    if b == 0 {
      g, x, y := a, 1, 0;
      assert a == a * 1 && 0 == a * 0;
    } else {
      DivModBasics(a, b);
      var q, r := a / b, a % b;
      var x', y';
      g, x', y' := Bezout(b, r);
      x, y := y', x' - q * y';
      assert a * y' == q * b * y' + r * y' by { MulDistrib(y', q * b, r); }
      assert b * (x' - q * y') == b * x' - q * b * y' by { MulDistrib(b, x', q * y'); MulAssoc(b, q, y'); }
      GcdStep(g, a, b, q, r);
    }
  }

  lemma {:induction false} GcdStep(g: int, a: int, b: int, q: int, r: int)
    requires a == q * b + r && IsGcd(g, b, r)
    ensures IsGcd(g, a, b)
  {
    DividesProduct(g, b, q);
    DividesSum(g, q * b, r);
    forall d | Divides(d, a) && Divides(d, b)
      ensures Divides(d, g)
    {
      DividesProduct(d, b, q);
      DividesSum(d, a, q * b);
    }
  }

  // Euclid's algorithm
  function GcdOf(a: nat, b: nat): (g: nat)
    ensures IsGcd(g, a, b)
    decreases b
  {
    if b == 0 then
      assert a == a * 1 && 0 == a * 0;
      a
    else
      DivModBasics(a, b);
      GcdStep(GcdOf(b, a % b), a, b, a / b, a % b);
      GcdOf(b, a % b)
  }

  // Dividing by the gcd leaves a positive cofactor
  lemma Cofactor(n: nat, m: nat)
    requires n > 0
    ensures GcdOf(n, m) > 0 && n / GcdOf(n, m) > 0 && n == GcdOf(n, m) * (n / GcdOf(n, m))
  {
    hide GcdOf;
    var g := GcdOf(n, m);
    ZeroDivides(n);
    DividesLe(g, n);
    DividesMod(g, n);
    DivModBasics(n, g);
  }

  // n with its common divisor with m taken out, e times
  function Stripped(n: nat, m: nat, e: nat): (r: nat)
    requires n > 0
    ensures r > 0
    decreases e
  {
    Cofactor(n, m);
    if e == 0 then n else Stripped(n / GcdOf(n, m), m, e - 1)
  }

  // n divides m^e exactly when e common divisors use it up
  lemma {:induction false} StrippedMeaning(n: nat, m: nat, e: nat)
    requires n > 0
    ensures Divides(n, Pow(m, e)) <==> Stripped(n, m, e) == 1
    decreases e
  {
    hide GcdOf, Divides;
    if e == 0 {
      DividesSelf(n);
      if Divides(n, 1) {
        DividesLe(n, 1);
      }
    } else {
      Cofactor(n, m);
      var k := n / GcdOf(n, m);
      StrippedMeaning(k, m, e - 1);
      CancelGcd(n, m, Pow(m, e - 1));
    }
  }

  lemma DividesSelf(n: int)
    ensures Divides(n, n)
  {
    assert n == n * 1;
  }

  lemma {:induction false} CancelGcd(n: nat, m: nat, p: int)
    requires n > 0
    ensures GcdOf(n, m) > 0 && (Divides(n, m * p) <==> Divides(n / GcdOf(n, m), p))
  {
    hide GcdOf;
    Cofactor(n, m);
    var g := GcdOf(n, m);
    var k := n / g;
    var m' :| m == g * m';
    var h, x, y := Bezout(n, m);
    GcdUnique(g, h, n, m);
    if Divides(k, p) {
      var j :| p == k * j;
      assert m * p == n * (m' * j) by { Regroup(g, m', k, j); }
    }
    if Divides(n, m * p) {
      var j :| m * p == n * j;
      CofactorsCoprime(g, k, m', x, y);
      assert m' * p == k * j by { CancelFactor(g, m', p, k, j); }
      CoprimeCancel(k, m', x, y, p, j);
    }
  }

  lemma Regroup(g: int, m: int, k: int, j: int)
    ensures (g * m) * (k * j) == (g * k) * (m * j)
  {
    MulAssoc(g * m, k, j);
    MulAssoc(g, m, k);
    MulAssoc(g, k, m);
    MulAssoc(g * k, m, j);
  }

  lemma CancelFactor(g: int, m: int, p: int, k: int, j: int)
    requires g > 0 && (g * m) * p == (g * k) * j
    ensures m * p == k * j
  {
    MulAssoc(g, m, p);
    MulAssoc(g, k, j);
    assert g * (m * p - k * j) == 0 by { MulDistrib(g, m * p, k * j); }
  }

  lemma CofactorsCoprime(g: int, k: int, m: int, x: int, y: int)
    requires g > 0 && (g * k) * x + (g * m) * y == g
    ensures k * x + m * y == 1
  {
    MulAssoc(g, k, x);
    MulAssoc(g, m, y);
    MulDistrib(g, k * x, m * y);
    assert g * (k * x + m * y - 1) == 0 by { MulDistrib(g, k * x + m * y, 1); }
  }

  // k and m coprime, k dividing m * p
  lemma CoprimeCancel(k: int, m: int, x: int, y: int, p: int, j: int)
    requires k * x + m * y == 1 && m * p == k * j
    ensures Divides(k, p)
  {
    assert p == k * (x * p + j * y) by {
      MulDistrib(p, k * x, m * y);
      MulAssoc(k, x, p);
      MulAssoc(y, m, p);
      MulAssoc(k, j, y);
      MulDistrib(k, x * p, j * y);
    }
  }

  // Coprime numbers, divisors and primes
  lemma {:induction false} StrippedCases(n: nat, m: nat, e: nat)
    requires n > 1 && e > 0
    ensures IsGcd(1, n, m) ==> Stripped(n, m, e) != 1
    ensures Divides(n, m) ==> Stripped(n, m, e) == 1
    ensures IsPrime(n) ==> (Stripped(n, m, e) == 1 <==> Divides(n, m))
  {
    hide GcdOf, Divides, IsGcd, Stripped;
    if IsGcd(1, n, m) {
      StrippedCoprime(n, m, e);
    }
    if Divides(n, m) {
      DividesProduct(n, m, Pow(m, e - 1));
      StrippedMeaning(n, m, e);
    } else if IsPrime(n) {
      PrimeCoprime(n, m);
      StrippedCoprime(n, m, e);
    }
  }

  lemma {:induction false} StrippedCoprime(n: nat, m: nat, e: nat)
    requires n > 1 && IsGcd(1, n, m)
    ensures Stripped(n, m, e) == n
    decreases e
  {
    hide GcdOf, Divides, IsGcd;
    if e > 0 {
      GcdUnique(1, GcdOf(n, m), n, m);
      DivModUnique(n, 1, n, 0);
      StrippedCoprime(n, m, e - 1);
    }
  }

  lemma PrimeCoprime(p: int, a: int)
    requires IsPrime(p) && !Divides(p, a)
    ensures IsGcd(1, p, a)
  {
    assert p == 1 * p && a == 1 * a;
    forall d | Divides(d, p) && Divides(d, a)
      ensures Divides(d, 1)
    {
      DividesNegated(d, p);
      DividesNegated(d, a);
      ZeroDivides(p);
      var k := if d >= 0 then d else -d;
      assert Divides(k, p) && Divides(k, a);
      assert k == 1;
      assert 1 == d * d;
    }
  }

  lemma DividesNegated(d: int, a: int)
    requires Divides(d, a)
    ensures Divides(-d, a)
  {
    var k :| a == d * k;
    assert a == (-d) * (-k);
  }

  // ----- Primes

  ghost predicate IsPrime(p: int)
  {
    p >= 2 && forall d :: d >= 2 && Divides(d, p) ==> d == p
  }

  // A number that a prime does not divide has an inverse modulo the prime
  lemma {:induction false} PrimeInverse(p: int, a: int) returns (x: int)
    requires IsPrime(p) && !Divides(p, a)
    ensures Cong(a * x, 1, p)
  {
    var r := a % p;
    DivModBasics(a, p);
    CongMod(a, p);
    var g, u, v := Bezout(r, p);
    assert g == 1 by {
      ZeroDivides(p);
      if g >= 2 {
        assert Divides(p, r);
        DividesMod(p, r);
        ModSmall(r, p);
        DividesMod(p, a);
      }
    }
    x := u;
    CongFromMultiple(r * u, 1, -1 * v, p);
    CongMul(r, a, u, u, p);
  }

  // Euclid's lemma
  lemma {:induction false} EuclidLemma(p: int, a: int, b: int)
    requires IsPrime(p) && Divides(p, a * b)
    ensures Divides(p, a) || Divides(p, b)
  {
    if !Divides(p, a) {
      var x := PrimeInverse(p, a);
      var k := CongMultiple(a * x, 1, p);
      // b = (a * x) * b - k * p * b
      DividesProduct(p, a * b, x);
      DividesMultiple(p, k * b);
      DividesSum(p, a * b * x, p * (k * b));
      assert b == a * b * x - p * (k * b) by {
        MulAssoc(a, b, x);
        MulAssoc(a, x, b);
        MulDistrib(b, 1, k * p);
        MulAssoc(p, k, b);
      }
    }
  }

  // Modulo a prime the only square roots of 1 are 1 and -1
  lemma {:induction false} RootsOfOne(p: int, a: int)
    requires IsPrime(p) && Cong(a * a, 1, p)
    ensures Cong(a, 1, p) || Cong(a, -1, p)
  {
    DividesCong(p, a * a, 1);
    assert a * a - 1 == (a - 1) * (a + 1) by { MulExpand(a, -1, a, 1); }
    EuclidLemma(p, a - 1, a + 1);
    DividesCong(p, a, 1);
    DividesCong(p, a, -1);
  }

  // ----- Fermat's little theorem

  function Choose(n: nat, k: nat): nat
    decreases n
  {
    if k == 0 then 1 else if n == 0 then 0 else Choose(n - 1, k - 1) + Choose(n - 1, k)
  }

  lemma {:induction false} ChooseAbove(n: nat, k: nat)
    requires k > n
    ensures Choose(n, k) == 0
    decreases n
  {
    if n > 0 {
      ChooseAbove(n - 1, k - 1);
      ChooseAbove(n - 1, k);
    }
  }

  lemma {:induction false} Absorption(n: nat, k: nat)
    requires n >= 1 && k >= 1
    ensures k * Choose(n, k) == n * Choose(n - 1, k - 1)
    decreases n
  {
    var c := Choose(n - 1, k - 1);
    if n == 1 {
      if k >= 2 { ChooseAbove(0, k - 1); ChooseAbove(1, k); }
    } else {
      Absorption(n - 1, k);
      var d := Choose(n - 2, k - 1);
      MulDistrib(k, c, Choose(n - 1, k));
      if k == 1 {
        assert k * Choose(n, k) == 1 * c + (n - 1) * d;
      } else {
        Absorption(n - 1, k - 1);
        var e := Choose(n - 2, k - 2);
        assert c == e + d;
        MulDistrib(n - 1, e, d);
        MulDistrib(c, k, 1);
        MulDistrib(c, n, 1);
      }
    }
  }

  lemma {:induction false} PrimeDividesChoose(p: int, k: nat)
    requires IsPrime(p) && 0 < k < p
    ensures Divides(p, Choose(p, k))
  {
    Absorption(p, k);
    DividesMultiple(p, Choose(p - 1, k - 1));
    EuclidLemma(p, k, Choose(p, k));
    if Divides(p, k) { DividesLe(p, k); }
  }

  // The first terms of the binomial expansion of (a + 1)^n
  function Binomial(n: nat, a: int, k: nat): int
    decreases k
  {
    Choose(n, k) * Pow(a, k) + if k == 0 then 0 else Binomial(n, a, k - 1)
  }

  lemma {:induction false} BinomialPascal(n: nat, a: int, k: nat)
    requires n >= 1
    ensures Binomial(n, a, k) == Binomial(n - 1, a, k) + if k == 0 then 0 else a * Binomial(n - 1, a, k - 1)
    decreases k
  {
    if k > 0 {
      BinomialPascal(n, a, k - 1);
      var c, d, q := Choose(n - 1, k - 1), Choose(n - 1, k), Pow(a, k - 1);
      var rest := if k == 1 then 0 else Binomial(n - 1, a, k - 2);
      assert Choose(n, k) == c + d && Pow(a, k) == a * q;
      assert Binomial(n - 1, a, k - 1) == c * q + rest;
      PascalAlgebra(a, q, c, d, Binomial(n, a, k - 1), Binomial(n - 1, a, k - 1), rest);
    }
  }

  lemma PascalAlgebra(a: int, q: int, c: int, d: int, b: int, b1: int, rest: int)
    requires b == b1 + a * rest && b1 == c * q + rest
    ensures (c + d) * (a * q) + b == d * (a * q) + b1 + a * b1
  {
    MulDistrib(a * q, c, d);
    MulAssoc(c, a, q);
    MulAssoc(a, c, q);
    MulDistrib(a, c * q, rest);
  }

  lemma {:induction false} BinomialTheorem(n: nat, a: int)
    ensures Binomial(n, a, n) == Pow(a + 1, n)
    decreases n
  {
    if n > 0 {
      BinomialTheorem(n - 1, a);
      BinomialPascal(n, a, n);
      ChooseAbove(n - 1, n);
      MulDistrib(Pow(a + 1, n - 1), a, 1);
    }
  }

  lemma {:induction false} BinomialPrime(p: int, a: int, k: nat)
    requires IsPrime(p) && k < p
    ensures Cong(Binomial(p, a, k), 1, p)
    decreases k
  {
    if k > 0 {
      BinomialPrime(p, a, k - 1);
      PrimeDividesChoose(p, k);
      DividesProduct(p, Choose(p, k), Pow(a, k));
      DividesCong(p, Choose(p, k) * Pow(a, k), 0);
      CongAdd(Choose(p, k) * Pow(a, k), 0, Binomial(p, a, k - 1), 1, p);
    }
  }

  lemma {:induction false} ChooseTop(n: nat)
    ensures Choose(n, n) == 1
    decreases n
  {
    if n > 0 { ChooseTop(n - 1); ChooseAbove(n - 1, n); }
  }

  lemma {:induction false} FrobeniusNat(p: int, a: nat)
    requires IsPrime(p)
    ensures Cong(Pow(a, p), a, p)
    decreases a
  {
    if a == 0 {
      assert Pow(0, p) == 0 * Pow(0, p - 1);
    } else {
      FrobeniusNat(p, a - 1);
      BinomialTheorem(p, a - 1);
      BinomialPrime(p, a - 1, p - 1);
      ChooseTop(p);
      CongAdd(Pow(a - 1, p), a - 1, Binomial(p, a - 1, p - 1), 1, p);
    }
  }

  lemma {:induction false} Fermat(p: int, a: int)
    requires IsPrime(p) && !Divides(p, a)
    ensures Cong(Pow(a, p - 1), 1, p)
  {
    hide Cong;
    var r := a % p;
    DivModBasics(a, p);
    CongMod(a, p);
    FrobeniusNat(p, r);
    CongPow(r, a, p, p);
    CongSym(Pow(r, p), Pow(a, p), p);
    CongTrans(Pow(a, p), Pow(r, p), r, p);
    CongTrans(Pow(a, p), r, a, p);
    // a^p = a; multiply by the inverse of a
    var x := PrimeInverse(p, a);
    var q := Pow(a, p - 1);
    assert Pow(a, p) == a * q;
    CongRefl(x, p);
    CongMul(a * q, a, x, x, p);
    CongRefl(q, p);
    CongMul(q, q, a * x, 1, p);
    assert (a * q) * x == q * (a * x) by { MulAssoc(q, a, x); }
    CongSym(q * (a * x), q, p);
    CongTrans(q, q * (a * x), a * x, p);
    CongTrans(q, a * x, 1, p);
  }
}
