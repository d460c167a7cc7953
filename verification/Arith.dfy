/**
 Integer arithmetic used throughout the bignum model: powers, Euclidean division and
 congruences. Every product of two variables is handled in a lemma of its own.
 */
module Arith {

  // ----- Powers

  function Pow(b: int, e: nat): int
    decreases e
  {
    if e == 0 then 1 else b * Pow(b, e - 1)
  }

  function Pow2(e: nat): (r: nat)
    ensures r >= 1
    decreases e
  {
    if e == 0 then 1 else 2 * Pow2(e - 1)
  }

  lemma {:induction false} PowPositive(b: int, e: nat)
    requires b >= 1
    ensures Pow(b, e) >= 1
    decreases e
  {
    if e > 0 {
      PowPositive(b, e - 1);
      MulLe(1, b, 1, Pow(b, e - 1));
    }
  }

  lemma {:induction false} PowAdd(b: int, e: nat, f: nat)
    ensures Pow(b, e + f) == Pow(b, e) * Pow(b, f)
    decreases e
  {
    if e > 0 {
      PowAdd(b, e - 1, f);
      assert e + f - 1 == e - 1 + f;
      MulAssoc(b, Pow(b, e - 1), Pow(b, f));
    }
  }

  lemma {:induction false} PowProduct(a: int, b: int, e: nat)
    ensures Pow(a * b, e) == Pow(a, e) * Pow(b, e)
    decreases e
  {
    if e > 0 {
      PowProduct(a, b, e - 1);
      var x, y := Pow(a, e - 1), Pow(b, e - 1);
      calc {
        (a * b) * (x * y);
        { MulAssoc(a * b, x, y); MulAssoc(a, b, x); }
        (a * (b * x)) * y;
        { assert b * x == x * b; MulAssoc(a, x, b); }
        ((a * x) * b) * y;
        { MulAssoc(a * x, b, y); }
        (a * x) * (b * y);
      }
    }
  }

  lemma {:induction false} PowMultiply(b: int, e: nat, f: nat)
    ensures e * f >= 0
    ensures Pow(b, e * f) == Pow(Pow(b, e), f)
    decreases f
  {
    MulLe(0, e, 0, f);
    if f > 0 {
      PowMultiply(b, e, f - 1);
      assert e * f == e + e * (f - 1);
      PowAdd(b, e, e * (f - 1));
    } else {
      assert e * f == 0;
    }
  }

  lemma {:induction false} Pow2IsPow(e: nat)
    ensures Pow2(e) == Pow(2, e)
    decreases e
  {
    if e > 0 { Pow2IsPow(e - 1); }
  }

  lemma {:induction false} Pow2Add(e: nat, f: nat)
    ensures Pow2(e + f) == Pow2(e) * Pow2(f)
    decreases e
  {
    if e > 0 {
      Pow2Add(e - 1, f);
      assert e + f - 1 == e - 1 + f;
      MulAssoc(2, Pow2(e - 1), Pow2(f));
    }
  }

  lemma SmallPow2()
    ensures Pow2(0) == 1 && Pow2(1) == 2 && Pow2(3) == 8 && Pow2(6) == 64 && Pow2(8) == 256
  {
  }

  lemma {:induction false} Pow2Mono(e: nat, f: nat)
    requires e <= f
    ensures Pow2(e) <= Pow2(f)
    ensures e < f ==> 2 * Pow2(e) <= Pow2(f)
  {
    Pow2Add(f - e, e);
    if e < f {
      MulLe(2, Pow2(f - e), Pow2(e), Pow2(e));
    }
  }

  // ----- Products

  lemma MulAssoc(a: int, b: int, c: int)
    ensures a * (b * c) == (a * b) * c
  {
  }

  lemma MulDistrib(a: int, b: int, c: int)
    ensures a * (b + c) == a * b + a * c == (b + c) * a
    ensures a * (b - c) == a * b - a * c == (b - c) * a
  {
  }

  lemma MulLe(a: int, b: int, c: int, d: int)
    requires 0 <= a <= b && 0 <= c <= d
    ensures 0 <= a * c <= b * d
  {
    assert a * c <= b * c;
    assert b * c <= b * d;
  }

  lemma MulLt(a: int, b: int, c: int)
    requires a < b && c > 0
    ensures a * c < b * c
    ensures a * c + c <= b * c
  {
    assert (a + 1) * c <= b * c;
  }

  lemma MulCancelLt(a: int, b: int, c: int)
    requires a * c < b * c && c > 0
    ensures a < b
  {
    assert a >= b ==> a * c >= b * c;
  }

  // ----- Euclidean division

  lemma DivModBasics(x: int, n: int)
    requires n > 0
    ensures x == x / n * n + x % n
    ensures 0 <= x % n < n
  {
  }

  lemma DivModUnique(x: int, n: int, q: int, r: int)
    requires n > 0 && 0 <= r < n && x == q * n + r
    ensures x / n == q && x % n == r
  {
    var k := q - x / n;
    assert k * n == x % n - r by {
      assert k * n == q * n - x / n * n;
    }
    if k >= 1 { MulLt(0, k, n); }
    if k <= -1 { MulLt(k, 0, n); }
  }

  lemma DivModOf(r: int, n: int, q: int)
    requires 0 <= r < n
    ensures (r + n * q) / n == q && (r + n * q) % n == r
  {
    DivModUnique(r + n * q, n, q, r);
  }

  lemma ModSmall(x: int, n: int)
    requires 0 <= x < n
    ensures x % n == x && x / n == 0
  {
    DivModUnique(x, n, 0, x);
  }

  lemma ModAddMultiple(x: int, k: int, n: int)
    requires n > 0
    ensures (x + k * n) % n == x % n
    ensures (x + k * n) / n == x / n + k
  {
    assert x + k * n == (x / n + k) * n + x % n;
    DivModUnique(x + k * n, n, x / n + k, x % n);
  }

  lemma DivLe(x: int, y: int, n: int)
    requires n > 0 && x <= y
    ensures x / n <= y / n
  {
    if x / n > y / n { MulLt(y / n, x / n, n); }
  }

  // Dividing twice is dividing by the product.
  lemma DivDiv(x: int, m: int, n: int)
    requires m > 0 && n > 0
    ensures m * n > 0
    ensures x / m / n == x / (m * n)
  {
    MulLt(0, n, m);
    var q := x / m;
    var r := m * (q % n) + x % m;
    assert x == q / n * (m * n) + r by {
      assert q == q / n * n + q % n;
      assert x == (q / n * n + q % n) * m + x % m;
      assert (q / n * n) * m == q / n * (m * n);
    }
    assert 0 <= r < m * n by {
      MulLe(0, q % n, 0, m);
      MulLe(q % n, n - 1, m, m);
      assert (n - 1) * m == n * m - m;
    }
    DivModUnique(x, m * n, q / n, r);
  }

  // ----- Congruences

  predicate Cong(a: int, b: int, n: int)
    requires n > 0
  {
    a % n == b % n
  }

  lemma CongRefl(a: int, n: int)
    requires n > 0
    ensures Cong(a, a, n)
  {
  }

  lemma CongSym(a: int, b: int, n: int)
    requires n > 0 && Cong(a, b, n)
    ensures Cong(b, a, n)
  {
  }

  lemma CongTrans(a: int, b: int, c: int, n: int)
    requires n > 0 && Cong(a, b, n) && Cong(b, c, n)
    ensures Cong(a, c, n) && Cong(c, a, n)
  {
  }

  lemma CongFromMultiple(a: int, b: int, k: int, n: int)
    requires n > 0 && a == b + k * n
    ensures Cong(a, b, n)
  {
    ModAddMultiple(b, k, n);
  }

  lemma CongMultiple(a: int, b: int, n: int) returns (k: int)
    requires n > 0 && Cong(a, b, n)
    ensures a == b + k * n
  {
    k := a / n - b / n;
    assert a == a / n * n + a % n;
    assert b == b / n * n + b % n;
    assert k * n == a / n * n - b / n * n;
  }

  lemma CongMod(a: int, n: int)
    requires n > 0
    ensures Cong(a % n, a, n)
  {
    ModSmall(a % n, n);
  }

  lemma CongAdd(a: int, b: int, c: int, d: int, n: int)
    requires n > 0 && Cong(a, b, n) && Cong(c, d, n)
    ensures Cong(a + c, b + d, n)
    ensures Cong(a - c, b - d, n)
  {
    var k := CongMultiple(a, b, n);
    var l := CongMultiple(c, d, n);
    MulDistrib(n, k, l);
    CongFromMultiple(a + c, b + d, k + l, n);
    CongFromMultiple(a - c, b - d, k - l, n);
  }

  lemma CongMul(a: int, b: int, c: int, d: int, n: int)
    requires n > 0 && Cong(a, b, n) && Cong(c, d, n)
    ensures Cong(a * c, b * d, n)
  {
    var k := CongMultiple(a, b, n);
    var l := CongMultiple(c, d, n);
    MulSwap(b, k, n, c);
    MulSwap(d, l, n, b);
    CongFromMultiple(a * c, b * c, k * c, n);
    CongFromMultiple(b * c, b * d, l * b, n);
  }

  lemma MulSwap(b: int, k: int, n: int, c: int)
    ensures (b + k * n) * c == b * c + k * c * n
  {
    MulDistrib(c, b, k * n);
    assert k * n * c == k * c * n by { MulAssoc(k, n, c); MulAssoc(k, c, n); }
  }

  lemma MulExpand(a: int, b: int, c: int, d: int)
    ensures (a + b) * (c + d) == a * c + a * d + b * c + b * d
  {
  }

  lemma {:induction false} CongPow(a: int, b: int, e: nat, n: int)
    requires n > 0 && Cong(a, b, n)
    ensures Cong(Pow(a, e), Pow(b, e), n)
    decreases e
  {
    if e > 0 {
      CongPow(a, b, e - 1, n);
      CongMul(a, b, Pow(a, e - 1), Pow(b, e - 1), n);
    }
  }

  // A congruence modulo m * n holds modulo n.
  lemma CongDivisor(a: int, b: int, m: int, n: int)
    requires m > 0 && n > 0 && m * n > 0 && Cong(a, b, m * n)
    ensures Cong(a, b, n)
  {
    var k := CongMultiple(a, b, m * n);
    MulAssoc(k, m, n);
    CongFromMultiple(a, b, k * m, n);
  }

  // Two reduced congruent numbers are equal.
  lemma CongReduced(a: int, b: int, n: int)
    requires 0 <= a < n && 0 <= b < n && Cong(a, b, n)
    ensures a == b
  {
    ModSmall(a, n);
    ModSmall(b, n);
  }
}
