/**
 Exclusive or of natural numbers, bit by bit, and the polynomials over GF(2) they stand for.
 */
module Bits {
  import opened Arith

  function Xor(a: nat, b: nat): nat
    decreases a + b
  {
    if a == 0 && b == 0 then 0 else (a % 2 + b % 2) % 2 + 2 * Xor(a / 2, b / 2)
  }

  lemma {:induction false} XorSwap(a: nat, b: nat)
    ensures Xor(a, b) == Xor(b, a)
    decreases a + b
  {
    if a != 0 || b != 0 {
      XorSwap(a / 2, b / 2);
    }
  }

  lemma {:induction false} XorZero(a: nat)
    ensures Xor(a, 0) == a && Xor(0, a) == a
  {
    if a != 0 {
      XorZero(a / 2);
    }
  }

  lemma {:induction false} XorTwice(a: nat, b: nat)
    ensures Xor(Xor(a, b), b) == a
    decreases a + b
  {
    hide Xor;
    XorStep(a, b);
    var x, r := Xor(a / 2, b / 2), Xor(a, b);
    XorStep(r, b);
    SumHalves(a % 2, b % 2, x, r);
    if a != 0 || b != 0 {
      XorTwice(a / 2, b / 2);
      assert a == a % 2 + 2 * (a / 2);
    } else {
      XorZero(0);
    }
  }

  lemma SumHalves(c: nat, d: nat, x: nat, r: nat)
    requires c < 2 && d < 2 && r == (c + d) % 2 + 2 * x
    ensures r / 2 == x && (r % 2 + d) % 2 == c
  {
  }

  lemma XorStep(a: nat, b: nat)
    ensures Xor(a, b) == (a % 2 + b % 2) % 2 + 2 * Xor(a / 2, b / 2)
  {
  }

  lemma {:induction false} XorBound(a: nat, b: nat, k: nat)
    requires a < Pow2(k) && b < Pow2(k)
    ensures Xor(a, b) < Pow2(k)
    decreases k
  {
    if k > 0 {
      XorBound(a / 2, b / 2, k - 1);
      XorStep(a, b);
    }
  }

  // The low k bits and the rest are combined separately
  lemma {:induction false} XorSplit(p: nat, q: nat, r: nat, s: nat, k: nat)
    requires p < Pow2(k) && r < Pow2(k)
    ensures p + Pow2(k) * q >= 0 && r + Pow2(k) * s >= 0
    ensures Xor(p + Pow2(k) * q, r + Pow2(k) * s) == Xor(p, r) + Pow2(k) * Xor(q, s)
    decreases k
  {
    hide Xor;
    if k > 0 {
      var w := Pow2(k - 1);
      XorSplit(p / 2, q, r / 2, s, k - 1);
      HalfOf(p, w, q);
      HalfOf(r, w, s);
      XorStep(p + Pow2(k) * q, r + Pow2(k) * s);
      XorStep(p, r);
      MulAssoc(2, w, Xor(q, s));
    } else {
      XorZero(0);
    }
  }

  lemma HalfOf(p: nat, w: nat, q: nat)
    ensures p + 2 * w * q >= 0 && (p + 2 * w * q) / 2 == p / 2 + w * q && (p + 2 * w * q) % 2 == p % 2
  {
    MulAssoc(2, w, q);
  }

  // Bitwise and
  function And(a: nat, b: nat): nat
    decreases a + b
  {
    if a == 0 || b == 0 then 0 else (if a % 2 == 1 && b % 2 == 1 then 1 else 0) + 2 * And(a / 2, b / 2)
  }

  // Inclusive or
  function Or(a: nat, b: nat): nat
    decreases a + b
  {
    if a == 0 && b == 0 then 0 else (if a % 2 == 1 || b % 2 == 1 then 1 else 0) + 2 * Or(a / 2, b / 2)
  }

  lemma {:induction false} OrZero(a: nat)
    ensures Or(a, 0) == a && Or(0, a) == a
  {
    if a != 0 {
      OrZero(a / 2);
    }
  }

  lemma OrStep(a: nat, b: nat)
    ensures Or(a, b) == (if a % 2 == 1 || b % 2 == 1 then 1 else 0) + 2 * Or(a / 2, b / 2)
  {
  }

  lemma {:induction false} OrBound(a: nat, b: nat, k: nat)
    requires a < Pow2(k) && b < Pow2(k)
    ensures Or(a, b) < Pow2(k)
    decreases k
  {
    if k > 0 {
      OrBound(a / 2, b / 2, k - 1);
      OrStep(a, b);
    }
  }

  // Numbers without common bits: b lies below bit k and a above it
  lemma {:induction false} OrDisjoint(a: nat, b: nat, k: nat)
    requires b < Pow2(k)
    ensures Pow2(k) * a >= 0 && Or(Pow2(k) * a, b) == Pow2(k) * a + b
    decreases k
  {
    hide Or;
    if k == 0 {
      OrZero(a);
    } else {
      var w := Pow2(k - 1);
      OrDisjoint(a, b / 2, k - 1);
      HalfOf(0, w, a);
      OrStep(Pow2(k) * a, b);
      MulAssoc(2, w, a);
    }
  }

  // Polynomials over GF(2): bit i is the coefficient of x^i, Xor is addition and doubling is
  // multiplication by x. The product of x and p, reduced modulo x^n + r:
  function TimesX(p: nat, n: nat, r: nat): nat
  {
    if 2 * p < Pow2(n) then 2 * p else Xor(2 * p, Pow2(n) + r)
  }

  lemma XorOnes()
    ensures Xor(1, 1) == 0
  {
  }

  // The reduction cancels the top bit
  lemma {:induction false} TimesXBound(p: nat, n: nat, r: nat)
    requires p < Pow2(n) && r < Pow2(n)
    ensures TimesX(p, n, r) == if 2 * p < Pow2(n) then 2 * p else Xor(2 * p - Pow2(n), r)
    ensures TimesX(p, n, r) < Pow2(n)
  {
    hide Xor, Pow2;
    if 2 * p >= Pow2(n) {
      XorSplit(2 * p - Pow2(n), 1, r, 1, n);
      XorOnes();
      XorBound(2 * p - Pow2(n), r, n);
    }
  }

  // ----- Bit by bit

  // Bit number i, counting from the low end
  predicate Bit(x: nat, i: nat)
  {
    x / Pow2(i) % 2 == 1
  }

  lemma BitStep(x: nat, i: nat)
    requires i > 0
    ensures Bit(x, i) <==> Bit(x / 2, i - 1)
  {
    DivDiv(x, 2, Pow2(i - 1));
  }

  lemma {:induction false} EachBit(a: nat, b: nat, i: nat)
    ensures Bit(Xor(a, b), i) <==> Bit(a, i) != Bit(b, i)
    ensures Bit(And(a, b), i) <==> Bit(a, i) && Bit(b, i)
    ensures Bit(Or(a, b), i) <==> Bit(a, i) || Bit(b, i)
    decreases i
  {
    hide Xor, And, Or, Bit;
    XorStep(a, b);
    OrStep(a, b);
    AndStep(a, b);
    if i == 0 {
      LowBit(a);
      LowBit(b);
      LowBit(Xor(a, b));
      LowBit(And(a, b));
      LowBit(Or(a, b));
    } else {
      EachBit(a / 2, b / 2, i - 1);
      BitStep(a, i);
      BitStep(b, i);
      BitStep(Xor(a, b), i);
      BitStep(And(a, b), i);
      BitStep(Or(a, b), i);
    }
  }

  lemma LowBit(x: nat)
    ensures Bit(x, 0) <==> x % 2 == 1
  {
  }

  lemma AndStep(a: nat, b: nat)
    ensures And(a, b) == (if a % 2 == 1 && b % 2 == 1 then 1 else 0) + 2 * And(a / 2, b / 2)
  {
  }

  // ----- Doubling a word of n bits

  lemma TopBitOf(b: nat, n: nat)
    requires n > 0 && b < Pow2(n)
    ensures b / Pow2(n - 1) == if b >= Pow2(n - 1) then 1 else 0
  {
    var h := Pow2(n - 1);
    if b < h {
      ModSmall(b, h);
    } else {
      DivModUnique(b, h, 1, b - h);
    }
  }

  // Twice a word: what stays and what is carried out
  lemma DoubleWord(a: nat, n: nat)
    requires n > 0 && a < Pow2(n)
    ensures 2 * a == 2 * a % Pow2(n) + Pow2(n) * (a / Pow2(n - 1)) && 0 <= a / Pow2(n - 1) <= 1
    ensures 0 <= 2 * a % Pow2(n) && 2 * a % Pow2(n) + 1 < Pow2(n)
  {
    TopBitOf(a, n);
    var w := Pow2(n);
    assert w == 2 * Pow2(n - 1);
    if 2 * a < w {
      ModSmall(2 * a, w);
    } else {
      DivModUnique(2 * a, w, 1, 2 * a - w);
    }
  }

  lemma {:induction false} AddReduction(p: nat, high: nat, n: nat, r: nat)
    requires p < Pow2(n) && r < Pow2(n)
    ensures Xor(p, r) < Pow2(n) && p + Pow2(n) * high >= 0
    ensures Xor(p + Pow2(n) * high, r) == Xor(p, r) + Pow2(n) * high
  {
    hide Pow2, Xor;
    XorSplit(p, high, r, 0, n);
    XorBound(p, r, n);
    XorZero(high);
  }
}
