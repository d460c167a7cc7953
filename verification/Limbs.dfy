/**
 Limbs and limb strings: a number is a little-endian sequence of limbs. The limb width is
 one of the two the library can be built with, and stays symbolic everywhere.
 */
module Limbs {
  import opened Arith

  // biL and biH, the bits of a limb and of half a limb
  type LimbWidth = w: nat | w == 32 || w == 64 witness 64
  const BITS: LimbWidth
  const HALF_BITS: nat := BITS / 2

  const BETA: int := Pow2(BITS)
  const HALF: int := Pow2(HALF_BITS)

  type Limb = x: nat | x < BETA witness 0

  // The result of unsigned arithmetic at limb width
  function Wrap(x: int): (r: Limb)
    ensures 0 <= x < BETA ==> r == x
    ensures BETA <= x < 2 * BETA ==> r == x - BETA
    ensures -BETA <= x < 0 ==> r == x + BETA
  {
    WrapNear(x);
    x % BETA
  }

  lemma WrapNear(x: int)
    ensures 0 <= x < BETA ==> x % BETA == x
    ensures BETA <= x < 2 * BETA ==> x % BETA == x - BETA
    ensures -BETA <= x < 0 ==> x % BETA == x + BETA
  {
    if 0 <= x < BETA { DivModUnique(x, BETA, 0, x); }
    if BETA <= x < 2 * BETA { DivModUnique(x, BETA, 1, x - BETA); }
    if -BETA <= x < 0 { DivModUnique(x, BETA, -1, x + BETA); }
  }

  // x << k and x >> k at limb width
  function Shl(x: Limb, k: nat): Limb
  {
    Wrap(x * Pow2(k))
  }

  function Shr(x: Limb, k: nat): (r: Limb)
    ensures r <= x
  {
    ShrBound(x, Pow2(k));
    x / Pow2(k)
  }

  lemma ShrBound(x: int, p: int)
    requires x >= 0 && p >= 1
    ensures 0 <= x / p <= x
  {
    DivModBasics(x, p);
    if x / p < 0 { MulLt(x / p, 0, p); }
    if x / p >= 0 { MulLe(x / p, x / p, 1, p); }
  }

  lemma BaseSplits()
    ensures HALF * HALF == BETA
  {
    Pow2Add(HALF_BITS, HALF_BITS);
    assert HALF_BITS + HALF_BITS == BITS;
  }

  lemma BaseLarge()
    ensures HALF >= 16 && BETA >= 16 * HALF
  {
    BaseSplits();
    assert Pow2(4) == 16;
    Pow2Mono(4, HALF_BITS);
    MulLe(16, HALF, HALF, HALF);
  }

  lemma SubSlice<T>(s: seq<T>, a: nat, b: nat, c: nat, d: nat)
    requires a <= b <= |s| && c <= d <= b - a
    ensures s[a..b][c..d] == s[a + c..a + d]
  {
    var m, l, r := s[a..b], s[a..b][c..d], s[a + c..a + d];
    forall i | 0 <= i < d - c
      ensures l[i] == r[i]
    {
      assert l[i] == m[c + i];
    }
  }

  // ----- The number a limb string denotes

  // The weight of limb n
  function Place(n: nat): (r: int)
    ensures r >= 1
  {
    if n == 0 then 1 else MulLe(1, BETA, 1, Place(n - 1)); BETA * Place(n - 1)
  }

  function Value(s: seq<Limb>): (r: int)
    ensures r >= 0
  {
    if |s| == 0 then 0 else MulLe(0, BETA, 0, Value(s[1..])); s[0] + BETA * Value(s[1..])
  }

  lemma ValueEmpty()
    ensures Value([]) == 0 && Place(0) == 1
  {
  }

  lemma {:induction false} PlaceAdd(m: nat, n: nat)
    ensures Place(m + n) == Place(m) * Place(n)
    decreases m
  {
    if m > 0 {
      PlaceAdd(m - 1, n);
      assert m + n - 1 == m - 1 + n;
      MulAssoc(BETA, Place(m - 1), Place(n));
    }
  }

  lemma PlaceNext(n: nat)
    ensures Place(n + 1) == BETA * Place(n) == Place(n) * BETA
    ensures Place(n + 1) >= Place(n)
  {
    MulLe(1, BETA, Place(n), Place(n));
  }

  lemma {:induction false} PlaceMono(m: nat, n: nat)
    requires m <= n
    ensures Place(m) <= Place(n)
  {
    PlaceAdd(m, n - m);
    MulLe(Place(m), Place(m), 1, Place(n - m));
  }

  lemma {:induction false} PlaceIsPow2(n: nat)
    ensures BITS * n >= 0
    ensures Place(n) == Pow2(BITS * n)
  {
    if n > 0 {
      PlaceIsPow2(n - 1);
      assert BITS * n == BITS + BITS * (n - 1);
      Pow2Add(BITS, BITS * (n - 1));
    }
  }

  lemma {:induction false} ValueAppend(s: seq<Limb>, t: seq<Limb>)
    ensures Value(s + t) == Value(s) + Place(|s|) * Value(t)
    decreases |s|
  {
    if |s| == 0 {
      assert s + t == t;
    } else {
      assert (s + t)[1..] == s[1..] + t;
      ValueAppend(s[1..], t);
      var v, p, w := Value(s[1..]), Place(|s| - 1), Value(t);
      MulAssoc(BETA, p, w);
      MulDistrib(BETA, v, p * w);
    }
  }

  lemma ValueSingle(x: Limb)
    ensures Value([x]) == x
  {
    assert [x][1..] == [];
    assert Value([]) == 0;
  }

  lemma ValueSnoc(s: seq<Limb>, x: Limb)
    ensures Value(s + [x]) == Value(s) + Place(|s|) * x
  {
    ValueAppend(s, [x]);
    ValueSingle(x);
  }

  lemma ValueSplit(s: seq<Limb>, i: nat)
    requires i <= |s|
    ensures Value(s) == Value(s[..i]) + Place(i) * Value(s[i..])
  {
    assert s == s[..i] + s[i..];
    ValueAppend(s[..i], s[i..]);
  }

  // Extending a prefix by its next limb
  lemma ValueNext(s: seq<Limb>, i: nat)
    requires i < |s|
    ensures Value(s[..i + 1]) == Value(s[..i]) + Place(i) * s[i]
  {
    assert s[..i + 1] == s[..i] + [s[i]];
    ValueSnoc(s[..i], s[i]);
  }

  lemma {:induction false} ValueBound(s: seq<Limb>)
    ensures Value(s) < Place(|s|)
    decreases |s|
  {
    if |s| > 0 {
      ValueBound(s[1..]);
      assert BETA * Value(s[1..]) + BETA <= BETA * Place(|s| - 1) by {
        MulLt(Value(s[1..]), Place(|s| - 1), BETA);
      }
    }
  }

  predicate AllZero(s: seq<Limb>)
  {
    forall i :: 0 <= i < |s| ==> s[i] == 0
  }

  lemma {:induction false} ValueZero(s: seq<Limb>)
    ensures AllZero(s) <==> Value(s) == 0
    decreases |s|
  {
    if |s| > 0 {
      ValueZero(s[1..]);
      assert s == [s[0]] + s[1..];
      if Value(s[1..]) > 0 {
        MulLe(1, BETA, 1, Value(s[1..]));
      } else {
        assert BETA * Value(s[1..]) == 0;
      }
    }
  }

  // Leading zero limbs do not matter
  lemma ValueTrim(s: seq<Limb>, i: nat)
    requires i <= |s| && AllZero(s[i..])
    ensures Value(s) == Value(s[..i])
  {
    ValueSplit(s, i);
    ValueZero(s[i..]);
  }

  // Limb i can be recovered from the value
  lemma {:induction false} ValueDiv(s: seq<Limb>, i: nat)
    requires i <= |s|
    ensures Value(s) / Place(i) == Value(s[i..])
    ensures Value(s) % Place(i) == Value(s[..i])
  {
    ValueSplit(s, i);
    ValueBound(s[..i]);
    DivModOf(Value(s[..i]), Place(i), Value(s[i..]));
  }

  lemma ValueLow(s: seq<Limb>)
    requires |s| > 0
    ensures Value(s) % BETA == s[0] && Value(s) / BETA == Value(s[1..])
  {
    DivModOf(s[0], BETA, Value(s[1..]));
  }

  lemma ValueLimb(s: seq<Limb>, i: nat)
    requires i < |s|
    ensures Value(s) / Place(i) % BETA == s[i]
  {
    ValueDiv(s, i);
    ValueLow(s[i..]);
  }

  lemma {:induction false} ValueInjective(s: seq<Limb>, t: seq<Limb>)
    requires |s| == |t| && Value(s) == Value(t)
    ensures s == t
    decreases |s|
  {
    if |s| > 0 {
      ValueLow(s);
      ValueLow(t);
      ValueInjective(s[1..], t[1..]);
      assert s == [s[0]] + s[1..];
      assert t == [t[0]] + t[1..];
    }
  }

  // The most significant differing limb decides a comparison
  lemma ValueCompare(s: seq<Limb>, t: seq<Limb>, i: nat)
    requires |s| == |t| && i < |s|
    requires s[i + 1..] == t[i + 1..] && s[i] < t[i]
    ensures Value(s) < Value(t)
  {
    ValueSplit(s, i + 1);
    ValueSplit(t, i + 1);
    assert Value(s[..i + 1]) < Value(t[..i + 1]) by {
      ValueNext(s, i);
      ValueNext(t, i);
      ValueBound(s[..i]);
      assert Place(i) * s[i] + Place(i) <= Place(i) * t[i] by { MulLt(s[i], t[i], Place(i)); }
    }
  }
}
