/**
 Byte strings as numbers, and the conversions between limb strings and byte strings
 (bignum_core.c).
 */
module Bytes {
  import opened Arith
  import opened Limbs
  import opened Core
  import opened Montgomery

  type Byte = b: nat | b < 256 witness 0

  // ----- Byte strings as numbers

  // Little-endian value
  function Le(s: seq<Byte>): nat
  {
    if |s| == 0 then 0 else s[0] + 256 * Le(s[1..])
  }

  function Reversed<T>(s: seq<T>): (r: seq<T>)
    ensures |r| == |s|
  {
    if |s| == 0 then [] else Reversed(s[1..]) + [s[0]]
  }

  lemma {:induction false} ReversedAt<T>(s: seq<T>, i: nat)
    requires i < |s|
    ensures Reversed(s)[i] == s[|s| - 1 - i]
    decreases |s|
  {
    if i < |s| - 1 {
      ReversedAt(s[1..], i);
    }
  }

  // Big-endian value
  function Be(s: seq<Byte>): nat
  {
    Le(Reversed(s))
  }

  lemma {:induction false} ReversedAppend<T>(s: seq<T>, t: seq<T>)
    ensures Reversed(s + t) == Reversed(t) + Reversed(s)
    decreases |s|
  {
    if |s| == 0 {
      assert s + t == t;
    } else {
      ReversedAppend(s[1..], t);
      assert (s + t)[1..] == s[1..] + t;
    }
  }

  lemma {:induction false} ReversedTwice<T>(s: seq<T>)
    ensures Reversed(Reversed(s)) == s
    decreases |s|
  {
    if |s| > 0 {
      ReversedTwice(s[1..]);
      ReversedAppend(Reversed(s[1..]), [s[0]]);
      assert Reversed([s[0]]) == [s[0]];
      assert s == [s[0]] + s[1..];
    }
  }

  lemma {:induction false} LeAppend(s: seq<Byte>, t: seq<Byte>)
    ensures Le(s + t) == Le(s) + Pow2(8 * |s|) * Le(t)
    decreases |s|
  {
    if |s| == 0 {
      assert s + t == t;
    } else {
      LeAppend(s[1..], t);
      assert (s + t)[1..] == s[1..] + t;
      var p := Pow2(8 * |s| - 8);
      EightBits(8 * |s| - 8);
      MulDistrib(256, Le(s[1..]), p * Le(t));
      MulAssoc(256, p, Le(t));
    }
  }

  lemma EightBits(e: nat)
    ensures Pow2(e + 8) == 256 * Pow2(e)
  {
    assert Pow2(8) == 256;
    Pow2Add(8, e);
  }

  lemma LeSnoc(s: seq<Byte>, b: Byte)
    ensures Le(s + [b]) == Le(s) + Pow2(8 * |s|) * b
  {
    LeAppend(s, [b]);
    assert [b][1..] == [];
    assert Le([]) == 0 && Le([b]) == b;
  }

  lemma {:induction false} LeBound(s: seq<Byte>)
    ensures Le(s) < Pow2(8 * |s|)
    decreases |s|
  {
    if |s| > 0 {
      LeBound(s[1..]);
      EightBits(8 * |s| - 8);
    }
  }

  lemma {:induction false} LeInjective(s: seq<Byte>, t: seq<Byte>)
    requires |s| == |t| && Le(s) == Le(t)
    ensures s == t
    decreases |s|
  {
    if |s| > 0 {
      var x, y := Le(s[1..]), Le(t[1..]);
      assert s[0] == t[0] && x == y;
      LeInjective(s[1..], t[1..]);
      assert s == [s[0]] + s[1..] && t == [t[0]] + t[1..];
    }
  }

  lemma BeInjective(s: seq<Byte>, t: seq<Byte>)
    requires |s| == |t| && Be(s) == Be(t)
    ensures s == t
  {
    hide Reversed, Le;
    LeInjective(Reversed(s), Reversed(t));
    ReversedTwice(s);
    ReversedTwice(t);
  }

  function ZeroBytes(n: nat): (s: seq<Byte>)
    ensures |s| == n && forall i :: 0 <= i < n ==> s[i] == 0
  {
    seq(n, _ => 0)
  }

  lemma {:induction false} LeZeros(s: seq<Byte>)
    requires forall i :: 0 <= i < |s| ==> s[i] == 0
    ensures Le(s) == 0
    decreases |s|
  {
    if |s| > 0 {
      LeZeros(s[1..]);
    }
  }

  // The k low base-256 digits
  function Digits256(v: nat, k: nat): (s: seq<Byte>)
    ensures |s| == k && forall i :: 0 <= i < k ==> s[i] == v / Pow2(8 * i) % 256
  {
    seq(k, i requires 0 <= i < k => Digit(v, i))
  }

  function Digit(v: nat, i: nat): (b: Byte)
    ensures b == v / Pow2(8 * i) % 256
  {
    DivModBasics(v / Pow2(8 * i), 256);
    v / Pow2(8 * i) % 256
  }

  lemma {:induction false} LeDigits(v: nat, k: nat)
    ensures Le(Digits256(v, k)) == v % Pow2(8 * k)
    decreases k
  {
    hide Le;
    if k == 0 {
      assert Digits256(v, 0) == [];
      LeZeros([]);
    } else {
      LeDigits(v, k - 1);
      var p := Pow2(8 * k - 8);
      assert Digits256(v, k) == Digits256(v, k - 1) + [Digit(v, k - 1)];
      LeSnoc(Digits256(v, k - 1), Digit(v, k - 1));
      EightBits(8 * k - 8);
      NextDigit(v, p);
    }
  }

  lemma NextDigit(v: int, p: int)
    requires p > 0
    ensures v % (256 * p) == v % p + p * (v / p % 256)
  {
    DivModBasics(v, p);
    var q, r := v / p, v % p;
    DivModBasics(q, 256);
    var h, d := q / 256, q % 256;
    MulDistrib(p, h * 256, d);
    MulAssoc(h, 256, p);
    MulLe(0, p, 0, d);
    MulLe(p, p, d, 255);
    DivModUnique(v, 256 * p, h, r + p * d);
  }

  lemma {:induction false} DigitsOfLe(s: seq<Byte>)
    ensures Digits256(Le(s), |s|) == s
  {
    hide Le;
    LeDigits(Le(s), |s|);
    LeBound(s);
    ModSmall(Le(s), Pow2(8 * |s|));
    LeInjective(Digits256(Le(s), |s|), s);
  }

  lemma {:induction false} BeAppend(s: seq<Byte>, t: seq<Byte>)
    ensures Be(s + t) == Be(t) + Pow2(8 * |t|) * Be(s)
  {
    hide Le, Reversed;
    ReversedAppend(s, t);
    LeAppend(Reversed(t), Reversed(s));
  }

  lemma BeEmpty()
    ensures Be([]) == 0
  {
  }

  // The k bytes of w, high byte first
  function BeBytes(w: nat, k: nat): (s: seq<Byte>)
    ensures |s| == k
  {
    Reversed(Digits256(w, k))
  }

  lemma BeOfBytes(w: nat, k: nat)
    requires w < Pow2(8 * k)
    ensures Be(BeBytes(w, k)) == w
  {
    hide Le, Reversed, Digits256;
    ReversedTwice(Digits256(w, k));
    LeDigits(w, k);
    ModSmall(w, Pow2(8 * k));
  }

  lemma BeOfBytesMod(w: nat, k: nat)
    ensures Be(BeBytes(w, k)) == w % Pow2(8 * k)
  {
    hide Le, Reversed, Digits256;
    ReversedTwice(Digits256(w, k));
    LeDigits(w, k);
  }

  // Replacing the byte j places from the end
  lemma {:induction false} BeUpdate(s: seq<Byte>, j: nat, b: Byte)
    requires j < |s|
    ensures Be(s[|s| - 1 - j := b]) == Be(s) + Pow2(8 * j) * b - Pow2(8 * j) * s[|s| - 1 - j]
  {
    hide Be, Pow2;
    var k := |s| - 1 - j;
    var h, x, l := s[..k], s[k], s[k + 1..];
    assert s == h + ([x] + l) && s[k := b] == h + ([b] + l);
    BeAppend(h, [x] + l);
    BeAppend(h, [b] + l);
    BeAppend([x], l);
    BeAppend([b], l);
    BeSingle(x);
    BeSingle(b);
  }

  lemma BeBound(s: seq<Byte>)
    ensures Be(s) < Pow2(8 * |s|)
  {
    LeBound(Reversed(s));
  }

  lemma BeSingle(b: Byte)
    ensures Be([b]) == b
  {
    assert [b][1..] == [];
    assert Reversed([b]) == Reversed([b][1..]) + [b] == [b];
    assert Le([b]) == b + 256 * Le([b][1..]);
  }

  // ----- The bytes of a limb string

  // sizeof(mbedtls_mpi_uint)
  const CIL: nat := BITS / 8

  lemma LimbBytes()
    ensures BITS == 8 * CIL && CIL >= 4
  {
  }

  function CharsToLimbs(i: nat): nat
  {
    i / CIL + if i % CIL != 0 then 1 else 0
  }

  // Byte number i, counted from the low end
  function GetByte(a: seq<Limb>, i: nat): (b: Byte)
    requires i / CIL < |a|
  {
    DivModBasics(Shr(a[i / CIL], i % CIL * 8), 256);
    Shr(a[i / CIL], i % CIL * 8) % 256
  }

  lemma {:induction false} GetByteValue(a: seq<Limb>, i: nat)
    requires i / CIL < |a|
    ensures GetByte(a, i) == Digit(Value(a), i)
  {
    hide Value, Place, BETA, Pow2;
    LimbBytes();
    DivModBasics(i, CIL);
    var q, r := i / CIL, i % CIL;
    var e := 8 * r;
    PlaceIsPow2(q);
    assert 8 * i == BITS * q + e by { MulAssoc(8, CIL, q); }
    Pow2Add(BITS * q, e);
    DivDiv(Value(a), Place(q), Pow2(e));
    ValueDiv(a, q);
    ValueLow(a[q..]);
    var v, h := Value(a[q..]), Value(a[q..][1..]);
    DivModBasics(v, BETA);
    BaseIsPow2();
    Pow2Add(e, BITS - e);
    EightBits(BITS - e - 8);
    ByteBelow(a[q], h, Pow2(e), Pow2(BITS - e - 8));
  }

  lemma {:induction false} ByteBelow(x: int, h: int, p: int, g: int)
    requires p > 0 && g > 0
    ensures (h * (p * (256 * g)) + x) / p % 256 == x / p % 256
  {
    assert h * (p * (256 * g)) == (h * (256 * g)) * p by { MulAssoc(h, 256 * g, p); }
    ModAddMultiple(x, h * (256 * g), p);
    MulAssoc(h, 256, g);
    HalfSwap(h, 256, g);
    ModAddMultiple(x / p, h * g, 256);
  }

  // All bytes of a limb string
  function BytesOf(a: seq<Limb>): (s: seq<Byte>)
  {
    seq(|a| * CIL, i requires 0 <= i < |a| * CIL => ByteAt(a, i))
  }

  function ByteAt(a: seq<Limb>, i: nat): Byte
    requires i < |a| * CIL
  {
    ByteIndex(i, |a|);
    GetByte(a, i)
  }

  lemma ByteIndex(i: nat, n: nat)
    requires i < n * CIL
    ensures i / CIL < n
  {
    DivModBasics(i, CIL);
    if i / CIL >= n {
      MulLe(n, i / CIL, CIL, CIL);
    }
  }

  lemma {:induction false} BytesOfDigits(a: seq<Limb>)
    ensures BytesOf(a) == Digits256(Value(a), |a| * CIL) && Le(BytesOf(a)) == Value(a)
  {
    hide Value, Le, Pow2;
    forall i | 0 <= i < |a| * CIL
      ensures BytesOf(a)[i] == Digit(Value(a), i)
    {
      ByteIndex(i, |a|);
      GetByteValue(a, i);
    }
    assert BytesOf(a) == Digits256(Value(a), |a| * CIL);
    LeDigits(Value(a), |a| * CIL);
    ValueBound(a);
    PlaceIsPow2(|a|);
    LimbBytes();
    MulAssoc(8, |a|, CIL);
    assert BITS * |a| == 8 * (|a| * CIL);
    ModSmall(Value(a), Pow2(8 * (|a| * CIL)));
  }
}
