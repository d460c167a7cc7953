/**
 Reading and writing limb arrays as byte strings (bignum_core.c).
 */
module CoreIO {
  import opened Arith
  import opened Limbs
  import opened Core
  import opened Montgomery
  import opened Bignum
  import opened Bytes

  // ----- Little endian

  // The limb that receives byte i = q * CIL + r still has nothing at or above that byte
  lemma {:induction false} RoomForByte(x: seq<Limb>, i: nat, q: nat, r: nat, b: Byte)
    requires i == q * CIL + r && r < CIL && q < |x| && Value(x) < Pow2(8 * i)
    ensures x[q] < Pow2(8 * r) && b * Pow2(8 * r) + x[q] < BETA
    ensures Place(q) * (b * Pow2(8 * r)) == Pow2(8 * i) * b
  {
    hide Value, Place, BETA, Pow2;
    LimbBytes();
    var e := 8 * r;
    PlaceIsPow2(q);
    assert 8 * i == BITS * q + e by { MulAssoc(8, CIL, q); }
    Pow2Add(BITS * q, e);
    ValueLimb(x, q);
    LimbBelow(Value(x), Place(q), Pow2(e), x[q]);
    EightBits(e);
    Pow2Mono(e + 8, BITS);
    BaseIsPow2();
    MulLe(b, 255, Pow2(e), Pow2(e));
    MulAssoc(Place(q), Pow2(e), b);
  }

  lemma LimbBelow(v: int, w: int, p: int, x: int)
    requires v >= 0 && w > 0 && p > 0 && v < w * p && x == v / w % BETA
    ensures x < p
  {
    hide BETA;
    BaseLarge();
    DivModBasics(v, w);
    var q := v / w;
    assert q < p by { if q >= p { MulLe(p, q, w, w); } }
    assert q >= 0 by { if q < 0 { MulLe(q, -1, w, w); } }
    DivModBasics(q, BETA);
    if q < BETA {
      ModSmall(q, BETA);
    }
  }

  method ReadLe(X: array<Limb>, input: seq<Byte>) returns (ret: Status)
    modifies X
    ensures ret == if X.Length < CharsToLimbs(|input|) then BufferTooSmall else Ok
    ensures ret.Ok? ==> Value(X[..]) == Le(input)
    ensures !ret.Ok? ==> X[..] == old(X[..])
  {
    hide Value, Le, Pow2, Place, BETA;
    var limbs := CharsToLimbs(|input|);
    if X.Length < limbs {
      return BufferTooSmall;
    }
    ZeroFill(X, 0, X.Length);
    assert X[..] == X[0..0 + X.Length];
    ValueZero(X[..]);
    var i: nat := 0;
    LeZeros(input[..0]);
    while i < |input|
      invariant i <= |input| && Value(X[..]) == Le(input[..i])
    {
      EnoughLimbsFor(i, |input|, X.Length);
      LeBound(input[..i]);
      InsertByte(X, i, input[i]);
      assert input[..i + 1] == input[..i] + [input[i]];
      LeSnoc(input[..i], input[i]);
      i := i + 1;
    }
    assert input[..i] == input;
    return Ok;
  }

  // X[i / ciL] |= b << offset, the two having no bits in common
  method InsertByte(X: array<Limb>, i: nat, b: Byte)
    requires i / CIL < X.Length && Value(X[..]) < Pow2(8 * i)
    modifies X
    ensures Value(X[..]) == old(Value(X[..])) + Pow2(8 * i) * b
  {
    hide Value, Pow2, Place, BETA;
    DivModBasics(i, CIL);
    var q: nat, r: nat := i / CIL, i % CIL;
    ghost var x := X[..];
    RoomForByte(x, i, q, r, b);
    var t: Limb := b * Pow2(8 * r) + X[q];
    ValueUpdate(x, q, t);
    X[q] := t;
    assert X[..] == x[q := t];
    MulDistrib(Place(q), t, x[q]);
  }

  lemma EnoughLimbsFor(i: nat, len: nat, n: nat)
    requires i < len && CharsToLimbs(len) <= n
    ensures i / CIL < n
  {
    DivModBasics(i, CIL);
    DivModBasics(len, CIL);
    DivLe(i, len, CIL);
    var q := len / CIL;
    assert i / CIL == q && len % CIL == 0 ==> i >= q * CIL;
  }

  // ----- Writing

  // Whether the bytes from len on are all zero
  method FitsIn(a: seq<Limb>, len: nat) returns (ok: bool)
    requires len <= |a| * CIL
    ensures ok == (Value(a) < Pow2(8 * len))
  {
    hide Value, Pow2, BytesOf, GetByte;
    ghost var s := BytesOf(a);
    BytesOfDigits(a);
    BytesOfAt(a);
    var i := len;
    while i < |a| * CIL
      invariant len <= i <= |a| * CIL
      invariant forall k :: len <= k < i ==> s[k] == 0
    {
      ByteIndex(i, |a|);
      if GetByte(a, i) != 0 {
        HighByte(s, len, i);
        return false;
      }
      i := i + 1;
    }
    LowBytes(s, len);
    return true;
  }

  lemma BytesOfAt(a: seq<Limb>)
    ensures |BytesOf(a)| == |a| * CIL && forall i :: 0 <= i < |a| * CIL ==> BytesOf(a)[i] == ByteAt(a, i)
  {
    hide GetByte;
  }

  lemma {:induction false} HighByte(s: seq<Byte>, len: nat, i: nat)
    requires len <= i < |s| && s[i] != 0
    ensures Le(s) >= Pow2(8 * len)
  {
    hide Le, Pow2;
    assert s == s[..i] + s[i..] && s[i..] == [s[i]] + s[i + 1..];
    LeAppend(s[..i], s[i..]);
    Pow2Mono(8 * len, 8 * i);
    LeFirst(s[i..]);
    MulLe(Pow2(8 * i), Pow2(8 * i), 1, Le(s[i..]));
  }

  lemma LeFirst(s: seq<Byte>)
    requires |s| > 0
    ensures Le(s) >= s[0]
  {
  }

  lemma {:induction false} LowBytes(s: seq<Byte>, len: nat)
    requires len <= |s| && forall k :: len <= k < |s| ==> s[k] == 0
    ensures Le(s) < Pow2(8 * len)
  {
    hide Le, Pow2;
    assert s == s[..len] + s[len..];
    LeAppend(s[..len], s[len..]);
    LeZeros(s[len..]);
    LeBound(s[..len]);
  }

  // Digits beyond the stored bytes are zero
  lemma {:induction false} HighDigits(a: seq<Limb>, i: nat)
    requires |a| * CIL <= i
    ensures Digit(Value(a), i) == 0
  {
    hide Value, Pow2, Place;
    ValueBound(a);
    PlaceIsPow2(|a|);
    LimbBytes();
    MulAssoc(8, |a|, CIL);
    Pow2Mono(BITS * |a|, 8 * i);
    ModSmall(Value(a), Pow2(8 * i));
    ModSmall(0, 256);
  }

  method WriteLe(a: seq<Limb>, output: array<Byte>) returns (ret: Status)
    modifies output
    ensures ret == if Value(a) < Pow2(8 * output.Length) then Ok else BufferTooSmall
    ensures output[..] == if ret.Ok? then Digits256(Value(a), output.Length) else old(output[..])
  {
    hide Value, Pow2, GetByte, Digit;
    var stored := |a| * CIL;
    var copy := output.Length;
    if stored < output.Length {
      copy := stored;
      ShortEnough(a, output.Length);
    } else {
      var ok := FitsIn(a, copy);
      if !ok {
        return BufferTooSmall;
      }
    }
    var i: nat := 0;
    while i < copy
      invariant i <= copy && forall k :: 0 <= k < i ==> output[k] == Digit(Value(a), k)
    {
      ByteIndex(i, |a|);
      GetByteValue(a, i);
      output[i] := GetByte(a, i);
      i := i + 1;
    }
    while i < output.Length
      invariant copy <= i <= output.Length && forall k :: 0 <= k < i ==> output[k] == Digit(Value(a), k)
    {
      HighDigits(a, i);
      output[i] := 0;
      i := i + 1;
    }
    return Ok;
  }

  lemma {:induction false} ShortEnough(a: seq<Limb>, len: nat)
    requires |a| * CIL <= len
    ensures Value(a) < Pow2(8 * len)
  {
    hide Value, Pow2, Place;
    ValueBound(a);
    PlaceIsPow2(|a|);
    LimbBytes();
    MulAssoc(8, |a|, CIL);
    Pow2Mono(BITS * |a|, 8 * len);
  }

  lemma ReversedDigits(v: nat, n: nat)
    ensures forall j :: 0 <= j < n ==> Reversed(Digits256(v, n))[j] == Digit(v, n - 1 - j)
  {
    hide Reversed, Pow2;
    forall j | 0 <= j < n
      ensures Reversed(Digits256(v, n))[j] == Digit(v, n - 1 - j)
    {
      ReversedAt(Digits256(v, n), j);
    }
  }

  // The leading zeros of a short number
  method LeadZeros(a: seq<Limb>, output: array<Byte>, p: nat)
    requires p + |a| * CIL == output.Length
    modifies output
    ensures forall j :: 0 <= j < p ==> output[j] == Digit(Value(a), output.Length - 1 - j)
  {
    hide Value, Pow2, Digit;
    var n := output.Length;
    var k: nat := 0;
    while k < p
      invariant k <= p && forall j :: 0 <= j < k ==> output[j] == Digit(Value(a), n - 1 - j)
    {
      HighDigits(a, n - 1 - k);
      output[k] := 0;
      k := k + 1;
    }
  }

  method WriteBe(a: seq<Limb>, output: array<Byte>) returns (ret: Status)
    modifies output
    ensures ret == if Value(a) < Pow2(8 * output.Length) then Ok else BufferTooSmall
    ensures output[..] == if ret.Ok? then Reversed(Digits256(Value(a), output.Length)) else old(output[..])
  {
    hide Value, Pow2, GetByte, Digit, Reversed, Digits256;
    var stored, n := |a| * CIL, output.Length;
    var copy, p := n, 0;
    if stored < n {
      copy, p := stored, n - stored;
      ShortEnough(a, n);
      LeadZeros(a, output, p);
    } else {
      var ok := FitsIn(a, copy);
      if !ok {
        return BufferTooSmall;
      }
    }
    var i: nat := 0;
    while i < copy
      invariant i <= copy && forall j :: 0 <= j < p ==> output[j] == Digit(Value(a), n - 1 - j)
      invariant forall j :: n - i <= j < n ==> output[j] == Digit(Value(a), n - 1 - j)
    {
      ByteIndex(i, |a|);
      GetByteValue(a, i);
      output[p + copy - i - 1] := GetByte(a, i);
      i := i + 1;
    }
    ReversedDigits(Value(a), n);
    return Ok;
  }

  // ----- Big endian

  // Whether the host stores the high byte of a limb first
  const BIG_ENDIAN: bool

  function LimbBytesOf(x: Limb): (s: seq<Byte>)
    ensures |s| == CIL && Le(s) == x
  {
    LimbBytes();
    LeDigits(x, CIL);
    ModSmall(x, BETA);
    Digits256(x, CIL)
  }

  function LeLimb(s: seq<Byte>): (x: Limb)
    requires |s| == CIL
    ensures x == Le(s)
  {
    LimbBytes();
    LeBound(s);
    Le(s)
  }

  // The limb whose bytes in memory are s
  function HostLimb(s: seq<Byte>): Limb
    requires |s| == CIL
  {
    if BIG_ENDIAN then LeLimb(Reversed(s)) else LeLimb(s)
  }

  function ByteSwap(x: Limb): Limb
  {
    LeLimb(Reversed(LimbBytesOf(x)))
  }

  function BigendianToHostLimb(a: Limb): Limb
  {
    if BIG_ENDIAN then a else ByteSwap(a)
  }

  // Bytes in big-endian order become their big-endian value
  lemma {:induction false} HostConversion(s: seq<Byte>)
    requires |s| == CIL
    ensures BigendianToHostLimb(HostLimb(s)) == Le(Reversed(s))
  {
    hide Le, Reversed;
    if !BIG_ENDIAN {
      LeInjective(LimbBytesOf(LeLimb(s)), s);
    }
  }

  // y is x with every limb converted and their order reversed
  ghost predicate Converted(x: seq<Limb>, y: seq<Limb>)
  {
    |x| == |y| && forall i :: 0 <= i < |y| ==> y[i] == BigendianToHostLimb(x[|y| - 1 - i])
  }

  // Convert every limb and reverse their order, from both ends at once
  method BigendianToHost(A: array<Limb>)
    modifies A
    ensures Converted(old(A[..]), A[..])
  {
    hide BigendianToHostLimb;
    if A.Length == 0 {
      return;
    }
    var n := A.Length;
    var left, right := 0, n - 1;
    while left <= right
      invariant 0 <= left <= n && right == n - 1 - left && left <= right + 2
      invariant forall i :: 0 <= i < n && !(left <= i <= right) ==> A[i] == BigendianToHostLimb(old(A[n - 1 - i]))
      invariant forall i :: left <= i <= right ==> A[i] == old(A[i])
    {
      var tmp := BigendianToHostLimb(A[left]);
      A[left] := BigendianToHostLimb(A[right]);
      A[right] := tmp;
      left, right := left + 1, right - 1;
    }
  }

  // Chunk i of the n chunks of a byte string
  function Chunk(m: seq<Byte>, n: nat, i: nat): (s: seq<Byte>)
    requires |m| == n * CIL && i < n
    ensures |s| == CIL
  {
    ChunkRoom(i, n);
    m[i * CIL..i * CIL + CIL]
  }

  lemma ChunkRoom(i: nat, n: nat)
    requires i < n
    ensures 0 <= i * CIL <= i * CIL + CIL <= n * CIL
  {
    MulLe(0, i, 0, CIL);
    MulLe(i + 1, n, CIL, CIL);
    MulDistrib(CIL, i, 1);
  }

  ghost predicate Chunked(a: seq<Limb>, m: seq<Byte>)
  {
    |m| == |a| * CIL && forall i :: 0 <= i < |a| ==> a[i] == Le(Chunk(m, |a|, i))
  }

  // A limb string holding the chunks has the value of the bytes
  lemma {:induction false} ChunkedValue(a: seq<Limb>, m: seq<Byte>)
    requires Chunked(a, m)
    ensures Value(a) == Le(m)
    decreases |a|
  {
    hide Value, Le, Chunk;
    if |a| == 0 {
      ValueZero(a);
      LeZeros(m);
    } else {
      var k := |a| - 1;
      assert a == a[..k] + [a[k]];
      ValueSnoc(a[..k], a[k]);
      var l := LastChunk(m, k);
      FirstChunks(a, m, k, l);
      ChunkedValue(a[..k], l);
      LeAppend(l, Chunk(m, k + 1, k));
      ChunkPlace(k);
    }
  }

  lemma ChunkPlace(k: nat)
    ensures k * CIL >= 0 && Place(k) == Pow2(8 * (k * CIL))
  {
    hide Place, Pow2;
    PlaceIsPow2(k);
    LimbBytes();
    MulAssoc(8, k, CIL);
    MulLe(0, k, 0, CIL);
  }

  lemma LastChunk(m: seq<Byte>, k: nat) returns (l: seq<Byte>)
    requires |m| == (k + 1) * CIL
    ensures |l| == k * CIL && m == l + Chunk(m, k + 1, k)
  {
    ChunkRoom(k, k + 1);
    MulDistrib(CIL, k, 1);
    l := m[..k * CIL];
  }

  lemma {:induction false} FirstChunks(a: seq<Limb>, m: seq<Byte>, k: nat, l: seq<Byte>)
    requires Chunked(a, m) && |a| == k + 1 && |l| == k * CIL && |l| <= |m| && l == m[..|l|]
    ensures Chunked(a[..k], l)
  {
    hide Le;
    forall i | 0 <= i < k
      ensures Chunk(l, k, i) == Chunk(m, k + 1, i)
    {
      ChunkRoom(i, k);
      var o := i * CIL;
      SubSlice(m, 0, |l|, o, o + CIL);
    }
  }

  lemma {:induction false} ReversedChunk(m: seq<Byte>, n: nat, i: nat)
    requires |m| == n * CIL && i < n
    ensures Chunk(Reversed(m), n, i) == Reversed(Chunk(m, n, n - 1 - i))
  {
    hide Reversed;
    ChunkRoom(i, n);
    ChunkRoom(n - 1 - i, n);
    MulDistrib(CIL, n, i + 1);
    MulDistrib(CIL, i, 1);
    ReversedSlice(m, i * CIL, CIL);
    assert (n - 1 - i) * CIL == |m| - i * CIL - CIL;
  }

  lemma {:induction false} ReversedSlice(m: seq<Byte>, o: nat, k: nat)
    requires o + k <= |m|
    ensures Reversed(m)[o..o + k] == Reversed(m[|m| - o - k..|m| - o])
  {
    hide Reversed;
    var n := |m|;
    var h, w, l := m[..n - o - k], m[n - o - k..n - o], m[n - o..];
    assert m == h + (w + l);
    ReversedAppend(h, w + l);
    ReversedAppend(w, l);
  }

  // The limbs x have the bytes m in memory
  ghost predicate Loaded(x: seq<Limb>, m: seq<Byte>)
  {
    |m| == |x| * CIL && forall k :: 0 <= k < |x| ==> x[k] == HostLimb(Chunk(m, |x|, k))
  }

  method StoreBytes(X: array<Limb>, m: seq<Byte>)
    requires |m| == X.Length * CIL
    modifies X
    ensures Loaded(X[..], m)
  {
    hide Chunk, HostLimb;
    var i := 0;
    while i < X.Length
      invariant 0 <= i <= X.Length && forall k :: 0 <= k < i ==> X[k] == HostLimb(Chunk(m, X.Length, k))
    {
      X[i] := HostLimb(Chunk(m, X.Length, i));
      i := i + 1;
    }
  }

  // X from its bytes in big-endian order
  method LoadBe(X: array<Limb>, m: seq<Byte>)
    requires |m| == X.Length * CIL
    modifies X
    ensures Value(X[..]) == Be(m)
  {
    hide Value, Le, Reversed, Loaded, Chunked, Converted;
    StoreBytes(X, m);
    ghost var x := X[..];
    BigendianToHost(X);
    ConvertedChunks(x, X[..], m);
    ChunkedValue(X[..], Reversed(m));
  }

  method ReadBe(X: array<Limb>, input: seq<Byte>) returns (ret: Status)
    modifies X
    ensures ret == if X.Length < CharsToLimbs(|input|) then BufferTooSmall else Ok
    ensures ret.Ok? ==> Value(X[..]) == Be(input)
    ensures !ret.Ok? ==> X[..] == old(X[..])
  {
    hide Value, Le, Reversed, Chunk, Loaded, Chunked, CharsToLimbs, BigendianToHostLimb;
    var limbs := CharsToLimbs(|input|);
    var n := X.Length;
    if n < limbs {
      return BufferTooSmall;
    }
    BytesFit(|input|, n);
    if n == 0 {
      ValueZero(X[..]);
      LeZeros(Reversed(input));
      return Ok;
    }
    // The bytes of X in memory: zeros, then the input
    var m := ZeroBytes(n * CIL - |input|) + input;
    LoadBe(X, m);
    LeadingZeros(n * CIL - |input|, input);
    return Ok;
  }

  lemma BytesFit(len: nat, n: nat)
    requires CharsToLimbs(len) <= n
    ensures len <= n * CIL && (n == 0 ==> len == 0)
  {
    DivModBasics(len, CIL);
    MulLe(CharsToLimbs(len), n, CIL, CIL);
    assert (len / CIL + 1) * CIL == len / CIL * CIL + CIL;
  }

  lemma {:induction false} ConvertedChunks(x: seq<Limb>, y: seq<Limb>, m: seq<Byte>)
    requires Loaded(x, m) && Converted(x, y)
    ensures Chunked(y, Reversed(m))
  {
    hide Le, Reversed, Chunk, HostLimb, BigendianToHostLimb;
    forall i | 0 <= i < |y|
      ensures y[i] == Le(Chunk(Reversed(m), |y|, i))
    {
      var k := |y| - 1 - i;
      ReversedChunk(m, |y|, i);
      HostConversion(Chunk(m, |y|, k));
    }
  }

  lemma {:induction false} LeadingZeros(z: nat, s: seq<Byte>)
    ensures Be(ZeroBytes(z) + s) == Be(s)
  {
    hide Le, Reversed;
    ReversedAppend(ZeroBytes(z), s);
    LeAppend(Reversed(s), Reversed(ZeroBytes(z)));
    forall i | 0 <= i < z
      ensures Reversed(ZeroBytes(z))[i] == 0
    {
      ReversedAt(ZeroBytes(z), i);
    }
    LeZeros(Reversed(ZeroBytes(z)));
  }

  // A value and its digits
  lemma {:induction false} WrittenIsRead(v: nat, len: nat)
    requires v < Pow2(8 * len)
    ensures Le(Digits256(v, len)) == v && Be(Reversed(Digits256(v, len))) == v
  {
    hide Le, Reversed;
    LeDigits(v, len);
    ModSmall(v, Pow2(8 * len));
    ReversedTwice(Digits256(v, len));
  }
}
