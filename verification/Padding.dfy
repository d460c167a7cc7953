/**
 Padding of the last block (cipher.c): adding it in place and finding it again.
 */
module Padding {
  import opened Arith
  import opened Bytes

  // NoPadding stands for a null add_padding function
  datatype Scheme = NoPadding | Pkcs7 | OneAndZeros | ZerosAndLen | ZeroFill

  // The width of size_t
  type SizeWidth = w: nat | w == 32 || w == 64 witness 64
  const SIZE_BITS: SizeWidth

  // A difference of lengths, as size_t holds it
  function SizeT(x: int): (r: nat)
  {
    x % Pow2(SIZE_BITS)
  }

  lemma SizeTIs(x: int)
    requires -256 < x < 256
    ensures SizeT(x) == if x >= 0 then x else x + Pow2(SIZE_BITS)
    ensures Pow2(SIZE_BITS) >= 512
  {
    var w := Pow2(SIZE_BITS);
    assert w >= 512 by { SmallPow2(); Pow2Mono(8, SIZE_BITS); }
    hide Pow2;
    if x >= 0 { ModSmall(x, w); } else { DivModUnique(x, w, -1, x + w); }
  }

  type BlockSize = n: nat | n == 8 || n == 16 witness 16

  function Repeat(b: Byte, k: nat): (s: seq<Byte>)
    ensures |s| == k && forall i :: 0 <= i < k ==> s[i] == b
  {
    seq(k, _ => b)
  }

  // The bytes that fill up a block holding k bytes
  function Fill(p: Scheme, n: BlockSize, k: nat): (s: seq<Byte>)
    requires k < n
    ensures !p.NoPadding? ==> |s| == n - k
  {
    match p
    case NoPadding => []
    case Pkcs7 => Repeat(n - k, n - k)
    case OneAndZeros => [0x80] + Repeat(0, n - k - 1)
    case ZerosAndLen => Repeat(0, n - k - 1) + [n - k]
    case ZeroFill => Repeat(0, n - k)
  }

  // ----- Adding

  method AddPkcsPadding(output: array<Byte>, n: BlockSize, k: nat)
    requires k < n <= output.Length
    modifies output
    ensures output[..n] == old(output[..k]) + Fill(Pkcs7, n, k)
    ensures forall j :: k <= j < n ==> output[j] == n - k
  {
    var padding := n - k;
    var i := 0;
    while i < padding
      invariant 0 <= i <= padding && output[..k] == old(output[..k])
      invariant forall j :: k <= j < k + i ==> output[j] == padding
    {
      output[k + i] := padding;
      i := i + 1;
    }
  }

  method AddOneAndZerosPadding(output: array<Byte>, n: BlockSize, k: nat)
    requires k < n <= output.Length
    modifies output
    ensures output[..n] == old(output[..k]) + Fill(OneAndZeros, n, k)
    ensures output[k] == 0x80 && forall j :: k < j < n ==> output[j] == 0
  {
    var padding := n - k;
    output[k] := 0x80;
    var i := 1;
    while i < padding
      invariant 1 <= i <= padding && output[..k] == old(output[..k]) && output[k] == 0x80
      invariant forall j :: k < j < k + i ==> output[j] == 0
    {
      output[k + i] := 0;
      i := i + 1;
    }
  }

  method AddZerosAndLenPadding(output: array<Byte>, n: BlockSize, k: nat)
    requires k < n <= output.Length
    modifies output
    ensures output[..n] == old(output[..k]) + Fill(ZerosAndLen, n, k)
    ensures output[n - 1] == n - k && forall j :: k <= j < n - 1 ==> output[j] == 0
  {
    var padding := n - k;
    var i := 1;
    while i < padding
      invariant 1 <= i <= padding && output[..k] == old(output[..k])
      invariant forall j :: k <= j < k + i - 1 ==> output[j] == 0
    {
      output[k + i - 1] := 0;
      i := i + 1;
    }
    output[n - 1] := padding;
  }

  method AddZerosPadding(output: array<Byte>, n: BlockSize, k: nat)
    requires k < n <= output.Length
    modifies output
    ensures output[..n] == old(output[..k]) + Fill(ZeroFill, n, k)
    ensures forall j :: k <= j < n ==> output[j] == 0
  {
    var i: nat := k;
    while i < n
      invariant k <= i <= n && output[..k] == old(output[..k])
      invariant forall j :: k <= j < i ==> output[j] == 0
    {
      output[i] := 0;
      i := i + 1;
    }
  }

  method AddPadding(p: Scheme, output: array<Byte>, n: BlockSize, k: nat)
    requires !p.NoPadding? && k < n <= output.Length
    modifies output
    ensures output[..n] == old(output[..k]) + Fill(p, n, k)
  {
    match p {
      case Pkcs7 => AddPkcsPadding(output, n, k);
      case OneAndZeros => AddOneAndZerosPadding(output, n, k);
      case ZerosAndLen => AddZerosAndLenPadding(output, n, k);
      case ZeroFill => AddZerosPadding(output, n, k);
    }
  }

  // ----- Finding

  // The block b is k bytes of data and the padding for them
  predicate Padded(p: Scheme, b: seq<Byte>, k: nat)
    requires |b| == 8 || |b| == 16
  {
    k < |b| && b[k..] == Fill(p, |b|, k)
  }

  // Three schemes can be read back: the length is determined by the block
  predicate Readable(p: Scheme)
  {
    p.Pkcs7? || p.OneAndZeros? || p.ZerosAndLen?
  }

  lemma LastByte(p: Scheme, b: seq<Byte>, k: nat)
    requires (|b| == 8 || |b| == 16) && Padded(p, b, k)
    ensures p.Pkcs7? || p.ZerosAndLen? ==> b[|b| - 1] == |b| - k
    ensures p.OneAndZeros? ==> b[k] == 0x80 && forall i :: k < i < |b| ==> b[i] == 0
  {
    var n := |b|;
    assert b[k..][n - 1 - k] == b[n - 1];
    assert b[k..][0] == b[k];
    assert forall i :: k < i < n ==> b[i] == b[k..][i - k];
  }

  lemma PaddingUnique(p: Scheme, b: seq<Byte>, i: nat, j: nat)
    requires Readable(p) && (|b| == 8 || |b| == 16) && Padded(p, b, i) && Padded(p, b, j)
    ensures i == j
  {
    hide Fill;
    LastByte(p, b, i);
    LastByte(p, b, j);
  }

  lemma PkcsPadded(b: seq<Byte>, k: nat)
    requires (|b| == 8 || |b| == 16) && k < |b|
    ensures Padded(Pkcs7, b, k) <==> forall i :: k <= i < |b| ==> b[i] == |b| - k
  {
    assert forall i :: 0 <= i < |b| - k ==> b[k..][i] == b[k + i];
    assert forall i :: k <= i < |b| ==> b[i] == b[k..][i - k];
  }

  lemma LenPadded(b: seq<Byte>, k: nat)
    requires (|b| == 8 || |b| == 16) && k < |b|
    ensures Padded(ZerosAndLen, b, k) <==> b[|b| - 1] == |b| - k && forall i :: k <= i < |b| - 1 ==> b[i] == 0
  {
    assert forall i :: 0 <= i < |b| - k ==> b[k..][i] == b[k + i];
    assert forall i :: k <= i < |b| ==> b[i] == b[k..][i - k];
  }

  // Every byte is looked at, those before the padding without effect
  method GetPkcsPadding(input: seq<Byte>) returns (ok: bool, len: nat)
    requires |input| == 8 || |input| == 16
    ensures ok <==> exists k :: Padded(Pkcs7, input, k)
    ensures if ok then Padded(Pkcs7, input, len) else len == 0
  {
    hide Padded, SizeT, Pow2;
    var n := |input|;
    var padding: int := input[n - 1];
    SizeTIs(n - padding);
    var bad := padding > n;
    bad := bad || padding == 0;
    var start := SizeT(n - padding);
    ghost var bad0 := bad;
    var i := 0;
    while i < n
      invariant 0 <= i <= n
      invariant bad == (bad0 || exists j :: 0 <= j < i && j >= start && input[j] != padding)
    {
      bad := bad || (i >= start && input[i] != padding);
      i := i + 1;
    }
    if !bad {
      PkcsPadded(input, start);
    }
    forall k: nat | Padded(Pkcs7, input, k)
      ensures !bad
    {
      InBlock(Pkcs7, input, k);
      LastByte(Pkcs7, input, k);
      PkcsPadded(input, k);
    }
    return !bad, if bad then 0 else start;
  }

  lemma InBlock(p: Scheme, b: seq<Byte>, k: nat)
    requires (|b| == 8 || |b| == 16) && Padded(p, b, k)
    ensures k < |b|
  {
  }

  // The length is stored whether or not the padding is good
  method GetZerosAndLenPadding(input: seq<Byte>) returns (ok: bool, len: nat)
    requires |input| == 8 || |input| == 16
    ensures ok <==> exists k :: Padded(ZerosAndLen, input, k)
    ensures ok ==> Padded(ZerosAndLen, input, len)
    ensures len == SizeT(|input| - input[|input| - 1])
  {
    hide Padded, SizeT, Pow2;
    var n := |input|;
    var padding: int := input[n - 1];
    SizeTIs(n - padding);
    len := SizeT(n - padding);
    var bad := padding > n;
    bad := bad || padding == 0;
    var start := SizeT(n - padding);
    ghost var bad0 := bad;
    var i := 0;
    while i < n - 1
      invariant 0 <= i <= n - 1
      invariant bad == (bad0 || exists j :: 0 <= j < i && j >= start && input[j] != 0)
    {
      bad := bad || (i >= start && input[i] != 0);
      i := i + 1;
    }
    if !bad {
      LenPadded(input, start);
    }
    forall k: nat | Padded(ZerosAndLen, input, k)
      ensures !bad
    {
      InBlock(ZerosAndLen, input, k);
      LastByte(ZerosAndLen, input, k);
      LenPadded(input, k);
    }
    ok := !bad;
  }

  lemma OnePadded(b: seq<Byte>, k: nat)
    requires (|b| == 8 || |b| == 16) && k < |b|
    ensures Padded(OneAndZeros, b, k) <==> b[k] == 0x80 && forall i :: k < i < |b| ==> b[i] == 0
  {
    assert forall i :: 0 <= i < |b| - k ==> b[k..][i] == b[k + i];
    assert forall i :: k <= i < |b| ==> b[i] == b[k..][i - k];
  }

  method GetOneAndZerosPadding(input: seq<Byte>) returns (ok: bool, len: nat)
    requires |input| == 8 || |input| == 16
    ensures ok <==> exists k :: Padded(OneAndZeros, input, k)
    ensures ok ==> Padded(OneAndZeros, input, len)
  {
    hide Padded;
    var n := |input|;
    var inPadding, bad := true, true;
    len := 0;
    var i := n - 1;
    while i >= 0
      invariant -1 <= i <= n - 1
      invariant inPadding <==> forall j :: i < j < n ==> input[j] == 0
      invariant inPadding ==> bad && len == 0
      invariant !inPadding ==>
                  && i < len < n && input[len] != 0 && bad == (input[len] != 0x80)
                  && forall j :: len < j < n ==> input[j] == 0
    {
      var nonzero := input[i] != 0;
      var hit := nonzero && inPadding;
      len := if hit then i else len;
      bad := if hit then input[i] != 0x80 else bad;
      inPadding := inPadding && !nonzero;
      i := i - 1;
    }
    if !bad {
      OnePadded(input, len);
    }
    forall k: nat | Padded(OneAndZeros, input, k)
      ensures !bad
    {
      InBlock(OneAndZeros, input, k);
      OnePadded(input, k);
      assert !inPadding && (k < len || len < k || k == len);
    }
    ok := !bad;
  }

  // The data ends with its last nonzero byte
  method GetZerosPadding(input: seq<Byte>) returns (len: nat)
    ensures len <= |input| && (len > 0 ==> input[len - 1] != 0) && forall i :: len <= i < |input| ==> input[i] == 0
  {
    var done := false;
    len := 0;
    var i: nat := |input|;
    while i > 0
      invariant i <= |input|
      invariant !done ==> len == 0 && forall j :: i <= j < |input| ==> input[j] == 0
      invariant done ==> i < len <= |input| && input[len - 1] != 0 && forall j :: len <= j < |input| ==> input[j] == 0
    {
      var prevDone := done;
      done := done || input[i - 1] != 0;
      len := if done != prevDone then i else len;
      i := i - 1;
    }
  }

  // The length of the data in a block, as each get function finds it
  predicate DataLength(p: Scheme, b: seq<Byte>, len: nat)
    requires |b| == 8 || |b| == 16
  {
    match p
    case NoPadding => len == |b|
    case ZeroFill => len <= |b| && (len > 0 ==> b[len - 1] != 0) && forall i :: len <= i < |b| ==> b[i] == 0
    case _ => Padded(p, b, len)
  }

  method GetPadding(p: Scheme, input: seq<Byte>) returns (ok: bool, len: int)
    requires |input| == 8 || |input| == 16
    ensures ok <==> exists k :: DataLength(p, input, k)
    ensures ok ==> 0 <= len <= |input| && DataLength(p, input, len)
  {
    hide Fill;
    match p {
      case NoPadding => ok, len := true, |input|; assert DataLength(p, input, len);
      case Pkcs7 => ok, len := GetPkcsPadding(input);
      case OneAndZeros => ok, len := GetOneAndZerosPadding(input);
      case ZerosAndLen => ok, len := GetZerosAndLenPadding(input);
      case ZeroFill => len := GetZerosPadding(input); ok := true; assert DataLength(p, input, len);
    }
    if Readable(p) {
      assert forall k: nat :: DataLength(p, input, k) <==> Padded(p, input, k);
    }
  }

  // What adding does, finding undoes; zero filling only when it can see the end of the data
  lemma {:induction false} PadThenFind(p: Scheme, t: seq<Byte>, n: BlockSize, len: nat)
    requires !p.NoPadding? && |t| < n
    ensures Readable(p) ==> (DataLength(p, t + Fill(p, n, |t|), len) <==> len == |t|)
    ensures p.ZeroFill? ==> (DataLength(p, t + Fill(p, n, |t|), |t|) <==> |t| == 0 || t[|t| - 1] != 0)
  {
    var b := t + Fill(p, n, |t|);
    assert b[|t|..] == Fill(p, n, |t|);
    if Readable(p) {
      assert Padded(p, b, |t|);
      if Padded(p, b, len) {
        PaddingUnique(p, b, len, |t|);
      }
    }
  }
}
