/**
 Byte strings under exclusive or, and a block cipher as a pair of functions on blocks.
 */
module Block {
  import opened Arith
  import opened Bytes
  import Bits

  lemma XorByteBound(x: Byte, y: Byte)
    ensures Bits.Xor(x, y) < 256
  {
    assert Pow2(8) == 256;
    Bits.XorBound(x, y, 8);
  }

  function XorByte(x: Byte, y: Byte): Byte
  {
    XorByteBound(x, y);
    Bits.Xor(x, y)
  }

  function Xor(a: seq<Byte>, b: seq<Byte>): (r: seq<Byte>)
    requires |a| == |b|
    ensures |r| == |a|
  {
    seq(|a|, i requires 0 <= i < |a| => XorByte(a[i], b[i]))
  }

  lemma XorAt(a: seq<Byte>, b: seq<Byte>)
    requires |a| == |b|
    ensures forall i :: 0 <= i < |a| ==> Xor(a, b)[i] == XorByte(a[i], b[i])
  {
    hide XorByte;
  }

  lemma XorTwice(a: seq<Byte>, b: seq<Byte>)
    requires |a| == |b|
    ensures Xor(Xor(a, b), b) == a
  {
    hide XorByte;
    forall i | 0 <= i < |a|
      ensures XorByte(XorByte(a[i], b[i]), b[i]) == a[i]
    {
      XorByteTwice(a[i], b[i]);
    }
  }

  lemma XorByteTwice(x: Byte, y: Byte)
    ensures XorByte(XorByte(x, y), y) == x
  {
    Bits.XorTwice(x, y);
  }

  lemma XorSwap(a: seq<Byte>, b: seq<Byte>)
    requires |a| == |b|
    ensures Xor(a, b) == Xor(b, a)
  {
    hide XorByte;
    forall i | 0 <= i < |a|
      ensures XorByte(a[i], b[i]) == XorByte(b[i], a[i])
    {
      XorByteSwap(a[i], b[i]);
    }
  }

  lemma XorByteSwap(x: Byte, y: Byte)
    ensures XorByte(x, y) == XorByte(y, x)
  {
    Bits.XorSwap(x, y);
  }

  lemma XorByteZero(x: Byte)
    ensures XorByte(x, 0) == x && XorByte(0, x) == x
  {
    Bits.XorZero(x);
  }

  // A keyed block cipher with blocks of size bytes
  datatype Cipher = Cipher(size: nat, enc: seq<Byte> -> seq<Byte>, dec: seq<Byte> -> seq<Byte>)

  // Encryption maps blocks to blocks
  ghost predicate Encrypts(c: Cipher)
  {
    (c.size == 8 || c.size == 16) && forall b :: |b| == c.size ==> |c.enc(b)| == c.size
  }

  // Decryption inverts encryption
  ghost predicate Inverts(c: Cipher)
  {
    && Encrypts(c)
    && (forall b :: |b| == c.size ==> |c.dec(b)| == c.size)
    && (forall b :: |b| == c.size ==> c.dec(c.enc(b)) == b)
  }

  lemma BackAndForth(c: Cipher, b: seq<Byte>)
    requires Inverts(c) && |b| == c.size
    ensures |c.enc(b)| == c.size && |c.dec(b)| == c.size && c.dec(c.enc(b)) == b
  {
  }

  // The length of the partial last block, for blocks of 8 or 16 bytes
  function Rem(x: nat, size: nat): nat
  {
    if size == 8 then x % 8 else x % 16
  }

  lemma RemSmall(x: nat, n: nat)
    requires (n == 8 || n == 16) && x < n
    ensures Rem(x, n) == x
  {
  }

  lemma RemStep(x: nat, n: nat)
    requires (n == 8 || n == 16) && x >= n
    ensures Rem(x - n, n) == Rem(x, n) < n
  {
  }

  lemma RemWhole(x: nat, n: nat)
    requires (n == 8 || n == 16) && Rem(x, n) == 0
    ensures x == 0 || x >= n
  {
  }

  // All the pieces, one after another
  function Concat<T>(pieces: seq<seq<T>>): seq<T>
  {
    if |pieces| == 0 then [] else Concat(pieces[..|pieces| - 1]) + pieces[|pieces| - 1]
  }
}
