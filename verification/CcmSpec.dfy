/**
 Counter with CBC-MAC as NIST SP 800-38C defines it: formatting, authentication and counter
 blocks; and the byte-wise MAC that a stream of pieces computes.
 */
module CcmSpec {
  import opened Arith
  import opened Bytes
  import opened Block
  import opened Cbc
  import opened Cmac

  // ----- A MAC that takes bytes in any portions

  // y with the bytes u added at offset o
  function XorInto(y: seq<Byte>, o: nat, u: seq<Byte>): (r: seq<Byte>)
    requires o + |u| <= |y|
    ensures |r| == |y|
  {
    y[..o] + Xor(y[o..o + |u|], u) + y[o + |u|..]
  }

  // Whole blocks are encrypted, a partial one is only added
  ghost function Absorb(c: Cipher, y: seq<Byte>, s: seq<Byte>): (r: seq<Byte>)
    requires Encrypts(c) && c.size == 16 && |y| == 16
    ensures |r| == 16
    decreases |s|
  {
    if |s| < 16 then XorInto(y, 0, s) else Absorb(c, c.enc(Xor(s[..16], y)), s[16..])
  }

  // Filled up with zeros
  function Pad16(s: seq<Byte>): seq<Byte>
  {
    s + ZeroBytes((16 - |s| % 16) % 16)
  }

  lemma XorIntoEmpty(y: seq<Byte>, o: nat)
    requires o <= |y|
    ensures XorInto(y, o, []) == y
  {
    assert Xor(y[o..o], []) == [];
  }

  lemma XorAppend(a: seq<Byte>, b: seq<Byte>, u: seq<Byte>, v: seq<Byte>)
    requires |a| == |u| && |b| == |v|
    ensures Xor(a + b, u + v) == Xor(a, u) + Xor(b, v)
  {
    hide XorByte;
  }

  // Adding s and then u behind it is adding s + u
  lemma {:induction false} XorIntoTwice(y: seq<Byte>, s: seq<Byte>, u: seq<Byte>)
    requires |s| + |u| <= |y|
    ensures XorInto(XorInto(y, 0, s), |s|, u) == XorInto(y, 0, s + u)
  {
    hide Xor;
    var a, b, r := y[..|s|], y[|s|..|s| + |u|], y[|s| + |u|..];
    assert y[0..|s|] == a && y[0..|s| + |u|] == a + b;
    var z := XorInto(y, 0, s);
    assert z == Xor(a, s) + (b + r);
    assert z[..|s|] == Xor(a, s) && z[|s|..|s| + |u|] == b && z[|s| + |u|..] == r;
    XorAppend(a, b, s, u);
  }

  lemma XorIntoAll(y: seq<Byte>, s: seq<Byte>)
    requires |s| == |y|
    ensures XorInto(y, 0, s) == Xor(s, y)
  {
    XorSwap(y, s);
    assert y[0..|s|] == y;
    hide Xor;
  }

  // One more portion that does not cross a block boundary
  lemma {:induction false} AbsorbMore(c: Cipher, y: seq<Byte>, s: seq<Byte>, e: nat, u: seq<Byte>)
    requires Encrypts(c) && c.size == 16 && |y| == 16 && e == |s| % 16 && e + |u| <= 16
    ensures var z := XorInto(Absorb(c, y, s), e, u);
            Absorb(c, y, s + u) == if e + |u| == 16 then c.enc(z) else z
    decreases |s|
  {
    hide Xor, XorInto;
    if |s| < 16 {
      AbsorbShort(c, y, s, u);
    } else {
      AbsorbMore(c, c.enc(Xor(s[..16], y)), s[16..], e, u);
      assert (s + u)[..16] == s[..16] && (s + u)[16..] == s[16..] + u;
    }
  }

  lemma {:induction false} AbsorbShort(c: Cipher, y: seq<Byte>, s: seq<Byte>, u: seq<Byte>)
    requires Encrypts(c) && c.size == 16 && |y| == 16 && |s| < 16 && |s| + |u| <= 16
    ensures var z := XorInto(XorInto(y, 0, s), |s|, u);
            Absorb(c, y, s + u) == if |s| + |u| == 16 then c.enc(z) else z
  {
    hide Xor, XorInto;
    XorIntoTwice(y, s, u);
    if |s| + |u| == 16 {
      XorIntoAll(y, s + u);
      var w := c.enc(Xor(s + u, y));
      assert (s + u)[..16] == s + u && (s + u)[16..] == [];
      XorIntoEmpty(w, 0);
    }
  }

  lemma {:induction false} AbsorbWhole(c: Cipher, y: seq<Byte>, s: seq<Byte>)
    requires Encrypts(c) && c.size == 16 && |y| == 16 && |s| % 16 == 0
    ensures Absorb(c, y, s) == MacBlocks(c, y, s)
    decreases |s|
  {
    hide Xor, XorInto;
    if |s| < 16 {
      assert s == [];
      XorIntoEmpty(y, 0);
    } else {
      AbsorbWhole(c, c.enc(Xor(s[..16], y)), s[16..]);
    }
  }

  // A partial last block is completed by encrypting it
  lemma {:induction false} AbsorbLast(c: Cipher, y: seq<Byte>, s: seq<Byte>)
    requires Encrypts(c) && c.size == 16 && |y| == 16
    ensures MacBlocks(c, y, Pad16(s)) == if |s| % 16 == 0 then Absorb(c, y, s) else c.enc(Absorb(c, y, s))
  {
    hide Xor, XorInto, Absorb, MacBlocks;
    var e := |s| % 16;
    if e == 0 {
      assert Pad16(s) == s;
      AbsorbWhole(c, y, s);
    } else {
      var z := ZeroBytes(16 - e);
      AbsorbMore(c, y, s, e, z);
      XorIntoZeros(Absorb(c, y, s), e, 16 - e);
      AbsorbWhole(c, y, s + z);
    }
  }

  // The MAC after the bytes s, closed if they are all
  ghost predicate MacOfBytes(c: Cipher, y0: seq<Byte>, s: seq<Byte>, closed: bool, y: seq<Byte>)
    requires Encrypts(c) && c.size == 16
  {
    |y0| == 16 && y == if closed then MacBlocks(c, y0, Pad16(s)) else Absorb(c, y0, s)
  }

  // What the code does with a portion: add it, and encrypt at the end of a block or of the data
  function Mixed(c: Cipher, y: seq<Byte>, o: nat, u: seq<Byte>, last: bool): (r: seq<Byte>)
    requires Encrypts(c) && c.size == 16 && |y| == 16 && o + |u| <= 16
    ensures |r| == 16
  {
    var z := XorInto(y, o, u);
    if o + |u| == 16 || last then c.enc(z) else z
  }

  lemma {:induction false} MacStep(c: Cipher, y0: seq<Byte>, s: seq<Byte>, y: seq<Byte>, e: nat, u: seq<Byte>,
                                   closed: bool)
    requires Encrypts(c) && c.size == 16 && MacOfBytes(c, y0, s, false, y) && e == |s| % 16 && 0 < |u| <= 16 - e
    ensures |y| == 16
    ensures MacOfBytes(c, y0, s + u, closed, Mixed(c, y, e, u, closed))
  {
    hide Xor, XorInto, Absorb, MacBlocks, Pad16;
    AbsorbMore(c, y0, s, e, u);
    AbsorbLast(c, y0, s + u);
    PartLength(|s|, |u|, e);
  }

  lemma PartLength(x: nat, k: nat, e: nat)
    requires e == x % 16 && 0 < k <= 16 - e
    ensures (x + k) % 16 == 0 <==> e + k == 16
  {
  }

  lemma XorIntoZeros(y: seq<Byte>, o: nat, k: nat)
    requires o + k <= |y|
    ensures XorInto(y, o, ZeroBytes(k)) == y
  {
    hide XorByte;
    var m := y[o..o + k];
    forall i | 0 <= i < k
      ensures XorByte(m[i], 0) == m[i]
    {
      XorByteZero(m[i]);
    }
    XorAt(m, ZeroBytes(k));
    assert Xor(m, ZeroBytes(k)) == m;
    hide Xor;
    assert y == y[..o] + m + y[o + k..];
  }

  // ----- Counter blocks and the key stream

  predicate IsNonce(q: nat, nonce: seq<Byte>)
  {
    2 <= q <= 8 && |nonce| == 15 - q
  }

  // Counter block i
  function Ctr(q: nat, nonce: seq<Byte>, i: nat): (r: seq<Byte>)
    requires IsNonce(q, nonce)
    ensures |r| == 16
  {
    [q - 1] + nonce + BeBytes(i, q)
  }

  ghost function KeyBlock(c: Cipher, q: nat, nonce: seq<Byte>, i: nat): (r: seq<Byte>)
    requires Encrypts(c) && c.size == 16 && IsNonce(q, nonce)
    ensures |r| == 16
  {
    c.enc(Ctr(q, nonce, i))
  }

  // The key stream byte for message byte k
  ghost function KeyByte(c: Cipher, q: nat, nonce: seq<Byte>, k: nat): Byte
    requires Encrypts(c) && c.size == 16 && IsNonce(q, nonce)
  {
    KeyBlock(c, q, nonce, 1 + k / 16)[k % 16]
  }

  ghost function Keyed(c: Cipher, q: nat, nonce: seq<Byte>, s: seq<Byte>): (r: seq<Byte>)
    requires Encrypts(c) && c.size == 16 && IsNonce(q, nonce)
    ensures |r| == |s|
  {
    seq(|s|, k requires 0 <= k < |s| => XorByte(s[k], KeyByte(c, q, nonce, k)))
  }

  lemma KeyedTwice(c: Cipher, q: nat, nonce: seq<Byte>, s: seq<Byte>)
    requires Encrypts(c) && c.size == 16 && IsNonce(q, nonce)
    ensures Keyed(c, q, nonce, Keyed(c, q, nonce, s)) == s
  {
    hide XorByte, KeyByte;
    var r := Keyed(c, q, nonce, s);
    forall k | 0 <= k < |s|
      ensures XorByte(r[k], KeyByte(c, q, nonce, k)) == s[k]
    {
      XorByteTwice(s[k], KeyByte(c, q, nonce, k));
    }
  }

  // A portion within one block
  lemma {:induction false} KeyedMore(c: Cipher, q: nat, nonce: seq<Byte>, s: seq<Byte>, u: seq<Byte>)
    requires Encrypts(c) && c.size == 16 && IsNonce(q, nonce) && |s| % 16 + |u| <= 16
    ensures var e := |s| % 16;
            Keyed(c, q, nonce, s + u) == Keyed(c, q, nonce, s) + Xor(u, KeyBlock(c, q, nonce, 1 + |s| / 16)[e..e + |u|])
  {
    hide XorByte, KeyBlock;
    var e, b := |s| % 16, KeyBlock(c, q, nonce, 1 + |s| / 16);
    var w := b[e..e + |u|];
    XorAt(u, w);
    forall k | 0 <= k < |u|
      ensures KeyByte(c, q, nonce, |s| + k) == w[k]
    {
      assert (|s| + k) / 16 == |s| / 16 && (|s| + k) % 16 == e + k;
    }
  }

  // The counter block for message byte k
  function ByteCtr(q: nat, nonce: seq<Byte>, k: nat): (r: seq<Byte>)
    requires IsNonce(q, nonce)
    ensures |r| == 16
  {
    Ctr(q, nonce, 1 + k / 16)
  }

  // No byte of a message of this length is under the counter of the tag
  ghost predicate TagCounterFree(q: nat, nonce: seq<Byte>, len: nat)
    requires IsNonce(q, nonce)
  {
    forall k: nat :: k < len ==> ByteCtr(q, nonce, k) != Ctr(q, nonce, 0)
  }

  // No two blocks of a message of this length are under one counter
  ghost predicate CountersDistinct(q: nat, nonce: seq<Byte>, len: nat)
    requires IsNonce(q, nonce)
  {
    forall j: nat, k: nat :: j < len && k < len && ByteCtr(q, nonce, j) == ByteCtr(q, nonce, k) ==> j / 16 == k / 16
  }

  // The tag's counter stays unused exactly up to 2^(8q) - 1 blocks
  lemma {:induction false} TagCounterFreeUpTo(q: nat, nonce: seq<Byte>, len: nat)
    requires IsNonce(q, nonce)
    ensures TagCounterFree(q, nonce, len) <==> (len + 15) / 16 < Pow2(8 * q)
  {
    hide Ctr, Pow2;
    var w := Pow2(8 * q);
    if (len + 15) / 16 < w {
      forall k: nat | k < len
        ensures ByteCtr(q, nonce, k) != Ctr(q, nonce, 0)
      {
        CtrEqual(q, nonce, 1 + k / 16, 0);
        ModSmall(1 + k / 16, w);
        ModSmall(0, w);
      }
    } else {
      var k := 16 * (w - 1);
      assert 1 + k / 16 == w && k < len;
      ModAddMultiple(0, 1, w);
      CtrEqual(q, nonce, w, 0);
      assert ByteCtr(q, nonce, k) == Ctr(q, nonce, 0);
    }
  }

  // No counter repeats exactly up to 2^(8q) blocks
  lemma {:induction false} CountersDistinctUpTo(q: nat, nonce: seq<Byte>, len: nat)
    requires IsNonce(q, nonce)
    ensures CountersDistinct(q, nonce, len) <==> (len + 15) / 16 <= Pow2(8 * q)
  {
    hide Ctr, Pow2;
    var w := Pow2(8 * q);
    if (len + 15) / 16 <= w {
      forall j: nat, k: nat | j < len && k < len && ByteCtr(q, nonce, j) == ByteCtr(q, nonce, k)
        ensures j / 16 == k / 16
      {
        CtrEqual(q, nonce, 1 + j / 16, 1 + k / 16);
        CongAdd(1 + j / 16, 1 + k / 16, 1, 1, w);
        CongReduced(j / 16, k / 16, w);
      }
    } else {
      var k := 16 * w;
      assert k / 16 == w && k < len;
      ModAddMultiple(1, 1, w);
      CtrEqual(q, nonce, 1, 1 + w);
      assert ByteCtr(q, nonce, 0) == ByteCtr(q, nonce, k);
    }
  }

  // The counter wraps at q bytes
  lemma {:induction false} CtrEqual(q: nat, nonce: seq<Byte>, i: nat, j: nat)
    requires IsNonce(q, nonce)
    ensures Ctr(q, nonce, i) == Ctr(q, nonce, j) <==> Cong(i, j, Pow2(8 * q))
  {
    hide BeBytes, Pow2, Be;
    assert Ctr(q, nonce, i)[16 - q..] == BeBytes(i, q) && Ctr(q, nonce, j)[16 - q..] == BeBytes(j, q);
    BeOfBytesMod(i, q);
    BeOfBytesMod(j, q);
    if Cong(i, j, Pow2(8 * q)) {
      BeInjective(BeBytes(i, q), BeBytes(j, q));
    }
  }

  // ----- Formatting (appendix A.2)

  function Flags(hasData: bool, t: nat, q: nat): nat
    requires t >= 2 && q >= 1
  {
    (if hasData then 64 else 0) + (t - 2) / 2 * 8 + (q - 1)
  }

  predicate IsTagLength(t: nat)
  {
    4 <= t <= 16 && t % 2 == 0
  }

  // The first block
  function FirstBlock(q: nat, nonce: seq<Byte>, alen: nat, plen: nat, t: nat): (r: seq<Byte>)
    requires IsNonce(q, nonce) && IsTagLength(t)
    ensures |r| == 16
  {
    [Flags(alen > 0, t, q)] + nonce + BeBytes(plen, q)
  }

  // The associated data with its length, which the code limits to 0xFF00
  function DataBlocks(a: seq<Byte>): seq<Byte>
  {
    if |a| == 0 then [] else Pad16(BeBytes(|a|, 2) + a)
  }

  // First block, associated data and message: the string the MAC is taken of
  function Formatting(q: nat, nonce: seq<Byte>, a: seq<Byte>, p: seq<Byte>, t: nat): seq<Byte>
    requires IsNonce(q, nonce) && IsTagLength(t)
  {
    FirstBlock(q, nonce, |a|, |p|, t) + DataBlocks(a) + Pad16(p)
  }

  ghost function Mac(c: Cipher, q: nat, nonce: seq<Byte>, a: seq<Byte>, p: seq<Byte>, t: nat): (r: seq<Byte>)
    requires Encrypts(c) && c.size == 16 && IsNonce(q, nonce) && IsTagLength(t)
    ensures |r| == 16
  {
    MacBlocks(c, ZeroBytes(16), Formatting(q, nonce, a, p, t))
  }

  ghost function Tag(c: Cipher, q: nat, nonce: seq<Byte>, a: seq<Byte>, p: seq<Byte>, t: nat): (r: seq<Byte>)
    requires Encrypts(c) && c.size == 16 && IsNonce(q, nonce) && IsTagLength(t)
    ensures |r| == t
  {
    Xor(Mac(c, q, nonce, a, p, t), KeyBlock(c, q, nonce, 0))[..t]
  }

  // ----- What the standard demands of the formatting (section 5.4)

  // The first byte tells whether there is associated data, the tag length and q; nonce and length
  // of the message follow
  lemma {:induction false} FirstBlockTells(q: nat, nonce: seq<Byte>, alen: nat, plen: nat, t: nat)
    requires IsNonce(q, nonce) && IsTagLength(t) && plen < Pow2(8 * q)
    ensures var b := FirstBlock(q, nonce, alen, plen, t);
            && b[0] < 128 && (b[0] / 64 % 2 == 1 <==> alen > 0) && b[0] / 8 % 8 == (t - 2) / 2 && b[0] % 8 == q - 1
            && b[1..16 - q] == nonce && Be(b[16 - q..]) == plen
  {
    hide BeBytes, Be, Pow2;
    var b := FirstBlock(q, nonce, alen, plen, t);
    BeOfBytes(plen, q);
    assert b[1..16 - q] == nonce && b[16 - q..] == BeBytes(plen, q);
  }

  // No first block is a counter block, whatever the nonces
  lemma FirstBlockIsNoCounter(q: nat, nonce: seq<Byte>, alen: nat, plen: nat, t: nat, r: nat, other: seq<Byte>, i: nat)
    requires IsNonce(q, nonce) && IsTagLength(t) && IsNonce(r, other)
    ensures FirstBlock(q, nonce, alen, plen, t) != Ctr(r, other, i)
  {
    hide BeBytes;
    assert FirstBlock(q, nonce, alen, plen, t)[0] >= 8 && Ctr(r, other, i)[0] < 8;
  }

  // Under one nonce, no formatted input is the beginning of another
  lemma {:induction false} FormattingPrefixFree(q: nat, nonce: seq<Byte>, a: seq<Byte>, p: seq<Byte>, a': seq<Byte>,
                                                p': seq<Byte>, t: nat)
    requires IsNonce(q, nonce) && IsTagLength(t) && |a| < 0xFF00 && |a'| < 0xFF00
    requires |p| < Pow2(8 * q) && |p'| < Pow2(8 * q)
    requires Formatting(q, nonce, a, p, t) <= Formatting(q, nonce, a', p', t)
    ensures a == a' && p == p'
  {
    hide FirstBlock, DataBlocks, Pad16, Pow2;
    var f, f' := FirstBlock(q, nonce, |a|, |p|, t), FirstBlock(q, nonce, |a'|, |p'|, t);
    var d, d', m, m' := DataBlocks(a), DataBlocks(a'), Pad16(p), Pad16(p');
    assert f + d + m == f + (d + m) && f' + d' + m' == f' + (d' + m');
    HeadsAgree(f, d + m, f', d' + m');
    FirstBlockTells(q, nonce, |a|, |p|, t);
    FirstBlockTells(q, nonce, |a'|, |p'|, t);
    DataPrefix(a, m, a', m');
    PadSize(p);
    PadSize(p');
    assert m == m';
    assert p == m[..|p|] && p' == m'[..|p'|] by { PadFront(p); PadFront(p'); }
  }

  lemma HeadsAgree<T>(f: seq<T>, r: seq<T>, f': seq<T>, r': seq<T>)
    requires |f| == |f'| && f + r <= f' + r'
    ensures f == f' && r <= r'
  {
    assert (f + r)[..|f|] == f && (f' + r')[..|f|] == f';
    assert (f + r)[|f|..] == r && (f' + r')[|f|..] == r';
    assert (f' + r')[|f|..|f + r|] == r;
  }

  lemma PadSize(p: seq<Byte>)
    ensures |Pad16(p)| == (|p| + 15) / 16 * 16
  {
  }

  lemma PadFront(p: seq<Byte>)
    ensures |p| <= |Pad16(p)| && Pad16(p)[..|p|] == p
  {
  }

  lemma {:induction false} DataPrefix(a: seq<Byte>, m: seq<Byte>, a': seq<Byte>, m': seq<Byte>)
    requires |a| < 0xFF00 && |a'| < 0xFF00 && (|a| > 0 <==> |a'| > 0) && DataBlocks(a) + m <= DataBlocks(a') + m'
    ensures a == a' && m <= m'
  {
    hide BeBytes, Pad16;
    if |a| > 0 {
      var s, s' := BeBytes(|a|, 2) + a, BeBytes(|a'|, 2) + a';
      PadFront(s);
      PadFront(s');
      PadSize(s);
      PadSize(s');
      var h, h' := Pad16(s), Pad16(s');
      LengthFront(a, h, m, a', h', m');
      HeadsAgree(h, m, h', m');
      assert s == h[..|s|] && s' == h'[..|s'|];
      assert a == s[2..] && a' == s'[2..];
    } else {
      assert a == [] && a' == [] && [] + m == m && [] + m' == m';
    }
  }

  lemma {:induction false} LengthFront(a: seq<Byte>, h: seq<Byte>, m: seq<Byte>, a': seq<Byte>, h': seq<Byte>,
                                       m': seq<Byte>)
    requires |a| < 0xFF00 && |a'| < 0xFF00 && |h| >= 2 && |h'| >= 2 && h + m <= h' + m'
    requires h[..2] == BeBytes(|a|, 2) && h'[..2] == BeBytes(|a'|, 2)
    ensures |a| == |a'|
  {
    hide BeBytes, Be;
    assert h[..2] == [(h + m)[0], (h + m)[1]] && h'[..2] == [(h' + m')[0], (h' + m')[1]];
    assert Pow2(16) == 65536 by { SmallPow2(); Pow2Add(8, 8); }
    BeOfBytes(|a|, 2);
    BeOfBytes(|a'|, 2);
  }

  // ----- Tag and ciphertext written out (sections 6.1 and A.2)

  lemma {:induction false} TagWrittenOut(c: Cipher, q: nat, nonce: seq<Byte>, a: seq<Byte>, p: seq<Byte>, t: nat)
    requires Encrypts(c) && c.size == 16 && IsNonce(q, nonce) && IsTagLength(t) && |a| < 0xFF00
    ensures var flags := (if |a| > 0 then 64 else 0) + (t - 2) / 2 * 8 + (q - 1);
            var data := if |a| == 0 then [] else Pad16([|a| / 256, |a| % 256] + a);
            var s := [flags] + nonce + BeBytes(|p|, q) + data + Pad16(p);
            var mac := LastOf(ZeroBytes(16), CbcEnc(c, ZeroBytes(16), s));
            Tag(c, q, nonce, a, p, t) == Xor(mac, c.enc([q - 1] + nonce + ZeroBytes(q)))[..t]
  {
    hide Xor, LastOf, CbcEnc, MacBlocks, BeBytes, Pad16;
    if |a| > 0 {
      TwoBytes(|a|);
    }
    ZeroCount(q);
    var s := Formatting(q, nonce, a, p, t);
    PadSize(p);
    PadSize(BeBytes(|a|, 2) + a);
    MacIsLastOfCbc(c, ZeroBytes(16), s);
  }

  lemma ZeroCount(q: nat)
    ensures BeBytes(0, q) == ZeroBytes(q)
  {
    hide Reversed, Pow2;
    forall i | 0 <= i < q
      ensures BeBytes(0, q)[i] == 0
    {
      ReversedAt(Digits256(0, q), i);
      ModSmall(0, Pow2(8 * (q - 1 - i)));
    }
  }

  lemma TwoBytes(v: nat)
    requires v < 0x1_0000
    ensures BeBytes(v, 2) == [v / 256, v % 256]
  {
    hide Reversed;
    var d := Digits256(v, 2);
    assert Pow2(0) == 1 && Pow2(8) == 256;
    ReversedAt(d, 0);
    ReversedAt(d, 1);
  }

  // Byte k of a message is under byte k mod 16 of the encrypted counter block 1 + k / 16
  lemma KeyedWrittenOut(c: Cipher, q: nat, nonce: seq<Byte>, s: seq<Byte>, k: nat)
    requires Encrypts(c) && c.size == 16 && IsNonce(q, nonce) && k < |s|
    ensures var b := c.enc([q - 1] + nonce + BeBytes(1 + k / 16, q));
            |b| == 16 && Keyed(c, q, nonce, s)[k] == XorByte(s[k], b[k % 16])
  {
    hide XorByte, BeBytes;
  }
}
