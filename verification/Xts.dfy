/**
 AES-XTS (aes.c): tweaked encryption of a data unit, with ciphertext stealing for a partial
 last block.
 */
module Xts {
  import opened Arith
  import opened Bytes
  import opened Block
  import Bits

  // ----- The tweak

  // Doubling on two halves of n bits: the low half receives the reduction r when the top bit
  // leaves, and its own top bit moves up
  function LowHalf(a: nat, b: nat, n: nat, r: Byte): nat
    requires n > 0 && a < Pow2(n) && b < Pow2(n)
  {
    Bits.TopBitOf(b, n);
    Bits.DoubleWord(a, n);
    Bits.Xor(2 * a % Pow2(n), r / Pow2(8 - b / Pow2(n - 1) * 8))
  }

  function HighHalf(a: nat, b: nat, n: nat): nat
    requires n > 0 && a < Pow2(n) && b < Pow2(n)
  {
    Bits.DoubleWord(a, n);
    Bits.DoubleWord(b, n);
    a / Pow2(n - 1) + 2 * b % Pow2(n)
  }

  lemma {:induction false} HalvesTimesX(a: nat, b: nat, n: nat, r: Byte)
    requires n >= 8 && a < Pow2(n) && b < Pow2(n)
    ensures LowHalf(a, b, n, r) < Pow2(n) && HighHalf(a, b, n) < Pow2(n)
    ensures LowHalf(a, b, n, r) + Pow2(n) * HighHalf(a, b, n) == Bits.TimesX(a + Pow2(n) * b, 2 * n, r)
  {
    hide Pow2, Bits.Xor, Bits.TimesX;
    Bits.DoubleWord(a, n);
    Bits.DoubleWord(b, n);
    Bits.TopBitOf(b, n);
    ReductionByte(r);
    var w := Pow2(n);
    Pow2Add(n, n);
    var p, c, q, d := 2 * a % w, a / Pow2(n - 1), 2 * b % w, b / Pow2(n - 1);
    BelowSquare(a, b, w);
    JoinDoubles(a, b, p, c, q, d, w);
    FinishTimesX(a + w * b, p, c + q, d, n, r);
  }

  lemma ReductionByte(r: Byte)
    ensures r / Pow2(0) == r && r / Pow2(8) == 0
  {
    assert Pow2(0) == 1 && Pow2(8) == 256;
  }

  lemma BelowSquare(a: nat, b: nat, w: nat)
    requires a < w && b < w
    ensures 0 <= a + w * b < w * w
  {
    MulLe(w, w, b, w - 1);
    MulDistrib(w, w - 1, 1);
  }

  lemma JoinDoubles(a: nat, b: nat, p: nat, c: nat, q: nat, d: nat, w: nat)
    requires 2 * a == p + w * c && 2 * b == q + w * d
    ensures 2 * (a + w * b) == p + w * (c + q) + d * (w * w)
  {
    MulDistrib(w, c, q);
    MulDistrib(w, q, w * d);
    MulAssoc(w, w, d);
    assert w * (2 * b) == 2 * (w * b) by { MulAssoc(w, 2, b); MulAssoc(2, w, b); }
  }

  lemma {:induction false} FinishTimesX(v: nat, p: nat, high: nat, top: nat, n: nat, r: Byte)
    requires n >= 8 && v < Pow2(2 * n) == Pow2(n) * Pow2(n) && p < Pow2(n) && high < Pow2(n) && top <= 1
    requires 2 * v == p + Pow2(n) * high + top * (Pow2(n) * Pow2(n))
    ensures Bits.Xor(p, if top == 1 then r else 0) < Pow2(n)
    ensures Bits.Xor(p, if top == 1 then r else 0) + Pow2(n) * high == Bits.TimesX(v, 2 * n, r)
  {
    hide Pow2, Bits.Xor, Bits.TimesX;
    BelowSquare(p, high, Pow2(n));
    ByteBelow256(r, n);
    ByteBelow256(r, 2 * n);
    Bits.TimesXBound(v, 2 * n, r);
    if top == 1 {
      Bits.AddReduction(p, high, n, r);
    } else {
      Bits.XorZero(p);
    }
  }

  lemma ByteBelow256(r: Byte, n: nat)
    requires n >= 8
    ensures r < Pow2(n)
  {
    assert Pow2(8) == 256;
    Pow2Mono(8, n);
  }

  // gf128mul_x_ble
  function MulX(x: seq<Byte>): (r: seq<Byte>)
    requires |x| == 16
    ensures |r| == 16
  {
    MulXWith(x, 8, 0x87)
  }

  function MulXWith(x: seq<Byte>, k: nat, r: Byte): (m: seq<Byte>)
    requires k > 0 && |x| == 2 * k
    ensures |m| == 2 * k
  {
    LeBound(x[..k]);
    LeBound(x[k..]);
    var a, b := Le(x[..k]), Le(x[k..]);
    Digits256(LowHalf(a, b, 8 * k, r), k) + Digits256(HighHalf(a, b, 8 * k), k)
  }

  lemma {:induction false} MulXWithIsTimesX(x: seq<Byte>, k: nat, r: Byte)
    requires k > 0 && |x| == 2 * k
    ensures Le(MulXWith(x, k, r)) == Bits.TimesX(Le(x), 2 * (8 * k), r)
  {
    hide Le, LowHalf, HighHalf, Pow2, Bits.TimesX;
    LeBound(x[..k]);
    LeBound(x[k..]);
    var a, b := Le(x[..k]), Le(x[k..]);
    HalvesTimesX(a, b, 8 * k, r);
    var l, h := LowHalf(a, b, 8 * k, r), HighHalf(a, b, 8 * k);
    assert x == x[..k] + x[k..];
    LeAppend(x[..k], x[k..]);
    LeDigits(l, k);
    LeDigits(h, k);
    ModSmall(l, Pow2(8 * k));
    ModSmall(h, Pow2(8 * k));
    LeAppend(Digits256(l, k), Digits256(h, k));
  }

  // The tweak is multiplied by x in GF(2^128), the first byte holding the low coefficients
  lemma {:induction false} MulXIsTimesX(x: seq<Byte>)
    requires |x| == 16
    ensures Le(MulX(x)) == Bits.TimesX(Le(x), 128, 0x87)
  {
    hide Le, MulXWith, Bits.TimesX;
    MulXWithIsTimesX(x, 8, 0x87);
  }

  // ----- The mode, as IEEE 1619 defines it

  // The tweak of block i
  function Tweak(t: seq<Byte>, i: nat): (r: seq<Byte>)
    requires |t| == 16
    ensures |r| == 16
  {
    if i == 0 then t else MulX(Tweak(t, i - 1))
  }

  ghost predicate OnBlocks(f: seq<Byte> -> seq<Byte>)
  {
    forall b :: |b| == 16 ==> |f(b)| == 16
  }

  ghost function Tweaked(f: seq<Byte> -> seq<Byte>, t: seq<Byte>, b: seq<Byte>): (r: seq<Byte>)
    requires OnBlocks(f) && |t| == 16 && |b| == 16
    ensures |r| == 16
  {
    Xor(f(Xor(b, t)), t)
  }

  // The first m blocks
  ghost function Blocks(f: seq<Byte> -> seq<Byte>, t: seq<Byte>, s: seq<Byte>, m: nat): (r: seq<Byte>)
    requires OnBlocks(f) && |t| == 16 && 16 * m <= |s|
    ensures |r| == 16 * m
    decreases m
  {
    if m == 0 then [] else Blocks(f, t, s, m - 1) + Tweaked(f, Tweak(t, m - 1), s[16 * m - 16..16 * m])
  }

  // The last full block with tweak number j, the stolen rest with tweak number k
  ghost function Stolen(f: seq<Byte> -> seq<Byte>, t: seq<Byte>, s: seq<Byte>, j: nat, k: nat): (r: seq<Byte>)
    requires OnBlocks(f) && |t| == 16 && |s| >= 16
    ensures |r| == |s|
  {
    var m, l := |s| / 16, |s| % 16;
    var x := Tweaked(f, Tweak(t, j), s[16 * m - 16..16 * m]);
    Blocks(f, t, s, m - 1) + Tweaked(f, Tweak(t, k), s[16 * m..] + x[l..]) + x[..l]
  }

  ghost function Encrypted(c: Cipher, t: seq<Byte>, s: seq<Byte>): (r: seq<Byte>)
    requires OnBlocks(c.enc) && |t| == 16 && |s| >= 16
    ensures |r| == |s|
  {
    var m := |s| / 16;
    if |s| % 16 == 0 then Blocks(c.enc, t, s, m) else Stolen(c.enc, t, s, m - 1, m)
  }

  ghost function Decrypted(c: Cipher, t: seq<Byte>, s: seq<Byte>): (r: seq<Byte>)
    requires OnBlocks(c.dec) && |t| == 16 && |s| >= 16
    ensures |r| == |s|
  {
    var m := |s| / 16;
    if |s| % 16 == 0 then Blocks(c.dec, t, s, m) else Stolen(c.dec, t, s, m, m - 1)
  }

  // ----- The mode written out

  lemma {:induction false} BlocksAt(f: seq<Byte> -> seq<Byte>, t: seq<Byte>, s: seq<Byte>, m: nat, j: nat)
    requires OnBlocks(f) && |t| == 16 && 16 * m <= |s| && j < m
    ensures Blocks(f, t, s, m)[16 * j..16 * j + 16] ==
            Xor(f(Xor(s[16 * j..16 * j + 16], Tweak(t, j))), Tweak(t, j))
    decreases m
  {
    hide Xor, Tweak;
    var r, h := Blocks(f, t, s, m), Blocks(f, t, s, m - 1);
    assert r[..16 * m - 16] == h && r[16 * m - 16..] == Tweaked(f, Tweak(t, m - 1), s[16 * m - 16..16 * m]);
    if j < m - 1 {
      BlocksAt(f, t, s, m - 1, j);
      assert r[16 * j..16 * j + 16] == h[16 * j..16 * j + 16];
    }
  }

  // The tweaks: the encrypted data unit, multiplied by x from block to block
  lemma {:induction false} TweakPowers(t: seq<Byte>, i: nat)
    requires |t| == 16
    ensures Tweak(t, 0) == t && Le(Tweak(t, i + 1)) == Bits.TimesX(Le(Tweak(t, i)), 128, 0x87)
  {
    hide Le, MulX, Bits.TimesX;
    MulXIsTimesX(Tweak(t, i));
  }

  // Every block outside stealing on its own, f being the cipher in one direction
  ghost predicate EachBlock(f: seq<Byte> -> seq<Byte>, t: seq<Byte>, s: seq<Byte>, out: seq<Byte>)
    requires OnBlocks(f) && |t| == 16 && |s| == |out|
  {
    forall j: nat :: 16 * j + 16 <= |s| && (|s| % 16 > 0 ==> 16 * j + 32 <= |s|) ==>
      out[16 * j..16 * j + 16] == Xor(f(Xor(s[16 * j..16 * j + 16], Tweak(t, j))), Tweak(t, j))
  }

  // The last full block and the tail behind it, under tweaks first and second: x is made of the
  // block; the tail and the end of x are made into its place, and the start of x is the tail
  ghost predicate LastTwo(f: seq<Byte> -> seq<Byte>, first: seq<Byte>, second: seq<Byte>, block: seq<Byte>,
                          tail: seq<Byte>, out: seq<Byte>)
    requires OnBlocks(f) && |first| == |second| == |block| == 16 && |tail| < 16
  {
    var x := Xor(f(Xor(block, first)), first);
    out == Xor(f(Xor(tail + x[|tail|..], second)), second) + x[..|tail|]
  }

  // All of it; decryption exchanges the last two tweaks
  ghost predicate WrittenOut(c: Cipher, decrypt: bool, t: seq<Byte>, s: seq<Byte>, out: seq<Byte>)
    requires OnBlocks(c.enc) && OnBlocks(c.dec) && |t| == 16 <= |s| == |out|
  {
    var f, m := if decrypt then c.dec else c.enc, |s| / 16;
    && EachBlock(f, t, s, out)
    && (|s| % 16 > 0 ==>
          LastTwo(f, Tweak(t, if decrypt then m else m - 1), Tweak(t, if decrypt then m - 1 else m),
                  s[16 * m - 16..16 * m], s[16 * m..], out[16 * m - 16..]))
  }

  lemma {:induction false} CryptedWrittenOut(c: Cipher, decrypt: bool, t: seq<Byte>, s: seq<Byte>)
    requires Inverts(c) && c.size == 16 && |t| == 16 && |s| >= 16
    ensures OnBlocks(c.enc) && OnBlocks(c.dec) && WrittenOut(c, decrypt, t, s, Crypted(c, decrypt, t, s))
  {
    hide Xor, Tweak, Inverts, Blocks, EachBlock, LastTwo, Tweaked;
    UseInverts(c);
    var f, out, m := if decrypt then c.dec else c.enc, Crypted(c, decrypt, t, s), |s| / 16;
    if |s| % 16 == 0 {
      assert out[..16 * m] == out;
      EachWrittenOut(f, t, s, out, m);
    } else {
      var first, second := Tweak(t, if decrypt then m else m - 1), Tweak(t, if decrypt then m - 1 else m);
      var x := Tweaked(f, first, s[16 * m - 16..16 * m]);
      var y := Tweaked(f, second, s[16 * m..] + x[|s| % 16..]);
      ThreeParts(Blocks(f, t, s, m - 1), y, x[..|s| % 16]);
      EachWrittenOut(f, t, s, out, m - 1);
      LastWrittenOut(f, first, second, s[16 * m - 16..16 * m], s[16 * m..]);
      assert out[16 * m - 16..] == y + x[..|s| % 16];
    }
  }

  lemma {:induction false} EachWrittenOut(f: seq<Byte> -> seq<Byte>, t: seq<Byte>, s: seq<Byte>, out: seq<Byte>, k: nat)
    requires OnBlocks(f) && |t| == 16 <= |s| == |out|
    requires k == (if |s| % 16 == 0 then |s| / 16 else |s| / 16 - 1) && out[..16 * k] == Blocks(f, t, s, k)
    ensures EachBlock(f, t, s, out)
  {
    hide Xor, Tweak, Blocks;
    forall j: nat | 16 * j + 16 <= |s| && (|s| % 16 > 0 ==> 16 * j + 32 <= |s|)
      ensures out[16 * j..16 * j + 16] == Xor(f(Xor(s[16 * j..16 * j + 16], Tweak(t, j))), Tweak(t, j))
    {
      assert j < k;
      BlocksAt(f, t, s, k, j);
      assert out[16 * j..16 * j + 16] == out[..16 * k][16 * j..16 * j + 16];
    }
  }

  lemma LastWrittenOut(f: seq<Byte> -> seq<Byte>, first: seq<Byte>, second: seq<Byte>, block: seq<Byte>,
                       tail: seq<Byte>)
    requires OnBlocks(f) && |first| == |second| == |block| == 16 && |tail| < 16
    ensures var x := Tweaked(f, first, block);
            LastTwo(f, first, second, block, tail, Tweaked(f, second, tail + x[|tail|..]) + x[..|tail|])
  {
    hide Xor;
  }

  // ----- Decryption inverts encryption

  lemma TweakedBack(c: Cipher, t: seq<Byte>, b: seq<Byte>)
    requires Inverts(c) && c.size == 16 && |t| == 16 && |b| == 16
    ensures Tweaked(c.dec, t, Tweaked(c.enc, t, b)) == b
  {
    hide Xor;
    var x := Xor(b, t);
    XorTwice(c.enc(x), t);
    BackAndForth(c, x);
    XorTwice(b, t);
  }

  lemma {:induction false} BlocksBack(c: Cipher, t: seq<Byte>, s: seq<Byte>, r: seq<Byte>, m: nat)
    requires Inverts(c) && c.size == 16 && |t| == 16 && 16 * m <= |s| && 16 * m <= |r|
    requires r[..16 * m] == Blocks(c.enc, t, s, m)
    ensures Blocks(c.dec, t, r, m) == s[..16 * m]
    decreases m
  {
    hide Tweaked, Tweak, Inverts;
    UseInverts(c);
    if m > 0 {
      var k := 16 * m - 16;
      var h := Blocks(c.enc, t, s, m - 1);
      assert r[..k] == r[..16 * m][..k] == h;
      BlocksBack(c, t, s, r, m - 1);
      assert r[k..16 * m] == r[..16 * m][k..] == Tweaked(c.enc, Tweak(t, m - 1), s[k..16 * m]);
      TweakedBack(c, Tweak(t, m - 1), s[k..16 * m]);
      assert s[..16 * m] == s[..k] + s[k..16 * m];
    }
  }

  lemma UseInverts(c: Cipher)
    requires Inverts(c) && c.size == 16
    ensures OnBlocks(c.enc) && OnBlocks(c.dec)
  {
  }

  lemma ThreeParts<T>(h: seq<T>, y: seq<T>, x: seq<T>)
    ensures (h + y + x)[..|h|] == h && (h + y + x)[|h|..|h| + |y|] == y && (h + y + x)[|h| + |y|..] == x
  {
  }

  // The second-to-last block carries the tail, and gives the stolen bytes back
  lemma {:induction false} StolenPair(c: Cipher, t: seq<Byte>, u: seq<Byte>, last: seq<Byte>, tail: seq<Byte>)
    requires Inverts(c) && c.size == 16 && |t| == |u| == |last| == 16 && |tail| < 16
    ensures OnBlocks(c.enc) && OnBlocks(c.dec)
    ensures var l := |tail|;
            var x := Tweaked(c.enc, t, last);
            var y := Tweaked(c.enc, u, tail + x[l..]);
            var z := Tweaked(c.dec, u, y);
            z[..l] == tail && Tweaked(c.dec, t, x[..l] + z[l..]) == last
  {
    hide Tweaked, Inverts;
    UseInverts(c);
    var l := |tail|;
    var x := Tweaked(c.enc, t, last);
    var z := tail + x[l..];
    TweakedBack(c, u, z);
    assert z[l..] == x[l..] && z[..l] == tail && x[..l] + x[l..] == x;
    TweakedBack(c, t, last);
  }

  lemma {:induction false} StolenBack(c: Cipher, t: seq<Byte>, s: seq<Byte>, m: nat)
    requires Inverts(c) && c.size == 16 && |t| == 16 && |s| >= 16 && |s| % 16 > 0 && m == |s| / 16
    ensures OnBlocks(c.enc) && OnBlocks(c.dec)
    ensures Stolen(c.dec, t, Stolen(c.enc, t, s, m - 1, m), m, m - 1) == s
  {
    hide Tweaked, Tweak, Inverts, Blocks;
    UseInverts(c);
    var l, k := |s| % 16, 16 * m - 16;
    var last, tail := s[k..16 * m], s[16 * m..];
    var x := Tweaked(c.enc, Tweak(t, m - 1), last);
    var y := Tweaked(c.enc, Tweak(t, m), tail + x[l..]);
    var h := Blocks(c.enc, t, s, m - 1);
    var r := Stolen(c.enc, t, s, m - 1, m);
    ThreeParts(h, y, x[..l]);
    BlocksBack(c, t, s, r, m - 1);
    StolenPair(c, Tweak(t, m - 1), Tweak(t, m), last, tail);
    assert s == s[..k] + last + tail;
  }

  // The round trip, whole blocks or not
  lemma {:induction false} XtsRoundTrip(c: Cipher, t: seq<Byte>, s: seq<Byte>)
    requires Inverts(c) && c.size == 16 && |t| == 16 && |s| >= 16
    ensures OnBlocks(c.enc) && OnBlocks(c.dec) && Decrypted(c, t, Encrypted(c, t, s)) == s
  {
    hide Tweaked, Tweak, Inverts;
    UseInverts(c);
    var m := |s| / 16;
    if |s| % 16 == 0 {
      var r := Encrypted(c, t, s);
      assert r[..16 * m] == r;
      BlocksBack(c, t, s, r, m);
      assert s[..16 * m] == s;
    } else {
      StolenBack(c, t, s, m);
    }
  }

  // ----- The code

  datatype AesStatus = Success | InvalidInputLength

  method Put(output: array<Byte>, o: nat, s: seq<Byte>)
    requires o + |s| <= output.Length
    modifies output
    ensures output[..] == old(output[..o]) + s + old(output[o + |s|..])
  {
    ghost var before := output[..];
    var i := 0;
    while i < |s|
      invariant 0 <= i <= |s| && output[..] == before[..o] + s[..i] + before[o + i..]
    {
      output[o + i] := s[i];
      i := i + 1;
    }
  }

  // One full block
  method CryptBlock(c: Cipher, decrypt: bool, input: seq<Byte>, output: array<Byte>, tweak: seq<Byte>, i: nat)
    requires Inverts(c) && c.size == 16 && |tweak| == 16 && 16 * i + 16 <= |input| == output.Length
    modifies output
    ensures output[..16 * i] == old(output[..16 * i])
    ensures output[16 * i..16 * i + 16] == TweakedBy(c, decrypt, tweak, input[16 * i..16 * i + 16])
  {
    hide Xor;
    UseInverts(c);
    var tmp := Xor(input[16 * i..16 * i + 16], tweak);
    tmp := if decrypt then c.dec(tmp) else c.enc(tmp);
    Put(output, 16 * i, Xor(tmp, tweak));
    ghost var out := output[..];
    assert output[..16 * i] == out[..16 * i] && output[16 * i..16 * i + 16] == out[16 * i..16 * i + 16];
  }

  ghost function TweakedBy(c: Cipher, decrypt: bool, t: seq<Byte>, b: seq<Byte>): (r: seq<Byte>)
    requires Inverts(c) && c.size == 16 && |t| == 16 && |b| == 16
    ensures |r| == 16
  {
    UseInverts(c);
    if decrypt then Tweaked(c.dec, t, b) else Tweaked(c.enc, t, b)
  }

  ghost function BlocksBy(c: Cipher, decrypt: bool, t: seq<Byte>, s: seq<Byte>, m: nat): (r: seq<Byte>)
    requires Inverts(c) && c.size == 16 && |t| == 16 && 16 * m <= |s|
    ensures |r| == 16 * m
  {
    UseInverts(c);
    if decrypt then Blocks(c.dec, t, s, m) else Blocks(c.enc, t, s, m)
  }

  lemma NextBlock(c: Cipher, decrypt: bool, t: seq<Byte>, s: seq<Byte>, i: nat)
    requires Inverts(c) && c.size == 16 && |t| == 16 && 16 * i + 16 <= |s|
    ensures BlocksBy(c, decrypt, t, s, i + 1)
            == BlocksBy(c, decrypt, t, s, i) + TweakedBy(c, decrypt, Tweak(t, i), s[16 * i..16 * i + 16])
  {
    hide Tweaked, Tweak, Inverts;
    UseInverts(c);
  }

  // All full blocks; the last one takes the next tweak when a decryption has to steal
  method CryptBlocks(c: Cipher, decrypt: bool, input: seq<Byte>, output: array<Byte>, t: seq<Byte>)
      returns (tweak: seq<Byte>, prevTweak: seq<Byte>)
    requires Inverts(c) && c.size == 16 && |t| == 16 && 16 <= |input| == output.Length
    modifies output
    ensures var m, l := |input| / 16, |input| % 16;
            var swap := decrypt && l > 0;
            && LastBlock(c, decrypt, input, output[..], t, m, if swap then m else m - 1)
            && (!swap ==> tweak == Tweak(t, m)) && (swap ==> prevTweak == Tweak(t, m - 1))
  {
    hide Tweaked, Tweak, Inverts, BlocksBy, TweakedBy, MulX;
    var m, leftover := |input| / 16, |input| % 16;
    tweak, prevTweak := t, t;
    FirstTweak(t);
    ghost var swap := decrypt && leftover > 0;
    var i := 0;
    NoBlocks(c, decrypt, t, input);
    assert output[..0] == [];
    while i < m
      invariant 0 <= i <= m
      invariant !(swap && i == m) ==> tweak == Tweak(t, i) && output[..16 * i] == BlocksBy(c, decrypt, t, input, i)
      invariant i == m ==> LastBlock(c, decrypt, input, output[..], t, m, if swap then m else m - 1)
      invariant swap && i == m ==> prevTweak == Tweak(t, m - 1)
    {
      NextTweak(t, i);
      if leftover > 0 && decrypt && i == m - 1 {
        prevTweak := tweak;
        tweak := MulX(tweak);
      }
      CryptBlock(c, decrypt, input, output, tweak, i);
      NextBlock(c, decrypt, t, input, i);
      assert output[..16 * (i + 1)] == output[..16 * i] + output[16 * i..16 * i + 16];
      if i == m - 1 {
        ghost var out := output[..];
        assert out[..16 * i] == output[..16 * i] && out[16 * i..16 * i + 16] == output[16 * i..16 * i + 16];
      }
      tweak := MulX(tweak);
      i := i + 1;
    }
  }

  // The full blocks are done, the last one with tweak number j
  ghost predicate LastBlock(c: Cipher, decrypt: bool, input: seq<Byte>, out: seq<Byte>, t: seq<Byte>, m: nat, j: nat)
    requires Inverts(c) && c.size == 16 && |t| == 16 && 16 <= 16 * m <= |input| == |out|
  {
    && out[..16 * m - 16] == BlocksBy(c, decrypt, t, input, m - 1)
    && out[16 * m - 16..16 * m] == TweakedBy(c, decrypt, Tweak(t, j), input[16 * m - 16..16 * m])
  }

  lemma FirstTweak(t: seq<Byte>)
    requires |t| == 16
    ensures Tweak(t, 0) == t
  {
  }

  lemma NextTweak(t: seq<Byte>, i: nat)
    requires |t| == 16
    ensures Tweak(t, i + 1) == MulX(Tweak(t, i))
  {
    hide MulX;
  }

  lemma NoBlocks(c: Cipher, decrypt: bool, t: seq<Byte>, s: seq<Byte>)
    requires Inverts(c) && c.size == 16 && |t| == 16
    ensures BlocksBy(c, decrypt, t, s, 0) == []
  {
    hide Tweaked;
  }

  // The mode, by direction
  ghost function Crypted(c: Cipher, decrypt: bool, t: seq<Byte>, s: seq<Byte>): (r: seq<Byte>)
    requires Inverts(c) && c.size == 16 && |t| == 16 && |s| >= 16
    ensures |r| == |s|
  {
    UseInverts(c);
    if decrypt then Decrypted(c, t, s) else Encrypted(c, t, s)
  }

  lemma {:induction false} WholeBlocks(c: Cipher, decrypt: bool, t: seq<Byte>, s: seq<Byte>, out: seq<Byte>)
    requires Inverts(c) && c.size == 16 && |t| == 16 && 16 <= |s| == |out| && |s| % 16 == 0
    requires LastBlock(c, decrypt, s, out, t, |s| / 16, |s| / 16 - 1)
    ensures out == Crypted(c, decrypt, t, s)
  {
    hide Tweaked, Tweak, Inverts;
    UseInverts(c);
    var m := |s| / 16;
    NextBlock(c, decrypt, t, s, m - 1);
    assert out == out[..16 * m - 16] + out[16 * m - 16..16 * m];
  }

  // What ciphertext stealing makes of the last full block and the tail
  lemma {:induction false} StealingDone(c: Cipher, decrypt: bool, t: seq<Byte>, s: seq<Byte>, out: seq<Byte>, j: nat,
                                        k: nat, r: seq<Byte>)
    requires Inverts(c) && c.size == 16 && |t| == 16 && 16 <= |s| == |out| && |s| % 16 > 0
    requires j == (if decrypt then |s| / 16 else |s| / 16 - 1) && k == (if decrypt then |s| / 16 - 1 else |s| / 16)
    requires LastBlock(c, decrypt, s, out, t, |s| / 16, j)
    requires var m, l := |s| / 16, |s| % 16;
             var x := out[16 * m - 16..16 * m];
             r == out[..16 * m - 16] + TweakedBy(c, decrypt, Tweak(t, k), s[16 * m..] + x[l..]) + x[..l]
    ensures r == Crypted(c, decrypt, t, s)
  {
    hide Tweaked, Tweak, Inverts, Blocks;
    UseInverts(c);
  }

  // Ciphertext stealing: the tail takes the start of the last full block, and that block is
  // encrypted again with the tail in front
  method Steal(c: Cipher, decrypt: bool, input: seq<Byte>, output: array<Byte>, t: seq<Byte>)
    requires Inverts(c) && c.size == 16 && |t| == 16 && 16 <= |input| == output.Length && |input| % 16 > 0
    modifies output
    ensures var m, l := |input| / 16, |input| % 16;
            var x := old(output[16 * m - 16..16 * m]);
            output[..] == old(output[..16 * m - 16]) + TweakedBy(c, decrypt, t, input[16 * m..] + x[l..]) + x[..l]
  {
    hide Xor, TweakedBy, Inverts;
    UseInverts(c);
    var m, leftover := |input| / 16, |input| % 16;
    var p := 16 * m - 16;
    ghost var out0 := output[..];
    var prev := output[p..p + 16];
    Put(output, 16 * m, prev[..leftover]);
    var tmp := Xor(input[16 * m..], t[..leftover]) + Xor(prev[leftover..], t[leftover..]);
    XorParts(input[16 * m..], prev[leftover..], t);
    TweakedByIs(c, decrypt, t, input[16 * m..] + prev[leftover..]);
    tmp := if decrypt then c.dec(tmp) else c.enc(tmp);
    ghost var out1 := output[..];
    assert out1 == out0[..p] + prev + prev[..leftover];
    Put(output, p, Xor(tmp, t));
    assert out1[p + 16..] == prev[..leftover] && out1[..p] == out0[..p];
  }

  lemma TweakedByIs(c: Cipher, decrypt: bool, t: seq<Byte>, b: seq<Byte>)
    requires Inverts(c) && c.size == 16 && |t| == |b| == 16
    ensures var x := if decrypt then c.dec(Xor(b, t)) else c.enc(Xor(b, t));
            |x| == 16 && TweakedBy(c, decrypt, t, b) == Xor(x, t)
  {
    hide Xor;
  }

  lemma XorParts(a: seq<Byte>, b: seq<Byte>, t: seq<Byte>)
    requires |a| + |b| == |t|
    ensures Xor(a, t[..|a|]) + Xor(b, t[|a|..]) == Xor(a + b, t)
  {
    hide XorByte;
  }

  method CryptXts(c: Cipher, tweakCipher: Cipher, decrypt: bool, dataUnit: seq<Byte>, input: seq<Byte>,
                  output: array<Byte>)
      returns (ret: AesStatus)
    requires Inverts(c) && Encrypts(tweakCipher) && c.size == tweakCipher.size == |dataUnit| == 16
    requires output.Length == |input|
    modifies output
    ensures ret == if 16 <= |input| <= 0x10_0000 * 16 then Success else InvalidInputLength
    ensures ret.Success? ==> output[..] == Crypted(c, decrypt, tweakCipher.enc(dataUnit), input)
    ensures OnBlocks(c.enc) && OnBlocks(c.dec)
    ensures ret.Success? ==> WrittenOut(c, decrypt, tweakCipher.enc(dataUnit), input, output[..])
    ensures !ret.Success? ==> output[..] == old(output[..])
  {
    hide Tweaked, Tweak, Inverts, BlocksBy, TweakedBy, Crypted, WrittenOut;
    UseInverts(c);
    var leftover := |input| % 16;
    if |input| < 16 {
      return InvalidInputLength;
    }
    if |input| > 0x10_0000 * 16 {
      return InvalidInputLength;
    }
    var t := tweakCipher.enc(dataUnit);
    var tweak, prevTweak := CryptBlocks(c, decrypt, input, output, t);
    if leftover > 0 {
      ghost var m := |input| / 16;
      ghost var out := output[..];
      Steal(c, decrypt, input, output, if decrypt then prevTweak else tweak);
      StealingDone(c, decrypt, t, input, out, if decrypt then m else m - 1, if decrypt then m - 1 else m, output[..]);
    } else {
      WholeBlocks(c, decrypt, t, input, output[..]);
    }
    CryptedWrittenOut(c, decrypt, t, input);
    return Success;
  }
}
