/**
 CMAC (cmac.c): subkeys by doubling in GF(2^n), a CBC-MAC over all blocks but the last, and the
 last one masked with a subkey.
 */
module Cmac {
  import opened Arith
  import opened Bytes
  import opened Block
  import opened Cbc
  import opened CipherLayer
  import Bits

  // ----- Doubling

  // One word of the shift: twice the word and the carry that came in
  function DoubledWord(w: nat, overflow: nat, k: nat): (r: nat)
    requires k > 0 && w < Pow2(8 * k) && overflow <= 1
    ensures r < Pow2(8 * k) && r + Pow2(8 * k) * (w / Pow2(8 * k - 1)) == 2 * w + overflow
  {
    Bits.DoubleWord(w, 8 * k);
    2 * w % Pow2(8 * k) + overflow
  }

  // out is twice the number s without the top bit, which has left as overflow
  predicate Shifted(s: seq<Byte>, out: seq<Byte>, overflow: nat)
  {
    |out| == |s| && overflow <= 1 && Be(out) + Pow2(8 * |s|) * overflow == 2 * Be(s)
  }

  lemma {:induction false} ShiftWord(x: seq<Byte>, s: seq<Byte>, out: seq<Byte>, overflow: nat)
    requires |x| > 0 && Shifted(s, out, overflow)
    ensures Be(x) < Pow2(8 * |x|)
    ensures 0 <= Be(x) / Pow2(8 * |x| - 1)
    ensures Shifted(x + s, BeBytes(DoubledWord(Be(x), overflow, |x|), |x|) + out, Be(x) / Pow2(8 * |x| - 1))
  {
    hide Be, BeBytes, DoubledWord, Pow2;
    BeBound(x);
    var k, w := |x|, Be(x);
    Bits.DoubleWord(w, 8 * k);
    var r, o := DoubledWord(w, overflow, k), w / Pow2(8 * k - 1);
    BeOfBytes(r, k);
    BeAppend(x, s);
    BeAppend(BeBytes(r, k), out);
    Pow2Add(8 * |s|, 8 * k);
    WordAlgebra(Pow2(8 * |s|), Pow2(8 * k), r, o, w, overflow, Be(out), Be(s));
    assert 8 * |x + s| == 8 * |s| + 8 * k;
  }

  lemma WordAlgebra(p: int, q: int, r: int, o: int, w: int, c: int, out: int, s: int)
    requires r + q * o == 2 * w + c && out + p * c == 2 * s
    ensures out + p * r + p * q * o == 2 * (s + p * w)
  {
    MulDistrib(p, r, q * o);
    MulDistrib(p, 2 * w, c);
    MulAssoc(p, q, o);
    MulAssoc(p, 2, w);
    MulAssoc(2, p, w);
  }

  // The reduction polynomials of degree 128 and 64
  function ReductionFor(blocksize: nat): Byte
  {
    if blocksize == 16 then 0x87 else 0x1B
  }

  // Multiplication by u, a 32-bit word at a time from the low end
  method MultiplyByU(output: array<Byte>, input: seq<Byte>) returns (ok: bool)
    requires output.Length == |input|
    modifies output
    ensures ok <==> |input| == 16 || |input| == 8
    ensures ok ==> IsDouble(input, output[..])
    ensures |input| == 16 ==> Be(output[..]) == Bits.TimesX(Be(input), 128, 0x87)
    ensures |input| == 8 ==> Be(output[..]) == Bits.TimesX(Be(input), 64, 0x1B)
  {
    hide Be, Shifted, Bits.TimesX, DoubledWord, Pow2, BeBytes, Bits.Xor;
    var n := |input|;
    if n != 16 && n != 8 {
      return false;
    }
    var r := ReductionFor(n);
    var overflow := 0;
    var i := n - 4;
    ShiftedNone();
    assert input[n..] == [] && output[n..] == [];
    while i >= 0
      invariant -4 <= i <= n - 4 && i % 4 == 0
      invariant overflow >= 0 && Shifted(input[i + 4..], output[i + 4..], overflow)
    {
      var x := input[i..i + 4];
      ShiftWord(x, input[i + 4..], output[i + 4..], overflow);
      CarryIn(input[i + 4..], output[i + 4..], overflow);
      var w := BeBytes(DoubledWord(Be(x), overflow, 4), 4);
      assert x + input[i + 4..] == input[i..];
      ghost var rest := output[i + 4..];
      output[i], output[i + 1], output[i + 2], output[i + 3] := w[0], w[1], w[2], w[3];
      assert output[i..] == w + rest;
      overflow := Be(x) / Pow2(31);
      i := i - 4;
    }
    assert input[0..] == input && output[0..] == output[..];
    ghost var s := output[..];
    TopOf(input, s, overflow);
    ReducedLast(input, s, overflow, r);
    output[n - 1] := XorByte(output[n - 1], if input[0] / 128 != 0 then r else 0);
    assert output[..] == s[..n - 1] + [output[n - 1]];
    return true;
  }

  lemma ShiftedNone()
    ensures Shifted([], [], 0)
  {
  }

  lemma CarryIn(s: seq<Byte>, out: seq<Byte>, overflow: nat)
    requires Shifted(s, out, overflow)
    ensures overflow <= 1
  {
  }

  // The bit that left is the top bit of the first byte
  lemma {:induction false} TopOf(s: seq<Byte>, out: seq<Byte>, overflow: nat)
    requires |s| > 0 && Shifted(s, out, overflow)
    ensures overflow == s[0] / 128
  {
    hide Be, Pow2;
    assert s == [s[0]] + s[1..];
    BeAppend([s[0]], s[1..]);
    BeSingle(s[0]);
    BeBound(s[1..]);
    BeBound(out);
    EightBits(8 * |s| - 8);
    var p := Pow2(8 * |s| - 8);
    TopAlgebra(s[0], Be(s[1..]), p, Be(out), overflow);
  }

  lemma TopAlgebra(b: int, low: int, p: int, out: int, o: int)
    requires 0 <= b < 256 && 0 <= low < p && 0 <= out < 256 * p && 0 <= o <= 1
    requires out + 256 * p * o == 2 * (low + p * b)
    ensures o == b / 128
  {
    if b >= 128 {
      MulLe(p, p, 128, b);
    } else {
      MulLe(p, p, b, 127);
    }
  }

  // Adding the reduction to the last byte completes the multiplication
  lemma {:induction false} ReducedLast(s: seq<Byte>, out: seq<Byte>, overflow: nat, r: Byte)
    requires |s| > 0 && Shifted(s, out, overflow)
    ensures |out| == |s|
    ensures var last := XorByte(out[|out| - 1], if overflow != 0 then r else 0);
            Be(out[..|out| - 1] + [last]) == Bits.TimesX(Be(s), 8 * |s|, r)
  {
    hide Be, Pow2, Bits.Xor, Bits.TimesX;
    var n := |s|;
    var l, h := out[n - 1], out[..n - 1];
    var x := XorByte(l, if overflow != 0 then r else 0);
    assert out == h + [l];
    BeAppend(h, [l]);
    BeAppend(h, [x]);
    BeSingle(l);
    BeSingle(x);
    BeBound(s);
    BeBound(out);
    SmallPow2();
    Pow2Mono(8, 8 * n);
    Bits.TimesXBound(Be(s), 8 * n, r);
    if overflow != 0 {
      Bits.AddReduction(l, Be(h), 8, r);
    } else {
      XorByteZero(l);
    }
  }

  // ----- The MAC of sections 2.3 and 2.4 of RFC 4493

  // k is the double of l in the field of 2^128 elements, modulo x^128 + x^7 + x^2 + x + 1, or of
  // 2^64 elements, modulo x^64 + x^4 + x^3 + x + 1
  ghost predicate IsDouble(l: seq<Byte>, k: seq<Byte>)
  {
    && |k| == |l| && (|l| == 16 || |l| == 8)
    && (|l| == 16 ==> Be(k) == Bits.TimesX(Be(l), 128, 0x87))
    && (|l| == 8 ==> Be(k) == Bits.TimesX(Be(l), 64, 0x1B))
  }

  // The subkeys, as the doubles of the encrypted zero block
  ghost predicate Subkeys(c: Cipher, k1: seq<Byte>, k2: seq<Byte>)
    requires Encrypts(c)
  {
    IsDouble(c.enc(ZeroBytes(c.size)), k1) && IsDouble(k1, k2)
  }

  lemma SubkeysUnique(c: Cipher, k1: seq<Byte>, k2: seq<Byte>, j1: seq<Byte>, j2: seq<Byte>)
    requires Encrypts(c) && Subkeys(c, k1, k2) && Subkeys(c, j1, j2)
    ensures k1 == j1 && k2 == j2
  {
    hide Be, Bits.TimesX;
    BeInjective(k1, j1);
    BeInjective(k2, j2);
  }

  // CBC-MAC over the whole blocks of s, from state x
  ghost function MacBlocks(c: Cipher, x: seq<Byte>, s: seq<Byte>): (r: seq<Byte>)
    requires Encrypts(c) && |x| == c.size
    ensures |r| == c.size
    decreases |s|
  {
    if |s| < c.size then x else MacBlocks(c, c.enc(Xor(s[..c.size], x)), s[c.size..])
  }

  lemma {:induction false} MacAppend(c: Cipher, x: seq<Byte>, s: seq<Byte>, t: seq<Byte>)
    requires Encrypts(c) && |x| == c.size && Rem(|s|, c.size) == 0
    ensures MacBlocks(c, x, s + t) == MacBlocks(c, MacBlocks(c, x, s), t)
    decreases |s|
  {
    hide Xor, Rem;
    var n := c.size;
    RemWhole(|s|, n);
    if |s| < n {
      assert s + t == t;
    } else {
      RemStep(|s|, n);
      assert (s + t)[..n] == s[..n] && (s + t)[n..] == s[n..] + t;
      MacAppend(c, c.enc(Xor(s[..n], x)), s[n..], t);
    }
  }

  // The chain of blocks is CBC encryption, of which only the last block is kept
  lemma {:induction false} MacIsLastOfCbc(c: Cipher, x: seq<Byte>, s: seq<Byte>)
    requires Encrypts(c) && |x| == c.size && Rem(|s|, c.size) == 0
    ensures MacBlocks(c, x, s) == LastOf(x, CbcEnc(c, x, s))
    decreases |s|
  {
    hide Xor, Rem, LastOf;
    var n := c.size;
    RemWhole(|s|, n);
    if |s| < n {
      LastOfNone(x);
    } else {
      RemStep(|s|, n);
      RemWhole(|s| - n, n);
      var b := c.enc(Xor(s[..n], x));
      var q := CbcEnc(c, b, s[n..]);
      MacIsLastOfCbc(c, b, s[n..]);
      CbcEncLength(c, b, s[n..]);
      assert (b + q)[..n] == b && (b + q)[n..] == q;
      LastOfStep(x, b + q, n);
    }
  }

  // The last block, complete or padded, masked with a subkey
  function LastBlock(t: seq<Byte>, k1: seq<Byte>, k2: seq<Byte>): (r: seq<Byte>)
    requires |t| <= |k1| == |k2|
    ensures |r| == |k1|
  {
    if |t| == |k1| then Xor(t, k1) else Xor(t + [0x80] + ZeroBytes(|k1| - |t| - 1), k2)
  }

  ghost function MacOf(c: Cipher, m: seq<Byte>, k1: seq<Byte>, k2: seq<Byte>): (r: seq<Byte>)
    requires Encrypts(c) && |k1| == |k2| == c.size
  {
    var k := Split(|m|, c.size, true);
    SplitFacts(|m|, c.size, true);
    c.enc(Xor(LastBlock(m[k..], k1, k2), MacBlocks(c, ZeroBytes(c.size), m[..k])))
  }

  // The MAC in full, as section 2.4 of RFC 4493 has it: a message that ends with a whole block has
  // K1 added to that block; any other, also the empty one, is continued with a one bit and zeros
  // and has K2 added to the block this gives. The MAC is the last block of CBC encryption.
  ghost function Masked(n: nat, m: seq<Byte>, k1: seq<Byte>, k2: seq<Byte>): (r: seq<Byte>)
    requires (n == 8 || n == 16) && |k1| == |k2| == n
  {
    RemBounds(|m|, n);
    var l := Rem(|m|, n);
    if |m| >= n && l == 0 then m[..|m| - n] + Xor(m[|m| - n..], k1)
    else m[..|m| - l] + Xor(m[|m| - l..] + [0x80] + ZeroBytes(n - l - 1), k2)
  }

  lemma {:induction false} MacWrittenOut(c: Cipher, m: seq<Byte>, k1: seq<Byte>, k2: seq<Byte>)
    requires Encrypts(c) && |k1| == |k2| == c.size
    ensures MacOf(c, m, k1, k2) == LastOf(ZeroBytes(c.size), CbcEnc(c, ZeroBytes(c.size), Masked(c.size, m, k1, k2)))
  {
    hide Xor, Rem, LastOf, CbcEnc, MacBlocks, Split;
    var n, z := c.size, ZeroBytes(c.size);
    var k := Split(|m|, n, true);
    SplitFacts(|m|, n, true);
    var last := LastBlock(m[k..], k1, k2);
    MaskedIs(n, m, k1, k2, k);
    OneMacBlock(c, MacBlocks(c, z, m[..k]), last);
    MacAppend(c, z, m[..k], last);
    RemBlock(n);
    RemAdd(k, n, n);
    MacIsLastOfCbc(c, z, m[..k] + last);
  }

  lemma MaskedIs(n: nat, m: seq<Byte>, k1: seq<Byte>, k2: seq<Byte>, k: nat)
    requires (n == 8 || n == 16) && |k1| == |k2| == n && k == Split(|m|, n, true)
    ensures |m| - k <= n && Masked(n, m, k1, k2) == m[..k] + LastBlock(m[k..], k1, k2)
  {
    hide Xor, Rem;
    SplitFacts(|m|, n, true);
    RemBounds(|m|, n);
    if Rem(|m|, n) == 0 {
      RemWhole(|m|, n);
    }
  }

  lemma RemBounds(x: nat, n: nat)
    requires n == 8 || n == 16
    ensures Rem(x, n) < n && Rem(x, n) <= x
  {
  }

  lemma OneMacBlock(c: Cipher, x: seq<Byte>, b: seq<Byte>)
    requires Encrypts(c) && |x| == |b| == c.size
    ensures MacBlocks(c, x, b) == c.enc(Xor(b, x))
  {
    hide Xor;
    assert b[..c.size] == b && b[c.size..] == [];
  }

  // ----- The code

  method GenerateSubkeys(c: Cipher) returns (k1: array<Byte>, k2: array<Byte>)
    requires Encrypts(c)
    ensures fresh(k1) && fresh(k2) && Subkeys(c, k1[..], k2[..])
    ensures c.size == 16 ==> Be(k1[..]) == Bits.TimesX(Be(c.enc(ZeroBytes(16))), 128, 0x87)
                             && Be(k2[..]) == Bits.TimesX(Be(k1[..]), 128, 0x87)
    ensures c.size == 8 ==> Be(k1[..]) == Bits.TimesX(Be(c.enc(ZeroBytes(8))), 64, 0x1B)
                            && Be(k2[..]) == Bits.TimesX(Be(k1[..]), 64, 0x1B)
  {
    hide Be, Bits.TimesX;
    var l := c.enc(ZeroBytes(c.size));
    k1 := new Byte[c.size];
    k2 := new Byte[c.size];
    var ok := MultiplyByU(k1, l);
    ok := MultiplyByU(k2, k1[..]);
  }

  method Pad(t: seq<Byte>, n: nat) returns (padded: seq<Byte>)
    requires |t| < n
    ensures padded == t + [0x80] + ZeroBytes(n - |t| - 1)
  {
    padded := [];
    var j := 0;
    while j < n
      invariant 0 <= j <= n && |padded| == j
      invariant padded == (t + [0x80] + ZeroBytes(n - |t| - 1))[..j]
    {
      if j < |t| {
        padded := padded + [t[j]];
      } else if j == |t| {
        padded := padded + [0x80];
      } else {
        padded := padded + [0];
      }
      j := j + 1;
    }
  }

  // From state x the bytes m have arrived: all but the last 1 to size bytes are in the state
  ghost predicate Seen(c: Cipher, x: seq<Byte>, m: seq<Byte>, state: seq<Byte>, pending: seq<Byte>)
    requires Encrypts(c)
  {
    var k := Split(|m|, c.size, true);
    |x| == c.size && state == MacBlocks(c, x, m[..k]) && pending == m[k..]
  }

  lemma SeenNone(c: Cipher, x: seq<Byte>)
    requires Encrypts(c) && |x| == c.size
    ensures Seen(c, x, [], x, [])
  {
  }

  // Whole blocks b first, then the rest
  lemma {:induction false} SeenAfter(c: Cipher, x: seq<Byte>, b: seq<Byte>, rest: seq<Byte>, state: seq<Byte>,
                                     pending: seq<Byte>)
    requires Encrypts(c) && |x| == c.size && Rem(|b|, c.size) == 0 && (|b| > 0 ==> |rest| > 0)
    requires Seen(c, MacBlocks(c, x, b), rest, state, pending)
    ensures Seen(c, x, b + rest, state, pending)
  {
    hide Xor, MacBlocks, Rem, Split;
    SplitAfter(|b|, |rest|, c.size, true);
    var j := Split(|rest|, c.size, true);
    MacAppend(c, x, b, rest[..j]);
    assert b + rest[..j] == (b + rest)[..|b| + j];
  }

  lemma SeenOpen(c: Cipher, x: seq<Byte>, m: seq<Byte>, state: seq<Byte>, pending: seq<Byte>) returns (k: nat)
    requires Encrypts(c) && Seen(c, x, m, state, pending)
    ensures k == Split(|m|, c.size, true) <= |m| && |x| == c.size && state == MacBlocks(c, x, m[..k])
    ensures pending == m[k..] && Rem(k, c.size) == 0 && |pending| <= c.size && (|m| > 0 ==> |pending| > 0)
  {
    hide MacBlocks, Rem;
    SplitFacts(|m|, c.size, true);
    k := Split(|m|, c.size, true);
  }

  // Nothing waits: the input starts a new block
  lemma {:induction false} SeenFresh(c: Cipher, x: seq<Byte>, m: seq<Byte>, state: seq<Byte>, input: seq<Byte>,
                                     state2: seq<Byte>, pending2: seq<Byte>)
    requires Encrypts(c) && Seen(c, x, m, state, []) && Seen(c, state, input, state2, pending2)
    ensures Seen(c, x, m + input, state2, pending2)
  {
    hide MacBlocks, Rem, Seen;
    var k := SeenOpen(c, x, m, state, []);
    NoMac(c, x);
    assert m == [] && m + input == input && m[..k] == [];
  }

  // A full block is completed and absorbed before the rest
  lemma {:induction false} SeenFilled(c: Cipher, x: seq<Byte>, m: seq<Byte>, state: seq<Byte>, pending: seq<Byte>,
                                      b: seq<Byte>, rest: seq<Byte>, input: seq<Byte>,
                                       state2: seq<Byte>, pending2: seq<Byte>)
    requires Encrypts(c) && Seen(c, x, m, state, pending) && |b| == c.size && |rest| > 0 && pending + input == b + rest
    requires Seen(c, MacBlocks(c, state, b), rest, state2, pending2)
    ensures Seen(c, x, m + input, state2, pending2)
  {
    hide MacBlocks, Rem, Seen;
    var k := SeenOpen(c, x, m, state, pending);
    RemBlock(c.size);
    RemAdd(k, c.size, c.size);
    MacAppend(c, x, m[..k], b);
    SeenAfter(c, x, m[..k] + b, rest, state2, pending2);
    assert m[..k] + b + rest == m[..k] + (b + rest);
    assert m[..k] + (pending + input) == m + input;
  }

  // The input fits into the waiting block
  lemma {:induction false} SeenKept(c: Cipher, x: seq<Byte>, m: seq<Byte>, state: seq<Byte>, pending: seq<Byte>,
                                    input: seq<Byte>)
    requires Encrypts(c) && Seen(c, x, m, state, pending) && |pending| > 0 && |pending| + |input| <= c.size
    ensures Seen(c, x, m + input, state, pending + input)
  {
    hide MacBlocks, Rem;
    var k := SeenOpen(c, x, m, state, pending);
    SplitShort(k, |pending| + |input|, c.size);
    SplitShort(k, |pending|, c.size);
    assert m[..k] == (m + input)[..k];
  }

  class CmacContext {
    const c: Cipher
    var state: seq<Byte>
    const block: array<Byte>
    var len: nat

    constructor (c: Cipher)
      requires Encrypts(c)
      ensures Valid() && this.c == c && fresh(block) && Sofar([])
    {
      hide Encrypts, Seen;
      UseEncrypts(c);
      this.c := c;
      state := ZeroBytes(c.size);
      block := new Byte[16](_ => 0);
      len := 0;
      new;
      assert block[..0] == [];
      SeenNone(c, state);
    }

    ghost predicate Valid()
      reads this, block
    {
      Encrypts(c) && |state| == c.size && block.Length == 16 && len <= c.size
    }

    ghost function Pending(): (s: seq<Byte>)
      reads this, block
      requires Valid()
      ensures |s| == len
    {
      block[..len]
    }

    // The message m has arrived: all but its last 1 to size bytes are in the state
    ghost predicate Sofar(m: seq<Byte>)
      reads this, block
      requires Valid()
    {
      Seen(c, ZeroBytes(c.size), m, state, Pending())
    }

    // Encrypt the state with a block added
    method Absorb(b: seq<Byte>)
      requires Valid() && |b| == c.size
      modifies this`state
      ensures Valid() && state == MacBlocks(c, old(state), b)
    {
      hide Xor;
      assert b[..c.size] == b && b[c.size..] == [];
      state := c.enc(Xor(b, state));
    }

    method Keep(input: seq<Byte>)
      requires Valid() && len + |input| <= c.size
      modifies this`len, block
      ensures Valid() && Pending() == old(Pending()) + input
    {
      var l := len;
      var i: nat := 0;
      while i < |input|
        invariant i <= |input| && block[..l + i] == old(block[..len]) + input[..i]
        modifies block
      {
        block[l + i] := input[i];
        assert block[..l + (i + 1)] == block[..l + i] + [input[i]];
        i := i + 1;
      }
      len := l + |input|;
    }

    // All blocks but the last, which is kept
    method AbsorbRest(input: seq<Byte>)
      requires Valid() && len == 0
      modifies this, block
      ensures Valid() && Seen(c, old(state), input, state, Pending())
    {
      hide Xor, Encrypts, MacBlocks, BlockAt, BlocksIn, Rem, Split;
      UseEncrypts(c);
      ghost var x := state;
      var bs := c.size;
      var rest := input;
      var n := BlocksIn(|input|, bs);
      var j := 1;
      ghost var d: nat := 0;
      assert input[..0] == [];
      NoMac(c, x);
      FirstBlockAt(bs);
      RemBlock(bs);
      while j < n
        invariant 1 <= j && (if n == 0 then j == 1 && d == 0 else j <= n) && Valid() && len == 0
        invariant d <= |input| && BlockAt(d, j, bs) && rest == input[d..]
        invariant state == MacBlocks(c, x, input[..d]) && Rem(d, bs) == 0
      {
        LastButOne(|input|, bs, d, j, n);
        MacAppend(c, x, input[..d], rest[..bs]);
        TakeMore(input, d, bs);
        Absorb(rest[..bs]);
        RemAdd(d, bs, bs);
        rest := rest[bs..];
        d := d + bs;
        j := j + 1;
      }
      LastOne(|input|, bs, n, d);
      assert block[..0] == [];
      if |rest| > 0 {
        Keep(rest);
      }
    }

    method Update(input: seq<Byte>, ghost m: seq<Byte>)
      requires Valid() && Sofar(m)
      modifies this, block
      ensures Valid() && Sofar(m + input)
    {
      hide Encrypts, MacBlocks, Seen;
      UseEncrypts(c);
      var n := c.size;
      ghost var x, state0, pending := ZeroBytes(n), state, Pending();
      if len > 0 && |input| > n - len {
        var copy := n - len;
        var b := block[..len] + input[..copy];
        Absorb(b);
        len := 0;
        var rest := input[copy..];
        AbsorbRest(rest);
        SeenFilled(c, x, m, state0, pending, b, rest, input, state, Pending());
      } else if len == 0 {
        assert pending == [];
        AbsorbRest(input);
        SeenFresh(c, x, m, state0, input, state, Pending());
      } else {
        // At most one block in all: the loop over whole blocks has nothing to do
        Keep(input);
        SeenKept(c, x, m, state0, pending, input);
      }
    }

    // The tag, after which the context is as new
    method Finish(ghost m: seq<Byte>) returns (tag: seq<Byte>, ghost k1: seq<Byte>, ghost k2: seq<Byte>)
      requires Valid() && Sofar(m)
      modifies this, block
      ensures Subkeys(c, k1, k2) && tag == MacOf(c, m, k1, k2)
      ensures Valid() && Sofar([])
    {
      hide Xor, MacBlocks, Rem, Encrypts, Seen, LastBlock, Subkeys, MacOf, Split;
      UseEncrypts(c);
      var n := c.size;
      var a1, a2 := GenerateSubkeys(c);
      k1, k2 := a1[..], a2[..];
      SubkeySizes(c, k1, k2);
      var last := MaskLast(block[..len], a1[..], a2[..]);
      ghost var k := SeenOpen(c, ZeroBytes(n), m, state, Pending());
      MacFinished(c, m, k1, k2, k, state);
      tag := EncryptLast(c, last, state);
      len := 0;
      state := ZeroBytes(n);
      assert block[..0] == [];
      SeenNone(c, state);
    }
  }

  lemma MacFinished(c: Cipher, m: seq<Byte>, k1: seq<Byte>, k2: seq<Byte>, k: nat, state: seq<Byte>)
    requires Encrypts(c) && |k1| == |k2| == c.size && k == Split(|m|, c.size, true) && |m| - k <= c.size
    requires state == MacBlocks(c, ZeroBytes(c.size), m[..k])
    ensures MacOf(c, m, k1, k2) == c.enc(Xor(LastBlock(m[k..], k1, k2), state))
  {
    hide Xor, MacBlocks, LastBlock, Split;
  }

  method MaskLast(t: seq<Byte>, k1: seq<Byte>, k2: seq<Byte>) returns (last: seq<Byte>)
    requires |t| <= |k1| == |k2|
    ensures last == LastBlock(t, k1, k2)
  {
    hide Xor;
    last := t;
    if |t| < |k1| {
      last := Pad(t, |k1|);
      last := Xor(last, k2);
    } else {
      last := Xor(last, k1);
    }
  }

  method EncryptLast(c: Cipher, last: seq<Byte>, state: seq<Byte>) returns (tag: seq<Byte>)
    requires Encrypts(c) && |last| == |state| == c.size
    ensures tag == c.enc(Xor(last, state)) && |tag| == c.size
  {
    hide Xor;
    tag := Xor(last, state);
    tag := c.enc(tag);
  }

  lemma SubkeySizes(c: Cipher, k1: seq<Byte>, k2: seq<Byte>)
    requires Encrypts(c) && Subkeys(c, k1, k2)
    ensures |k1| == |k2| == c.size
  {
    hide Be, Bits.TimesX;
  }

  lemma TakeMore<T>(s: seq<T>, d: nat, k: nat)
    requires d + k <= |s|
    ensures s[..d] + s[d..][..k] == s[..d + k]
  {
  }

  lemma SplitShort(k: nat, y: nat, n: nat)
    requires (n == 8 || n == 16) && Rem(k, n) == 0 && 0 < y <= n
    ensures Split(k + y, n, true) == k
  {
    SplitAfter(k, y, n, true);
  }

  // Any way of cutting the message gives its MAC
  method MacOfPieces(ctx: CmacContext, pieces: seq<seq<Byte>>)
      returns (tag: seq<Byte>, ghost k1: seq<Byte>, ghost k2: seq<Byte>)
    requires ctx.Valid() && ctx.Sofar([])
    modifies ctx, ctx.block
    ensures Subkeys(ctx.c, k1, k2) && tag == MacOf(ctx.c, Concat(pieces), k1, k2)
    ensures var n, z := ctx.c.size, ZeroBytes(ctx.c.size);
            |k1| == |k2| == n && tag == LastOf(z, CbcEnc(ctx.c, z, Masked(n, Concat(pieces), k1, k2)))
    ensures ctx.Valid() && ctx.Sofar([])
  {
    hide Encrypts, Seen, MacOf, Subkeys, Masked, CbcEnc, LastOf;
    UseEncrypts(ctx.c);
    var i := 0;
    assert pieces[..0] == [];
    while i < |pieces|
      invariant 0 <= i <= |pieces| && ctx.Valid() && ctx.Sofar(Concat(pieces[..i]))
    {
      ctx.Update(pieces[i], Concat(pieces[..i]));
      assert pieces[..i + 1][..i] == pieces[..i];
      i := i + 1;
    }
    assert pieces[..i] == pieces;
    tag, k1, k2 := ctx.Finish(Concat(pieces));
    SubkeySizes(ctx.c, k1, k2);
    MacWrittenOut(ctx.c, Concat(pieces), k1, k2);
  }

  lemma UseEncrypts(c: Cipher)
    requires Encrypts(c)
    ensures c.size == 8 || c.size == 16
  {
  }

  lemma NoMac(c: Cipher, x: seq<Byte>)
    requires Encrypts(c) && |x| == c.size
    ensures MacBlocks(c, x, []) == x
  {
  }

  // The number of blocks, a partial one counting as one
  function BlocksIn(x: nat, bs: nat): nat
    requires bs == 8 || bs == 16
  {
    if bs == 8 then (x + 7) / 8 else (x + 15) / 16
  }

  // Block number j, counting from 1, begins at d
  predicate BlockAt(d: nat, j: nat, bs: nat)
  {
    d == (j - 1) * bs
  }

  lemma LastButOne(x: nat, bs: nat, d: nat, j: nat, n: nat)
    requires (bs == 8 || bs == 16) && n == BlocksIn(x, bs) && 1 <= j < n && BlockAt(d, j, bs)
    ensures d + bs < x && BlockAt(d + bs, j + 1, bs)
  {
  }

  lemma FirstBlockAt(bs: nat)
    ensures BlockAt(0, 1, bs)
  {
  }

  // What the loop leaves is the part that is held back
  lemma LastOne(x: nat, bs: nat, n: nat, d: nat)
    requires (bs == 8 || bs == 16) && n == BlocksIn(x, bs) && if n == 0 then d == 0 else BlockAt(d, n, bs)
    ensures d == Split(x, bs, true) && x - d <= bs
  {
  }
}
