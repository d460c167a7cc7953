/**
 Cipher block chaining (aes.c).
 */
module Cbc {
  import opened Bytes
  import opened Block

  // ----- Chaining, block by block

  ghost function CbcEnc(c: Cipher, iv: seq<Byte>, s: seq<Byte>): seq<Byte>
    requires Encrypts(c) && |iv| == c.size
    decreases |s|
  {
    var n := c.size;
    if |s| < n then [] else
      var b := c.enc(Xor(s[..n], iv));
      b + CbcEnc(c, b, s[n..])
  }

  ghost function CbcDec(c: Cipher, iv: seq<Byte>, s: seq<Byte>): seq<Byte>
    requires Inverts(c) && |iv| == c.size
    decreases |s|
  {
    var n := c.size;
    if |s| < n then [] else Xor(c.dec(s[..n]), iv) + CbcDec(c, s[..n], s[n..])
  }

  lemma {:induction false} CbcEncLength(c: Cipher, iv: seq<Byte>, s: seq<Byte>)
    requires Encrypts(c) && |iv| == c.size
    ensures |CbcEnc(c, iv, s)| == |s| - Rem(|s|, c.size)
    decreases |s|
  {
    hide Xor, Rem;
    var n := c.size;
    if |s| >= n {
      RemStep(|s|, n);
      CbcEncLength(c, c.enc(Xor(s[..n], iv)), s[n..]);
    } else {
      RemSmall(|s|, n);
    }
  }

  lemma {:induction false} CbcDecLength(c: Cipher, iv: seq<Byte>, s: seq<Byte>)
    requires Inverts(c) && |iv| == c.size
    ensures |CbcDec(c, iv, s)| == |s| - Rem(|s|, c.size)
    decreases |s|
  {
    hide Xor, Inverts, Rem;
    UseCipher(c);
    var n := c.size;
    if |s| >= n {
      RemStep(|s|, n);
      CbcDecLength(c, s[..n], s[n..]);
    } else {
      RemSmall(|s|, n);
    }
  }

  // The chaining value after the blocks s
  function LastOf(iv: seq<Byte>, s: seq<Byte>): (r: seq<Byte>)
    ensures |r| == |iv|
  {
    if |s| < |iv| then iv else s[|s| - |iv|..]
  }

  lemma {:induction false} CbcEncAppend(c: Cipher, iv: seq<Byte>, s: seq<Byte>, t: seq<Byte>)
    requires Encrypts(c) && |iv| == c.size && Rem(|s|, c.size) == 0
    ensures CbcEnc(c, iv, s + t) == CbcEnc(c, iv, s) + CbcEnc(c, LastOf(iv, CbcEnc(c, iv, s)), t)
    decreases |s|
  {
    hide Xor, Rem;
    var n := c.size;
    RemWhole(|s|, n);
    if |s| < n {
      assert s + t == t;
    } else {
      RemStep(|s|, n);
      RemWhole(|s| - n, n);
      var b := c.enc(Xor(s[..n], iv));
      assert (s + t)[..n] == s[..n] && (s + t)[n..] == s[n..] + t;
      CbcEncAppend(c, b, s[n..], t);
      CbcEncLength(c, b, s[n..]);
      assert LastOf(iv, CbcEnc(c, iv, s)) == LastOf(b, CbcEnc(c, b, s[n..]));
    }
  }

  lemma {:induction false} CbcDecAppend(c: Cipher, iv: seq<Byte>, s: seq<Byte>, t: seq<Byte>)
    requires Inverts(c) && |iv| == c.size && Rem(|s|, c.size) == 0
    ensures CbcDec(c, iv, s + t) == CbcDec(c, iv, s) + CbcDec(c, LastOf(iv, s), t)
    decreases |s|
  {
    hide Xor, Inverts, Rem, CbcDec, LastOf;
    var n := c.size;
    UseCipher(c);
    RemWhole(|s|, n);
    CbcDecStep(c, iv, s);
    CbcDecStep(c, iv, s + t);
    if |s| < n {
      assert s + t == t;
      LastOfNone(iv);
    } else {
      RemStep(|s|, n);
      RemWhole(|s| - n, n);
      assert (s + t)[..n] == s[..n] && (s + t)[n..] == s[n..] + t;
      CbcDecAppend(c, s[..n], s[n..], t);
      LastOfStep(iv, s, n);
    }
  }

  lemma CbcDecStep(c: Cipher, iv: seq<Byte>, s: seq<Byte>)
    requires Inverts(c) && |iv| == c.size
    ensures CbcDec(c, iv, s) ==
            if |s| < c.size then [] else Xor(c.dec(s[..c.size]), iv) + CbcDec(c, s[..c.size], s[c.size..])
  {
    hide Xor, Inverts;
  }

  lemma LastOfNone(iv: seq<Byte>)
    ensures LastOf(iv, []) == iv
  {
  }

  lemma LastOfStep(iv: seq<Byte>, s: seq<Byte>, n: nat)
    requires |iv| == n <= |s| && (|s| == n || |s| - n >= n)
    ensures LastOf(iv, s) == LastOf(s[..n], s[n..])
  {
  }

  lemma UseCipher(c: Cipher)
    requires Inverts(c)
    ensures Encrypts(c) && (c.size == 8 || c.size == 16)
    ensures forall b :: |b| == c.size ==> |c.dec(b)| == c.size
  {
  }

  // Decryption inverts encryption
  lemma {:induction false} CbcBack(c: Cipher, iv: seq<Byte>, s: seq<Byte>)
    requires Inverts(c) && |iv| == c.size && Rem(|s|, c.size) == 0
    ensures CbcDec(c, iv, CbcEnc(c, iv, s)) == s
    decreases |s|
  {
    hide Xor, Inverts, Rem;
    UseCipher(c);
    var n := c.size;
    RemWhole(|s|, n);
    if |s| >= n {
      RemStep(|s|, n);
      var x := Xor(s[..n], iv);
      var b := c.enc(x);
      BackAndForth(c, x);
      XorTwice(s[..n], iv);
      CbcBack(c, b, s[n..]);
      var r := CbcEnc(c, iv, s);
      assert r[..n] == b && r[n..] == CbcEnc(c, b, s[n..]);
      assert s == s[..n] + s[n..];
    }
  }

  // ----- Chaining written out

  lemma Dropped<T>(s: seq<T>, n: nat, d: nat)
    requires n <= d && d + n <= |s|
    ensures s[n..][d - n..d] == s[d..d + n]
  {
  }

  lemma {:induction false} CbcEncAt(c: Cipher, iv: seq<Byte>, s: seq<Byte>, d: nat)
    requires Encrypts(c) && |iv| == c.size && Rem(d, c.size) == 0 && d + c.size <= |s|
    ensures var n, r := c.size, CbcEnc(c, iv, s);
            d + n <= |r| && r[d..d + n] == c.enc(Xor(s[d..d + n], if d < n then iv else r[d - n..d]))
    decreases d
  {
    hide Xor, Rem;
    var n := c.size;
    var b := c.enc(Xor(s[..n], iv));
    var r, q := CbcEnc(c, iv, s), CbcEnc(c, b, s[n..]);
    assert r[..n] == b && r[n..] == q && s[0..n] == s[..n];
    if d > 0 {
      RemWhole(d, n);
      RemStep(d, n);
      RemWhole(d - n, n);
      CbcEncAt(c, b, s[n..], d - n);
      Dropped(s, n, d);
      Dropped(r, n, d);
      assert d > n ==> r[d - n..d] == q[d - n - n..d - n];
    }
  }

  lemma {:induction false} CbcDecAt(c: Cipher, iv: seq<Byte>, s: seq<Byte>, d: nat)
    requires Inverts(c) && |iv| == c.size && Rem(d, c.size) == 0 && d + c.size <= |s|
    ensures var n, r := c.size, CbcDec(c, iv, s);
            && d + n <= |r| && |c.dec(s[d..d + n])| == n
            && r[d..d + n] == Xor(c.dec(s[d..d + n]), if d < n then iv else s[d - n..d])
    decreases d
  {
    hide Xor, Rem, Inverts;
    UseCipher(c);
    var n := c.size;
    var x := Xor(c.dec(s[..n]), iv);
    var r, q := CbcDec(c, iv, s), CbcDec(c, s[..n], s[n..]);
    assert r[..n] == x && r[n..] == q && s[0..n] == s[..n];
    if d > 0 {
      RemWhole(d, n);
      RemStep(d, n);
      RemWhole(d - n, n);
      CbcDecAt(c, s[..n], s[n..], d - n);
      Dropped(s, n, d);
      Dropped(r, n, d);
      assert d > n ==> s[d - n..d] == s[n..][d - n - n..d - n];
    }
  }

  // Every block of out, in terms of its own block of s and the ciphertext block before it
  ghost predicate Chained(c: Cipher, decrypt: bool, iv: seq<Byte>, s: seq<Byte>, out: seq<Byte>)
    requires Inverts(c) && |iv| == c.size && |s| == |out|
  {
    var n := c.size;
    forall d: nat :: d + n <= |s| && Rem(d, n) == 0 ==>
      if decrypt then out[d..d + n] == Xor(c.dec(s[d..d + n]), if d < n then iv else s[d - n..d])
      else out[d..d + n] == c.enc(Xor(s[d..d + n], if d < n then iv else out[d - n..d]))
  }

  lemma {:induction false} CbcChained(c: Cipher, decrypt: bool, iv: seq<Byte>, s: seq<Byte>)
    requires Inverts(c) && |iv| == c.size && Rem(|s|, c.size) == 0
    ensures |CbcBy(c, decrypt, iv, s)| == |s| && Chained(c, decrypt, iv, s, CbcBy(c, decrypt, iv, s))
  {
    hide Xor, Rem, Inverts, CbcEnc, CbcDec;
    UseCipher(c);
    assert forall b :: |b| == c.size ==> |c.enc(b)| == c.size;
    CbcByLength(c, decrypt, iv, s);
    var n := c.size;
    forall d: nat | d + n <= |s| && Rem(d, n) == 0
      ensures var out := CbcBy(c, decrypt, iv, s);
              if decrypt then out[d..d + n] == Xor(c.dec(s[d..d + n]), if d < n then iv else s[d - n..d])
              else out[d..d + n] == c.enc(Xor(s[d..d + n], if d < n then iv else out[d - n..d]))
    {
      if decrypt { CbcDecAt(c, iv, s, d); } else { CbcEncAt(c, iv, s, d); }
    }
  }

  ghost function CbcBy(c: Cipher, decrypt: bool, iv: seq<Byte>, s: seq<Byte>): seq<Byte>
    requires Inverts(c) && |iv| == c.size
  {
    if decrypt then CbcDec(c, iv, s) else CbcEnc(c, iv, s)
  }

  lemma CbcByLength(c: Cipher, decrypt: bool, iv: seq<Byte>, s: seq<Byte>)
    requires Inverts(c) && |iv| == c.size
    ensures |CbcBy(c, decrypt, iv, s)| == |s| - Rem(|s|, c.size)
  {
    hide Inverts;
    UseCipher(c);
    if decrypt { CbcDecLength(c, iv, s); } else { CbcEncLength(c, iv, s); }
  }

  // The chaining value after s has become r
  function NextIv(decrypt: bool, iv: seq<Byte>, s: seq<Byte>, r: seq<Byte>): (v: seq<Byte>)
    ensures |v| == |iv|
  {
    LastOf(iv, if decrypt then s else r)
  }

  lemma {:induction false} CbcByAppend(c: Cipher, decrypt: bool, iv: seq<Byte>, s: seq<Byte>, t: seq<Byte>)
    requires Inverts(c) && |iv| == c.size && Rem(|s|, c.size) == 0
    ensures var r := CbcBy(c, decrypt, iv, s);
            var v := NextIv(decrypt, iv, s, r);
            var q := CbcBy(c, decrypt, v, t);
            CbcBy(c, decrypt, iv, s + t) == r + q
            && (Rem(|t|, c.size) == 0 ==> NextIv(decrypt, iv, s + t, r + q) == NextIv(decrypt, v, t, q))
  {
    hide CbcEnc, CbcDec, Inverts, Rem;
    UseCipher(c);
    RemWhole(|s|, c.size);
    if Rem(|t|, c.size) == 0 { RemWhole(|t|, c.size); }
    if decrypt {
      CbcDecAppend(c, iv, s, t);
      if Rem(|t|, c.size) == 0 { LastOfAppend(iv, s, t); }
    } else {
      CbcEncAppend(c, iv, s, t);
      var r := CbcEnc(c, iv, s);
      var q := CbcEnc(c, LastOf(iv, r), t);
      CbcEncLength(c, iv, s);
      CbcEncLength(c, LastOf(iv, r), t);
      if Rem(|t|, c.size) == 0 { LastOfAppend(iv, r, q); }
    }
  }

  lemma LastOfAppend(iv: seq<Byte>, s: seq<Byte>, t: seq<Byte>)
    requires |s| == 0 || |s| >= |iv|
    requires |t| == 0 || |t| >= |iv|
    ensures LastOf(iv, s + t) == LastOf(LastOf(iv, s), t)
  {
  }

  datatype CbcStatus = CbcOk | InvalidInputLength

  // crypt_cbc: the buffer in one call, the chaining value updated for the next one
  method CryptCbc(c: Cipher, decrypt: bool, iv0: seq<Byte>, input: seq<Byte>)
      returns (ret: CbcStatus, output: seq<Byte>, iv: seq<Byte>)
    requires Inverts(c) && |iv0| == c.size
    ensures ret == if Rem(|input|, c.size) == 0 then CbcOk else InvalidInputLength
    ensures ret.CbcOk? ==> output == CbcBy(c, decrypt, iv0, input) && iv == NextIv(decrypt, iv0, input, output)
    ensures ret.CbcOk? ==> |output| == |input| && Chained(c, decrypt, iv0, input, output)
    ensures ret.CbcOk? && |input| > 0 ==>
              |input| >= c.size && iv == (if decrypt then input else output)[|input| - c.size..]
    ensures ret.CbcOk? && |input| == 0 ==> iv == iv0
    ensures !ret.CbcOk? ==> output == [] && iv == iv0
  {
    hide Xor, Inverts, CbcBy, NextIv, Rem, Chained;
    UseCipher(c);
    var n := c.size;
    RemSmall(0, n);
    output, iv := [], iv0;
    if Rem(|input|, n) != 0 {
      return InvalidInputLength, output, iv;
    }
    var i := 0;
    NoneDone(c, decrypt, iv0);
    assert input[..0] == [];
    while i < |input|
      invariant 0 <= i <= |input| && Rem(i, n) == 0
      invariant |iv| == n && output == CbcBy(c, decrypt, iv0, input[..i])
      invariant iv == NextIv(decrypt, iv0, input[..i], output)
    {
      BlockAhead(i, |input|, n);
      var b := input[i..i + n];
      CbcByAppend(c, decrypt, iv0, input[..i], b);
      OneBlock(c, decrypt, iv, b);
      assert input[..i] + b == input[..i + n];
      if decrypt {
        output := output + Xor(c.dec(b), iv);
        iv := b;
      } else {
        var e := c.enc(Xor(b, iv));
        output := output + e;
        iv := e;
      }
      i := i + n;
    }
    assert input[..i] == input;
    CbcChained(c, decrypt, iv0, input);
    RemWhole(|input|, n);
    LastIv(decrypt, iv0, input, output);
    ret := CbcOk;
  }

  lemma LastIv(decrypt: bool, iv: seq<Byte>, s: seq<Byte>, r: seq<Byte>)
    requires |s| == |r| && (|s| == 0 || |s| >= |iv|) && |iv| > 0
    ensures NextIv(decrypt, iv, s, r) == if |s| == 0 then iv else (if decrypt then s else r)[|s| - |iv|..]
  {
  }

  lemma BlockAhead(i: nat, len: nat, n: nat)
    requires (n == 8 || n == 16) && Rem(i, n) == 0 && Rem(len, n) == 0 && i < len
    ensures i + n <= len && Rem(n, n) == 0 && Rem(i + n, n) == 0
  {
    if n == 8 {
      assert i % 8 == 0 && len % 8 == 0;
    } else {
      assert i % 16 == 0 && len % 16 == 0;
    }
  }

  lemma NoneDone(c: Cipher, decrypt: bool, iv: seq<Byte>)
    requires Inverts(c) && |iv| == c.size
    ensures CbcBy(c, decrypt, iv, []) == [] && NextIv(decrypt, iv, [], []) == iv
  {
  }

  lemma OneBlock(c: Cipher, decrypt: bool, iv: seq<Byte>, b: seq<Byte>)
    requires Inverts(c) && |iv| == |b| == c.size
    ensures var r := if decrypt then Xor(c.dec(b), iv) else c.enc(Xor(b, iv));
            CbcBy(c, decrypt, iv, b) == r && NextIv(decrypt, iv, b, r) == if decrypt then b else r
  {
    hide Xor, Inverts;
    UseCipher(c);
    assert b[..c.size] == b && b[c.size..] == [];
    var r := if decrypt then Xor(c.dec(b), iv) else c.enc(Xor(b, iv));
    assert r + [] == r && r[0..] == r && b[0..] == b;
    assert CbcDec(c, b, []) == [] && CbcEnc(c, c.enc(Xor(b, iv)), []) == [];
  }
}
