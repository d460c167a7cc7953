/**
 The CBC branch of the generic cipher layer (cipher.c): data arriving in pieces of any size,
 whole blocks processed at once, the rest kept for the next call.
 */
module CipherLayer {
  import opened Arith
  import opened Bytes
  import opened Block
  import opened Cbc
  import opened Padding

  datatype Outcome = Done | FullBlockExpected | InvalidPadding

  // How much of x bytes is processed; hold keeps back at least one byte of a nonempty message
  function Split(x: nat, n: nat, hold: bool): (k: nat)
    requires n == 8 || n == 16
    ensures k <= x
  {
    if hold && x > 0 && Rem(x, n) == 0 then x - n else x - Rem(x, n)
  }

  lemma SplitFacts(x: nat, n: nat, hold: bool)
    requires n == 8 || n == 16
    ensures var k := Split(x, n, hold);
            Rem(k, n) == 0 && x - k <= n && (!hold ==> x - k < n) && (hold && x > 0 ==> x - k > 0)
  {
  }

  lemma RemAdd(k: nat, z: nat, n: nat)
    requires (n == 8 || n == 16) && Rem(k, n) == 0
    ensures Rem(k + z, n) == Rem(z, n)
  {
    if n == 8 {
      DivModBasics(k, 8);
      ModAddMultiple(z, k / 8, 8);
    } else {
      DivModBasics(k, 16);
      ModAddMultiple(z, k / 16, 16);
    }
  }

  lemma SplitAfter(k: nat, z: nat, n: nat, hold: bool)
    requires (n == 8 || n == 16) && Rem(k, n) == 0 && (hold && k > 0 ==> z > 0)
    ensures Split(k + z, n, hold) == k + Split(z, n, hold)
  {
    RemAdd(k, z, n);
    hide Rem;
  }

  lemma RemBlock(n: nat)
    requires n == 8 || n == 16
    ensures Rem(n, n) == 0 && Rem(0, n) == 0 && forall x: nat :: x < n ==> Rem(x, n) == x
  {
  }

  // The bytes m, all that have arrived since iv0, have given out; iv1 and pending are left
  ghost predicate Step(c: Cipher, decrypt: bool, hold: bool, iv0: seq<Byte>, m: seq<Byte>, out: seq<Byte>,
                       iv1: seq<Byte>, pending: seq<Byte>)
    requires Inverts(c)
  {
    var k := Split(|m|, c.size, hold);
    && |iv0| == c.size && out == CbcBy(c, decrypt, iv0, m[..k])
    && iv1 == NextIv(decrypt, iv0, m[..k], out) && pending == m[k..]
  }

  // All whole blocks are given out, except that one waits if there has to be one
  lemma ReleasedAmount(c: Cipher, decrypt: bool, hold: bool, iv0: seq<Byte>, m: seq<Byte>, out: seq<Byte>,
                       iv1: seq<Byte>, pending: seq<Byte>)
    requires Inverts(c) && Step(c, decrypt, hold, iv0, m, out, iv1, pending)
    ensures Rem(|out|, c.size) == 0 && |out| + |pending| == |m|
    ensures if hold then |pending| <= c.size && (|m| > 0 ==> |pending| > 0) else |pending| < c.size
  {
    hide Inverts, Rem, CbcBy;
    UseCipher(c);
    var k := Split(|m|, c.size, hold);
    SplitFacts(|m|, c.size, hold);
    CbcByLength(c, decrypt, iv0, m[..k]);
  }

  // Too little for a block
  lemma StepNothing(c: Cipher, decrypt: bool, hold: bool, iv: seq<Byte>, m: seq<Byte>)
    requires Inverts(c) && |iv| == c.size && |m| <= c.size && (!hold ==> |m| < c.size)
    ensures Step(c, decrypt, hold, iv, m, [], iv, m)
  {
    hide Inverts, CbcBy, NextIv;
    UseCipher(c);
    NoneDone(c, decrypt, iv);
    assert m[..0] == [] && m[0..] == m;
  }

  // Whole blocks first, then the rest
  lemma {:induction false} StepAfter(c: Cipher, decrypt: bool, hold: bool, iv0: seq<Byte>, b: seq<Byte>,
                                     out: seq<Byte>, iv1: seq<Byte>,
                                     rest: seq<Byte>, o: seq<Byte>, iv2: seq<Byte>, pending: seq<Byte>)
    requires Inverts(c) && |iv0| == c.size && Rem(|b|, c.size) == 0 && (hold && |b| > 0 ==> |rest| > 0)
    requires out == CbcBy(c, decrypt, iv0, b) && iv1 == NextIv(decrypt, iv0, b, out)
    requires Step(c, decrypt, hold, iv1, rest, o, iv2, pending)
    ensures Step(c, decrypt, hold, iv0, b + rest, out + o, iv2, pending)
  {
    hide Inverts, CbcBy, NextIv, Rem, Split;
    UseCipher(c);
    var k := Split(|rest|, c.size, hold);
    SplitAfter(|b|, |rest|, c.size, hold);
    SplitFacts(|rest|, c.size, hold);
    CbcByAppend(c, decrypt, iv0, b, rest[..k]);
    assert b + rest[..k] == (b + rest)[..|b| + k] && rest[k..] == (b + rest)[|b| + k..];
  }

  lemma StepOpen(c: Cipher, decrypt: bool, hold: bool, iv0: seq<Byte>, m: seq<Byte>, o: seq<Byte>, iv1: seq<Byte>,
                 pending: seq<Byte>)
      returns (k: nat)
    requires Inverts(c) && Step(c, decrypt, hold, iv0, m, o, iv1, pending)
    ensures k == Split(|m|, c.size, hold) <= |m| && Rem(k, c.size) == 0 && |iv0| == c.size && pending == m[k..]
    ensures o == CbcBy(c, decrypt, iv0, m[..k]) && iv1 == NextIv(decrypt, iv0, m[..k], o)
    ensures hold && k > 0 ==> |pending| > 0
  {
    hide CbcBy, NextIv;
    UseCipher(c);
    k := Split(|m|, c.size, hold);
    SplitFacts(|m|, c.size, hold);
  }

  // Two steps make one
  lemma {:induction false} StepTwice(c: Cipher, decrypt: bool, hold: bool, iv0: seq<Byte>, m: seq<Byte>,
                                     o: seq<Byte>, iv1: seq<Byte>, pending: seq<Byte>,
                                     input: seq<Byte>, out: seq<Byte>, iv2: seq<Byte>, pending2: seq<Byte>)
    requires Inverts(c) && Step(c, decrypt, hold, iv0, m, o, iv1, pending)
    requires Step(c, decrypt, hold, iv1, pending + input, out, iv2, pending2)
    ensures Step(c, decrypt, hold, iv0, m + input, o + out, iv2, pending2)
  {
    hide Inverts, CbcBy, NextIv, Rem, Step;
    var k := StepOpen(c, decrypt, hold, iv0, m, o, iv1, pending);
    StepAfter(c, decrypt, hold, iv0, m[..k], o, iv1, pending + input, out, iv2, pending2);
    assert m[..k] + (pending + input) == m + input;
  }

  class Context {
    const c: Cipher
    var decrypt: bool
    var scheme: Scheme
    var iv: seq<Byte>
    const data: array<Byte>
    var len: nat

    constructor (c: Cipher, decrypt: bool, scheme: Scheme, iv: seq<Byte>)
      requires Inverts(c) && |iv| == c.size
      ensures Valid() && fresh(data) && this.c == c && this.decrypt == decrypt && this.scheme == scheme && this.iv == iv
      ensures Pending() == []
    {
      this.c, this.decrypt, this.scheme, this.iv := c, decrypt, scheme, iv;
      data := new Byte[16](_ => 0);
      len := 0;
    }

    // Decryption with padding has to keep the last block back
    predicate Hold()
      reads this
    {
      decrypt && !scheme.NoPadding?
    }

    ghost predicate Valid()
      reads this, data
    {
      Inverts(c) && |iv| == c.size && data.Length == 16 && len <= c.size && (!Hold() ==> len < c.size)
    }

    // The bytes waiting for more
    ghost function Pending(): (s: seq<Byte>)
      reads this, data
      requires Valid()
      ensures |s| == len
    {
      data[..len]
    }

    // All of message m has arrived and o has been produced from it, starting with iv0
    ghost predicate Sofar(iv0: seq<Byte>, m: seq<Byte>, o: seq<Byte>)
      reads this, data
      requires Valid()
    {
      Step(c, decrypt, Hold(), iv0, m, o, iv, Pending())
    }

    // Append to the waiting bytes
    method Cache(input: seq<Byte>)
      requires Inverts(c) && |iv| == c.size && data.Length == 16 && len + |input| <= c.size
      requires !Hold() ==> len + |input| < c.size
      modifies this`len, data
      ensures Valid() && Pending() == old(data[..len]) + input
    {
      hide Inverts;
      UseCipher(c);
      var l := len;
      var i: nat := 0;
      while i < |input|
        invariant i <= |input| && data[..l + i] == old(data[..len]) + input[..i]
        modifies data
      {
        data[l + i] := input[i];
        assert data[..l + (i + 1)] == data[..l + i] + [input[i]];
        i := i + 1;
      }
      len := l + |input|;
    }

    // Complete the waiting block and process it
    method ProcessCached(input: seq<Byte>) returns (out: seq<Byte>, rest: seq<Byte>)
      requires Valid() && 0 < len && c.size - len <= |input|
      modifies this`iv, this`len, data
      ensures Valid() && len == 0 && |rest| == |input| - (c.size - old(len))
      ensures input == input[..c.size - old(len)] + rest
      ensures var b := old(Pending()) + input[..c.size - old(len)];
              out == CbcBy(c, decrypt, old(iv), b) && iv == NextIv(decrypt, old(iv), b, out)
    {
      hide Inverts, CbcBy, NextIv;
      UseCipher(c);
      var copy := c.size - len;
      var b := data[..len] + input[..copy];
      var ret;
      ret, out, iv := CryptCbc(c, decrypt, iv, b);
      len := 0;
      rest := input[copy..];
    }

    // Keep the end, process the whole blocks before it
    method ProcessRest(rest: seq<Byte>) returns (out: seq<Byte>)
      requires Valid() && len == 0
      modifies this`iv, this`len, data
      ensures Valid() && Step(c, decrypt, Hold(), old(iv), rest, out, iv, Pending())
    {
      hide Inverts, CbcBy, NextIv;
      UseCipher(c);
      var n := c.size;
      out := [];
      SplitFacts(|rest|, n, Hold());
      NoneDone(c, decrypt, iv);
      var whole := rest;
      if |rest| != 0 {
        var copy := Rem(|rest|, n);
        if copy == 0 && decrypt && !scheme.NoPadding? {
          copy := n;
        }
        assert data[..len] == [];
        Cache(rest[|rest| - copy..]);
        whole := rest[..|rest| - copy];
      }
      if |whole| != 0 {
        var ret;
        ret, out, iv := CryptCbc(c, decrypt, iv, whole);
      }
    }

    method Update(input: seq<Byte>) returns (out: seq<Byte>)
      requires Valid()
      modifies this`iv, this`len, data
      ensures Valid() && Step(c, decrypt, Hold(), old(iv), old(Pending()) + input, out, iv, Pending())
      ensures Rem(|out|, c.size) == 0 && |out| + len == old(len) + |input|
      ensures decrypt && !scheme.NoPadding? ==> len <= c.size && (old(len) + |input| > 0 ==> len > 0)
      ensures !decrypt || scheme.NoPadding? ==> len < c.size
    {
      out := Feed(input);
      ReleasedAmount(c, decrypt, Hold(), old(iv), old(Pending()) + input, out, iv, Pending());
    }

    method Feed(input: seq<Byte>) returns (out: seq<Byte>)
      requires Valid()
      modifies this`iv, this`len, data
      ensures Valid() && Step(c, decrypt, Hold(), old(iv), old(Pending()) + input, out, iv, Pending())
    {
      hide Inverts, CbcBy, NextIv, Rem, Step;
      UseCipher(c);
      var n := c.size;
      RemBlock(n);
      ghost var pending, iv0 := Pending(), iv;
      if (decrypt && !scheme.NoPadding? && |input| <= n - len)
         || (decrypt && scheme.NoPadding? && |input| < n - len)
         || (!decrypt && |input| < n - len) {
        StepNothing(c, decrypt, Hold(), iv, pending + input);
        Cache(input);
        return [];
      }
      if len == 0 {
        assert pending + input == input;
        out := ProcessRest(input);
        return;
      }
      ghost var b := pending + input[..n - len];
      var rest;
      out, rest := ProcessCached(input);
      assert pending + input == b + rest;
      ghost var o1, iv1 := out, iv;
      var o := ProcessRest(rest);
      StepAfter(c, decrypt, Hold(), iv0, b, o1, iv1, rest, o, iv, Pending());
      out := out + o;
    }

    // The last block. Decryption returns the whole block and how much of it is data.
    method Finish() returns (ret: Outcome, block: seq<Byte>, olen: int)
      requires Valid()
      modifies this`iv, data
      ensures !decrypt ==>
                (if scheme.NoPadding? then ret == (if old(len) == 0 then Done else FullBlockExpected) && block == []
                 else ret == Done && olen == c.size
                      && block == CbcEnc(c, old(iv), old(Pending()) + Fill(scheme, c.size, old(len))))
      ensures decrypt && old(len) != c.size ==>
                ret == (if scheme.NoPadding? && old(len) == 0 then Done else FullBlockExpected) && block == []
      ensures decrypt && old(len) == c.size ==>
                block == CbcDec(c, old(iv), old(Pending())) && |block| == c.size
                && (ret == Done <==> exists k :: DataLength(scheme, block, k)) && (ret == Done || ret == InvalidPadding)
                && (ret == Done ==> 0 <= olen <= |block| && DataLength(scheme, block, olen))
      ensures block == [] && ret == Done ==> olen == 0
    {
      hide Inverts, Fill, DataLength, Rem;
      UseCipher(c);
      RemBlock(c.size);
      block, olen := [], 0;
      var b := data[..c.size];
      if !decrypt {
        if scheme.NoPadding? {
          return if len != 0 then FullBlockExpected else Done, block, 0;
        }
        AddPadding(scheme, data, c.size, len);
        b := data[..c.size];
      } else if c.size != len {
        return if scheme.NoPadding? && len == 0 then Done else FullBlockExpected, block, 0;
      }
      CbcByLength(c, decrypt, iv, b);
      var r;
      r, block, iv := CryptCbc(c, decrypt, iv, b);
      if decrypt {
        var ok, k := GetPadding(scheme, block);
        return if ok then Done else InvalidPadding, block, k;
      }
      return Done, block, c.size;
    }
  }

  // ----- Whole messages

  // The message with its padding
  function PaddedMessage(p: Scheme, n: BlockSize, m: seq<Byte>): seq<Byte>
  {
    if p.NoPadding? then m else m + Fill(p, n, Rem(|m|, n))
  }

  // Feed the pieces to the context
  method UpdateAll(ctx: Context, pieces: seq<seq<Byte>>) returns (out: seq<Byte>)
    requires ctx.Valid() && ctx.Pending() == []
    modifies ctx`iv, ctx`len, ctx.data
    ensures ctx.Valid() && ctx.Sofar(old(ctx.iv), Concat(pieces), out)
  {
    hide Inverts, Step;
    UseCipher(ctx.c);
    ghost var iv0 := ctx.iv;
    out := [];
    StepNothing(ctx.c, ctx.decrypt, ctx.Hold(), iv0, []);
    var i := 0;
    assert pieces[..0] == [];
    while i < |pieces|
      invariant 0 <= i <= |pieces| && ctx.Valid() && ctx.Sofar(iv0, Concat(pieces[..i]), out)
    {
      ghost var m, o, iv1, pending := Concat(pieces[..i]), out, ctx.iv, ctx.Pending();
      var piece := ctx.Update(pieces[i]);
      StepTwice(ctx.c, ctx.decrypt, ctx.Hold(), iv0, m, o, iv1, pending, pieces[i], piece, ctx.iv, ctx.Pending());
      assert pieces[..i + 1][..i] == pieces[..i];
      out := out + piece;
      i := i + 1;
    }
    assert pieces[..i] == pieces;
  }

  lemma SplitNoHold(x: nat, n: nat)
    requires n == 8 || n == 16
    ensures Split(x, n, false) == x - Rem(x, n)
  {
  }

  // Encryption in pieces is one CBC pass over the padded message
  method EncryptAll(ctx: Context, pieces: seq<seq<Byte>>) returns (ret: Outcome, out: seq<Byte>)
    requires ctx.Valid() && ctx.Pending() == [] && !ctx.decrypt
    modifies ctx`iv, ctx`len, ctx.data
    ensures var m := Concat(pieces);
            && ret == (if ctx.scheme.NoPadding? && Rem(|m|, ctx.c.size) != 0 then FullBlockExpected else Done)
            && (ret == Done ==> out == CbcEnc(ctx.c, old(ctx.iv), PaddedMessage(ctx.scheme, ctx.c.size, m)))
  {
    hide Inverts, Step, CbcEnc, CbcDec, Fill, Rem, NextIv;
    UseCipher(ctx.c);
    ghost var iv0, m := ctx.iv, Concat(pieces);
    out := UpdateAll(ctx, pieces);
    ghost var k := StepOpen(ctx.c, false, false, iv0, m, out, ctx.iv, ctx.Pending());
    SplitNoHold(|m|, ctx.c.size);
    var block, olen;
    ret, block, olen := ctx.Finish();
    ghost var tail := m[k..] + Fill(ctx.scheme, ctx.c.size, |m| - k);
    CbcByAppend(ctx.c, false, iv0, m[..k], tail);
    assert m[..k] + tail == m + Fill(ctx.scheme, ctx.c.size, |m| - k);
    assert ctx.scheme.NoPadding? && |m| == k ==> m[..k] == m;
    out := out + block;
  }

  // The decrypted blocks d are the data r and its padding, k bytes of data in the last block
  ghost predicate Unpads(p: Scheme, n: BlockSize, d: seq<Byte>, r: seq<Byte>, k: nat)
  {
    n <= |d| && k <= n && DataLength(p, d[|d| - n..], k) && r == d[..|d| - n + k]
  }

  // What decrypting s gives
  ghost predicate DecryptsTo(c: Cipher, p: Scheme, iv: seq<Byte>, s: seq<Byte>, r: seq<Byte>)
    requires Inverts(c) && |iv| == c.size
  {
    Rem(|s|, c.size) == 0 &&
    if p.NoPadding? then r == CbcDec(c, iv, s) else exists k: nat :: Unpads(p, c.size, CbcDec(c, iv, s), r, k)
  }

  method DecryptAll(ctx: Context, pieces: seq<seq<Byte>>) returns (ret: Outcome, out: seq<Byte>)
    requires ctx.Valid() && ctx.Pending() == [] && ctx.decrypt
    modifies ctx`iv, ctx`len, ctx.data
    ensures var s := Concat(pieces);
            && (ret == Done ==> DecryptsTo(ctx.c, ctx.scheme, old(ctx.iv), s, out))
            && (ret == Done <==> exists r :: DecryptsTo(ctx.c, ctx.scheme, old(ctx.iv), s, r))
            && (ret == FullBlockExpected <==> Rem(|s|, ctx.c.size) != 0 || (|s| == 0 && !ctx.scheme.NoPadding?))
  {
    hide Inverts, Step, CbcEnc, CbcDec, Fill, Rem, NextIv, DataLength;
    UseCipher(ctx.c);
    ghost var iv0, s, n := ctx.iv, Concat(pieces), ctx.c.size;
    out := UpdateAll(ctx, pieces);
    ghost var k := StepOpen(ctx.c, true, ctx.Hold(), iv0, s, out, ctx.iv, ctx.Pending());
    HoldAmount(|s|, n, ctx.Hold());
    ghost var o := out;
    CbcByAppend(ctx.c, true, iv0, s[..k], s[k..]);
    assert s[..k] + s[k..] == s;
    CbcDecLength(ctx.c, iv0, s[..k]);
    CbcDecLength(ctx.c, iv0, s);
    var block, olen;
    ret, block, olen := ctx.Finish();
    if ret == Done {
      out := out + block[..olen];
    }
    ghost var d := CbcDec(ctx.c, iv0, s);
    if ctx.scheme.NoPadding? {
      assert k == |s| ==> s[..k] == s;
    } else if |s| - k == n {
      assert d == o + block && d[|d| - n..] == block;
      if ret == Done {
        assert Unpads(ctx.scheme, n, d, out, olen);
        assert DecryptsTo(ctx.c, ctx.scheme, iv0, s, out);
      }
    }
  }

  // With holding back, a full block waits exactly when whole blocks have arrived
  lemma HoldAmount(x: nat, n: nat, hold: bool)
    requires n == 8 || n == 16
    ensures var k := Split(x, n, hold);
            if hold then (x - k == n <==> x > 0 && Rem(x, n) == 0) && (x == 0 ==> k == 0) else x - k == Rem(x, n) < n
  {
  }

  // ----- Decryption inverts encryption, whatever the pieces

  lemma PaddedWhole(p: Scheme, n: BlockSize, m: seq<Byte>)
    requires !p.NoPadding?
    ensures Rem(|m|, n) < n && Rem(|m|, n) <= |m| && Rem(|PaddedMessage(p, n, m)|, n) == 0
    ensures |PaddedMessage(p, n, m)| == |m| - Rem(|m|, n) + n
  {
  }

  // The padded message ends with a block of the last bytes and their padding
  lemma {:induction false} UnpadsPadded(p: Scheme, n: BlockSize, m: seq<Byte>, r: seq<Byte>, k: nat)
    requires !p.NoPadding?
    ensures Readable(p) ==> (Unpads(p, n, PaddedMessage(p, n, m), r, k) <==> k == Rem(|m|, n) && r == m)
    ensures p.ZeroFill? ==>
              (Unpads(p, n, PaddedMessage(p, n, m), m, k) <==> k == Rem(|m|, n) && (k == 0 || m[|m| - 1] != 0))
  {
    hide Rem, Fill, DataLength;
    PaddedWhole(p, n, m);
    var e, d := Rem(|m|, n), PaddedMessage(p, n, m);
    var t := m[|m| - e..];
    assert d[|d| - n..] == t + Fill(p, n, e);
    PadThenFind(p, t, n, k);
    assert d[..|d| - n + e] == m;
    if Unpads(p, n, d, m, k) {
      assert |m| == |d| - n + k;
    }
  }

  lemma {:induction false} CipherRoundTrip(c: Cipher, p: Scheme, iv: seq<Byte>, m: seq<Byte>, r: seq<Byte>)
    requires Inverts(c) && |iv| == c.size && Readable(p)
    ensures DecryptsTo(c, p, iv, CbcEnc(c, iv, PaddedMessage(p, c.size, m)), r) <==> r == m
  {
    hide Inverts, Rem, CbcEnc, CbcDec, Unpads, PaddedMessage;
    UseCipher(c);
    var s := PaddedMessage(p, c.size, m);
    PaddedWhole(p, c.size, m);
    CbcBack(c, iv, s);
    CbcEncLength(c, iv, s);
    forall k: nat
      ensures Unpads(p, c.size, s, r, k) <==> k == Rem(|m|, c.size) && r == m
    {
      UnpadsPadded(p, c.size, m, r, k);
    }
    assert r == m ==> Unpads(p, c.size, s, r, Rem(|m|, c.size));
  }

  // Filling with zeros loses the zeros at the end of a message that does not fill its last block
  lemma {:induction false} ZeroFillRoundTrip(c: Cipher, iv: seq<Byte>, m: seq<Byte>)
    requires Inverts(c) && |iv| == c.size
    ensures DecryptsTo(c, ZeroFill, iv, CbcEnc(c, iv, PaddedMessage(ZeroFill, c.size, m)), m)
       <==> Rem(|m|, c.size) == 0 || m[|m| - 1] != 0
  {
    hide Inverts, Rem, CbcEnc, CbcDec, Unpads, PaddedMessage;
    UseCipher(c);
    var s := PaddedMessage(ZeroFill, c.size, m);
    PaddedWhole(ZeroFill, c.size, m);
    CbcBack(c, iv, s);
    CbcEncLength(c, iv, s);
    RemBlock(c.size);
    forall k: nat
      ensures Unpads(ZeroFill, c.size, s, m, k) <==> k == Rem(|m|, c.size) && (k == 0 || m[|m| - 1] != 0)
    {
      UnpadsPadded(ZeroFill, c.size, m, m, k);
    }
    assert Unpads(ZeroFill, c.size, s, m, Rem(|m|, c.size)) <==> exists k: nat :: Unpads(ZeroFill, c.size, s, m, k);
  }

  lemma ZeroFillLoses(c: Cipher, iv: seq<Byte>)
    requires Inverts(c) && |iv| == c.size
    ensures !DecryptsTo(c, ZeroFill, iv, CbcEnc(c, iv, PaddedMessage(ZeroFill, c.size, [0])), [0])
  {
    hide Inverts, DecryptsTo, CbcEnc, PaddedMessage;
    UseCipher(c);
    ZeroFillRoundTrip(c, iv, [0]);
  }
}
