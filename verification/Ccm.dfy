/**
 The streaming CCM implementation (ccm.c): lengths announced in advance, associated data and
 message arriving in pieces, then the tag.
 */
module Ccm {
  import opened Arith
  import opened Bytes
  import opened Block
  import opened Cmac
  import opened CcmSpec
  import Bits

  // ----- The counter

  // The low q bytes, as a number, plus 1
  function NextCtr(ctr: seq<Byte>, q: nat): (r: seq<Byte>)
    requires |ctr| == 16 && q <= 16
    ensures |r| == 16
  {
    ctr[..16 - q] + BeBytes(Be(ctr[16 - q..]) + 1, q)
  }

  lemma {:induction false} NextCtrIs(q: nat, nonce: seq<Byte>, i: nat)
    requires IsNonce(q, nonce)
    ensures NextCtr(Ctr(q, nonce, i), q) == Ctr(q, nonce, i + 1)
  {
    hide Be, BeBytes, Pow2;
    var ctr := Ctr(q, nonce, i);
    assert ctr[..16 - q] == [q - 1] + nonce && ctr[16 - q..] == BeBytes(i, q);
    var v, w := Be(BeBytes(i, q)), Pow2(8 * q);
    BeOfBytesMod(i, q);
    BeOfBytesMod(v + 1, q);
    BeOfBytesMod(i + 1, q);
    CongMod(i, w);
    CongAdd(v, i, 1, 1, w);
    BeInjective(BeBytes(v + 1, q), BeBytes(i + 1, q));
  }

  // Increment the low q bytes, with carry, wrapping around
  method IncrementCtr(ctr0: seq<Byte>, q: nat) returns (ctr: seq<Byte>)
    requires |ctr0| == 16 && q <= 16
    ensures ctr == NextCtr(ctr0, q)
  {
    hide Be, BeBytes, Pow2, NextCtr;
    ctr := ctr0;
    ghost var head := ctr0[..16 - q];
    ghost var v := Be(ctr0[16 - q..]);
    BeBound(ctr0[16 - q..]);
    SmallPow2();
    var j: nat := 0;
    while j < q
      invariant j <= q && |ctr| == 16 && ctr[..16 - q] == head
      invariant Be(ctr[16 - q..]) + Pow2(8 * j) == v + 1
    {
      var x: int := ctr[15 - j];
      var b: Byte := (x + 1) % 256;
      ghost var low := ctr[16 - q..];
      BeUpdate(low, j, b);
      assert ctr[15 - j := b][16 - q..] == low[q - 1 - j := b];
      EightBits(8 * j);
      CarryByte(Pow2(8 * j), low[q - 1 - j], b);
      ctr := ctr[15 - j := b];
      assert ctr[..16 - q] == head;
      if b != 0 {
        NextCounter(ctr[16 - q..], q, v, 0);
        CounterDone(ctr0, ctr, q);
        return;
      }
      j := j + 1;
    }
    NextCounter(ctr[16 - q..], q, v, Pow2(8 * q));
    CounterDone(ctr0, ctr, q);
  }

  lemma CounterDone(ctr0: seq<Byte>, ctr: seq<Byte>, q: nat)
    requires |ctr0| == |ctr| == 16 && q <= 16 && ctr[..16 - q] == ctr0[..16 - q]
    requires ctr[16 - q..] == BeBytes(Be(ctr0[16 - q..]) + 1, q)
    ensures ctr == NextCtr(ctr0, q)
  {
    hide Be, BeBytes;
    assert ctr == ctr[..16 - q] + ctr[16 - q..];
  }

  lemma CarryByte(p: int, x: Byte, b: Byte)
    requires b == (0 + x + 1) % 256
    ensures b != 0 ==> p * b - p * x == p
    ensures b == 0 ==> p * b - p * x + 256 * p == p
  {
    if b != 0 {
      assert b == x + 1;
      MulDistrib(p, x, 1);
    } else {
      assert x == 255;
    }
  }

  lemma {:induction false} NextCounter(low: seq<Byte>, q: nat, v: nat, carry: nat)
    requires |low| == q && v < Pow2(8 * q) && Be(low) + carry == v + 1 && (carry == 0 || carry == Pow2(8 * q))
    ensures low == BeBytes(v + 1, q)
  {
    hide Be, BeBytes, Pow2;
    var w := Pow2(8 * q);
    BeOfBytesMod(v + 1, q);
    BeBound(low);
    DivModUnique(v + 1, w, if carry == 0 then 0 else 1, Be(low));
    BeInjective(low, BeBytes(v + 1, q));
  }

  // ----- The context

  datatype Mode = Encrypt | Decrypt | StarEncrypt | StarDecrypt
  datatype Status = Success | BadInputData | CorruptionDetected | AuthFailed

  predicate Encrypting(m: Mode)
  {
    m.Encrypt? || m.StarEncrypt?
  }

  predicate Star(m: Mode)
  {
    m.StarEncrypt? || m.StarDecrypt?
  }

  // The lengths set_lengths takes; the empty tag is left to CCM*
  predicate AcceptedLengths(alen: nat, t: nat)
  {
    t != 2 && t <= 16 && t % 2 == 0 && alen < 0xFF00
  }

  // What the first block accepts
  predicate AcceptedStart(m: Mode, q: nat, plen: nat, t: nat)
  {
    if t == 0 then Star(m) else plen < Pow2(8 * q)
  }

  lemma {:induction false} FlagBits(hasData: bool, t: nat, q: nat)
    requires IsTagLength(t) && 2 <= q <= 8
    ensures var y1 := Bits.Or(0, if hasData then 64 else 0);
            var y2 := Bits.Or(y1, (t - 2) / 2 * 8);
            Bits.Or(y2, q - 1) == Flags(hasData, t, q) < 256
  {
    hide Bits.Or;
    var h, k := if hasData then 1 else 0, (t - 2) / 2;
    SmallPow2();
    Bits.OrZero(64 * h);
    Bits.OrDisjoint(h, 8 * k, 6);
    Bits.OrDisjoint(8 * h + k, q - 1, 3);
  }

  // The length field, from the low end; what does not fit is reported
  method StoreLength(y0: seq<Byte>, q: nat, len: nat) returns (y: seq<Byte>, left: nat)
    requires |y0| == 16 && 2 <= q <= 8
    ensures y == y0[..16 - q] + BeBytes(len, q)
    ensures left > 0 <==> len >= Pow2(8 * q)
  {
    hide Pow2, Reversed, Digits256, Digit;
    y, left := y0, len;
    var i: nat := 0;
    SmallPow2();
    DivModUnique(len, 1, len, 0);
    while i < q
      invariant i <= q && |y| == 16 && left == len / Pow2(8 * i)
      invariant forall k :: 0 <= k < 16 - i ==> y[k] == y0[k]
      invariant forall k :: 0 <= k < i ==> y[15 - k] == Digit(len, k)
    {
      DigitIs(len, i);
      y := y[15 - i := left % 256];
      EightBits(8 * i);
      DivDiv(len, Pow2(8 * i), 256);
      DivLe(0, left, 256);
      left := left / 256;
      i := i + 1;
    }
    LengthBytes(y, y0, q, len);
    DivModBasics(len, Pow2(8 * q));
    LeftOver(len, Pow2(8 * q), left);
  }

  lemma DigitIs(v: nat, i: nat)
    ensures Digit(v, i) == v / Pow2(8 * i) % 256
  {
  }

  lemma LeftOver(len: nat, w: nat, left: nat)
    requires w > 0 && left == len / w
    ensures left > 0 <==> len >= w
  {
    DivModBasics(len, w);
    if len < w { ModSmall(len, w); }
  }

  lemma {:induction false} LengthBytes(y: seq<Byte>, y0: seq<Byte>, q: nat, len: nat)
    requires |y| == |y0| == 16 && q <= 8
    requires forall k :: 0 <= k < 16 - q ==> y[k] == y0[k]
    requires forall k :: 0 <= k < q ==> y[15 - k] == Digit(len, k)
    ensures y == y0[..16 - q] + BeBytes(len, q)
  {
    hide Reversed, Pow2;
    var r := y0[..16 - q] + BeBytes(len, q);
    forall j | 16 - q <= j < 16
      ensures y[j] == r[j]
    {
      ReversedAt(Digits256(len, q), j - (16 - q));
      assert y[15 - (15 - j)] == Digit(len, 15 - j);
    }
  }

  // The counter block after starts
  lemma {:induction false} FirstCounter(q: nat, nonce: seq<Byte>)
    requires IsNonce(q, nonce)
    ensures [q - 1] + nonce + ZeroBytes(q - 1) + [1] == Ctr(q, nonce, 1)
  {
    hide Be, Pow2;
    var low := ZeroBytes(q - 1) + [1];
    BeAppend(ZeroBytes(q - 1), [1]);
    BeSingle(1);
    LeadZero(q - 1);
    SmallCounter(q);
    BeOfBytes(1, q);
    BeInjective(low, BeBytes(1, q));
    assert [q - 1] + nonce + ZeroBytes(q - 1) + [1] == [q - 1] + nonce + low;
  }

  lemma LeadZero(k: nat)
    ensures Be(ZeroBytes(k)) == 0
  {
    hide Reversed, Le;
    forall i | 0 <= i < k
      ensures Reversed(ZeroBytes(k))[i] == 0
    {
      ReversedAt(ZeroBytes(k), i);
    }
    LeZeros(Reversed(ZeroBytes(k)));
  }

  lemma SmallCounter(q: nat)
    requires q >= 1
    ensures 1 < Pow2(8 * q)
  {
    assert Pow2(1) == 2;
    Pow2Mono(1, 8 * q);
  }

  // ----- What the calls compute, in any state

  // The nonce behind the flags of the first block
  function WithNonce(y: seq<Byte>, iv: seq<Byte>): (r: seq<Byte>)
    requires |y| == 16 && |iv| <= 15
    ensures |r| == 16
  {
    y[..1] + iv + y[1 + |iv|..]
  }

  // Flags and length in the first block
  function Formatted(y: seq<Byte>, q: nat, alen: nat, plen: nat, t: nat): (r: seq<Byte>)
    requires |y| == 16 && 2 <= q <= 8 && 2 <= t <= 16
    ensures |r| == 16
  {
    var flags := OrByte(OrByte(OrByte(y[0], if alen > 0 then 64 else 0), (t - 2) / 2 * 8), q - 1);
    [flags] + y[1..16 - q] + BeBytes(plen, q)
  }

  // Status, y, the length of the message and whether the context is spoilt
  function FirstBlockStep(c: Cipher, ready: bool, m: Mode, y: seq<Byte>, q: nat, alen: nat, plen: nat, t: nat)
      : (r: (Status, seq<Byte>, nat, bool))
    requires Encrypts(c) && c.size == 16 && |y| == 16 && (ready ==> 2 <= q <= 8 && AcceptedLengths(alen, t))
    ensures |r.1| == 16
  {
    if !ready then (Success, y, plen, false)
    else if t == 0 then if Star(m) then (Success, y, 0, false) else (BadInputData, y, plen, false)
    else
      var f := Formatted(y, q, alen, plen, t);
      if plen < Pow2(8 * q) then (Success, c.enc(f), plen, false) else (BadInputData, f, plen, true)
  }

  // The portion of rest that stays in the block the offset is in
  function Share(offset: nat, rest: nat): (k: nat)
    requires offset < 16
    ensures k <= rest && offset + k <= 16 && (rest > 0 ==> k > 0)
  {
    if 16 - offset > rest then rest else 16 - offset
  }

  // y and the number of bytes after associated data
  function AdRun(c: Cipher, alen: nat, y: seq<Byte>, done: nat, add: seq<Byte>): (r: (seq<Byte>, nat))
    requires Encrypts(c) && c.size == 16 && |y| == 16
    ensures |r.0| == 16 && r.1 == done + |add|
    decreases |add|
  {
    if add == [] then (y, done)
    else
      var o := (done + 2) % 16;
      var k := Share(o, |add|);
      AdRun(c, alen, Mixed(c, y, o, add[..k], done + k == alen), done + k, add[k..])
  }

  // The length of the associated data in front of it
  function WithDataLength(y: seq<Byte>, alen: nat): (r: seq<Byte>)
    requires |y| == 16
    ensures |r| == 16
  {
    XorInto(y, 0, [alen / 256 % 256, alen % 256])
  }

  datatype Stream = Stream(y: seq<Byte>, ctr: seq<Byte>, done: nat)

  predicate IsStream(s: Stream)
  {
    |s.y| == 16 && |s.ctr| == 16
  }

  // A portion of the message within one block
  function CryptStep(c: Cipher, m: Mode, q: nat, plen: nat, s: Stream, u: seq<Byte>): (r: (Stream, seq<Byte>))
    requires Encrypts(c) && c.size == 16 && IsStream(s) && q <= 16 && s.done % 16 + |u| <= 16
    ensures IsStream(r.0) && r.0.done == s.done + |u| && |r.1| == |u|
  {
    var o, done := s.done % 16, s.done + |u|;
    var out := Xor(u, c.enc(s.ctr)[o..o + |u|]);
    var y := Mixed(c, s.y, o, if Encrypting(m) then u else out, done == plen);
    (Stream(y, if o + |u| == 16 || done == plen then NextCtr(s.ctr, q) else s.ctr, done), out)
  }

  function CryptRun(c: Cipher, m: Mode, q: nat, plen: nat, s: Stream, input: seq<Byte>): (r: (Stream, seq<Byte>))
    requires Encrypts(c) && c.size == 16 && IsStream(s) && q <= 16
    ensures IsStream(r.0) && |r.1| == |input|
    decreases |input|
  {
    if input == [] then (s, [])
    else
      var k := Share(s.done % 16, |input|);
      var (t, out) := CryptStep(c, m, q, plen, s, input[..k]);
      var (z, rest) := CryptRun(c, m, q, plen, t, input[k..]);
      (z, out + rest)
  }

  // The message p is all there is
  predicate Complete(plen: nat, p: seq<Byte>)
  {
    |p| > 0 && |p| == plen
  }

  // A partial last block counts
  function CounterAfter(plen: nat, p: seq<Byte>): nat
  {
    if Complete(plen, p) then 1 + (|p| + 15) / 16 else 1 + |p| / 16
  }

  // The state after the message p, y1 being the MAC before it
  ghost predicate After(c: Cipher, q: nat, nonce: seq<Byte>, plen: nat, y1: seq<Byte>, p: seq<Byte>, s: Stream)
    requires Encrypts(c) && c.size == 16 && IsNonce(q, nonce)
  {
    s.done == |p| && s.ctr == Ctr(q, nonce, CounterAfter(plen, p)) && MacOfBytes(c, y1, p, Complete(plen, p), s.y)
  }

  // Associated data a that goes on with add
  lemma {:induction false} AdRunMac(c: Cipher, alen: nat, y0: seq<Byte>, a: seq<Byte>, y: seq<Byte>, add: seq<Byte>)
    requires Encrypts(c) && c.size == 16 && |y| == 16 && |a| + |add| <= alen
    requires MacOfBytes(c, y0, BeBytes(alen, 2) + a, add == [] && |a| == alen, y)
    ensures MacOfBytes(c, y0, BeBytes(alen, 2) + (a + add), |a| + |add| == alen, AdRun(c, alen, y, |a|, add).0)
    decreases |add|
  {
    hide MacOfBytes, BeBytes, Encrypts, Mixed;
    if add == [] {
      assert a + add == a;
    } else {
      var o := (|a| + 2) % 16;
      var k := Share(o, |add|);
      var s, u := BeBytes(alen, 2) + a, add[..k];
      MacStep(c, y0, s, y, o, u, |a| + k == alen);
      assert s + u == BeBytes(alen, 2) + (a + u);
      AdRunMac(c, alen, y0, a + u, Mixed(c, y, o, u, |a| + k == alen), add[k..]);
      assert a + u + add[k..] == a + add;
    }
  }

  lemma AdStep(c: Cipher, alen: nat, y: seq<Byte>, done: nat, add: seq<Byte>, i: nat, k: nat)
    requires Encrypts(c) && c.size == 16 && |y| == 16 && i < |add| && k == Share((done + 2) % 16, |add| - i)
    ensures AdRun(c, alen, y, done, add[i..]) ==
            AdRun(c, alen, Mixed(c, y, (done + 2) % 16, add[i..i + k], done + k == alen), done + k, add[i + k..])
  {
    hide Mixed, Encrypts;
    assert add[i..][..k] == add[i..i + k] && add[i..][k..] == add[i + k..];
  }

  lemma AdDone(c: Cipher, alen: nat, y: seq<Byte>, done: nat, rest: seq<Byte>)
    requires Encrypts(c) && c.size == 16 && |y| == 16 && rest == []
    ensures AdRun(c, alen, y, done, rest) == (y, done)
  {
  }

  // The message p that goes on with the plaintext of u
  lemma {:induction false} StepAfter(c: Cipher, m: Mode, q: nat, nonce: seq<Byte>, plen: nat, y1: seq<Byte>,
                                     p: seq<Byte>, s: Stream, u: seq<Byte>)
    requires Encrypts(c) && c.size == 16 && IsNonce(q, nonce) && IsStream(s) && After(c, q, nonce, plen, y1, p, s)
    requires !Complete(plen, p) && 0 < |u| <= 16 - |p| % 16
    ensures var (t, out) := CryptStep(c, m, q, plen, s, u);
            var plain := if Encrypting(m) then u else out;
            After(c, q, nonce, plen, y1, p + plain, t)
            && Keyed(c, q, nonce, p + plain) == Keyed(c, q, nonce, p) + if Encrypting(m) then out else u
  {
    hide Xor, MacOfBytes, Encrypts, Ctr, Keyed, Mixed, NextCtr;
    var o, i := |p| % 16, 1 + |p| / 16;
    KeyIs(c, q, nonce, i, s.ctr);
    var key := c.enc(s.ctr)[o..o + |u|];
    var (t, out) := CryptStep(c, m, q, plen, s, u);
    var plain := if Encrypting(m) then u else out;
    XorTwice(u, key);
    MacStep(c, y1, p, s.y, o, plain, |p| + |u| == plen);
    KeyedMore(c, q, nonce, p, plain);
    CounterStep(|p|, |u|);
    NextCtrIs(q, nonce, i);
  }

  lemma {:induction false} RunAfter(c: Cipher, m: Mode, q: nat, nonce: seq<Byte>, plen: nat, y1: seq<Byte>,
                                    p: seq<Byte>, s: Stream,
                                    input: seq<Byte>)
    requires Encrypts(c) && c.size == 16 && IsNonce(q, nonce) && IsStream(s) && After(c, q, nonce, plen, y1, p, s)
    requires plen == 0 || |p| + |input| <= plen
    ensures var (t, out) := CryptRun(c, m, q, plen, s, input);
            var plain := if Encrypting(m) then input else out;
            After(c, q, nonce, plen, y1, p + plain, t)
            && Keyed(c, q, nonce, p + plain) == Keyed(c, q, nonce, p) + if Encrypting(m) then out else input
    decreases |input|
  {
    hide Encrypts, Keyed, CryptStep, After;
    if input == [] {
      assert p + [] == p && Keyed(c, q, nonce, p) + [] == Keyed(c, q, nonce, p);
    } else {
      AfterCount(c, q, nonce, plen, y1, p, s);
      var k := Share(s.done % 16, |input|);
      var u, v := input[..k], input[k..];
      var (t, out) := CryptStep(c, m, q, plen, s, u);
      StepAfter(c, m, q, nonce, plen, y1, p, s, u);
      var plain := if Encrypting(m) then u else out;
      RunAfter(c, m, q, nonce, plen, y1, p + plain, t, v);
      var (z, rest) := CryptRun(c, m, q, plen, t, v);
      JoinPortions(p, u, v, input, out, rest);
      JoinPortions(Keyed(c, q, nonce, p), u, v, input, out, rest);
    }
  }

  lemma AfterCount(c: Cipher, q: nat, nonce: seq<Byte>, plen: nat, y1: seq<Byte>, p: seq<Byte>, s: Stream)
    requires Encrypts(c) && c.size == 16 && IsNonce(q, nonce) && After(c, q, nonce, plen, y1, p, s)
    ensures s.done == |p|
  {
  }

  class CcmContext {
    const c: Cipher
    var mode: Mode
    var started: bool
    var lengthsSet: bool
    var authStarted: bool
    var authFinished: bool
    var error: bool
    var y: seq<Byte>
    var ctr: seq<Byte>
    var q: nat
    var plaintextLen: nat
    var addLen: nat
    var tagLen: nat
    var processed: nat

    constructor (c: Cipher)
      requires Encrypts(c) && c.size == 16
      ensures this.c == c && Valid() && Cleared()
    {
      this.c := c;
      mode, started, lengthsSet, authStarted, authFinished, error := Encrypt, false, false, false, false, false;
      y, ctr := ZeroBytes(16), ZeroBytes(16);
      q, plaintextLen, addLen, tagLen, processed := 0, 0, 0, 0, 0;
    }

    ghost predicate Valid()
      reads this
    {
      && Encrypts(c) && c.size == 16 && |y| == 16 && |ctr| == 16 && q <= 8
      && (started ==> 2 <= q) && (lengthsSet ==> AcceptedLengths(addLen, tagLen))
    }

    ghost predicate Cleared()
      reads this
    {
      !started && !lengthsSet && !authStarted && !authFinished && !error && y == ZeroBytes(16) && ctr == ZeroBytes(16)
    }

    method ClearState()
      requires Valid()
      modifies this`started, this`lengthsSet, this`authStarted, this`authFinished, this`error, this`y, this`ctr
      ensures Valid() && Cleared()
    {
      started, lengthsSet, authStarted, authFinished, error := false, false, false, false, false;
      y, ctr := ZeroBytes(16), ZeroBytes(16);
    }

    // Nonce and mode are known, the lengths are not
    ghost predicate NonceOnly(nonce: seq<Byte>)
      reads this
    {
      && Valid() && started && !lengthsSet && !authStarted && !authFinished && !error
      && IsNonce(q, nonce) && ctr == Ctr(q, nonce, 1) && y == [0] + nonce + ZeroBytes(q)
    }

    // The lengths are known, nonce and mode are not
    ghost predicate LengthsOnly()
      reads this
    {
      && Valid() && !started && lengthsSet && !authStarted && !authFinished && !error
      && AcceptedLengths(addLen, tagLen) && processed == 0 && y == ZeroBytes(16)
    }

    // Everything is known, y0 is what the MAC starts with
    ghost predicate Open(nonce: seq<Byte>, y0: seq<Byte>)
      reads this
    {
      && Valid() && started && lengthsSet && !error && |y0| == 16 && IsNonce(q, nonce)
      && AcceptedLengths(addLen, tagLen)
      && (tagLen > 0 ==> plaintextLen < Pow2(8 * q) && y0 == c.enc(FirstBlock(q, nonce, addLen, plaintextLen, tagLen)))
      && (tagLen == 0 ==> Star(mode) && plaintextLen == 0)
    }

    // The associated data a has arrived
    ghost predicate AdSofar(nonce: seq<Byte>, y0: seq<Byte>, a: seq<Byte>)
      reads this
    {
      && Open(nonce, y0) && ctr == Ctr(q, nonce, 1) && |a| <= addLen
      && authStarted == (|a| > 0) && authFinished == (|a| > 0 && |a| == addLen)
      && processed == (if authFinished then 0 else |a|)
      && (if |a| == 0 then y == y0 else MacOfBytes(c, y0, BeBytes(addLen, 2) + a, |a| == addLen, y))
    }

    ghost function Now(): (s: Stream)
      reads this
    {
      Stream(y, ctr, processed)
    }

    // The message p has arrived after all associated data, y1 being the MAC before it
    ghost predicate Sofar(nonce: seq<Byte>, y0: seq<Byte>, y1: seq<Byte>, p: seq<Byte>)
      reads this
    {
      && Open(nonce, y0) && (addLen > 0 ==> authFinished) && (tagLen > 0 ==> |p| <= plaintextLen)
      && After(c, q, nonce, plaintextLen, y1, p, Now())
    }

    // The first block, as soon as nonce and lengths are known
    method FirstBlockIfReady() returns (ret: Status)
      requires Valid()
      modifies this`y, this`plaintextLen, this`error
      ensures Valid()
      ensures var r := FirstBlockStep(c, started && lengthsSet, mode, old(y), q, addLen, old(plaintextLen), tagLen);
              (ret, y, plaintextLen, error) == (r.0, r.1, r.2, old(error) || r.3)
    {
      hide Pow2, BeBytes, Encrypts, OrByte;
      if !started || !lengthsSet {
        return Success;
      }
      if tagLen == 0 {
        if Star(mode) {
          plaintextLen := 0;
          return Success;
        } else {
          return BadInputData;
        }
      }
      ghost var y1 := y;
      y := y[0 := OrByte(y[0], if addLen > 0 then 64 else 0)];
      y := y[0 := OrByte(y[0], (tagLen - 2) / 2 * 8)];
      y := y[0 := OrByte(y[0], q - 1)];
      assert y[..16 - q] == [y[0]] + y1[1..16 - q];
      var left;
      y, left := StoreLength(y, q, plaintextLen);
      assert y == Formatted(y1, q, addLen, plaintextLen, tagLen);
      if left > 0 {
        error := true;
        return BadInputData;
      }
      EncLength(c, y);
      y := c.enc(y);
      return Success;
    }

    // Nonce and mode. The first two clauses hold in any state; the last two say what follows
    // for a context that is cleared or knows its lengths.
    method Starts(mode: Mode, iv: seq<Byte>) returns (ret: Status)
      requires Valid()
      modifies this`mode, this`q, this`ctr, this`y, this`started, this`plaintextLen, this`error
      ensures Valid() && (!(7 <= |iv| <= 13) ==> ret == BadInputData && unchanged(this))
      ensures 7 <= |iv| <= 13 ==>
                && this.mode == mode && q == 15 - |iv| && started && ctr == Ctr(q, iv, 1)
                && var r := FirstBlockStep(c, lengthsSet, mode, WithNonce(old(y), iv), q, addLen, old(plaintextLen),
                                           tagLen);
                   (ret, y, plaintextLen, error) == (r.0, r.1, r.2, old(error) || r.3)
      ensures 7 <= |iv| <= 13 && old(Cleared()) ==> ret == Success && NonceOnly(iv)
      ensures 7 <= |iv| <= 13 && old(LengthsOnly()) ==>
                ret == (if AcceptedStart(mode, q, old(plaintextLen), tagLen) then Success else BadInputData)
                && (ret == Success ==> AdSofar(iv, y, []))
    {
      hide Pow2, Formatted, BeBytes, MacOfBytes, Encrypts;
      if |iv| < 7 || |iv| > 13 {
        return BadInputData;
      }
      this.mode := mode;
      q := 15 - |iv|;
      FirstCounter(q, iv);
      ctr := ZeroBytes(16);
      ctr := [q - 1] + iv + ZeroBytes(q);
      ctr := ctr[15 := 1];
      assert ctr == [q - 1] + iv + ZeroBytes(q - 1) + [1];
      y := WithNonce(y, iv);
      started := true;
      ghost var y1 := y;
      ret := FirstBlockIfReady();
      if old(LengthsOnly()) && tagLen > 0 {
        ZeroNonce(iv);
        FormattedIs(iv, y1, q, addLen, plaintextLen, tagLen);
      }
    }

    method SetLengths(alen: nat, plen: nat, t: nat) returns (ret: Status)
      requires Valid()
      modifies this`plaintextLen, this`addLen, this`tagLen, this`processed, this`lengthsSet, this`y, this`error
      ensures Valid() && (!AcceptedLengths(alen, t) ==> ret == BadInputData && unchanged(this))
      ensures AcceptedLengths(alen, t) ==>
                && addLen == alen && tagLen == t && processed == 0 && lengthsSet
                && var r := FirstBlockStep(c, started, mode, old(y), q, alen, plen, t);
                   (ret, y, plaintextLen, error) == (r.0, r.1, r.2, old(error) || r.3)
      ensures AcceptedLengths(alen, t) && old(Cleared()) ==> ret == Success && LengthsOnly() && plaintextLen == plen
      ensures forall nonce :: AcceptedLengths(alen, t) && old(NonceOnly(nonce)) ==>
                ret == (if AcceptedStart(mode, q, plen, t) then Success else BadInputData)
                && (ret == Success ==> AdSofar(nonce, y, []) && (t > 0 ==> plaintextLen == plen))
    {
      hide Pow2, Formatted, BeBytes, MacOfBytes, Encrypts, Ctr;
      if t == 2 || t > 16 || t % 2 != 0 {
        return BadInputData;
      }
      if alen >= 0xFF00 {
        return BadInputData;
      }
      plaintextLen, addLen, tagLen, processed := plen, alen, t, 0;
      lengthsSet := true;
      ghost var y1 := y;
      ret := FirstBlockIfReady();
      forall nonce | old(NonceOnly(nonce)) && t > 0
        ensures Formatted(y1, q, alen, plen, t) == FirstBlock(q, nonce, alen, plen, t)
      {
        FormattedIs(nonce, y1, q, alen, plen, t);
      }
    }

    // Whether associated data is taken
    predicate TakesAd(n: nat)
      reads this
    {
      !error && (n > 0 ==> !authFinished && (if authStarted then processed else 0) + n <= addLen)
    }

    // Associated data, in any state; the last clause is for a context that has everything but
    // the rest of it
    method UpdateAd(add: seq<Byte>, ghost nonce: seq<Byte>, ghost y0: seq<Byte>, ghost a: seq<Byte>)
        returns (ret: Status)
      requires Valid()
      modifies this`y, this`processed, this`authStarted, this`authFinished
      ensures Valid() && ret == if old(TakesAd(|add|)) then Success else BadInputData
      ensures ret != Success || add == [] ==> unchanged(this)
      ensures ret == Success && add != [] ==>
                && var y1 := if old(authStarted) then old(y) else WithDataLength(old(y), addLen);
                   var r := AdRun(c, addLen, y1, old(processed), add);
                   && authStarted && y == r.0 && authFinished == (r.1 == addLen)
                   && processed == if authFinished then 0 else r.1
      ensures old(AdSofar(nonce, y0, a)) ==>
                && ret == (if |a| + |add| <= addLen then Success else BadInputData)
                && AdSofar(nonce, y0, if ret == Success then a + add else a)
    {
      hide XorInto, MacOfBytes, BeBytes, Encrypts, Pow2, Ctr, Mixed;
      if error {
        return BadInputData;
      }
      if |add| == 0 {
        assert a + add == a;
        return Success;
      }
      if authFinished {
        return BadInputData;
      }
      if !authStarted {
        if |add| > addLen {
          return BadInputData;
        }
        StartAd();
        authStarted := true;
      } else if processed + |add| > addLen {
        return BadInputData;
      }
      ghost var run := AdRun(c, addLen, y, processed, add);
      if old(AdSofar(nonce, y0, a)) {
        assert a == [] ==> BeBytes(addLen, 2) + a == BeBytes(addLen, 2);
        AdBegins(c, addLen, y0, a, old(y), y);
        AdRunMac(c, addLen, y0, a, y, add);
      }
      AbsorbAd(add);
      if processed == addLen {
        authFinished := true;
        processed := 0;
      }
      return Success;
    }

    // The two length bytes in front of the associated data
    method StartAd()
      requires Valid()
      modifies this`y
      ensures Valid() && y == WithDataLength(old(y), addLen)
    {
      hide Xor, XorByte, XorInto, Encrypts;
      var hi: Byte := addLen / 256 % 256;
      var lo: Byte := addLen % 256;
      XorTwoBytes(y, hi, lo);
      y := y[0 := XorByte(y[0], hi)];
      y := y[1 := XorByte(y[1], lo)];
    }

    method AbsorbAd(add: seq<Byte>)
      requires Valid()
      modifies this`y, this`processed
      ensures Valid() && (y, processed) == AdRun(c, addLen, old(y), old(processed), add)
    {
      hide XorInto, Encrypts, Mixed, AdRun;
      ghost var run := AdRun(c, addLen, y, processed, add);
      var i := 0;
      assert add[0..] == add;
      while i < |add|
        invariant 0 <= i <= |add| && Valid() && run == AdRun(c, addLen, y, processed, add[i..])
        modifies this`y, this`processed
      {
        var offset := (processed + 2) % 16;
        var use := 16 - offset;
        if use > |add| - i {
          use := |add| - i;
        }
        AdStep(c, addLen, y, processed, add, i, use);
        processed := processed + use;
        MixPortion(offset, add[i..i + use], processed == addLen);
        i := i + use;
      }
      AdDone(c, addLen, y, processed, add[i..]);
    }

    // y ^= u at the offset; encrypt at the end of a block or of the data
    method MixPortion(o: nat, u: seq<Byte>, last: bool)
      requires Valid() && o + |u| <= 16
      modifies this`y
      ensures Valid() && y == Mixed(c, old(y), o, u, last)
    {
      hide XorInto, Encrypts;
      y := XorInto(y, o, u);
      EncLength(c, y);
      if |u| + o == 16 || last {
        y := c.enc(y);
      }
    }

    // MAC and key stream, the MAC taking the plaintext
    method CryptPortion(u: seq<Byte>) returns (out: seq<Byte>)
      requires Valid() && processed % 16 + |u| <= 16
      modifies this`y, this`ctr, this`processed
      ensures Valid() && (Now(), out) == CryptStep(c, mode, q, plaintextLen, old(Now()), u)
    {
      hide Xor, Encrypts, Mixed, NextCtr;
      EncLength(c, ctr);
      var offset := processed % 16;
      processed := processed + |u|;
      var last := processed == plaintextLen;
      if Encrypting(mode) {
        MixPortion(offset, u, last);
        out := Xor(u, c.enc(ctr)[offset..offset + |u|]);
      } else {
        out := Xor(u, c.enc(ctr)[offset..offset + |u|]);
        MixPortion(offset, out, last);
      }
      if |u| + offset == 16 || last {
        ctr := IncrementCtr(ctr, q);
      }
    }

    // The part of the input that goes into the MAC, and the part under the key stream
    ghost function Plain(input: seq<Byte>, out: seq<Byte>): seq<Byte>
      reads this
    {
      if Encrypting(mode) then input else out
    }

    ghost function Hidden(input: seq<Byte>, out: seq<Byte>): seq<Byte>
      reads this
    {
      if Encrypting(mode) then out else input
    }

    // Whether a piece of the message is taken
    predicate Takes(n: nat, outputSize: nat)
      reads this
    {
      !error && (tagLen != 0 ==> processed + n <= plaintextLen) && n <= outputSize
    }

    // A piece of the message, in any state; the last clause is for a context that has all
    // associated data and the message p
    method Update(input: seq<Byte>, outputSize: nat, ghost nonce: seq<Byte>, ghost y0: seq<Byte>,
                  ghost y1: seq<Byte>, ghost p: seq<Byte>)
        returns (ret: Status, out: seq<Byte>)
      requires Valid()
      modifies this`y, this`ctr, this`processed
      ensures Valid() && ret == if old(Takes(|input|, outputSize)) then Success else BadInputData
      ensures ret == Success ==> (Now(), out) == CryptRun(c, mode, q, plaintextLen, old(Now()), input)
      ensures ret != Success ==> out == [] && unchanged(this)
      ensures old(Sofar(nonce, y0, y1, p)) ==>
                ret == if (tagLen != 0 && |p| + |input| > plaintextLen) || outputSize < |input| then BadInputData
                       else Success
      ensures old(Sofar(nonce, y0, y1, p)) && ret == Success ==>
                && Sofar(nonce, y0, y1, p + Plain(input, out))
                && Keyed(c, q, nonce, p + Plain(input, out)) == Keyed(c, q, nonce, p) + Hidden(input, out)
    {
      hide After, Encrypts, Keyed, CryptRun, FirstBlock, Pow2;
      out := [];
      if old(Sofar(nonce, y0, y1, p)) {
        AfterCount(c, q, nonce, plaintextLen, y1, p, Now());
      }
      if error {
        return BadInputData, out;
      }
      if tagLen != 0 && processed + |input| > plaintextLen {
        return BadInputData, out;
      }
      if outputSize < |input| {
        return BadInputData, out;
      }
      if old(Sofar(nonce, y0, y1, p)) {
        RunAfter(c, mode, q, nonce, plaintextLen, y1, p, Now(), input);
      }
      out := CryptAll(input);
      return Success, out;
    }

    method CryptAll(input: seq<Byte>) returns (out: seq<Byte>)
      requires Valid()
      modifies this`y, this`ctr, this`processed
      ensures Valid() && (Now(), out) == CryptRun(c, mode, q, plaintextLen, old(Now()), input)
    {
      hide Encrypts, CryptStep;
      out := [];
      ghost var run := CryptRun(c, mode, q, plaintextLen, Now(), input);
      var i: nat := 0;
      assert input[0..] == input && [] + run.1 == run.1;
      while i < |input|
        invariant i <= |input| && Valid()
        invariant var (z, rest) := CryptRun(c, mode, q, plaintextLen, Now(), input[i..]); run == (z, out + rest)
        modifies this`y, this`ctr, this`processed
      {
        var use := 16 - processed % 16;
        if use > |input| - i {
          use := |input| - i;
        }
        assert input[i..][..use] == input[i..i + use] && input[i..][use..] == input[i + use..];
        var o := CryptPortion(input[i..i + use]);
        assert forall rest: seq<Byte> :: out + (o + rest) == out + o + rest;
        out := out + o;
        i := i + use;
      }
      assert out + [] == out;
    }

    // Whether there is a tag to give
    predicate Finishes()
      reads this
    {
      !error && (addLen > 0 ==> authFinished) && (plaintextLen > 0 ==> processed == plaintextLen)
    }

    // The tag: the counter goes back to 0 and hides the MAC. A refusal changes nothing.
    method Finish(t: nat, ghost nonce: seq<Byte>, ghost i: nat) returns (ret: Status, tag: seq<Byte>)
      requires Valid() && t <= 16
      modifies this`started, this`lengthsSet, this`authStarted, this`authFinished, this`error, this`y, this`ctr
      ensures Valid() && ret == if old(error) then CorruptionDetected
                                else if old(Finishes()) then Success else BadInputData
      ensures ret == Success ==> Cleared() && tag == Xor(old(y), c.enc(old(ctr)[..16 - q] + ZeroBytes(q)))[..t]
      ensures ret == Success && IsNonce(q, nonce) && old(ctr) == Ctr(q, nonce, i) ==>
                tag == Xor(old(y), KeyBlock(c, q, nonce, 0))[..t]
      ensures ret != Success ==> tag == [] && unchanged(this)
    {
      hide Xor, Encrypts, Pow2, KeyBlock, Ctr;
      tag := [];
      if error {
        return CorruptionDetected, tag;
      }
      if addLen > 0 && !authFinished {
        return BadInputData, tag;
      }
      if plaintextLen > 0 && processed != plaintextLen {
        return BadInputData, tag;
      }
      if IsNonce(q, nonce) && ctr == Ctr(q, nonce, i) {
        ZeroCounter(ctr, q, nonce, i);
        KeyIs(c, q, nonce, 0, ctr[..16 - q] + ZeroBytes(q));
      }
      ctr := ctr[..16 - q] + ZeroBytes(q);
      EncLength(c, ctr);
      y := Xor(y, c.enc(ctr));
      tag := y[..t];
      ClearState();
      return Success, tag;
    }
  }

  lemma EncLength(c: Cipher, b: seq<Byte>)
    requires Encrypts(c) && |b| == c.size
    ensures |c.enc(b)| == c.size
  {
  }

  lemma ZeroNonce(iv: seq<Byte>)
    requires |iv| <= 15
    ensures WithNonce(ZeroBytes(16), iv) == [0] + iv + ZeroBytes(15 - |iv|)
  {
  }

  // Formatting a block that holds only the nonce gives the first block of the standard
  lemma {:induction false} FormattedIs(nonce: seq<Byte>, y: seq<Byte>, q: nat, alen: nat, plen: nat, t: nat)
    requires IsNonce(q, nonce) && IsTagLength(t) && y == [0] + nonce + ZeroBytes(q)
    ensures Formatted(y, q, alen, plen, t) == FirstBlock(q, nonce, alen, plen, t)
  {
    hide Bits.Or, BeBytes, Flags;
    FlagBits(alen > 0, t, q);
    assert y[1..16 - q] == nonce;
  }

  // The first call puts the length in front, the others find it there
  lemma {:induction false} AdBegins(c: Cipher, alen: nat, y0: seq<Byte>, a: seq<Byte>, before: seq<Byte>, y: seq<Byte>)
    requires Encrypts(c) && c.size == 16 && |before| == 16 && |y0| == 16 && alen < 0xFF00
    requires if |a| == 0 then before == y0 && y == WithDataLength(y0, alen)
             else y == before && MacOfBytes(c, y0, BeBytes(alen, 2) + a, false, y)
    ensures MacOfBytes(c, y0, BeBytes(alen, 2) + a, false, y)
  {
    hide MacOfBytes, BeBytes, WithDataLength, Encrypts;
    if |a| == 0 {
      LengthAbsorbed(c, alen, y0);
      assert BeBytes(alen, 2) + a == BeBytes(alen, 2);
    }
  }

  lemma LengthAbsorbed(c: Cipher, alen: nat, y0: seq<Byte>)
    requires Encrypts(c) && c.size == 16 && |y0| == 16 && alen < 0xFF00
    ensures MacOfBytes(c, y0, BeBytes(alen, 2), false, WithDataLength(y0, alen))
  {
    hide XorInto, Encrypts, BeBytes;
    TwoBytes(alen);
  }

  lemma JoinPortions(p: seq<Byte>, u: seq<Byte>, v: seq<Byte>, input: seq<Byte>, out: seq<Byte>, rest: seq<Byte>)
    requires input == u + v
    ensures p + u + v == p + input && p + out + rest == p + (out + rest)
  {
  }

  lemma {:induction false} ZeroCounter(ctr: seq<Byte>, q: nat, nonce: seq<Byte>, i: nat)
    requires IsNonce(q, nonce) && ctr == Ctr(q, nonce, i)
    ensures ctr[..16 - q] + ZeroBytes(q) == Ctr(q, nonce, 0)
  {
    hide Be, Pow2;
    assert ctr[..16 - q] == [q - 1] + nonce;
    LeadZero(q);
    SmallCounter(q);
    BeOfBytes(0, q);
    BeInjective(ZeroBytes(q), BeBytes(0, q));
  }

  lemma KeyIs(c: Cipher, q: nat, nonce: seq<Byte>, i: nat, ctr: seq<Byte>)
    requires Encrypts(c) && c.size == 16 && IsNonce(q, nonce) && ctr == Ctr(q, nonce, i)
    ensures c.enc(ctr) == KeyBlock(c, q, nonce, i) && |c.enc(ctr)| == 16
  {
  }

  lemma CounterStep(x: nat, k: nat)
    requires 0 < k <= 16 - x % 16
    ensures x % 16 + k == 16 ==> (x + k) / 16 == x / 16 + 1 && (x + k + 15) / 16 == x / 16 + 1
    ensures x % 16 + k < 16 ==> (x + k) / 16 == x / 16 && (x + k + 15) / 16 == x / 16 + 1
  {
  }

  lemma XorTwoBytes(y: seq<Byte>, hi: Byte, lo: Byte)
    requires |y| == 16
    ensures y[0 := XorByte(y[0], hi)][1 := XorByte(y[1], lo)] == XorInto(y, 0, [hi, lo])
  {
    hide XorByte;
    XorAt(y[0..2], [hi, lo]);
  }

  lemma OrByteBound(a: Byte, b: Byte)
    ensures Bits.Or(a, b) < 256
  {
    assert Pow2(8) == 256;
    Bits.OrBound(a, b, 8);
  }

  function OrByte(a: Byte, b: Byte): Byte
  {
    OrByteBound(a, b);
    Bits.Or(a, b)
  }

  // ----- Whole runs

  predicate Accepted(m: Mode, ivLen: nat, alen: nat, plen: nat, t: nat)
  {
    7 <= ivLen <= 13 && AcceptedLengths(alen, t) && AcceptedStart(m, 15 - ivLen, plen, t)
  }

  // The lengths of section A.1 of NIST SP 800-38C, associated data below 0xFF00 bytes; without a tag
  // only the CCM* modes
  lemma AcceptedMeans(m: Mode, ivLen: nat, alen: nat, plen: nat, t: nat)
    ensures Accepted(m, ivLen, alen, plen, t) <==>
            && 7 <= ivLen <= 13 && alen < 0xFF00
            && ((t == 0 && (m == StarEncrypt || m == StarDecrypt)) ||
                (t in {4, 6, 8, 10, 12, 14, 16} && plen < Pow2(8 * (15 - ivLen))))
  {
    hide Pow2;
    assert t <= 16 && t % 2 == 0 ==> t in {0, 2, 4, 6, 8, 10, 12, 14, 16};
  }

  // A run with a tag stays clear of the tag's counter and repeats none: its length field bounds it
  lemma {:induction false} TaggedRunCounters(m: Mode, nonce: seq<Byte>, alen: nat, plen: nat, t: nat)
    requires Accepted(m, |nonce|, alen, plen, t) && t > 0
    ensures TagCounterFree(15 - |nonce|, nonce, plen) && CountersDistinct(15 - |nonce|, nonce, plen)
  {
    hide Pow2, TagCounterFree, CountersDistinct;
    var q := 15 - |nonce|;
    SmallCounter(q);
    TagCounterFreeUpTo(q, nonce, plen);
    CountersDistinctUpTo(q, nonce, plen);
  }

  // A run without a tag has no bound: 65537 blocks under a two-byte counter
  lemma TaglessRunCounters(nonce: seq<Byte>)
    requires |nonce| == 13
    ensures Accepted(StarEncrypt, 13, 0, 16 * 65537, 0)
    ensures ByteCtr(2, nonce, 16 * 65535) == Ctr(2, nonce, 0)
    ensures ByteCtr(2, nonce, 16 * 65536) == ByteCtr(2, nonce, 0)
  {
    hide Ctr;
    assert Pow2(16) == 65536 by { assert Pow2(8) == 256; Pow2Add(8, 8); }
    CtrEqual(2, nonce, 65536, 0);
    CtrEqual(2, nonce, 65537, 1);
  }

  // Nonce and lengths in either order
  method Begin(ctx: CcmContext, mode: Mode, iv: seq<Byte>, alen: nat, plen: nat, t: nat, lengthsFirst: bool)
      returns (ret: Status)
    requires ctx.Valid() && ctx.Cleared()
    modifies ctx
    ensures ctx.Valid() && ret == if Accepted(mode, |iv|, alen, plen, t) then Success else BadInputData
    ensures ret == Success ==> ctx.AdSofar(iv, ctx.y, []) && ctx.mode == mode && ctx.q == 15 - |iv|
    ensures ret == Success ==> ctx.addLen == alen && ctx.tagLen == t && (t > 0 ==> ctx.plaintextLen == plen)
  {
    hide CcmContext.AdSofar, Pow2;
    if lengthsFirst {
      ret := ctx.SetLengths(alen, plen, t);
      if ret == Success {
        ret := ctx.Starts(mode, iv);
        if ret == Success { AdFacts(ctx, iv, ctx.y, []); }
      }
    } else {
      ret := ctx.Starts(mode, iv);
      if ret == Success {
        ret := ctx.SetLengths(alen, plen, t);
        assert ctx.q == 15 - |iv| || ret != Success;
      }
    }
  }

  lemma AdFacts(ctx: CcmContext, nonce: seq<Byte>, y0: seq<Byte>, a: seq<Byte>)
    requires ctx.AdSofar(nonce, y0, a)
    ensures ctx.Valid() && ctx.q == 15 - |nonce|
  {
  }

  // The associated data in pieces
  method AllAd(ctx: CcmContext, pieces: seq<seq<Byte>>, ghost nonce: seq<Byte>, ghost y0: seq<Byte>)
    requires ctx.AdSofar(nonce, y0, []) && |Concat(pieces)| == ctx.addLen
    modifies ctx`y, ctx`processed, ctx`authStarted, ctx`authFinished
    ensures ctx.AdSofar(nonce, y0, Concat(pieces))
  {
    hide CcmContext.AdSofar;
    AdFacts(ctx, nonce, y0, []);
    var i := 0;
    assert pieces[..0] == [];
    while i < |pieces|
      invariant 0 <= i <= |pieces| && ctx.Valid() && ctx.AdSofar(nonce, y0, Concat(pieces[..i]))
      modifies ctx`y, ctx`processed, ctx`authStarted, ctx`authFinished
    {
      ConcatPrefix(pieces, i + 1);
      assert pieces[..i + 1][..i] == pieces[..i];
      var ret := ctx.UpdateAd(pieces[i], nonce, y0, Concat(pieces[..i]));
      i := i + 1;
    }
    assert pieces[..i] == pieces;
  }

  lemma {:induction false} ConcatPrefix<T>(pieces: seq<seq<T>>, i: nat)
    requires i <= |pieces|
    ensures |Concat(pieces[..i])| <= |Concat(pieces)|
    decreases |pieces|
  {
    if i == |pieces| {
      assert pieces[..i] == pieces;
    } else {
      var k := |pieces| - 1;
      ConcatPrefix(pieces[..k], i);
      assert pieces[..k][..i] == pieces[..i];
    }
  }

  // All associated data has arrived: the message may follow
  lemma MessageBegins(ctx: CcmContext, nonce: seq<Byte>, y0: seq<Byte>, a: seq<Byte>)
    requires ctx.AdSofar(nonce, y0, a) && |a| == ctx.addLen
    ensures ctx.Sofar(nonce, y0, ctx.y, [])
    ensures ctx.y == MacBlocks(ctx.c, y0, DataBlocks(a))
  {
    hide Xor, XorInto, Ctr, FirstBlock, BeBytes, Pow2;
    XorIntoEmpty(ctx.y, 0);
  }

  lemma SofarFacts(ctx: CcmContext, nonce: seq<Byte>, y0: seq<Byte>, y1: seq<Byte>, p: seq<Byte>)
    requires ctx.Sofar(nonce, y0, y1, p)
    ensures ctx.Valid() && IsNonce(ctx.q, nonce)
  {
  }

  // The message in pieces
  method AllMessage(ctx: CcmContext, pieces: seq<seq<Byte>>, ghost nonce: seq<Byte>, ghost y0: seq<Byte>,
                    ghost y1: seq<Byte>)
      returns (out: seq<Byte>)
    requires ctx.Sofar(nonce, y0, y1, []) && (ctx.tagLen > 0 ==> |Concat(pieces)| <= ctx.plaintextLen)
    modifies ctx`y, ctx`ctr, ctx`processed
    ensures ctx.Valid() && IsNonce(ctx.q, nonce) && |out| == |Concat(pieces)|
    ensures var m := Concat(pieces);
            && ctx.Sofar(nonce, y0, y1, ctx.Plain(m, out))
            && Keyed(ctx.c, ctx.q, nonce, ctx.Plain(m, out)) == ctx.Hidden(m, out)
  {
    hide CcmContext.Sofar, Keyed, Encrypts, CryptRun, AcceptedLengths, Encrypting;
    out := [];
    SofarFacts(ctx, nonce, y0, y1, []);
    KeyedEmpty(ctx.c, ctx.q, nonce);
    var i := 0;
    assert pieces[..0] == [];
    while i < |pieces|
      invariant 0 <= i <= |pieces| && ctx.Valid() && |out| == |Concat(pieces[..i])|
      invariant var m := Concat(pieces[..i]);
                && ctx.Sofar(nonce, y0, y1, ctx.Plain(m, out))
                && Keyed(ctx.c, ctx.q, nonce, ctx.Plain(m, out)) == ctx.Hidden(m, out)
      modifies ctx`y, ctx`ctr, ctx`processed
    {
      ghost var m := Concat(pieces[..i]);
      ConcatPrefix(pieces, i + 1);
      assert pieces[..i + 1][..i] == pieces[..i];
      var ret, o := ctx.Update(pieces[i], |pieces[i]|, nonce, y0, y1, ctx.Plain(m, out));
      out := out + o;
      i := i + 1;
    }
    assert pieces[..i] == pieces;
  }

  lemma KeyedEmpty(c: Cipher, q: nat, nonce: seq<Byte>)
    requires Encrypts(c) && c.size == 16 && IsNonce(q, nonce)
    ensures Keyed(c, q, nonce, []) == []
  {
  }

  // Start, associated data and message add up to the MAC of the standard
  lemma {:induction false} MacTotal(c: Cipher, q: nat, nonce: seq<Byte>, a: seq<Byte>, p: seq<Byte>, t: nat,
                                    y0: seq<Byte>, y1: seq<Byte>)
    requires Encrypts(c) && c.size == 16 && IsNonce(q, nonce) && IsTagLength(t)
    requires y0 == c.enc(FirstBlock(q, nonce, |a|, |p|, t)) && y1 == MacBlocks(c, y0, DataBlocks(a))
    ensures MacBlocks(c, y1, Pad16(p)) == Mac(c, q, nonce, a, p, t)
  {
    hide FirstBlock, MacBlocks, DataBlocks, Pad16;
    var f, d, m, z := FirstBlock(q, nonce, |a|, |p|, t), DataBlocks(a), Pad16(p), ZeroBytes(16);
    FirstMac(c, f);
    MacAppend(c, z, f, d);
    DataWhole(a);
    MacAppend(c, z, f + d, m);
  }

  lemma FirstMac(c: Cipher, f: seq<Byte>)
    requires Encrypts(c) && c.size == 16 && |f| == 16
    ensures MacBlocks(c, ZeroBytes(16), f) == c.enc(f)
  {
    hide Xor;
    XorZeroBlock(f);
    assert f[..16] == f && f[16..] == [];
  }

  lemma XorZeroBlock(f: seq<Byte>)
    ensures Xor(f, ZeroBytes(|f|)) == f
  {
    hide XorByte;
    XorAt(f, ZeroBytes(|f|));
    forall i | 0 <= i < |f|
      ensures XorByte(f[i], 0) == f[i]
    {
      XorByteZero(f[i]);
    }
  }

  lemma DataWhole(a: seq<Byte>)
    ensures |DataBlocks(a)| % 16 == 0
  {
    hide BeBytes;
  }

  // A whole run from a cleared context, whatever the pieces: ciphertext and tag of the standard.
  // The message under the key stream is the ciphertext, the message in the MAC is the plaintext.
  method CryptPieces(ctx: CcmContext, mode: Mode, iv: seq<Byte>, ad: seq<seq<Byte>>, msg: seq<seq<Byte>>, t: nat,
                     lengthsFirst: bool)
      returns (ret: Status, out: seq<Byte>, tag: seq<Byte>)
    requires ctx.Valid() && ctx.Cleared()
    modifies ctx
    ensures ctx.Valid() && ret == if Accepted(mode, |iv|, |Concat(ad)|, |Concat(msg)|, t) then Success else BadInputData
    ensures ret == Success ==>
              ctx.Cleared() && IsNonce(15 - |iv|, iv) && out == Keyed(ctx.c, 15 - |iv|, iv, Concat(msg))
    ensures ret == Success && t == 0 ==> tag == []
    ensures ret == Success && t > 0 ==>
              tag == Tag(ctx.c, 15 - |iv|, iv, Concat(ad), if Encrypting(mode) then Concat(msg) else out, t)
  {
    hide CcmContext.Sofar, CcmContext.AdSofar, Keyed, Encrypts, Pow2, MacBlocks, DataBlocks, FirstBlock, Xor, KeyBlock;
    out, tag := [], [];
    ghost var a, m, q := Concat(ad), Concat(msg), 15 - |iv|;
    ret := Begin(ctx, mode, iv, |Concat(ad)|, |Concat(msg)|, t, lengthsFirst);
    if ret != Success {
      return;
    }
    ghost var y0 := ctx.y;
    AllAd(ctx, ad, iv, y0);
    MessageBegins(ctx, iv, y0, a);
    ghost var y1 := ctx.y;
    out := AllMessage(ctx, msg, iv, y0, y1);
    ghost var p := ctx.Plain(m, out);
    KeyedTwice(ctx.c, q, iv, p);
    RunEnds(ctx, iv, y0, y1, p, |m|);
    ghost var y := ctx.y;
    ret, tag := ctx.Finish(t, iv, CounterAfter(ctx.plaintextLen, p));
    if t > 0 {
      MacTotal(ctx.c, q, iv, a, p, t, y0, y1);
    }
  }

  // At the end of the message the MAC is closed
  lemma RunEnds(ctx: CcmContext, nonce: seq<Byte>, y0: seq<Byte>, y1: seq<Byte>, p: seq<Byte>, plen: nat)
    requires ctx.Sofar(nonce, y0, y1, p) && |p| == plen && (ctx.tagLen > 0 ==> ctx.plaintextLen == plen)
    ensures IsNonce(ctx.q, nonce) && ctx.ctr == Ctr(ctx.q, nonce, CounterAfter(ctx.plaintextLen, p)) && ctx.Finishes()
    ensures ctx.tagLen == 0 ==> ctx.plaintextLen == 0
    ensures ctx.tagLen > 0 ==> IsTagLength(ctx.tagLen) && IsNonce(ctx.q, nonce)
                               && y0 == ctx.c.enc(FirstBlock(ctx.q, nonce, ctx.addLen, plen, ctx.tagLen))
                               && |y1| == 16 && ctx.y == MacBlocks(ctx.c, y1, Pad16(p))
  {
    hide MacOfBytes, MacBlocks, Ctr, FirstBlock, Pow2;
    ClosedMac(ctx.c, y1, p, Complete(ctx.plaintextLen, p), ctx.y);
  }

  lemma ClosedMac(c: Cipher, y1: seq<Byte>, p: seq<Byte>, closed: bool, y: seq<Byte>)
    requires Encrypts(c) && c.size == 16 && MacOfBytes(c, y1, p, closed, y)
    ensures |y1| == 16 && (closed || p == [] ==> y == MacBlocks(c, y1, Pad16(p)))
  {
    hide Xor, XorInto, MacBlocks;
    if p == [] {
      assert Pad16(p) == [];
      XorIntoEmpty(y1, 0);
      NoMac(c, y1);
    }
  }

  // The tag of the message that the ciphertext s hides
  ghost function TagOf(c: Cipher, iv: seq<Byte>, add: seq<Byte>, s: seq<Byte>, t: nat): seq<Byte>
    requires Encrypts(c) && c.size == 16 && 7 <= |iv| <= 13 && IsTagLength(t)
  {
    Tag(c, 15 - |iv|, iv, add, Keyed(c, 15 - |iv|, iv, s), t)
  }

  // auth_decrypt: the plaintext only if the tag is right
  method AuthDecrypt(ctx: CcmContext, star: bool, iv: seq<Byte>, add: seq<Byte>, input: seq<Byte>, tag: seq<Byte>)
      returns (ret: Status, out: seq<Byte>)
    requires ctx.Valid() && ctx.Cleared()
    modifies ctx
    ensures ctx.Valid() && ret != CorruptionDetected
    ensures ret == BadInputData <==> !Accepted(if star then StarDecrypt else Decrypt, |iv|, |add|, |input|, |tag|)
    ensures ret != BadInputData ==> IsNonce(15 - |iv|, iv) && ctx.Cleared()
    ensures ret != BadInputData ==> (ret == Success <==> |tag| == 0 || tag == TagOf(ctx.c, iv, add, input, |tag|))
    ensures ret != BadInputData ==>
              out == if ret == Success then Keyed(ctx.c, 15 - |iv|, iv, input) else ZeroBytes(|input|)
  {
    hide Keyed, Encrypts, Pow2, Tag, CcmContext.Cleared;
    SinglePiece(add);
    SinglePiece(input);
    var check;
    ret, out, check := CryptPieces(ctx, if star then StarDecrypt else Decrypt, iv, [add], [input], |tag|, false);
    if ret == Success && check != tag {
      out := ZeroBytes(|input|);
      ret := AuthFailed;
    }
  }

  lemma SinglePiece(s: seq<Byte>)
    ensures Concat([s]) == s
  {
    assert [s][..0] == [];
  }

  // Decrypting what encrypt_and_tag produced gives back the message
  method EncryptThenDecrypt(ctx: CcmContext, star: bool, iv: seq<Byte>, add: seq<Byte>, p: seq<Byte>, t: nat)
      returns (ret: Status, out: seq<Byte>)
    requires ctx.Valid() && ctx.Cleared()
    modifies ctx
    ensures ret == if Accepted(if star then StarEncrypt
                   else Encrypt, |iv|, |add|, |p|, t) then Success else BadInputData
    ensures ret == Success ==> out == p
  {
    hide Keyed, Encrypts, Pow2, Tag, CcmContext.Cleared;
    SinglePiece(add);
    SinglePiece(p);
    var s, tag;
    ret, s, tag := CryptPieces(ctx, if star then StarEncrypt else Encrypt, iv, [add], [p], t, false);
    out := [];
    if ret == Success {
      KeyedTwice(ctx.c, 15 - |iv|, iv, p);
      ret, out := AuthDecrypt(ctx, star, iv, add, s, tag);
    }
  }
}
