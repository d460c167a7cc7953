/**
 DER: the writer, which fills a buffer from the end towards the front (asn1write.c), and the
 parser (asn1parse.c).
 */
module Der {
  import opened Arith
  import opened Bytes
  import opened Limbs
  import opened ExpMod
  import opened Bignum
  import opened CoreIO
  import LongDivision
  import opened Block
  import Bits

  datatype WriteResult = Written(n: nat) | Negative(i: int) | BufTooSmall | TooLong
  datatype ParseStatus = Parsed | OutOfData | InvalidLength | UnexpectedTag | LengthMismatch | CallbackFailed(code: int)

  const INTEGER: Byte := 0x02
  const BIT_STRING: Byte := 0x03
  const SEQUENCE: Byte := 0x30

  // ----- Minimal big-endian numbers

  // The number of bytes of v, 0 for v = 0
  function NumBytes(v: nat): (k: nat)
    ensures v > 0 <==> k > 0
  {
    if v == 0 then 0 else 1 + NumBytes(v / 256)
  }

  lemma {:induction false} NumBytesBound(v: nat)
    ensures v < Pow2(8 * NumBytes(v)) && (v > 0 ==> Pow2(8 * NumBytes(v) - 8) <= v)
    decreases v
  {
    if v > 0 {
      NumBytesBound(v / 256);
      EightBits(8 * NumBytes(v) - 8);
      if v / 256 > 0 {
        EightBits(8 * NumBytes(v) - 16);
      }
    }
  }

  // No shorter string has the value v
  lemma NumBytesMinimal(v: nat, s: seq<Byte>)
    requires Be(s) == v
    ensures NumBytes(v) <= |s|
  {
    hide Be;
    NumBytesBound(v);
    BeBound(s);
    if NumBytes(v) > |s| {
      Pow2Mono(8 * |s|, 8 * NumBytes(v) - 8);
    }
  }

  lemma {:induction false} BeBytesMore(v: nat, k: nat)
    ensures BeBytes(v, k + 1) == [Digit(v, k)] + BeBytes(v, k)
  {
    hide Reversed, Pow2;
    assert Digits256(v, k + 1) == Digits256(v, k) + [Digit(v, k)];
    ReversedAppend(Digits256(v, k), [Digit(v, k)]);
    ReversedOne(Digit(v, k));
  }

  lemma ReversedOne(b: Byte)
    ensures Reversed([b]) == [b]
  {
    assert [b][1..] == [];
  }

  // Length octets: short form below 0x80, else the number of bytes and the bytes
  function LenOctets(len: nat): (s: seq<Byte>)
    requires len < 0x1_0000_0000
    ensures |s| == if len < 0x80 then 1 else 1 + NumBytes(len)
  {
    FourBytes(len);
    if len < 0x80 then [len] else [0x80 + NumBytes(len)] + BeBytes(len, NumBytes(len))
  }

  lemma FourBytes(v: nat)
    requires v < 0x1_0000_0000
    ensures NumBytes(v) <= 4
  {
    assert NumBytes(v) <= 1 + NumBytes(v / 256);
    var a := v / 256;
    var b := a / 256;
    var c := b / 256;
    assert c < 256 && c / 256 == 0;
    assert NumBytes(c) <= 1 && NumBytes(b) <= 1 + NumBytes(c) && NumBytes(a) <= 1 + NumBytes(b);
  }

  // ----- Writing from the end

  // The buffer before, with s written in front of position p0
  ghost predicate WrittenBefore(before: seq<Byte>, after: seq<Byte>, p0: nat, s: seq<Byte>)
  {
    |after| == |before| && |s| <= p0 <= |before| && after == before[..p0 - |s|] + s + before[p0..]
  }

  lemma WrittenNothing(b: seq<Byte>, p: nat)
    requires p <= |b|
    ensures WrittenBefore(b, b, p, [])
  {
  }

  lemma WrittenMore(b: seq<Byte>, c: seq<Byte>, d: seq<Byte>, p: nat, s: seq<Byte>, t: seq<Byte>)
    requires WrittenBefore(b, c, p, s) && WrittenBefore(c, d, p - |s|, t)
    ensures WrittenBefore(b, d, p, t + s)
  {
    var i := p - |s|;
    assert c[i..] == s + b[p..] && c[..i] == b[..i];
    assert d == b[..i - |t|] + t + (s + b[p..]);
  }

  method PutByte(buf: array<Byte>, p0: nat, b: Byte) returns (p: nat)
    requires 0 < p0 <= buf.Length
    modifies buf
    ensures p == p0 - 1 && WrittenBefore(old(buf[..]), buf[..], p0, [b])
  {
    p := p0 - 1;
    buf[p] := b;
  }

  method CountBytes(len: nat) returns (required: nat)
    ensures required == NumBytes(len)
  {
    var l := len;
    required := 0;
    while l != 0
      invariant required + NumBytes(l) == NumBytes(len)
    {
      required := required + 1;
      l := l / 256;
    }
  }

  // The bytes of v, low byte first towards the front, at least one
  method PutBytes(buf: array<Byte>, p0: nat, v: nat) returns (p: nat)
    requires Max1(NumBytes(v)) <= p0 <= buf.Length
    modifies buf
    ensures p == p0 - Max1(NumBytes(v)) && WrittenBefore(old(buf[..]), buf[..], p0, BeBytes(v, Max1(NumBytes(v))))
  {
    hide BytesPut, NumBytes, BeBytes, WrittenBefore;
    ghost var before := buf[..];
    var l := v;
    p := PutByte(buf, p0, l % 256);
    FirstPut(before, buf[..], p0, v);
    l := l / 256;
    ghost var k: nat := 1;
    while l != 0
      invariant l >= 0 && 1 <= k <= p0 && p == p0 - k && BytesPut(before, buf[..], p0, v, l, k)
      decreases l
    {
      ghost var mid := buf[..];
      MorePut(before, mid, p0, v, l, k);
      p := PutByte(buf, p, l % 256);
      NextPut(before, mid, buf[..], p0, v, l, k);
      l := l / 256;
      k := k + 1;
    }
    AllPut(before, buf[..], p0, v, k);
  }

  // The k low bytes of v are there, l is left
  ghost predicate BytesPut(before: seq<Byte>, after: seq<Byte>, p0: nat, v: nat, l: nat, k: nat)
  {
    k + NumBytes(l) == Max1(NumBytes(v)) && l == v / Pow2(8 * k) && WrittenBefore(before, after, p0, BeBytes(v, k))
  }

  lemma FirstPut(before: seq<Byte>, after: seq<Byte>, p0: nat, v: nat)
    requires p0 >= 1 && WrittenBefore(before, after, p0, [v % 256])
    ensures BytesPut(before, after, p0, v, v / 256, 1)
  {
    hide Pow2, BeBytes, WrittenBefore, Digit, NumBytes;
    FirstDigit(v);
    BeBytesMore(v, 0);
    NoBytes(v);
    NextDigits(v, 0, v);
    assert [Digit(v, 0)] + [] == [Digit(v, 0)];
  }

  lemma MorePut(before: seq<Byte>, after: seq<Byte>, p0: nat, v: nat, l: nat, k: nat)
    requires BytesPut(before, after, p0, v, l, k) && l > 0
    ensures k + 1 <= Max1(NumBytes(v))
  {
    hide Pow2, BeBytes, WrittenBefore;
  }

  lemma NextPut(before: seq<Byte>, mid: seq<Byte>, after: seq<Byte>, p0: nat, v: nat, l: nat, k: nat)
    requires BytesPut(before, mid, p0, v, l, k) && l > 0 && 1 <= k < p0 && WrittenBefore(mid, after, p0 - k, [l % 256])
    ensures BytesPut(before, after, p0, v, l / 256, k + 1)
  {
    hide Pow2, BeBytes, WrittenBefore, Digit, NumBytes;
    NextDigits(v, k, l);
    BeBytesMore(v, k);
    WrittenMore(before, mid, after, p0, BeBytes(v, k), [Digit(v, k)]);
  }

  lemma AllPut(before: seq<Byte>, after: seq<Byte>, p0: nat, v: nat, k: nat)
    requires BytesPut(before, after, p0, v, 0, k)
    ensures k == Max1(NumBytes(v)) && WrittenBefore(before, after, p0, BeBytes(v, Max1(NumBytes(v))))
  {
    hide Pow2, BeBytes, WrittenBefore;
  }

  function Max1(k: nat): nat
  {
    if k == 0 then 1 else k
  }

  lemma NoMore()
    ensures NumBytes(0) == 0
  {
  }

  lemma NoBytes(v: nat)
    ensures BeBytes(v, 0) == []
  {
  }

  lemma FirstDigit(v: nat)
    ensures v == v / Pow2(0)
  {
    assert Pow2(0) == 1;
  }

  lemma {:induction false} NextDigits(v: nat, k: nat, l: nat)
    requires l == v / Pow2(8 * k)
    ensures Digit(v, k) == l % 256 && l / 256 == v / Pow2(8 * (k + 1)) && 0 <= l / 256
    ensures l > 0 ==> NumBytes(l) == 1 + NumBytes(l / 256)
    ensures l == 0 ==> l / 256 == 0
  {
    EightBits(8 * k);
    DivDiv(v, Pow2(8 * k), 256);
  }

  method WriteLen(buf: array<Byte>, p0: nat, len: nat) returns (ret: WriteResult, p: nat)
    requires p0 <= buf.Length
    modifies buf
    ensures len >= 0x1_0000_0000 ==> ret == TooLong
    ensures len < 0x1_0000_0000 ==> ret == if |LenOctets(len)| <= p0 then Written(|LenOctets(len)|) else BufTooSmall
    ensures if ret.Written?
            then p == p0 - ret.n && len < 0x1_0000_0000 && WrittenBefore(old(buf[..]), buf[..], p0, LenOctets(len))
            else p == p0 && buf[..] == old(buf[..])
  {
    hide WrittenBefore, BeBytes, NumBytes;
    p := p0;
    if len > 0xFFFF_FFFF {
      return TooLong, p;
    }
    var required := 1;
    if len >= 0x80 {
      var k := CountBytes(len);
      required := required + k;
    }
    if required > p {
      return BufTooSmall, p;
    }
    ghost var before := buf[..];
    ShortForm(len);
    p := PutBytes(buf, p, len);
    if required > 1 {
      ghost var mid := buf[..];
      FourBytes(len);
      p := PutByte(buf, p, 0x80 + required - 1);
      WrittenMore(before, mid, buf[..], p0, BeBytes(len, NumBytes(len)), [0x80 + required - 1]);
    }
    return Written(required), p;
  }

  lemma {:induction false} ShortForm(len: nat)
    ensures len < 0x80 ==> Max1(NumBytes(len)) == 1 && BeBytes(len, 1) == [len]
    ensures len >= 0x80 ==> Max1(NumBytes(len)) == NumBytes(len)
  {
    hide BeBytes;
    if len < 0x80 {
      assert NumBytes(len / 256) == 0;
      BeBytesMore(len, 0);
      NoBytes(len);
      assert Pow2(0) == 1;
    }
  }

  method WriteTag(buf: array<Byte>, p0: nat, tag: Byte) returns (ret: WriteResult, p: nat)
    requires p0 <= buf.Length
    modifies buf
    ensures ret == if p0 >= 1 then Written(1) else BufTooSmall
    ensures if ret.Written? then p == p0 - 1 && WrittenBefore(old(buf[..]), buf[..], p0, [tag])
            else p == p0 && buf[..] == old(buf[..])
  {
    if p0 < 1 {
      return BufTooSmall, p0;
    }
    p := PutByte(buf, p0, tag);
    return Written(1), p;
  }

  // Tag and length octets
  function Header(tag: Byte, len: nat): seq<Byte>
    requires len < 0x1_0000_0000
  {
    [tag] + LenOctets(len)
  }

  // A tagged value
  function Element(tag: Byte, content: seq<Byte>): seq<Byte>
    requires |content| < 0x1_0000_0000
  {
    Header(tag, |content|) + content
  }

  // A size that is returned as an int of 32 bits
  function AsInt(n: nat): (r: WriteResult)
  {
    var i := (n + 0x8000_0000) % 0x1_0000_0000 - 0x8000_0000;
    if i >= 0 then Written(i) else Negative(i)
  }

  // The caller learns the size exactly below 2^31. From there on it looks like an error, and
  // from 2^32 on like a smaller size.
  lemma SizeReturned(n: nat)
    ensures AsInt(n) == Written(n) <==> n < 0x8000_0000
    ensures 0x8000_0000 <= n < 0x1_0000_0000 ==> AsInt(n) == Negative(n - 0x1_0000_0000)
    ensures 0x1_0000_0000 <= n < 0x1_8000_0000 ==> AsInt(n) == Written(n - 0x1_0000_0000)
  {
  }

  // There is a length form for the content, and room for the element in front of p0
  predicate Fits(content: seq<Byte>, tag: Byte, p0: nat)
  {
    |content| < 0x1_0000_0000 && |Element(tag, content)| <= p0
  }

  // The element, its position and its size as an int; or a refusal
  ghost predicate Wrote(before: seq<Byte>, after: seq<Byte>, p0: nat, p: nat, tag: Byte, content: seq<Byte>,
                        ret: WriteResult)
    requires Fits(content, tag, p0)
  {
    var e := Element(tag, content);
    ret == AsInt(|e|) && p == p0 - |e| && WrittenBefore(before, after, p0, e)
  }

  // Nothing from p0 on has changed
  ghost predicate KeptFrom(before: seq<Byte>, after: seq<Byte>, p0: nat)
  {
    |before| == |after| && p0 <= |after| && after[p0..] == before[p0..]
  }

  lemma WrittenKeeps(before: seq<Byte>, after: seq<Byte>, p0: nat, s: seq<Byte>)
    requires WrittenBefore(before, after, p0, s)
    ensures KeptFrom(before, after, p0)
  {
  }

  // The header in front of content that is already there
  method WriteLenAndTag(buf: array<Byte>, p0: nat, len: nat, tag: Byte, ghost before: seq<Byte>,
                        ghost content: seq<Byte>)
      returns (ret: WriteResult, p: nat)
    requires p0 <= buf.Length && len == |content| && WrittenBefore(before, buf[..], p0 + len, content)
    modifies buf
    ensures Fits(content, tag, p0 + len) ==> Wrote(before, buf[..], p0 + len, p, tag, content, ret)
    ensures !Fits(content, tag, p0 + len) ==> ret == if len >= 0x1_0000_0000 then TooLong else BufTooSmall
    ensures KeptFrom(before, buf[..], p0 + len)
  {
    hide WrittenBefore, LenOctets, KeptFrom, Fits, Wrote;
    FitsMeans(content, tag, p0 + len);
    ghost var b1 := buf[..];
    WrittenKeeps(before, b1, p0 + len, content);
    ret, p := WriteLen(buf, p0, len);
    if !ret.Written? {
      return;
    }
    var n := ret.n;
    ghost var b2 := buf[..];
    WrittenMore(before, b1, b2, p0 + len, content, LenOctets(len));
    WrittenKeeps(before, b2, p0 + len, LenOctets(len) + content);
    ret, p := WriteTag(buf, p, tag);
    if !ret.Written? {
      return;
    }
    WrittenMore(before, b2, buf[..], p0 + len, LenOctets(len) + content, [tag]);
    WrittenKeeps(before, buf[..], p0 + len, [tag] + (LenOctets(len) + content));
    ret := AsInt(len + n + 1);
    WroteElement(before, buf[..], p0 + len, p, tag, content);
  }

  lemma FitsMeans(content: seq<Byte>, tag: Byte, q: nat)
    ensures Fits(content, tag, q) <==> |content| < 0x1_0000_0000 && 1 + |LenOctets(|content|)| + |content| <= q
  {
    hide LenOctets;
  }

  lemma WroteElement(before: seq<Byte>, after: seq<Byte>, q: nat, p: nat, tag: Byte, content: seq<Byte>)
    requires |content| < 0x1_0000_0000 && WrittenBefore(before, after, q, [tag] + (LenOctets(|content|) + content))
    requires p == q - |[tag] + (LenOctets(|content|) + content)|
    ensures Fits(content, tag, q)
    ensures Wrote(before, after, q, p, tag, content, AsInt(|content| + |LenOctets(|content|)| + 1))
  {
    hide LenOctets;
    assert [tag] + (LenOctets(|content|) + content) == Element(tag, content);
  }

  // ----- Parsing lengths and tags

  datatype LenParse = LenOk(len: nat, used: nat) | LenShort | LenInvalid

  // The length at the start of s, which has to be there in full
  function ParseLen(s: seq<Byte>): (r: LenParse)
    ensures r.LenOk? ==> 0 < r.used && r.used + r.len <= |s|
  {
    if |s| < 1 then LenShort
    else if s[0] < 0x80 then if s[0] > |s| - 1 then LenShort else LenOk(s[0], 1)
    else
      var n := s[0] - 0x80;
      if n == 0 || n > 4 then LenInvalid
      else if |s| <= n then LenShort
      else var len := Be(s[1..1 + n]);
           if len > |s| - 1 - n then LenShort else LenOk(len, 1 + n)
  }

  // What was written is read back, in the fewest octets
  lemma {:induction false} LenRoundTrip(len: nat, rest: seq<Byte>)
    requires len < 0x1_0000_0000
    ensures ParseLen(LenOctets(len) + rest) == if len <= |rest| then LenOk(len, |LenOctets(len)|) else LenShort
  {
    hide Be, BeBytes, NumBytes, Pow2;
    FourBytes(len);
    var s := LenOctets(len) + rest;
    if len >= 0x80 {
      var n := NumBytes(len);
      NumBytesBound(len);
      BeOfBytes(len, n);
      assert s[1..1 + n] == BeBytes(len, n);
    }
  }

  // The form of section 8.1.3 of X.690, with the fewest octets (section 10.1)
  lemma {:induction false} LenOctetsForm(len: nat)
    requires len < 0x1_0000_0000
    ensures var o := LenOctets(len);
            if len < 0x80 then o == [len]
            else |o| >= 2 && o[0] == 0x80 + (|o| - 1) && Be(o[1..]) == len && o[1] != 0
  {
    hide Be, BeBytes, NumBytes, Pow2;
    if len >= 0x80 {
      var n := NumBytes(len);
      FourBytes(len);
      NumBytesBound(len);
      BeOfBytes(len, n);
      var b := BeBytes(len, n);
      assert LenOctets(len)[1..] == b;
      if b[0] == 0 {
        assert b == [0] + b[1..];
        BeAppend([0], b[1..]);
        BeSingle(0);
        BeBound(b[1..]);
      }
    }
  }

  // Every definite form of up to four octets is read, also with leading zeros; no other is
  lemma {:induction false} ParseLenForms(b: Byte, d: seq<Byte>, rest: seq<Byte>)
    ensures b < 0x80 ==> ParseLen([b] + rest) == if b <= |rest| then LenOk(b, 1) else LenShort
    ensures 1 <= |d| <= 4 && b == 0x80 + |d| ==>
              ParseLen([b] + d + rest) == if Be(d) <= |rest| then LenOk(Be(d), 1 + |d|) else LenShort
    ensures b == 0x80 || b > 0x84 ==> ParseLen([b] + rest) == LenInvalid
    ensures ParseLen([]) == LenShort && (0x80 < b <= 0x84 && |rest| < b - 0x80 ==> ParseLen([b] + rest) == LenShort)
  {
    hide Be;
    if 1 <= |d| <= 4 && b == 0x80 + |d| {
      assert ([b] + d + rest)[1..1 + |d|] == d;
    }
  }

  lemma {:induction false} LenMinimal(s: seq<Byte>)
    requires ParseLen(s).LenOk?
    ensures ParseLen(s).len < 0x1_0000_0000 && |LenOctets(ParseLen(s).len)| <= ParseLen(s).used
  {
    hide Be, BeBytes, NumBytes;
    var r := ParseLen(s);
    if s[0] >= 0x80 {
      var n := s[0] - 0x80;
      NumBytesMinimal(r.len, s[1..1 + n]);
      BeBound(s[1..1 + n]);
      Pow2Mono(8 * n, 32);
      Pow32();
    }
  }

  lemma Pow32()
    ensures Pow2(32) == 0x1_0000_0000
  {
    assert Pow2(8) == 256;
    Pow2Add(8, 8);
    Pow2Add(16, 16);
  }

  // Read n bytes as a big-endian number
  method Accumulate(data: seq<Byte>, p0: nat, n: nat) returns (v: nat)
    requires p0 + n <= |data|
    ensures v == Be(data[p0..p0 + n])
  {
    hide Be;
    v := 0;
    BeEmpty();
    var i := 0;
    assert data[p0..p0] == [];
    while i < n
      invariant 0 <= i <= n && v == Be(data[p0..p0 + i])
    {
      assert data[p0..p0 + i + 1] == data[p0..p0 + i] + [data[p0 + i]];
      BeAppend(data[p0..p0 + i], [data[p0 + i]]);
      BeSingle(data[p0 + i]);
      SmallPow2();
      // (v << 8) | byte, the shifted value having no bits there
      v := v * 256 + data[p0 + i];
      i := i + 1;
    }
  }

  method GetLen(data: seq<Byte>, p0: nat) returns (ret: ParseStatus, p: nat, len: nat)
    requires p0 <= |data|
    ensures match ParseLen(data[p0..])
            case LenOk(l, u) => ret == Parsed && len == l && p == p0 + u
            case LenShort => ret == OutOfData
            case LenInvalid => ret == InvalidLength
  {
    hide Be;
    p, len := p0, 0;
    ghost var s := data[p0..];
    if |data| - p < 1 {
      return OutOfData, p, len;
    }
    assert s[0] == data[p0];
    if data[p] < 0x80 {
      len := data[p];
      p := p + 1;
    } else {
      var n := data[p] - 0x80;
      if n == 0 || n > 4 {
        return InvalidLength, p, len;
      }
      if |data| - p <= n {
        return OutOfData, p, len;
      }
      p := p + 1;
      assert s[1..1 + n] == data[p..p + n];
      len := Accumulate(data, p, n);
      p := p + n;
    }
    if len > |data| - p {
      return OutOfData, p, len;
    }
    return Parsed, p, len;
  }

  // A tag and the length of its content
  function ParseTag(s: seq<Byte>, tag: Byte): (ParseStatus, nat, nat)
  {
    if |s| < 1 then (OutOfData, 0, 0)
    else if s[0] != tag then (UnexpectedTag, 0, 0)
    else match ParseLen(s[1..])
         case LenOk(l, u) => (Parsed, l, 1 + u)
         case LenShort => (OutOfData, 0, 0)
         case LenInvalid => (InvalidLength, 0, 0)
  }

  lemma ParseTagRoom(s: seq<Byte>, tag: Byte)
    ensures ParseTag(s, tag).0 == Parsed ==> 2 <= ParseTag(s, tag).2 && ParseTag(s, tag).2 + ParseTag(s, tag).1 <= |s|
  {
    hide ParseLen;
  }

  method GetTag(data: seq<Byte>, p0: nat, tag: Byte) returns (ret: ParseStatus, p: nat, len: nat)
    requires p0 <= |data|
    ensures ret == ParseTag(data[p0..], tag).0
    ensures ret == Parsed ==>
              len == ParseTag(data[p0..], tag).1 && p == p0 + ParseTag(data[p0..], tag).2 && p + len <= |data|
  {
    hide ParseLen;
    if |data| - p0 < 1 {
      return OutOfData, p0, 0;
    }
    assert data[p0..][0] == data[p0];
    if data[p0] != tag {
      return UnexpectedTag, p0, 0;
    }
    assert data[p0..][1..] == data[p0 + 1..];
    ret, p, len := GetLen(data, p0 + 1);
  }

  lemma {:induction false} TagRoundTrip(tag: Byte, content: seq<Byte>, rest: seq<Byte>)
    requires |content| < 0x1_0000_0000
    ensures var s := Element(tag, content) + rest;
            ParseTag(s, tag) == (Parsed, |content|, |Header(tag, |content|)|)
            && s[|Header(tag, |content|)|..|Element(tag, content)|] == content
  {
    hide ParseLen, LenOctets;
    var o := LenOctets(|content|);
    var s := Element(tag, content) + rest;
    assert s[1..] == o + (content + rest);
    LenRoundTrip(|content|, content + rest);
  }

  // ----- Integers

  // A leading zero keeps the top bit, the sign, clear
  function Unsigned(s: seq<Byte>): (r: seq<Byte>)
    requires |s| > 0
    ensures |s| <= |r| <= |s| + 1
  {
    if s[0] >= 0x80 then [0] + s else s
  }

  lemma UnsignedValue(s: seq<Byte>)
    requires |s| > 0
    ensures Be(Unsigned(s)) == Be(s) && Unsigned(s)[0] < 0x80
  {
    hide Be;
    BeAppend([0], s);
    BeSingle(0);
  }

  // What write_int puts out: all bytes of a non-negative number, the low byte of a negative one
  function IntContent(val: int): (s: seq<Byte>)
    ensures |s| > 0
  {
    if val >= 0 then Unsigned(BeBytes(val, Max1(NumBytes(val)))) else Unsigned([val % 256])
  }

  // The low bytes of val, with the space checked for each
  method WriteIntBytes(buf: array<Byte>, p0: nat, val: int, ghost s: seq<Byte>) returns (ok: bool, p: nat, len: nat)
    requires p0 <= buf.Length && s == if val >= 0 then BeBytes(val, Max1(NumBytes(val))) else [val % 256]
    modifies buf
    ensures ok == (|s| <= p0) && KeptFrom(old(buf[..]), buf[..], p0)
    ensures ok ==> p == p0 - |s| && len == |s| && WrittenBefore(old(buf[..]), buf[..], p0, s)
  {
    hide Pow2, BeBytes, WrittenBefore, Digit, NumBytes;
    p, len := p0, 0;
    ghost var before := buf[..];
    if p < 1 {
      return false, p, len;
    }
    var v := val;
    len := 1;
    p := PutByte(buf, p, v % 256);
    WrittenKeeps(before, buf[..], p0, [v % 256]);
    if val >= 0 {
      FirstDigit(val);
      BeBytesMore(val, 0);
      NoBytes(val);
      NextDigits(val, 0, val);
      assert [Digit(val, 0)] + [] == [Digit(val, 0)];
    }
    v := v / 256;
    NoMore();
    if v > 0 {
      ok, p, len := WriteHigherBytes(buf, p0, val, before);
    } else {
      ok := true;
    }
  }

  // The bytes after the first
  method WriteHigherBytes(buf: array<Byte>, p0: nat, val: nat, ghost before: seq<Byte>)
      returns (ok: bool, p: nat, len: nat)
    requires 1 <= p0 <= buf.Length && WrittenBefore(before, buf[..], p0, BeBytes(val, 1))
    requires 1 + NumBytes(val / 256) == NumBytes(val) && val / 256 == val / Pow2(8)
    modifies buf
    ensures ok == (NumBytes(val) <= p0) && KeptFrom(before, buf[..], p0)
    ensures ok ==>
              p == p0 - NumBytes(val) && len == NumBytes(val) && WrittenBefore(before, buf[..], p0, BeBytes(val, len))
  {
    hide Pow2, BeBytes, WrittenBefore, Digit, NumBytes;
    p, len := p0 - 1, 1;
    var v := val / 256;
    while v > 0
      invariant v >= 0 && 1 <= len <= p0 && len + NumBytes(v) == NumBytes(val) && v == val / Pow2(8 * len)
      invariant p == p0 - len && WrittenBefore(before, buf[..], p0, BeBytes(val, len))
      decreases v
    {
      NextDigits(val, len, v);
      if p < 1 {
        WrittenKeeps(before, buf[..], p0, BeBytes(val, len));
        return false, p, len;
      }
      ghost var mid := buf[..];
      BeBytesMore(val, len);
      p := PutByte(buf, p, v % 256);
      WrittenMore(before, mid, buf[..], p0, BeBytes(val, len), [Digit(val, len)]);
      len := len + 1;
      v := v / 256;
    }
    NoMore();
    WrittenKeeps(before, buf[..], p0, BeBytes(val, len));
    ok := true;
  }

  method WriteTaggedInt(buf: array<Byte>, p0: nat, val: int, tag: Byte) returns (ret: WriteResult, p: nat)
    requires p0 <= buf.Length && -0x8000_0000 <= val < 0x8000_0000
    modifies buf
    ensures |IntContent(val)| < 0x1_0000_0000
    ensures var e := Element(tag, IntContent(val)); ret == if |e| <= p0 then Written(|e|) else BufTooSmall
    ensures ret.Written? ==> p == p0 - ret.n && WrittenBefore(old(buf[..]), buf[..], p0, Element(tag, IntContent(val)))
    ensures KeptFrom(old(buf[..]), buf[..], p0)
  {
    hide WrittenBefore, BeBytes, NumBytes, LenOctets, Fits, Wrote, KeptFrom;
    ghost var before := buf[..];
    FitsMeans(IntContent(val), tag, p0);
    ghost var s := if val >= 0 then BeBytes(val, Max1(NumBytes(val))) else [val % 256];
    if val >= 0 { FourBytes(val); }
    var ok, len;
    ok, p, len := WriteIntBytes(buf, p0, val, s);
    if !ok {
      return BufTooSmall, p;
    }
    FirstWritten(before, buf[..], p0, s);
    if buf[p] >= 0x80 {
      if p < 1 {
        return BufTooSmall, p;
      }
      ghost var mid := buf[..];
      p := PutByte(buf, p, 0);
      WrittenMore(before, mid, buf[..], p0, s, [0]);
      len := len + 1;
    }
    ret, p := WriteLenAndTag(buf, p, len, tag, before, IntContent(val));
    SmallElement(before, buf[..], p0, p, tag, IntContent(val), ret);
  }

  // The size of a small element is returned as it is
  lemma SmallElement(before: seq<Byte>, after: seq<Byte>, p0: nat, p: nat, tag: Byte, c: seq<Byte>, ret: WriteResult)
    requires |c| < 0x80 && if Fits(c, tag, p0) then Wrote(before, after, p0, p, tag, c, ret) else ret == BufTooSmall
    ensures ret == if |Element(tag, c)| <= p0 then Written(|Element(tag, c)|) else BufTooSmall
    ensures ret.Written? ==> p == p0 - ret.n && WrittenBefore(before, after, p0, Element(tag, c))
  {
    hide WrittenBefore;
    SizeReturned(|Element(tag, c)|);
  }

  lemma FirstWritten(before: seq<Byte>, after: seq<Byte>, p0: nat, s: seq<Byte>)
    requires WrittenBefore(before, after, p0, s) && |s| > 0
    ensures |s| <= p0 <= |after| && after[p0 - |s|] == s[0]
  {
  }

  // The content of an integer the parser accepts: not empty, not negative, below 2^31
  predicate IntAccepted(c: seq<Byte>)
  {
    |c| > 0 && c[0] < 0x80 && Be(c) < 0x8000_0000
  }

  // How many leading zeros there are
  method SkipZeros(data: seq<Byte>, p0: nat, len0: nat) returns (p: nat, len: nat)
    requires p0 + len0 <= |data|
    ensures p0 <= p && p + len == p0 + len0 && Be(data[p..p + len]) == Be(data[p0..p0 + len0])
    ensures len > 0 ==> data[p] != 0
  {
    hide Be;
    p, len := p0, len0;
    while len > 0 && data[p] == 0
      invariant p0 <= p && p + len == p0 + len0 && Be(data[p..p + len]) == Be(data[p0..p0 + len0])
      decreases len
    {
      assert data[p..p + len] == [data[p]] + data[p + 1..p + len];
      BeAppend([data[p]], data[p + 1..p + len]);
      BeSingle(data[p]);
      p, len := p + 1, len - 1;
    }
  }

  // With a nonzero first byte the length decides: at most four bytes, the top bit of four clear
  lemma {:induction false} FitsInt(z: seq<Byte>)
    requires |z| > 0 ==> z[0] != 0
    ensures Be(z) < 0x8000_0000 <==> |z| < 4 || (|z| == 4 && z[0] < 0x80)
  {
    hide Be;
    Pow32();
    BeBound(z);
    if |z| == 0 {
      BeEmpty();
    } else {
      var n := |z| - 1;
      assert z == [z[0]] + z[1..];
      BeAppend([z[0]], z[1..]);
      BeSingle(z[0]);
      BeBound(z[1..]);
      IntSize(n, z[0], Be(z[1..]));
    }
  }

  lemma IntSize(n: nat, b: Byte, low: nat)
    requires b > 0 && low < Pow2(8 * n)
    ensures low + Pow2(8 * n) * b < 0x8000_0000 <==> n < 3 || (n == 3 && b < 0x80)
  {
    Pow32();
    assert Pow2(8) == 256 && Pow2(0) == 1;
    Pow2Add(8, 8);
    Pow2Add(16, 8);
    if n > 3 {
      Pow2Mono(32, 8 * n);
      MulLe(Pow2(8 * n), Pow2(8 * n), 1, b);
    }
  }

  method GetTaggedInt(data: seq<Byte>, p0: nat, tag: Byte) returns (ret: ParseStatus, p: nat, val: nat)
    requires p0 <= |data|
    ensures var (st, len, h) := ParseTag(data[p0..], tag);
            if st != Parsed then ret == st
            else p0 + h + len <= |data| &&
                 var c := data[p0 + h..p0 + h + len];
                 && ret == (if IntAccepted(c) then Parsed else InvalidLength)
                 && (ret == Parsed ==> val == Be(c) && p == p0 + h + len)
  {
    hide Be, ParseTag;
    val := 0;
    var len;
    ParseTagRoom(data[p0..], tag);
    ret, p, len := GetTag(data, p0, tag);
    if ret != Parsed {
      return;
    }
    ghost var c := data[p..p + len];
    if len == 0 {
      return InvalidLength, p, val;
    }
    assert c[0] == data[p];
    if data[p] >= 0x80 {
      return InvalidLength, p, val;
    }
    p, len := SkipZeros(data, p, len);
    FitsInt(data[p..p + len]);
    if len > 4 {
      return InvalidLength, p, val;
    }
    if len == 4 && data[p] >= 0x80 {
      return InvalidLength, p, val;
    }
    val := Accumulate(data, p, len);
    p := p + len;
  }

  // Reading back what was written gives the number, exactly for the non-negative ones
  lemma {:induction false} IntRoundTrip(val: int)
    requires -0x8000_0000 <= val < 0x8000_0000
    ensures IntAccepted(IntContent(val)) && (Be(IntContent(val)) == val <==> val >= 0)
  {
    hide Be, BeBytes, NumBytes;
    if val >= 0 {
      var k := Max1(NumBytes(val));
      NumBytesBound(val);
      Pow2Mono(8 * NumBytes(val), 8 * k);
      BeOfBytes(val, k);
      UnsignedValue(BeBytes(val, k));
    } else {
      BeSingle(val % 256);
      UnsignedValue([val % 256]);
    }
  }

  // The written element, parsed: the value again, and the position behind it
  method WriteThenGetInt(buf: array<Byte>, p0: nat, val: int, tag: Byte)
      returns (ok: bool, st: ParseStatus, read: nat, size: nat, end: nat)
    requires p0 == buf.Length && 0 <= val < 0x8000_0000
    modifies buf
    ensures |IntContent(val)| < 0x1_0000_0000 && ok == (|Element(tag, IntContent(val))| <= p0)
    ensures ok ==> st == Parsed && read == val && size == end == |Element(tag, IntContent(val))|
  {
    hide Be, Header, IntContent, BeBytes, NumBytes, ParseTag;
    var ret, p := WriteTaggedInt(buf, p0, val, tag);
    ok, st, read, size, end := ret.Written?, OutOfData, 0, 0, 0;
    if ok {
      ghost var e := Element(tag, IntContent(val));
      TagRoundTrip(tag, IntContent(val), []);
      assert buf[p..] == e && e + [] == e;
      IntRoundTrip(val);
      var data := buf[p..];
      size := |data|;
      st, end, read := GetTaggedInt(data, 0, tag);
      assert data[0..] == data;
    }
  }

  // ----- Big integers

  // Bits to bytes
  lemma {:induction false} SizeInBytes(v: nat, bits: nat)
    requires IsBitLength(v, bits)
    ensures (bits + 7) / 8 == NumBytes(v)
  {
    hide NumBytes;
    var k := NumBytes(v);
    NumBytesBound(v);
    if v > 0 {
      if bits <= 8 * k - 8 { Pow2Mono(bits, 8 * k - 8); }
      if bits > 8 * k { Pow2Mono(8 * k, bits - 1); }
    }
  }

  // The magnitude; a leading zero only where the sign is positive
  function MpiContent(s: int, v: nat): (c: seq<Byte>)
    ensures |c| > 0
  {
    var b := BeBytes(v, Max1(NumBytes(v)));
    if s == 1 then Unsigned(b) else b
  }

  lemma {:induction false} MpiContentValue(s: int, v: nat)
    ensures Be(MpiContent(s, v)) == v
  {
    hide Be, BeBytes, NumBytes;
    var k := Max1(NumBytes(v));
    NumBytesBound(v);
    Pow2Mono(8 * NumBytes(v), 8 * k);
    BeOfBytes(v, k);
    UnsignedValue(BeBytes(v, k));
  }

  // What the contents octets of an INTEGER stand for (section 8.3 of X.690): two's complement
  function SignedValue(c: seq<Byte>): int
    requires |c| > 0
  {
    if c[0] >= 0x80 then Be(c) - Pow2(8 * |c|) else Be(c)
  }

  // A number that is not negative stands for itself, in the fewest octets, and is written like an int
  lemma {:induction false} MpiContentSigned(v: nat)
    ensures SignedValue(MpiContent(1, v)) == v && MpiContent(1, v) == IntContent(v)
    ensures forall s: seq<Byte> :: |s| > 0 && SignedValue(s) == v ==> |MpiContent(1, v)| <= |s|
  {
    hide Be, BeBytes, NumBytes, Pow2, SignedValue;
    MpiContentValue(1, v);
    UnsignedValue(BeBytes(v, Max1(NumBytes(v))));
    assert SignedValue(MpiContent(1, v)) == v by { PositiveSigned(MpiContent(1, v)); }
    forall s: seq<Byte> | |s| > 0 && SignedValue(s) == v
      ensures |MpiContent(1, v)| <= |s|
    {
      FewestOctets(v, s);
    }
  }

  lemma PositiveSigned(c: seq<Byte>)
    requires |c| > 0 && c[0] < 0x80
    ensures SignedValue(c) == Be(c)
  {
  }

  // Not negative means a clear top bit, and then there are only 8 * |s| - 1 bits for the value
  lemma {:induction false} SignedBound(s: seq<Byte>)
    requires |s| > 0
    ensures SignedValue(s) >= 0 <==> s[0] < 0x80
    ensures s[0] < 0x80 <==> 2 * Be(s) < Pow2(8 * |s|)
  {
    hide Be, Pow2;
    var n := |s| - 1;
    assert s == [s[0]] + s[1..];
    BeAppend([s[0]], s[1..]);
    BeSingle(s[0]);
    BeBound(s[1..]);
    BeBound(s);
    EightBits(8 * n);
    var w := Pow2(8 * n);
    assert 8 * |s| == 8 * n + 8;
    if s[0] < 0x80 { MulLe(s[0], 127, w, w); } else { MulLe(128, s[0], w, w); }
  }

  lemma {:induction false} FewestOctets(v: nat, s: seq<Byte>)
    requires |s| > 0 && SignedValue(s) == v
    ensures |MpiContent(1, v)| <= |s|
  {
    hide Be, BeBytes, NumBytes, Pow2, SignedValue;
    SignedBound(s);
    PositiveSigned(s);
    NumBytesMinimal(v, s);
    var k := Max1(NumBytes(v));
    var b := BeBytes(v, k);
    if b[0] >= 0x80 {
      SignedBound(b);
      NumBytesBound(v);
      Pow2Mono(8 * NumBytes(v), 8 * k);
      BeOfBytes(v, k);
      if |s| <= k {
        Pow2Mono(8 * |s|, 8 * k);
      }
    }
  }

  // A negative number is written as its magnitude, which stands for it only for 0 and for the
  // least number of that many octets
  lemma {:induction false} MpiNegative(v: nat)
    ensures SignedValue(MpiContent(-1, v)) == 0 - v <==> v == 0 || 2 * v == Pow2(8 * NumBytes(v))
  {
    hide Be, BeBytes, Pow2, SignedValue;
    var c := MpiContent(-1, v);
    MpiContentValue(-1, v);
    SignedBound(c);
    assert c[0] >= 0x80 ==> SignedValue(c) == v - Pow2(8 * |c|) by { NegativeSigned(c); }
    if c[0] < 0x80 {
      PositiveSigned(c);
    }
    assert v > 0 ==> |c| == NumBytes(v);
  }

  lemma NegativeSigned(c: seq<Byte>)
    requires |c| > 0
    ensures c[0] >= 0x80 ==> SignedValue(c) == Be(c) - Pow2(8 * |c|)
  {
  }

  // get_int takes what write_mpi has put out for a number below 2^31
  lemma {:induction false} MpiAsInt(v: nat)
    requires v < 0x8000_0000
    ensures IntAccepted(MpiContent(1, v)) && Be(MpiContent(1, v)) == v
  {
    hide Be, IntContent, MpiContent, IntAccepted;
    IntRoundTrip(v);
    MpiContentSigned(v);
  }

  // Copy s in front of position p0
  method PutSeq(buf: array<Byte>, p0: nat, s: seq<Byte>) returns (p: nat)
    requires |s| <= p0 <= buf.Length
    modifies buf
    ensures p == p0 - |s| && WrittenBefore(old(buf[..]), buf[..], p0, s)
  {
    p := p0 - |s|;
    forall i | 0 <= i < |s| {
      buf[p + i] := s[i];
    }
    assert buf[p..p0] == s;
  }

  // The magnitude in len bytes, which are enough
  method WriteMagnitude(buf: array<Byte>, p0: nat, X: Mpi, len: nat) returns (p: nat)
    requires len == Max1(NumBytes(X.Abs())) && len <= p0 <= buf.Length
    modifies buf
    ensures p == p0 - len && WrittenBefore(old(buf[..]), buf[..], p0, BeBytes(X.Abs(), len))
  {
    hide WrittenBefore, BeBytes, NumBytes, Mpi.Abs, Pow2, Reversed, Digits256;
    var tmp := new Byte[len];
    Roomy(X.Abs(), len);
    LongDivision.AbsIsValue(X);
    var st := WriteBe(X.p, tmp);
    BeBytesIs(X.Abs(), len);
    p := PutSeq(buf, p0, tmp[..]);
  }

  method WriteMpi(buf: array<Byte>, p0: nat, X: Mpi) returns (ret: WriteResult, p: nat)
    requires p0 <= buf.Length && X.Valid()
    modifies buf
    ensures var c := MpiContent(X.s, X.Abs());
            if Fits(c, INTEGER, p0) then Wrote(old(buf[..]), buf[..], p0, p, INTEGER, c, ret)
            else ret.BufTooSmall? || ret.TooLong?
    ensures KeptFrom(old(buf[..]), buf[..], p0)
  {
    hide WrittenBefore, BeBytes, NumBytes, LenOctets, Mpi.Abs, Mpi.Val, IsBitLength, Pow2, Reversed, Digits256;
    ghost var before, v := buf[..], X.Abs();
    p := p0;
    var bits := BitlenMpi(X);
    SizeInBytes(v, bits);
    var len := (bits + 7) / 8;
    if len == 0 {
      len := 1;
    }
    if p < len {
      return BufTooSmall, p;
    }
    p := WriteMagnitude(buf, p, X, len);
    ghost var b := BeBytes(v, len);
    FirstWritten(before, buf[..], p0, b);
    WrittenKeeps(before, buf[..], p0, b);
    if X.s == 1 && buf[p] >= 0x80 {
      if p < 1 {
        return BufTooSmall, p;
      }
      ghost var mid := buf[..];
      p := PutByte(buf, p, 0);
      WrittenMore(before, mid, buf[..], p0, b, [0]);
      len := len + 1;
    }
    ret, p := WriteLenAndTag(buf, p, len, INTEGER, before, MpiContent(X.s, v));
  }

  lemma Roomy(v: nat, len: nat)
    requires len == Max1(NumBytes(v))
    ensures v < Pow2(8 * len)
  {
    hide NumBytes;
    NumBytesBound(v);
    Pow2Mono(8 * NumBytes(v), 8 * len);
  }

  lemma BeBytesIs(v: nat, k: nat)
    ensures BeBytes(v, k) == Reversed(Digits256(v, k))
  {
  }

  // The content as an unsigned number
  method GetMpi(data: seq<Byte>, p0: nat, X: Mpi) returns (ret: ParseStatus, p: nat)
    requires p0 <= |data|
    modifies X
    ensures var (st, len, h) := ParseTag(data[p0..], INTEGER);
            ret == st && (ret == Parsed ==> p0 + h + len <= |data| && p == p0 + h + len
                                            && X.Valid() && X.Val() == Be(data[p0 + h..p0 + h + len]))
  {
    hide Be, ParseTag, Value;
    ParseTagRoom(data[p0..], INTEGER);
    var len;
    ret, p, len := GetTag(data, p0, INTEGER);
    if ret != Parsed {
      return;
    }
    var limbs := CharsToLimbs(len);
    var x := new Limb[limbs];
    var st := ReadBe(x, data[p..p + len]);
    X.s, X.p := 1, x[..];
    p := p + len;
  }

  // Writing and reading a big integer gives back its magnitude, so the number itself exactly
  // when it is not negative
  lemma {:induction false} MpiRoundTrip(s: int, v: nat, rest: seq<Byte>)
    requires (s == 1 || s == -1) && |MpiContent(s, v)| < 0x1_0000_0000
    ensures var c := MpiContent(s, v);
            var d := Element(INTEGER, c) + rest;
            var (st, len, h) := ParseTag(d, INTEGER);
            st == Parsed && h + len == |Element(INTEGER, c)| && h + len <= |d| && Be(d[h..h + len]) == v
            && (Be(d[h..h + len]) == s * v <==> s * v >= 0)
  {
    hide Be, ParseTag, Header;
    MpiContentValue(s, v);
    TagRoundTrip(INTEGER, MpiContent(s, v), rest);
  }

  // ----- Bit strings

  // Bit number i, the high bit of a byte first
  predicate BitAt(b: seq<Byte>, i: nat)
    requires i < 8 * |b|
  {
    b[i / 8] / Pow2(7 - i % 8) % 2 == 1
  }

  function BytesFor(bits: nat): nat
  {
    (bits + 7) / 8
  }

  // The low u bits cleared
  function ClearLow(x: Byte, u: nat): Byte
    requires u <= 7
  {
    DivModBasics(x, Pow2(u));
    LowPart(x, Pow2(u));
    x - x % Pow2(u)
  }

  lemma LowPart(x: nat, w: nat)
    requires w > 0
    ensures 0 <= x % w <= x
  {
    DivModBasics(x, w);
    if x < w { ModSmall(x, w); }
  }

  lemma {:induction false} ClearedBits(x: Byte, u: nat, j: nat)
    requires u <= 7 && j <= 7
    ensures ClearLow(x, u) / Pow2(j) % 2 == if j < u then 0 else x / Pow2(j) % 2
  {
    hide Pow2;
    var w := Pow2(u);
    DivModBasics(x, w);
    var a := x / w;
    if j < u {
      Pow2Add(u - j, j);
      Pow2Even(u - j);
      var h := Pow2(u - j - 1);
      MulAssoc(a, Pow2(u - j), Pow2(j));
      assert a * Pow2(u - j) == 2 * (a * h) by { MulAssoc(a, h, 2); MulAssoc(2, a, h); }
      DivModUnique(a * w, Pow2(j), a * Pow2(u - j), 0);
    } else {
      Pow2Add(u, j - u);
      DivDiv(x, w, Pow2(j - u));
      DivDiv(a * w, w, Pow2(j - u));
      DivModUnique(a * w, w, a, 0);
    }
  }

  lemma Pow2Even(k: nat)
    requires k > 0
    ensures Pow2(k) == 2 * Pow2(k - 1) == Pow2(k - 1) * 2
  {
  }

  // The first n bytes, the low u bits of the last one zero
  function BitBytes(src: seq<Byte>, n: nat, u: nat): (s: seq<Byte>)
    requires n <= |src| && u <= 7
    ensures |s| == n
  {
    if n == 0 then [] else src[..n - 1] + [ClearLow(src[n - 1], u)]
  }

  // The number of unused bits and the bytes, the unused bits zero
  function BitContent(src: seq<Byte>, bits: nat): (c: seq<Byte>)
    requires BytesFor(bits) <= |src|
    ensures |c| == BytesFor(bits) + 1
  {
    var n := BytesFor(bits);
    [n * 8 - bits] + BitBytes(src, n, n * 8 - bits)
  }

  method WriteBitBytes(buf: array<Byte>, p0: nat, src: seq<Byte>, n: nat, u: nat) returns (p: nat)
    requires n <= p0 <= buf.Length && n <= |src| && u <= 7
    modifies buf
    ensures p == p0 - n && WrittenBefore(old(buf[..]), buf[..], p0, BitBytes(src, n, u))
  {
    hide WrittenBefore, ClearLow;
    ghost var before := buf[..];
    p := p0;
    WrittenNothing(before, p0);
    if n > 0 {
      var b := ClearLow(src[n - 1], u);
      p := PutByte(buf, p, b);
      ghost var mid := buf[..];
      p := PutSeq(buf, p, src[..n - 1]);
      WrittenMore(before, mid, buf[..], p0, [b], src[..n - 1]);
    }
  }

  // The bytes, and the number of unused bits in front
  method WriteBits(buf: array<Byte>, p0: nat, src: seq<Byte>, n: nat, u: nat) returns (p: nat)
    requires n + 1 <= p0 <= buf.Length && n <= |src| && u <= 7
    modifies buf
    ensures p == p0 - n - 1 && WrittenBefore(old(buf[..]), buf[..], p0, [u] + BitBytes(src, n, u))
  {
    hide WrittenBefore, BitBytes;
    ghost var before := buf[..];
    p := WriteBitBytes(buf, p0, src, n, u);
    ghost var mid := buf[..];
    p := PutByte(buf, p, u);
    WrittenMore(before, mid, buf[..], p0, BitBytes(src, n, u), [u]);
  }

  method WriteBitstring(buf: array<Byte>, p0: nat, src: seq<Byte>, bits: nat) returns (ret: WriteResult, p: nat)
    requires p0 <= buf.Length && BytesFor(bits) <= |src|
    modifies buf
    ensures var c := BitContent(src, bits);
            if Fits(c, BIT_STRING, p0) then Wrote(old(buf[..]), buf[..], p0, p, BIT_STRING, c, ret)
            else ret.BufTooSmall? || ret.TooLong?
    ensures KeptFrom(old(buf[..]), buf[..], p0)
  {
    hide WrittenBefore, LenOctets, BitBytes;
    ghost var before := buf[..];
    var n := (bits + 7) / 8;
    var u := n * 8 - bits;
    p := p0;
    if p < n + 1 {
      return BufTooSmall, p;
    }
    var len := n + 1;
    p := WriteBits(buf, p, src, n, u);
    ret, p := WriteLenAndTag(buf, p, len, BIT_STRING, before, BitContent(src, bits));
  }

  // The shortest bit string with the same one bits
  method TrimBits(src: seq<Byte>, bits0: nat) returns (bits: nat)
    requires BytesFor(bits0) <= |src|
    ensures bits <= bits0 && (bits > 0 ==> BitAt(src, bits - 1)) && forall i :: bits <= i < bits0 ==> !BitAt(src, i)
  {
    hide BitAt, Reading;
    bits := bits0;
    var n := (bits + 7) / 8;
    var u := n * 8 - bits;
    if bits != 0 {
      var cur := n - 1;
      var shifted := src[cur] / Pow2(u);
      FirstBit(src, bits, cur, u);
      while true
        invariant 0 < bits <= bits0 && 0 <= cur < |src| && Reading(src, bits, cur, shifted)
        invariant forall i :: bits <= i < bits0 ==> !BitAt(src, i)
        decreases bits
      {
        NextBit(src, bits, cur, shifted);
        var bit := shifted % 2;
        shifted := shifted / 2;
        if bit != 0 {
          break;
        }
        bits := bits - 1;
        if bits == 0 {
          break;
        }
        if bits % 8 == 0 {
          cur := cur - 1;
          shifted := src[cur];
        }
      }
    }
  }

  // The low bit of shifted is the last of the bits that are left, in byte cur
  predicate Reading(src: seq<Byte>, bits: nat, cur: nat, shifted: int)
  {
    0 < bits <= 8 * |src| && cur == (bits - 1) / 8 && shifted == src[cur] / Pow2(7 - (bits - 1) % 8)
  }

  lemma FirstBit(src: seq<Byte>, bits: nat, cur: nat, u: nat)
    requires 0 < bits && BytesFor(bits) <= |src| && cur == BytesFor(bits) - 1 && u == 8 * BytesFor(bits) - bits
    ensures Reading(src, bits, cur, src[cur] / Pow2(u))
  {
    hide Pow2;
    assert (bits - 1) / 8 == cur && 7 - (bits - 1) % 8 == u;
  }

  lemma {:induction false} NextBit(src: seq<Byte>, bits: nat, cur: nat, shifted: int)
    requires Reading(src, bits, cur, shifted)
    ensures BitAt(src, bits - 1) <==> shifted % 2 != 0
    ensures bits > 1 && (bits - 1) % 8 == 0 ==> cur > 0 && Reading(src, bits - 1, cur - 1, src[cur - 1])
    ensures (bits - 1) % 8 != 0 ==> Reading(src, bits - 1, cur, shifted / 2)
  {
    hide Pow2;
    BitIs(src, bits - 1);
    if (bits - 1) % 8 == 0 {
      if bits > 1 {
        FirstShift(src[cur - 1], bits - 1);
        assert (bits - 2) / 8 == cur - 1;
      }
    } else {
      DivDiv(src[cur], Pow2(7 - (bits - 1) % 8), 2);
      NextShift(bits - 1);
    }
  }

  lemma BitIs(b: seq<Byte>, i: nat)
    requires i < 8 * |b|
    ensures BitAt(b, i) <==> b[i / 8] / Pow2(7 - i % 8) % 2 != 0
  {
    DivModBasics(b[i / 8] / Pow2(7 - i % 8), 2);
  }

  lemma NextShift(i: nat)
    ensures i % 8 > 0 ==> Pow2(7 - i % 8) * 2 == Pow2(7 - (i - 1) % 8) && (i - 1) / 8 == i / 8
  {
    if i % 8 > 0 {
      assert 7 - (i - 1) % 8 == 7 - i % 8 + 1;
    }
  }

  lemma FirstShift(x: Byte, bits: nat)
    requires bits > 0 && bits % 8 == 0
    ensures 7 - (bits - 1) % 8 == 0 && x == x / Pow2(7 - (bits - 1) % 8)
  {
    assert Pow2(0) == 1;
  }

  method WriteNamedBitstring(buf: array<Byte>, p0: nat, src: seq<Byte>, bits: nat)
      returns (ret: WriteResult, p: nat, ghost kept: nat)
    requires p0 <= buf.Length && BytesFor(bits) <= |src|
    modifies buf
    ensures kept <= bits && (kept > 0 ==> BitAt(src, kept - 1)) && forall i :: kept <= i < bits ==> !BitAt(src, i)
    ensures var c := BitContent(src, kept);
            if Fits(c, BIT_STRING, p0) then Wrote(old(buf[..]), buf[..], p0, p, BIT_STRING, c, ret)
            else ret.BufTooSmall? || ret.TooLong?
    ensures KeptFrom(old(buf[..]), buf[..], p0)
  {
    hide WrittenBefore, Element, BitAt, BitContent;
    var n := TrimBits(src, bits);
    kept := n;
    ret, p := WriteBitstring(buf, p0, src, n);
  }

  // A bit string that fills the rest of the data
  method GetBitstring(data: seq<Byte>, p0: nat) returns (ret: ParseStatus, p: nat, unused: nat, bytes: seq<Byte>)
    requires p0 <= |data|
    ensures var (st, len, h) := ParseTag(data[p0..], BIT_STRING);
            if st != Parsed then ret == st
            else p0 + h + len <= |data| &&
                 var c := data[p0 + h..p0 + h + len];
                 (ret == (if len < 1 then OutOfData else if c[0] > 7 then InvalidLength
                          else if p0 + h + len != |data| then LengthMismatch else Parsed))
                 && (ret == Parsed ==> unused == c[0] && bytes == c[1..] && p == |data|)
  {
    hide ParseTag;
    ParseTagRoom(data[p0..], BIT_STRING);
    unused, bytes := 0, [];
    var len;
    ret, p, len := GetTag(data, p0, BIT_STRING);
    if ret != Parsed {
      return;
    }
    ghost var c := data[p..p + len];
    if len < 1 {
      return OutOfData, p, unused, bytes;
    }
    assert c[0] == data[p];
    len := len - 1;
    unused := data[p];
    if unused > 7 {
      return InvalidLength, p, unused, bytes;
    }
    p := p + 1;
    bytes := data[p..p + len];
    assert c[1..] == bytes;
    p := p + len;
    if p != |data| {
      return LengthMismatch, p, unused, bytes;
    }
  }

  // Reading back: as many bits as were written, the same ones, and zeros behind them
  lemma {:induction false} BitstringRoundTrip(src: seq<Byte>, bits: nat, i: nat)
    requires BytesFor(bits) <= |src|
    ensures var c := BitContent(src, bits);
            && c[0] <= 7 && 8 * |c[1..]| == bits + c[0]
            && (i < bits ==> BitAt(c[1..], i) == BitAt(src, i))
            && (bits <= i < 8 * |c[1..]| ==> !BitAt(c[1..], i))
  {
    hide Pow2, ClearLow;
    var n := BytesFor(bits);
    var c := BitContent(src, bits);
    if i < 8 * n {
      var u := n * 8 - bits;
      ClearedBits(src[n - 1], u, 7 - i % 8);
      if i / 8 == n - 1 {
        assert c[1..][n - 1] == ClearLow(src[n - 1], u);
      } else {
        assert c[1..][i / 8] == src[i / 8];
      }
    }
  }

  // The parser accepts it and stops at its end
  lemma {:induction false} BitstringParses(src: seq<Byte>, bits: nat)
    requires BytesFor(bits) <= |src| && BytesFor(bits) < 0xFFFF_FFFF
    ensures var c := BitContent(src, bits);
            var d := Element(BIT_STRING, c);
            ParseTag(d, BIT_STRING) == (Parsed, |c|, |d| - |c|) && d[|d| - |c|..] == c
  {
    hide ParseTag, Header;
    var c := BitContent(src, bits);
    TagRoundTrip(BIT_STRING, c, []);
    assert Element(BIT_STRING, c) + [] == Element(BIT_STRING, c);
  }

  // ----- Examples

  // The integer 128, the bit string of section 8.6.4.2 of X.690 with stray bits behind it, and the
  // start of a sequence of 513 octets
  lemma KnownElements()
    ensures Element(INTEGER, MpiContent(1, 128)) == [0x02, 0x02, 0x00, 0x80]
    ensures Element(BIT_STRING, BitContent([0x0A, 0x3B, 0x5F, 0x29, 0x1C, 0xDF], 44))
            == [0x03, 0x07, 0x04, 0x0A, 0x3B, 0x5F, 0x29, 0x1C, 0xD0]
    ensures Header(SEQUENCE, 0x201) == [0x30, 0x82, 0x02, 0x01]
  {
    hide BeBytes, Pow2, ClearLow;
    assert NumBytes(128) == 1 && NumBytes(0x201) == 2 by { assert NumBytes(0) == 0 && NumBytes(2) == 1; }
    ShownBytes(128);
    ShownBytes(0x201);
    assert ClearLow(0xDF, 4) == 0xD0 by { FourLowBits(); }
    var src: seq<Byte> := [0x0A, 0x3B, 0x5F, 0x29, 0x1C, 0xDF];
    assert BitBytes(src, 6, 4) == src[..5] + [0xD0];
  }

  lemma ShownBytes(v: nat)
    ensures v < 0x1_0000 ==> BeBytes(v, 2) == [v / 256, v % 256]
    ensures v < 256 ==> BeBytes(v, 1) == [v]
  {
    hide BeBytes;
    BeBytesMore(v, 1);
    BeBytesMore(v, 0);
    NoBytes(v);
    SmallPow2();
  }

  lemma FourLowBits()
    ensures ClearLow(0xDF, 4) == 0xD0
  {
    assert Pow2(4) == 16;
  }

  // ----- Sequences

  // s is one element: a tag, a length and as much content
  predicate IsElement(s: seq<Byte>)
  {
    |s| > 0 && ParseLen(s[1..]).LenOk? && 1 + ParseLen(s[1..]).used + ParseLen(s[1..]).len == |s|
  }

  function ContentOf(e: seq<Byte>): seq<Byte>
    requires IsElement(e)
  {
    e[1 + ParseLen(e[1..]).used..]
  }

  // A parsed element stands on its own
  lemma {:induction false} ElementAlone(s: seq<Byte>, n: nat)
    requires |s| > 0 && ParseLen(s[1..]).LenOk? && n == 1 + ParseLen(s[1..]).used + ParseLen(s[1..]).len
    ensures n <= |s| && IsElement(s[..n]) && ParseLen(s[..n][1..]) == ParseLen(s[1..])
  {
    hide Be;
    var t, r := s[1..], ParseLen(s[1..]);
    var u := s[..n][1..];
    assert u == t[..n - 1] && u[0] == t[0];
    if t[0] >= 0x80 {
      var k := t[0] - 0x80;
      assert u[1..1 + k] == t[1..1 + k];
    }
  }

  // The same element is found with anything behind it
  lemma {:induction false} ElementAhead(e: seq<Byte>, rest: seq<Byte>)
    requires IsElement(e)
    ensures ParseLen((e + rest)[1..]) == ParseLen(e[1..])
  {
    hide Be;
    var t, u := e[1..], (e + rest)[1..];
    assert u == t + rest && u[0] == t[0];
    if t[0] >= 0x80 {
      var k := t[0] - 0x80;
      assert u[1..1 + k] == t[1..1 + k];
    }
  }

  // The tags a traversal demands and those it reports to the callback, which has a state and
  // stops the traversal with a code other than 0
  datatype Filter<!S> = Filter(mustMask: Byte, mustVal: Byte, mayMask: Byte, mayVal: Byte,
                                cb: (S, Byte, seq<Byte>) -> (int, S))
  {
    predicate Demanded(tag: Byte) { Bits.And(tag, mustMask) == mustVal }
    predicate Reported(tag: Byte) { Bits.And(tag, mayMask) == mayVal }

    // The callback, if it is called
    function Report(st: S, tag: Byte, content: seq<Byte>): (int, S)
    {
      if Reported(tag) then cb(st, tag, content) else (0, st)
    }
  }

  // What a traversal makes of the first element of s
  function Visit<S>(s: seq<Byte>, f: Filter<S>, st: S): (ParseStatus, S)
    requires |s| > 0
  {
    if !f.Demanded(s[0]) then (UnexpectedTag, st)
    else match ParseLen(s[1..])
         case LenOk(l, u) =>
           var (code, st') := f.Report(st, s[0], s[1 + u..1 + u + l]);
           (if code != 0 then CallbackFailed(code) else Parsed, st')
         case LenShort => (OutOfData, st)
         case LenInvalid => (InvalidLength, st)
  }

  // The size of the first element of s
  function Size(s: seq<Byte>): (n: nat)
    requires |s| > 0 && ParseLen(s[1..]).LenOk?
    ensures 2 <= n <= |s|
  {
    1 + ParseLen(s[1..]).used + ParseLen(s[1..]).len
  }

  // What it makes of all of s
  function Walk<S>(s: seq<Byte>, f: Filter<S>, st: S): (ParseStatus, S)
    decreases |s|
  {
    if s == [] then (Parsed, st)
    else
      var (ret, st') := Visit(s, f, st);
      if ret != Parsed then (ret, st') else Walk(s[Size(s)..], f, st')
  }

  // Whether all of the elements are in order, and the state of the callback after them
  function Feed<S>(elements: seq<seq<Byte>>, f: Filter<S>, st: S): (bool, S)
    decreases |elements|
  {
    if elements == [] then (true, st)
    else
      var e := elements[0];
      if !IsElement(e) || Bits.And(e[0], f.mustMask) != f.mustVal then (false, st)
      else
        var (code, st') := if Bits.And(e[0], f.mayMask) == f.mayVal then f.cb(st, e[0], ContentOf(e)) else (0, st);
        if code != 0 then (false, st') else Feed(elements[1..], f, st')
  }

  ghost predicate Tiles<S>(elements: seq<seq<Byte>>, s: seq<Byte>, f: Filter<S>, st: S)
  {
    s == Concat(elements) && Feed(elements, f, st).0
  }

  // A traversal succeeds exactly on a row of elements, each with a tag as demanded, each
  // reported one taken by the callback; the callback has then seen these and no others, in order
  lemma {:induction false} WalkMeaning<S>(s: seq<Byte>, f: Filter<S>, st: S)
    ensures Walk(s, f, st).0 == Parsed <==> exists elements :: Tiles(elements, s, f, st)
    ensures forall elements :: Tiles(elements, s, f, st) ==> Walk(s, f, st).1 == Feed(elements, f, st).1
  {
    hide Walk, Tiles, Feed;
    if Walk(s, f, st).0 == Parsed {
      var elements := WalkTiles(s, f, st);
    }
    forall elements | Tiles(elements, s, f, st)
      ensures Walk(s, f, st) == (Parsed, Feed(elements, f, st).1)
    {
      WalkOver(elements, s, f, st);
    }
  }

  lemma {:induction false} WalkOver<S>(elements: seq<seq<Byte>>, s: seq<Byte>, f: Filter<S>, st: S)
    requires Tiles(elements, s, f, st)
    ensures Walk(s, f, st) == (Parsed, Feed(elements, f, st).1)
    decreases |elements|
  {
    hide Walk, ParseLen, Visit, Bits.And;
    if |elements| == 0 {
      WalkEmpty(f, st);
    } else {
      var e, others := elements[0], elements[1..];
      assert elements == [e] + others;
      ConcatFirst(e, others);
      var (code, st') := f.Report(st, e[0], ContentOf(e));
      WalkOver(others, Concat(others), f, st');
      WalkOne(e, Concat(others), f, st);
    }
  }

  lemma WalkEmpty<S>(f: Filter<S>, st: S)
    ensures Walk([], f, st) == (Parsed, st)
  {
  }

  lemma {:induction false} WalkOne<S>(e: seq<Byte>, rest: seq<Byte>, f: Filter<S>, st: S)
    requires IsElement(e) && f.Demanded(e[0]) && f.Report(st, e[0], ContentOf(e)).0 == 0
    ensures Walk(e + rest, f, st) == Walk(rest, f, f.Report(st, e[0], ContentOf(e)).1)
  {
    hide ParseLen, Filter.Demanded, Filter.Reported;
    ElementAhead(e, rest);
    var s, r := e + rest, ParseLen(e[1..]);
    assert s[0] == e[0];
    assert s[1 + r.used..1 + r.used + r.len] == ContentOf(e);
    assert s[Size(s)..] == rest;
  }

  lemma {:induction false} WalkTiles<S>(s: seq<Byte>, f: Filter<S>, st: S) returns (elements: seq<seq<Byte>>)
    requires Walk(s, f, st).0 == Parsed
    ensures Tiles(elements, s, f, st)
    decreases |s|
  {
    hide IsElement, ParseLen, Bits.And;
    elements := [];
    if s != [] {
      var n := Size(s);
      var rest := WalkTiles(s[n..], f, Visit(s, f, st).1);
      ElementAlone(s, n);
      var e := s[..n];
      assert e[0] == s[0] && ContentOf(e) == s[1 + ParseLen(s[1..]).used..n];
      elements := [e] + rest;
      assert elements[1..] == rest;
      ConcatFirst(e, rest);
      assert s == e + s[n..];
    }
  }

  lemma {:induction false} ConcatFirst(e: seq<Byte>, rest: seq<seq<Byte>>)
    ensures Concat([e] + rest) == e + Concat(rest)
    decreases |rest|
  {
    var all := [e] + rest;
    if |rest| == 0 {
      assert all[..0] == [] && Concat(all) == [] + e;
    } else {
      var n := |rest| - 1;
      assert all[..n + 1] == [e] + rest[..n];
      ConcatFirst(e, rest[..n]);
    }
  }

  // Walk through a sequence that fills the data
  method TraverseSequenceOf<S>(data: seq<Byte>, p0: nat, f: Filter<S>, st0: S) returns (ret: ParseStatus, p: nat, st: S)
    requires p0 <= |data|
    ensures var (head, len, h) := ParseTag(data[p0..], SEQUENCE);
            if head != Parsed then ret == head && st == st0
            else p0 + h + len <= |data| &&
                 (ret, st) == if p0 + h + len != |data| then (LengthMismatch, st0) else Walk(data[p0 + h..], f, st0)
    ensures ret == Parsed ==> p == |data|
  {
    hide ParseTag, ParseLen, Visit, Size, Walk;
    ParseTagRoom(data[p0..], SEQUENCE);
    var len;
    st := st0;
    ret, p, len := GetTag(data, p0, SEQUENCE);
    if ret != Parsed {
      return;
    }
    if p + len != |data| {
      return LengthMismatch, p, st;
    }
    ghost var body := data[p..];
    while p < |data|
      invariant p <= |data| && Walk(body, f, st0) == Walk(data[p..], f, st)
      decreases |data| - p
    {
      WalkStep(data[p..], f, st);
      var start := p;
      ret, p, st := VisitOne(data, p, f, st);
      if ret != Parsed {
        return;
      }
      assert data[start..][p - start..] == data[p..];
    }
    assert data[p..] == [];
    WalkEmpty(f, st);
    ret := Parsed;
  }

  lemma WalkStep<S>(s: seq<Byte>, f: Filter<S>, st: S)
    requires |s| > 0
    ensures Visit(s, f, st).0 == Parsed ==> ParseLen(s[1..]).LenOk?
    ensures var r := Visit(s, f, st); Walk(s, f, st) == if r.0 == Parsed then Walk(s[Size(s)..], f, r.1) else r
  {
    hide ParseLen, Filter.Demanded, Filter.Reported;
  }

  method VisitOne<S>(data: seq<Byte>, p0: nat, f: Filter<S>, st0: S) returns (ret: ParseStatus, p: nat, st: S)
    requires p0 < |data|
    ensures (ret, st) == Visit(data[p0..], f, st0)
    ensures ret == Parsed ==> ParseLen(data[p0..][1..]).LenOk? && p == p0 + Size(data[p0..])
  {
    hide ParseLen, Bits.And;
    p, st := p0, st0;
    var tag := data[p];
    p := p + 1;
    if Bits.And(tag, f.mustMask) != f.mustVal {
      return UnexpectedTag, p, st;
    }
    ghost var s := data[p0..];
    assert s[1..] == data[p..];
    var len;
    ret, p, len := GetLen(data, p);
    if ret != Parsed {
      return;
    }
    assert s[p - p0..p - p0 + len] == data[p..p + len];
    if Bits.And(tag, f.mayMask) == f.mayVal {
      var (code, next) := f.cb(st, tag, data[p..p + len]);
      st := next;
      if code != 0 {
        return CallbackFailed(code), p, st;
      }
    }
    p := p + len;
  }
}
