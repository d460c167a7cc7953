/**
 Base64 (base64.c): encoding into a buffer, and decoding in two passes, one that validates and
 counts and one that converts.
 */
module Base64 {
  import opened Arith
  import opened Bytes

  // The characters the code treats specially
  const LF: Byte := 10
  const CR: Byte := 13
  const SPACE: Byte := 32
  const EQUALS: Byte := 61

  datatype Status = Success | InvalidCharacter | BufferTooSmall | CorruptionDetected

  // ----- Digits

  type Sextet = v: nat | v < 64

  // The ranges do not overlap, so the masks of the code add up to one choice
  function EncChar(v: Sextet): (c: Byte)
    ensures 43 <= c < 128 && c != EQUALS
  {
    if v <= 25 then 65 + v
    else if v <= 51 then 97 + v - 26
    else if v <= 61 then 48 + v - 52
    else if v == 62 then 43
    else 47
  }

  // The value of a digit, -1 for anything else
  function DecValue(c: Byte): (v: int)
    ensures -1 <= v < 64
  {
    if 65 <= c <= 90 then c - 65
    else if 97 <= c <= 122 then c - 97 + 26
    else if 48 <= c <= 57 then c - 48 + 52
    else if c == 43 then 62
    else if c == 47 then 63
    else -1
  }

  lemma DecEnc(v: Sextet)
    ensures DecValue(EncChar(v)) == v
  {
  }

  // Table 1 of RFC 4648
  const ALPHABET: string := "ABCDEFGHIJKLMNOP" + "QRSTUVWXYZabcdef" + "ghijklmnopqrstuv" + "wxyz0123456789+/"

  lemma Alphabet(v: Sextet)
    ensures |ALPHABET| == 64 && EncChar(v) == ALPHABET[v] as int
  {
    var a, b, c, d := "ABCDEFGHIJKLMNOP", "QRSTUVWXYZabcdef", "ghijklmnopqrstuv", "wxyz0123456789+/";
    assert ALPHABET == a + b + c + d;
    if v < 16 { assert ALPHABET[v] == a[v]; }
    else if v < 32 { assert ALPHABET[v] == b[v - 16]; }
    else if v < 48 { assert ALPHABET[v] == c[v - 32]; }
    else { assert ALPHABET[v] == d[v - 48]; }
  }

  // The digits are the characters of the alphabet and no others
  lemma EncDec(c: Byte)
    ensures DecValue(c) >= 0 <==> exists v: Sextet :: c == EncChar(v)
    ensures DecValue(c) >= 0 ==> EncChar(DecValue(c)) == c
  {
    if DecValue(c) >= 0 {
      assert c == EncChar(DecValue(c));
    }
  }

  lemma DigitIsPlain(c: Byte)
    requires DecValue(c) >= 0
    ensures c != LF && c != CR && c != SPACE && c != EQUALS && c <= 127
  {
  }

  // ----- The encoding

  function Group(c1: Byte, c2: Byte, c3: Byte): (s: seq<Byte>)
    ensures |s| == 4
  {
    [EncChar(c1 / 4), EncChar(c1 % 4 * 16 + c2 / 16), EncChar(c2 % 16 * 4 + c3 / 64), EncChar(c3 % 64)]
  }

  // Three bytes at a time; the last group is completed with zeros and marked with '='
  function Encoded(s: seq<Byte>): (r: seq<Byte>)
    ensures |r| == (|s| + 2) / 3 * 4
  {
    if |s| == 0 then []
    else if |s| == 1 then Group(s[0], 0, 0)[..2] + [EQUALS, EQUALS]
    else if |s| == 2 then Group(s[0], s[1], 0)[..3] + [EQUALS]
    else Group(s[0], s[1], s[2]) + Encoded(s[3..])
  }

  lemma {:induction false} EncodedAppend(s: seq<Byte>, t: seq<Byte>)
    requires |s| % 3 == 0
    ensures Encoded(s + t) == Encoded(s) + Encoded(t)
    decreases |s|
  {
    hide Group;
    if |s| == 0 {
      assert s + t == t;
    } else {
      assert (s + t)[3..] == s[3..] + t;
      EncodedAppend(s[3..], t);
    }
  }

  const SIZE_MAX: nat

  // The encoding and a terminating zero; without a destination only the size
  method Encode(dst: array?<Byte>, src: seq<Byte>) returns (ret: Status, olen: nat)
    modifies dst
    ensures |src| == 0 ==> ret == Success && olen == 0
    ensures |src| > 0 ==> var n := |Encoded(src)|;
              && ret == (if n / 4 > (SIZE_MAX - 1) / 4 || dst == null || dst.Length < n + 1 then BufferTooSmall
                         else Success)
              && (ret == Success ==> olen == n && n < dst.Length && dst[..n] == Encoded(src) && dst[n] == 0)
              && (ret != Success ==> olen == if n / 4 <= (SIZE_MAX - 1) / 4 then n + 1 else SIZE_MAX)
    ensures dst != null && (|src| == 0 || ret != Success) ==> dst[..] == old(dst[..])
  {
    hide Group, Encoded;
    if |src| == 0 {
      return Success, 0;
    }
    var n := |src| / 3 + if |src| % 3 != 0 then 1 else 0;
    if n > (SIZE_MAX - 1) / 4 {
      return BufferTooSmall, SIZE_MAX;
    }
    n := n * 4;
    if dst == null || dst.Length < n + 1 {
      return BufferTooSmall, n + 1;
    }
    olen := WriteGroups(dst, src);
    ghost var d := dst[..olen];
    dst[olen] := 0;
    assert dst[..olen] == d;
    return Success, olen;
  }

  // The whole groups, then the partial one
  method WriteGroups(dst: array<Byte>, src: seq<Byte>) returns (p: nat)
    requires (|src| + 2) / 3 * 4 <= dst.Length
    modifies dst
    ensures p == |Encoded(src)| && dst[..p] == Encoded(src)
  {
    hide Group, Encoded;
    var i;
    i, p := WriteWholeGroups(dst, src);
    if i < |src| {
      var t := src[i..];
      LastGroup(t);
      var g := if i + 1 < |src| then Group(src[i], src[i + 1], 0)[..3] + [EQUALS]
               else Group(src[i], 0, 0)[..2] + [EQUALS, EQUALS];
      PutGroup(dst, p, g, src[..i], t);
      assert src[..i] + t == src;
      p := p + 4;
    } else {
      assert src[..i] == src;
    }
  }

  method WriteWholeGroups(dst: array<Byte>, src: seq<Byte>) returns (i: nat, p: nat)
    requires (|src| + 2) / 3 * 4 <= dst.Length
    modifies dst
    ensures i == |src| / 3 * 3 && p == i / 3 * 4 && dst[..p] == Encoded(src[..i])
  {
    hide Group, Encoded;
    var n := |src| / 3 * 3;
    i, p := 0, 0;
    NoGroup();
    assert src[..0] == [] && dst[..0] == [];
    while i < n
      invariant 0 <= i <= n && i % 3 == 0 && p == i / 3 * 4 && dst[..p] == Encoded(src[..i])
    {
      OneGroup(src[i..i + 3]);
      PutGroup(dst, p, Group(src[i], src[i + 1], src[i + 2]), src[..i], src[i..i + 3]);
      assert src[..i] + src[i..i + 3] == src[..i + 3];
      p := p + 4;
      i := i + 3;
    }
  }

  lemma NoGroup()
    ensures Encoded([]) == []
  {
  }

  lemma LastGroup(t: seq<Byte>)
    requires 1 <= |t| <= 2
    ensures Encoded(t) == if |t| == 2 then Group(t[0], t[1], 0)[..3] + [EQUALS]
                          else Group(t[0], 0, 0)[..2] + [EQUALS, EQUALS]
  {
    hide Group;
  }

  lemma OneGroup(s: seq<Byte>)
    requires |s| == 3
    ensures Encoded(s) == Group(s[0], s[1], s[2])
  {
    hide Group;
    assert s[3..] == [];
    assert Encoded(s) == Group(s[0], s[1], s[2]) + [];
  }

  // Four more characters
  method PutGroup(dst: array<Byte>, p: nat, g: seq<Byte>, ghost s: seq<Byte>, ghost t: seq<Byte>)
    requires p + 4 <= dst.Length && |g| == 4 && dst[..p] == Encoded(s) && |s| % 3 == 0 && g == Encoded(t)
    modifies dst
    ensures dst[..p + 4] == Encoded(s + t)
  {
    hide Encoded;
    EncodedAppend(s, t);
    ghost var d := dst[..p];
    dst[p], dst[p + 1], dst[p + 2], dst[p + 3] := g[0], g[1], g[2], g[3];
    assert dst[..p + 4] == d + g;
  }

  // ----- What the first pass accepts

  predicate Blank(c: Byte)
  {
    c == LF || c == CR || c == SPACE
  }

  // The characters that are not blank
  function Significant(s: seq<Byte>): (r: seq<Byte>)
    ensures |r| <= |s|
  {
    if |s| == 0 then []
    else if Blank(s[|s| - 1]) then Significant(s[..|s| - 1])
    else Significant(s[..|s| - 1]) + [s[|s| - 1]]
  }

  // A carriage return starts a line end, a space stands before a line end or at the end
  predicate LayoutAt(s: seq<Byte>, j: nat)
    requires j < |s|
  {
    && (s[j] == CR ==> j + 1 < |s| && s[j + 1] == LF)
    && (s[j] == SPACE ==> j + 1 == |s| || Blank(s[j + 1]))
  }

  predicate Layout(s: seq<Byte>)
  {
    forall j :: 0 <= j < |s| ==> LayoutAt(s, j)
  }

  // Spaces and breaks before a line end or at the end are taken, others are not
  lemma KnownLayouts()
    ensures Layout([65, 66, SPACE, SPACE, CR, LF, 67, LF, 68, SPACE])
    ensures !Layout([65, SPACE, 66]) && !Layout([65, CR, 66]) && !Layout([65, CR])
  {
    assert !LayoutAt([65, SPACE, 66], 1) && !LayoutAt([65, CR, 66], 1) && !LayoutAt([65, CR], 1);
  }

  // Digits, then e equal signs
  predicate Shape(t: seq<Byte>, e: nat)
  {
    && e <= |t| && e <= 2
    && (forall k :: 0 <= k < |t| - e ==> DecValue(t[k]) >= 0)
    && (forall k :: |t| - e <= k < |t| ==> t[k] == EQUALS)
  }

  lemma {:induction false} SignificantPrefix(s: seq<Byte>, i: nat)
    requires i <= |s|
    ensures Significant(s[..i]) <= Significant(s)
    decreases |s|
  {
    if i == |s| {
      assert s[..i] == s;
    } else {
      var k := |s| - 1;
      assert s[..k][..i] == s[..i];
      SignificantPrefix(s[..k], i);
    }
  }

  lemma SignificantNext(s: seq<Byte>, i: nat)
    requires i < |s|
    ensures Blank(s[i]) ==> Significant(s[..i + 1]) == Significant(s[..i])
    ensures !Blank(s[i]) ==> Significant(s[..i + 1]) == Significant(s[..i]) + [s[i]]
  {
    assert s[..i + 1][..i] == s[..i];
  }

  // A prefix that ends badly spoils the whole
  lemma {:induction false} BadEnd(s: seq<Byte>, i: nat, e: nat, f: nat)
    requires i < |s| && !Blank(s[i]) && Shape(Significant(s[..i]), e)
    requires (s[i] == EQUALS && e == 2) || (s[i] != EQUALS && (e > 0 || DecValue(s[i]) < 0))
    ensures !Shape(Significant(s), f)
  {
    hide Significant, DecValue;
    SignificantNext(s, i);
    SignificantPrefix(s, i + 1);
    var p, t := Significant(s[..i]), Significant(s);
    EqualsIsNoDigit();
    assert t[|p|] == s[i];
    assert forall k :: 0 <= k < |p| ==> t[k] == p[k];
    if e > 0 {
      assert t[|p| - 1] == EQUALS;
      if e == 2 { assert t[|p| - 2] == EQUALS; }
    }
  }

  lemma EqualsIsNoDigit()
    ensures DecValue(EQUALS) < 0
  {
  }

  lemma ShapeMore(t: seq<Byte>, e: nat, c: Byte)
    requires Shape(t, e) && (if c == EQUALS then e < 2 else e == 0 && DecValue(c) >= 0)
    ensures Shape(t + [c], if c == EQUALS then e + 1 else 0)
  {
    hide DecValue;
  }

  // The layout is right up to position i
  predicate LayoutBefore(s: seq<Byte>, i: nat)
  {
    i <= |s| && forall j :: 0 <= j < i ==> LayoutAt(s, j)
  }

  // Skip spaces
  method SkipSpaces(s: seq<Byte>, i0: nat) returns (i: nat)
    requires i0 <= |s|
    ensures i0 <= i <= |s| && (i < |s| ==> s[i] != SPACE) && forall j :: i0 <= j < i ==> s[j] == SPACE
    ensures Significant(s[..i]) == Significant(s[..i0])
    ensures forall j :: i0 <= j < i - 1 ==> LayoutAt(s, j)
  {
    i := i0;
    while i < |s| && s[i] == SPACE
      invariant i0 <= i <= |s| && forall j :: i0 <= j < i ==> s[j] == SPACE
      invariant Significant(s[..i]) == Significant(s[..i0])
    {
      SignificantNext(s, i);
      i := i + 1;
    }
  }

  // The first pass: layout and shape, with the number of characters and of equal signs
  method Validate(s: seq<Byte>) returns (ok: bool, n: nat, equals: nat)
    ensures ok <==> Layout(s) && exists e :: Shape(Significant(s), e)
    ensures ok ==> n == |Significant(s)| && Shape(Significant(s), equals)
  {
    hide Significant, DecValue, Shape;
    var i := 0;
    n, equals := 0, 0;
    NoneYet(s);
    while i < |s|
      invariant 0 <= i <= |s| && LayoutBefore(s, i)
      invariant n == |Significant(s[..i])| && Shape(Significant(s[..i]), equals) && equals <= 2
    {
      var j := SkipSpaces(s, i);
      var spaces := j > i;
      i := j;
      if i == |s| {
        break;
      }
      SignificantNext(s, i);
      if |s| - i >= 2 && s[i] == CR && s[i + 1] == LF {
        i := i + 1;
        continue;
      }
      if s[i] == LF {
        i := i + 1;
        continue;
      }
      LayoutBroken(s, i, spaces);
      if spaces {
        return false, n, equals;
      }
      if s[i] > 127 {
        Rejected(s, i, equals);
        return false, n, equals;
      }
      if s[i] == EQUALS {
        Rejected(s, i, equals);
        equals := equals + 1;
        if equals > 2 {
          return false, n, equals;
        }
      } else {
        if !Blank(s[i]) { Rejected(s, i, equals); }
        if equals != 0 {
          return false, n, equals;
        }
        if DecValue(s[i]) < 0 {
          return false, n, equals;
        }
        DigitIsPlain(s[i]);
      }
      if s[i] == EQUALS {
        ShapeMore(Significant(s[..i]), equals - 1, s[i]);
      } else {
        ShapeMore(Significant(s[..i]), equals, s[i]);
      }
      n := n + 1;
      i := i + 1;
    }
    assert s[..i] == s;
    return true, n, equals;
  }

  lemma NoneYet(s: seq<Byte>)
    ensures Significant(s[..0]) == [] && Shape([], 0)
  {
  }

  // A space before anything but a line end, or a lone carriage return
  lemma LayoutBroken(s: seq<Byte>, i: nat, spaces: bool)
    requires i < |s| && s[i] != SPACE && s[i] != LF && !(|s| - i >= 2 && s[i] == CR && s[i + 1] == LF)
    ensures s[i] == CR ==> !Layout(s)
    ensures spaces && i > 0 && s[i - 1] == SPACE ==> !Layout(s)
  {
    if s[i] == CR { assert !LayoutAt(s, i); }
    if i > 0 && s[i - 1] == SPACE && s[i] != CR { assert !LayoutAt(s, i - 1); }
  }

  // What the code rejects has no valid continuation
  lemma Rejected(s: seq<Byte>, i: nat, e: nat)
    requires i < |s| && !Blank(s[i]) && Shape(Significant(s[..i]), e)
    ensures (s[i] == EQUALS && e == 2) || (s[i] != EQUALS && (e > 0 || DecValue(s[i]) < 0)) ==>
              forall f :: !Shape(Significant(s), f)
    ensures s[i] > 127 ==> s[i] != EQUALS && DecValue(s[i]) < 0
  {
    hide Significant, Shape;
    if (s[i] == EQUALS && e == 2) || (s[i] != EQUALS && (e > 0 || DecValue(s[i]) < 0)) {
      forall f: nat
        ensures !Shape(Significant(s), f)
      {
        BadEnd(s, i, e, f);
      }
    }
  }

  // ----- The decoding

  // The number the digits stand for
  function Value64(d: seq<Byte>): nat
  {
    if |d| == 0 then 0 else Value64(d[..|d| - 1]) * 64 + if DecValue(d[|d| - 1]) < 0 then 0 else DecValue(d[|d| - 1])
  }

  // BYTE_2, BYTE_1 and BYTE_0
  function ByteOf(x: nat, k: nat): Byte
    requires k <= 2
  {
    if k == 2 then x / 0x1_0000 % 256 else if k == 1 then x / 256 % 256 else x % 256
  }

  function Three(x: nat): (s: seq<Byte>)
    ensures |s| == 3
  {
    [ByteOf(x, 2), ByteOf(x, 1), ByteOf(x, 0)]
  }

  // Whole groups of four digits
  function DecodedGroups(d: seq<Byte>): (r: seq<Byte>)
    requires |d| % 4 == 0
    ensures |r| == |d| / 4 * 3
  {
    if |d| == 0 then [] else DecodedGroups(d[..|d| - 4]) + Three(Value64(d[|d| - 4..]))
  }

  // All digits: three left over give two bytes, two give one
  function Decoded(d: seq<Byte>): (r: seq<Byte>)
    ensures |r| == |d| / 4 * 3 + (if |d| % 4 == 3 then 2 else if |d| % 4 == 2 then 1 else 0)
  {
    var k := |d| % 4;
    var x := Value64(d[|d| - k..]);
    DecodedGroups(d[..|d| - k])
    + if k == 3 then [ByteOf(x * 64, 2), ByteOf(x * 64, 1)] else if k == 2 then [ByteOf(x * 0x1000, 2)] else []
  }

  // 64^k
  function Pow64(k: nat): nat
    requires k <= 4
  {
    match k case 0 => 1 case 1 => 64 case 2 => 0x1000 case 3 => 0x4_0000 case _ => 0x100_0000
  }

  const WORD32: nat := 0x1_0000_0000

  // Shifting left within 32 bits keeps the low part: x = v modulo q, and q * f divides 2^32
  lemma ShiftedLow(x: nat, v: nat, q: nat, f: nat, m: nat)
    requires q > 0 && f > 0 && WORD32 == m * (q * f) && v < q && x % q == v
    ensures q * f > 0 && x * f % WORD32 % (q * f) == v * f < q * f
    ensures 0 <= x * f % WORD32 < WORD32
  {
    assert WORD32 > 0;
    hide WORD32;
    MulLe(1, q, 1, f);
    var w := q * f;
    DivModBasics(x, q);
    var a := x / q;
    MulDistrib(f, a * q, v);
    MulAssoc(a, q, f);
    assert x * f == a * w + v * f;
    MulLt(v, q, f);
    MulLe(0, v, 0, f);
    DivModUnique(x * f, w, a, v * f);
    DivModBasics(x * f, WORD32);
    var b := x * f / WORD32;
    MulAssoc(b, m, w);
    CongFromMultiple(x * f, x * f % WORD32, b * m, w);
  }

  lemma Pow64Divides(k: nat) returns (m: nat)
    requires k < 4
    ensures WORD32 == m * (Pow64(k) * 64) && Pow64(k + 1) == Pow64(k) * 64
  {
    m := match k case 0 => 0x400_0000 case 1 => 0x10_0000 case 2 => 0x4000 case _ => 0x100;
  }

  // The accumulator keeps the digits of the group in its low bits; the shift drops high ones
  lemma {:induction false} AccumulatorStep(x: nat, v: nat, k: nat, w: Sextet)
    requires k < 4 && x < WORD32 && v < Pow64(k) && x % Pow64(k) == v
    ensures x * 64 % WORD32 + w < WORD32
    ensures (x * 64 % WORD32 + w) % Pow64(k + 1) == v * 64 + w < Pow64(k + 1)
  {
    var m := Pow64Divides(k);
    ShiftedLow(x, v, Pow64(k), 64, m);
    var y, t := x * 64 % WORD32, Pow64(k) * 64;
    DivModBasics(y, t);
    var a := y / t;
    DivModUnique(y + w, t, a, v * 64 + w);
    MultipleOf64(x, y);
  }

  lemma MultipleOf64(x: nat, y: nat)
    requires y == x * 64 % WORD32
    ensures y + 63 < WORD32
  {
    ShiftedLow(x, 0, 1, 64, 0x400_0000);
    assert y % 64 == 0;
  }

  lemma {:induction false} GroupBytes(x: nat, v: nat)
    requires v < 0x100_0000 && x % 0x100_0000 == v
    ensures Three(x) == Three(v)
  {
    var a := x / 0x100_0000;
    assert x == v + a * 0x100_0000;
    ModAddMultiple(v, a * 256, 0x1_0000);
    ModAddMultiple(v / 0x1_0000, a, 256);
    ModAddMultiple(v, a * 0x1_0000, 256);
    ModAddMultiple(v / 256, a * 256, 256);
  }

  lemma {:induction false} TailBytes(x: nat, v: nat)
    ensures v < 0x4_0000 && x % 0x4_0000 == v ==>
              ByteOf(x * 64 % WORD32, 2) == ByteOf(v * 64, 2) && ByteOf(x * 64 % WORD32, 1) == ByteOf(v * 64, 1)
    ensures v < 0x1000 && x % 0x1000 == v ==> ByteOf(x * 0x1000 % WORD32, 2) == ByteOf(v * 0x1000, 2)
  {
    hide ByteOf;
    if v < 0x4_0000 && x % 0x4_0000 == v {
      ShiftedLow(x, v, 0x4_0000, 64, 0x100);
      GroupBytes(x * 64 % WORD32, v * 64);
    }
    if v < 0x1000 && x % 0x1000 == v {
      ShiftedLow(x, v, 0x1000, 0x1000, 0x100);
      GroupBytes(x * 0x1000 % WORD32, v * 0x1000);
    }
  }

  lemma ValueNext(d: seq<Byte>, i: nat, c: Byte)
    requires i <= |d| && DecValue(c) >= 0
    ensures Value64((d + [c])[i..]) == Value64(d[i..]) * 64 + DecValue(c)
  {
    var e := (d + [c])[i..];
    assert e[..|e| - 1] == d[i..] && e[|e| - 1] == c;
  }

  // The state of the second pass: digits d read, whole groups written, the rest in x
  ghost predicate Reading(d: seq<Byte>, x: nat, k: nat, out: seq<Byte>)
  {
    && k == |d| % 4 && x < WORD32
    && out == DecodedGroups(d[..|d| - k])
    && x % Pow64(k) == Value64(d[|d| - k..]) < Pow64(k)
  }

  lemma ReadingStart()
    ensures Reading([], 0, 0, [])
  {
  }

  lemma {:induction false} ReadingDigit(d: seq<Byte>, x: nat, k: nat, out: seq<Byte>, c: Byte)
    requires Reading(d, x, k, out) && DecValue(c) >= 0
    ensures var y := x * 64 % WORD32 + DecValue(c);
            y < WORD32 && if k < 3 then Reading(d + [c], y, k + 1, out) else Reading(d + [c], y, 0, out + Three(y))
  {
    hide DecValue, Value64, Three, DecodedGroups;
    var v := Value64(d[|d| - k..]);
    AccumulatorStep(x, v, k, DecValue(c));
    ReadingWith(d, k, out, c, v, x * 64 % WORD32 + DecValue(c));
  }

  lemma {:induction false} ReadingWith(d: seq<Byte>, k: nat, out: seq<Byte>, c: Byte, v: nat, y: nat)
    requires k == |d| % 4 && v == Value64(d[|d| - k..]) && out == DecodedGroups(d[..|d| - k]) && DecValue(c) >= 0
    requires y < WORD32 && y % Pow64(k + 1) == v * 64 + DecValue(c) < Pow64(k + 1)
    ensures if k < 3 then Reading(d + [c], y, k + 1, out) else Reading(d + [c], y, 0, out + Three(y))
  {
    hide DecValue, Value64, Three, DecodedGroups, WORD32, Pow64;
    var e, i := d + [c], |d| - k;
    ValueNext(d, i, c);
    assert e[..i] == d[..i];
    if k == 3 {
      GroupDone(e, i, y, v * 64 + DecValue(c), out);
    }
  }

  lemma GroupDone(e: seq<Byte>, i: nat, y: nat, v: nat, out: seq<Byte>)
    requires |e| == i + 4 && i % 4 == 0 && y < WORD32 && v == Value64(e[i..]) < Pow64(4) && y % Pow64(4) == v
    requires out == DecodedGroups(e[..i])
    ensures Reading(e, y, 0, out + Three(y))
  {
    hide Value64, Three, DecodedGroups, WORD32;
    assert e[..|e|] == e;
    GroupBytes(y, v);
    WholeGroup(e, i);
    NoValue(e);
  }

  lemma WholeGroup(e: seq<Byte>, i: nat)
    requires |e| == i + 4 && i % 4 == 0
    ensures DecodedGroups(e) == DecodedGroups(e[..i]) + Three(Value64(e[i..]))
  {
    hide Three, Value64;
  }

  lemma NoValue(e: seq<Byte>)
    ensures Value64(e[|e|..]) == 0
  {
  }

  // The bytes of the last, partial group
  lemma ReadingEnd(d: seq<Byte>, x: nat, k: nat, out: seq<Byte>)
    requires Reading(d, x, k, out)
    ensures k == 3 ==> Decoded(d) == out + [ByteOf(x * 64 % WORD32, 2), ByteOf(x * 64 % WORD32, 1)]
    ensures k == 2 ==> Decoded(d) == out + [ByteOf(x * 0x1000 % WORD32, 2)]
    ensures k < 2 ==> Decoded(d) == out
  {
    hide DecodedGroups, Value64, ByteOf;
    TailBytes(x, Value64(d[|d| - k..]));
  }

  // The second pass
  method Convert(dst: array<Byte>, s: seq<Byte>, ghost e: nat) returns (p: nat)
    requires Shape(Significant(s), e) && |Decoded(Significant(s)[..|Significant(s)| - e])| <= dst.Length
    modifies dst
    ensures var d := Significant(s)[..|Significant(s)| - e];
            p == |Decoded(d)| && dst[..p] == Decoded(d)
  {
    hide Significant, DecValue, Shape, Reading, Decoded, Three;
    ghost var t := Significant(s);
    ShapeSize(t, e);
    ghost var d := t[..|t| - e];
    var x: nat, k: nat := 0, 0;
    p := 0;
    ReadingStart();
    NoneYet(s);
    DecodedSize(d);
    assert dst[..0] == [];
    var i := 0;
    while i < |s|
      invariant 0 <= i <= |s| && Significant(s[..i]) <= d
      invariant p == |Significant(s[..i])| / 4 * 3 && p <= dst.Length && k == |Significant(s[..i])| % 4 && x < WORD32
      invariant Reading(Significant(s[..i]), x, k, dst[..p])
    {
      SignificantNext(s, i);
      SignificantPrefix(s, i + 1);
      if s[i] == CR || s[i] == LF || s[i] == SPACE {
        i := i + 1;
        continue;
      }
      if s[i] == EQUALS {
        AtEquals(t, e, Significant(s[..i]));
        break;
      }
      AtDigit(t, e, Significant(s[..i]), s[i]);
      x, k, p := ReadDigit(dst, x, k, p, s[i], Significant(s[..i]), d);
      i := i + 1;
    }
    if i == |s| {
      assert s[..i] == s;
      AtEnd(t, e);
    }
    p := PutTail(dst, x, k, p, d);
  }

  // One digit, and three bytes when it completes a group
  method ReadDigit(dst: array<Byte>, x0: nat, k0: nat, p0: nat, c: Byte, ghost r: seq<Byte>, ghost d: seq<Byte>)
      returns (x: nat, k: nat, p: nat)
    requires p0 == |r| / 4 * 3 && k0 == |r| % 4 && p0 <= dst.Length && Reading(r, x0, k0, dst[..p0]) && x0 < WORD32
    requires DecValue(c) >= 0 && r + [c] <= d && |d| / 4 * 3 <= dst.Length
    modifies dst
    ensures p == (|r| + 1) / 4 * 3 && p <= dst.Length && k == (|r| + 1) % 4
    ensures x < WORD32 && Reading(r + [c], x, k, dst[..p])
  {
    hide DecValue, Reading, Three, WORD32;
    ReadingDigit(r, x0, k0, dst[..p0], c);
    x, k, p := x0 * 64 % WORD32 + DecValue(c), k0 + 1, p0;
    if k == 4 {
      k := 0;
      PutThree(dst, p, x);
      p := p + 3;
    }
  }

  method PutTail(dst: array<Byte>, x: nat, k: nat, p0: nat, ghost d: seq<Byte>) returns (p: nat)
    requires p0 == |d| / 4 * 3 && |Decoded(d)| <= dst.Length && k == |d| % 4
    requires |d| / 4 * 3 <= |Decoded(d)| && Reading(d, x, k, dst[..p0])
    modifies dst
    ensures p == |Decoded(d)| && dst[..p] == Decoded(d)
  {
    assert WORD32 > 0;
    hide Reading, Decoded, ByteOf, WORD32;
    p := p0;
    ReadingEnd(d, x, k, dst[..p]);
    ghost var before := dst[..p];
    if k == 3 {
      dst[p], dst[p + 1] := ByteOf(x * 64 % WORD32, 2), ByteOf(x * 64 % WORD32, 1);
      assert dst[..p + 2] == before + [dst[p], dst[p + 1]];
      p := p + 2;
    } else if k == 2 {
      dst[p] := ByteOf(x * 0x1000 % WORD32, 2);
      assert dst[..p + 1] == before + [dst[p]];
      p := p + 1;
    }
  }

  lemma ShapeSize(t: seq<Byte>, e: nat)
    requires Shape(t, e)
    ensures e <= |t| && e <= 2
  {
  }

  lemma DecodedSize(d: seq<Byte>)
    ensures |d| / 4 * 3 <= |Decoded(d)|
  {
  }

  method PutThree(dst: array<Byte>, p: nat, x: nat)
    requires p + 3 <= dst.Length
    modifies dst
    ensures dst[..p + 3] == old(dst[..p]) + Three(x)
  {
    dst[p], dst[p + 1], dst[p + 2] := ByteOf(x, 2), ByteOf(x, 1), ByteOf(x, 0);
  }

  // The first equal sign stands behind all digits
  lemma AtEquals(t: seq<Byte>, e: nat, r: seq<Byte>)
    requires Shape(t, e) && r <= t[..|t| - e] && r + [EQUALS] <= t
    ensures r == t[..|t| - e]
  {
    hide DecValue;
    EqualsIsNoDigit();
    assert t[|r|] == EQUALS;
  }

  lemma AtDigit(t: seq<Byte>, e: nat, r: seq<Byte>, c: Byte)
    requires Shape(t, e) && r <= t[..|t| - e] && c != EQUALS && r + [c] <= t
    ensures r + [c] <= t[..|t| - e] && DecValue(c) >= 0
  {
    hide DecValue;
    assert t[|r|] == c;
  }

  lemma AtEnd(t: seq<Byte>, e: nat)
    requires Shape(t, e) && t <= t[..|t| - e]
    ensures t[..|t| - e] == t
  {
  }

  // ----- Decoding

  // The inputs that decode: layout, shape, and whole groups of four characters
  predicate Valid(s: seq<Byte>, e: nat)
  {
    Layout(s) && Shape(Significant(s), e) && |Significant(s)| % 4 == 0
  }

  function Digits(s: seq<Byte>, e: nat): seq<Byte>
    requires Shape(Significant(s), e)
  {
    Significant(s)[..|Significant(s)| - e]
  }

  // The count of the first pass is what the second pass writes
  lemma LengthAgrees(n: nat, e: nat, d: seq<Byte>)
    requires n % 4 == 0 && e <= 2 && e <= n && |d| == n - e
    ensures n / 4 * 3 >= e && |Decoded(d)| == n / 4 * 3 - e && (n - e) % 4 != 1
  {
  }

  lemma ShapeUnique(t: seq<Byte>, e: nat, f: nat)
    requires Shape(t, e) && Shape(t, f)
    ensures e == f
  {
    hide DecValue;
    EqualsIsNoDigit();
    var i, j := |t| - e, |t| - f;
    assert e > 0 ==> t[i] == EQUALS;
    assert f > 0 ==> t[j] == EQUALS;
  }

  method Decode(dst: array?<Byte>, s: seq<Byte>) returns (ret: Status, olen: nat)
    modifies dst
    ensures ret != CorruptionDetected
    ensures ret == InvalidCharacter <==> !exists e :: Valid(s, e)
    ensures ret != InvalidCharacter ==> exists e :: Valid(s, e) && olen == |Decoded(Digits(s, e))|
    ensures forall e :: Valid(s, e) ==>
              && ret == (if (if dst == null then 0 else dst.Length) < olen then BufferTooSmall else Success)
              && olen == |Decoded(Digits(s, e))|
              && (ret == Success && dst != null ==> dst[..olen] == Decoded(Digits(s, e)))
  {
    hide Significant, Shape, Decoded, Layout;
    var ok, n, equals := Validate(s);
    olen := 0;
    ValidParts(s);
    if !ok {
      return InvalidCharacter, 0;
    }
    ghost var t := Significant(s);
    ShapeSize(t, equals);
    CountsRight(s, n, equals);
    if (n - equals) % 4 == 1 {
      return InvalidCharacter, 0;
    }
    if n % 4 != 0 {
      return InvalidCharacter, 0;
    }
    ghost var d := t[..|t| - equals];
    LengthAgrees(n, equals, d);
    olen := n / 4 * 3 - equals;
    assert Valid(s, equals) && Digits(s, equals) == d;
    OnlyOne(s, equals);
    if (olen != 0 && dst == null) || (dst != null && dst.Length < olen) {
      return BufferTooSmall, olen;
    }
    var out := dst;
    if out == null {
      out := new Byte[0];
    }
    var p := Convert(out, s, equals);
    if olen != p {
      return CorruptionDetected, olen;
    }
    return Success, olen;
  }

  lemma ValidParts(s: seq<Byte>)
    ensures (exists e :: Valid(s, e)) ==> Layout(s) && exists e :: Shape(Significant(s), e)
  {
    hide Significant, Layout, Shape;
    if e :| Valid(s, e) {
      assert Shape(Significant(s), e);
    }
  }

  lemma CountsRight(s: seq<Byte>, n: nat, equals: nat)
    requires n == |Significant(s)| && Shape(Significant(s), equals)
    ensures forall e :: Valid(s, e) ==> n % 4 == 0 && (n - equals) % 4 != 1
  {
    hide Significant, Layout;
    forall e | Valid(s, e)
      ensures n % 4 == 0 && (n - equals) % 4 != 1
    {
      ShapeSize(Significant(s), equals);
      ShapeUnique(Significant(s), e, equals);
    }
  }

  lemma OnlyOne(s: seq<Byte>, e: nat)
    requires Valid(s, e)
    ensures forall f :: Valid(s, f) ==> f == e
  {
    hide Significant, Shape, Layout;
    forall f | Valid(s, f)
      ensures f == e
    {
      ShapeUnique(Significant(s), f, e);
    }
  }

  // ----- Decoding inverts encoding

  // Line breaks: any number of LF and CRLF
  predicate IsBreaks(b: seq<Byte>)
  {
    |b| == 0 || (b[0] == LF && IsBreaks(b[1..])) || (|b| >= 2 && b[0] == CR && b[1] == LF && IsBreaks(b[2..]))
  }

  // t with the breaks b[i] before character i and the last ones at the end
  function WithBreaks(t: seq<Byte>, b: seq<seq<Byte>>): seq<Byte>
    requires |b| == |t| + 1
  {
    if |t| == 0 then b[0] else WithBreaks(t[..|t| - 1], b[..|t|]) + [t[|t| - 1]] + b[|t|]
  }

  // Text without blanks, and line ends complete
  predicate Plain(t: seq<Byte>)
  {
    forall k :: 0 <= k < |t| ==> !Blank(t[k])
  }

  lemma {:induction false} SignificantAppend(s: seq<Byte>, t: seq<Byte>)
    ensures Significant(s + t) == Significant(s) + Significant(t)
    decreases |t|
  {
    if |t| == 0 {
      assert s + t == s;
    } else {
      var k := |t| - 1;
      assert (s + t)[..|s + t| - 1] == s + t[..k];
      SignificantAppend(s, t[..k]);
    }
  }

  lemma {:induction false} BreaksBlank(b: seq<Byte>)
    requires IsBreaks(b)
    ensures Significant(b) == []
    decreases |b|
  {
    if |b| > 0 {
      if b[0] == LF {
        BreaksBlank(b[1..]);
        SignificantAppend([LF], b[1..]);
        assert b == [LF] + b[1..];
        assert [LF][..0] == [] && Significant([LF]) == [];
      } else {
        BreaksBlank(b[2..]);
        SignificantAppend([CR, LF], b[2..]);
        assert b == [CR, LF] + b[2..];
        assert [CR, LF][..1] == [CR] && [CR][..0] == [];
        assert Significant([CR]) == [] && Significant([CR, LF]) == [];
      }
    }
  }

  lemma {:induction false} BreaksLayout(b: seq<Byte>)
    requires IsBreaks(b)
    ensures Layout(b) && forall j :: 0 <= j < |b| ==> b[j] != SPACE
    decreases |b|
  {
    if |b| > 0 {
      var k := if b[0] == LF then 1 else 2;
      BreaksLayout(b[k..]);
      forall j | 0 <= j < |b|
        ensures LayoutAt(b, j) && b[j] != SPACE
      {
        if j >= k { assert LayoutAt(b[k..], j - k); }
      }
    }
  }

  // Text without spaces: what is right in the parts is right in the whole
  lemma LayoutAppend(s: seq<Byte>, t: seq<Byte>)
    requires Layout(s) && Layout(t) && forall j :: 0 <= j < |s| ==> s[j] != SPACE
    ensures Layout(s + t)
  {
    forall j | 0 <= j < |s + t|
      ensures LayoutAt(s + t, j)
    {
      if j < |s| { assert LayoutAt(s, j); } else { assert LayoutAt(t, j - |s|); }
    }
  }

  lemma {:induction false} BreaksIgnored(t: seq<Byte>, b: seq<seq<Byte>>)
    requires |b| == |t| + 1 && Plain(t) && forall i :: 0 <= i < |b| ==> IsBreaks(b[i])
    ensures Significant(WithBreaks(t, b)) == t && Layout(WithBreaks(t, b))
    ensures forall j :: 0 <= j < |WithBreaks(t, b)| ==> WithBreaks(t, b)[j] != SPACE
    decreases |t|
  {
    BreaksBlank(b[|t|]);
    BreaksLayout(b[|t|]);
    if |t| > 0 {
      var k := |t| - 1;
      var w, c := WithBreaks(t[..k], b[..|t|]), t[k];
      BreaksIgnored(t[..k], b[..|t|]);
      OneCharacter(c);
      SignificantAppend(w, [c]);
      LayoutAppend(w, [c]);
      SignificantAppend(w + [c], b[|t|]);
      LayoutAppend(w + [c], b[|t|]);
      assert t == t[..k] + [c];
    }
  }

  lemma OneCharacter(c: Byte)
    requires !Blank(c)
    ensures Significant([c]) == [c] && Layout([c])
  {
    assert [c][..0] == [];
  }

  // ----- The digits of an encoding

  lemma GroupValue(c1: Byte, c2: Byte, c3: Byte)
    ensures var g := Group(c1, c2, c3);
            && (forall k :: 0 <= k < 4 ==> DecValue(g[k]) >= 0)
            && DecValue(g[0]) == c1 / 4 && DecValue(g[1]) == c1 % 4 * 16 + c2 / 16
            && DecValue(g[2]) == c2 % 16 * 4 + c3 / 64 && DecValue(g[3]) == c3 % 64
  {
    hide EncChar, DecValue;
    DecEnc(c1 / 4);
    DecEnc(c1 % 4 * 16 + c2 / 16);
    DecEnc(c2 % 16 * 4 + c3 / 64);
    DecEnc(c3 % 64);
  }

  lemma ValueOf4(g: seq<Byte>)
    requires |g| == 4 && forall k :: 0 <= k < 4 ==> DecValue(g[k]) >= 0
    ensures Value64(g[..2]) == DecValue(g[0]) * 64 + DecValue(g[1])
    ensures Value64(g[..3]) == Value64(g[..2]) * 64 + DecValue(g[2])
    ensures Value64(g) == Value64(g[..3]) * 64 + DecValue(g[3])
  {
    hide DecValue;
    assert g[..3][..2] == g[..2] && g[..2][..1] == g[..1] && g[..1][..0] == [];
    assert Value64(g[..1]) == DecValue(g[0]);
  }

  lemma SplitBytes(c1: Byte, c2: Byte, c3: Byte)
    ensures var x := ((c1 / 4 * 64 + (c1 % 4 * 16 + c2 / 16)) * 64 + (c2 % 16 * 4 + c3 / 64)) * 64 + c3 % 64;
            x == c1 * 0x1_0000 + c2 * 256 + c3
  {
  }

  lemma BytesOfSum(c1: Byte, c2: Byte, c3: Byte)
    ensures Three(c1 * 0x1_0000 + c2 * 256 + c3) == [c1, c2, c3]
  {
    var a: int, b: int, c: int := c1, c2, c3;
    var x := a * 0x1_0000 + b * 256 + c;
    DivModUnique(x, 0x1_0000, a, b * 256 + c);
    DivModUnique(x, 256, a * 256 + b, c);
    DivModUnique(a * 256 + b, 256, a, b);
    ModSmall(a, 256);
  }

  lemma {:induction false} GroupDecodes(c1: Byte, c2: Byte, c3: Byte)
    ensures Three(Value64(Group(c1, c2, c3))) == [c1, c2, c3]
    ensures c3 == 0 ==> var x := Value64(Group(c1, c2, c3)[..3]); [ByteOf(x * 64, 2), ByteOf(x * 64, 1)] == [c1, c2]
    ensures c2 == 0 && c3 == 0 ==> var x := Value64(Group(c1, c2, c3)[..2]); [ByteOf(x * 0x1000, 2)] == [c1]
  {
    hide Group, DecValue, Value64, ByteOf, Three;
    var g := Group(c1, c2, c3);
    GroupValue(c1, c2, c3);
    ValueOf4(g);
    SplitBytes(c1, c2, c3);
    BytesOfSum(c1, c2, c3);
    ThreeIs(c1 * 0x1_0000 + c2 * 256 + c3);
  }

  lemma ThreeIs(x: nat)
    ensures Three(x) == [ByteOf(x, 2), ByteOf(x, 1), ByteOf(x, 0)]
  {
  }

  lemma {:induction false} GroupsFront(g: seq<Byte>, d: seq<Byte>)
    requires |g| == 4 && |d| % 4 == 0
    ensures DecodedGroups(g + d) == Three(Value64(g)) + DecodedGroups(d)
    decreases |d|
  {
    hide Three, Value64;
    if |d| == 0 {
      assert g + d == g && g[..0] == [] && g[0..] == g;
    } else {
      var k := |d| - 4;
      var e := g + d;
      assert e[..|e| - 4] == g + d[..k] && e[|e| - 4..] == d[k..];
      GroupsFront(g, d[..k]);
    }
  }

  lemma {:induction false} DecodedFront(g: seq<Byte>, d: seq<Byte>)
    requires |g| == 4
    ensures Decoded(g + d) == Three(Value64(g)) + Decoded(d)
  {
    hide Three, Value64, DecodedGroups, ByteOf, Decoded, Tail;
    var h, t := WholeGroups(g, d);
    DecodedParts(d, h, t);
    assert g + d == g + h + t;
    DecodedParts(g + d, g + h, t);
    GroupsFront(g, h);
  }

  lemma WholeGroups(g: seq<Byte>, d: seq<Byte>) returns (h: seq<Byte>, t: seq<Byte>)
    requires |g| == 4
    ensures d == h + t && |h| % 4 == 0 && |g + h| % 4 == 0 && |t| < 4
  {
    var k := |d| % 4;
    h, t := d[..|d| - k], d[|d| - k..];
  }

  // The bytes that k digits left over with value x give
  function Tail(k: nat, x: nat): seq<Byte>
  {
    if k == 3 then [ByteOf(x * 64, 2), ByteOf(x * 64, 1)] else if k == 2 then [ByteOf(x * 0x1000, 2)] else []
  }

  lemma DecodedParts(d: seq<Byte>, h: seq<Byte>, t: seq<Byte>)
    requires d == h + t && |h| % 4 == 0 && |t| < 4
    ensures Decoded(d) == DecodedGroups(h) + Tail(|t|, Value64(t))
  {
    hide Value64, DecodedGroups, ByteOf;
    assert |d| % 4 == |t| && d[..|d| - |t|] == h && d[|d| - |t|..] == t;
  }

  // The number of equal signs
  function Marks(n: nat): nat
  {
    if n % 3 == 1 then 2 else if n % 3 == 2 then 1 else 0
  }

  lemma {:induction false} ShapeFront(g: seq<Byte>, t: seq<Byte>, e: nat)
    requires (forall k :: 0 <= k < |g| ==> DecValue(g[k]) >= 0) && Shape(t, e)
    ensures Shape(g + t, e)
  {
    hide DecValue;
    var r := g + t;
    forall k | |r| - e <= k < |r|
      ensures r[k] == EQUALS
    {
      assert r[k] == t[k - |g|];
    }
  }

  // t is digits and e marks, and the digits decode to s
  predicate Decodes(t: seq<Byte>, e: nat, s: seq<Byte>)
  {
    e <= |t| && |t| % 4 == 0 && Shape(t, e) && Decoded(t[..|t| - e]) == s
  }

  lemma {:induction false} DecodesFront(c1: Byte, c2: Byte, c3: Byte, t: seq<Byte>, e: nat, s: seq<Byte>)
    requires Decodes(t, e, s)
    ensures Decodes(Group(c1, c2, c3) + t, e, [c1, c2, c3] + s)
  {
    hide Group, Three, Value64, Decoded, DecValue, Shape;
    var g := Group(c1, c2, c3);
    GroupValue(c1, c2, c3);
    ShapeFront(g, t, e);
    GroupDecodes(c1, c2, c3);
    DecodedFront(g, t[..|t| - e]);
    assert (g + t)[..|g + t| - e] == g + t[..|t| - e];
  }

  // An encoding is digits and marks, and its digits decode to the original
  lemma {:induction false} EncodedDecodes(s: seq<Byte>)
    ensures Decodes(Encoded(s), Marks(|s|), s)
    decreases |s|
  {
    hide Group, Decodes;
    if |s| == 0 {
      NothingDecodes();
    } else if |s| < 3 {
      LastDecodes(s);
    } else {
      EncodedDecodes(s[3..]);
      DecodesFront(s[0], s[1], s[2], Encoded(s[3..]), Marks(|s| - 3), s[3..]);
      assert Marks(|s|) == Marks(|s| - 3);
      assert s == [s[0], s[1], s[2]] + s[3..];
    }
  }

  lemma NothingDecodes()
    ensures Decodes([], 0, [])
  {
  }

  lemma {:induction false} LastDecodes(s: seq<Byte>)
    requires 1 <= |s| <= 2
    ensures Decodes(Encoded(s), Marks(|s|), s)
  {
    hide Group, Three, Value64, DecValue, ByteOf;
    var c2 := if |s| == 2 then s[1] else 0;
    var g, k := Group(s[0], c2, 0), |s| + 1;
    GroupValue(s[0], c2, 0);
    GroupDecodes(s[0], c2, 0);
    var d := g[..k];
    assert Encoded(s)[..4 - Marks(|s|)] == d;
    assert d[..0] == [] && d[0..] == d;
    assert Decoded(d) == DecodedGroups([]) + if k == 3 then [ByteOf(Value64(d) * 64, 2), ByteOf(Value64(d) * 64, 1)]
                                             else [ByteOf(Value64(d) * 0x1000, 2)];
    assert DecodedGroups([]) == [];
  }

  lemma {:induction false} EncodedPlain(s: seq<Byte>, e: nat)
    requires Shape(Encoded(s), e)
    ensures Plain(Encoded(s))
  {
    hide DecValue;
    var t := Encoded(s);
    hide Encoded;
    forall k | 0 <= k < |t|
      ensures !Blank(t[k])
    {
      if k < |t| - e { DigitIsPlain(t[k]); }
    }
  }

  // The last three test vectors of section 10 of RFC 4648
  lemma KnownEncodings()
    ensures Encoded([0x66, 0x6F, 0x6F, 0x62]) == [0x5A, 0x6D, 0x39, 0x76, 0x59, 0x67, 0x3D, 0x3D]
    ensures Encoded([0x66, 0x6F, 0x6F, 0x62, 0x61]) == [0x5A, 0x6D, 0x39, 0x76, 0x59, 0x6D, 0x45, 0x3D]
    ensures Encoded([0x66, 0x6F, 0x6F, 0x62, 0x61, 0x72]) == [0x5A, 0x6D, 0x39, 0x76, 0x59, 0x6D, 0x46, 0x79]
  {
    hide Encoded;
    KnownGroups();
    var s: seq<Byte> := [0x66, 0x6F, 0x6F];
    EncodedAppend(s, [0x62]);
    EncodedAppend(s, [0x62, 0x61]);
    EncodedAppend(s, [0x62, 0x61, 0x72]);
    assert s + [0x62] == [0x66, 0x6F, 0x6F, 0x62];
    assert s + [0x62, 0x61] == [0x66, 0x6F, 0x6F, 0x62, 0x61];
    assert s + [0x62, 0x61, 0x72] == [0x66, 0x6F, 0x6F, 0x62, 0x61, 0x72];
  }

  lemma KnownGroups()
    ensures Encoded([0x66, 0x6F, 0x6F]) == [0x5A, 0x6D, 0x39, 0x76]
    ensures Encoded([0x62]) == [0x59, 0x67, 0x3D, 0x3D]
    ensures Encoded([0x62, 0x61]) == [0x59, 0x6D, 0x45, 0x3D]
    ensures Encoded([0x62, 0x61, 0x72]) == [0x59, 0x6D, 0x46, 0x79]
  {
    assert [0x66, 0x6F, 0x6F][3..] == [] && [0x62, 0x61, 0x72][3..] == [];
  }

  // ----- The encoding as a number

  lemma {:induction false} Value64Append(t: seq<Byte>, g: seq<Byte>)
    requires |g| <= 4
    ensures Value64(t + g) == Value64(t) * Pow64(|g|) + Value64(g)
    decreases |g|
  {
    hide DecValue;
    if |g| == 0 {
      assert t + g == t;
    } else {
      var k := |g| - 1;
      assert (t + g)[..|t + g| - 1] == t + g[..k];
      Value64Append(t, g[..k]);
      Pow64Step(Value64(t), k);
    }
  }

  lemma Pow64Step(x: nat, k: nat)
    requires k < 4
    ensures x * Pow64(k + 1) == x * Pow64(k) * 64
  {
  }

  // The zero bits that complete the last digit, as a factor: none, two or four
  function Spare(e: nat): nat
  {
    if e == 0 then 1 else if e == 1 then 4 else 16
  }

  // Read as a number in base 64, the digits are the bytes read in base 256, followed by the zero
  // bits that complete the last digit; the rest of the last group is equal signs
  lemma {:induction false} EncodedValue(s: seq<Byte>)
    ensures var e, r := Marks(|s|), Encoded(s);
            && e <= |r| && Value64(r[..|r| - e]) == Be(s) * Spare(e)
            && forall i :: |r| - e <= i < |r| ==> r[i] == 61
    decreases |s|
  {
    hide Be, Value64, Encoded;
    if |s| == 0 {
      BeEmpty();
      NoDigits();
    } else {
      var k := if |s| % 3 == 0 then |s| - 3 else |s| - |s| % 3;
      assert s == s[..k] + s[k..] && k % 3 == 0;
      EncodedValue(s[..k]);
      var r := Encoded(s[..k]);
      assert r[..|r|] == r;
      JoinValue(s[..k], s[k..]);
    }
  }

  lemma {:induction false} JoinValue(h: seq<Byte>, t: seq<Byte>)
    requires |h| % 3 == 0 && 1 <= |t| <= 3 && Value64(Encoded(h)) == Be(h)
    ensures var e, r := Marks(|h + t|), Encoded(h + t);
            && e <= |r| && Value64(r[..|r| - e]) == Be(h + t) * Spare(e)
            && forall i :: |r| - e <= i < |r| ==> r[i] == 61
  {
    hide Be, Value64, Encoded, Pow2, Pow64, Marks, Spare;
    EncodedAppend(h, t);
    TailValue(t);
    SameMarks(|h|, |t|);
    assert |t| + 1 == 4 - Marks(|t|) by { MarksOf(|t|); }
    BeAppend(h, t);
    var a, g, e := Encoded(h), Encoded(t), Marks(|t|);
    var d := g[..4 - e];
    assert (a + g)[..|a + g| - e] == a + d;
    Value64Append(a, d);
    TailAlgebra(Be(h), Be(t), |t|);
  }

  lemma NoDigits()
    ensures Encoded([]) == [] && Value64([]) == 0
  {
  }

  lemma TailAlgebra(h: nat, t: nat, n: nat)
    requires 1 <= n <= 3
    ensures h * Pow64(n + 1) + t * Spare(Marks(n)) == (t + Pow2(8 * n) * h) * Spare(Marks(n))
  {
    SmallPow2();
    Pow2Add(8, 8);
    Pow2Add(16, 8);
  }

  lemma SameMarks(h: nat, t: nat)
    requires h % 3 == 0
    ensures Marks(h + t) == Marks(t)
  {
  }

  lemma MarksOf(n: nat)
    ensures 1 <= n <= 3 ==> Marks(n) == 3 - n
  {
  }

  // One group, whole or not
  lemma {:induction false} TailValue(t: seq<Byte>)
    requires 1 <= |t| <= 3
    ensures var e, r := Marks(|t|), Encoded(t);
            && |r| == 4 && Value64(r[..4 - e]) == Be(t) * Spare(e)
            && forall i :: 4 - e <= i < 4 ==> r[i] == 61
  {
    hide Be, Group, Value64, DecValue;
    var c1, c2, c3 := t[0], if |t| > 1 then t[1] else 0, if |t| > 2 then t[2] else 0;
    var g := Group(c1, c2, c3);
    GroupValue(c1, c2, c3);
    ValueOf4(g);
    ShortBe(t);
    if |t| == 3 {
      assert t[3..] == [] && Encoded(t) == g + [] && g + [] == g && g[..4] == g;
    } else {
      assert Encoded(t)[..4 - Marks(|t|)] == g[..4 - Marks(|t|)];
    }
  }

  lemma {:induction false} ShortBe(t: seq<Byte>)
    requires 1 <= |t| <= 3
    ensures |t| == 1 ==> Be(t) == t[0]
    ensures |t| == 2 ==> var a: int, b: int := t[0], t[1]; Be(t) == 256 * a + b
    ensures |t| == 3 ==> var a: int, b: int, c: int := t[0], t[1], t[2]; Be(t) == 0x1_0000 * a + 256 * b + c
  {
    hide Be;
    SmallPow2();
    BeSingle(t[0]);
    if |t| == 1 {
      assert t == [t[0]];
    } else {
      BeSingle(t[1]);
      BeAppend([t[0]], [t[1]]);
      if |t| == 2 {
        assert t == [t[0]] + [t[1]];
      } else {
        BeSingle(t[2]);
        BeAppend([t[0]] + [t[1]], [t[2]]);
        assert t == [t[0]] + [t[1]] + [t[2]];
      }
    }
  }

  // Any line breaks in an encoding leave it valid, and it decodes to the original
  lemma {:induction false} Base64RoundTrip(s: seq<Byte>, b: seq<seq<Byte>>)
    requires |b| == |Encoded(s)| + 1 && forall i :: 0 <= i < |b| ==> IsBreaks(b[i])
    ensures var w := WithBreaks(Encoded(s), b);
            Valid(w, Marks(|s|)) && Decoded(Digits(w, Marks(|s|))) == s
  {
    hide Encoded, Decoded, Significant, Shape, IsBreaks, WithBreaks;
    EncodedDecodes(s);
    EncodedPlain(s, Marks(|s|));
    BreaksIgnored(Encoded(s), b);
  }
}
