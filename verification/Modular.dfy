/**
 Moduli, residues and their external form (bignum_mod.c, bignum_mod_raw.c).
 */
module Modular {
  import opened Arith
  import opened Limbs
  import opened Montgomery
  import opened ExpMod
  import opened Bignum
  import opened ModExp
  import opened Bytes
  import opened CoreIO

  datatype IntRep = Unset | Plain | Mont
  datatype ExtRep = NoOrder | LittleEndian | BigEndian

  // MBEDTLS_MPI_MAX_LIMBS
  const MAX_LIMBS: nat

  class Modulus {
    var p: array<Limb>
    var limbs: nat
    var bits: nat
    var rep: IntRep
    var mm: Limb
    var rr: array<Limb>

    constructor ()
      ensures fresh(p) && fresh(rr) && limbs == 0 && bits == 0 && rep == Unset
    {
      p, rr := new Limb[0], new Limb[0];
      limbs, bits, rep, mm := 0, 0, Unset, 0;
    }

    // The value of the modulus
    ghost function M(): int
      reads this, p
      requires limbs == p.Length
    {
      Value(p[..])
    }

    // Set up, with the Montgomery constants where the representation needs them
    ghost predicate Valid()
      reads this, p, rr
    {
      && limbs == p.Length
      && (rep.Mont? ==> 0 < limbs && p != rr && rr.Length == limbs && M() % 2 == 1 && M() > 0 && MontConstant(mm, M())
                        && Value(rr[..]) < M() && Cong(Value(rr[..]), Place(limbs) * Place(limbs), M()))
    }
  }

  // x represents a modulo m
  ghost predicate Represents(rep: IntRep, x: int, a: int, m: int, n: nat)
  {
    0 <= a < m && match rep case Mont => MontForm(x, a, m, n) case _ => x == a
  }

  // A residue is represented by one number only, and represents one only
  lemma {:induction false} RepresentsOne(rep: IntRep, x: int, y: int, a: int, b: int, m: int, n: nat)
    requires m % 2 == 1 && Represents(rep, x, a, m, n) && Represents(rep, y, b, m, n)
    ensures x == y <==> a == b
  {
    if rep.Mont? {
      if a == b {
        FormValue(x, y, a, m, n);
      }
      if x == y {
        CongTrans(a * Place(n), x, b * Place(n), m);
        CancelPlace(a, b, m, n);
        CongReduced(a, b, m);
      }
    }
  }

  // ----- Setup

  // base^2n mod N into a fresh array
  method MontConstSquare(A: array<Limb>) returns (ret: Status, rr: array<Limb>)
    ensures fresh(rr)
    ensures ret == if A.Length == 0 || A.Length >= MAX_LIMBS / 2 - 2 || Value(A[..]) == 0
                   then CorruptionDetected else Ok
    ensures ret.Ok? ==> rr.Length == A.Length && Value(rr[..]) == Place(A.Length) * Place(A.Length) % Value(A[..])
  {
    hide Value, Place, Mpi.Val, Mpi.Abs;
    rr := new Limb[0];
    ret := CorruptionDetected;
    if A.Length == 0 || A.Length >= MAX_LIMBS / 2 - 2 {
      return;
    }
    var N := new Mpi();
    N.p := A[..];
    PositiveVal(N);
    var zero := IsZero(N.p);
    // The reduction modulo zero fails
    if zero {
      return;
    }
    var RR := new Mpi();
    MontR2(RR, N);
    ResidueFits2(RR, N);
    rr := Buffer(RR.p);
    ret := Ok;
  }

  // N from an odd number p; the constants of Montgomery multiplication come with it
  method ModulusSetup(N: Modulus, p: array<Limb>) returns (ret: Status)
    requires p.Length > 0 && p[0] % 2 == 1
    modifies N
    ensures ret == if p.Length >= MAX_LIMBS / 2 - 2 then CorruptionDetected else Ok
    ensures ret.Ok? ==> N.Valid() && N.rep == Mont && N.p == p && fresh(N.rr) && IsBitLength(Value(p[..]), N.bits)
    ensures !ret.Ok? ==> N.limbs == 0 && N.rep == Unset && N.Valid()
  {
    hide Value, Place, MontConstant, Cong, IsBitLength;
    N.p, N.limbs := p, p.Length;
    assert p[0..0 + p.Length] == p[..];
    N.bits := Bitlen(p, 0, p.Length);
    N.rep := Mont;
    N.mm := MontmulInit(p, 0);
    assert p[..][0] == p[0];
    ModulusReady(N.mm, p[..]);
    var rr;
    ret, rr := MontConstSquare(p);
    N.rr := rr;
    if ret != Ok {
      N.p, N.limbs, N.bits, N.rep, N.mm := new Limb[0], 0, 0, Unset, 0;
    } else {
      SquareReady(rr[..], p[..]);
    }
  }

  lemma SquareReady(rr: seq<Limb>, m: seq<Limb>)
    requires Value(m) > 0 && Value(rr) == Place(|m|) * Place(|m|) % Value(m)
    ensures Value(rr) < Value(m) && Cong(Value(rr), Place(|m|) * Place(|m|), Value(m))
  {
    hide Value, Place;
    DivModBasics(Place(|m|) * Place(|m|), Value(m));
    CongMod(Place(|m|) * Place(|m|), Value(m));
  }

  // ----- Comparison

  lemma CompareStep(x: int, y: int, v: int, w: int)
    requires 0 <= x < BETA && 0 <= y < BETA && v >= 0 && w >= 0
    ensures x + BETA * v < y + BETA * w <==> v < w || (v == w && x < y)
  {
    hide BETA;
    MulDistrib(BETA, v, 1);
    MulDistrib(BETA, w, 1);
    if v < w { MulLe(BETA, BETA, v + 1, w); }
    if w < v { MulLe(BETA, BETA, w + 1, v); }
  }

  // Constant-time comparison: every limb is looked at, the first difference decides
  method LtCt(a: seq<Limb>, b: seq<Limb>) returns (ret: bool)
    requires |a| == |b|
    ensures ret == (Value(a) < Value(b))
  {
    hide Value, BETA;
    ret := false;
    var done := false;
    var i: nat := |a|;
    assert a[i..] == [] && b[i..] == [];
    while i > 0
      invariant i <= |a| && ret == (Value(a[i..]) < Value(b[i..])) && done == (Value(a[i..]) != Value(b[i..]))
    {
      i := i - 1;
      TopLimbs(a, b, i);
      var cond := b[i] < a[i];
      done := done || cond;
      cond := a[i] < b[i];
      ret := ret || (cond && !done);
      done := done || cond;
    }
    assert a[0..] == a && b[0..] == b;
  }

  lemma TopLimbs(a: seq<Limb>, b: seq<Limb>, i: nat)
    requires |a| == |b| && i < |a|
    ensures Value(a[i..]) < Value(b[i..]) <==>
            Value(a[i + 1..]) < Value(b[i + 1..]) || (Value(a[i + 1..]) == Value(b[i + 1..]) && a[i] < b[i])
    ensures Value(a[i..]) == Value(b[i..]) <==> Value(a[i + 1..]) == Value(b[i + 1..]) && a[i] == b[i]
  {
    assert a[i..][1..] == a[i + 1..] && b[i..][1..] == b[i + 1..];
    CompareStep(a[i], b[i], Value(a[i + 1..]), Value(b[i + 1..]));
    CompareStep(b[i], a[i], Value(b[i + 1..]), Value(a[i + 1..]));
  }

  // ----- Reading and writing

  // The number an input buffer stands for
  function External(buf: seq<Byte>, ext: ExtRep): nat
  {
    if ext.BigEndian? then Be(buf) else Le(buf)
  }

  function Encoded(v: nat, len: nat, ext: ExtRep): seq<Byte>
  {
    if ext.BigEndian? then Reversed(Digits256(v, len)) else Digits256(v, len)
  }

  function ReadStatus(v: int, len: nat, n: nat, m: int, ext: ExtRep, rep: IntRep): Status
  {
    if ext.NoOrder? then BadInput
    else if n < CharsToLimbs(len) then BufferTooSmall
    else if v >= m || rep.Unset? then BadInput
    else Ok
  }

  // The status as the header describes it: too small is a matter of the value
  function PromisedStatus(v: int, n: nat, m: int, ext: ExtRep, rep: IntRep): Status
  {
    if ext.NoOrder? then BadInput
    else if v >= Place(n) then BufferTooSmall
    else if v >= m || rep.Unset? then BadInput
    else Ok
  }

  // Code and header agree exactly on buffers that are short enough and on values that are too large
  lemma {:induction false} ReadAsPromised(buf: seq<Byte>, n: nat, m: int, ext: ExtRep, rep: IntRep)
    requires !ext.NoOrder?
    ensures var v := External(buf, ext);
            ReadStatus(v, |buf|, n, m, ext, rep) == PromisedStatus(v, n, m, ext, rep)
            <==> CharsToLimbs(|buf|) <= n || v >= Place(n)
  {
    hide External, Place, CharsToLimbs;
    if CharsToLimbs(|buf|) <= n {
      ShortBuffer(buf, n, ext);
    }
  }

  lemma ShortBuffer(buf: seq<Byte>, n: nat, ext: ExtRep)
    requires CharsToLimbs(|buf|) <= n
    ensures External(buf, ext) < Place(n)
  {
    hide Pow2, Place, External, Encoded, CharsToLimbs;
    EncodedExternal(buf, ext);
    BytesFit(|buf|, n);
    PlaceIsPow2(n);
    assert 8 * (n * CIL) == BITS * n by { MulAssoc(8, CIL, n); }
    Pow2Mono(8 * |buf|, BITS * n);
  }

  // Zeros, one byte more than the limbs hold, although 0 fits any residue
  lemma ReadRefusesZero(n: nat, m: int, ext: ExtRep, rep: IntRep)
    requires m > 0 && !ext.NoOrder? && !rep.Unset?
    ensures n * CIL >= 0
    ensures var buf: seq<Byte> := seq(n * CIL + 1, _ => 0);
            External(buf, ext) == 0 && ReadStatus(0, |buf|, n, m, ext, rep) == BufferTooSmall
            && PromisedStatus(0, n, m, ext, rep) == Ok
  {
    hide Place;
    MulLe(0, n, 0, CIL);
    PlaceIsPow2(n);
    var buf: seq<Byte> := seq(n * CIL + 1, _ => 0);
    ZeroBuffer(buf, ext);
    DivModUnique(n * CIL + 1, CIL, n, 1);
  }

  lemma ZeroBuffer(buf: seq<Byte>, ext: ExtRep)
    requires forall i :: 0 <= i < |buf| ==> buf[i] == 0
    ensures External(buf, ext) == 0
  {
    hide Le, Reversed;
    LeZeros(buf);
    forall i | 0 <= i < |buf|
      ensures Reversed(buf)[i] == 0
    {
      ReversedAt(buf, i);
    }
    LeZeros(Reversed(buf));
  }

  method RawRead(X: array<Limb>, N: Modulus, buf: seq<Byte>, ext: ExtRep) returns (ret: Status)
    requires N.Valid() && X.Length == N.limbs && X != N.p && X != N.rr
    modifies X
    ensures ret == ReadStatus(External(buf, ext), |buf|, N.limbs, N.M(), ext, Plain)
    ensures ret.Ok? ==> Value(X[..]) == External(buf, ext)
    ensures ret.Ok? && ext.LittleEndian? ==> Value(X[..]) == Le(buf)
    ensures ret.Ok? && ext.BigEndian? ==> Value(X[..]) == Be(buf)
  {
    hide Value, Le, Reversed, Place;
    match ext {
      case LittleEndian => ret := ReadLe(X, buf);
      case BigEndian => ret := ReadBe(X, buf);
      case NoOrder => return BadInput;
    }
    if ret != Ok {
      return;
    }
    var lt := LtCt(X[..], N.p[..]);
    if !lt {
      return BadInput;
    }
  }

  // The residue r takes the value in buf
  method ModRead(r: array<Limb>, N: Modulus, buf: seq<Byte>, ext: ExtRep) returns (ret: Status)
    requires N.Valid() && r != N.p && r != N.rr
    modifies r
    ensures ret == if r.Length == 0 || N.limbs == 0 || r.Length != N.limbs then BadInput
                   else ReadStatus(External(buf, ext), |buf|, N.limbs, N.M(), ext, N.rep)
    ensures ret.Ok? ==> Represents(N.rep, Value(r[..]), External(buf, ext), N.M(), N.limbs)
    ensures ret.Ok? && ext.LittleEndian? ==> Represents(N.rep, Value(r[..]), Le(buf), N.M(), N.limbs)
    ensures ret.Ok? && ext.BigEndian? ==> Represents(N.rep, Value(r[..]), Be(buf), N.M(), N.limbs)
  {
    hide Value, Le, Reversed, Place, MontConstant, Cong, MontForm;
    if r.Length == 0 || N.limbs == 0 || r.Length != N.limbs {
      return BadInput;
    }
    ret := RawRead(r, N, buf, ext);
    if ret != Ok {
      return;
    }
    match N.rep {
      case Mont =>
        var n := N.limbs;
        var T := new Limb[2 * n + 1];
        assert r[0..n] == r[..] && N.p[0..n] == N.p[..] && N.rr[0..n] == N.rr[..];
        ToMontRep(r, r, N.p, n, N.mm, N.rr, T);
        assert r[0..n] == r[..];
      case Plain =>
      case Unset => return BadInput;
    }
  }

  method RawWrite(a: seq<Limb>, buf: array<Byte>, ext: ExtRep) returns (ret: Status)
    modifies buf
    ensures ret == if ext.NoOrder? then BadInput else if Value(a) < Pow2(8 * buf.Length) then Ok else BufferTooSmall
    ensures buf[..] == if ret.Ok? then Encoded(Value(a), buf.Length, ext) else old(buf[..])
    ensures ret.Ok? && ext.LittleEndian? ==> Le(buf[..]) == Value(a)
    ensures ret.Ok? && ext.BigEndian? ==> Be(buf[..]) == Value(a)
  {
    hide Value, Reversed, Digits256, Pow2;
    match ext {
      case LittleEndian => ret := WriteLe(a, buf);
      case BigEndian => ret := WriteBe(a, buf);
      case NoOrder => return BadInput;
    }
    if ret == Ok {
      EncodedNumber(Value(a), buf.Length, ext);
    }
  }

  lemma {:induction false} EncodedNumber(v: nat, len: nat, ext: ExtRep)
    requires v < Pow2(8 * len)
    ensures if ext.BigEndian? then Be(Encoded(v, len, ext)) == v else Le(Encoded(v, len, ext)) == v
  {
    hide Le, Reversed, Digits256, Pow2;
    LeDigits(v, len);
    ModSmall(v, Pow2(8 * len));
    ReversedTwice(Digits256(v, len));
  }

  // The value of the residue r, whatever its representation
  method ModWrite(r: array<Limb>, N: Modulus, buf: array<Byte>, ext: ExtRep, ghost a: nat) returns (ret: Status)
    requires N.Valid() && r != N.p && (r.Length == N.limbs ==> Represents(N.rep, Value(r[..]), a, N.M(), N.limbs))
    modifies buf
    ensures ret == if r.Length == 0 || r.Length != N.limbs || ext.NoOrder? then BadInput
                   else if a < Pow2(8 * buf.Length) then Ok else BufferTooSmall
    ensures buf[..] == if ret.Ok? then Encoded(a, buf.Length, ext) else old(buf[..])
    ensures ret.Ok? && ext.LittleEndian? ==> Le(buf[..]) == a
    ensures ret.Ok? && ext.BigEndian? ==> Be(buf[..]) == a
  {
    hide Value, Reversed, Digits256, Pow2, Place, MontConstant, Cong, MontForm;
    if r.Length == 0 || N.limbs == 0 {
      return BadInput;
    }
    if r.Length != N.limbs {
      return BadInput;
    }
    var w := r[..];
    if N.rep.Mont? {
      var n := N.limbs;
      var m := Buffer(w);
      var T := new Limb[2 * n + 1];
      assert m[0..n] == m[..] && N.p[0..n] == N.p[..];
      FromMontRep(m, m, N.p, n, N.mm, T, a);
      ModSmall(a, N.M());
      assert m[0..n] == m[..];
      w := m[..];
    }
    ret := RawWrite(w, buf, ext);
  }

  // Bytes are determined by the number they encode and their length
  lemma {:induction false} EncodedExternal(buf: seq<Byte>, ext: ExtRep)
    ensures External(buf, ext) < Pow2(8 * |buf|) && Encoded(External(buf, ext), |buf|, ext) == buf
  {
    hide Le, Reversed, Digits256, Pow2;
    if ext.BigEndian? {
      LeBound(Reversed(buf));
      DigitsOfLe(Reversed(buf));
      ReversedTwice(buf);
    } else {
      LeBound(buf);
      DigitsOfLe(buf);
    }
  }

  // Reading a value below the modulus and writing it again gives back the bytes
  method ReadThenWrite(r: array<Limb>, N: Modulus, buf: seq<Byte>, out: array<Byte>, ext: ExtRep) returns (ret: Status)
    requires N.Valid() && r != N.p && r != N.rr && r.Length == N.limbs > 0 && out.Length == |buf|
    modifies r, out
    ensures ret == ReadStatus(External(buf, ext), |buf|, N.limbs, N.M(), ext, N.rep)
    ensures ret.Ok? ==> out[..] == buf
  {
    hide Value, Le, Reversed, Pow2, Represents, Encoded, External, CharsToLimbs;
    ret := ModRead(r, N, buf, ext);
    if ret == Ok {
      EncodedExternal(buf, ext);
      ret := ModWrite(r, N, out, ext, External(buf, ext));
    }
  }
}
