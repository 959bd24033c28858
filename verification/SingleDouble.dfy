/** The bit-level conversions between singles and doubles (src/backend/emitter.c:528-575 and
    `extend_f32_bits` in src/cpu/cpu.c:613-643): they keep the value of every single and invert
    each other. */
module SingleDouble {

  // Fields

  function Exp32(b: bv32): bv64 { (b as bv64 >> 23) & 0xFF }

  function Frac32(b: bv32): bv64 { b as bv64 & 0x7F_FFFF }

  predicate Negative32(b: bv32) { b & 0x8000_0000 != 0 }

  function Exp64(r: bv64): bv64 { (r >> 52) & 0x7FF }

  function Frac64(r: bv64): bv64 { r & 0xF_FFFF_FFFF_FFFF }

  predicate Negative64(r: bv64) { r & 0x8000_0000_0000_0000 != 0 }

  // Values

  function P(k: int): real
    decreases if k < 0 then -k else k
  {
    if k == 0 then 1.0 else if k > 0 then 2.0 * P(k - 1) else P(k + 1) / 2.0
  }

  lemma {:induction false} Doubles(k: int, n: nat)
    ensures P(k + n) == P(k) * Power(n)
  {
    if n > 0 {
      Doubles(k, n - 1);
      Next(k + n - 1);
    }
  }

  lemma Next(k: int)
    ensures P(k + 1) == 2.0 * P(k)
  {
  }

  function Power(n: nat): real { if n == 0 then 1.0 else 2.0 * Power(n - 1) }

  const TWO29: real := 536870912.0

  lemma Power29()
    ensures Power(29) == TWO29
  {
    assert Power(10) == 1024.0;
    assert Power(20) == 1048576.0;
  }

  function Signed(negative: bool, magnitude: real): real { if negative then -magnitude else magnitude }

  /** The value of a finite single (IEEE 754-2008 section 3.4). */
  function Real32(b: bv32): real {
    Signed(Negative32(b),
      if Exp32(b) == 0 then Scaled(Int(Frac32(b)), -149)
      else Scaled(0x80_0000 + Int(Frac32(b)), Int(Exp32(b)) - 150))
  }

  /** The value of a finite double. */
  function Real64(r: bv64): real {
    Signed(Negative64(r),
      if Exp64(r) == 0 then Scaled(Int(Frac64(r)), -1074)
      else Scaled(0x10_0000_0000_0000 + Int(Frac64(r)), Int(Exp64(r)) - 1075))
  }

  // Single to double

  /** The value of a fraction next to an exponent, with 23 fraction bits. */
  function Valued(fraction: bv64, exponent: bv64): real { Scaled(Int(fraction), Int(exponent) - 1046) }

  function Int(x: bv64): nat { x as int }

  function Scaled(m: int, k: int): real { m as real * P(k) }

  /** A denormal fraction shifted up to its leading one, with what that does to the exponent. */
  ghost predicate Normalises(f: bv64, shifted: bv64, k: bv64, exponent: bv64) {
    && 1 <= k <= 23 && shifted == f << k && 0x80_0000 <= shifted < 0x100_0000 && exponent == 897 - k
    && Valued(shifted, exponent) == Valued(f, 897)
  }

  /** What the conversion must produce. */
  ghost predicate Extends(b: bv32, r: bv64) {
    var e, f := Exp32(b), Frac32(b);
    && Negative64(r) == Negative32(b)
    && (if 0 < e < 255 then Exp64(r) == e + 896 && Frac64(r) == f << 29
        else if e == 0 && f != 0 then
          exists shifted: bv64, k: bv64 ::
            Normalises(f, shifted, k, Exp64(r)) && Frac64(r) == (shifted & 0x7F_FFFF) << 29
        else if e == 0 then Exp64(r) == 0 && Frac64(r) == 0
        else Exp64(r) == 0x7FF && Frac64(r) == f << 29)
  }

  /** `(y << 61) | (y << 60) | (y << 59)` */
  function Extension(y: bv64): bv64 { (y << 61) | (y << 60) | (y << 59) }

  function Assembled(b: bv32, y: bv64): bv64 {
    ((b as bv64 & 0xC000_0000) << 32) | Extension(y) | ((b as bv64 & 0x3FFF_FFFF) << 29)
  }

  lemma NormalExtends(b: bv32)
    requires 0 < Exp32(b) < 255
    ensures var r := Assembled(b, if Exp32(b) >> 7 == 0 then 1 else 0);
      Negative64(r) == Negative32(b) && Exp64(r) == Exp32(b) + 896 && Frac64(r) == Frac32(b) << 29
  {
  }

  lemma SpecialExtends(b: bv32)
    requires Exp32(b) == 255 || (Exp32(b) == 0 && Frac32(b) == 0)
    ensures var r := Assembled(b, Exp32(b) >> 7);
      Negative64(r) == Negative32(b) && Frac64(r) == Frac32(b) << 29 && Exp64(r) == if Exp32(b) == 0 then 0 else 0x7FF
  {
  }

  function Denormal(b: bv32, exponent: bv64, shifted: bv64): bv64 {
    ((b as bv64 & 0x8000_0000) << 32) | (exponent << 52) | ((shifted & 0x7F_FFFF) << 29)
  }

  lemma DenormalExtends(b: bv32, exponent: bv64, shifted: bv64)
    requires exponent < 0x800 && shifted < 0x100_0000
    ensures var r := Denormal(b, exponent, shifted);
      Negative64(r) == Negative32(b) && Exp64(r) == exponent && Frac64(r) == (shifted & 0x7F_FFFF) << 29
  {
  }

  /** Invariant of the normalising loop after `k` shifts. */
  ghost predicate Shifting(f: bv64, shifted: bv64, k: bv64, exponent: bv64) {
    && 1 <= k <= 23 && 0 < f < 0x80_0000 && shifted == f << k && shifted < 0x100_0000 && shifted >= 1 << k
       && exponent == 897 - k
    && Valued(shifted, exponent) == Valued(f, 897)
  }

  lemma ShiftOnce(shifted: bv64, exponent: bv64)
    requires shifted < 0x80_0000 && 0 < exponent < 0x800
    ensures Int(shifted << 1) == 2 * Int(shifted) && Int(exponent - 1) == Int(exponent) - 1
  {
  }

  lemma RealStep(m: int, k: int)
    ensures Scaled(2 * m, k - 1) == Scaled(m, k)
  {
    Next(k - 1);
  }

  lemma ShiftValue(shifted: bv64, exponent: bv64)
    requires shifted < 0x80_0000 && 0 < exponent < 0x800
    ensures Valued(shifted << 1, exponent - 1) == Valued(shifted, exponent)
  {
    hide Valued;
    ShiftOnce(shifted, exponent);
    StepValue(shifted, exponent, shifted << 1, exponent - 1);
  }

  lemma StepValue(m: bv64, e: bv64, m': bv64, e': bv64)
    requires Int(m') == 2 * Int(m) && Int(e') == Int(e) - 1
    ensures Valued(m', e') == Valued(m, e)
  {
    hide P, Int, Scaled;
    RealStep(Int(m), Int(e) - 1046);
  }

  lemma ShiftBits(f: bv64, k: bv64)
    requires k <= 22 && 0 < f < 0x80_0000 && f << k < 0x80_0000 && f << k >= 1 << k
    ensures (f << k) << 1 == f << (k + 1) && (f << k) << 1 < 0x100_0000 && (f << k) << 1 >= 1 << (k + 1)
  {
  }

  /** One shift keeps the value. */
  lemma ShiftKeeps(f: bv64, shifted: bv64, k: bv64, exponent: bv64)
    requires Shifting(f, shifted, k, exponent) && k <= 22 && shifted < 0x80_0000
    ensures Shifting(f, shifted << 1, k + 1, exponent - 1)
  {
    hide Valued;
    ShiftBits(f, k);
    ShiftValue(shifted, exponent);
  }

  lemma FirstShift(f: bv64)
    requires 0 < f < 0x80_0000
    ensures Shifting(f, f << 1, 1, 896)
  {
    hide Valued;
    ShiftValue(f, 897);
  }

  lemma NotYetLeading(f: bv64, shifted: bv64, k: bv64)
    requires 1 <= k <= 23 && shifted >= 1 << k && shifted < 0x100_0000
    ensures shifted & 0x80_0000 == 0 <==> shifted < 0x80_0000
    ensures shifted < 0x80_0000 ==> k <= 22
  {
  }

  lemma NormalIsExtended(b: bv32)
    requires 0 < Exp32(b) < 255
    ensures Extends(b, Assembled(b, if Exp32(b) >> 7 == 0 then 1 else 0))
  {
    hide Exp32, Frac32, Negative32, Exp64, Frac64, Negative64, Assembled, Normalises;
    NormalExtends(b);
  }

  lemma SpecialIsExtended(b: bv32)
    requires !(0 < Exp32(b) < 255) && !(Exp32(b) == 0 && Frac32(b) != 0)
    ensures Extends(b, Assembled(b, Exp32(b) >> 7))
  {
    hide Exp32, Frac32, Negative32, Exp64, Frac64, Negative64, Assembled, Normalises;
    ByteOrZero(b);
    SpecialExtends(b);
  }

  lemma DenormalIsExtended(b: bv32, shifted: bv64, k: bv64, exponent: bv64)
    requires Exp32(b) == 0 && Frac32(b) != 0 && Normalises(Frac32(b), shifted, k, exponent)
    ensures Extends(b, Denormal(b, exponent, shifted))
  {
    hide Exp32, Frac32, Negative32, Exp64, Frac64, Negative64, Denormal, Normalises;
    NormalisedShape(Frac32(b), shifted, k, exponent);
    DenormalExtends(b, exponent, shifted);
  }

  lemma NormalisedShape(f: bv64, shifted: bv64, k: bv64, exponent: bv64)
    requires Normalises(f, shifted, k, exponent)
    ensures shifted < 0x100_0000 && exponent < 0x800
  {
    hide Valued;
  }

  /** `dolrecomp_f32_from_bits` and `extend_f32_bits` */
  method FromBits(bits: bv32) returns (result: bv64)
    ensures Extends(bits, result)
  {
    hide P, Valued, Extends, Normalises, Exp32, Frac32, Negative32, Exp64, Frac64, Negative64, Assembled, Denormal,
      Shifting;
    var exponent, fraction := Exp32(bits), Frac32(bits);
    if 0 < exponent < 255 {
      NormalIsExtended(bits);
      result := Assembled(bits, if exponent >> 7 == 0 then 1 else 0);
    } else if exponent == 0 && fraction != 0 {
      FractionFits(bits);
      FirstShift(fraction);
      ghost var k: bv64 := 1;
      exponent := 1023 - 126;
      var shifted := fraction << 1;
      exponent := exponent - 1;
      while shifted & 0x80_0000 == 0
        invariant Shifting(fraction, shifted, k, exponent)
        decreases 24 - k
      {
        ShiftingShape(fraction, shifted, k, exponent);
        NotYetLeading(fraction, shifted, k);
        ShiftKeeps(fraction, shifted, k, exponent);
        shifted := shifted << 1;
        exponent := exponent - 1;
        k := k + 1;
        ShiftingShape(fraction, shifted, k, exponent);
      }
      ShiftingShape(fraction, shifted, k, exponent);
      NotYetLeading(fraction, shifted, k);
      Normalised(fraction, shifted, k, exponent);
      DenormalIsExtended(bits, shifted, k, exponent);
      result := Denormal(bits, exponent, shifted);
    } else {
      SpecialIsExtended(bits);
      result := Assembled(bits, exponent >> 7);
    }
  }

  lemma FractionFits(bits: bv32)
    ensures Frac32(bits) < 0x80_0000
  {
  }

  lemma ByteOrZero(bits: bv32)
    ensures Exp32(bits) <= 255 && (Frac32(bits) == 0 ==> Frac32(bits) << 29 == 0)
  {
  }

  lemma ShiftingShape(f: bv64, shifted: bv64, k: bv64, exponent: bv64)
    requires Shifting(f, shifted, k, exponent)
    ensures 1 <= k <= 23 && shifted >= 1 << k && shifted < 0x100_0000 && exponent < 0x800
  {
  }

  lemma Normalised(f: bv64, shifted: bv64, k: bv64, exponent: bv64)
    requires Shifting(f, shifted, k, exponent) && shifted >= 0x80_0000
    ensures Normalises(f, shifted, k, exponent)
  {
  }

  // The value is kept

  predicate Finite32(b: bv32) { Exp32(b) != 255 }

  predicate Finite64(r: bv64) { Exp64(r) != 0x7FF }

  lemma TwentyNine(m: int, k: int)
    ensures Scaled(m * 0x2000_0000, k) == Scaled(m, k + 29)
  {
    Doubles(k, 29);
    Power29();
    hide P;
  }

  lemma FractionInt(f: bv64)
    requires f < 0x80_0000
    ensures Int(f << 29) == Int(f) * 0x2000_0000
  {
  }

  lemma LeadingInt(shifted: bv64)
    requires 0x80_0000 <= shifted < 0x100_0000
    ensures shifted & 0x7F_FFFF < 0x80_0000 && Int(shifted) == 0x80_0000 + Int(shifted & 0x7F_FFFF)
  {
  }

  lemma ExponentInt(e: bv64)
    requires e < 0x100
    ensures Int(e + 896) == Int(e) + 896
  {
  }

  lemma SmallConstants()
    ensures Int(0) == 0 && Int(897) == 897
  {
  }

  /** Every finite single becomes a finite double with the same value, and every other single an
      infinite double or a double that is not a number, as it was. */
  lemma ValueIsKept(b: bv32, r: bv64)
    requires Extends(b, r)
    ensures Finite64(r) <==> Finite32(b)
    ensures Finite32(b) ==> Real64(r) == Real32(b)
    ensures !Finite32(b) ==> (Frac64(r) == 0 <==> Frac32(b) == 0)
  {
    hide Exp32, Frac32, Negative32, Exp64, Frac64, Negative64, P, Int, Scaled, Normalises;
    ByteOrZero(b);
    FractionFits(b);
    var e, f := Exp32(b), Frac32(b);
    if 0 < e < 255 {
      NormalValue(e, f);
    } else if e == 0 && f != 0 {
      var shifted: bv64, k: bv64 :| Normalises(f, shifted, k, Exp64(r)) && Frac64(r) == (shifted & 0x7F_FFFF) << 29;
      DenormalValue(f, shifted, k, Exp64(r));
    } else if e == 0 {
      ZeroValue();
    } else {
      PayloadKept(f);
    }
  }

  lemma NormalValue(e: bv64, f: bv64)
    requires 0 < e < 255 && f < 0x80_0000
    ensures e + 896 != 0 && e + 896 != 0x7FF
    ensures Scaled(0x10_0000_0000_0000 + Int(f << 29), Int(e + 896) - 1075) == Scaled(0x80_0000 + Int(f), Int(e) - 150)
  {
    hide P, Int, Scaled;
    FractionInt(f);
    ExponentInt(e);
    TwentyNine(0x80_0000 + Int(f), Int(e) - 179);
  }

  lemma DenormalValue(f: bv64, shifted: bv64, k: bv64, exponent: bv64)
    requires Normalises(f, shifted, k, exponent)
    ensures exponent != 0 && exponent != 0x7FF
    ensures Scaled(0x10_0000_0000_0000 + Int((shifted & 0x7F_FFFF) << 29), Int(exponent) - 1075) == Scaled(Int(f), -149)
  {
    hide P, Int, Scaled;
    LeadingInt(shifted);
    FractionInt(shifted & 0x7F_FFFF);
    SmallConstants();
    TwentyNine(Int(shifted), Int(exponent) - 1075);
  }

  lemma ZeroValue()
    ensures Scaled(Int(0), -1074) == Scaled(Int(0), -149) == 0.0
  {
    SmallConstants();
    hide P;
  }

  lemma PayloadKept(f: bv64)
    requires f < 0x80_0000
    ensures f << 29 == 0 <==> f == 0
  {
  }

  // Double to single

  /** `dolrecomp_f32_to_bits` */
  function ToBits(r: bv64): bv32 {
    var exp := Exp64(r);
    if exp > 896 || r & 0x7FFF_FFFF_FFFF_FFFF == 0 then Folded(r)
    else if exp >= 874 then
      WithSign(Shrunk(Leading(Frac64(r)), 905 - exp), r)
    else Folded(r)
  }

  /** The fraction below its leading one, at the top of a 32-bit word. */
  function Leading(fraction: bv64): (x: bv64)
    ensures x <= 0xFFFF_FFFF
  {
    (0x8000_0000 | (fraction >> 21)) & 0xFFFF_FFFF
  }

  function WithSign(magnitude: bv64, r: bv64): bv32
    requires magnitude <= 0xFFFF_FFFF
  {
    (magnitude | ((r >> 32) & 0x8000_0000)) as bv32
  }

  /** A right shift of a 32-bit word by less than 32. */
  function Shrunk(x: bv64, shift: bv64): (y: bv64)
    requires x <= 0xFFFF_FFFF
    ensures y <= 0xFFFF_FFFF
  {
    if shift < 32 then x >> shift else 0
  }

  function Folded(r: bv64): bv32 { (((r >> 32) & 0xC000_0000) | ((r >> 29) & 0x3FFF_FFFF)) as bv32 }

  /** Converting a single to a double and back gives every bit of the single again, whatever it
      is: normal, denormal, zero, infinite or not a number. */
  lemma RoundTrip(b: bv32, r: bv64)
    requires Extends(b, r)
    ensures ToBits(r) == b
  {
    hide Valued, Normalises, ToBits, Exp32, Frac32, Negative32, Exp64, Frac64, Negative64;
    ByteOrZero(b);
    ZeroShifted();
    var e, f := Exp32(b), Frac32(b);
    if e == 0 && f != 0 {
      var shifted: bv64, k: bv64 :| Normalises(f, shifted, k, Exp64(r)) && Frac64(r) == (shifted & 0x7F_FFFF) << 29;
      DenormalReturns(b, r, shifted, k);
    } else if e == 0 {
      ZeroReturns(b, r);
    } else if e == 255 {
      SpecialReturns(b, r);
    } else {
      NormalReturns(b, r);
    }
  }

  lemma NormalReturns(b: bv32, r: bv64)
    requires 0 < Exp32(b) < 255 && Negative64(r) == Negative32(b) && Exp64(r) == Exp32(b) + 896
      && Frac64(r) == Frac32(b) << 29
    ensures ToBits(r) == b
  {
    hide Folded, Negative64, Negative32, Frac64, Frac32, Exp64, Shrunk;
    AboveThreshold(b);
    FoldedBack(b, r);
  }

  lemma ZeroShifted()
    ensures 0 as bv64 << 29 == 0
  {
  }

  lemma AboveThreshold(b: bv32)
    requires 0 < Exp32(b) < 255
    ensures Exp32(b) + 896 > 896
  {
  }

  lemma FoldedBack(b: bv32, r: bv64)
    requires 0 < Exp32(b) < 255 && Negative64(r) == Negative32(b) && Exp64(r) == Exp32(b) + 896
      && Frac64(r) == Frac32(b) << 29
    ensures Folded(r) == b
  {
  }

  lemma SpecialReturns(b: bv32, r: bv64)
    requires Exp32(b) == 255 && Negative64(r) == Negative32(b) && Exp64(r) == 0x7FF && Frac64(r) == Frac32(b) << 29
    ensures ToBits(r) == b
  {
  }

  lemma ZeroReturns(b: bv32, r: bv64)
    requires Exp32(b) == 0 && Frac32(b) == 0 && Negative64(r) == Negative32(b) && Exp64(r) == 0 && Frac64(r) == 0
    ensures ToBits(r) == b
  {
  }

  lemma DenormalReturns(b: bv32, r: bv64, shifted: bv64, k: bv64)
    requires Exp32(b) == 0 && Negative64(r) == Negative32(b) && Normalises(Frac32(b), shifted, k, Exp64(r))
    requires Frac64(r) == (shifted & 0x7F_FFFF) << 29
    ensures ToBits(r) == b
  {
    hide Normalises, Negative64, Negative32, Frac64, Frac32, Exp64, Exp32, Shrunk, Leading, WithSign, Folded;
    DenormalExponent(Frac32(b), shifted, k, r);
    ShiftedBack(b, shifted, k, Exp64(r));
    SignRestored(b, r);
  }

  lemma DenormalExponent(f: bv64, shifted: bv64, k: bv64, r: bv64)
    requires Normalises(f, shifted, k, Exp64(r))
    ensures 874 <= Exp64(r) <= 896 && r & 0x7FFF_FFFF_FFFF_FFFF != 0
  {
    hide Valued;
  }

  lemma ShiftedBack(b: bv32, shifted: bv64, k: bv64, exponent: bv64)
    requires Normalises(Frac32(b), shifted, k, exponent)
    ensures Shrunk(Leading((shifted & 0x7F_FFFF) << 29), 905 - exponent) == Frac32(b)
  {
    hide Valued, Frac32, Shrunk, Leading;
    FractionFits(b);
    LeadingRestored(shifted);
    FractionBack(Frac32(b), k);
    ExponentBack(k);
  }

  lemma ExponentBack(k: bv64)
    ensures 905 - (897 - k) == 8 + k
  {
  }

  lemma LeadingRestored(shifted: bv64)
    requires 0x80_0000 <= shifted < 0x100_0000
    ensures Leading((shifted & 0x7F_FFFF) << 29) == shifted << 8 <= 0xFFFF_FFFF
  {
  }

  lemma FractionBack(f: bv64, k: bv64)
    requires f < 0x80_0000 && 1 <= k <= 23 && f << k < 0x100_0000
    ensures (f << k) << 8 <= 0xFFFF_FFFF && Shrunk((f << k) << 8, 8 + k) == f
  {
  }

  lemma SignRestored(b: bv32, r: bv64)
    requires Exp32(b) == 0 && Negative64(r) == Negative32(b)
    ensures Frac32(b) <= 0xFFFF_FFFF && WithSign(Frac32(b), r) == b
  {
  }

  /** Both conversions one after the other. */
  method ThereAndBack(bits: bv32) returns (again: bv32)
    ensures again == bits
  {
    hide ToBits, Extends;
    var double := FromBits(bits);
    RoundTrip(bits, double);
    again := ToBits(double);
  }
}
