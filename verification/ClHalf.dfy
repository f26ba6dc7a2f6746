/** include/CL/cl_half.h: the conversions step by step, on machine words, as instances of the parametric ones. */
module ClHalf {
  import opened Bits
  import opened Conversion
  import opened ConversionLaws
  import opened Formats
  import opened Powers
  import opened Rounding
  import opened Widening

  const CL_HALF_EXP_MASK := 0x7C00
  const CL_HALF_MAX_FINITE_MAG := 0x7BFF

  const CL_FLT_MANT_DIG := 24
  const CL_FLT_MAX_EXP := 128
  const CL_DBL_MANT_DIG := 53
  const CL_DBL_MAX_EXP := 1024
  const CL_HALF_MANT_DIG := 11
  const CL_HALF_MAX_EXP := 16
  const CL_HALF_MIN_EXP := -13

  // ----- Fields of a machine word -----

  /** A format whose exponent field is w bits wide. */
  predicate HasFieldWidth(f: Format, w: nat) {
    2 * f.bias + 2 == Pow2(w)
  }

  /** Shifting and masking a word extracts the sign, the exponent field and the trailing significand. */
  lemma WordFields(f: Format, w: nat, b: nat)
    requires HasFieldWidth(f, w) && IsPattern(f, b)
    ensures Shr(b, f.precision - 1 + w) == if Negative(f, b) then 1 else 0
    ensures Low(Shr(b, f.precision - 1), w) == ExponentField(f, Magnitude(f, b))
    ensures Low(b, f.precision - 1) == Trailing(f, Magnitude(f, b))
  {
    var n, p := Magnitude(f, b), f.precision - 1;
    var sign := if Negative(f, b) then 1 else 0;
    Pow2Sum(w, p);
    assert SignBit(f) == Pow2(w) * Pow2(p);
    Pow2Sum(p, w);
    SplitUnique(b, p + w, sign, n);
    assert b == (sign * Pow2(w)) * Pow2(p) + n;
    ShrAboveLow(sign * Pow2(w), n, p);
    FieldBelow(f, w, n);
    SplitUnique(sign * Pow2(w) + Shr(n, p), w, sign, Shr(n, p));
  }

  lemma FieldBelow(f: Format, w: nat, n: nat)
    requires HasFieldWidth(f, w) && n < SignBit(f)
    ensures ExponentField(f, n) < Pow2(w)
  {
    ShrBelow(n, f.precision - 1, Pow2(w));
  }

  // ----- Putting a half together -----

  /** (sign << 15) | (exponent << 10) | mantissa, for parts that fit. */
  lemma HalfWord(sign: nat, e: nat, m: nat)
    requires sign <= 1 && e < 32 && m < 0x400
    ensures Or(Or(Shl(sign, 15), Shl(e, 10)), m) == sign * 0x8000 + e * 0x400 + m
  {
    Pow2Table();
    ShlIsMul(sign, 15);
    ShlIsMul(e, 10);
    OrDisjoint(sign, 15, e * 0x400);
    OrDisjoint(sign * 32 + e, 10, m);
  }

  lemma SignedWord(sign: nat, m: nat)
    requires sign <= 1 && m < 0x8000
    ensures Or(Shl(sign, 15), m) == sign * 0x8000 + m
    ensures Shl(sign, 15) == sign * 0x8000
  {
    Pow2Table();
    ShlIsMul(sign, 15);
    OrDisjoint(sign, 15, m);
  }

  lemma CarryBit(m: nat)
    requires m <= 0x400
    ensures And(m, 0x400) != 0 <==> m == 0x400
  {
    hide And, Shr, Low, Pow2;
    Pow2Table();
    AndBit(m, 10);
    if m == 0x400 {
      SplitUnique(m, 10, 1, 0);
    } else {
      LowOfSmall(m, 10);
    }
  }

  lemma OddBit(m: nat)
    ensures And(m, 1) != 0 <==> m % 2 == 1
  {
    AndMask(m, 1);
    assert Low(m, 1) == m % 2;
  }

  // ----- cl_half_handle_overflow, cl_half_handle_underflow -----

  function HandleOverflow(mode: Mode, sign: U16): U16 {
    if mode == RTZ then ToU16(Or(Shl(sign, 15), CL_HALF_MAX_FINITE_MAG))
    else if mode == RTP && sign != 0 then ToU16(Or(Shl(1, 15), CL_HALF_MAX_FINITE_MAG))
    else if mode == RTN && sign == 0 then CL_HALF_MAX_FINITE_MAG
    else ToU16(Or(Shl(sign, 15), CL_HALF_EXP_MASK))
  }

  function HandleUnderflow(mode: Mode, sign: U16): U16 {
    if mode == RTP && sign == 0 then ToU16(Or(Shl(sign, 15), 1))
    else if mode == RTN && sign != 0 then ToU16(Or(Shl(sign, 15), 1))
    else ToU16(Shl(sign, 15))
  }

  lemma PackedHalf(sign: nat, m: nat)
    requires sign <= 1
    ensures Pack(HALF, sign == 1, m) == sign * 0x8000 + m
  {
    HalfLayout();
  }

  lemma OverflowWord(mode: Mode, sign: U16)
    requires sign <= 1
    ensures HandleOverflow(mode, sign) == Pack(HALF, sign == 1, OverflowMag(HALF, mode, sign == 1))
  {
    hide Or;
    HalfLayout();
    SignedWord(sign, CL_HALF_MAX_FINITE_MAG);
    SignedWord(sign, CL_HALF_EXP_MASK);
  }

  lemma UnderflowWord(mode: Mode, sign: U16)
    requires sign <= 1
    ensures HandleUnderflow(mode, sign) == Pack(HALF, sign == 1, UnderflowMag(mode, sign == 1))
  {
    hide Or;
    HalfLayout();
    SignedWord(sign, 1);
  }

  lemma HalfRange()
    ensures Exp2(HALF.bias + 1) == 65536.0
  {
    hide Exp2;
    Exp2OfNat(16);
    Pow2Table();
  }

  /** Beyond the range, the overflow helper returns what IEEE 754 prescribes. */
  lemma OverflowIsCorrect(mode: Mode, sign: U16, x: real)
    requires sign <= 1 && SignFits(sign == 1, x) && Abs(x) >= 65536.0
    ensures HandleOverflow(mode, sign) == Rounded(HALF, mode, sign == 1, x)
  {
    hide HandleOverflow, Exp2;
    OverflowWord(mode, sign);
    HalfRange();
    OverflowPath(HALF, mode, sign == 1, x);
  }

  /** Below half the smallest magnitude, the underflow helper returns what IEEE 754 prescribes. */
  lemma UnderflowIsCorrect(mode: Mode, sign: U16, x: real)
    requires sign <= 1 && SignFits(sign == 1, x) && 0.0 < Abs(x) < Exp2(-25)
    ensures HandleUnderflow(mode, sign) == Rounded(HALF, mode, sign == 1, x)
  {
    UnderflowWord(mode, sign);
    UnderflowPath(HALF, mode, sign == 1, x);
  }

  // ----- cl_half_from_float -----

  /** Sign, exponent field and trailing significand of a binary32 word, as the code extracts them. */
  lemma FloatFields(f: U32)
    ensures IsPattern(FLOAT, f)
    ensures ToU16(Shr(f, 31)) == if Negative(FLOAT, f) then 1 else 0
    ensures And(Shr(f, CL_FLT_MANT_DIG - 1), 0xFF) == ExponentField(FLOAT, Magnitude(FLOAT, f)) <= 0xFF
    ensures And(f, Shl(1, CL_FLT_MANT_DIG - 1) - 1) == Trailing(FLOAT, Magnitude(FLOAT, f)) < 0x80_0000
  {
    hide And, Shr, Shl, Low;
    FloatLayout();
    WordFields(FLOAT, 8, f);
    AndMask(Shr(f, 23), 8);
    AndMask(f, 23);
    ShlIsMul(1, 23);
    Decoded(FLOAT, Magnitude(FLOAT, f));
    FieldBelow(FLOAT, 8, Magnitude(FLOAT, f));
  }

  lemma FloatLayout()
    ensures Hidden(FLOAT) == Pow2(23) == 0x80_0000 && SignBit(FLOAT) == 0x8000_0000 && InfMag(FLOAT) == 0x7F80_0000
    ensures Pow2(8) == 0x100 && HasFieldWidth(FLOAT, 8)
  {
    Pow2Table();
  }

  /** A quieted NaN: the exponent field all ones, the quiet bit set. */
  lemma NaNWord(sign: nat, q: nat)
    requires sign <= 1 && q < 0x400
    ensures ToU16(Or(Or(Shl(sign, 15), CL_HALF_EXP_MASK), ToU16(Or(ToU16(q), 0x200))))
         == Pack(HALF, sign == 1, InfMag(HALF) + Or(q, QuietBit(HALF)))
  {
    hide Or, Shl, Low, Pow2, QuietBit;
    HalfLayout();
    QuietedPayload(q);
    ExponentMaskWord(sign, Or(q, 0x200));
  }

  lemma QuietedPayload(q: nat)
    requires q < 0x400
    ensures QuietBit(HALF) == 0x200 && Or(q, 0x200) < 0x400
  {
    hide Or, Low;
    Pow2Table();
    OrTopBit(q, 9);
    Split(q, 9);
  }

  lemma ExponentMaskWord(sign: nat, m: nat)
    requires sign <= 1 && m < 0x400
    ensures Or(Or(Shl(sign, 15), CL_HALF_EXP_MASK), m) == sign * 0x8000 + 0x7C00 + m
  {
    hide Or, Shl;
    Pow2Table();
    ShlIsMul(31, 10);
    HalfWord(sign, 31, m);
  }

  lemma InfinityWord(sign: nat)
    requires sign <= 1
    ensures ToU16(Or(Shl(sign, 15), CL_HALF_EXP_MASK)) == Pack(HALF, sign == 1, InfMag(HALF))
  {
    hide Or, Shl;
    HalfLayout();
    SignedWord(sign, CL_HALF_EXP_MASK);
  }

  lemma ZeroWord(sign: nat)
    requires sign <= 1
    ensures ToU16(Shl(sign, 15)) == Pack(HALF, sign == 1, 0)
  {
    hide Or, Shl;
    HalfLayout();
    SignedWord(sign, 0);
  }

  /** The word assembled after the carry test is the magnitude that the parametric conversion computes. */
  lemma AssembledWord(sign: nat, e: nat, m: nat)
    requires sign <= 1 && e <= 30 && m <= 0x400
    ensures Hidden(HALF) == 0x400 && (And(m, 0x400) != 0 <==> m == 0x400)
    ensures m < 0x400 ==> Or(Or(Shl(sign, 15), Shl(e, 10)), m) == Pack(HALF, sign == 1, Encode(HALF, e, m))
    ensures m == 0x400 ==> Or(Or(Shl(sign, 15), Shl(e + 1, 10)), 0) == Pack(HALF, sign == 1, Encode(HALF, e + 1, 0))
  {
    hide Or, Shl, And;
    HalfLayout();
    CarryBit(m);
    if m < 0x400 {
      HalfWord(sign, e, m);
    } else {
      HalfWord(sign, e + 1, 0);
    }
  }

  function Word(wide: bool, x: nat): nat {
    if wide then ToU64(x) else ToU32(x)
  }

  /**
   The shift and the rounding switch of both narrowing functions. Their two copies differ only in the word they
   compute in: 64 bits if `wide`, otherwise 32.
   */
  method RoundMantissa(wide: bool, sign: U16, mant: nat, lsbPos: nat, mode: Mode) returns (hMant: U16)
    requires sign <= 1 && 0 < lsbPos <= (if wide then 53 else 24) && Shr(mant, lsbPos) < 0x400
    ensures hMant == if RoundsUp(mode, sign == 1, Shr(mant, lsbPos), Low(mant, lsbPos), lsbPos)
                     then Shr(mant, lsbPos) + 1 else Shr(mant, lsbPos)
  {
    hide And, Shl, Shr, Low, Pow2;
    hMant := ToU16(Shr(mant, lsbPos));
    // both words are exact in either width: lsbPos stays below the width
    RoundingMasks(mant, lsbPos);
    var halfway := Word(wide, Shl(1, lsbPos - 1));
    var mask := Word(wide, Shl(halfway, 1) - 1);
    assert halfway == Pow2(lsbPos - 1) && And(mant, mask) == Low(mant, lsbPos);
    hide Word;
    OddBit(hMant);
    match mode {
      case RTE =>
        if And(mant, mask) > halfway {
          hMant := ToU16(hMant + 1);
        } else if And(mant, mask) == halfway {
          if And(hMant, 1) != 0 {
            hMant := ToU16(hMant + 1);
          }
        }
      case RTZ =>
      case RTP =>
        if And(mant, mask) != 0 && sign == 0 {
          hMant := ToU16(hMant + 1);
        }
      case RTN =>
        if And(mant, mask) != 0 && sign != 0 {
          hMant := ToU16(hMant + 1);
        }
    }
  }

  /** The mantissa carry and the final assembly of both narrowing functions. */
  method RoundAndAssemble(wide: bool, sign: U16, exponent: U16, mant: nat, lsbPos: nat, mode: Mode) returns (h: U16)
    requires sign <= 1 && exponent <= 30
    requires 0 < lsbPos <= (if wide then 53 else 24) && Shr(mant, lsbPos) < 0x400
    ensures h == Pack(HALF, sign == 1, ShiftAndRound(HALF, mode, sign == 1, exponent, mant, lsbPos))
  {
    hide And, Or, Shl, Shr, Low, Pow2, Pack, Encode, Hidden, RoundsUp;
    var hExp := exponent;
    var hMant := RoundMantissa(wide, sign, mant, lsbPos, mode);
    AssembledWord(sign, hExp, hMant);
    if And(hMant, 0x400) != 0 {
      hExp := ToU16(hExp + 1);
      hMant := 0;
    }
    WordInRange(sign, hExp, hMant);
    h := ToU16(Or(Or(Shl(sign, 15), Shl(hExp, 10)), hMant));
  }

  lemma WordInRange(sign: nat, e: nat, m: nat)
    requires sign <= 1 && e < 32 && m < 0x400
    ensures Or(Or(Shl(sign, 15), Shl(e, 10)), m) < 0x1_0000
  {
    HalfWord(sign, e, m);
  }

  /** The parametric conversion of a word with these fields, with the constants of the binary32 instance. */
  lemma FloatBranches(f: U32, mode: Mode, sign: nat, e: nat, t: nat)
    requires Negative(FLOAT, f) == (sign == 1)
    requires e == ExponentField(FLOAT, Magnitude(FLOAT, f)) && t == Trailing(FLOAT, Magnitude(FLOAT, f))
    ensures Convert(FLOAT, HALF, mode, f) == Pack(HALF, sign == 1,
            if e == 0xFF then (if t != 0 then InfMag(HALF) + Or(Shr(t, 13), QuietBit(HALF)) else InfMag(HALF))
            else if e == 0 && t == 0 then 0
            else if e >= 143 then OverflowMag(HALF, mode, sign == 1)
            else if e < 102 then UnderflowMag(mode, sign == 1)
            else if e < 113 then ShiftAndRound(HALF, mode, sign == 1, 0, Hidden(FLOAT) + t, 126 - e)
            else ShiftAndRound(HALF, mode, sign == 1, e - 112, t, 13))
  {
    hide Or, Shr, Hidden, InfMag, ShiftAndRound, QuietBit, OverflowMag, UnderflowMag, Pack;
  }

  /** The exponent conversions lose nothing where their results are used. */
  lemma FloatExponents(e: int)
    requires 0 <= e <= 0xFF
    ensures ToI32(ToU32(e - CL_FLT_MAX_EXP + 1)) == e - 127
    ensures 113 <= e <= 142 ==> ToU16(e - 127 + CL_HALF_MAX_EXP - 1) == e - 112
    ensures e < 113 ==> ToU32(-(e - 127) + (CL_FLT_MANT_DIG - 25)) == 126 - e
  {
  }

  method FromFloat(f: U32, mode: Mode) returns (h: U16)
    ensures h == Convert(FLOAT, HALF, mode, f)
    ensures IsFinite(FLOAT, f) ==> SignFits(Negative(FLOAT, f), SignedValue(FLOAT, f))
    ensures IsFinite(FLOAT, f) ==> h == Rounded(HALF, mode, Negative(FLOAT, f), SignedValue(FLOAT, f))
  {
    hide And, Or, Shl, Shr, Low, Pow2, Hidden, InfMag, Pack, ExponentField, Trailing, Magnitude, Negative,
         Convert, ShiftAndRound, QuietBit, OverflowMag, UnderflowMag, HandleOverflow, HandleUnderflow, ToU16, ToU32,
         ToU64, ToI32, ToI64, Rounded, SignedValue, SignFits, IsFinite;
    if IsFinite(FLOAT, f) {
      ConvertIsCorrectlyRounded(FLOAT, HALF, mode, f);
    }
    var sign := ToU16(Shr(f, 31));
    var fExp := And(Shr(f, CL_FLT_MANT_DIG - 1), 0xFF);
    var fMant := And(f, Shl(1, CL_FLT_MANT_DIG - 1) - 1);
    FloatFields(f);
    FloatBranches(f, mode, sign, fExp, fMant);
    FloatExponents(fExp);
    // FloatExponents: a difference that wraps as unsigned comes back as signed
    var exp := ToI32(ToU32(fExp - CL_FLT_MAX_EXP + 1));
    // truncated outside the range of the normal halves, where it is not used
    var hExp := ToU16(exp + CL_HALF_MAX_EXP - 1);
    var lsbPos := CL_FLT_MANT_DIG - CL_HALF_MANT_DIG;
    if fExp == 0xFF {
      if fMant != 0 {
        FloatPayload(fMant);
        NaNWord(sign, Shr(fMant, lsbPos));
        var hMant := ToU16(Shr(fMant, lsbPos));
        hMant := ToU16(Or(hMant, 0x200));
        return ToU16(Or(Or(Shl(sign, 15), CL_HALF_EXP_MASK), hMant));
      } else {
        InfinityWord(sign);
        return ToU16(Or(Shl(sign, 15), CL_HALF_EXP_MASK));
      }
    }
    if fExp == 0 && fMant == 0 {
      ZeroWord(sign);
      return ToU16(Shl(sign, 15));
    }
    if exp >= CL_HALF_MAX_EXP {
      OverflowWord(mode, sign);
      return HandleOverflow(mode, sign);
    }
    if exp < CL_HALF_MIN_EXP - CL_HALF_MANT_DIG - 1 {
      UnderflowWord(mode, sign);
      return HandleUnderflow(mode, sign);
    }
    FloatShifts(fExp, fMant);
    if exp < -14 {
      hExp := 0;
      fMant := Or(fMant, Shl(1, CL_FLT_MANT_DIG - 1));
      lsbPos := ToU32(-exp + (CL_FLT_MANT_DIG - 25));
    }
    h := RoundAndAssemble(false, sign, hExp, fMant, lsbPos, mode);
  }

  /** On the main paths of the binary32 instance the shift leaves at most ten bits. */
  lemma FloatShifts(e: nat, t: nat)
    requires 102 <= e <= 142 && t < 0x80_0000
    ensures e >= 113 ==> Shr(t, 13) < 0x400
    ensures e < 113 ==> Shr(Hidden(FLOAT) + t, 126 - e) < 0x400
    ensures Or(t, Shl(1, CL_FLT_MANT_DIG - 1)) == Hidden(FLOAT) + t
  {
    hide Or, Shl, Shr;
    FloatLayout();
    HalfLayout();
    MainPathRanges(FLOAT, HALF, e - 127, t);
    ImplicitOne(FLOAT, t);
  }

  lemma FloatPayload(t: nat)
    requires t < 0x80_0000
    ensures Shr(t, 13) < 0x400
  {
    Pow2Table();
    ShrBelow(t, 13, 0x400);
  }

  lemma ImplicitOne(f: Format, t: nat)
    requires t < Hidden(f)
    ensures Or(t, Shl(1, f.precision - 1)) == Hidden(f) + t
  {
    hide Or, Shl;
    ShlIsMul(1, f.precision - 1);
    OrTopBit(t, f.precision - 1);
    LowOfSmall(t, f.precision - 1);
  }

  /** The halfway point and the mask select exactly the bits that the shift drops. */
  lemma RoundingMasks(mant: nat, lsbPos: nat)
    requires 0 < lsbPos <= 53
    ensures Shl(1, lsbPos - 1) == Pow2(lsbPos - 1) < 0x20_0000_0000_0000
    ensures lsbPos <= 24 ==> Pow2(lsbPos - 1) <= 0x80_0000
    ensures Shl(Pow2(lsbPos - 1), 1) - 1 == Pow2(lsbPos) - 1 && Pow2(lsbPos) == 2 * Pow2(lsbPos - 1)
    ensures And(mant, Pow2(lsbPos) - 1) == Low(mant, lsbPos)
  {
    hide And, Low, Shl, Pow2;
    ShlIsMul(1, lsbPos - 1);
    ShlIsMul(Pow2(lsbPos - 1), 1);
    AndMask(mant, lsbPos);
    Doubling(lsbPos);
    Pow2Table();
    if lsbPos - 1 < 52 {
      Pow2Increases(lsbPos - 1, 52);
    }
    if lsbPos - 1 < 23 {
      Pow2Increases(lsbPos - 1, 23);
    }
  }

  lemma Doubling(k: nat)
    requires k > 0
    ensures Pow2(k) == 2 * Pow2(k - 1) && Pow2(1) == 2
  {
  }

  // ----- cl_half_from_double -----

  lemma DoubleLayout()
    ensures Hidden(DOUBLE) == Pow2(52) == 0x10_0000_0000_0000
    ensures SignBit(DOUBLE) == 0x8000_0000_0000_0000 && InfMag(DOUBLE) == 0x7FF0_0000_0000_0000
    ensures Pow2(11) == 0x800 && HasFieldWidth(DOUBLE, 11)
  {
    Pow2Table();
  }

  /** Sign, exponent field and trailing significand of a binary64 word, as the code extracts them. */
  lemma DoubleFields(d: U64)
    ensures IsPattern(DOUBLE, d)
    ensures ToU16(Shr(d, 63)) == if Negative(DOUBLE, d) then 1 else 0
    ensures And(Shr(d, CL_DBL_MANT_DIG - 1), 0x7FF) == ExponentField(DOUBLE, Magnitude(DOUBLE, d)) <= 0x7FF
    ensures And(d, Shl(1, CL_DBL_MANT_DIG - 1) - 1) == Trailing(DOUBLE, Magnitude(DOUBLE, d)) < 0x10_0000_0000_0000
  {
    hide And, Shr, Shl, Low;
    DoubleLayout();
    WordFields(DOUBLE, 11, d);
    AndMask(Shr(d, 52), 11);
    AndMask(d, 52);
    ShlIsMul(1, 52);
    Decoded(DOUBLE, Magnitude(DOUBLE, d));
    FieldBelow(DOUBLE, 11, Magnitude(DOUBLE, d));
  }

  /** The parametric conversion of a word with these fields, with the constants of the binary64 instance. */
  lemma DoubleBranches(d: U64, mode: Mode, sign: nat, e: nat, t: nat)
    requires Negative(DOUBLE, d) == (sign == 1)
    requires e == ExponentField(DOUBLE, Magnitude(DOUBLE, d)) && t == Trailing(DOUBLE, Magnitude(DOUBLE, d))
    ensures Convert(DOUBLE, HALF, mode, d) == Pack(HALF, sign == 1,
            if e == 0x7FF then (if t != 0 then InfMag(HALF) + Or(Shr(t, 42), QuietBit(HALF)) else InfMag(HALF))
            else if e == 0 && t == 0 then 0
            else if e >= 1039 then OverflowMag(HALF, mode, sign == 1)
            else if e < 998 then UnderflowMag(mode, sign == 1)
            else if e < 1009 then ShiftAndRound(HALF, mode, sign == 1, 0, Hidden(DOUBLE) + t, 1051 - e)
            else ShiftAndRound(HALF, mode, sign == 1, e - 1008, t, 42))
  {
    hide Or, Shr, Hidden, InfMag, ShiftAndRound, QuietBit, OverflowMag, UnderflowMag, Pack;
  }

  /** On the main paths of the binary64 instance the shift leaves at most ten bits. */
  lemma DoubleShifts(e: nat, t: nat)
    requires 998 <= e <= 1038 && t < 0x10_0000_0000_0000
    ensures e >= 1009 ==> Shr(t, 42) < 0x400
    ensures e < 1009 ==> Shr(Hidden(DOUBLE) + t, 1051 - e) < 0x400
    ensures Or(t, Shl(1, CL_DBL_MANT_DIG - 1)) == Hidden(DOUBLE) + t
  {
    hide Or, Shl, Shr;
    DoubleLayout();
    HalfLayout();
    MainPathRanges(DOUBLE, HALF, e - 1023, t);
    ImplicitOne(DOUBLE, t);
  }

  lemma DoublePayload(t: nat)
    requires t < 0x10_0000_0000_0000
    ensures Shr(t, 42) < 0x400
  {
    Pow2Table();
    Pow2Sum(42, 10);
    ShrBelow(t, 42, 0x400);
  }

  /** The exponent conversions lose nothing where their results are used. */
  lemma DoubleExponents(e: int)
    requires 0 <= e <= 0x7FF
    ensures ToI64(ToU64(e - CL_DBL_MAX_EXP + 1)) == e - 1023
    ensures 1009 <= e <= 1038 ==> ToU16(e - 1023 + CL_HALF_MAX_EXP - 1) == e - 1008
    ensures e < 1009 ==> ToU32(-(e - 1023) + (CL_DBL_MANT_DIG - 25)) == 1051 - e
  {
  }

  method FromDouble(d: U64, mode: Mode) returns (h: U16)
    ensures h == Convert(DOUBLE, HALF, mode, d)
    ensures IsFinite(DOUBLE, d) ==> SignFits(Negative(DOUBLE, d), SignedValue(DOUBLE, d))
    ensures IsFinite(DOUBLE, d) ==> h == Rounded(HALF, mode, Negative(DOUBLE, d), SignedValue(DOUBLE, d))
  {
    hide And, Or, Shl, Shr, Low, Pow2, Hidden, InfMag, Pack, ExponentField, Trailing, Magnitude, Negative,
         Convert, ShiftAndRound, QuietBit, OverflowMag, UnderflowMag, HandleOverflow, HandleUnderflow, ToU16, ToU32,
         ToU64, ToI32, ToI64, Rounded, SignedValue, SignFits, IsFinite;
    if IsFinite(DOUBLE, d) {
      ConvertIsCorrectlyRounded(DOUBLE, HALF, mode, d);
    }
    var sign := ToU16(Shr(d, 63));
    var dExp := And(Shr(d, CL_DBL_MANT_DIG - 1), 0x7FF);
    var dMant := And(d, Shl(1, CL_DBL_MANT_DIG - 1) - 1);
    DoubleFields(d);
    DoubleBranches(d, mode, sign, dExp, dMant);
    DoubleExponents(dExp);
    // DoubleExponents: a difference that wraps as unsigned comes back as signed
    var exp := ToI64(ToU64(dExp - CL_DBL_MAX_EXP + 1));
    // truncated outside the range of the normal halves, where it is not used
    var hExp := ToU16(exp + CL_HALF_MAX_EXP - 1);
    var lsbPos := CL_DBL_MANT_DIG - CL_HALF_MANT_DIG;
    if dExp == 0x7FF {
      if dMant != 0 {
        DoublePayload(dMant);
        NaNWord(sign, Shr(dMant, lsbPos));
        var hMant := ToU16(Shr(dMant, lsbPos));
        hMant := ToU16(Or(hMant, 0x200));
        return ToU16(Or(Or(Shl(sign, 15), CL_HALF_EXP_MASK), hMant));
      } else {
        InfinityWord(sign);
        return ToU16(Or(Shl(sign, 15), CL_HALF_EXP_MASK));
      }
    }
    if dExp == 0 && dMant == 0 {
      ZeroWord(sign);
      return ToU16(Shl(sign, 15));
    }
    if exp >= CL_HALF_MAX_EXP {
      OverflowWord(mode, sign);
      return HandleOverflow(mode, sign);
    }
    if exp < CL_HALF_MIN_EXP - CL_HALF_MANT_DIG - 1 {
      UnderflowWord(mode, sign);
      return HandleUnderflow(mode, sign);
    }
    DoubleShifts(dExp, dMant);
    if exp < -14 {
      hExp := 0;
      dMant := Or(dMant, Shl(1, CL_DBL_MANT_DIG - 1));
      lsbPos := ToU32(-exp + (CL_DBL_MANT_DIG - 25));
    }
    h := RoundAndAssemble(true, sign, hExp, dMant, lsbPos, mode);
  }

  // ----- cl_half_to_float -----

  /** Sign, exponent field and trailing significand of a binary16 word, as the code extracts them. */
  lemma HalfFields(h: U16)
    ensures IsPattern(HALF, h)
    ensures Shr(h, 15) == if Negative(HALF, h) then 1 else 0
    ensures And(Shr(h, CL_HALF_MANT_DIG - 1), 0x1F) == ExponentField(HALF, Magnitude(HALF, h)) <= 0x1F
    ensures And(h, 0x3FF) == Trailing(HALF, Magnitude(HALF, h)) < 0x400
  {
    hide And, Shr, Low;
    HalfLayout();
    Pow2Table();
    WordFields(HALF, 5, h);
    AndMask(Shr(h, 10), 5);
    AndMask(h, 10);
    Decoded(HALF, Magnitude(HALF, h));
    FieldBelow(HALF, 5, Magnitude(HALF, h));
  }

  /** (sign << 31) | (exponent << 23) | mantissa, for parts that fit. */
  lemma FloatWord(sign: nat, e: nat, m: nat)
    requires sign <= 1 && e < 0x100 && m < 0x80_0000
    ensures ToU32(Or(Or(Shl(sign, 31), Shl(e, 23)), m)) == Pack(FLOAT, sign == 1, Encode(FLOAT, e, m))
  {
    hide Or, Shl, Pow2;
    Pow2Table();
    FloatLayout();
    ShlIsMul(sign, 31);
    ShlIsMul(e, 23);
    OrDisjoint(sign, 31, e * 0x80_0000);
    OrDisjoint(sign * 0x100 + e, 23, m);
  }

  lemma QuietFloatWord(sign: nat, t: nat)
    requires sign <= 1 && t < 0x400
    ensures ToU32(Or(Or(Shl(sign, 31), 0x7F80_0000), ToU32(Or(ToU32(Shl(t, 13)), 0x40_0000))))
         == Pack(FLOAT, sign == 1, InfMag(FLOAT) + Or(t * 0x2000, QuietBit(FLOAT)))
  {
    hide Or, Shl, Pow2, Low;
    Pow2Table();
    FloatLayout();
    ShlIsMul(t, 13);
    OrTopBit(t * 0x2000, 22);
    Split(t * 0x2000, 22);
    ShlIsMul(255, 23);
    FloatWord(sign, 255, Or(t * 0x2000, 0x40_0000));
  }

  lemma InfiniteFloatWord(sign: nat)
    requires sign <= 1
    ensures ToU32(Or(Shl(sign, 31), 0x7F80_0000)) == Pack(FLOAT, sign == 1, InfMag(FLOAT))
  {
    hide Or, Shl, Pow2;
    Pow2Table();
    FloatLayout();
    ShlIsMul(sign, 31);
    OrDisjoint(sign, 31, 0x7F80_0000);
  }

  /** The branches of the widening, with the constants of the binary16 to binary32 instance. */
  lemma WidenBranches(h: U16, sign: nat, e: nat, t: nat)
    requires Negative(HALF, h) == (sign == 1) && IsPattern(HALF, h)
    requires e == ExponentField(HALF, Magnitude(HALF, h)) && t == Trailing(HALF, Magnitude(HALF, h))
    ensures e == 0 && t > 0 ==> LeadingShift(t, 0x400) <= 10 && 0x400 <= t * Pow2(LeadingShift(t, 0x400))
    ensures Widen(HALF, FLOAT, h) == Pack(FLOAT, sign == 1,
            if e == 0x1F then (if t != 0 then InfMag(FLOAT) + Or(t * 0x2000, QuietBit(FLOAT)) else InfMag(FLOAT))
            else if e > 0 then Encode(FLOAT, e + 112, t * 0x2000)
            else if t == 0 then 0
            else Encode(FLOAT, 113 - LeadingShift(t, 0x400), (t * Pow2(LeadingShift(t, 0x400)) - 0x400) * 0x2000))
  {
    hide Or, Shr, Low, QuietBit, Pack, LeadingShift, Encode, Pow2, ExponentField, Trailing;
    Pow2Table();
    HalfLayout();
    var n := Magnitude(HALF, h);
    FiniteField(HALF, n);
    FieldBelow(HALF, 5, n);
    if e == 0x1F {
      SpecialFields(HALF, h);
    } else if e == 0 && t > 0 {
      Decoded(HALF, n);
      Normalised(t, 10);
    }
  }

  lemma LeadingBit(m: nat)
    requires m < 0x800
    ensures And(m, 0x400) == 0 <==> m < 0x400
    ensures And(m, 0x3FF) == if m < 0x400 then m else m - 0x400
  {
    hide And, Low, Shr;
    Pow2Table();
    AndBit(m, 10);
    AndMask(m, 10);
    if m < 0x400 {
      LowOfSmall(m, 10);
    } else {
      SplitUnique(m, 10, 1, m - 0x400);
    }
  }

  method ToFloat(h: U16) returns (f: U32)
    ensures f == Widen(HALF, FLOAT, h)
    ensures IsFinite(HALF, h) ==> IsFinite(FLOAT, f) && Negative(FLOAT, f) == Negative(HALF, h)
    ensures IsFinite(HALF, h) ==> SignedValue(FLOAT, f) == SignedValue(HALF, h)
  {
    hide And, Or, Shl, Shr, Low, Pow2, Hidden, InfMag, Pack, Encode, ExponentField, Trailing, Magnitude, Negative,
         Widen, QuietBit, SignedValue, IsFinite, ToU32;
    if IsFinite(HALF, h) {
      WidenExact(HALF, FLOAT, h);
    }
    var sign := Shr(h, 15);
    var hExp := And(Shr(h, CL_HALF_MANT_DIG - 1), 0x1F);
    var hMant := And(h, 0x3FF);
    HalfFields(h);
    WidenBranches(h, sign, hExp, hMant);
    var exp := hExp - CL_HALF_MAX_EXP + 1;
    var fExp := ToU32(exp + CL_FLT_MAX_EXP - 1);
    WideExponents(hExp);
    if hExp == 0x1F {
      if hMant != 0 {
        QuietFloatWord(sign, hMant);
        var fMant := ToU32(Shl(hMant, CL_FLT_MANT_DIG - CL_HALF_MANT_DIG));
        fMant := ToU32(Or(fMant, 0x40_0000));
        return ToU32(Or(Or(Shl(sign, 31), 0x7F80_0000), fMant));
      } else {
        InfiniteFloatWord(sign);
        return ToU32(Or(Shl(sign, 31), 0x7F80_0000));
      }
    }
    if hExp == 0 {
      if hMant == 0 {
        fExp := 0;
      } else {
        var normalised, shift := Normalise(hMant);
        hMant := And(normalised, 0x3FF);
        LeadingBit(normalised);
        DenormalExponent(shift);
        fExp := ToU32(fExp - ToU32(shift - 1));
      }
    }
    FloatWord(sign, fExp, hMant * 0x2000);
    ZeroEncoding();
    ShiftedMantissa(hMant);
    f := ToU32(Or(Or(Shl(sign, 31), Shl(fExp, 23)), Shl(hMant, 13)));
  }

  lemma WideExponents(e: int)
    requires 0 <= e <= 0x1F
    ensures ToU32(e - CL_HALF_MAX_EXP + 1 + CL_FLT_MAX_EXP - 1) == e + 112
  {
  }

  lemma DenormalExponent(shift: int)
    requires 1 <= shift <= 10
    ensures ToU32(112 - ToU32(shift - 1)) == 113 - shift
  {
  }

  lemma ZeroEncoding()
    ensures Encode(FLOAT, 0, 0) == 0
  {
  }

  lemma ShiftedMantissa(m: nat)
    ensures Shl(m, 13) == m * 0x2000
  {
    Pow2Table();
    ShlIsMul(m, 13);
  }

  /**
   The normalisation loop doubles the mantissa until bit ten is set, and counts. It ends after one to ten steps and
   never leaves 16 bits.
   */
  method Normalise(mant: U16) returns (hMant: U16, shift: U32)
    requires 0 < mant < 0x400
    ensures shift == LeadingShift(mant, 0x400) && 1 <= shift <= 10
    ensures hMant == mant * Pow2(shift) && 0x400 <= hMant < 0x800
  {
    hide And, Shl, Pow2, LeadingShift;
    hMant, shift := mant, 0;
    NormaliseStart(mant);
    LeadingBit(hMant);
    while And(hMant, 0x400) == 0
      invariant 0 < hMant < 0x800 && shift <= 10
      invariant And(hMant, 0x400) == 0 <==> hMant < 0x400
      invariant hMant == mant * Pow2(shift)
      invariant LeadingShift(mant, 0x400) == shift + LeadingShift(hMant, 0x400)
      decreases 0x800 - hMant
    {
      NormaliseStep(mant, hMant, shift);
      hMant := ToU16(Shl(hMant, 1));
      shift := ToU32(shift + 1);
      LeadingBit(hMant);
    }
    NormaliseEnd(hMant);
  }

  lemma NormaliseStart(m: nat)
    requires 0 < m < 0x400
    ensures Pow2(0) == 1 && 1 <= LeadingShift(m, 0x400) <= 10
  {
    hide LeadingShift;
    Pow2Table();
    Normalised(m, 10);
  }

  lemma NormaliseStep(m: nat, doubled: nat, shift: nat)
    requires 0 < doubled < 0x400 && doubled == m * Pow2(shift)
    ensures Shl(doubled, 1) == 2 * doubled == m * Pow2(shift + 1)
    ensures LeadingShift(doubled, 0x400) == 1 + LeadingShift(2 * doubled, 0x400)
  {
    ShlIsMul(doubled, 1);
    TimesPow2(m, shift + 1);
  }

  lemma NormaliseEnd(m: nat)
    requires m >= 0x400
    ensures LeadingShift(m, 0x400) == 0
  {
  }

  // ----- There and back -----

  /** On machine words, in every rounding mode: each half survives the way to a float and back; a NaN is quieted. */
  method ToFloatAndBack(h: U16, mode: Mode) returns (back: U16)
    ensures back == if IsNaN(HALF, h) then Quieted(HALF, h) else h
  {
    hide Convert, Widen, Quieted, IsNaN, Rounded, SignedValue;
    var f := ToFloat(h);
    HalfLayout();
    RoundTrip(HALF, FLOAT, mode, h);
    back := FromFloat(f, mode);
  }
}
