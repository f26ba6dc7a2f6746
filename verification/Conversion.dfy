/**
 The narrowing conversion of include/CL/cl_half.h, stated once for every pair of formats, and its correctness.

 cl_half_from_float is the instance FLOAT to HALF, cl_half_from_double the instance DOUBLE to HALF. The code below
 works on integers only: it never looks at the value it is rounding.
 */
module Conversion {
  import opened Bits
  import opened Formats
  import opened Powers
  import opened Rounding

  /** The source has spare precision, and its denormals are far below half the smallest target magnitude. */
  predicate Narrows(src: Format, dst: Format) {
    src.precision > dst.precision && src.bias >= dst.bias + dst.precision
  }

  /** cl_half_handle_overflow, without the sign bit. */
  function OverflowMag(dst: Format, mode: Mode, neg: bool): nat {
    if mode == RTZ || (mode == RTP && neg) || (mode == RTN && !neg) then InfMag(dst) - 1 else InfMag(dst)
  }

  /** cl_half_handle_underflow, without the sign bit. */
  function UnderflowMag(mode: Mode, neg: bool): nat {
    if (mode == RTP && !neg) || (mode == RTN && neg) then 1 else 0
  }

  /** The rounding switch: q is the truncated significand, r the lsbPos bits shifted out. */
  predicate RoundsUp(mode: Mode, neg: bool, q: nat, r: nat, lsbPos: nat)
    requires lsbPos > 0
  {
    match mode
    case RTE => r > Pow2(lsbPos - 1) || (r == Pow2(lsbPos - 1) && q % 2 == 1)
    case RTZ => false
    case RTP => r != 0 && !neg
    case RTN => r != 0 && neg
  }

  /** Shift, round, and let a carry out of the significand bump the exponent. */
  function ShiftAndRound(dst: Format, mode: Mode, neg: bool, exponent: nat, mant: nat, lsbPos: nat): nat
    requires lsbPos > 0
  {
    var q := Shr(mant, lsbPos);
    var m := if RoundsUp(mode, neg, q, Low(mant, lsbPos), lsbPos) then q + 1 else q;
    if m == Hidden(dst) then Encode(dst, exponent + 1, 0) else Encode(dst, exponent, m)
  }

  /** The quiet bit of a NaN's significand. */
  function QuietBit(f: Format): nat {
    Pow2(f.precision - 2)
  }

  /** The branches of the conversion, on the exponent field and trailing significand of the source. */
  function NarrowFields(src: Format, dst: Format, mode: Mode, neg: bool, e: nat, t: nat): nat
    requires Narrows(src, dst)
  {
    var exp := e - src.bias;
    var drop := src.precision - dst.precision;
    if e == 2 * src.bias + 1 then
      if t != 0 then InfMag(dst) + Or(Shr(t, drop), QuietBit(dst)) else InfMag(dst)
    else if e == 0 && t == 0 then 0
    else if exp >= dst.bias + 1 then OverflowMag(dst, mode, neg)
    else if exp < 1 - dst.bias - dst.precision then UnderflowMag(mode, neg)
    else if exp < 1 - dst.bias then
      ShiftAndRound(dst, mode, neg, 0, Hidden(src) + t, -exp + drop + 1 - dst.bias)
    else ShiftAndRound(dst, mode, neg, exp + dst.bias, t, drop)
  }

  function NarrowMag(src: Format, dst: Format, mode: Mode, neg: bool, n: nat): nat
    requires Narrows(src, dst)
  {
    NarrowFields(src, dst, mode, neg, ExponentField(src, n), Trailing(src, n))
  }

  function Convert(src: Format, dst: Format, mode: Mode, b: nat): nat
    requires Narrows(src, dst)
  {
    Pack(dst, Negative(src, b), NarrowMag(src, dst, mode, Negative(src, b), Magnitude(src, b)))
  }

  // ----- Correctness -----

  /** x is what the rounding rules see when an integer significand is cut at bit lsbPos. */
  lemma Cut(s: nat, q: nat, r: nat, lsbPos: nat, u: real, gap: real, x: real)
    requires lsbPos > 0 && r < Pow2(lsbPos)
    requires s == q * Pow2(lsbPos) + r && u > 0.0
    requires IsProduct(x, s as real, u) && IsProduct(gap, Pow2(lsbPos) as real, u)
    ensures var below := x - q as real * gap;
            && 0.0 <= below < gap
            && (below == 0.0 <==> r == 0)
            && (2.0 * below > gap <==> r > Pow2(lsbPos - 1))
            && (2.0 * below == gap <==> r == Pow2(lsbPos - 1))
  {
    Distribute(q, Pow2(lsbPos), r, u, gap);
    CutOff(r, lsbPos, u, gap, r as real * u);
  }

  lemma CutOff(r: nat, lsbPos: nat, u: real, gap: real, below: real)
    requires lsbPos > 0 && r < Pow2(lsbPos) && u > 0.0
    requires IsProduct(gap, Pow2(lsbPos) as real, u) && IsProduct(below, r as real, u)
    ensures 0.0 <= below < gap
    ensures below == 0.0 <==> r == 0
    ensures 2.0 * below > gap <==> r > Pow2(lsbPos - 1)
    ensures 2.0 * below == gap <==> r == Pow2(lsbPos - 1)
  {
    var p := Pow2(lsbPos);
    CompareScaled(r, p, u, below, gap);
    CompareScaled(0, r, u, 0.0, below);
    assert IsProduct(2.0 * below, (2 * r) as real, u);
    CompareScaled(2 * r, p, u, 2.0 * below, gap);
    CompareScaled(p, 2 * r, u, gap, 2.0 * below);
  }

  lemma Distribute(q: nat, p: nat, r: nat, u: real, gap: real)
    requires IsProduct(gap, p as real, u)
    ensures (q * p + r) as real * u == q as real * gap + r as real * u
  {
    var a, b := q as real, p as real;
    assert (q * p + r) as real == a * b + r as real;
    assert (a * b) * u == a * (b * u);
  }

  lemma CompareScaled(a: nat, b: nat, u: real, x: real, y: real)
    requires u > 0.0 && IsProduct(x, a as real, u) && IsProduct(y, b as real, u)
    ensures a < b <==> x < y
    ensures a == b <==> x == y
  {
    assert y - x == (b - a) as real * u;
  }

  /** The main path: what is left after the shift is the floor, and the switch decides as the rules do. */
  lemma ShiftAndRoundCorrect(dst: Format, mode: Mode, neg: bool, exponent: nat, mant: nat, lsbPos: nat,
                             s: nat, u: real, x: real)
    requires lsbPos > 0 && u > 0.0 && SignFits(neg, x)
    requires Shr(mant, lsbPos) < Hidden(dst) && exponent <= 2 * dst.bias
    requires s == Significand(dst, exponent, Shr(mant, lsbPos)) * Pow2(lsbPos) + Low(mant, lsbPos)
    requires IsProduct(Abs(x), s as real, u) && IsProduct(Scale(dst, exponent), Pow2(lsbPos) as real, u)
    ensures Pack(dst, neg, ShiftAndRound(dst, mode, neg, exponent, mant, lsbPos)) == Rounded(dst, mode, neg, x)
  {
    var q, r := Shr(mant, lsbPos), Low(mant, lsbPos);
    var k := Encode(dst, exponent, q);
    var g := GridOf(dst);
    GridValid(dst);
    Split(mant, lsbPos);
    Cut(s, Significand(dst, exponent, q), r, lsbPos, u, Scale(dst, exponent), Abs(x));
    Encoded(dst, exponent, q);
    ValueStep(dst, k);
    EncodeBelowInf(dst, exponent, q);
    assert Floor(g, k, Abs(x));
    Evenness(dst, exponent, q);
    assert StepsUp(g, mode, neg, k, Abs(x)) == RoundsUp(mode, neg, q, r, lsbPos);
    RoundIsStepped(g, mode, neg, x, k);
    NextMultiple(exponent, Hidden(dst));
  }

  lemma EncodeBelowInf(f: Format, e: nat, t: nat)
    requires e <= 2 * f.bias && t < Hidden(f)
    ensures Encode(f, e, t) < InfMag(f)
  {
    NextMultiple(e, Hidden(f));
    MulMonotone(e + 1, 2 * f.bias + 1, Hidden(f));
  }

  lemma MulMonotone(a: nat, b: nat, c: nat)
    requires a <= b
    ensures a * c <= b * c
  {
  }

  /** The significand cut on the two main paths, and the bit it is cut at. */
  function ShiftAmount(src: Format, dst: Format, exp: int): int {
    if exp < 1 - dst.bias then -exp + (src.precision - dst.precision) + 1 - dst.bias
    else src.precision - dst.precision
  }

  /**
   Machine arithmetic loses nothing: on the main paths the shift stays within the source word, what is left after it
   fits the target's trailing significand, and rounding can only just reach the carry bit.
   */
  lemma MainPathRanges(src: Format, dst: Format, exp: int, t: nat)
    requires Narrows(src, dst) && t < Hidden(src)
    requires 1 - dst.bias - dst.precision <= exp <= dst.bias
    ensures src.precision - dst.precision <= ShiftAmount(src, dst, exp) <= src.precision
    ensures exp >= 1 - dst.bias ==> Shr(t, ShiftAmount(src, dst, exp)) < Hidden(dst)
    ensures exp < 1 - dst.bias ==> Shr(Hidden(src) + t, ShiftAmount(src, dst, exp)) < Hidden(dst)
  {
    var l := ShiftAmount(src, dst, exp);
    if exp >= 1 - dst.bias {
      Pow2Sum(dst.precision - 1, l);
      ShrBelow(t, l, Hidden(dst));
    } else {
      assert Hidden(src) + t < Pow2(src.precision);
      Pow2Sum(dst.precision - 1, l);
      if src.precision < dst.precision - 1 + l {
        Pow2Increases(src.precision, dst.precision - 1 + l);
      }
      ShrBelow(Hidden(src) + t, l, Hidden(dst));
    }
  }

  lemma ShrBelow(x: nat, k: nat, bound: nat)
    requires x < bound * Pow2(k)
    ensures Shr(x, k) < bound
  {
    Split(x, k);
    if Shr(x, k) >= bound {
      MulMonotone(bound, Shr(x, k), Pow2(k));
    }
  }

  /** One unit of the target's last place is 2^lsbPos units of the source's. */
  lemma UnitsPerGap(src: Format, dst: Format, e: nat, exponent: nat, lsbPos: nat)
    requires e > 0
    requires (if exponent == 0 then 1 else exponent) - dst.bias - (dst.precision - 1)
          == lsbPos + (e - src.bias - (src.precision - 1))
    ensures IsProduct(Scale(dst, exponent), Pow2(lsbPos) as real, Scale(src, e))
  {
    Exp2OfNat(lsbPos);
    Exp2Sum(lsbPos, e - src.bias - (src.precision - 1));
  }

  lemma SplitWithHidden(src: Format, dst: Format, t: nat, l: nat)
    requires src.precision == dst.precision + l
    ensures Hidden(src) + t == (Hidden(dst) + Shr(t, l)) * Pow2(l) + Low(t, l)
  {
    Split(t, l);
    Pow2Sum(dst.precision - 1, l);
  }

  lemma NormalPath(src: Format, dst: Format, mode: Mode, neg: bool, e: nat, t: nat, x: real)
    requires Narrows(src, dst) && SignFits(neg, x) && t < Hidden(src)
    requires 1 - dst.bias <= e - src.bias <= dst.bias
    requires IsProduct(Abs(x), (Hidden(src) + t) as real, Scale(src, e))
    ensures Pack(dst, neg, ShiftAndRound(dst, mode, neg, e - src.bias + dst.bias, t, src.precision - dst.precision))
         == Rounded(dst, mode, neg, x)
  {
    var exponent, l := e - src.bias + dst.bias, src.precision - dst.precision;
    MainPathRanges(src, dst, e - src.bias, t);
    SplitWithHidden(src, dst, t, l);
    UnitsPerGap(src, dst, e, exponent, l);
    ShiftAndRoundCorrect(dst, mode, neg, exponent, t, l, Hidden(src) + t, Scale(src, e), x);
  }

  lemma DenormalPath(src: Format, dst: Format, mode: Mode, neg: bool, e: nat, t: nat, x: real)
    requires Narrows(src, dst) && SignFits(neg, x) && t < Hidden(src)
    requires 1 - dst.bias - dst.precision <= e - src.bias < 1 - dst.bias
    requires IsProduct(Abs(x), (Hidden(src) + t) as real, Scale(src, e))
    ensures ShiftAmount(src, dst, e - src.bias) > 0
    ensures Pack(dst, neg, ShiftAndRound(dst, mode, neg, 0, Hidden(src) + t, ShiftAmount(src, dst, e - src.bias)))
         == Rounded(dst, mode, neg, x)
  {
    var s, l := Hidden(src) + t, ShiftAmount(src, dst, e - src.bias);
    MainPathRanges(src, dst, e - src.bias, t);
    Split(s, l);
    UnitsPerGap(src, dst, e, 0, l);
    ShiftAndRoundCorrect(dst, mode, neg, 0, s, l, s, Scale(src, e), x);
  }

  lemma OverflowPath(dst: Format, mode: Mode, neg: bool, x: real)
    requires SignFits(neg, x) && Abs(x) >= Exp2(dst.bias + 1)
    ensures Pack(dst, neg, OverflowMag(dst, mode, neg)) == Rounded(dst, mode, neg, x)
  {
    var g := GridOf(dst);
    GridValid(dst);
    PowerValue(dst, 2 * dst.bias + 1);
    Ascending(g, g.inf - 1, g.inf);
    assert Floor(g, g.inf - 1, Abs(x));
    RoundIsStepped(g, mode, neg, x, g.inf - 1);
  }

  lemma UnderflowPath(dst: Format, mode: Mode, neg: bool, x: real)
    requires SignFits(neg, x) && 0.0 < Abs(x) < Exp2(1 - dst.bias - dst.precision)
    ensures Pack(dst, neg, UnderflowMag(mode, neg)) == Rounded(dst, mode, neg, x)
  {
    var g := GridOf(dst);
    GridValid(dst);
    Encoded(dst, 0, 1);
    Exp2Succ(1 - dst.bias - dst.precision);
    assert g.v(1) == 2.0 * Exp2(1 - dst.bias - dst.precision);
    assert Floor(g, 0, Abs(x));
    RoundIsStepped(g, mode, neg, x, 0);
  }

  lemma LargeSource(src: Format, dst: Format, n: nat)
    requires ExponentField(src, n) - src.bias >= dst.bias + 1
    ensures Value(src, n) >= Exp2(dst.bias + 1)
  {
    InBinade(src, n);
    ExpAtLeast(dst.bias + 1, ExponentField(src, n) - src.bias);
  }

  lemma TinySource(src: Format, dst: Format, n: nat)
    requires Narrows(src, dst) && n > 0
    requires ExponentField(src, n) - src.bias < 1 - dst.bias - dst.precision
    ensures 0.0 < Value(src, n) < Exp2(1 - dst.bias - dst.precision)
  {
    var e := ExponentField(src, n);
    InBinade(src, n);
    ValueNonnegative(src, n);
    ExpAtLeast((if e == 0 then 1 else e + 1) - src.bias, 1 - dst.bias - dst.precision);
  }

  lemma SourceProduct(src: Format, n: nat)
    requires ExponentField(src, n) > 0
    ensures Trailing(src, n) < Hidden(src)
    ensures IsProduct(Value(src, n), (Hidden(src) + Trailing(src, n)) as real, Scale(src, ExponentField(src, n)))
  {
    Decoded(src, n);
  }

  lemma ZeroFields(src: Format, n: nat)
    ensures ExponentField(src, n) == 0 && Trailing(src, n) == 0 <==> n == 0
  {
    Decoded(src, n);
    Encoded(src, 0, 0);
  }

  lemma NarrowMagCorrect(src: Format, dst: Format, mode: Mode, neg: bool, n: nat, x: real)
    requires Narrows(src, dst) && n < InfMag(src)
    requires SignFits(neg, x) && Abs(x) == Value(src, n)
    ensures Pack(dst, neg, NarrowMag(src, dst, mode, neg, n)) == Rounded(dst, mode, neg, x)
  {
    hide Shr, Low, Pow2, Exp2, Value, Rounded, ShiftAndRound, OverflowMag, UnderflowMag, Hidden, InfMag, Pack,
         ExponentField, Trailing;
    var e, t := ExponentField(src, n), Trailing(src, n);
    var exp := e - src.bias;
    FiniteField(src, n);
    ZeroFields(src, n);
    if n == 0 {
      ValueNonnegative(src, n);
      ZeroRounds(dst, mode, neg);
    } else if exp >= dst.bias + 1 {
      LargeSource(src, dst, n);
      OverflowPath(dst, mode, neg, x);
    } else if exp < 1 - dst.bias - dst.precision {
      TinySource(src, dst, n);
      UnderflowPath(dst, mode, neg, x);
    } else {
      SourceProduct(src, n);
      if exp < 1 - dst.bias {
        DenormalPath(src, dst, mode, neg, e, t, x);
      } else {
        NormalPath(src, dst, mode, neg, e, t, x);
      }
    }
  }

  lemma SignedValueFits(f: Format, b: nat)
    ensures SignFits(Negative(f, b), SignedValue(f, b))
    ensures Abs(SignedValue(f, b)) == Value(f, Magnitude(f, b))
  {
    ValueNonnegative(f, Magnitude(f, b));
  }

  /** The conversion delivers, for every finite source and in every direction, exactly what IEEE 754 prescribes. */
  lemma ConvertIsCorrectlyRounded(src: Format, dst: Format, mode: Mode, b: nat)
    requires Narrows(src, dst) && IsFinite(src, b)
    ensures SignFits(Negative(src, b), SignedValue(src, b))
    ensures Convert(src, dst, mode, b) == Rounded(dst, mode, Negative(src, b), SignedValue(src, b))
  {
    SignedValueFits(src, b);
    NarrowMagCorrect(src, dst, mode, Negative(src, b), Magnitude(src, b), SignedValue(src, b));
  }

  lemma ExpAtLeast(a: int, b: int)
    requires a <= b
    ensures Exp2(a) <= Exp2(b)
  {
    if a < b {
      Exp2Increases(a, b);
    }
  }

  lemma FiniteField(f: Format, n: nat)
    ensures n < InfMag(f) <==> ExponentField(f, n) < 2 * f.bias + 1
  {
    var e := ExponentField(f, n);
    Decoded(f, n);
    if e < 2 * f.bias + 1 {
      EncodeBelowInf(f, e, Trailing(f, n));
    } else {
      MulMonotone(2 * f.bias + 1, e, Hidden(f));
    }
  }

  lemma ZeroRounds(dst: Format, mode: Mode, neg: bool)
    ensures Rounded(dst, mode, neg, 0.0) == Pack(dst, neg, 0)
  {
    var g := GridOf(dst);
    GridValid(dst);
    RoundOfNumber(g, mode, Num(neg, 0), 0.0);
  }
}
