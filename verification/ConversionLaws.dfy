/** What follows for the conversion, for all sources: order, symmetry, agreement, special data, thresholds. */
module ConversionLaws {
  import opened Bits
  import opened Conversion
  import opened Formats
  import opened Powers
  import opened Rounding

  /** The converted pattern is a pattern of the target, with the sign of the source. */
  lemma ConvertKeepsSign(src: Format, dst: Format, mode: Mode, b: nat)
    requires Narrows(src, dst) && IsPattern(src, b)
    ensures IsPattern(dst, Convert(src, dst, mode, b))
    ensures Negative(dst, Convert(src, dst, mode, b)) == Negative(src, b)
    ensures Magnitude(dst, Convert(src, dst, mode, b))
         == NarrowMag(src, dst, mode, Negative(src, b), Magnitude(src, b))
  {
    SignBitAboveInf(dst);
    if IsFinite(src, b) {
      ConvertIsCorrectlyRounded(src, dst, mode, b);
      RoundedIsRounding(dst, mode, Negative(src, b), SignedValue(src, b));
    } else {
      ConvertOfSpecial(src, dst, mode, b);
    }
  }

  /** Infinities stay infinities; a NaN stays a NaN, is quieted, and keeps the top bits of its payload. */
  lemma ConvertOfSpecial(src: Format, dst: Format, mode: Mode, b: nat)
    requires Narrows(src, dst) && IsPattern(src, b) && !IsFinite(src, b)
    ensures var t := Trailing(src, Magnitude(src, b));
            NarrowMag(src, dst, mode, Negative(src, b), Magnitude(src, b)) ==
            if IsInfinite(src, b) then InfMag(dst)
            else InfMag(dst) + QuietBit(dst) + Low(Shr(t, src.precision - dst.precision), dst.precision - 2)
    ensures InfMag(dst) <= NarrowMag(src, dst, mode, Negative(src, b), Magnitude(src, b)) < SignBit(dst)
    ensures IsNaN(src, b) <==> NarrowMag(src, dst, mode, Negative(src, b), Magnitude(src, b)) > InfMag(dst)
  {
    var n := Magnitude(src, b);
    var e, t := ExponentField(src, n), Trailing(src, n);
    var drop := src.precision - dst.precision;
    SpecialFields(src, b);
    SignBitAboveInf(dst);
    Pow2Sum(dst.precision - 1, drop);
    ShrBelow(t, drop, Hidden(dst));
    OrTopBit(Shr(t, drop), dst.precision - 2);
    Split(Shr(t, drop), dst.precision - 2);
  }

  lemma SpecialFields(src: Format, b: nat)
    requires IsPattern(src, b) && !IsFinite(src, b)
    ensures var n := Magnitude(src, b);
            && ExponentField(src, n) == 2 * src.bias + 1
            && n == InfMag(src) + Trailing(src, n)
            && Trailing(src, n) < Hidden(src)
  {
    var n := Magnitude(src, b);
    SignBitAboveInf(src);
    Encoded(src, 2 * src.bias + 1, n - InfMag(src));
  }

  function FlipSign(f: Format, b: nat): nat {
    Pack(f, !Negative(f, b), Magnitude(f, b))
  }

  /** Negating the source and mirroring the direction flips exactly the sign bit, NaNs and zeros included. */
  lemma ConvertSymmetric(src: Format, dst: Format, mode: Mode, b: nat)
    requires Narrows(src, dst) && IsPattern(src, b)
    ensures Convert(src, dst, Mirror(mode), FlipSign(src, b)) == FlipSign(dst, Convert(src, dst, mode, b))
  {
    hide NarrowFields, SignBit, Shr, Low;
    var neg, n := Negative(src, b), Magnitude(src, b);
    Packed(src, !neg, n);
    ConvertKeepsSign(src, dst, mode, b);
    NarrowMirrors(src, dst, mode, neg, ExponentField(src, n), Trailing(src, n));
  }

  lemma NarrowMirrors(src: Format, dst: Format, mode: Mode, neg: bool, e: nat, t: nat)
    requires Narrows(src, dst)
    ensures NarrowFields(src, dst, Mirror(mode), !neg, e, t) == NarrowFields(src, dst, mode, neg, e, t)
  {
    hide Shr, Low, Pow2, Hidden, InfMag, QuietBit, Or, Encode;
  }

  /**
   The result depends only on the sign and the exact value: two sources of any two formats that denote the same
   number convert to the same bits.
   */
  lemma ConvertDependsOnValue(src: Format, src': Format, dst: Format, mode: Mode, b: nat, b': nat)
    requires Narrows(src, dst) && Narrows(src', dst)
    requires IsFinite(src, b) && IsFinite(src', b')
    requires Negative(src, b) == Negative(src', b') && SignedValue(src, b) == SignedValue(src', b')
    ensures Convert(src, dst, mode, b) == Convert(src', dst, mode, b')
  {
    ConvertIsCorrectlyRounded(src, dst, mode, b);
    ConvertIsCorrectlyRounded(src', dst, mode, b');
  }

  lemma ConvertMeaning(src: Format, dst: Format, mode: Mode, b: nat)
    requires Narrows(src, dst) && IsPattern(src, b) && IsFinite(src, b)
    ensures GridOf(dst).Valid() && SignFits(Negative(src, b), SignedValue(src, b))
    ensures NumOf(dst, Convert(src, dst, mode, b)) == Round(GridOf(dst), mode, Negative(src, b), SignedValue(src, b))
  {
    ConvertIsCorrectlyRounded(src, dst, mode, b);
    GridValid(dst);
    SignBitAboveInf(dst);
    RoundIsRounding(GridOf(dst), mode, Negative(src, b), SignedValue(src, b));
    Packed(dst, Negative(src, b), Round(GridOf(dst), mode, Negative(src, b), SignedValue(src, b)).mag);
  }

  /** In each direction the conversion preserves order among all sources that are not NaNs, infinities included. */
  lemma ConvertMonotone(src: Format, dst: Format, mode: Mode, b: nat, c: nat)
    requires Narrows(src, dst)
    requires IsPattern(src, b) && IsPattern(src, c) && !IsNaN(src, b) && !IsNaN(src, c)
    requires Le(Meaning(src, b), Meaning(src, c))
    ensures Le(Meaning(dst, Convert(src, dst, mode, b)), Meaning(dst, Convert(src, dst, mode, c)))
  {
    if IsFinite(src, b) && IsFinite(src, c) {
      ConvertMeaning(src, dst, mode, b);
      ConvertMeaning(src, dst, mode, c);
      RoundMonotone(GridOf(dst), mode, Negative(src, b), SignedValue(src, b), Negative(src, c), SignedValue(src, c));
    } else {
      if IsInfinite(src, b) {
        InfinityConverts(src, dst, mode, b);
      }
      if IsInfinite(src, c) {
        InfinityConverts(src, dst, mode, c);
      }
    }
  }

  lemma InfinityConverts(src: Format, dst: Format, mode: Mode, b: nat)
    requires Narrows(src, dst) && IsPattern(src, b) && IsInfinite(src, b)
    ensures Meaning(dst, Convert(src, dst, mode, b)) == Meaning(src, b)
  {
    ConvertKeepsSign(src, dst, mode, b);
    ConvertOfSpecial(src, dst, mode, b);
  }

  /**
   RTN and RTP enclose the source, coincide exactly on representable values, leave nothing strictly between them
   otherwise, and the other two directions return one of the pair.
   */
  lemma ConvertBrackets(src: Format, dst: Format, b: nat)
    requires Narrows(src, dst) && IsPattern(src, b) && IsFinite(src, b)
    ensures var down, up := Convert(src, dst, RTN, b), Convert(src, dst, RTP, b);
            && Le(Meaning(dst, down), Meaning(src, b)) && Le(Meaning(src, b), Meaning(dst, up))
            && (down == up <==> Representable(GridOf(dst), SignedValue(src, b)))
            && (forall c: nat :: IsPattern(dst, c) && !IsNaN(dst, c)
                  && Le(Meaning(dst, down), Meaning(dst, c)) && Le(Meaning(dst, c), Meaning(dst, up))
                  ==> Meaning(dst, c) == Meaning(dst, down) || Meaning(dst, c) == Meaning(dst, up))
            && (Convert(src, dst, RTE, b) == down || Convert(src, dst, RTE, b) == up)
            && (Convert(src, dst, RTZ, b) == if Negative(src, b) then up else down)
  {
    var neg, x := Negative(src, b), SignedValue(src, b);
    ConvertMeaning(src, dst, RTN, b);
    ConvertMeaning(src, dst, RTP, b);
    RoundBrackets(GridOf(dst), neg, x);
    ConvertIsCorrectlyRounded(src, dst, RTN, b);
    ConvertIsCorrectlyRounded(src, dst, RTP, b);
    ConvertIsCorrectlyRounded(src, dst, RTE, b);
    ConvertIsCorrectlyRounded(src, dst, RTZ, b);
    forall c: nat | IsPattern(dst, c) && !IsNaN(dst, c)
                 && Le(Meaning(dst, Convert(src, dst, RTN, b)), Meaning(dst, c))
                 && Le(Meaning(dst, c), Meaning(dst, Convert(src, dst, RTP, b)))
      ensures || Meaning(dst, c) == Meaning(dst, Convert(src, dst, RTN, b))
              || Meaning(dst, c) == Meaning(dst, Convert(src, dst, RTP, b))
    {
      assert IsNum(GridOf(dst), NumOf(dst, c));
    }
  }

  /**
   The source has exactly one floor, the largest target magnitude not above it, and the result's magnitude is that
   integer or its successor.
   */
  lemma ConvertIsFloorOrSuccessor(src: Format, dst: Format, mode: Mode, b: nat) returns (k: nat)
    requires Narrows(src, dst) && IsPattern(src, b) && IsFinite(src, b)
    ensures forall j: nat :: Floor(GridOf(dst), j, Value(src, Magnitude(src, b))) <==> j == k
    ensures Magnitude(dst, Convert(src, dst, mode, b))
         == if StepsUp(GridOf(dst), mode, Negative(src, b), k, Value(src, Magnitude(src, b))) then k + 1 else k
  {
    ConvertMeaning(src, dst, mode, b);
    SignedValueFits(src, b);
    k := RoundFloor(GridOf(dst), mode, Negative(src, b), SignedValue(src, b));
    forall j: nat | Floor(GridOf(dst), j, Value(src, Magnitude(src, b)))
      ensures j == k
    {
      FloorUnique(GridOf(dst), j, k, Value(src, Magnitude(src, b)));
    }
  }

  // ----- Error -----

  lemma FieldFromRange(f: Format, k: nat, e: nat)
    requires Encode(f, e, 0) <= k < Encode(f, e + 1, 0)
    ensures ExponentField(f, k) == e
  {
    NextMultiple(e, Hidden(f));
    Encoded(f, e, k - Encode(f, e, 0));
  }

  /** The exponent field of the floor of a number between 2^e and 2^(e + 1). */
  function FieldAt(f: Format, e: int): nat {
    if e < 1 - f.bias then 0 else e + f.bias
  }

  lemma FloorBelowNextBinade(f: Format, k: nat, a: real, e: int)
    requires a < Exp2(e + 1) && GridOf(f).Valid() && Floor(GridOf(f), k, a)
    ensures k < Encode(f, FieldAt(f, e) + 1, 0)
  {
    var next := FieldAt(f, e) + 1;
    ExpAtLeast(e + 1, next - f.bias);
    PowerValue(f, next);
    Ascending(GridOf(f), Encode(f, next, 0), k);
  }

  lemma FloorReachesBinade(f: Format, k: nat, a: real, e: int)
    requires Exp2(e) <= a && e <= f.bias && GridOf(f).Valid() && Floor(GridOf(f), k, a)
    ensures Encode(f, FieldAt(f, e), 0) <= k
  {
    var field := FieldAt(f, e);
    if field > 0 {
      PowerValue(f, field);
      EncodeBelowInf(f, field, 0);
      Ascending(GridOf(f), k + 1, Encode(f, field, 0));
    }
  }

  /** Between 2^e and 2^(e + 1) the magnitudes are one unit of the binade's last place apart. */
  lemma GapAtFloor(f: Format, k: nat, a: real, e: int)
    requires Exp2(e) <= a < Exp2(e + 1) && e <= f.bias
    requires GridOf(f).Valid() && Floor(GridOf(f), k, a)
    ensures Value(f, k + 1) - Value(f, k) == Scale(f, FieldAt(f, e))
  {
    FloorBelowNextBinade(f, k, a, e);
    FloorReachesBinade(f, k, a, e);
    FieldFromRange(f, k, FieldAt(f, e));
    ValueStep(f, k);
  }

  lemma RoundErrorInFormat(f: Format, mode: Mode, neg: bool, x: real, e: int)
    requires SignFits(neg, x) && Exp2(e) <= Abs(x) < Exp2(e + 1) && e <= f.bias
    requires GridOf(f).Valid() && Round(GridOf(f), mode, neg, x).mag < InfMag(f)
    ensures var error := Distance(GridOf(f), Round(GridOf(f), mode, neg, x), x);
            if mode == RTE then 2.0 * error <= Scale(f, FieldAt(f, e)) else error < Scale(f, FieldAt(f, e))
  {
    var g := GridOf(f);
    var k := RoundFloor(g, mode, neg, x);
    GapAtFloor(f, k, Abs(x), e);
    PowerValue(f, 2 * f.bias + 1);
    ExpAtLeast(e + 1, f.bias + 1);
    RoundError(g, mode, neg, x, k);
  }

  /**
   Unless the source is beyond the target's range, rounding to nearest is off by at most half a unit in the last
   place and a directed rounding by less than a whole one.
   */
  lemma ConvertError(src: Format, dst: Format, mode: Mode, b: nat, e: int)
    requires Narrows(src, dst) && IsPattern(src, b) && IsFinite(src, b)
    requires Exp2(e) <= Value(src, Magnitude(src, b)) < Exp2(e + 1) && e <= dst.bias
    requires IsFinite(dst, Convert(src, dst, mode, b))
    ensures var error := Abs(SignedValue(dst, Convert(src, dst, mode, b)) - SignedValue(src, b));
            var last := if e < 1 - dst.bias then 1 - dst.bias else e;
            if mode == RTE then error <= Exp2(last - dst.precision) else error < Exp2(last - dst.precision + 1)
  {
    ConvertMeaning(src, dst, mode, b);
    SignedValueFits(src, b);
    RoundErrorInFormat(dst, mode, Negative(src, b), SignedValue(src, b), e);
    Exp2Succ((if e < 1 - dst.bias then 1 - dst.bias else e) - dst.precision);
  }

  // ----- The thresholds of binary16 -----

  lemma HalfLayout()
    ensures InfMag(HALF) == 0x7C00 && SignBit(HALF) == 0x8000 && Hidden(HALF) == 0x400
  {
    assert Pow2(10) == 0x400;
  }

  lemma HalfSmallest()
    ensures Value(HALF, 1) == Exp2(-24)
  {
    HalfLayout();
    Encoded(HALF, 0, 1);
  }

  lemma HalfLargest()
    ensures Value(HALF, Encode(HALF, 30, Hidden(HALF) - 1)) == 65504.0
  {
    HalfLayout();
    Encoded(HALF, 30, Hidden(HALF) - 1);
    assert Exp2(5) == 32.0;
  }

  lemma HalfBeyond()
    ensures Value(HALF, Encode(HALF, 31, 0)) == 65536.0
  {
    HalfLargest();
    StepAcross(HALF, 30);
    assert Exp2(5) == 32.0;
  }

  lemma HalfGrid()
    ensures var g := GridOf(HALF);
            && g.Valid()
            && g.v(1) == Exp2(-24)
            && g.v(g.inf - 1) == 65504.0
            && Threshold(g) == 65520.0
  {
    GridValid(HALF);
    HalfSmallest();
    HalfLargest();
    HalfBeyond();
    HalfLayout();
    assert GridOf(HALF).inf == Encode(HALF, 31, 0);
    assert GridOf(HALF).inf - 1 == Encode(HALF, 30, Hidden(HALF) - 1);
  }

  /**
   Overflow and underflow of a conversion to half, from the explicit branches and the carry together: exactly from
   which source on each direction delivers an infinity, and up to which it delivers a zero.
   */
  lemma HalfThresholds(src: Format, mode: Mode, b: nat)
    requires Narrows(src, HALF) && IsPattern(src, b) && IsFinite(src, b)
    ensures var x, h := SignedValue(src, b), Convert(src, HALF, mode, b);
            && (IsInfinite(HALF, h) <==>
                match mode
                case RTE => Abs(x) >= 65520.0
                case RTZ => false
                case RTP => x > 65504.0
                case RTN => x < -65504.0)
            && (Magnitude(HALF, h) == 0 <==>
                match mode
                case RTE => Abs(x) <= Exp2(-25)
                case RTZ => Abs(x) < Exp2(-24)
                case RTP => -Exp2(-24) < x <= 0.0
                case RTN => 0.0 <= x < Exp2(-24))
  {
    var neg, x := Negative(src, b), SignedValue(src, b);
    ConvertMeaning(src, HALF, mode, b);
    HalfGrid();
    Exp2Succ(-25);
    RoundOverflows(GridOf(HALF), mode, neg, x);
    RoundVanishes(GridOf(HALF), mode, neg, x);
  }
}
