/**
 The widening conversion of cl_half_to_float, stated once for every pair of formats, with what it keeps and how the
 narrowing conversion undoes it.
 */
module Widening {
  import opened Bits
  import opened Conversion
  import opened ConversionLaws
  import opened Formats
  import opened Powers
  import opened Rounding

  /** Every datum of src, denormals included, is a normal datum of dst. */
  predicate Widens(src: Format, dst: Format) {
    dst.precision >= src.precision && dst.bias >= src.bias + src.precision - 1
  }

  /** How often m must be doubled until it reaches h: the normalisation loop's final count. */
  function LeadingShift(m: nat, h: nat): nat
    requires m > 0
    decreases h - m
  {
    if m >= h then 0 else 1 + LeadingShift(2 * m, h)
  }

  lemma Normalised(m: nat, k: nat)
    requires 0 < m < Pow2(k)
    ensures 1 <= LeadingShift(m, Pow2(k)) <= k
    ensures Pow2(k) <= m * Pow2(LeadingShift(m, Pow2(k))) < 2 * Pow2(k)
  {
    NormalisedFrom(m, Pow2(k), 2 * Pow2(k));
    ShiftBounded(m, LeadingShift(m, Pow2(k)), k);
  }

  lemma ShiftBounded(m: nat, s: nat, k: nat)
    requires m > 0 && m * Pow2(s) < 2 * Pow2(k)
    ensures s <= k
  {
    MulMonotone(1, m, Pow2(s));
    if s > k {
      Pow2Increases(k, s);
    }
  }

  lemma {:induction false} NormalisedFrom(m: nat, h: nat, bound: nat)
    requires 0 < m < bound && bound == 2 * h
    ensures h <= m * Pow2(LeadingShift(m, h)) < bound
    decreases h - m
  {
    if m < h {
      NormalisedFrom(2 * m, h, bound);
      assert 2 * m * Pow2(LeadingShift(2 * m, h)) == m * Pow2(LeadingShift(m, h));
    }
  }

  function WidenMag(src: Format, dst: Format, n: nat): nat
    requires Widens(src, dst)
  {
    var e, t := ExponentField(src, n), Trailing(src, n);
    var grow := Pow2(dst.precision - src.precision);
    if e > 0 then Encode(dst, e + dst.bias - src.bias, t * grow)
    else if t == 0 then 0
    else
      Decoded(src, n);
      Normalised(t, src.precision - 1);
      var shift := LeadingShift(t, Hidden(src));
      var tail: nat := t * Pow2(shift) - Hidden(src);
      Encode(dst, 1 - shift + dst.bias - src.bias, tail * grow)
  }

  function Widen(src: Format, dst: Format, b: nat): nat
    requires Widens(src, dst)
  {
    var n := Magnitude(src, b);
    Pack(dst, Negative(src, b),
         if n < InfMag(src) then WidenMag(src, dst, n)
         else if n == InfMag(src) then InfMag(dst)
         else InfMag(dst) + Or(Trailing(src, n) * Pow2(dst.precision - src.precision), QuietBit(dst)))
  }

  // ----- Exactness -----

  lemma SameProduct(s: nat, p: nat, sp: nat, u: real, v: real, x: real, y: real)
    requires IsProduct(v, p as real, u) && sp == s * p
    requires IsProduct(x, s as real, v) && IsProduct(y, sp as real, u)
    ensures x == y
  {
    Distribute(s, p, 0, u, v);
  }

  lemma Grow(h: nat, t: nat, g: nat)
    requires t < h && g > 0
    ensures t * g < h * g && (h + t) * g == h * g + t * g
  {
    MulMonotone(t + 1, h, g);
    NextMultiple(t, g);
  }

  lemma GrownSignificand(src: Format, dst: Format, t: nat)
    requires dst.precision >= src.precision && t < Hidden(src)
    ensures t * Pow2(dst.precision - src.precision) < Hidden(dst)
    ensures Hidden(dst) + t * Pow2(dst.precision - src.precision)
         == (Hidden(src) + t) * Pow2(dst.precision - src.precision)
  {
    Pow2Sum(src.precision - 1, dst.precision - src.precision);
    Grow(Hidden(src), t, Pow2(dst.precision - src.precision));
  }

  /** Two data whose significands differ by 2^k and whose scales differ by 2^-k have the same value. */
  lemma SameValue(src: Format, dst: Format, e: nat, t: nat, e': nat, t': nat, k: nat)
    requires t < Hidden(src) && t' < Hidden(dst)
    requires Significand(dst, e', t') == Significand(src, e, t) * Pow2(k)
    requires IsProduct(Scale(src, e), Pow2(k) as real, Scale(dst, e'))
    ensures Value(dst, Encode(dst, e', t')) == Value(src, Encode(src, e, t))
  {
    EncodedProduct(src, e, t);
    EncodedProduct(dst, e', t');
    SameProduct(Significand(src, e, t), Pow2(k), Significand(dst, e', t'), Scale(dst, e'), Scale(src, e),
                Value(src, Encode(src, e, t)), Value(dst, Encode(dst, e', t')));
  }

  lemma WidenNormal(src: Format, dst: Format, e: nat, t: nat)
    requires Widens(src, dst) && e > 0 && t < Hidden(src)
    ensures Value(dst, Encode(dst, e + dst.bias - src.bias, t * Pow2(dst.precision - src.precision)))
         == Value(src, Encode(src, e, t))
  {
    var d, e' := dst.precision - src.precision, e + dst.bias - src.bias;
    GrownSignificand(src, dst, t);
    UnitsPerGap(dst, src, e', e, d);
    SameValue(src, dst, e, t, e', t * Pow2(d), d);
  }

  lemma NormalisedSignificand(src: Format, dst: Format, t: nat, shift: nat)
    requires dst.precision >= src.precision && Hidden(src) <= t * Pow2(shift) < 2 * Hidden(src)
    ensures var t' := (t * Pow2(shift) - Hidden(src)) * Pow2(dst.precision - src.precision);
            t' < Hidden(dst) && Hidden(dst) + t' == t * Pow2(shift + (dst.precision - src.precision))
  {
    GrownSignificand(src, dst, t * Pow2(shift) - Hidden(src));
    Pow2Sum(shift, dst.precision - src.precision);
    MulAssociative(t, Pow2(shift), Pow2(dst.precision - src.precision));
  }

  lemma MulAssociative(a: nat, b: nat, c: nat)
    ensures (a * b) * c == a * (b * c)
  {
  }

  lemma WidenDenormal(src: Format, dst: Format, t: nat, shift: nat)
    requires Widens(src, dst) && 0 < t < Hidden(src) && shift < src.precision
    requires Hidden(src) <= t * Pow2(shift) < 2 * Hidden(src)
    ensures Value(dst, Encode(dst, 1 - shift + dst.bias - src.bias,
                              (t * Pow2(shift) - Hidden(src)) * Pow2(dst.precision - src.precision)))
         == Value(src, Encode(src, 0, t))
  {
    hide Pow2, Encode, Hidden, Value, Exp2;
    var d, e' := dst.precision - src.precision, 1 - shift + dst.bias - src.bias;
    NormalisedSignificand(src, dst, t, shift);
    UnitsPerGap(dst, src, e', 0, shift + d);
    SameValue(src, dst, 0, t, e', (t * Pow2(shift) - Hidden(src)) * Pow2(d), shift + d);
  }

  /** Widening keeps the exact value of every magnitude. */
  lemma WidenMagExact(src: Format, dst: Format, n: nat)
    requires Widens(src, dst)
    ensures Value(dst, WidenMag(src, dst, n)) == Value(src, n)
  {
    var e, t := ExponentField(src, n), Trailing(src, n);
    Decoded(src, n);
    if e > 0 {
      WidenNormal(src, dst, e, t);
    } else if t == 0 {
      ValueNonnegative(src, 0);
      ValueNonnegative(dst, 0);
    } else {
      Normalised(t, src.precision - 1);
      WidenDenormal(src, dst, t, LeadingShift(t, Hidden(src)));
    }
  }

  lemma WidenMagFinite(src: Format, dst: Format, n: nat)
    requires Widens(src, dst) && n < InfMag(src)
    ensures WidenMag(src, dst, n) < InfMag(dst)
  {
    hide Shr, Low, Pow2, InfMag, Encode, LeadingShift, Hidden;
    var e, t := ExponentField(src, n), Trailing(src, n);
    Decoded(src, n);
    FiniteField(src, n);
    if e > 0 {
      GrownSignificand(src, dst, t);
      EncodeBelowInf(dst, e + dst.bias - src.bias, t * Pow2(dst.precision - src.precision));
    } else if t == 0 {
      InfMagPositive(dst);
    } else {
      WidenedDenormalFinite(src, dst, t);
    }
  }

  lemma InfMagPositive(f: Format)
    ensures InfMag(f) > 0
  {
    GridValid(f);
  }

  lemma WidenedDenormalFinite(src: Format, dst: Format, t: nat)
    requires Widens(src, dst) && 0 < t < Hidden(src)
    ensures var shift := LeadingShift(t, Hidden(src));
            && shift <= src.precision - 1 && t * Pow2(shift) >= Hidden(src)
            && Encode(dst, 1 - shift + dst.bias - src.bias,
                      (t * Pow2(shift) - Hidden(src)) * Pow2(dst.precision - src.precision)) < InfMag(dst)
  {
    hide Pow2, InfMag, Encode, LeadingShift;
    Normalised(t, src.precision - 1);
    var shift := LeadingShift(t, Hidden(src));
    var tail: nat := t * Pow2(shift) - Hidden(src);
    GrownSignificand(src, dst, tail);
    EncodeBelowInf(dst, 1 - shift + dst.bias - src.bias, tail * Pow2(dst.precision - src.precision));
  }

  /** Widening keeps sign and exact value of every finite datum. */
  lemma WidenExact(src: Format, dst: Format, b: nat)
    requires Widens(src, dst) && IsFinite(src, b)
    ensures IsPattern(dst, Widen(src, dst, b)) && IsFinite(dst, Widen(src, dst, b))
    ensures Negative(dst, Widen(src, dst, b)) == Negative(src, b)
    ensures SignedValue(dst, Widen(src, dst, b)) == SignedValue(src, b)
  {
    var n := Magnitude(src, b);
    WidenMagFinite(src, dst, n);
    WidenMagExact(src, dst, n);
    SignBitAboveInf(dst);
    Packed(dst, Negative(src, b), WidenMag(src, dst, n));
  }

  /** Infinities and NaNs keep their sign and kind; a NaN is quieted and its payload moves to the top. */
  lemma WidenOfSpecial(src: Format, dst: Format, b: nat)
    requires Widens(src, dst) && IsPattern(src, b) && !IsFinite(src, b)
    ensures var w, t := Widen(src, dst, b), Trailing(src, Magnitude(src, b));
            && IsPattern(dst, w) && Negative(dst, w) == Negative(src, b)
            && Magnitude(dst, w) == (if IsInfinite(src, b) then InfMag(dst) else
                 InfMag(dst) + QuietBit(dst) + Low(t * Pow2(dst.precision - src.precision), dst.precision - 2))
            && (IsNaN(src, b) <==> IsNaN(dst, w)) && !IsFinite(dst, w)
  {
    var t := Trailing(src, Magnitude(src, b));
    var moved := t * Pow2(dst.precision - src.precision);
    SpecialFields(src, b);
    SignBitAboveInf(dst);
    GrownSignificand(src, dst, t);
    OrTopBit(moved, dst.precision - 2);
    Split(moved, dst.precision - 2);
    if IsNaN(src, b) {
      Packed(dst, Negative(src, b), InfMag(dst) + Or(moved, QuietBit(dst)));
    } else {
      Packed(dst, Negative(src, b), InfMag(dst));
    }
  }

  lemma WidenMeaning(src: Format, dst: Format, b: nat)
    requires Widens(src, dst) && IsPattern(src, b) && !IsNaN(src, b)
    ensures Meaning(dst, Widen(src, dst, b)) == Meaning(src, b)
    ensures IsPattern(dst, Widen(src, dst, b)) && !IsNaN(dst, Widen(src, dst, b))
    ensures Negative(dst, Widen(src, dst, b)) == Negative(src, b)
  {
    if IsFinite(src, b) {
      WidenExact(src, dst, b);
    } else {
      WidenOfSpecial(src, dst, b);
    }
  }

  /** Widening is one-to-one and preserves order strictly: it embeds the narrow format in the wide one. */
  lemma WidenEmbeds(src: Format, dst: Format, b: nat, c: nat)
    requires Widens(src, dst)
    requires IsPattern(src, b) && IsPattern(src, c) && !IsNaN(src, b) && !IsNaN(src, c)
    ensures Le(Meaning(dst, Widen(src, dst, b)), Meaning(dst, Widen(src, dst, c))) <==>
            Le(Meaning(src, b), Meaning(src, c))
    ensures Widen(src, dst, b) == Widen(src, dst, c) ==> b == c
  {
    WidenMeaning(src, dst, b);
    WidenMeaning(src, dst, c);
    if Widen(src, dst, b) == Widen(src, dst, c) {
      GridValid(src);
      SameSignInjective(GridOf(src), NumOf(src, b), NumOf(src, c));
      Unpacked(src, b);
      Unpacked(src, c);
    }
  }

  // ----- Narrowing undoes widening -----

  /** A pattern with the quiet bit of its significand set. */
  function Quieted(f: Format, b: nat): nat {
    Pack(f, Negative(f, b), InfMag(f) + Or(Trailing(f, Magnitude(f, b)), QuietBit(f)))
  }

  /** Widening a datum and converting it back, in any direction, returns it; a NaN comes back quieted. */
  lemma RoundTrip(narrow: Format, wide: Format, mode: Mode, b: nat)
    requires Widens(narrow, wide) && Narrows(wide, narrow) && IsPattern(narrow, b)
    ensures Convert(wide, narrow, mode, Widen(narrow, wide, b)) == if IsNaN(narrow, b) then Quieted(narrow, b) else b
  {
    var w := Widen(narrow, wide, b);
    if IsFinite(narrow, b) {
      RoundTripFinite(narrow, wide, mode, b);
    } else if IsInfinite(narrow, b) {
      WidenOfSpecial(narrow, wide, b);
      ConvertOfSpecial(wide, narrow, mode, w);
      Unpacked(narrow, b);
    } else {
      RoundTripNaN(narrow, wide, mode, b);
    }
  }

  lemma RoundTripFinite(narrow: Format, wide: Format, mode: Mode, b: nat)
    requires Widens(narrow, wide) && Narrows(wide, narrow) && IsPattern(narrow, b) && IsFinite(narrow, b)
    ensures Convert(wide, narrow, mode, Widen(narrow, wide, b)) == b
  {
    WidenExact(narrow, wide, b);
    ConvertIsCorrectlyRounded(wide, narrow, mode, Widen(narrow, wide, b));
    GridValid(narrow);
    RoundOfNumber(GridOf(narrow), mode, NumOf(narrow, b), SignedValue(narrow, b));
    Unpacked(narrow, b);
  }

  lemma RoundTripNaN(narrow: Format, wide: Format, mode: Mode, b: nat)
    requires Widens(narrow, wide) && Narrows(wide, narrow) && IsPattern(narrow, b) && IsNaN(narrow, b)
    ensures Convert(wide, narrow, mode, Widen(narrow, wide, b)) == Quieted(narrow, b)
  {
    var w, t := Widen(narrow, wide, b), Trailing(narrow, Magnitude(narrow, b));
    WidenOfSpecial(narrow, wide, b);
    ConvertOfSpecial(wide, narrow, mode, w);
    WidenedPayload(narrow, wide, narrow, b);
    assert Shr(t, 0) == t;
    SpecialFields(narrow, b);
    OrTopBit(t, narrow.precision - 2);
  }

  /** The top payload bits of a widened NaN are those of the NaN. */
  lemma WidenedPayload(src: Format, mid: Format, dst: Format, b: nat)
    requires Widens(src, mid) && src.precision >= dst.precision && IsPattern(src, b) && IsNaN(src, b)
    ensures Low(Shr(Trailing(mid, Magnitude(mid, Widen(src, mid, b))), mid.precision - dst.precision),
                dst.precision - 2)
         == Low(Shr(Trailing(src, Magnitude(src, b)), src.precision - dst.precision), dst.precision - 2)
  {
    var t := Trailing(src, Magnitude(src, b));
    hide Shr, Low, Pow2, Or, Widen, Hidden;
    var grow := mid.precision - src.precision;
    var w := Widen(src, mid, b);
    assert Trailing(mid, Magnitude(mid, w)) == QuietBit(mid) + Low(t * Pow2(grow), mid.precision - 2) by {
      WidenOfSpecial(src, mid, b);
      SpecialFields(mid, w);
    }
    PayloadBelowMark(t, grow, src.precision - dst.precision, dst.precision - 2);
  }

  lemma PayloadBelowMark(t: nat, grow: nat, drop: nat, k: nat)
    ensures Low(Shr(Pow2(k + (grow + drop)) + Low(t * Pow2(grow), k + (grow + drop)), grow + drop), k)
         == Low(Shr(t, drop), k)
  {
    var z, d := Low(Shr(t, drop), k), grow + drop;
    var y := Low(t * Pow2(grow), k + d);
    assert Shr(Pow2(k + d) + y, d) == Pow2(k) + Shr(y, d) by {
      Pow2Sum(k, d);
      ShrAboveLow(Pow2(k), y, d);
    }
    assert Shr(y, d) == z by {
      ShrOfLow(t * Pow2(grow), k, d);
      ShrOfMul(t, grow, drop);
    }
    assert Low(Pow2(k) + z, k) == z by {
      Split(Shr(t, drop), k);
      LowOfMarked(z, k);
    }
  }

  lemma LowOfMarked(z: nat, k: nat)
    requires z < Pow2(k)
    ensures Low(Pow2(k) + z, k) == z
  {
    SplitUnique(Pow2(k) + z, k, 1, z);
  }

  /**
   Converting directly and converting the exact widening give the same bits, for every source: denormals, infinities
   and NaN payloads included.
   */
  lemma ConvertThroughWider(src: Format, mid: Format, dst: Format, mode: Mode, b: nat)
    requires Widens(src, mid) && Narrows(src, dst) && Narrows(mid, dst) && IsPattern(src, b)
    ensures Convert(mid, dst, mode, Widen(src, mid, b)) == Convert(src, dst, mode, b)
  {
    if IsFinite(src, b) {
      WidenExact(src, mid, b);
      ConvertDependsOnValue(mid, src, dst, mode, Widen(src, mid, b), b);
    } else {
      WidenOfSpecial(src, mid, b);
      ConvertOfSpecial(mid, dst, mode, Widen(src, mid, b));
      ConvertOfSpecial(src, dst, mode, b);
      if IsNaN(src, b) {
        WidenedPayload(src, mid, dst, b);
      }
    }
  }
}
