/**
 src/util/half_float.h: binary64 to binary16 by way of binary32.

 The bits that binary32 cannot hold are first folded into one sticky bit. The header says that the trick works for
 all rounding modes. The folding does; the cast to binary32 that follows it does not, and this module says exactly
 for which numbers.
 */
module MesaDouble {
  import opened Bits
  import opened ClHalf
  import opened Conversion
  import opened ConversionLaws
  import opened Formats
  import opened MesaDirected
  import opened MesaHalf
  import opened Powers
  import opened Rounding
  import opened Widening

  // ----- The sticky bit -----

  /** Clear the low 32 bits; if any was set, set bit 32. */
  function Reduced(x: nat): nat {
    if Low(x, 32) == 0 then x else Shr(x, 33) * Pow2(33) + Pow2(32)
  }

  /** The masking and or-ing of the code. */
  lemma ReducedWord(x: U64)
    ensures And(x, 0xFFFF_FFFF_0000_0000) == x - Low(x, 32)
    ensures Low(x, 32) != 0 ==> Or(And(x, 0xFFFF_FFFF_0000_0000), Shl(1, 32)) == Reduced(x)
    ensures Low(x, 32) == ToU32(x) && Reduced(x) < 0x1_0000_0000_0000_0000
  {
    hide And, Or, Shl, Shr, Low, Pow2;
    var hi := Shr(x, 32);
    Pow2Table();
    Split(x, 32);
    SplitUnique(x, 32, x / 0x1_0000_0000, x % 0x1_0000_0000);
    AndShifted(x, 0xFFFF_FFFF, 32);
    AndMask(hi, 32);
    LowOfSmall(hi, 32);
    ShlIsMul(1, 32);
    OrHigh(hi, 1, 32, 0);
    OrLowestBit(hi, 1);
    ShrShr(x, 32, 1);
    HalvedOnce(hi);
    Pow2Sum(32, 1);
    Pow2One();
  }

  lemma ReducedInArithmetic(x: nat)
    ensures var q := x / 0x1_0000_0000;
            Reduced(x) == if x % 0x1_0000_0000 == 0 then x else (q / 2 * 2 + 1) * 0x1_0000_0000
  {
    hide Shr, Low, Pow2;
    var q, r := x / 0x1_0000_0000, x % 0x1_0000_0000;
    Pow2Table();
    Pow2Sum(32, 1);
    Pow2One();
    SplitUnique(x, 32, q, r);
    ShrShr(x, 32, 1);
    HalvedOnce(q);
  }

  lemma OddMultiple(q: nat, r: nat, z: nat)
    requires r < 0x1_0000_0000
    ensures z == (if r == 0 then q else q / 2 * 2 + 1) <==>
            && (r == 0 ==> z == q) && (r > 0 ==> z % 2 == 1 && (z == q || z == q + 1))
    ensures q * 0x1_0000_0000 + r - 0x1_0000_0000 < z * 0x1_0000_0000 < q * 0x1_0000_0000 + r + 0x1_0000_0000 <==>
            z == q || (r > 0 && z == q + 1)
  {
  }

  lemma OddNeighbour(x: nat, y: nat)
    ensures y == (if x % 0x1_0000_0000 == 0 then x else (x / 0x1_0000_0000 / 2 * 2 + 1) * 0x1_0000_0000) <==>
            && y % 0x1_0000_0000 == 0 && x - 0x1_0000_0000 < y < x + 0x1_0000_0000
            && (y != x ==> y / 0x1_0000_0000 % 2 == 1)
  {
    if y % 0x1_0000_0000 == 0 {
      OddMultiple(x / 0x1_0000_0000, x % 0x1_0000_0000, y / 0x1_0000_0000);
    }
  }

  /**
   Reducing is rounding to odd at bit 32: the result is the number itself, or the odd one of the two multiples of 2^32
   that enclose it; no other number is.
   */
  lemma ReducedRoundsToOdd(x: nat, y: nat)
    ensures y == Reduced(x) <==>
            && y % 0x1_0000_0000 == 0 && x - 0x1_0000_0000 < y < x + 0x1_0000_0000
            && (y != x ==> y / 0x1_0000_0000 % 2 == 1)
  {
    hide Reduced;
    ReducedInArithmetic(x);
    OddNeighbour(x, y);
  }

  lemma HalvedOnce(x: nat)
    ensures Shr(x, 1) == x / 2
  {
  }

  lemma Pow2One()
    ensures Pow2(1) == 2
  {
  }

  lemma ReducedAbove(q: nat, y: nat)
    ensures Reduced(q * Pow2(33) + y) == q * Pow2(33) + Reduced(y)
  {
    hide Shr, Low, Pow2;
    Pow2Sum(32, 1);
    Pow2One();
    ShrAboveLow(q, y, 33);
    ShrAboveLow(2 * q, y, 32);
    assert q * Pow2(33) == (2 * q) * Pow2(32);
  }

  lemma ReducedBounds(x: nat, k: nat)
    requires x < Pow2(33 + k)
    ensures Reduced(x) < Pow2(33 + k)
    ensures Reduced(x) == 0 <==> x == 0
  {
    hide Shr, Low, Pow2;
    Pow2Sum(k, 33);
    Pow2Sum(32, 1);
    Pow2One();
    ShrBelow(x, 33, Pow2(k));
    MulMonotone(Shr(x, 33) + 1, Pow2(k), Pow2(33));
    NextMultiple(Shr(x, 33), Pow2(33));
    LowOfNothing(x);
  }

  lemma LowOfNothing(x: nat)
    ensures x == 0 ==> Low(x, 32) == 0
  {
    LowOfZero(32);
  }

  /** Reducing keeps x on the same side of every multiple of 2^33. */
  lemma ReducedKeepsOrder(x: nat, bound: nat)
    ensures x <= bound * Pow2(33) <==> Reduced(x) <= bound * Pow2(33)
  {
    hide Shr, Low, Pow2;
    var j, w := Shr(x, 33), Low(x, 33);
    Pow2Sum(32, 1);
    Pow2One();
    Split(x, 33);
    LowNested(x);
    if j < bound {
      MulMonotone(j + 1, bound, Pow2(33));
      NextMultiple(j, Pow2(33));
    } else {
      MulMonotone(bound, j, Pow2(33));
    }
  }

  lemma LowNested(x: nat)
    ensures Low(x, 32) != 0 ==> Low(x, 33) != 0
  {
    hide Shr, Low, Pow2;
    Split(x, 33);
    Pow2Sum(32, 1);
    Pow2One();
    if Low(x, 33) == 0 {
      SplitUnique(x, 32, 2 * Shr(x, 33), 0);
    }
  }

  lemma LowSplit(x: nat, i: nat)
    ensures Low(x, i + 33) == Low(Shr(x, 33), i) * Pow2(33) + Low(x, 33)
  {
    hide Shr, Low, Pow2;
    var j := Shr(x, 33);
    Split(x, 33);
    Split(j, i);
    Pow2Sum(i, 33);
    var r := Low(j, i) * Pow2(33) + Low(x, 33);
    assert r < Pow2(i + 33) by {
      MulMonotone(Low(j, i) + 1, Pow2(i), Pow2(33));
      NextMultiple(Low(j, i), Pow2(33));
    }
    assert x == Shr(j, i) * Pow2(i + 33) + r by {
      MulAssociative(Shr(j, i), Pow2(i), Pow2(33));
      AddMul(Shr(j, i) * Pow2(i), Low(j, i), Pow2(33));
    }
    SplitUnique(x, i + 33, Shr(j, i), r);
  }

  lemma AddMul(a: nat, b: nat, c: nat)
    ensures (a + b) * c == a * c + b * c
  {
  }

  // ----- Folding into the sticky bit changes no rounding -----

  /** Comparing with a multiple of 2^33 only needs the bits above, once some bit below is known to be set. */
  lemma SameSideOfHalf(c: nat, w: nat, w': nat, i: nat)
    requires i > 0 && 0 < w < Pow2(33) && 0 < w' < Pow2(33)
    ensures c * Pow2(33) + w > Pow2(i + 32) <==> c * Pow2(33) + w' > Pow2(i + 32)
    ensures c * Pow2(33) + w != Pow2(i + 32) && c * Pow2(33) + w' != Pow2(i + 32)
  {
    hide Pow2;
    Pow2Sum(i - 1, 33);
    assert Pow2(i + 32) == Pow2(i - 1) * Pow2(33);
    if c >= Pow2(i - 1) {
      MulMonotone(Pow2(i - 1), c, Pow2(33));
    } else {
      MulMonotone(c + 1, Pow2(i - 1), Pow2(33));
      NextMultiple(c, Pow2(33));
    }
  }

  /** The bits above position 33 stay; below it something is set before and after. */
  lemma ReducedParts(x: nat, i: nat)
    requires Low(x, 32) != 0
    ensures var c := Low(Shr(x, 33), i);
            && Shr(Reduced(x), i + 33) == Shr(x, i + 33)
            && Low(x, i + 33) == c * Pow2(33) + Low(x, 33) && 0 < Low(x, 33) < Pow2(33)
            && Low(Reduced(x), i + 33) == c * Pow2(33) + Pow2(32) && Pow2(32) < Pow2(33)
  {
    hide Shr, Low, Pow2;
    var x' := Reduced(x);
    Pow2Sum(32, 1);
    Pow2One();
    SplitUnique(x', 33, Shr(x, 33), Pow2(32));
    ShrShr(x, 33, i);
    ShrShr(x', 33, i);
    LowSplit(x, i);
    LowSplit(x', i);
    Split(x, 33);
    LowNested(x);
  }

  lemma SameDecision(mode: Mode, neg: bool, q: nat, r: nat, r': nat, lsbPos: nat)
    requires lsbPos > 0 && r > 0 && r' > 0 && r != Pow2(lsbPos - 1) && r' != Pow2(lsbPos - 1)
    requires r > Pow2(lsbPos - 1) <==> r' > Pow2(lsbPos - 1)
    ensures RoundsUp(mode, neg, q, r, lsbPos) == RoundsUp(mode, neg, q, r', lsbPos)
  {
    hide Pow2;
  }

  lemma ReducedRoundsAlike(mode: Mode, neg: bool, x: nat, lsbPos: nat)
    requires lsbPos >= 34
    ensures Shr(Reduced(x), lsbPos) == Shr(x, lsbPos)
    ensures RoundsUp(mode, neg, Shr(x, lsbPos), Low(Reduced(x), lsbPos), lsbPos)
         == RoundsUp(mode, neg, Shr(x, lsbPos), Low(x, lsbPos), lsbPos)
  {
    hide Shr, Low, Pow2, RoundsUp;
    if Low(x, 32) != 0 {
      hide Reduced;
      var i := lsbPos - 33;
      ReducedParts(x, i);
      SameSideOfHalf(Low(Shr(x, 33), i), Low(x, 33), Pow2(32), i);
      SameDecision(mode, neg, Shr(x, lsbPos), Low(Reduced(x), lsbPos), Low(x, lsbPos), lsbPos);
    }
  }

  lemma ReducedShiftsAlike(mode: Mode, neg: bool, exponent: nat, x: nat, lsbPos: nat)
    requires lsbPos >= 34
    ensures ShiftAndRound(HALF, mode, neg, exponent, Reduced(x), lsbPos)
         == ShiftAndRound(HALF, mode, neg, exponent, x, lsbPos)
  {
    hide Shr, Low, Pow2, RoundsUp, Encode, Reduced;
    ReducedRoundsAlike(mode, neg, x, lsbPos);
  }

  lemma DoubleHidden()
    ensures Hidden(DOUBLE) == Pow2(52) == Pow2(19) * Pow2(33)
  {
    hide Pow2;
    Pow2Sum(19, 33);
  }

  /** Reducing a double keeps its sign and exponent, and reduces its significand. */
  lemma ReducedFields(b: U64)
    ensures IsPattern(DOUBLE, b) && IsPattern(DOUBLE, Reduced(b)) && Reduced(b) < 0x1_0000_0000_0000_0000
    ensures Negative(DOUBLE, Reduced(b)) == Negative(DOUBLE, b)
    ensures var n := Magnitude(DOUBLE, b);
            && Magnitude(DOUBLE, Reduced(b)) == Reduced(n)
            && ExponentField(DOUBLE, Reduced(n)) == ExponentField(DOUBLE, n)
            && Trailing(DOUBLE, Reduced(n)) == Reduced(Trailing(DOUBLE, n))
  {
    hide Shr, Low, Pow2, Reduced, ExponentField, Trailing;
    DoubleLayout();
    ReducedWord(b);
    ReducedMagnitude(Magnitude(DOUBLE, b));
    if Negative(DOUBLE, b) {
      ReducedNegative(Magnitude(DOUBLE, b));
    }
  }

  lemma ReducedMagnitude(n: nat)
    requires n < 0x8000_0000_0000_0000
    ensures Reduced(n) < 0x8000_0000_0000_0000
    ensures ExponentField(DOUBLE, Reduced(n)) == ExponentField(DOUBLE, n)
    ensures Trailing(DOUBLE, Reduced(n)) == Reduced(Trailing(DOUBLE, n))
  {
    hide Shr, Low, Pow2, Reduced, ExponentField, Trailing, Value, Scale, Significand;
    var e, t := ExponentField(DOUBLE, n), Trailing(DOUBLE, n);
    Pow2Table();
    ReducedBounds(n, 30);
    DoubleHidden();
    Decoded(DOUBLE, n);
    ReducedBounds(t, 19);
    MulAssociative(e, Pow2(19), Pow2(33));
    ReducedAbove(e * Pow2(19), t);
    Encoded(DOUBLE, e, Reduced(t));
  }

  lemma ReducedNegative(n: nat)
    ensures Reduced(0x8000_0000_0000_0000 + n) == 0x8000_0000_0000_0000 + Reduced(n)
  {
    hide Reduced, Pow2;
    Pow2Table();
    Pow2Sum(30, 33);
    ReducedAbove(Pow2(30), n);
  }

  lemma ReducedHidden(t: nat)
    ensures Reduced(Hidden(DOUBLE) + t) == Hidden(DOUBLE) + Reduced(t)
  {
    hide Pow2, Reduced;
    DoubleHidden();
    ReducedAbove(Pow2(19), t);
  }

  /** As the header says, in every direction: the reduced double rounds to the same half as the double. */
  lemma ReducedConverts(b: U64, mode: Mode)
    requires IsFinite(DOUBLE, b)
    ensures Convert(DOUBLE, HALF, mode, Reduced(b)) == Convert(DOUBLE, HALF, mode, b)
  {
    hide Shr, Low, Pow2, Reduced, ExponentField, Trailing, ShiftAndRound, Hidden, Magnitude, Negative, Pack;
    var n := Magnitude(DOUBLE, b);
    var e, t := ExponentField(DOUBLE, n), Trailing(DOUBLE, n);
    var sign := if Negative(DOUBLE, b) then 1 else 0;
    ReducedFields(b);
    FiniteField(DOUBLE, n);
    Decoded(DOUBLE, n);
    DoubleHidden();
    ReducedBounds(t, 19);
    ReducedHidden(t);
    DoubleBranches(b, mode, sign, e, t);
    DoubleBranches(Reduced(b), mode, sign, e, Reduced(t));
    if 998 <= e < 1009 {
      ReducedShiftsAlike(mode, sign == 1, 0, Hidden(DOUBLE) + t, 1051 - e);
    } else if 1009 <= e < 1039 {
      ReducedShiftsAlike(mode, sign == 1, e - 1008, t, 42);
    }
  }

  // ----- The cast to binary32 -----

  /** The C conversion (float)d, which rounds to nearest. */
  function CastToFloat(d: nat): nat {
    Convert(DOUBLE, FLOAT, RTE, d)
  }

  /** In the range of normal floats the reduced double is a float, so the cast is exact. */
  lemma CastIsExact(b: U64)
    requires var e := ExponentField(DOUBLE, Magnitude(DOUBLE, b)); 897 <= e <= 1150
    ensures var f := CastToFloat(Reduced(b));
            && IsFinite(FLOAT, f) && Negative(FLOAT, f) == Negative(DOUBLE, b)
            && SignedValue(FLOAT, f) == SignedValue(DOUBLE, Reduced(b))
  {
    hide Shr, Low, Pow2, Reduced, ExponentField, Trailing, Value, Hidden, Encode, Magnitude, Negative;
    var n := Magnitude(DOUBLE, b);
    var e, t := ExponentField(DOUBLE, n), Trailing(DOUBLE, n);
    ReducedFields(b);
    Decoded(DOUBLE, n);
    Decoded(DOUBLE, Reduced(n));
    CastFields(e, t);
    var neg, m := Negative(DOUBLE, b), Encode(FLOAT, e - 896, Shr(Reduced(t), 29));
    SignBitAboveInf(FLOAT);
    Packed(FLOAT, neg, m);
  }

  lemma CastFields(e: nat, t: nat)
    requires 897 <= e <= 1150 && t < Hidden(DOUBLE)
    ensures var q := Shr(Reduced(t), 29);
            && Encode(FLOAT, e - 896, q) < InfMag(FLOAT)
            && (forall neg :: NarrowFields(DOUBLE, FLOAT, RTE, neg, e, Reduced(t)) == Encode(FLOAT, e - 896, q))
            && Value(FLOAT, Encode(FLOAT, e - 896, q)) == Value(DOUBLE, Encode(DOUBLE, e, Reduced(t)))
  {
    hide Shr, Low, Pow2, Reduced, Value, Encode, Hidden, InfMag;
    var q := Shr(Reduced(t), 29);
    DoubleHidden();
    ReducedBounds(t, 19);
    CastSignificand(t);
    EncodeBelowInf(FLOAT, e - 896, q);
    UnitsPerGap(DOUBLE, FLOAT, e, e - 896, 29);
    SameValue(FLOAT, DOUBLE, e - 896, q, e, Reduced(t), 29);
  }

  lemma CastSignificand(t: nat)
    requires t < Hidden(DOUBLE)
    ensures var q := Shr(Reduced(t), 29);
            && q < Hidden(FLOAT) && Low(Reduced(t), 29) == 0
            && Hidden(DOUBLE) + Reduced(t) == (Hidden(FLOAT) + q) * Pow2(29)
  {
    hide Shr, Low, Pow2;
    var t' := Reduced(t);
    DoubleHidden();
    ReducedBounds(t, 19);
    Pow2Sum(23, 29);
    ReducedIsMultiple(t);
    Split(t', 32);
    Pow2Sum(3, 29);
    MulAssociative(Shr(t', 32), Pow2(3), Pow2(29));
    SplitUnique(t', 29, Shr(t', 32) * Pow2(3), 0);
    ShrBelow(t', 29, Pow2(23));
    AddMul(Hidden(FLOAT), Shr(t', 29), Pow2(29));
  }

  lemma ReducedIsMultiple(x: nat)
    ensures Low(Reduced(x), 32) == 0
  {
    hide Shr, Low, Pow2;
    if Low(x, 32) != 0 {
      Pow2Sum(32, 1);
      Pow2One();
      SplitUnique(Reduced(x), 32, 2 * Shr(x, 33) + 1, 0);
    }
  }

  /** From 2^128 on the cast overflows to an infinity. */
  lemma CastOverflows(b: U64)
    requires IsFinite(DOUBLE, b) && ExponentField(DOUBLE, Magnitude(DOUBLE, b)) >= 1151
    ensures CastToFloat(Reduced(b)) == Pack(FLOAT, Negative(DOUBLE, b), InfMag(FLOAT))
  {
    hide Shr, Low, Pow2, Reduced, ExponentField, Trailing, Hidden, InfMag, Magnitude, Negative, Pack;
    ReducedFields(b);
    FiniteField(DOUBLE, Magnitude(DOUBLE, b));
  }

  lemma ValueOrder(f: Format, i: nat, j: nat)
    ensures i <= j <==> Value(f, i) <= Value(f, j)
  {
    hide Value;
    if i < j {
      ValueIncreases(f, i, j);
    } else if j < i {
      ValueIncreases(f, j, i);
    }
  }

  /** Reducing keeps a double on the same side of 2^-150, half the smallest float. */
  lemma ReducedVanishesAlike(n: nat)
    ensures Value(DOUBLE, Reduced(n)) <= Exp2(-150) <==> Value(DOUBLE, n) <= Exp2(-150)
  {
    hide Value, Reduced, Pow2, Exp2;
    var limit := Encode(DOUBLE, 873, 0);
    PowerValue(DOUBLE, 873);
    DoubleHidden();
    MulAssociative(873, Pow2(19), Pow2(33));
    ReducedKeepsOrder(n, 873 * Pow2(19));
    ValueOrder(DOUBLE, n, limit);
    ValueOrder(DOUBLE, Reduced(n), limit);
  }

  /** Below the normal floats the cast may round, but only to a number that is still tiny, or to zero. */
  lemma CastOfTiny(b: U64)
    requires ExponentField(DOUBLE, Magnitude(DOUBLE, b)) <= 896
    ensures var f, a := CastToFloat(Reduced(b)), Value(DOUBLE, Magnitude(DOUBLE, b));
            && IsFinite(FLOAT, f) && Negative(FLOAT, f) == Negative(DOUBLE, b)
            && (Magnitude(FLOAT, f) == 0 <==> a <= Exp2(-150))
            && Value(FLOAT, Magnitude(FLOAT, f)) <= Exp2(-126)
  {
    hide Value, Reduced, Exp2, ExponentField, Trailing, Convert, Pow2, Hidden, InfMag, Magnitude, Negative, ValueOf;
    var d := Reduced(b);
    var g, neg, x := GridOf(FLOAT), Negative(DOUBLE, d), SignedValue(DOUBLE, d);
    ReducedFields(b);
    FiniteField(DOUBLE, Magnitude(DOUBLE, d));
    ConvertMeaning(DOUBLE, FLOAT, RTE, d);
    SignedValueFits(DOUBLE, d);
    InBinade(DOUBLE, Magnitude(DOUBLE, d));
    var e: int := ExponentField(DOUBLE, Magnitude(DOUBLE, d));
    ExpAtLeast((if e == 0 then 1 else e + 1) - 1023, -126);
    ReducedVanishesAlike(Magnitude(DOUBLE, b));
    FloatSmallest();
    RoundVanishes(g, RTE, neg, x);
    RoundBelowPower(neg, x);
  }

  lemma FloatSmallest()
    ensures GridOf(FLOAT).v(1) == 2.0 * Exp2(-150)
  {
    hide Shr, Low, Pow2, Exp2;
    FloatLayout();
    Encoded(FLOAT, 0, 1);
    Exp2Succ(-150);
  }

  lemma RoundBelowPower(neg: bool, x: real)
    requires SignFits(neg, x) && Abs(x) <= Exp2(-126)
    ensures GridOf(FLOAT).Valid()
    ensures var n := Round(GridOf(FLOAT), RTE, neg, x);
            n.neg == neg && n.mag < InfMag(FLOAT) && Value(FLOAT, n.mag) <= Exp2(-126)
  {
    hide Value, Exp2, Pow2;
    var g := GridOf(FLOAT);
    GridValid(FLOAT);
    var k := RoundFloor(g, RTE, neg, x);
    FloatLayout();
    PowerValue(FLOAT, 1);
    ValueOrder(FLOAT, k, 0x80_0000);
    ValueOrder(FLOAT, k + 1, 0x80_0000);
    assert Encode(FLOAT, 1, 0) == 0x80_0000;
  }

  /** Anything nonzero below 2^-25 underflows to half in the same way. */
  lemma TinyConverts(src: Format, b: nat, mode: Mode)
    requires Narrows(src, HALF) && IsFinite(src, b)
    requires 0.0 < Value(src, Magnitude(src, b)) <= Exp2(-126)
    ensures Convert(src, HALF, mode, b) == Pack(HALF, Negative(src, b), UnderflowMag(mode, Negative(src, b)))
  {
    hide Value, Exp2, Convert, UnderflowMag, Rounded;
    ConvertIsCorrectlyRounded(src, HALF, mode, b);
    SignedValueFits(src, b);
    Exp2Increases(-126, -25);
    UnderflowPath(HALF, mode, Negative(src, b), SignedValue(src, b));
  }

  lemma ZeroConverts(src: Format, b: nat, mode: Mode)
    requires Narrows(src, HALF) && Magnitude(src, b) == 0
    ensures Convert(src, HALF, mode, b) == Pack(HALF, Negative(src, b), 0)
  {
    hide ExponentField, Trailing;
    ZeroFields(src, 0);
  }

  // ----- When the detour over binary32 is right -----

  /**
   The numbers the cast spoils: beyond the floats, in a direction that must stay finite, and below half the smallest
   float, in a direction that must not reach zero.
   */
  predicate CastLoses(mode: Mode, neg: bool, a: real) {
    || (a >= Exp2(128) && (mode == RTZ || (mode == RTP && neg) || (mode == RTN && !neg)))
    || (0.0 < a <= Exp2(-150) && ((mode == RTP && !neg) || (mode == RTN && neg)))
  }

  /** For every finite double and direction: the detour gives the correct half if and only if the cast loses nothing. */
  lemma DetourIsCorrectIff(b: U64, mode: Mode)
    requires IsFinite(DOUBLE, b)
    ensures Convert(FLOAT, HALF, mode, CastToFloat(Reduced(b))) == Convert(DOUBLE, HALF, mode, b) <==>
            !CastLoses(mode, Negative(DOUBLE, b), Value(DOUBLE, Magnitude(DOUBLE, b)))
  {
    hide Value, Reduced, Exp2, ExponentField, Trailing, Convert, Pow2, Magnitude, Negative, CastToFloat;
    var n := Magnitude(DOUBLE, b);
    var e := ExponentField(DOUBLE, n);
    BinadeOf(n, e);
    if e >= 1151 {
      DetourOverflow(b, mode);
    } else if e >= 897 {
      CastIsExact(b);
      ReducedFields(b);
      FiniteField(DOUBLE, n);
      FiniteField(DOUBLE, Magnitude(DOUBLE, Reduced(b)));
      ConvertDependsOnValue(FLOAT, DOUBLE, HALF, mode, CastToFloat(Reduced(b)), Reduced(b));
      ReducedConverts(b, mode);
    } else {
      DetourTiny(b, mode);
    }
  }

  lemma BinadeOf(n: nat, e: nat)
    requires e == ExponentField(DOUBLE, n)
    ensures e >= 1151 ==> Value(DOUBLE, n) >= Exp2(128) > Exp2(-150)
    ensures 897 <= e < 1151 ==> Exp2(-150) < Value(DOUBLE, n) < Exp2(128)
    ensures e < 897 ==> Value(DOUBLE, n) <= Exp2(-126) < Exp2(128)
  {
    hide Value, ExponentField, Exp2;
    InBinade(DOUBLE, n);
    Exp2Increases(-150, 128);
    Exp2Increases(-126, 128);
    Exp2Increases(-150, -126);
    if e >= 1151 {
      ExpAtLeast(128, e - 1023);
    } else if e >= 897 {
      ExpAtLeast(e - 1022, 128);
      ExpAtLeast(-126, e - 1023);
    } else {
      ExpAtLeast((if e == 0 then 1 else e + 1) - 1023, -126);
    }
  }

  lemma DetourOverflow(b: U64, mode: Mode)
    requires IsFinite(DOUBLE, b) && ExponentField(DOUBLE, Magnitude(DOUBLE, b)) >= 1151
    ensures Convert(FLOAT, HALF, mode, CastToFloat(Reduced(b))) == Pack(HALF, Negative(DOUBLE, b), InfMag(HALF))
    ensures Convert(DOUBLE, HALF, mode, b)
         == Pack(HALF, Negative(DOUBLE, b), OverflowMag(HALF, mode, Negative(DOUBLE, b)))
    ensures Convert(FLOAT, HALF, mode, CastToFloat(Reduced(b))) == Convert(DOUBLE, HALF, mode, b) <==>
            !(mode == RTZ || (mode == RTP && Negative(DOUBLE, b)) || (mode == RTN && !Negative(DOUBLE, b)))
  {
    hide Value, Reduced, ExponentField, Trailing, CastToFloat, Pow2;
    var neg := Negative(DOUBLE, b);
    CastOverflows(b);
    FloatLayout();
    HalfLayout();
    var f := Pack(FLOAT, neg, InfMag(FLOAT));
    InfinityStays(f, mode);
    Unpacked(HALF, Convert(FLOAT, HALF, mode, f));
    FiniteField(DOUBLE, Magnitude(DOUBLE, b));
  }

  lemma DetourTiny(b: U64, mode: Mode)
    requires ExponentField(DOUBLE, Magnitude(DOUBLE, b)) < 897
    ensures var neg, a := Negative(DOUBLE, b), Value(DOUBLE, Magnitude(DOUBLE, b));
            Convert(FLOAT, HALF, mode, CastToFloat(Reduced(b))) == Convert(DOUBLE, HALF, mode, b) <==>
            !(0.0 < a <= Exp2(-150) && ((mode == RTP && !neg) || (mode == RTN && neg)))
  {
    hide Value, Reduced, Exp2, ExponentField, Trailing, Convert, Pow2, CastToFloat, Magnitude, Negative;
    var n, f := Magnitude(DOUBLE, b), CastToFloat(Reduced(b));
    BinadeOf(n, ExponentField(DOUBLE, n));
    CastOfTiny(b);
    FiniteField(DOUBLE, n);
    ValueNonnegative(DOUBLE, n);
    ValueNonnegative(FLOAT, Magnitude(FLOAT, f));
    if n == 0 {
      ZeroConverts(DOUBLE, b, mode);
    } else {
      TinyConverts(DOUBLE, b, mode);
    }
    if Magnitude(FLOAT, f) == 0 {
      ZeroConverts(FLOAT, f, mode);
    } else {
      TinyConverts(FLOAT, f, mode);
    }
  }

  /** What comes out instead where the cast loses: an infinity beyond the floats, a zero below them, with the sign. */
  lemma DetourOfLost(b: U64, mode: Mode)
    requires IsFinite(DOUBLE, b) && CastLoses(mode, Negative(DOUBLE, b), Value(DOUBLE, Magnitude(DOUBLE, b)))
    ensures Convert(FLOAT, HALF, mode, CastToFloat(Reduced(b)))
         == Pack(HALF, Negative(DOUBLE, b),
                 if Value(DOUBLE, Magnitude(DOUBLE, b)) >= Exp2(128) then InfMag(HALF) else 0)
  {
    hide Value, Reduced, Exp2, ExponentField, Trailing, Convert, Pow2, CastToFloat, Magnitude, Negative, Pack, InfMag;
    var n := Magnitude(DOUBLE, b);
    BinadeOf(n, ExponentField(DOUBLE, n));
    if ExponentField(DOUBLE, n) >= 1151 {
      DetourOverflow(b, mode);
    } else {
      CastOfTiny(b);
      ZeroConverts(FLOAT, CastToFloat(Reduced(b)), mode);
    }
  }

  /**
   The header's claim for all rounding modes is false: 2^128 toward zero comes out as infinity instead of the largest
   half, and 2^-150 upward as zero instead of the smallest.
   */
  lemma DetourFails()
    ensures var huge, tiny := 0x47F0_0000_0000_0000, 0x3690_0000_0000_0000;
            && SignedValue(DOUBLE, huge) == Exp2(128) && SignedValue(DOUBLE, tiny) == Exp2(-150)
            && Convert(FLOAT, HALF, RTZ, CastToFloat(Reduced(huge))) == 0x7C00
            && Convert(DOUBLE, HALF, RTZ, huge) == 0x7BFF
            && Convert(FLOAT, HALF, RTP, CastToFloat(Reduced(tiny))) == 0
            && Convert(DOUBLE, HALF, RTP, tiny) == 1
  {
    hide Exp2, Value, Reduced, Convert, CastToFloat, ExponentField, Trailing, Pow2;
    var huge, tiny := Encode(DOUBLE, 1151, 0), Encode(DOUBLE, 873, 0);
    DoubleLayout();
    HalfLayout();
    PowerValue(DOUBLE, 1151);
    PowerValue(DOUBLE, 873);
    Encoded(DOUBLE, 1151, 0);
    Encoded(DOUBLE, 873, 0);
    DetourOverflow(huge, RTZ);
    CastOfTiny(tiny);
    ZeroConverts(FLOAT, CastToFloat(Reduced(tiny)), RTP);
    Exp2Increases(-150, -126);
    TinyConverts(DOUBLE, tiny, RTP);
  }

  // ----- The code -----

  method ReduceDoubleForF16(val: U64) returns (f: U32)
    ensures f == CastToFloat(Reduced(val))
  {
    hide And, Or, Shl, Reduced, Convert, Low;
    ReducedWord(val);
    NothingReduced(val);
    var uLow := ToU32(val);
    var ui := And(val, 0xFFFF_FFFF_0000_0000);
    if uLow != 0 {
      ui := Or(ui, Shl(1, 32));
    }
    CastFits(val);
    f := CastToFloat(ui);
  }

  lemma NothingReduced(x: nat)
    ensures Low(x, 32) == 0 ==> Reduced(x) == x
  {
  }

  lemma CastFits(val: U64)
    ensures CastToFloat(Reduced(val)) < 0x1_0000_0000
  {
    hide Reduced, Convert;
    ReducedFields(val);
    FloatLayout();
    ConvertKeepsSign(DOUBLE, FLOAT, RTE, Reduced(val));
  }

  /**
   _mesa_double_to_float16_rtne, _rtz, _ru and _rd: reduce, cast, and convert the float.
   */
  method DoubleToFloat16(val: U64, mode: Mode) returns (h: U16)
    ensures IsFinite(DOUBLE, val) ==>
            (h == Convert(DOUBLE, HALF, mode, val) <==>
             !CastLoses(mode, Negative(DOUBLE, val), Value(DOUBLE, Magnitude(DOUBLE, val))))
    ensures IsFinite(DOUBLE, val) && CastLoses(mode, Negative(DOUBLE, val), Value(DOUBLE, Magnitude(DOUBLE, val))) ==>
            h == Pack(HALF, Negative(DOUBLE, val),
                      if Value(DOUBLE, Magnitude(DOUBLE, val)) >= Exp2(128) then InfMag(HALF) else 0)
    ensures !IsFinite(DOUBLE, val) ==> h == Convert(DOUBLE, HALF, mode, val)
  {
    hide Value, Reduced, Convert, CastToFloat, CastLoses, Magnitude, Negative, InfMag, KeptPayload;
    var f := ReduceDoubleForF16(val);
    match mode {
      case RTE => h := FloatToHalfSlow(f);
      case RTZ => h := FloatToHalfRtzSlow(f);
      case RTP => h := FloatToFloat16Ru(f);
      case RTN => h := FloatToFloat16Rd(f);
    }
    CastKind(val, f, mode);
    if IsFinite(DOUBLE, val) {
      DetourIsCorrectIff(val, mode);
      if CastLoses(mode, Negative(DOUBLE, val), Value(DOUBLE, Magnitude(DOUBLE, val))) {
        DetourOfLost(val, mode);
      }
    } else if IsNaN(DOUBLE, val) {
      DetourOfNaN(val, f, mode);
    }
  }

  /** The cast keeps NaNs NaNs and infinities infinities. */
  lemma CastKind(val: U64, f: U32, mode: Mode)
    requires f == CastToFloat(Reduced(val))
    ensures IsNaN(DOUBLE, val) <==> IsNaN(FLOAT, f)
    ensures IsInfinite(DOUBLE, val) ==> Convert(FLOAT, HALF, mode, f) == Convert(DOUBLE, HALF, mode, val)
  {
    hide Value, Reduced, Pow2, ExponentField, Trailing, Convert;
    var n := Magnitude(DOUBLE, val);
    ReducedFields(val);
    DoubleLayout();
    ReducedSpecial(val);
    ConvertKeepsSign(DOUBLE, FLOAT, RTE, Reduced(val));
    if IsFinite(DOUBLE, val) {
      ConvertIsCorrectlyRounded(DOUBLE, FLOAT, RTE, Reduced(val));
      RoundedIsRounding(FLOAT, RTE, Negative(DOUBLE, Reduced(val)), SignedValue(DOUBLE, Reduced(val)));
    } else {
      ConvertOfSpecial(DOUBLE, FLOAT, RTE, Reduced(val));
      if IsInfinite(DOUBLE, val) {
        InfinityConverts(DOUBLE, HALF, mode, val);
        InfinityStays(f, mode);
        ConvertKeepsSign(DOUBLE, HALF, mode, val);
        ConvertOfSpecial(DOUBLE, HALF, mode, val);
        SamePattern(HALF, Convert(FLOAT, HALF, mode, f), Convert(DOUBLE, HALF, mode, val));
      }
    }
  }

  /**
   A NaN that the cast has quieted keeps its quiet bit and its top payload bits: the half is the one the direct
   conversion gives.
   */
  lemma DetourOfNaN(val: U64, f: U32, mode: Mode)
    requires IsNaN(DOUBLE, val) && f == CastToFloat(Reduced(val))
    ensures Pack(HALF, Negative(FLOAT, f), InfMag(HALF) + KeptPayload(Trailing(FLOAT, Magnitude(FLOAT, f))))
         == Convert(DOUBLE, HALF, mode, val)
  {
    hide Value, Reduced, Pow2, ExponentField, Trailing, Convert, NarrowMag, Shr, Low;
    var t, t' := Trailing(DOUBLE, Magnitude(DOUBLE, val)), Trailing(DOUBLE, Magnitude(DOUBLE, Reduced(val)));
    ReducedFields(val);
    ReducedSpecial(val);
    ConvertKeepsSign(DOUBLE, FLOAT, RTE, Reduced(val));
    ConvertOfSpecial(DOUBLE, FLOAT, RTE, Reduced(val));
    ConvertKeepsSign(DOUBLE, HALF, mode, val);
    ConvertOfSpecial(DOUBLE, HALF, mode, val);
    Unpacked(HALF, Convert(DOUBLE, HALF, mode, val));
    SpecialFields(FLOAT, f);
    CastPayload(t);
  }

  lemma CastPayload(t: nat)
    ensures QuietBit(FLOAT) == 0x40_0000 && QuietBit(HALF) == 0x200
    ensures KeptPayload(0x40_0000 + Low(Shr(Reduced(t), 29), 22)) == 0x200 + Low(Shr(t, 42), 9)
  {
    hide Reduced, Pow2, Shr, Low;
    var x := Shr(Reduced(t), 29);
    Pow2Table();
    Pow2Sum(9, 13);
    ShrAboveLow(0x200, Low(x, 22), 13);
    ShrOfLow(x, 9, 13);
    ShrShr(Reduced(t), 29, 13);
    ReducedRoundsAlike(RTE, false, t, 42);
  }

  lemma ReducedSpecial(val: U64)
    ensures IsNaN(DOUBLE, Reduced(val)) <==> IsNaN(DOUBLE, val)
    ensures IsFinite(DOUBLE, Reduced(val)) <==> IsFinite(DOUBLE, val)
  {
    hide Value, Reduced, Pow2, ExponentField, Trailing;
    var n := Magnitude(DOUBLE, val);
    ReducedFields(val);
    FiniteField(DOUBLE, n);
    FiniteField(DOUBLE, Reduced(n));
    if !IsFinite(DOUBLE, val) {
      SpecialFields(DOUBLE, val);
      SpecialFields(DOUBLE, Reduced(val));
      DoubleHidden();
      ReducedBounds(Trailing(DOUBLE, n), 19);
    }
  }

  // ----- _mesa_float_is_half -----

  /** A half that is neither a NaN nor a denormal. */
  predicate IsNormalHalf(h: nat) {
    IsPattern(HALF, h) && !IsNaN(HALF, h) && (Magnitude(HALF, h) == 0 || Magnitude(HALF, h) >= 0x400)
  }

  /** By value: a zero, an infinity, or a number of magnitude 2^-14 or more. */
  lemma NormalHalfByValue(h: nat)
    requires IsPattern(HALF, h) && !IsNaN(HALF, h)
    ensures IsNormalHalf(h) <==>
            match Meaning(HALF, h)
            case Fin(x) => x == 0.0 || Abs(x) >= Exp2(-14)
            case _ => true
  {
    hide Value, Exp2, Pow2;
    var n := Magnitude(HALF, h);
    HalfLayout();
    PowerValue(HALF, 1);
    assert Encode(HALF, 1, 0) == 0x400;
    ValueOrder(HALF, 0x400, n);
    ValueNonnegative(HALF, n);
  }

  /** A double with the value and the sign of a half survives the cast, and the float converts to that half. */
  lemma HalfSurvivesDetour(val: U64, h: nat)
    requires IsFinite(DOUBLE, val) && IsPattern(HALF, h) && IsFinite(HALF, h)
    requires Negative(HALF, h) == Negative(DOUBLE, val) && SignedValue(HALF, h) == SignedValue(DOUBLE, val)
    ensures Convert(FLOAT, HALF, RTE, CastToFloat(val)) == h && IsFinite(FLOAT, CastToFloat(val))
  {
    hide Value, Convert, WidenMag, Rounded, Pow2;
    var neg, n := Negative(HALF, h), Magnitude(HALF, h);
    WidenExact(HALF, FLOAT, h);
    WidenMagFinite(HALF, FLOAT, n);
    WidenMagExact(HALF, FLOAT, n);
    ConvertIsCorrectlyRounded(DOUBLE, FLOAT, RTE, val);
    RoundedOfDatum(FLOAT, RTE, neg, WidenMag(HALF, FLOAT, n));
    RoundTrip(HALF, FLOAT, RTE, h);
  }

  /** The half of a double's value with the double's own sign; only zeros can differ in sign. */
  lemma SameSignedHalf(val: U64, h: nat)
    requires !IsNaN(DOUBLE, val) && IsNormalHalf(h) && Meaning(HALF, h) == Meaning(DOUBLE, val)
    ensures var h' := Pack(HALF, Negative(DOUBLE, val), Magnitude(HALF, h));
            && IsNormalHalf(h') && Magnitude(HALF, h') == Magnitude(HALF, h)
            && Negative(HALF, h') == Negative(DOUBLE, val) && Meaning(HALF, h') == Meaning(DOUBLE, val)
  {
    hide Value, Pow2;
    Packed(HALF, Negative(DOUBLE, val), Magnitude(HALF, h));
    ValueNonnegative(HALF, Magnitude(HALF, h));
    ValueNonnegative(DOUBLE, Magnitude(DOUBLE, val));
  }

  lemma DetourFindsHalf(val: U64, h: nat)
    requires !IsNaN(DOUBLE, val) && IsNormalHalf(h) && Meaning(HALF, h) == Meaning(DOUBLE, val)
    ensures var found := Convert(FLOAT, HALF, RTE, CastToFloat(val));
            IsNormalHalf(found) && Meaning(HALF, found) == Meaning(DOUBLE, val) && !IsNaN(FLOAT, CastToFloat(val))
  {
    hide Value, Convert, CastToFloat, Pow2, Pack;
    SameSignedHalf(val, h);
    DoubleLayout();
    if IsFinite(DOUBLE, val) {
      HalfSurvivesDetour(val, Pack(HALF, Negative(DOUBLE, val), Magnitude(HALF, h)));
    } else {
      InfinityDetour(val);
    }
  }

  lemma InfinityDetour(val: U64)
    requires IsInfinite(DOUBLE, val)
    ensures var found := Convert(FLOAT, HALF, RTE, CastToFloat(val));
            IsNormalHalf(found) && Meaning(HALF, found) == Meaning(DOUBLE, val) && !IsNaN(FLOAT, CastToFloat(val))
  {
    hide Value, Convert, Pow2;
    DoubleLayout();
    HalfLayout();
    var f := CastToFloat(val);
    ConvertKeepsSign(DOUBLE, FLOAT, RTE, val);
    ConvertOfSpecial(DOUBLE, FLOAT, RTE, val);
    ConvertKeepsSign(FLOAT, HALF, RTE, f);
    ConvertOfSpecial(FLOAT, HALF, RTE, f);
  }

  lemma CastFitsWord(val: U64)
    ensures CastToFloat(val) < 0x1_0000_0000
  {
    hide Convert;
    DoubleLayout();
    FloatLayout();
    ConvertKeepsSign(DOUBLE, FLOAT, RTE, val);
  }

  /**
   Whether a double is exactly a half that is not a denormal. Rounding twice on the way is harmless, as the header
   argues: the answer is right for every double.
   */
  method FloatIsHalf(val: U64) returns (b: bool)
    ensures b <==> !IsNaN(DOUBLE, val) && exists h: nat :: IsNormalHalf(h) && Meaning(HALF, h) == Meaning(DOUBLE, val)
  {
    hide Value, Convert, CastToFloat, Meaning, Widen, Magnitude, Negative, KeptPayload, And, InfMag;
    CastFitsWord(val);
    var f: U32 := CastToFloat(val);
    var fp16 := FloatToHalfSlow(f);
    HalfWordParts(fp16);
    var isDenorm := And(fp16, 0x7FFF) != 0 && And(fp16, 0x7FFF) <= 0x3FF;
    var back := HalfToFloatSlow(fp16);
    WidenedKind(fp16, back);
    HalfMagnitudes(fp16);
    b := !IsNaN(DOUBLE, val) && !IsNaN(FLOAT, back) && Meaning(DOUBLE, val) == Meaning(FLOAT, back) && !isDenorm;
    if !IsNaN(HALF, fp16) {
      WidenMeaning(HALF, FLOAT, fp16);
    }
    if b {
      assert IsNormalHalf(fp16) && Meaning(HALF, fp16) == Meaning(DOUBLE, val);
    }
    if !IsNaN(DOUBLE, val) && exists h: nat :: IsNormalHalf(h) && Meaning(HALF, h) == Meaning(DOUBLE, val) {
      var h: nat :| IsNormalHalf(h) && Meaning(HALF, h) == Meaning(DOUBLE, val);
      DetourFindsHalf(val, h);
    }
  }
}
